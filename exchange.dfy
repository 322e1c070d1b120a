/** The two roles together: a probe that the server echoes comes back to the client intact. */
module Exchange {
  import opened Decimal
  import opened Probe
  import opened Transport
  import ClientLoop
  import ServerLoop

  /**
    The probe for `count`, echoed by the server to the client's address and
    received by the client (whatever its own counter `k`), is recognised as
    carrying `count`; the receive leaves the client's counter alone.
   */
  lemma ProbeEchoedBack(count: U64, client: SocketAddr, server: SocketAddr, k: U64)
    ensures ServerLoop.EchoOutcome(ServerLoop.Recv(Encode(count), client, true)) ==
              ServerLoop.Echoed(Encode(count), client)
    ensures ClientLoop.StepOutcome(server, k, ClientLoop.Recv(Encode(count), server)) ==
              ClientLoop.Received(server, Counter(count))
    ensures ClientLoop.Increment(ClientLoop.Recv(Encode(count), server)) == 0
  {
    ClassifyEncode(count, []);
    assert Encode(count) + [] == Encode(count);
  }

  /**
    One exchange on the two loops: the client sends
    `Ping send_count=0` (17 bytes), the server echoes those 17 bytes, and the
    client logs the receipt of counter 0 with its counter left at 1.
   */
  method EchoScenario(clientAddr: SocketAddr, serverAddr: SocketAddr)
  {
    var c := new ClientLoop.Client(serverAddr);
    var s := new ServerLoop.EchoServer();
    var sent := c.Step(ClientLoop.Tick(true));
    assert sent == ClientLoop.Sent(serverAddr, Encode(0), 0);
    assert |DecimalDigits(0)| == 1;
    assert |Encode(0)| == 17;
    var echoed := s.Step(ServerLoop.Recv(sent.message, clientAddr, true));
    assert echoed == ServerLoop.Echoed(Encode(0), clientAddr);
    var got := c.Step(ClientLoop.Recv(echoed.payload, serverAddr));
    ProbeEchoedBack(0, clientAddr, serverAddr, 1);
    assert got == ClientLoop.Received(serverAddr, Counter(0));
    assert c.sendCount == 1;
  }
}
