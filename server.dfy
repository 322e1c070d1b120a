/**
  The echo server: it receives datagrams into one reused 64 KiB buffer and
  sends each non-empty one back, byte for byte, to the address it came from.
 */
module ServerLoop {
  import opened Results
  import opened Bytes
  import opened Transport

  /** What one `recv_from` of the loop returned, and whether the echo's `send_to` then succeeded. */
  datatype Event =
    | Recv(data: seq<Byte>, src: SocketAddr, sendOk: bool)
    | RecvErr

  /** What one iteration did (the branch it logged). */
  datatype Outcome =
    | RecvIgnored                               // failed receive: nothing logged, nothing sent
    | EmptyDiscarded(src: SocketAddr)           // zero-length datagram: warning, no echo
    | Echoed(payload: seq<Byte>, to: SocketAddr)     // echo sent
    | EchoFailed(payload: seq<Byte>, to: SocketAddr) // echo attempted, `send_to` failed: warning

  /** The warning logged before the loop when the socket is not bound where it was asked to listen. */
  datatype AddressMismatch = AddressMismatch(bound: SocketAddr, requested: SocketAddr)

  /** Setup: compare the socket's bound address with the requested listen address. */
  function ListenAddressCheck(bound: SocketAddr, requested: SocketAddr): (w: Option<AddressMismatch>)
    ensures w.Some? <==> bound != requested
    ensures w.Some? ==> w.value.bound == bound && w.value.requested == requested
  {
    if bound != requested then Some(AddressMismatch(bound, requested)) else None
  }

  /**
    The datagram to send for a receive of `len` bytes from `src`, taken from
    the buffer `buf` as it stands after the receive: nothing for an empty
    datagram, otherwise `buf[..len]`.
   */
  function Reply(buf: seq<Byte>, len: nat, src: SocketAddr): Option<(seq<Byte>, SocketAddr)>
    requires len <= |buf|
  {
    if len == 0 then None else Some((buf[..len], src))
  }

  /**
    Stale bytes never leak: whatever earlier, longer datagrams left in the
    buffer, the reply to `data` is `data` itself, sent back to its source,
    and an empty datagram gets no reply.
   */
  lemma ReplyIsDatagram(buf: seq<Byte>, data: seq<Byte>, src: SocketAddr)
    requires |data| <= |buf|
    ensures Reply(Overwrite(buf, data), |data|, src) == if data == [] then None else Some((data, src))
  {
  }

  /** The outcome of one iteration, in terms of the event alone. */
  function EchoOutcome(ev: Event): Outcome {
    match ev
    case RecvErr => RecvIgnored
    case Recv(data, src, sendOk) =>
      if data == [] then EmptyDiscarded(src)
      else if sendOk then Echoed(data, src)
      else EchoFailed(data, src)
  }

  /** The datagrams that `events` deliver into the receive buffer, in order. */
  function Datagrams(events: seq<Event>): seq<seq<Byte>> {
    if events == [] then []
    else (if events[0].Recv? then [events[0].data] else []) + Datagrams(events[1..])
  }

  /**
    What `Serve` knows after `i` iterations, starting from buffer `buf0`: the
    outcomes so far, and the buffer together with what the remaining events
    will still do to it.
   */
  ghost predicate ServeSoFar(buf0: seq<Byte>, events: seq<Event>, i: nat, outs: seq<Outcome>, buf: seq<Byte>)
  {
    && i <= |events| && |buf| == |buf0|
    && AllFit(Datagrams(events), |buf0|) && AllFit(Datagrams(events[i..]), |buf|)
    && |outs| == i && (forall k :: 0 <= k < i ==> outs[k] == EchoOutcome(events[k]))
    && ReceiveAll(buf, Datagrams(events[i..])) == ReceiveAll(buf0, Datagrams(events))
  }

  /** One more iteration keeps `ServeSoFar`. */
  lemma ServeStep(buf0: seq<Byte>, events: seq<Event>, i: nat, outs: seq<Outcome>, buf: seq<Byte>)
    requires i < |events| && ServeSoFar(buf0, events, i, outs, buf)
    ensures events[i].Recv? ==> |events[i].data| <= |buf|
    ensures ServeSoFar(buf0, events, i + 1, outs + [EchoOutcome(events[i])],
                       if events[i].Recv? then Overwrite(buf, events[i].data) else buf)
  {
    assert events[i..][1..] == events[i + 1..];
    var first := if events[i].Recv? then [events[i].data] else [];
    assert Datagrams(events[i..]) == first + Datagrams(events[i + 1..]);
    ReceiveAllStep(buf, first, Datagrams(events[i + 1..]));
  }

  class EchoServer {
    const buf: array<Byte>

    ghost predicate Valid()
      reads this
    {
      buf.Length == BufferSize
    }

    /** The loop's state when it starts: a zeroed 64 KiB buffer. */
    constructor ()
      ensures Valid() && fresh(buf)
      ensures forall i :: 0 <= i < buf.Length ==> buf[i] == 0
    {
      buf := new Byte[BufferSize](_ => 0);
    }

    /**
      One iteration of the loop: receive into the buffer, then echo
      `buf[..len]` to the source unless the datagram was empty. Neither a
      failed receive nor a failed send stops the loop.
     */
    method Step(ev: Event) returns (out: Outcome)
      requires Valid()
      requires ev.Recv? ==> |ev.data| <= BufferSize
      modifies buf
      ensures out == EchoOutcome(ev)
      ensures buf[..] == if ev.Recv? then Overwrite(old(buf[..]), ev.data) else old(buf[..])
    {
      match ev
      case RecvErr =>
        out := RecvIgnored;
      case Recv(data, src, sendOk) =>
        ghost var before := buf[..];
        ReceiveInto(buf, data);
        ReplyIsDatagram(before, data, src);
        match Reply(buf[..], |data|, src)
        case None =>
          out := EmptyDiscarded(src);
        case Some((payload, to)) =>
          if sendOk {
            out := Echoed(payload, to);
          } else {
            out := EchoFailed(payload, to);
          }
    }

    /** Serve `events` one per iteration; each outcome depends on its own event only. */
    method Serve(events: seq<Event>) returns (outs: seq<Outcome>)
      requires Valid()
      requires AllFit(Datagrams(events), BufferSize)
      modifies buf
      ensures |outs| == |events|
      ensures forall i :: 0 <= i < |events| ==> outs[i] == EchoOutcome(events[i])
      ensures buf[..] == ReceiveAll(old(buf[..]), Datagrams(events))
    {
      outs := [];
      var i := 0;
      assert events[0..] == events;
      while i < |events|
        invariant ServeSoFar(old(buf[..]), events, i, outs, buf[..])
      {
        ServeStep(old(buf[..]), events, i, outs, buf[..]);
        var out := Step(events[i]);
        outs := outs + [out];
        i := i + 1;
      }
      assert events[i..] == [];
    }
  }
}
