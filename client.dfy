/**
  The client loop: on every timer tick it sends a probe carrying its send
  counter to the remote peer, and it classifies every datagram it receives.
  Each iteration of the `tokio::select!` loop handles one event; which event
  comes next is the caller's choice.
 */
module ClientLoop {
  import opened Bytes
  import opened Decimal
  import opened Probe
  import opened Transport

  /** What the select in one iteration resolved to. */
  datatype Event =
    | Tick(sendOk: bool)                     // the interval fired; `send_to` succeeded or failed
    | Recv(data: seq<Byte>, src: SocketAddr) // `recv_from` delivered `data` from `src`
    | RecvErr                                // `recv_from` failed: the branch is disabled

  /** What one iteration did (the branch it logged). */
  datatype Outcome =
    | Sent(to: SocketAddr, message: seq<Byte>, count: U64)
    | SendFailed(to: SocketAddr, message: seq<Byte>)
    | Received(src: SocketAddr, inbound: Inbound)
    | RecvIgnored

  /** 1 for an event that increments the send counter. */
  function Increment(ev: Event): nat {
    if ev == Tick(true) then 1 else 0
  }

  /** How many events of `events` are successful sends. */
  function SentCount(events: seq<Event>): (n: nat)
    ensures n <= |events|
  {
    if events == [] then 0 else Increment(events[0]) + SentCount(events[1..])
  }

  /**
    The outcome of handling `ev` when the counter holds `count`: a tick
    sends the probe for `count`; a receive is classified on the datagram alone.
   */
  function StepOutcome(remote: SocketAddr, count: U64, ev: Event): Outcome {
    match ev
    case Tick(sendOk) =>
      if sendOk then Sent(remote, Encode(count), count) else SendFailed(remote, Encode(count))
    case Recv(data, src) => Received(src, Classify(data, |data|))
    case RecvErr => RecvIgnored
  }

  /** The outcomes of handling `events` in order, starting with the counter at `count`. */
  function RunOutcomes(remote: SocketAddr, count: U64, events: seq<Event>): (outs: seq<Outcome>)
    requires count + SentCount(events) <= U64Max
    ensures |outs| == |events|
    decreases |events|
  {
    if events == [] then []
    else [StepOutcome(remote, count, events[0])] + RunOutcomes(remote, count + Increment(events[0]), events[1..])
  }

  /** The datagrams that `events` deliver into the receive buffer, in order. */
  function Datagrams(events: seq<Event>): seq<seq<Byte>> {
    if events == [] then []
    else (if events[0].Recv? then [events[0].data] else []) + Datagrams(events[1..])
  }

  /** The counters carried by the probes that were sent, in order. */
  function SentCounters(outs: seq<Outcome>): seq<nat> {
    if outs == [] then []
    else (if outs[0].Sent? then [outs[0].count] else []) + SentCounters(outs[1..])
  }

  /** The `n` consecutive numbers from `lo`. */
  function Consecutive(lo: nat, n: nat): (r: seq<nat>)
    ensures |r| == n
    decreases n
  {
    if n == 0 then [] else [lo] + Consecutive(lo + 1, n - 1)
  }

  /**
    The probes that leave the client carry consecutive counters, starting at
    the initial count: no value is skipped and none is sent twice, whatever
    failed sends and receives come between them.
   */
  lemma {:induction false} SentCountersConsecutive(remote: SocketAddr, count: U64, events: seq<Event>)
    requires count + SentCount(events) <= U64Max
    ensures SentCounters(RunOutcomes(remote, count, events)) == Consecutive(count, SentCount(events))
    decreases |events|
  {
    if events != [] {
      var outs := RunOutcomes(remote, count, events);
      var next := count + Increment(events[0]);
      SentCountersConsecutive(remote, next, events[1..]);
      assert outs[1..] == RunOutcomes(remote, next, events[1..]);
      assert outs[0].Sent? <==> events[0] == Tick(true);
    }
  }

  /**
    The bytes of every probe that leaves the client are the probe format for
    the counter that outcome records.
   */
  lemma {:induction false} SentMessagesEncode(remote: SocketAddr, count: U64, events: seq<Event>, k: nat)
    requires count + SentCount(events) <= U64Max
    requires k < |events| && RunOutcomes(remote, count, events)[k].Sent?
    ensures RunOutcomes(remote, count, events)[k].message == Encode(RunOutcomes(remote, count, events)[k].count)
    decreases k
  {
    if k > 0 {
      SentMessagesEncode(remote, count + Increment(events[0]), events[1..], k - 1);
    }
  }

  /**
    What `Run` knows after `i` iterations, starting from counter `count0` and
    buffer `buf0`: the counter, the outcomes so far and the buffer, each
    together with what the remaining events will still do to it.
   */
  ghost predicate RunSoFar(remote: SocketAddr, count0: U64, buf0: seq<Byte>, events: seq<Event>, i: nat,
                           outs: seq<Outcome>, count: U64, buf: seq<Byte>)
  {
    && i <= |events| && |buf| == |buf0|
    && AllFit(Datagrams(events), |buf0|) && AllFit(Datagrams(events[i..]), |buf|)
    && count0 + SentCount(events) <= U64Max
    && count + SentCount(events[i..]) == count0 + SentCount(events)
    && outs + RunOutcomes(remote, count, events[i..]) == RunOutcomes(remote, count0, events)
    && ReceiveAll(buf, Datagrams(events[i..])) == ReceiveAll(buf0, Datagrams(events))
  }

  /** Before the first iteration. */
  lemma RunStart(remote: SocketAddr, count0: U64, buf0: seq<Byte>, events: seq<Event>)
    requires AllFit(Datagrams(events), |buf0|) && count0 + SentCount(events) <= U64Max
    ensures RunSoFar(remote, count0, buf0, events, 0, [], count0, buf0)
  {
    assert events[0..] == events;
    assert [] + RunOutcomes(remote, count0, events) == RunOutcomes(remote, count0, events);
  }

  /** After the last iteration. */
  lemma RunDone(remote: SocketAddr, count0: U64, buf0: seq<Byte>, events: seq<Event>,
                outs: seq<Outcome>, count: U64, buf: seq<Byte>)
    requires RunSoFar(remote, count0, buf0, events, |events|, outs, count, buf)
    ensures count == count0 + SentCount(events)
    ensures outs == RunOutcomes(remote, count0, events)
    ensures buf == ReceiveAll(buf0, Datagrams(events))
  {
    assert events[|events|..] == [];
    assert outs + [] == outs;
  }

  /** One more step keeps `RunSoFar`. */
  lemma RunStep(remote: SocketAddr, count0: U64, buf0: seq<Byte>, events: seq<Event>, i: nat,
                outs: seq<Outcome>, count: U64, buf: seq<Byte>)
    requires i < |events| && RunSoFar(remote, count0, buf0, events, i, outs, count, buf)
    ensures events[i].Recv? ==> |events[i].data| <= |buf|
    ensures events[i] == Tick(true) ==> count < U64Max
    ensures RunSoFar(remote, count0, buf0, events, i + 1,
                     outs + [StepOutcome(remote, count, events[i])],
                     count + Increment(events[i]),
                     if events[i].Recv? then Overwrite(buf, events[i].data) else buf)
  {
    assert events[i..][1..] == events[i + 1..];
    var rest := RunOutcomes(remote, count + Increment(events[i]), events[i + 1..]);
    assert RunOutcomes(remote, count, events[i..]) == [StepOutcome(remote, count, events[i])] + rest;
    assert outs + [StepOutcome(remote, count, events[i])] + rest == outs + ([StepOutcome(remote, count, events[i])] + rest);
    var first := if events[i].Recv? then [events[i].data] else [];
    assert Datagrams(events[i..]) == first + Datagrams(events[i + 1..]);
    ReceiveAllStep(buf, first, Datagrams(events[i + 1..]));
  }

  class Client {
    const remote: SocketAddr
    const buf: array<Byte>
    var sendCount: U64

    ghost predicate Valid()
      reads this
    {
      buf.Length == BufferSize
    }

    /** The loop's state when it starts: counter 0, a zeroed 64 KiB buffer. */
    constructor (remote: SocketAddr)
      ensures Valid() && fresh(buf)
      ensures this.remote == remote && sendCount == 0
      ensures forall i :: 0 <= i < buf.Length ==> buf[i] == 0
    {
      this.remote := remote;
      buf := new Byte[BufferSize](_ => 0);
      sendCount := 0;
    }

    /**
      One iteration of the loop. Only a tick whose send succeeded increments
      the counter; a received datagram is classified from `buf[..len]`.
     */
    method Step(ev: Event) returns (out: Outcome)
      requires Valid()
      requires ev.Recv? ==> |ev.data| <= BufferSize
      requires ev == Tick(true) ==> sendCount < U64Max
      modifies this, buf
      ensures Valid()
      ensures sendCount == old(sendCount) + Increment(ev)
      ensures out == StepOutcome(remote, old(sendCount), ev)
      ensures buf[..] == if ev.Recv? then Overwrite(old(buf[..]), ev.data) else old(buf[..])
    {
      match ev
      case Tick(sendOk) =>
        var message := Encode(sendCount);
        if sendOk {
          out := Sent(remote, message, sendCount);
          sendCount := sendCount + 1;
        } else {
          out := SendFailed(remote, message);
        }
      case Recv(data, src) =>
        ReceiveInto(buf, data);
        var len := |data|;
        out := Received(src, Classify(buf[..], len));
        ClassifyReadsOnlyPrefix(buf[..], data, len);
        assert data[..len] == data;
      case RecvErr =>
        out := RecvIgnored;
    }

    /** Handle `events` one per iteration, in order. */
    method Run(events: seq<Event>) returns (outs: seq<Outcome>)
      requires Valid()
      requires AllFit(Datagrams(events), BufferSize)
      requires sendCount + SentCount(events) <= U64Max
      modifies this, buf
      ensures Valid()
      ensures sendCount == old(sendCount) + SentCount(events)
      ensures outs == RunOutcomes(remote, old(sendCount), events)
      ensures buf[..] == ReceiveAll(old(buf[..]), Datagrams(events))
    {
      outs := [];
      var i := 0;
      RunStart(remote, sendCount, buf[..], events);
      while i < |events|
        invariant Valid()
        invariant RunSoFar(remote, old(sendCount), old(buf[..]), events, i, outs, sendCount, buf[..])
      {
        RunStep(remote, old(sendCount), old(buf[..]), events, i, outs, sendCount, buf[..]);
        var out := Step(events[i]);
        outs := outs + [out];
        i := i + 1;
      }
      RunDone(remote, old(sendCount), old(buf[..]), events, outs, sendCount, buf[..]);
    }
  }
}
