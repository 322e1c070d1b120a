/**
  What both loops take from the bound socket: peer addresses, the reused
  64 KiB receive buffer, and the effect of a successful `recv_from` on it.
 */
module Transport {
  import opened Bytes

  /**
    A SCION socket address. The loops only copy addresses and compare them
    for equality, so their inner structure is not modelled beyond this.
   */
  datatype SocketAddr = SocketAddr(isdAs: nat, host: seq<Byte>, port: nat)

  /** Capacity of the receive buffer, `vec![0u8; 65536]`. */
  const BufferSize: nat := 65536

  /** The buffer after a datagram `data` was received into it: its prefix is overwritten, the rest kept. */
  function Overwrite(buf: seq<Byte>, data: seq<Byte>): (r: seq<Byte>)
    requires |data| <= |buf|
    ensures |r| == |buf|
    ensures r[..|data|] == data && r[|data|..] == buf[|data|..]
  {
    data + buf[|data|..]
  }

  /** Every datagram of `datagrams` fits in a buffer of `capacity` bytes. */
  predicate AllFit(datagrams: seq<seq<Byte>>, capacity: nat) {
    forall i :: 0 <= i < |datagrams| ==> |datagrams[i]| <= capacity
  }

  /**
    The buffer after `datagrams` were received into it one after the other:
    it keeps its size and starts with the last of them.
   */
  function ReceiveAll(buf: seq<Byte>, datagrams: seq<seq<Byte>>): (r: seq<Byte>)
    requires AllFit(datagrams, |buf|)
    ensures |r| == |buf|
    ensures datagrams != [] ==> r[..|datagrams[|datagrams| - 1]|] == datagrams[|datagrams| - 1]
    decreases |datagrams|
  {
    if datagrams == [] then buf else ReceiveAll(Overwrite(buf, datagrams[0]), datagrams[1..])
  }

  /**
    One loop iteration's share of `ReceiveAll`: `first` is what the
    iteration received (nothing, or one datagram), `rest` what later ones will.
   */
  lemma ReceiveAllStep(buf: seq<Byte>, first: seq<seq<Byte>>, rest: seq<seq<Byte>>)
    requires |first| <= 1 && AllFit(first + rest, |buf|)
    ensures first != [] ==> |first[0]| <= |buf|
    ensures AllFit(rest, |buf|)
    ensures ReceiveAll(buf, first + rest) == ReceiveAll(if first == [] then buf else Overwrite(buf, first[0]), rest)
  {
    assert forall k :: 0 <= k < |rest| ==> rest[k] == (first + rest)[k + |first|];
    if first == [] {
      assert first + rest == rest;
    } else {
      assert (first + rest)[1..] == rest;
    }
  }

  /**
    A successful `recv_from(&mut buf)` that reports `|data|` bytes: the
    datagram lands at the start of the buffer and the bytes after it keep
    whatever earlier receives left there.
   */
  method ReceiveInto(buf: array<Byte>, data: seq<Byte>)
    requires |data| <= buf.Length
    modifies buf
    ensures buf[..] == Overwrite(old(buf[..]), data)
  {
    forall i | 0 <= i < |data| {
      buf[i] := data[i];
    }
    assert buf[..] == Overwrite(old(buf[..]), data);
  }
}
