/**
  The probe wire format of the client: a 16-byte ASCII tag followed by the
  decimal text of the send counter, and the sorting of an inbound datagram
  into one of four outcomes.
 */
module Probe {
  import opened Results
  import opened Bytes
  import opened Decimal

  const TagLength: nat := 16

  /** The tag `b"Ping send_count="`, byte by byte. */
  const Tag: seq<Byte> :=
    [ 0x50, 0x69, 0x6E, 0x67, 0x20,                               // "Ping "
      0x73, 0x65, 0x6E, 0x64, 0x5F, 0x63, 0x6F, 0x75, 0x6E, 0x74, // "send_count"
      0x3D ]                                                      // "="

  const TagText: string := "Ping send_count="

  /** `Tag` holds the ASCII codes of `TagText`. */
  lemma TagSpellsTagText()
    ensures |Tag| == |TagText| == TagLength
    ensures forall i :: 0 <= i < TagLength ==> Tag[i] as int == TagText[i] as int
  {
  }

  /** What the client makes of one received datagram (one branch of its log). */
  datatype Inbound =
    | TooShort                          // fewer than 16 bytes: "not enough data"
    | Counter(count: U64)               // tagged, counter parsed: "received ping"
    | BadCounter(error: IntErrorKind)   // tagged, counter rejected: "failed to parse send_count"
    | UnknownFormat(payload: seq<Byte>) // not tagged: the bytes go to the log

  /** The probe sent for counter `count`, `b"Ping send_count=" + count.to_string()`. */
  function Encode(count: U64): seq<Byte> {
    Tag + DecimalDigits(count)
  }

  /**
    The probe for `count` is the tag, then the shortest decimal digits of
    `count`, with no sign and no padding.
   */
  lemma EncodeSpec(count: U64)
    ensures |Encode(count)| > TagLength && Encode(count)[..TagLength] == Tag
    ensures IsDecimal(Encode(count)[TagLength..]) && NoLeadingZero(Encode(count)[TagLength..])
    ensures DecimalValue(Encode(count)[TagLength..]) == count
  {
    assert Encode(count)[TagLength..] == DecimalDigits(count);
  }

  /**
    Sort the datagram held in `buf[..len]`: the tag is compared only when at
    least 16 bytes arrived, and the counter text is `buf[16..len]`.
   */
  function Classify(buf: seq<Byte>, len: nat): Inbound
    requires len <= |buf|
  {
    if len < TagLength then
      TooShort
    else if buf[..TagLength] == Tag then
      match ParseU64(buf[TagLength..len])
      case Ok(count) => Counter(count)
      case Err(e) => BadCounter(e)
    else
      UnknownFormat(buf[..len])
  }

  /**
    The four outcomes: fewer than 16 bytes is too short whatever the bytes
    are; 16 or more bytes not starting with the tag is an unknown format
    carrying the whole datagram; a tagged datagram either yields a counter
    or a parse error.
   */
  lemma ClassifyCases(buf: seq<Byte>, len: nat)
    requires len <= |buf|
    ensures len < TagLength ==> Classify(buf, len) == TooShort
    ensures len >= TagLength && buf[..TagLength] != Tag ==> Classify(buf, len) == UnknownFormat(buf[..len])
    ensures len >= TagLength && buf[..TagLength] == Tag ==>
              Classify(buf, len).Counter? || Classify(buf, len).BadCounter?
  {
  }

  /** A probe is exactly the tag plus the canonical digits of its counter: nothing else encodes `count`. */
  lemma EncodeUnique(m: seq<Byte>, count: U64)
    requires |m| > TagLength && m[..TagLength] == Tag
    requires IsDecimal(m[TagLength..]) && NoLeadingZero(m[TagLength..])
    requires DecimalValue(m[TagLength..]) == count
    ensures m == Encode(count)
  {
    DecimalDigitsUnique(m[TagLength..]);
    assert m == m[..TagLength] + m[TagLength..];
    var e := Encode(count);
    EncodeSpec(count);
    assert e == e[..TagLength] + e[TagLength..];
    DecimalDigitsUnique(e[TagLength..]);
  }

  /** Bytes at index `len` and beyond, left over from earlier receives, never change the outcome. */
  lemma ClassifyReadsOnlyPrefix(buf1: seq<Byte>, buf2: seq<Byte>, len: nat)
    requires len <= |buf1| && len <= |buf2|
    requires buf1[..len] == buf2[..len]
    ensures Classify(buf1, len) == Classify(buf2, len)
  {
    if len >= TagLength {
      assert buf1[..TagLength] == buf1[..len][..TagLength];
      assert buf2[..TagLength] == buf2[..len][..TagLength];
      assert buf1[TagLength..len] == buf1[..len][TagLength..];
      assert buf2[TagLength..len] == buf2[..len][TagLength..];
    }
  }

  /**
    Round trip over the whole `u64` range: the probe for `count`, received
    with its own length into a buffer holding any stale bytes after it, is
    classified as carrying `count`.
   */
  lemma ClassifyEncode(count: U64, stale: seq<Byte>)
    ensures Classify(Encode(count) + stale, |Encode(count)|) == Counter(count)
  {
    var m := Encode(count);
    EncodeSpec(count);
    var buf := m + stale;
    assert buf[..TagLength] == m[..TagLength];
    assert buf[TagLength..|m|] == m[TagLength..];
    assert m[TagLength..] == DecimalDigits(count) by {
      DecimalDigitsUnique(m[TagLength..]);
    }
    ParseDecimalDigits(count);
  }

  /**
    A datagram is accepted as a probe exactly when it carries the tag and its
    counter text is an optional '+' and digits of value at most 2^64 - 1; the
    counter is then the value of those digits, with or without the '+'.
   */
  lemma ClassifyCounterIff(buf: seq<Byte>, len: nat)
    requires len <= |buf|
    ensures Classify(buf, len).Counter? <==>
              len >= TagLength && buf[..TagLength] == Tag && WellFormedU64(buf[TagLength..len])
    ensures len >= TagLength && buf[..TagLength] == Tag &&
            IsDecimal(buf[TagLength..len]) && DecimalValue(buf[TagLength..len]) <= U64Max ==>
              Classify(buf, len) == Counter(DecimalValue(buf[TagLength..len]))
    ensures len > TagLength + 1 && buf[..TagLength] == Tag && buf[TagLength] == Plus &&
            IsDecimal(buf[TagLength + 1..len]) && DecimalValue(buf[TagLength + 1..len]) <= U64Max ==>
              Classify(buf, len) == Counter(DecimalValue(buf[TagLength + 1..len]))
  {
    if len >= TagLength {
      ParseU64Accepts(buf[TagLength..len]);
      ParseU64Value(buf[TagLength..len]);
      if len > TagLength + 1 {
        assert buf[TagLength..len][1..] == buf[TagLength + 1..len];
      }
    }
  }

  /** Exactly the tag and nothing after it: an empty counter text, a parse error and not a crash. */
  lemma ClassifyTagOnly(stale: seq<Byte>)
    ensures Classify(Tag + stale, TagLength) == BadCounter(Empty)
  {
    var buf := Tag + stale;
    assert buf[..TagLength] == Tag;
    assert buf[TagLength..TagLength] == [];
  }
}
