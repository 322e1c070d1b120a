/**
  Decimal text of unsigned 64-bit integers, on bytes: what Rust's standard
  library writes for `u64::to_string` and what `str::parse::<u64>` accepts.
 */
module Decimal {
  import opened Results
  import opened Bytes

  const U64Max: nat := 0xFFFF_FFFF_FFFF_FFFF

  /** Rust's `u64`. */
  type U64 = n: nat | n <= U64Max

  const Zero: Byte := 0x30   // '0'
  const Plus: Byte := 0x2B   // '+'
  const Minus: Byte := 0x2D  // '-'

  /** Why a parse failed, after Rust's `IntErrorKind`. */
  datatype IntErrorKind = Empty | InvalidDigit | PosOverflow

  predicate IsDigit(b: Byte) {
    0x30 <= b <= 0x39
  }

  predicate AllDigits(s: seq<Byte>) {
    forall i :: 0 <= i < |s| ==> IsDigit(s[i])
  }

  /** One or more ASCII digits. */
  predicate IsDecimal(s: seq<Byte>) {
    |s| > 0 && AllDigits(s)
  }

  /** No padding: a leading '0' only in the text "0" itself. */
  predicate NoLeadingZero(s: seq<Byte>)
    requires |s| > 0
  {
    |s| == 1 || s[0] != Zero
  }

  function DigitValue(b: Byte): (d: nat)
    requires IsDigit(b)
    ensures d < 10
  {
    (b - Zero) as nat
  }

  function DigitByte(d: nat): (b: Byte)
    requires d < 10
    ensures IsDigit(b) && DigitValue(b) == d
  {
    (d + 0x30) as Byte
  }

  /** The number a digit string denotes, most significant digit first. */
  function DecimalValue(s: seq<Byte>): nat
    requires AllDigits(s)
  {
    if s == [] then 0 else DecimalValue(s[..|s| - 1]) * 10 + DigitValue(s[|s| - 1])
  }

  /** `n.to_string()`: the shortest decimal text of `n`, without sign or padding. */
  function DecimalDigits(n: nat): (r: seq<Byte>)
    ensures IsDecimal(r) && NoLeadingZero(r)
    ensures DecimalValue(r) == n
  {
    if n < 10 then
      [DigitByte(n)]
    else
      var q := DecimalDigits(n / 10);
      var r := q + [DigitByte(n % 10)];
      assert r[..|r| - 1] == q;
      r
  }

  /**
    `<u64 as FromStr>::from_str`, read on the bytes of the text: the empty text
    is `Empty`; a lone sign is `InvalidDigit`; one leading '+' is skipped ('-'
    is not a sign for an unsigned type, so it is an invalid digit); then the
    digits are accumulated left to right.
   */
  function ParseU64(s: seq<Byte>): (r: Result<U64, IntErrorKind>)
  {
    if s == [] then Err(Empty)
    else if (s[0] == Plus || s[0] == Minus) && |s| == 1 then Err(InvalidDigit)
    else if s[0] == Plus then Accumulate(s[1..], 0)
    else Accumulate(s, 0)
  }

  /**
    The digit loop of `from_str`: for each byte, a non-digit is `InvalidDigit`
    before `acc * 10` (checked_mul) and `+ digit` (checked_add) can report
    `PosOverflow`.
   */
  function Accumulate(ds: seq<Byte>, acc: U64): (r: Result<U64, IntErrorKind>)
    ensures r.Ok? ==> acc <= r.value
    ensures r != Err(Empty)
    decreases |ds|
  {
    if ds == [] then Ok(acc)
    else if !IsDigit(ds[0]) then Err(InvalidDigit)
    else if acc * 10 > U64Max then Err(PosOverflow)
    else if acc * 10 + DigitValue(ds[0]) > U64Max then Err(PosOverflow)
    else Accumulate(ds[1..], acc * 10 + DigitValue(ds[0]))
  }

  /** The text `ParseU64` accepts: an optional '+', then digits whose value fits in a `u64`. */
  ghost predicate WellFormedU64(s: seq<Byte>) {
    || (IsDecimal(s) && DecimalValue(s) <= U64Max)
    || (|s| > 1 && s[0] == Plus && IsDecimal(s[1..]) && DecimalValue(s[1..]) <= U64Max)
  }

  /** Appending digits never makes the value smaller. */
  lemma {:induction false} DecimalValuePrefix(s: seq<Byte>, t: seq<Byte>)
    requires AllDigits(s + t)
    ensures AllDigits(s) && DecimalValue(s) <= DecimalValue(s + t)
    decreases |t|
  {
    assert forall i :: 0 <= i < |s| ==> s[i] == (s + t)[i];
    if t != [] {
      var t' := t[..|t| - 1];
      assert (s + t)[..|s + t| - 1] == s + t';
      assert forall i :: 0 <= i < |s + t'| ==> (s + t')[i] == (s + t)[i];
      DecimalValuePrefix(s, t');
      assert DecimalValue(s + t) == DecimalValue(s + t') * 10 + DigitValue((s + t)[|s + t| - 1]);
    } else {
      assert s + t == s;
    }
  }

  /**
    Accumulating the digits `ds` after the prefix `p` has been read gives the
    value of `p + ds`, or `PosOverflow` exactly when that value exceeds
    `U64Max`.
   */
  lemma {:induction false} AccumulateDigits(p: seq<Byte>, ds: seq<Byte>)
    requires AllDigits(p) && AllDigits(ds) && DecimalValue(p) <= U64Max
    ensures AllDigits(p + ds)
    ensures Accumulate(ds, DecimalValue(p)) ==
            if DecimalValue(p + ds) <= U64Max then Ok(DecimalValue(p + ds)) else Err(PosOverflow)
    decreases |ds|
  {
    assert forall i :: 0 <= i < |p + ds| ==> (p + ds)[i] == if i < |p| then p[i] else ds[i - |p|];
    if ds == [] {
      assert p + ds == p;
    } else {
      var p' := p + [ds[0]];
      assert p'[..|p'| - 1] == p;
      assert p + ds == p' + ds[1..];
      if DecimalValue(p') > U64Max {
        DecimalValuePrefix(p', ds[1..]);
      } else {
        AccumulateDigits(p', ds[1..]);
      }
    }
  }

  /** A byte that is not a digit makes the digit loop fail. */
  lemma {:induction false} AccumulateNonDigit(ds: seq<Byte>, acc: U64)
    requires !AllDigits(ds)
    ensures Accumulate(ds, acc).Err?
    decreases |ds|
  {
    if IsDigit(ds[0]) && acc * 10 + DigitValue(ds[0]) <= U64Max {
      assert !AllDigits(ds[1..]) by {
        var i :| 0 <= i < |ds| && !IsDigit(ds[i]);
        assert ds[1..][i - 1] == ds[i];
      }
      AccumulateNonDigit(ds[1..], acc * 10 + DigitValue(ds[0]));
    }
  }

  /** Digit text after a prefix that has already been checked. */
  lemma AccumulateFromZero(ds: seq<Byte>)
    ensures AllDigits(ds) ==>
      Accumulate(ds, 0) == if DecimalValue(ds) <= U64Max then Ok(DecimalValue(ds)) else Err(PosOverflow)
    ensures !AllDigits(ds) ==> Accumulate(ds, 0).Err?
  {
    if AllDigits(ds) {
      assert DecimalValue([]) == 0;
      AccumulateDigits([], ds);
      assert [] + ds == ds;
    } else {
      AccumulateNonDigit(ds, 0);
    }
  }

  /**
    What `parse::<u64>` accepts: it succeeds exactly on an optional '+'
    followed by one or more digits of value at most 2^64 - 1.
   */
  lemma ParseU64Accepts(s: seq<Byte>)
    ensures ParseU64(s).Ok? <==> WellFormedU64(s)
  {
    if s != [] {
      AccumulateFromZero(s);
      AccumulateFromZero(s[1..]);
      if s[0] == Plus || s[0] == Minus {
        assert !IsDigit(s[0]) && !AllDigits(s);
      }
    }
  }

  /** What `parse::<u64>` returns for well-formed text: the value of its digits. */
  lemma ParseU64Value(s: seq<Byte>)
    ensures IsDecimal(s) && DecimalValue(s) <= U64Max ==> ParseU64(s) == Ok(DecimalValue(s))
    ensures |s| > 1 && s[0] == Plus && IsDecimal(s[1..]) && DecimalValue(s[1..]) <= U64Max ==>
              ParseU64(s) == Ok(DecimalValue(s[1..]))
  {
    if s != [] {
      AccumulateFromZero(s);
      AccumulateFromZero(s[1..]);
    }
  }

  /**
    How `parse::<u64>` fails: all-digit text too large for a `u64` is
    `PosOverflow`, and only the empty text is `Empty`.
   */
  lemma ParseU64Errors(s: seq<Byte>)
    ensures IsDecimal(s) && DecimalValue(s) > U64Max ==> ParseU64(s) == Err(PosOverflow)
    ensures ParseU64(s) == Err(Empty) <==> s == []
  {
    if IsDecimal(s) {
      AccumulateFromZero(s);
    }
  }

  /** Round trip: `n.to_string().parse::<u64>()` is `Ok(n)` for every `u64`. */
  lemma ParseDecimalDigits(n: U64)
    ensures ParseU64(DecimalDigits(n)) == Ok(n)
  {
    ParseU64Value(DecimalDigits(n));
  }

  /** `to_string` is the only unpadded decimal text of a number. */
  lemma {:induction false} DecimalDigitsUnique(s: seq<Byte>)
    requires IsDecimal(s) && NoLeadingZero(s)
    ensures s == DecimalDigits(DecimalValue(s))
    decreases |s|
  {
    var n := DecimalValue(s);
    if |s| == 1 {
      assert s[..|s| - 1] == [];
      assert n == DecimalValue([]) * 10 + DigitValue(s[0]);
      assert DecimalDigits(n) == [DigitByte(n)];
    } else {
      var init := s[..|s| - 1];
      assert init[0] == s[0];
      assert IsDecimal(init) && NoLeadingZero(init);
      DecimalValuePrefix(init[..1], init[1..]);
      assert init[..1] + init[1..] == init;
      assert init[..1][..0] == [];
      assert DecimalValue(init) >= 1;
      assert n / 10 == DecimalValue(init) && n % 10 == DigitValue(s[|s| - 1]);
      DecimalDigitsUnique(init);
      assert s == init + [s[|s| - 1]];
    }
  }
}
