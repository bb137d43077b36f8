/** Decimal text of integers: Rust's `to_string` and `str::parse`. */
module Decimal {
  import opened Wrappers
  import opened Bytes

  newtype i64 = x: int | -0x8000_0000_0000_0000 <= x < 0x8000_0000_0000_0000

  const PLUS: byte := 43
  const MINUS: byte := 45

  predicate IsDigit(b: byte) {
    48 <= b <= 57
  }

  predicate AllDigits(s: bytes) {
    forall i :: 0 <= i < |s| ==> IsDigit(s[i])
  }

  function DigitByte(d: nat): byte
    requires d < 10
  {
    (48 + d) as byte
  }

  function DigitValue(b: byte): (d: nat)
    requires IsDigit(b)
    ensures d < 10
  {
    (b - 48) as int
  }

  /** The number a digit string denotes, most significant digit first. */
  function Value(s: bytes): nat
    requires AllDigits(s)
  {
    if s == [] then 0 else 10 * Value(s[..|s| - 1]) + DigitValue(s[|s| - 1])
  }

  lemma ValueSnoc(s: bytes, d: nat)
    requires AllDigits(s) && d < 10
    ensures AllDigits(s + [DigitByte(d)]) && Value(s + [DigitByte(d)]) == 10 * Value(s) + d
  {
    assert (s + [DigitByte(d)])[..|s|] == s;
  }

  /** The shortest digit string of `n`. */
  function NatText(n: nat): (s: bytes)
    ensures AllDigits(s) && s != [] && Value(s) == n
  {
    if n < 10 then
      ValueSnoc([], n);
      [] + [DigitByte(n)]
    else
      ValueSnoc(NatText(n / 10), n % 10);
      NatText(n / 10) + [DigitByte(n % 10)]
  }

  function IntText(i: i64): bytes {
    if i < 0 then [MINUS] + NatText(-(i as int)) else NatText(i as int)
  }

  function ParseDigits(s: bytes): Option<nat> {
    if s != [] && AllDigits(s) then Some(Value(s)) else None
  }

  /** `parse::<usize>()`: an optional plus sign, at least one digit, no overflow. */
  function ParseUsize(s: bytes): Option<nat> {
    match ParseDigits(if s != [] && s[0] == PLUS then s[1..] else s)
    case Some(n) => if n <= USIZE_MAX then Some(n) else None
    case None => None
  }

  /** `parse::<i64>()`: an optional sign, at least one digit, no overflow either way. */
  function ParseI64(s: bytes): Option<i64> {
    var negative := s != [] && s[0] == MINUS;
    match ParseDigits(if s != [] && (s[0] == PLUS || s[0] == MINUS) then s[1..] else s)
    case None => None
    case Some(n) =>
      if negative then
        if n <= 0x8000_0000_0000_0000 then Some((0 - n as int) as i64) else None
      else
        if n < 0x8000_0000_0000_0000 then Some(n as i64) else None
  }

  // ----- Which texts are read -----

  /** A non-empty string of digits that denotes `n`. */
  predicate Denotes(s: bytes, n: int) {
    s != [] && AllDigits(s) && Value(s) == n
  }

  /** A length is read from digits alone or behind a plus sign, if it fits; leading zeros do not matter. */
  lemma ParseUsizeIff(s: bytes, n: nat)
    ensures ParseUsize(s) == Some(n)
       <==> n <= USIZE_MAX && (Denotes(s, n) || (s != [] && s[0] == 43 && Denotes(s[1..], n)))
  {
    assert s != [] && s[0] == 43 ==> !AllDigits(s);
  }

  /** An integer is read from digits alone, behind a plus sign, or, negated, behind a minus sign. */
  lemma ParseI64Iff(s: bytes, i: i64)
    ensures ParseI64(s) == Some(i)
       <==> Denotes(s, i as int)
            || (s != [] && s[0] == 43 && Denotes(s[1..], i as int))
            || (s != [] && s[0] == 45 && Denotes(s[1..], -(i as int)))
  {
    assert s != [] && (s[0] == 43 || s[0] == 45) ==> !AllDigits(s);
  }

  lemma UsizeRoundTrip(n: nat)
    requires n <= USIZE_MAX
    ensures ParseUsize(NatText(n)) == Some(n)
  {
    ParseUsizeIff(NatText(n), n);
  }

  lemma I64RoundTrip(i: i64)
    ensures ParseI64(IntText(i)) == Some(i)
  {
    ParseI64Iff(IntText(i), i);
    if i < 0 {
      assert IntText(i)[1..] == NatText(-(i as int));
    }
  }

  // ----- The canonical text -----

  /** Digits without a leading zero, unless zero is all there is. */
  predicate CanonicalNat(s: bytes) {
    s != [] && AllDigits(s) && (|s| == 1 || s[0] != 48)
  }

  /** The same, or a minus sign before such digits of a number that is not zero; never a plus sign. */
  predicate CanonicalInt(s: bytes) {
    CanonicalNat(s) || (s != [] && s[0] == 45 && CanonicalNat(s[1..]) && s[1] != 48)
  }

  lemma {:induction false} PositiveValue(s: bytes)
    requires s != [] && AllDigits(s) && s[0] != 48
    ensures Value(s) > 0
  {
    if |s| > 1 {
      PositiveValue(s[..|s| - 1]);
    }
  }

  lemma {:induction false} NatTextCanonical(n: nat)
    ensures CanonicalNat(NatText(n)) && (n > 0 ==> NatText(n)[0] != 48)
  {
    if n >= 10 {
      NatTextCanonical(n / 10);
    }
  }

  lemma {:induction false} CanonicalNatText(s: bytes)
    requires CanonicalNat(s)
    ensures NatText(Value(s)) == s
  {
    var front, d := s[..|s| - 1], DigitValue(s[|s| - 1]);
    assert s == front + [DigitByte(d)];
    if |s| > 1 {
      PositiveValue(front);
      CanonicalNatText(front);
    }
  }

  /** The text printed for a number is its only canonical one. */
  lemma NatTextIff(n: nat, s: bytes)
    ensures s == NatText(n) <==> CanonicalNat(s) && Value(s) == n
  {
    NatTextCanonical(n);
    if CanonicalNat(s) && Value(s) == n {
      CanonicalNatText(s);
    }
  }

  /** And no digits of the same value are shorter. */
  lemma {:induction false} NatTextShortest(s: bytes)
    requires s != [] && AllDigits(s)
    ensures |NatText(Value(s))| <= |s|
  {
    if |s| > 1 {
      NatTextShortest(s[..|s| - 1]);
      var front, d := s[..|s| - 1], DigitValue(s[|s| - 1]);
      assert Value(s) / 10 == Value(front);
    }
  }

  /** The text printed for an integer is the only canonical text that is read as it. */
  lemma IntTextIff(i: i64, s: bytes)
    ensures s == IntText(i) <==> CanonicalInt(s) && ParseI64(s) == Some(i)
    ensures 43 !in IntText(i) && (45 in IntText(i) <==> i < 0)
  {
    hide NatText, Value, ParseI64, IntText;
    var n: nat := if i < 0 then -(i as int) else i as int;
    IntTextOf(i);
    I64RoundTrip(i);
    NatTextIff(n, NatText(n));
    NatTextCanonical(n);
    if i < 0 {
      assert IntText(i)[1..] == NatText(n);
    }
    if CanonicalInt(s) && ParseI64(s) == Some(i) {
      ParseI64Iff(s, i);
      if CanonicalNat(s) {
        NatTextIff(n, s);
      } else {
        PositiveValue(s[1..]);
        NatTextIff(n, s[1..]);
        assert s == [MINUS] + s[1..];
      }
    }
  }

  lemma IntTextOf(i: i64)
    ensures IntText(i) == if i < 0 then [MINUS] + NatText(-(i as int)) else NatText(i as int)
  {
  }
}
