/** Octets and octet strings. */
module Bytes {
  import opened Arithmetic
  import opened Wrappers

  newtype byte = x: int | 0 <= x < 256
  type bytes = seq<byte>

  /** The largest `usize` on a 64-bit target; no `Vec<u8>` is longer. */
  const USIZE_MAX: nat := 0xFFFF_FFFF_FFFF_FFFF

  /** Lexicographic order, the order Rust gives `Vec<u8>` and `[u8; N]`. */
  predicate Less(a: bytes, b: bytes) {
    b != [] && (a == [] || a[0] < b[0] || (a[0] == b[0] && Less(a[1..], b[1..])))
  }

  lemma {:induction false} LessTotal(a: bytes, b: bytes)
    ensures Less(a, b) || Less(b, a) || a == b
    ensures !(Less(a, b) && (Less(b, a) || a == b))
  {
    if a != [] && b != [] && a[0] == b[0] {
      LessTotal(a[1..], b[1..]);
      assert a == [a[0]] + a[1..] && b == [b[0]] + b[1..];
    }
  }

  lemma {:induction false} LessTransitive(a: bytes, b: bytes, c: bytes)
    requires Less(a, b) && Less(b, c)
    ensures Less(a, c)
  {
    if a != [] && a[0] == b[0] && b[0] == c[0] {
      LessTransitive(a[1..], b[1..], c[1..]);
    }
  }

  function Weight(n: nat): nat {
    if n == 0 then 1 else 256 * Weight(n - 1)
  }

  /** The number the bytes spell, most significant first. */
  function BigEndian(s: bytes): nat {
    if s == [] then 0 else s[0] as nat * Weight(|s| - 1) + BigEndian(s[1..])
  }

  lemma {:induction false} BigEndianBound(s: bytes)
    ensures BigEndian(s) < Weight(|s|)
  {
    if s != [] {
      BigEndianBound(s[1..]);
      var w := Weight(|s| - 1);
      MulMono(s[0] as nat + 1, 256, w);
      assert (s[0] as nat + 1) * w == s[0] as nat * w + w;
    }
  }

  lemma HeadDecides(x: nat, y: nat, w: nat, p: nat, q: nat)
    requires x < y && p < w
    ensures x * w + p < y * w + q
  {
    MulMono(x + 1, y, w);
    assert (x + 1) * w == x * w + w;
  }

  /** Strings of one length are ordered like the numbers they spell. */
  lemma {:induction false} LessIsNumeric(a: bytes, b: bytes)
    requires |a| == |b|
    ensures Less(a, b) <==> BigEndian(a) < BigEndian(b)
  {
    if a != [] {
      var w, x, y := Weight(|a| - 1), a[0] as nat, b[0] as nat;
      LessIsNumeric(a[1..], b[1..]);
      BigEndianBound(a[1..]);
      BigEndianBound(b[1..]);
      if x < y {
        HeadDecides(x, y, w, BigEndian(a[1..]), BigEndian(b[1..]));
      } else if y < x {
        HeadDecides(y, x, w, BigEndian(b[1..]), BigEndian(a[1..]));
      }
    }
  }

  /** The first position of `b` in `s`, as `iter().position(..)` finds it. */
  function IndexOf(s: bytes, b: byte): (r: Option<nat>)
    ensures r.Some? ==> r.value < |s| && s[r.value] == b && b !in s[..r.value]
    ensures r.None? ==> b !in s
  {
    if s == [] then None
    else if s[0] == b then Some(0)
    else
      match IndexOf(s[1..], b)
      case None => None
      case Some(k) =>
        assert s[..k + 1] == [s[0]] + s[1..][..k];
        Some(k + 1)
  }

  /** A delimiter that does not occur in the text before it is found right after that text. */
  lemma IndexOfDelimiter(text: bytes, b: byte, rest: bytes)
    requires b !in text
    ensures IndexOf(text + [b] + rest, b) == Some(|text|)
  {
    var s := text + [b] + rest;
    assert s[|text|] == b;
    assert s[..|text|] == text;
  }

  predicate IsProperSuffix(rest: bytes, data: bytes) {
    |rest| < |data| && rest == data[|data| - |rest|..]
  }

  lemma SuffixTransitive(a: bytes, b: bytes, c: bytes)
    requires IsProperSuffix(a, b) && IsProperSuffix(b, c)
    ensures IsProperSuffix(a, c)
  {
    assert c[|c| - |b|..][|b| - |a|..] == c[|c| - |a|..];
  }
}
