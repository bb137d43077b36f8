/** The few facts about products and quotients the other modules need. */
module Arithmetic {

  lemma MulMono(a: nat, b: nat, c: nat)
    requires a <= b
    ensures a * c <= b * c
  {
    assert b * c == a * c + (b - a) * c;
  }

  lemma DivBounds(n: nat, d: nat, lo: nat, hi: nat)
    requires d > 0 && lo * d <= n < hi * d + d
    ensures lo <= n / d <= hi
  {
    var q := n / d;
    assert q * d <= n < q * d + d;
    if q < lo {
      assert (q + 1) * d == q * d + d;
      MulMono(q + 1, lo, d);
    } else if hi < q {
      assert (hi + 1) * d == hi * d + d;
      MulMono(hi + 1, q, d);
    }
  }

  lemma DivUnique(n: nat, d: nat, q: nat, r: nat)
    requires d > 0 && n == q * d + r && r < d
    ensures n / d == q
  {
    DivBounds(n, d, q, q);
  }
}
