/** 160-bit node identifiers of qvs-core and their XOR distance. */
module Identifiers {
  import opened Bytes

  type NodeId = s: seq<byte> | |s| == 20 witness seq(20, _ => 0)

  function Pow2(w: nat): (p: nat)
    ensures p > 0
  {
    if w == 0 then 1 else 2 * Pow2(w - 1)
  }

  /** Exclusive or of the low `w` bits. */
  function XorBits(a: nat, b: nat, w: nat): (x: nat)
    ensures x < Pow2(w)
  {
    if w == 0 then 0
    else 2 * XorBits(a / 2, b / 2, w - 1) + (if a % 2 == b % 2 then 0 else 1)
  }

  function Xor(a: byte, b: byte): byte {
    assert Pow2(8) == 256 by { BytePow(); }
    XorBits(a as nat, b as nat, 8) as byte
  }

  lemma BytePow()
    ensures Pow2(8) == 256
  {
    assert Pow2(4) == 16;
    assert Pow2(8) == 16 * Pow2(4);
  }

  /** `xor_distance`. */
  function Distance(a: NodeId, b: NodeId): NodeId {
    seq(20, i requires 0 <= i < 20 => Xor(a[i], b[i]))
  }

  // ----- Bits -----

  lemma {:induction false} XorBitsZero(a: nat, b: nat, w: nat)
    requires a < Pow2(w) && b < Pow2(w)
    ensures XorBits(a, b, w) == 0 <==> a == b
  {
    if w > 0 {
      XorBitsZero(a / 2, b / 2, w - 1);
    }
  }

  lemma {:induction false} XorBitsSymmetric(a: nat, b: nat, w: nat)
    ensures XorBits(a, b, w) == XorBits(b, a, w)
  {
    if w > 0 {
      XorBitsSymmetric(a / 2, b / 2, w - 1);
    }
  }

  lemma {:induction false} XorBitsCancel(t: nat, a: nat, b: nat, w: nat)
    requires a < Pow2(w) && b < Pow2(w) && XorBits(t, a, w) == XorBits(t, b, w)
    ensures a == b
  {
    if w > 0 {
      XorBitsCancel(t / 2, a / 2, b / 2, w - 1);
    }
  }

  lemma {:induction false} XorBitsAssociative(a: nat, b: nat, c: nat, w: nat)
    ensures XorBits(a, XorBits(b, c, w), w) == XorBits(XorBits(a, b, w), c, w)
  {
    if w > 0 {
      XorBitsAssociative(a / 2, b / 2, c / 2, w - 1);
      assert XorBits(b, c, w) / 2 == XorBits(b / 2, c / 2, w - 1);
      assert XorBits(a, b, w) / 2 == XorBits(a / 2, b / 2, w - 1);
    }
  }

  lemma {:induction false} XorBitsWithZero(a: nat, w: nat)
    requires a < Pow2(w)
    ensures XorBits(0, a, w) == a == XorBits(a, 0, w)
  {
    if w > 0 {
      XorBitsWithZero(a / 2, w - 1);
    }
  }

  /** The k-th bit of a number, the lowest first. */
  function BitOf(n: nat, k: nat): nat {
    if k == 0 then n % 2 else BitOf(n / 2, k - 1)
  }

  lemma {:induction false} XorBitsBit(a: nat, b: nat, w: nat, k: nat)
    requires k < w
    ensures BitOf(XorBits(a, b, w), k) == if BitOf(a, k) == BitOf(b, k) then 0 else 1
  {
    if k > 0 {
      XorBitsBit(a / 2, b / 2, w - 1, k - 1);
      assert XorBits(a, b, w) / 2 == XorBits(a / 2, b / 2, w - 1);
    }
  }

  // ----- Bytes -----

  lemma XorZero(a: byte, b: byte)
    ensures Xor(a, b) == 0 <==> a == b
  {
    BytePow();
    XorBitsZero(a as nat, b as nat, 8);
  }

  lemma XorCancel(t: byte, a: byte, b: byte)
    requires Xor(t, a) == Xor(t, b)
    ensures a == b
  {
    BytePow();
    XorBitsCancel(t as nat, a as nat, b as nat, 8);
  }

  lemma XorSymmetric(a: byte, b: byte)
    ensures Xor(a, b) == Xor(b, a)
  {
    XorBitsSymmetric(a as nat, b as nat, 8);
  }

  lemma XorAssociative(a: byte, b: byte, c: byte)
    ensures Xor(a, Xor(b, c)) == Xor(Xor(a, b), c)
  {
    XorBitsAssociative(a as nat, b as nat, c as nat, 8);
  }

  lemma XorUndo(a: byte, m: byte)
    ensures Xor(a, Xor(a, m)) == m
  {
    XorAssociative(a, a, m);
    XorZero(a, a);
    BytePow();
    XorBitsWithZero(m as nat, 8);
  }

  // ----- Identifiers -----

  /** An identifier is at distance zero from itself only, and distances from one target tell identifiers apart. */
  lemma DistanceInjective(target: NodeId, a: NodeId, b: NodeId)
    requires Distance(target, a) == Distance(target, b)
    ensures a == b
  {
    forall i | 0 <= i < 20 ensures a[i] == b[i] {
      assert Distance(target, a)[i] == Distance(target, b)[i];
      XorCancel(target[i], a[i], b[i]);
    }
  }

  lemma DistanceSymmetric(a: NodeId, b: NodeId)
    ensures Distance(a, b) == Distance(b, a)
  {
    forall i | 0 <= i < 20 ensures Distance(a, b)[i] == Distance(b, a)[i] {
      XorSymmetric(a[i], b[i]);
    }
  }

  lemma DistanceZero(a: NodeId, b: NodeId)
    ensures (forall i :: 0 <= i < 20 ==> Distance(a, b)[i] == 0) <==> a == b
  {
    forall i | 0 <= i < 20 ensures Distance(a, b)[i] == 0 <==> a[i] == b[i] {
      XorZero(a[i], b[i]);
    }
  }

  /** `a` is at most as far from the target as `b`, as the sorts compare distance arrays. */
  predicate Nearer(target: NodeId, a: NodeId, b: NodeId) {
    !Less(Distance(target, b), Distance(target, a))
  }

  /** A bit of the distance is set exactly where the identifiers differ. */
  lemma DistanceBits(a: NodeId, b: NodeId, i: nat, k: nat)
    requires i < 20 && k < 8
    ensures BitOf(Distance(a, b)[i] as nat, k) == if BitOf(a[i] as nat, k) == BitOf(b[i] as nat, k) then 0 else 1
  {
    XorBitsBit(a[i] as nat, b[i] as nat, 8, k);
  }

  /** Distances compare as 160-bit numbers, most significant byte first. */
  lemma NearerIsNumeric(target: NodeId, a: NodeId, b: NodeId)
    ensures Nearer(target, a, b) <==> BigEndian(Distance(target, a)) <= BigEndian(Distance(target, b))
  {
    LessIsNumeric(Distance(target, b), Distance(target, a));
  }

  lemma NearerTotal(target: NodeId, a: NodeId, b: NodeId)
    ensures Nearer(target, a, b) || Nearer(target, b, a)
    ensures Nearer(target, a, b) && Nearer(target, b, a) ==> a == b
  {
    LessTotal(Distance(target, a), Distance(target, b));
    if Distance(target, a) == Distance(target, b) {
      DistanceInjective(target, a, b);
    }
  }

  lemma NearerTransitive(target: NodeId, a: NodeId, b: NodeId, c: NodeId)
    requires Nearer(target, a, b) && Nearer(target, b, c)
    ensures Nearer(target, a, c)
  {
    var da, db, dc := Distance(target, a), Distance(target, b), Distance(target, c);
    LessTotal(da, db);
    LessTotal(db, dc);
    if Less(dc, da) {
      if da != db && db != dc {
        LessTransitive(da, db, dc);
        LessTotal(da, dc);
      }
    }
  }
}
