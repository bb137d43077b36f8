/** The piece bitfield of qvs-core: one bit a piece, most significant bit first. */
module Bitfield {

  type Bits = seq<bv8>

  /** `1 << (7 - k)`. */
  function Mask(k: nat): bv8
    requires k < 8
  {
    if k == 0 then 0x80
    else if k == 1 then 0x40
    else if k == 2 then 0x20
    else if k == 3 then 0x10
    else if k == 4 then 0x08
    else if k == 5 then 0x04
    else if k == 6 then 0x02
    else 0x01
  }

  predicate BitOf(b: bv8, k: nat)
    requires k < 8
  {
    b & Mask(k) != 0
  }

  predicate Bit(bits: Bits, i: nat)
    requires i / 8 < |bits|
  {
    BitOf(bits[i / 8], i % 8)
  }

  /** `Bitfield::has`. */
  predicate Has(bits: Bits, numPieces: nat, i: nat) {
    i < numPieces && i / 8 < |bits| && Bit(bits, i)
  }

  function SetBit(b: bv8, k: nat, value: bool): bv8
    requires k < 8
  {
    if value then b | Mask(k) else b & !Mask(k)
  }

  /** `Bitfield::set`. */
  function Set(bits: Bits, numPieces: nat, i: nat, value: bool): (r: Bits)
    ensures |r| == |bits|
  {
    if i < numPieces && i / 8 < |bits| then bits[i / 8 := SetBit(bits[i / 8], i % 8, value)] else bits
  }

  function SetAll(bits: Bits, value: bool): Bits {
    seq(|bits|, _ => if value then 0xFF else 0)
  }

  function New(numPieces: nat): Bits {
    seq((numPieces + 7) / 8, _ => 0)
  }

  function One(b: bool): nat {
    if b then 1 else 0
  }

  /** `u8::count_ones`. */
  function Ones(b: bv8): nat {
    One(BitOf(b, 0)) + One(BitOf(b, 1)) + One(BitOf(b, 2)) + One(BitOf(b, 3))
    + One(BitOf(b, 4)) + One(BitOf(b, 5)) + One(BitOf(b, 6)) + One(BitOf(b, 7))
  }

  function SumOnes(bits: Bits): nat {
    if bits == [] then 0 else SumOnes(bits[..|bits| - 1]) + Ones(bits[|bits| - 1])
  }

  /** `Bitfield::count`. */
  function Count(bits: Bits, numPieces: nat): nat {
    if SumOnes(bits) < numPieces then SumOnes(bits) else numPieces
  }

  class Bitfield {
    const numPieces: nat
    const bytes: array<bv8>

    constructor (numPieces: nat)
      ensures this.numPieces == numPieces && fresh(bytes) && bytes[..] == New(numPieces)
      ensures bytes.Length == (numPieces + 7) / 8 && forall i :: 0 <= i < bytes.Length ==> bytes[i] == 0
    {
      this.numPieces := numPieces;
      bytes := new bv8[(numPieces + 7) / 8](_ => 0);
    }

    predicate HasPiece(i: nat)
      reads this, bytes
    {
      i < numPieces && i / 8 < bytes.Length && BitOf(bytes[i / 8], i % 8)
    }

    lemma HasPieceIsHas(i: nat)
      ensures HasPiece(i) <==> Has(bytes[..], numPieces, i)
    {
    }

    method SetPiece(i: nat, value: bool)
      modifies bytes
      ensures bytes[..] == Set(old(bytes[..]), numPieces, i, value)
    {
      if i >= numPieces || i / 8 >= bytes.Length {
        return;
      }
      if value {
        bytes[i / 8] := bytes[i / 8] | Mask(i % 8);
      } else {
        bytes[i / 8] := bytes[i / 8] & !Mask(i % 8);
      }
    }

    method SetAllPieces(value: bool)
      modifies bytes
      ensures bytes[..] == SetAll(old(bytes[..]), value)
      ensures forall k: nat :: HasPiece(k) <==> value && k < numPieces && k / 8 < bytes.Length
    {
      AllBits();
      forall k | 0 <= k < bytes.Length {
        bytes[k] := if value then 0xFF else 0;
      }
    }

    method CountPieces() returns (n: nat)
      ensures n == Count(bytes[..], numPieces)
      ensures SpareClear(bytes[..], numPieces) ==> n == HasCount(bytes[..], numPieces, numPieces)
    {
      CountExactIff(bytes[..], numPieces);
      var sum := 0;
      for i := 0 to bytes.Length
        invariant sum == SumOnes(bytes[..i])
      {
        assert bytes[..i + 1][..i] == bytes[..i];
        sum := sum + Ones(bytes[i]);
      }
      assert bytes[..bytes.Length] == bytes[..];
      n := if sum < numPieces then sum else numPieces;
    }
  }

  // ----- One bit at a time -----

  lemma BitSetOrCleared(b: bv8, k: nat, l: nat, value: bool)
    requires k < 8 && l < 8
    ensures BitOf(SetBit(b, k, value), l) == if k == l then value else BitOf(b, l)
  {
  }

  /** Setting a bit is seen at that index only, and not at all outside the field. */
  lemma HasAfterSet(bits: Bits, numPieces: nat, j: nat, value: bool, i: nat)
    ensures Has(Set(bits, numPieces, j, value), numPieces, i)
            == if i == j && j < numPieces && j / 8 < |bits| then value else Has(bits, numPieces, i)
  {
    if j < numPieces && j / 8 < |bits| && i / 8 == j / 8 {
      BitSetOrCleared(bits[j / 8], j % 8, i % 8, value);
    }
  }

  lemma AllBits()
    ensures forall k: nat :: k < 8 ==> BitOf(0xFF, k) && !BitOf(0, k)
  {
  }

  lemma MaskIsShift(k: nat)
    requires k < 8
    ensures Mask(k) == (1 as bv8) << (7 - k)
  {
  }

  /** The first piece of a byte is its highest bit. */
  lemma HighestBitFirst(bits: Bits, numPieces: nat, i: nat)
    ensures Has(bits, numPieces, i)
       <==> i < numPieces && i / 8 < |bits| && bits[i / 8] & ((1 as bv8) << (7 - i % 8)) != 0
  {
    MaskIsShift(i % 8);
  }

  // ----- Counting -----

  /** How many of the first `n` bits are set. */
  ghost function BitCount(bits: Bits, n: nat): nat
    requires n <= 8 * |bits|
  {
    if n == 0 then 0 else BitCount(bits, n - 1) + One(Bit(bits, n - 1))
  }

  /** How many of the first `n` pieces there are, asked one by one. */
  ghost function HasCount(bits: Bits, numPieces: nat, n: nat): nat {
    if n == 0 then 0 else HasCount(bits, numPieces, n - 1) + One(Has(bits, numPieces, n - 1))
  }

  /** The bits beyond the last piece are zero. */
  ghost predicate SpareClear(bits: Bits, numPieces: nat) {
    forall i :: numPieces <= i < 8 * |bits| ==> !Bit(bits, i)
  }

  lemma {:induction false} BitCountPrefix(bits: Bits, more: Bits, n: nat)
    requires n <= 8 * |bits| && bits <= more
    ensures BitCount(bits, n) == BitCount(more, n)
  {
    if n > 0 {
      BitCountPrefix(bits, more, n - 1);
    }
  }

  /** The byte-wise population count is the number of set bits. */
  lemma {:induction false} SumOnesCounts(bits: Bits)
    ensures SumOnes(bits) == BitCount(bits, 8 * |bits|)
  {
    if bits != [] {
      var k := |bits| - 1;
      SumOnesCounts(bits[..k]);
      BitCountPrefix(bits[..k], bits, 8 * k);
      LastByteCounts(bits, k);
    }
  }

  lemma LastByteCounts(bits: Bits, k: nat)
    requires k + 1 == |bits|
    ensures BitCount(bits, 8 * k + 8) == BitCount(bits, 8 * k) + Ones(bits[k])
  {
    hide BitCount, BitOf;
    BitCountStep(bits, k, 0);
    BitCountStep(bits, k, 1);
    BitCountStep(bits, k, 2);
    BitCountStep(bits, k, 3);
    BitCountStep(bits, k, 4);
    BitCountStep(bits, k, 5);
    BitCountStep(bits, k, 6);
    BitCountStep(bits, k, 7);
  }

  lemma BitCountStep(bits: Bits, k: nat, j: nat)
    requires k < |bits| && j < 8
    ensures BitCount(bits, 8 * k + j + 1) == BitCount(bits, 8 * k + j) + One(BitOf(bits[k], j))
  {
  }

  lemma {:induction false} HasCountIsBitCount(bits: Bits, numPieces: nat, n: nat)
    requires n <= numPieces && n <= 8 * |bits|
    ensures HasCount(bits, numPieces, n) == BitCount(bits, n) <= n
  {
    if n > 0 {
      HasCountIsBitCount(bits, numPieces, n - 1);
    }
  }

  lemma {:induction false} BitCountTail(bits: Bits, m: nat, n: nat)
    requires m <= n <= 8 * |bits|
    ensures BitCount(bits, m) <= BitCount(bits, n)
    ensures BitCount(bits, m) == BitCount(bits, n) <==> forall i :: m <= i < n ==> !Bit(bits, i)
  {
    if m < n {
      BitCountTail(bits, m, n - 1);
    }
  }

  /** `count` is the number of pieces `has` answers yes to if and only if no spare bit is set or no piece is missing. */
  lemma CountExactIff(bits: Bits, numPieces: nat)
    ensures Count(bits, numPieces) == HasCount(bits, numPieces, numPieces)
       <==> SpareClear(bits, numPieces) || HasCount(bits, numPieces, numPieces) == numPieces
  {
    SumOnesCounts(bits);
    if numPieces <= 8 * |bits| {
      HasCountIsBitCount(bits, numPieces, numPieces);
      BitCountTail(bits, numPieces, 8 * |bits|);
    } else {
      HasCountIsBitCount(bits, numPieces, 8 * |bits|);
      HasCountBeyond(bits, numPieces, numPieces);
    }
  }

  /** Pieces past the last byte are not there. */
  lemma {:induction false} HasCountBeyond(bits: Bits, numPieces: nat, n: nat)
    requires 8 * |bits| <= n
    ensures HasCount(bits, numPieces, n) == HasCount(bits, numPieces, 8 * |bits|)
  {
    if 8 * |bits| < n {
      HasCountBeyond(bits, numPieces, n - 1);
    }
  }

  // ----- Runs -----

  datatype Op = SetOp(index: nat, value: bool)

  ghost function Run(numPieces: nat, ops: seq<Op>): (bits: Bits)
    ensures |bits| == (numPieces + 7) / 8
  {
    if ops == [] then New(numPieces)
    else Set(Run(numPieces, ops[..|ops| - 1]), numPieces, ops[|ops| - 1].index, ops[|ops| - 1].value)
  }

  lemma {:induction false} RunSpareClear(numPieces: nat, ops: seq<Op>)
    ensures SpareClear(Run(numPieces, ops), numPieces)
  {
    var bits := Run(numPieces, ops);
    if ops == [] {
      assert forall k: nat :: k < 8 ==> !BitOf(0, k);
    } else {
      var before := Run(numPieces, ops[..|ops| - 1]);
      var op := ops[|ops| - 1];
      RunSpareClear(numPieces, ops[..|ops| - 1]);
      forall i | numPieces <= i < 8 * |bits| ensures !Bit(bits, i) {
        assert !Bit(before, i);
        if op.index < numPieces && i / 8 == op.index / 8 {
          BitSetOrCleared(before[i / 8], op.index % 8, i % 8, op.value);
        }
      }
    }
  }

  /** After every run of `new` and `set`, counting bytes counts pieces. */
  lemma RunCountExact(numPieces: nat, ops: seq<Op>)
    ensures var bits := Run(numPieces, ops); Count(bits, numPieces) == HasCount(bits, numPieces, numPieces)
  {
    RunSpareClear(numPieces, ops);
    CountExactIff(Run(numPieces, ops), numPieces);
  }

  /** `set_all(true)` sets the spare bits too: clear one piece after it and the count is one too many. */
  lemma SetAllOvercounts(numPieces: nat, i: nat)
    requires i < numPieces && numPieces % 8 != 0
    ensures var bits := Set(SetAll(New(numPieces), true), numPieces, i, false);
            Count(bits, numPieces) != HasCount(bits, numPieces, numPieces)
  {
    var all := SetAll(New(numPieces), true);
    var bits := Set(all, numPieces, i, false);
    HasAfterSet(all, numPieces, i, false, i);
    MissingOne(bits, numPieces, i, numPieces);
    BitSetOrCleared(0xFF, i % 8, numPieces % 8, false);
    assert forall k: nat :: k < 8 ==> BitOf(0xFF, k);
    assert Bit(bits, numPieces);
    CountExactIff(bits, numPieces);
  }

  lemma {:induction false} MissingOne(bits: Bits, numPieces: nat, i: nat, n: nat)
    requires i < n && !Has(bits, numPieces, i)
    ensures HasCount(bits, numPieces, n) < n
  {
    if i < n - 1 {
      MissingOne(bits, numPieces, i, n - 1);
    } else {
      HasCountAtMost(bits, numPieces, n - 1);
    }
  }

  lemma {:induction false} HasCountAtMost(bits: Bits, numPieces: nat, n: nat)
    ensures HasCount(bits, numPieces, n) <= n
  {
    if n > 0 {
      HasCountAtMost(bits, numPieces, n - 1);
    }
  }
}
