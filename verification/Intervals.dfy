/** Sorted sets of half-open ranges, the `BTreeSet<FilledRange>` of the ring buffer. */
module Intervals {

  datatype Range = Range(start: nat, end: nat)

  ghost predicate Covered(s: seq<Range>, x: int) {
    exists i :: 0 <= i < |s| && s[i].start <= x < s[i].end
  }

  /** Non-empty, within [0, total), in order, and never touching. */
  ghost predicate Canonical(s: seq<Range>, total: nat) {
    && (forall i :: 0 <= i < |s| ==> s[i].start < s[i].end <= total)
    && (forall i, j :: 0 <= i < j < |s| ==> s[i].end < s[j].start)
  }

  /** `BTreeSet::insert`: ranges compare by start, and an equal one keeps the old element. */
  function InsertRange(s: seq<Range>, r: Range): seq<Range> {
    if s == [] || r.start < s[0].start then [r] + s
    else if r.start == s[0].start then s
    else [s[0]] + InsertRange(s[1..], r)
  }

  /** `BTreeSet::remove`, again by start. */
  function RemoveRange(s: seq<Range>, r: Range): seq<Range> {
    if s == [] then []
    else if s[0].start == r.start then s[1..]
    else [s[0]] + RemoveRange(s[1..], r)
  }

  function Min(a: int, b: int): int {
    if a < b then a else b
  }

  function Max(a: int, b: int): int {
    if a < b then b else a
  }

  /** The canonical set with [start, end) added: touching ranges are absorbed on the way. */
  function Merge(s: seq<Range>, start: nat, end: nat): seq<Range> {
    if s == [] || end < s[0].start then [Range(start, end)] + s
    else if s[0].end < start then [s[0]] + Merge(s[1..], start, end)
    else Merge(s[1..], Min(start, s[0].start), Max(end, s[0].end))
  }

  lemma CoveredCons(s: seq<Range>, x: int)
    requires s != []
    ensures Covered(s, x) <==> s[0].start <= x < s[0].end || Covered(s[1..], x)
  {
    if Covered(s[1..], x) {
      var i :| 0 <= i < |s[1..]| && s[1..][i].start <= x < s[1..][i].end;
      assert s[i + 1].start <= x < s[i + 1].end;
    }
    if Covered(s, x) && !(s[0].start <= x < s[0].end) {
      var i :| 0 <= i < |s| && s[i].start <= x < s[i].end;
      assert s[1..][i - 1].start <= x < s[1..][i - 1].end;
    }
  }

  /** Merging covers exactly the old bytes and the new ones, and the result is canonical again. */
  lemma {:induction false} MergeCovers(s: seq<Range>, start: nat, end: nat, total: nat)
    requires Canonical(s, total) && start < end <= total
    ensures Canonical(Merge(s, start, end), total)
    ensures forall x :: Covered(Merge(s, start, end), x) <==> Covered(s, x) || start <= x < end
  {
    if s == [] || end < s[0].start {
      assert Merge(s, start, end)[1..] == s;
      forall x ensures Covered(Merge(s, start, end), x) <==> Covered(s, x) || start <= x < end {
        CoveredCons(Merge(s, start, end), x);
      }
    } else if s[0].end < start {
      MergeCovers(s[1..], start, end, total);
      KeepFirst(s, Merge(s[1..], start, end), start, end, total);
    } else {
      MergeCovers(s[1..], Min(start, s[0].start), Max(end, s[0].end), total);
      forall x ensures Covered(Merge(s, start, end), x) <==> Covered(s, x) || start <= x < end {
        CoveredCons(s, x);
      }
    }
  }

  lemma KeepFirst(s: seq<Range>, tail: seq<Range>, start: nat, end: nat, total: nat)
    requires s != [] && Canonical(s, total) && s[0].end < start && Canonical(tail, total)
    requires forall x :: Covered(tail, x) <==> Covered(s[1..], x) || start <= x < end
    ensures Canonical([s[0]] + tail, total)
    ensures forall x :: Covered([s[0]] + tail, x) <==> Covered(s, x) || start <= x < end
  {
    var m := [s[0]] + tail;
    assert m[1..] == tail;
    forall x ensures Covered(m, x) <==> Covered(s, x) || start <= x < end {
      CoveredCons(m, x);
      CoveredCons(s, x);
    }
    forall j | 0 <= j < |tail| ensures s[0].end < tail[j].start {
      assert Covered(tail, tail[j].start);
      TailBeyond(s, tail[j].start);
    }
  }

  /** A canonical set is determined by the bytes it covers. */
  lemma {:induction false} CanonicalUnique(a: seq<Range>, b: seq<Range>, total: nat)
    requires Canonical(a, total) && Canonical(b, total)
    requires forall x :: Covered(a, x) <==> Covered(b, x)
    ensures a == b
  {
    if a == [] {
      NonEmptyCovers(b, total);
    } else if b == [] {
      NonEmptyCovers(a, total);
    } else {
      FirstStart(a, b, total);
      FirstStart(b, a, total);
      FirstEnd(a, b, total);
      FirstEnd(b, a, total);
      TailsAgree(a, b, total);
      CanonicalUnique(a[1..], b[1..], total);
      assert a == [a[0]] + a[1..] && b == [b[0]] + b[1..];
    }
  }

  lemma TailsAgree(a: seq<Range>, b: seq<Range>, total: nat)
    requires Canonical(a, total) && Canonical(b, total) && a != [] && b != [] && a[0] == b[0]
    requires forall x :: Covered(a, x) <==> Covered(b, x)
    ensures Canonical(a[1..], total) && Canonical(b[1..], total)
    ensures forall x :: Covered(a[1..], x) <==> Covered(b[1..], x)
  {
    forall x ensures Covered(a[1..], x) <==> Covered(b[1..], x) {
      CoveredCons(a, x);
      CoveredCons(b, x);
      TailBeyond(a, x);
      TailBeyond(b, x);
    }
  }

  lemma NonEmptyCovers(s: seq<Range>, total: nat)
    requires Canonical(s, total)
    ensures s != [] ==> Covered(s, s[0].start)
  {
  }

  lemma TailBeyond(s: seq<Range>, x: int)
    requires s != [] && forall j :: 0 < j < |s| ==> s[0].end < s[j].start
    ensures Covered(s[1..], x) ==> s[0].end < x
  {
    if Covered(s[1..], x) {
      var i :| 0 <= i < |s[1..]| && s[1..][i].start <= x < s[1..][i].end;
      assert s[1..][i] == s[i + 1];
    }
  }

  lemma FirstStart(a: seq<Range>, b: seq<Range>, total: nat)
    requires Canonical(a, total) && Canonical(b, total) && a != [] && b != []
    requires forall x :: Covered(a, x) <==> Covered(b, x)
    ensures b[0].start <= a[0].start
  {
    assert Covered(a, a[0].start);
    var i :| 0 <= i < |b| && b[i].start <= a[0].start < b[i].end;
  }

  lemma FirstEnd(a: seq<Range>, b: seq<Range>, total: nat)
    requires Canonical(a, total) && Canonical(b, total) && a != [] && b != []
    requires forall x :: Covered(a, x) <==> Covered(b, x)
    requires a[0].start == b[0].start
    ensures a[0].end <= b[0].end
  {
    EndNotCovered(b, total, 0);
    assert !Covered(a, b[0].end);
  }

  lemma EndNotCovered(s: seq<Range>, total: nat, i: nat)
    requires Canonical(s, total) && i < |s|
    ensures !Covered(s, s[i].end)
  {
    forall j | 0 <= j < |s| ensures !(s[j].start <= s[i].end < s[j].end) {
      if j < i {
        assert s[j].end < s[i].start;
      }
    }
  }

  /** One stored interval spans a non-empty query exactly when every byte of the query is covered. */
  lemma SpannedIffCovered(s: seq<Range>, total: nat, offset: nat, length: nat)
    requires Canonical(s, total) && length > 0
    ensures (exists i :: 0 <= i < |s| && s[i].start <= offset && offset + length <= s[i].end)
       <==> (forall x :: offset <= x < offset + length ==> Covered(s, x))
  {
    if exists i :: 0 <= i < |s| && s[i].start <= offset && offset + length <= s[i].end {
      var i :| 0 <= i < |s| && s[i].start <= offset && offset + length <= s[i].end;
      forall x | offset <= x < offset + length ensures Covered(s, x) {
        assert s[i].start <= x < s[i].end;
      }
    }
    if forall x :: offset <= x < offset + length ==> Covered(s, x) {
      assert Covered(s, offset);
      var i :| 0 <= i < |s| && s[i].start <= offset < s[i].end;
      EndNotCovered(s, total, i);
    }
  }

  // ----- Counting covered bytes -----

  /** How many bytes of [lo, hi) are covered, byte by byte. */
  ghost function Count(s: seq<Range>, lo: nat, hi: nat): nat {
    if hi <= lo then 0 else Count(s, lo, hi - 1) + (if Covered(s, hi - 1) then 1 else 0)
  }

  lemma {:induction false} CountEmpty(lo: nat, hi: nat)
    ensures Count([], lo, hi) == 0
    decreases hi
  {
    if lo < hi {
      CountEmpty(lo, hi - 1);
    }
  }

  function Overlap(r: Range, lo: nat, hi: nat): nat {
    Max(0, Min(r.end, hi) - Max(r.start, lo))
  }

  lemma {:induction false} CountSnoc(s: seq<Range>, r: Range, lo: nat, hi: nat)
    requires forall x :: r.start <= x < r.end ==> !Covered(s, x)
    ensures Count(s + [r], lo, hi) == Count(s, lo, hi) + Overlap(r, lo, hi)
  {
    if lo < hi {
      CountSnoc(s, r, lo, hi - 1);
      CoveredSnoc(s, r, hi - 1);
    }
  }

  lemma CoveredSnoc(s: seq<Range>, r: Range, x: int)
    ensures Covered(s + [r], x) <==> Covered(s, x) || r.start <= x < r.end
  {
    var t := s + [r];
    if Covered(s, x) {
      var i :| 0 <= i < |s| && s[i].start <= x < s[i].end;
      assert t[i] == s[i];
    }
    assert t[|s|] == r;
  }

  /** Counting up to a position and from it on adds up. */
  lemma {:induction false} CountSplit(s: seq<Range>, lo: nat, mid: nat, hi: nat)
    requires lo <= mid <= hi
    ensures Count(s, lo, hi) == Count(s, lo, mid) + Count(s, mid, hi)
  {
    if mid < hi {
      CountSplit(s, lo, mid, hi - 1);
    }
  }

  /** What is filled before a position and what is filled from it on add up to all, even past the end of the file. */
  lemma FilledSplits(s: seq<Range>, total: nat, x: nat)
    requires Canonical(s, total)
    ensures Count(s, 0, x) + Count(s, x, total) == Count(s, 0, total)
  {
    if x <= total {
      CountSplit(s, 0, x, total);
    } else {
      CountSplit(s, 0, total, x);
      NothingBeyond(s, total, x);
    }
  }

  lemma {:induction false} NothingBeyond(s: seq<Range>, total: nat, hi: nat)
    requires Canonical(s, total)
    ensures Count(s, total, hi) == 0
  {
    if total < hi {
      NothingBeyond(s, total, hi - 1);
    }
  }

  /** A stretch counts in full exactly when all of it is covered. */
  lemma {:induction false} CountAtMost(s: seq<Range>, lo: nat, hi: nat)
    requires lo <= hi
    ensures Count(s, lo, hi) <= hi - lo
    ensures Count(s, lo, hi) == hi - lo <==> forall x :: lo <= x < hi ==> Covered(s, x)
  {
    if lo < hi {
      CountAtMost(s, lo, hi - 1);
    }
  }

  lemma {:induction false} CountSame(s: seq<Range>, t: seq<Range>, lo: nat, hi: nat)
    requires forall x :: lo <= x < hi ==> (Covered(s, x) <==> Covered(t, x))
    ensures Count(s, lo, hi) == Count(t, lo, hi)
  {
    if lo < hi {
      CountSame(s, t, lo, hi - 1);
    }
  }

  lemma PrefixApart(s: seq<Range>, i: nat, total: nat)
    requires Canonical(s, total) && i < |s|
    ensures forall x :: s[i].start <= x < s[i].end ==> !Covered(s[..i], x)
    ensures s[..i + 1] == s[..i] + [s[i]]
  {
    forall j | 0 <= j < i ensures s[..i][j].end < s[i].start {
      assert s[j].end < s[i].start;
    }
  }
}
