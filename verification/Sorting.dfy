/** Rust's stable `sort_by`, as the insertion sort it agrees with. */
module Sorting {

  ghost predicate TotalPreorder<T(!new)>(leq: (T, T) -> bool) {
    && (forall x, y :: leq(x, y) || leq(y, x))
    && (forall x, y, z :: leq(x, y) && leq(y, z) ==> leq(x, z))
  }

  ghost predicate SortedBy<T>(s: seq<T>, leq: (T, T) -> bool) {
    forall i, j :: 0 <= i < j < |s| ==> leq(s[i], s[j])
  }

  /** Each element is at most the later ones, and stands in relation `tie` to those it equals. */
  ghost predicate SortedWithTies<T>(s: seq<T>, leq: (T, T) -> bool, tie: (T, T) -> bool) {
    forall i, j :: 0 <= i < j < |s| ==> leq(s[i], s[j]) && (leq(s[j], s[i]) ==> tie(s[i], s[j]))
  }

  function InsertSorted<T>(x: T, s: seq<T>, leq: (T, T) -> bool): (r: seq<T>)
    ensures |r| == |s| + 1
  {
    if s == [] || leq(x, s[0]) then [x] + s else [s[0]] + InsertSorted(x, s[1..], leq)
  }

  /** The elements of `s`, each before the later ones it does not exceed, equals kept in order. */
  function Sort<T>(s: seq<T>, leq: (T, T) -> bool): (r: seq<T>)
    ensures |r| == |s|
  {
    if s == [] then [] else InsertSorted(s[0], Sort(s[1..], leq), leq)
  }

  lemma {:induction false} InsertPermutes<T>(x: T, s: seq<T>, leq: (T, T) -> bool)
    ensures multiset(InsertSorted(x, s, leq)) == multiset(s) + multiset{x}
  {
    if s != [] && !leq(x, s[0]) {
      InsertPermutes(x, s[1..], leq);
      assert s == [s[0]] + s[1..];
    }
  }

  /** Sorting neither loses nor adds anything. */
  lemma {:induction false} SortPermutes<T>(s: seq<T>, leq: (T, T) -> bool)
    ensures multiset(Sort(s, leq)) == multiset(s)
    ensures forall x :: x in Sort(s, leq) <==> x in s
  {
    if s != [] {
      SortPermutes(s[1..], leq);
      InsertPermutes(s[0], Sort(s[1..], leq), leq);
      assert s == [s[0]] + s[1..];
    }
    SameElements(Sort(s, leq), s);
  }

  lemma SameElements<T>(a: seq<T>, b: seq<T>)
    requires multiset(a) == multiset(b)
    ensures forall x :: x in a <==> x in b
  {
    assert forall x :: x in a <==> x in multiset(a);
    assert forall x :: x in b <==> x in multiset(b);
  }

  lemma {:induction false} InsertKeepsOrder<T(!new)>(x: T, s: seq<T>, leq: (T, T) -> bool, tie: (T, T) -> bool)
    requires TotalPreorder(leq) && SortedWithTies(s, leq, tie)
    requires forall y <- s :: tie(x, y)
    ensures SortedWithTies(InsertSorted(x, s, leq), leq, tie)
  {
    if s != [] && !leq(x, s[0]) {
      InsertKeepsOrder(x, s[1..], leq, tie);
      InsertPermutes(x, s[1..], leq);
      var tail := InsertSorted(x, s[1..], leq);
      forall j | 0 <= j < |tail| ensures leq(s[0], tail[j]) && (leq(tail[j], s[0]) ==> tie(s[0], tail[j])) {
        assert tail[j] in multiset(tail);
        if tail[j] != x {
          assert tail[j] in s[1..];
        }
      }
    }
  }

  /** If `tie` holds along the input, sorting is ordered by `leq` with equals in relation `tie`. */
  lemma {:induction false} SortStable<T(!new)>(s: seq<T>, leq: (T, T) -> bool, tie: (T, T) -> bool)
    requires TotalPreorder(leq) && SortedBy(s, tie)
    ensures SortedWithTies(Sort(s, leq), leq, tie)
  {
    if s != [] {
      SortStable(s[1..], leq, tie);
      SortPermutes(s[1..], leq);
      InsertKeepsOrder(s[0], Sort(s[1..], leq), leq, tie);
    }
  }

  lemma SortSorts<T(!new)>(s: seq<T>, leq: (T, T) -> bool)
    requires TotalPreorder(leq)
    ensures SortedBy(Sort(s, leq), leq)
  {
    SortStable(s, leq, (x, y) => true);
  }

  ghost predicate Distinct<T>(s: seq<T>) {
    forall i, j :: 0 <= i < j < |s| ==> s[i] != s[j]
  }

  /** Sequences with the same elements are distinct together. */
  lemma {:induction false} DistinctPermutation<T>(a: seq<T>, b: seq<T>)
    requires multiset(a) == multiset(b) && Distinct(a)
    ensures Distinct(b)
  {
    forall i, j | 0 <= i < j < |b| ensures b[i] != b[j] {
      if b[i] == b[j] {
        TwiceInMultiset(b, i, j);
        OnceInMultiset(a, b[i]);
      }
    }
  }

  lemma TwiceInMultiset<T>(s: seq<T>, i: nat, j: nat)
    requires i < j < |s| && s[i] == s[j]
    ensures multiset(s)[s[i]] >= 2
  {
    assert s == s[..j] + [s[j]] + s[j + 1..];
    assert s[i] in s[..j];
  }

  lemma {:induction false} OnceInMultiset<T>(s: seq<T>, x: T)
    requires Distinct(s)
    ensures multiset(s)[x] <= 1
  {
    if s != [] {
      assert s == [s[0]] + s[1..];
      OnceInMultiset(s[1..], x);
    }
  }

  ghost predicate Pairwise<T>(s: seq<T>, rel: (T, T) -> bool) {
    forall i, j :: 0 <= i < |s| && 0 <= j < |s| && i != j ==> rel(s[i], s[j])
  }

  /** A relation no element has to itself survives any reordering. */
  lemma PairwisePermutation<T(!new)>(a: seq<T>, b: seq<T>, rel: (T, T) -> bool)
    requires multiset(a) == multiset(b) && Pairwise(a, rel) && forall x :: !rel(x, x)
    ensures Pairwise(b, rel)
  {
    assert Distinct(a) by {
      forall i, j | 0 <= i < j < |a| ensures a[i] != a[j] {
        assert rel(a[i], a[j]);
      }
    }
    DistinctPermutation(a, b);
    SameElements(a, b);
    forall i, j | 0 <= i < |b| && 0 <= j < |b| && i != j ensures rel(b[i], b[j]) {
      assert b[i] in b && b[j] in b && b[i] != b[j];
      var k :| 0 <= k < |a| && a[k] == b[i];
      var l :| 0 <= l < |a| && a[l] == b[j];
    }
  }
}
