/** Eviction from the in-memory entries of the cache manager in qvs-format. */
module Cache {
  import opened Sorting

  type InfoHash = nat

  datatype CacheEntry = CacheEntry(infoHash: InfoHash, fileSize: nat, lastAccess: nat)

  function TotalSize(entries: seq<CacheEntry>): nat {
    if entries == [] then 0 else entries[0].fileSize + TotalSize(entries[1..])
  }

  function OlderFirst(): (CacheEntry, CacheEntry) -> bool {
    (a: CacheEntry, b: CacheEntry) => a.lastAccess <= b.lastAccess
  }

  function Threshold(maxSize: nat): nat {
    maxSize * 80 / 100
  }

  /** How many of the oldest entries go: as few as leave no more than the threshold. */
  function EvictCount(sorted: seq<CacheEntry>, threshold: nat): (n: nat)
    ensures n <= |sorted|
  {
    if sorted == [] || TotalSize(sorted) <= threshold then 0 else 1 + EvictCount(sorted[1..], threshold)
  }

  function Hashes(entries: seq<CacheEntry>): seq<InfoHash> {
    seq(|entries|, i requires 0 <= i < |entries| => entries[i].infoHash)
  }

  /**
   `evicted` and `kept` are the entries, the kept ones fit, none of them older than an evicted one, and evicting
   fewer would not do.
   */
  ghost predicate IsEviction(
    all: multiset<CacheEntry>, evicted: seq<CacheEntry>, kept: seq<CacheEntry>, threshold: nat)
  {
    && multiset(evicted) + multiset(kept) == all
    && TotalSize(kept) <= threshold
    && (forall e <- evicted, k <- kept :: e.lastAccess <= k.lastAccess)
    && (evicted != [] ==> TotalSize([evicted[|evicted| - 1]] + kept) > threshold)
  }

  lemma {:induction false} EvictCountMinimal(sorted: seq<CacheEntry>, threshold: nat)
    ensures var n := EvictCount(sorted, threshold);
            && TotalSize(sorted[n..]) <= threshold
            && (n > 0 ==> TotalSize(sorted[n - 1..]) > threshold)
  {
    var n := EvictCount(sorted, threshold);
    assert sorted[0..] == sorted;
    if n > 0 {
      EvictCountMinimal(sorted[1..], threshold);
      assert sorted[1..][n - 1..] == sorted[n..];
      if n > 1 {
        assert sorted[1..][n - 2..] == sorted[n - 1..];
      }
    }
  }

  /** Cutting the sorted entries at the evict count is a least-recently-used eviction of minimal size. */
  lemma EvictionIsMinimal(entries: seq<CacheEntry>, threshold: nat)
    ensures var sorted := Sort(entries, OlderFirst());
            var n := EvictCount(sorted, threshold);
            IsEviction(multiset(entries), sorted[..n], sorted[n..], threshold)
  {
    SortSorts(entries, OlderFirst());
    SortPermutes(entries, OlderFirst());
    CutIsEviction(Sort(entries, OlderFirst()), threshold);
  }

  lemma CutIsEviction(sorted: seq<CacheEntry>, threshold: nat)
    requires SortedBy(sorted, OlderFirst())
    ensures var n := EvictCount(sorted, threshold);
            IsEviction(multiset(sorted), sorted[..n], sorted[n..], threshold)
  {
    hide EvictCount, TotalSize, SortedBy;
    var n := EvictCount(sorted, threshold);
    CutSorted(sorted, n);
    EvictCountMinimal(sorted, threshold);
    if n > 0 {
      assert [sorted[n - 1]] + sorted[n..] == sorted[n - 1..];
    }
  }

  lemma CutSorted(sorted: seq<CacheEntry>, n: nat)
    requires SortedBy(sorted, OlderFirst()) && n <= |sorted|
    ensures multiset(sorted[..n]) + multiset(sorted[n..]) == multiset(sorted)
    ensures forall e <- sorted[..n], k <- sorted[n..] :: e.lastAccess <= k.lastAccess
  {
    assert sorted == sorted[..n] + sorted[n..];
    forall e, k | e in sorted[..n] && k in sorted[n..] ensures e.lastAccess <= k.lastAccess {
      var i :| 0 <= i < n && sorted[..n][i] == e;
      var j :| 0 <= j < |sorted[n..]| && sorted[n..][j] == k;
      assert OlderFirst()(sorted[i], sorted[n + j]);
    }
  }

  ghost predicate LeastRecentFirst(s: seq<CacheEntry>) {
    forall i, j :: 0 <= i < j < |s| ==> s[i].lastAccess <= s[j].lastAccess
  }

  lemma SortedOldestFirst(entries: seq<CacheEntry>, n: nat)
    requires n <= |entries|
    ensures var sorted := Sort(entries, OlderFirst()); LeastRecentFirst(sorted[..n] + sorted[n..])
  {
    SortSorts(entries, OlderFirst());
    var sorted := Sort(entries, OlderFirst());
    assert forall i, j :: 0 <= i < j < |sorted| ==> OlderFirst()(sorted[i], sorted[j]);
    assert sorted[..n] + sorted[n..] == sorted;
  }

  class CacheManager {
    const maxSize: nat
    var entries: seq<CacheEntry>

    constructor (maxSize: nat)
      ensures this.maxSize == maxSize && entries == []
    {
      this.maxSize := maxSize;
      entries := [];
    }

    /** `cleanup` up to the file deletions, which `toDelete` lists in order. */
    method Cleanup() returns (toDelete: seq<InfoHash>)
      modifies this
      ensures exists evicted ::
                && IsEviction(multiset(old(entries)), evicted, entries, maxSize * 80 / 100)
                && toDelete == Hashes(evicted) && LeastRecentFirst(evicted + entries)
    {
      hide IsEviction, EvictCount, LeastRecentFirst;
      EvictionIsMinimal(entries, Threshold(maxSize));
      SortedOldestFirst(entries, EvictCount(Sort(entries, OlderFirst()), Threshold(maxSize)));
      var sorted := Sort(entries, OlderFirst());
      entries, toDelete := EvictOldest(sorted, Threshold(maxSize));
    }

    /** The `retain` of `cleanup`: once the rest fits, everything stays. */
    method EvictOldest(sorted: seq<CacheEntry>, threshold: nat)
      returns (kept: seq<CacheEntry>, toDelete: seq<InfoHash>)
      ensures kept == sorted[EvictCount(sorted, threshold)..]
      ensures toDelete == Hashes(sorted[..EvictCount(sorted, threshold)])
    {
      var totalSize := SumSizes(sorted);
      kept, toDelete := [], [];
      ghost var n := EvictCount(sorted, threshold);
      for i := 0 to |sorted|
        invariant i <= n ==> kept == [] && toDelete == Hashes(sorted[..i]) && totalSize == TotalSize(sorted[i..])
        invariant i <= n ==> n == i + EvictCount(sorted[i..], threshold)
        invariant n < i ==> kept == sorted[n..i] && toDelete == Hashes(sorted[..n]) && totalSize <= threshold
      {
        assert sorted[i..][0] == sorted[i] && sorted[i..][1..] == sorted[i + 1..];
        assert sorted[..i + 1] == sorted[..i] + [sorted[i]];
        if totalSize <= threshold {
          kept := kept + [sorted[i]];
        } else {
          totalSize := if totalSize < sorted[i].fileSize then 0 else totalSize - sorted[i].fileSize;
          toDelete := toDelete + [sorted[i].infoHash];
        }
      }
    }

    method SumSizes(s: seq<CacheEntry>) returns (total: nat)
      ensures total == TotalSize(s)
    {
      total := 0;
      for i := 0 to |s|
        invariant total + TotalSize(s[i..]) == TotalSize(s)
      {
        assert s[i..][0] == s[i] && s[i..][1..] == s[i + 1..];
        total := total + s[i].fileSize;
      }
    }
  }
}
