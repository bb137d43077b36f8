/** Buckets and the routing table of qvs-dht: what each operation does and what every run keeps. */
module RoutingModel {
  import opened Wrappers
  import opened Bytes
  import opened Identifiers
  import opened Sorting

  const K: nat := 8
  const BUCKETS: nat := 160
  /** Nanoseconds. */
  const STALE_INTERVAL: nat := 900_000_000_000

  type Addr = nat

  datatype Entry = Entry(nodeId: NodeId, addr: Addr, lastSeen: nat, latency: nat, firewalled: bool)

  type Bucket = seq<Entry>

  datatype InsertResult = Added | Existing | Replaced | Full

  datatype Table = Table(local: NodeId, buckets: seq<Bucket>)

  // ----- Buckets -----

  /** The first position whose entry has the identifier. */
  function FindId(b: Bucket, id: NodeId): (r: Option<nat>)
    ensures r.Some? ==> r.value < |b| && b[r.value].nodeId == id
    ensures r.None? ==> forall e <- b :: e.nodeId != id
  {
    if b == [] then None
    else if b[0].nodeId == id then Some(0)
    else match FindId(b[1..], id) case None => None case Some(k) => Some(k + 1)
  }

  predicate Stale(e: Entry, now: nat) {
    now > e.lastSeen + STALE_INTERVAL
  }

  function FindStale(b: Bucket, now: nat): (r: Option<nat>)
    ensures r.Some? ==> r.value < |b| && Stale(b[r.value], now) && forall j :: 0 <= j < r.value ==> !Stale(b[j], now)
    ensures r.None? ==> forall e <- b :: !Stale(e, now)
  {
    if b == [] then None
    else if Stale(b[0], now) then Some(0)
    else match FindStale(b[1..], now) case None => None case Some(k) => Some(k + 1)
  }

  /** `KBucket::insert`: refresh and rotate to the front, append, replace a stale entry, or refuse. */
  function BucketInsert(b: Bucket, e: Entry, now: nat): (Bucket, InsertResult) {
    match FindId(b, e.nodeId)
    case Some(pos) =>
      var seen := b[pos := b[pos].(lastSeen := now, latency := e.latency)];
      (seen[pos..] + seen[..pos], Existing)
    case None =>
      if |b| < K then (b + [e], Added)
      else
        match FindStale(b, now)
        case Some(pos) => (b[..pos] + b[pos + 1..] + [e], Replaced)
        case None => (b, Full)
  }

  /** Not seen for more than 900 seconds. */
  ghost predicate Overdue(e: Entry, now: nat) {
    now > e.lastSeen + 900_000_000_000
  }

  ghost predicate Holds(b: Bucket, id: NodeId) {
    exists x <- b :: x.nodeId == id
  }

  /**
   What each result of an insert says: a known identifier is seen now, with the new latency, and moves to the front
   with what follows it; a new entry is appended as it is, if need be in place of the first one overdue; and only
   a full bucket with nothing overdue refuses.
   */
  ghost predicate RightInsert(b: Bucket, e: Entry, now: nat, b': Bucket, r: InsertResult) {
    match r
    case Existing =>
      exists i :: 0 <= i < |b| && b[i].nodeId == e.nodeId
        && b' == [Entry(e.nodeId, b[i].addr, now, e.latency, b[i].firewalled)] + b[i + 1..] + b[..i]
    case Added => |b| < 8 && !Holds(b, e.nodeId) && b' == b + [e]
    case Replaced =>
      && |b| >= 8 && !Holds(b, e.nodeId)
      && exists i :: 0 <= i < |b| && Overdue(b[i], now) && (forall j :: 0 <= j < i ==> !Overdue(b[j], now))
           && b' == b[..i] + b[i + 1..] + [e]
    case Full => |b| >= 8 && !Holds(b, e.nodeId) && (forall x <- b :: !Overdue(x, now)) && b' == b
  }

  lemma InsertRight(b: Bucket, e: Entry, now: nat)
    ensures RightInsert(b, e, now, BucketInsert(b, e, now).0, BucketInsert(b, e, now).1)
  {
    match FindId(b, e.nodeId)
    case Some(pos) =>
      var refreshed := Entry(e.nodeId, b[pos].addr, now, e.latency, b[pos].firewalled);
      var seen := b[pos := refreshed];
      assert seen[pos..] == [refreshed] + b[pos + 1..] && seen[..pos] == b[..pos];
    case None =>
  }

  /** `retain` of everything but one identifier. */
  function BucketRemove(b: Bucket, id: NodeId): (r: Bucket)
    ensures |r| <= |b|
  {
    if b == [] then []
    else if b[0].nodeId == id then BucketRemove(b[1..], id)
    else [b[0]] + BucketRemove(b[1..], id)
  }

  ghost predicate DistinctIds(b: Bucket) {
    forall i, j :: 0 <= i < j < |b| ==> b[i].nodeId != b[j].nodeId
  }

  /** An insert keeps identifiers distinct and the size bounded; the identifier is there unless refused. */
  lemma InsertKeepsBucket(b: Bucket, e: Entry, now: nat)
    requires DistinctIds(b) && |b| <= K
    ensures var (b', r) := BucketInsert(b, e, now);
            && DistinctIds(b') && |b'| <= K
            && (forall x <- b' :: x.nodeId == e.nodeId || x in b)
            && (forall x <- b :: x.nodeId != e.nodeId && !Stale(x, now) ==> x in b')
            && (r == Full ==> |b| == K && forall x <- b :: x.nodeId != e.nodeId && !Stale(x, now))
            && (r == Full <==> forall x <- b' :: x.nodeId != e.nodeId)
  {
    hide BucketInsert, DistinctIds, RightInsert;
    InsertRight(b, e, now);
    InsertKeepsDistinct(b, e, now);
    var (b', r) := BucketInsert(b, e, now);
    match r
    case Existing => ExistingElements(b, e, now, b');
    case Replaced => ReplacedElements(b, e, now, b');
    case _ => OtherElements(b, e, now, b', r);
  }

  lemma ExistingElements(b: Bucket, e: Entry, now: nat, b': Bucket)
    requires RightInsert(b, e, now, b', Existing)
    ensures forall x <- b' :: x.nodeId == e.nodeId || x in b
    ensures forall x <- b :: x.nodeId != e.nodeId ==> x in b'
    ensures exists x <- b' :: x.nodeId == e.nodeId
  {
    var i :| 0 <= i < |b| && b[i].nodeId == e.nodeId
      && b' == [Entry(e.nodeId, b[i].addr, now, e.latency, b[i].firewalled)] + b[i + 1..] + b[..i];
    assert b'[1..] == b[i + 1..] + b[..i];
    SameOthers(b, b', i);
    assert b'[0] in b';
  }

  lemma ReplacedElements(b: Bucket, e: Entry, now: nat, b': Bucket)
    requires RightInsert(b, e, now, b', Replaced)
    ensures forall x <- b' :: x == e || x in b
    ensures forall x <- b :: !Stale(x, now) ==> x in b'
    ensures e in b'
  {
    var i :| 0 <= i < |b| && Overdue(b[i], now) && b' == b[..i] + b[i + 1..] + [e];
    OthersStay(b, i, e);
  }

  lemma OtherElements(b: Bucket, e: Entry, now: nat, b': Bucket, r: InsertResult)
    requires RightInsert(b, e, now, b', r) && (r == Added || r == Full)
    ensures forall x <- b' :: x == e || x in b
    ensures forall x <- b :: x in b'
    ensures r == Added ==> e in b'
    ensures r == Full ==> |b| >= K && b' == b && forall x <- b :: x.nodeId != e.nodeId && !Stale(x, now)
  {
  }

  lemma InsertKeepsDistinct(b: Bucket, e: Entry, now: nat)
    requires DistinctIds(b) && |b| <= K
    ensures DistinctIds(BucketInsert(b, e, now).0) && |BucketInsert(b, e, now).0| <= K
  {
    hide BucketInsert, DistinctIds;
    InsertRight(b, e, now);
    var (b', r) := BucketInsert(b, e, now);
    match r
    case Existing =>
      var i :| 0 <= i < |b| && b[i].nodeId == e.nodeId
        && b' == [Entry(e.nodeId, b[i].addr, now, e.latency, b[i].firewalled)] + b[i + 1..] + b[..i];
      RefreshKeepsBucket(b, i, Entry(e.nodeId, b[i].addr, now, e.latency, b[i].firewalled));
    case Added => AppendKeepsBucket(b, e);
    case Replaced =>
      var i :| 0 <= i < |b| && Overdue(b[i], now) && b' == b[..i] + b[i + 1..] + [e];
      WithoutOne(b, i);
      AppendKeepsBucket(b[..i] + b[i + 1..], e);
    case Full =>
  }

  lemma WithoutOne(b: Bucket, i: nat)
    requires DistinctIds(b) && i < |b|
    ensures DistinctIds(b[..i] + b[i + 1..]) && forall x <- b[..i] + b[i + 1..] :: x in b
  {
  }

  /** Rotated to the front, one entry leaves the others as they were. */
  lemma SameOthers(b: Bucket, b': Bucket, pos: nat)
    requires pos < |b| && |b'| == |b| && b'[1..] == b[pos + 1..] + b[..pos]
    ensures forall x <- b' :: x == b'[0] || x in b
    ensures forall x <- b :: x == b[pos] || x in b'
  {
    assert b' == [b'[0]] + (b[pos + 1..] + b[..pos]);
    assert b == b[..pos] + [b[pos]] + b[pos + 1..];
  }

  lemma OthersStay(b: Bucket, i: nat, e: Entry)
    requires i < |b|
    ensures forall x <- b :: x == b[i] || x in b[..i] + b[i + 1..] + [e]
    ensures forall x <- b[..i] + b[i + 1..] + [e] :: x == e || x in b
    ensures e in b[..i] + b[i + 1..] + [e]
  {
    assert b == b[..i] + [b[i]] + b[i + 1..];
  }

  lemma RefreshKeepsBucket(b: Bucket, i: nat, refreshed: Entry)
    requires DistinctIds(b) && i < |b| && b[i].nodeId == refreshed.nodeId
    ensures DistinctIds([refreshed] + b[i + 1..] + b[..i])
  {
    var b' := [refreshed] + b[i + 1..] + b[..i];
    assert forall k :: 1 <= k < |b| ==> b'[k] == if k < |b| - i then b[i + k] else b[k - (|b| - i)];
  }

  lemma AppendKeepsBucket(b: Bucket, e: Entry)
    requires DistinctIds(b) && forall x <- b :: x.nodeId != e.nodeId
    ensures DistinctIds(b + [e]) && e in b + [e]
  {
  }

  lemma {:induction false} RemoveElements(b: Bucket, id: NodeId)
    ensures forall e :: e in BucketRemove(b, id) <==> e in b && e.nodeId != id
  {
    if b != [] {
      RemoveElements(b[1..], id);
    }
  }

  lemma {:induction false} RemoveKeepsBucket(b: Bucket, id: NodeId)
    requires DistinctIds(b)
    ensures DistinctIds(BucketRemove(b, id))
  {
    if b != [] {
      RemoveKeepsBucket(b[1..], id);
      RemoveElements(b[1..], id);
    }
  }

  /** The one entry with the identifier is taken out, the others stay in order. */
  ghost predicate RightRemove(b: Bucket, id: NodeId, b': Bucket) {
    if Holds(b, id) then exists i :: 0 <= i < |b| && b[i].nodeId == id && b' == b[..i] + b[i + 1..] else b' == b
  }

  lemma {:induction false} RemoveAbsent(b: Bucket, id: NodeId)
    requires forall i :: 0 <= i < |b| ==> b[i].nodeId != id
    ensures BucketRemove(b, id) == b
  {
    if b != [] {
      RemoveAbsent(b[1..], id);
    }
  }

  lemma {:induction false} RemoveMiddle(left: Bucket, e: Entry, right: Bucket)
    requires forall i :: 0 <= i < |left| ==> left[i].nodeId != e.nodeId
    requires forall i :: 0 <= i < |right| ==> right[i].nodeId != e.nodeId
    ensures BucketRemove(left + [e] + right, e.nodeId) == left + right
  {
    var b := left + [e] + right;
    if left == [] {
      assert b[1..] == right == left + right;
      RemoveAbsent(right, e.nodeId);
    } else {
      RemoveMiddle(left[1..], e, right);
      assert b[1..] == left[1..] + [e] + right;
      assert left + right == [left[0]] + (left[1..] + right);
    }
  }

  lemma RemoveRight(b: Bucket, id: NodeId)
    requires DistinctIds(b)
    ensures RightRemove(b, id, BucketRemove(b, id))
  {
    hide BucketRemove;
    if i: nat :| i < |b| && b[i].nodeId == id {
      assert b == b[..i] + [b[i]] + b[i + 1..];
      RemoveMiddle(b[..i], b[i], b[i + 1..]);
    } else {
      RemoveAbsent(b, id);
    }
  }

  // ----- Bucket index -----

  /** `u8::leading_zeros`. */
  function ByteZeros(b: nat): (n: nat)
    requires 0 < b < 256
    ensures n <= 7
  {
    if b >= 128 then 0
    else if b >= 64 then 1
    else if b >= 32 then 2
    else if b >= 16 then 3
    else if b >= 8 then 4
    else if b >= 4 then 5
    else if b >= 2 then 6
    else 7
  }

  /** The bit position of the first set bit from byte `i` on, or 160 * 8 if there is none. */
  function LeadingFrom(dist: NodeId, i: nat): (n: nat)
    requires i <= 20
    ensures (exists j :: i <= j < 20 && dist[j] != 0) ==> n < 160
    ensures (forall j :: i <= j < 20 ==> dist[j] == 0) ==> n == 1280
    decreases 20 - i
  {
    if i == 20 then 1280
    else if dist[i] != 0 then i * 8 + ByteZeros(dist[i] as nat)
    else LeadingFrom(dist, i + 1)
  }

  /** `bucket_index`. */
  function BucketIndex(local: NodeId, id: NodeId): (i: nat)
    ensures i < BUCKETS
  {
    var leading := LeadingFrom(Distance(local, id), 0);
    var raw := if leading <= 1279 then 1279 - leading else 0;
    if raw < 159 then raw else 159
  }

  /** The index is counted in 1280 bits where there are 160: only two buckets are ever used. */
  lemma TwoBuckets(local: NodeId, id: NodeId)
    ensures BucketIndex(local, id) == if id == local then 0 else 159
  {
    DistanceZero(local, id);
  }

  // ----- The table -----

  function NewTable(local: NodeId): Table {
    Table(local, seq(BUCKETS, _ => []))
  }

  function BitSet(dist: NodeId, bit: nat): bool
    requires bit < 160
  {
    dist[bit / 8] as nat / Pow2(7 - bit % 8) % 2 == 1
  }

  function SplitBucket(b: Bucket, local: NodeId, bit: nat): (r: (Bucket, Bucket))
    requires bit < 160
  {
    if b == [] then ([], [])
    else
      var (left, right) := SplitBucket(b[1..], local, bit);
      if BitSet(Distance(local, b[0].nodeId), bit) then (left, [b[0]] + right) else ([b[0]] + left, right)
  }

  predicate CanSplit(t: Table, idx: nat) {
    idx < |t.buckets| && idx == BucketIndex(t.local, t.local)
  }

  /** `RoutingTable::insert`, with the branch that splits the local bucket and tries again. */
  function Insert(t: Table, e: Entry, now: nat): (Table, InsertResult)
    requires |t.buckets| >= BUCKETS
  {
    var idx := BucketIndex(t.local, e.nodeId);
    var (b, result) := BucketInsert(t.buckets[idx], e, now);
    if result == Full && CanSplit(t, idx) then
      var bit := BitSet(Distance(t.local, e.nodeId), idx);
      var (left, right) := SplitBucket(t.buckets[idx], t.local, idx);
      var buckets := t.buckets[..idx] + [left, right] + t.buckets[idx + 1..];
      var idx' := if bit then idx + 1 else idx;
      var (b', result') := BucketInsert(buckets[idx'], e, now);
      (t.(buckets := buckets[idx' := b']), result')
    else (t.(buckets := t.buckets[idx := b]), result)
  }

  function Remove(t: Table, id: NodeId): Table
    requires |t.buckets| >= BUCKETS
  {
    var idx := BucketIndex(t.local, id);
    t.(buckets := t.buckets[idx := BucketRemove(t.buckets[idx], id)])
  }

  /** No bucket overflows, no identifier is stored twice, every entry sits where its identifier maps. */
  ghost predicate Inv(t: Table) {
    && |t.buckets| == BUCKETS
    && (forall i :: 0 <= i < BUCKETS ==> |t.buckets[i]| <= K && DistinctIds(t.buckets[i]))
    && (forall i :: 0 <= i < BUCKETS ==> forall e <- t.buckets[i] :: BucketIndex(t.local, e.nodeId) == i)
  }

  ghost predicate Stores(t: Table, id: NodeId) {
    exists i :: 0 <= i < |t.buckets| && exists e <- t.buckets[i] :: e.nodeId == id
  }

  lemma NewTableInv(local: NodeId)
    ensures Inv(NewTable(local))
  {
  }

  /** The local bucket can hold the local identifier only, so it is never full and never split. */
  lemma NeverSplit(t: Table, e: Entry, now: nat)
    requires Inv(t)
    ensures var idx := BucketIndex(t.local, e.nodeId);
            !(BucketInsert(t.buckets[idx], e, now).1 == Full && CanSplit(t, idx))
  {
    var idx := BucketIndex(t.local, e.nodeId);
    InsertKeepsBucket(t.buckets[idx], e, now);
    TwoBuckets(t.local, t.local);
    TwoBuckets(t.local, e.nodeId);
    LocalBucketSmall(t);
  }

  lemma LocalBucketSmall(t: Table)
    requires Inv(t)
    ensures |t.buckets[0]| <= 1
  {
    var b := t.buckets[0];
    if |b| > 1 {
      var x, y := b[0], b[1];
      assert x in b && y in b && x.nodeId != y.nodeId;
      TwoBuckets(t.local, x.nodeId);
      TwoBuckets(t.local, y.nodeId);
    }
  }

  /** Inserting keeps the table sound, touches one bucket, and stores the identifier unless refused. */
  lemma InsertKeepsInv(t: Table, e: Entry, now: nat)
    requires Inv(t)
    ensures var (t', r) := Insert(t, e, now);
            && Inv(t') && t'.local == t.local
            && (forall i :: 0 <= i < BUCKETS && i != BucketIndex(t.local, e.nodeId) ==> t'.buckets[i] == t.buckets[i])
            && (r != Full <==> Stores(t', e.nodeId))
  {
    NeverSplit(t, e, now);
    var idx := BucketIndex(t.local, e.nodeId);
    InsertKeepsBucket(t.buckets[idx], e, now);
    var (t', r) := Insert(t, e, now);
    assert t'.buckets == t.buckets[idx := BucketInsert(t.buckets[idx], e, now).0];
    if r != Full {
      var x :| x in t'.buckets[idx] && x.nodeId == e.nodeId;
    }
  }

  /** The bucket the identifier belongs to is inserted into as it should, and no other bucket changes. */
  lemma TableInsertRight(t: Table, e: Entry, now: nat)
    requires Inv(t)
    ensures var (t', r) := Insert(t, e, now);
            var idx := if e.nodeId == t.local then 0 else 159;
            && |t'.buckets| == BUCKETS && t'.local == t.local
            && RightInsert(t.buckets[idx], e, now, t'.buckets[idx], r)
            && (forall i :: 0 <= i < BUCKETS && i != idx ==> t'.buckets[i] == t.buckets[i])
  {
    hide BucketInsert, BucketIndex, RightInsert;
    NeverSplit(t, e, now);
    TwoBuckets(t.local, e.nodeId);
    InsertRight(t.buckets[BucketIndex(t.local, e.nodeId)], e, now);
  }

  /** The bucket of a table an identifier belongs to: one for the local identifier, one for all others. */
  ghost function BucketOf(t: Table, id: NodeId): Bucket
    requires Inv(t)
  {
    if id == t.local then t.buckets[0] else t.buckets[159]
  }

  ghost predicate FreshIn(b: Bucket, id: NodeId, now: nat) {
    exists x <- b :: x.nodeId == id && !Overdue(x, now)
  }

  /** Nothing leaves a bucket that has room, and nothing leaves any bucket that is not overdue. */
  lemma BucketInsertKeeps(b: Bucket, e: Entry, now: nat, b': Bucket, r: InsertResult, id: NodeId)
    requires RightInsert(b, e, now, b', r) && |b| <= 8
    ensures |b| <= |b'| && (Holds(b', e.nodeId) || |b'| == 8)
    ensures Holds(b, id) ==> Holds(b', id) || |b'| == 8
    ensures FreshIn(b, id, now) ==> FreshIn(b', id, now)
  {
    hide FreshIn, Holds;
    match r
    case Existing =>
      var i :| 0 <= i < |b| && b[i].nodeId == e.nodeId
        && b' == [Entry(e.nodeId, b[i].addr, now, e.latency, b[i].firewalled)] + b[i + 1..] + b[..i];
      assert b'[1..] == b[i + 1..] + b[..i];
      SameOthers(b, b', i);
      Carried(b, b', b[i], id, now);
      HoldsIt(b', b'[0], now);
    case Replaced =>
      var i :| 0 <= i < |b| && Overdue(b[i], now) && b' == b[..i] + b[i + 1..] + [e];
      OthersStay(b, i, e);
      Carried(b, b', b[i], id, now);
    case Added =>
      Carried(b, b', e, id, now);
      HoldsIt(b', e, now);
    case Full =>
  }

  lemma HoldsIt(b: Bucket, e: Entry, now: nat)
    requires e in b
    ensures Holds(b, e.nodeId) && (!Overdue(e, now) ==> FreshIn(b, e.nodeId, now))
  {
  }

  /** What only one entry leaves holds what it held otherwise. */
  lemma Carried(b: Bucket, b': Bucket, gone: Entry, id: NodeId, now: nat)
    requires forall x <- b :: x == gone || x in b'
    ensures Holds(b, id) ==> Holds(b', id) || id == gone.nodeId
    ensures FreshIn(b, id, now) ==> FreshIn(b', id, now) || (id == gone.nodeId && !Overdue(gone, now))
  {
  }

  /** The same of a table, for the inserted identifier and any other. */
  lemma InsertOutcome(t: Table, e: Entry, now: nat, id: NodeId)
    requires Inv(t)
    ensures var t' := Insert(t, e, now).0;
            && Inv(t') && t'.local == t.local
            && |BucketOf(t, id)| <= |BucketOf(t', id)|
            && (Holds(BucketOf(t', e.nodeId), e.nodeId) || |BucketOf(t', e.nodeId)| == 8)
            && (Holds(BucketOf(t, id), id) ==> Holds(BucketOf(t', id), id) || |BucketOf(t', id)| == 8)
            && (FreshIn(BucketOf(t, id), id, now) ==> FreshIn(BucketOf(t', id), id, now))
  {
    hide Insert, RightInsert, FreshIn, Holds;
    InsertKeepsInv(t, e, now);
    TableInsertRight(t, e, now);
    var (t', r) := Insert(t, e, now);
    BucketInsertKeeps(BucketOf(t, e.nodeId), e, now, BucketOf(t', e.nodeId), r, id);
  }

  lemma RemoveKeepsInv(t: Table, id: NodeId)
    requires Inv(t)
    ensures Inv(Remove(t, id)) && Remove(t, id).local == t.local && !Stores(Remove(t, id), id)
    ensures forall x :: x != id ==> (Stores(Remove(t, id), x) <==> Stores(t, x))
  {
    hide BucketIndex, DistinctIds, BucketRemove;
    var idx := BucketIndex(t.local, id);
    var t' := Remove(t, id);
    RemoveKeepsBucket(t.buckets[idx], id);
    RemoveElements(t.buckets[idx], id);
    forall x | x != id ensures Stores(t', x) <==> Stores(t, x) {
      if Stores(t, x) {
        var i, e :| 0 <= i < |t.buckets| && e in t.buckets[i] && e.nodeId == x;
        assert e in t'.buckets[i];
      }
      if Stores(t', x) {
        var i, e :| 0 <= i < |t'.buckets| && e in t'.buckets[i] && e.nodeId == x;
        assert e in t.buckets[i];
      }
    }
  }

  // ----- Runs -----

  datatype Op = InsertOp(entry: Entry, now: nat) | RemoveOp(id: NodeId)

  ghost function Run(local: NodeId, ops: seq<Op>): (t: Table)
    ensures Inv(t) && t.local == local
  {
    if ops == [] then NewTableInv(local); NewTable(local)
    else
      var t := Run(local, ops[..|ops| - 1]);
      match ops[|ops| - 1]
      case InsertOp(e, now) => InsertKeepsInv(t, e, now); Insert(t, e, now).0
      case RemoveOp(id) => RemoveKeepsInv(t, id); Remove(t, id)
  }

  /** Only inserting the local identifier puts anything into the local bucket. */
  lemma {:induction false} LocalBucketEmpty(local: NodeId, ops: seq<Op>)
    requires forall i :: 0 <= i < |ops| && ops[i].InsertOp? ==> ops[i].entry.nodeId != local
    ensures Run(local, ops).buckets[0] == []
  {
    if ops != [] {
      var before := ops[..|ops| - 1];
      LocalBucketEmpty(local, before);
      var t := Run(local, before);
      match ops[|ops| - 1]
      case InsertOp(e, now) =>
        TwoBuckets(local, e.nodeId);
        InsertKeepsInv(t, e, now);
      case RemoveOp(id) =>
    }
  }

  // ----- Nearest nodes -----

  function NearerEntry(target: NodeId): (Entry, Entry) -> bool {
    (a: Entry, b: Entry) => Nearer(target, a.nodeId, b.nodeId)
  }

  function SortByDistance(s: seq<Entry>, target: NodeId): seq<Entry> {
    Sort(s, NearerEntry(target))
  }

  /** The buckets at the given offset from `idx`, the lower one first. */
  function AtOffset(t: Table, idx: nat, offset: nat): seq<Entry> {
    (if offset <= idx && idx - offset < |t.buckets| then t.buckets[idx - offset] else [])
    + (if idx + offset < |t.buckets| && offset > 0 then t.buckets[idx + offset] else [])
  }

  /** The candidates: bucket after bucket outwards until there are `count`. */
  function Gather(t: Table, idx: nat, offset: nat, count: nat, candidates: seq<Entry>): seq<Entry>
    decreases |t.buckets| - offset
  {
    if offset >= |t.buckets| then candidates
    else
      var more := candidates + AtOffset(t, idx, offset);
      if |more| >= count then more else Gather(t, idx, offset + 1, count, more)
  }

  function Truncate(s: seq<Entry>, count: nat): seq<Entry> {
    if count < |s| then s[..count] else s
  }

  /** `RoutingTable::find_closest`. */
  function FindClosest(t: Table, target: NodeId, count: nat): seq<Entry> {
    Truncate(SortByDistance(Gather(t, BucketIndex(t.local, target), 0, count, []), target), count)
  }

  ghost function AllEntries(t: Table): set<Entry> {
    set i, e | 0 <= i < |t.buckets| && e in t.buckets[i] :: e
  }

  ghost function Elements(s: seq<Entry>): set<Entry> {
    set e | e in s
  }

  /**
   `r` lists the `count` entries of `all` nearest to the target (all of them if there are fewer),
   each strictly nearer than the next, everything left out strictly farther than everything listed.
   */
  ghost predicate IsNearest(r: seq<Entry>, all: set<Entry>, target: NodeId, count: nat) {
    && |r| == (if count < |all| then count else |all|)
    && (forall e <- r :: e in all)
    && (forall i, j :: 0 <= i < j < |r| ==> !Nearer(target, r[j].nodeId, r[i].nodeId))
    && (forall e <- r, x <- all :: x !in r ==> !Nearer(target, x.nodeId, e.nodeId))
  }

  lemma NearerPreorder(target: NodeId)
    ensures TotalPreorder(NearerEntry(target))
  {
    var leq := NearerEntry(target);
    forall x, y ensures leq(x, y) || leq(y, x) {
      NearerTotal(target, x.nodeId, y.nodeId);
    }
    forall x, y, z | leq(x, y) && leq(y, z) ensures leq(x, z) {
      NearerTransitive(target, x.nodeId, y.nodeId, z.nodeId);
    }
  }

  /** Sorting distinct candidates and cutting gives the nearest of them. */
  lemma SortedPrefixIsNearest(s: seq<Entry>, target: NodeId, count: nat)
    requires DistinctIds(s)
    ensures IsNearest(Truncate(SortByDistance(s, target), count), Elements(s), target, count)
  {
    var sorted := SortByDistance(s, target);
    SortPermutes(s, NearerEntry(target));
    DistinctSize(s, Elements(s));
    StrictlySorted(s, target);
    PrefixIsNearest(sorted, Elements(s), target, count);
  }

  lemma NearestNone(all: set<Entry>, target: NodeId)
    ensures IsNearest([], all, target, 0)
  {
  }

  ghost predicate Strictly(s: seq<Entry>, target: NodeId) {
    forall i, j :: 0 <= i < j < |s| ==> !Nearer(target, s[j].nodeId, s[i].nodeId)
  }

  lemma StrictlySorted(s: seq<Entry>, target: NodeId)
    requires DistinctIds(s)
    ensures Strictly(SortByDistance(s, target), target)
  {
    var sorted := SortByDistance(s, target);
    NearerPreorder(target);
    SortSorts(s, NearerEntry(target));
    SortKeepsDistinctIds(s, target);
    forall i, j | 0 <= i < j < |sorted| ensures !Nearer(target, sorted[j].nodeId, sorted[i].nodeId) {
      assert NearerEntry(target)(sorted[i], sorted[j]);
      NearerTotal(target, sorted[i].nodeId, sorted[j].nodeId);
    }
  }

  lemma PrefixIsNearest(sorted: seq<Entry>, all: set<Entry>, target: NodeId, count: nat)
    requires Strictly(sorted, target) && |all| == |sorted| && forall e :: e in all <==> e in sorted
    ensures IsNearest(Truncate(sorted, count), all, target, count)
  {
    var r := Truncate(sorted, count);
    assert forall k :: 0 <= k < |r| ==> sorted[k] == r[k] && sorted[k] in r;
    forall e, x | e in r && x in all && x !in r ensures !Nearer(target, x.nodeId, e.nodeId) {
      var i :| 0 <= i < |r| && r[i] == e;
      var j :| 0 <= j < |sorted| && sorted[j] == x;
      assert sorted[i] == e && |r| <= j;
    }
  }

  lemma SortKeepsDistinctIds(s: seq<Entry>, target: NodeId)
    requires DistinctIds(s)
    ensures DistinctIds(SortByDistance(s, target))
  {
    SortPermutes(s, NearerEntry(target));
    PairwisePermutation(s, SortByDistance(s, target), (x: Entry, y: Entry) => x.nodeId != y.nodeId);
  }

  lemma {:induction false} DistinctSize(s: seq<Entry>, all: set<Entry>)
    requires DistinctIds(s) && all == Elements(s)
    ensures |all| == |s|
  {
    if s != [] {
      DistinctSize(s[1..], Elements(s[1..]));
      assert s[0] !in s[1..];
      assert all == Elements(s[1..]) + {s[0]};
    }
  }

  /** The entries are those of the two buckets in use, in the order a search from `idx` meets them. */
  lemma {:induction false} GatherSkipsEmpty(
    t: Table, idx: nat, offset: nat, last: nat, count: nat, candidates: seq<Entry>)
    requires offset <= last <= |t.buckets| && |candidates| < count
    requires forall o :: offset <= o < last ==> AtOffset(t, idx, o) == []
    ensures Gather(t, idx, offset, count, candidates) == Gather(t, idx, last, count, candidates)
    decreases last - offset
  {
    if offset < last {
      assert candidates + AtOffset(t, idx, offset) == candidates;
      GatherSkipsEmpty(t, idx, offset + 1, last, count, candidates);
    }
  }

  lemma OnlyTwoBuckets(t: Table, i: nat)
    requires Inv(t) && i < BUCKETS && i != 0 && i != 159
    ensures t.buckets[i] == []
  {
    if t.buckets[i] != [] {
      assert t.buckets[i][0] in t.buckets[i];
      TwoBuckets(t.local, t.buckets[i][0].nodeId);
    }
  }

  /** The search takes the first bucket it meets, and the other one only if it still needs entries. */
  lemma GatherTwo(t: Table, idx: nat, count: nat)
    requires Inv(t) && (idx == 0 || idx == 159)
    ensures Gather(t, idx, 0, count, [])
            == if |t.buckets[idx]| >= count then t.buckets[idx] else t.buckets[idx] + t.buckets[159 - idx]
  {
    var first := t.buckets[idx];
    assert [] + AtOffset(t, idx, 0) == first;
    if |first| < count {
      forall o | 1 <= o < 159 ensures AtOffset(t, idx, o) == [] {
        OnlyTwoBuckets(t, if idx == 0 then o else idx - o);
      }
      GatherSkipsEmpty(t, idx, 1, 159, count, first);
      assert AtOffset(t, idx, 159) == t.buckets[159 - idx];
      var all := first + t.buckets[159 - idx];
      assert Gather(t, idx, 160, count, all) == all;
    }
  }

  lemma TwoBucketEntries(t: Table)
    requires Inv(t)
    ensures DistinctIds(t.buckets[0] + t.buckets[159]) && DistinctIds(t.buckets[159] + t.buckets[0])
    ensures AllEntries(t) == Elements(t.buckets[0] + t.buckets[159])
    ensures AllEntries(t) == Elements(t.buckets[159] + t.buckets[0])
  {
    forall e | e in AllEntries(t) ensures e in t.buckets[0] || e in t.buckets[159] {
      var i :| 0 <= i < |t.buckets| && e in t.buckets[i];
      if i != 0 && i != 159 {
        OnlyTwoBuckets(t, i);
      }
    }
    forall a, b | a in t.buckets[0] && b in t.buckets[159] ensures a.nodeId != b.nodeId {
      assert BucketIndex(t.local, a.nodeId) == 0 && BucketIndex(t.local, b.nodeId) == 159;
    }
  }

  /** With one of the two buckets empty, the result is exactly the nearest entries of the whole table. */
  lemma FindClosestExact(t: Table, target: NodeId, count: nat)
    requires Inv(t) && (t.buckets[0] == [] || t.buckets[159] == [])
    ensures IsNearest(FindClosest(t, target, count), AllEntries(t), target, count)
  {
    hide BucketIndex, Gather, IsNearest, SortByDistance;
    TwoBuckets(t.local, target);
    var idx := BucketIndex(t.local, target);
    GatherTwo(t, idx, count);
    TwoBucketEntries(t);
    var gathered := Gather(t, idx, 0, count, []);
    if count == 0 {
      NearestNone(AllEntries(t), target);
      assert FindClosest(t, target, 0) == [];
    } else {
      var first, second := t.buckets[idx], t.buckets[159 - idx];
      assert first + second == if first == [] then second else first;
      assert Elements(gathered) == AllEntries(t);
      SortedPrefixIsNearest(gathered, target, count);
    }
  }

  /** In every table: the nearest of the first bucket if that has enough entries, else the nearest of all. */
  lemma FindClosestMeaning(t: Table, target: NodeId, count: nat)
    requires Inv(t)
    ensures var first := t.buckets[if target == t.local then 0 else 159];
            IsNearest(FindClosest(t, target, count), if count <= |first| then Elements(first) else AllEntries(t),
                      target, count)
  {
    hide BucketIndex, Gather, IsNearest, SortByDistance;
    TwoBuckets(t.local, target);
    GatherTwo(t, BucketIndex(t.local, target), count);
    TwoBucketEntries(t);
    SortedPrefixIsNearest(Gather(t, BucketIndex(t.local, target), 0, count, []), target, count);
  }

  /** A search comes back empty only from an empty table, whichever buckets are in use. */
  lemma ClosestEmptyIff(t: Table, target: NodeId, count: nat)
    requires Inv(t) && count > 0
    ensures FindClosest(t, target, count) == [] <==> AllEntries(t) == {}
  {
    hide Gather, BucketIndex, AllEntries;
    TwoBuckets(t.local, target);
    var idx := BucketIndex(t.local, target);
    GatherTwo(t, idx, count);
    TwoBucketEntries(t);
    var first, second := t.buckets[idx], t.buckets[159 - idx];
    assert Elements(first + second) == AllEntries(t);
    if first + second != [] {
      assert (first + second)[0] in AllEntries(t);
    }
  }

  /** As long as a run never inserts the local identifier, every search is exact. */
  lemma RunFindsClosest(local: NodeId, ops: seq<Op>, target: NodeId, count: nat)
    requires forall i :: 0 <= i < |ops| && ops[i].InsertOp? ==> ops[i].entry.nodeId != local
    ensures var t := Run(local, ops); IsNearest(FindClosest(t, target, count), AllEntries(t), target, count)
  {
    LocalBucketEmpty(local, ops);
    FindClosestExact(Run(local, ops), target, count);
  }

  // ----- When the local identifier is in the table -----

  /** An identifier one or two steps from `local`, yet nearer to `local` than to `other`. */
  lemma Between(local: NodeId, other: NodeId) returns (target: NodeId)
    requires local != other
    ensures target != local && !Nearer(target, other, local)
  {
    var sameFront := forall i :: 0 <= i < 19 ==> local[i] == other[i];
    var m: byte := if sameFront && Xor(local[19], other[19]) == 1 then 2 else 1;
    target := local[..19] + [Xor(local[19], m)];
    XorUndo(local[19], m);
    XorZero(local[19], target[19]);
    var near, far := Distance(target, local), Distance(target, other);
    XorSymmetric(target[19], local[19]);
    assert near[19] == m;
    forall i | 0 <= i < 19 ensures near[i] == 0 && (far[i] == 0 <==> local[i] == other[i]) {
      XorZero(target[i], local[i]);
      XorZero(target[i], other[i]);
    }
    if forall i :: 0 <= i < 19 ==> local[i] == other[i] {
      LastByte(local[19], other[19], m);
      LessAtLast(near, far);
    } else {
      LessAtFirst(near, far, 19);
    }
  }

  lemma LastByte(a: byte, b: byte, m: byte)
    requires a != b && m == if Xor(a, b) == 1 then 2 else 1
    ensures m < Xor(Xor(a, m), b)
  {
    var x := Xor(a, b);
    XorZero(a, b);
    XorSymmetric(a, m);
    XorAssociative(m, a, b);
    assert Xor(Xor(a, m), b) == Xor(m, x);
    XorSmall(x);
  }

  /** Flipping the lowest bit of a number above one leaves it above one; 2 against 1 gives 3. */
  lemma XorSmall(x: byte)
    ensures x > 1 ==> Xor(1, x) > 1
    ensures Xor(2, 1) == 3
  {
    var n := x as nat;
    assert XorBits(1, n, 8) == 2 * XorBits(0, n / 2, 7) + (if n % 2 == 1 then 0 else 1);
    assert Pow2(7) == 128 by { BytePow(); }
    XorBitsWithZero(n / 2, 7);
    assert XorBits(2, 1, 8) == 2 * XorBits(1, 0, 7) + 1;
    assert XorBits(1, 0, 7) == 2 * XorBits(0, 0, 6) + 1;
    XorBitsWithZero(0, 6);
  }

  lemma {:induction false} LessAtLast(a: bytes, b: bytes)
    requires |a| == |b| > 0 && a[|a| - 1] < b[|b| - 1]
    requires forall i :: 0 <= i < |a| - 1 ==> a[i] == b[i]
    ensures Less(a, b)
  {
    if |a| > 1 {
      LessAtLast(a[1..], b[1..]);
    }
  }

  lemma {:induction false} LessAtFirst(a: bytes, b: bytes, n: nat)
    requires |a| == |b| > n
    requires forall i :: 0 <= i < n ==> a[i] == 0
    requires exists i :: 0 <= i < n && b[i] != 0
    ensures Less(a, b)
  {
    if b[0] == 0 {
      assert forall i :: 0 <= i < n - 1 ==> a[1..][i] == a[i + 1];
      var i :| 0 <= i < n && b[i] != 0;
      assert b[1..][i - 1] != 0;
      LessAtFirst(a[1..], b[1..], n - 1);
    }
  }

  /** With both buckets in use some search stops at the far bucket and misses the local entry. */
  lemma LocalEntryMissed(t: Table) returns (target: NodeId, count: nat)
    requires Inv(t) && t.buckets[0] != [] && t.buckets[159] != []
    ensures !IsNearest(FindClosest(t, target, count), AllEntries(t), target, count)
  {
    var l, e := t.buckets[0][0], t.buckets[159][0];
    assert l in t.buckets[0] && e in t.buckets[159];
    TwoBuckets(t.local, l.nodeId);
    TwoBuckets(t.local, e.nodeId);
    target := Between(t.local, e.nodeId);
    count := |t.buckets[159]|;
    TwoBuckets(t.local, target);
    GatherTwo(t, 159, count);
    var r := FindClosest(t, target, count);
    SortPermutes(t.buckets[159], NearerEntry(target));
    assert r == SortByDistance(t.buckets[159], target);
    assert BucketIndex(t.local, l.nodeId) == 0 && l !in t.buckets[159];
    assert e in r && l in AllEntries(t) && l !in r;
    NearerTotal(target, t.local, e.nodeId);
  }

  /** `find_closest` is right for every target and count if and only if it never has to look in both buckets. */
  lemma FindClosestRightIff(t: Table)
    requires Inv(t)
    ensures (forall target: NodeId, count: nat ::
               IsNearest(FindClosest(t, target, count), AllEntries(t), target, count))
       <==> (t.buckets[0] == [] || t.buckets[159] == [])
  {
    if t.buckets[0] == [] || t.buckets[159] == [] {
      forall target: NodeId, count: nat
        ensures IsNearest(FindClosest(t, target, count), AllEntries(t), target, count)
      {
        FindClosestExact(t, target, count);
      }
    } else {
      var target, count := LocalEntryMissed(t);
    }
  }
}
