/** The routing table object of qvs-dht. */
module Routing {
  import opened Identifiers
  import M = RoutingModel

  class RoutingTable {
    const localId: NodeId
    var buckets: seq<M.Bucket>

    ghost function State(): M.Table
      reads this
    {
      M.Table(localId, buckets)
    }

    ghost predicate Valid()
      reads this
    {
      M.Inv(State())
    }

    constructor (localId: NodeId)
      ensures Valid() && State() == M.NewTable(localId)
    {
      this.localId := localId;
      buckets := seq(M.BUCKETS, _ => []);
    }

    /** The splitting branch is there and never taken. */
    method Insert(e: M.Entry, now: nat) returns (result: M.InsertResult)
      requires Valid()
      modifies this
      ensures Valid()
      ensures (State(), result) == M.Insert(old(State()), e, now)
      ensures |buckets| == 160
      ensures var idx := if e.nodeId == localId then 0 else 159;
              && M.RightInsert(old(buckets)[idx], e, now, buckets[idx], result)
              && forall i :: 0 <= i < 160 && i != idx ==> buckets[i] == old(buckets)[i]
    {
      M.TableInsertRight(State(), e, now);
      M.InsertKeepsInv(State(), e, now);
      M.NeverSplit(State(), e, now);
      var idx := M.BucketIndex(localId, e.nodeId);
      var (bucket, inserted) := M.BucketInsert(buckets[idx], e, now);
      buckets := buckets[idx := bucket];
      result := inserted;
      if result == M.Full && idx == M.BucketIndex(localId, localId) {
        assert false;
      }
    }

    method Remove(id: NodeId)
      requires Valid()
      modifies this
      ensures Valid() && State() == M.Remove(old(State()), id) && |buckets| == 160
      ensures forall i :: 0 <= i < 160 ==> M.RightRemove(old(buckets)[i], id, buckets[i])
    {
      M.RemoveKeepsInv(State(), id);
      var idx := M.BucketIndex(localId, id);
      M.RemoveRight(buckets[idx], id);
      if idx < |buckets| {
        buckets := buckets[idx := M.BucketRemove(buckets[idx], id)];
      }
    }

    /** Outwards from the target's bucket until there are enough candidates, then sort and cut. */
    method FindClosest(target: NodeId, count: nat) returns (r: seq<M.Entry>)
      requires Valid()
      ensures r == M.FindClosest(State(), target, count)
      ensures |buckets| == 160
      ensures var first := buckets[if target == localId then 0 else 159];
              M.IsNearest(r, if count <= |first| then M.Elements(first) else M.AllEntries(State()), target, count)
      ensures (buckets[0] == [] || buckets[159] == []) ==> M.IsNearest(r, M.AllEntries(State()), target, count)
    {
      M.FindClosestMeaning(State(), target, count);
      if buckets[0] == [] || buckets[159] == [] {
        M.FindClosestExact(State(), target, count);
      }
      var candidates := GatherCandidates(M.BucketIndex(localId, target), count);
      candidates := M.SortByDistance(candidates, target);
      r := if count < |candidates| then candidates[..count] else candidates;
    }

    method GatherCandidates(idx: nat, count: nat) returns (candidates: seq<M.Entry>)
      ensures candidates == M.Gather(State(), idx, 0, count, [])
    {
      candidates := [];
      var numBuckets := |buckets|;
      var offset := 0;
      ghost var t := State();
      while offset < numBuckets
        invariant 0 <= offset <= numBuckets
        invariant M.Gather(t, idx, 0, count, []) == M.Gather(t, idx, offset, count, candidates)
      {
        ghost var more := candidates + M.AtOffset(t, idx, offset);
        if offset <= idx && idx - offset < numBuckets {
          candidates := candidates + buckets[idx - offset];
        }
        if idx + offset < numBuckets && (offset > idx || idx + offset != idx - offset) {
          candidates := candidates + buckets[idx + offset];
        }
        assert candidates == more;
        if |candidates| >= count {
          return;
        }
        offset := offset + 1;
      }
    }
  }
}
