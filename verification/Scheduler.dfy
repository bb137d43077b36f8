/** The piece scheduler object of qvs-transport. */
module Scheduler {
  import opened Wrappers
  import opened Sorting
  import opened Bitfield
  import opened Pieces
  import M = SchedulerModel

  /** The bitfields of the peers as values. */
  ghost function Views(peers: seq<Bitfield>): (r: seq<M.View>)
    reads peers, set p | p in peers :: p.bytes
    ensures |r| == |peers|
  {
    seq(|peers|, i requires 0 <= i < |peers| reads peers, set p | p in peers :: p.bytes =>
      M.View(peers[i].bytes[..], peers[i].numPieces))
  }

  function Counted(counts: map<nat, nat>, p: nat): nat {
    if p in counts then counts[p] else 0
  }

  class PieceScheduler {
    const fileSize: nat
    const pieceLength: nat
    var playheadPiece: nat
    var downloadQueue: seq<nat>
    var requested: set<nat>
    var completed: set<nat>
    var priorityCache: map<nat, M.Priority>
    var seekTarget: Option<nat>

    constructor (fileSize: nat, pieceLength: nat)
      ensures this.fileSize == fileSize && this.pieceLength == pieceLength && State() == M.New(NumPieces())
    {
      this.fileSize, this.pieceLength := fileSize, pieceLength;
      playheadPiece, downloadQueue, requested, completed := 0, [], {}, {};
      priorityCache, seekTarget := map[], None;
    }

    /** There is no number of pieces of no length; the source divides by it. */
    ghost function NumPieces(): nat {
      if pieceLength > 0 then PieceCount(fileSize, pieceLength) else 0
    }

    ghost function State(): M.State
      reads this
    {
      M.State(NumPieces(), completed, requested, priorityCache, playheadPiece, seekTarget, downloadQueue)
    }

    method SetPlayhead(piece: nat)
      modifies this`playheadPiece
      ensures State() == M.Apply(old(State()), M.SetPlayhead(piece)) && playheadPiece == piece
    {
      playheadPiece := piece;
    }

    method MarkCompleted(piece: nat)
      modifies this`completed, this`requested
      ensures State() == M.Apply(old(State()), M.Complete(piece))
      ensures completed == old(completed) + {piece} && requested == old(requested) - {piece}
    {
      completed := completed + {piece};
      requested := requested - {piece};
    }

    method MarkRequested(piece: nat)
      modifies this`requested
      ensures State() == M.Apply(old(State()), M.Request(piece)) && requested == old(requested) + {piece}
    {
      requested := requested + {piece};
    }

    method SetSeekTarget(piece: nat)
      modifies this`seekTarget, this`playheadPiece
      ensures State() == M.Apply(old(State()), M.Seek(piece)) && seekTarget == Some(piece) && playheadPiece == piece
    {
      seekTarget := Some(piece);
      playheadPiece := piece;
    }

    /** The first answer for a piece is the answer for good, wherever the playhead moves. */
    method CalculatePriority(piece: nat) returns (p: M.Priority)
      modifies this`priorityCache
      ensures p == M.CachedClass(old(priorityCache), playheadPiece, piece)
      ensures State() == M.Apply(old(State()), M.Classify(piece))
      ensures piece in old(priorityCache) ==> p == old(priorityCache)[piece] && priorityCache == old(priorityCache)
      ensures piece !in old(priorityCache) ==>
                && priorityCache == old(priorityCache)[piece := p]
                && (p == M.Critical <==> piece == playheadPiece)
                && (p != M.Low <==> piece <= playheadPiece + 16 && playheadPiece <= piece + 16)
                && (p != M.Low && p != M.Normal <==> piece <= playheadPiece + 2 && playheadPiece <= piece + 2)
    {
      if piece in priorityCache {
        return priorityCache[piece];
      }
      var dist := M.Dist(piece, playheadPiece);
      if piece == playheadPiece {
        p := M.Critical;
      } else if dist <= 2 {
        p := M.High;
      } else if dist <= 16 {
        p := M.Normal;
      } else {
        p := M.Low;
      }
      priorityCache := priorityCache[piece := p];
    }

    method UpdateDownloadQueue(peers: seq<Bitfield>)
      requires pieceLength > 0
      modifies this`downloadQueue, this`priorityCache
      ensures State() == M.Apply(old(State()), M.Rebuild(old(Views(peers))))
      ensures forall p: nat ::
                p in downloadQueue <==> p < PieceCount(fileSize, pieceLength) && p !in completed && p !in requested
      ensures forall i, j :: 0 <= i < j < |downloadQueue| ==> downloadQueue[i] != downloadQueue[j]
    {
      ghost var s := M.At(State(), Views(peers));
      M.QueueOrder(s);
      var n := PieceCount(fileSize, pieceLength);
      var counts := CountPieces(peers, n);
      var scored := ScorePieces(counts, |peers|, n, s);
      scored := Sort(scored, M.HigherFirst());
      downloadQueue := M.PiecesOf(scored);
    }

    /** The scoring loop; it fills the priority cache as it goes. */
    method ScorePieces(counts: map<nat, nat>, allCount: nat, n: nat, ghost s: M.Snapshot)
      returns (scored: seq<M.Scored>)
      requires s == M.Snapshot(n, completed, requested, priorityCache, playheadPiece, seekTarget, s.peers)
      requires allCount == |s.peers| && forall p: nat :: p < n ==> Counted(counts, p) == M.HaveCount(s.peers, p)
      modifies this`priorityCache
      ensures scored == M.ScoredUpTo(s, n) && priorityCache == M.CacheAfter(s)
    {
      scored := [];
      for piece := 0 to n
        invariant scored == M.ScoredUpTo(s, piece)
        invariant priorityCache == M.CacheUpTo(s, piece)
      {
        M.ScoreStep(s, piece);
        if piece !in completed && piece !in requested {
          var score := ScorePiece(piece, Counted(counts, piece), allCount);
          scored := scored + [M.Scored(piece, score)];
        }
      }
    }

    method ScorePiece(piece: nat, have: nat, allCount: nat) returns (score: nat)
      modifies this`priorityCache
      ensures var c := M.CachedClass(old(priorityCache), playheadPiece, piece);
              && score == M.ClassScore(c) + (if allCount < have then 0 else allCount - have)
                          + M.SeekBonus(seekTarget, piece)
              && priorityCache == old(priorityCache)[piece := c]
      ensures var c := M.CachedClass(old(priorityCache), playheadPiece, piece);
              var points :=
                if c == M.Critical then 1000 else if c == M.High then 100 else if c == M.Normal then 10 else 0;
              var bonus := if seekTarget.Some? && M.InWindow(seekTarget.value, piece) then 500 else 0;
              score == points + (if allCount < have then 0 else allCount - have) + bonus
    {
      var rarity := if allCount < have then 0 else allCount - have;
      var priority := CalculatePriority(piece);
      score := M.ClassScore(priority) + rarity + M.SeekBonus(seekTarget, piece);
    }

    /** The nested loops that count, for each piece, the peers that have it. */
    method CountPieces(peers: seq<Bitfield>, n: nat) returns (counts: map<nat, nat>)
      ensures forall p :: 0 <= p < n ==> Counted(counts, p) == M.HaveCount(Views(peers), p)
    {
      counts := map[];
      ghost var views := Views(peers);
      for k := 0 to |peers|
        invariant forall p :: 0 <= p < n ==> Counted(counts, p) == M.HaveCount(views[..k], p)
      {
        assert views[..k + 1][..k] == views[..k] && views[..k + 1][k] == views[k];
        counts := CountPeer(peers[k], counts, n);
      }
      assert views[..|peers|] == views;
    }

    method CountPeer(peer: Bitfield, before: map<nat, nat>, n: nat) returns (counts: map<nat, nat>)
      ensures forall p :: 0 <= p < n ==>
                Counted(counts, p) == Counted(before, p) + One(Has(peer.bytes[..], peer.numPieces, p))
    {
      counts := before;
      for i := 0 to n
        invariant forall p :: 0 <= p < i ==>
                    Counted(counts, p) == Counted(before, p) + One(Has(peer.bytes[..], peer.numPieces, p))
        invariant forall p :: i <= p < n ==> Counted(counts, p) == Counted(before, p)
      {
        peer.HasPieceIsHas(i);
        if peer.HasPiece(i) {
          counts := counts[i := Counted(counts, i) + 1];
        }
      }
    }

    method NextRequest() returns (piece: Option<nat>)
      ensures piece == M.Next(State())
      ensures forall s: M.Snapshot | downloadQueue == M.Queue(s) :: M.IsBest(s, piece)
    {
      forall s: M.Snapshot | downloadQueue == M.Queue(s)
        ensures M.IsBest(s, if downloadQueue == [] then None else Some(downloadQueue[0]))
      {
        M.FrontIsBest(s);
      }
      piece := if downloadQueue == [] then None else Some(downloadQueue[0]);
    }
  }
}
