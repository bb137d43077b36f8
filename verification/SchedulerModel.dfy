/** How the piece scheduler of qvs-transport scores pieces and what order that gives. */
module SchedulerModel {
  import opened Wrappers
  import opened Sorting
  import B = Bitfield

  datatype Priority = Critical | High | Normal | Low

  /** A peer's bitfield as a value. */
  datatype View = View(bits: B.Bits, numPieces: nat)

  function Dist(a: nat, b: nat): nat {
    if a < b then b - a else a - b
  }

  function ClassOf(piece: nat, playhead: nat): Priority {
    if piece == playhead then Critical
    else if Dist(piece, playhead) <= 2 then High
    else if Dist(piece, playhead) <= 16 then Normal
    else Low
  }

  /** The class a piece is scored with: the one cached when it was first scored, or today's. */
  function CachedClass(cache: map<nat, Priority>, playhead: nat, piece: nat): Priority {
    if piece in cache then cache[piece] else ClassOf(piece, playhead)
  }

  function ClassScore(p: Priority): nat {
    match p
    case Critical => 1000
    case High => 100
    case Normal => 10
    case Low => 0
  }

  function HaveCount(peers: seq<View>, piece: nat): (n: nat)
    ensures n <= |peers|
  {
    if peers == [] then 0
    else
      var last := peers[|peers| - 1];
      HaveCount(peers[..|peers| - 1], piece) + B.One(B.Has(last.bits, last.numPieces, piece))
  }

  function Rarity(peers: seq<View>, piece: nat): nat {
    |peers| - HaveCount(peers, piece)
  }

  function SeekBonus(seek: Option<nat>, piece: nat): nat {
    if seek.Some? && (if seek.value < 2 then 0 else seek.value - 2) <= piece <= seek.value + 2 then 500 else 0
  }

  datatype Snapshot = Snapshot(
    numPieces: nat,
    completed: set<nat>,
    requested: set<nat>,
    cache: map<nat, Priority>,
    playhead: nat,
    seek: Option<nat>,
    peers: seq<View>)

  function Score(s: Snapshot, piece: nat): nat {
    ClassScore(CachedClass(s.cache, s.playhead, piece)) + Rarity(s.peers, piece) + SeekBonus(s.seek, piece)
  }

  predicate Wanted(s: Snapshot, piece: nat) {
    piece < s.numPieces && piece !in s.completed && piece !in s.requested
  }

  datatype Scored = Scored(piece: nat, score: nat)

  /** The wanted pieces below `n` with their scores, in index order. */
  function ScoredUpTo(s: Snapshot, n: nat): seq<Scored>
    requires n <= s.numPieces
  {
    if n == 0 then []
    else
      var before := ScoredUpTo(s, n - 1);
      if Wanted(s, n - 1) then before + [Scored(n - 1, Score(s, n - 1))] else before
  }

  lemma {:induction false} ScoredMeaning(s: Snapshot, n: nat)
    requires n <= s.numPieces
    ensures var r := ScoredUpTo(s, n);
            && (forall x <- r :: x.piece < n && Wanted(s, x.piece) && x.score == Score(s, x.piece))
            && (forall i, j :: 0 <= i < j < |r| ==> r[i].piece < r[j].piece)
  {
    if n > 0 {
      ScoredMeaning(s, n - 1);
    }
  }

  function HigherFirst(): (Scored, Scored) -> bool {
    (a: Scored, b: Scored) => a.score >= b.score
  }

  function PiecesOf(s: seq<Scored>): seq<nat> {
    seq(|s|, i requires 0 <= i < |s| => s[i].piece)
  }

  /** `update_download_queue`. */
  function Queue(s: Snapshot): seq<nat> {
    PiecesOf(Sort(ScoredUpTo(s, s.numPieces), HigherFirst()))
  }

  /** The cache once the pieces below `n` are scored: every scored piece has its class in it for good. */
  function CacheUpTo(s: Snapshot, n: nat): map<nat, Priority> {
    map p | p in s.cache.Keys + (set q | 0 <= q < n && Wanted(s, q)) :: CachedClass(s.cache, s.playhead, p)
  }

  function CacheAfter(s: Snapshot): map<nat, Priority> {
    CacheUpTo(s, s.numPieces)
  }

  /** Scoring one more piece. */
  lemma ScoreStep(s: Snapshot, n: nat)
    requires n < s.numPieces
    ensures ScoredUpTo(s, n + 1)
            == if Wanted(s, n) then ScoredUpTo(s, n) + [Scored(n, Score(s, n))] else ScoredUpTo(s, n)
    ensures CacheUpTo(s, n + 1)
            == if Wanted(s, n) then CacheUpTo(s, n)[n := CachedClass(s.cache, s.playhead, n)] else CacheUpTo(s, n)
    ensures CachedClass(CacheUpTo(s, n), s.playhead, n) == CachedClass(s.cache, s.playhead, n)
  {
  }

  // ----- The order of the queue -----

  lemma {:induction false} ScoredComplete(s: Snapshot, n: nat, piece: nat)
    requires n <= s.numPieces && piece < n && Wanted(s, piece)
    ensures Scored(piece, Score(s, piece)) in ScoredUpTo(s, n)
  {
    if piece < n - 1 {
      ScoredComplete(s, n - 1, piece);
    }
  }

  ghost predicate Before(s: Snapshot, a: nat, b: nat) {
    Score(s, a) > Score(s, b) || (Score(s, a) == Score(s, b) && a < b)
  }

  /** The queue lists every wanted piece once, by descending score, equals by index. */
  lemma QueueOrder(s: Snapshot)
    ensures var q := Queue(s);
            && (forall p :: p in q <==> Wanted(s, p))
            && (forall i, j :: 0 <= i < j < |q| ==> Before(s, q[i], q[j]))
  {
    var scored := ScoredUpTo(s, s.numPieces);
    var sorted := Sort(scored, HigherFirst());
    ScoredMeaning(s, s.numPieces);
    SortStable(scored, HigherFirst(), (a: Scored, b: Scored) => a.piece < b.piece);
    SortPermutes(scored, HigherFirst());
    var q := Queue(s);
    forall i | 0 <= i < |sorted| ensures sorted[i].score == Score(s, sorted[i].piece) && Wanted(s, sorted[i].piece) {
      assert sorted[i] in scored;
    }
    forall i, j | 0 <= i < j < |q| ensures Before(s, q[i], q[j]) {
      assert HigherFirst()(sorted[i], sorted[j]);
    }
    forall p ensures p in q <==> Wanted(s, p) {
      if Wanted(s, p) {
        ScoredComplete(s, s.numPieces, p);
        var i :| 0 <= i < |sorted| && sorted[i] == Scored(p, Score(s, p));
        assert q[i] == p;
      }
    }
  }

  /** Once the queue was built, moving the playhead without a seek never reorders it. */
  lemma PlayheadIgnored(s: Snapshot, playhead: nat)
    ensures Queue(s.(cache := CacheAfter(s), playhead := playhead)) == Queue(s)
  {
    var s' := s.(cache := CacheAfter(s), playhead := playhead);
    forall p: nat | Wanted(s, p) ensures Score(s, p) == Score(s', p) {
      assert p in CacheAfter(s);
    }
    SameScores(s, s', s.numPieces);
  }

  lemma {:induction false} SameScores(s: Snapshot, s': Snapshot, n: nat)
    requires n <= s.numPieces == s'.numPieces
    requires forall p: nat :: Wanted(s, p) <==> Wanted(s', p)
    requires forall p: nat :: Wanted(s, p) ==> Score(s, p) == Score(s', p)
    ensures ScoredUpTo(s, n) == ScoredUpTo(s', n)
  {
    if n > 0 {
      SameScores(s, s', n - 1);
    }
  }

  // ----- Runs -----

  datatype State = State(
    pieces: nat,
    completed: set<nat>,
    requested: set<nat>,
    cache: map<nat, Priority>,
    playhead: nat,
    seek: Option<nat>,
    queue: seq<nat>)

  datatype Op =
    | SetPlayhead(piece: nat)
    | Complete(piece: nat)
    | Request(piece: nat)
    | Seek(piece: nat)
    | Classify(piece: nat)
    | Rebuild(peers: seq<View>)

  function New(pieces: nat): State {
    State(pieces, {}, {}, map[], 0, None, [])
  }

  /** What an update of the queue looks at. */
  function At(s: State, peers: seq<View>): Snapshot {
    Snapshot(s.pieces, s.completed, s.requested, s.cache, s.playhead, s.seek, peers)
  }

  function Apply(s: State, op: Op): State {
    match op
    case SetPlayhead(p) => s.(playhead := p)
    case Complete(p) => s.(completed := s.completed + {p}, requested := s.requested - {p})
    case Request(p) => s.(requested := s.requested + {p})
    case Seek(p) => s.(seek := Some(p), playhead := p)
    case Classify(p) => s.(cache := s.cache[p := CachedClass(s.cache, s.playhead, p)])
    case Rebuild(peers) => s.(cache := CacheAfter(At(s, peers)), queue := Queue(At(s, peers)))
  }

  function ApplyAll(s: State, ops: seq<Op>): State {
    if ops == [] then s else Apply(ApplyAll(s, ops[..|ops| - 1]), ops[|ops| - 1])
  }

  /** Whether the operation asks for the class of the piece. */
  predicate Scores(s: State, op: Op, piece: nat) {
    op == Classify(piece) || (op.Rebuild? && Wanted(At(s, op.peers), piece))
  }

  /** The playhead when the piece was first scored, or where it is now if it never was. */
  function ScoringPlayhead(s: State, ops: seq<Op>, piece: nat): nat {
    match FirstScored(s, ops, piece)
    case Some(playhead) => playhead
    case None => ApplyAll(s, ops).playhead
  }

  function FirstScored(s: State, ops: seq<Op>, piece: nat): Option<nat> {
    if ops == [] then None
    else
      var before := ops[..|ops| - 1];
      match FirstScored(s, before, piece)
      case Some(playhead) => Some(playhead)
      case None =>
        var s' := ApplyAll(s, before);
        if Scores(s', ops[|ops| - 1], piece) then Some(s'.playhead) else None
  }

  /** An operation caches the classes it asks for and leaves the cached ones alone. */
  lemma CacheStep(s: State, op: Op, piece: nat)
    ensures var cache := Apply(s, op).cache;
            if piece in s.cache then piece in cache && cache[piece] == s.cache[piece]
            else if Scores(s, op, piece) then piece in cache && cache[piece] == ClassOf(piece, s.playhead)
            else piece !in cache
  {
  }

  lemma {:induction false} CacheInRun(pieces: nat, ops: seq<Op>, piece: nat)
    ensures var cache := ApplyAll(New(pieces), ops).cache;
            match FirstScored(New(pieces), ops, piece)
            case Some(playhead) => piece in cache && cache[piece] == ClassOf(piece, playhead)
            case None => piece !in cache
  {
    if ops != [] {
      var before := ops[..|ops| - 1];
      CacheInRun(pieces, before, piece);
      CacheStep(ApplyAll(New(pieces), before), ops[|ops| - 1], piece);
    }
  }

  /** In every run a piece is scored with its class at the playhead where it was first scored. */
  lemma ClassInRun(pieces: nat, ops: seq<Op>, piece: nat)
    ensures var s := ApplyAll(New(pieces), ops);
            CachedClass(s.cache, s.playhead, piece) == ClassOf(piece, ScoringPlayhead(New(pieces), ops, piece))
  {
    CacheInRun(pieces, ops, piece);
  }

  // ----- The next request -----

  /** `next_request`: the front of the queue. */
  function Next(s: State): Option<nat> {
    if s.queue == [] then None else Some(s.queue[0])
  }

  /** A wanted piece before every other wanted piece, or none because nothing is wanted. */
  ghost predicate IsBest(s: Snapshot, piece: Option<nat>) {
    match piece
    case None => forall p: nat :: !Wanted(s, p)
    case Some(p) => Wanted(s, p) && forall q: nat :: Wanted(s, q) && q != p ==> Before(s, p, q)
  }

  lemma FrontIsBest(s: Snapshot)
    ensures IsBest(s, if Queue(s) == [] then None else Some(Queue(s)[0]))
  {
    QueueOrder(s);
    var q := Queue(s);
    forall p: nat | Wanted(s, p) ensures q != [] && (p != q[0] ==> Before(s, q[0], p)) {
      assert p in q;
    }
    if q != [] {
      assert q[0] in q;
    }
  }

  /** Until the next rebuild the best piece of the last one is offered, whatever was marked or moved since. */
  lemma {:induction false} NextInRun(s: State, peers: seq<View>, later: seq<Op>)
    requires forall op <- later :: !op.Rebuild?
    ensures IsBest(At(s, peers), Next(ApplyAll(Apply(s, Rebuild(peers)), later)))
  {
    if later == [] {
      FrontIsBest(At(s, peers));
    } else {
      assert later[|later| - 1] in later;
      assert forall op <- later[..|later| - 1] :: op in later;
      NextInRun(s, peers, later[..|later| - 1]);
    }
  }

  /** So a piece that was just requested, and is wanted no more, is offered again. */
  lemma RequestedIsOfferedAgain(s: State, peers: seq<View>)
    requires Next(Apply(s, Rebuild(peers))).Some?
    ensures var s1 := Apply(s, Rebuild(peers));
            var piece := Next(s1).value;
            var s2 := Apply(s1, Request(piece));
            Wanted(At(s, peers), piece) && !Wanted(At(s2, peers), piece) && Next(s2) == Some(piece)
  {
    FrontIsBest(At(s, peers));
  }

  /** Once a piece is complete no rebuild ever queues it again. */
  lemma {:induction false} CompletedStaysOut(s: State, piece: nat, later: seq<Op>, peers: seq<View>)
    ensures var s' := ApplyAll(Apply(s, Complete(piece)), later);
            piece in s'.completed && piece !in Apply(s', Rebuild(peers)).queue
  {
    if later != [] {
      CompletedStaysOut(s, piece, later[..|later| - 1], peers);
    }
    QueueOrder(At(ApplyAll(Apply(s, Complete(piece)), later), peers));
  }

  /** And while a requested piece is not complete it stays requested, and out of the queue. */
  lemma {:induction false} RequestedStaysOut(s: State, piece: nat, later: seq<Op>, peers: seq<View>)
    requires Complete(piece) !in later
    ensures var s' := ApplyAll(Apply(s, Request(piece)), later);
            piece in s'.requested && piece !in Apply(s', Rebuild(peers)).queue
  {
    if later != [] {
      var earlier := later[..|later| - 1];
      assert later[|later| - 1] in later && forall op <- earlier :: op in later;
      RequestedStaysOut(s, piece, earlier, peers);
    }
    QueueOrder(At(ApplyAll(Apply(s, Request(piece)), later), peers));
  }

  // ----- What decides the order -----

  function Rank(p: Priority): nat {
    match p
    case Critical => 0
    case High => 1
    case Normal => 2
    case Low => 3
  }

  /** Nearer class first, then the piece fewer peers have, then the lower index. */
  ghost predicate ClassThenRarest(s: Snapshot, a: nat, b: nat) {
    var ra, rb := Rank(CachedClass(s.cache, s.playhead, a)), Rank(CachedClass(s.cache, s.playhead, b));
    var ha, hb := HaveCount(s.peers, a), HaveCount(s.peers, b);
    ra < rb || (ra == rb && (ha < hb || (ha == hb && a < b)))
  }

  ghost predicate OrderedByClass(s: Snapshot) {
    forall i, j :: 0 <= i < j < |Queue(s)| ==> ClassThenRarest(s, Queue(s)[i], Queue(s)[j])
  }

  /** Without a seek target and with at most nine peers the queue is ordered by class, rarity, index. */
  lemma ClassDominates(s: Snapshot)
    requires s.seek.None? && |s.peers| <= 9
    ensures OrderedByClass(s)
  {
    QueueOrder(s);
    forall i, j | 0 <= i < j < |Queue(s)| ensures ClassThenRarest(s, Queue(s)[i], Queue(s)[j]) {
      assert Before(s, Queue(s)[i], Queue(s)[j]);
    }
  }

  function Copies(v: View, n: nat): seq<View> {
    seq(n, _ => v)
  }

  lemma {:induction false} CopiesCount(v: View, n: nat, piece: nat)
    ensures HaveCount(Copies(v, n), piece) == if B.Has(v.bits, v.numPieces, piece) then n else 0
  {
    if n > 0 {
      CopiesCount(v, n - 1, piece);
      assert Copies(v, n)[..n - 1] == Copies(v, n - 1);
    }
  }

  /** Ten or more peers can push a far piece nobody has before a nearer one that everybody has. */
  lemma RarityOutweighsClass(n: nat) returns (s: Snapshot)
    requires n >= 10
    ensures s.seek.None? && |s.peers| == n && !OrderedByClass(s)
  {
    var v := View(B.Set(B.New(11), 11, 10, true), 11);
    s := Snapshot(11, {1, 2, 3, 4, 5, 6, 7, 8, 9}, {}, map[], 20, None, Copies(v, n));
    B.HasAfterSet(B.New(11), 11, 10, true, 10);
    B.HasAfterSet(B.New(11), 11, 10, true, 0);
    assert !B.BitOf(0, 0);
    CopiesCount(v, n, 10);
    CopiesCount(v, n, 0);
    OutOfOrder(s, 0, 10);
  }

  lemma OutOfOrder(s: Snapshot, a: nat, b: nat)
    requires Wanted(s, a) && Wanted(s, b) && Before(s, a, b) && !ClassThenRarest(s, a, b)
    ensures !OrderedByClass(s)
  {
    assert !Before(s, b, a) && a != b;
    QueueOrder(s);
    var q := Queue(s);
    assert a in q && b in q;
    var i :| 0 <= i < |q| && q[i] == a;
    var j :| 0 <= j < |q| && q[j] == b;
    assert !Before(s, q[j], q[i]) && q[i] != q[j];
  }

  /** Class decides the order of every queue for `n` peers and no seek target if and only if `n` is at most nine. */
  lemma ClassDominatesIff(n: nat)
    ensures (forall s: Snapshot | s.seek.None? && |s.peers| == n :: OrderedByClass(s)) <==> n <= 9
  {
    if n <= 9 {
      forall s: Snapshot | s.seek.None? && |s.peers| == n ensures OrderedByClass(s) {
        ClassDominates(s);
      }
    } else {
      var s := RarityOutweighsClass(n);
    }
  }

  // ----- What a seek does to the order -----

  ghost predicate InWindow(target: nat, piece: nat) {
    piece <= target + 2 && target <= piece + 2
  }

  /** No piece away from the target goes before one within two of it, unless it counts as critical. */
  ghost predicate SeekFirst(s: Snapshot)
    requires s.seek.Some?
  {
    forall i, j :: 0 <= i < j < |Queue(s)| && InWindow(s.seek.value, Queue(s)[j]) ==>
      InWindow(s.seek.value, Queue(s)[i]) || CachedClass(s.cache, s.playhead, Queue(s)[i]) == Critical
  }

  lemma SeekDominates(s: Snapshot)
    requires s.seek.Some? && |s.peers| < 400
    ensures SeekFirst(s)
  {
    QueueOrder(s);
    forall i, j | 0 <= i < j < |Queue(s)| && InWindow(s.seek.value, Queue(s)[j])
      ensures InWindow(s.seek.value, Queue(s)[i]) || CachedClass(s.cache, s.playhead, Queue(s)[i]) == Critical
    {
      assert Before(s, Queue(s)[i], Queue(s)[j]);
    }
  }

  /** From 400 peers on a piece nobody has can go before one at the target that everybody has. */
  lemma RarityOutweighsSeek(n: nat) returns (s: Snapshot)
    requires n >= 400
    ensures s.seek.Some? && |s.peers| == n && !SeekFirst(s)
  {
    var v := View(B.Set(B.New(4), 4, 3, true), 4);
    s := Snapshot(4, {1, 2}, {}, map[3 := Low], 1, Some(3), Copies(v, n));
    B.HasAfterSet(B.New(4), 4, 3, true, 3);
    B.HasAfterSet(B.New(4), 4, 3, true, 0);
    assert !B.BitOf(0, 0);
    CopiesCount(v, n, 3);
    CopiesCount(v, n, 0);
    assert Before(s, 0, 3) && !Before(s, 3, 0);
    QueueOrder(s);
    var q := Queue(s);
    assert 0 in q && 3 in q;
    var i :| 0 <= i < |q| && q[i] == 0;
    var j :| 0 <= j < |q| && q[j] == 3;
    assert !Before(s, q[j], q[i]) && q[i] != q[j];
  }

  /** A seek puts the pieces around its target first, in every queue for `n` peers, if and only if `n` is below 400. */
  lemma SeekDominatesIff(n: nat)
    ensures (forall s: Snapshot | s.seek.Some? && |s.peers| == n :: SeekFirst(s)) <==> n < 400
  {
    if n < 400 {
      forall s: Snapshot | s.seek.Some? && |s.peers| == n ensures SeekFirst(s) {
        SeekDominates(s);
      }
    } else {
      var s := RarityOutweighsSeek(n);
    }
  }
}
