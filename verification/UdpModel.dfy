/** What each step of the UDP transport does to its state, and what whole runs keep. */
module UdpModel {
  import opened Wrappers
  import opened Bytes
  import opened CongestionModel

  const ACK_TIMEOUT: nat := 500 * MS
  const MAX_RETRANSMITS: nat := 5
  const ACK_RTT: nat := 50 * MS

  datatype MsgType = Data | AckMsg | Nack | Ping | Pong

  datatype Packet = Packet(msgType: MsgType, seqNo: nat, pieceIndex: nat, blockOffset: nat, payload: bytes)

  /** A socket address; only its identity matters. */
  type Addr = nat

  datatype Pending = Pending(packet: Packet, sentAt: nat, retransmits: nat, addr: Addr)

  datatype Transport = Transport(cc: Control, nextSeq: nat, pending: map<nat, Pending>)

  function New(): Transport {
    Transport(Initial(), 1, map[])
  }

  function SendData(t: Transport, piece: nat, block: nat, payload: bytes, addr: Addr, now: nat, sendOk: bool)
    : Transport
  {
    if !CanSend(t.cc) then t
    else
      var packet := Packet(Data, t.nextSeq, piece, block, payload);
      t.(cc := OnPacketSent(t.cc),
         nextSeq := t.nextSeq + 1,
         pending := if sendOk then t.pending[t.nextSeq := Pending(packet, now, 0, addr)] else t.pending)
  }

  /** Only an ack changes anything; a nack resends and a ping answers without touching the state. */
  function Receive(t: Transport, packet: Packet): Transport
    requires t.cc.cwnd > 0.0
  {
    if packet.msgType == AckMsg then
      t.(cc := OnAck(t.cc, ACK_RTT), pending := t.pending - {packet.seqNo})
    else t
  }

  predicate Due(p: Pending, now: nat) {
    now > p.sentAt + ACK_TIMEOUT && p.retransmits < MAX_RETRANSMITS
  }

  function Bump(p: Pending, now: nat): Pending {
    p.(retransmits := p.retransmits + 1, sentAt := now)
  }

  /** The due packets, in the order the map is iterated. */
  function DueList(order: seq<nat>, pending: map<nat, Pending>, now: nat): (due: seq<nat>)
    ensures forall k :: k in due <==> k in order && k in pending && Due(pending[k], now)
  {
    if order == [] then []
    else if order[0] in pending && Due(pending[order[0]], now)
    then [order[0]] + DueList(order[1..], pending, now)
    else DueList(order[1..], pending, now)
  }

  lemma DueStep(due: seq<nat>, order: seq<nat>, i: nat, pending: map<nat, Pending>, now: nat)
    requires i < |order| && order[i] in pending
    ensures due + DueList(order[i..], pending, now)
            == (if Due(pending[order[i]], now) then due + [order[i]] else due) + DueList(order[i + 1..], pending, now)
  {
    assert order[i..][0] == order[i] && order[i..][1..] == order[i + 1..];
  }

  /** A failed socket send ends the round after the packet it failed on. */
  function Attempted(due: seq<nat>, failing: set<nat>): (r: seq<nat>)
    ensures r <= due
  {
    if due == [] then []
    else if due[0] in failing then [due[0]]
    else [due[0]] + Attempted(due[1..], failing)
  }

  function BumpAll(pending: map<nat, Pending>, attempted: seq<nat>, now: nat): map<nat, Pending> {
    map k | k in pending :: if k in attempted then Bump(pending[k], now) else pending[k]
  }

  function Exhausted(pending: map<nat, Pending>): set<nat> {
    set k | k in pending && pending[k].retransmits >= MAX_RETRANSMITS
  }

  function RetransmitTimeout(t: Transport, now: nat, order: seq<nat>, failing: set<nat>): Transport {
    var attempted := Attempted(DueList(order, t.pending, now), failing);
    var bumped := BumpAll(t.pending, attempted, now);
    var expired := Exhausted(bumped);
    t.(cc := Timeouts(Losses(t.cc, |attempted|), |expired|), pending := bumped - expired)
  }

  /** `order` lists every pending packet once, as one iteration over the hash map does. */
  ghost predicate Enumerates(order: seq<nat>, pending: map<nat, Pending>) {
    && (forall i, j :: 0 <= i < j < |order| ==> order[i] != order[j])
    && (forall k :: k in order <==> k in pending)
  }

  // ----- Runs -----

  datatype Step =
    | SendStep(piece: nat, block: nat, payload: bytes, addr: Addr, sentNow: nat, sendOk: bool)
    | ReceiveStep(packet: Packet)
    | TimeoutStep(now: nat, order: seq<nat>, failing: set<nat>)

  /** How many packets went into `pending`, how many left it by ack and by expiry, and how many sends failed. */
  datatype Ledger = Ledger(inserted: nat, acked: nat, expired: nat, failed: nat)

  datatype Run = Run(t: Transport, ledger: Ledger)

  ghost predicate Allowed(t: Transport, step: Step) {
    step.TimeoutStep? ==> Enumerates(step.order, t.pending)
  }

  ghost function Take(t: Transport, step: Step): Transport
    requires t.cc.cwnd > 0.0
  {
    match step
    case SendStep(piece, block, payload, addr, now, sendOk) => SendData(t, piece, block, payload, addr, now, sendOk)
    case ReceiveStep(packet) => Receive(t, packet)
    case TimeoutStep(now, order, failing) => RetransmitTimeout(t, now, order, failing)
  }

  ghost function Record(t: Transport, ledger: Ledger, step: Step): Ledger {
    match step
    case SendStep(_, _, _, _, _, sendOk) =>
      if !CanSend(t.cc) then ledger
      else if sendOk then ledger.(inserted := ledger.inserted + 1)
      else ledger.(failed := ledger.failed + 1)
    case ReceiveStep(packet) =>
      if packet.msgType == AckMsg && packet.seqNo in t.pending then ledger.(acked := ledger.acked + 1) else ledger
    case TimeoutStep(now, order, failing) =>
      var attempted := Attempted(DueList(order, t.pending, now), failing);
      ledger.(expired := ledger.expired + |Exhausted(BumpAll(t.pending, attempted, now))|)
  }

  ghost function Advance(r: Run, step: Step): Run
    requires r.t.cc.cwnd > 0.0
  {
    Run(Take(r.t, step), Record(r.t, r.ledger, step))
  }

  ghost predicate PendingInv(pending: map<nat, Pending>, nextSeq: nat) {
    forall k :: k in pending ==>
      k < nextSeq && pending[k].packet.seqNo == k && pending[k].retransmits < MAX_RETRANSMITS
  }

  ghost predicate Inv(t: Transport) {
    && Window(t.cc)
    && t.cc.inFlight <= 256
    && PendingInv(t.pending, t.nextSeq)
  }

  /** No packet is lost track of, and the flight exceeds `pending` by no more than the sends that failed. */
  ghost predicate RunInv(r: Run) {
    && Inv(r.t)
    && r.ledger.inserted == r.ledger.acked + r.ledger.expired + |r.t.pending|
    && r.t.cc.inFlight <= |r.t.pending| + r.ledger.failed
  }

  function Start(): Run {
    Run(New(), Ledger(0, 0, 0, 0))
  }

  ghost predicate Reachable(r: Run, steps: seq<Step>)
    decreases |steps|
  {
    if steps == [] then r == Start()
    else
      exists before: Run :: Reachable(before, steps[..|steps| - 1])
        && before.t.cc.cwnd > 0.0
        && Allowed(before.t, steps[|steps| - 1])
        && r == Advance(before, steps[|steps| - 1])
  }

  /** Every state a run reaches keeps all of it. */
  lemma {:induction false} ReachableSafe(r: Run, steps: seq<Step>)
    requires Reachable(r, steps)
    ensures RunInv(r)
    decreases |steps|
  {
    if steps != [] {
      var step := steps[|steps| - 1];
      var before: Run :| Reachable(before, steps[..|steps| - 1]) && before.t.cc.cwnd > 0.0
                         && Allowed(before.t, step) && r == Advance(before, step);
      ReachableSafe(before, steps[..|steps| - 1]);
      AdvanceKeepsInv(before, step);
    }
  }

  lemma AdvanceKeepsInv(r: Run, step: Step)
    requires RunInv(r) && Allowed(r.t, step)
    ensures RunInv(Advance(r, step))
  {
    match step
    case SendStep(piece, block, payload, addr, now, sendOk) =>
      LossKeepsWindow(r.t.cc);
      SendKeepsInv(r, step);
    case ReceiveStep(packet) =>
      AckKeepsWindow(r.t.cc, ACK_RTT);
      ReceiveKeepsInv(r, packet);
    case TimeoutStep(now, order, failing) =>
      RoundKeepsInv(r.t, now, order, failing);
  }

  lemma SendKeepsInv(r: Run, step: Step)
    requires RunInv(r) && step.SendStep? && Window(OnPacketSent(r.t.cc))
    ensures RunInv(Advance(r, step))
  {
    var t' := Take(r.t, step);
    if CanSend(r.t.cc) {
      assert r.t.nextSeq !in r.t.pending;
      var packet := Packet(Data, r.t.nextSeq, step.piece, step.block, step.payload);
      assert |r.t.pending[r.t.nextSeq := Pending(packet, step.sentNow, 0, step.addr)]| == |r.t.pending| + 1;
    }
  }

  lemma ReceiveKeepsInv(r: Run, packet: Packet)
    requires RunInv(r) && Window(OnAck(r.t.cc, ACK_RTT))
    ensures RunInv(Advance(r, ReceiveStep(packet)))
  {
    RemoveKeys(r.t.pending, {packet.seqNo});
    if packet.seqNo in r.t.pending {
      assert r.t.pending.Keys * {packet.seqNo} == {packet.seqNo};
    } else {
      assert r.t.pending.Keys * {packet.seqNo} == {};
    }
  }

  lemma RemoveKeys<V>(m: map<nat, V>, ks: set<nat>)
    ensures |m - ks| == |m| - |m.Keys * ks|
  {
    assert (m - ks).Keys == m.Keys - ks;
    assert m.Keys == (m.Keys - ks) + (m.Keys * ks);
    assert |m| == |m.Keys| && |m - ks| == |(m - ks).Keys|;
  }

  lemma BumpedKeepsPending(pending: map<nat, Pending>, nextSeq: nat, attempted: seq<nat>, now: nat)
    requires PendingInv(pending, nextSeq)
    ensures var bumped := BumpAll(pending, attempted, now);
            bumped.Keys == pending.Keys && PendingInv(bumped - Exhausted(bumped), nextSeq)
  {
  }

  lemma RoundKeepsInv(t: Transport, now: nat, order: seq<nat>, failing: set<nat>)
    requires Inv(t)
    ensures var t' := RetransmitTimeout(t, now, order, failing);
            var attempted := Attempted(DueList(order, t.pending, now), failing);
            && Inv(t')
            && |t'.pending| + |Exhausted(BumpAll(t.pending, attempted, now))| == |t.pending|
            && (t'.cc.inFlight <= t.cc.inFlight && (|t'.pending| < |t.pending| ==> t'.cc.inFlight == 0))
  {
    hide Losses, Timeouts, DueList, Attempted, Window, BumpAll, Exhausted, PendingInv;
    var attempted := Attempted(DueList(order, t.pending, now), failing);
    var bumped := BumpAll(t.pending, attempted, now);
    LossesKeep(t.cc, |attempted|);
    TimeoutsKeep(Losses(t.cc, |attempted|), |Exhausted(bumped)|);
    BumpedKeepsPending(t.pending, t.nextSeq, attempted, now);
    CountExpired(t.pending, bumped);
  }

  lemma CountExpired(pending: map<nat, Pending>, bumped: map<nat, Pending>)
    requires bumped.Keys == pending.Keys
    ensures |bumped - Exhausted(bumped)| + |Exhausted(bumped)| == |pending|
  {
    RemoveKeys(bumped, Exhausted(bumped));
    assert bumped.Keys * Exhausted(bumped) == Exhausted(bumped);
    assert |bumped| == |bumped.Keys| == |pending.Keys| == |pending|;
  }

  /** Whatever is pending in a run is a packet some step sent, as it was sent and to where it was sent. */
  ghost predicate SentBy(step: Step, k: nat, p: Pending) {
    && step.SendStep? && step.sendOk && p.addr == step.addr
    && p.packet.msgType == Data && p.packet.seqNo == k && p.packet.pieceIndex == step.piece
    && p.packet.blockOffset == step.block && p.packet.payload == step.payload
  }

  /** A step sends a packet or leaves it with its content and its address. */
  lemma StepOrigin(t: Transport, step: Step, k: nat)
    requires t.cc.cwnd > 0.0 && k in Take(t, step).pending
    ensures SentBy(step, k, Take(t, step).pending[k])
            || (k in t.pending && Take(t, step).pending[k].packet == t.pending[k].packet
                && Take(t, step).pending[k].addr == t.pending[k].addr)
  {
    hide Attempted, DueList, OnAck, OnPacketSent, Losses, Timeouts;
  }

  lemma {:induction false} PendingAsSent(r: Run, steps: seq<Step>, k: nat)
    requires Reachable(r, steps) && k in r.t.pending
    ensures exists step <- steps :: SentBy(step, k, r.t.pending[k])
    decreases |steps|
  {
    hide Take;
    var step, earlier := steps[|steps| - 1], steps[..|steps| - 1];
    var before: Run :| Reachable(before, earlier) && before.t.cc.cwnd > 0.0
                       && Allowed(before.t, step) && r == Advance(before, step);
    assert step in steps;
    StepOrigin(before.t, step, k);
    if !SentBy(step, k, r.t.pending[k]) {
      PendingAsSent(before, earlier, k);
      var s :| s in earlier && SentBy(s, k, before.t.pending[k]);
      assert s in steps && SentBy(s, k, r.t.pending[k]);
    }
  }

  // ----- Failed sends -----

  ghost predicate WithoutAck(step: Step) {
    step.ReceiveStep? ==> step.packet.msgType != AckMsg
  }

  /** With nothing pending and the window full, only an ack from outside can change anything. */
  lemma WedgedWithoutAcks(t: Transport, step: Step)
    requires t.pending == map[] && !CanSend(t.cc) && t.cc.cwnd > 0.0 && Allowed(t, step) && WithoutAck(step)
    ensures Take(t, step) == t
  {
    if step.TimeoutStep? {
      EmptyRound(t, step.now, step.order, step.failing);
    }
  }

  lemma EmptyRound(t: Transport, now: nat, order: seq<nat>, failing: set<nat>)
    requires t.pending == map[]
    ensures RetransmitTimeout(t, now, order, failing) == t
  {
    NothingDue(order, now);
    assert BumpAll(t.pending, [], now) == t.pending;
    assert Exhausted(map[]) == {};
  }

  lemma {:induction false} NothingDue(order: seq<nat>, now: nat)
    ensures DueList(order, map[], now) == []
  {
    if order != [] {
      NothingDue(order[1..], now);
    }
  }

  /** So no run of steps without acks ever gets out of that state. */
  lemma {:induction false} WedgedForGood(r: Run, steps: seq<Step>)
    requires r.t.pending == map[] && !CanSend(r.t.cc) && r.t.cc.cwnd > 0.0
    requires forall s <- steps :: Allowed(r.t, s) && WithoutAck(s)
    ensures RunOn(r, steps).Some? && RunOn(r, steps).value.t == r.t
  {
    if steps != [] {
      var before := steps[..|steps| - 1];
      assert forall s <- before :: s in steps;
      WedgedForGood(r, before);
      assert steps[|steps| - 1] in steps;
      WedgedWithoutAcks(r.t, steps[|steps| - 1]);
    }
  }

  /** The run `r` followed by the steps, as long as each is allowed where it is taken. */
  ghost function RunOn(r: Run, steps: seq<Step>): Option<Run> {
    if steps == [] then Some(r)
    else
      match RunOn(r, steps[..|steps| - 1])
      case None => None
      case Some(before) =>
        var step := steps[|steps| - 1];
        if before.t.cc.cwnd > 0.0 && Allowed(before.t, step) then Some(Advance(before, step)) else None
  }

  /** Two sends that fail on a fresh transport fill the window with packets that are not pending. */
  lemma TwoFailedSendsWedge(first: Step, second: Step)
    requires first.SendStep? && second.SendStep? && !first.sendOk && !second.sendOk
    ensures var r := Advance(Advance(Start(), first), second);
            && Reachable(r, [] + [first] + [second])
            && r.ledger.failed == 2 && r.t.pending == map[] && r.t.cc.inFlight == 2 && !CanSend(r.t.cc)
  {
    assert Initial().cwnd.Floor == 2;
    ReachNext(Start(), [], first);
    ReachNext(Advance(Start(), first), [] + [first], second);
  }

  lemma ReachNext(r: Run, steps: seq<Step>, step: Step)
    requires Reachable(r, steps) && r.t.cc.cwnd > 0.0 && Allowed(r.t, step)
    ensures Reachable(Advance(r, step), steps + [step])
  {
    assert (steps + [step])[..|steps|] == steps;
  }

  /** In every run with at most `n` failed sends the window is open whenever nothing is pending. */
  ghost predicate OpensWhenIdle(n: nat) {
    forall r: Run, steps: seq<Step> |
      Reachable(r, steps) && r.ledger.failed <= n && r.t.pending == map[] :: CanSend(r.t.cc)
  }

  /** One failed send is harmless in every run, and two are not. */
  lemma OpensWhenIdleIff(n: nat)
    ensures OpensWhenIdle(n) <==> n <= 1
  {
    if n <= 1 {
      forall r: Run, steps: seq<Step> | Reachable(r, steps) && r.ledger.failed <= n && r.t.pending == map[]
        ensures CanSend(r.t.cc)
      {
        ReachableSafe(r, steps);
        assert r.t.cc.cwnd.Floor >= 2;
      }
    } else {
      var step := SendStep(0, 0, [], 0, 0, false);
      TwoFailedSendsWedge(step, step);
    }
  }

  // ----- The lists a round works through -----

  lemma {:induction false} DueDistinct(order: seq<nat>, pending: map<nat, Pending>, now: nat)
    requires forall i, j :: 0 <= i < j < |order| ==> order[i] != order[j]
    ensures var due := DueList(order, pending, now); forall i, j :: 0 <= i < j < |due| ==> due[i] != due[j]
  {
    if order != [] {
      DueDistinct(order[1..], pending, now);
      assert order[0] !in order[1..] && order[0] !in DueList(order[1..], pending, now);
    }
  }

  /** The round covers the packets up to the first failure, that one included. */
  lemma {:induction false} AttemptedPrefix(due: seq<nat>, n: nat, failing: set<nat>)
    requires n <= |due| && forall j :: 0 <= j < n - 1 ==> due[j] !in failing
    requires n == |due| || (n > 0 && due[n - 1] in failing)
    ensures Attempted(due, failing) == due[..n]
  {
    if due != [] && due[0] !in failing {
      AttemptedPrefix(due[1..], n - 1, failing);
      assert due[..n] == [due[0]] + due[1..][..n - 1];
    } else if due != [] {
      assert due[..n] == [due[0]];
    }
  }

  lemma BumpOne(pending: map<nat, Pending>, bumped: seq<nat>, k: nat, now: nat)
    requires k in pending && k !in bumped
    ensures BumpAll(pending, bumped + [k], now) == BumpAll(pending, bumped, now)[k := Bump(pending[k], now)]
  {
  }

  // ----- What a round does to each packet -----

  /** The i-th packet was sent more than half a second ago, and no such packet before it fails to be sent. */
  ghost predicate Tried(order: seq<nat>, pending: map<nat, Pending>, now: nat, failing: set<nat>, i: nat)
    requires i < |order| && forall j :: 0 <= j < |order| ==> order[j] in pending
  {
    && now > pending[order[i]].sentAt + 500_000_000
    && forall j :: 0 <= j < i ==> !(now > pending[order[j]].sentAt + 500_000_000 && order[j] in failing)
  }

  /** A packet tried is stamped and counted, and gone at its fifth retransmit; every other one stays as it is. */
  ghost predicate RightRound(
    pending: map<nat, Pending>, pending': map<nat, Pending>, order: seq<nat>, now: nat, failing: set<nat>)
    requires forall j :: 0 <= j < |order| ==> order[j] in pending
  {
    && (forall k :: k in pending' ==> k in pending)
    && forall i :: 0 <= i < |order| ==>
         var p := pending[order[i]];
         if !Tried(order, pending, now, failing, i) then order[i] in pending' && pending'[order[i]] == p
         else if p.retransmits == 4 then order[i] !in pending'
         else order[i] in pending' && pending'[order[i]] == Pending(p.packet, now, p.retransmits + 1, p.addr)
  }

  /** The packets tried, as they were first sent, in the order of the map. */
  ghost predicate RightSent(
    sent: seq<Packet>, pending: map<nat, Pending>, order: seq<nat>, now: nat, failing: set<nat>)
    requires forall j :: 0 <= j < |order| ==> order[j] in pending
  {
    exists at: seq<nat> ::
      && |at| == |sent| && (forall i, j :: 0 <= i < j < |at| ==> at[i] < at[j])
      && (forall j :: 0 <= j < |at| ==> at[j] < |order| && sent[j] == pending[order[at[j]]].packet)
      && (forall i :: 0 <= i < |order| ==> (i in at <==> Tried(order, pending, now, failing, i)))
  }

  lemma {:induction false} AttemptedIff(
    order: seq<nat>, pending: map<nat, Pending>, now: nat, failing: set<nat>, i: nat)
    requires i < |order| && (forall a, b :: 0 <= a < b < |order| ==> order[a] != order[b])
    requires forall j :: 0 <= j < |order| ==> order[j] in pending && pending[order[j]].retransmits < MAX_RETRANSMITS
    ensures order[i] in Attempted(DueList(order, pending, now), failing) <==> Tried(order, pending, now, failing, i)
  {
    var rest := order[1..];
    if i > 0 {
      AttemptedIff(rest, pending, now, failing, i - 1);
      assert Tried(order, pending, now, failing, i) <==>
             Tried(rest, pending, now, failing, i - 1) && !(Due(pending[order[0]], now) && order[0] in failing) by {
        assert forall j :: 0 <= j < i - 1 ==> rest[j] == order[j + 1];
      }
    } else {
      assert order[0] !in rest;
    }
  }

  /** The positions, in order, at which the elements of `list` stand in `order`. */
  ghost predicate Picks(at: seq<nat>, order: seq<nat>, list: seq<nat>) {
    && |at| == |list| && (forall i, j :: 0 <= i < j < |at| ==> at[i] < at[j])
    && (forall j :: 0 <= j < |at| ==> at[j] < |order| && order[at[j]] == list[j])
  }

  lemma PicksLater(at: seq<nat>, order: seq<nat>, list: seq<nat>) returns (at': seq<nat>)
    requires order != [] && Picks(at, order[1..], list)
    ensures Picks(at', order, list) && Picks([0] + at', order, [order[0]] + list)
  {
    at' := seq(|at|, j requires 0 <= j < |at| => at[j] + 1);
  }

  lemma {:induction false} AttemptedAt(
    order: seq<nat>, pending: map<nat, Pending>, now: nat, failing: set<nat>) returns (at: seq<nat>)
    ensures Picks(at, order, Attempted(DueList(order, pending, now), failing))
  {
    if order == [] {
      at := [];
    } else {
      hide Picks, Due;
      at := AttemptedAt(order[1..], pending, now, failing);
      at := PicksLater(at, order, Attempted(DueList(order[1..], pending, now), failing));
      if order[0] in pending && Due(pending[order[0]], now) {
        at := if order[0] in failing then [0] else [0] + at;
        PicksFirst(order);
      }
    }
  }

  lemma PicksFirst(order: seq<nat>)
    requires order != []
    ensures Picks([0], order, [order[0]])
  {
  }

  /** Exactly the packets that were overdue before the first failed send are resent, and no other is touched. */
  lemma RoundMeaning(t: Transport, now: nat, order: seq<nat>, failing: set<nat>)
    requires Inv(t) && Enumerates(order, t.pending)
    ensures var t' := RetransmitTimeout(t, now, order, failing);
            && t'.nextSeq == t.nextSeq
            && RightRound(t.pending, t'.pending, order, now, failing)
            && ((forall k :: k in t.pending ==> now <= t.pending[k].sentAt + 500_000_000) ==> t' == t)
  {
    hide Losses, Timeouts, DueList, Attempted, Window, Tried;
    var t' := RetransmitTimeout(t, now, order, failing);
    assert forall i :: 0 <= i < |order| ==> order[i] in order;
    forall i | 0 <= i < |order|
      ensures order[i] in Attempted(DueList(order, t.pending, now), failing)
         <==> Tried(order, t.pending, now, failing, i)
    {
      AttemptedIff(order, t.pending, now, failing, i);
    }
    if forall k :: k in t.pending ==> now <= t.pending[k].sentAt + 500_000_000 {
      QuietRound(t, now, order, failing);
    }
  }

  lemma QuietRound(t: Transport, now: nat, order: seq<nat>, failing: set<nat>)
    requires Inv(t) && forall k :: k in t.pending ==> now <= t.pending[k].sentAt + 500_000_000
    ensures RetransmitTimeout(t, now, order, failing) == t
  {
    assert DueList(order, t.pending, now) == [] by {
      if DueList(order, t.pending, now) != [] {
        assert DueList(order, t.pending, now)[0] in DueList(order, t.pending, now);
      }
    }
    assert BumpAll(t.pending, [], now) == t.pending;
    assert Exhausted(t.pending) == {};
  }

  /** The packets of the listed sequence numbers, in that order. */
  ghost predicate Resent(sent: seq<Packet>, list: seq<nat>, pending: map<nat, Pending>) {
    |sent| == |list| && forall i :: 0 <= i < |sent| ==> list[i] in pending && sent[i] == pending[list[i]].packet
  }

  lemma NothingSent(t: Transport, now: nat, order: seq<nat>, failing: set<nat>)
    requires Inv(t)
    ensures (forall k :: k in t.pending ==> now <= t.pending[k].sentAt + 500_000_000) ==>
              Attempted(DueList(order, t.pending, now), failing) == []
  {
    if DueList(order, t.pending, now) != [] {
      assert DueList(order, t.pending, now)[0] in DueList(order, t.pending, now);
    }
  }

  /**
   A round counts one loss for each packet resent and one for each packet dropped. Packets resent halve the window
   one by one, down to two; a packet dropped sends it back to two packets and slow start.
   */
  lemma RoundLosses(t: Transport, now: nat, order: seq<nat>, failing: set<nat>)
    requires Inv(t)
    ensures var t' := RetransmitTimeout(t, now, order, failing);
            var resent := |Attempted(DueList(order, t.pending, now), failing)|;
            && t'.cc.lost == t.cc.lost + resent + (|t.pending| - |t'.pending|)
            && (if |t'.pending| < |t.pending| then t'.cc.cwnd == 2.0 && t'.cc.state == SlowStart && t'.cc.inFlight == 0
                else t'.cc.cwnd == MaxReal(Halved(t.cc.cwnd, resent), 2.0)
                     && (resent > 0 ==> t'.cc.state == FastRecovery && t'.cc.ssthresh == t'.cc.cwnd))
  {
    hide Losses, DueList, Attempted, BumpAll, Exhausted;
    var attempted := Attempted(DueList(order, t.pending, now), failing);
    var bumped := BumpAll(t.pending, attempted, now);
    RoundKeepsInv(t, now, order, failing);
    LossesKeep(t.cc, |attempted|);
    LossesHalve(t.cc, |attempted|);
    TimeoutsKeep(Losses(t.cc, |attempted|), |Exhausted(bumped)|);
  }

  /** What was sent in a round is what it should have sent. */
  lemma SentMeaning(t: Transport, now: nat, order: seq<nat>, failing: set<nat>, sent: seq<Packet>)
    requires Inv(t) && Enumerates(order, t.pending)
    requires Resent(sent, Attempted(DueList(order, t.pending, now), failing), t.pending)
    ensures (forall j :: 0 <= j < |order| ==> order[j] in t.pending)
            && RightSent(sent, t.pending, order, now, failing)
  {
    hide DueList, Attempted, Window, Tried;
    assert forall j :: 0 <= j < |order| ==> order[j] in order;
    var at := AttemptedAt(order, t.pending, now, failing);
    forall i | 0 <= i < |order| ensures i in at <==> Tried(order, t.pending, now, failing, i) {
      AttemptedIff(order, t.pending, now, failing, i);
      InAt(at, order, Attempted(DueList(order, t.pending, now), failing), i);
    }
  }

  lemma InAt(at: seq<nat>, order: seq<nat>, list: seq<nat>, i: nat)
    requires Picks(at, order, list) && i < |order| && forall a, b :: 0 <= a < b < |order| ==> order[a] != order[b]
    ensures i in at <==> order[i] in list
  {
    if order[i] in list {
      var j :| 0 <= j < |list| && list[j] == order[i];
      assert at[j] == i;
    }
  }

  // ----- Retransmission runs out -----

  function Left(p: Pending): int {
    MAX_RETRANSMITS - p.retransmits
  }

  /** The retransmits the pending packets have left, summed. */
  ghost function Budget(pending: map<nat, Pending>): int {
    if pending == map[] then 0
    else
      var k :| k in pending;
      Left(pending[k]) + Budget(pending - {k})
  }

  ghost function AfterRound(pending: map<nat, Pending>, now: nat): map<nat, Pending> {
    map k | k in pending && pending[k].retransmits + 1 < MAX_RETRANSMITS :: Bump(pending[k], now)
  }

  /** The sum does not depend on the packet it is started with. */
  lemma {:induction false} BudgetFrom(pending: map<nat, Pending>, k: nat)
    requires k in pending
    ensures Budget(pending) == Left(pending[k]) + Budget(pending - {k})
    decreases |pending|
  {
    var first :| first in pending && Budget(pending) == Left(pending[first]) + Budget(pending - {first});
    if first != k {
      BudgetFrom(pending - {first}, k);
      BudgetFrom(pending - {k}, first);
      assert pending - {first} - {k} == pending - {k} - {first};
    }
  }

  /** A full round lowers the sum by one for every packet that was pending. */
  lemma {:induction false} RoundLowersBudget(pending: map<nat, Pending>, now: nat)
    requires forall k <- pending :: pending[k].retransmits < MAX_RETRANSMITS
    ensures Budget(AfterRound(pending, now)) == Budget(pending) - |pending|
    decreases |pending|
  {
    var after := AfterRound(pending, now);
    if pending == map[] {
      assert after == map[];
    } else {
      var k :| k in pending;
      RemoveKeys(pending, {k});
      assert pending.Keys * {k} == {k};
      RoundLowersBudget(pending - {k}, now);
      BudgetFrom(pending, k);
      if k in after {
        BudgetFrom(after, k);
        assert after - {k} == AfterRound(pending - {k}, now);
      } else {
        assert after == AfterRound(pending - {k}, now);
      }
    }
  }

  ghost predicate AllDue(t: Transport, now: nat) {
    forall k :: k in t.pending ==> Due(t.pending[k], now)
  }

  /** A round that finds every packet due and loses no send bumps all of them and drops those at the limit. */
  lemma FullRound(t: Transport, now: nat, order: seq<nat>)
    requires Inv(t) && Enumerates(order, t.pending) && AllDue(t, now)
    ensures RetransmitTimeout(t, now, order, {}).pending
            == AfterRound(t.pending, now)
    ensures Budget(RetransmitTimeout(t, now, order, {}).pending) == Budget(t.pending) - |t.pending|
  {
    hide Window, Losses, Timeouts, Budget;
    RoundLowersBudget(t.pending, now);
    var due := DueList(order, t.pending, now);
    NothingFails(due);
    assert forall k :: k in t.pending ==> k in due;
    assert RetransmitTimeout(t, now, order, {}).pending == AfterRound(t.pending, now);
  }

  lemma {:induction false} NothingFails(due: seq<nat>)
    ensures Attempted(due, {}) == due
  {
    if due != [] {
      NothingFails(due[1..]);
    }
  }

  datatype Round = Round(now: nat, order: seq<nat>)

  ghost function Rounds(t: Transport, rounds: seq<Round>): Transport {
    if rounds == [] then t
    else
      var r := rounds[|rounds| - 1];
      RetransmitTimeout(Rounds(t, rounds[..|rounds| - 1]), r.now, r.order, {})
  }

  /** Each round comes after every pending packet has timed out again. */
  ghost predicate Spaced(t: Transport, rounds: seq<Round>) {
    rounds == [] ||
    (var before := rounds[..|rounds| - 1];
     var r := rounds[|rounds| - 1];
     Spaced(t, before) && Enumerates(r.order, Rounds(t, before).pending) && AllDue(Rounds(t, before), r.now))
  }

  /** After n such rounds what is still pending was pending from the start and has n more retransmits. */
  lemma {:induction false} RoundsCount(t: Transport, rounds: seq<Round>)
    requires Inv(t) && Spaced(t, rounds)
    ensures var t' := Rounds(t, rounds);
            && Inv(t')
            && forall k :: k in t'.pending ==>
                 k in t.pending && t'.pending[k].retransmits == t.pending[k].retransmits + |rounds|
                 && t'.pending[k].packet == t.pending[k].packet
  {
    hide RetransmitTimeout, Budget;
    if rounds != [] {
      var before := rounds[..|rounds| - 1];
      var r := rounds[|rounds| - 1];
      RoundsCount(t, before);
      var t1 := Rounds(t, before);
      FullRound(t1, r.now, r.order);
      RoundKeepsInv(t1, r.now, r.order, {});
    }
  }

  /**
   Five rounds with no ack and no new data empty `pending`, whatever sends failed before; and then the window
   is open if and only if something was pending or it was open all along.
   */
  lemma FiveRoundsEmpty(t: Transport, rounds: seq<Round>)
    requires Inv(t) && Spaced(t, rounds)
    ensures |rounds| >= MAX_RETRANSMITS ==>
              var t' := Rounds(t, rounds);
              t'.pending == map[] && (CanSend(t'.cc) <==> t.pending != map[] || CanSend(t.cc))
  {
    RoundsCount(t, rounds);
    RoundsFlight(t, rounds);
    var t' := Rounds(t, rounds);
    if |rounds| >= MAX_RETRANSMITS {
      assert forall k :: k !in t'.pending;
      assert t'.pending == map[];
      assert t'.cc.cwnd.Floor >= 2;
    }
  }

  /** A round on nothing changes nothing, and the round that drops the last packet ends the flight. */
  lemma {:induction false} RoundsFlight(t: Transport, rounds: seq<Round>)
    requires Inv(t) && Spaced(t, rounds)
    ensures t.pending == map[] ==> Rounds(t, rounds) == t
    ensures t.pending != map[] && Rounds(t, rounds).pending == map[] ==> Rounds(t, rounds).cc.inFlight == 0
  {
    if rounds != [] {
      var before := rounds[..|rounds| - 1];
      var r := rounds[|rounds| - 1];
      RoundsCount(t, before);
      RoundsFlight(t, before);
      RoundKeepsInv(Rounds(t, before), r.now, r.order, {});
      if Rounds(t, before).pending == map[] {
        EmptyRound(Rounds(t, before), r.now, r.order, {});
      }
    }
  }
}
