/**
 What each congestion event of qvs-transport does, and what that means over whole runs.
 Windows are reals, durations are nanoseconds.
 */
module CongestionModel {
  import opened Arithmetic

  datatype CongestionState = SlowStart | CongestionAvoidance | FastRecovery

  const MAX_CWND: real := 256.0
  const MS: nat := 1_000_000
  const HISTORY: nat := 100

  datatype Control = Control(
    state: CongestionState,
    cwnd: real,
    ssthresh: real,
    rttEstimate: nat,
    rttDev: nat,
    lossRate: real,
    inFlight: nat,
    lost: nat,
    sent: nat,
    history: seq<nat>,
    streaming: bool)

  function MaxReal(a: real, b: real): real {
    if a < b then b else a
  }

  function Initial(): Control {
    Control(SlowStart, 2.0, 64.0, 100 * MS, 20 * MS, 0.0, 0, 0, 0, [], false)
  }

  function Sum(s: seq<nat>): nat {
    if s == [] then 0 else s[0] + Sum(s[1..])
  }

  function UpdateRtt(c: Control, rtt: nat): Control {
    var pushed := c.history + [rtt];
    var history := if |pushed| > HISTORY then pushed[1..] else pushed;
    var estimate := Mean(history);
    c.(history := history, rttEstimate := estimate, rttDev := Smooth(c.rttDev, rtt, estimate))
  }

  function Mean(s: seq<nat>): nat
    requires s != []
  {
    Sum(s) / |s|
  }

  function Smooth(dev: nat, rtt: nat, estimate: nat): nat {
    var diff := if rtt > estimate then rtt - estimate else estimate - rtt;
    (dev * 3 + diff) / 4
  }

  function UpdateLossRate(c: Control): Control {
    if c.sent > 0 then
      var rate := c.lost as real / c.sent as real;
      c.(lossRate := rate, streaming := c.streaming || rate > 0.1)
    else c
  }

  lemma RateAboveTenth(lost: nat, sent: nat)
    requires sent > 0
    ensures lost as real / sent as real > 0.1 <==> 10 * lost > sent
  {
    var rate := lost as real / sent as real;
    assert rate * sent as real == lost as real;
    assert rate > 0.1 ==> rate * sent as real > 0.1 * sent as real;
    assert rate <= 0.1 ==> rate * sent as real <= 0.1 * sent as real;
  }

  function OnAck(c: Control, rtt: nat): Control
    requires c.cwnd > 0.0
  {
    var c1 := UpdateRtt(c, rtt);
    var inFlight := if c.inFlight > 0 then c.inFlight - 1 else 0;
    var cwnd := if c.state == CongestionAvoidance then c.cwnd + 1.0 / c.cwnd else c.cwnd + 1.0;
    c1.(inFlight := inFlight,
        state := if c.state != CongestionAvoidance && cwnd >= c.ssthresh then CongestionAvoidance else c.state,
        cwnd := if MAX_CWND < cwnd then MAX_CWND else cwnd)
  }

  function OnLoss(c: Control): Control {
    var ssthresh := MaxReal(c.cwnd / 2.0, 2.0);
    UpdateLossRate(c.(
      ssthresh := ssthresh,
      cwnd := ssthresh,
      inFlight := if c.inFlight > 0 then c.inFlight - 1 else 0,
      lost := c.lost + 1,
      state := FastRecovery))
  }

  function OnTimeout(c: Control): Control {
    UpdateLossRate(c.(
      ssthresh := MaxReal(c.cwnd / 2.0, 2.0),
      cwnd := 2.0,
      inFlight := 0,
      lost := c.lost + 1,
      state := SlowStart))
  }

  function OnPacketSent(c: Control): Control {
    UpdateLossRate(c.(sent := c.sent + 1, inFlight := c.inFlight + 1))
  }

  function CanSend(c: Control): bool {
    c.inFlight < c.cwnd.Floor
  }

  function TimeoutDuration(c: Control): nat {
    c.rttEstimate + c.rttDev * 4
  }

  // ----- The window -----

  /**
   Window bounds and what each state says about them: fast recovery sits exactly on the threshold,
   avoidance at or above it, slow start below it unless both are at the minimum.
   */
  ghost predicate Window(c: Control) {
    && 2.0 <= c.cwnd <= MAX_CWND && 2.0 <= c.ssthresh <= MAX_CWND / 2.0
    && (c.state == FastRecovery ==> c.cwnd == c.ssthresh)
    && (c.state == CongestionAvoidance ==> c.ssthresh <= c.cwnd)
    && (c.state == SlowStart ==> c.cwnd < c.ssthresh || c.cwnd == c.ssthresh == 2.0)
    && (c.sent > 0 ==> c.lossRate == c.lost as real / c.sent as real)
  }

  lemma AckKeepsWindow(c: Control, rtt: nat)
    requires Window(c)
    ensures Window(OnAck(c, rtt))
    ensures var c' := OnAck(c, rtt);
            c.cwnd <= c'.cwnd <= c.cwnd + 1.0 && (c.cwnd < MAX_CWND ==> c.cwnd < c'.cwnd)
            && c'.ssthresh == c.ssthresh && c'.state != FastRecovery
  {
    var step := 1.0 / c.cwnd;
    assert step * c.cwnd == 1.0;
    assert 0.0 < step <= 1.0;
  }

  lemma LossKeepsWindow(c: Control)
    requires Window(c)
    ensures Window(OnLoss(c)) && Window(OnTimeout(c)) && Window(OnPacketSent(c))
  {
  }

  function Losses(c: Control, n: nat): Control {
    if n == 0 then c else OnLoss(Losses(c, n - 1))
  }

  function Timeouts(c: Control, n: nat): Control {
    if n == 0 then c else OnTimeout(Timeouts(c, n - 1))
  }

  lemma {:induction false} LossesKeep(c: Control, n: nat)
    requires Window(c)
    ensures Window(Losses(c, n)) && Losses(c, n).inFlight <= c.inFlight
  {
    if n > 0 {
      LossesKeep(c, n - 1);
      LossKeepsWindow(Losses(c, n - 1));
    }
  }

  lemma {:induction false} TimeoutsKeep(c: Control, n: nat)
    requires Window(c)
    ensures Window(Timeouts(c, n)) && Timeouts(c, n).inFlight == if n == 0 then c.inFlight else 0
    ensures Timeouts(c, n).lost == c.lost + n
    ensures n > 0 ==> Timeouts(c, n).cwnd == 2.0 && Timeouts(c, n).state == SlowStart
  {
    if n > 0 {
      TimeoutsKeep(c, n - 1);
      LossKeepsWindow(Timeouts(c, n - 1));
    }
  }

  // ----- How the window moves over runs of acks and losses -----

  /** The state after acks with these round-trip times and nothing else. */
  ghost function Acks(c: Control, rtts: seq<nat>): (c': Control)
    requires Window(c)
    ensures Window(c')
  {
    if rtts == [] then c
    else
      var before := Acks(c, rtts[..|rtts| - 1]);
      AckKeepsWindow(before, rtts[|rtts| - 1]);
      OnAck(before, rtts[|rtts| - 1])
  }

  /** One ack in avoidance raises the square of the window by two and the square of its inverse. */
  lemma AvoidanceStep(w: real)
    requires w >= 2.0
    ensures var w' := w + 1.0 / w; w * w + 2.0 <= w' * w' <= w * w + 2.25
  {
    var step := 1.0 / w;
    assert step * w == 1.0;
    assert 0.0 < step <= 0.5;
    assert step * step <= 0.5 * step;
    assert (w + step) * (w + step) == w * w + 2.0 * (step * w) + step * step;
  }

  /** In avoidance the window grows like the square root of twice the acks, until the cap. */
  lemma {:induction false} AvoidanceGrowth(c: Control, rtts: seq<nat>)
    requires Window(c) && c.state == CongestionAvoidance
    ensures var c', n := Acks(c, rtts), |rtts| as real;
            && c'.state == CongestionAvoidance && c'.ssthresh == c.ssthresh && c.cwnd <= c'.cwnd
            && (c'.cwnd < 256.0 ==> c.cwnd * c.cwnd + 2.0 * n <= c'.cwnd * c'.cwnd <= c.cwnd * c.cwnd + 2.25 * n)
  {
    hide Window, OnAck;
    if rtts != [] {
      var front, rtt := rtts[..|rtts| - 1], rtts[|rtts| - 1];
      AvoidanceGrowth(c, front);
      var before := Acks(c, front);
      WindowSize(before);
      AckInAvoidance(before, rtt);
      OneMoreAck(c.cwnd, before.cwnd, Acks(c, rtts).cwnd, |front| as real);
    }
  }

  lemma OneMoreAck(w0: real, w: real, w': real, n: real)
    requires w >= 2.0 && w' == if w + 1.0 / w > 256.0 then 256.0 else w + 1.0 / w
    requires w0 <= w <= 256.0 && (w < 256.0 ==> w0 * w0 + 2.0 * n <= w * w <= w0 * w0 + 2.25 * n)
    ensures w <= w'
    ensures w' < 256.0 ==> w0 * w0 + 2.0 * (n + 1.0) <= w' * w' <= w0 * w0 + 2.25 * (n + 1.0)
  {
    AvoidanceStep(w);
    assert 1.0 / w > 0.0;
  }

  lemma WindowSize(c: Control)
    requires Window(c)
    ensures 2.0 <= c.cwnd <= 256.0 && 2.0 <= c.ssthresh <= 128.0
  {
  }

  lemma AckInAvoidance(c: Control, rtt: nat)
    requires c.cwnd > 0.0 && c.state == CongestionAvoidance
    ensures OnAck(c, rtt).state == CongestionAvoidance && OnAck(c, rtt).ssthresh == c.ssthresh
    ensures OnAck(c, rtt).cwnd == if c.cwnd + 1.0 / c.cwnd > 256.0 then 256.0 else c.cwnd + 1.0 / c.cwnd
  {
  }

  /** In slow start every ack adds one, and the ack that reaches the threshold ends it. */
  lemma {:induction false} SlowStartGrowth(c: Control, rtts: seq<nat>)
    requires Window(c) && c.state == SlowStart
    requires |rtts| <= 1 || c.cwnd + (|rtts| - 1) as real < c.ssthresh
    ensures var c', n := Acks(c, rtts), |rtts| as real;
            && c'.cwnd == c.cwnd + n && c'.ssthresh == c.ssthresh
            && c'.state == if rtts != [] && c.cwnd + n >= c.ssthresh then CongestionAvoidance else SlowStart
  {
    if rtts != [] {
      SlowStartGrowth(c, rtts[..|rtts| - 1]);
    }
  }

  ghost function Halved(w: real, n: nat): real {
    if n == 0 then w else Halved(w, n - 1) / 2.0
  }

  /** Losses with nothing between them halve the window each time, down to two packets. */
  lemma {:induction false} LossesHalve(c: Control, n: nat)
    requires Window(c)
    ensures var c' := Losses(c, n);
            && c'.cwnd == MaxReal(Halved(c.cwnd, n), 2.0) && c'.lost == c.lost + n
            && c'.inFlight == (if n < c.inFlight then c.inFlight - n else 0)
            && (n > 0 ==> c'.state == FastRecovery && c'.ssthresh == c'.cwnd)
  {
    if n > 0 {
      LossesHalve(c, n - 1);
    }
  }

  /** After losses one ack is enough to go on in avoidance, one packet above the halved window. */
  lemma AckAfterLosses(c: Control, n: nat, rtt: nat)
    requires Window(c) && n > 0
    ensures Window(Losses(c, n))
    ensures var c' := OnAck(Losses(c, n), rtt);
            c'.state == CongestionAvoidance && c'.cwnd == MaxReal(Halved(c.cwnd, n), 2.0) + 1.0
  {
    LossesKeep(c, n);
    LossesHalve(c, n);
  }

  /** After a timeout the window climbs from two by one an ack, and slow start ends at half the old window. */
  lemma AcksAfterTimeout(c: Control, rtts: seq<nat>)
    requires Window(c)
    requires |rtts| <= 1 || 2.0 + (|rtts| - 1) as real < MaxReal(c.cwnd / 2.0, 2.0)
    ensures Window(OnTimeout(c)) && OnTimeout(c).inFlight == 0 && OnTimeout(c).lost == c.lost + 1
    ensures var c', n, half := Acks(OnTimeout(c), rtts), |rtts| as real, MaxReal(c.cwnd / 2.0, 2.0);
            && c'.cwnd == 2.0 + n && c'.ssthresh == half
            && c'.state == if rtts != [] && 2.0 + n >= half then CongestionAvoidance else SlowStart
  {
    LossKeepsWindow(c);
    SlowStartGrowth(OnTimeout(c), rtts);
  }

  // ----- Round-trip estimates over whole runs -----

  datatype Event = Ack(rtt: nat) | Loss | Timeout | Sent

  ghost function React(c: Control, e: Event): Control
    requires c.cwnd > 0.0
  {
    match e
    case Ack(rtt) => OnAck(c, rtt)
    case Loss => OnLoss(c)
    case Timeout => OnTimeout(c)
    case Sent => OnPacketSent(c)
  }

  /** The state after a run of events; every run keeps the window. */
  ghost function RunEvents(events: seq<Event>): (c: Control)
    ensures Window(c)
  {
    if events == [] then Initial()
    else
      var c := RunEvents(events[..|events| - 1]);
      var e := events[|events| - 1];
      ReactKeepsWindow(c, e);
      React(c, e)
  }

  lemma ReactKeepsWindow(c: Control, e: Event)
    requires Window(c)
    ensures Window(React(c, e))
  {
    match e
    case Ack(rtt) => AckKeepsWindow(c, rtt);
    case _ => LossKeepsWindow(c);
  }

  ghost function Samples(events: seq<Event>): seq<nat> {
    if events == [] then []
    else
      var before := Samples(events[..|events| - 1]);
      var e := events[|events| - 1];
      if e.Ack? then before + [e.rtt] else before
  }

  ghost function Recent(samples: seq<nat>): seq<nat> {
    if |samples| > HISTORY then samples[|samples| - HISTORY..] else samples
  }

  /** The history is the last hundred samples. */
  lemma {:induction false} RunHistory(events: seq<Event>)
    ensures RunEvents(events).history == Recent(Samples(events))
  {
    if events != [] {
      var before := events[..|events| - 1];
      RunHistory(before);
      var e := events[|events| - 1];
      if e.Ack? {
        RecentSnoc(Samples(before), e.rtt);
      }
    }
  }

  lemma RecentSnoc(samples: seq<nat>, x: nat)
    ensures var pushed := Recent(samples) + [x];
            Recent(samples + [x]) == if |pushed| > HISTORY then pushed[1..] else pushed
  {
  }

  lemma {:induction false} SumBounds(s: seq<nat>, lo: nat, hi: nat)
    requires forall i :: 0 <= i < |s| ==> lo <= s[i] <= hi
    ensures lo * |s| <= Sum(s) <= hi * |s|
  {
    if s != [] {
      SumBounds(s[1..], lo, hi);
      var n := |s| - 1;
      assert lo * (n + 1) == lo * n + lo && hi * (n + 1) == hi * n + hi;
    }
  }

  lemma MeanBounds(s: seq<nat>, lo: nat, hi: nat)
    requires s != [] && forall i :: 0 <= i < |s| ==> lo <= s[i] <= hi
    ensures lo <= Mean(s) <= hi
  {
    SumBounds(s, lo, hi);
    DivBounds(Sum(s), |s|, lo, hi);
  }

  /** Only an ack moves the estimate, to the mean of the history it leaves. */
  lemma ReactEstimate(c: Control, e: Event)
    requires c.cwnd > 0.0
    ensures var c' := React(c, e);
            if e.Ack? then c'.history != [] && c'.rttEstimate == Mean(c'.history)
            else c'.rttEstimate == c.rttEstimate
  {
  }

  /** Once there is a sample, the estimate is the mean of the last hundred samples. */
  lemma {:induction false} EstimateIsMean(events: seq<Event>)
    requires Samples(events) != []
    ensures var recent := Recent(Samples(events));
            recent != [] && RunEvents(events).rttEstimate == Sum(recent) / |recent|
  {
    hide React, Recent;
    var before := events[..|events| - 1];
    ReactEstimate(RunEvents(before), events[|events| - 1]);
    RunHistory(events);
    if !events[|events| - 1].Ack? {
      EstimateIsMean(before);
    }
  }

  /** So it lies between the extremes of those samples. */
  lemma EstimateWithinSamples(events: seq<Event>, lo: nat, hi: nat)
    requires Samples(events) != []
    requires forall x <- Recent(Samples(events)) :: lo <= x <= hi
    ensures lo <= RunEvents(events).rttEstimate <= hi
  {
    var recent := Recent(Samples(events));
    EstimateIsMean(events);
    assert forall i :: 0 <= i < |recent| ==> recent[i] in recent;
    MeanBounds(recent, lo, hi);
  }

  lemma SmoothBounded(dev: nat, rtt: nat, estimate: nat, m: nat)
    requires dev <= m && rtt <= m && estimate <= m
    ensures Smooth(dev, rtt, estimate) <= m
  {
  }

  /** If no sample exceeds M and M is at least 20 ms, the deviation stays within M and the timeout within 5 M. */
  lemma {:induction false} TimeoutBounded(events: seq<Event>, m: nat)
    requires m >= 20 * MS && forall x <- Samples(events) :: x <= m
    ensures RunEvents(events).rttDev <= m
    ensures Samples(events) != [] ==>
              var c := RunEvents(events); c.rttEstimate + 4 * c.rttDev == TimeoutDuration(c) <= 5 * m
  {
    if events != [] {
      var before := events[..|events| - 1];
      assert forall x <- Samples(before) :: x in Samples(events);
      TimeoutBounded(before, m);
      if Samples(events) != [] {
        assert forall x <- Recent(Samples(events)) :: x in Samples(events);
        EstimateWithinSamples(events, 0, m);
        var e := events[|events| - 1];
        if e.Ack? {
          assert Samples(events)[|Samples(events)| - 1] == e.rtt && e.rtt in Samples(events);
          SmoothBounded(RunEvents(before).rttDev, e.rtt, RunEvents(events).rttEstimate, m);
        }
      }
    }
  }
}
