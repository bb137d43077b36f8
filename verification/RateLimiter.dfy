/** The sliding-window rate limiter of qvs-local-server. */
module RateLimiter {

  type Ip = nat

  type Log = map<Ip, seq<nat>>

  datatype Request = Request(ip: Ip, now: nat)

  /** `now.duration_since(t) < window`, where an earlier `now` counts as no time at all. */
  predicate Fresh(t: nat, now: nat, window: nat) {
    (if now < t then 0 else now - t) < window
  }

  /** `retain` of the fresh timestamps. */
  function Retain(timestamps: seq<nat>, now: nat, window: nat): seq<nat> {
    if timestamps == [] then []
    else if Fresh(timestamps[0], now, window) then [timestamps[0]] + Retain(timestamps[1..], now, window)
    else Retain(timestamps[1..], now, window)
  }

  function Stored(requests: Log, ip: Ip): seq<nat> {
    if ip in requests then requests[ip] else []
  }

  function CheckResult(requests: Log, r: Request, maxRequests: nat, window: nat): (Log, bool) {
    var kept := Retain(Stored(requests, r.ip), r.now, window);
    if |kept| >= maxRequests then (requests[r.ip := kept], false)
    else (requests[r.ip := kept + [r.now]], true)
  }

  class RateLimiter {
    const maxRequests: nat
    const window: nat
    var requests: Log

    constructor (maxRequests: nat, window: nat)
      ensures this.maxRequests == maxRequests && this.window == window && requests == map[]
    {
      this.maxRequests, this.window := maxRequests, window;
      requests := map[];
    }

    method Check(ip: Ip, now: nat) returns (ok: bool)
      modifies this
      ensures (requests, ok) == CheckResult(old(requests), Request(ip, now), maxRequests, window)
    {
      var timestamps := if ip in requests then requests[ip] else [];
      timestamps := Retain(timestamps, now, window);
      if |timestamps| >= maxRequests {
        ok := false;
      } else {
        timestamps := timestamps + [now];
        ok := true;
      }
      requests := requests[ip := timestamps];
    }
  }

  // ----- Runs -----

  datatype State = State(requests: Log, accepted: seq<Request>)

  /** The state after requests have entered the lock in this order, with the log of those accepted. */
  ghost function Run(maxRequests: nat, window: nat, requests: seq<Request>): State {
    if requests == [] then State(map[], [])
    else
      var s := Run(maxRequests, window, requests[..|requests| - 1]);
      var r := requests[|requests| - 1];
      var (log, ok) := CheckResult(s.requests, r, maxRequests, window);
      State(log, if ok then s.accepted + [r] else s.accepted)
  }

  /** No request enters after one that read a later time. */
  ghost predicate Clocked(requests: seq<Request>) {
    forall i, j :: 0 <= i < j < |requests| ==> requests[i].now <= requests[j].now
  }

  /** How many requests of one address were accepted at times in [lo, hi). */
  ghost function CountIn(accepted: seq<Request>, ip: Ip, lo: int, hi: int): nat {
    if accepted == [] then 0
    else
      var r := accepted[|accepted| - 1];
      CountIn(accepted[..|accepted| - 1], ip, lo, hi) + (if r.ip == ip && lo <= r.now < hi then 1 else 0)
  }

  lemma CountSnoc(accepted: seq<Request>, r: Request, ip: Ip, lo: int, hi: int)
    ensures CountIn(accepted + [r], ip, lo, hi)
            == CountIn(accepted, ip, lo, hi) + (if r.ip == ip && lo <= r.now < hi then 1 else 0)
  {
    assert (accepted + [r])[..|accepted|] == accepted;
  }

  lemma {:induction false} CountMonotone(accepted: seq<Request>, ip: Ip, lo: int, hi: int, lo': int, hi': int)
    requires forall r <- accepted :: lo <= r.now < hi ==> lo' <= r.now < hi'
    ensures CountIn(accepted, ip, lo, hi) <= CountIn(accepted, ip, lo', hi')
  {
    if accepted != [] {
      var before := accepted[..|accepted| - 1];
      assert forall r <- before :: r in accepted;
      CountMonotone(before, ip, lo, hi, lo', hi');
      assert accepted[|accepted| - 1] in accepted;
    }
  }

  lemma {:induction false} RetainSnoc(s: seq<nat>, t: nat, now: nat, window: nat)
    ensures Retain(s + [t], now, window)
            == Retain(s, now, window) + (if Fresh(t, now, window) then [t] else [])
  {
    if s == [] {
      assert s + [t] == [t];
      assert Retain([t][1..], now, window) == [];
    } else {
      RetainSnoc(s[1..], t, now, window);
      assert (s + [t])[1..] == s[1..] + [t];
    }
  }

  /** What an earlier check threw away a later check would throw away as well. */
  lemma {:induction false} RetainTwice(s: seq<nat>, now: nat, later: nat, window: nat)
    requires now <= later
    ensures Retain(Retain(s, now, window), later, window) == Retain(s, later, window)
  {
    if s != [] {
      RetainTwice(s[1..], now, later, window);
      var rest := Retain(s[1..], now, window);
      if Fresh(s[0], now, window) {
        assert ([s[0]] + rest)[1..] == rest;
      }
    }
  }

  /** The stored timestamps always tell how many requests fall in the window that ends at `now`. */
  ghost predicate Faithful(s: State, window: nat, last: nat) {
    && (forall r <- s.accepted :: r.now <= last)
    && forall ip: Ip, now: nat | last <= now ::
         |Retain(Stored(s.requests, ip), now, window)| == CountFrom(s.accepted, ip, now - window + 1, window)
  }

  lemma CheckKeepsFaithful(s: State, r: Request, maxRequests: nat, window: nat, last: nat)
    requires Faithful(s, window, last) && last <= r.now
    ensures var (log, ok) := CheckResult(s.requests, r, maxRequests, window);
            Faithful(State(log, if ok then s.accepted + [r] else s.accepted), window, r.now)
  {
    hide Retain, CountIn;
    var (log, ok) := CheckResult(s.requests, r, maxRequests, window);
    var accepted := if ok then s.accepted + [r] else s.accepted;
    var stored := Stored(s.requests, r.ip);
    forall ip: Ip, now: nat | r.now <= now
      ensures |Retain(Stored(log, ip), now, window)| == CountFrom(accepted, ip, now - window + 1, window)
    {
      var lo := now - window + 1;
      assert |Retain(Stored(s.requests, ip), now, window)| == CountFrom(s.accepted, ip, lo, window);
      CountSnoc(s.accepted, r, ip, lo, lo + window);
      if ip == r.ip {
        RetainTwice(stored, r.now, now, window);
        RetainSnoc(Retain(stored, r.now, window), r.now, now, window);
      } else {
        assert Stored(log, ip) == Stored(s.requests, ip);
      }
    }
  }

  ghost predicate WithinLimit(accepted: seq<Request>, maxRequests: nat, window: nat) {
    forall ip: Ip, lo: int :: CountFrom(accepted, ip, lo, window) <= maxRequests
  }

  /** The count of the half-open window of length `window` that starts at `lo`. */
  ghost function CountFrom(accepted: seq<Request>, ip: Ip, lo: int, window: nat): nat {
    CountIn(accepted, ip, lo, lo + window)
  }

  lemma CheckKeepsLimit(s: State, r: Request, maxRequests: nat, window: nat, last: nat)
    requires Faithful(s, window, last) && last <= r.now && WithinLimit(s.accepted, maxRequests, window)
    requires CheckResult(s.requests, r, maxRequests, window).1
    ensures WithinLimit(s.accepted + [r], maxRequests, window)
  {
    hide CountIn;
    forall ip: Ip, lo: int ensures CountFrom(s.accepted + [r], ip, lo, window) <= maxRequests {
      CountSnoc(s.accepted, r, ip, lo, lo + window);
      assert CountFrom(s.accepted, ip, lo, window) <= maxRequests;
      if ip == r.ip && lo <= r.now < lo + window {
        var lo' := r.now - window + 1;
        CountMonotone(s.accepted, ip, lo, lo + window, lo', lo' + window);
        assert CountFrom(s.accepted, ip, lo', window) == |Retain(Stored(s.requests, ip), r.now, window)|;
      }
    }
  }

  ghost function Last(requests: seq<Request>): nat {
    if requests == [] then 0 else requests[|requests| - 1].now
  }

  /** If requests enter in the order of their times, no window of length `window` ever holds more than the limit. */
  lemma {:induction false} NeverOverLimit(maxRequests: nat, window: nat, requests: seq<Request>)
    requires Clocked(requests)
    ensures var s := Run(maxRequests, window, requests);
            Faithful(s, window, Last(requests)) && WithinLimit(s.accepted, maxRequests, window)
  {
    if requests != [] {
      var before := requests[..|requests| - 1];
      NeverOverLimit(maxRequests, window, before);
      var s := Run(maxRequests, window, before);
      var r := requests[|requests| - 1];
      CheckKeepsFaithful(s, r, maxRequests, window, Last(before));
      if CheckResult(s.requests, r, maxRequests, window).1 {
        CheckKeepsLimit(s, r, maxRequests, window, Last(before));
      }
    }
  }

  /** A request is refused if and only if the window ending with it already holds the limit. */
  lemma RefusedIffFull(maxRequests: nat, window: nat, requests: seq<Request>, r: Request)
    requires Clocked(requests) && Last(requests) <= r.now
    ensures var s := Run(maxRequests, window, requests);
            !CheckResult(s.requests, r, maxRequests, window).1
            <==> CountFrom(s.accepted, r.ip, r.now - window + 1, window) == maxRequests
  {
    NeverOverLimit(maxRequests, window, requests);
    FullIff(Run(maxRequests, window, requests), r, maxRequests, window, Last(requests));
  }

  lemma FullIff(s: State, r: Request, maxRequests: nat, window: nat, last: nat)
    requires Faithful(s, window, last) && last <= r.now && WithinLimit(s.accepted, maxRequests, window)
    ensures !CheckResult(s.requests, r, maxRequests, window).1
            <==> CountFrom(s.accepted, r.ip, r.now - window + 1, window) == maxRequests
  {
    var kept := |Retain(Stored(s.requests, r.ip), r.now, window)|;
    var lo := r.now - window + 1;
    assert kept == CountFrom(s.accepted, r.ip, lo, window);
  }

  // ----- Requests that enter late -----

  /** Each request enters at most `skew` later than its time: a request with a later time may enter before it. */
  ghost predicate LateBy(requests: seq<Request>, skew: nat) {
    forall i, j :: 0 <= i < j < |requests| ==> requests[i].now <= requests[j].now + skew
  }

  ghost function CountTimes(s: seq<nat>, lo: int, hi: int): nat {
    if s == [] then 0 else (if lo <= s[0] < hi then 1 else 0) + CountTimes(s[1..], lo, hi)
  }

  lemma {:induction false} CountTimesSnoc(s: seq<nat>, t: nat, lo: int, hi: int)
    ensures CountTimes(s + [t], lo, hi) == CountTimes(s, lo, hi) + (if lo <= t < hi then 1 else 0)
  {
    if s == [] {
      assert s + [t] == [t];
      assert CountTimes([t][1..], lo, hi) == 0;
    } else {
      CountTimesSnoc(s[1..], t, lo, hi);
      assert (s + [t])[1..] == s[1..] + [t];
    }
  }

  /** A check keeps every time from `lo` on, if it comes less than a window after `lo`. */
  lemma {:induction false} RetainCounts(s: seq<nat>, now: nat, window: nat, lo: int, hi: int)
    requires now < lo + window && window > 0
    ensures CountTimes(Retain(s, now, window), lo, hi) == CountTimes(s, lo, hi) <= |Retain(s, now, window)|
  {
    if s != [] {
      RetainCounts(s[1..], now, window, lo, hi);
      var rest := Retain(s[1..], now, window);
      if Fresh(s[0], now, window) {
        assert ([s[0]] + rest)[1..] == rest;
      }
    }
  }

  ghost function Latest(requests: seq<Request>): nat {
    if requests == [] then 0
    else
      var before := Latest(requests[..|requests| - 1]);
      var now := requests[|requests| - 1].now;
      if before < now then now else before
  }

  lemma {:induction false} LatestIsLate(requests: seq<Request>, skew: nat, r: Request)
    requires LateBy(requests + [r], skew)
    ensures Latest(requests) <= r.now + skew
  {
    if requests != [] {
      var n := |requests| - 1;
      var all := requests + [r];
      assert all[n].now <= all[n + 1].now + skew;
      var before := requests[..n] + [r];
      forall i, j | 0 <= i < j < |before| ensures before[i].now <= before[j].now + skew {
        assert before[i] == all[i] && before[j] == if j < n then all[j] else all[n + 1];
      }
      LatestIsLate(requests[..n], skew, r);
    }
  }

  /** Whatever no check can have thrown away yet is still stored. */
  ghost predicate Recent(s: State, window: nat, latest: nat) {
    forall ip: Ip, lo: int, hi: int | latest < lo + window ::
      CountIn(s.accepted, ip, lo, hi) <= CountTimes(Stored(s.requests, ip), lo, hi)
  }

  lemma CheckKeepsRecent(s: State, r: Request, maxRequests: nat, window: nat, latest: nat)
    requires Recent(s, window, latest) && window > 0
    ensures var (log, ok) := CheckResult(s.requests, r, maxRequests, window);
            Recent(State(log, if ok then s.accepted + [r] else s.accepted), window,
                   if latest < r.now then r.now else latest)
  {
    var (log, ok) := CheckResult(s.requests, r, maxRequests, window);
    var accepted := if ok then s.accepted + [r] else s.accepted;
    var stored := Stored(s.requests, r.ip);
    forall ip: Ip, lo: int, hi: int | latest < lo + window && r.now < lo + window
      ensures CountIn(accepted, ip, lo, hi) <= CountTimes(Stored(log, ip), lo, hi)
    {
      assert CountIn(s.accepted, ip, lo, hi) <= CountTimes(Stored(s.requests, ip), lo, hi);
      CountSnoc(s.accepted, r, ip, lo, hi);
      if ip == r.ip {
        RetainCounts(stored, r.now, window, lo, hi);
        CountTimesSnoc(Retain(stored, r.now, window), r.now, lo, hi);
      } else {
        assert Stored(log, ip) == Stored(s.requests, ip);
      }
    }
  }

  lemma LateCheckKeepsLimit(
    s: State, r: Request, maxRequests: nat, window: nat, latest: nat, skew: nat, width: nat)
    requires Recent(s, window, latest) && latest <= r.now + skew && 0 < window && width + skew <= window
    requires WithinLimit(s.accepted, maxRequests, width) && CheckResult(s.requests, r, maxRequests, window).1
    ensures WithinLimit(s.accepted + [r], maxRequests, width)
  {
    forall ip: Ip, lo: int ensures CountFrom(s.accepted + [r], ip, lo, width) <= maxRequests {
      CountSnoc(s.accepted, r, ip, lo, lo + width);
      assert CountFrom(s.accepted, ip, lo, width) <= maxRequests;
      if ip == r.ip && lo <= r.now < lo + width {
        RetainCounts(Stored(s.requests, ip), r.now, window, lo, lo + width);
        assert CountIn(s.accepted, ip, lo, lo + width) <= CountTimes(Stored(s.requests, ip), lo, lo + width);
      }
    }
  }

  /** Windows shorter by the lateness still never hold more than the limit. */
  lemma {:induction false} LateEntriesBound(
    maxRequests: nat, window: nat, skew: nat, width: nat, requests: seq<Request>)
    requires LateBy(requests, skew) && 0 < window && width + skew <= window
    ensures var s := Run(maxRequests, window, requests);
            Recent(s, window, Latest(requests)) && WithinLimit(s.accepted, maxRequests, width)
  {
    if requests != [] {
      var before := requests[..|requests| - 1];
      var r := requests[|requests| - 1];
      LateEntriesBound(maxRequests, window, skew, width, before);
      var s := Run(maxRequests, window, before);
      assert requests == before + [r];
      LatestIsLate(before, skew, r);
      CheckKeepsRecent(s, r, maxRequests, window, Latest(before));
      if CheckResult(s.requests, r, maxRequests, window).1 {
        LateCheckKeepsLimit(s, r, maxRequests, window, Latest(before), skew, width);
      }
    }
  }

  // ----- A limit of one, or none -----

  /** With a limit of one the last accepted time is stored, and every other accepted one is before it. */
  ghost predicate LastStored(s: State) {
    && (forall ip: Ip :: |Stored(s.requests, ip)| <= 1)
    && forall r <- s.accepted :: |Stored(s.requests, r.ip)| == 1 && r.now <= Stored(s.requests, r.ip)[0]
  }

  lemma {:induction false} CountNone(accepted: seq<Request>, ip: Ip, lo: int, hi: int)
    requires forall r <- accepted :: r.ip != ip || r.now < lo
    ensures CountIn(accepted, ip, lo, hi) == 0
  {
    if accepted != [] {
      assert accepted[|accepted| - 1] in accepted;
      assert forall r <- accepted[..|accepted| - 1] :: r in accepted;
      CountNone(accepted[..|accepted| - 1], ip, lo, hi);
    }
  }

  /** A check under a limit of one: accepted exactly if nothing accepted is less than a window old. */
  lemma SingleCheckResult(s: State, r: Request, window: nat)
    requires LastStored(s)
    ensures var (log, ok) := CheckResult(s.requests, r, 1, window);
            var stored := Stored(s.requests, r.ip);
            && (ok <==> stored == [] || !Fresh(stored[0], r.now, window))
            && Stored(log, r.ip) == (if ok then [r.now] else stored)
            && forall ip: Ip | ip != r.ip :: Stored(log, ip) == Stored(s.requests, ip)
  {
    var stored := Stored(s.requests, r.ip);
    if stored != [] {
      assert stored == [stored[0]] && stored[1..] == [];
      assert Retain([], r.now, window) == [];
    }
    assert [] + [r.now] == [r.now];
  }

  lemma SingleCheck(s: State, r: Request, window: nat, width: nat)
    requires LastStored(s) && WithinLimit(s.accepted, 1, width) && width <= window && window > 0
    ensures var (log, ok) := CheckResult(s.requests, r, 1, window);
            var s' := State(log, if ok then s.accepted + [r] else s.accepted);
            LastStored(s') && WithinLimit(s'.accepted, 1, width)
  {
    hide CheckResult;
    SingleCheckResult(s, r, window);
    var (log, ok) := CheckResult(s.requests, r, 1, window);
    if ok {
      SingleAccepted(s, r, window, width);
    }
  }

  lemma SingleAccepted(s: State, r: Request, window: nat, width: nat)
    requires LastStored(s) && WithinLimit(s.accepted, 1, width) && width <= window
    requires Stored(s.requests, r.ip) == [] || Stored(s.requests, r.ip)[0] + window <= r.now
    ensures WithinLimit(s.accepted + [r], 1, width)
  {
    forall ip: Ip, lo: int ensures CountFrom(s.accepted + [r], ip, lo, width) <= 1 {
      CountSnoc(s.accepted, r, ip, lo, lo + width);
      assert CountFrom(s.accepted, ip, lo, width) <= 1;
      if ip == r.ip && lo <= r.now < lo + width {
        CountNone(s.accepted, ip, lo, lo + width);
      }
    }
  }

  lemma {:induction false} SingleLimit(window: nat, width: nat, requests: seq<Request>)
    requires width <= window && window > 0
    ensures LastStored(Run(1, window, requests)) && WithinLimit(Run(1, window, requests).accepted, 1, width)
  {
    if requests != [] {
      SingleLimit(window, width, requests[..|requests| - 1]);
      SingleCheck(Run(1, window, requests[..|requests| - 1]), requests[|requests| - 1], window, width);
    }
  }

  lemma {:induction false} NothingAccepted(window: nat, requests: seq<Request>)
    ensures Run(0, window, requests).accepted == []
  {
    if requests != [] {
      NothingAccepted(window, requests[..|requests| - 1]);
    }
  }

  lemma {:induction false} EmptyWindow(accepted: seq<Request>, ip: Ip, lo: int)
    ensures CountIn(accepted, ip, lo, lo) == 0
  {
    if accepted != [] {
      EmptyWindow(accepted[..|accepted| - 1], ip, lo);
    }
  }

  // ----- Where the limit breaks -----

  function Burst(ip: Ip, t: nat, n: nat): seq<Request> {
    seq(n, _ => Request(ip, t))
  }

  function Times(t: nat, n: nat): seq<nat> {
    seq(n, _ => t)
  }

  lemma RunSnoc(maxRequests: nat, window: nat, requests: seq<Request>, r: Request)
    ensures var s := Run(maxRequests, window, requests);
            var (log, ok) := CheckResult(s.requests, r, maxRequests, window);
            Run(maxRequests, window, requests + [r]) == State(log, if ok then s.accepted + [r] else s.accepted)
  {
    assert (requests + [r])[..|requests|] == requests;
  }

  lemma {:induction false} RetainTimes(t: nat, n: nat, now: nat, window: nat)
    ensures Retain(Times(t, n), now, window) == if Fresh(t, now, window) then Times(t, n) else []
  {
    if n > 0 {
      assert Times(t, n)[1..] == Times(t, n - 1);
      RetainTimes(t, n - 1, now, window);
      assert [t] + Times(t, n - 1) == Times(t, n);
    }
  }

  /** How many of `n` equal times are stored; a window of no length keeps only the newest. */
  function StoredOf(n: nat, window: nat): nat {
    if window == 0 && n > 0 then 1 else n
  }

  /** One more request of a burst finds room. */
  lemma BurstStep(requests: Log, maxRequests: nat, window: nat, ip: Ip, t: nat, n: nat)
    requires 0 < n <= maxRequests && Stored(requests, ip) == Times(t, StoredOf(n - 1, window))
    ensures var (log, ok) := CheckResult(requests, Request(ip, t), maxRequests, window);
            ok && Stored(log, ip) == Times(t, StoredOf(n, window))
  {
    var k := StoredOf(n - 1, window);
    RetainTimes(t, k, t, window);
    assert [] + [t] == Times(t, 1) && Times(t, k) + [t] == Times(t, k + 1);
  }

  /** A burst up to the limit is accepted. */
  lemma {:induction false} BurstAccepted(maxRequests: nat, window: nat, ip: Ip, t: nat, n: nat)
    requires n <= maxRequests
    ensures var s := Run(maxRequests, window, Burst(ip, t, n));
            s.accepted == Burst(ip, t, n) && Stored(s.requests, ip) == Times(t, StoredOf(n, window))
  {
    hide CheckResult;
    if n > 0 {
      BurstAccepted(maxRequests, window, ip, t, n - 1);
      BurstStep(Run(maxRequests, window, Burst(ip, t, n - 1)).requests, maxRequests, window, ip, t, n);
      assert Burst(ip, t, n) == Burst(ip, t, n - 1) + [Request(ip, t)];
      RunSnoc(maxRequests, window, Burst(ip, t, n - 1), Request(ip, t));
    }
  }

  lemma {:induction false} BurstCount(ip: Ip, t: nat, n: nat, lo: int, hi: int)
    requires lo <= t < hi
    ensures CountIn(Burst(ip, t, n), ip, lo, hi) == n
  {
    if n > 0 {
      assert Burst(ip, t, n)[..n - 1] == Burst(ip, t, n - 1);
      BurstCount(ip, t, n - 1, lo, hi);
    }
  }

  /** A burst, and one more request a window later: accepted, and with it the burst is forgotten. */
  lemma BurstThenOne(maxRequests: nat, window: nat, ip: Ip, t: nat)
    requires maxRequests > 0
    ensures var s := Run(maxRequests, window, Burst(ip, t, maxRequests) + [Request(ip, t + window)]);
            && s.accepted == Burst(ip, t, maxRequests) + [Request(ip, t + window)]
            && Stored(s.requests, ip) == [t + window]
  {
    BurstAccepted(maxRequests, window, ip, t, maxRequests);
    RetainTimes(t, StoredOf(maxRequests, window), t + window, window);
    RunSnoc(maxRequests, window, Burst(ip, t, maxRequests), Request(ip, t + window));
  }

  /** Then one that enters late, by no more than a window, finds room again: as 3, 3, 6, 5 does for two in 3. */
  function LateRun(maxRequests: nat, window: nat, late: nat, ip: Ip, t: nat): seq<Request>
    requires late <= window
  {
    Burst(ip, t, maxRequests) + [Request(ip, t + window)] + [Request(ip, t + window - late)]
  }

  /** Where at most one time is stored, a limit of two leaves room. */
  lemma RoomForTwo(requests: Log, r: Request, maxRequests: nat, window: nat)
    requires |Stored(requests, r.ip)| <= 1 && maxRequests >= 2
    ensures CheckResult(requests, r, maxRequests, window).1
  {
    var stored := Stored(requests, r.ip);
    if stored != [] {
      RetainTimes(stored[0], 1, r.now, window);
      assert stored == Times(stored[0], 1);
    }
  }

  lemma LateAccepted(maxRequests: nat, window: nat, late: nat, ip: Ip, t: nat)
    requires maxRequests >= 2 && late <= window
    ensures Run(maxRequests, window, LateRun(maxRequests, window, late, ip, t)).accepted
            == LateRun(maxRequests, window, late, ip, t)
  {
    hide Run, CheckResult, Burst;
    var before, last := Burst(ip, t, maxRequests) + [Request(ip, t + window)], Request(ip, t + window - late);
    BurstThenOne(maxRequests, window, ip, t);
    RoomForTwo(Run(maxRequests, window, before).requests, last, maxRequests, window);
    RunSnoc(maxRequests, window, before, last);
  }

  lemma LateRunIsLate(maxRequests: nat, window: nat, late: nat, ip: Ip, t: nat)
    requires late <= window
    ensures LateBy(LateRun(maxRequests, window, late, ip, t), late)
  {
    var requests := LateRun(maxRequests, window, late, ip, t);
    forall i | 0 <= i < |requests|
      ensures requests[i].now
              == if i < maxRequests then t else if i == maxRequests then t + window else t + window - late
    {
    }
  }

  lemma LateEntryOverLimit(maxRequests: nat, window: nat, late: nat, ip: Ip, t: nat, width: nat)
    requires maxRequests >= 2 && late <= window < width + late
    ensures var requests := LateRun(maxRequests, window, late, ip, t);
            && LateBy(requests, late) && Run(maxRequests, window, requests).accepted == requests
            && CountFrom(requests, ip, t, width) > maxRequests
  {
    hide Run, CheckResult, LateBy, Burst, CountIn;
    var burst, one, last := Burst(ip, t, maxRequests), Request(ip, t + window), Request(ip, t + window - late);
    LateRunIsLate(maxRequests, window, late, ip, t);
    LateAccepted(maxRequests, window, late, ip, t);
    BurstCount(ip, t, maxRequests, t, t + width);
    CountSnoc(burst, one, ip, t, t + width);
    CountSnoc(burst + [one], last, ip, t, t + width);
  }

  /** Two requests in every three time units are the limit, yet all of these pass, three of them in [3, 6). */
  lemma LateEntryExample(ip: Ip)
    ensures var requests := [Request(ip, 3), Request(ip, 3), Request(ip, 6), Request(ip, 5)];
            Run(2, 3, requests).accepted == requests && CountFrom(requests, ip, 3, 3) == 3
  {
    var requests := [Request(ip, 3), Request(ip, 3), Request(ip, 6), Request(ip, 5)];
    assert LateRun(2, 3, 1, ip, 3) == requests;
    LateEntryOverLimit(2, 3, 1, ip, 3, 3);
    CountSnoc([], requests[0], ip, 3, 6);
    CountSnoc([] + [requests[0]], requests[1], ip, 3, 6);
    CountSnoc([] + [requests[0]] + [requests[1]], requests[2], ip, 3, 6);
    CountSnoc([] + [requests[0]] + [requests[1]] + [requests[2]], requests[3], ip, 3, 6);
    assert requests == [] + [requests[0]] + [requests[1]] + [requests[2]] + [requests[3]];
  }

  lemma WideWindowOverLimit(window: nat, ip: Ip, t: nat, width: nat)
    requires window < width
    ensures var requests := Burst(ip, t, 1) + [Request(ip, t + window)];
            && LateBy(requests, 0) && Run(1, window, requests).accepted == requests
            && CountFrom(requests, ip, t, width) > 1
  {
    BurstThenOne(1, window, ip, t);
    BurstCount(ip, t, 1, t, t + width);
    CountSnoc(Burst(ip, t, 1), Request(ip, t + window), ip, t, t + width);
  }

  /** In every run with requests at most `skew` late, no window of that width holds more than the limit. */
  ghost predicate LimitHolds(maxRequests: nat, window: nat, skew: nat, width: nat) {
    forall requests: seq<Request> | LateBy(requests, skew) ::
      WithinLimit(Run(maxRequests, window, requests).accepted, maxRequests, width)
  }

  /** Lateness is paid for in width, except where the limit is one. */
  lemma LimitHoldsIff(maxRequests: nat, window: nat, skew: nat, width: nat)
    ensures LimitHolds(maxRequests, window, skew, width)
       <==> maxRequests == 0 || width == 0 || width + (if maxRequests == 1 then 0 else skew) <= window
  {
    if maxRequests == 0 || width == 0 || width + (if maxRequests == 1 then 0 else skew) <= window {
      forall requests: seq<Request> | LateBy(requests, skew)
        ensures WithinLimit(Run(maxRequests, window, requests).accepted, maxRequests, width)
      {
        LimitHeld(maxRequests, window, skew, width, requests);
      }
    } else if maxRequests == 1 {
      WideWindowOverLimit(window, 0, 0, width);
      assert LateBy(Burst(0, 0, 1) + [Request(0, window)], skew);
    } else {
      var late := if skew < window then skew else window;
      LateEntryOverLimit(maxRequests, window, late, 0, 0, width);
      assert LateBy(LateRun(maxRequests, window, late, 0, 0), skew);
    }
  }

  lemma LimitHeld(maxRequests: nat, window: nat, skew: nat, width: nat, requests: seq<Request>)
    requires LateBy(requests, skew)
    requires maxRequests == 0 || width == 0 || width + (if maxRequests == 1 then 0 else skew) <= window
    ensures WithinLimit(Run(maxRequests, window, requests).accepted, maxRequests, width)
  {
    if maxRequests == 0 {
      NothingAccepted(window, requests);
    } else if width == 0 {
      forall ip: Ip, lo: int
        ensures CountFrom(Run(maxRequests, window, requests).accepted, ip, lo, 0) <= maxRequests
      {
        EmptyWindow(Run(maxRequests, window, requests).accepted, ip, lo);
      }
    } else if maxRequests == 1 {
      SingleLimit(window, width, requests);
    } else {
      LateEntriesBound(maxRequests, window, skew, width, requests);
    }
  }
}
