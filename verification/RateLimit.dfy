/**
 The sliding-window rate limiter: one bucket of timestamped hits per key, with saturating machine
 arithmetic. The reference semantics is the log of all admitted hits.
 */
module RateLimit {
  import opened Prelude

  datatype Hit = Hit(ts: u64, count: u32)

  datatype Window = Window(events: seq<Hit>, total: u32, lastSeen: u64)

  datatype Decision = Decision(allowed: bool, limit: u32, remaining: u32, resetAt: u64, retryAfter: u64, now: u64)

  const FRESH: Window := Window([], 0, 0)

  function SatAdd(a: nat, b: nat, top: nat): nat {
    if a + b > top then top else a + b
  }

  function SatSub(a: nat, b: nat): nat {
    if a < b then 0 else a - b
  }

  /** Window length in milliseconds: the saturating product never saturates, and no window is empty. */
  function WindowMs(windowSecs: u32): (w: u64)
    ensures windowSecs > 0 ==> w == 1000 * windowSecs
    ensures windowSecs == 0 ==> w == 1
  {
    if windowSecs == 0 then 1 else SatAdd(windowSecs * 1000, 0, U64_MAX)
  }

  // ----- the bucket operations, on values -----

  /** Drops the hits at or before the cutoff from the front, discounting them from the total. */
  function Prune(w: Window, cutoff: nat): Window
    decreases |w.events|
  {
    if w.events == [] || w.events[0].ts > cutoff then w
    else Prune(w.(events := w.events[1..], total := SatSub(w.total, w.events[0].count)), cutoff)
  }

  function PruneExpired(w: Window, now: u64, windowMs: u64): Window {
    Prune(w, SatSub(now, windowMs))
  }

  function PushHit(w: Window, now: u64, cost: u32): Window {
    var n := |w.events|;
    if n > 0 && w.events[n - 1].ts == now then
      w.(events := w.events[n - 1 := Hit(now, SatAdd(w.events[n - 1].count, cost, U32_MAX))],
         total := SatAdd(w.total, cost, U32_MAX))
    else w.(events := w.events + [Hit(now, cost)], total := SatAdd(w.total, cost, U32_MAX))
  }

  function ResetAt(w: Window, now: u64, windowMs: u64): u64 {
    if w.events != [] then SatAdd(w.events[0].ts, windowMs, U64_MAX) else SatAdd(now, windowMs, U64_MAX)
  }

  function RetryAfterSecs(now: u64, resetAt: u64): u64 {
    var delta := SatSub(resetAt, now);
    if delta == 0 then 1 else (delta + 999) / 1000
  }

  predicate CanCollect(w: Window, now: u64, windowMs: u64) {
    w.total == 0 && SatSub(now, w.lastSeen) > windowMs
  }

  function Pruned(w: Window, windowSecs: u32, now: u64): Window {
    PruneExpired(w, now, WindowMs(windowSecs)).(lastSeen := now)
  }

  predicate Allows(w: Window, max: u32, windowSecs: u32, cost: u32, now: u64) {
    SatAdd(Pruned(w, windowSecs, now).total, AtLeastOne(cost), U32_MAX) <= AtLeastOne(max)
  }

  /** The bucket after one check. */
  function Next(w: Window, max: u32, windowSecs: u32, cost: u32, now: u64): Window {
    var pruned := Pruned(w, windowSecs, now);
    if Allows(w, max, windowSecs, cost, now) then PushHit(pruned, now, AtLeastOne(cost)) else pruned
  }

  /** What one check answers; it is computed from the bucket that the check leaves behind. */
  function Decide(w: Window, max: u32, windowSecs: u32, cost: u32, now: u64): Decision {
    var next, limit := Next(w, max, windowSecs, cost, now), AtLeastOne(max);
    var resetAt := ResetAt(next, now, WindowMs(windowSecs));
    if Allows(w, max, windowSecs, cost, now) then Decision(true, limit, SatSub(limit, next.total), resetAt, 0, now)
    else Decision(false, limit, 0, resetAt, RetryAfterSecs(now, resetAt), now)
  }

  /** A bucket just touched is never collectable, so `check` never removes its own bucket. */
  lemma NeverCollected(w: Window, max: u32, windowSecs: u32, cost: u32, now: u64)
    ensures !CanCollect(Next(w, max, windowSecs, cost, now), now, WindowMs(windowSecs))
  {}

  // ----- the reference log -----

  datatype Call = Call(now: u64, cost: u32)

  /** Cost of the hits of `log` later than `lo`. */
  function Above(log: seq<Hit>, lo: int): nat {
    if log == [] then 0
    else Above(log[..|log| - 1], lo) + (if log[|log| - 1].ts > lo then log[|log| - 1].count else 0)
  }

  /** Cost of the hits of `log` in the half-open interval from `lo` (excluded) to `hi`. */
  function Between(log: seq<Hit>, lo: int, hi: int): nat {
    if log == [] then 0
    else Between(log[..|log| - 1], lo, hi)
         + (if lo < log[|log| - 1].ts <= hi then log[|log| - 1].count else 0)
  }

  /** The bucket after the calls, all with the same limit and window. */
  function Run(calls: seq<Call>, max: u32, windowSecs: u32): Window {
    if calls == [] then FRESH
    else
      var last := calls[|calls| - 1];
      Next(Run(calls[..|calls| - 1], max, windowSecs), max, windowSecs, last.cost, last.now)
  }

  function Allowed(calls: seq<Call>, i: nat, max: u32, windowSecs: u32): bool
    requires i < |calls|
  {
    Allows(Run(calls[..i], max, windowSecs), max, windowSecs, calls[i].cost, calls[i].now)
  }

  /** What the limiter admitted, in order. */
  function Admitted(calls: seq<Call>, max: u32, windowSecs: u32): seq<Hit> {
    if calls == [] then []
    else
      var n := |calls| - 1;
      Admitted(calls[..n], max, windowSecs)
      + (if Allowed(calls, n, max, windowSecs) then [Hit(calls[n].now, AtLeastOne(calls[n].cost))] else [])
  }

  /** A clock that starts after zero and never runs backwards. */
  predicate Clocked(calls: seq<Call>) {
    forall i | 0 <= i < |calls| :: Ticks(calls, i)
  }

  /** Call `i` is later than zero and no earlier than the call before it. */
  predicate Ticks(calls: seq<Call>, i: nat)
    requires i < |calls|
  {
    calls[i].now > 0 && LastNow(calls[..i]) <= calls[i].now
  }

  // ----- invariant -----

  function Sum(events: seq<Hit>): nat {
    Above(events, -1)
  }

  ghost predicate Increasing(events: seq<Hit>) {
    forall i, j | 0 <= i < j < |events| :: events[i].ts < events[j].ts
  }

  /** The total is the sum of the queued counts and within the limit. */
  predicate ExactTotal(w: Window, max: u32) {
    w.total == Sum(w.events) && w.total <= max
  }

  /** Queued hits are ordered, positive, and not later than the last call. */
  ghost predicate Stamped(events: seq<Hit>, now: nat) {
    Increasing(events) && forall i | 0 <= i < |events| :: 0 < events[i].ts <= now && events[i].count > 0
  }

  ghost predicate Logged(log: seq<Hit>, now: nat) {
    forall i | 0 <= i < |log| :: 0 < log[i].ts <= now
  }

  /** The bucket agrees with the log on every suffix later than `cut`. */
  ghost predicate Agrees(events: seq<Hit>, log: seq<Hit>, cut: nat) {
    forall lo: int | lo >= cut :: Agree(events, log, lo)
  }

  ghost predicate Faithful(w: Window, log: seq<Hit>, max: u32, cut: nat, now: nat) {
    match w
    case Window(events, _, _) => ExactTotal(w, max) && Stamped(events, now) && Logged(log, now) && Agrees(events, log, cut)
  }

  predicate Agree(events: seq<Hit>, log: seq<Hit>, lo: int) {
    Above(events, lo) == Above(log, lo)
  }

  lemma {:induction false} AboveFront(log: seq<Hit>, lo: int)
    requires log != []
    ensures Above(log, lo) == (if log[0].ts > lo then log[0].count else 0) + Above(log[1..], lo)
  {
    if |log| > 1 {
      var n := |log| - 1;
      AboveFront(log[..n], lo);
      assert log[1..][..n - 1] == log[..n][1..];
    } else {
      assert log[1..] == [] && log[..0] == [];
    }
  }

  lemma {:induction false} AboveAnti(log: seq<Hit>, lo: int, lo': int)
    requires lo <= lo'
    ensures Above(log, lo') <= Above(log, lo)
  {
    if log != [] { AboveAnti(log[..|log| - 1], lo, lo'); }
  }

  lemma {:induction false} AboveSame(log: seq<Hit>, lo: int, lo': int)
    requires forall i | 0 <= i < |log| :: log[i].ts > lo <==> log[i].ts > lo'
    ensures Above(log, lo) == Above(log, lo')
  {
    if log != [] { AboveSame(log[..|log| - 1], lo, lo'); }
  }

  lemma {:induction false} BetweenIsAbove(log: seq<Hit>, lo: int, hi: int)
    requires forall i | 0 <= i < |log| :: log[i].ts <= hi
    ensures Between(log, lo, hi) == Above(log, lo)
  {
    if log != [] { BetweenIsAbove(log[..|log| - 1], lo, hi); }
  }

  /** Pruning keeps the bucket exact and forgets only hits at or before the cutoff. */
  lemma {:induction false} PruneFaithful(w: Window, log: seq<Hit>, max: u32, cut: nat, now: nat, cut': nat)
    requires Faithful(w, log, max, cut, now) && cut <= cut'
    ensures var p := Prune(w, cut');
            && Faithful(p, log, max, cut', now)
            && p.total == Above(log, cut')
            && (forall i | 0 <= i < |p.events| :: p.events[i].ts > cut')
    decreases |w.events|
  {
    if w.events == [] || w.events[0].ts > cut' {
      AboveSame(w.events, -1, cut');
      assert Agree(w.events, log, cut');
    } else {
      var v := w.(events := w.events[1..], total := SatSub(w.total, w.events[0].count));
      AboveFront(w.events, -1);
      forall lo: int | lo >= cut' ensures Agree(v.events, log, lo) {
        assert Agree(w.events, log, lo);
        AboveFront(w.events, lo);
      }
      PruneFaithful(v, log, max, cut', now, cut');
    }
  }

  lemma {:induction false} PushAbove(w: Window, now: u64, cost: u32, lo: int)
    requires w.total == Sum(w.events) && w.total + cost <= U32_MAX
    ensures Above(PushHit(w, now, cost).events, lo) == Above(w.events, lo) + (if now > lo then cost else 0)
  {
    var n := |w.events|;
    var p := PushHit(w, now, cost);
    if n > 0 && w.events[n - 1].ts == now {
      CountAtMostSum(w.events, n - 1);
      assert p.events[..n - 1] == w.events[..n - 1];
    } else {
      assert p.events[..n] == w.events;
    }
  }

  lemma {:induction false} AboveAppend(log: seq<Hit>, hit: Hit, lo: int)
    ensures Above(log + [hit], lo) == Above(log, lo) + (if hit.ts > lo then hit.count else 0)
  {
    assert (log + [hit])[..|log|] == log;
  }

  lemma PushStamped(w: Window, now: u64, cost: u32)
    requires Stamped(w.events, now) && now > 0 && cost > 0
    ensures Stamped(PushHit(w, now, cost).events, now)
  {}

  lemma PushExact(w: Window, max: u32, now: u64, cost: u32)
    requires ExactTotal(w, max) && Stamped(w.events, now) && now > 0 && w.total + cost <= max < U32_MAX
    ensures ExactTotal(PushHit(w, now, cost), max)
  {
    PushAbove(w, now, cost, -1);
  }

  lemma LogAppended(log: seq<Hit>, now: nat, hit: Hit)
    requires Logged(log, now) && 0 < hit.ts <= now
    ensures Logged(log + [hit], now)
  {}

  lemma PushAgrees(w: Window, log: seq<Hit>, cut: nat, now: u64, cost: u32)
    requires w.total == Sum(w.events) && w.total + cost <= U32_MAX && Agrees(w.events, log, cut)
    ensures Agrees(PushHit(w, now, cost).events, log + [Hit(now, cost)], cut)
  {
    forall lo: int | lo >= cut ensures Agree(PushHit(w, now, cost).events, log + [Hit(now, cost)], lo) {
      assert Agree(w.events, log, lo);
      PushAbove(w, now, cost, lo);
      AboveAppend(log, Hit(now, cost), lo);
    }
  }

  lemma PushFaithful(w: Window, log: seq<Hit>, max: u32, cut: nat, now: u64, cost: u32)
    requires Faithful(w, log, max, cut, now) && w.total + cost <= max < U32_MAX && now > 0 && cost > 0
    ensures Faithful(PushHit(w, now, cost), log + [Hit(now, cost)], max, cut, now)
  {
    PushExact(w, max, now, cost);
    PushStamped(w, now, cost);
    LogAppended(log, now, Hit(now, cost));
    PushAgrees(w, log, cut, now, cost);
  }

  lemma {:induction false} CountAtMostSum(events: seq<Hit>, i: nat)
    requires i < |events|
    ensures events[i].count <= Sum(events)
  {
    if i < |events| - 1 { CountAtMostSum(events[..|events| - 1], i); }
  }

  // ----- every run -----

  function LastNow(calls: seq<Call>): nat {
    if calls == [] then 0 else calls[|calls| - 1].now
  }

  /** The log after one more check. */
  function Extended(log: seq<Hit>, w: Window, max: u32, windowSecs: u32, cost: u32, now: u64): seq<Hit> {
    if Allows(w, max, windowSecs, cost, now) then log + [Hit(now, AtLeastOne(cost))] else log
  }

  /** Pruning up to `cut'` and, if it fits, one more hit. */
  lemma {:induction false} ChargeFaithful(w: Window, log: seq<Hit>, limit: u32, cut: nat, before: nat, cut': nat,
                                          now: u64, c: u32)
    requires limit < U32_MAX && c > 0 && now > 0 && before <= now && cut <= cut' < now
    requires Faithful(w, log, limit, cut, before)
    ensures var pruned := Prune(w, cut').(lastSeen := now);
            && pruned.total == Above(log, cut') && Faithful(pruned, log, limit, cut', now)
            && (pruned.total + c <= limit ==>
                  var pushed := PushHit(pruned, now, c);
                  Faithful(pushed, log + [Hit(now, c)], limit, cut', now)
                  && pushed.total == Above(log + [Hit(now, c)], cut'))
  {
    PruneFaithful(w, log, limit, cut, before, cut');
    var pruned := Prune(w, cut').(lastSeen := now);
    assert Faithful(pruned, log, limit, cut', now);
    if pruned.total + c <= limit {
      PushFaithful(pruned, log, limit, cut', now, c);
      AboveAppend(log, Hit(now, c), cut');
    }
  }

  lemma {:induction false} CheckFaithful(w: Window, log: seq<Hit>, max: u32, windowSecs: u32, cost: u32, now: u64,
                                         cut: nat, before: nat)
    requires AtLeastOne(max) < U32_MAX && now > 0 && before <= now
    requires Faithful(w, log, AtLeastOne(max), cut, before) && cut <= SatSub(now, WindowMs(windowSecs))
    ensures Allows(w, max, windowSecs, cost, now)
            <==> Above(log, SatSub(now, WindowMs(windowSecs))) + AtLeastOne(cost) <= AtLeastOne(max)
    ensures Faithful(Next(w, max, windowSecs, cost, now), Extended(log, w, max, windowSecs, cost, now), AtLeastOne(max),
                     SatSub(now, WindowMs(windowSecs)), now)
    ensures Next(w, max, windowSecs, cost, now).total
            == Above(Extended(log, w, max, windowSecs, cost, now), SatSub(now, WindowMs(windowSecs)))
  {
    ChargeFaithful(w, log, AtLeastOne(max), cut, before, SatSub(now, WindowMs(windowSecs)), now, AtLeastOne(cost));
  }

  lemma {:induction false} RunFaithful(calls: seq<Call>, max: u32, windowSecs: u32)
    requires Clocked(calls) && AtLeastOne(max) < U32_MAX
    ensures Faithful(Run(calls, max, windowSecs), Admitted(calls, max, windowSecs), AtLeastOne(max),
                     SatSub(LastNow(calls), WindowMs(windowSecs)), LastNow(calls))
  {
    if calls != [] {
      var n := |calls| - 1;
      ClockedBefore(calls, n);
      RunFaithful(calls[..n], max, windowSecs);
      CheckFaithful(Run(calls[..n], max, windowSecs), Admitted(calls[..n], max, windowSecs), max, windowSecs,
                    calls[n].cost, calls[n].now, SatSub(LastNow(calls[..n]), WindowMs(windowSecs)), LastNow(calls[..n]));
      NextIsCheck(calls, max, windowSecs);
    }
  }

  /** State and log after one more call. */
  lemma {:induction false} NextIsCheck(calls: seq<Call>, max: u32, windowSecs: u32)
    requires calls != []
    ensures var n := |calls| - 1;
            && Run(calls, max, windowSecs)
               == Next(Run(calls[..n], max, windowSecs), max, windowSecs, calls[n].cost, calls[n].now)
            && Admitted(calls, max, windowSecs)
               == Extended(Admitted(calls[..n], max, windowSecs), Run(calls[..n], max, windowSecs), max, windowSecs,
                           calls[n].cost, calls[n].now)
  {}

  lemma {:induction false} CheckDecides(w: Window, log: seq<Hit>, max: u32, windowSecs: u32, cost: u32, now: u64,
                                        cut: nat, before: nat)
    requires AtLeastOne(max) < U32_MAX && now > 0 && before <= now
    requires Faithful(w, log, AtLeastOne(max), cut, before) && cut <= SatSub(now, WindowMs(windowSecs))
    ensures var used := Above(log, now - WindowMs(windowSecs)) + AtLeastOne(cost);
            && (Allows(w, max, windowSecs, cost, now) <==> used <= AtLeastOne(max))
            && (used <= AtLeastOne(max) ==> Next(w, max, windowSecs, cost, now).total == used)
  {
    CheckFaithful(w, log, max, windowSecs, cost, now, cut, before);
    SaturationHarmless(log, now, WindowMs(windowSecs));
    AboveAppend(log, Hit(now, AtLeastOne(cost)), SatSub(now, WindowMs(windowSecs)));
  }

  lemma {:induction false} RunStamps(calls: seq<Call>, max: u32, windowSecs: u32)
    requires Clocked(calls) && AtLeastOne(max) < U32_MAX
    ensures Logged(Admitted(calls, max, windowSecs), LastNow(calls))
  {
    RunFaithful(calls, max, windowSecs);
  }

  /** What the invariant says about the next check, in terms of the log alone. */
  lemma {:induction false} NextDecision(calls: seq<Call>, call: Call, max: u32, windowSecs: u32)
    requires Clocked(calls) && AtLeastOne(max) < U32_MAX && call.now > 0 && LastNow(calls) <= call.now
    ensures var used := Above(Admitted(calls, max, windowSecs), call.now - WindowMs(windowSecs)) + AtLeastOne(call.cost);
            var w := Run(calls, max, windowSecs);
            && (Allows(w, max, windowSecs, call.cost, call.now) <==> used <= AtLeastOne(max))
            && (used <= AtLeastOne(max) ==> Next(w, max, windowSecs, call.cost, call.now).total == used)
  {
    RunFaithful(calls, max, windowSecs);
    LaterCut(LastNow(calls), call.now, WindowMs(windowSecs));
    CheckDecides(Run(calls, max, windowSecs), Admitted(calls, max, windowSecs), max, windowSecs, call.cost, call.now,
                 SatSub(LastNow(calls), WindowMs(windowSecs)), LastNow(calls));
  }

  lemma LaterCut(before: nat, now: nat, ms: nat)
    requires before <= now
    ensures SatSub(before, ms) <= SatSub(now, ms)
  {}

  /** Hits are later than zero, so a saturated cutoff and a negative one select the same hits. */
  lemma {:induction false} SaturationHarmless(log: seq<Hit>, now: u64, windowMs: u64)
    requires forall i | 0 <= i < |log| :: log[i].ts > 0
    ensures Above(log, now - windowMs) == Above(log, SatSub(now, windowMs))
  {
    AboveSame(log, now - windowMs, SatSub(now, windowMs));
  }

  /**
   The bucket decides like the full log: a call is admitted exactly when its cost still fits beside
   everything admitted in the window that ends now, and `remaining` is what is left of the limit.
   */
  lemma {:induction false} DecisionIsExact(calls: seq<Call>, call: Call, max: u32, windowSecs: u32)
    requires Clocked(calls + [call]) && AtLeastOne(max) < U32_MAX
    ensures var d := Decide(Run(calls, max, windowSecs), max, windowSecs, call.cost, call.now);
            var used := Between(Admitted(calls, max, windowSecs), call.now - WindowMs(windowSecs), call.now);
            && (d.allowed <==> used + AtLeastOne(call.cost) <= AtLeastOne(max))
            && d.remaining == (if d.allowed then AtLeastOne(max) - used - AtLeastOne(call.cost) else 0)
  {
    ClockedPrefix(calls, call);
    NextDecision(calls, call, max, windowSecs);
    UsedIsAbove(calls, call.now, max, windowSecs);
    DecideReads(Run(calls, max, windowSecs), max, windowSecs, call.cost, call.now);
  }

  lemma UsedIsAbove(calls: seq<Call>, now: u64, max: u32, windowSecs: u32)
    requires Clocked(calls) && AtLeastOne(max) < U32_MAX && LastNow(calls) <= now
    ensures var log, lo := Admitted(calls, max, windowSecs), now - WindowMs(windowSecs);
            Between(log, lo, now) == Above(log, lo)
  {
    RunStamps(calls, max, windowSecs);
    var log := Admitted(calls, max, windowSecs);
    BetweenIsAbove(log, now - WindowMs(windowSecs), now);
  }

  lemma DecideReads(w: Window, max: u32, windowSecs: u32, cost: u32, now: u64)
    ensures var d := Decide(w, max, windowSecs, cost, now);
            && (d.allowed <==> Allows(w, max, windowSecs, cost, now))
            && d.remaining == if d.allowed then SatSub(AtLeastOne(max), Next(w, max, windowSecs, cost, now).total) else 0
  {}

  lemma ClockedPrefix(calls: seq<Call>, call: Call)
    requires Clocked(calls + [call])
    ensures Clocked(calls) && call.now > 0 && LastNow(calls) <= call.now
  {
    var all := calls + [call];
    assert all[..|calls|] == calls;
    ClockedInit(all, |calls|);
    assert Ticks(all, |calls|);
  }

  lemma ClockedInit(calls: seq<Call>, n: nat)
    requires Clocked(calls) && n <= |calls|
    ensures Clocked(calls[..n])
  {
    forall i | 0 <= i < n ensures Ticks(calls[..n], i) {
      assert Ticks(calls, i) && calls[..n][..i] == calls[..i];
    }
  }

  lemma ClockedBefore(calls: seq<Call>, i: nat)
    requires Clocked(calls) && i < |calls|
    ensures Clocked(calls[..i]) && calls[i].now > 0 && LastNow(calls[..i]) <= calls[i].now
  {
    ClockedInit(calls, i);
    assert Ticks(calls, i);
  }

  /** One more admitted hit keeps every window within the limit. */
  lemma AppendBound(log: seq<Hit>, hit: Hit, limit: nat, windowMs: nat, end: int)
    requires forall i | 0 <= i < |log| :: log[i].ts <= hit.ts
    requires Above(log, hit.ts - windowMs) + hit.count <= limit
    requires Between(log, end - windowMs, end) <= limit
    ensures Between(log + [hit], end - windowMs, end) <= limit
  {
    var all := log + [hit];
    assert all[..|log|] == log;
    if end >= hit.ts {
      BetweenIsAbove(all, end - windowMs, end);
      AboveAnti(all, hit.ts - windowMs, end - windowMs);
    }
  }

  /** Each hit of the log fits the limit together with the earlier hits in its window. */
  ghost predicate GoodLog(log: seq<Hit>, limit: nat, windowMs: nat) {
    forall k | 0 <= k < |log| :: Fits(log[..k], log[k], limit, windowMs)
  }

  ghost predicate Fits(log: seq<Hit>, hit: Hit, limit: nat, windowMs: nat) {
    && Above(log, hit.ts - windowMs) + hit.count <= limit
    && forall i | 0 <= i < |log| :: log[i].ts <= hit.ts
  }

  lemma {:induction false} GoodLogBound(log: seq<Hit>, limit: nat, windowMs: nat, end: int)
    requires GoodLog(log, limit, windowMs)
    ensures Between(log, end - windowMs, end) <= limit
  {
    if log != [] {
      var n := |log| - 1;
      forall k | 0 <= k < n ensures Fits(log[..n][..k], log[..n][k], limit, windowMs) {
        assert log[..n][..k] == log[..k] && Fits(log[..k], log[k], limit, windowMs);
      }
      GoodLogBound(log[..n], limit, windowMs, end);
      assert Fits(log[..n], log[n], limit, windowMs);
      AppendBound(log[..n], log[n], limit, windowMs, end);
      assert log == log[..n] + [log[n]];
    }
  }

  lemma GoodLogAppend(log: seq<Hit>, hit: Hit, limit: nat, windowMs: nat)
    requires GoodLog(log, limit, windowMs) && Fits(log, hit, limit, windowMs)
    ensures GoodLog(log + [hit], limit, windowMs)
  {
    var all := log + [hit];
    forall k | 0 <= k < |all| ensures Fits(all[..k], all[k], limit, windowMs) {
      assert all[..k] == log[..k];
      if k == |log| { assert log[..k] == log; }
    }
  }

  lemma {:induction false} AdmittedStep(calls: seq<Call>, max: u32, windowSecs: u32)
    requires calls != [] && Clocked(calls) && AtLeastOne(max) < U32_MAX
    ensures var n := |calls| - 1;
            var before, hit := Admitted(calls[..n], max, windowSecs), Hit(calls[n].now, AtLeastOne(calls[n].cost));
            || Admitted(calls, max, windowSecs) == before
            || (&& Admitted(calls, max, windowSecs) == before + [hit]
                && Fits(before, hit, AtLeastOne(max), WindowMs(windowSecs)))
  {
    var n := |calls| - 1;
    ClockedBefore(calls, n);
    NextIsCheck(calls, max, windowSecs);
    if Allowed(calls, n, max, windowSecs) { AdmittedFits(calls[..n], calls[n], max, windowSecs); }
  }

  lemma {:induction false} AdmittedFits(calls: seq<Call>, call: Call, max: u32, windowSecs: u32)
    requires Clocked(calls) && AtLeastOne(max) < U32_MAX && call.now > 0 && LastNow(calls) <= call.now
    requires Allows(Run(calls, max, windowSecs), max, windowSecs, call.cost, call.now)
    ensures Fits(Admitted(calls, max, windowSecs), Hit(call.now, AtLeastOne(call.cost)), AtLeastOne(max), WindowMs(windowSecs))
  {
    RunStamps(calls, max, windowSecs);
    NextDecision(calls, call, max, windowSecs);
  }

  lemma {:induction false} RunGoodLog(calls: seq<Call>, max: u32, windowSecs: u32)
    requires Clocked(calls) && AtLeastOne(max) < U32_MAX
    ensures GoodLog(Admitted(calls, max, windowSecs), AtLeastOne(max), WindowMs(windowSecs))
  {
    if calls != [] {
      var n := |calls| - 1;
      ClockedBefore(calls, n);
      RunGoodLog(calls[..n], max, windowSecs);
      AdmittedStep(calls, max, windowSecs);
      var before := Admitted(calls[..n], max, windowSecs);
      if Admitted(calls, max, windowSecs) != before {
        GoodLogAppend(before, Hit(calls[n].now, AtLeastOne(calls[n].cost)), AtLeastOne(max), WindowMs(windowSecs));
      }
    }
  }

  /** In every window of the configured length, wherever it ends, at most the limit is admitted. */
  lemma WindowBound(calls: seq<Call>, max: u32, windowSecs: u32, end: int)
    requires Clocked(calls) && AtLeastOne(max) < U32_MAX
    ensures Between(Admitted(calls, max, windowSecs), end - WindowMs(windowSecs), end) <= AtLeastOne(max)
  {
    RunGoodLog(calls, max, windowSecs);
    GoodLogBound(Admitted(calls, max, windowSecs), AtLeastOne(max), WindowMs(windowSecs), end);
  }

  lemma {:induction false} BetweenPair(hit: Hit, lo: int, hi: int)
    requires lo < hit.ts <= hi
    ensures Between([hit, hit], lo, hi) == 2 * hit.count
  {
    assert [hit, hit][..1] == [hit] && [hit][..0] == [];
    assert Between([hit], lo, hi) == hit.count;
  }

  /** Two equal calls that are both admitted leave two equal hits in the log. */
  lemma {:induction false} AdmittedPair(call: Call, max: u32, windowSecs: u32)
    requires Allows(FRESH, max, windowSecs, call.cost, call.now)
    requires Allows(Next(FRESH, max, windowSecs, call.cost, call.now), max, windowSecs, call.cost, call.now)
    ensures var hit := Hit(call.now, AtLeastOne(call.cost));
            Admitted([call, call], max, windowSecs) == [hit, hit]
  {
    assert [call, call][..1] == [call] && |[call][..0]| == 0;
    NextIsCheck([call], max, windowSecs);
    NextIsCheck([call, call], max, windowSecs);
  }

  /** Cost admitted in the window that ends at `end`. */
  function Load(calls: seq<Call>, max: u32, windowSecs: u32, end: int): nat {
    Between(Admitted(calls, max, windowSecs), end - WindowMs(windowSecs), end)
  }

  /** A clock that starts at `start` or later and never runs backwards. */
  predicate ClockedFrom(calls: seq<Call>, start: u64) {
    forall i | 0 <= i < |calls| :: TicksFrom(calls, i, start)
  }

  predicate TicksFrom(calls: seq<Call>, i: nat, start: u64)
    requires i < |calls|
  {
    calls[i].now >= start && LastNow(calls[..i]) <= calls[i].now
  }

  ghost predicate Limits(start: u64, max: u32, windowSecs: u32) {
    forall calls, end: int | ClockedFrom(calls, start) :: Load(calls, max, windowSecs, end) <= AtLeastOne(max)
  }

  /** A limit of 2^32-1 is no limit at all: saturation admits everything. */
  lemma UnlimitedAtTop(now: u64, windowSecs: u32)
    requires now > 0
    ensures Load([Call(now, U32_MAX), Call(now, U32_MAX)], U32_MAX, windowSecs, now) == 2 * U32_MAX
  {
    var windowMs := WindowMs(windowSecs);
    assert Next(FRESH, U32_MAX, windowSecs, U32_MAX, now) == Window([Hit(now, U32_MAX)], U32_MAX, now);
    assert SatSub(now, windowMs) < now;
    AdmittedPair(Call(now, U32_MAX), U32_MAX, windowSecs);
    BetweenPair(Hit(now, U32_MAX), now - windowMs, now);
  }

  /** With the clock stuck at zero every check prunes the previous hit, so any limit is exceeded. */
  lemma UnlimitedAtZero(max: u32, windowSecs: u32)
    ensures Load([Call(0, max), Call(0, max)], max, windowSecs, 0) == 2 * AtLeastOne(max)
  {
    var limit := AtLeastOne(max);
    assert Next(FRESH, max, windowSecs, max, 0) == Window([Hit(0, limit)], limit, 0);
    assert Prune(Window([Hit(0, limit)], limit, 0), 0) == Window([], 0, 0);
    AdmittedPair(Call(0, max), max, windowSecs);
    BetweenPair(Hit(0, limit), 0 - WindowMs(windowSecs), 0);
  }

  /** The window bound holds over every run from `start` on exactly for a positive start and limits below 2^32-1. */
  lemma LimitsExactly(start: u64, max: u32, windowSecs: u32)
    ensures Limits(start, max, windowSecs) <==> start >= 1 && max < U32_MAX
  {
    if start == 0 {
      UnlimitedAtZero(max, windowSecs);
      PairClocked(Call(0, max), 0);
    } else if max == U32_MAX {
      UnlimitedAtTop(start, windowSecs);
      PairClocked(Call(start, U32_MAX), start);
    } else {
      forall calls, end: int | ClockedFrom(calls, start) ensures Load(calls, max, windowSecs, end) <= AtLeastOne(max) {
        ClockedLater(calls, start);
        WindowBound(calls, max, windowSecs, end);
      }
    }
  }

  lemma ClockedLater(calls: seq<Call>, start: u64)
    requires ClockedFrom(calls, start) && start >= 1
    ensures Clocked(calls)
  {
    forall i | 0 <= i < |calls| ensures Ticks(calls, i) { assert TicksFrom(calls, i, start); }
  }

  lemma PairClocked(call: Call, start: u64)
    requires call.now == start
    ensures ClockedFrom([call, call], start)
  {
    assert [call, call][..1] == [call] && [call, call][..0] == [];
  }

  // ----- the advertised retry time -----

  predicate AllDenied(calls: seq<Call>, from: nat, max: u32, windowSecs: u32) {
    forall i | from <= i < |calls| :: !Allowed(calls, i, max, windowSecs)
  }

  lemma {:induction false} DeniedAddNothing(calls: seq<Call>, from: nat, max: u32, windowSecs: u32)
    requires from <= |calls| && AllDenied(calls, from, max, windowSecs)
    ensures Admitted(calls, max, windowSecs) == Admitted(calls[..from], max, windowSecs)
  {
    if from < |calls| {
      var n := |calls| - 1;
      forall i | from <= i < n ensures !Allowed(calls[..n], i, max, windowSecs) {
        assert calls[..n][..i] == calls[..i] && !Allowed(calls, i, max, windowSecs);
      }
      DeniedAddNothing(calls[..n], from, max, windowSecs);
      assert calls[..n][..from] == calls[..from];
      assert !Allowed(calls, n, max, windowSecs);
    } else {
      assert calls[..from] == calls;
    }
  }

  /** Past the reset time the oldest hit of a full bucket has left the window. */
  lemma {:induction false} FrontExpires(w: Window, log: seq<Hit>, max: u32, cut: nat, now: nat, later: int)
    requires Faithful(w, log, max, cut, now) && w.events != [] && later >= w.events[0].ts
    requires forall i | 0 <= i < |w.events| :: w.events[i].ts > cut
    ensures Above(log, later) < w.total
  {
    AboveFront(w.events, w.events[0].ts);
    AboveFront(w.events, -1);
    AboveAnti(w.events, w.events[0].ts, later);
    AboveAnti(w.events[1..], -1, w.events[0].ts);
    assert Agree(w.events, log, later);
  }

  /** Before its oldest hit leaves, everything in the bucket still counts. */
  lemma {:induction false} FrontStays(w: Window, log: seq<Hit>, max: u32, cut: nat, now: nat, later: int)
    requires Faithful(w, log, max, cut, now) && later >= cut
    requires forall i | 0 <= i < |w.events| :: w.events[i].ts > later
    ensures Above(log, later) == w.total
  {
    assert Agree(w.events, log, later);
    AboveSame(w.events, -1, later);
  }

  /** All hits that a check leaves in the bucket are in the window that ends now. */
  lemma NextInWindow(w: Window, log: seq<Hit>, max: u32, windowSecs: u32, cost: u32, now: u64, cut: nat, before: nat)
    requires now > 0 && Faithful(w, log, AtLeastOne(max), cut, before) && cut <= SatSub(now, WindowMs(windowSecs))
    ensures var next := Next(w, max, windowSecs, cost, now);
            forall i | 0 <= i < |next.events| :: next.events[i].ts > SatSub(now, WindowMs(windowSecs))
  {
    PruneFaithful(w, log, AtLeastOne(max), cut, before, SatSub(now, WindowMs(windowSecs)));
  }

  /** Bucket and log once `call` has been answered. */
  lemma {:induction false} AfterCheck(calls: seq<Call>, call: Call, max: u32, windowSecs: u32)
    requires Clocked(calls + [call]) && AtLeastOne(max) < U32_MAX
    ensures var next := Next(Run(calls, max, windowSecs), max, windowSecs, call.cost, call.now);
            var cut := SatSub(call.now, WindowMs(windowSecs));
            && Faithful(next, Admitted(calls + [call], max, windowSecs), AtLeastOne(max), cut, call.now)
            && forall i | 0 <= i < |next.events| :: next.events[i].ts > cut
  {
    ClockedPrefix(calls, call);
    RunFaithful(calls, max, windowSecs);
    RunFaithful(calls + [call], max, windowSecs);
    NextIsCheck(calls + [call], max, windowSecs);
    assert (calls + [call])[..|calls|] == calls;
    NextInWindow(Run(calls, max, windowSecs), Admitted(calls, max, windowSecs), max, windowSecs, call.cost, call.now,
                 SatSub(LastNow(calls), WindowMs(windowSecs)), LastNow(calls));
  }

  /** The least whole number of seconds, at least one, that reaches the reset. */
  lemma RetryRounds(now: u64, resetAt: u64)
    ensures var r := RetryAfterSecs(now, resetAt);
            r >= 1 && now + 1000 * r >= resetAt && (r > 1 ==> now + 1000 * (r - 1) < resetAt)
  {}

  /** What counts against a caller at `later`, once `call` has been answered. */
  function UsedAt(calls: seq<Call>, call: Call, max: u32, windowSecs: u32, later: int): nat {
    Counts(Admitted(calls + [call], max, windowSecs), later, WindowMs(windowSecs))
  }

  /** Cost of the hits in a window of `ms` milliseconds that ends at `at`. */
  function Counts(log: seq<Hit>, at: int, ms: nat): nat {
    Above(log, at - ms)
  }

  /** A bucket on the time line: what its advertised reset means for the log it agrees with. */
  lemma ResetOfBucket(w: Window, log: seq<Hit>, limit: u32, now: u64, ms: nat)
    requires Faithful(w, log, limit, SatSub(now, ms), now) && now + ms <= U64_MAX && ms > 0
    requires forall i | 0 <= i < |w.events| :: w.events[i].ts > SatSub(now, ms)
    ensures var reset := ResetAt(w, now, ms);
            && reset > now && Counts(log, now, ms) == w.total
            && (forall later: int | now <= later < reset :: Counts(log, later, ms) == w.total)
            && (if w.total > 0 then Counts(log, reset, ms) < w.total else reset == now + ms)
  {
    var cut := SatSub(now, ms);
    LateLog(log, now, ms);
    FrontStays(w, log, limit, cut, now, cut);
    if w.events != [] {
      forall later: int | now <= later < w.events[0].ts + ms ensures Counts(log, later, ms) == w.total {
        assert forall i | 0 < i < |w.events| :: w.events[0].ts < w.events[i].ts;
        LateLog(log, later, ms);
        FrontStays(w, log, limit, cut, now, SatSub(later, ms));
      }
      FrontExpires(w, log, limit, cut, now, w.events[0].ts);
    } else {
      forall later: int | now <= later ensures Counts(log, later, ms) == 0 {
        AboveAnti(log, now - ms, later - ms);
      }
    }
  }

  lemma {:induction false} LateLog(log: seq<Hit>, later: nat, ms: nat)
    requires forall i | 0 <= i < |log| :: log[i].ts > 0
    ensures Above(log, later - ms) == Above(log, SatSub(later, ms))
  {
    AboveSame(log, later - ms, SatSub(later, ms));
  }

  /**
   The advertised reset is the first instant at which something that counts has left the window, or a
   full window from now if nothing counts; the advertised delay is the least whole number of seconds
   that reaches it.
   */
  lemma {:induction false} ResetIsFirst(calls: seq<Call>, call: Call, max: u32, windowSecs: u32)
    requires Clocked(calls + [call]) && max < U32_MAX && call.now + WindowMs(windowSecs) <= U64_MAX
    ensures var d := Decide(Run(calls, max, windowSecs), max, windowSecs, call.cost, call.now);
            var used := UsedAt(calls, call, max, windowSecs, call.now);
            && d.resetAt > call.now
            && (forall later: int | call.now <= later < d.resetAt :: UsedAt(calls, call, max, windowSecs, later) == used)
            && (if used > 0 then UsedAt(calls, call, max, windowSecs, d.resetAt) < used
                else d.resetAt == call.now + WindowMs(windowSecs))
            && (if d.allowed then d.retryAfter == 0
                else call.now + 1000 * (d.retryAfter - 1) < d.resetAt <= call.now + 1000 * d.retryAfter)
            && d.now == call.now && d.limit == (if max == 0 then 1 else max)
  {
    AfterCheck(calls, call, max, windowSecs);
    ResetOfBucket(Next(Run(calls, max, windowSecs), max, windowSecs, call.cost, call.now),
                  Admitted(calls + [call], max, windowSecs), AtLeastOne(max), call.now, WindowMs(windowSecs));
  }

  /**
   A caller denied by the check at position `i` for a cost of one is denied again at any time before the
   last advertised second, with nothing admitted in between.
   */
  lemma {:induction false} RetryNeeded(calls: seq<Call>, i: nat, again: Call, max: u32, windowSecs: u32)
    requires i < |calls| && Clocked(calls + [again]) && max < U32_MAX && calls[i].cost <= 1
    requires AllDenied(calls, i, max, windowSecs) && calls[i].now + WindowMs(windowSecs) <= U64_MAX
    requires again.now <= calls[i].now
                          + 1000 * (Decide(Run(calls[..i], max, windowSecs), max, windowSecs, calls[i].cost, calls[i].now).retryAfter - 1)
    ensures !Decide(Run(calls, max, windowSecs), max, windowSecs, again.cost, again.now).allowed
  {
    ClockedPrefix(calls, again);
    ClockedInit(calls, i + 1);
    LaterNow(calls, i);
    assert calls[..i + 1] == calls[..i] + [calls[i]] && !Allowed(calls, i, max, windowSecs);
    StillFull(calls[..i], calls[i], again.now, max, windowSecs);
    DeniedAddNothing(calls, i, max, windowSecs);
    NextDecision(calls, again, max, windowSecs);
  }

  /** Before the last advertised second the log of a denied caller is as full as it was. */
  lemma StillFull(calls: seq<Call>, call: Call, later: u64, max: u32, windowSecs: u32)
    requires Clocked(calls + [call]) && max < U32_MAX && call.cost <= 1 && call.now + WindowMs(windowSecs) <= U64_MAX
    requires var d := Decide(Run(calls, max, windowSecs), max, windowSecs, call.cost, call.now);
             !d.allowed && call.now <= later <= call.now + 1000 * (d.retryAfter - 1)
    ensures Above(Admitted(calls, max, windowSecs), later - WindowMs(windowSecs)) >= AtLeastOne(max)
  {
    ClockedPrefix(calls, call);
    ResetIsFirst(calls, call, max, windowSecs);
    DeniedLog(calls, call, max, windowSecs);
    assert UsedAt(calls, call, max, windowSecs, later) == UsedAt(calls, call, max, windowSecs, call.now);
    NextDecision(calls, call, max, windowSecs);
  }

  lemma {:induction false} DeniedLog(calls: seq<Call>, call: Call, max: u32, windowSecs: u32)
    requires !Allows(Run(calls, max, windowSecs), max, windowSecs, call.cost, call.now)
    ensures Admitted(calls + [call], max, windowSecs) == Admitted(calls, max, windowSecs)
  {
    NextIsCheck(calls + [call], max, windowSecs);
    assert (calls + [call])[..|calls|] == calls;
  }

  lemma {:induction false} LaterNow(calls: seq<Call>, i: nat)
    requires Clocked(calls) && i < |calls|
    ensures calls[i].now <= LastNow(calls)
  {
    var n := |calls| - 1;
    if i < n {
      ClockedBefore(calls, n);
      LaterNow(calls[..n], i);
    }
  }

  /**
   A caller of cost one, denied by the check at position `i`, who comes back after the advertised
   number of seconds with nothing admitted in between, is admitted.
   */
  lemma {:induction false} RetryHonoured(calls: seq<Call>, i: nat, again: Call, max: u32, windowSecs: u32)
    requires i < |calls| && Clocked(calls + [again]) && AtLeastOne(max) < U32_MAX
    requires calls[i].cost <= 1 && again.cost <= 1
    requires AllDenied(calls, i, max, windowSecs)
    requires again.now >= calls[i].now
                          + 1000 * Decide(Run(calls[..i], max, windowSecs), max, windowSecs, calls[i].cost, calls[i].now).retryAfter
    requires calls[i].now + WindowMs(windowSecs) <= U64_MAX
    ensures Decide(Run(calls, max, windowSecs), max, windowSecs, again.cost, again.now).allowed
  {
    ClockedPrefix(calls, again);
    DeniedRoom(calls, i, again.now, max, windowSecs);
    NextDecision(calls, again, max, windowSecs);
  }

  lemma DeniedRoom(calls: seq<Call>, i: nat, later: u64, max: u32, windowSecs: u32)
    requires i < |calls| && Clocked(calls) && AtLeastOne(max) < U32_MAX && calls[i].cost <= 1
    requires AllDenied(calls, i, max, windowSecs)
    requires later >= calls[i].now
                      + 1000 * Decide(Run(calls[..i], max, windowSecs), max, windowSecs, calls[i].cost, calls[i].now).retryAfter
    requires calls[i].now + WindowMs(windowSecs) <= U64_MAX
    ensures Above(Admitted(calls, max, windowSecs), later - WindowMs(windowSecs)) < AtLeastOne(max)
  {
    assert !Allowed(calls, i, max, windowSecs);
    ClockedBefore(calls, i);
    DeniedFront(calls[..i], calls[i], later, max, windowSecs);
    DeniedAddNothing(calls, i, max, windowSecs);
  }

  /** At the advertised time the log of a denied caller has room again. */
  lemma DeniedFront(calls: seq<Call>, call: Call, later: u64, max: u32, windowSecs: u32)
    requires Clocked(calls) && AtLeastOne(max) < U32_MAX && call.now > 0 && LastNow(calls) <= call.now
    requires var d := Decide(Run(calls, max, windowSecs), max, windowSecs, call.cost, call.now);
             !d.allowed && later >= call.now + 1000 * d.retryAfter
    requires call.cost <= 1 && call.now + WindowMs(windowSecs) <= U64_MAX
    ensures Above(Admitted(calls, max, windowSecs), later - WindowMs(windowSecs)) < AtLeastOne(max)
  {
    RunFaithful(calls, max, windowSecs);
    var windowMs := WindowMs(windowSecs);
    var log, w := Admitted(calls, max, windowSecs), Run(calls, max, windowSecs);
    PruneFaithful(w, log, AtLeastOne(max), SatSub(LastNow(calls), windowMs), LastNow(calls), SatSub(call.now, windowMs));
    FrontExpires(PruneExpired(w, call.now, windowMs), log, AtLeastOne(max), SatSub(call.now, windowMs), LastNow(calls),
                 later - windowMs);
  }
}
