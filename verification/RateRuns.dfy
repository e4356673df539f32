/**
 Runs of the rate limiter over many keys: checks of different callers interleave, buckets are
 evicted and reset. What each caller is told depends on its own calls alone.
 */
module RateRuns {
  import opened Prelude
  import opened RateLimit
  import opened RateLimiter

  predicate Checks(op: Op, k: string) {
    op.OpCheck? && StorageKey(op.namespace, op.name) == k
  }

  predicate Resets(op: Op, k: string) {
    op.OpReset? && k in ResetKeys({k}, op.namespaceOnly, op.nameOnly)
  }

  /** The calls of `k`, after one more operation, since it was last reset. */
  function Own(calls: seq<Call>, op: Op, k: string): seq<Call> {
    if Resets(op, k) then [] else if Checks(op, k) then calls + [op.call] else calls
  }

  function Since(ops: seq<Op>, k: string): seq<Call> {
    if ops == [] then [] else Own(Since(ops[..|ops| - 1], k), ops[|ops| - 1], k)
  }

  /** Time of the latest check. */
  function LastTime(ops: seq<Op>): nat {
    if ops == [] then 0 else Later(LastTime(ops[..|ops| - 1]), ops[|ops| - 1])
  }

  function Later(time: nat, op: Op): nat {
    if op.OpCheck? then op.call.now else time
  }

  // ----- histories -----

  /** The operation meets the clock, and every check of `k` has the same limit and window. */
  predicate Proper(op: Op, time: nat, k: string, max: u32, windowSecs: u32) {
    && (op.OpCheck? ==> op.call.now > 0 && time <= op.call.now)
    && (Checks(op, k) ==> op.max == max && op.windowSecs == windowSecs)
  }

  function Recent(t: Table, now: u64): set<string> {
    set k | k in t && !Stale(t[k], now)
  }

  /** The table is within its cap, or what was used within the hour fits the eviction target. */
  predicate Roomy(t: Table, now: u64) {
    |t| <= MAX_RATE_LIMIT_ENTRIES || |Recent(t, now)| <= EVICTION_TARGET
  }

  ghost predicate StepAt(tables: seq<Table>, ops: seq<Op>, k: string, max: u32, windowSecs: u32, i: nat)
    requires |tables| == |ops| + 1 && i < |ops|
  {
    && Steps(tables[i], ops[i], tables[i + 1])
    && Proper(ops[i], LastTime(ops[..i]), k, max, windowSecs)
    && (ops[i].OpCheck? ==> Roomy(Charged(tables[i], ops[i]), ops[i].call.now))
  }

  /** The tables of a run from an empty limiter, as seen by the caller with key `k`. */
  ghost predicate History(tables: seq<Table>, ops: seq<Op>, k: string, max: u32, windowSecs: u32) {
    && |tables| == |ops| + 1 && tables[0] == map[]
    && forall i | 0 <= i < |ops| :: StepAt(tables, ops, k, max, windowSecs, i)
  }

  lemma HistoryPrefix(tables: seq<Table>, ops: seq<Op>, k: string, max: u32, windowSecs: u32, n: nat)
    requires History(tables, ops, k, max, windowSecs) && n <= |ops|
    ensures History(tables[..n + 1], ops[..n], k, max, windowSecs)
  {
    var front, first := tables[..n + 1], ops[..n];
    forall i | 0 <= i < n ensures StepAt(front, first, k, max, windowSecs, i) {
      assert StepAt(tables, ops, k, max, windowSecs, i) && first[..i] == ops[..i];
    }
  }

  // ----- eviction -----

  /** A bucket last used more than an hour ago holds nothing that a window of up to an hour still counts. */
  lemma {:induction false} StalePruned(calls: seq<Call>, max: u32, windowSecs: u32, now: u64)
    requires Clocked(calls) && AtLeastOne(max) < U32_MAX && windowSecs <= 3600
    requires LastNow(calls) + EVICT_STALE_THRESHOLD_MS < now
    ensures Pruned(Run(calls, max, windowSecs), windowSecs, now) == Pruned(FRESH, windowSecs, now)
  {
    RunFaithful(calls, max, windowSecs);
    PruneAll(Run(calls, max, windowSecs), AtLeastOne(max), SatSub(now, WindowMs(windowSecs)));
  }

  lemma {:induction false} PruneAll(w: Window, limit: u32, cutoff: nat)
    requires ExactTotal(w, limit) && forall i | 0 <= i < |w.events| :: w.events[i].ts <= cutoff
    ensures Prune(w, cutoff) == w.(events := [], total := 0)
    decreases |w.events|
  {
    if w.events != [] {
      AboveFront(w.events, -1);
      PruneAll(w.(events := w.events[1..], total := SatSub(w.total, w.events[0].count)), limit, cutoff);
    }
  }

  lemma SameWhenPruned(w: Window, v: Window, max: u32, windowSecs: u32, cost: u32, now: u64)
    requires Pruned(w, windowSecs, now) == Pruned(v, windowSecs, now)
    ensures Next(w, max, windowSecs, cost, now) == Next(v, max, windowSecs, cost, now)
    ensures Decide(w, max, windowSecs, cost, now) == Decide(v, max, windowSecs, cost, now)
  {}

  /** Dropping the bucket of a caller unseen for more than an hour never changes an answer. */
  ghost predicate EvictionHarmless(windowSecs: u32) {
    forall calls, call, max: u32 |
      Clocked(calls + [call]) && AtLeastOne(max) < U32_MAX && Stale(Run(calls, max, windowSecs), call.now) ::
      Forgotten(calls, call, max, windowSecs)
  }

  predicate Forgotten(calls: seq<Call>, call: Call, max: u32, windowSecs: u32) {
    Decide(Run(calls, max, windowSecs), max, windowSecs, call.cost, call.now)
    == Decide(FRESH, max, windowSecs, call.cost, call.now)
  }

  /** Evicting stale buckets is invisible exactly for windows of up to an hour. */
  lemma EvictionHarmlessExactly(windowSecs: u32)
    ensures EvictionHarmless(windowSecs) <==> windowSecs <= 3600
  {
    if windowSecs <= 3600 {
      forall calls, call, max: u32 |
        Clocked(calls + [call]) && AtLeastOne(max) < U32_MAX && Stale(Run(calls, max, windowSecs), call.now)
        ensures Forgotten(calls, call, max, windowSecs)
      {
        if calls != [] {
          ClockedPrefix(calls, call);
          LastSeen(calls, max, windowSecs);
          StalePruned(calls, max, windowSecs, call.now);
          SameWhenPruned(Run(calls, max, windowSecs), FRESH, max, windowSecs, call.cost, call.now);
        }
      }
    } else {
      LongWindowForgets(windowSecs);
    }
  }

  lemma {:induction false} LastSeen(calls: seq<Call>, max: u32, windowSecs: u32)
    requires calls != []
    ensures Run(calls, max, windowSecs).lastSeen == LastNow(calls)
  {
    var n := |calls| - 1;
    PruneKeeps(Run(calls[..n], max, windowSecs), SatSub(calls[n].now, WindowMs(windowSecs)));
  }

  lemma {:induction false} PruneKeeps(w: Window, cutoff: nat)
    ensures Prune(w, cutoff).lastSeen == w.lastSeen
    decreases |w.events|
  {
    if w.events != [] { PruneKeeps(w.(events := w.events[1..], total := SatSub(w.total, w.events[0].count)), cutoff); }
  }

  /** With a longer window a caller denied by its bucket is admitted once the bucket is gone. */
  lemma {:induction false} LongWindowForgets(windowSecs: u32)
    requires windowSecs > 3600
    ensures var calls, call := [Call(1, 1)], Call(3_600_002, 1);
            && Clocked(calls + [call]) && Stale(Run(calls, 1, windowSecs), call.now)
            && !Decide(Run(calls, 1, windowSecs), 1, windowSecs, 1, call.now).allowed
            && Decide(FRESH, 1, windowSecs, 1, call.now).allowed
            && !Forgotten(calls, call, 1, windowSecs)
  {
    var calls, call := [Call(1, 1)], Call(3_600_002, 1);
    assert calls[..0] == [] && (calls + [call])[..1] == calls && (calls + [call])[..0] == [];
    assert Run(calls, 1, windowSecs) == Next(FRESH, 1, windowSecs, 1, 1) == Window([Hit(1, 1)], 1, 1);
    assert SatSub(call.now, WindowMs(windowSecs)) == 0;
  }

  /** In a roomy table only stale buckets go. */
  lemma OnlyStaleGo(before: Table, after: Table, now: u64, k: string)
    requires Evicted(before, after, now) && Roomy(before, now) && k in before && k !in after
    ensures Stale(before[k], now)
  {
    if !Stale(before[k], now) {
      var rest := Recent(before, now) - {k};
      assert after.Keys <= rest;
      SmallerSet(after.Keys, rest);
    }
  }

  lemma {:induction false} SmallerSet(a: set<string>, b: set<string>)
    requires a <= b
    ensures |a| <= |b|
  {
    if a != {} {
      var x :| x in a;
      SmallerSet(a - {x}, b - {x});
    }
  }

  // ----- one caller among many -----

  /** The table holds the bucket of the caller's own calls, or has dropped it after an idle hour. */
  ghost predicate Tracks(t: Table, k: string, calls: seq<Call>, max: u32, windowSecs: u32, time: nat) {
    && Clocked(calls) && LastNow(calls) <= time
    && (k in t ==> calls != [] && t[k] == Run(calls, max, windowSecs))
    && (k !in t ==> calls == [] || LastNow(calls) + EVICT_STALE_THRESHOLD_MS < time)
  }

  /** Whether or not its bucket was dropped, the caller is answered as its own calls say. */
  lemma {:induction false} AnsweredByOwn(t: Table, k: string, calls: seq<Call>, call: Call, max: u32,
                                         windowSecs: u32, time: nat)
    requires Tracks(t, k, calls, max, windowSecs, time) && time <= call.now
    requires AtLeastOne(max) < U32_MAX && windowSecs <= 3600
    ensures var own := Run(calls, max, windowSecs);
            && Next(Bucket(t, k), max, windowSecs, call.cost, call.now) == Next(own, max, windowSecs, call.cost, call.now)
            && Decide(Bucket(t, k), max, windowSecs, call.cost, call.now) == Decide(own, max, windowSecs, call.cost, call.now)
  {
    if k !in t && calls != [] {
      StalePruned(calls, max, windowSecs, call.now);
      SameWhenPruned(Run(calls, max, windowSecs), FRESH, max, windowSecs, call.cost, call.now);
    }
  }

  lemma ClockedNext(calls: seq<Call>, call: Call)
    requires Clocked(calls) && call.now > 0 && LastNow(calls) <= call.now
    ensures Clocked(calls + [call]) && LastNow(calls + [call]) == call.now
  {
    var all := calls + [call];
    forall i | 0 <= i < |all| ensures Ticks(all, i) {
      assert all[..i] == calls[..i];
      if i < |calls| { assert Ticks(calls, i); } else { assert calls[..i] == calls; }
    }
  }

  /** The bucket of `k` in the table after a check, before eviction. */
  lemma ChargedTracks(t: Table, op: Op, k: string, calls: seq<Call>, max: u32, windowSecs: u32, time: nat)
    requires op.OpCheck? && Tracks(t, k, calls, max, windowSecs, time) && Proper(op, time, k, max, windowSecs)
    requires AtLeastOne(max) < U32_MAX && windowSecs <= 3600
    ensures Tracks(Charged(t, op), k, Own(calls, op, k), max, windowSecs, op.call.now)
  {
    if Checks(op, k) {
      AnsweredByOwn(t, k, calls, op.call, max, windowSecs, time);
      ClockedNext(calls, op.call);
      NextIsCheck(calls + [op.call], max, windowSecs);
      assert (calls + [op.call])[..|calls|] == calls;
    }
  }

  lemma EvictedTracks(before: Table, after: Table, k: string, calls: seq<Call>, max: u32, windowSecs: u32, now: u64)
    requires Tracks(before, k, calls, max, windowSecs, now) && Evicted(before, after, now) && Roomy(before, now)
    ensures Tracks(after, k, calls, max, windowSecs, now)
  {
    if k in before && k !in after {
      OnlyStaleGo(before, after, now, k);
      LastSeen(calls, max, windowSecs);
    }
  }

  lemma StepTracks(before: Table, op: Op, after: Table, k: string, calls: seq<Call>, max: u32, windowSecs: u32,
                   time: nat)
    requires Steps(before, op, after) && Tracks(before, k, calls, max, windowSecs, time)
    requires Proper(op, time, k, max, windowSecs) && (op.OpCheck? ==> Roomy(Charged(before, op), op.call.now))
    requires AtLeastOne(max) < U32_MAX && windowSecs <= 3600
    ensures Tracks(after, k, Own(calls, op, k), max, windowSecs, Later(time, op))
  {
    match op
    case OpCheck(_, _, _, _, call) =>
      ChargedTracks(before, op, k, calls, max, windowSecs, time);
      EvictedTracks(Charged(before, op), after, k, Own(calls, op, k), max, windowSecs, call.now);
    case OpReset(namespace, name) =>
      assert k in before ==> (k in ResetKeys(before.Keys, namespace, name) <==> Resets(op, k));
  }

  lemma {:induction false} HistoryTracks(tables: seq<Table>, ops: seq<Op>, k: string, max: u32, windowSecs: u32)
    requires History(tables, ops, k, max, windowSecs) && AtLeastOne(max) < U32_MAX && windowSecs <= 3600
    ensures Tracks(tables[|ops|], k, Since(ops, k), max, windowSecs, LastTime(ops))
    decreases |ops|
  {
    if ops != [] {
      var n := |ops| - 1;
      HistoryPrefix(tables, ops, k, max, windowSecs, n);
      HistoryTracks(tables[..n + 1], ops[..n], k, max, windowSecs);
      assert StepAt(tables, ops, k, max, windowSecs, n);
      StepTracks(tables[n], ops[n], tables[n + 1], k, Since(ops[..n], k), max, windowSecs, LastTime(ops[..n]));
    }
  }

  /** What the limiter answers to the check at position `i`. */
  function Answer(tables: seq<Table>, ops: seq<Op>, i: nat): Decision
    requires i < |ops| && i < |tables| && ops[i].OpCheck?
  {
    Decide(Bucket(tables[i], StorageKey(ops[i].namespace, ops[i].name)), ops[i].max, ops[i].windowSecs, ops[i].call.cost,
           ops[i].call.now)
  }

  /** Every check is answered as if the caller were alone: neither other callers nor evictions show. */
  lemma {:induction false} AnsweredAlone(tables: seq<Table>, ops: seq<Op>, k: string, max: u32, windowSecs: u32, i: nat)
    requires History(tables, ops, k, max, windowSecs) && AtLeastOne(max) < U32_MAX && windowSecs <= 3600
    requires i < |ops| && Checks(ops[i], k)
    ensures Answer(tables, ops, i)
            == Decide(Run(Since(ops[..i], k), max, windowSecs), max, windowSecs, ops[i].call.cost, ops[i].call.now)
  {
    HistoryPrefix(tables, ops, k, max, windowSecs, i);
    HistoryTracks(tables[..i + 1], ops[..i], k, max, windowSecs);
    assert StepAt(tables, ops, k, max, windowSecs, i);
    AnsweredByOwn(tables[i], k, Since(ops[..i], k), ops[i].call, max, windowSecs, LastTime(ops[..i]));
  }

  /** What the limiter's answers admitted for `k` since its last reset. */
  function Granted(tables: seq<Table>, ops: seq<Op>, k: string): seq<Hit>
    requires |tables| == |ops| + 1
    decreases |ops|
  {
    if ops == [] then []
    else
      var n := |ops| - 1;
      var before := Granted(tables[..n + 1], ops[..n], k);
      if Resets(ops[n], k) then []
      else if Checks(ops[n], k) && Answer(tables, ops, n).allowed then
        before + [Hit(ops[n].call.now, AtLeastOne(ops[n].call.cost))]
      else before
  }

  lemma {:induction false} GrantedIsAdmitted(tables: seq<Table>, ops: seq<Op>, k: string, max: u32, windowSecs: u32)
    requires History(tables, ops, k, max, windowSecs) && AtLeastOne(max) < U32_MAX && windowSecs <= 3600
    ensures Granted(tables, ops, k) == Admitted(Since(ops, k), max, windowSecs)
    decreases |ops|
  {
    if ops != [] {
      var n := |ops| - 1;
      HistoryPrefix(tables, ops, k, max, windowSecs, n);
      GrantedIsAdmitted(tables[..n + 1], ops[..n], k, max, windowSecs);
      if Checks(ops[n], k) {
        AnsweredAlone(tables, ops, k, max, windowSecs, n);
        NextIsCheck(Since(ops, k), max, windowSecs);
        assert Since(ops, k)[..|Since(ops[..n], k)|] == Since(ops[..n], k);
      }
    }
  }

  /** In no window does the limiter grant a caller more than the limit, whatever the others do. */
  lemma SharedWindowBound(tables: seq<Table>, ops: seq<Op>, k: string, max: u32, windowSecs: u32, end: int)
    requires History(tables, ops, k, max, windowSecs) && AtLeastOne(max) < U32_MAX && windowSecs <= 3600
    ensures Between(Granted(tables, ops, k), end - WindowMs(windowSecs), end) <= AtLeastOne(max)
  {
    GrantedIsAdmitted(tables, ops, k, max, windowSecs);
    HistoryTracks(tables, ops, k, max, windowSecs);
    WindowBound(Since(ops, k), max, windowSecs, end);
  }
}
