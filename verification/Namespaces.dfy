/**
 Cache namespaces: how many servers hold each one, the generation counter that every change of
 these counts advances, and the per-thread caches that drop unheld namespaces when they notice a
 new generation. Calls are atomic; a namespace's cache is the most-recent-first list of `RouteCache`.
 */
module Namespaces {
  import opened Prelude
  import C = CacheRuns
  import R = RouteCache

  type Namespace = u64

  // ----- counts -----

  type Counts = map<Namespace, nat>

  function CountOf(counts: Counts, n: Namespace): nat {
    if n in counts then counts[n] else 0
  }

  function Registered(counts: Counts, ns: set<Namespace>): Counts {
    map n | n in counts.Keys + ns :: CountOf(counts, n) + if n in ns then 1 else 0
  }

  function Unregistered(counts: Counts, ns: set<Namespace>): Counts {
    map n | n in counts && !(n in ns && counts[n] <= 1) :: counts[n] - if n in ns then 1 else 0
  }

  /** The number of servers that hold `n`. */
  function Holders(held: seq<set<Namespace>>, n: Namespace): nat {
    if held == [] then 0 else Holders(held[..|held| - 1], n) + if n in held[|held| - 1] then 1 else 0
  }

  /** Every count is the number of holders, and a namespace without holders has no entry. */
  ghost predicate Counted(counts: Counts, held: seq<set<Namespace>>) {
    forall n: Namespace :: CountOf(counts, n) == Holders(held, n) && (n in counts ==> counts[n] > 0)
  }

  lemma {:induction false} HoldersUpdate(held: seq<set<Namespace>>, i: nat, next: set<Namespace>, n: Namespace)
    requires i < |held|
    ensures Holders(held[i := next], n) + (if n in held[i] then 1 else 0)
            == Holders(held, n) + (if n in next then 1 else 0)
  {
    var m := |held| - 1;
    if i < m {
      HoldersUpdate(held[..m], i, next, n);
      assert held[i := next][..m] == held[..m][i := next];
    } else {
      assert held[i := next][..m] == held[..m];
    }
  }

  /** A namespace is held as long as some server holds it. */
  lemma {:induction false} HoldersPositive(held: seq<set<Namespace>>, n: Namespace)
    ensures Holders(held, n) > 0 <==> exists i :: 0 <= i < |held| && n in held[i]
  {
    if held != [] {
      var m := |held| - 1;
      HoldersPositive(held[..m], n);
      if i :| 0 <= i < m && n in held[i] { assert n in held[..m][i]; }
    }
  }

  // ----- the whole state -----

  datatype Thread<V> = Thread(seen: nat, caches: map<Namespace, R.Abstract<V>>)

  datatype World<V> = World(counts: Counts, generation: nat, held: seq<set<Namespace>>, threads: map<nat, Thread<V>>)

  datatype Event<V> =
    | Start(namespaces: set<Namespace>)
    | Reload(server: nat, next: set<Namespace>)
    | Close(server: nat)
    | Access(thread: nat, ns: Namespace, op: C.Op<V>)

  predicate CacheOp<V>(op: C.Op<V>) {
    !op.OpInvalidate?
  }

  predicate Possible<V>(w: World<V>, e: Event<V>) {
    match e
    case Start(_) => true
    case Reload(server, _) => server < |w.held|
    case Close(server) => server < |w.held|
    case Access(_, _, op) => CacheOp(op)
  }

  function Bump(generation: nat, ns: set<Namespace>): nat {
    if ns == {} then generation else generation + 1
  }

  function Register<V>(w: World<V>, ns: set<Namespace>): World<V> {
    w.(counts := Registered(w.counts, ns), generation := Bump(w.generation, ns))
  }

  function Unregister<V>(w: World<V>, ns: set<Namespace>): World<V> {
    w.(counts := Unregistered(w.counts, ns), generation := Bump(w.generation, ns))
  }

  function Replace<V>(w: World<V>, previous: set<Namespace>, next: set<Namespace>): World<V> {
    Register(Unregister(w, previous - next), next - previous)
  }

  function ThreadOf<V>(w: World<V>, t: nat): Thread<V> {
    if t in w.threads then w.threads[t] else Thread(0, map[])
  }

  /** The first thing an access does: a new generation drops the caches of unheld namespaces. */
  function SyncedWith<V>(thread: Thread<V>, counts: Counts, generation: nat): Thread<V> {
    if thread.seen == generation then thread
    else Thread(generation, map n | n in thread.caches && n in counts :: thread.caches[n])
  }

  function Synced<V>(w: World<V>, t: nat): Thread<V> {
    SyncedWith(ThreadOf(w, t), w.counts, w.generation)
  }

  function CacheOf<V>(thread: Thread<V>, n: Namespace): R.Abstract<V> {
    if n in thread.caches then thread.caches[n] else R.Abstract([], 0)
  }

  /** A lookup does not create the cache of a namespace, an insertion does. */
  function AccessStep<V>(thread: Thread<V>, n: Namespace, op: C.Op<V>): Thread<V> {
    if op.OpInsert? || n in thread.caches
    then thread.(caches := thread.caches[n := C.AbsStep(CacheOf(thread, n), op)])
    else thread
  }

  function Answer<V>(w: World<V>, t: nat, n: Namespace, key: u64, now: nat): Option<R.Entry<V>> {
    R.AbsGet(CacheOf(Synced(w, t), n), key, now).1
  }

  function Step<V>(w: World<V>, e: Event<V>): World<V>
    requires Possible(w, e)
  {
    match e
    case Start(ns) => Register(w, ns).(held := w.held + [ns])
    case Reload(i, next) => Replace(w, w.held[i], next).(held := w.held[i := next])
    case Close(i) => Unregister(w, w.held[i]).(held := w.held[i := {}])
    case Access(t, n, op) => w.(threads := w.threads[t := AccessStep(Synced(w, t), n, op)])
  }

  function Initial<V>(): World<V> {
    World(map[], 1, [], map[])
  }

  /** The state after the events, as long as each was possible. */
  function Run<V>(events: seq<Event<V>>): World<V> {
    if events == [] then Initial()
    else
      var w := Run(events[..|events| - 1]);
      if Possible(w, events[|events| - 1]) then Step(w, events[|events| - 1]) else w
  }

  // ----- counting -----

  ghost predicate Sound<V>(w: World<V>) {
    && Counted(w.counts, w.held)
    && forall t: nat :: ThreadOf(w, t).seen <= w.generation
  }

  lemma CountedAfterStart<V>(w: World<V>, ns: set<Namespace>)
    requires Counted(w.counts, w.held)
    ensures Counted(Registered(w.counts, ns), w.held + [ns])
  {
    assert (w.held + [ns])[..|w.held|] == w.held;
  }

  lemma CountedAfterReplace(counts: Counts, held: seq<set<Namespace>>, i: nat, next: set<Namespace>)
    requires Counted(counts, held) && i < |held|
    ensures Counted(Registered(Unregistered(counts, held[i] - next), next - held[i]), held[i := next])
  {
    forall n: Namespace
      ensures var c := Registered(Unregistered(counts, held[i] - next), next - held[i]);
              CountOf(c, n) == Holders(held[i := next], n) && (n in c ==> c[n] > 0)
    {
      HoldersUpdate(held, i, next, n);
      HoldersPositive(held, n);
    }
  }

  lemma CountedAfterClose(counts: Counts, held: seq<set<Namespace>>, i: nat)
    requires Counted(counts, held) && i < |held|
    ensures Counted(Unregistered(counts, held[i]), held[i := {}])
  {
    forall n: Namespace
      ensures var c := Unregistered(counts, held[i]);
              CountOf(c, n) == Holders(held[i := {}], n) && (n in c ==> c[n] > 0)
    {
      HoldersUpdate(held, i, {}, n);
      HoldersPositive(held, n);
    }
  }

  lemma StepSound<V>(w: World<V>, e: Event<V>)
    requires Sound(w) && Possible(w, e)
    ensures Sound(Step(w, e))
  {
    match e
    case Start(ns) => CountedAfterStart(w, ns); SeenStays(w, Step(w, e));
    case Reload(i, next) => CountedAfterReplace(w.counts, w.held, i, next); SeenStays(w, Step(w, e));
    case Close(i) => CountedAfterClose(w.counts, w.held, i); SeenStays(w, Step(w, e));
    case Access(t, n, op) => SeenAccess(w, t, n, op);
  }

  lemma SeenStays<V>(w: World<V>, w': World<V>)
    requires Sound(w) && w'.threads == w.threads && w'.generation >= w.generation
    ensures forall t: nat :: ThreadOf(w', t).seen <= w'.generation
  {
    forall t: nat ensures ThreadOf(w', t).seen <= w'.generation {
      assert ThreadOf(w', t) == ThreadOf(w, t);
    }
  }

  lemma SeenAccess<V>(w: World<V>, t: nat, n: Namespace, op: C.Op<V>)
    requires Sound(w) && CacheOp(op)
    ensures Sound(Step(w, Access(t, n, op)))
  {
    var w' := Step(w, Access(t, n, op));
    forall u: nat ensures ThreadOf(w', u).seen <= w'.generation {
      if u != t { assert ThreadOf(w', u) == ThreadOf(w, u); }
    }
  }

  /** In every run a namespace's count is the number of servers holding it, and no count is zero. */
  lemma {:induction false} EveryRunSound<V>(events: seq<Event<V>>)
    ensures Sound(Run(events))
  {
    if events == [] {
      assert forall n: Namespace :: Holders(Run(events).held, n) == 0;
    } else {
      var w, e := Run(events[..|events| - 1]), events[|events| - 1];
      EveryRunSound(events[..|events| - 1]);
      if Possible(w, e) { StepSound(w, e); }
    }
  }

  // ----- generations -----

  /** Any change of the counts advances the generation. */
  lemma StepGeneration<V>(w: World<V>, e: Event<V>)
    requires Possible(w, e)
    ensures Step(w, e).generation >= w.generation
    ensures Step(w, e).generation == w.generation ==> Step(w, e).counts == w.counts
    ensures Step(w, e).generation > w.generation ==> Step(w, e).threads == w.threads
  {
    match e
    case Start(ns) => RegisterGeneration(w.counts, ns);
    case Reload(i, next) =>
      UnregisterGeneration(w.counts, w.held[i] - next);
      RegisterGeneration(Unregistered(w.counts, w.held[i] - next), next - w.held[i]);
    case Close(i) => UnregisterGeneration(w.counts, w.held[i]);
    case Access(t, n, op) =>
  }

  lemma RegisterGeneration(counts: Counts, ns: set<Namespace>)
    ensures ns == {} ==> Registered(counts, ns) == counts
  {
    assert counts.Keys + {} == counts.Keys;
  }

  lemma UnregisterGeneration(counts: Counts, ns: set<Namespace>)
    ensures ns == {} ==> Unregistered(counts, ns) == counts
  {}

  /** The state after the first `i` events. */
  function At<V>(events: seq<Event<V>>, i: nat): World<V>
    requires i <= |events|
  {
    Run(events[..i])
  }

  lemma AtNext<V>(events: seq<Event<V>>, i: nat)
    requires i < |events|
    ensures At(events, i + 1)
            == if Possible(At(events, i), events[i]) then Step(At(events, i), events[i]) else At(events, i)
  {
    assert events[..i + 1][..i] == events[..i];
  }

  lemma {:induction false} SameGeneration<V>(events: seq<Event<V>>, i: nat, n: nat)
    requires i <= n <= |events|
    ensures At(events, i).generation <= At(events, n).generation
    ensures At(events, i).generation == At(events, n).generation ==> At(events, i).counts == At(events, n).counts
    decreases n
  {
    if i < n {
      SameGeneration(events, i, n - 1);
      AtNext(events, n - 1);
      if Possible(At(events, n - 1), events[n - 1]) { StepGeneration(At(events, n - 1), events[n - 1]); }
    }
  }

  // ----- what a lookup answers while nobody holds the namespace -----

  /** The cache operations of one thread on one namespace. */
  function OpsOn<V>(events: seq<Event<V>>, t: nat, n: Namespace): seq<C.Op<V>> {
    if events == [] then []
    else
      var rest, e := OpsOn(events[..|events| - 1], t, n), events[|events| - 1];
      if e.Access? && e.thread == t && e.ns == n && CacheOp(e.op) then rest + [e.op] else rest
  }

  /** The latest change of any count happened just before `k`. */
  ghost predicate LastChange<V>(events: seq<Event<V>>, k: nat) {
    && k <= |events|
    && At(events, k).generation == Run(events).generation
    && (k > 0 ==> At(events, k - 1).generation < At(events, k).generation)
  }

  /** Since `k` the thread has either not been active or has a cache fed by the operations since `k`. */
  ghost predicate FedSince<V>(events: seq<Event<V>>, k: nat, i: nat, t: nat, n: Namespace)
    requires k <= i <= |events|
  {
    var w, ops := At(events, i), OpsOn(events[k..i], t, n);
    CacheOf(Synced(w, t), n) == C.AbsRun(ops)
  }

  lemma UnheldEmpty<V>(w: World<V>, t: nat, n: Namespace)
    requires ThreadOf(w, t).seen != w.generation && n !in w.counts
    ensures CacheOf(Synced(w, t), n) == R.Abstract([], 0)
  {}

  lemma FedAtChange<V>(events: seq<Event<V>>, k: nat, t: nat, n: Namespace)
    requires LastChange(events, k) && n !in At(events, k).counts
    ensures FedSince(events, k, k, t, n)
  {
    var w := At(events, k);
    if k > 0 {
      EveryRunSound(events[..k - 1]);
      AtNext(events, k - 1);
      assert Possible(At(events, k - 1), events[k - 1]);
      StepGeneration(At(events, k - 1), events[k - 1]);
      assert ThreadOf(w, t) == ThreadOf(At(events, k - 1), t);
    }
    UnheldEmpty(w, t, n);
    assert events[k..k] == [];
  }

  lemma {:induction false} OpsNext<V>(events: seq<Event<V>>, k: nat, i: nat, t: nat, n: Namespace)
    requires k <= i < |events|
    ensures var e := events[i];
            OpsOn(events[k..i + 1], t, n)
            == if e.Access? && e.thread == t && e.ns == n && CacheOp(e.op) then OpsOn(events[k..i], t, n) + [e.op]
               else OpsOn(events[k..i], t, n)
  {
    assert events[k..i + 1][..i - k] == events[k..i];
    assert events[k..i + 1][i - k] == events[i];
  }

  lemma FedNext<V>(events: seq<Event<V>>, k: nat, i: nat, t: nat, n: Namespace)
    requires k <= i < |events| && FedSince(events, k, i, t, n)
    requires At(events, i + 1).generation == At(events, i).generation
    ensures FedSince(events, k, i + 1, t, n)
  {
    AtNext(events, i);
    OpsNext(events, k, i, t, n);
    FedStep(At(events, i), At(events, i + 1), events[i], OpsOn(events[k..i], t, n), OpsOn(events[k..i + 1], t, n), t, n);
  }

  lemma {:induction false} FedStep<V>(w: World<V>, w': World<V>, e: Event<V>, ops: seq<C.Op<V>>, ops': seq<C.Op<V>>,
                                      t: nat, n: Namespace)
    requires w'.generation == w.generation && w' == if Possible(w, e) then Step(w, e) else w
    requires ops' == if e.Access? && e.thread == t && e.ns == n && CacheOp(e.op) then ops + [e.op] else ops
    requires CacheOf(Synced(w, t), n) == C.AbsRun(ops)
    ensures CacheOf(Synced(w', t), n) == C.AbsRun(ops')
  {
    if Possible(w, e) {
      StepGeneration(w, e);
      StepSynced(w, e, t, n);
      if e.Access? { AppendedOp(ops, e.op); }
    }
  }

  lemma {:induction false} AppendedOp<V>(ops: seq<C.Op<V>>, op: C.Op<V>)
    ensures C.AbsRun(ops + [op]) == C.AbsStep(C.AbsRun(ops), op)
  {
    assert (ops + [op])[..|ops|] == ops;
  }

  /** Within a generation, a cache changes by its own thread's operations on it only. */
  lemma StepSynced<V>(w: World<V>, e: Event<V>, t: nat, n: Namespace)
    requires Possible(w, e) && Step(w, e).generation == w.generation && Step(w, e).counts == w.counts
    ensures CacheOf(Synced(Step(w, e), t), n)
            == if e.Access? && e.thread == t && e.ns == n then C.AbsStep(CacheOf(Synced(w, t), n), e.op)
               else CacheOf(Synced(w, t), n)
  {
  }

  lemma {:induction false} Steady<V>(events: seq<Event<V>>, k: nat, i: nat)
    requires LastChange(events, k) && k <= i <= |events|
    ensures At(events, i).generation == Run(events).generation
    ensures At(events, i).counts == Run(events).counts
  {
    assert events[..|events|] == events;
    SameGeneration(events, k, i);
    SameGeneration(events, i, |events|);
  }

  lemma {:induction false} FedThroughout<V>(events: seq<Event<V>>, k: nat, i: nat, t: nat, n: Namespace)
    requires LastChange(events, k) && n !in Run(events).counts && k <= i <= |events|
    ensures FedSince(events, k, i, t, n)
    decreases i
  {
    Steady(events, k, i);
    if i == k {
      FedAtChange(events, k, t, n);
    } else {
      Steady(events, k, i - 1);
      FedThroughout(events, k, i - 1, t, n);
      FedNext(events, k, i - 1, t, n);
    }
  }

  /**
   While nobody holds a namespace, a lookup answers from what was inserted since the counts last
   changed, and nobody has held the namespace since: nothing from a holder's time comes back.
   */
  lemma {:induction false} UnheldLookup<V>(events: seq<Event<V>>, k: nat, t: nat, n: Namespace, key: u64, now: nat)
    requires LastChange(events, k) && Holders(Run(events).held, n) == 0
    ensures Answer(Run(events), t, n, key, now) == R.AbsGet(C.AbsRun(OpsOn(events[k..], t, n)), key, now).1
    ensures forall i | k <= i <= |events| :: Holders(At(events, i).held, n) == 0
  {
    EveryRunSound(events);
    assert CountOf(Run(events).counts, n) == 0;
    FedThroughout(events, k, |events|, t, n);
    assert events[..|events|] == events && events[k..|events|] == events[k..];
    forall i | k <= i <= |events| ensures Holders(At(events, i).held, n) == 0 {
      Steady(events, k, i);
      EveryRunSound(events[..i]);
      assert CountOf(At(events, i).counts, n) == Holders(At(events, i).held, n);
    }
  }

  /** There is always a latest change, or none since the start. */
  lemma {:induction false} SomeLastChange<V>(events: seq<Event<V>>) returns (k: nat)
    ensures LastChange(events, k)
  {
    assert events[..|events|] == events;
    if events == [] {
      k := 0;
    } else {
      var n := |events| - 1;
      SameGeneration(events, n, |events|);
      if At(events, n).generation == Run(events).generation {
        k := SomeLastChange(events[..n]);
        assert events[..n][..k] == events[..k];
        assert k > 0 ==> events[..n][..k - 1] == events[..k - 1];
      } else {
        k := |events|;
      }
    }
  }

  /** Every lookup made while nobody holds the namespace answers from after the latest change only. */
  lemma UnheldLookupAlways<V>(events: seq<Event<V>>, t: nat, n: Namespace, key: u64, now: nat) returns (k: nat)
    requires Holders(Run(events).held, n) == 0
    ensures LastChange(events, k)
    ensures Answer(Run(events), t, n, key, now) == R.AbsGet(C.AbsRun(OpsOn(events[k..], t, n)), key, now).1
    ensures forall i | k <= i <= |events| :: Holders(At(events, i).held, n) == 0
  {
    k := SomeLastChange(events);
    UnheldLookup(events, k, t, n, key, now);
  }

  // ----- when an old entry comes back -----

  /** The thread makes no access during these events. */
  predicate Quiet<V>(events: seq<Event<V>>, t: nat) {
    events == []
    || (var e := events[|events| - 1]; Quiet(events[..|events| - 1], t) && !(e.Access? && e.thread == t))
  }

  lemma {:induction false} QuietThread<V>(before: seq<Event<V>>, quiet: seq<Event<V>>, t: nat)
    requires Quiet(quiet, t)
    ensures ThreadOf(Run(before + quiet), t) == ThreadOf(Run(before), t)
  {
    if quiet == [] {
      assert before + quiet == before;
    } else {
      var m := |quiet| - 1;
      QuietThread(before, quiet[..m], t);
      assert (before + quiet)[..|before + quiet| - 1] == before + quiet[..m];
      OtherStep(Run(before + quiet[..m]), quiet[m], t);
    }
  }

  lemma OtherStep<V>(w: World<V>, e: Event<V>, t: nat)
    requires Possible(w, e) ==> !(e.Access? && e.thread == t)
    ensures Possible(w, e) ==> ThreadOf(Step(w, e), t) == ThreadOf(w, t)
  {}

  /**
   An entry that a thread's cache would answer with is still answered with after any events in which
   the thread makes no access exactly if the generation is the one the thread has seen or somebody
   holds the namespace now; whoever held it in between, or nobody, does not matter.
   */
  lemma {:induction false} StaleExactly<V>(before: seq<Event<V>>, quiet: seq<Event<V>>, t: nat, n: Namespace,
                                           key: u64, now: nat,
                        e: R.Entry<V>)
    requires Quiet(quiet, t)
    requires R.AbsGet(CacheOf(ThreadOf(Run(before), t), n), key, now).1 == Some(e)
    ensures var w := Run(before + quiet);
            Answer(w, t, n, key, now) == Some(e)
            <==> ThreadOf(Run(before), t).seen == w.generation || Holders(w.held, n) > 0
  {
    var w, thread := Run(before + quiet), ThreadOf(Run(before), t);
    QuietThread(before, quiet, t);
    EveryRunSound(before + quiet);
    assert CountOf(w.counts, n) == Holders(w.held, n);
    assert n in thread.caches;
  }

  /** A namespace that is held again before the thread's next access keeps its old entries. */
  lemma {:induction false} StaleAfterReopening<V>(n: Namespace, key: u64, e: R.Entry<V>, now: nat)
    requires now < e.expiresAt
    ensures var before := [Start({n}), Access(0, n, C.OpInsert(key, e, 1))];
            && Holders(Run(before + [Close(0)]).held, n) == 0
            && Answer(Run(before + [Close(0)]), 0, n, key, now) != Some(e)
            && Answer(Run(before + [Close(0), Start({n})]), 0, n, key, now) == Some(e)
  {
    var start, insert := Start({n}), Access(0, n, C.OpInsert(key, e, 1));
    var before := [start, insert];
    RunFour(start, insert, Close(0), start);
    var w := Run(before);
    assert Run([start]).counts == map[n := 1];
    assert CacheOf(Synced(Run([start]), 0), n) == R.Abstract([], 0);
    assert w.held == [{n}] && ThreadOf(w, 0).seen == w.generation == 2;
    assert CacheOf(ThreadOf(w, 0), n) == R.Abstract([R.Item(key, e)], 1);
    StaleExactly(before, [Close(0)], 0, n, key, now, e);
    StaleExactly(before, [Close(0), start], 0, n, key, now, e);
  }

  lemma RunFour<V>(a: Event<V>, b: Event<V>, c: Event<V>, d: Event<V>)
    ensures Run([a]) == (if Possible(Initial(), a) then Step(Initial(), a) else Initial())
    ensures Run([a, b]) == (if Possible(Run([a]), b) then Step(Run([a]), b) else Run([a]))
    ensures Run([a, b] + [c]) == (if Possible(Run([a, b]), c) then Step(Run([a, b]), c) else Run([a, b]))
    ensures var w := Run([a, b] + [c]); Run([a, b] + [c, d]) == if Possible(w, d) then Step(w, d) else w
    ensures Quiet([c], 0) == !(c.Access? && c.thread == 0)
    ensures Quiet([c, d], 0) == (!(c.Access? && c.thread == 0) && !(d.Access? && d.thread == 0))
  {
    assert [a][..0] == [];
    assert [a, b][..1] == [a];
    assert ([a, b] + [c])[..2] == [a, b];
    assert ([a, b] + [c, d])[..3] == [a, b] + [c];
    assert [c][..0] == [] && [c, d][..1] == [c];
  }

  // ----- the program's methods -----

  class Registry {
    var counts: Counts
    var generation: nat

    constructor ()
      ensures counts == Initial<int>().counts && generation == Initial<int>().generation
    {
      counts, generation := map[], 1;
    }

    method Register(ns: set<Namespace>)
      modifies this
      ensures counts == Registered(old(counts), ns) && generation == Bump(old(generation), ns)
    {
      if ns == {} { RegisterGeneration(counts, ns); return; }
      var left := ns;
      while left != {}
        invariant left <= ns && counts == Registered(old(counts), ns - left)
        invariant generation == old(generation)
        decreases left
      {
        var n :| n in left;
        counts := counts[n := CountOf(counts, n) + 1];
        left := left - {n};
      }
      assert ns - {} == ns;
      generation := generation + 1;
    }

    method Unregister(ns: set<Namespace>)
      modifies this
      ensures counts == Unregistered(old(counts), ns) && generation == Bump(old(generation), ns)
    {
      if ns == {} { return; }
      var left := ns;
      while left != {}
        invariant left <= ns && counts == Unregistered(old(counts), ns - left)
        invariant generation == old(generation)
        decreases left
      {
        var n :| n in left;
        if n in counts {
          counts := if counts[n] <= 1 then counts - {n} else counts[n := counts[n] - 1];
        }
        left := left - {n};
      }
      assert ns - {} == ns;
      generation := generation + 1;
    }

    method Replace(previous: set<Namespace>, next: set<Namespace>)
      modifies this
      ensures counts == Registered(Unregistered(old(counts), previous - next), next - previous)
      ensures generation == Bump(Bump(old(generation), previous - next), next - previous)
    {
      Unregister(previous - next);
      Register(next - previous);
    }
  }

  /** One thread's caches; an access first looks at the shared counts and generation. */
  class ThreadCaches<V> {
    var seen: nat
    var caches: map<Namespace, R.Abstract<V>>

    function State(): Thread<V>
      reads this
    {
      Thread(seen, caches)
    }

    constructor ()
      ensures State() == Thread(0, map[])
    {
      seen, caches := 0, map[];
    }

    method Sync(registry: Registry)
      modifies this
      ensures State() == SyncedWith(old(State()), registry.counts, registry.generation)
    {
      if seen == registry.generation { return; }
      caches := map n | n in caches && n in registry.counts :: caches[n];
      seen := registry.generation;
    }

    method GetCached(registry: Registry, n: Namespace, key: u64, now: nat) returns (r: Option<R.Entry<V>>)
      modifies this
      ensures var synced := SyncedWith(old(State()), registry.counts, registry.generation);
              r == R.AbsGet(CacheOf(synced, n), key, now).1 && State() == AccessStep(synced, n, C.OpGet(key, now))
    {
      Sync(registry);
      if n in caches {
        var (cache, hit) := R.AbsGet(caches[n], key, now);
        caches := caches[n := cache];
        return hit;
      }
      return None;
    }

    method InsertCached(registry: Registry, n: Namespace, key: u64, entry: R.Entry<V>, maxEntries: u64)
      modifies this
      ensures var synced := SyncedWith(old(State()), registry.counts, registry.generation);
              State() == AccessStep(synced, n, C.OpInsert(key, entry, maxEntries))
    {
      Sync(registry);
      if n !in caches { caches := caches[n := R.Abstract([], 0)]; }
      caches := caches[n := R.AbsInsert(caches[n], AtLeastOne(maxEntries), key, entry)];
    }
  }
}
