/**
 The rate limiter as the program runs it: buckets whose deque and total change in place, the table
 of buckets with its eviction, and the storage keys.
 */
module RateLimiter {
  import opened Prelude
  import opened RateLimit

  const NAMESPACE_SEPARATOR: char := 31 as char
  const MAX_RATE_LIMIT_ENTRIES: nat := 100_000
  const EVICTION_TARGET: nat := 80_000
  const EVICT_STALE_THRESHOLD_MS: nat := 3_600_000

  class SlidingWindow {
    var events: seq<Hit>
    var total: u32
    var lastSeen: u64

    function State(): Window
      reads this
    {
      Window(events, total, lastSeen)
    }

    constructor ()
      ensures State() == FRESH
    {
      events, total, lastSeen := [], 0, 0;
    }

    method PruneExpired(now: u64, windowMs: u64)
      modifies this
      ensures State() == RateLimit.PruneExpired(old(State()), now, windowMs)
    {
      var cutoff := SatSub(now, windowMs);
      while events != [] && events[0].ts <= cutoff
        invariant Prune(State(), cutoff) == Prune(old(State()), cutoff)
        decreases |events|
      {
        var count := events[0].count;
        events := events[1..];
        total := SatSub(total, count);
      }
    }

    method PushHit(now: u64, cost: u32)
      modifies this
      ensures State() == RateLimit.PushHit(old(State()), now, cost)
    {
      var n := |events|;
      if n > 0 && events[n - 1].ts == now {
        events := events[n - 1 := Hit(now, SatAdd(events[n - 1].count, cost, U32_MAX))];
      } else {
        events := events + [Hit(now, cost)];
      }
      total := SatAdd(total, cost, U32_MAX);
    }

    method Check(max: u32, windowSecs: u32, cost: u32, now: u64) returns (d: Decision)
      modifies this
      ensures State() == Next(old(State()), max, windowSecs, cost, now)
      ensures d == Decide(old(State()), max, windowSecs, cost, now)
    {
      var limit, c, windowMs := AtLeastOne(max), AtLeastOne(cost), WindowMs(windowSecs);
      PruneExpired(now, windowMs);
      lastSeen := now;
      if SatAdd(total, c, U32_MAX) > limit {
        var resetAt := ResetAt(State(), now, windowMs);
        d := Decision(false, limit, 0, resetAt, RetryAfterSecs(now, resetAt), now);
      } else {
        PushHit(now, c);
        d := Decision(true, limit, SatSub(limit, total), ResetAt(State(), now, windowMs), 0, now);
      }
    }
  }

  // ----- the table of buckets -----

  type Table = map<string, Window>

  function StorageKey(namespace: string, key: string): string {
    namespace + [NAMESPACE_SEPARATOR] + key
  }

  /** Storage keys keep callers apart exactly as far as namespaces do not contain the separator. */
  lemma StorageKeyInjective(n1: string, k1: string, n2: string, k2: string)
    requires NAMESPACE_SEPARATOR !in n1 && NAMESPACE_SEPARATOR !in n2
    requires StorageKey(n1, k1) == StorageKey(n2, k2)
    ensures n1 == n2 && k1 == k2
  {
    var s := StorageKey(n1, k1);
    assert s[|n1|] == NAMESPACE_SEPARATOR && s[|n2|] == NAMESPACE_SEPARATOR;
    assert forall i | 0 <= i < |n1| :: s[i] == n1[i];
    assert forall i | 0 <= i < |n2| :: s[i] == n2[i];
    assert |n1| == |n2|;
    assert s[..|n1|] == n1 == n2;
    assert s[|n1| + 1..] == k1 == k2;
  }

  /** Every namespace with a separator inside shares a storage key with another namespace. */
  lemma StorageKeyCollides(n: string, i: nat, k: string)
    requires i < |n| && n[i] == NAMESPACE_SEPARATOR
    ensures n[..i] != n && StorageKey(n[..i], StorageKey(n[i + 1..], k)) == StorageKey(n, k)
  {
    assert n == n[..i] + [NAMESPACE_SEPARATOR] + n[i + 1..];
  }

  /** The stored keys that a reset names: all, those of a namespace, one key, or none. */
  function ResetKeys(keys: set<string>, namespace: Option<string>, key: Option<string>): set<string> {
    match namespace
    case None => if key.None? then keys else {}
    case Some(n) => if key.None? then set k | k in keys && StorageKey(n, "") <= k else keys * {StorageKey(n, key.value)}
  }

  /** Resetting a namespace names exactly that namespace's keys, as far as no separator stands in a name. */
  lemma NamespaceKeys(n: string, k: string, namespace: string)
    requires NAMESPACE_SEPARATOR !in n && NAMESPACE_SEPARATOR !in namespace
    ensures StorageKey(namespace, "") <= StorageKey(n, k) <==> n == namespace
  {
    if StorageKey(namespace, "") <= StorageKey(n, k) {
      var s := StorageKey(n, k);
      assert s[|namespace|] == NAMESPACE_SEPARATOR && s[|n|] == NAMESPACE_SEPARATOR;
      assert forall i | 0 <= i < |n| :: s[i] == n[i];
      assert forall i | 0 <= i < |namespace| :: s[i] == namespace[i];
      assert |n| == |namespace|;
      assert s[..|n|] == n == namespace;
    }
  }

  predicate Stale(w: Window, now: u64) {
    SatSub(now, w.lastSeen) > EVICT_STALE_THRESHOLD_MS
  }

  /** What `maybe_evict` may leave of a table: nothing below the cap is touched, stale buckets go first. */
  ghost predicate Evicted(before: Table, after: Table, now: u64) {
    && (forall k | k in after :: k in before && after[k] == before[k])
    && (|before| <= MAX_RATE_LIMIT_ENTRIES ==> after == before)
    && (|before| > MAX_RATE_LIMIT_ENTRIES ==>
          && |after| <= EVICTION_TARGET
          && (forall k | k in after :: !Stale(before[k], now))
          && (forall gone, kept | gone in before && gone !in after && kept in after ::
                before[gone].lastSeen <= before[kept].lastSeen)
          && ((exists gone | gone in before && gone !in after :: !Stale(before[gone], now)) ==>
                |after| == EVICTION_TARGET))
  }

  /** A bucket seen least recently, as the head of the sorted entries. */
  method Oldest(m: Table) returns (k: string)
    requires m != map[]
    ensures k in m && forall j | j in m :: m[k].lastSeen <= m[j].lastSeen
  {
    var keys := m.Keys;
    k :| k in keys;
    keys := keys - {k};
    while keys != {}
      invariant k in m && keys <= m.Keys
      invariant forall j | j in m && j !in keys :: m[k].lastSeen <= m[j].lastSeen
      decreases keys
    {
      var j :| j in keys;
      if m[j].lastSeen < m[k].lastSeen { k := j; }
      keys := keys - {j};
    }
  }

  method MaybeEvict(table: Table, now: u64) returns (m: Table)
    ensures Evicted(table, m, now)
  {
    if |table| <= MAX_RATE_LIMIT_ENTRIES { return table; }
    m := map k | k in table && !Stale(table[k], now) :: table[k];
    StaleGoFirst(table, m, now);
    while |m| > EVICTION_TARGET
      invariant forall k | k in m :: k in table && m[k] == table[k] && !Stale(table[k], now)
      invariant forall gone, kept | gone in table && gone !in m && kept in m ::
                  table[gone].lastSeen <= table[kept].lastSeen
      invariant |m| < EVICTION_TARGET ==> forall gone | gone in table && gone !in m :: Stale(table[gone], now)
      decreases |m|
    {
      var k := Oldest(m);
      var rest := m - {k};
      assert m.Keys == rest.Keys + {k};
      m := rest;
    }
  }

  lemma StaleGoFirst(table: Table, m: Table, now: u64)
    requires m == map k | k in table && !Stale(table[k], now) :: table[k]
    ensures forall gone, kept | gone in table && gone !in m && kept in m ::
              table[gone].lastSeen <= table[kept].lastSeen
  {}

  // ----- the limiter -----

  datatype Op =
    | OpCheck(namespace: string, name: string, max: u32, windowSecs: u32, call: Call)
    | OpReset(namespaceOnly: Option<string>, nameOnly: Option<string>)

  function Bucket(t: Table, k: string): Window {
    if k in t then t[k] else FRESH
  }

  /** The table with the caller's bucket after its check, before any eviction. */
  function Charged(t: Table, op: Op): Table
    requires op.OpCheck?
  {
    var k := StorageKey(op.namespace, op.name);
    t[k := Next(Bucket(t, k), op.max, op.windowSecs, op.call.cost, op.call.now)]
  }

  /** One call of the limiter turns the table `before` into `after`. */
  ghost predicate Steps(before: Table, op: Op, after: Table) {
    match op
    case OpCheck(_, _, _, _, call) => Evicted(Charged(before, op), after, call.now)
    case OpReset(namespace, name) => after == before - ResetKeys(before.Keys, namespace, name)
  }

  class Limiter {
    var table: Table

    constructor ()
      ensures table == map[]
    {
      table := map[];
    }

    /** Only the caller's bucket changes, unless the table has outgrown its cap. */
    method Check(namespace: string, key: string, max: u32, windowSecs: u32, cost: u32, now: u64) returns (d: Decision)
      modifies this
      ensures d == Decide(Bucket(old(table), StorageKey(namespace, key)), max, windowSecs, cost, now)
      ensures Steps(old(table), OpCheck(namespace, key, max, windowSecs, Call(now, cost)), table)
    {
      var k := StorageKey(namespace, key);
      var bucket := new SlidingWindow();
      if k in table {
        bucket.events, bucket.total, bucket.lastSeen := table[k].events, table[k].total, table[k].lastSeen;
      }
      d := bucket.Check(max, windowSecs, cost, now);
      NeverCollected(Bucket(table, k), max, windowSecs, cost, now);
      table := table[k := Window(bucket.events, bucket.total, bucket.lastSeen)];
      table := if CanCollect(table[k], now, WindowMs(windowSecs)) then table - {k} else table;
      table := MaybeEvict(table, now);
    }

    /** Drops the buckets of the named keys and counts them; the others stay as they are. */
    method Reset(namespace: Option<string>, key: Option<string>) returns (removed: nat)
      modifies this
      ensures Steps(old(table), OpReset(namespace, key), table)
      ensures removed == |ResetKeys(old(table).Keys, namespace, key)|
    {
      ghost var named := ResetKeys(table.Keys, namespace, key);
      if namespace.None? {
        if key.Some? { return 0; }
        removed := |table|;
        table := map[];
      } else if key.None? {
        var prefix := StorageKey(namespace.value, "");
        var candidates := set k | k in table.Keys && prefix <= k;
        assert candidates == named;
        removed := RemoveAll(candidates);
      } else {
        var k := StorageKey(namespace.value, key.value);
        assert named == if k in table then {k} else {};
        removed := if k in table then 1 else 0;
        table := table - {k};
      }
    }

    /** Removes the candidates one by one and counts them. */
    method RemoveAll(names: set<string>) returns (removed: nat)
      requires names <= table.Keys
      modifies this
      ensures table == old(table) - names && removed == |names|
    {
      var left := names;
      removed := 0;
      while left != {}
        invariant left <= names && removed + |left| == |names|
        invariant forall x :: x in table <==> x in old(table) && (x in names ==> x in left)
        invariant forall x | x in table :: table[x] == old(table)[x]
        decreases left
      {
        var k :| k in left;
        table := table - {k};
        removed := removed + 1;
        left := left - {k};
      }
    }
  }
}
