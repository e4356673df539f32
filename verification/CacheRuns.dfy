/**
 Whole runs of the response cache: refinement of the most-recent-first list, freshness of what
 `get` returns, the size bound and the retention guarantee of the LRU policy.
 */
module CacheRuns {
  import opened Prelude
  import opened RouteCache

  /** Every insertion first sets the capacity, to at least one, as the callers of the cache do. */
  datatype Op<+V> =
    | OpGet(key: u64, now: nat)
    | OpInsert(key: u64, entry: Entry<V>, max: u64)
    | OpInvalidate(key: u64)

  function Step<V>(s: State<V>, op: Op<V>, asWritten: bool): (t: State<V>)
    requires InRange(s)
    ensures InRange(t)
  {
    match op
    case OpGet(key, now) => Get(s, key, now).0
    case OpInsert(key, entry, max) => Insert(s.(maxEntries := AtLeastOne(max)), key, entry, asWritten)
    case OpInvalidate(key) => Invalidate(s, key)
  }

  function Run<V>(initial: u64, ops: seq<Op<V>>, asWritten: bool): (s: State<V>)
    ensures InRange(s)
  {
    if ops == [] then New(initial)
    else Step(Run(initial, ops[..|ops| - 1], asWritten), ops[|ops| - 1], asWritten)
  }

  lemma {:induction false} RunNext<V>(initial: u64, ops: seq<Op<V>>, op: Op<V>, asWritten: bool)
    ensures Run(initial, ops + [op], asWritten) == Step(Run(initial, ops, asWritten), op, asWritten)
  {
    assert (ops + [op])[..|ops|] == ops;
  }

  function AbsStep<V>(a: Abstract<V>, op: Op<V>): Abstract<V> {
    match op
    case OpGet(key, now) => AbsGet(a, key, now).0
    case OpInsert(key, entry, max) => AbsInsert(a, AtLeastOne(max), key, entry)
    case OpInvalidate(key) => AbsInvalidate(a, key)
  }

  function AbsRun<V>(ops: seq<Op<V>>): Abstract<V> {
    if ops == [] then Abstract([], 0) else AbsStep(AbsRun(ops[..|ops| - 1]), ops[|ops| - 1])
  }

  // ----- refinement -----

  lemma CapacityOnly<V>(s: State<V>, order: seq<nat>, a: Abstract<V>, max: u64)
    requires Refines(s, order, a)
    ensures Refines(s.(maxEntries := max), order, a)
  {
    LinksOnly(s, s.(maxEntries := max), order);
    SameContents(s, s.(maxEntries := max), order);
  }

  lemma StepRefines<V>(s: State<V>, order: seq<nat>, a: Abstract<V>, op: Op<V>) returns (order': seq<nat>)
    requires Refines(s, order, a)
    ensures Refines(Step(s, op, false), order', AbsStep(a, op))
  {
    match op
    case OpGet(key, now) => order' := GetRefines(s, order, a, key, now);
    case OpInsert(key, entry, max) =>
      CapacityOnly(s, order, a, AtLeastOne(max));
      order' := InsertRefines(s.(maxEntries := AtLeastOne(max)), order, a, key, entry);
    case OpInvalidate(key) => order' := InvalidateRefines(s, order, a, key);
  }

  /** With the eviction repaired, every run refines the list, whatever the operations. */
  lemma {:induction false} RunRefines<V>(initial: u64, ops: seq<Op<V>>) returns (order: seq<nat>)
    ensures Refines(Run(initial, ops, false), order, AbsRun(ops))
  {
    if ops == [] {
      order := [];
    } else {
      var o := RunRefines(initial, ops[..|ops| - 1]);
      order := StepRefines(Run(initial, ops[..|ops| - 1], false), o, AbsRun(ops[..|ops| - 1]), ops[|ops| - 1]);
    }
  }

  // ----- properties of the list -----

  function LargestMax<V>(ops: seq<Op<V>>): (n: nat)
    ensures n >= 1
  {
    if ops == [] then 1
    else
      var rest, op := LargestMax(ops[..|ops| - 1]), ops[|ops| - 1];
      if op.OpInsert? && op.max > rest then op.max else rest
  }

  ghost predicate DistinctKeys<V>(items: seq<Item<V>>) {
    forall i, j | 0 <= i < j < |items| :: items[i].key != items[j].key
  }

  lemma {:induction false} RunBounds<V>(ops: seq<Op<V>>)
    ensures var a := AbsRun(ops);
            |a.items| <= a.slots <= LargestMax(ops) && DistinctKeys(a.items)
  {
    if ops != [] {
      RunBounds(ops[..|ops| - 1]);
      StepDistinct(AbsRun(ops[..|ops| - 1]), ops[|ops| - 1]);
    }
  }

  lemma StepDistinct<V>(a: Abstract<V>, op: Op<V>)
    requires DistinctKeys(a.items)
    ensures DistinctKeys(AbsStep(a, op).items)
  {
    var k := Find(a.items, op.key);
    if k < |a.items| {
      DropDistinct(a.items, k);
      FrontDistinct(a.items[k], Without(a.items, k));
      if op.OpInsert? { FrontDistinct(Item(op.key, op.entry), Without(a.items, k)); }
    } else if op.OpInsert? {
      FrontDistinct(Item(op.key, op.entry), a.items);
      if |a.items| > 0 {
        DropDistinct(a.items, |a.items| - 1);
        FrontDistinct(Item(op.key, op.entry), Without(a.items, |a.items| - 1));
      }
    }
  }

  lemma DropDistinct<V>(items: seq<Item<V>>, k: nat)
    requires DistinctKeys(items) && k < |items|
    ensures DistinctKeys(Without(items, k))
    ensures forall j | 0 <= j < |items| - 1 :: Without(items, k)[j].key != items[k].key
  {}

  lemma FrontDistinct<V>(item: Item<V>, items: seq<Item<V>>)
    requires DistinctKeys(items) && forall j | 0 <= j < |items| :: items[j].key != item.key
    ensures DistinctKeys([item] + items)
  {}

  /** The entry most recently stored for `key`, if nothing invalidated it since. */
  function Latest<V>(ops: seq<Op<V>>, key: u64): Option<Entry<V>> {
    if ops == [] then None
    else
      var op := ops[|ops| - 1];
      if op.key != key || op.OpGet? then Latest(ops[..|ops| - 1], key)
      else if op.OpInsert? then Some(op.entry)
      else None
  }

  lemma {:induction false} ItemsAreLatest<V>(ops: seq<Op<V>>)
    ensures var items := AbsRun(ops).items;
            forall i | 0 <= i < |items| :: Latest(ops, items[i].key) == Some(items[i].entry)
  {
    if ops != [] {
      var before, op := ops[..|ops| - 1], ops[|ops| - 1];
      ItemsAreLatest(before);
      RunBounds(before);
      var items, items' := AbsRun(before).items, AbsRun(ops).items;
      forall i | 0 <= i < |items'| ensures Latest(ops, items'[i].key) == Some(items'[i].entry) {
        if op.OpInsert? && items'[i].key == op.key {
          StepStores(AbsRun(before), op, i);
        } else {
          StepKeeps(AbsRun(before), op, i);
        }
      }
    }
  }

  lemma StepStores<V>(a: Abstract<V>, op: Op<V>, i: nat)
    requires DistinctKeys(a.items) && op.OpInsert?
    requires i < |AbsStep(a, op).items| && AbsStep(a, op).items[i].key == op.key
    ensures AbsStep(a, op).items[i].entry == op.entry
  {
    StepDistinct(a, op);
  }

  /** An item after a step, other than one just inserted, was an item before, and was not invalidated. */
  lemma StepKeeps<V>(a: Abstract<V>, op: Op<V>, i: nat)
    requires DistinctKeys(a.items) && i < |AbsStep(a, op).items|
    requires op.OpInsert? ==> AbsStep(a, op).items[i].key != op.key
    ensures AbsStep(a, op).items[i] in a.items
    ensures op.OpInvalidate? ==> AbsStep(a, op).items[i].key != op.key
  {}

  // ----- retention -----

  function KeysOf<V>(items: seq<Item<V>>): (keys: set<u64>)
    ensures forall i | 0 <= i < |items| :: items[i].key in keys
  {
    if items == [] then {} else {items[0].key} + KeysOf(items[1..])
  }

  /** Keys other than `key` that the operations look up or store. */
  function Used<V>(ops: seq<Op<V>>, key: u64): set<u64> {
    if ops == [] then {}
    else
      var op := ops[|ops| - 1];
      Used(ops[..|ops| - 1], key) + if op.OpInvalidate? || op.key == key then {} else {op.key}
  }

  /** `op` neither overwrites, invalidates nor finds expired the entry `e` of `key`, and grants `c` slots. */
  predicate Spares<V>(op: Op<V>, key: u64, e: Entry<V>, c: nat) {
    && (op.OpInsert? ==> op.key != key && (op.max >= c || c <= 1))
    && (op.OpInvalidate? ==> op.key != key)
    && (op.OpGet? && op.key == key ==> op.now < e.expiresAt)
  }

  /** `key` is cached with `e`, and only used keys stand before it. */
  ghost predicate Kept<V>(a: Abstract<V>, key: u64, e: Entry<V>, used: set<u64>) {
    var p := Find(a.items, key);
    && p < |a.items| && a.items[p].entry == e
    && forall i | 0 <= i < p :: a.items[i].key in used
  }

  lemma {:induction false} DistinctKeysCount<V>(items: seq<Item<V>>, used: set<u64>)
    requires DistinctKeys(items) && forall i | 0 <= i < |items| :: items[i].key in used
    ensures |items| <= |used|
  {
    if items != [] {
      var rest := used - {items[0].key};
      DistinctKeysCount(items[1..], rest);
      assert used == rest + {items[0].key};
    }
  }

  lemma KeptByStep<V>(a: Abstract<V>, op: Op<V>, key: u64, e: Entry<V>, used: set<u64>, c: nat)
    requires DistinctKeys(a.items) && Kept(a, key, e, used) && Spares(op, key, e, c)
    requires key !in used && (!op.OpInvalidate? && op.key != key ==> op.key in used) && |used| < c
    ensures Kept(AbsStep(a, op), key, e, used)
  {
    var k := Find(a.items, op.key);
    if k < |a.items| {
      KeptByTouch(a, op, key, e, used);
    } else if op.OpInsert? {
      KeptByNew(a, op, key, e, used, c);
    }
  }

  /** The step concerns a cached key: it moves to the front or disappears. */
  /** Dropping another key's item. */
  lemma KeptByDrop<V>(items: seq<Item<V>>, slots: nat, k: nat, key: u64, e: Entry<V>, used: set<u64>)
    requires k < |items| && items[k].key != key && key !in used && Kept(Abstract(items, slots), key, e, used)
    ensures Kept(Abstract(Without(items, k), slots), key, e, used)
  {
    var p := Find(items, key);
    KeptAt(Abstract(Without(items, k), slots), if k < p then p - 1 else p, key, e, used);
  }

  /** Moving or storing another key's item in front. */
  lemma KeptByFront<V>(items: seq<Item<V>>, slots: nat, k: nat, item: Item<V>, key: u64, e: Entry<V>, used: set<u64>)
    requires k < |items| && items[k].key == item.key != key && item.key in used && key !in used
    requires Kept(Abstract(items, slots), key, e, used)
    ensures Kept(Abstract([item] + Without(items, k), slots), key, e, used)
  {
    var p := Find(items, key);
    KeptAt(Abstract([item] + Without(items, k), slots), if k < p then p else p + 1, key, e, used);
  }

  lemma KeptByTouch<V>(a: Abstract<V>, op: Op<V>, key: u64, e: Entry<V>, used: set<u64>)
    requires Kept(a, key, e, used) && Spares(op, key, e, 0) && Find(a.items, op.key) < |a.items|
    requires key !in used && (!op.OpInvalidate? && op.key != key ==> op.key in used)
    ensures Kept(AbsStep(a, op), key, e, used)
  {
    var k := Find(a.items, op.key);
    var next := AbsStep(a, op);
    if op.key == key {
      assert next.items[0] == Item(key, e);
      KeptAt(next, 0, key, e, used);
    } else if |next.items| == |a.items| - 1 {
      KeptByDrop(a.items, a.slots, k, key, e, used);
    } else {
      KeptByFront(a.items, a.slots, k, next.items[0], key, e, used);
    }
  }

  lemma KeptByNew<V>(a: Abstract<V>, op: Op<V>, key: u64, e: Entry<V>, used: set<u64>, c: nat)
    requires DistinctKeys(a.items) && Kept(a, key, e, used) && op.OpInsert? && AtLeastOne(op.max) >= c
    requires key !in used && op.key in used && Find(a.items, op.key) == |a.items| && |used| < c
    ensures Kept(AbsStep(a, op), key, e, used)
  {
    var p := Find(a.items, key);
    if |a.items| >= c && p == |a.items| - 1 {
      assert false by {
        assert used == (used - {op.key}) + {op.key};
        DistinctKeysCount(a.items[..p], used - {op.key});
      }
    }
    KeptAt(AbsStep(a, op), p + 1, key, e, used);
  }

  lemma KeptAt<V>(a: Abstract<V>, p: nat, key: u64, e: Entry<V>, used: set<u64>)
    requires p < |a.items| && a.items[p] == Item(key, e) && key !in used
    requires forall i | 0 <= i < p :: a.items[i].key in used
    ensures Kept(a, key, e, used)
  {}

  lemma {:induction false} UsedExcludes<V>(ops: seq<Op<V>>, key: u64)
    ensures key !in Used(ops, key)
  {
    if ops != [] { UsedExcludes(ops[..|ops| - 1], key); }
  }

  /**
   The LRU guarantee: an entry stays cached as long as fewer than `c` other keys have been used since
   it was stored, where every capacity granted meanwhile is at least `c`.
   */
  lemma {:induction false} Retention<V>(before: seq<Op<V>>, after: seq<Op<V>>, key: u64, e: Entry<V>, max: u64, c: nat)
    requires (max >= c || c <= 1) && |Used(after, key)| < c
    requires forall i | 0 <= i < |after| :: Spares(after[i], key, e, c)
    ensures Kept(AbsRun(before + [OpInsert(key, e, max)] + after), key, e, Used(after, key))
  {
    var ops := before + [OpInsert(key, e, max)] + after;
    var n := |ops| - 1;
    if after == [] {
      assert ops[..n] == before;
      RunBounds(before);
      KeptAt(AbsRun(ops), 0, key, e, {});
    } else {
      var init := after[..|after| - 1];
      assert ops[..n] == before + [OpInsert(key, e, max)] + init && ops[n] == after[|after| - 1];
      UsedGrows(after, key);
      Retention(before, init, key, e, max, c);
      RetainedStep(ops, after, key, e, c);
    }
  }

  lemma {:induction false} RetainedStep<V>(ops: seq<Op<V>>, after: seq<Op<V>>, key: u64, e: Entry<V>, c: nat)
    requires ops != [] && after != [] && ops[|ops| - 1] == after[|after| - 1]
    requires Kept(AbsRun(ops[..|ops| - 1]), key, e, Used(after[..|after| - 1], key))
    requires Spares(after[|after| - 1], key, e, c) && |Used(after, key)| < c
    ensures Kept(AbsRun(ops), key, e, Used(after, key))
  {
    RunBounds(ops[..|ops| - 1]);
    UsedExcludes(after, key);
    KeptByStep(AbsRun(ops[..|ops| - 1]), ops[|ops| - 1], key, e, Used(after, key), c);
  }

  lemma {:induction false} UsedGrows<V>(ops: seq<Op<V>>, key: u64)
    requires ops != []
    ensures Used(ops[..|ops| - 1], key) <= Used(ops, key)
    ensures |Used(ops[..|ops| - 1], key)| <= |Used(ops, key)|
  {
    var a, b := Used(ops[..|ops| - 1], key), Used(ops, key);
    assert b == a + (b - a);
  }

  // ----- what a lookup answers, in any run -----

  lemma {:induction false} AbsGetIsFresh<V>(ops: seq<Op<V>>, key: u64, now: nat)
    ensures var hit := AbsGet(AbsRun(ops), key, now).1;
            hit.Some? ==> hit == Latest(ops, key) && now < hit.value.expiresAt
  {
    ItemsAreLatest(ops);
  }

  /** A hit is the latest stored entry of its key, not invalidated and not expired. */
  lemma {:induction false} GetIsFresh<V>(initial: u64, ops: seq<Op<V>>, key: u64, now: nat)
    ensures var hit := Get(Run(initial, ops, false), key, now).1;
            hit.Some? ==> hit == Latest(ops, key) && now < hit.value.expiresAt
  {
    AbsGetIsFresh(ops, key, now);
    var order := RunRefines(initial, ops);
    var o := GetRefines(Run(initial, ops, false), order, AbsRun(ops), key, now);
  }

  /** A retained entry is found by every lookup made before it expires. */
  lemma {:induction false} GetFindsRetained<V>(initial: u64, before: seq<Op<V>>, after: seq<Op<V>>, key: u64,
                                               e: Entry<V>,
                            max: u64, c: nat, now: nat)
    requires (max >= c || c <= 1) && |Used(after, key)| < c && now < e.expiresAt
    requires forall i | 0 <= i < |after| :: Spares(after[i], key, e, c)
    ensures Get(Run(initial, before + [OpInsert(key, e, max)] + after, false), key, now).1 == Some(e)
  {
    var ops := before + [OpInsert(key, e, max)] + after;
    Retention(before, after, key, e, max, c);
    var order := RunRefines(initial, ops);
    var o := GetRefines(Run(initial, ops, false), order, AbsRun(ops), key, now);
  }

  /** The node vector never outgrows the largest capacity ever set. */
  lemma {:induction false} SizeBound<V>(initial: u64, ops: seq<Op<V>>)
    ensures var s := Run(initial, ops, false);
            |s.index| <= |s.nodes| <= LargestMax(ops) && Valid(s)
  {
    var order := RunRefines(initial, ops);
    RunBounds(ops);
    var s := Run(initial, ops, false);
    IndexCount(s.index, |s.nodes|);
  }

  /** An injective index into `n` slots has at most `n` keys. */
  lemma {:induction false} IndexCount(index: map<u64, nat>, n: nat)
    requires forall k | k in index :: index[k] < n
    requires forall k, k' | k in index && k' in index && index[k] == index[k'] :: k == k'
    ensures |index| <= n
  {
    if n > 0 {
      if k :| k in index && index[k] == n - 1 {
        var rest := index - {k};
        assert rest.Keys == index.Keys - {k};
        IndexCount(rest, n - 1);
      } else {
        IndexCount(index, n - 1);
      }
    } else {
      assert index == map[];
    }
  }

  // ----- the program as written -----

  ghost predicate SomeStepEvicts<V>(initial: u64, ops: seq<Op<V>>) {
    exists i | 0 <= i < |ops| :: EvictsAt(initial, ops, i)
  }

  ghost predicate EvictsAt<V>(initial: u64, ops: seq<Op<V>>, i: nat)
    requires i < |ops|
  {
    && ops[i].OpInsert?
    && Evicts(Run(initial, ops[..i], true).(maxEntries := AtLeastOne(ops[i].max)), ops[i].key)
  }

  lemma {:induction false} RunIsValid<V>(initial: u64, ops: seq<Op<V>>)
    ensures Valid(Run(initial, ops, false))
  {
    var order := RunRefines(initial, ops);
  }

  lemma {:induction false} EvictionBreaks<V>(initial: u64, ops: seq<Op<V>>, i: nat)
    requires i < |ops| && EvictsAt(initial, ops, i) && Valid(Run(initial, ops[..i], true))
    ensures !Valid(Run(initial, ops[..i + 1], true))
  {
    assert ops[..i + 1][..i] == ops[..i];
    EvictionBreaksStep(Run(initial, ops[..i], true), AtLeastOne(ops[i].max), ops[i].key, ops[i].entry);
  }

  lemma EvictionBreaksStep<V>(s: State<V>, max: u64, key: u64, entry: Entry<V>)
    requires Valid(s) && Evicts(s.(maxEntries := max), key)
    ensures !Valid(Insert(s.(maxEntries := max), key, entry, true))
  {
    CapacityValid(s, max);
    InsertAsWrittenExactly(s.(maxEntries := max), key, entry);
  }

  lemma CapacityValid<V>(s: State<V>, max: u64)
    requires Valid(s)
    ensures Valid(s.(maxEntries := max))
  {
    var order :| Inv(s, order);
    CapacityOnly(s, order, Abstract(Contents(s, order), |s.nodes|), max);
    assert Inv(s.(maxEntries := max), order);
  }

  lemma NoEvictionBefore<V>(initial: u64, ops: seq<Op<V>>, n: nat)
    requires !SomeStepEvicts(initial, ops) && n <= |ops|
    ensures !SomeStepEvicts(initial, ops[..n])
  {
    forall i | 0 <= i < n ensures !EvictsAt(initial, ops[..n], i) {
      assert !EvictsAt(initial, ops, i) && ops[..n][..i] == ops[..i];
    }
  }

  /** Until its first eviction the program as written runs exactly like the repaired one. */
  lemma {:induction false} AsWrittenUntilEviction<V>(initial: u64, ops: seq<Op<V>>)
    requires !SomeStepEvicts(initial, ops)
    ensures Run(initial, ops, true) == Run(initial, ops, false)
    ensures Valid(Run(initial, ops, true))
  {
    RunIsValid(initial, ops);
    if ops != [] {
      var n := |ops| - 1;
      NoEvictionBefore(initial, ops, n);
      AsWrittenUntilEviction(initial, ops[..n]);
      assert !EvictsAt(initial, ops, n);
      if ops[n].OpInsert? {
        SameUnlessEvicting(Run(initial, ops[..n], true).(maxEntries := AtLeastOne(ops[n].max)), ops[n].key, ops[n].entry);
      }
    }
  }

  /** The invariant holds along the whole run of the program as written iff no step evicts. */
  lemma {:induction false} AsWrittenExactly<V>(initial: u64, ops: seq<Op<V>>)
    ensures (forall i | 0 <= i <= |ops| :: Valid(Run(initial, ops[..i], true))) <==> !SomeStepEvicts(initial, ops)
  {
    if !SomeStepEvicts(initial, ops) {
      forall i | 0 <= i <= |ops| ensures Valid(Run(initial, ops[..i], true)) {
        NoEvictionBefore(initial, ops, i);
        AsWrittenUntilEviction(initial, ops[..i]);
      }
    } else {
      var i :| 0 <= i < |ops| && EvictsAt(initial, ops, i);
      if Valid(Run(initial, ops[..i], true)) { EvictionBreaks(initial, ops, i); }
    }
  }

  function OneEntry<V>(a: Entry<V>): State<V> {
    State(map[1 := 0], [LruNode(1, Some(a), NULL_NODE, NULL_NODE)], 0, 0, 1, [])
  }

  lemma {:induction false} FirstInsertion<V>(a: Entry<V>, asWritten: bool)
    ensures Run(1, [OpInsert(1, a, 1)], asWritten) == OneEntry(a)
  {}

  lemma {:induction false} RunThree<V>(o1: Op<V>, o2: Op<V>, o3: Op<V>, asWritten: bool)
    ensures Run(1, [o1, o2, o3], asWritten) == Step(Step(Run(1, [o1], asWritten), o2, asWritten), o3, asWritten)
  {
    assert [o1, o2, o3] == [o1, o2] + [o3] && [o1, o2] == [o1] + [o2];
    RunNext(1, [o1], o2, asWritten);
    RunNext(1, [o1, o2], o3, asWritten);
  }

  lemma RepairedMisses<V>(a: Entry<V>, b: Entry<V>, c: Entry<V>, now: nat)
    ensures Get(Insert(Insert(OneEntry(a), 2, b, false), 3, c, false), 2, now).1.None?
  {}

  lemma LatestOfThree<V>(a: Entry<V>, b: Entry<V>, c: Entry<V>)
    ensures Latest([OpInsert(1, a, 1), OpInsert(2, b, 1), OpInsert(3, c, 1)], 2) == Some(b)
  {
    var o1, o2, o3 := OpInsert(1, a, 1), OpInsert(2, b, 1), OpInsert(3, c, 1);
    assert [o1, o2, o3][..2] == [o1, o2];
  }

  /** Three insertions into a one-entry cache: as written, the second key answers with the third entry. */
  lemma WitnessWrongEntry<V>(a: Entry<V>, b: Entry<V>, c: Entry<V>, now: nat)
    requires now < c.expiresAt
    ensures var ops := [OpInsert(1, a, 1), OpInsert(2, b, 1), OpInsert(3, c, 1)];
            && Latest(ops, 2) == Some(b)
            && Get(Run(1, ops, true), 2, now).1 == Some(c)
            && Get(Run(1, ops, false), 2, now).1.None?
  {
    LatestOfThree(a, b, c);
    FirstInsertion(a, true);
    FirstInsertion(a, false);
    RunThree(OpInsert(1, a, 1), OpInsert(2, b, 1), OpInsert(3, c, 1), true);
    RunThree(OpInsert(1, a, 1), OpInsert(2, b, 1), OpInsert(3, c, 1), false);
    InsertTwice(OneEntry(a), b, c);
    NextInsertShares(OneEntry(a), 2, b, 3, c, now);
    RepairedMisses(a, b, c, now);
  }

  lemma InsertTwice<V>(s: State<V>, b: Entry<V>, c: Entry<V>)
    requires InRange(s) && s.maxEntries == 1
    ensures Step(Step(s, OpInsert(2, b, 1), true), OpInsert(3, c, 1), true) == Insert(Insert(s, 2, b, true), 3, c, true)
    ensures Step(Step(s, OpInsert(2, b, 1), false), OpInsert(3, c, 1), false) == Insert(Insert(s, 2, b, false), 3, c, false)
  {
    KeepsCapacity(s, 2, b, true);
    KeepsCapacity(s, 2, b, false);
  }

  lemma KeepsCapacity<V>(s: State<V>, key: u64, entry: Entry<V>, asWritten: bool)
    requires InRange(s)
    ensures Insert(s, key, entry, asWritten).maxEntries == s.maxEntries
  {}
}
