/**
 The response cache: an LRU list threaded through a node vector by indices, with a hash index and
 a free list. The abstract object is a most-recent-first list of entries plus a slot count.
 */
module RouteCache {
  import opened Prelude

  const NULL_NODE: nat := U64_MAX

  datatype Entry<+V> = Entry(response: V, expiresAt: nat)

  datatype LruNode<+V> = LruNode(key: u64, value: Option<Entry<V>>, prev: nat, next: nat)

  datatype State<V> = State(
    index: map<u64, nat>,
    nodes: seq<LruNode<V>>,
    head: nat,
    tail: nat,
    maxEntries: u64,
    free: seq<nat>)

  // ----- the program's steps, on values -----

  predicate Link<V>(s: State<V>, i: nat) {
    i == NULL_NODE || i < |s.nodes|
  }

  /** Every index stored anywhere is one the program may dereference. */
  predicate InRange<V>(s: State<V>) {
    && |s.nodes| <= NULL_NODE
    && Link(s, s.head) && Link(s, s.tail)
    && (forall i | 0 <= i < |s.nodes| :: Link(s, s.nodes[i].prev) && Link(s, s.nodes[i].next))
    && (forall i | 0 <= i < |s.free| :: s.free[i] < |s.nodes|)
    && (forall k | k in s.index :: s.index[k] < |s.nodes|)
  }

  /** Relinking does not touch keys and values. */
  ghost predicate SameData<V>(s: State<V>, t: State<V>) {
    && |t.nodes| == |s.nodes| && t.index == s.index && t.free == s.free && t.maxEntries == s.maxEntries
    && forall i | 0 <= i < |s.nodes| :: t.nodes[i].key == s.nodes[i].key && t.nodes[i].value == s.nodes[i].value
  }

  function New<V>(maxEntries: u64): (s: State<V>)
    ensures InRange(s)
  {
    State(map[], [], NULL_NODE, NULL_NODE, maxEntries, [])
  }

  function PushHead<V>(s: State<V>, i: nat): (t: State<V>)
    requires InRange(s) && i < |s.nodes|
    ensures InRange(t) && SameData(s, t)
  {
    var linked := s.nodes[i := s.nodes[i].(prev := NULL_NODE, next := s.head)];
    var nodes := if s.head != NULL_NODE then linked[s.head := linked[s.head].(prev := i)] else linked;
    s.(nodes := nodes, head := i, tail := if s.tail == NULL_NODE then i else s.tail)
  }

  function RemoveLink<V>(s: State<V>, i: nat): (t: State<V>)
    requires InRange(s) && i < |s.nodes|
    ensures InRange(t) && SameData(s, t)
  {
    var prev, next := s.nodes[i].prev, s.nodes[i].next;
    var a := if prev != NULL_NODE then s.(nodes := s.nodes[prev := s.nodes[prev].(next := next)])
             else s.(head := next);
    if next != NULL_NODE then a.(nodes := a.nodes[next := a.nodes[next].(prev := prev)])
    else a.(tail := prev)
  }

  function RemoveNode<V>(s: State<V>, i: nat): (t: State<V>)
    requires InRange(s) && i < |s.nodes|
    ensures InRange(t) && |t.nodes| == |s.nodes|
  {
    var u := RemoveLink(s, i);
    u.(nodes := u.nodes[i := u.nodes[i].(value := None)], free := u.free + [i])
  }

  function MoveToHead<V>(s: State<V>, i: nat): (t: State<V>)
    requires InRange(s) && i < |s.nodes|
    ensures InRange(t) && SameData(s, t)
  {
    if s.head == i then s else PushHead(RemoveLink(s, i), i)
  }

  predicate Live<V>(s: State<V>, key: u64, now: nat)
    requires InRange(s)
  {
    key in s.index && s.nodes[s.index[key]].value.Some? && now < s.nodes[s.index[key]].value.value.expiresAt
  }

  /** Frees the slot of a cached key and forgets the key. */
  function Delete<V>(s: State<V>, key: u64): (t: State<V>)
    requires InRange(s) && key in s.index
    ensures InRange(t)
  {
    var u := RemoveNode(s, s.index[key]);
    u.(index := u.index - {key})
  }

  function Get<V>(s: State<V>, key: u64, now: nat): (r: (State<V>, Option<Entry<V>>))
    requires InRange(s)
    ensures InRange(r.0)
  {
    if key !in s.index then (s, None)
    else if Live(s, key, now) then (MoveToHead(s, s.index[key]), s.nodes[s.index[key]].value)
    else (Delete(s, key), None)
  }

  function Invalidate<V>(s: State<V>, key: u64): (t: State<V>)
    requires InRange(s)
    ensures InRange(t)
  {
    if key !in s.index then s else Delete(s, key)
  }

  /** The insertion takes the branch that evicts the tail. */
  predicate Evicts<V>(s: State<V>, key: u64) {
    key !in s.index && s.free == [] && |s.nodes| >= s.maxEntries && s.tail != NULL_NODE
  }

  /** `asWritten` is the program's eviction, which also pushes the reused index on the free list. */
  function Evict<V>(s: State<V>, asWritten: bool): (t: State<V>)
    requires InRange(s) && s.tail != NULL_NODE
    ensures InRange(t) && |t.nodes| == |s.nodes|
  {
    var i := s.tail;
    var u := if asWritten then RemoveNode(s, i) else RemoveLink(s, i);
    u.(index := u.index - {s.nodes[i].key})
  }

  /** Writes a fresh key into slot `i` and makes it the head. */
  function Occupy<V>(s: State<V>, i: nat, key: u64, entry: Entry<V>): (t: State<V>)
    requires InRange(s) && i < |s.nodes|
    ensures InRange(t)
  {
    PushHead(s.(nodes := s.nodes[i := s.nodes[i].(key := key, value := Some(entry))],
                index := s.index[key := i]), i)
  }

  function Insert<V>(s: State<V>, key: u64, entry: Entry<V>, asWritten: bool): (t: State<V>)
    requires InRange(s)
    ensures InRange(t)
  {
    if key in s.index then
      var i := s.index[key];
      MoveToHead(s.(nodes := s.nodes[i := s.nodes[i].(value := Some(entry))]), i)
    else if s.free != [] then
      var n := |s.free| - 1;
      Occupy(s.(free := s.free[..n]), s.free[n], key, entry)
    else if |s.nodes| < s.maxEntries then
      var u := s.(nodes := s.nodes + [LruNode(0, None, NULL_NODE, NULL_NODE)]);
      Occupy(u, |s.nodes|, key, entry)
    else if s.tail != NULL_NODE then
      Occupy(Evict(s, asWritten), s.tail, key, entry)
    else s
  }

  // ----- the representation invariant -----

  ghost predicate Distinct(xs: seq<nat>) {
    forall i, j | 0 <= i < j < |xs| :: xs[i] != xs[j]
  }

  /** `order[k]`; mentioning it brings in the facts about the links at position `k`. */
  ghost function At(order: seq<nat>, k: nat): nat
    requires k < |order|
  {
    order[k]
  }

  /** The links spell out `order` from head to tail: mutually inverse, hence acyclic. */
  ghost predicate Linked<V>(s: State<V>, order: seq<nat>) {
    && InRange(s)
    && Distinct(order)
    && (forall k | 0 <= k < |order| :: order[k] < |s.nodes|)
    && s.head == (if |order| == 0 then NULL_NODE else order[0])
    && s.tail == (if |order| == 0 then NULL_NODE else order[|order| - 1])
    && (forall k {:trigger At(order, k)} | 0 <= k < |order| ::
          && s.nodes[At(order, k)].prev == (if k == 0 then NULL_NODE else order[k - 1])
          && s.nodes[At(order, k)].next == (if k == |order| - 1 then NULL_NODE else order[k + 1]))
  }

  /** The hash index is a bijection between the keys and the live slots. */
  ghost predicate Indexed<V>(s: State<V>, order: seq<nat>)
    requires forall k | 0 <= k < |order| :: order[k] < |s.nodes|
  {
    && (forall k {:trigger s.nodes[order[k]]} | 0 <= k < |order| ::
          && s.nodes[order[k]].value.Some?
          && s.nodes[order[k]].key in s.index
          && s.index[s.nodes[order[k]].key] == order[k])
    && (forall key | key in s.index ::
          s.index[key] in order && s.index[key] < |s.nodes| && s.nodes[s.index[key]].key == key)
  }

  /** Live and free slots partition the node vector. */
  ghost predicate Partition<V>(s: State<V>, order: seq<nat>) {
    && Distinct(s.free)
    && (forall i | 0 <= i < |s.free| :: s.free[i] !in order)
    && (forall i | 0 <= i < |s.nodes| :: i in order || i in s.free)
  }

  ghost predicate Inv<V>(s: State<V>, order: seq<nat>) {
    Linked(s, order) && Indexed(s, order) && Partition(s, order)
  }

  ghost predicate Valid<V>(s: State<V>) {
    exists order :: Inv(s, order)
  }

  // ----- the list operations -----

  function Without<T>(xs: seq<T>, k: nat): seq<T>
    requires k < |xs|
  {
    xs[..k] + xs[k + 1..]
  }

  lemma PushHeadLinked<V>(s: State<V>, i: nat, order: seq<nat>)
    requires Linked(s, order) && i < |s.nodes| && i !in order
    ensures Linked(PushHead(s, i), [i] + order)
  {
    var o, t := [i] + order, PushHead(s, i);
    forall k {:trigger At(o, k)} | 0 <= k < |o|
      ensures t.nodes[At(o, k)].prev == (if k == 0 then NULL_NODE else o[k - 1])
      ensures t.nodes[At(o, k)].next == (if k == |o| - 1 then NULL_NODE else o[k + 1])
    {
      if k > 0 { assert At(o, k) == At(order, k - 1); }
    }
  }

  /** `t` is `s` with slot `i` bypassed, link by link. */
  ghost predicate Bypassed<V>(s: State<V>, t: State<V>, i: nat)
    requires i < |s.nodes|
  {
    var prev, next := s.nodes[i].prev, s.nodes[i].next;
    && |t.nodes| == |s.nodes| && InRange(t)
    && t.head == (if prev == NULL_NODE then next else s.head)
    && t.tail == (if next == NULL_NODE then prev else s.tail)
    && (forall x | 0 <= x < |s.nodes| ::
          && t.nodes[x].next == (if x == prev then next else s.nodes[x].next)
          && t.nodes[x].prev == (if x == next then prev else s.nodes[x].prev))
  }

  lemma RemoveLinkBypasses<V>(s: State<V>, i: nat)
    requires InRange(s) && i < |s.nodes|
    ensures Bypassed(s, RemoveLink(s, i), i)
  {}

  /** The links of the slot at position `m`, which is not the bypassed position `k`. */
  lemma BypassedAt<V>(s: State<V>, t: State<V>, k: nat, order: seq<nat>, m: nat)
    requires Linked(s, order) && k < |order| && m < |order| && m != k && Bypassed(s, t, order[k])
    ensures t.nodes[order[m]].prev == (if m == 0 || (m == 1 && k == 0) then NULL_NODE
                                       else if m == k + 1 then order[k - 1] else order[m - 1])
    ensures t.nodes[order[m]].next == (if m == |order| - 1 || (m == |order| - 2 && k == |order| - 1) then NULL_NODE
                                       else if m + 1 == k then order[k + 1] else order[m + 1])
  {
    assert s.nodes[At(order, m)].next == (if m == |order| - 1 then NULL_NODE else order[m + 1]);
    assert s.nodes[At(order, k)].next == (if k == |order| - 1 then NULL_NODE else order[k + 1]);
  }

  lemma BypassedLinked<V>(s: State<V>, t: State<V>, k: nat, order: seq<nat>)
    requires Linked(s, order) && k < |order| && Bypassed(s, t, order[k])
    ensures Linked(t, Without(order, k))
  {
    var w := Without(order, k);
    forall j {:trigger At(w, j)} | 0 <= j < |w|
      ensures At(w, j) == order[if j < k then j else j + 1]
      ensures t.nodes[At(w, j)].prev == (if j == 0 then NULL_NODE else w[j - 1])
      ensures t.nodes[At(w, j)].next == (if j == |w| - 1 then NULL_NODE else w[j + 1])
    {
      BypassedAt(s, t, k, order, if j < k then j else j + 1);
    }
    BypassedEnds(s, t, k, order);
  }

  lemma BypassedEnds<V>(s: State<V>, t: State<V>, k: nat, order: seq<nat>)
    requires Linked(s, order) && k < |order| && Bypassed(s, t, order[k])
    ensures var w := Without(order, k);
            && t.head == (if |w| == 0 then NULL_NODE else w[0])
            && t.tail == (if |w| == 0 then NULL_NODE else w[|w| - 1])
  {
    assert s.nodes[At(order, k)].prev == (if k == 0 then NULL_NODE else order[k - 1]);
  }

  lemma RemoveLinkLinked<V>(s: State<V>, k: nat, order: seq<nat>)
    requires Linked(s, order) && k < |order|
    ensures Linked(RemoveLink(s, order[k]), Without(order, k))
    ensures order[k] !in Without(order, k)
  {
    RemoveLinkBypasses(s, order[k]);
    BypassedLinked(s, RemoveLink(s, order[k]), k, order);
  }

  // ----- the abstract cache -----

  datatype Item<V> = Item(key: u64, entry: Entry<V>)

  /** Entries from most to least recently used, and the number of slots allocated so far. */
  datatype Abstract<V> = Abstract(items: seq<Item<V>>, slots: nat)

  function Find<V>(items: seq<Item<V>>, key: u64): (k: nat)
    ensures k <= |items|
    ensures k < |items| ==> items[k].key == key
    ensures forall j | 0 <= j < k :: items[j].key != key
  {
    if items == [] || items[0].key == key then 0 else 1 + Find(items[1..], key)
  }

  function Drop<V>(items: seq<Item<V>>, key: u64): seq<Item<V>> {
    var k := Find(items, key);
    if k < |items| then Without(items, k) else items
  }

  function AbsGet<V>(a: Abstract<V>, key: u64, now: nat): (Abstract<V>, Option<Entry<V>>) {
    var k := Find(a.items, key);
    if k == |a.items| then (a, None)
    else if now < a.items[k].entry.expiresAt then
      (a.(items := [a.items[k]] + Drop(a.items, key)), Some(a.items[k].entry))
    else (a.(items := Drop(a.items, key)), None)
  }

  function AbsInvalidate<V>(a: Abstract<V>, key: u64): Abstract<V> {
    a.(items := Drop(a.items, key))
  }

  /** A new key takes a spare slot, else allocates one, else replaces the least recent entry. */
  function AbsInsert<V>(a: Abstract<V>, maxEntries: nat, key: u64, entry: Entry<V>): Abstract<V> {
    if Find(a.items, key) < |a.items| then a.(items := [Item(key, entry)] + Drop(a.items, key))
    else if |a.items| < a.slots then a.(items := [Item(key, entry)] + a.items)
    else if a.slots < maxEntries then Abstract([Item(key, entry)] + a.items, a.slots + 1)
    else if |a.items| > 0 then a.(items := [Item(key, entry)] + Without(a.items, |a.items| - 1))
    else a
  }

  ghost predicate Filled<V>(s: State<V>, order: seq<nat>) {
    && (forall k | 0 <= k < |order| :: order[k] < |s.nodes|)
    && (forall k {:trigger s.nodes[order[k]]} | 0 <= k < |order| :: s.nodes[order[k]].value.Some?)
  }

  function ItemAt<V>(s: State<V>, i: nat): Item<V>
    requires i < |s.nodes| && s.nodes[i].value.Some?
  {
    Item(s.nodes[i].key, s.nodes[i].value.value)
  }

  lemma {:induction false} AbsInsertCases<V>(a: Abstract<V>, maxEntries: nat, key: u64, entry: Entry<V>)
    ensures var k, t := Find(a.items, key), AbsInsert(a, maxEntries, key, entry);
            && (k < |a.items| ==> t == Abstract([Item(key, entry)] + Without(a.items, k), a.slots))
            && (k == |a.items| < a.slots ==> t == Abstract([Item(key, entry)] + a.items, a.slots))
            && (k == |a.items| == a.slots < maxEntries ==> t == Abstract([Item(key, entry)] + a.items, a.slots + 1))
  {}

  /** What the concrete state stands for. */
  ghost function Contents<V>(s: State<V>, order: seq<nat>): (items: seq<Item<V>>)
    requires Filled(s, order)
    ensures |items| == |order|
  {
    if order == [] then [] else [ItemAt(s, order[0])] + Contents(s, order[1..])
  }

  lemma {:induction false} ContentsAt<V>(s: State<V>, order: seq<nat>, k: nat)
    requires Filled(s, order) && k < |order|
    ensures Contents(s, order)[k] == ItemAt(s, order[k])
  {
    if k > 0 { ContentsAt(s, order[1..], k - 1); }
  }

  /** `order` witnesses that `s` satisfies the invariant and stands for `a`. */
  ghost predicate Refines<V>(s: State<V>, order: seq<nat>, a: Abstract<V>) {
    Inv(s, order) && a == Abstract(Contents(s, order), |s.nodes|)
  }

  /** A key is found at the position its slot has in the order. */
  lemma {:induction false} FindIsPosition<V>(s: State<V>, order: seq<nat>, key: u64)
    requires Inv(s, order)
    ensures var k := Find(Contents(s, order), key);
            if key in s.index then k < |order| && order[k] == s.index[key] else k == |order|
  {
    var items := Contents(s, order);
    var k := Find(items, key);
    if k < |order| { ContentsAt(s, order, k); }
    if key in s.index {
      var m :| 0 <= m < |order| && order[m] == s.index[key];
      ContentsAt(s, order, m);
      assert items[m].key == key;
    }
  }

  lemma MoveToHeadLinked<V>(s: State<V>, order: seq<nat>, k: nat)
    requires Linked(s, order) && k < |order|
    ensures Linked(MoveToHead(s, order[k]), [order[k]] + Without(order, k))
  {
    if k == 0 {
      assert [order[k]] + Without(order, k) == order;
    } else {
      assert order[0] != order[k];
      RemoveLinkLinked(s, k, order);
      PushHeadLinked(RemoveLink(s, order[k]), order[k], Without(order, k));
    }
  }

  /** The invariant depends on the order only through its links and its set of slots. */
  lemma SameSlots<V>(s: State<V>, t: State<V>, order: seq<nat>, order': seq<nat>)
    requires Inv(s, order) && Linked(t, order') && SameData(s, t)
    requires forall i :: i in order <==> i in order'
    ensures Inv(t, order')
  {
    forall k | 0 <= k < |order'|
      ensures t.nodes[order'[k]].value.Some? && t.nodes[order'[k]].key in t.index
      ensures t.index[t.nodes[order'[k]].key] == order'[k]
    {
      assert order'[k] in order;
    }
  }

  function MoveFront<T>(xs: seq<T>, k: nat): seq<T>
    requires k < |xs|
  {
    [xs[k]] + Without(xs, k)
  }

  /** Position in the original list of what stands at position `j` after moving `k` to the front. */
  function Origin(k: nat, j: nat): nat {
    if j == 0 then k else if j <= k then j - 1 else j
  }

  lemma MoveFrontAt<T>(xs: seq<T>, k: nat, j: nat)
    requires k < |xs| && j < |xs|
    ensures |MoveFront(xs, k)| == |xs| && MoveFront(xs, k)[j] == xs[Origin(k, j)]
  {}

  lemma MoveFrontMembers<T>(xs: seq<T>, k: nat, x: T)
    requires k < |xs|
    ensures x in MoveFront(xs, k) <==> x in xs
  {
    assert xs == xs[..k] + [xs[k]] + xs[k + 1..];
  }

  lemma {:induction false} ContentsMoved<V>(s: State<V>, t: State<V>, order: seq<nat>, k: nat)
    requires Inv(s, order) && k < |order| && SameData(s, t)
    requires Linked(t, MoveFront(order, k))
    ensures Refines(t, MoveFront(order, k), Abstract(MoveFront(Contents(s, order), k), |s.nodes|))
  {
    var o := MoveFront(order, k);
    forall i ensures i in order <==> i in o { MoveFrontMembers(order, k, i); }
    SameSlots(s, t, order, o);
    SameItems(s, t, order, o, k);
  }

  lemma {:induction false} SameItems<V>(s: State<V>, t: State<V>, order: seq<nat>, o: seq<nat>, k: nat)
    requires k < |order| && SameData(s, t) && o == MoveFront(order, k)
    requires Filled(s, order) && Filled(t, o)
    ensures Contents(t, o) == MoveFront(Contents(s, order), k)
  {
    var before, after := Contents(s, order), Contents(t, o);
    MoveFrontAt(order, k, 0);
    MoveFrontAt(before, k, 0);
    forall j | 0 <= j < |o| ensures after[j] == MoveFront(before, k)[j] {
      MoveFrontAt(order, k, j);
      MoveFrontAt(before, k, j);
      ContentsAt(s, order, Origin(k, j));
      ContentsAt(t, o, j);
    }
  }

  lemma {:induction false} MoveToHeadRefines<V>(s: State<V>, order: seq<nat>, k: nat)
    requires Inv(s, order) && k < |order|
    ensures Refines(MoveToHead(s, order[k]), MoveFront(order, k),
                    Abstract(MoveFront(Contents(s, order), k), |s.nodes|))
  {
    MoveToHeadLinked(s, order, k);
    ContentsMoved(s, MoveToHead(s, order[k]), order, k);
  }

  // ----- removing a slot -----

  lemma WithoutMembers(xs: seq<nat>, k: nat, x: nat)
    requires k < |xs| && Distinct(xs)
    ensures x in Without(xs, k) <==> x in xs && x != xs[k]
  {
    assert xs == xs[..k] + [xs[k]] + xs[k + 1..];
  }

  /** `s` minus slot `i`, which is then in neither the list nor the free list. */
  ghost predicate Spare<V>(s: State<V>, order: seq<nat>, i: nat) {
    && Linked(s, order) && Indexed(s, order) && Distinct(s.free)
    && i < |s.nodes| && i !in order && i !in s.free
    && (forall j | 0 <= j < |s.free| :: s.free[j] !in order)
    && (forall x | 0 <= x < |s.nodes| && x != i :: x in order || x in s.free)
  }

  /** `t` keeps the data of every slot but `i`. */
  ghost predicate SameButSlot<V>(s: State<V>, t: State<V>, i: nat) {
    && |t.nodes| == |s.nodes|
    && forall x | 0 <= x < |s.nodes| && x != i ::
         t.nodes[x].key == s.nodes[x].key && t.nodes[x].value == s.nodes[x].value
  }

  lemma UnlinkedIndexed<V>(s: State<V>, t: State<V>, order: seq<nat>, k: nat)
    requires Filled(s, order) && Indexed(s, order) && Distinct(order) && k < |order|
    requires SameButSlot(s, t, order[k]) && t.index == s.index - {s.nodes[order[k]].key}
    ensures Filled(t, Without(order, k)) && Indexed(t, Without(order, k))
  {
    var w := Without(order, k);
    forall j {:trigger t.nodes[w[j]]} | 0 <= j < |w|
      ensures w[j] < |t.nodes|
      ensures t.nodes[w[j]].value.Some? && t.nodes[w[j]].key in t.index
      ensures t.index[t.nodes[w[j]].key] == w[j]
    {
      var m := if j < k then j else j + 1;
      assert w[j] == order[m] != order[k];
      assert s.index[s.nodes[order[m]].key] == order[m];
    }
    forall key | key in t.index
      ensures t.index[key] in w && t.index[key] < |t.nodes| && t.nodes[t.index[key]].key == key
    {
      assert s.index[key] in order;
      WithoutMembers(order, k, s.index[key]);
    }
  }

  lemma {:induction false} UnlinkedSpare<V>(s: State<V>, t: State<V>, order: seq<nat>, k: nat)
    requires Inv(s, order) && k < |order|
    requires Linked(t, Without(order, k)) && SameButSlot(s, t, order[k])
    requires t.index == s.index - {s.nodes[order[k]].key} && t.free == s.free
    ensures Spare(t, Without(order, k), order[k])
    ensures Contents(t, Without(order, k)) == Without(Contents(s, order), k)
  {
    forall x ensures x in Without(order, k) <==> x in order && x != order[k] { WithoutMembers(order, k, x); }
    UnlinkedIndexed(s, t, order, k);
    WithoutItems(s, t, order, k);
  }

  lemma {:induction false} WithoutItems<V>(s: State<V>, t: State<V>, order: seq<nat>, k: nat)
    requires k < |order| && Distinct(order) && SameButSlot(s, t, order[k])
    requires Filled(s, order) && Filled(t, Without(order, k))
    ensures Contents(t, Without(order, k)) == Without(Contents(s, order), k)
  {
    var w, before := Without(order, k), Contents(s, order);
    forall j | 0 <= j < |w| ensures Contents(t, w)[j] == Without(before, k)[j] {
      var m := if j < k then j else j + 1;
      assert w[j] == order[m];
      ContentsAt(s, order, m);
      ContentsAt(t, w, j);
    }
  }

  lemma {:induction false} DeleteSpare<V>(s: State<V>, u: State<V>, order: seq<nat>, k: nat)
    requires Inv(s, order) && k < |order|
    requires u == Delete(s, s.nodes[order[k]].key).(free := s.free)
    ensures Spare(u, Without(order, k), order[k])
    ensures Contents(u, Without(order, k)) == Without(Contents(s, order), k)
  {
    RemoveLinkLinked(s, k, order);
    LinksOnly(RemoveLink(s, order[k]), u, Without(order, k));
    UnlinkedSpare(s, u, order, k);
  }

  lemma {:induction false} DeleteRefines<V>(s: State<V>, order: seq<nat>, k: nat)
    requires Inv(s, order) && k < |order|
    ensures var key := s.nodes[order[k]].key;
            Refines(Delete(s, key), Without(order, k), Abstract(Without(Contents(s, order), k), |s.nodes|))
  {
    var t := Delete(s, s.nodes[order[k]].key);
    DeleteSpare(s, t.(free := s.free), order, k);
    FreedSpare(t.(free := s.free), t, Without(order, k), order[k]);
  }

  /** `Linked` reads only the links. */
  lemma LinksOnly<V>(s: State<V>, t: State<V>, order: seq<nat>)
    requires Linked(s, order) && InRange(t)
    requires |t.nodes| == |s.nodes| && t.head == s.head && t.tail == s.tail
    requires forall x | 0 <= x < |s.nodes| :: t.nodes[x].prev == s.nodes[x].prev && t.nodes[x].next == s.nodes[x].next
    ensures Linked(t, order)
  {}

  lemma {:induction false} FreedSpare<V>(s: State<V>, t: State<V>, order: seq<nat>, i: nat)
    requires Spare(s, order, i) && t == s.(free := s.free + [i])
    ensures Inv(t, order) && Contents(t, order) == Contents(s, order)
  {
    LinksOnly(s, t, order);
    SameContents(s, t, order);
  }

  // ----- filling a slot -----

  lemma {:induction false} OccupyRefines<V>(s: State<V>, order: seq<nat>, i: nat, key: u64, entry: Entry<V>)
    requires Spare(s, order, i) && key !in s.index
    ensures Refines(Occupy(s, i, key, entry), [i] + order,
                    Abstract([Item(key, entry)] + Contents(s, order), |s.nodes|))
  {
    var u := s.(nodes := s.nodes[i := s.nodes[i].(key := key, value := Some(entry))],
                index := s.index[key := i]);
    LinksOnly(s, u, order);
    PushHeadLinked(u, i, order);
    OccupiedInv(s, Occupy(s, i, key, entry), order, i, key, entry);
  }

  lemma {:induction false} OccupiedInv<V>(s: State<V>, t: State<V>, order: seq<nat>, i: nat, key: u64, entry: Entry<V>)
    requires Spare(s, order, i) && key !in s.index
    requires Linked(t, [i] + order) && SameButSlot(s, t, i)
    requires t.nodes[i].key == key && t.nodes[i].value == Some(entry)
    requires t.index == s.index[key := i] && t.free == s.free
    ensures Refines(t, [i] + order, Abstract([Item(key, entry)] + Contents(s, order), |s.nodes|))
  {
    OccupiedIndexed(s, t, order, i, key);
    OccupiedPartition(s, t, order, i);
    OccupiedItems(s, t, order, i);
  }

  lemma OccupiedIndexed<V>(s: State<V>, t: State<V>, order: seq<nat>, i: nat, key: u64)
    requires i < |s.nodes| && i !in order && SameButSlot(s, t, i)
    requires forall j | 0 <= j < |order| :: order[j] < |s.nodes|
    requires Indexed(s, order) && key !in s.index
    requires t.nodes[i].key == key && t.nodes[i].value.Some? && t.index == s.index[key := i]
    ensures forall j | 0 <= j < |order| + 1 :: ([i] + order)[j] < |t.nodes|
    ensures Indexed(t, [i] + order)
  {
    var o := [i] + order;
    forall j | 0 <= j < |o|
      ensures o[j] < |t.nodes|
      ensures t.nodes[o[j]].value.Some? && t.nodes[o[j]].key in t.index
      ensures t.index[t.nodes[o[j]].key] == o[j]
    {
      if j > 0 {
        assert o[j] == order[j - 1];
        assert s.nodes[order[j - 1]].key in s.index;
      }
    }
    forall k | k in t.index ensures t.index[k] in o && t.index[k] < |t.nodes| && t.nodes[t.index[k]].key == k {
      if k != key { assert k in s.index; }
    }
  }

  lemma OccupiedPartition<V>(s: State<V>, t: State<V>, order: seq<nat>, i: nat)
    requires Spare(s, order, i) && |t.nodes| == |s.nodes| && t.free == s.free
    ensures Partition(t, [i] + order)
  {}

  /** Contents read only the data of the listed slots. */
  lemma {:induction false} SameContents<V>(s: State<V>, t: State<V>, order: seq<nat>)
    requires Filled(s, order) && Filled(t, order)
    requires |s.nodes| <= |t.nodes|
    requires forall x {:trigger t.nodes[x]} | 0 <= x < |s.nodes| && x in order ::
               t.nodes[x].key == s.nodes[x].key && t.nodes[x].value == s.nodes[x].value
    ensures Contents(t, order) == Contents(s, order)
  {
    if order != [] { SameContents(s, t, order[1..]); }
  }

  lemma {:induction false} OccupiedItems<V>(s: State<V>, t: State<V>, order: seq<nat>, i: nat)
    requires i < |s.nodes| && i !in order && SameButSlot(s, t, i) && t.nodes[i].value.Some?
    requires Filled(s, order) && Filled(t, [i] + order)
    ensures Contents(t, [i] + order) == [Item(t.nodes[i].key, t.nodes[i].value.value)] + Contents(s, order)
  {
    assert ([i] + order)[1..] == order;
    SameContents(s, t, order);
  }

  // ----- every operation refines its abstract counterpart -----

  lemma InvalidateRefines<V>(s: State<V>, order: seq<nat>, a: Abstract<V>, key: u64) returns (order': seq<nat>)
    requires Refines(s, order, a)
    ensures Refines(Invalidate(s, key), order', AbsInvalidate(a, key))
  {
    FindIsPosition(s, order, key);
    order' := order;
    if key in s.index {
      var k := Find(a.items, key);
      order' := Without(order, k);
      DeleteRefines(s, order, k);
    }
  }

  lemma GetRefines<V>(s: State<V>, order: seq<nat>, a: Abstract<V>, key: u64, now: nat) returns (order': seq<nat>)
    requires Refines(s, order, a)
    ensures Refines(Get(s, key, now).0, order', AbsGet(a, key, now).0)
    ensures Get(s, key, now).1 == AbsGet(a, key, now).1
  {
    FindIsPosition(s, order, key);
    order' := order;
    if key in s.index {
      var k := Find(a.items, key);
      ContentsAt(s, order, k);
      if Live(s, key, now) {
        order' := MoveFront(order, k);
        MoveToHeadRefines(s, order, k);
      } else {
        order' := Without(order, k);
        DeleteRefines(s, order, k);
      }
    }
  }

  lemma {:induction false} UpdatedRefines<V>(s: State<V>, u: State<V>, order: seq<nat>, k: nat, entry: Entry<V>)
    requires Inv(s, order) && k < |order|
    requires u == s.(nodes := s.nodes[order[k] := s.nodes[order[k]].(value := Some(entry))])
    ensures InRange(u)
    ensures Refines(MoveToHead(u, order[k]), MoveFront(order, k),
                    Abstract([Item(s.nodes[order[k]].key, entry)] + Without(Contents(s, order), k), |s.nodes|))
  {
    assert InRange(u);
    LinksOnly(s, u, order);
    UpdatedInv(s, u, order, k, entry);
    UpdatedItems(s, u, order, k, entry);
    MoveToHeadRefines(u, order, k);
    UpdatedFront(Contents(s, order), k, Item(s.nodes[order[k]].key, entry));
  }

  lemma UpdateIsMove<V>(s: State<V>, key: u64, entry: Entry<V>)
    requires InRange(s) && key in s.index
    ensures var i := s.index[key];
            var u := s.(nodes := s.nodes[i := s.nodes[i].(value := Some(entry))]);
            InRange(u) && Insert(s, key, entry, false) == MoveToHead(u, i)
  {}

  lemma {:induction false} UpdateRefines<V>(s: State<V>, order: seq<nat>, a: Abstract<V>, key: u64, entry: Entry<V>)
    requires Refines(s, order, a) && key in s.index
    ensures var k := Find(a.items, key);
            && k < |order|
            && Refines(Insert(s, key, entry, false), MoveFront(order, k), AbsInsert(a, s.maxEntries, key, entry))
  {
    FindIsPosition(s, order, key);
    UpdateIsMove(s, key, entry);
    AbsInsertCases(a, s.maxEntries, key, entry);
    var i := s.index[key];
    assert s.nodes[i].key == key;
    UpdatedRefines(s, s.(nodes := s.nodes[i := s.nodes[i].(value := Some(entry))]), order, Find(a.items, key), entry);
  }

  lemma UpdatedFront<T>(xs: seq<T>, k: nat, x: T)
    requires k < |xs|
    ensures MoveFront(xs[k := x], k) == [x] + Without(xs, k)
  {}

  lemma UpdatedInv<V>(s: State<V>, u: State<V>, order: seq<nat>, k: nat, entry: Entry<V>)
    requires Inv(s, order) && k < |order| && Linked(u, order)
    requires u == s.(nodes := s.nodes[order[k] := s.nodes[order[k]].(value := Some(entry))])
    ensures Inv(u, order)
  {}

  lemma {:induction false} UpdatedItems<V>(s: State<V>, u: State<V>, order: seq<nat>, k: nat, entry: Entry<V>)
    requires Filled(s, order) && Filled(u, order) && Distinct(order) && k < |order|
    requires u == s.(nodes := s.nodes[order[k] := s.nodes[order[k]].(value := Some(entry))])
    ensures Contents(u, order) == Contents(s, order)[k := Item(s.nodes[order[k]].key, entry)]
  {
    forall j | 0 <= j < |order|
      ensures Contents(u, order)[j] == Contents(s, order)[k := Item(s.nodes[order[k]].key, entry)][j]
    {
      ContentsAt(u, order, j);
      ContentsAt(s, order, j);
    }
  }

  // The three ways of obtaining a slot for a new key, with the eviction repaired.

  lemma {:induction false} FreeSlotSpare<V>(s: State<V>, u: State<V>, order: seq<nat>)
    requires Inv(s, order) && s.free != [] && u == s.(free := s.free[..|s.free| - 1])
    ensures Spare(u, order, s.free[|s.free| - 1]) && Contents(u, order) == Contents(s, order)
  {
    assert s.free == u.free + [s.free[|s.free| - 1]];
    assert Indexed(u, order);
    LinksOnly(s, u, order);
    SameContents(s, u, order);
  }

  lemma EvictedSpare<V>(s: State<V>, order: seq<nat>)
    requires Inv(s, order) && order != []
    ensures var k := |order| - 1;
            && s.tail == order[k] != NULL_NODE
            && Spare(Evict(s, false), Without(order, k), s.tail)
            && Contents(Evict(s, false), Without(order, k)) == Without(Contents(s, order), k)
  {
    var k := |order| - 1;
    RemoveLinkLinked(s, k, order);
    LinksOnly(RemoveLink(s, s.tail), Evict(s, false), Without(order, k));
    UnlinkedSpare(s, Evict(s, false), order, k);
  }

  lemma {:induction false} GrownSpare<V>(s: State<V>, u: State<V>, order: seq<nat>)
    requires Inv(s, order) && s.free == [] && |s.nodes| < NULL_NODE
    requires u == s.(nodes := s.nodes + [LruNode(0, None, NULL_NODE, NULL_NODE)])
    ensures Spare(u, order, |s.nodes|) && Contents(u, order) == Contents(s, order)
  {
    LinksOnlyGrown(s, u, order);
    SameContents(s, u, order);
  }

  lemma LinksOnlyGrown<V>(s: State<V>, u: State<V>, order: seq<nat>)
    requires Linked(s, order) && |s.nodes| < NULL_NODE
    requires u == s.(nodes := s.nodes + [LruNode(0, None, NULL_NODE, NULL_NODE)])
    ensures Linked(u, order)
  {}

  /** Live and free slots add up to the slots. */
  lemma SlotCount<V>(s: State<V>, order: seq<nat>)
    requires Inv(s, order)
    ensures |order| + |s.free| == |s.nodes|
  {
    var all := order + s.free;
    assert Distinct(all);
    forall x | 0 <= x < |s.nodes| ensures x in all {}
    DistinctCount(all, |s.nodes|);
  }

  function Elements(xs: seq<nat>): set<nat> {
    set x | x in xs
  }

  lemma {:induction false} DistinctSize(xs: seq<nat>)
    requires Distinct(xs)
    ensures |Elements(xs)| == |xs|
  {
    if xs == [] {
      assert Elements(xs) == {};
    } else {
      var init, last := xs[..|xs| - 1], xs[|xs| - 1];
      DistinctSize(init);
      assert xs == init + [last] && last !in Elements(init);
      assert Elements(xs) == Elements(init) + {last};
    }
  }

  function Below(n: nat): (r: set<nat>)
    ensures |r| == n && forall x: nat :: x in r <==> x < n
  {
    if n == 0 then {} else Below(n - 1) + {n - 1}
  }

  /** A duplicate-free list of exactly the numbers below `n` has length `n`. */
  lemma DistinctCount(xs: seq<nat>, n: nat)
    requires Distinct(xs)
    requires forall x: nat :: x in xs <==> x < n
    ensures |xs| == n
  {
    DistinctSize(xs);
    assert Elements(xs) == Below(n);
  }

  lemma EvictRefines<V>(s: State<V>, order: seq<nat>, a: Abstract<V>, key: u64, entry: Entry<V>)
    requires Refines(s, order, a) && key !in s.index && order != []
    requires s.free == [] && |s.nodes| >= s.maxEntries
    ensures Refines(Insert(s, key, entry, false), [s.tail] + Without(order, |order| - 1),
                    AbsInsert(a, s.maxEntries, key, entry))
  {
    var k := |order| - 1;
    FindIsPosition(s, order, key);
    SlotCount(s, order);
    EvictedSpare(s, order);
    OccupyRefines(Evict(s, false), Without(order, k), s.tail, key, entry);
  }

  lemma InsertReuses<V>(s: State<V>, key: u64, entry: Entry<V>)
    requires InRange(s) && key !in s.index && s.free != []
    ensures var n := |s.free| - 1;
            Insert(s, key, entry, false) == Occupy(s.(free := s.free[..n]), s.free[n], key, entry)
  {}

  lemma ReuseRefines<V>(s: State<V>, order: seq<nat>, a: Abstract<V>, key: u64, entry: Entry<V>)
    requires Refines(s, order, a) && key !in s.index && s.free != []
    ensures Refines(Insert(s, key, entry, false), [s.free[|s.free| - 1]] + order,
                    AbsInsert(a, s.maxEntries, key, entry))
  {
    var n := |s.free| - 1;
    FindIsPosition(s, order, key);
    SlotCount(s, order);
    AbsInsertCases(a, s.maxEntries, key, entry);
    InsertReuses(s, key, entry);
    FreeSlotSpare(s, s.(free := s.free[..n]), order);
    OccupyRefines(s.(free := s.free[..n]), order, s.free[n], key, entry);
  }

  lemma GrowRefines<V>(s: State<V>, order: seq<nat>, a: Abstract<V>, key: u64, entry: Entry<V>)
    requires Refines(s, order, a) && key !in s.index && s.free == [] && |s.nodes| < s.maxEntries
    ensures Refines(Insert(s, key, entry, false), [|s.nodes|] + order, AbsInsert(a, s.maxEntries, key, entry))
  {
    var u := s.(nodes := s.nodes + [LruNode(0, None, NULL_NODE, NULL_NODE)]);
    FindIsPosition(s, order, key);
    SlotCount(s, order);
    AbsInsertCases(a, s.maxEntries, key, entry);
    GrownSpare(s, u, order);
    OccupyRefines(u, order, |s.nodes|, key, entry);
  }

  /** Insertion, with its eviction repaired, refines the abstract insertion. */
  lemma InsertRefines<V>(s: State<V>, order: seq<nat>, a: Abstract<V>, key: u64, entry: Entry<V>)
    returns (order': seq<nat>)
    requires Refines(s, order, a)
    ensures Refines(Insert(s, key, entry, false), order', AbsInsert(a, s.maxEntries, key, entry))
  {
    if key in s.index {
      UpdateRefines(s, order, a, key, entry);
      order' := MoveFront(order, Find(a.items, key));
    } else if s.free != [] {
      order' := [s.free[|s.free| - 1]] + order;
      ReuseRefines(s, order, a, key, entry);
    } else if |s.nodes| < s.maxEntries {
      order' := [|s.nodes|] + order;
      GrowRefines(s, order, a, key, entry);
    } else if |order| > 0 {
      order' := [s.tail] + Without(order, |order| - 1);
      EvictRefines(s, order, a, key, entry);
    } else {
      order' := order;
      FindIsPosition(s, order, key);
      SlotCount(s, order);
    }
  }

  // ----- the eviction as written -----

  /** The two variants of insertion differ only where the tail is evicted. */
  lemma SameUnlessEvicting<V>(s: State<V>, key: u64, entry: Entry<V>)
    requires InRange(s) && !Evicts(s, key)
    ensures Insert(s, key, entry, true) == Insert(s, key, entry, false)
  {}

  lemma EvictingAsWritten<V>(s: State<V>, key: u64, entry: Entry<V>)
    requires InRange(s) && Evicts(s, key)
    ensures var t := Insert(s, key, entry, true);
            && t == Occupy(Evict(s, true), s.tail, key, entry)
            && t.index == (s.index - {s.nodes[s.tail].key})[key := s.tail]
            && t.free == [s.tail] && t.head == s.tail
            && t.maxEntries == s.maxEntries && |t.nodes| == |s.nodes|
  {}

  /** A slot that is both indexed and free contradicts the invariant. */
  lemma SharedSlot<V>(t: State<V>, order: seq<nat>, key: u64)
    requires key in t.index && t.index[key] in t.free
    ensures !Inv(t, order)
  {}

  /** The program's insertion keeps the invariant exactly when it does not evict. */
  lemma InsertAsWrittenExactly<V>(s: State<V>, key: u64, entry: Entry<V>)
    requires Valid(s)
    ensures Valid(Insert(s, key, entry, true)) <==> !Evicts(s, key)
  {
    var order :| Inv(s, order);
    if Evicts(s, key) {
      EvictingAsWritten(s, key, entry);
      var t := Insert(s, key, entry, true);
      forall o ensures !Inv(t, o) {
        SharedSlot(t, o, key);
      }
    } else {
      SameUnlessEvicting(s, key, entry);
      var o := InsertRefines(s, order, Abstract(Contents(s, order), |s.nodes|), key, entry);
    }
  }

  /**
   After an eviction as written, the next new key pops the live slot: both keys then share one
   node, that node links to itself, and looking up the older key answers the newer key's entry.
   */
  lemma NextInsertShares<V>(s: State<V>, k1: u64, e1: Entry<V>, k2: u64, e2: Entry<V>, now: nat)
    requires InRange(s) && Evicts(s, k1)
    requires k1 != k2 && k2 !in Insert(s, k1, e1, true).index
    ensures var t := Insert(Insert(s, k1, e1, true), k2, e2, true);
            && k1 in t.index && k2 in t.index && t.index[k1] == t.index[k2] == t.head
            && t.nodes[t.head].next == t.head && t.nodes[t.head].prev == t.head
            && (now < e2.expiresAt ==> Get(t, k1, now).1 == Some(e2))
  {
    EvictingAsWritten(s, k1, e1);
    var u := Insert(s, k1, e1, true);
    SharedOccupy(u, k1, k2, e2);
  }

  lemma SharedOccupy<V>(u: State<V>, k1: u64, k2: u64, e2: Entry<V>)
    requires InRange(u) && k1 != k2 && k1 in u.index && k2 !in u.index
    requires u.free == [u.head] && u.index[k1] == u.head != NULL_NODE
    ensures var t := Insert(u, k2, e2, true);
            && t.index == u.index[k2 := u.head] && t.head == u.head && |t.nodes| == |u.nodes|
            && t.nodes[u.head].next == u.head && t.nodes[u.head].prev == u.head
            && t.nodes[u.head].value == Some(e2)
  {
    assert u.free[..0] == [];
  }
}
