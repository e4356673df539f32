/**
 The session store as values: data size accounting, one shard, the array of shards, and whole runs.
 Time is a parameter; the choice among equally old sessions at eviction is left open.
 */
module Sessions {
  import opened Prelude

  const SHARD_COUNT: nat := 64
  const SESSION_ID_BYTES: nat := 16

  type Id = id: bytes | |id| == SESSION_ID_BYTES witness [0, 0, 0, 0, 0, 0, 0, 0, 0, 0, 0, 0, 0, 0, 0, 0]

  /** Keys and values are strings of octets. */
  type Data = map<bytes, bytes>

  datatype Entry = Entry(data: Data, createdAt: nat, lastAccessed: nat, expiresAt: nat)

  datatype Config = Config(maxAge: nat, maxSessions: nat, maxDataSize: nat)

  type Shard = map<Id, Entry>

  function MaxPerShard(cfg: Config): (n: nat)
    ensures n >= 1
  {
    if cfg.maxSessions / SHARD_COUNT == 0 then 1 else cfg.maxSessions / SHARD_COUNT
  }

  function ShardIndex(id: Id): (i: nat)
    ensures i < SHARD_COUNT
  {
    id[0] % SHARD_COUNT
  }

  // ----- data size -----

  /** Total length of keys and values. */
  ghost function SizeOf(data: Data): nat {
    if data == map[] then 0
    else
      var k :| k in data;
      |k| + |data[k]| + SizeOf(data - {k})
  }

  /** Any key may be counted first. */
  lemma {:induction false} SizeRemove(data: Data, k: bytes)
    requires k in data
    ensures SizeOf(data) == |k| + |data[k]| + SizeOf(data - {k})
    decreases |data|
  {
    var j :| j in data && SizeOf(data) == |j| + |data[j]| + SizeOf(data - {j});
    if j != k {
      SizeRemove(data - {j}, k);
      SizeRemove(data - {k}, j);
      assert data - {j} - {k} == data - {k} - {j};
    }
  }

  lemma {:induction false} SizeUnion(a: Data, b: Data)
    requires a.Keys !! b.Keys
    ensures SizeOf(a + b) == SizeOf(a) + SizeOf(b)
    decreases |a|
  {
    if a == map[] {
      assert a + b == b;
    } else {
      var k :| k in a;
      var rest := a - {k};
      SizeUnion(rest, b);
      SizeRemove(a, k);
      UnionRemove(a, b, k);
      SizeRemove(a + b, k);
    }
  }

  lemma UnionRemove(a: Data, b: Data, k: bytes)
    requires a.Keys !! b.Keys && k in a
    ensures (a + b) - {k} == (a - {k}) + b && (a + b)[k] == a[k]
  {
    assert k !in b.Keys;
  }

  function KeySet(keys: seq<bytes>): set<bytes> {
    set k | k in keys
  }

  /** What an update leaves: deletions first, then the mutations win. */
  function Updated(data: Data, mutations: Data, deleted: seq<bytes>): Data {
    (data - KeySet(deleted)) + mutations
  }

  /** Entries that are neither deleted nor overwritten. */
  function Kept(data: Data, mutations: Data, deleted: seq<bytes>): Data {
    map k | k in data && k !in deleted && k !in mutations :: data[k]
  }

  /** The projection counts what is kept and what is written, which is exactly what results. */
  lemma {:induction false} ProjectionExact(data: Data, mutations: Data, deleted: seq<bytes>)
    ensures SizeOf(Kept(data, mutations, deleted)) + SizeOf(mutations) == SizeOf(Updated(data, mutations, deleted))
  {
    var kept := Kept(data, mutations, deleted);
    SizeUnion(kept, mutations);
    assert kept + mutations == Updated(data, mutations, deleted);
  }

  // ----- one shard -----

  predicate Expired(e: Entry, now: nat) {
    now >= e.expiresAt
  }

  function Touch(e: Entry, cfg: Config, now: nat): Entry {
    e.(lastAccessed := now, expiresAt := now + cfg.maxAge)
  }

  function Lookup(sessions: Shard, id: Id): Option<Entry> {
    if id in sessions then Some(sessions[id]) else None
  }

  function DataOf(current: Option<Entry>): Data {
    if current.Some? then current.value.data else map[]
  }

  /** The session after an accepted update. */
  function NewEntry(current: Option<Entry>, cfg: Config, mutations: Data, deleted: seq<bytes>, now: nat): Entry {
    var created := if current.Some? then current.value.createdAt else now;
    Touch(Entry(Updated(DataOf(current), mutations, deleted), created, now, now), cfg, now)
  }

  ghost predicate Fits(current: Option<Entry>, cfg: Config, mutations: Data, deleted: seq<bytes>) {
    SizeOf(Updated(DataOf(current), mutations, deleted)) <= cfg.maxDataSize
  }

  predicate Full(shard: Shard, cfg: Config, id: Id) {
    id !in shard && |shard| >= MaxPerShard(cfg)
  }

  /** A session that no other session of the shard predates in last access. */
  ghost predicate LeastRecent(shard: Shard, victim: Id) {
    victim in shard && forall j | j in shard :: shard[victim].lastAccessed <= shard[j].lastAccessed
  }

  function ShardGet(shard: Shard, cfg: Config, id: Id, now: nat): (Shard, Option<Entry>) {
    if id !in shard then (shard, None)
    else if Expired(shard[id], now) then (shard - {id}, None)
    else
      var e := Touch(shard[id], cfg, now);
      (shard[id := e], Some(e))
  }

  /** Stores an entry after dropping some others. */
  function Put(sessions: Shard, drop: set<Id>, id: Id, entry: Entry): Shard {
    var rest: Shard := sessions - drop;
    rest[id := entry]
  }

  /** An accepted update; `victim` goes first if the shard is full. */
  function ShardUpdate(shard: Shard, cfg: Config, id: Id, mutations: Data, deleted: seq<bytes>, now: nat,
                       victim: Id): Shard
  {
    Put(shard, if Full(shard, cfg, id) then {victim} else {}, id, NewEntry(Lookup(shard, id), cfg, mutations, deleted, now))
  }

  ghost function ShardUpsert(shard: Shard, cfg: Config, id: Id, mutations: Data, deleted: seq<bytes>, now: nat,
                             victim: Id): (Shard, bool)
  {
    if Fits(Lookup(shard, id), cfg, mutations, deleted) then
      (ShardUpdate(shard, cfg, id, mutations, deleted, now, victim), true)
    else (shard, false)
  }

  // ----- the store -----

  type Store = s: seq<Shard> | |s| == SHARD_COUNT witness EmptyShards(SHARD_COUNT)

  function EmptyShards(n: nat): (s: seq<Shard>)
    ensures |s| == n && forall i | 0 <= i < n :: s[i] == map[]
  {
    if n == 0 then [] else EmptyShards(n - 1) + [map[]]
  }

  datatype Event =
    | Get(id: Id, now: nat)
    | Upsert(id: Id, mutations: Data, deleted: seq<bytes>, now: nat, victim: Id)
    | Destroy(id: Id)

  /** An eviction names a least recently accessed session of the shard. */
  ghost predicate Allowed(s: Store, cfg: Config, e: Event) {
    e.Upsert? && Full(s[ShardIndex(e.id)], cfg, e.id) ==> LeastRecent(s[ShardIndex(e.id)], e.victim)
  }

  ghost function Step(s: Store, cfg: Config, e: Event): Store {
    var i := ShardIndex(e.id);
    match e
    case Get(id, now) => s[i := ShardGet(s[i], cfg, id, now).0]
    case Upsert(id, m, d, now, victim) => s[i := ShardUpsert(s[i], cfg, id, m, d, now, victim).0]
    case Destroy(id) => s[i := s[i] - {id}]
  }

  ghost function Run(events: seq<Event>, cfg: Config): Store {
    if events == [] then EmptyShards(SHARD_COUNT) else Step(Run(events[..|events| - 1], cfg), cfg, events[|events| - 1])
  }

  ghost predicate Lawful(events: seq<Event>, cfg: Config) {
    events == [] || (var n := |events| - 1;
                     Lawful(events[..n], cfg) && Allowed(Run(events[..n], cfg), cfg, events[n]))
  }

  ghost predicate ShardSound(shard: Shard, cfg: Config, i: nat) {
    && |shard| <= MaxPerShard(cfg)
    && forall id | id in shard :: id[0] % 64 == i && SizeOf(shard[id].data) <= cfg.maxDataSize
  }

  /** Every shard is within its capacity, holds its own ids, and no session exceeds the data limit. */
  ghost predicate Sound(s: Store, cfg: Config) {
    forall i | 0 <= i < SHARD_COUNT :: ShardSound(s[i], cfg, i)
  }

  lemma UpdateCount(shard: Shard, cfg: Config, id: Id, mutations: Data, deleted: seq<bytes>, now: nat, victim: Id)
    requires |shard| <= MaxPerShard(cfg)
    requires Full(shard, cfg, id) ==> victim in shard
    ensures |ShardUpdate(shard, cfg, id, mutations, deleted, now, victim)| <= MaxPerShard(cfg)
  {
    PutCount(shard, if Full(shard, cfg, id) then {victim} else {}, id,
             NewEntry(Lookup(shard, id), cfg, mutations, deleted, now), MaxPerShard(cfg));
  }

  lemma PutCount(sessions: Shard, drop: set<Id>, id: Id, entry: Entry, cap: nat)
    requires |sessions| <= cap && drop <= sessions.Keys && |drop| <= 1
    requires id in sessions || |sessions| < cap || |drop| == 1
    ensures |Put(sessions, drop, id, entry)| <= cap
  {
    var kept := sessions.Keys - drop;
    assert sessions.Keys == kept + drop;
    assert Put(sessions, drop, id, entry).Keys == kept + {id};
    if id in sessions && drop == {} { assert kept + {id} == kept; }
  }

  lemma UpsertShardSound(shard: Shard, cfg: Config, id: Id, mutations: Data, deleted: seq<bytes>, now: nat, victim: Id)
    requires ShardSound(shard, cfg, ShardIndex(id))
    requires Full(shard, cfg, id) ==> LeastRecent(shard, victim)
    ensures ShardSound(ShardUpsert(shard, cfg, id, mutations, deleted, now, victim).0, cfg, ShardIndex(id))
  {
    if Fits(Lookup(shard, id), cfg, mutations, deleted) {
      var next := ShardUpdate(shard, cfg, id, mutations, deleted, now, victim);
      UpdateCount(shard, cfg, id, mutations, deleted, now, victim);
      forall j | j in next ensures ShardIndex(j) == ShardIndex(id) && SizeOf(next[j].data) <= cfg.maxDataSize {
        if j != id { assert j in shard && next[j] == shard[j]; }
      }
    }
  }

  lemma GetShardSound(shard: Shard, cfg: Config, id: Id, now: nat)
    requires ShardSound(shard, cfg, ShardIndex(id))
    ensures ShardSound(ShardGet(shard, cfg, id, now).0, cfg, ShardIndex(id))
    ensures ShardSound(shard - {id}, cfg, ShardIndex(id))
  {
    assert (shard - {id}).Keys == shard.Keys - {id};
    var next := ShardGet(shard, cfg, id, now).0;
    if id in shard && !Expired(shard[id], now) { assert next.Keys == shard.Keys; }
  }

  lemma StepSound(s: Store, cfg: Config, e: Event)
    requires Sound(s, cfg) && Allowed(s, cfg, e)
    ensures Sound(Step(s, cfg, e), cfg)
  {
    var i := ShardIndex(e.id);
    assert ShardSound(s[i], cfg, i);
    match e
    case Get(id, now) => GetShardSound(s[i], cfg, id, now);
    case Upsert(id, m, d, now, victim) => UpsertShardSound(s[i], cfg, id, m, d, now, victim);
    case Destroy(id) => GetShardSound(s[i], cfg, id, 0);
  }

  lemma {:induction false} EveryRunSound(events: seq<Event>, cfg: Config)
    requires Lawful(events, cfg)
    ensures Sound(Run(events, cfg), cfg)
  {
    if events != [] {
      EveryRunSound(events[..|events| - 1], cfg);
      StepSound(Run(events[..|events| - 1], cfg), cfg, events[|events| - 1]);
    }
  }

  // ----- total size -----

  function Count(shards: seq<Shard>): nat {
    if shards == [] then 0 else |shards[0]| + Count(shards[1..])
  }

  lemma {:induction false} CountBound(shards: seq<Shard>, cap: nat)
    requires forall i | 0 <= i < |shards| :: |shards[i]| <= cap
    ensures Count(shards) <= |shards| * cap
  {
    if shards != [] { CountBound(shards[1..], cap); }
  }

  /** In every reachable store there are at most max(64, max_sessions) sessions. */
  lemma {:induction false} SessionBound(events: seq<Event>, cfg: Config)
    requires Lawful(events, cfg)
    ensures Count(Run(events, cfg)) <= if cfg.maxSessions < SHARD_COUNT then SHARD_COUNT else cfg.maxSessions
  {
    EveryRunSound(events, cfg);
    var s := Run(events, cfg);
    forall i | 0 <= i < |s| ensures |s[i]| <= MaxPerShard(cfg) { assert ShardSound(s[i], cfg, i); }
    CountBound(s, MaxPerShard(cfg));
  }

  /**
   An accepted update of a session removes another one exactly if the session is new and its shard has
   reached its share of the capacity, and then it removes a least recently accessed one and no more.
   */
  lemma EvictsExactly(s: Store, cfg: Config, e: Event)
    requires e.Upsert? && Allowed(s, cfg, e) && Fits(Lookup(s[ShardIndex(e.id)], e.id), cfg, e.mutations, e.deleted)
    ensures var before, after := s[ShardIndex(e.id)], Step(s, cfg, e)[ShardIndex(e.id)];
            var share := if cfg.maxSessions < 64 then 1 else cfg.maxSessions / 64;
            if e.id !in before && |before| >= share then
              && e.victim in before && (forall j | j in before :: before[e.victim].lastAccessed <= before[j].lastAccessed)
              && after.Keys == before.Keys - {e.victim} + {e.id}
            else after.Keys == before.Keys + {e.id}
  {}

  /** A rejected update leaves the store as it was. */
  lemma RejectedChangesNothing(s: Store, cfg: Config, e: Event)
    requires e.Upsert? && !Fits(Lookup(s[ShardIndex(e.id)], e.id), cfg, e.mutations, e.deleted)
    ensures Step(s, cfg, e) == s
  {}

  // ----- the shards act as one map -----

  /** All sessions of the store. */
  ghost predicate Flattens(flat: map<Id, Entry>, s: Store) {
    forall id: Id :: (id in flat <==> id in s[ShardIndex(id)])
                     && (id in flat ==> flat[id] == s[ShardIndex(id)][id])
  }

  /** The same operation on a single map; only an eviction looks beyond the id. */
  ghost function FlatStep(flat: map<Id, Entry>, cfg: Config, e: Event, evict: bool): map<Id, Entry> {
    match e
    case Get(id, now) =>
      if id !in flat then flat
      else if Expired(flat[id], now) then flat - {id}
      else flat[id := Touch(flat[id], cfg, now)]
    case Destroy(id) => flat - {id}
    case Upsert(id, m, d, now, victim) =>
      if !Fits(Lookup(flat, id), cfg, m, d) then flat
      else Put(flat, if evict then {victim} else {}, id, NewEntry(Lookup(flat, id), cfg, m, d, now))
  }

  /** Eviction happens when a new session meets a full shard. */
  ghost predicate EvictsAt(s: Store, cfg: Config, e: Event) {
    e.Upsert? && Full(s[ShardIndex(e.id)], cfg, e.id)
  }

  lemma StepIsFlat(flat: map<Id, Entry>, s: Store, cfg: Config, e: Event)
    requires Flattens(flat, s) && Sound(s, cfg) && Allowed(s, cfg, e)
    ensures Flattens(FlatStep(flat, cfg, e, EvictsAt(s, cfg, e)), Step(s, cfg, e))
  {
    if e.Upsert? { UpsertIsFlat(flat, s, cfg, e); } else { OtherIsFlat(flat, s, cfg, e); }
  }

  lemma OtherIsFlat(flat: map<Id, Entry>, s: Store, cfg: Config, e: Event)
    requires Flattens(flat, s) && !e.Upsert?
    ensures Flattens(FlatStep(flat, cfg, e, false), Step(s, cfg, e))
  {
    var i := ShardIndex(e.id);
    SameEntry(flat, s, e.id);
    match e
    case Get(id, now) => ReplaceShard(flat, s, i, FlatStep(flat, cfg, e, false), ShardGet(s[i], cfg, id, now).0);
    case Destroy(id) => ReplaceShard(flat, s, i, FlatStep(flat, cfg, e, false), s[i] - {id});
  }

  lemma SameEntry(flat: map<Id, Entry>, s: Store, id: Id)
    requires Flattens(flat, s)
    ensures Lookup(flat, id) == Lookup(s[ShardIndex(id)], id)
    ensures id in flat <==> id in s[ShardIndex(id)]
    ensures id in flat ==> flat[id] == s[ShardIndex(id)][id]
  {}

  lemma UpsertIsFlat(flat: map<Id, Entry>, s: Store, cfg: Config, e: Event)
    requires Flattens(flat, s) && Sound(s, cfg) && Allowed(s, cfg, e) && e.Upsert?
    ensures Flattens(FlatStep(flat, cfg, e, EvictsAt(s, cfg, e)), Step(s, cfg, e))
  {
    SameEntry(flat, s, e.id);
    var current := Lookup(flat, e.id);
    if Fits(current, cfg, e.mutations, e.deleted) {
      var evict := EvictsAt(s, cfg, e);
      if evict { VictimShard(s, cfg, e); }
      AcceptedIsFlat(flat, s, cfg, e, evict, if evict then {e.victim} else {},
                     NewEntry(current, cfg, e.mutations, e.deleted, e.now));
    } else {
      RejectedChangesNothing(s, cfg, e);
    }
  }

  lemma AcceptedIsFlat(flat: map<Id, Entry>, s: Store, cfg: Config, e: Event, evict: bool, drop: set<Id>, entry: Entry)
    requires Flattens(flat, s) && e.Upsert? && Lookup(s[ShardIndex(e.id)], e.id) == Lookup(flat, e.id)
    requires Fits(Lookup(flat, e.id), cfg, e.mutations, e.deleted)
    requires evict == EvictsAt(s, cfg, e) && drop == if evict then {e.victim} else {}
    requires entry == NewEntry(Lookup(flat, e.id), cfg, e.mutations, e.deleted, e.now)
    requires forall v | v in drop :: ShardIndex(v) == ShardIndex(e.id)
    ensures Flattens(FlatStep(flat, cfg, e, evict), Step(s, cfg, e))
  {
    AcceptedStep(s, cfg, e, drop, entry);
    AcceptedFlat(flat, cfg, e, evict, drop, entry);
    PutIsFlat(flat, s, e.id, entry, drop);
  }

  lemma VictimShard(s: Store, cfg: Config, e: Event)
    requires Sound(s, cfg) && Allowed(s, cfg, e) && EvictsAt(s, cfg, e)
    ensures ShardIndex(e.victim) == ShardIndex(e.id)
  {
    assert ShardSound(s[ShardIndex(e.id)], cfg, ShardIndex(e.id));
  }

  lemma AcceptedStep(s: Store, cfg: Config, e: Event, drop: set<Id>, entry: Entry)
    requires e.Upsert? && Fits(Lookup(s[ShardIndex(e.id)], e.id), cfg, e.mutations, e.deleted)
    requires drop == if EvictsAt(s, cfg, e) then {e.victim} else {}
    requires entry == NewEntry(Lookup(s[ShardIndex(e.id)], e.id), cfg, e.mutations, e.deleted, e.now)
    ensures Step(s, cfg, e) == s[ShardIndex(e.id) := Put(s[ShardIndex(e.id)], drop, e.id, entry)]
  {}

  lemma AcceptedFlat(flat: map<Id, Entry>, cfg: Config, e: Event, evict: bool, drop: set<Id>, entry: Entry)
    requires e.Upsert? && Fits(Lookup(flat, e.id), cfg, e.mutations, e.deleted)
    requires drop == if evict then {e.victim} else {}
    requires entry == NewEntry(Lookup(flat, e.id), cfg, e.mutations, e.deleted, e.now)
    ensures FlatStep(flat, cfg, e, evict) == Put(flat, drop, e.id, entry)
  {}

  lemma PutIsFlat(flat: map<Id, Entry>, s: Store, id: Id, entry: Entry, drop: set<Id>)
    requires Flattens(flat, s) && forall v | v in drop :: ShardIndex(v) == ShardIndex(id)
    ensures Flattens(Put(flat, drop, id, entry), s[ShardIndex(id) := Put(s[ShardIndex(id)], drop, id, entry)])
  {
    var i := ShardIndex(id);
    ReplaceShard(flat, s, i, Put(flat, drop, id, entry), Put(s[i], drop, id, entry));
  }

  /** Replacing one shard changes the flat map at the ids of that shard only. */
  lemma ReplaceShard(flat: map<Id, Entry>, s: Store, i: nat, flat': map<Id, Entry>, shard: Shard)
    requires Flattens(flat, s) && i < SHARD_COUNT
    requires forall id: Id | ShardIndex(id) == i ::
               (id in flat' <==> id in shard) && (id in flat' ==> flat'[id] == shard[id])
    requires forall id: Id | ShardIndex(id) != i ::
               (id in flat' <==> id in flat) && (id in flat' ==> flat'[id] == flat[id])
    ensures Flattens(flat', s[i := shard])
  {}

  /** What a lookup answers is decided by the one map. */
  lemma GetIsFlat(flat: map<Id, Entry>, s: Store, cfg: Config, id: Id, now: nat)
    requires Flattens(flat, s)
    ensures ShardGet(s[ShardIndex(id)], cfg, id, now).1
            == if id in flat && !Expired(flat[id], now) then Some(Touch(flat[id], cfg, now)) else None
  {}

  ghost function FlatRun(events: seq<Event>, cfg: Config): map<Id, Entry> {
    if events == [] then map[]
    else
      var n := |events| - 1;
      FlatStep(FlatRun(events[..n], cfg), cfg, events[n], EvictsAt(Run(events[..n], cfg), cfg, events[n]))
  }

  /** After every run the sharded store holds exactly what the single map holds. */
  lemma {:induction false} RunIsFlat(events: seq<Event>, cfg: Config)
    requires Lawful(events, cfg)
    ensures Flattens(FlatRun(events, cfg), Run(events, cfg))
  {
    if events != [] {
      var n := |events| - 1;
      RunIsFlat(events[..n], cfg);
      EveryRunSound(events[..n], cfg);
      StepIsFlat(FlatRun(events[..n], cfg), Run(events[..n], cfg), cfg, events[n]);
    }
  }
}
