/**
 The session store as the program runs it: an array of shards whose maps change in place. Each
 method is proved to take the array where the value-level step of `Sessions` takes it.
 */
module SessionStore {
  import opened Prelude
  import opened Sessions

  /** The part of `data` whose keys are still to be visited. */
  ghost function Among(data: Data, keys: set<bytes>): Data {
    map k | k in data && k in keys :: data[k]
  }

  lemma AmongNext(data: Data, keys: set<bytes>, k: bytes)
    requires k in keys
    ensures SizeOf(Among(data, keys))
            == SizeOf(Among(data, keys - {k})) + if k in data then |k| + |data[k]| else 0
  {
    var before, after := Among(data, keys), Among(data, keys - {k});
    if k in data {
      SizeRemove(before, k);
      assert before - {k} == after;
    } else {
      assert before == after;
    }
  }

  /** Adds up the entries of `data`, in any order, that pass the two filters. */
  method AddKept(data: Data, mutations: Data, deleted: seq<bytes>, start: nat) returns (size: nat)
    ensures size == start + SizeOf(Kept(data, mutations, deleted))
  {
    var keys := data.Keys;
    ghost var kept := Kept(data, mutations, deleted);
    size := start;
    assert Among(kept, keys) == kept;
    while keys != {}
      invariant keys <= data.Keys
      invariant size + SizeOf(Among(kept, keys)) == start + SizeOf(kept)
      decreases keys
    {
      var k :| k in keys;
      AmongNext(kept, keys, k);
      keys := keys - {k};
      if k in deleted { continue; }
      if k in mutations { continue; }
      size := size + |k| + |data[k]|;
    }
    assert Among(kept, keys) == map[];
  }

  method ProjectedDataSize(current: Option<Data>, mutations: Data, deleted: seq<bytes>) returns (size: nat)
    ensures size == SizeOf(Updated(if current.Some? then current.value else map[], mutations, deleted))
  {
    ProjectionExact(if current.Some? then current.value else map[], mutations, deleted);
    size := 0;
    if current.Some? { size := AddKept(current.value, mutations, deleted, size); }
    NothingKept(mutations, deleted);
    size := AddKept(mutations, map[], [], size);
    assert Kept(mutations, map[], []) == mutations;
  }

  lemma NothingKept(mutations: Data, deleted: seq<bytes>)
    ensures SizeOf(Kept(map[], mutations, deleted)) == 0
  {
    assert Kept(map[], mutations, deleted) == map[];
  }

  /** A session that no other predates, as the minimum over the map's entries. */
  method OldestSession(shard: Shard) returns (victim: Id)
    requires shard != map[]
    ensures LeastRecent(shard, victim)
  {
    var keys := shard.Keys;
    victim :| victim in keys;
    keys := keys - {victim};
    while keys != {}
      invariant victim in shard && keys <= shard.Keys
      invariant forall j | j in shard && j !in keys :: shard[victim].lastAccessed <= shard[j].lastAccessed
      decreases keys
    {
      var j :| j in keys;
      if shard[j].lastAccessed < shard[victim].lastAccessed { victim := j; }
      keys := keys - {j};
    }
  }

  method DeleteKeys(data: Data, deleted: seq<bytes>) returns (r: Data)
    ensures r == data - KeySet(deleted)
  {
    r := data;
    for i := 0 to |deleted|
      invariant r == data - KeySet(deleted[..i])
    {
      assert KeySet(deleted[..i + 1]) == KeySet(deleted[..i]) + {deleted[i]};
      r := r - {deleted[i]};
    }
    assert deleted[..|deleted|] == deleted;
  }

  method Merge(data: Data, mutations: Data) returns (r: Data)
    ensures r == data + mutations
  {
    r := data;
    var keys := mutations.Keys;
    while keys != {}
      invariant keys <= mutations.Keys
      invariant r.Keys + keys == data.Keys + mutations.Keys
      invariant forall k | k in r && k !in keys :: r[k] == (data + mutations)[k]
      decreases keys
    {
      var k :| k in keys;
      r := r[k := mutations[k]];
      keys := keys - {k};
    }
  }

  lemma PutRest(shard: Shard, full: bool, victim: Id, id: Id, entry: Entry)
    ensures (if full then shard - {victim} else shard)[id := entry]
            == Put(shard, if full then {victim} else {}, id, entry)
  {
    var none: set<Id> := {};
    assert shard - none == shard;
  }

  lemma AcceptedShard(shard: Shard, cfg: Config, id: Id, mutations: Data, deleted: seq<bytes>, now: nat, victim: Id,
                      rest: Shard)
    requires rest == if Full(shard, cfg, id) then shard - {victim} else shard
    ensures rest[id := NewEntry(Lookup(shard, id), cfg, mutations, deleted, now)]
            == ShardUpdate(shard, cfg, id, mutations, deleted, now, victim)
  {
    PutRest(shard, Full(shard, cfg, id), victim, id, NewEntry(Lookup(shard, id), cfg, mutations, deleted, now));
  }

  class SessionTable {
    const cfg: Config
    const maxPerShard: nat
    const shards: array<Shard>

    ghost predicate Valid() {
      shards.Length == SHARD_COUNT && maxPerShard == MaxPerShard(cfg)
    }

    ghost function Contents(): Store
      requires Valid()
      reads shards
    {
      shards[..]
    }

    constructor (cfg: Config)
      ensures Valid() && this.cfg == cfg && fresh(shards) && Contents() == Run([], cfg)
    {
      this.cfg := cfg;
      maxPerShard := MaxPerShard(cfg);
      shards := new Shard[SHARD_COUNT](_ => map[]);
    }

    method Get(id: Id, now: nat) returns (r: Option<Entry>)
      requires Valid()
      modifies shards
      ensures Contents() == Step(old(Contents()), cfg, Event.Get(id, now))
      ensures r == ShardGet(old(Contents())[ShardIndex(id)], cfg, id, now).1
    {
      var i := ShardIndex(id);
      if id in shards[i] {
        if Expired(shards[i][id], now) {
          shards[i] := shards[i] - {id};
          return None;
        }
        shards[i] := shards[i][id := Touch(shards[i][id], cfg, now)];
        return Some(shards[i][id]);
      }
      return None;
    }

    /** Accepts exactly when the data that would result fits; an eviction takes a least recent session. */
    method Upsert(id: Id, mutations: Data, deleted: seq<bytes>, now: nat) returns (ok: bool, ghost victim: Id)
      requires Valid()
      modifies shards
      ensures ok ==> Allowed(old(Contents()), cfg, Event.Upsert(id, mutations, deleted, now, victim))
      ensures Contents() == Step(old(Contents()), cfg, Event.Upsert(id, mutations, deleted, now, victim))
      ensures ok == Fits(Lookup(old(Contents())[ShardIndex(id)], id), cfg, mutations, deleted)
    {
      var i := ShardIndex(id);
      var before := shards[i];
      var current := Lookup(before, id);
      victim := id;
      var size := ProjectedDataSize(if current.Some? then Some(current.value.data) else None, mutations, deleted);
      if size > cfg.maxDataSize {
        RejectedChangesNothing(Contents(), cfg, Event.Upsert(id, mutations, deleted, now, victim));
        return false, victim;
      }
      if id !in before && |before| >= maxPerShard {
        var oldest := OldestSession(before);
        victim := oldest;
        shards[i] := before - {oldest};
      }
      var entry := if current.Some? then current.value else Entry(map[], now, now, now);
      var data := DeleteKeys(entry.data, deleted);
      data := Merge(data, mutations);
      entry := Touch(entry.(data := data), cfg, now);
      AcceptedShard(before, cfg, id, mutations, deleted, now, victim, shards[i]);
      shards[i] := shards[i][id := entry];
      ok := true;
    }

    method Destroy(id: Id)
      requires Valid()
      modifies shards
      ensures Contents() == Step(old(Contents()), cfg, Event.Destroy(id))
    {
      shards[ShardIndex(id)] := shards[ShardIndex(id)] - {id};
    }

    method SessionCount() returns (n: nat)
      requires Valid()
      ensures n == Count(Contents())
    {
      n := 0;
      assert shards[..][0..] == shards[..];
      for i := 0 to shards.Length
        invariant n + Count(shards[..][i..]) == Count(shards[..])
      {
        n := n + |shards[i]|;
        assert shards[..][i..][1..] == shards[..][i + 1..];
      }
    }
  }
}
