/**
 Expiry of sessions: `get` removes an expired session, `upsert` works on it as if it were alive.
 The reference forgets the data of an expired session before the update.
 */
module SessionExpiry {
  import opened Prelude
  import opened Sessions

  // ----- how long a session lives -----

  /** What a lookup of `id` answers at `now`. */
  ghost function Answer(s: Store, cfg: Config, id: Id, now: nat): Option<Data> {
    var found := ShardGet(s[ShardIndex(id)], cfg, id, now).1;
    if found.Some? then Some(found.value.data) else None
  }

  /** The data that the operation leaves in use: of an answered lookup or an accepted update. */
  ghost function InUse(s: Store, cfg: Config, e: Event): Option<Data> {
    match e
    case Get(id, now) => Answer(s, cfg, id, now)
    case Upsert(id, m, d, now, _) =>
      var current := Lookup(s[ShardIndex(id)], id);
      if SizeOf(Updated(DataOf(current), m, d)) <= cfg.maxDataSize then Some(Updated(DataOf(current), m, d)) else None
    case Destroy(_) => None
  }

  /** The operation is not about `id` and does not evict it. */
  ghost predicate Spares(s: Store, cfg: Config, e: Event, id: Id) {
    e.id != id && (id in s[ShardIndex(id)] ==> id in Step(s, cfg, e)[ShardIndex(id)])
  }

  ghost predicate Undisturbed(events: seq<Event>, n: nat, cfg: Config, id: Id)
    requires n <= |events|
  {
    forall i | n <= i < |events| :: Spares(Run(events[..i], cfg), cfg, events[i], id)
  }

  lemma SparedStep(s: Store, cfg: Config, e: Event, id: Id)
    requires Spares(s, cfg, e, id)
    ensures Lookup(Step(s, cfg, e)[ShardIndex(id)], id) == Lookup(s[ShardIndex(id)], id)
  {}

  lemma {:induction false} UndisturbedFront(events: seq<Event>, front: seq<Event>, n: nat, cfg: Config, id: Id)
    requires n <= |front| <= |events| && front == events[..|front|] && Undisturbed(events, n, cfg, id)
    ensures Undisturbed(front, n, cfg, id)
  {
    forall i | n <= i < |front| ensures Spares(Run(front[..i], cfg), cfg, front[i], id) {
      assert front[..i] == events[..i] && Spares(Run(events[..i], cfg), cfg, events[i], id);
    }
  }

  lemma {:induction false} SparedRun(events: seq<Event>, n: nat, cfg: Config, id: Id)
    requires n <= |events| && Undisturbed(events, n, cfg, id)
    ensures Lookup(Run(events, cfg)[ShardIndex(id)], id) == Lookup(Run(events[..n], cfg)[ShardIndex(id)], id)
  {
    if n < |events| {
      var m := |events| - 1;
      UndisturbedFront(events, events[..m], n, cfg, id);
      SparedRun(events[..m], n, cfg, id);
      assert events[..m][..n] == events[..n];
      assert Spares(Run(events[..m], cfg), cfg, events[m], id);
      SparedStep(Run(events[..m], cfg), cfg, events[m], id);
    } else {
      assert events[..n] == events;
    }
  }

  /**
   An answered lookup or an accepted update at position `n` keeps the session for the configured age and
   no longer: while it is left alone, a lookup answers with that data exactly before the age has passed.
   */
  lemma {:induction false} LivesForItsAge(events: seq<Event>, n: nat, cfg: Config, later: nat)
    requires n < |events| && InUse(Run(events[..n], cfg), cfg, events[n]).Some?
    requires Undisturbed(events, n + 1, cfg, events[n].id)
    ensures Answer(Run(events, cfg), cfg, events[n].id, later)
            == if later < events[n].now + cfg.maxAge then InUse(Run(events[..n], cfg), cfg, events[n]) else None
  {
    var e, before := events[n], Run(events[..n], cfg);
    SparedRun(events, n + 1, cfg, e.id);
    assert events[..n + 1][..n] == events[..n];
    assert Run(events[..n + 1], cfg) == Step(before, cfg, e);
  }

  /** After an unanswered lookup, or once destroyed, a session that is left alone is never answered. */
  lemma {:induction false} GoneStaysGone(events: seq<Event>, n: nat, cfg: Config, later: nat)
    requires n < |events| && !events[n].Upsert? && InUse(Run(events[..n], cfg), cfg, events[n]).None?
    requires Undisturbed(events, n + 1, cfg, events[n].id)
    ensures Answer(Run(events, cfg), cfg, events[n].id, later) == None
  {
    var e, before := events[n], Run(events[..n], cfg);
    SparedRun(events, n + 1, cfg, e.id);
    assert events[..n + 1][..n] == events[..n];
    assert Run(events[..n + 1], cfg) == Step(before, cfg, e);
  }

  // ----- what an update after the expiry does -----

  /** The shard with the data of the session forgotten if it has expired. */
  function Cleared(shard: Shard, id: Id, now: nat): Shard {
    if id in shard && Expired(shard[id], now) then shard[id := shard[id].(data := map[])] else shard
  }

  ghost function FreshUpsert(shard: Shard, cfg: Config, id: Id, mutations: Data, deleted: seq<bytes>, now: nat,
                             victim: Id): Shard
  {
    var cleared := Cleared(shard, id, now);
    if Fits(Lookup(cleared, id), cfg, mutations, deleted) then
      ShardUpdate(cleared, cfg, id, mutations, deleted, now, victim)
    else shard
  }

  /** One operation of a store in which nothing outlives its expiry. */
  ghost function FreshStep(s: Store, cfg: Config, e: Event): Store {
    if e.Upsert? then
      var i := ShardIndex(e.id);
      s[i := FreshUpsert(s[i], cfg, e.id, e.mutations, e.deleted, e.now, e.victim)]
    else Step(s, cfg, e)
  }

  ghost function FreshRun(events: seq<Event>, cfg: Config): Store {
    if events == [] then EmptyShards(SHARD_COUNT)
    else FreshStep(FreshRun(events[..|events| - 1], cfg), cfg, events[|events| - 1])
  }

  /** An update that is small enough by itself meets an expired session and leaves some of its data alone. */
  ghost predicate Revives(shard: Shard, cfg: Config, id: Id, mutations: Data, deleted: seq<bytes>, now: nat) {
    && id in shard && Expired(shard[id], now)
    && Kept(shard[id].data, mutations, deleted) != map[]
    && SizeOf(mutations) <= cfg.maxDataSize
  }

  ghost predicate RevivesAt(s: Store, cfg: Config, e: Event) {
    e.Upsert? && Revives(s[ShardIndex(e.id)], cfg, e.id, e.mutations, e.deleted, e.now)
  }

  lemma KeptAndWritten(data: Data, mutations: Data, deleted: seq<bytes>)
    ensures Updated(data, mutations, deleted) == Kept(data, mutations, deleted) + mutations
    ensures Updated(map[], mutations, deleted) == mutations
  {}

  lemma UpsertExactly(shard: Shard, cfg: Config, id: Id, mutations: Data, deleted: seq<bytes>, now: nat, victim: Id)
    ensures ShardUpsert(shard, cfg, id, mutations, deleted, now, victim).0
            == FreshUpsert(shard, cfg, id, mutations, deleted, now, victim)
            <==> !Revives(shard, cfg, id, mutations, deleted, now)
  {
    if id in shard && Expired(shard[id], now) {
      var data := shard[id].data;
      var kept := Kept(data, mutations, deleted);
      KeptAndWritten(data, mutations, deleted);
      ProjectionExact(data, mutations, deleted);
      if kept == map[] {
        assert kept + mutations == mutations;
        assert (shard - {})[id := shard[id]] == shard;
        assert ShardUpdate(shard, cfg, id, mutations, deleted, now, victim)
            == ShardUpdate(Cleared(shard, id, now), cfg, id, mutations, deleted, now, victim);
      } else {
        var k :| k in kept;
        assert k in data && k in Updated(data, mutations, deleted) && k !in Updated(map[], mutations, deleted);
        assert Lookup(Cleared(shard, id, now), id) == Some(shard[id].(data := map[]));
        assert ShardUpsert(shard, cfg, id, mutations, deleted, now, victim).0[id].data
            in {data, Updated(data, mutations, deleted)};
      }
    }
  }

  lemma StepExactly(s: Store, cfg: Config, e: Event)
    ensures Step(s, cfg, e) == FreshStep(s, cfg, e) <==> !RevivesAt(s, cfg, e)
  {
    if e.Upsert? {
      var i := ShardIndex(e.id);
      UpsertExactly(s[i], cfg, e.id, e.mutations, e.deleted, e.now, e.victim);
      assert Step(s, cfg, e)[i] == ShardUpsert(s[i], cfg, e.id, e.mutations, e.deleted, e.now, e.victim).0;
      assert FreshStep(s, cfg, e)[i] == FreshUpsert(s[i], cfg, e.id, e.mutations, e.deleted, e.now, e.victim);
    }
  }

  ghost predicate SameAt(events: seq<Event>, cfg: Config, n: nat)
    requires n <= |events|
  {
    Run(events[..n], cfg) == FreshRun(events[..n], cfg)
  }

  lemma {:induction false} NextExactly(events: seq<Event>, cfg: Config, i: nat)
    requires i < |events| && SameAt(events, cfg, i)
    ensures SameAt(events, cfg, i + 1) <==> !RevivesAt(Run(events[..i], cfg), cfg, events[i])
  {
    assert events[..i + 1][..i] == events[..i];
    StepExactly(Run(events[..i], cfg), cfg, events[i]);
  }

  lemma {:induction false} SameUpTo(events: seq<Event>, cfg: Config, n: nat)
    requires n <= |events| && forall i | 0 <= i < n :: !RevivesAt(Run(events[..i], cfg), cfg, events[i])
    ensures SameAt(events, cfg, n)
  {
    if n > 0 {
      SameUpTo(events, cfg, n - 1);
      NextExactly(events, cfg, n - 1);
    }
  }

  /** The store never differs from the reference in a run exactly when no update of the run revives data. */
  lemma ExpiryExactly(events: seq<Event>, cfg: Config)
    ensures (forall n | 0 <= n <= |events| :: SameAt(events, cfg, n))
            <==> forall i | 0 <= i < |events| :: !RevivesAt(Run(events[..i], cfg), cfg, events[i])
  {
    if forall i | 0 <= i < |events| :: !RevivesAt(Run(events[..i], cfg), cfg, events[i]) {
      forall n | 0 <= n <= |events| ensures SameAt(events, cfg, n) { SameUpTo(events, cfg, n); }
    } else {
      var i :| 0 <= i < |events| && RevivesAt(Run(events[..i], cfg), cfg, events[i]);
      if SameAt(events, cfg, i) { NextExactly(events, cfg, i); }
    }
  }

  /** What an accepted update keeps of a session, expired or not, the next lookup in time answers. */
  lemma RevivedAnswered(shard: Shard, cfg: Config, id: Id, mutations: Data, deleted: seq<bytes>, now: nat, victim: Id,
                        later: nat)
    requires id in shard && Fits(Some(shard[id]), cfg, mutations, deleted) && later < now + cfg.maxAge
    ensures var next := ShardUpsert(shard, cfg, id, mutations, deleted, now, victim).0;
            var answer := ShardGet(next, cfg, id, later).1;
            answer.Some? && answer.value.data == Kept(shard[id].data, mutations, deleted) + mutations
  {
    KeptAndWritten(shard[id].data, mutations, deleted);
  }

  lemma {:induction false} FirstUpsert(cfg: Config, id: Id, data: Data, now: nat, victim: Id)
    requires SizeOf(data) <= cfg.maxDataSize
    ensures ShardUpsert(map[], cfg, id, data, [], now, victim).0 == map[id := Entry(data, now, now, now + cfg.maxAge)]
  {
    FirstEntry(cfg, data, now);
    FirstUpdate(map[], cfg, id, data, now, victim);
  }

  lemma FirstEntry(cfg: Config, data: Data, now: nat)
    ensures Updated(DataOf(None), data, []) == data
    ensures NewEntry(None, cfg, data, [], now) == Entry(data, now, now, now + cfg.maxAge)
  {
    KeptAndWritten(map[], data, []);
  }

  lemma FirstUpdate(none: Shard, cfg: Config, id: Id, data: Data, now: nat, victim: Id)
    requires none == map[]
    ensures ShardUpdate(none, cfg, id, data, [], now, victim) == map[id := NewEntry(None, cfg, data, [], now)]
  {
    assert !Full(none, cfg, id) && none - {} == none;
  }

  lemma {:induction false} TwoUpserts(cfg: Config, first: Event, second: Event)
    requires first.Upsert? && second.Upsert? && first.id == second.id
    ensures var one := ShardUpsert(map[], cfg, first.id, first.mutations, first.deleted, first.now, first.victim).0;
            var two := ShardUpsert(one, cfg, second.id, second.mutations, second.deleted, second.now, second.victim).0;
            && Run([first], cfg)[ShardIndex(first.id)] == one
            && Run([first, second], cfg)[ShardIndex(first.id)] == two
  {
    assert [first, second][..1] == [first] && [first][..0] == [];
    assert Run([first], cfg) == Step(EmptyShards(SHARD_COUNT), cfg, first);
    assert Run([first, second], cfg) == Step(Run([first], cfg), cfg, second);
  }

  /** Data stored at 0 for ten time units is answered at 51 after an empty update at 50. */
  lemma {:induction false} RevivalWitness(id: Id, data: Data, sessions: nat, victim: Id)
    requires data != map[]
    ensures var cfg := Config(10, sessions, SizeOf(data));
            var first, second := Upsert(id, data, [], 0, victim), Upsert(id, map[], [], 50, victim);
            var answer := ShardGet(Run([first, second], cfg)[ShardIndex(id)], cfg, id, 51).1;
            && RevivesAt(Run([first], cfg), cfg, second)
            && answer.Some? && answer.value.data == data
  {
    var cfg := Config(10, sessions, SizeOf(data));
    TwoUpserts(cfg, Upsert(id, data, [], 0, victim), Upsert(id, map[], [], 50, victim));
    FirstUpsert(cfg, id, data, 0, victim);
    NothingChanged(data);
    var stored: Shard := map[id := Entry(data, 0, 0, 10)];
    RevivedAnswered(stored, cfg, id, map[], [], 50, victim, 51);
  }

  lemma NothingChanged(data: Data)
    ensures Kept(data, map[], []) == data && Kept(data, map[], []) + map[] == Updated(data, map[], []) == data
  {}
}
