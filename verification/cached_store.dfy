/**
 * The cache engine attached to the demonstration store: every store answer
 * the engine receives is the one DemoRepo gives for the current file. This
 * is where the mode invariants are stated and proved:
 *  - EAGER: the cached ids are exactly the file's ids, the file's ids are
 *    unique, and each cached entity is what the file's record converts to;
 *  - LAZY: the cached ids are some of the file's ids, the file's ids are
 *    unique, and each entity is cached under its own id.
 */
module CachedStore {
  import opened Wrappers
  import opened Repository
  import opened CacheEngine
  import DemoRepo

  /** The cache together with the file it fronts. */
  datatype World<P, V, S> = World(cache: Cache<V, S>, store: seq<Record<P>>)

  /** A mutation's result, notifications and the world after it. */
  datatype Step<P, V, S> = Step(world: World<P, V, S>, result: Result<bool, Error>, events: seq<Delivery<V, S>>)

  /** A get's result and the world after it. */
  datatype Read<P, V, S> = Read(world: World<P, V, S>, found: Option<Entity<V>>)

  // ---------------------------------------------------------------------
  // Invariants
  // ---------------------------------------------------------------------

  /** The key half of the EAGER invariant: the cached ids are exactly the file's ids, which are unique. */
  ghost predicate MirrorsKeys<P, V, S>(w: World<P, V, S>) {
    && w.cache.mode == Eager
    && UniqueIds(w.store)
    && w.cache.entries.Keys == Ids(w.store)
  }

  /** The EAGER invariant: the cache is a complete, faithful mirror of the file. */
  ghost predicate Mirrors<P, V, S>(w: World<P, V, S>, conv: Converter<P, V>) {
    && MirrorsKeys(w)
    && forall k :: k in w.cache.entries ==>
         DemoRepo.Find(w.store, k).Some? && ToEntity(conv, DemoRepo.Find(w.store, k).value) == Some(w.cache.entries[k])
  }

  /** The LAZY invariant: the cache holds some of the file's ids, each under its own id. */
  ghost predicate Covers<P, V, S>(w: World<P, V, S>) {
    && w.cache.mode == Lazy
    && UniqueIds(w.store)
    && w.cache.entries.Keys <= Ids(w.store)
    && KeyedById(w.cache)
  }

  ghost predicate Valid<P, V, S>(w: World<P, V, S>, conv: Converter<P, V>) {
    Mirrors(w, conv) || Covers(w)
  }

  /** The part of the mode invariant that does not depend on the converter. */
  ghost predicate KeysValid<P, V, S>(w: World<P, V, S>) {
    MirrorsKeys(w) || Covers(w)
  }

  // ---------------------------------------------------------------------
  // Operations
  // ---------------------------------------------------------------------

  /** Construct a cache over the file; an EAGER cache reads it with getAll. */
  function Open<P, V, S>(mode: Mode, conv: Converter<P, V>, store: seq<Record<P>>, io: DemoRepo.Io): (r: Result<World<P, V, S>, Error>)
    ensures r.Ok? ==> r.value.store == store && r.value.cache.mode == mode && r.value.cache.subscribers == []
    ensures mode == Lazy ==> r.Ok? && r.value.cache.entries == map[]
    ensures mode == Eager && !io.readOk ==> r == Err(RepoNotAttached)
    ensures mode == Eager && io.readOk && r.Err? ==> r.error.RecordNotConvertible?
    ensures mode == Eager ==>
      (r.Ok? <==> io.readOk && forall i :: 0 <= i < |store| ==> ToEntity(conv, store[i]).Some?)
    ensures mode == Eager && r.Ok? ==> r.value.cache.entries.Keys == Ids(store)
  {
    var c := Construct(mode, conv, DemoRepo.GetAll(store, io));
    if c.Ok? then Ok(World(c.value, store)) else Err(c.error)
  }

  function Get<P, V, S>(w: World<P, V, S>, conv: Converter<P, V>, id: int, io: DemoRepo.Io): (r: Read<P, V, S>)
    ensures r.world.store == w.store
  {
    var l := CacheEngine.Get(w.cache, conv, id, DemoRepo.Get(w.store, id, io));
    Read(World(l.cache, w.store), l.found)
  }

  /**
   * add over DemoRepo's add as the source writes it: a lookup read that
   * fails looks like an absent id. The file changes only when the engine
   * actually called the store.
   */
  function Add<P, V, S>(w: World<P, V, S>, conv: Converter<P, V>, e: Entity<V>, io: DemoRepo.Io): (r: Step<P, V, S>)
    ensures e.id in w.cache.entries ==> r.world == w
    ensures r.result == Ok(true) ==>
      r.world.cache.entries == w.cache.entries[e.id := e] && r.world.store == w.store + [ToRecord(conv, e)]
  {
    var written := DemoRepo.AddAsWritten(w.store, ToRecord(conv, e), io);
    var reply := CacheEngine.Add(w.cache, e, written.state);
    Step(World(reply.cache, if reply.consulted then written.store else w.store), reply.result, reply.events)
  }

  /**
   * add over the corrected DemoRepo add, where a failed lookup read answers
   * FAILURE. It differs from the source's add only when that read fails.
   */
  function AddCorrected<P, V, S>(w: World<P, V, S>, conv: Converter<P, V>, e: Entity<V>, io: DemoRepo.Io): (r: Step<P, V, S>)
    ensures io.readOk ==> r == Add(w, conv, e, io)
    ensures r.result == Ok(true) ==> io.readOk && io.writeOk && e.id !in Ids(w.store)
    ensures e.id in w.cache.entries ==> r.world == w
  {
    var written := DemoRepo.Add(w.store, ToRecord(conv, e), io);
    var reply := CacheEngine.Add(w.cache, e, written.state);
    Step(World(reply.cache, if reply.consulted then written.store else w.store), reply.result, reply.events)
  }

  function Update<P, V, S>(w: World<P, V, S>, conv: Converter<P, V>, e: Entity<V>, io: DemoRepo.Io): (r: Step<P, V, S>)
    ensures w.cache.mode == Eager && e.id !in w.cache.entries ==> r.world == w
    ensures r.result == Ok(true) ==>
      r.world.cache.entries == w.cache.entries[e.id := e] &&
      r.world.store == DemoRepo.Update(w.store, ToRecord(conv, e), io).store
  {
    var written := DemoRepo.Update(w.store, ToRecord(conv, e), io);
    var reply := CacheEngine.Update(w.cache, e, written.state);
    Step(World(reply.cache, if reply.consulted then written.store else w.store), reply.result, reply.events)
  }

  function Remove<P, V, S>(w: World<P, V, S>, conv: Converter<P, V>, e: Entity<V>, io: DemoRepo.Io): (r: Step<P, V, S>)
    ensures w.cache.mode == Eager && e.id !in w.cache.entries ==> r.world == w
    ensures r.result == Ok(true) ==>
      r.world.cache.entries == w.cache.entries - {e.id} &&
      r.world.store == DemoRepo.Remove(w.store, ToRecord(conv, e), io).store
  {
    var written := DemoRepo.Remove(w.store, ToRecord(conv, e), io);
    var reply := CacheEngine.Remove(w.cache, e, written.state);
    Step(World(reply.cache, if reply.consulted then written.store else w.store), reply.result, reply.events)
  }

  // ---------------------------------------------------------------------
  // The invariants hold from construction on
  // ---------------------------------------------------------------------

  /** Construction over a file with unique ids yields a valid world in either mode. */
  lemma OpenValid<P, V, S>(mode: Mode, conv: Converter<P, V>, store: seq<Record<P>>, io: DemoRepo.Io)
    requires UniqueIds(store)
    requires Open<P, V, S>(mode, conv, store, io).Ok?
    ensures Valid(Open<P, V, S>(mode, conv, store, io).value, conv)
  {
    var w := Open<P, V, S>(mode, conv, store, io).value;
    if mode == Eager {
      var loaded := LoadAll(conv, store);
      assert w.cache.entries == loaded.value;
      forall k | k in w.cache.entries
        ensures DemoRepo.Find(store, k).Some? && ToEntity(conv, DemoRepo.Find(store, k).value) == Some(w.cache.entries[k])
      {
        var i := DemoRepo.IndexOf(store, k).value;
        DemoRepo.FindAt(store, k, i);
        assert LastWithId(store, i);
        LoadAllLastWins(conv, store, i);
      }
      assert Mirrors(w, conv);
    }
  }

  lemma GetValid<P, V, S>(w: World<P, V, S>, conv: Converter<P, V>, id: int, io: DemoRepo.Io)
    requires Valid(w, conv)
    ensures Valid(Get(w, conv, id, io).world, conv)
  {
    var w' := Get(w, conv, id, io).world;
    if w.cache.mode == Lazy {
      var fetched := DemoRepo.Get(w.store, id, io);
      assert fetched.Some? ==> fetched.value.id == id;
      assert Covers(w');
    } else {
      assert w' == w;
    }
  }

  /**
   * The corrected add keeps the mode invariant whatever the file's I/O does.
   * Only the EAGER value clause needs a converter that round-trips.
   */
  lemma AddCorrectedValid<P, V(!new), S>(w: World<P, V, S>, conv: Converter<P, V>, e: Entity<V>, io: DemoRepo.Io)
    requires w.cache.mode == Eager ==> RoundTrips(conv)
    requires Valid(w, conv)
    ensures Valid(AddCorrected(w, conv, e, io).world, conv)
  {
    var rec := ToRecord(conv, e);
    var written := DemoRepo.Add(w.store, rec, io);
    var reply := CacheEngine.Add(w.cache, e, written.state);
    var w' := AddCorrected(w, conv, e, io).world;
    if reply.consulted {
      DemoRepo.AddKeepsIdsUnique(w.store, rec, io);
      if written.state == Success {
        IdsOfAppend(w.store, rec);
        if w.cache.mode == Eager {
          forall k | k in w'.cache.entries
            ensures DemoRepo.Find(w'.store, k).Some? && ToEntity(conv, DemoRepo.Find(w'.store, k).value) == Some(w'.cache.entries[k])
          {
            DemoRepo.FindAfterAppend(w.store, rec, k);
            if k == e.id { RecordRoundTrip(conv, e); }
          }
          assert Mirrors(w', conv);
        } else {
          assert Covers(w');
        }
      } else if written.state == AlreadyExists {
        assert e.id in Ids(w.store);
        assert Valid(w', conv);
      }
    }
  }

  /**
   * The source's add keeps the mode invariant, except in LAZY mode when the
   * lookup read fails (CachedStore.LazyAddDuplicatesId). Under the EAGER
   * mirror a consulted add concerns an id the file lacks, so the failed
   * read changes nothing.
   */
  lemma AddValid<P, V(!new), S>(w: World<P, V, S>, conv: Converter<P, V>, e: Entity<V>, io: DemoRepo.Io)
    requires w.cache.mode == Eager ==> RoundTrips(conv)
    requires Valid(w, conv)
    requires w.cache.mode == Eager || io.readOk
    ensures Valid(Add(w, conv, e, io).world, conv)
  {
    var io' := DemoRepo.Io(true, io.writeOk);
    assert Add(w, conv, e, io) == AddCorrected(w, conv, e, io') by {
      if !io.readOk && e.id !in w.cache.entries {
        assert Mirrors(w, conv);
        assert DemoRepo.Get(w.store, e.id, io) == DemoRepo.Get(w.store, e.id, io');
      }
    }
    AddCorrectedValid(w, conv, e, io');
  }

  lemma UpdateValid<P, V(!new), S>(w: World<P, V, S>, conv: Converter<P, V>, e: Entity<V>, io: DemoRepo.Io)
    requires w.cache.mode == Eager ==> RoundTrips(conv)
    requires Valid(w, conv)
    ensures Valid(Update(w, conv, e, io).world, conv)
  {
    var rec := ToRecord(conv, e);
    var written := DemoRepo.Update(w.store, rec, io);
    var reply := CacheEngine.Update(w.cache, e, written.state);
    if reply.consulted && written.state == Success {
      DemoRepo.UpdateKeepsIds(w.store, rec, io);
      if w.cache.mode == Eager {
        UpdateKeepsMirror(w, conv, e, io);
      }
    }
  }

  /** The EAGER half of UpdateValid: a stored update keeps cache and file agreeing. */
  lemma UpdateKeepsMirror<P, V(!new), S>(w: World<P, V, S>, conv: Converter<P, V>, e: Entity<V>, io: DemoRepo.Io)
    requires RoundTrips(conv)
    requires Mirrors(w, conv)
    requires DemoRepo.Update(w.store, ToRecord(conv, e), io).state == Success
    ensures Mirrors(Update(w, conv, e, io).world, conv)
  {
    var rec := ToRecord(conv, e);
    var store' := DemoRepo.Update(w.store, rec, io).store;
    var w' := Update(w, conv, e, io).world;
    assert w'.store == store';
    assert w'.cache.entries == w.cache.entries[e.id := e];
    DemoRepo.UpdateKeepsIds(w.store, rec, io);
    forall k | k in w'.cache.entries
      ensures DemoRepo.Find(store', k).Some? && ToEntity(conv, DemoRepo.Find(store', k).value) == Some(w'.cache.entries[k])
    {
      DemoRepo.FindAfterUpdate(w.store, rec, io, k);
      if k == e.id { RecordRoundTrip(conv, e); }
    }
  }

  lemma RemoveValid<P, V, S>(w: World<P, V, S>, conv: Converter<P, V>, e: Entity<V>, io: DemoRepo.Io)
    requires Valid(w, conv)
    ensures Valid(Remove(w, conv, e, io).world, conv)
  {
    var rec := ToRecord(conv, e);
    var written := DemoRepo.Remove(w.store, rec, io);
    var reply := CacheEngine.Remove(w.cache, e, written.state);
    var w' := Remove(w, conv, e, io).world;
    if reply.consulted && written.state == Success {
      DemoRepo.RemoveDropsId(w.store, rec, io);
      if w.cache.mode == Eager {
        forall k | k in w'.cache.entries
          ensures DemoRepo.Find(w'.store, k).Some? && ToEntity(conv, DemoRepo.Find(w'.store, k).value) == Some(w'.cache.entries[k])
        {
          DemoRepo.FindAfterRemove(w.store, rec, io, k);
        }
        assert Mirrors(w', conv);
      } else {
        assert Covers(w');
      }
    }
  }

  /**
   * With any converter at all, every operation keeps the cached ids equal to
   * the file's ids (EAGER) or among them, each entity under its own id
   * (LAZY); the source's add does so except in LAZY mode after a failed
   * lookup read.
   */
  lemma OperationsKeepKeys<P, V, S>(w: World<P, V, S>, conv: Converter<P, V>, e: Entity<V>, id: int, io: DemoRepo.Io)
    requires KeysValid(w)
    ensures KeysValid(Get(w, conv, id, io).world)
    ensures KeysValid(AddCorrected(w, conv, e, io).world)
    ensures w.cache.mode == Eager || io.readOk ==> KeysValid(Add(w, conv, e, io).world)
    ensures KeysValid(Update(w, conv, e, io).world)
    ensures KeysValid(Remove(w, conv, e, io).world)
  {
    GetKeepsKeys(w, conv, id, io);
    AddCorrectedKeepsKeys(w, conv, e, io);
    if w.cache.mode == Eager || io.readOk {
      AddKeepsKeys(w, conv, e, io);
    }
    UpdateKeepsKeys(w, conv, e, io);
    RemoveKeepsKeys(w, conv, e, io);
  }

  lemma GetKeepsKeys<P, V, S>(w: World<P, V, S>, conv: Converter<P, V>, id: int, io: DemoRepo.Io)
    requires KeysValid(w)
    ensures KeysValid(Get(w, conv, id, io).world)
  {
    if w.cache.mode == Lazy {
      var fetched := DemoRepo.Get(w.store, id, io);
      assert fetched.Some? ==> fetched.value.id == id;
      assert Covers(Get(w, conv, id, io).world);
    } else {
      assert Get(w, conv, id, io).world == w;
    }
  }

  lemma AddCorrectedKeepsKeys<P, V, S>(w: World<P, V, S>, conv: Converter<P, V>, e: Entity<V>, io: DemoRepo.Io)
    requires KeysValid(w)
    ensures KeysValid(AddCorrected(w, conv, e, io).world)
  {
    var rec := ToRecord(conv, e);
    var written := DemoRepo.Add(w.store, rec, io);
    var reply := CacheEngine.Add(w.cache, e, written.state);
    var w' := AddCorrected(w, conv, e, io).world;
    if reply.consulted {
      DemoRepo.AddKeepsIdsUnique(w.store, rec, io);
      if written.state == Success {
        IdsOfAppend(w.store, rec);
        assert MirrorsKeys(w') || Covers(w');
      } else if written.state == AlreadyExists {
        assert e.id in Ids(w.store);
        assert KeysValid(w');
      }
    }
  }

  lemma AddKeepsKeys<P, V, S>(w: World<P, V, S>, conv: Converter<P, V>, e: Entity<V>, io: DemoRepo.Io)
    requires KeysValid(w)
    requires w.cache.mode == Eager || io.readOk
    ensures KeysValid(Add(w, conv, e, io).world)
  {
    var io' := DemoRepo.Io(true, io.writeOk);
    assert Add(w, conv, e, io) == AddCorrected(w, conv, e, io') by {
      if !io.readOk && e.id !in w.cache.entries {
        assert MirrorsKeys(w);
        assert DemoRepo.Get(w.store, e.id, io) == DemoRepo.Get(w.store, e.id, io');
      }
    }
    AddCorrectedKeepsKeys(w, conv, e, io');
  }

  lemma UpdateKeepsKeys<P, V, S>(w: World<P, V, S>, conv: Converter<P, V>, e: Entity<V>, io: DemoRepo.Io)
    requires KeysValid(w)
    ensures KeysValid(Update(w, conv, e, io).world)
  {
    var rec := ToRecord(conv, e);
    var written := DemoRepo.Update(w.store, rec, io);
    var reply := CacheEngine.Update(w.cache, e, written.state);
    if reply.consulted && written.state == Success {
      DemoRepo.UpdateKeepsIds(w.store, rec, io);
    }
  }

  lemma RemoveKeepsKeys<P, V, S>(w: World<P, V, S>, conv: Converter<P, V>, e: Entity<V>, io: DemoRepo.Io)
    requires KeysValid(w)
    ensures KeysValid(Remove(w, conv, e, io).world)
  {
    var rec := ToRecord(conv, e);
    var written := DemoRepo.Remove(w.store, rec, io);
    var reply := CacheEngine.Remove(w.cache, e, written.state);
    if reply.consulted && written.state == Success {
      DemoRepo.RemoveDropsId(w.store, rec, io);
    }
  }

  // ---------------------------------------------------------------------
  // What callers observe
  // ---------------------------------------------------------------------

  /**
   * An EAGER cache answers get exactly as the file would, without reading
   * it: the converted first record for a stored id, None otherwise.
   */
  lemma EagerGetAgreesWithStore<P, V, S>(w: World<P, V, S>, conv: Converter<P, V>, id: int, io: DemoRepo.Io)
    requires Mirrors(w, conv)
    ensures Get(w, conv, id, io).world == w
    ensures Get(w, conv, id, io).found ==
      (if id in Ids(w.store) then ToEntity(conv, DemoRepo.Find(w.store, id).value) else None)
  {
  }

  /**
   * Under the EAGER mirror, add's result depends only on the file: false
   * exactly when the id is stored, and otherwise true exactly when the file
   * can be written. A failed lookup read plays no part: the id is absent
   * anyway, and the source's add takes the failed read for absence.
   */
  lemma EagerAddOutcome<P, V, S>(w: World<P, V, S>, conv: Converter<P, V>, e: Entity<V>, io: DemoRepo.Io)
    requires Mirrors(w, conv)
    ensures Add(w, conv, e, io).result == Ok(false) <==> e.id in Ids(w.store)
    ensures Add(w, conv, e, io).result == Ok(true) <==> e.id !in Ids(w.store) && io.writeOk
    ensures Add(w, conv, e, io).result.Err? <==> e.id !in Ids(w.store) && !io.writeOk
  {
  }

  /**
   * Under the EAGER mirror, update and remove return false exactly when the
   * id is not stored, and then touch neither the cache nor the file.
   */
  lemma EagerChangeOutcome<P, V, S>(w: World<P, V, S>, conv: Converter<P, V>, e: Entity<V>, io: DemoRepo.Io)
    requires Mirrors(w, conv)
    ensures Update(w, conv, e, io).result == Ok(false) <==> e.id !in Ids(w.store)
    ensures Remove(w, conv, e, io).result == Ok(false) <==> e.id !in Ids(w.store)
    ensures Update(w, conv, e, io).result == Ok(true) <==> e.id in Ids(w.store) && io.readOk && io.writeOk
    ensures Remove(w, conv, e, io).result == Ok(true) <==> e.id in Ids(w.store) && io.readOk && io.writeOk
    ensures Update(w, conv, e, io).result == Ok(false) ==> Update(w, conv, e, io).world == w
    ensures Remove(w, conv, e, io).result == Ok(false) ==> Remove(w, conv, e, io).world == w
  {
  }

  /**
   * Update of an id the file does not hold returns false and leaves cache
   * and file as they were, in EAGER mode always and in LAZY mode whenever
   * the file can be read.
   */
  lemma UpdateMissingIsNoop<P, V, S>(w: World<P, V, S>, conv: Converter<P, V>, e: Entity<V>, io: DemoRepo.Io)
    requires Valid(w, conv)
    requires e.id !in Ids(w.store)
    requires w.cache.mode == Eager || io.readOk
    ensures Update(w, conv, e, io).result == Ok(false)
    ensures Update(w, conv, e, io).world == w
  {
  }

  /** After a successful add, get returns the added entity, in either mode. */
  lemma AddThenGet<P, V, S>(w: World<P, V, S>, conv: Converter<P, V>, e: Entity<V>, io: DemoRepo.Io, io': DemoRepo.Io)
    requires Add(w, conv, e, io).result == Ok(true)
    ensures Get(Add(w, conv, e, io).world, conv, e.id, io').found == Some(e)
  {
  }

  /** After a successful remove, get finds nothing, in either mode. */
  lemma RemoveThenGet<P, V, S>(w: World<P, V, S>, conv: Converter<P, V>, e: Entity<V>, io: DemoRepo.Io, io': DemoRepo.Io)
    requires Valid(w, conv)
    requires Remove(w, conv, e, io).result == Ok(true)
    ensures Get(Remove(w, conv, e, io).world, conv, e.id, io').found == None
  {
    var rec := ToRecord(conv, e);
    DemoRepo.RemoveDropsId(w.store, rec, io);
  }

  /**
   * LAZY backfill: a file holding id 7 as one entity, and add of a different
   * entity with id 7, returns false; get(7) then returns the entity passed to
   * add, not the file's version.
   */
  lemma LazyBackfillScenario<P, V, S>(conv: Converter<P, V>, stored: P, e: Entity<V>, io: DemoRepo.Io)
    requires io.readOk
    requires e.id == 7
    ensures var w := Open<P, V, S>(Lazy, conv, [Record(7, stored)], io).value;
      var s := Add(w, conv, e, io);
      s.result == Ok(false) && Get(s.world, conv, 7, io).found == Some(e)
  {
    var w := Open<P, V, S>(Lazy, conv, [Record(7, stored)], io).value;
    assert w.store[0].id == 7;
    assert 7 in Ids(w.store);
  }

  /**
   * A file that can be read but not written: update of a cached entity
   * raises EntityNotModified, and get still returns the entity cached before.
   */
  lemma ReadOnlyStoreScenario<P, V, S>(w: World<P, V, S>, conv: Converter<P, V>, e: Entity<V>, io': DemoRepo.Io)
    requires Valid(w, conv)
    requires e.id in w.cache.entries
    ensures var s := Update(w, conv, e, DemoRepo.Io(true, false));
      s.result == Err(EntityNotModified(e.id)) && s.world == w &&
      Get(s.world, conv, e.id, io').found == Some(w.cache.entries[e.id])
  {
  }

  // ---------------------------------------------------------------------
  // The source's add with a failed lookup read
  // ---------------------------------------------------------------------

  /**
   * LAZY over a file holding id 7, with id 7 not cached: an add of id 7
   * whose lookup read fails and whose write succeeds returns true, and the
   * file then holds id 7 twice, so the LAZY invariant is lost.
   */
  lemma LazyAddDuplicatesId<P, V, S>(conv: Converter<P, V>, stored: P, e: Entity<V>, io: DemoRepo.Io)
    requires e.id == 7
    ensures var w := Open<P, V, S>(Lazy, conv, [Record(7, stored)], io).value;
      var s := Add(w, conv, e, DemoRepo.Io(false, true));
      s.result == Ok(true) && s.world.store == [Record(7, stored), ToRecord(conv, e)] &&
      !UniqueIds(s.world.store) && !Valid(s.world, conv)
  {
    var w := Open<P, V, S>(Lazy, conv, [Record(7, stored)], io).value;
    var s := Add(w, conv, e, DemoRepo.Io(false, true));
    assert s.world.store[0].id == s.world.store[1].id;
  }

  /**
   * The consequence: after that duplicating add, a successful remove of the
   * entity deletes the OLD line (the first with id 7) and keeps the new
   * one, so the next LAZY get fetches the entity that was just removed.
   */
  lemma RemovedEntityReturns<P, V(!new), S>(conv: Converter<P, V>, stored: P, e: Entity<V>, io: DemoRepo.Io)
    requires RoundTrips(conv)
    requires e.id == 7
    ensures var w := Open<P, V, S>(Lazy, conv, [Record(7, stored)], io).value;
      var s := Add(w, conv, e, DemoRepo.Io(false, true));
      var t := Remove(s.world, conv, e, DemoRepo.Io(true, true));
      t.result == Ok(true) && t.world.store == [ToRecord(conv, e)] &&
      Get(t.world, conv, 7, DemoRepo.Io(true, true)).found == Some(e)
  {
    var w := Open<P, V, S>(Lazy, conv, [Record(7, stored)], io).value;
    var s := Add(w, conv, e, DemoRepo.Io(false, true));
    assert s.world.store == [Record(7, stored), ToRecord(conv, e)];
    assert DemoRepo.IndexOf(s.world.store, 7) == Some(0);
    var t := Remove(s.world, conv, e, DemoRepo.Io(true, true));
    assert t.world.store == [ToRecord(conv, e)];
    assert DemoRepo.IndexOf(t.world.store, 7) == Some(0);
    RecordRoundTrip(conv, e);
  }
}
