/**
 * Properties of the cache engine that relate several calls: what a later
 * `get` sees after a mutation, what a repeated call does, and how the
 * subscriber list shapes the notifications.
 */
module CacheLaws {
  import opened Wrappers
  import opened Repository
  import opened CacheEngine

  // ---------------------------------------------------------------------
  // Mutations seen through get
  // ---------------------------------------------------------------------

  /** A successful add is visible at once: get hits and returns the added entity. */
  lemma AddThenGet<P, V, S>(c: Cache<V, S>, conv: Converter<P, V>, e: Entity<V>, fetched: Option<Record<P>>)
    requires Add(c, e, Success).result == Ok(true)
    ensures Get(Add(c, e, Success).cache, conv, e.id, fetched) == Lookup(Add(c, e, Success).cache, Some(e), false)
  {
  }

  /**
   * Adding the same id twice: the first call returns true, the second
   * returns false without asking the store, and the first entity stays.
   */
  lemma AddTwice<V, S>(c: Cache<V, S>, e: Entity<V>, e': Entity<V>, answer: ReturnState)
    requires Add(c, e, Success).result == Ok(true)
    requires e'.id == e.id
    ensures var c' := Add(c, e, Success).cache;
      Add(c', e', answer) == Reply(c', Ok(false), false, []) && c'.entries[e.id] == e
  {
  }

  /** A successful update is visible at once: get returns the new entity. */
  lemma UpdateThenGet<P, V, S>(c: Cache<V, S>, conv: Converter<P, V>, e: Entity<V>, fetched: Option<Record<P>>)
    requires Update(c, e, Success).result == Ok(true)
    ensures Get(Update(c, e, Success).cache, conv, e.id, fetched) == Lookup(Update(c, e, Success).cache, Some(e), false)
  {
  }

  /**
   * A successful remove leaves the id uncached: an EAGER get then returns
   * None at once, a LAZY get has to ask the store again.
   */
  lemma RemoveThenGet<P, V, S>(c: Cache<V, S>, conv: Converter<P, V>, e: Entity<V>, fetched: Option<Record<P>>)
    requires Remove(c, e, Success).result == Ok(true)
    ensures var c' := Remove(c, e, Success).cache;
      var g := Get(c', conv, e.id, fetched);
      (c.mode == Eager ==> g == Lookup(c', None, false)) &&
      (c.mode == Lazy ==> g.consulted && (fetched.None? ==> g.found.None?))
  {
  }

  /**
   * A store that refuses writes: update raises EntityNotModified and a later
   * get still returns the entity cached before the update.
   */
  lemma FailedUpdateKeepsValue<P, V, S>(c: Cache<V, S>, conv: Converter<P, V>, e: Entity<V>, fetched: Option<Record<P>>)
    requires e.id in c.entries
    ensures Update(c, e, Failure).result == Err(EntityNotModified(e.id))
    ensures Get(Update(c, e, Failure).cache, conv, e.id, fetched).found == Some(c.entries[e.id])
  {
  }

  /**
   * Whatever the store answers, a mutation that does not succeed in the
   * store leaves the cache exactly as it was and informs nobody.
   */
  lemma RefusedMutationChangesNothing<V, S>(c: Cache<V, S>, e: Entity<V>, answer: ReturnState)
    requires answer == Failure || answer == NotExists
    ensures Add(c, e, answer).cache == c && Add(c, e, answer).events == []
    ensures Update(c, e, answer).cache == c && Update(c, e, answer).events == []
    ensures Remove(c, e, answer).cache == c && Remove(c, e, answer).events == []
  {
  }

  /**
   * Each mutation touches at most the entity's own key: every other id is
   * cached before the call exactly when after it, with the same entity.
   */
  lemma MutationTouchesOneKey<V, S>(c: Cache<V, S>, e: Entity<V>, answer: ReturnState, k: int)
    requires k != e.id
    ensures var m := Add(c, e, answer).cache.entries;
      (k in m <==> k in c.entries) && (k in m ==> m[k] == c.entries[k])
    ensures var m := Update(c, e, answer).cache.entries;
      (k in m <==> k in c.entries) && (k in m ==> m[k] == c.entries[k])
    ensures var m := Remove(c, e, answer).cache.entries;
      (k in m <==> k in c.entries) && (k in m ==> m[k] == c.entries[k])
  {
  }

  /**
   * LAZY backfill: when the store already holds the id, add returns false
   * but caches the GIVEN entity, and get then returns it without asking the
   * store -- even if the store's copy differs.
   */
  lemma LazyBackfill<P, V, S>(c: Cache<V, S>, conv: Converter<P, V>, e: Entity<V>, fetched: Option<Record<P>>)
    requires c.mode == Lazy && e.id !in c.entries
    ensures Add(c, e, AlreadyExists).result == Ok(false)
    ensures var c' := Add(c, e, AlreadyExists).cache;
      Get(c', conv, e.id, fetched) == Lookup(c', Some(e), false)
  {
  }

  /**
   * Against a store that keeps its contract, a consulted mutation returns
   * true exactly on SUCCESS and informs subscribers exactly then.
   */
  lemma ContractAnswersDecideResult<V, S>(c: Cache<V, S>, e: Entity<V>, addAnswer: ReturnState, changeAnswer: ReturnState)
    requires IsAddAnswer(addAnswer) && IsChangeAnswer(changeAnswer)
    ensures Add(c, e, addAnswer).consulted ==>
      (Add(c, e, addAnswer).result == Ok(true) <==> addAnswer == Success) &&
      (Add(c, e, addAnswer).events != [] <==> addAnswer == Success && c.subscribers != [])
    ensures Update(c, e, changeAnswer).consulted ==>
      (Update(c, e, changeAnswer).result == Ok(true) <==> changeAnswer == Success) &&
      (Update(c, e, changeAnswer).events != [] <==> changeAnswer == Success && c.subscribers != [])
    ensures Remove(c, e, changeAnswer).consulted ==>
      (Remove(c, e, changeAnswer).result == Ok(true) <==> changeAnswer == Success) &&
      (Remove(c, e, changeAnswer).events != [] <==> changeAnswer == Success && c.subscribers != [])
  {
  }

  /** In EAGER mode an ALREADY_EXISTS answer leaves the cache as it was. */
  lemma EagerNoBackfill<V, S>(c: Cache<V, S>, e: Entity<V>)
    requires c.mode == Eager
    ensures Add(c, e, AlreadyExists).cache == c && Add(c, e, AlreadyExists).result == Ok(false)
  {
  }

  /** A LAZY get that found an entity caches it: the next get hits without the store. */
  lemma LazyGetTwice<P, V, S>(c: Cache<V, S>, conv: Converter<P, V>, id: int, fetched: Option<Record<P>>, fetched': Option<Record<P>>)
    requires Get(c, conv, id, fetched).found.Some?
    ensures var g := Get(c, conv, id, fetched);
      Get(g.cache, conv, id, fetched') == Lookup(g.cache, g.found, false)
  {
  }

  /**
   * Every operation keeps each cached entity under its own id, provided the
   * store's `get` returns a record carrying the requested id.
   */
  lemma OperationsKeepKeying<P, V, S>(c: Cache<V, S>, conv: Converter<P, V>, e: Entity<V>, answer: ReturnState, id: int, fetched: Option<Record<P>>)
    requires KeyedById(c)
    requires fetched.Some? ==> fetched.value.id == id
    ensures KeyedById(Get(c, conv, id, fetched).cache)
    ensures KeyedById(Add(c, e, answer).cache)
    ensures KeyedById(Update(c, e, answer).cache)
    ensures KeyedById(Remove(c, e, answer).cache)
  {
  }

  // ---------------------------------------------------------------------
  // Subscribers
  // ---------------------------------------------------------------------

  /**
   * A notification reaches exactly the registered subscribers, in
   * registration order, once per registration, each with the same change.
   */
  lemma NotifyReachesRegistrations<V, S>(subscribers: seq<S>, op: Operation, e: Entity<V>)
    ensures Recipients(Notify(subscribers, op, e)) == subscribers
    ensures forall d :: d in Notify(subscribers, op, e) ==> d.op == op && d.entity == e
  {
  }

  /** A newly registered subscriber is informed last, after all earlier ones. */
  lemma NotifyAfterRegister<V, S>(c: Cache<V, S>, s: S, op: Operation, e: Entity<V>)
    ensures Notify(Register(c, s).subscribers, op, e) == Notify(c.subscribers, op, e) + [Delivery(s, op, e)]
  {
  }

  /**
   * After unregister, a subscriber registered n times is informed n - 1
   * times per notification (never fewer than zero); others are unaffected.
   */
  lemma NotifyAfterUnregister<V, S>(c: Cache<V, S>, s: S, op: Operation, e: Entity<V>)
    ensures multiset(Recipients(Notify(Unregister(c, s).subscribers, op, e))) ==
      multiset(Recipients(Notify(c.subscribers, op, e))) - multiset{s}
  {
    NotifyReachesRegistrations(Unregister(c, s).subscribers, op, e);
    NotifyReachesRegistrations(c.subscribers, op, e);
  }

  /** Unregistering a subscriber that was just registered for the first time restores the cache. */
  lemma RegisterThenUnregister<V, S>(c: Cache<V, S>, s: S)
    requires s !in c.subscribers
    ensures Unregister(Register(c, s), s) == c
  {
    var xs := Register(c, s).subscribers;
    var i :| 0 <= i < |xs| && xs[i] == s && s !in xs[..i] && RemoveFirst(xs, s) == xs[..i] + xs[i + 1..];
    assert xs[..i] == c.subscribers;
  }
}
