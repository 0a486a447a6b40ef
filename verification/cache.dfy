/**
 * The cache engine (Cache). It keeps a map from entity id to entity in front
 * of a store, in one of two fixed modes, and informs its subscribers of every
 * successful mutation.
 *
 * The store is code the cache cannot see, so every operation here takes the
 * store's answer as a parameter: the list `getAll` returned, the record `get`
 * returned, or the ReturnState of a mutation. Each reply says whether the
 * store was consulted at all; when it was not, the answer is ignored.
 * Every operation is one atomic step.
 */
module CacheEngine {
  import opened Wrappers
  import opened Repository

  /** EAGER mirrors the whole store from construction on; LAZY fills on demand. */
  datatype Mode = Eager | Lazy

  /** The kind of change a subscriber is informed of (ADD, UPDATE, REMOVE). */
  datatype Operation = Added | Updated | Removed

  /** A domain entity: its caller-assigned id and everything else about it. */
  datatype Entity<V> = Entity(id: int, value: V)

  /**
   * The entity/record converter. Decoding a record's payload may fail
   * (getEntity returning null); encoding always succeeds. The id travels
   * unchanged between the entity and its record's "id" field.
   */
  datatype Converter<!P, !V> = Converter(decode: P -> Option<V>, encode: V -> P)

  /** The store raised RepoAccessException, or a stored record could not be converted. */
  datatype Error =
    | RepoNotAttached           // getAll failed while an EAGER cache was being built
    | EntityNotModified(id: int) // the store failed a mutation of entity `id`
    | RecordNotConvertible(id: int) // an EAGER load met a record it could not convert

  /** One call of a subscriber's `inform`. */
  datatype Delivery<V, S> = Delivery(to: S, op: Operation, entity: Entity<V>)

  /** The cache's state: its fixed mode, the cached entities and the ordered subscribers. */
  datatype Cache<V, S> = Cache(mode: Mode, entries: map<int, Entity<V>>, subscribers: seq<S>)

  /** What a `get` returns, the cache after it, and whether the store was asked. */
  datatype Lookup<V, S> = Lookup(cache: Cache<V, S>, found: Option<Entity<V>>, consulted: bool)

  /**
   * What a mutation returns (true, false or an exception), the cache after it,
   * whether the store was asked, and the notifications it sent.
   */
  datatype Reply<V, S> = Reply(cache: Cache<V, S>, result: Result<bool, Error>, consulted: bool, events: seq<Delivery<V, S>>)

  // ---------------------------------------------------------------------
  // Conversion
  // ---------------------------------------------------------------------

  /** getEntity: the entity a record stands for, if its payload decodes. */
  function ToEntity<P, V>(conv: Converter<P, V>, r: Record<P>): (e: Option<Entity<V>>)
    ensures e.Some? <==> conv.decode(r.payload).Some?
    ensures e.Some? ==> e.value.id == r.id
  {
    var v := conv.decode(r.payload);
    if v.Some? then Some(Entity(r.id, v.value)) else None
  }

  /** getJson: the record an entity is stored as. */
  function ToRecord<P, V>(conv: Converter<P, V>, e: Entity<V>): (r: Record<P>)
    ensures r.id == e.id
  {
    Record(e.id, conv.encode(e.value))
  }

  /** Decoding an encoded value gives the value back. */
  ghost predicate RoundTrips<P, V(!new)>(conv: Converter<P, V>) {
    forall v :: conv.decode(conv.encode(v)) == Some(v)
  }

  lemma RecordRoundTrip<P, V(!new)>(conv: Converter<P, V>, e: Entity<V>)
    requires RoundTrips(conv)
    ensures ToEntity(conv, ToRecord(conv, e)) == Some(e)
  {
    assert conv.decode(conv.encode(e.value)) == Some(e.value);
  }

  /** Every cached entity sits under its own id. */
  ghost predicate KeyedById<V, S>(c: Cache<V, S>) {
    forall k :: k in c.entries ==> c.entries[k].id == k
  }

  // ---------------------------------------------------------------------
  // Construction
  // ---------------------------------------------------------------------

  /**
   * loadAll: convert the records in list order and put each entity under its
   * id, a later record overriding an earlier one with the same id. The first
   * record that does not convert stops the load (a null entity in the source).
   */
  function LoadAll<P, V>(conv: Converter<P, V>, records: seq<Record<P>>): (r: Result<map<int, Entity<V>>, Error>)
    ensures r.Ok? <==> forall i :: 0 <= i < |records| ==> ToEntity(conv, records[i]).Some?
    ensures r.Err? ==> exists i :: FirstUnconvertible(conv, records, i) && r.error == RecordNotConvertible(records[i].id)
    ensures r.Ok? ==> r.value.Keys == Ids(records)
    ensures r.Ok? ==> forall k :: k in r.value ==> r.value[k].id == k
    decreases |records|
  {
    if |records| == 0 then Ok(map[])
    else
      var front := records[..|records| - 1];
      var last := records[|records| - 1];
      var loaded := LoadAll(conv, front);
      assert records == front + [last];
      if loaded.Err? then
        assert exists i :: FirstUnconvertible(conv, records, i) && loaded.error == RecordNotConvertible(records[i].id) by {
          var i :| FirstUnconvertible(conv, front, i) && loaded.error == RecordNotConvertible(front[i].id);
          assert FirstUnconvertible(conv, records, i);
        }
        loaded
      else
        var e := ToEntity(conv, last);
        if e.None? then
          assert FirstUnconvertible(conv, records, |records| - 1);
          Err(RecordNotConvertible(last.id))
        else
          IdsOfAppend(front, last);
          Ok(loaded.value[last.id := e.value])
  }

  /** Position `i` holds the first record of the list that does not convert. */
  ghost predicate FirstUnconvertible<P, V>(conv: Converter<P, V>, records: seq<Record<P>>, i: int) {
    && 0 <= i < |records|
    && ToEntity(conv, records[i]).None?
    && forall j :: 0 <= j < i ==> ToEntity(conv, records[j]).Some?
  }

  /**
   * After a load, the entity cached under an id is the one converted from
   * the LAST record with that id: later lines override earlier ones.
   */
  lemma {:induction false} LoadAllLastWins<P, V>(conv: Converter<P, V>, records: seq<Record<P>>, i: int)
    requires LoadAll(conv, records).Ok?
    requires 0 <= i < |records| && LastWithId(records, i)
    ensures records[i].id in LoadAll(conv, records).value
    ensures Some(LoadAll(conv, records).value[records[i].id]) == ToEntity(conv, records[i])
    decreases |records|
  {
    var n := |records| - 1;
    var front := records[..n];
    assert records == front + [records[n]];
    assert records[i].id in Ids(records);
    if i < n {
      assert records[i].id != records[n].id;
      assert LastWithId(front, i) by {
        forall j | i < j < |front| ensures front[j].id != front[i].id {
          assert front[j] == records[j];
        }
      }
      assert front[i] == records[i];
      LoadAllLastWins(conv, front, i);
    }
  }

  /**
   * The constructor. EAGER: load everything getAll returned or fail as a
   * whole; a failed getAll (None) raises RepoNotAttached. LAZY: start empty
   * without asking the store. The subscriber list starts empty.
   */
  function Construct<P, V, S>(mode: Mode, conv: Converter<P, V>, all: Option<seq<Record<P>>>): (r: Result<Cache<V, S>, Error>)
    ensures r.Ok? ==> r.value.mode == mode && r.value.subscribers == [] && KeyedById(r.value)
    ensures mode == Lazy ==> r.Ok? && r.value.entries == map[]
    ensures mode == Eager && all.None? ==> r == Err(RepoNotAttached)
    ensures mode == Eager && all.Some? && r.Err? ==> r.error.RecordNotConvertible?
    ensures mode == Eager && all.Some? ==>
      (r.Ok? <==> forall i :: 0 <= i < |all.value| ==> ToEntity(conv, all.value[i]).Some?)
    ensures mode == Eager && r.Ok? ==> all.Some? && r.value.entries.Keys == Ids(all.value)
  {
    if mode == Lazy then Ok(Cache(mode, map[], []))
    else if all.None? then Err(RepoNotAttached)
    else
      var loaded := LoadAll(conv, all.value);
      if loaded.Err? then Err(loaded.error)
      else
        var c := Cache(mode, loaded.value, []);
        assert KeyedById(c);
        Ok(c)
  }

  // ---------------------------------------------------------------------
  // Read path
  // ---------------------------------------------------------------------

  /**
   * get: a hit returns the cached entity. A LAZY miss asks the store
   * (`fetched` is its answer) and caches the converted entity under the
   * requested id; an absent record or a failed conversion returns None and
   * leaves the cache as it was. An EAGER miss is final.
   */
  function Get<P, V, S>(c: Cache<V, S>, conv: Converter<P, V>, id: int, fetched: Option<Record<P>>): (r: Lookup<V, S>)
    ensures r.cache.mode == c.mode && r.cache.subscribers == c.subscribers
    ensures r.consulted <==> c.mode == Lazy && id !in c.entries
    ensures !r.consulted ==> r.cache == c && r.found == (if id in c.entries then Some(c.entries[id]) else None)
    ensures r.found.None? ==> r.cache == c
    ensures r.consulted ==>
      r.found == (if fetched.Some? then ToEntity(conv, fetched.value) else None)
    ensures r.consulted && r.found.Some? ==> r.cache.entries == c.entries[id := r.found.value]
  {
    if id in c.entries then Lookup(c, Some(c.entries[id]), false)
    else if c.mode == Lazy then
      if fetched.None? then Lookup(c, None, true)
      else
        var e := ToEntity(conv, fetched.value);
        if e.None? then Lookup(c, None, true)
        else Lookup(c.(entries := c.entries[id := e.value]), e, true)
    else Lookup(c, None, false)
  }

  // ---------------------------------------------------------------------
  // Subscribers
  // ---------------------------------------------------------------------

  /**
   * notifyUsers: one `inform` per registration, in registration order, each
   * with the operation and the entity of the mutation.
   */
  function Notify<V, S>(subscribers: seq<S>, op: Operation, e: Entity<V>): (r: seq<Delivery<V, S>>)
    ensures |r| == |subscribers|
    ensures forall i :: 0 <= i < |r| ==> r[i] == Delivery(subscribers[i], op, e)
  {
    if |subscribers| == 0 then []
    else [Delivery(subscribers[0], op, e)] + Notify(subscribers[1..], op, e)
  }

  /** The subscribers a list of deliveries reached, in delivery order. */
  function Recipients<V, S>(ds: seq<Delivery<V, S>>): (r: seq<S>)
    ensures |r| == |ds|
    ensures forall i :: 0 <= i < |ds| ==> r[i] == ds[i].to
  {
    if |ds| == 0 then [] else [ds[0].to] + Recipients(ds[1..])
  }

  /** register: the subscriber is added at the end of the list. */
  function Register<V, S>(c: Cache<V, S>, s: S): (r: Cache<V, S>)
    ensures r.mode == c.mode && r.entries == c.entries
    ensures |r.subscribers| == |c.subscribers| + 1
    ensures r.subscribers[..|c.subscribers|] == c.subscribers && r.subscribers[|c.subscribers|] == s
  {
    c.(subscribers := c.subscribers + [s])
  }

  /** Position of the first `x` in `xs`. */
  function FirstIndex<S(==)>(xs: seq<S>, x: S): (i: nat)
    requires x in xs
    ensures i < |xs| && xs[i] == x && x !in xs[..i]
  {
    if xs[0] == x then 0
    else
      var i := FirstIndex(xs[1..], x);
      assert xs[..i + 1] == [xs[0]] + xs[1..][..i];
      i + 1
  }

  /**
   * ArrayList.remove(Object): the first element equal to `x` is taken out,
   * the others keep their order; a list without `x` is returned unchanged.
   */
  function RemoveFirst<S(==)>(xs: seq<S>, x: S): (r: seq<S>)
    ensures x !in xs ==> r == xs
    ensures x in xs ==>
      exists i :: 0 <= i < |xs| && xs[i] == x && x !in xs[..i] && r == xs[..i] + xs[i + 1..]
    ensures multiset(r) == multiset(xs) - multiset{x}
  {
    if x in xs then
      var i := FirstIndex(xs, x);
      assert xs == xs[..i] + [x] + xs[i + 1..];
      xs[..i] + xs[i + 1..]
    else xs
  }

  /** unregister: the first registration of the subscriber is dropped. */
  function Unregister<V, S(==)>(c: Cache<V, S>, s: S): (r: Cache<V, S>)
    ensures r.mode == c.mode && r.entries == c.entries
    ensures multiset(r.subscribers) == multiset(c.subscribers) - multiset{s}
  {
    c.(subscribers := RemoveFirst(c.subscribers, s))
  }

  // ---------------------------------------------------------------------
  // Mutations
  // ---------------------------------------------------------------------

  /** Map.replace: overwrite the value of a key only if the key is present. */
  function Replace<K, T>(m: map<K, T>, k: K, v: T): (r: map<K, T>)
    ensures r.Keys == m.Keys
    ensures k in m ==> r[k] == v
    ensures forall j :: j in m && j != k ==> r[j] == m[j]
  {
    if k in m then m[k := v] else m
  }

  /**
   * add: false without asking the store when the id is cached already.
   * Otherwise the store's answer decides: SUCCESS caches the entity, informs
   * subscribers of Added and returns true; FAILURE raises
   * EntityNotModified; ALREADY_EXISTS returns false, backfilling the entity
   * in LAZY mode only. An answer outside the add contract (NOT_EXISTS)
   * falls out of the switch and returns true with nothing changed.
   */
  function Add<V, S>(c: Cache<V, S>, e: Entity<V>, answer: ReturnState): (r: Reply<V, S>)
    ensures r.cache.mode == c.mode && r.cache.subscribers == c.subscribers
    ensures r.consulted <==> e.id !in c.entries
    ensures !r.consulted ==> r.result == Ok(false) && r.cache == c && r.events == []
    ensures r.result.Err? <==> r.consulted && answer == Failure
    ensures r.result.Err? ==> r.result.error == EntityNotModified(e.id)
    ensures r.events != [] ==> r.consulted && answer == Success
    ensures r.consulted && answer == Success ==>
      r.result == Ok(true) && r.cache.entries == c.entries[e.id := e] && r.events == Notify(c.subscribers, Added, e)
    ensures r.consulted && answer == AlreadyExists ==>
      r.result == Ok(false) && r.cache.entries == (if c.mode == Lazy then c.entries[e.id := e] else c.entries)
    ensures r.cache.entries != c.entries ==> r.consulted && (answer == Success || (answer == AlreadyExists && c.mode == Lazy))
    ensures r.consulted && answer == NotExists ==> r.result == Ok(true) && r.cache == c && r.events == []
  {
    if e.id in c.entries then Reply(c, Ok(false), false, [])
    else
      match answer
      case Success =>
        var c' := c.(entries := c.entries[e.id := e]);
        Reply(c', Ok(true), true, Notify(c.subscribers, Added, e))
      case Failure => Reply(c, Err(EntityNotModified(e.id)), true, [])
      case AlreadyExists =>
        var c' := if c.mode == Lazy then c.(entries := c.entries[e.id := e]) else c;
        Reply(c', Ok(false), true, [])
      case NotExists => Reply(c, Ok(true), true, [])
  }

  /**
   * update: in EAGER mode an uncached id returns false without asking the
   * store. Otherwise SUCCESS caches the entity (put when a LAZY cache lacked
   * it, replace otherwise), informs subscribers of Updated and returns true;
   * FAILURE raises EntityNotModified; NOT_EXISTS returns false. An answer
   * outside the contract (ALREADY_EXISTS) returns true with nothing changed.
   */
  function Update<V, S>(c: Cache<V, S>, e: Entity<V>, answer: ReturnState): (r: Reply<V, S>)
    ensures r.cache.mode == c.mode && r.cache.subscribers == c.subscribers
    ensures r.consulted <==> !(c.mode == Eager && e.id !in c.entries)
    ensures !r.consulted ==> r.result == Ok(false) && r.cache == c && r.events == []
    ensures r.result.Err? <==> r.consulted && answer == Failure
    ensures r.result.Err? ==> r.result.error == EntityNotModified(e.id)
    ensures r.result == Ok(false) ==> r.cache == c
    ensures r.cache != c ==> r.consulted && answer == Success
    ensures r.consulted && answer == Success ==>
      r.result == Ok(true) && r.cache.entries == c.entries[e.id := e] && r.events == Notify(c.subscribers, Updated, e)
    ensures r.consulted && answer == NotExists ==> r.result == Ok(false)
    ensures r.events != [] ==> r.consulted && answer == Success
    ensures r.consulted && answer == AlreadyExists ==> r.result == Ok(true) && r.cache == c && r.events == []
  {
    if e.id !in c.entries && c.mode == Eager then Reply(c, Ok(false), false, [])
    else
      match answer
      case Success =>
        var entries := if c.mode == Lazy && e.id !in c.entries then c.entries[e.id := e]
                       else Replace(c.entries, e.id, e);
        assert c.mode == Eager || c.mode == Lazy;
        assert entries == c.entries[e.id := e];
        Reply(c.(entries := entries), Ok(true), true, Notify(c.subscribers, Updated, e))
      case Failure => Reply(c, Err(EntityNotModified(e.id)), true, [])
      case NotExists => Reply(c, Ok(false), true, [])
      case AlreadyExists => Reply(c, Ok(true), true, [])
  }

  /**
   * remove: in EAGER mode an uncached id returns false without asking the
   * store. Otherwise SUCCESS drops the id from the cache whether or not it
   * was there, informs subscribers of Removed and returns true; FAILURE
   * raises EntityNotModified; NOT_EXISTS returns false. An answer outside
   * the contract (ALREADY_EXISTS) returns true with nothing changed.
   */
  function Remove<V, S>(c: Cache<V, S>, e: Entity<V>, answer: ReturnState): (r: Reply<V, S>)
    ensures r.cache.mode == c.mode && r.cache.subscribers == c.subscribers
    ensures r.consulted <==> !(c.mode == Eager && e.id !in c.entries)
    ensures !r.consulted ==> r.result == Ok(false) && r.cache == c && r.events == []
    ensures r.result.Err? <==> r.consulted && answer == Failure
    ensures r.result.Err? ==> r.result.error == EntityNotModified(e.id)
    ensures r.result == Ok(false) ==> r.cache == c
    ensures r.consulted && answer == Success ==>
      r.result == Ok(true) && e.id !in r.cache.entries &&
      (forall k :: k != e.id ==> (k in r.cache.entries <==> k in c.entries)) &&
      (forall k :: k in r.cache.entries ==> r.cache.entries[k] == c.entries[k]) &&
      r.events == Notify(c.subscribers, Removed, e)
    ensures r.consulted && answer == NotExists ==> r.result == Ok(false)
    ensures r.cache.entries != c.entries ==> r.consulted && answer == Success
    ensures r.events != [] ==> r.consulted && answer == Success
    ensures r.consulted && answer == AlreadyExists ==> r.result == Ok(true) && r.cache == c && r.events == []
  {
    if e.id !in c.entries && c.mode == Eager then Reply(c, Ok(false), false, [])
    else
      match answer
      case Success => Reply(c.(entries := c.entries - {e.id}), Ok(true), true, Notify(c.subscribers, Removed, e))
      case Failure => Reply(c, Err(EntityNotModified(e.id)), true, [])
      case NotExists => Reply(c, Ok(false), true, [])
      case AlreadyExists => Reply(c, Ok(true), true, [])
  }
}
