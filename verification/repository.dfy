/** Option and Result, the failure-carrying types used throughout the model. */
module Wrappers {

  /** A value that may be missing; stands for a Java reference that may be null. */
  datatype Option<+T> = None | Some(value: T)

  /** Either a value or an error; stands for a Java call that may throw. */
  datatype Result<+T, +E> = Ok(value: T) | Err(error: E)
}

/**
 * The store contract the cache consumes (RepositoryProvider): the answers a
 * store gives to a mutation, and the serialized record it keeps per entity.
 */
module Repository {

  /** The four answers a store gives to add, update and remove (ReturnSate). */
  datatype ReturnState = Success | Failure | AlreadyExists | NotExists

  /**
   * A serialized entity as the store holds it: one JSON object whose "id"
   * field is `id`; every other field is folded into `payload`.
   */
  datatype Record<P> = Record(id: int, payload: P)

  /** The outcome vocabulary, as a set. */
  function AllStates(): (r: set<ReturnState>)
    ensures forall s: ReturnState :: s in r
    ensures |r| == 4
  {
    var r := {Success, Failure, AlreadyExists, NotExists};
    EveryStateIsListed(r);
    r
  }

  lemma EveryStateIsListed(r: set<ReturnState>)
    requires r == {Success, Failure, AlreadyExists, NotExists}
    ensures forall s: ReturnState :: s in r
  {
    forall s: ReturnState
      ensures s in r
    {
      match s
      case Success =>
      case Failure =>
      case AlreadyExists =>
      case NotExists =>
    }
  }

  /** The answers the contract allows for add. */
  predicate IsAddAnswer(s: ReturnState) {
    s == Success || s == AlreadyExists || s == Failure
  }

  /** The answers the contract allows for update and remove. */
  predicate IsChangeAnswer(s: ReturnState) {
    s == Success || s == NotExists || s == Failure
  }

  /** The ids of the records held by a store. */
  function Ids<P>(store: seq<Record<P>>): set<int> {
    set i | 0 <= i < |store| :: store[i].id
  }

  /** No two records of the store carry the same id. */
  predicate UniqueIds<P>(store: seq<Record<P>>) {
    forall i, j :: 0 <= i < j < |store| ==> store[i].id != store[j].id
  }

  /** `i` is the position of the first record of `store` whose id is `id`. */
  predicate FirstWithId<P>(store: seq<Record<P>>, id: int, i: int) {
    && 0 <= i < |store|
    && store[i].id == id
    && forall j :: 0 <= j < i ==> store[j].id != id
  }

  /** No record after position `i` carries the id of the record at `i`. */
  predicate LastWithId<P>(store: seq<Record<P>>, i: int)
    requires 0 <= i < |store|
  {
    forall j :: i < j < |store| ==> store[j].id != store[i].id
  }

  /** A store has at most one first position for an id. */
  lemma FirstWithIdIsUnique<P>(store: seq<Record<P>>, id: int, i: int, j: int)
    requires FirstWithId(store, id, i) && FirstWithId(store, id, j)
    ensures i == j
  {
  }

  lemma IdsOfCons<P>(store: seq<Record<P>>)
    requires |store| > 0
    ensures Ids(store) == {store[0].id} + Ids(store[1..])
  {
    forall k | k in Ids(store)
      ensures k == store[0].id || k in Ids(store[1..])
    {
      var i :| 0 <= i < |store| && store[i].id == k;
      if i > 0 {
        assert store[1..][i - 1].id == k;
      }
    }
    forall k | k in Ids(store[1..])
      ensures k in Ids(store)
    {
      var i :| 0 <= i < |store[1..]| && store[1..][i].id == k;
      assert store[i + 1].id == k;
    }
  }

  lemma IdsOfAppend<P>(store: seq<Record<P>>, r: Record<P>)
    ensures Ids(store + [r]) == Ids(store) + {r.id}
  {
    var s := store + [r];
    assert s[|store|].id == r.id;
    forall k | k in Ids(store)
      ensures k in Ids(s)
    {
      var i :| 0 <= i < |store| && store[i].id == k;
      assert s[i].id == k;
    }
  }
}
