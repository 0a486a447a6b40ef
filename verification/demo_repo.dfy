/**
 * The flat-file demonstration store (DemoRepo). The file is abstracted to the
 * sequence of its lines, one record per line, in file order. Each call says
 * through an `Io` value whether its reads and its write of the file succeed.
 */
module DemoRepo {
  import opened Wrappers
  import opened Repository

  /** Whether the file accesses made by one call succeed. */
  datatype Io = Io(readOk: bool, writeOk: bool)

  /** The store after a mutation, with the answer the mutation gave. */
  datatype Written<P> = Written(store: seq<Record<P>>, state: ReturnState)

  /** Position of the first record carrying `id`, scanning from the top of the file. */
  function IndexOf<P>(store: seq<Record<P>>, id: int): (r: Option<nat>)
    ensures r.None? <==> id !in Ids(store)
    ensures r.Some? ==> FirstWithId(store, id, r.value)
    decreases |store|
  {
    if |store| == 0 then None
    else if store[0].id == id then Some(0)
    else
      var rest := IndexOf(store[1..], id);
      IdsOfCons(store);
      if rest.None? then None
      else
        assert store[rest.value + 1] == store[1..][rest.value];
        Some(rest.value + 1)
  }

  /** The first record of the file with the given id, reading the file successfully. */
  function Find<P>(store: seq<Record<P>>, id: int): (r: Option<Record<P>>)
    ensures r.None? <==> id !in Ids(store)
    ensures r.Some? ==> exists i :: FirstWithId(store, id, i) && store[i] == r.value
  {
    match IndexOf(store, id)
    case None => None
    case Some(i) => Some(store[i])
  }

  /**
   * get: the first record with the id, or None when there is none or the
   * file cannot be read -- the caller cannot tell the two apart.
   */
  function Get<P>(store: seq<Record<P>>, id: int, io: Io): (r: Option<Record<P>>)
    ensures r.None? <==> !io.readOk || id !in Ids(store)
    ensures r.Some? ==> r.value.id == id && exists i :: FirstWithId(store, id, i) && store[i] == r.value
  {
    if io.readOk then Find(store, id) else None
  }

  /**
   * add, as the source writes it: ALREADY_EXISTS, store untouched, when
   * `get` finds the id; otherwise the record is appended as a new last line
   * (SUCCESS), unless the write fails (FAILURE, store untouched). A failed
   * read inside `get` looks like an absent id, so the append then goes ahead
   * even when the id is already in the file.
   */
  function AddAsWritten<P>(store: seq<Record<P>>, rec: Record<P>, io: Io): (r: Written<P>)
    ensures IsAddAnswer(r.state)
    ensures r.state == AlreadyExists <==> io.readOk && rec.id in Ids(store)
    ensures r.state == Success <==> (!io.readOk || rec.id !in Ids(store)) && io.writeOk
    ensures r.state == Success ==> r.store == store + [rec]
    ensures r.state != Success ==> r.store == store
  {
    if Get(store, rec.id, io).None? then
      if io.writeOk then Written(store + [rec], Success) else Written(store, Failure)
    else Written(store, AlreadyExists)
  }

  /**
   * add, corrected: a lookup read that fails answers FAILURE instead of
   * being taken for an absent id. Otherwise as above: ALREADY_EXISTS when
   * the id is in the file, else append (SUCCESS) unless the write fails.
   */
  function Add<P>(store: seq<Record<P>>, rec: Record<P>, io: Io): (r: Written<P>)
    ensures IsAddAnswer(r.state)
    ensures r.state == AlreadyExists <==> io.readOk && rec.id in Ids(store)
    ensures r.state == Success <==> io.readOk && io.writeOk && rec.id !in Ids(store)
    ensures r.state == Success ==> r.store == store + [rec]
    ensures r.state != Success ==> r.store == store
    ensures io.readOk ==> r == AddAsWritten(store, rec, io)
  {
    if !io.readOk then Written(store, Failure)
    else AddAsWritten(store, rec, io)
  }

  /**
   * update: the first line with the record's id is replaced by the record
   * (SUCCESS); NOT_EXISTS when no line has the id; FAILURE when the file
   * cannot be read, or cannot be written back after a match.
   */
  function Update<P>(store: seq<Record<P>>, rec: Record<P>, io: Io): (r: Written<P>)
    ensures IsChangeAnswer(r.state)
    ensures r.state == NotExists <==> io.readOk && rec.id !in Ids(store)
    ensures r.state == Success <==> io.readOk && io.writeOk && rec.id in Ids(store)
    ensures r.state == Success ==>
      |r.store| == |store| &&
      exists i :: FirstWithId(store, rec.id, i) && r.store[i] == rec &&
        forall j :: 0 <= j < |store| && j != i ==> r.store[j] == store[j]
    ensures r.state != Success ==> r.store == store
  {
    if !io.readOk then Written(store, Failure)
    else
      match IndexOf(store, rec.id)
      case None => Written(store, NotExists)
      case Some(i) =>
        if io.writeOk then Written(store[i := rec], Success) else Written(store, Failure)
  }

  /**
   * remove: the first line with the record's id is deleted (SUCCESS), the
   * other lines keep their order; NOT_EXISTS when no line has the id;
   * FAILURE when the file cannot be read, or cannot be written back.
   */
  function Remove<P>(store: seq<Record<P>>, rec: Record<P>, io: Io): (r: Written<P>)
    ensures IsChangeAnswer(r.state)
    ensures r.state == NotExists <==> io.readOk && rec.id !in Ids(store)
    ensures r.state == Success <==> io.readOk && io.writeOk && rec.id in Ids(store)
    ensures r.state == Success ==>
      |r.store| == |store| - 1 &&
      exists i :: FirstWithId(store, rec.id, i) && r.store == store[..i] + store[i + 1..]
    ensures r.state != Success ==> r.store == store
  {
    if !io.readOk then Written(store, Failure)
    else
      match IndexOf(store, rec.id)
      case None => Written(store, NotExists)
      case Some(i) =>
        if io.writeOk then Written(store[..i] + store[i + 1..], Success) else Written(store, Failure)
  }

  /**
   * getAll: every line of the file in file order, or None when the file
   * cannot be read; an empty file gives an empty list, not None.
   */
  function GetAll<P>(store: seq<Record<P>>, io: Io): (r: Option<seq<Record<P>>>)
    ensures r.Some? <==> io.readOk
    ensures r.Some? ==> r.value == store
  {
    if io.readOk then Some(store) else None
  }

  /** getMaxId: the largest id in the file, or 0 when no id exceeds 0. */
  function MaxId<P>(store: seq<Record<P>>): (r: int)
    ensures r >= 0
    ensures forall i :: 0 <= i < |store| ==> store[i].id <= r
    ensures r == 0 || exists i :: 0 <= i < |store| && store[i].id == r
  {
    if |store| == 0 then 0
    else
      var m := MaxId(store[..|store| - 1]);
      var last := store[|store| - 1].id;
      assert forall i :: 0 <= i < |store| - 1 ==> store[i] == store[..|store| - 1][i];
      if last > m then last else m
  }

  // ---------------------------------------------------------------------
  // Store-level properties
  // ---------------------------------------------------------------------

  /**
   * The source's add duplicates an id: a file holding id 7 whose lookup
   * read fails but whose write succeeds gets a second line with id 7, and
   * the answer is SUCCESS.
   */
  lemma AddAsWrittenDuplicatesId()
    ensures var r := AddAsWritten([Record(7, 1)], Record(7, 2), Io(false, true));
      r.state == Success && r.store == [Record(7, 1), Record(7, 2)] && !UniqueIds(r.store)
  {
    var r := AddAsWritten([Record(7, 1)], Record(7, 2), Io(false, true));
    assert r.store[0].id == r.store[1].id;
  }

  /** A record that add appended is what get returns for its id afterwards. */
  lemma AddThenGet<P>(store: seq<Record<P>>, rec: Record<P>, io: Io, io': Io)
    requires io'.readOk
    requires Add(store, rec, io).state == Success
    ensures Get(Add(store, rec, io).store, rec.id, io') == Some(rec)
  {
    var s := Add(store, rec, io).store;
    IdsOfAppend(store, rec);
    assert FirstWithId(s, rec.id, |store|) by {
      forall j | 0 <= j < |store| ensures s[j].id != rec.id {
        assert s[j] == store[j];
      }
    }
    var found := Get(s, rec.id, io').value;
    var i :| FirstWithId(s, rec.id, i) && s[i] == found;
    FirstWithIdIsUnique(s, rec.id, i, |store|);
  }

  /** The corrected add keeps the ids of the file unique. */
  lemma AddKeepsIdsUnique<P>(store: seq<Record<P>>, rec: Record<P>, io: Io)
    requires UniqueIds(store)
    ensures UniqueIds(Add(store, rec, io).store)
  {
    var r := Add(store, rec, io);
    if r.state == Success {
      var s := r.store;
      forall i, j | 0 <= i < j < |s|
        ensures s[i].id != s[j].id
      {
        if j == |store| {
          assert s[i] == store[i];
          assert store[i].id in Ids(store);
        }
      }
    }
  }

  /** After a successful update, get returns the new record for its id. */
  lemma UpdateThenGet<P>(store: seq<Record<P>>, rec: Record<P>, io: Io, io': Io)
    requires io'.readOk
    requires Update(store, rec, io).state == Success
    ensures Get(Update(store, rec, io).store, rec.id, io') == Some(rec)
  {
    var s := Update(store, rec, io).store;
    var i :| FirstWithId(store, rec.id, i) && s[i] == rec &&
      forall j :: 0 <= j < |store| && j != i ==> s[j] == store[j];
    assert FirstWithId(s, rec.id, i) by {
      forall j | 0 <= j < i ensures s[j].id != rec.id {
        assert s[j] == store[j];
      }
    }
    assert rec.id in Ids(s);
    var found := Get(s, rec.id, io').value;
    var k :| FirstWithId(s, rec.id, k) && s[k] == found;
    FirstWithIdIsUnique(s, rec.id, i, k);
  }

  /** Update rewrites a line in place: the set of ids and their uniqueness are kept. */
  lemma UpdateKeepsIds<P>(store: seq<Record<P>>, rec: Record<P>, io: Io)
    ensures Ids(Update(store, rec, io).store) == Ids(store)
    ensures UniqueIds(store) ==> UniqueIds(Update(store, rec, io).store)
  {
    var r := Update(store, rec, io);
    if r.state == Success {
      var s := r.store;
      var i :| FirstWithId(store, rec.id, i) && s[i] == rec &&
        forall j :: 0 <= j < |store| && j != i ==> s[j] == store[j];
      assert forall j :: 0 <= j < |s| ==> s[j].id == store[j].id by {
        forall j | 0 <= j < |s| ensures s[j].id == store[j].id {
          if j != i { assert s[j] == store[j]; }
        }
      }
      assert Ids(s) == Ids(store) by {
        forall k | k in Ids(s) ensures k in Ids(store) {
          var j :| 0 <= j < |s| && s[j].id == k;
          assert store[j].id == k;
        }
        forall k | k in Ids(store) ensures k in Ids(s) {
          var j :| 0 <= j < |store| && store[j].id == k;
          assert s[j].id == k;
        }
      }
    }
  }

  /**
   * On a file with unique ids, a successful remove takes exactly the
   * record's id out of the file and keeps the remaining ids unique.
   */
  lemma RemoveDropsId<P>(store: seq<Record<P>>, rec: Record<P>, io: Io)
    requires UniqueIds(store)
    requires Remove(store, rec, io).state == Success
    ensures Ids(Remove(store, rec, io).store) == Ids(store) - {rec.id}
    ensures UniqueIds(Remove(store, rec, io).store)
  {
    var s := Remove(store, rec, io).store;
    var i :| FirstWithId(store, rec.id, i) && s == store[..i] + store[i + 1..];
    assert forall j :: 0 <= j < |s| ==> s[j] == (if j < i then store[j] else store[j + 1]);
    forall k | k in Ids(s) ensures k in Ids(store) - {rec.id} {
      var j :| 0 <= j < |s| && s[j].id == k;
      if j < i {
        assert store[j].id == k;
      } else {
        assert store[j + 1].id == k;
      }
    }
    forall k | k in Ids(store) - {rec.id} ensures k in Ids(s) {
      var j :| 0 <= j < |store| && store[j].id == k;
      if j < i {
        assert s[j].id == k;
      } else {
        assert j != i;
        assert s[j - 1].id == k;
      }
    }
  }

  /** Find returns the record at the first position carrying the id. */
  lemma FindAt<P>(store: seq<Record<P>>, id: int, i: int)
    requires FirstWithId(store, id, i)
    ensures Find(store, id) == Some(store[i])
  {
    assert id in Ids(store);
    var j :| FirstWithId(store, id, j) && store[j] == Find(store, id).value;
    FirstWithIdIsUnique(store, id, i, j);
  }

  /** Appending a record with a new id: only that id's lookup changes. */
  lemma FindAfterAppend<P>(store: seq<Record<P>>, rec: Record<P>, k: int)
    requires rec.id !in Ids(store)
    ensures Find(store + [rec], k) == if k == rec.id then Some(rec) else Find(store, k)
  {
    var s := store + [rec];
    IdsOfAppend(store, rec);
    if k == rec.id {
      assert FirstWithId(s, k, |store|) by {
        forall j | 0 <= j < |store| ensures s[j].id != k {
          assert s[j] == store[j];
          assert store[j].id in Ids(store);
        }
      }
      FindAt(s, k, |store|);
    } else if k in Ids(store) {
      var i := IndexOf(store, k).value;
      FindAt(store, k, i);
      assert FirstWithId(s, k, i) by {
        forall j | 0 <= j < i ensures s[j].id != k {
          assert s[j] == store[j];
        }
      }
      FindAt(s, k, i);
    }
  }

  /** A successful update changes only the lookup of the record's own id. */
  lemma FindAfterUpdate<P>(store: seq<Record<P>>, rec: Record<P>, io: Io, k: int)
    requires Update(store, rec, io).state == Success
    ensures Find(Update(store, rec, io).store, k) == if k == rec.id then Some(rec) else Find(store, k)
  {
    var s := Update(store, rec, io).store;
    var i :| FirstWithId(store, rec.id, i) && s[i] == rec &&
      forall j :: 0 <= j < |store| && j != i ==> s[j] == store[j];
    UpdateKeepsIds(store, rec, io);
    if k == rec.id {
      UpdateThenGet(store, rec, io, Io(true, true));
    } else if k in Ids(store) {
      var m := IndexOf(store, k).value;
      FindAt(store, k, m);
      assert m != i;
      assert FirstWithId(s, k, m) by {
        forall j | 0 <= j < m ensures s[j].id != k {
          if j != i { assert s[j] == store[j]; }
        }
      }
      FindAt(s, k, m);
    }
  }

  /** On a file with unique ids, a successful remove makes only the record's own id unfindable. */
  lemma FindAfterRemove<P>(store: seq<Record<P>>, rec: Record<P>, io: Io, k: int)
    requires UniqueIds(store)
    requires Remove(store, rec, io).state == Success
    ensures Find(Remove(store, rec, io).store, k) == if k == rec.id then None else Find(store, k)
  {
    var s := Remove(store, rec, io).store;
    RemoveDropsId(store, rec, io);
    if k != rec.id && k in Ids(store) {
      var i :| FirstWithId(store, rec.id, i) && s == store[..i] + store[i + 1..];
      var m := IndexOf(store, k).value;
      FindAt(store, k, m);
      var m' := if m < i then m else m - 1;
      assert m != i;
      assert s[m'] == store[m];
      assert FirstWithId(s, k, m') by {
        forall j | 0 <= j < m' ensures s[j].id != k {
          if j < i { assert s[j] == store[j]; } else { assert s[j] == store[j + 1]; }
        }
      }
      FindAt(s, k, m');
    }
  }
}
