/** Aborting a transaction: its write set is undone from the back. */
module AbortTxn {
  import opened Common
  import opened Agreement
  import opened FreeSpace
  import opened HeapFile

  type Row = Record

  datatype Write =
    | InsertTuple(rid: Rid, row: Row)
    | DeleteTuple(rid: Rid, row: Row)
    | UpdateTuple(rid: Rid, before: Row, after: Row)

  /** What an executor does to the table. */
  function Do(rows: map<Rid, Row>, w: Write): map<Rid, Row> {
    match w
    case InsertTuple(r, row) => rows[r := row]
    case DeleteTuple(r, _) => rows - {r}
    case UpdateTuple(r, _, after) => rows[r := after]
  }

  predicate Enabled(rows: map<Rid, Row>, w: Write) {
    match w
    case InsertTuple(r, _) => r !in rows
    case DeleteTuple(r, row) => r in rows && rows[r] == row
    case UpdateTuple(r, before, _) => r in rows && rows[r] == before
  }

  /** What the rollback helpers do to the table. */
  function Undo(rows: map<Rid, Row>, w: Write): map<Rid, Row> {
    match w
    case InsertTuple(r, _) => rows - {r}
    case DeleteTuple(r, row) => rows[r := row]
    case UpdateTuple(r, before, _) => rows[r := before]
  }

  lemma UndoDo(rows: map<Rid, Row>, w: Write)
    requires Enabled(rows, w)
    ensures Undo(Do(rows, w), w) == rows
  {
  }

  /** The table after the first `n` writes. */
  ghost function After(rows: map<Rid, Row>, ws: seq<Write>, n: nat): map<Rid, Row>
    requires n <= |ws|
  {
    if n == 0 then rows else Do(After(rows, ws, n - 1), ws[n - 1])
  }

  lemma AfterNext(rows: map<Rid, Row>, ws: seq<Write>, n: nat)
    requires n < |ws|
    ensures After(rows, ws, n + 1) == Do(After(rows, ws, n), ws[n])
  {
  }

  ghost predicate Ran(rows: map<Rid, Row>, ws: seq<Write>) {
    forall k :: 0 <= k < |ws| ==> EnabledAt(rows, ws, k)
  }

  ghost predicate EnabledAt(rows: map<Rid, Row>, ws: seq<Write>, k: nat)
    requires k < |ws|
  {
    Enabled(After(rows, ws, k), ws[k])
  }

  // ---- the free space of the table's file

  /** What undoing one write does to the free space. */
  function UndoRoom(s: Space, n: int, w: Write): Space {
    match w
    case InsertTuple(r, _) => Take(s, n, r.pageNo)
    case DeleteTuple(r, _) => Put(s, n, r.pageNo, false)
    case UpdateTuple(r, _, _) => Put(s, n, r.pageNo, true)
  }

  /** Putting a row back needs a free page that is not before the page of the row. */
  predicate Offers(s: Space, w: Write) {
    w.InsertTuple? || Offered(s) >= w.rid.pageNo
  }

  predicate KeepsList(s: Space, n: int, w: Write) {
    w.DeleteTuple? ==> Survives(s, n, w.rid.pageNo, false)
  }

  /** The free space when all writes from number `k` on have been undone. */
  ghost function RoomBack(s: Space, n: int, ws: seq<Write>, k: nat): Space
    requires k <= |ws|
    decreases |ws| - k
  {
    if k == |ws| then s else UndoRoom(RoomBack(s, n, ws, k + 1), n, ws[k])
  }

  lemma BackOne(s: Space, n: int, ws: seq<Write>, k: nat)
    requires k < |ws|
    ensures RoomBack(s, n, ws, k) == UndoRoom(RoomBack(s, n, ws, k + 1), n, ws[k])
  {
  }

  lemma BothEnds(rows: map<Rid, Row>, s: Space, n: int, ws: seq<Write>)
    ensures After(rows, ws, 0) == rows && RoomBack(s, n, ws, |ws|) == s
  {
  }

  ghost predicate OffersAt(s: Space, n: int, ws: seq<Write>, k: nat)
    requires k < |ws|
  {
    Offers(RoomBack(s, n, ws, k + 1), ws[k])
  }

  ghost predicate KeepsListAt(s: Space, n: int, ws: seq<Write>, k: nat)
    requires k < |ws|
  {
    KeepsList(RoomBack(s, n, ws, k + 1), n, ws[k])
  }

  // ---- the transaction manager

  /** A rollback ends, fails with an index that holds a key already, or goes on forever looking for
      a page. */
  datatype Outcome = Finished | Clash | Spinning

  class TransactionManager {
    const keys: seq<Row -> nat>
    const file: RmFileHandle
    var indexes: seq<Index>
    var writeSet: seq<Write>

    ghost predicate AllAgree(table: map<Rid, Row>)
      reads this`indexes
    {
      |indexes| == |keys| && forall i :: 0 <= i < |keys| ==> Agrees(indexes[i], table, keys[i])
    }

    ghost predicate AllUnique(table: map<Rid, Row>) {
      forall i :: 0 <= i < |keys| ==> Unique(table, keys[i])
    }

    /** The write was made at a place of the file. */
    ghost predicate Placed(w: Write)
      reads file
    {
      1 <= w.rid.pageNo && 0 <= w.rid.slotNo < file.perPage
    }

    constructor (keys: seq<Row -> nat>, file: RmFileHandle, indexes: seq<Index>, writeSet: seq<Write>)
      ensures this.keys == keys && this.file == file && this.indexes == indexes && this.writeSet == writeSet
    {
      this.keys, this.file, this.indexes, this.writeSet := keys, file, indexes, writeSet;
    }

    method DeleteEntries(r: Rid, row: Row, ghost table: map<Rid, Row>)
      requires AllAgree(table) && r in table && table[r] == row
      modifies this`indexes
      ensures AllAgree(table - {r})
    {
      hide Agrees;
      var i := 0;
      while i < |keys|
        invariant i <= |keys| == |indexes|
        invariant forall x :: 0 <= x < i ==> Agrees(indexes[x], table - {r}, keys[x])
        invariant forall x :: i <= x < |keys| ==> Agrees(indexes[x], table, keys[x])
      {
        AgreesWithout(indexes[i], table, keys[i], r);
        indexes := indexes[i := indexes[i] - {keys[i](row)}];
        i := i + 1;
      }
    }

    /** Stops at the first index that holds the key already. */
    method InsertEntries(r: Rid, row: Row, ghost table: map<Rid, Row>) returns (ok: bool)
      requires AllAgree(table) && r !in table
      modifies this`indexes
      ensures ok <==> AllUnique(table[r := row])
      ensures ok ==> AllAgree(table[r := row])
    {
      hide Agrees, Unique;
      var i := 0;
      while i < |keys|
        invariant i <= |keys| == |indexes|
        invariant forall x :: 0 <= x < i ==> Agrees(indexes[x], table[r := row], keys[x])
        invariant forall x :: 0 <= x < i ==> Unique(table[r := row], keys[x])
        invariant forall x :: i <= x < |keys| ==> Agrees(indexes[x], table, keys[x])
      {
        KeyFree(indexes[i], table, keys[i], r, row);
        var k := keys[i](row);
        if k in indexes[i] {
          return false;
        }
        AgreesWith(indexes[i], table, keys[i], r, row);
        indexes := indexes[i := indexes[i][k := r]];
        i := i + 1;
      }
      return true;
    }

    /** Undoes one write in the file and in every index. */
    method RollbackOne(w: Write, ghost table: map<Rid, Row>) returns (o: Outcome)
      requires file.Sound() && AllAgree(file.Contents()) && Placed(w)
      requires Enabled(table, w) && file.Contents() == Do(table, w)
      modifies this`indexes, file
      ensures o.Finished? <==> AllUnique(table) && Offers(old(file.Room()), w)
      ensures o.Clash? ==> !AllUnique(table)
      ensures o.Finished? ==> file.Sound() && file.Contents() == table && AllAgree(table)
      ensures o.Finished? ==> file.Room() == UndoRoom(old(file.Room()), file.perPage, w)
      ensures o.Finished? && old(file.Valid()) && KeepsList(old(file.Room()), file.perPage, w) ==> file.Valid()
    {
      hide Agrees, Unique, Rows, RmFileHandle.Sound, RmFileHandle.Valid;
      UndoDo(table, w);
      ghost var rest := file.Contents() - {w.rid};
      match w
      case InsertTuple(r, _) =>
        file.InRange(r);
        var row := file.GetRecord(r);
        DeleteEntries(r, row, file.Contents());
        file.DeleteRecord(r);
        AgreesAllUnique(table);
        return Finished;
      case DeleteTuple(r, row) =>
        var ok := InsertEntries(r, row, file.Contents());
        assert file.Contents()[r := row] == table;
        if !ok {
          return Clash;
        }
        var done := file.InsertRecordAt(r, row);
        return if done then Finished else Spinning;
      case UpdateTuple(r, before, _) =>
        file.InRange(r);
        var row := file.GetRecord(r);
        DeleteEntries(r, row, file.Contents());
        var done := file.InsertRecordAt(r, before);
        if !done {
          return Spinning;
        }
        assert rest[r := before] == table;
        var ok := InsertEntries(r, before, rest);
        return if ok then Finished else Clash;
    }

    lemma AgreesAllUnique(table: map<Rid, Row>)
      requires AllAgree(table)
      ensures AllUnique(table)
    {
      forall i | 0 <= i < |keys|
        ensures Unique(table, keys[i])
      {
        AgreesUnique(indexes[i], table, keys[i]);
      }
    }

    /** Undoes the whole write set, last write first. It ends if and only if no table on the way back
        has two rows with one key and every row put back is offered a page not before its own. Then
        the rows are those the transaction started from, every index agrees with them, and the free
        list is right unless a row filled a page behind the head. */
    method Abort(ghost start: map<Rid, Row>) returns (o: Outcome)
      requires file.Sound() && AllAgree(file.Contents())
      requires Ran(start, writeSet) && file.Contents() == After(start, writeSet, |writeSet|)
      requires forall k :: 0 <= k < |writeSet| ==> Placed(writeSet[k])
      modifies this, file
      ensures o.Finished? <==>
                && (forall k :: 0 <= k <= |old(writeSet)| ==> UniqueAfter(start, old(writeSet), k))
                && forall k :: 0 <= k < |old(writeSet)| ==> OffersAt(old(file.Room()), file.perPage, old(writeSet), k)
      ensures o.Finished? ==> file.Sound() && file.Contents() == start && AllAgree(start) && writeSet == []
      ensures o.Finished? ==> file.Room() == RoomBack(old(file.Room()), file.perPage, old(writeSet), 0)
      ensures
        o.Finished? && old(file.Valid())
        && (forall k :: 0 <= k < |old(writeSet)| ==> KeepsListAt(old(file.Room()), file.perPage, old(writeSet), k))
        ==> file.Valid()
    {
      hide Agrees, Unique, Rows, RmFileHandle.Sound, RmFileHandle.Valid, RmFileHandle.Room, RmFileHandle.Contents,
        TransactionManager.AllUnique, TransactionManager.AllAgree, UndoRoom, RoomBack, After, Enabled, Do;
      ghost var ws, s, n := writeSet, file.Room(), file.perPage;
      AgreesAllUnique(file.Contents());
      BothEnds(start, s, n, ws);
      while writeSet != []
        invariant |writeSet| <= |ws| && writeSet == ws[..|writeSet|]
        invariant file.Sound() && AllAgree(file.Contents()) && file.Contents() == After(start, ws, |writeSet|)
        invariant file.Room() == RoomBack(s, n, ws, |writeSet|)
        invariant forall k :: |writeSet| <= k <= |ws| ==> UniqueAfter(start, ws, k)
        invariant forall k :: |writeSet| <= k < |ws| ==> OffersAt(s, n, ws, k)
        invariant old(file.Valid()) && (forall k :: |writeSet| <= k < |ws| ==> KeepsListAt(s, n, ws, k)) ==>
                  file.Valid()
        decreases |writeSet|
      {
        ghost var k := |writeSet| - 1;
        var w := writeSet[|writeSet| - 1];
        assert EnabledAt(start, ws, k);
        AfterNext(start, ws, k);
        BackOne(s, n, ws, k);
        o := RollbackOne(w, After(start, ws, k));
        if !o.Finished? {
          assert !UniqueAfter(start, ws, k) || !OffersAt(s, n, ws, k);
          return;
        }
        assert UniqueAfter(start, ws, k) && OffersAt(s, n, ws, k);
        assert KeepsListAt(s, n, ws, k) <==> KeepsList(RoomBack(s, n, ws, k + 1), n, ws[k]);
        writeSet := writeSet[..|writeSet| - 1];
      }
      return Finished;
    }

    ghost predicate UniqueAfter(start: map<Rid, Row>, ws: seq<Write>, k: int)
      requires 0 <= k <= |ws|
    {
      AllUnique(After(start, ws, k))
    }

    /** An index that agrees with the rows the transaction started from is the index it started
        from. */
    lemma IndexRestored(i: nat, before: Index, start: map<Rid, Row>)
      requires AllAgree(start) && i < |keys| && Agrees(before, start, keys[i])
      ensures indexes[i] == before
    {
      AgreesOnce(indexes[i], before, start, keys[i]);
    }
  }

  // ---- inputs on which a rollback goes wrong

  /** An UPDATE that moves the keys 1 and 2 up by one is accepted, but taking back its second row
      meets the new key of the first. */
  lemma ShiftCannotGoBack(start: map<Rid, Row>, ws: seq<Write>)
    requires start == map[LOWER := [1], UPPER := [2]]
    requires ws == [UpdateTuple(LOWER, [1], [2]), UpdateTuple(UPPER, [2], [3])]
    ensures Ran(start, ws) && Unique(start, FirstColumn) && Unique(After(start, ws, 2), FirstColumn)
    ensures !Unique(After(start, ws, 1), FirstColumn)
  {
    assert After(start, ws, 1) == map[LOWER := [2], UPPER := [2]];
    assert After(start, ws, 2) == map[LOWER := [2], UPPER := [3]];
    assert EnabledAt(start, ws, 0) && EnabledAt(start, ws, 1);
    var rows := After(start, ws, 1);
    assert LOWER in rows && UPPER in rows && FirstColumn(rows[LOWER]) == FirstColumn(rows[UPPER]);
  }

  /** An UPDATE of a row of page 5, while page 3 heads the free list, cannot be taken back at all. */
  lemma FifthPageSpins(row: Row, row': Row)
    ensures Linked(Take(FullPages(5), 1, 3)) && FreeList(Take(FullPages(5), 1, 3), 1, [3])
    ensures !OffersAt(Take(FullPages(5), 1, 3), 1, [UpdateTuple(Rid(5, 0), row, row')], 0)
    ensures !exists i: nat :: Asked(Take(FullPages(5), 1, 3), i) >= 5
  {
    var ws := [UpdateTuple(Rid(5, 0), row, row')];
    var s := Take(FullPages(5), 1, 3);
    SearchNever(5, 3, 5);
    SearchEnds(s, 5);
    assert RoomBack(s, 1, ws, 1) == s;
  }
}
