/** A transaction's writes, made through its table file and taken back. */
module TxnRun {
  import opened Common
  import opened Bitmap
  import opened FreeSpace
  import opened HeapFile
  import opened AbortTxn
  import opened Rollback

  /** What an executor asks of the file. */
  datatype Step = InsertRow(row: Record) | DeleteRow(rid: Rid) | UpdateRow(rid: Rid, row: Record)

  predicate InFile(rid: Rid, n: nat) {
    1 <= rid.pageNo && 0 <= rid.slotNo < n
  }

  lemma RoomBounded(file: RmFileHandle)
    requires file.Valid()
    ensures Right(file.Room(), file.perPage) && file.perPage >= 1
  {
    hide Count, IsSet;
    forall k | k in file.Room().num
      ensures file.Room().num[k] <= file.perPage
    {
      PageAt(file.pages, file.numPages, file.perPage, k);
    }
  }

  lemma {:induction false} SameAfter(rows: map<Rid, Record>, s: Space, n: int, ws: seq<Write>, w: Write, k: nat)
    requires k <= |ws|
    ensures After(rows, ws + [w], k) == After(rows, ws, k) && RoomAfter(s, n, ws + [w], k) == RoomAfter(s, n, ws, k)
  {
    if k == 0 {
    } else {
      SameAfter(rows, s, n, ws, w, k - 1);
      assert (ws + [w])[k - 1] == ws[k - 1];
    }
  }

  /** One more write that the file has made. */
  lemma OneMore(rows: map<Rid, Record>, s: Space, n: int, ws: seq<Write>, w: Write)
    requires Alone(s, n, ws) && Ran(rows, ws)
    requires Possible(RoomAfter(s, n, ws, |ws|), w) && Enabled(After(rows, ws, |ws|), w)
    ensures Alone(s, n, ws + [w]) && Ran(rows, ws + [w])
    ensures After(rows, ws + [w], |ws| + 1) == Do(After(rows, ws, |ws|), w)
    ensures RoomAfter(s, n, ws + [w], |ws| + 1) == DoRoom(RoomAfter(s, n, ws, |ws|), n, w)
  {
    hide Possible, Enabled, Right;
    forall k | 0 <= k < |ws| + 1
      ensures PossibleAt(s, n, ws + [w], k) && EnabledAt(rows, ws + [w], k)
    {
      SameAfter(rows, s, n, ws, w, k);
      if k < |ws| {
        assert PossibleAt(s, n, ws, k) && EnabledAt(rows, ws, k);
      }
    }
    SameAfter(rows, s, n, ws, w, |ws|);
  }

  /** Carries out the steps and keeps the write set. A step for a row that is not there is passed over. */
  method Perform(file: RmFileHandle, steps: seq<Step>) returns (ws: seq<Write>)
    requires file.Valid()
    modifies file
    ensures file.Valid() && Alone(old(file.Room()), file.perPage, ws) && Ran(old(file.Contents()), ws)
    ensures file.Room() == RoomAfter(old(file.Room()), file.perPage, ws, |ws|)
    ensures file.Contents() == After(old(file.Contents()), ws, |ws|)
    ensures forall k :: 0 <= k < |ws| ==> InFile(ws[k].rid, file.perPage)
  {
    hide RmFileHandle.Room, RmFileHandle.Contents, RmFileHandle.Sound, RmFileHandle.Valid, Put, Take, Offered, Right;
    RoomBounded(file);
    ws := [];
    var i := 0;
    while i < |steps|
      invariant file.Valid() && Alone(old(file.Room()), file.perPage, ws) && Ran(old(file.Contents()), ws)
      invariant file.Room() == RoomAfter(old(file.Room()), file.perPage, ws, |ws|)
      invariant file.Contents() == After(old(file.Contents()), ws, |ws|)
      invariant forall k :: 0 <= k < |ws| ==> InFile(ws[k].rid, file.perPage)
    {
      var done, w := Make(file, steps[i]);
      if done {
        OneMore(old(file.Contents()), old(file.Room()), file.perPage, ws, w);
        ws := ws + [w];
      }
      i := i + 1;
    }
  }

  /** One step, and the write it leaves in the write set. */
  method Make(file: RmFileHandle, step: Step) returns (done: bool, w: Write)
    requires file.Valid()
    modifies file
    ensures file.Valid()
    ensures done <==> step.InsertRow? || step.rid in old(file.Contents())
    ensures !done ==> file.Room() == old(file.Room()) && file.Contents() == old(file.Contents())
    ensures done ==> Possible(old(file.Room()), w) && file.Room() == DoRoom(old(file.Room()), file.perPage, w)
    ensures done ==> Enabled(old(file.Contents()), w) && file.Contents() == Do(old(file.Contents()), w)
    ensures done ==> InFile(w.rid, file.perPage)
    ensures done ==> match step {
                       case InsertRow(row) => w.InsertTuple? && w.row == row
                       case DeleteRow(rid) => w == DeleteTuple(rid, old(file.Contents())[rid])
                       case UpdateRow(rid, row) => w == UpdateTuple(rid, old(file.Contents())[rid], row)
                     }
  {
    hide Count, IsSet, FreeList, Put, Take, Offered;
    done, w := false, InsertTuple(NO_RID, []);
    match step
    case InsertRow(row) =>
      var rid := file.InsertRecord(row);
      Known(file, rid);
      done, w := true, InsertTuple(rid, row);
    case DeleteRow(rid) =>
      Known(file, rid);
      if Used(file.pages, rid) {
        var row := file.GetRecord(rid);
        file.DeleteRecord(rid);
        done, w := true, DeleteTuple(rid, row);
      }
    case UpdateRow(rid, row) =>
      Known(file, rid);
      if Used(file.pages, rid) {
        var before := file.GetRecord(rid);
        file.UpdateRecord(rid, row);
        done, w := true, UpdateTuple(rid, before, row);
      }
  }

  /** `is_record`: a slot is used exactly when its row is there. */
  lemma Known(file: RmFileHandle, rid: Rid)
    requires file.Sound()
    ensures Used(file.pages, rid) <==> rid in file.Contents()
    ensures rid in file.Contents() ==>
              rid.pageNo in file.Room().num && rid.pageNo in file.pages && InFile(rid, file.perPage)
  {
    hide Count, IsSet;
    RowsHas(file.pages, file.numPages, file.perPage, rid);
    if rid.pageNo in file.pages {
      PageAt(file.pages, file.numPages, file.perPage, rid.pageNo);
    }
  }

  /** A transaction writes to a file without indexes, with nobody beside it, and aborts: this ends if and only if each
      row it deleted or updated was on a page not behind the one the file offered right after, and then the rows
      are what they were and the free list is right. */
  method RunAndAbort(file: RmFileHandle, steps: seq<Step>) returns (o: Outcome, ghost ws: seq<Write>)
    requires file.Valid()
    modifies file
    ensures Alone(old(file.Room()), file.perPage, ws) && Ran(old(file.Contents()), ws)
    ensures o.Finished? <==>
              forall k :: 0 <= k < |ws| ==> OfferedAfter(old(file.Room()), file.perPage, ws, k)
    ensures o.Finished? ==>
              file.Sound() && file.Contents() == old(file.Contents()) && Right(file.Room(), file.perPage)
  {
    hide RmFileHandle.Room, RmFileHandle.Contents, RmFileHandle.Sound, Put, Take, Offered, Right, RoomAfter, RoomBack,
      Possible, After;
    var writes := Perform(file, steps);
    ws := writes;
    var tm := new TransactionManager([], file, [], writes);
    RollbackEnds(old(file.Room()), file.perPage, ws);
    o := tm.Abort(old(file.Contents()));
  }
}
