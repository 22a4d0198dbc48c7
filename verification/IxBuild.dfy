/** Building an index over the rows a table already has. */
module IxBuild {
  import opened Common
  import opened HeapFile
  import opened IxTree
  import opened Agreement

  /** The rows that a scan has passed when it looks for the next one from `from` on. */
  ghost function Passed(rows: map<Rid, Record>, from: Rid): map<Rid, Record> {
    map r | r in rows && Before(r, from) :: rows[r]
  }

  lemma PassedAll(rows: map<Rid, Record>, from: Rid)
    requires FirstFrom(rows, from, END)
    ensures Passed(rows, from) == rows
  {
  }

  /** Passing the row the scan stands at adds exactly that row. */
  lemma PassedNext(rows: map<Rid, Record>, from: Rid, r: Rid, next: Rid)
    requires r != END && FirstFrom(rows, from, r) && next == Rid(r.pageNo, r.slotNo + 1)
    ensures r !in Passed(rows, from) && r in rows
    ensures Passed(rows, next) == Passed(rows, from)[r := rows[r]]
  {
    forall q | q in rows
      ensures Before(q, next) <==> Before(q, from) || q == r
    {
      BeforeNext(q, r, next);
    }
  }

  lemma BeforeNext(q: Rid, r: Rid, next: Rid)
    requires next == Rid(r.pageNo, r.slotNo + 1)
    ensures Before(q, next) <==> Before(q, r) || q == r
  {
  }

  /** Two rows with one key in a part of a table are two such rows in the table. */
  lemma PassedClash(rows: map<Rid, Record>, from: Rid, key: Record -> nat)
    requires !Unique(Passed(rows, from), key)
    ensures !Unique(rows, key)
  {
    var a, b :| a in Passed(rows, from) && b in Passed(rows, from) && a != b
                && key(Passed(rows, from)[a]) == key(Passed(rows, from)[b]);
    assert key(rows[a]) == key(rows[b]);
  }

  lemma NonePassed(file: RmFileHandle, key: Record -> nat)
    requires file.Sound()
    ensures Agrees(map[], Passed(file.Contents(), Rid(1, 0)), key)
  {
    RowRange(file.pages, file.numPages, file.perPage);
    assert Passed(file.Contents(), Rid(1, 0)) == map[];
  }

  /** The scan only moves on. */
  lemma StillAhead(file: RmFileHandle, from: Rid, r: Rid)
    requires file.Sound() && FirstFrom(file.Contents(), from, r) && r != END
    ensures 1 <= r.pageNo < file.numPages && 0 <= r.slotNo < file.perPage && !Before(r, from)
  {
    RowRange(file.pages, file.numPages, file.perPage);
  }

  /** Files one row in an index that agrees with the rows before it. */
  method FileRow(ih: IxIndexHandle, rid: Rid, record: Record, key: Record -> nat, ghost table: map<Rid, Record>)
    returns (ok: bool)
    requires ih.Valid() && Agrees(ih.Contents(), table, key) && rid !in table
    modifies ih
    ensures ih.Valid() && (ok <==> Unique(table[rid := record], key))
    ensures ok ==> Agrees(ih.Contents(), table[rid := record], key)
  {
    hide Agrees, Unique, IxIndexHandle.Steady, IxIndexHandle.Contents;
    KeyFree(ih.Contents(), table, key, rid, record);
    var r := ih.InsertEntry(key(record), rid);
    ok := r.Inserted?;
    if ok {
      AgreesWith(old(ih.Contents()), table, key, rid, record);
    }
  }

  lemma StaysSteady(ih: IxIndexHandle)
    requires ih.Valid()
    ensures ih.Steady()
  {
  }

  /** Files every row of a heap file in an empty index. This works if and only if no two rows have
      one key, and then the index agrees with the table. */
  method InitTree(ih: IxIndexHandle, file: RmFileHandle, key: Record -> nat) returns (ok: bool)
    requires ih.Valid() && ih.Contents() == map[] && file.Sound()
    modifies ih
    ensures ih.Valid() && file.Sound() && file.Contents() == old(file.Contents())
    ensures ok <==> Unique(file.Contents(), key)
    ensures ok ==> Agrees(ih.Contents(), file.Contents(), key)
  {
    hide Agrees, Unique, Rows, Passed, FirstFrom, RmFileHandle.Sound, RmFileHandle.Contents, IxIndexHandle.Steady,
      IxIndexHandle.Contents, IxIndexHandle.Valid;
    StaysSteady(ih);
    ghost var rows := file.Contents();
    var scan := new RmScan(file);
    ghost var from := Rid(1, 0);
    NonePassed(file, key);
    while !scan.IsEnd()
      invariant ih.Valid() && ih.Steady() && file.Sound() && file.Contents() == rows
      invariant scan.file == file && FirstFrom(rows, from, scan.rid)
      invariant Agrees(ih.Contents(), Passed(rows, from), key)
      decreases if scan.IsEnd() then 0 else file.numPages - scan.rid.pageNo, file.perPage - scan.rid.slotNo
    {
      var rid := scan.rid;
      ghost var next := Rid(rid.pageNo, rid.slotNo + 1);
      PassedNext(rows, from, rid, next);
      file.InRange(rid);
      var record := file.GetRecord(rid);
      ok := FileRow(ih, rid, record, key, Passed(rows, from));
      StaysSteady(ih);
      if !ok {
        PassedClash(rows, next, key);
        return false;
      }
      from := next;
      scan.Next();
      if !scan.IsEnd() {
        StillAhead(file, from, scan.rid);
      }
    }
    PassedAll(rows, from);
    AgreesUnique(ih.Contents(), rows, key);
    ok := true;
  }
}
