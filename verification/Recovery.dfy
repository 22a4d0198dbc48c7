/** Crash recovery: replay the whole log on empty tables, then undo what did not commit. */
module Recovery {
  import opened FreeSpace
  import opened LogCodec

  /** A row: the name of its table, its page and its slot. */
  type Key = (seq<Byte>, int, int)

  type Rows = map<Key, seq<Byte>>

  function KeyOf(b: Body): Key
    requires !b.NoBody?
  {
    (b.table, b.pageNo, b.slotNo)
  }

  predicate WellKinded(r: LogRecord) {
    r.body.Row? == HasRow(r.kind) && r.body.Change? == HasChange(r.kind)
  }

  // ---- one record

  /** What redo does for one record. */
  function Apply(rows: Rows, r: LogRecord): Rows
    requires WellKinded(r)
  {
    if r.kind == DELETE || r.kind == CLR_INSERT then rows - {KeyOf(r.body)}
    else if r.kind == INSERT || r.kind == CLR_DELETE then rows[KeyOf(r.body) := r.body.value]
    else if r.kind == UPDATE || r.kind == CLR_UPDATE then rows[KeyOf(r.body) := r.body.after]
    else rows
  }

  /** What undo does for one record. */
  function Revert(rows: Rows, r: LogRecord): Rows
    requires WellKinded(r)
  {
    if r.kind == DELETE then rows[KeyOf(r.body) := r.body.value]
    else if r.kind == INSERT then rows - {KeyOf(r.body)}
    else if r.kind == UPDATE then rows[KeyOf(r.body) := r.body.before]
    else rows
  }

  /** The record describes a change that can be made: a new row, or the row as it is. */
  predicate Enabled(rows: Rows, r: LogRecord)
    requires WellKinded(r)
  {
    match r.kind
    case INSERT => KeyOf(r.body) !in rows
    case DELETE => KeyOf(r.body) in rows && rows[KeyOf(r.body)] == r.body.value
    case UPDATE => KeyOf(r.body) in rows && rows[KeyOf(r.body)] == r.body.before
    case _ => true
  }

  /** The compensation record that an abort logs for a change. */
  function Compensation(r: LogRecord): LogRecord
    requires WellKinded(r) && (r.kind == INSERT || r.kind == DELETE || r.kind == UPDATE)
  {
    match r.kind
    case UPDATE => r.(kind := CLR_UPDATE, body := r.body.(before := r.body.after, after := r.body.before))
    case DELETE => r.(kind := CLR_INSERT)
    case _ => r.(kind := CLR_DELETE)
  }

  /** Redo of a record that removes a row asserts that the row is there. Where assertions are compiled
      out, as in the repository's own build, it leaves the rows as they are. */
  predicate CanApply(rows: Rows, r: LogRecord)
    requires WellKinded(r)
  {
    r.kind == DELETE || r.kind == CLR_INSERT ==> KeyOf(r.body) in rows
  }

  /** Replaying a change and then its compensation restores the rows for updates only: that of an
      insert repeats the insert, and that of a delete removes a row that is gone, which fails an
      assertion or, without assertions, does nothing. `Survivors` says what that means
      for whole logs. */
  lemma CompensationRestores(rows: Rows, r: LogRecord)
    requires WellKinded(r) && (r.kind == INSERT || r.kind == DELETE || r.kind == UPDATE) && Enabled(rows, r)
    ensures Apply(Apply(rows, r), Compensation(r)) == rows <==> r.kind == UPDATE
    ensures CanApply(rows, r) && (CanApply(Apply(rows, r), Compensation(r)) <==> r.kind != DELETE)
  {
    var rows' := Apply(Apply(rows, r), Compensation(r));
    if r.kind == UPDATE {
      assert rows' == rows;
    } else {
      assert KeyOf(r.body) in rows' <==> KeyOf(r.body) !in rows;
    }
  }

  /** The insert of a row and its compensation leave the row in the table. */
  lemma InsertRepeated(r: LogRecord)
    requires r == LogRecord(INSERT, 1, 1, 0, 0, Row([7], 1, 0, [65]))
    ensures WellKinded(r) && Enabled(map[], r)
    ensures Apply(Apply(map[], r), Compensation(r)) == map[([65], 1, 0) := [7]]
  {
  }

  /** The delete of a row and its compensation stop the replay, or leave the row deleted. */
  lemma DeleteStops(r: LogRecord, rows: Rows)
    requires r == LogRecord(DELETE, 1, 1, 0, 0, Row([7], 1, 0, [65])) && rows == map[([65], 1, 0) := [7]]
    ensures WellKinded(r) && Enabled(rows, r) && CanApply(rows, r)
    ensures !CanApply(Apply(rows, r), Compensation(r))
    ensures Apply(Apply(rows, r), Compensation(r)) == map[]
  {
  }

  /** A change of a row. */
  predicate Writes(r: LogRecord) {
    r.kind == INSERT || r.kind == DELETE || r.kind == UPDATE
  }

  /** A change that takes back another. */
  predicate Compensates(r: LogRecord) {
    r.kind == CLR_INSERT || r.kind == CLR_DELETE || r.kind == CLR_UPDATE
  }

  /** The record of the end of a transaction. */
  predicate Ends(r: LogRecord) {
    r.kind == COMMIT || r.kind == ABORT
  }

  // ---- whole logs

  ghost predicate Kinded(rs: seq<LogRecord>) {
    forall i :: 0 <= i < |rs| ==> WellKinded(rs[i])
  }

  /** The rows after redo of the first `n` records. */
  ghost function After(rs: seq<LogRecord>, n: nat): Rows
    requires Kinded(rs) && n <= |rs|
  {
    if n == 0 then map[] else Apply(After(rs, n - 1), rs[n - 1])
  }

  ghost predicate Committed(rs: seq<LogRecord>, t: int) {
    exists c :: 0 <= c < |rs| && rs[c].kind == COMMIT && rs[c].tid == t
  }

  /** The transaction has committed or aborted. */
  ghost predicate Ended(rs: seq<LogRecord>, t: int) {
    exists c :: 0 <= c < |rs| && Ends(rs[c]) && rs[c].tid == t
  }

  /** The rows that the committed transactions alone produce. */
  ghost function CommittedRows(rs: seq<LogRecord>, n: nat): Rows
    requires Kinded(rs) && n <= |rs|
  {
    if n == 0 then map[]
    else if Committed(rs, rs[n - 1].tid) then Apply(CommittedRows(rs, n - 1), rs[n - 1])
    else CommittedRows(rs, n - 1)
  }

  /** The rows after redo, and undo of the transactions without an end from record `k` on. */
  ghost function Back(rs: seq<LogRecord>, k: nat): Rows
    requires Kinded(rs) && k <= |rs|
    decreases |rs| - k
  {
    if k == |rs| then After(rs, |rs|)
    else if Ended(rs, rs[k].tid) then Back(rs, k + 1)
    else Revert(Back(rs, k + 1), rs[k])
  }

  /** The rows that recovery leaves. */
  ghost function Recovered(rs: seq<LogRecord>): Rows
    requires Kinded(rs)
  {
    Back(rs, 0)
  }

  /** The compensations that undo logs, for the records from `k` on. */
  ghost function Emitted(rs: seq<LogRecord>, k: nat): seq<LogRecord>
    requires Kinded(rs) && k <= |rs|
    decreases |rs| - k
  {
    if k == |rs| then []
    else Emitted(rs, k + 1) + if Ended(rs, rs[k].tid) || !Writes(rs[k]) then [] else [Compensation(rs[k])]
  }

  // ---- the free space of the files along a recovery

  type Table = seq<Byte>

  type Rooms = map<Table, Space>

  /** Analysis leaves every table with a new file. */
  function RoomOf(rooms: Rooms, t: Table): Space {
    if t in rooms then rooms[t] else NEW_FILE
  }

  ghost predicate AllLinked(rooms: Rooms) {
    forall t :: t in rooms ==> Linked(rooms[t])
  }

  function PutIn(rooms: Rooms, per: Table -> nat, k: Key, used: bool): Rooms {
    rooms[k.0 := Put(RoomOf(rooms, k.0), per(k.0), k.1, used)]
  }

  function TakeFrom(rooms: Rooms, per: Table -> nat, k: Key): Rooms {
    rooms[k.0 := Take(RoomOf(rooms, k.0), per(k.0), k.1)]
  }

  lemma RoomsLinked(rooms: Rooms, per: Table -> nat, k: Key, used: bool)
    requires AllLinked(rooms)
    ensures Linked(RoomOf(rooms, k.0)) && AllLinked(PutIn(rooms, per, k, used)) && AllLinked(TakeFrom(rooms, per, k))
  {
    PutLinked(RoomOf(rooms, k.0), per(k.0), k.1, used);
    TakeLinked(RoomOf(rooms, k.0), per(k.0), k.1);
  }

  lemma NoRooms()
    ensures AllLinked(map[])
  {
  }

  /** Storing or removing a row, with the rows before it. A row that is not there is not removed. */
  function StoreRoom(rooms: Rooms, rows: Rows, per: Table -> nat, k: Key): Rooms {
    PutIn(rooms, per, k, k in rows)
  }

  function RemoveRoom(rooms: Rooms, rows: Rows, per: Table -> nat, k: Key): Rooms {
    if k in rows then TakeFrom(rooms, per, k) else rooms
  }

  /** Redo stores a row for this record, or removes one. */
  predicate Stores(r: LogRecord) {
    r.kind == INSERT || r.kind == CLR_DELETE || r.kind == UPDATE || r.kind == CLR_UPDATE
  }

  predicate Removes(r: LogRecord) {
    r.kind == DELETE || r.kind == CLR_INSERT
  }

  /** What redo of one record does to the free space. */
  function RedoRoom(rooms: Rooms, rows: Rows, per: Table -> nat, r: LogRecord): Rooms
    requires WellKinded(r)
  {
    if Stores(r) then StoreRoom(rooms, rows, per, KeyOf(r.body))
    else if Removes(r) then RemoveRoom(rooms, rows, per, KeyOf(r.body))
    else rooms
  }

  ghost function RedoRooms(rs: seq<LogRecord>, per: Table -> nat, n: nat): Rooms
    requires Kinded(rs) && n <= |rs|
  {
    if n == 0 then map[] else RedoRoom(RedoRooms(rs, per, n - 1), After(rs, n - 1), per, rs[n - 1])
  }

  ghost predicate Offers(rooms: Rooms, b: Body)
    requires !b.NoBody?
  {
    Offered(RoomOf(rooms, b.table)) >= b.pageNo
  }

  /** A row that redo stores finds its page: one that is not before it is offered. */
  ghost predicate RedoOffers(rs: seq<LogRecord>, per: Table -> nat, i: nat)
    requires Kinded(rs) && i < |rs|
  {
    Stores(rs[i]) ==> Offers(RedoRooms(rs, per, i), rs[i].body)
  }

  /** What undo of one record does to the free space. */
  function UndoRoom(rooms: Rooms, rows: Rows, per: Table -> nat, r: LogRecord): Rooms
    requires WellKinded(r)
  {
    if r.kind == DELETE || r.kind == UPDATE then StoreRoom(rooms, rows, per, KeyOf(r.body))
    else if r.kind == INSERT then RemoveRoom(rooms, rows, per, KeyOf(r.body))
    else rooms
  }

  /** The free space after redo, and undo from record `k` on. */
  ghost function UndoRooms(rs: seq<LogRecord>, per: Table -> nat, k: nat): Rooms
    requires Kinded(rs) && k <= |rs|
    decreases |rs| - k
  {
    if k == |rs| then RedoRooms(rs, per, |rs|)
    else if Ended(rs, rs[k].tid) then UndoRooms(rs, per, k + 1)
    else UndoRoom(UndoRooms(rs, per, k + 1), Back(rs, k + 1), per, rs[k])
  }

  /** A row that undo puts back finds its page. */
  ghost predicate UndoOffers(rs: seq<LogRecord>, per: Table -> nat, i: nat)
    requires Kinded(rs) && i < |rs|
  {
    !Ended(rs, rs[i].tid) && (rs[i].kind == DELETE || rs[i].kind == UPDATE) ==>
      Offers(UndoRooms(rs, per, i + 1), rs[i].body)
  }

  /** Every row that redo and undo store finds its page. */
  ghost predicate AllOffered(rs: seq<LogRecord>, per: Table -> nat)
    requires Kinded(rs)
  {
    && (forall i :: 0 <= i < |rs| ==> RedoOffers(rs, per, i))
    && (forall i :: 0 <= i < |rs| ==> UndoOffers(rs, per, i))
  }

  // ---- the assertions of redo and undo

  ghost predicate RedoFinds(rs: seq<LogRecord>, i: nat)
    requires Kinded(rs) && i < |rs|
  {
    CanApply(After(rs, i), rs[i])
  }

  /** Undo of an insert asserts that the row is there. */
  ghost predicate UndoFinds(rs: seq<LogRecord>, i: nat)
    requires Kinded(rs) && i < |rs|
  {
    !Ended(rs, rs[i].tid) && rs[i].kind == INSERT ==> KeyOf(rs[i].body) in Back(rs, i + 1)
  }

  /** Every row that redo and undo remove is there. */
  ghost predicate AllFound(rs: seq<LogRecord>)
    requires Kinded(rs)
  {
    && (forall i :: 0 <= i < |rs| ==> RedoFinds(rs, i))
    && (forall i :: 0 <= i < |rs| ==> UndoFinds(rs, i))
  }

  // ---- the undo list

  /** Transactions begin before they do anything else, and do nothing after their end. */
  ghost predicate Framed(rs: seq<LogRecord>) {
    && (forall i :: 0 <= i < |rs| ==> Begun(rs, rs[i], i))
    && (forall c, j :: 0 <= c < j < |rs| && Ends(rs[c]) ==> rs[c].tid != rs[j].tid)
  }

  /** The record is the BEGIN of its transaction, or that came before. */
  ghost predicate Begun(rs: seq<LogRecord>, r: LogRecord, i: nat)
    requires i <= |rs|
  {
    if r.kind == BEGIN then forall b :: 0 <= b < i ==> rs[b].tid != r.tid
    else exists b :: 0 <= b < i && rs[b].kind == BEGIN && rs[b].tid == r.tid
  }

  /** The transactions that redo leaves open after the first `n` records. */
  ghost function Open(rs: seq<LogRecord>, n: nat): set<int>
    requires n <= |rs|
  {
    if n == 0 then {}
    else if rs[n - 1].kind == BEGIN then Open(rs, n - 1) + {rs[n - 1].tid}
    else if Ends(rs[n - 1]) then Open(rs, n - 1) - {rs[n - 1].tid}
    else Open(rs, n - 1)
  }

  lemma {:induction false} OpenIs(rs: seq<LogRecord>, n: nat, t: int)
    requires Framed(rs) && n <= |rs|
    ensures t in Open(rs, n) <==>
              && (exists b :: 0 <= b < n && rs[b].kind == BEGIN && rs[b].tid == t)
              && !(exists c :: 0 <= c < n && Ends(rs[c]) && rs[c].tid == t)
  {
    if n == 0 {
    } else {
      OpenIs(rs, n - 1, t);
      var r := rs[n - 1];
      assert Begun(rs, r, n - 1);
      if t in Open(rs, n - 1) {
        var b :| 0 <= b < n - 1 && rs[b].kind == BEGIN && rs[b].tid == t;
      }
    }
  }

  /** Redo's list holds a record's transaction exactly when that has no end. */
  lemma OpenAt(rs: seq<LogRecord>, i: nat)
    requires Framed(rs) && i < |rs|
    ensures rs[i].tid in Open(rs, |rs|) <==> !Ended(rs, rs[i].tid)
  {
    OpenIs(rs, |rs|, rs[i].tid);
    assert Begun(rs, rs[i], i);
    assert exists b :: 0 <= b < |rs| && rs[b].kind == BEGIN && rs[b].tid == rs[i].tid;
  }

  /** A COMMIT or ABORT finds its transaction in the list. */
  lemma EndIsOpen(rs: seq<LogRecord>, n: nat)
    requires Framed(rs) && n < |rs| && Ends(rs[n])
    ensures rs[n].tid in Open(rs, n)
  {
    OpenIs(rs, n, rs[n].tid);
    assert Begun(rs, rs[n], n);
  }

  lemma BeginIsFirst(rs: seq<LogRecord>, i: nat)
    requires Framed(rs) && i < |rs| && rs[i].kind == BEGIN
    ensures forall j :: 0 <= j < i ==> rs[j].tid != rs[i].tid
  {
    assert Begun(rs, rs[i], i);
  }

  /** An open transaction's record is no end. */
  lemma OpenRecord(rs: seq<LogRecord>, i: nat)
    requires i < |rs| && !Ended(rs, rs[i].tid)
    ensures !Ends(rs[i])
  {
  }

  // ---- the recovery manager

  lemma UndoStarts(rs: seq<LogRecord>, per: Table -> nat)
    requires Kinded(rs)
    ensures Back(rs, |rs|) == After(rs, |rs|) && UndoRooms(rs, per, |rs|) == RedoRooms(rs, per, |rs|)
    ensures Emitted(rs, |rs|) == []
  {
  }

  lemma UndoStep(rs: seq<LogRecord>, per: Table -> nat, k: nat)
    requires Kinded(rs) && k < |rs|
    ensures Ended(rs, rs[k].tid) ==>
              && Back(rs, k) == Back(rs, k + 1) && UndoRooms(rs, per, k) == UndoRooms(rs, per, k + 1)
              && Emitted(rs, k) == Emitted(rs, k + 1)
    ensures !Ended(rs, rs[k].tid) ==>
              && Back(rs, k) == Revert(Back(rs, k + 1), rs[k])
              && UndoRooms(rs, per, k) == UndoRoom(UndoRooms(rs, per, k + 1), Back(rs, k + 1), per, rs[k])
              && Emitted(rs, k) == Emitted(rs, k + 1) + if Writes(rs[k]) then [Compensation(rs[k])] else []
  {
  }

  /** The record is the first one with this number. */
  predicate FirstNumbered(rs: seq<LogRecord>, i: nat, l: int)
    requires i < |rs|
  {
    rs[i].lsn == l && forall j :: 0 <= j < i ==> rs[j].lsn != l
  }

  /** The previous numbers of the first `n` records, by their own; of equal numbers the first counts. */
  ghost predicate PrevTable(rs: seq<LogRecord>, n: nat, prevOf: map<int, int>)
    requires n <= |rs|
  {
    && (forall l :: l in prevOf ==> exists i :: 0 <= i < n && FirstNumbered(rs, i, l) && prevOf[l] == rs[i].prev)
    && (forall i :: 0 <= i < n ==> rs[i].lsn in prevOf)
  }

  /** The largest transaction number among the first `n` records, or 0. */
  ghost predicate LargestTid(rs: seq<LogRecord>, n: nat, t: int)
    requires n <= |rs|
  {
    && t >= 0 && (forall i :: 0 <= i < n ==> rs[i].tid <= t)
    && (t == 0 || exists i :: 0 <= i < n && rs[i].tid == t)
  }

  lemma TableStarts(rs: seq<LogRecord>)
    ensures PrevTable(rs, 0, map[]) && LargestTid(rs, 0, 0)
  {
  }

  lemma PrevNext(rs: seq<LogRecord>, n: nat, prevOf: map<int, int>)
    requires n < |rs| && PrevTable(rs, n, prevOf)
    ensures PrevTable(rs, n + 1, if rs[n].lsn in prevOf then prevOf else prevOf[rs[n].lsn := rs[n].prev])
  {
    var m := if rs[n].lsn in prevOf then prevOf else prevOf[rs[n].lsn := rs[n].prev];
    forall l | l in m
      ensures exists i :: 0 <= i < n + 1 && FirstNumbered(rs, i, l) && m[l] == rs[i].prev
    {
      if l in prevOf {
        var i :| 0 <= i < n && FirstNumbered(rs, i, l) && prevOf[l] == rs[i].prev;
      } else {
        assert FirstNumbered(rs, n, l);
      }
    }
  }

  lemma LargestNext(rs: seq<LogRecord>, n: nat, t: int)
    requires n < |rs| && LargestTid(rs, n, t)
    ensures LargestTid(rs, n + 1, if rs[n].tid > t then rs[n].tid else t)
  {
    if rs[n].tid > t {
      assert rs[n].tid == rs[n].tid;
    } else if t != 0 {
      var i :| 0 <= i < n && rs[i].tid == t;
    }
  }

  ghost predicate OpenWrite(rs: seq<LogRecord>, i: nat)
    requires i < |rs|
  {
    Writes(rs[i]) && !Ended(rs, rs[i].tid)
  }

  /** Undo appends one compensation for each write of an open transaction, the one of the last write first. */
  lemma {:induction false} EmittedAre(rs: seq<LogRecord>, k: nat) returns (from: seq<nat>)
    requires Kinded(rs) && k <= |rs|
    ensures |from| == |Emitted(rs, k)|
    ensures forall x :: 0 <= x < |from| ==>
              && k <= from[x] < |rs| && OpenWrite(rs, from[x]) && Emitted(rs, k)[x] == Compensation(rs[from[x]])
    ensures forall x, y :: 0 <= x < y < |from| ==> from[x] > from[y]
    ensures forall i: nat :: k <= i < |rs| && OpenWrite(rs, i) ==> i in from
    decreases |rs| - k
  {
    hide Emitted, Ended, Compensation, Writes;
    UndoStarts(rs, _ => 0);
    if k == |rs| {
      from := [];
    } else {
      UndoStep(rs, _ => 0, k);
      from := EmittedAre(rs, k + 1);
      if OpenWrite(rs, k) {
        from := from + [k];
      }
    }
  }

  class RecoveryManager {
    const log: seq<Byte>
    const per: Table -> nat
    var rows: Rows
    var rooms: Rooms
    var undoList: set<int>
    var offsets: seq<nat>
    var prevOf: map<int, int>
    var nextLsn: int
    var nextTxn: int
    /** What undo has handed to the log manager. */
    var emitted: seq<LogRecord>

    constructor (log: seq<Byte>, per: Table -> nat)
      ensures this.log == log && this.per == per && undoList == {} && emitted == []
    {
      this.log, this.per := log, per;
      rows, rooms, undoList, offsets, prevOf, nextLsn, nextTxn := map[], map[], {}, [], map[], 0, 0;
      emitted := [];
    }

    /** Empties the tables and notes where each record starts. */
    method Analyze(ghost rs: seq<LogRecord>)
      requires ValidLog(rs) && log == LogBytes(rs)
      modifies this
      ensures rows == map[] && rooms == map[] && undoList == old(undoList) && emitted == old(emitted)
      ensures |offsets| == |rs| && forall i :: 0 <= i < |rs| ==> offsets[i] == Offset(rs, i)
      ensures PrevTable(rs, |rs|, prevOf)
      ensures nextLsn == (if rs == [] then 0 else rs[|rs| - 1].lsn) + 1
      ensures LargestTid(rs, |rs|, nextTxn - 1)
    {
      hide LogBytes, ReadHeader, Deserialize, ValidRecord, TotalLength, Offset, PrevTable, LargestTid;
      rows, rooms, offsets, prevOf := map[], map[], [], map[];
      TableStarts(rs);
      var offset, lastLsn, lastTxn := 0, 0, 0;
      ghost var n := 0;
      WholeLog(rs);
      while offset < |log|
        invariant n <= |rs| && offset == Offset(rs, n) <= |log|
        invariant rows == map[] && rooms == map[] && undoList == old(undoList) && emitted == old(emitted)
        invariant |offsets| == n && forall i :: 0 <= i < n ==> offsets[i] == Offset(rs, i)
        invariant PrevTable(rs, n, prevOf)
        invariant lastLsn == if n == 0 then 0 else rs[n - 1].lsn
        invariant LargestTid(rs, n, lastTxn)
        decreases |rs| - n
      {
        NotLast(rs, n);
        ReadAt(rs, n);
        PrevNext(rs, n, prevOf);
        LargestNext(rs, n, lastTxn);
        var h := ReadHeader(log[offset..]).value;
        offsets := offsets + [offset];
        if h.lsn !in prevOf {
          prevOf := prevOf[h.lsn := h.prev];
        }
        lastLsn := h.lsn;
        lastTxn := if h.tid > lastTxn then h.tid else lastTxn;
        offset := offset + h.total;
        n := n + 1;
      }
      LogEnds(rs, n);
      nextLsn, nextTxn := lastLsn + 1, lastTxn + 1;
    }

    /** `insert_record` at a given place: the search for a page ends at once or never. */
    method StoreAt(k: Key, value: seq<Byte>) returns (done: bool)
      requires AllLinked(rooms)
      modifies this`rows, this`rooms
      ensures done <==> Offered(RoomOf(old(rooms), k.0)) >= k.1
      ensures done <==> exists i: nat :: Asked(RoomOf(old(rooms), k.0), i) >= k.1
      ensures done ==> rows == old(rows)[k := value] && rooms == StoreRoom(old(rooms), old(rows), per, k)
      ensures AllLinked(rooms)
    {
      RoomsLinked(rooms, per, k, k in rows);
      SearchEnds(RoomOf(rooms, k.0), k.1);
      if Offered(RoomOf(rooms, k.0)) < k.1 {
        return false;
      }
      rooms := PutIn(rooms, per, k, k in rows);
      rows := rows[k := value];
      return true;
    }

    /** `delete_record`, which asserts that the place is used and otherwise does nothing. */
    method RemoveAt(k: Key) returns (found: bool)
      requires AllLinked(rooms)
      modifies this`rows, this`rooms
      ensures found <==> k in old(rows)
      ensures rows == old(rows) - {k} && rooms == RemoveRoom(old(rooms), old(rows), per, k) && AllLinked(rooms)
    {
      RoomsLinked(rooms, per, k, true);
      found := k in rows;
      if found {
        rooms := TakeFrom(rooms, per, k);
        rows := rows - {k};
      }
    }

    /** Redo of one record. */
    method RedoRecord(r: LogRecord) returns (done: bool, found: bool)
      requires AllLinked(rooms) && WellKinded(r)
      modifies this`rows, this`rooms, this`undoList
      ensures done <==> (Stores(r) ==> Offers(old(rooms), r.body))
      ensures found <==> CanApply(old(rows), r)
      ensures done ==> rows == Apply(old(rows), r) && AllLinked(rooms)
      ensures done ==> rooms == RedoRoom(old(rooms), old(rows), per, r)
      ensures undoList == if r.kind == BEGIN then old(undoList) + {r.tid} else if Ends(r) then old(undoList) - {r.tid}
                          else old(undoList)
    {
      hide AllLinked, StoreRoom, RemoveRoom, RoomOf;
      done, found := true, true;
      if r.kind == DELETE || r.kind == CLR_INSERT {
        found := RemoveAt(KeyOf(r.body));
      } else if r.kind == INSERT || r.kind == CLR_DELETE {
        done := StoreAt(KeyOf(r.body), r.body.value);
      } else if r.kind == UPDATE || r.kind == CLR_UPDATE {
        done := StoreAt(KeyOf(r.body), r.body.after);
      } else if r.kind == BEGIN {
        undoList := undoList + {r.tid};
      } else if r.kind == COMMIT || r.kind == ABORT {
        undoList := undoList - {r.tid};
      }
    }

    /** Replays every record and keeps the list of open transactions. It ends if and only if every
        stored row finds its page; no assertion fails if and only if every removed row is there. */
    method Redo(ghost rs: seq<LogRecord>) returns (done: bool, found: bool)
      requires ValidLog(rs) && log == LogBytes(rs) && Kinded(rs) && Framed(rs)
      requires rows == map[] && rooms == map[] && undoList == {}
      modifies this`rows, this`rooms, this`undoList
      ensures done <==> forall i :: 0 <= i < |rs| ==> RedoOffers(rs, per, i)
      ensures done ==> (found <==> forall i :: 0 <= i < |rs| ==> RedoFinds(rs, i))
      ensures done ==> rows == After(rs, |rs|) && undoList == Open(rs, |rs|)
      ensures done ==> rooms == RedoRooms(rs, per, |rs|) && AllLinked(rooms)
    {
      hide LogBytes, ReadHeader, Deserialize, ValidRecord, TotalLength, Offset, RedoRoom, AllLinked, Offers, Framed,
        Apply, CanApply;
      var offset := 0;
      found := true;
      ghost var n := 0;
      WholeLog(rs);
      NoRooms();
      while offset < |log|
        invariant n <= |rs| && offset == Offset(rs, n) <= |log|
        invariant rows == After(rs, n) && undoList == Open(rs, n)
        invariant rooms == RedoRooms(rs, per, n) && AllLinked(rooms)
        invariant forall i :: 0 <= i < n ==> RedoOffers(rs, per, i)
        invariant found <==> forall i :: 0 <= i < n ==> RedoFinds(rs, i)
        decreases |rs| - n
      {
        NotLast(rs, n);
        ReadAt(rs, n);
        var h := ReadHeader(log[offset..]).value;
        var r := Deserialize(log[offset..offset + h.total]).value;
        offset := offset + h.total;
        if r.kind == COMMIT || r.kind == ABORT {
          EndIsOpen(rs, n);
          assert r.tid in undoList;
        }
        var there;
        done, there := RedoRecord(r);
        if !done {
          assert !RedoOffers(rs, per, n);
          return;
        }
        found := found && there;
        assert there <==> RedoFinds(rs, n);
        n := n + 1;
      }
      LogEnds(rs, n);
      done := true;
    }

    /** Undo of one record of an open transaction. A compensation is passed over. */
    method UndoRecord(r: LogRecord) returns (done: bool, found: bool)
      requires AllLinked(rooms) && WellKinded(r) && !Ends(r)
      modifies this`rows, this`rooms, this`undoList, this`emitted
      ensures done <==> (r.kind == DELETE || r.kind == UPDATE ==> Offers(old(rooms), r.body))
      ensures found <==> (r.kind == INSERT ==> KeyOf(r.body) in old(rows))
      ensures done ==> rows == Revert(old(rows), r) && rooms == UndoRoom(old(rooms), old(rows), per, r)
                       && AllLinked(rooms)
      ensures done ==> emitted == old(emitted) + if Writes(r) then [Compensation(r)] else []
      ensures undoList == if r.kind == BEGIN then old(undoList) - {r.tid} else old(undoList)
    {
      hide AllLinked, StoreRoom, RemoveRoom, RoomOf;
      done, found := true, true;
      if r.kind == DELETE {
        done := StoreAt(KeyOf(r.body), r.body.value);
      } else if r.kind == INSERT {
        found := RemoveAt(KeyOf(r.body));
      } else if r.kind == UPDATE {
        done := StoreAt(KeyOf(r.body), r.body.before);
      } else if r.kind == BEGIN {
        undoList := undoList - {r.tid};
      }
      if done && (r.kind == DELETE || r.kind == INSERT || r.kind == UPDATE) {
        emitted := emitted + [Compensation(r)];
      }
    }

    /** Reverts the changes of open transactions, last first, and logs their compensations. It ends if
        and only if every row put back finds its page; no assertion fails if and only if every row
        removed is there. */
    method Undo(ghost rs: seq<LogRecord>) returns (done: bool, found: bool)
      requires ValidLog(rs) && log == LogBytes(rs) && Kinded(rs) && Framed(rs)
      requires |offsets| == |rs| && forall i :: 0 <= i < |rs| ==> offsets[i] == Offset(rs, i)
      requires rows == After(rs, |rs|) && rooms == RedoRooms(rs, per, |rs|) && AllLinked(rooms)
      requires undoList == Open(rs, |rs|) && emitted == []
      modifies this`rows, this`rooms, this`undoList, this`emitted
      ensures done <==> forall i :: 0 <= i < |rs| ==> UndoOffers(rs, per, i)
      ensures done ==> (found <==> forall i :: 0 <= i < |rs| ==> UndoFinds(rs, i))
      ensures done ==> rows == Recovered(rs) && rooms == UndoRooms(rs, per, 0) && emitted == Emitted(rs, 0)
    {
      hide LogBytes, ReadHeader, Deserialize, ValidRecord, Ended, Offset, AllLinked, Offers, RedoRooms, After, Back,
        UndoRooms, Open, Emitted, Begun, TotalLength, Revert, UndoRoom, Compensation, Framed;
      UndoStarts(rs, per);
      forall j | 0 <= j < |rs|
        ensures rs[j].tid in undoList <==> !Ended(rs, rs[j].tid)
      {
        OpenAt(rs, j);
      }
      var i := |offsets|;
      found := true;
      while i > 0
        invariant 0 <= i <= |rs| == |offsets|
        invariant forall j :: 0 <= j < i ==> (rs[j].tid in undoList <==> !Ended(rs, rs[j].tid))
        invariant rows == Back(rs, i) && rooms == UndoRooms(rs, per, i) && AllLinked(rooms) && emitted == Emitted(rs, i)
        invariant forall j :: i <= j < |rs| ==> UndoOffers(rs, per, j)
        invariant found <==> forall j :: i <= j < |rs| ==> UndoFinds(rs, j)
      {
        i := i - 1;
        var offset := offsets[i];
        ReadAt(rs, i);
        UndoStep(rs, per, i);
        var h := ReadHeader(log[offset..]).value;
        if h.tid in undoList {
          var r := Deserialize(log[offset..offset + h.total]).value;
          OpenRecord(rs, i);
          if r.kind == BEGIN {
            BeginIsFirst(rs, i);
          }
          var there;
          done, there := UndoRecord(r);
          if !done {
            assert !UndoOffers(rs, per, i);
            return;
          }
          found := found && there;
          assert there <==> UndoFinds(rs, i);
        } else {
          assert UndoFinds(rs, i);
        }
      }
      done := true;
    }

    /** Recovery from any log of transactions that begin before they act and do nothing after their
        end. It ends if and only if every row it stores is offered a page not before its own. */
    method Recover(ghost rs: seq<LogRecord>) returns (done: bool, found: bool)
      requires ValidLog(rs) && log == LogBytes(rs) && Framed(rs) && undoList == {} && emitted == []
      modifies this
      ensures Kinded(rs) && (done <==> AllOffered(rs, per))
      ensures done ==> (found <==> AllFound(rs))
      ensures done ==> rows == Recovered(rs) && emitted == Emitted(rs, 0)
    {
      hide LogBytes, Framed;
      ValidKinded(rs);
      hide ValidRecord, WellKinded, Recovered, Emitted, RedoOffers, UndoOffers, RedoFinds, UndoFinds;
      Analyze(rs);
      done, found := Redo(rs);
      if done {
        var there;
        done, there := Undo(rs);
        found := found && there;
      }
    }
  }

  lemma ValidKinded(rs: seq<LogRecord>)
    requires ValidLog(rs)
    ensures Kinded(rs)
  {
  }

  lemma WholeLog(rs: seq<LogRecord>)
    requires ValidLog(rs)
    ensures |LogBytes(rs)| == Offset(rs, |rs|) && Offset(rs, 0) == 0
  {
    OffsetLength(rs, |rs|);
    assert rs[..|rs|] == rs;
  }

  lemma {:induction false} OffsetGrows(rs: seq<LogRecord>, i: nat, j: nat)
    requires i < j <= |rs|
    ensures Offset(rs, i) < Offset(rs, j)
  {
    if i + 1 < j {
      OffsetGrows(rs, i, j - 1);
    }
  }

  lemma NotLast(rs: seq<LogRecord>, n: nat)
    requires n <= |rs| && Offset(rs, n) < Offset(rs, |rs|)
    ensures n < |rs|
  {
  }

  lemma LogEnds(rs: seq<LogRecord>, n: nat)
    requires n <= |rs| && Offset(rs, n) >= Offset(rs, |rs|)
    ensures n == |rs|
  {
    if n < |rs| {
      OffsetGrows(rs, n, |rs|);
    }
  }
}
