/** When redo of a log ends, read off the run that wrote the log. */
module Replay {
  import opened FreeSpace
  import opened Following
  import opened LogCodec
  import opened Recovery
  import opened Survivors
  import opened Restarts

  // ---- the run that wrote the log

  /** What the executors did to the free space: an insert fills the page it was offered, an update
      stays in its slot. */
  function MadeRoom(rooms: Rooms, per: Table -> nat, r: LogRecord): Rooms
    requires WellKinded(r)
  {
    if r.kind == INSERT then PutIn(rooms, per, KeyOf(r.body), false)
    else if r.kind == DELETE then TakeFrom(rooms, per, KeyOf(r.body))
    else rooms
  }

  ghost function MadeRooms(rs: seq<LogRecord>, per: Table -> nat, n: nat): Rooms
    requires Kinded(rs) && n <= |rs|
  {
    if n == 0 then map[] else MadeRoom(MadeRooms(rs, per, n - 1), per, rs[n - 1])
  }

  /** The page that record `i`'s table had to offer when the record was written. */
  ghost function OfferedAt(rs: seq<LogRecord>, per: Table -> nat, i: nat): int
    requires Kinded(rs) && i < |rs| && !rs[i].body.NoBody?
  {
    Offered(RoomOf(MadeRooms(rs, per, i), rs[i].body.table))
  }

  /** Rows were inserted where the files offered room. */
  ghost predicate Written(rs: seq<LogRecord>, per: Table -> nat)
    requires Kinded(rs)
  {
    && (forall t :: per(t) >= 1)
    && (forall i :: 0 <= i < |rs| && rs[i].kind == INSERT ==> rs[i].body.pageNo == OfferedAt(rs, per, i))
  }

  /** Nothing was taken back. */
  ghost predicate Straight(rs: seq<LogRecord>) {
    Log(rs) && forall i :: 0 <= i < |rs| ==> !Compensates(rs[i])
  }

  /** Redo finds rows as the run found them. */
  lemma RedoEnabled(rs: seq<LogRecord>, i: nat)
    requires Straight(rs) && i < |rs|
    ensures Kinded(rs) && Enabled(After(rs, i), rs[i])
  {
    hide Framed, Locked, Owned, PutBack, Running, After;
    if Writes(rs[i]) {
      NeverMisled(rs, i, KeyOf(rs[i].body));
      RedoAt(rs, i, KeyOf(rs[i].body));
    }
  }

  // ---- the replayed free space follows the original

  /** Rows are on pages of their files. */
  ghost predicate OnPages(rows: Rows, rooms: Rooms) {
    forall k :: k in rows ==> k.1 in RoomOf(rooms, k.0).num
  }

  ghost predicate AllLike(made: Rooms, redone: Rooms, per: Table -> nat) {
    forall t :: Like(RoomOf(made, t), RoomOf(redone, t), per(t))
  }

  lemma NothingYet(per: Table -> nat)
    requires forall t :: per(t) >= 1
    ensures AllLike(map[], map[], per)
  {
    forall t
      ensures Like(RoomOf(map[], t), RoomOf(map[], t), per(t))
    {
      FollowsSelf(NEW_FILE, per(t), []);
    }
  }

  lemma LikeAt(made: Rooms, redone: Rooms, per: Table -> nat, t: Table) returns (list: seq<int>, tail: seq<int>)
    requires AllLike(made, redone, per)
    ensures Follows(RoomOf(made, t), RoomOf(redone, t), per(t), list, tail)
  {
    list, tail :| Follows(RoomOf(made, t), RoomOf(redone, t), per(t), list, tail);
  }

  /** One record, in the original and in the replay. */
  lemma RecordFollows(made: Rooms, redone: Rooms, per: Table -> nat, rows: Rows, r: LogRecord)
    requires AllLike(made, redone, per) && OnPages(rows, made) && (forall t :: per(t) >= 1)
    requires WellKinded(r) && Enabled(rows, r) && !Compensates(r)
    requires r.kind == INSERT ==> r.body.pageNo == Offered(RoomOf(made, r.body.table))
    ensures AllLike(MadeRoom(made, per, r), RedoRoom(redone, rows, per, r), per)
    ensures OnPages(Apply(rows, r), MadeRoom(made, per, r))
  {
    hide Like, Put, Take;
    if Writes(r) {
      var t, k, n := r.body.table, r.body.pageNo, per(r.body.table);
      var o, s := RoomOf(made, t), RoomOf(redone, t);
      var list, tail := LikeAt(made, redone, per, t);
      PagesFollow(made, per, rows, r);
      hide OnPages;
      if r.kind == INSERT {
        NewFollows(o, s, n, list, tail, k);
      } else if r.kind == DELETE {
        TakeFollows(o, s, n, list, tail, k);
      } else {
        UsedFollows(o, s, n, list, tail, k);
      }
    }
  }

  lemma PagesFollow(made: Rooms, per: Table -> nat, rows: Rows, r: LogRecord)
    requires OnPages(rows, made) && WellKinded(r) && Enabled(rows, r) && Writes(r)
    requires Linked(RoomOf(made, r.body.table))
    requires r.kind == INSERT ==> r.body.pageNo == Offered(RoomOf(made, r.body.table))
    ensures OnPages(Apply(rows, r), MadeRoom(made, per, r))
  {
    hide Put, Take, Linked;
    var t, page := r.body.table, r.body.pageNo;
    if r.kind == INSERT {
      PutKeeps(RoomOf(made, t), per(t), page);
    }
    TakeKeeps(RoomOf(made, t), per(t), page);
    var made' := MadeRoom(made, per, r);
    forall q | q in RoomOf(made, t).num
      ensures q in RoomOf(made', t).num
    {
    }
    forall k | k in Apply(rows, r)
      ensures k.1 in RoomOf(made', k.0).num
    {
      if k in rows {
        assert k.1 in RoomOf(made, k.0).num;
      }
    }
  }

  lemma PutKeeps(s: Space, n: int, k: int)
    requires Linked(s) && k == Offered(s)
    ensures k in Put(s, n, k, false).num && forall q :: q in s.num ==> q in Put(s, n, k, false).num
  {
  }

  lemma TakeKeeps(s: Space, n: int, k: int)
    ensures forall q :: q in s.num ==> q in Take(s, n, k).num
  {
  }

  lemma {:induction false} ReplayFollows(rs: seq<LogRecord>, per: Table -> nat, n: nat)
    requires Straight(rs) && Written(rs, per) && n <= |rs|
    ensures AllLike(MadeRooms(rs, per, n), RedoRooms(rs, per, n), per) && OnPages(After(rs, n), MadeRooms(rs, per, n))
  {
    hide AllLike, OnPages, MadeRoom, RedoRoom, Apply, Enabled, Framed, Locked, Owned, PutBack, Possible;
    if n == 0 {
      NothingYet(per);
      NoRows();
    } else {
      ReplayFollows(rs, per, n - 1);
      RedoEnabled(rs, n - 1);
      RecordFollows(MadeRooms(rs, per, n - 1), RedoRooms(rs, per, n - 1), per, After(rs, n - 1), rs[n - 1]);
    }
  }

  lemma NoRows()
    ensures OnPages(map[], map[])
  {
  }

  /** Redo is offered what the original was offered at the same record. */
  lemma SameOffers(rs: seq<LogRecord>, per: Table -> nat, i: nat)
    requires Straight(rs) && Written(rs, per) && i < |rs| && !rs[i].body.NoBody?
    ensures Offered(RoomOf(RedoRooms(rs, per, i), rs[i].body.table)) == OfferedAt(rs, per, i)
  {
    hide Follows;
    var t := rs[i].body.table;
    ReplayFollows(rs, per, i);
    var list, tail := LikeAt(MadeRooms(rs, per, i), RedoRooms(rs, per, i), per, t);
    SameOffer(RoomOf(MadeRooms(rs, per, i), t), RoomOf(RedoRooms(rs, per, i), t), per(t), list, tail);
  }

  /** An update was made while its file offered a page not before the page of the row. */
  ghost predicate UpdateOffered(rs: seq<LogRecord>, per: Table -> nat, i: nat)
    requires Kinded(rs) && i < |rs|
  {
    rs[i].kind == UPDATE ==> OfferedAt(rs, per, i) >= rs[i].body.pageNo
  }

  /** Redo of a log ends if and only if every logged update was made while its file offered a page
      not before the page of the row. */
  lemma RedoEnds(rs: seq<LogRecord>, per: Table -> nat)
    requires Straight(rs) && Written(rs, per)
    ensures Kinded(rs)
    ensures (forall i :: 0 <= i < |rs| ==> RedoOffers(rs, per, i)) <==>
              forall i :: 0 <= i < |rs| ==> UpdateOffered(rs, per, i)
  {
    hide RoomOf, RedoRooms, MadeRooms;
    forall i | 0 <= i < |rs|
      ensures RedoOffers(rs, per, i) <==> UpdateOffered(rs, per, i)
    {
      assert !Compensates(rs[i]);
      if !rs[i].body.NoBody? {
        SameOffers(rs, per, i);
      }
    }
  }

  /** A log without updates always replays. */
  lemma InsertsAndDeletesReplay(rs: seq<LogRecord>, per: Table -> nat)
    requires Straight(rs) && Written(rs, per) && forall i :: 0 <= i < |rs| ==> rs[i].kind != UPDATE
    ensures Kinded(rs) && forall i :: 0 <= i < |rs| ==> RedoOffers(rs, per, i)
  {
    RedoEnds(rs, per);
  }

  // ---- a log that never replays

  const TAB: Table := [65]

  function One(t: Table): nat {
    1
  }

  function BadRecord(kind: LogType, lsn: int, body: Body): LogRecord {
    LogRecord(kind, lsn, 1, lsn - 1, -1, body)
  }

  /** With one record to a page: two inserts, the first row deleted, the second updated, COMMIT. */
  function BadLog(): seq<LogRecord> {
    [ BadRecord(BEGIN, 0, NoBody),
      BadRecord(INSERT, 1, Row([1], 1, 0, TAB)),
      BadRecord(INSERT, 2, Row([2], 2, 0, TAB)),
      BadRecord(DELETE, 3, Row([1], 1, 0, TAB)),
      BadRecord(UPDATE, 4, Change([2], [3], 2, 0, TAB)),
      BadRecord(COMMIT, 5, NoBody) ]
  }

  lemma BadPossible(rs: seq<LogRecord>)
    requires rs == BadLog()
    ensures Kinded(rs) && Possible(rs)
  {
    var a, b := (TAB, 1, 0), (TAB, 2, 0);
    assert a != b && |rs| == 6 && Kinded(rs);
    assert !Touches(rs[0], a) && !Touches(rs[0], b) && Touches(rs[1], a) && !Touches(rs[1], b);
    assert !Touches(rs[2], a) && Touches(rs[2], b) && !Touches(rs[3], b);
    assert RunValue(rs[1]) == Some([1]) && RunValue(rs[2]) == Some([2]);
    hide Touches, RunValue;
    assert Running(rs, 1, a) == None && Running(rs, 1, b) == None;
    assert Running(rs, 2, a) == Some([1]) && Running(rs, 2, b) == None;
    assert Running(rs, 3, a) == Some([1]) && Running(rs, 3, b) == Some([2]);
    assert Running(rs, 4, b) == Some([2]);
  }

  /** It is a log that the system can write. */
  lemma BadLogIsLog()
    ensures Straight(BadLog())
  {
    hide Possible;
    BadPossible(BadLog());
    OneTransaction(BadLog(), 1);
  }

  lemma OneTransaction(rs: seq<LogRecord>, t: int)
    requires |rs| >= 2 && forall i :: 0 <= i < |rs| ==> rs[i].tid == t
    requires rs[0].kind == BEGIN && rs[|rs| - 1].kind == COMMIT && forall i :: 0 < i < |rs| - 1 ==> Writes(rs[i])
    ensures Framed(rs) && Locked(rs)
  {
    forall i | 0 <= i < |rs|
      ensures Begun(rs, rs[i], i)
    {
      if i > 0 {
        assert 0 <= 0 < i && rs[0].kind == BEGIN && rs[0].tid == rs[i].tid;
      }
    }
  }

  lemma BadRooms()
    ensures Kinded(BadLog()) && MadeRooms(BadLog(), One, 1) == map[]
    ensures MadeRooms(BadLog(), One, 2) == map[TAB := FullPages(1)]
    ensures MadeRooms(BadLog(), One, 3) == map[TAB := FullPages(2)]
    ensures RedoRooms(BadLog(), One, 4) == map[TAB := Take(FullPages(2), 1, 1)]
  {
    hide Put, Take;
    var rs := BadLog();
    assert FullPages(1) == Put(NEW_FILE, 1, 1, false) && FullPages(2) == Put(FullPages(1), 1, 2, false);
    assert MadeRooms(rs, One, 1) == map[] && RedoRooms(rs, One, 1) == map[];
    assert RedoRooms(rs, One, 2) == map[TAB := FullPages(1)];
    assert RedoRooms(rs, One, 3) == map[TAB := FullPages(2)];
  }

  /** When redo comes to the update of page 2, page 1 heads the list, and the search never ends. */
  lemma BadLogNeverReplays()
    ensures Straight(BadLog()) && Written(BadLog(), One)
    ensures !RedoOffers(BadLog(), One, 4) && !AllOffered(BadLog(), One)
    ensures !exists i: nat :: Asked(RoomOf(RedoRooms(BadLog(), One, 4), TAB), i) >= 2
  {
    hide Straight, MadeRooms, RedoRooms, Take;
    BadLogIsLog();
    BadRooms();
    FullPagesAre(1);
    SearchNever(2, 1, 2);
    SearchEnds(Take(FullPages(2), 1, 1), 2);
  }
}
