/** The free space of the files along a run, and what its log says about it. */
module FileRooms {
  import opened Serial
  import opened FreeSpace
  import opened LogCodec
  import opened Recovery
  import opened Survivors
  import opened Replay
  import opened CrashRun

  type Files = map<int, Space>

  function FileRoom(files: Files, fd: int): Space {
    if fd in files then files[fd] else NEW_FILE
  }

  /** What an event does to the free space: an insert takes a place, a delete gives one back. */
  function NextFiles(files: Files, per: int -> nat, db: Db, e: Event): Files {
    if !Alters(db, e) then files
    else
      var c := CellOf(e.op);
      if e.op.Remove? then files[c.0 := Take(FileRoom(files, c.0), per(c.0), c.1)]
      else if c in db then files
      else files[c.0 := FreeSpace.Put(FileRoom(files, c.0), per(c.0), c.1, false)]
  }

  ghost function FilesOf(events: seq<Event>, per: int -> nat, n: nat): Files
    requires n <= |events|
  {
    if n == 0 then map[] else NextFiles(FilesOf(events, per, n - 1), per, DbOf(events, n - 1), events[n - 1])
  }

  /** The event inserts a row. */
  predicate Inserts(db: Db, e: Event) {
    Alters(db, e) && e.op.Put? && CellOf(e.op) !in db
  }

  /** Rows are inserted in the page that the file offers, which is what inserting into a heap file does,
      and nothing is rolled back. */
  ghost predicate Placed(events: seq<Event>, per: int -> nat) {
    && (forall fd :: per(fd) >= 1)
    && (forall n :: 0 <= n < |events| && events[n].Access? ==> !events[n].back)
    && (forall n :: 0 <= n < |events| && Inserts(DbOf(events, n), events[n]) ==> PlacedAt(events, per, n))
  }

  ghost predicate PlacedAt(events: seq<Event>, per: int -> nat, n: nat)
    requires n < |events| && Inserts(DbOf(events, n), events[n])
  {
    events[n].op.pageNo == Offered(FileRoom(FilesOf(events, per, n), events[n].op.fd))
  }

  /** The same numbers of slots, by file and by name. */
  ghost predicate SameSlots(nm: Naming, per: int -> nat, named: Recovery.Table -> nat) {
    (forall fd :: named(nm.name(fd)) == per(fd)) && forall t :: named(t) >= 1
  }

  /** The free space that the log tells of is that of the files. */
  ghost predicate Agree(nm: Naming, rooms: Rooms, files: Files) {
    forall fd :: RoomOf(rooms, nm.name(fd)) == FileRoom(files, fd)
  }

  lemma {:induction false} MadeExtends(rs: seq<LogRecord>, r: LogRecord, named: Recovery.Table -> nat, n: nat)
    requires Kinded(rs) && Kinded(rs + [r]) && n <= |rs|
    ensures MadeRooms(rs + [r], named, n) == MadeRooms(rs, named, n)
  {
    if n == 0 {
    } else {
      MadeExtends(rs, r, named, n - 1);
    }
  }

  lemma AgreeNext(nm: Naming, rooms: Rooms, files: Files, per: int -> nat, named: Recovery.Table -> nat, db: Db,
                  e: Event,
                  r: LogRecord)
    requires Distinct(nm) && SameSlots(nm, per, named) && Agree(nm, rooms, files) && Logs(nm, db, e, r) && WellKinded(r)
    requires e.Access? ==> !e.back
    ensures Agree(nm, MadeRoom(rooms, named, r), NextFiles(files, per, db, e))
  {
    LogsWhat(nm, db, e, r);
    hide FreeSpace.Put, Take;
    forall fd
      ensures RoomOf(MadeRoom(rooms, named, r), nm.name(fd)) == FileRoom(NextFiles(files, per, db, e), fd)
    {
      assert RoomOf(rooms, nm.name(fd)) == FileRoom(files, fd);
      if Alters(db, e) {
        assert nm.name(fd) == nm.name(CellOf(e.op).0) ==> fd == CellOf(e.op).0;
      }
    }
  }

  lemma {:induction false} RoomsAgree(nm: Naming, states: seq<State>, events: seq<Event>, per: int -> nat,
                                      named: Recovery.Table -> nat, n: nat)
    requires Distinct(nm) && Orderly(states, events) && SameSlots(nm, per, named) && Placed(events, per)
             && n <= |events|
    ensures Kinded(LogOf(nm, events, n))
    ensures Agree(nm, MadeRooms(LogOf(nm, events, n), named, |LogOf(nm, events, n)|), FilesOf(events, per, n))
    ensures Written(LogOf(nm, events, n), named)
  {
    hide *;
    RunKinded(nm, states, events, n);
    if n == 0 {
      NothingMade(nm, events, per, named);
    } else {
      LogStep(nm, events, n - 1);
      RoomsAgree(nm, states, events, per, named, n - 1);
      RunKinded(nm, states, events, n - 1);
      RecordAgrees(nm, events, per, named, n - 1, LogOf(nm, events, n - 1), LogOf(nm, events, n));
    }
  }

  lemma LogStep(nm: Naming, events: seq<Event>, n: nat)
    requires n < |events|
    ensures LogOf(nm, events, n + 1) == LogOf(nm, events, n) + Logged(nm, DbOf(events, n), events[n])
  {
  }

  lemma NothingMade(nm: Naming, events: seq<Event>, per: int -> nat, named: Recovery.Table -> nat)
    requires SameSlots(nm, per, named) && Kinded(LogOf(nm, events, 0))
    ensures Agree(nm, MadeRooms(LogOf(nm, events, 0), named, |LogOf(nm, events, 0)|), FilesOf(events, per, 0))
    ensures Written(LogOf(nm, events, 0), named)
  {
  }

  lemma RunKinded(nm: Naming, states: seq<State>, events: seq<Event>, n: nat)
    requires Distinct(nm) && Orderly(states, events) && n <= |events|
    ensures Log(LogOf(nm, events, n)) && Kinded(LogOf(nm, events, n))
  {
    hide Orderly, Inv, LogOf, Log;
    RunKeeps(nm, states, events, n);
    InvParts(nm, events, n, states[n], LogOf(nm, events, n), DbOf(events, n));
    LogKinds(LogOf(nm, events, n));
  }

  lemma {:induction false} RecordAgrees(nm: Naming, events: seq<Event>, per: int -> nat, named: Recovery.Table -> nat,
                                        n: nat,
                                        rs: seq<LogRecord>, ls: seq<LogRecord>)
    requires Distinct(nm) && SameSlots(nm, per, named) && Placed(events, per) && n < |events|
    requires ls == rs + Logged(nm, DbOf(events, n), events[n]) && Kinded(rs) && Kinded(ls)
    requires Agree(nm, MadeRooms(rs, named, |rs|), FilesOf(events, per, n)) && Written(rs, named)
    ensures Agree(nm, MadeRooms(ls, named, |ls|), FilesOf(events, per, n + 1)) && Written(ls, named)
  {
    hide *;
    var db, e := DbOf(events, n), events[n];
    var files, out := FilesOf(events, per, n), Logged(nm, db, e);
    FilesNext(nm, events, per, n);
    if out == [] {
      assert ls == rs;
    } else {
      var r := out[0];
      assert ls == rs + [r];
      MadeNext(rs, r, named);
      AgreeNext(nm, MadeRooms(rs, named, |rs|), files, per, named, db, e, r);
      OfferAgrees(nm, MadeRooms(rs, named, |rs|), events, per, n, r);
      WrittenNext(rs, r, named);
    }
  }

  lemma FilesNext(nm: Naming, events: seq<Event>, per: int -> nat, n: nat)
    requires n < |events| && Placed(events, per)
    ensures FilesOf(events, per, n + 1) == NextFiles(FilesOf(events, per, n), per, DbOf(events, n), events[n])
    ensures events[n].Access? ==> !events[n].back
    ensures var out := Logged(nm, DbOf(events, n), events[n]);
            if out == [] then FilesOf(events, per, n + 1) == FilesOf(events, per, n)
            else |out| == 1 && Logs(nm, DbOf(events, n), events[n], out[0])
  {
  }

  lemma MadeNext(rs: seq<LogRecord>, r: LogRecord, named: Recovery.Table -> nat)
    requires Kinded(rs) && Kinded(rs + [r])
    ensures WellKinded(r)
    ensures MadeRooms(rs + [r], named, |rs + [r]|) == MadeRoom(MadeRooms(rs, named, |rs|), named, r)
  {
    assert (rs + [r])[|rs|] == r;
    MadeExtends(rs, r, named, |rs|);
  }

  lemma OfferAgrees(nm: Naming, rooms: Rooms, events: seq<Event>, per: int -> nat, n: nat, r: LogRecord)
    requires n < |events| && Placed(events, per) && Agree(nm, rooms, FilesOf(events, per, n))
    requires Logs(nm, DbOf(events, n), events[n], r)
    ensures r.kind == INSERT ==> r.body.Row? && r.body.pageNo == Offered(RoomOf(rooms, r.body.table))
  {
    hide Offered, FilesOf, DbOf;
    if r.kind == INSERT {
      assert Inserts(DbOf(events, n), events[n]);
      assert PlacedAt(events, per, n);
    }
  }

  lemma WrittenNext(rs: seq<LogRecord>, r: LogRecord, named: Recovery.Table -> nat)
    requires Kinded(rs) && Kinded(rs + [r]) && Written(rs, named)
    requires r.kind == INSERT ==> r.body.Row?
    requires r.kind == INSERT ==> r.body.pageNo == Offered(RoomOf(MadeRooms(rs, named, |rs|), r.body.table))
    ensures Written(rs + [r], named)
  {
    hide MadeRooms, RoomOf, Offered;
    var ls := rs + [r];
    forall i | 0 <= i < |ls| && ls[i].kind == INSERT
      ensures ls[i].body.pageNo == OfferedAt(ls, named, i)
    {
      MadeExtends(rs, r, named, i);
      assert i < |rs| ==> ls[i] == rs[i];
    }
  }

  /** Redo of the log of a run whose inserts went where the files offered room ends if and only if every
      update was made while its file offered a page not before the page of the row. */
  lemma RunReplays(nm: Naming, states: seq<State>, events: seq<Event>, per: int -> nat, named: Recovery.Table -> nat)
    requires Distinct(nm) && Orderly(states, events) && SameSlots(nm, per, named) && Placed(events, per)
    ensures var rs := LogOf(nm, events, |events|);
            && Straight(rs) && Kinded(rs)
            && ((forall i :: 0 <= i < |rs| ==> RedoOffers(rs, named, i)) <==>
                forall i :: 0 <= i < |rs| ==> UpdateOffered(rs, named, i))
  {
    var rs := LogOf(nm, events, |events|);
    RunKinded(nm, states, events, |events|);
    hide Orderly, LogOf, Log, RedoOffers, UpdateOffered, SameSlots;
    RoomsAgree(nm, states, events, per, named, |events|);
    NothingBack(nm, events, |events|, per);
    RedoEnds(rs, named);
  }

  lemma {:induction false} NothingBack(nm: Naming, events: seq<Event>, n: nat, per: int -> nat)
    requires Placed(events, per) && n <= |events|
    ensures forall i :: 0 <= i < |LogOf(nm, events, n)| ==> !Compensates(LogOf(nm, events, n)[i])
  {
    if n == 0 {
    } else {
      NothingBack(nm, events, n - 1, per);
      var db, e := DbOf(events, n - 1), events[n - 1];
      hide DbOf, Placed;
      if Logged(nm, db, e) != [] {
        assert Logs(nm, db, e, Logged(nm, db, e)[0]);
        LogsWhat(nm, db, e, Logged(nm, db, e)[0]);
      }
    }
  }
}
