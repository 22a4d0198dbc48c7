/** What a crash leaves of a run: the work of the transactions whose COMMIT is on disk. */
module Winners {
  import opened Serial
  import opened LogCodec
  import opened Recovery
  import opened Survivors
  import opened CrashRun
  import LogWriter

  // ---- what the committed transactions did

  /** The tables as the accesses of the transactions with a COMMIT on disk alone make them. */
  ghost function WinnersDb(disk: seq<LogRecord>, events: seq<Event>, n: nat): Db
    requires n <= |events|
  {
    if n == 0 then map[]
    else if events[n - 1].Access? && Committed(disk, events[n - 1].txn) then
      Effect(WinnersDb(disk, events, n - 1), events[n - 1].op)
    else WinnersDb(disk, events, n - 1)
  }

  /** The rows are the rows of the tables. */
  ghost predicate Shows(nm: Naming, rows: Rows, db: Db) {
    forall c :: At(rows, KeyFor(nm, c)) == Enc(nm, ValueAt(db, c))
  }

  lemma {:induction false} LogGrows(nm: Naming, events: seq<Event>, n: nat, m: nat)
    requires n <= m <= |events|
    ensures LogOf(nm, events, n) <= LogOf(nm, events, m)
  {
    hide Logged;
    if n == m {
    } else {
      LogGrows(nm, events, n, m - 1);
    }
  }

  function Least(a: nat, b: nat): nat {
    if a < b then a else b
  }

  /** One is the beginning of the other. */
  predicate Along(a: seq<LogRecord>, b: seq<LogRecord>) {
    a <= b || b <= a
  }

  /** A transaction that goes on has its COMMIT, if that is on disk, behind. */
  lemma CommitComes(disk: seq<LogRecord>, before: seq<LogRecord>, out: seq<LogRecord>, t: int)
    requires Along(before + out, disk) && !Ended(before, t) && Committed(disk, t)
    ensures |before| < |disk| && before <= disk && (out != [] ==> disk[|before|] == out[0])
  {
    var c :| 0 <= c < |disk| && disk[c].kind == COMMIT && disk[c].tid == t;
    assert forall i :: 0 <= i < |before| ==> (before + out)[i] == before[i];
  }

  lemma {:induction false} RunningPart(before: seq<LogRecord>, disk: seq<LogRecord>, n: nat, k: Key)
    requires Kinded(before) && Kinded(disk) && before <= disk && n <= |before|
    ensures Running(before, n, k) == Running(disk, n, k)
  {
    if n == 0 {
    } else {
      RunningPart(before, disk, n - 1, k);
    }
  }

  /** A row that a committed transaction has its hands on is, for the committed transactions, as it is in the run. */
  lemma {:induction false} WinnerSees(nm: Naming, states: seq<State>, events: seq<Event>, n: nat,
                                      before: seq<LogRecord>, db: Db,
                                      disk: seq<LogRecord>)
    requires Distinct(nm) && Orderly(states, events) && n < |events| && n < |states| && Writer(events, n)
    requires Inv(nm, events, n, states[n], before, db) && Log(disk) && before <= disk && Committed(disk, events[n].txn)
    ensures Kinded(disk)
    ensures At(CommittedRows(disk, |before|), KeyFor(nm, CellOf(events[n].op)))
            == Enc(nm, ValueAt(db, CellOf(events[n].op)))
  {
    var c := CellOf(events[n].op);
    var k := KeyFor(nm, c);
    LogKinds(disk);
    LogKinds(before);
    CommittedAlong(disk, |before|, k);
    RunningPart(before, disk, |before|, k);
    assert Running(before, |before|, k) == Enc(nm, ValueAt(db, c));
    hide Log, Orderly, Running, CommittedRows, Mirrors, Goes;
    forall f: nat
      ensures !Held(disk, |before|, k, f)
    {
      if Held(disk, |before|, k, f) {
        HolderEnded(nm, states, events, n, before, disk, f);
      }
    }
  }

  lemma {:induction false} HolderEnded(nm: Naming, states: seq<State>, events: seq<Event>, n: nat,
                                       before: seq<LogRecord>,
                                       disk: seq<LogRecord>, f: nat)
    requires Distinct(nm) && Orderly(states, events) && n < |events| && n < |states| && Writer(events, n)
    requires Traced(nm, events, n, before) && Known(events, n, states[n], before) && Framed(before)
    requires before <= disk && Committed(disk, events[n].txn) && f < |before|
    requires First(disk, f) && KeyOf(disk[f].body) == KeyFor(nm, CellOf(events[n].op)) && !Committed(disk, disk[f].tid)
    ensures exists c :: f < c < |before| && Ends(disk[c]) && disk[c].tid == disk[f].tid
  {
    hide Orderly, Committed, HasBegin, EndsBefore;
    assert before[f] == disk[f] && Touches(before[f], KeyFor(nm, CellOf(events[n].op)));
    OthersHaveEnded(nm, states, events, n, before, f);
    EndedAfter(before, f);
    var c :| 0 <= c < |before| && f < c < |before| && Ends(before[c]) && before[c].tid == before[f].tid;
    assert disk[c] == before[c];
  }

  lemma {:induction false} RowsNext(disk: seq<LogRecord>, m: nat, k: Key)
    requires Kinded(disk) && m < |disk|
    ensures At(CommittedRows(disk, m + 1), k) ==
              if Committed(disk, disk[m].tid) && Touches(disk[m], k) then RedoValue(disk[m])
              else At(CommittedRows(disk, m), k)
  {
    CommittedNext(disk, m, k);
  }

  /** A committed transaction changes a row. */
  lemma {:induction false} WinnerWrites(nm: Naming, states: seq<State>, events: seq<Event>, n: nat,
                                        before: seq<LogRecord>, db: Db,
                                        disk: seq<LogRecord>, wins: Db)
    requires Distinct(nm) && Orderly(states, events) && n < |events| && n < |states| && db == DbOf(events, n)
    requires Inv(nm, events, n, states[n], before, db) && Log(disk) && Kinded(disk) && |before| < |disk|
             && before <= disk
    requires events[n].Access? && Committed(disk, events[n].txn) && Shows(nm, CommittedRows(disk, |before|), wins)
    requires Alters(db, events[n]) && Logs(nm, db, events[n], disk[|before|])
    ensures Shows(nm, CommittedRows(disk, |before| + 1), Effect(wins, events[n].op))
  {
    var e, r := events[n], disk[|before|];
    LogKinds(before);
    RowOf(nm, before, db, e, r);
    LogsWhat(nm, db, e, r);
    NotCompensated(disk, |before|);
    hide *;
    ShowsChange(nm, disk, |before|, db, e, wins);
  }

  lemma {:induction false} ShowsChange(nm: Naming, disk: seq<LogRecord>, m: nat, db: Db, e: Event, wins: Db)
    requires Distinct(nm) && Kinded(disk) && m < |disk| && Shows(nm, CommittedRows(disk, m), wins) && Alters(db, e)
    requires Writes(disk[m]) && Touches(disk[m], KeyFor(nm, CellOf(e.op))) && Committed(disk, disk[m].tid)
    requires RunValue(disk[m]) == Enc(nm, ValueAt(NextDb(db, e), CellOf(e.op)))
    ensures Shows(nm, CommittedRows(disk, m + 1), Effect(wins, e.op))
  {
    hide CommittedRows, Committed;
    forall c
      ensures At(CommittedRows(disk, m + 1), KeyFor(nm, c)) == Enc(nm, ValueAt(Effect(wins, e.op), c))
    {
      RowsNext(disk, m, KeyFor(nm, c));
      SameKey(nm, CellOf(e.op), c);
      assert At(CommittedRows(disk, m), KeyFor(nm, c)) == Enc(nm, ValueAt(wins, c));
    }
  }

  lemma NotCompensated(disk: seq<LogRecord>, i: nat)
    requires Log(disk) && i < |disk| && Committed(disk, disk[i].tid)
    ensures !Compensates(disk[i])
  {
  }

  /** A committed transaction reads, or removes a row that is not there. */
  lemma {:induction false} WinnerIdles(nm: Naming, states: seq<State>, events: seq<Event>, n: nat,
                                       before: seq<LogRecord>, db: Db,
                                       disk: seq<LogRecord>, wins: Db)
    requires Distinct(nm) && Orderly(states, events) && n < |events| && n < |states|
    requires Inv(nm, events, n, states[n], before, db) && Log(disk) && Kinded(disk) && before <= disk
    requires events[n].Access? && Committed(disk, events[n].txn) && Shows(nm, CommittedRows(disk, |before|), wins)
    requires !Alters(db, events[n])
    ensures Effect(wins, events[n].op) == wins
  {
    hide Orderly, Inv, Log, CommittedRows, Committed;
    var e := events[n];
    if !e.op.Scan? {
      var c := CellOf(e.op);
      WinnerSees(nm, states, events, n, before, db, disk);
      assert At(CommittedRows(disk, |before|), KeyFor(nm, c)) == Enc(nm, ValueAt(wins, c));
      assert c !in wins;
    }
  }

  /** Nothing changes for the committed transactions. */
  lemma {:induction false} SameRows(nm: Naming, disk: seq<LogRecord>, m: nat, wins: Db)
    requires Kinded(disk) && m < |disk| && Shows(nm, CommittedRows(disk, m), wins)
    requires Committed(disk, disk[m].tid) ==> !Writes(disk[m]) && !Compensates(disk[m])
    ensures Shows(nm, CommittedRows(disk, m + 1), wins)
  {
    hide CommittedRows, Committed;
    forall c
      ensures At(CommittedRows(disk, m + 1), KeyFor(nm, c)) == Enc(nm, ValueAt(wins, c))
    {
      RowsNext(disk, m, KeyFor(nm, c));
    }
  }

  /** An access of a committed transaction. */
  lemma {:induction false} WinnerEvent(nm: Naming, states: seq<State>, events: seq<Event>, n: nat, disk: seq<LogRecord>,
                                       before: seq<LogRecord>, db: Db, wins: Db, out: seq<LogRecord>)
    requires Distinct(nm) && Orderly(states, events) && n < |events| && n < |states| && db == DbOf(events, n)
    requires Inv(nm, events, n, states[n], before, db) && out == Logged(nm, db, events[n]) && Along(before + out, disk)
    requires Log(disk) && Kinded(disk) && Shows(nm, CommittedRows(disk, Least(|before|, |disk|)), wins)
    requires events[n].Access? && Committed(disk, events[n].txn)
    ensures Shows(nm, CommittedRows(disk, Least(|before + out|, |disk|)), Effect(wins, events[n].op))
  {
    hide *;
    var e := events[n];
    WinnerGoesOn(nm, states, events, n, disk, before, db, out);
    AccessLogs(nm, db, e);
    LeastIs(|before|, |disk|);
    LeastIs(|before + out|, |disk|);
    if Alters(db, e) {
      WinnerWrites(nm, states, events, n, before, db, disk, wins);
    } else {
      assert before + out == before;
      WinnerIdles(nm, states, events, n, before, db, disk, wins);
    }
  }

  lemma LeastIs(a: nat, b: nat)
    ensures a <= b ==> Least(a, b) == a
  {
  }

  lemma {:induction false} WinnerGoesOn(nm: Naming, states: seq<State>, events: seq<Event>, n: nat,
                                        disk: seq<LogRecord>, before: seq<LogRecord>, db: Db, out: seq<LogRecord>)
    requires Orderly(states, events) && n < |events| && n < |states| && Along(before + out, disk)
    requires Inv(nm, events, n, states[n], before, db) && events[n].Access? && Committed(disk, events[n].txn)
    ensures |before| < |disk| && before <= disk && (out != [] ==> disk[|before|] == out[0])
  {
    hide Inv, Along, Committed, Ended, Step, InTurn, Orderly;
    RunStep(states, events, n);
    NotEndedYet(nm, events, n, states[n], before, db);
    CommitComes(disk, before, out, events[n].txn);
  }

  lemma AccessLogs(nm: Naming, db: Db, e: Event)
    requires e.Access?
    ensures Alters(db, e) ==> |Logged(nm, db, e)| == 1 && Logs(nm, db, e, Logged(nm, db, e)[0])
    ensures !Alters(db, e) ==> Logged(nm, db, e) == []
  {
  }

  lemma LogsOne(nm: Naming, db: Db, e: Event)
    requires Logged(nm, db, e) != []
    ensures Logs(nm, db, e, Logged(nm, db, e)[0])
  {
  }

  /** Any other event. */
  lemma {:induction false} OtherEvent(nm: Naming, e: Event, disk: seq<LogRecord>, before: seq<LogRecord>, db: Db,
                                      wins: Db,
                                      out: seq<LogRecord>)
    requires out == Logged(nm, db, e) && Along(before + out, disk)
    requires Kinded(disk) && Shows(nm, CommittedRows(disk, Least(|before|, |disk|)), wins)
    requires !(e.Access? && Committed(disk, e.txn))
    ensures Shows(nm, CommittedRows(disk, Least(|before + out|, |disk|)), wins)
  {
    OneRecord(nm, db, e);
    if |before| < |disk| && out != [] {
      LogsOne(nm, db, e);
      LogsWhat(nm, db, e, out[0]);
      assert (before + out)[|before|] == out[0] && disk[|before|] == out[0];
      hide Log, CommittedRows, Logs, Shows, Committed, Logged;
      SameRows(nm, disk, |before|, wins);
    }
  }

  lemma NotEndedYet(nm: Naming, events: seq<Event>, n: nat, s: State, before: seq<LogRecord>, db: Db)
    requires n < |events| && Inv(nm, events, n, s, before, db) && events[n].txn !in s.released
    ensures !Ended(before, events[n].txn)
  {
  }

  lemma LogPart(nm: Naming, states: seq<State>, events: seq<Event>, k: nat)
    requires Distinct(nm) && Orderly(states, events) && k <= |LogOf(nm, events, |events|)|
    ensures Log(LogOf(nm, events, |events|)) && Log(LogOf(nm, events, |events|)[..k])
    ensures Kinded(LogOf(nm, events, |events|)[..k])
  {
    var rs := LogOf(nm, events, |events|);
    RunKeeps(nm, states, events, |events|);
    InvParts(nm, events, |events|, states[|events|], rs, DbOf(events, |events|));
    PrefixLog(rs, k);
    LogKinds(rs[..k]);
  }

  lemma OneRecord(nm: Naming, db: Db, e: Event)
    ensures |Logged(nm, db, e)| <= 1
  {
  }

  /** The committed rows of any part of a run's log are the tables that the committed transactions
      alone make. */
  lemma {:induction false} WinnersShow(nm: Naming, states: seq<State>, events: seq<Event>, k: nat, n: nat)
    requires Distinct(nm) && Orderly(states, events) && k <= |LogOf(nm, events, |events|)| && n <= |events|
    ensures var rs := LogOf(nm, events, |events|);
            && Kinded(rs[..k])
            && Shows(nm, CommittedRows(rs[..k], Least(|LogOf(nm, events, n)|, k)), WinnersDb(rs[..k], events, n))
  {
    hide Orderly, Logged, Inv, Shows, Log, Committed, CommittedRows, Effect, NextDb;
    var rs := LogOf(nm, events, |events|);
    LogPart(nm, states, events, k);
    if n == 0 {
      NoneShown(nm, rs[..k]);
    } else {
      WinnersShow(nm, states, events, k, n - 1);
      RunKeeps(nm, states, events, n - 1);
      LogGrows(nm, events, n, |events|);
      var before, db, e := LogOf(nm, events, n - 1), DbOf(events, n - 1), events[n - 1];
      var disk, out := rs[..k], Logged(nm, db, e);
      assert Along(before + out, disk);
      if e.Access? && Committed(disk, e.txn) {
        WinnerEvent(nm, states, events, n - 1, disk, before, db, WinnersDb(disk, events, n - 1), out);
      } else {
        OtherEvent(nm, e, disk, before, db, WinnersDb(disk, events, n - 1), out);
      }
    }
  }

  lemma NoneShown(nm: Naming, rs: seq<LogRecord>)
    requires Kinded(rs)
    ensures Shows(nm, CommittedRows(rs, 0), map[])
  {
  }

  /** After a crash at any time, with any part of the log on disk, recovery leaves the tables that the
      transactions whose COMMIT is there alone make, if and only if no aborted transaction ends what
      that part says about a row with the compensation of an insert or a delete. */
  lemma CrashSafe(nm: Naming, states: seq<State>, events: seq<Event>, k: nat)
    requires Distinct(nm) && Orderly(states, events) && k <= |LogOf(nm, events, |events|)|
    ensures var disk := LogOf(nm, events, |events|)[..k];
            && Log(disk) && Kinded(disk)
            && Shows(nm, CommittedRows(disk, k), WinnersDb(disk, events, |events|))
            && (Recovered(disk) == CommittedRows(disk, k) <==> forall i :: 0 <= i < k ==> !Stale(disk, i))
  {
    hide Log, Shows, LogOf, Recovered, Stale, Orderly;
    LogPart(nm, states, events, k);
    WinnersShow(nm, states, events, k, |events|);
    CommittedSurvive(LogOf(nm, events, |events|)[..k]);
  }

  /** When all transactions have ended, the tables are those that the committed ones alone make: aborted
      transactions leave nothing. */
  lemma {:induction false} AbortedLeaveNothing(nm: Naming, states: seq<State>, events: seq<Event>)
    requires Distinct(nm) && Orderly(states, events)
    requires forall t :: t in states[|events|].locks.txns ==> t in states[|events|].ended
    ensures var rs := LogOf(nm, events, |events|);
            forall c ::
              Enc(nm, ValueAt(DbOf(events, |events|), c)) == Enc(nm, ValueAt(WinnersDb(rs, events, |events|), c))
  {
    var n := |events|;
    var rs, db := LogOf(nm, events, n), DbOf(events, n);
    LogPart(nm, states, events, |rs|);
    assert rs[..|rs|] == rs;
    RunKeeps(nm, states, events, n);
    WinnersShow(nm, states, events, |rs|, n);
    hide Orderly, Log, LogOf, DbOf, CommittedRows, WinnersDb, Running, Goes;
    forall c
      ensures Enc(nm, ValueAt(db, c)) == Enc(nm, ValueAt(WinnersDb(rs, events, n), c))
    {
      var k := KeyFor(nm, c);
      CommittedAlong(rs, |rs|, k);
      NobodyHolds(events, states[n], rs, k);
      assert Running(rs, |rs|, k) == Enc(nm, ValueAt(db, c));
      assert At(CommittedRows(rs, |rs|), k) == Enc(nm, ValueAt(WinnersDb(rs, events, n), c));
    }
  }

  lemma NobodyHolds(events: seq<Event>, s: State, rs: seq<LogRecord>, k: Key)
    requires Log(rs) && Known(events, |events|, s, rs) && forall t :: t in s.locks.txns ==> t in s.ended
    ensures forall f: nat :: !Held(rs, |rs|, k, f)
  {
    LogKinds(rs);
    hide Log, HasBegin, EndsBefore, Committed, Framed;
    forall f: nat
      ensures !Held(rs, |rs|, k, f)
    {
      if Held(rs, |rs|, k, f) {
        HolderOpen(rs, k, f);
      }
    }
  }

  // ---- down to the bytes on disk

  /** The record without its place in the log. */
  function Bare(r: LogRecord): LogRecord {
    r.(lsn := 0, prev := 0, undoNext := 0)
  }

  /** The same records up to their numbers. */
  ghost predicate SameRecords(a: seq<LogRecord>, b: seq<LogRecord>) {
    |a| == |b| && forall i :: 0 <= i < |a| ==> Bare(a[i]) == Bare(b[i])
  }

  lemma SameAt(a: seq<LogRecord>, b: seq<LogRecord>, i: nat)
    requires SameRecords(a, b) && i < |a|
    ensures |a| == |b| && a[i].kind == b[i].kind && a[i].tid == b[i].tid && a[i].body == b[i].body
  {
    assert Bare(a[i]) == Bare(b[i]);
  }

  lemma SameAll(a: seq<LogRecord>, b: seq<LogRecord>)
    requires SameRecords(a, b)
    ensures |a| == |b|
    ensures forall i :: 0 <= i < |a| ==> a[i].kind == b[i].kind && a[i].tid == b[i].tid && a[i].body == b[i].body
  {
    forall i | 0 <= i < |a|
      ensures a[i].kind == b[i].kind && a[i].tid == b[i].tid && a[i].body == b[i].body
    {
      SameAt(a, b, i);
    }
  }

  lemma SameEnds(a: seq<LogRecord>, b: seq<LogRecord>, t: int)
    requires SameRecords(a, b)
    ensures Committed(a, t) <==> Committed(b, t)
    ensures Ended(a, t) <==> Ended(b, t)
  {
    SameAll(a, b);
  }

  lemma SameFramed(a: seq<LogRecord>, b: seq<LogRecord>)
    requires SameRecords(a, b) && Framed(a)
    ensures Framed(b)
  {
    SameAll(a, b);
    hide SameRecords;
    forall i | 0 <= i < |b|
      ensures Begun(b, b[i], i)
    {
      assert Begun(a, a[i], i);
      if a[i].kind != BEGIN {
        var x :| 0 <= x < i && a[x].kind == BEGIN && a[x].tid == a[i].tid;
        assert b[x].kind == BEGIN && b[x].tid == b[i].tid;
      }
    }
  }

  lemma SameLocked(a: seq<LogRecord>, b: seq<LogRecord>)
    requires SameRecords(a, b) && Locked(a)
    ensures Locked(b)
  {
    SameAll(a, b);
    hide SameRecords;
    forall i, j | 0 <= i < j < |b| && SameRow(b[i], b[j]) && b[i].tid != b[j].tid
      ensures EndBetween(b, b[i].tid, i, j)
    {
      assert SameRow(a[i], a[j]) && EndBetween(a, a[i].tid, i, j);
      var c :| 0 <= c < |a| && i < c < j && Ends(a[c]) && a[c].tid == a[i].tid;
      assert Ends(b[c]) && b[c].tid == b[i].tid;
    }
  }

  lemma SameOwned(a: seq<LogRecord>, b: seq<LogRecord>)
    requires SameRecords(a, b) && Owned(a)
    ensures Owned(b)
  {
    SameAll(a, b);
    forall j | 0 <= j < |b| && Compensates(b[j])
      ensures !Committed(b, b[j].tid) && HasChanged(b, j)
    {
      assert Compensates(a[j]) && HasChanged(a, j);
      SameEnds(a, b, b[j].tid);
      var i :| 0 <= i < j && Writes(a[i]) && a[i].tid == a[j].tid && SameRow(a[i], a[j]);
      assert Writes(b[i]) && SameRow(b[i], b[j]);
    }
  }

  lemma SameKinded(a: seq<LogRecord>, b: seq<LogRecord>)
    requires SameRecords(a, b) && Kinded(a)
    ensures Kinded(b)
  {
    SameAll(a, b);
    hide SameRecords;
    forall i | 0 <= i < |b|
      ensures WellKinded(b[i])
    {
      assert WellKinded(a[i]);
    }
  }

  lemma {:induction false} SameRunning(a: seq<LogRecord>, b: seq<LogRecord>, n: nat, k: Key)
    requires SameRecords(a, b) && Kinded(a) && Kinded(b) && n <= |a|
    ensures n <= |b| && Running(a, n, k) == Running(b, n, k)
  {
    if n == 0 {
    } else {
      SameAt(a, b, n - 1);
      SameRunning(a, b, n - 1, k);
    }
  }

  lemma SameFirst(a: seq<LogRecord>, b: seq<LogRecord>, f: nat)
    requires SameRecords(a, b) && f < |a|
    ensures f < |b| && (First(a, f) <==> First(b, f))
  {
    SameAll(a, b);
  }

  lemma SameValues(a: seq<LogRecord>, b: seq<LogRecord>)
    requires SameRecords(a, b) && Kinded(a) && Kinded(b) && Possible(a) && PutBack(a)
    ensures Possible(b) && PutBack(b)
  {
    SameAll(a, b);
    hide Running;
    forall i | 0 <= i < |b| && Writes(b[i])
      ensures Running(b, i, KeyOf(b[i].body)) == OldValue(b[i])
    {
      SameRunning(a, b, i, KeyOf(b[i].body));
      assert Writes(a[i]);
    }
    forall f, c | 0 <= f < c < |b| && b[c].kind == ABORT && b[f].tid == b[c].tid && First(b, f)
      ensures Running(b, c, KeyOf(b[f].body)) == OldValue(b[f])
    {
      SameFirst(a, b, f);
      SameRunning(a, b, c, KeyOf(b[f].body));
      assert First(a, f) && a[c].kind == ABORT;
    }
  }

  /** Being such a log does not depend on the numbers in the records. */
  lemma SameLog(a: seq<LogRecord>, b: seq<LogRecord>)
    requires SameRecords(a, b) && Log(a)
    ensures Log(b)
  {
    hide SameRecords, Kinded, Framed, Locked, Owned, Possible, PutBack;
    SameKinded(a, b);
    SameFramed(a, b);
    SameLocked(a, b);
    SameOwned(a, b);
    SameValues(a, b);
  }

  lemma {:induction false} SameCommittedRows(a: seq<LogRecord>, b: seq<LogRecord>, n: nat)
    requires SameRecords(a, b) && Kinded(a) && Kinded(b) && n <= |a|
    ensures n <= |b| && CommittedRows(a, n) == CommittedRows(b, n)
  {
    hide Committed;
    if n == 0 {
    } else {
      SameCommittedRows(a, b, n - 1);
      SameAt(a, b, n - 1);
      SameEnds(a, b, a[n - 1].tid);
    }
  }

  /** A crash after any part of a run has been logged, with whatever part of that is in the log file,
      and the restart: recovery from the bytes of the file ends if and only if every row it stores
      finds its page. Then its rows are the tables that the transactions with a COMMIT in the file alone
      make if and only if no aborted transaction ends what the file says about a row with the
      compensation of an insert or a delete. */
  method Restart(nm: Naming, ghost states: seq<State>, ghost events: seq<Event>, lm: LogWriter.LogManager,
                 per: Recovery.Table -> nat)
    returns (done: bool, rows: Rows)
    requires Distinct(nm) && Orderly(states, events)
    requires lm.Valid() && SameRecords(lm.written, LogOf(nm, events, |events|))
    ensures var disk := lm.written[..lm.flushed];
            && Kinded(disk) && (done <==> AllOffered(disk, per))
            && Shows(nm, CommittedRows(disk, |disk|),
                     WinnersDb(LogOf(nm, events, |events|)[..lm.flushed], events, |events|))
            && (done ==> (rows == CommittedRows(disk, |disk|) <==> forall i :: 0 <= i < |disk| ==> !Stale(disk, i)))
  {
    ghost var rs, disk := LogOf(nm, events, |events|)[..lm.flushed], lm.written[..lm.flushed];
    assert SameRecords(rs, disk) && SameRecords(disk, rs);
    assert lm.disk == LogBytes(disk) && ValidLog(disk);
    CrashSafe(nm, states, events, lm.flushed);
    hide Log, Shows, LogOf, AllOffered, LogBytes, ValidRecord, SameRecords, Stale, Orderly, CommittedRows, WinnersDb,
      Kinded;
    SameLog(rs, disk);
    LogKinds(disk);
    SameCommittedRows(rs, disk, lm.flushed);
    var rm := new RecoveryManager(lm.disk, per);
    var found;
    done, found := RecoverLog(rm, disk);
    rows := rm.rows;
  }
}
