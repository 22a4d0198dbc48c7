/** Recovering again, and the assertions that a recovery meets. */
module Restarts {
  import opened LogCodec
  import opened Recovery
  import opened Survivors

  // ---- a second recovery

  /** Undo of an open transaction may have logged these: compensations in rows that it has changed. */
  ghost predicate Leftover(rs: seq<LogRecord>, r: LogRecord) {
    Compensates(r) && WellKinded(r) && exists i :: 0 <= i < |rs| && LeftBy(rs, r, i)
  }

  ghost predicate LeftBy(rs: seq<LogRecord>, r: LogRecord, i: nat)
    requires i < |rs|
  {
    rs[i].tid == r.tid && !r.body.NoBody? && LostChange(rs, KeyOf(r.body), i)
  }

  ghost predicate Leftovers(rs: seq<LogRecord>, cs: seq<LogRecord>) {
    forall j :: 0 <= j < |cs| ==> Leftover(rs, cs[j])
  }

  lemma {:induction false} EmittedLeft(rs: seq<LogRecord>, k: nat)
    requires Kinded(rs) && k <= |rs|
    ensures Leftovers(rs, Emitted(rs, k))
    decreases |rs| - k
  {
    hide Ended;
    if k == |rs| {
    } else {
      EmittedLeft(rs, k + 1);
      if !Ended(rs, rs[k].tid) && Writes(rs[k]) {
        assert LeftBy(rs, Compensation(rs[k]), k);
      }
    }
  }

  lemma EndedStays(rs: seq<LogRecord>, cs: seq<LogRecord>, t: int)
    requires Leftovers(rs, cs)
    ensures Ended(rs + cs, t) <==> Ended(rs, t)
  {
    hide LeftBy;
    var ls := rs + cs;
    if c :| 0 <= c < |rs| && Ends(rs[c]) && rs[c].tid == t {
      assert Ends(ls[c]) && ls[c].tid == t;
    }
    if c :| 0 <= c < |ls| && Ends(ls[c]) && ls[c].tid == t {
      assert c >= |rs| ==> Leftover(rs, cs[c - |rs|]);
    }
  }

  lemma LostStays(rs: seq<LogRecord>, cs: seq<LogRecord>, k: Key, i: nat)
    requires Leftovers(rs, cs) && i < |rs + cs|
    ensures LostChange(rs + cs, k, i) <==> i < |rs| && LostChange(rs, k, i)
  {
    hide LeftBy, Ended;
    EndedStays(rs, cs, (rs + cs)[i].tid);
    assert i >= |rs| ==> Leftover(rs, cs[i - |rs|]);
  }

  /** Rows that are not lost are not touched. */
  lemma {:induction false} TailLeaves(rs: seq<LogRecord>, cs: seq<LogRecord>, n: nat, k: Key)
    requires Kinded(rs) && Kinded(rs + cs) && Leftovers(rs, cs) && !Lost(rs, k) && n <= |cs|
    ensures At(After(rs + cs, |rs| + n), k) == At(After(rs, |rs|), k)
  {
    hide WellKinded;
    if n == 0 {
      SameAfter(rs, cs, |rs|);
    } else {
      TailLeaves(rs, cs, n - 1, k);
      assert Leftover(rs, cs[n - 1]) && (rs + cs)[|rs| + n - 1] == cs[n - 1];
      ApplyAt(After(rs + cs, |rs| + n - 1), cs[n - 1], k);
    }
  }

  lemma {:induction false} SameAfter(rs: seq<LogRecord>, cs: seq<LogRecord>, n: nat)
    requires Kinded(rs) && Kinded(rs + cs) && n <= |rs|
    ensures After(rs + cs, n) == After(rs, n)
  {
    if n == 0 {
    } else {
      SameAfter(rs, cs, n - 1);
    }
  }

  lemma LeftKinded(rs: seq<LogRecord>, cs: seq<LogRecord>)
    requires Kinded(rs) && Leftovers(rs, cs)
    ensures Kinded(rs + cs)
  {
    hide LeftBy;
    forall i | 0 <= i < |rs + cs|
      ensures WellKinded((rs + cs)[i])
    {
      assert i >= |rs| ==> Leftover(rs, cs[i - |rs|]);
    }
  }

  /** A log with what one or more recoveries have left, whole or in part, is recovered to the same rows. */
  lemma RecoveredAgain(rs: seq<LogRecord>, cs: seq<LogRecord>)
    requires Kinded(rs) && Leftovers(rs, cs)
    ensures Kinded(rs + cs) && Recovered(rs + cs) == Recovered(rs)
  {
    hide Leftovers, LostChange, Back, After;
    LeftKinded(rs, cs);
    var ls := rs + cs;
    forall k
      ensures At(Recovered(ls), k) == At(Recovered(rs), k)
    {
      forall i: nat | i < |ls|
        ensures LostChange(ls, k, i) <==> i < |rs| && LostChange(rs, k, i)
      {
        LostStays(rs, cs, k, i);
      }
      if Lost(rs, k) {
        var f := FirstLost(rs, k);
        BackFirst(rs, 0, f, k);
        BackFirst(ls, 0, f, k);
        LostOld(rs, cs, k, f);
      } else {
        BackNone(rs, 0, k);
        BackNone(ls, 0, k);
        TailLeaves(rs, cs, |cs|, k);
      }
    }
    SameMaps(Recovered(ls), Recovered(rs));
  }

  lemma LostOld(rs: seq<LogRecord>, cs: seq<LogRecord>, k: Key, f: nat)
    requires Kinded(rs) && Kinded(rs + cs) && f < |rs|
    ensures OldValue((rs + cs)[f]) == OldValue(rs[f])
  {
  }

  lemma AgainFramed(rs: seq<LogRecord>, cs: seq<LogRecord>)
    requires Framed(rs) && Leftovers(rs, cs)
    ensures Framed(rs + cs)
  {
    hide LostChange;
    var ls := rs + cs;
    forall i | 0 <= i < |ls|
      ensures Begun(ls, ls[i], i)
    {
      var x := i;
      if i >= |rs| {
        assert Leftover(rs, cs[i - |rs|]);
        x :| 0 <= x < |rs| && LeftBy(rs, cs[i - |rs|], x);
      }
      assert Begun(rs, rs[x], x);
      if b :| 0 <= b < x && rs[b].kind == BEGIN && rs[b].tid == rs[x].tid {
        assert ls[b].kind == BEGIN && ls[b].tid == ls[i].tid;
      } else if i >= |rs| {
        assert ls[x].kind == BEGIN && ls[x].tid == ls[i].tid;
      }
    }
    assert forall x :: 0 <= x < |cs| ==> Leftover(rs, cs[x]);
    forall c, j | 0 <= c < j < |ls| && Ends(ls[c])
      ensures ls[c].tid != ls[j].tid
    {
      if j >= |rs| {
        assert Leftover(rs, cs[j - |rs|]);
        EndNotLost(rs, cs[j - |rs|], c);
      }
    }
  }

  lemma EndNotLost(rs: seq<LogRecord>, r: LogRecord, c: nat)
    requires Leftover(rs, r) && c < |rs| && Ends(rs[c])
    ensures rs[c].tid != r.tid
  {
    var i :| 0 <= i < |rs| && LeftBy(rs, r, i);
  }

  /** Recovery, a crash before the next log record, and recovery again: the rows are the same. */
  method RecoverTwice(rm: RecoveryManager, again: RecoveryManager, ghost rs: seq<LogRecord>, ghost cs: seq<LogRecord>)
    returns (done: bool)
    requires rm != again && rm.undoList == again.undoList == {} && rm.emitted == again.emitted == []
    requires ValidLog(rs) && rm.log == LogBytes(rs) && Framed(rs)
    requires Kinded(rs) && cs <= Emitted(rs, 0) && ValidLog(rs + cs) && again.log == LogBytes(rs + cs)
    modifies rm, again
    ensures Kinded(rs + cs) && (done <==> AllOffered(rs, rm.per) && AllOffered(rs + cs, again.per))
    ensures done ==> again.rows == rm.rows
  {
    hide Framed, AllOffered, AllFound, Recovered, LogBytes, ValidRecord;
    EmittedLeft(rs, 0);
    assert Leftovers(rs, cs) by { hide Leftover; }
    AgainFramed(rs, cs);
    RecoveredAgain(rs, cs);
    var found;
    done, found := rm.Recover(rs);
    if done {
      done, found := again.Recover(rs + cs);
    }
  }

  // ---- assertions

  /** A row that a lost transaction has inserted is there until it changes it again. */
  lemma {:induction false} StillThere(rs: seq<LogRecord>, i: nat, n: nat, k: Key)
    requires Log(rs) && Kinded(rs) && i < n <= |rs| && LostChange(rs, k, i) && rs[i].kind == INSERT
    requires forall j :: i < j < n ==> !LostChange(rs, k, j)
    requires forall j :: 0 <= j < |rs| ==> !Misleads(rs[j])
    ensures Running(rs, n, k).Some?
  {
    hide Framed, Possible, Owned, PutBack, Ended;
    if n > i + 1 {
      StillThere(rs, i, n - 1, k);
      var r := rs[n - 1];
      if Touches(r, k) {
        LostOnly(rs, i, n - 1, k);
        assert !LostChange(rs, k, n - 1);
      }
    }
  }

  /** Nobody else touches a row after a lost change. */
  lemma LostOnly(rs: seq<LogRecord>, i: nat, j: nat, k: Key)
    requires Locked(rs) && i < j < |rs| && LostChange(rs, k, i) && Touches(rs[j], k)
    ensures rs[j].tid == rs[i].tid
  {
    assert SameRow(rs[i], rs[j]);
  }

  lemma {:induction false} NeverMisled(rs: seq<LogRecord>, n: nat, k: Key)
    requires n <= |rs| && forall j :: 0 <= j < |rs| ==> !Misleads(rs[j])
    ensures !Misled(rs, n, k)
  {
    if n == 0 {
    } else {
      NeverMisled(rs, n - 1, k);
    }
  }

  lemma RedoFindsRow(rs: seq<LogRecord>, i: nat)
    requires Log(rs) && Kinded(rs) && i < |rs| && forall j :: 0 <= j < |rs| ==> !Misleads(rs[j])
    ensures RedoFinds(rs, i)
  {
    hide Framed, Locked, Owned, PutBack, After, Running;
    if rs[i].kind == DELETE {
      var k := KeyOf(rs[i].body);
      NeverMisled(rs, i, k);
      RedoAt(rs, i, k);
    }
  }

  lemma UndoFindsRow(rs: seq<LogRecord>, i: nat)
    requires Log(rs) && Kinded(rs) && i < |rs| && forall j :: 0 <= j < |rs| ==> !Misleads(rs[j])
    ensures UndoFinds(rs, i)
  {
    hide Framed, Locked, Owned, PutBack, After, Running, Ended, Back;
    if rs[i].kind == INSERT && !Ended(rs, rs[i].tid) {
      var k := KeyOf(rs[i].body);
      assert LostChange(rs, k, i);
      if exists j :: i < j < |rs| && LostChange(rs, k, j) {
        var f := NextLost(rs, i, k);
        BackFirst(rs, i + 1, f, k);
        StillThere(rs, i, f, k);
      } else {
        BackNone(rs, i + 1, k);
        StillThere(rs, i, |rs|, k);
        NeverMisled(rs, |rs|, k);
        RedoAt(rs, |rs|, k);
      }
    }
  }

  lemma NextLost(rs: seq<LogRecord>, i: nat, k: Key) returns (f: nat)
    requires exists j :: i < j < |rs| && LostChange(rs, k, j)
    ensures i < f < |rs| && LostChange(rs, k, f) && forall j :: i < j < f ==> !LostChange(rs, k, j)
  {
    f := i + 1;
    while !LostChange(rs, k, f)
      invariant i < f < |rs| && (forall j :: i < j < f ==> !LostChange(rs, k, j))
      invariant exists j :: f <= j < |rs| && LostChange(rs, k, j)
      decreases |rs| - f
    {
      f := f + 1;
    }
  }

  /** No assertion fails in recovery from a log in which no insert or delete was taken back. */
  lemma NothingMissing(rs: seq<LogRecord>)
    requires Log(rs) && forall j :: 0 <= j < |rs| ==> !Misleads(rs[j])
    ensures Kinded(rs) && AllFound(rs)
  {
    hide Log, RedoFinds, UndoFinds;
    LogKinds(rs);
    forall i | 0 <= i < |rs|
      ensures RedoFinds(rs, i) && UndoFinds(rs, i)
    {
      RedoFindsRow(rs, i);
      UndoFindsRow(rs, i);
    }
  }

  // ---- examples

  const ROW: Key := ([65], 1, 0)

  function Entry(kind: LogType, t: int, body: Body): LogRecord {
    LogRecord(kind, 0, t, 0, 0, body)
  }

  /** A row is inserted by a transaction that aborts. */
  function InsertTakenBack(): seq<LogRecord> {
    [ Entry(BEGIN, 1, NoBody), Entry(INSERT, 1, Row([7], 1, 0, [65])), Entry(CLR_DELETE, 1, Row([7], 1, 0, [65])),
      Entry(ABORT, 1, NoBody) ]
  }

  lemma InsertFacts(rs: seq<LogRecord>)
    requires rs == InsertTakenBack()
    ensures |rs| == 4 && Kinded(rs) && rs[0].kind == BEGIN && rs[3].kind == ABORT
    ensures rs[1].kind == INSERT && rs[2].kind == CLR_DELETE && rs[1].body == rs[2].body == Row([7], 1, 0, [65])
    ensures forall i :: 0 <= i < 4 ==> rs[i].tid == 1
  {
  }

  lemma InsertIsLog(rs: seq<LogRecord>)
    requires rs == InsertTakenBack()
    ensures Log(rs) && Stale(rs, 2)
  {
    InsertFacts(rs);
    hide InsertTakenBack;
    assert forall i :: 0 <= i < 4 ==> (Writes(rs[i]) <==> i == 1) && (Compensates(rs[i]) <==> i == 2);
    assert Running(rs, 1, ROW) == None && Running(rs, 3, ROW) == None;
    assert HasChanged(rs, 2) by {
      assert SameRow(rs[1], rs[2]);
    }
    assert Ends(rs[3]);
  }

  /** The log is one that this system writes, no transaction has committed, and recovery leaves the row. */
  lemma InsertStays(rs: seq<LogRecord>)
    requires rs == InsertTakenBack()
    ensures Log(rs) && Kinded(rs) && Stale(rs, 2)
    ensures CommittedRows(rs, 4) == map[] && At(Recovered(rs), ROW) == Some([7])
  {
    InsertIsLog(rs);
    InsertFacts(rs);
    hide InsertTakenBack, Log, Stale;
    assert Ends(rs[3]) && Ended(rs, 1) && !Committed(rs, 1);
    hide Committed, Ended;
    assert CommittedRows(rs, 2) == map[];
    assert At(After(rs, 3), ROW) == Some([7]);
    BackNone(rs, 0, ROW);
  }

  /** A row is inserted and committed, then deleted by a transaction that runs until a crash. */
  function DeleteLost(): seq<LogRecord> {
    [ Entry(BEGIN, 1, NoBody), Entry(INSERT, 1, Row([7], 1, 0, [65])), Entry(COMMIT, 1, NoBody),
      Entry(BEGIN, 2, NoBody), Entry(DELETE, 2, Row([7], 1, 0, [65])) ]
  }

  lemma DeleteFacts(rs: seq<LogRecord>)
    requires rs == DeleteLost()
    ensures |rs| == 5 && Kinded(rs) && Ended(rs, 1) && !Ended(rs, 2)
    ensures rs[4] == Entry(DELETE, 2, Row([7], 1, 0, [65])) && rs[3].kind == BEGIN && rs[3].tid == 2
    ensures rs[0].tid == rs[1].tid == rs[2].tid == 1
  {
    assert rs[2].kind == COMMIT && rs[2].tid == 1 && Ends(rs[2]);
  }

  /** The compensation that recovery logs makes the next recovery look for a row that is not there. */
  lemma DeleteMissedAgain(rs: seq<LogRecord>, c: LogRecord)
    requires rs == DeleteLost() && c == Entry(CLR_INSERT, 2, Row([7], 1, 0, [65]))
    ensures Kinded(rs) && Emitted(rs, 0) == [c]
    ensures Kinded(rs + [c]) && !RedoFinds(rs + [c], 5)
  {
    DeleteFacts(rs);
    hide DeleteLost, Ended;
    assert Emitted(rs, 5) == [] && [] + [c] == [c] && [c] + [] == [c];
    assert Emitted(rs, 3) == [c];
    assert Emitted(rs, 1) == [c];
    var ls := rs + [c];
    assert Kinded(ls) && ls[5] == c && ls[4] == rs[4];
    assert After(ls, 5) == Apply(After(ls, 4), ls[4]);
  }
}
