/** Runs of transactions that log what they do, and what is left of them after a crash. */
module CrashRun {
  import opened Serial
  import opened LogCodec
  import opened Recovery
  import opened Survivors

  /** How tables are named in the log, and how rows are written. */
  datatype Naming = Naming(name: int -> seq<Byte>, enc: int -> seq<Byte>)

  ghost predicate Distinct(nm: Naming) {
    forall a, b :: nm.name(a) == nm.name(b) ==> a == b
  }

  function KeyFor(nm: Naming, c: Cell): Key {
    (nm.name(c.0), c.1, c.2)
  }

  lemma SameKey(nm: Naming, c: Cell, d: Cell)
    requires Distinct(nm)
    ensures KeyFor(nm, d) == KeyFor(nm, c) <==> d == c
  {
    if KeyFor(nm, d) == KeyFor(nm, c) {
      assert nm.name(d.0) == nm.name(c.0);
      assert d.0 == c.0 && d.1 == c.1 && d.2 == c.2;
    }
  }

  function Record(kind: LogType, t: int, body: Body): LogRecord {
    LogRecord(kind, 0, t, 0, 0, body)
  }

  // ---- what is logged

  type Db = map<Cell, int>

  /** The record of a change, or of taking one back. */
  function ChangeRecord(nm: Naming, db: Db, t: int, op: Op, back: bool): LogRecord
    requires !op.Scan? && (op.Put? || CellOf(op) in db)
  {
    var c := CellOf(op);
    if op.Remove? then
      Record(if back then CLR_DELETE else DELETE, t, Row(nm.enc(db[c]), c.1, c.2, nm.name(c.0)))
    else if c in db then
      Record(if back then CLR_UPDATE else UPDATE, t, Change(nm.enc(db[c]), nm.enc(op.val), c.1, c.2, nm.name(c.0)))
    else
      Record(if back then CLR_INSERT else INSERT, t, Row(nm.enc(op.val), c.1, c.2, nm.name(c.0)))
  }

  /** What a rollback step logs is the compensation of the change that it takes back. */
  lemma BackIsCompensation(nm: Naming, db: Db, t: int, op: Op, undo: Op)
    requires !op.Scan? && (op.Put? || CellOf(op) in db)
    requires !undo.Scan? && CellOf(undo) == CellOf(op) && (undo.Put? || CellOf(undo) in Effect(db, op))
    requires Effect(Effect(db, op), undo) == db
    ensures WellKinded(ChangeRecord(nm, db, t, op, false)) && Writes(ChangeRecord(nm, db, t, op, false))
    ensures ChangeRecord(nm, Effect(db, op), t, undo, true) == Compensation(ChangeRecord(nm, db, t, op, false))
  {
    var c := CellOf(op);
    assert undo.Put? ==> Effect(Effect(db, op), undo)[c] == undo.val;
    assert undo.Remove? ==> c !in Effect(Effect(db, op), undo);
  }

  /** The event changes a row; removing a row that is not there does not. */
  predicate Alters(db: Db, e: Event) {
    e.Access? && !e.op.Scan? && (e.op.Put? || CellOf(e.op) in db)
  }

  /** What an event appends to the log. */
  function Logged(nm: Naming, db: Db, e: Event): seq<LogRecord> {
    if e.Begin? then [Record(BEGIN, e.txn, NoBody)]
    else if Alters(db, e) then [ChangeRecord(nm, db, e.txn, e.op, e.back)]
    else if e.End? then [Record(if e.commit then COMMIT else ABORT, e.txn, NoBody)]
    else []
  }

  function NextDb(db: Db, e: Event): Db {
    if e.Access? then Effect(db, e.op) else db
  }

  ghost function DbOf(events: seq<Event>, n: nat): Db
    requires n <= |events|
  {
    if n == 0 then map[] else NextDb(DbOf(events, n - 1), events[n - 1])
  }

  /** The log that a run has written after `n` events. */
  ghost function LogOf(nm: Naming, events: seq<Event>, n: nat): seq<LogRecord>
    requires n <= |events|
  {
    if n == 0 then [] else LogOf(nm, events, n - 1) + Logged(nm, DbOf(events, n - 1), events[n - 1])
  }

  // ---- rolling back

  /** A change in a write set: the row, and what was in it before. */
  datatype Old = Old(cell: Cell, val: Option<int>)

  function ValueAt(db: Db, c: Cell): Option<int> {
    if c in db then Some(db[c]) else None
  }

  /** The write set of a transaction: changes that are not taken back yet. */
  ghost function WriteSet(events: seq<Event>, n: nat, t: int): seq<Old>
    requires n <= |events|
  {
    if n == 0 then []
    else
      var ws, e, db := WriteSet(events, n - 1, t), events[n - 1], DbOf(events, n - 1);
      if !Alters(db, e) || e.txn != t then ws
      else if !e.back then ws + [Old(CellOf(e.op), ValueAt(db, CellOf(e.op)))]
      else if ws == [] then []
      else ws[..|ws| - 1]
  }

  function Restore(db: Db, o: Old): Db {
    if o.val.Some? then db[o.cell := o.val.value] else db - {o.cell}
  }

  ghost predicate Aborting(events: seq<Event>, n: nat, t: int)
    requires n <= |events|
  {
    exists i :: 0 <= i < n && events[i].Access? && events[i].back && events[i].txn == t
  }

  /** The event keeps to the order of `abort`: changes are taken back from the end of the write set, nothing
      else is done meanwhile, and the transaction ends with an empty write set. */
  ghost predicate InTurn(events: seq<Event>, n: nat)
    requires n < |events|
  {
    var e, db := events[n], DbOf(events, n);
    && (e.Access? && e.back ==>
         var ws := WriteSet(events, n, e.txn);
         Alters(db, e) && ws != [] && CellOf(e.op) == ws[|ws| - 1].cell
         && Effect(db, e.op) == Restore(db, ws[|ws| - 1]))
    && ((e.Access? && !e.back) || (e.End? && e.commit) ==> !Aborting(events, n, e.txn))
    && (e.End? && !e.commit ==> WriteSet(events, n, e.txn) == [])
  }

  ghost predicate RollsBack(events: seq<Event>) {
    forall n :: 0 <= n < |events| ==> InTurn(events, n)
  }

  /** A transaction's end is logged before another changes a row that it has changed: locks are released
      before the COMMIT or ABORT is logged, so the lock protocol alone does not say so. */
  ghost predicate Prompt(events: seq<Event>) {
    forall i, j :: 0 <= i < j < |events| && Meet(events, i, j) && Released(events, events[i].txn) < j ==>
      EndsBefore(events, events[i].txn, j)
  }

  ghost predicate Writer(events: seq<Event>, i: nat)
    requires i < |events|
  {
    events[i].Access? && !events[i].op.Scan?
  }

  /** Two transactions write the same row. */
  ghost predicate Meet(events: seq<Event>, i: nat, j: nat)
    requires i < |events| && j < |events|
  {
    && Writer(events, i) && Writer(events, j) && events[i].txn != events[j].txn
    && CellOf(events[i].op) == CellOf(events[j].op)
  }

  ghost predicate EndsBefore(events: seq<Event>, t: int, j: nat)
    requires j <= |events|
  {
    exists x :: 0 <= x < j && events[x].End? && events[x].txn == t
  }

  /** A run of the lock manager whose transactions roll back in order and end promptly. */
  ghost predicate Orderly(states: seq<State>, events: seq<Event>) {
    Run(states, events) && RollsBack(events) && Prompt(events)
  }

  /** Nobody does anything between the first release of a transaction and its end: `commit` and `abort` are not
      interrupted. */
  ghost predicate Uninterrupted(events: seq<Event>) {
    forall t, j :: 0 <= j < |events| && events[j].txn != t && Released(events, t) < j ==> EndsBefore(events, t, j)
  }

  /** Runs in which commits and aborts are not interrupted are among those considered. */
  lemma UninterruptedIsPrompt(states: seq<State>, events: seq<Event>)
    requires Run(states, events) && RollsBack(events) && Uninterrupted(events)
    ensures Orderly(states, events)
  {
    forall i, j | 0 <= i < j < |events| && Meet(events, i, j) && Released(events, events[i].txn) < j
      ensures EndsBefore(events, events[i].txn, j)
    {
      assert events[j].txn != events[i].txn;
    }
  }

  /** Whoever has changed a row before another has ended. */
  lemma OthersEnded(states: seq<State>, events: seq<Event>, i: nat, j: nat)
    requires Orderly(states, events) && i < j < |events| && Meet(events, i, j)
    ensures EndsBefore(events, events[i].txn, j)
  {
    hide RollsBack, Run;
    EdgeOrder(states, events, i, j);
  }

  // ---- adding one record to a log

  ghost predicate HasBegin(rs: seq<LogRecord>, t: int) {
    exists b :: 0 <= b < |rs| && rs[b].kind == BEGIN && rs[b].tid == t
  }

  ghost predicate ChangedBy(rs: seq<LogRecord>, t: int, k: Key) {
    exists i :: 0 <= i < |rs| && Writes(rs[i]) && rs[i].tid == t && Touches(rs[i], k)
  }

  ghost predicate CanFollow(rs: seq<LogRecord>, r: LogRecord)
    requires Kinded(rs)
  {
    && WellKinded(r) && !Ended(rs, r.tid)
    && (if r.kind == BEGIN then forall b :: 0 <= b < |rs| ==> rs[b].tid != r.tid else HasBegin(rs, r.tid))
    && (Writes(r) ==> Running(rs, |rs|, KeyOf(r.body)) == OldValue(r))
    && (forall i :: 0 <= i < |rs| && SameRow(rs[i], r) && rs[i].tid != r.tid ==> Ended(rs, rs[i].tid))
    && (Compensates(r) ==> ChangedBy(rs, r.tid, KeyOf(r.body)))
    && (r.kind == COMMIT ==> forall i :: 0 <= i < |rs| && Compensates(rs[i]) ==> rs[i].tid != r.tid)
    && (r.kind == ABORT ==> forall f :: 0 <= f < |rs| && rs[f].tid == r.tid && First(rs, f) ==>
                              Running(rs, |rs|, KeyOf(rs[f].body)) == OldValue(rs[f]))
  }

  lemma {:induction false} RunningExtends(rs: seq<LogRecord>, r: LogRecord, n: nat, k: Key)
    requires Kinded(rs) && Kinded(rs + [r]) && n <= |rs|
    ensures Running(rs + [r], n, k) == Running(rs, n, k)
  {
    if n == 0 {
    } else {
      RunningExtends(rs, r, n - 1, k);
    }
  }

  lemma ExtendFramed(rs: seq<LogRecord>, r: LogRecord)
    requires Framed(rs) && Kinded(rs) && CanFollow(rs, r)
    ensures Framed(rs + [r])
  {
    hide Running, First, SameRow;
    var ls := rs + [r];
    forall i | 0 <= i < |ls|
      ensures Begun(ls, ls[i], i)
    {
      if i < |rs| {
        assert Begun(rs, rs[i], i);
        if rs[i].kind != BEGIN {
          var b :| 0 <= b < i && rs[b].kind == BEGIN && rs[b].tid == rs[i].tid;
          assert ls[b] == rs[b];
        }
      } else if r.kind != BEGIN {
        var b :| 0 <= b < |rs| && rs[b].kind == BEGIN && rs[b].tid == r.tid;
        assert ls[b] == rs[b];
      }
    }
  }

  lemma EndedAfter(rs: seq<LogRecord>, i: nat)
    requires Framed(rs) && i < |rs| && Ended(rs, rs[i].tid) && !Ends(rs[i])
    ensures EndBetween(rs, rs[i].tid, i, |rs|)
  {
    var c :| 0 <= c < |rs| && Ends(rs[c]) && rs[c].tid == rs[i].tid;
    assert c != i;
  }

  lemma BetweenExtends(rs: seq<LogRecord>, r: LogRecord, t: int, i: nat, j: nat)
    requires EndBetween(rs, t, i, j)
    ensures EndBetween(rs + [r], t, i, j)
  {
    var c :| 0 <= c < |rs| && i < c < j && Ends(rs[c]) && rs[c].tid == t;
    assert (rs + [r])[c] == rs[c];
  }

  lemma ExtendLocked(rs: seq<LogRecord>, r: LogRecord)
    requires Framed(rs) && Locked(rs) && Kinded(rs) && CanFollow(rs, r)
    ensures Locked(rs + [r])
  {
    hide Running, First, EndBetween, Framed, Ended;
    var ls := rs + [r];
    forall i, j | 0 <= i < j < |ls| && SameRow(ls[i], ls[j]) && ls[i].tid != ls[j].tid
      ensures EndBetween(ls, ls[i].tid, i, j)
    {
      if j == |rs| {
        assert SameRow(rs[i], r);
        EndedAfter(rs, i);
      } else {
        assert SameRow(rs[i], rs[j]);
      }
      BetweenExtends(rs, r, rs[i].tid, i, j);
    }
  }

  lemma ExtendOwned(rs: seq<LogRecord>, r: LogRecord)
    requires Owned(rs) && Kinded(rs) && CanFollow(rs, r)
    ensures Owned(rs + [r])
  {
    hide Running, First;
    var ls := rs + [r];
    forall j | 0 <= j < |ls| && Compensates(ls[j])
      ensures !Committed(ls, ls[j].tid) && HasChanged(ls, j)
    {
      if j < |rs| {
        assert Compensates(rs[j]) && HasChanged(rs, j);
        var i :| 0 <= i < j && Writes(rs[i]) && rs[i].tid == rs[j].tid && SameRow(rs[i], rs[j]);
        assert ls[i] == rs[i] && ls[j] == rs[j];
      } else {
        var i :| 0 <= i < |rs| && Writes(rs[i]) && rs[i].tid == r.tid && Touches(rs[i], KeyOf(r.body));
        assert ls[i] == rs[i] && SameRow(ls[i], ls[j]);
        NotCommitted(rs, r.tid);
      }
    }
  }

  lemma NotCommitted(rs: seq<LogRecord>, t: int)
    requires !Ended(rs, t)
    ensures !Committed(rs, t)
  {
    if Committed(rs, t) {
      CommittedEnded(rs, t);
    }
  }

  lemma ExtendFirst(rs: seq<LogRecord>, r: LogRecord, f: nat)
    requires f < |rs|
    ensures First(rs + [r], f) <==> First(rs, f)
  {
    assert forall i :: 0 <= i < |rs| ==> (rs + [r])[i] == rs[i];
  }

  lemma ExtendRunning(rs: seq<LogRecord>, r: LogRecord)
    requires Kinded(rs) && Possible(rs) && PutBack(rs) && CanFollow(rs, r)
    ensures Kinded(rs + [r]) && Possible(rs + [r]) && PutBack(rs + [r])
  {
    hide Running, SameRow;
    var ls := rs + [r];
    assert Kinded(ls);
    forall i | 0 <= i < |ls| && Writes(ls[i])
      ensures Running(ls, i, KeyOf(ls[i].body)) == OldValue(ls[i])
    {
      RunningExtends(rs, r, i, KeyOf(ls[i].body));
    }
    forall f, c | 0 <= f < c < |ls| && ls[c].kind == ABORT && ls[f].tid == ls[c].tid && First(ls, f)
      ensures Running(ls, c, KeyOf(ls[f].body)) == OldValue(ls[f])
    {
      ExtendFirst(rs, r, f);
      RunningExtends(rs, r, c, KeyOf(ls[f].body));
    }
  }

  lemma LogExtends(rs: seq<LogRecord>, r: LogRecord)
    requires Log(rs) && CanFollow(rs, r)
    ensures Log(rs + [r]) && WellKinded(r)
    ensures forall k :: Running(rs + [r], |rs| + 1, k) == if Touches(r, k) then RunValue(r) else Running(rs, |rs|, k)
  {
    assert WellKinded(r);
    hide CanFollow, Framed, Locked, Owned, Possible, PutBack, Kinded, WellKinded;
    ExtendFramed(rs, r);
    ExtendLocked(rs, r);
    ExtendOwned(rs, r);
    ExtendRunning(rs, r);
    forall k
      ensures Running(rs + [r], |rs| + 1, k) == if Touches(r, k) then RunValue(r) else Running(rs, |rs|, k)
    {
      RunningExtends(rs, r, |rs|, k);
    }
  }

  // ---- along a run

  function Enc(nm: Naming, v: Option<int>): Value {
    if v.Some? then Some(nm.enc(v.value)) else None
  }

  /** The rows of the log, as the run has them, are the rows of the tables. */
  ghost predicate Mirrors(nm: Naming, rs: seq<LogRecord>, db: Db)
    requires Kinded(rs)
  {
    forall c :: Running(rs, |rs|, KeyFor(nm, c)) == Enc(nm, ValueAt(db, c))
  }

  /** Every record of a row is of an event that wrote it. */
  ghost predicate Traced(nm: Naming, events: seq<Event>, n: nat, rs: seq<LogRecord>)
    requires n <= |events|
  {
    forall i, k :: 0 <= i < |rs| && Touches(rs[i], k) ==> exists x :: 0 <= x < n && Wrote(nm, events, x, rs[i].tid, k)
  }

  ghost predicate Wrote(nm: Naming, events: seq<Event>, x: nat, t: int, k: Key)
    requires x < |events|
  {
    Writer(events, x) && events[x].txn == t && KeyFor(nm, CellOf(events[x].op)) == k
  }

  /** The lock table knows which transactions have begun and ended. */
  ghost predicate Known(events: seq<Event>, n: nat, s: State, rs: seq<LogRecord>)
    requires n <= |events|
  {
    && (forall t :: t in s.locks.txns <==> HasBegin(rs, t))
    && (forall i :: 0 <= i < |rs| ==> HasBegin(rs, rs[i].tid))
    && (forall t :: t in s.ended <==> Ended(rs, t)) && (forall t :: t in s.ended <==> EndsBefore(events, t, n))
    && s.ended <= s.released
  }

  /** Taking back everything in a write set, last first. */
  function Unwind(db: Db, ws: seq<Old>): Db
    decreases |ws|
  {
    if ws == [] then db else Unwind(Restore(db, ws[|ws| - 1]), ws[..|ws| - 1])
  }

  ghost predicate Recorded(nm: Naming, rs: seq<LogRecord>, t: int, ws: seq<Old>) {
    forall x :: 0 <= x < |ws| ==> ChangedBy(rs, t, KeyFor(nm, ws[x].cell))
  }

  /** Taking back a transaction's write set would restore each row to what it was before its first
      change. */
  ghost predicate Unwound(nm: Naming, rs: seq<LogRecord>, t: int, ws: seq<Old>, db: Db)
    requires Kinded(rs)
  {
    forall f, c :: 0 <= f < |rs| && rs[f].tid == t && First(rs, f) && KeyOf(rs[f].body) == KeyFor(nm, c) ==>
      Enc(nm, ValueAt(Unwind(db, ws), c)) == OldValue(rs[f])
  }

  /** What holds of a transaction that has not ended. */
  ghost predicate Goes(nm: Naming, events: seq<Event>, n: nat, rs: seq<LogRecord>, db: Db, t: int)
    requires n <= |events| && Kinded(rs)
  {
    && Recorded(nm, rs, t, WriteSet(events, n, t)) && Unwound(nm, rs, t, WriteSet(events, n, t), db)
    && (forall i :: 0 <= i < |rs| && Compensates(rs[i]) && rs[i].tid == t ==> Aborting(events, n, t))
  }

  ghost predicate Inv(nm: Naming, events: seq<Event>, n: nat, s: State, rs: seq<LogRecord>, db: Db)
    requires n <= |events|
  {
    && Log(rs) && Mirrors(nm, rs, db) && Traced(nm, events, n, rs) && Known(events, n, s, rs)
    && forall t :: t !in s.ended ==> Goes(nm, events, n, rs, db, t)
  }

  lemma StepTxns(s: State, e: Event, s': State)
    requires Step(s, e, s')
    ensures forall t :: t in s'.locks.txns <==> t in s.locks.txns || (e.Begin? && e.txn == t)
    ensures forall t :: t in s'.ended <==> t in s.ended || (e.End? && e.txn == t)
    ensures s.ended <= s.released ==> s'.ended <= s'.released
    ensures !e.Begin? ==> e.txn in s.locks.txns
    ensures e.Access? ==> e.txn !in s.released
    ensures e.End? ==> e.txn !in s.ended
  {
  }

  // ---- one more record

  lemma EndsExtend(rs: seq<LogRecord>, r: LogRecord, t: int)
    ensures Ended(rs + [r], t) <==> Ended(rs, t) || (Ends(r) && r.tid == t)
    ensures HasBegin(rs + [r], t) <==> HasBegin(rs, t) || (r.kind == BEGIN && r.tid == t)
  {
    var ls := rs + [r];
    if c :| 0 <= c < |rs| && Ends(rs[c]) && rs[c].tid == t {
      assert ls[c] == rs[c];
    }
    if b :| 0 <= b < |rs| && rs[b].kind == BEGIN && rs[b].tid == t {
      assert ls[b] == rs[b];
    }
    assert ls[|rs|] == r;
  }

  lemma EndsBeforeNext(events: seq<Event>, n: nat, t: int)
    requires n < |events|
    ensures EndsBefore(events, t, n + 1) <==> EndsBefore(events, t, n) || (events[n].End? && events[n].txn == t)
  {
  }

  /** The record that the event logs. */
  ghost predicate Logs(nm: Naming, db: Db, e: Event, r: LogRecord) {
    Logged(nm, db, e) == [r]
  }

  lemma LogsWhat(nm: Naming, db: Db, e: Event, r: LogRecord)
    requires Logs(nm, db, e, r)
    ensures r.tid == e.txn && (r.kind == BEGIN <==> e.Begin?) && (Ends(r) <==> e.End?) && WellKinded(r)
    ensures (Writes(r) || Compensates(r) <==> Alters(db, e))
    ensures Alters(db, e) ==> (Compensates(r) <==> e.back) && Touches(r, KeyFor(nm, CellOf(e.op)))
  {
  }

  lemma KnownNext(nm: Naming, events: seq<Event>, n: nat, s: State, s': State, rs: seq<LogRecord>, db: Db, r: LogRecord)
    requires n < |events| && Known(events, n, s, rs) && Step(s, events[n], s') && Logs(nm, db, events[n], r)
    ensures Known(events, n + 1, s', rs + [r])
  {
    hide Step, Ended, HasBegin, EndsBefore, Logs;
    StepTxns(s, events[n], s');
    LogsWhat(nm, db, events[n], r);
    var ls, m := rs + [r], n + 1;
    forall t
      ensures Ended(ls, t) <==> Ended(rs, t) || (Ends(r) && r.tid == t)
      ensures HasBegin(ls, t) <==> HasBegin(rs, t) || (r.kind == BEGIN && r.tid == t)
      ensures EndsBefore(events, t, m) <==> EndsBefore(events, t, n) || (events[n].End? && events[n].txn == t)
    {
      EndsExtend(rs, r, t);
      EndsBeforeNext(events, n, t);
    }
    forall i | 0 <= i < |ls|
      ensures HasBegin(ls, ls[i].tid)
    {
      if i < |rs| {
        assert HasBegin(rs, rs[i].tid);
      }
    }
  }

  lemma KnownQuiet(events: seq<Event>, n: nat, s: State, s': State, rs: seq<LogRecord>)
    requires n < |events| && Known(events, n, s, rs) && Step(s, events[n], s') && !events[n].Begin? && !events[n].End?
    ensures Known(events, n + 1, s', rs)
  {
    hide Step, Ended, HasBegin, EndsBefore;
    StepTxns(s, events[n], s');
    var m := n + 1;
    forall t
      ensures EndsBefore(events, t, m) <==> EndsBefore(events, t, n)
    {
      EndsBeforeNext(events, n, t);
    }
  }

  lemma TracedNext(nm: Naming, events: seq<Event>, n: nat, rs: seq<LogRecord>, db: Db, r: LogRecord)
    requires n < |events| && Traced(nm, events, n, rs) && Logs(nm, db, events[n], r)
    ensures Traced(nm, events, n + 1, rs + [r])
  {
    var ls, m := rs + [r], n + 1;
    forall i, k | 0 <= i < |ls| && Touches(ls[i], k)
      ensures exists x :: 0 <= x < m && Wrote(nm, events, x, ls[i].tid, k)
    {
      if i < |rs| {
        assert Touches(rs[i], k);
        var x :| 0 <= x < n && Wrote(nm, events, x, rs[i].tid, k);
      } else {
        assert Wrote(nm, events, n, r.tid, k);
      }
    }
  }

  lemma TracedQuiet(nm: Naming, events: seq<Event>, n: nat, rs: seq<LogRecord>)
    requires n < |events| && Traced(nm, events, n, rs)
    ensures Traced(nm, events, n + 1, rs)
  {
    var m := n + 1;
    forall i, k | 0 <= i < |rs| && Touches(rs[i], k)
      ensures exists x :: 0 <= x < m && Wrote(nm, events, x, rs[i].tid, k)
    {
      var x :| 0 <= x < n && Wrote(nm, events, x, rs[i].tid, k);
    }
  }

  lemma ChangedExtends(rs: seq<LogRecord>, r: LogRecord, t: int, k: Key)
    ensures ChangedBy(rs + [r], t, k) <==> ChangedBy(rs, t, k) || (Writes(r) && r.tid == t && Touches(r, k))
  {
    var ls := rs + [r];
    if i :| 0 <= i < |rs| && Writes(rs[i]) && rs[i].tid == t && Touches(rs[i], k) {
      assert ls[i] == rs[i];
    }
    assert ls[|rs|] == r;
  }

  lemma AbortingNext(events: seq<Event>, n: nat, t: int)
    requires n < |events|
    ensures Aborting(events, n + 1, t) <==>
              Aborting(events, n, t) || (events[n].Access? && events[n].back && events[n].txn == t)
  {
  }

  // ---- write sets

  lemma {:induction false} UnwindElsewhere(db: Db, db': Db, ws: seq<Old>, c: Cell, d: Cell)
    requires c != d && forall x :: x != c ==> ValueAt(db, x) == ValueAt(db', x)
    ensures ValueAt(Unwind(db, ws), d) == ValueAt(Unwind(db', ws), d)
    decreases |ws|
  {
    if ws == [] {
    } else {
      var o := ws[|ws| - 1];
      forall x | x != c
        ensures ValueAt(Restore(db, o), x) == ValueAt(Restore(db', o), x)
      {
        assert ValueAt(db, x) == ValueAt(db', x);
      }
      UnwindElsewhere(Restore(db, o), Restore(db', o), ws[..|ws| - 1], c, d);
    }
  }

  lemma {:induction false} UnwindOther(db: Db, ws: seq<Old>, c: Cell)
    requires forall x :: 0 <= x < |ws| ==> ws[x].cell != c
    ensures ValueAt(Unwind(db, ws), c) == ValueAt(db, c)
    decreases |ws|
  {
    if ws == [] {
    } else {
      UnwindOther(Restore(db, ws[|ws| - 1]), ws[..|ws| - 1], c);
    }
  }

  lemma WriteSetNext(events: seq<Event>, n: nat, db: Db)
    requires n < |events| && db == DbOf(events, n) && Alters(db, events[n])
    ensures var e, ws := events[n], WriteSet(events, n, events[n].txn);
            WriteSet(events, n + 1, e.txn) ==
              if !e.back then ws + [Old(CellOf(e.op), ValueAt(db, CellOf(e.op)))]
              else if ws == [] then [] else ws[..|ws| - 1]
  {
  }

  lemma UnwindPush(db: Db, db': Db, ws: seq<Old>, o: Old)
    requires Restore(db', o) == db
    ensures Unwind(db', ws + [o]) == Unwind(db, ws)
  {
    assert (ws + [o])[..|ws|] == ws;
  }

  lemma RestoresRow(db: Db, op: Op)
    requires !op.Scan?
    ensures Restore(Effect(db, op), Old(CellOf(op), ValueAt(db, CellOf(op)))) == db
  {
  }

  /** A change, or taking one back, leads to the same rows when everything is taken back. */
  lemma UnwindSame(events: seq<Event>, n: nat, db: Db)
    requires n < |events| && db == DbOf(events, n) && Alters(db, events[n]) && InTurn(events, n)
    ensures Unwind(Effect(db, events[n].op), WriteSet(events, n + 1, events[n].txn))
            == Unwind(db, WriteSet(events, n, events[n].txn))
  {
    hide WriteSet, Effect, Restore, DbOf;
    var e := events[n];
    WriteSetNext(events, n, db);
    if !e.back {
      RestoresRow(db, e.op);
      UnwindPush(db, Effect(db, e.op), WriteSet(events, n, e.txn), Old(CellOf(e.op), ValueAt(db, CellOf(e.op))));
    }
  }

  /** For the transaction that makes the change. */
  lemma {:induction false} OwnGoes(nm: Naming, events: seq<Event>, n: nat, rs: seq<LogRecord>, db: Db, r: LogRecord)
    requires Distinct(nm) && n < |events| && db == DbOf(events, n) && Kinded(rs) && Kinded(rs + [r])
             && Mirrors(nm, rs, db)
    requires Alters(db, events[n]) && InTurn(events, n) && Logs(nm, db, events[n], r)
    requires Writes(r) ==> Running(rs, |rs|, KeyOf(r.body)) == OldValue(r)
    requires Goes(nm, events, n, rs, db, events[n].txn)
    ensures Goes(nm, events, n + 1, rs + [r], Effect(db, events[n].op), events[n].txn)
  {
    hide Running, InTurn, Logs, Aborting, ChangedBy, Mirrors;
    var e, t, ls := events[n], events[n].txn, rs + [r];
    var ws, ws', c := WriteSet(events, n, t), WriteSet(events, n + 1, t), CellOf(e.op);
    LogsWhat(nm, db, e, r);
    UnwindSame(events, n, db);
    AbortingNext(events, n, t);
    forall x | 0 <= x < |ws'|
      ensures ChangedBy(ls, t, KeyFor(nm, ws'[x].cell))
    {
      ChangedExtends(rs, r, t, KeyFor(nm, ws'[x].cell));
    }
    hide Alters, WriteSet;
    forall f, d | 0 <= f < |ls| && ls[f].tid == t && First(ls, f) && KeyOf(ls[f].body) == KeyFor(nm, d)
      ensures Enc(nm, ValueAt(Unwind(Effect(db, e.op), ws'), d)) == OldValue(ls[f])
    {
      if f < |rs| {
        ExtendFirst(rs, r, f);
      } else {
        SameKey(nm, c, d);
        FirstUnwound(nm, rs, r, t, ws, db, c);
      }
    }
    forall i | 0 <= i < |ls| && Compensates(ls[i]) && ls[i].tid == t
      ensures Aborting(events, n + 1, t)
    {
      if i < |rs| {
        assert Compensates(rs[i]);
      }
    }
  }

  /** A row that the transaction changes for the first time is not in its write set. */
  lemma FirstUnwound(nm: Naming, rs: seq<LogRecord>, r: LogRecord, t: int, ws: seq<Old>, db: Db, c: Cell)
    requires Distinct(nm) && Kinded(rs) && WellKinded(r) && Mirrors(nm, rs, db) && Recorded(nm, rs, t, ws)
    requires r.tid == t && First(rs + [r], |rs|) && KeyOf(r.body) == KeyFor(nm, c)
    requires Running(rs, |rs|, KeyOf(r.body)) == OldValue(r)
    ensures Enc(nm, ValueAt(Unwind(db, ws), c)) == OldValue(r)
  {
    hide Running;
    forall x | 0 <= x < |ws|
      ensures ws[x].cell != c
    {
      var i :| 0 <= i < |rs| && Writes(rs[i]) && rs[i].tid == t && Touches(rs[i], KeyFor(nm, ws[x].cell));
      assert (rs + [r])[i] == rs[i];
    }
    UnwindOther(db, ws, c);
    assert Running(rs, |rs|, KeyFor(nm, c)) == Enc(nm, ValueAt(db, c));
  }

  /** For another transaction, which has not changed the row. */
  lemma {:induction false} OtherGoes(nm: Naming, events: seq<Event>, n: nat, rs: seq<LogRecord>, db: Db, r: LogRecord,
                                     t: int)
    requires Distinct(nm) && n < |events| && Kinded(rs) && Kinded(rs + [r]) && events[n].txn != t
    requires db == DbOf(events, n) && Logs(nm, db, events[n], r) && Goes(nm, events, n, rs, db, t)
    requires Alters(db, events[n]) ==> !ChangedBy(rs, t, KeyFor(nm, CellOf(events[n].op)))
    ensures Goes(nm, events, n + 1, rs + [r], NextDb(db, events[n]), t)
  {
    hide Running, Logs, Aborting, Touches;
    var e, ls, db' := events[n], rs + [r], NextDb(db, events[n]);
    var ws := WriteSet(events, n, t);
    LogsWhat(nm, db, e, r);
    assert WriteSet(events, n + 1, t) == ws;
    AbortingNext(events, n, t);
    forall x | 0 <= x < |ws|
      ensures ChangedBy(ls, t, KeyFor(nm, ws[x].cell))
    {
      ChangedExtends(rs, r, t, KeyFor(nm, ws[x].cell));
    }
    forall f, d | 0 <= f < |ls| && ls[f].tid == t && First(ls, f) && KeyOf(ls[f].body) == KeyFor(nm, d)
      ensures Enc(nm, ValueAt(Unwind(db', ws), d)) == OldValue(ls[f])
    {
      ExtendFirst(rs, r, f);
      FirstChanged(rs, f);
      if Alters(db, e) {
        UnwindElsewhere(db, db', ws, CellOf(e.op), d);
      } else {
        QuietDb(db, e);
      }
    }
  }

  lemma FirstChanged(rs: seq<LogRecord>, f: nat)
    requires f < |rs| && First(rs, f)
    ensures ChangedBy(rs, rs[f].tid, KeyOf(rs[f].body))
  {
  }

  lemma QuietDb(db: Db, e: Event)
    requires !Alters(db, e)
    ensures NextDb(db, e) == db
  {
  }

  /** Events that log nothing change no write set and no table. */
  lemma {:induction false} QuietGoes(nm: Naming, events: seq<Event>, n: nat, rs: seq<LogRecord>, db: Db, t: int)
    requires n < |events| && Kinded(rs) && db == DbOf(events, n) && !Alters(db, events[n])
    requires Goes(nm, events, n, rs, db, t)
    ensures Goes(nm, events, n + 1, rs, NextDb(db, events[n]), t)
  {
    hide Aborting;
    QuietDb(db, events[n]);
    AbortingNext(events, n, t);
  }

  // ---- one step

  /** Whoever else has a record of the row has ended. */
  lemma {:induction false} OthersHaveEnded(nm: Naming, states: seq<State>, events: seq<Event>, n: nat,
                                           rs: seq<LogRecord>, i: nat)
    requires Distinct(nm) && Orderly(states, events) && n < |events| && Writer(events, n)
    requires Traced(nm, events, n, rs) && Known(events, n, states[n], rs)
    requires i < |rs| && Touches(rs[i], KeyFor(nm, CellOf(events[n].op))) && rs[i].tid != events[n].txn
    ensures Ended(rs, rs[i].tid)
  {
    hide Orderly, Ended, EndsBefore, HasBegin, Touches;
    var k := KeyFor(nm, CellOf(events[n].op));
    var x :| 0 <= x < n && Wrote(nm, events, x, rs[i].tid, k);
    SameKey(nm, CellOf(events[n].op), CellOf(events[x].op));
    OthersEnded(states, events, x, n);
  }

  lemma {:induction false} ChangeFollows(nm: Naming, states: seq<State>, events: seq<Event>, n: nat,
                                         rs: seq<LogRecord>, db: Db,
                                         r: LogRecord)
    requires Distinct(nm) && Orderly(states, events) && n < |events| && Inv(nm, events, n, states[n], rs, db)
    requires db == DbOf(events, n) && Alters(db, events[n]) && Logs(nm, db, events[n], r)
    ensures CanFollow(rs, r)
  {
    var e, s, k := events[n], states[n], KeyFor(nm, CellOf(events[n].op));
    RunStep(states, events, n);
    RowOf(nm, rs, db, e, r);
    LogsWhat(nm, db, e, r);
    hide Logs, Log, Run, Alters, Running, Mirrors;
    forall i | 0 <= i < |rs| && SameRow(rs[i], r) && rs[i].tid != r.tid
      ensures Ended(rs, rs[i].tid)
    {
      OthersHaveEnded(nm, states, events, n, rs, i);
    }
    if e.back {
      BackChanged(nm, events, n, rs, db);
    }
  }

  lemma RunStep(states: seq<State>, events: seq<Event>, n: nat)
    requires Orderly(states, events) && n < |events|
    ensures |states| == |events| + 1 && Step(states[n], events[n], states[n + 1]) && InTurn(events, n)
    ensures events[n].Access? ==> events[n].txn in states[n].locks.txns && events[n].txn !in states[n].released
  {
    assert StepAt(states, events, n);
  }

  /** The record of a change says what the row is before and after it. */
  lemma RowOf(nm: Naming, rs: seq<LogRecord>, db: Db, e: Event, r: LogRecord)
    requires Kinded(rs) && Mirrors(nm, rs, db) && Alters(db, e) && Logs(nm, db, e, r)
    ensures WellKinded(r) && KeyOf(r.body) == KeyFor(nm, CellOf(e.op))
    ensures Writes(r) ==> Running(rs, |rs|, KeyOf(r.body)) == OldValue(r)
    ensures RunValue(r) == Enc(nm, ValueAt(NextDb(db, e), CellOf(e.op)))
  {
    assert Running(rs, |rs|, KeyFor(nm, CellOf(e.op))) == Enc(nm, ValueAt(db, CellOf(e.op)));
  }

  lemma BackChanged(nm: Naming, events: seq<Event>, n: nat, rs: seq<LogRecord>, db: Db)
    requires n < |events| && Kinded(rs) && db == DbOf(events, n) && InTurn(events, n)
    requires events[n].Access? && events[n].back && Goes(nm, events, n, rs, db, events[n].txn)
    ensures !events[n].op.Scan? && ChangedBy(rs, events[n].txn, KeyFor(nm, CellOf(events[n].op)))
  {
    hide ChangedBy, WriteSet;
  }

  lemma MirrorsNext(nm: Naming, rs: seq<LogRecord>, r: LogRecord, db: Db, e: Event)
    requires Distinct(nm) && Kinded(rs) && Kinded(rs + [r]) && Mirrors(nm, rs, db) && Alters(db, e)
             && Logs(nm, db, e, r)
    requires WellKinded(r)
    requires forall k :: Running(rs + [r], |rs| + 1, k) == if Touches(r, k) then RunValue(r) else Running(rs, |rs|, k)
    ensures Mirrors(nm, rs + [r], NextDb(db, e))
  {
    RowOf(nm, rs, db, e, r);
    LogsWhat(nm, db, e, r);
    hide Running, Logs;
    forall c
      ensures Running(rs + [r], |rs| + 1, KeyFor(nm, c)) == Enc(nm, ValueAt(NextDb(db, e), c))
    {
      SameKey(nm, CellOf(e.op), c);
      assert Running(rs, |rs|, KeyFor(nm, c)) == Enc(nm, ValueAt(db, c));
    }
  }

  lemma MirrorsSame(nm: Naming, rs: seq<LogRecord>, r: LogRecord, db: Db)
    requires Kinded(rs) && Kinded(rs + [r]) && Mirrors(nm, rs, db) && !Writes(r) && !Compensates(r)
    requires WellKinded(r)
    requires forall k :: Running(rs + [r], |rs| + 1, k) == if Touches(r, k) then RunValue(r) else Running(rs, |rs|, k)
    ensures Mirrors(nm, rs + [r], db)
  {
    hide Running;
    forall c
      ensures Running(rs + [r], |rs| + 1, KeyFor(nm, c)) == Enc(nm, ValueAt(db, c))
    {
      assert Running(rs, |rs|, KeyFor(nm, c)) == Enc(nm, ValueAt(db, c));
    }
  }

  lemma {:induction false} ChangeKeeps(nm: Naming, states: seq<State>, events: seq<Event>, n: nat, rs: seq<LogRecord>,
                                       db: Db,
                                       r: LogRecord)
    requires Distinct(nm) && Orderly(states, events) && n < |events| && Inv(nm, events, n, states[n], rs, db)
    requires db == DbOf(events, n) && Alters(db, events[n]) && Logs(nm, db, events[n], r)
    ensures Inv(nm, events, n + 1, states[n + 1], rs + [r], NextDb(db, events[n]))
  {
    var e, s, s', k := events[n], states[n], states[n + 1], KeyFor(nm, CellOf(events[n].op));
    ChangeFollows(nm, states, events, n, rs, db, r);
    RunStep(states, events, n);
    StepTxns(s, e, s');
    RowOf(nm, rs, db, e, r);
    hide Orderly, Run, CanFollow, Logs, Step, InTurn, Running, Goes, Traced, Mirrors;
    LogExtends(rs, r);
    LogKinds(rs + [r]);
    MirrorsNext(nm, rs, r, db, e);
    TracedNext(nm, events, n, rs, db, r);
    KnownNext(nm, events, n, s, s', rs, db, r);
    forall t | t !in s'.ended
      ensures Goes(nm, events, n + 1, rs + [r], NextDb(db, e), t)
    {
      if t == e.txn {
        OwnGoes(nm, events, n, rs, db, r);
      } else {
        NotChanged(nm, states, events, n, rs, t);
        OtherGoes(nm, events, n, rs, db, r, t);
      }
    }
  }

  /** A transaction that has not ended has not changed a row that another changes. */
  lemma {:induction false} NotChanged(nm: Naming, states: seq<State>, events: seq<Event>, n: nat, rs: seq<LogRecord>,
                                      t: int)
    requires Distinct(nm) && Orderly(states, events) && n < |events| && Writer(events, n) && t != events[n].txn
    requires Traced(nm, events, n, rs) && Known(events, n, states[n], rs) && t !in states[n].ended
    ensures !ChangedBy(rs, t, KeyFor(nm, CellOf(events[n].op)))
  {
    hide Orderly, Ended, EndsBefore, HasBegin, Touches;
    forall i | 0 <= i < |rs| && Writes(rs[i]) && Touches(rs[i], KeyFor(nm, CellOf(events[n].op)))
      ensures rs[i].tid != t
    {
      if rs[i].tid == t {
        OthersHaveEnded(nm, states, events, n, rs, i);
      }
    }
  }

  lemma BeginFollows(events: seq<Event>, n: nat, s: State, s': State, rs: seq<LogRecord>, r: LogRecord)
    requires n < |events| && Log(rs) && Known(events, n, s, rs) && Step(s, events[n], s') && events[n].Begin?
    requires r == Record(BEGIN, events[n].txn, NoBody)
    ensures CanFollow(rs, r)
  {
    hide Log, HasBegin, Ended, EndsBefore;
    forall b | 0 <= b < |rs|
      ensures rs[b].tid != r.tid
    {
      assert HasBegin(rs, rs[b].tid);
    }
    LogKinds(rs);
    if Ended(rs, r.tid) {
      EndedHas(rs, r.tid);
    }
  }

  lemma EndedHas(rs: seq<LogRecord>, t: int)
    requires Ended(rs, t)
    ensures exists b :: 0 <= b < |rs| && rs[b].tid == t
  {
  }

  lemma {:induction false} EndFollows(nm: Naming, events: seq<Event>, n: nat, s: State, s': State, rs: seq<LogRecord>,
                                      db: Db,
                                      r: LogRecord)
    requires n < |events| && Inv(nm, events, n, s, rs, db) && db == DbOf(events, n) && Step(s, events[n], s')
    requires InTurn(events, n) && events[n].End? && Logs(nm, db, events[n], r)
    ensures CanFollow(rs, r)
  {
    var t := events[n].txn;
    LogsWhat(nm, db, events[n], r);
    assert r.kind == if events[n].commit then COMMIT else ABORT;
    hide Logs, Log, HasBegin, Ended, EndsBefore, Aborting, Running;
    LogKinds(rs);
    assert Goes(nm, events, n, rs, db, t);
    if r.kind == ABORT {
      forall f | 0 <= f < |rs| && rs[f].tid == t && First(rs, f)
        ensures Running(rs, |rs|, KeyOf(rs[f].body)) == OldValue(rs[f])
      {
        var k := KeyOf(rs[f].body);
        assert Touches(rs[f], k);
        var x :| 0 <= x < n && Wrote(nm, events, x, rs[f].tid, k);
        var c := CellOf(events[x].op);
        assert Enc(nm, ValueAt(Unwind(db, []), c)) == OldValue(rs[f]);
        assert Running(rs, |rs|, KeyFor(nm, c)) == Enc(nm, ValueAt(db, c));
      }
    }
  }

  lemma {:induction false} RecordKeeps(nm: Naming, events: seq<Event>, n: nat, s: State, s': State,
                                       rs: seq<LogRecord>, db: Db,
                                       r: LogRecord)
    requires Distinct(nm) && n < |events| && Inv(nm, events, n, s, rs, db) && db == DbOf(events, n)
             && Step(s, events[n], s')
    requires events[n].Begin? || events[n].End?
    requires Logs(nm, db, events[n], r) && CanFollow(rs, r)
    ensures Inv(nm, events, n + 1, s', rs + [r], NextDb(db, events[n]))
  {
    var e := events[n];
    StepTxns(s, e, s');
    LogsWhat(nm, db, e, r);
    hide CanFollow, Logs, Step, Running, Goes, Traced, Mirrors;
    LogExtends(rs, r);
    LogKinds(rs + [r]);
    MirrorsSame(nm, rs, r, db);
    TracedNext(nm, events, n, rs, db, r);
    KnownNext(nm, events, n, s, s', rs, db, r);
    forall t | t !in s'.ended
      ensures Goes(nm, events, n + 1, rs + [r], NextDb(db, e), t)
    {
      if t == e.txn {
        BegunGoes(nm, events, n, rs, db, r);
      } else {
        OtherGoes(nm, events, n, rs, db, r, t);
      }
    }
  }

  /** A transaction that begins has no records and no writes. */
  lemma {:induction false} BegunGoes(nm: Naming, events: seq<Event>, n: nat, rs: seq<LogRecord>, db: Db, r: LogRecord)
    requires n < |events| && Kinded(rs) && Kinded(rs + [r]) && db == DbOf(events, n) && events[n].Begin?
    requires Logs(nm, db, events[n], r) && Goes(nm, events, n, rs, db, events[n].txn)
    ensures Goes(nm, events, n + 1, rs + [r], NextDb(db, events[n]), events[n].txn)
  {
    hide Running, Aborting, Touches;
    var t, ls := events[n].txn, rs + [r];
    var ws := WriteSet(events, n, t);
    assert WriteSet(events, n + 1, t) == ws;
    AbortingNext(events, n, t);
    forall x | 0 <= x < |ws|
      ensures ChangedBy(ls, t, KeyFor(nm, ws[x].cell))
    {
      ChangedExtends(rs, r, t, KeyFor(nm, ws[x].cell));
    }
    forall f, d | 0 <= f < |ls| && ls[f].tid == t && First(ls, f) && KeyOf(ls[f].body) == KeyFor(nm, d)
      ensures Enc(nm, ValueAt(Unwind(db, ws), d)) == OldValue(ls[f])
    {
      ExtendFirst(rs, r, f);
    }
  }

  lemma {:induction false} QuietKeeps(nm: Naming, events: seq<Event>, n: nat, s: State, s': State, rs: seq<LogRecord>,
                                      db: Db)
    requires n < |events| && Inv(nm, events, n, s, rs, db) && db == DbOf(events, n) && Step(s, events[n], s')
    requires Logged(nm, db, events[n]) == []
    ensures Inv(nm, events, n + 1, s', rs, NextDb(db, events[n]))
  {
    var e := events[n];
    assert !Alters(db, e) && !e.Begin? && !e.End?;
    StepTxns(s, e, s');
    hide Log, Step, Goes, Mirrors, Traced, Known;
    QuietDb(db, e);
    LogKinds(rs);
    TracedQuiet(nm, events, n, rs);
    KnownQuiet(events, n, s, s', rs);
    forall t | t !in s'.ended
      ensures Goes(nm, events, n + 1, rs, NextDb(db, e), t)
    {
      QuietGoes(nm, events, n, rs, db, t);
    }
  }

  /** Along every orderly run the log is one from which recovery works, and it tells what the tables are. */
  lemma {:induction false} RunKeeps(nm: Naming, states: seq<State>, events: seq<Event>, n: nat)
    requires Distinct(nm) && Orderly(states, events) && n <= |events|
    ensures n < |states| && Inv(nm, events, n, states[n], LogOf(nm, events, n), DbOf(events, n))
  {
    hide Inv, InTurn, Step, Logged, Alters;
    if n == 0 {
      FirstState(nm, events);
    } else {
      RunKeeps(nm, states, events, n - 1);
      RunStep(states, events, n - 1);
      EventKeeps(nm, states, events, n - 1, LogOf(nm, events, n - 1), DbOf(events, n - 1));
    }
  }

  lemma FirstState(nm: Naming, events: seq<Event>)
    ensures Inv(nm, events, 0, INITIAL, [], map[])
  {
  }

  /** Every event keeps this. */
  lemma {:induction false} EventKeeps(nm: Naming, states: seq<State>, events: seq<Event>, n: nat, rs: seq<LogRecord>,
                                      db: Db)
    requires Distinct(nm) && Orderly(states, events) && n < |events| && |states| == |events| + 1
    requires Inv(nm, events, n, states[n], rs, db) && db == DbOf(events, n)
    ensures Inv(nm, events, n + 1, states[n + 1], rs + Logged(nm, db, events[n]), NextDb(db, events[n]))
  {
    var out := Logged(nm, db, events[n]);
    RunStep(states, events, n);
    if Alters(db, events[n]) {
      assert Logs(nm, db, events[n], out[0]);
      ChangeKeeps(nm, states, events, n, rs, db, out[0]);
    } else if events[n].Begin? {
      hide Inv;
      assert Logs(nm, db, events[n], out[0]);
      InvParts(nm, events, n, states[n], rs, db);
      BeginFollows(events, n, states[n], states[n + 1], rs, out[0]);
      RecordKeeps(nm, events, n, states[n], states[n + 1], rs, db, out[0]);
    } else if events[n].End? {
      hide Inv;
      assert Logs(nm, db, events[n], out[0]);
      EndFollows(nm, events, n, states[n], states[n + 1], rs, db, out[0]);
      RecordKeeps(nm, events, n, states[n], states[n + 1], rs, db, out[0]);
    } else {
      hide Inv;
      assert out == [] && rs + out == rs;
      QuietKeeps(nm, events, n, states[n], states[n + 1], rs, db);
    }
  }

  lemma InvParts(nm: Naming, events: seq<Event>, n: nat, s: State, rs: seq<LogRecord>, db: Db)
    requires n <= |events| && Inv(nm, events, n, s, rs, db)
    ensures Log(rs) && Known(events, n, s, rs)
  {
  }
}
