/** A transaction releases its locks before its COMMIT is logged, so another can overtake it. */
module Overtaking {
  import opened Locks
  import opened Serial
  import opened LogCodec
  import opened Recovery
  import opened Survivors
  import opened CrashRun

  /** No committed transaction touches the row from record `n` on. */
  ghost predicate NoWinner(rs: seq<LogRecord>, k: Key, n: nat) {
    forall i :: n <= i < |rs| && Touches(rs[i], k) ==> !Committed(rs, rs[i].tid)
  }

  lemma {:induction false} LastWinner(rs: seq<LogRecord>, k: Key, j: nat, n: nat)
    requires Kinded(rs) && j < n <= |rs| && Touches(rs[j], k) && Committed(rs, rs[j].tid) && NoWinner(rs, k, j + 1)
    ensures At(CommittedRows(rs, n), k) == RedoValue(rs[j])
  {
    hide Committed, CommittedRows;
    CommittedNext(rs, n - 1, k);
    if n > j + 1 {
      LastWinner(rs, k, j, n - 1);
    }
  }

  /** If a committed transaction has changed a row after one that has no end, recovery leaves what was there
      before the latter, and the committed value is lost unless that is the same. */
  lemma OvertakenRow(rs: seq<LogRecord>, k: Key, f: nat, j: nat)
    requires Kinded(rs) && f < |rs| && LostChange(rs, k, f) && forall i :: 0 <= i < f ==> !LostChange(rs, k, i)
    requires j < |rs| && Touches(rs[j], k) && Committed(rs, rs[j].tid) && NoWinner(rs, k, j + 1)
    ensures At(Recovered(rs), k) == OldValue(rs[f]) && At(CommittedRows(rs, |rs|), k) == RedoValue(rs[j])
    ensures At(Recovered(rs), k) == At(CommittedRows(rs, |rs|), k) <==> OldValue(rs[f]) == RedoValue(rs[j])
  {
    BackFirst(rs, 0, f, k);
    LastWinner(rs, k, j, |rs|);
  }

  // ---- a run in which this happens

  const ROW := LockId.Record(0, 1, 0)

  function Write(t: int, v: int): Event {
    Access(t, Put(0, 1, 0, v, false), false)
  }

  /** Transaction 1 inserts a row and releases its locks; transaction 2 updates the row and commits; then
      there is a crash. */
  function Overtaken(): seq<Event> {
    [ Begin(1), LockExclusive(1, ROW), Write(1, 7), Release(1, ROW), Release(1, Table(0)),
      Begin(2), LockExclusive(2, ROW), Write(2, 8), Release(2, ROW), Release(2, Table(0)), End(2, true) ]
  }

  /** The lock table with the locks of one transaction on the row. */
  ghost predicate Holding(s: State, t: int) {
    && s.locks.queues == map[ROW := [Request(t, X)], Table(0) := [Request(t, IX)]]
    && t in s.locks.txns && t !in s.released && t !in s.ended
  }

  lemma Lock(s: State, t: int) returns (s': State)
    requires s.locks.queues == map[] && t in s.locks.txns && s.locks.txns[t].state == DEFAULT
    requires t !in s.released && t !in s.ended
    ensures Step(s, LockExclusive(t, ROW), s') && Holding(s', t) && s'.released == s.released && s'.ended == s.ended
    ensures s'.locks.txns.Keys == s.locks.txns.Keys
  {
    s' := s.(locks := ExclusiveOnRecord(s.locks, t, ROW).0);
    var l := Touch(SetState(s.locks, t, GROWING), ROW);
    var m := OnTable(l, t, 0, IX).0;
    assert [] + [Request(t, X)] == [Request(t, X)] && [] + [Request(t, IX)] == [Request(t, IX)];
    assert l.queues == map[ROW := []] && m.queues == map[ROW := [], Table(0) := [Request(t, IX)]];
  }

  lemma NoneLeft(t: int, m: Mode)
    ensures Without([Request(t, m)], t) == []
  {
    assert [Request(t, m)][1..] == [];
  }

  lemma Unlock(s: State, t: int) returns (s1: State, s2: State)
    requires Holding(s, t)
    ensures Step(s, Release(t, ROW), s1) && Step(s1, Release(t, Table(0)), s2)
    ensures s2.locks.queues == map[] && s2.released == s.released + {t} && s2.ended == s.ended
    ensures s2.locks.txns.Keys == s.locks.txns.Keys
  {
    s1 := s.(locks := Unlocked(s.locks, t, ROW), released := s.released + {t});
    NoneLeft(t, X);
    NoneLeft(t, IX);
    assert Queue(s.locks.queues, ROW) == [Request(t, X)];
    assert s1.locks.queues == s.locks.queues - {ROW} == map[Table(0) := [Request(t, IX)]];
    assert Queue(s1.locks.queues, Table(0)) == [Request(t, IX)];
    s2 := s1.(locks := Unlocked(s1.locks, t, Table(0)), released := s1.released + {t});
  }

  lemma CanWrite(s: State, t: int, v: int)
    requires Holding(s, t)
    ensures Step(s, Write(t, v), s)
  {
    assert Queue(s.locks.queues, ROW)[0] == Request(t, X) && Queue(s.locks.queues, Table(0))[0] == Request(t, IX);
  }

  lemma Goes(states: seq<State>, events: seq<Event>, e: Event, s': State)
    requires Run(states, events) && Step(states[|events|], e, s')
    ensures Run(states + [s'], events + [e])
  {
    hide Step;
    var ss, es := states + [s'], events + [e];
    forall i | 0 <= i < |es|
      ensures StepAt(ss, es, i)
    {
      if i < |events| {
        assert StepAt(states, events, i);
      }
    }
  }

  ghost predicate LastIs(states: seq<State>, events: seq<Event>, s: State) {
    Run(states, events) && states[|events|] == s
  }

  lemma GoOn(states: seq<State>, events: seq<Event>, s: State, e: Event, s': State) returns (ss: seq<State>,
             es: seq<Event>)
    requires LastIs(states, events, s) && Step(s, e, s')
    ensures LastIs(ss, es, s') && ss == states + [s'] && es == events + [e]
  {
    Goes(states, events, e, s');
    ss, es := states + [s'], events + [e];
  }

  /** A transaction may begin, and no locks are held. */
  ghost predicate Idle(s: State, t: int) {
    t !in s.locks.txns && t !in s.released && t !in s.ended && s.locks.queues == map[]
  }

  /** The steps of a transaction that writes the row and lets go of it. */
  lemma Steps(s: State, t: int, v: int) returns (s1: State, s2: State, s3: State, s4: State)
    requires Idle(s, t)
    ensures Step(s, Begin(t), s1) && Step(s1, LockExclusive(t, ROW), s2) && Step(s2, Write(t, v), s2)
    ensures Step(s2, Release(t, ROW), s3) && Step(s3, Release(t, Table(0)), s4)
    ensures forall u :: u != t && Idle(s, u) ==> Idle(s4, u)
    ensures t in s4.locks.txns && s4.ended == s.ended
  {
    s1 := s.(locks := s.locks.(txns := s.locks.txns[t := Txn(DEFAULT, {})]));
    assert Step(s, Begin(t), s1);
    hide Step, Holding;
    s2 := Lock(s1, t);
    CanWrite(s2, t, v);
    s3, s4 := Unlock(s2, t);
  }

  lemma WriteAndRelease(states: seq<State>, events: seq<Event>, s: State, t: int, v: int)
    returns (ss: seq<State>, es: seq<Event>, s': State)
    requires LastIs(states, events, s) && Idle(s, t)
    ensures LastIs(ss, es, s') && t in s'.locks.txns && s'.ended == s.ended
    ensures es == events + [Begin(t), LockExclusive(t, ROW), Write(t, v), Release(t, ROW), Release(t, Table(0))]
    ensures forall u :: u != t && Idle(s, u) ==> Idle(s', u)
  {
    hide Step, LastIs, Idle;
    var s1, s2, s3, s4 := Steps(s, t, v);
    ss, es := GoOn(states, events, s, Begin(t), s1);
    ss, es := GoOn(ss, es, s1, LockExclusive(t, ROW), s2);
    ss, es := GoOn(ss, es, s2, Write(t, v), s2);
    ss, es := GoOn(ss, es, s2, Release(t, ROW), s3);
    ss, es := GoOn(ss, es, s3, Release(t, Table(0)), s4);
    s' := s4;
  }

  /** The lock manager allows it. */
  lemma OvertakenRuns() returns (states: seq<State>)
    ensures Run(states, Overtaken())
  {
    assert LastIs([INITIAL], [], INITIAL) && Idle(INITIAL, 1) && Idle(INITIAL, 2);
    var events, s;
    states, events, s := WriteAndRelease([INITIAL], [], INITIAL, 1, 7);
    states, events, s := WriteAndRelease(states, events, s, 2, 8);
    var s' := s.(released := s.released + {2}, ended := s.ended + {2});
    states, events := GoOn(states, events, s, End(2, true), s');
    assert events == Overtaken();
  }

  const PLACE: Cell := (0, 1, 0)

  function Lost(nm: Naming): seq<LogRecord> {
    var k := nm.name(0);
    [ CrashRun.Record(BEGIN, 1, NoBody), CrashRun.Record(INSERT, 1, Row(nm.enc(7), 1, 0, k)),
      CrashRun.Record(BEGIN, 2, NoBody), CrashRun.Record(UPDATE, 2, Change(nm.enc(7), nm.enc(8), 1, 0, k)),
      CrashRun.Record(COMMIT, 2, NoBody) ]
  }

  lemma Tables(events: seq<Event>)
    requires events == Overtaken()
    ensures DbOf(events, 0) == DbOf(events, 1) == DbOf(events, 2) == map[]
    ensures DbOf(events, 3) == DbOf(events, 4) == DbOf(events, 5) == map[PLACE := 7]
    ensures DbOf(events, 6) == DbOf(events, 7) == map[PLACE := 7]
    ensures DbOf(events, 8) == DbOf(events, 9) == DbOf(events, 10) == map[PLACE := 8]
  {
    assert DbOf(events, 1) == map[];
    assert DbOf(events, 3) == map[PLACE := 7];
    assert DbOf(events, 5) == map[PLACE := 7];
    assert DbOf(events, 7) == map[PLACE := 7];
    assert DbOf(events, 9) == map[PLACE := 8];
  }

  ghost function LoggedAt(nm: Naming, events: seq<Event>, n: nat): seq<LogRecord>
    requires n < |events|
  {
    Logged(nm, DbOf(events, n), events[n])
  }

  /** Events from `m` to `n` that log nothing, and one that logs a record. */
  lemma {:induction false} LogNext(nm: Naming, events: seq<Event>, m: nat, n: nat, r: LogRecord)
    requires m <= n < |events| && LoggedAt(nm, events, n) == [r]
    requires forall i :: m <= i < n ==> LoggedAt(nm, events, i) == []
    ensures LogOf(nm, events, n + 1) == LogOf(nm, events, m) + [r]
    decreases n - m
  {
    if m < n {
      assert LoggedAt(nm, events, m) == [] && LogOf(nm, events, m) + [] == LogOf(nm, events, m);
      LogNext(nm, events, m + 1, n, r);
    }
  }

  lemma FirstWrites(nm: Naming, events: seq<Event>)
    requires events == Overtaken()
    ensures LoggedAt(nm, events, 0) == [Lost(nm)[0]] && LoggedAt(nm, events, 2) == [Lost(nm)[1]]
    ensures LoggedAt(nm, events, 1) == LoggedAt(nm, events, 3) == LoggedAt(nm, events, 4) == []
  {
    Tables(events);
    hide DbOf;
  }

  lemma SecondWrites(nm: Naming, events: seq<Event>)
    requires events == Overtaken()
    ensures LoggedAt(nm, events, 5) == [Lost(nm)[2]] && LoggedAt(nm, events, 7) == [Lost(nm)[3]]
    ensures LoggedAt(nm, events, 6) == LoggedAt(nm, events, 8) == LoggedAt(nm, events, 9) == []
    ensures LoggedAt(nm, events, 10) == [Lost(nm)[4]]
  {
    Tables(events);
    hide DbOf;
  }

  lemma FiveEntries(nm: Naming, events: seq<Event>)
    requires events == Overtaken()
    ensures |Lost(nm)| == 5 && |events| == 11 && LogOf(nm, events, 0) == []
  {
  }

  lemma Written(nm: Naming, events: seq<Event>)
    requires events == Overtaken()
    ensures LogOf(nm, events, 11) == Lost(nm)
  {
    hide *;
    var ls := Lost(nm);
    FiveEntries(nm, events);
    FirstWrites(nm, events);
    SecondWrites(nm, events);
    LogNext(nm, events, 0, 0, ls[0]);
    LogNext(nm, events, 1, 2, ls[1]);
    LogNext(nm, events, 3, 5, ls[2]);
    LogNext(nm, events, 6, 7, ls[3]);
    LogNext(nm, events, 8, 10, ls[4]);
    assert [] + [ls[0]] + [ls[1]] + [ls[2]] + [ls[3]] + [ls[4]] == ls;
  }

  /** A run that the lock manager allows, with nothing rolled back. Its whole log is on disk, transaction 2
      has committed the value 8, and recovery leaves no row. */
  lemma WorkLost(nm: Naming) returns (states: seq<State>)
    ensures Run(states, Overtaken()) && LogOf(nm, Overtaken(), 11) == Lost(nm) && Kinded(Lost(nm)) && Framed(Lost(nm))
    ensures Committed(Lost(nm), 2) && At(CommittedRows(Lost(nm), 5), KeyFor(nm, PLACE)) == Some(nm.enc(8))
    ensures At(Recovered(Lost(nm)), KeyFor(nm, PLACE)) == None
  {
    states := OvertakenRuns();
    Written(nm, Overtaken());
    LostFacts(nm, Lost(nm));
    hide Run, Overtaken, LogOf, Lost;
    OvertakenRow(Lost(nm), KeyFor(nm, PLACE), 1, 3);
  }

  lemma LostFacts(nm: Naming, rs: seq<LogRecord>)
    requires rs == Lost(nm)
    ensures |rs| == 5 && Kinded(rs) && Framed(rs) && Committed(rs, 2) && rs[3].tid == 2
    ensures LostChange(rs, KeyFor(nm, PLACE), 1) && !LostChange(rs, KeyFor(nm, PLACE), 0)
    ensures Touches(rs[3], KeyFor(nm, PLACE)) && NoWinner(rs, KeyFor(nm, PLACE), 4)
    ensures OldValue(rs[1]) == None && RedoValue(rs[3]) == Some(nm.enc(8))
  {
    assert rs[4].kind == COMMIT && rs[4].tid == 2 && rs[0].kind == BEGIN && rs[2].kind == BEGIN && rs[0].tid == 1;
    assert rs[1].kind == INSERT && rs[1].tid == 1 && rs[3].kind == UPDATE && rs[2].tid == 2;
    assert !Ended(rs, 1);
  }
}
