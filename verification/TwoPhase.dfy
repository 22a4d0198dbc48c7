/** Two phases in runs of the lock manager: a granted lock is enough for the access it was asked for, and after
    the first release the state of a transaction keeps it from locking. */
module TwoPhase {
  import opened Locks
  import opened Serial
  import LockOutcomes

  // ---- locks and accesses

  /** A granted lock allows the access that the executors ask it for: a shared table lock a scan, an exclusive
      record lock a write of the record, an exclusive table lock a write of any record. */
  lemma GrantedMayAct(s: LockState, t: int, fd: int, pageNo: int, slotNo: int, v: int)
    requires t in s.txns && LockInv(s)
    ensures OnTable(s, t, fd, S).1 == Granted ==> Holds(OnTable(s, t, fd, S).0, t, Op.Scan(fd))
    ensures OnTable(s, t, fd, X).1 == Granted ==>
              && Holds(OnTable(s, t, fd, X).0, t, Put(fd, pageNo, slotNo, v, true))
              && Holds(OnTable(s, t, fd, X).0, t, Remove(fd, pageNo, slotNo, true))
    ensures var (s', r) := ExclusiveOnRecord(s, t, Record(fd, pageNo, slotNo));
            r == Granted ==>
              Holds(s', t, Put(fd, pageNo, slotNo, v, false)) && Holds(s', t, Remove(fd, pageNo, slotNo, false))
  {
    hide OnTable, ExclusiveOnRecord, LockInv;
    LockOutcomes.OnTableGranted(s, t, fd, S);
    LockOutcomes.OnTableGranted(s, t, fd, X);
    LockOutcomes.ExclusiveGranted(s, t, Record(fd, pageNo, slotNo));
  }

  // ---- phases

  /** Before its first release a transaction is new or growing, and growing as soon as it holds a lock. */
  ghost predicate Phase(s: State, t: int) {
    t !in s.released ==>
      && (t in s.locks.txns ==> s.locks.txns[t].state == DEFAULT || s.locks.txns[t].state == GROWING)
      && (HasAny(s.locks, t) ==> t in s.locks.txns && s.locks.txns[t].state == GROWING)
  }

  ghost predicate HasAny(s: LockState, t: int) {
    exists id, x: Request :: x in Queue(s.queues, id) && x.txn == t
  }

  /** The transaction's state and locks are the same. */
  ghost predicate Untouched(s: LockState, s': LockState, t: int) {
    && (t in s'.txns <==> t in s.txns) && (t in s.txns ==> s'.txns[t] == s.txns[t])
    && (HasAny(s', t) <==> HasAny(s, t))
  }

  lemma KeptAny(s: LockState, s': LockState, t: int, u: int, ids: set<LockId>)
    requires LockOutcomes.OthersKept(s, s', u, ids) && t != u
    ensures HasAny(s', t) <==> HasAny(s, t)
  {
    hide Queue;
    if HasAny(s', t) {
      var id, x: Request :| x in Queue(s'.queues, id) && x.txn == t;
      assert LockOutcomes.SameAt(s, s', id, x);
    }
    if HasAny(s, t) {
      var id, x: Request :| x in Queue(s.queues, id) && x.txn == t;
      assert LockOutcomes.SameAt(s, s', id, x);
    }
  }

  lemma OtherTxns(s: LockState, t: int, u: int, fd: int, mode: Mode)
    requires u in s.txns && t != u
    ensures var s' := OnTable(s, u, fd, mode).0;
            (t in s'.txns <==> t in s.txns) && (t in s.txns ==> s'.txns[t] == s.txns[t])
  {
  }

  lemma OtherTxnsOnRecord(s: LockState, t: int, u: int, id: LockId)
    requires u in s.txns && t != u && id.Record?
    ensures var s' := SharedOnRecord(s, u, id).0;
            (t in s'.txns <==> t in s.txns) && (t in s.txns ==> s'.txns[t] == s.txns[t])
    ensures var s' := ExclusiveOnRecord(s, u, id).0;
            (t in s'.txns <==> t in s.txns) && (t in s.txns ==> s'.txns[t] == s.txns[t])
  {
    hide OnTable;
    var s1 := Touch(SetState(s, u, GROWING), id);
    LockOutcomes.OnTableGranted(s1, u, id.fd, IS);
    LockOutcomes.OnTableGranted(s1, u, id.fd, IX);
    OtherTxns(s1, t, u, id.fd, IS);
    OtherTxns(s1, t, u, id.fd, IX);
  }

  /** A step of another transaction does not touch this one. */
  lemma OtherStep(s: State, e: Event, s': State, t: int)
    requires StateInv(s) && Step(s, e, s') && e.txn != t
    ensures Untouched(s.locks, s'.locks, t)
  {
    hide OnTable, SharedOnRecord, ExclusiveOnRecord, Unlocked, LockInv, HasAny, Intends;
    match e
    case LockTable(u, fd, mode) =>
      LockOutcomes.OnTableGranted(s.locks, u, fd, mode);
      KeptAny(s.locks, s'.locks, t, u, {Table(fd)});
      OtherTxns(s.locks, t, u, fd, mode);
    case LockShared(u, id) =>
      LockOutcomes.SharedGranted(s.locks, u, id);
      KeptAny(s.locks, s'.locks, t, u, {id, Table(id.fd)});
      OtherTxnsOnRecord(s.locks, t, u, id);
    case LockExclusive(u, id) =>
      LockOutcomes.ExclusiveGranted(s.locks, u, id);
      KeptAny(s.locks, s'.locks, t, u, {id, Table(id.fd)});
      OtherTxnsOnRecord(s.locks, t, u, id);
    case Release(u, id) =>
      UnlockedAre(s.locks, s'.locks, u, id);
      UnlockedAny(s.locks, s'.locks, t, u, id);
    case Begin(u) =>
      SameAny(s.locks, s'.locks, t);
    case _ =>
  }

  lemma SameAny(s: LockState, s': LockState, t: int)
    requires s'.queues == s.queues
    ensures HasAny(s', t) <==> HasAny(s, t)
  {
  }

  lemma UnlockedAny(s: LockState, s': LockState, t: int, u: int, id: LockId)
    requires u in s.txns && s' == Unlocked(s, u, id) && t != u
    ensures HasAny(s', t) <==> HasAny(s, t)
  {
    hide Queue, Unlocked;
    UnlockedAre(s, s', u, id);
    if HasAny(s, t) {
      var k, x: Request :| x in Queue(s.queues, k) && x.txn == t;
      assert Kept(k, x, u, id);
    }
  }

  lemma PhaseStep(s: State, e: Event, s': State, t: int)
    requires StateInv(s) && Step(s, e, s') && Phase(s, t)
    ensures Phase(s', t)
  {
    hide OnTable, SharedOnRecord, ExclusiveOnRecord, Unlocked, LockInv, HasAny, Intends;
    if e.txn != t {
      OtherStep(s, e, s', t);
    } else {
      match e
      case Begin(_) =>
        NothingYet(s.locks, t);
        SameAny(s.locks, s'.locks, t);
      case LockTable(_, fd, mode) =>
        LockOutcomes.OnTableGranted(s.locks, t, fd, mode);
      case LockShared(_, id) =>
        LockOutcomes.SharedGranted(s.locks, t, id);
      case LockExclusive(_, id) =>
        LockOutcomes.ExclusiveGranted(s.locks, t, id);
      case _ =>
    }
  }

  lemma NothingYet(s: LockState, t: int)
    requires LockInv(s) && t !in s.txns
    ensures !HasAny(s, t)
  {
  }

  lemma {:induction false} PhaseAlong(states: seq<State>, events: seq<Event>, n: nat, t: int)
    requires Run(states, events) && n < |states|
    ensures Phase(states[n], t)
  {
    hide Phase, Step, StateInv;
    if n == 0 {
      PhaseAtStart(t);
    } else {
      PhaseAlong(states, events, n - 1, t);
      Reachable(states, events, n - 1);
      assert StepAt(states, events, n - 1);
      PhaseStep(states[n - 1], events[n - 1], states[n], t);
    }
  }

  lemma PhaseAtStart(t: int)
    ensures Phase(INITIAL, t)
  {
  }

  /** Once shrinking, a transaction stays so. */
  lemma {:induction false} StaysShrinking(states: seq<State>, events: seq<Event>, i: nat, n: nat, t: int)
    requires Run(states, events) && i <= n < |states| && t in states[i].released && t in states[i].locks.txns
    requires states[i].locks.txns[t].state == SHRINKING
    ensures t in states[n].released && t in states[n].locks.txns && states[n].locks.txns[t].state == SHRINKING
  {
    if i < n {
      StaysShrinking(states, events, i, n - 1, t);
      Reachable(states, events, n - 1);
      assert StepAt(states, events, n - 1);
      ShrinkingStep(states[n - 1], events[n - 1], states[n], t);
    }
  }

  lemma ShrinkingStep(s: State, e: Event, s': State, t: int)
    requires StateInv(s) && Step(s, e, s') && t in s.released && t in s.locks.txns
    requires s.locks.txns[t].state == SHRINKING
    ensures t in s'.released && t in s'.locks.txns && s'.locks.txns[t].state == SHRINKING
  {
    hide OnTable, SharedOnRecord, ExclusiveOnRecord, LockInv, HasAny, Intends;
    if e.txn != t {
      OtherStep(s, e, s', t);
    }
  }

  /** The lock manager itself keeps transactions to two phases: once a transaction that has accessed anything
      gives back a lock, every request it could make at any later time is answered with LockOnShrinking. */
  lemma TwoPhased(states: seq<State>, events: seq<Event>, a: nat, i: nat, n: nat, fd: int, mode: Mode, id: LockId)
    requires Run(states, events) && a < i < n < |states| && events[a].Access? && events[i].Release?
    requires events[a].txn == events[i].txn && Released(events, events[i].txn) == i && id.Record?
    ensures var t, s := events[i].txn, states[n].locks;
            && t in s.txns && OnTable(s, t, fd, mode).1 == LockOnShrinking
            && SharedOnRecord(s, t, id).1 == LockOnShrinking && ExclusiveOnRecord(s, t, id).1 == LockOnShrinking
  {
    hide SharedOnRecord, ExclusiveOnRecord, LockInv, Intends, Queue, Without;
    var t := events[i].txn;
    assert StepAt(states, events, a) && StepAt(states, events, i);
    var k, m := FirstGuard(events[a].op);
    Keeps(states, events, a, i, t, k, m);
    NotYet(states, events, i, t);
    PhaseAlong(states, events, i, t);
    assert Request(t, m).txn == t && HasAny(states[i].locks, t);
    UnlockShrinks(states[i].locks, t, events[i].id);
    StaysShrinking(states, events, i + 1, n, t);
    ShrinkingRefused(states[n].locks, t, fd, mode, id);
  }

  lemma FirstGuard(op: Op) returns (id: LockId, m: Mode)
    ensures (id, m) in Guards(op)
  {
    id, m := Table(op.fd), if op.Scan? then S else if op.wide then X else IX;
  }

  lemma UnlockShrinks(s: LockState, t: int, id: LockId)
    requires t in s.txns && s.txns[t].state == GROWING
    ensures t in Unlocked(s, t, id).txns && Unlocked(s, t, id).txns[t].state == SHRINKING
  {
  }

  lemma ShrinkingRefused(s: LockState, t: int, fd: int, mode: Mode, id: LockId)
    requires t in s.txns && s.txns[t].state == SHRINKING && id.Record?
    ensures OnTable(s, t, fd, mode).1 == LockOnShrinking
    ensures SharedOnRecord(s, t, id).1 == LockOnShrinking && ExclusiveOnRecord(s, t, id).1 == LockOnShrinking
  {
  }

  /** A transaction has released only after a release or its end. */
  lemma {:induction false} NotYet(states: seq<State>, events: seq<Event>, n: nat, t: int)
    requires Run(states, events) && n < |states|
    ensures t in states[n].released ==> t in states[n].ended || Released(events, t) < n
  {
    hide Locks.OnTable, SharedOnRecord, ExclusiveOnRecord, Unlocked, Queue;
    if n == 0 {
    } else {
      NotYet(states, events, n - 1, t);
      assert StepAt(states, events, n - 1);
    }
  }
}
