/** When a lock is granted, and what a granted lock gives. */
module LockOutcomes {
  import opened Locks

  // ---- what the modes are for

  /** The mode lets its holder read the whole table. */
  predicate ReadsAll(m: Mode) {
    m == S || m == SIX || m == X
  }

  /** The mode lets its holder write some records, or the whole table. */
  predicate WritesSome(m: Mode) {
    m == IX || m == SIX || m == X
  }

  predicate WritesAll(m: Mode) {
    m == X
  }

  /** Two holders could get in each other's way although neither locks a record: one may write
      everything, or one may read everything while the other writes. */
  predicate Conflict(a: Mode, b: Mode) {
    WritesAll(a) || WritesAll(b) || (ReadsAll(a) && WritesSome(b)) || (WritesSome(a) && ReadsAll(b))
  }

  /** Modes are refused exactly for conflicts. */
  lemma RefusesConflicts(held: Mode, asked: Mode)
    ensures Refuses(held, asked) <==> Conflict(held, asked)
  {
  }

  ghost predicate Has(s: LockState, t: int, id: LockId, mode: Mode) {
    Request(t, mode) in Queue(s.queues, id)
  }

  /** Nobody else holds a lock that conflicts. */
  ghost predicate Clear(s: LockState, t: int, id: LockId, mode: Mode) {
    forall x :: x in Queue(s.queues, id) && x.txn != t ==> !Conflict(x.mode, mode)
  }

  lemma ClearIsFree(s: LockState, t: int, id: LockId, mode: Mode)
    ensures Clear(s, t, id, mode) <==> Free(Queue(s.queues, id), t, mode)
  {
    var q := Queue(s.queues, id);
    forall m
      ensures Refuses(m, mode) <==> Conflict(m, mode)
    {
      RefusesConflicts(m, mode);
    }
    forall i | 0 <= i < |q|
      ensures q[i] in q
    {
    }
  }

  /** Requests of other transactions, and of this one for other things, are as before. */
  ghost predicate OthersKept(s: LockState, s': LockState, t: int, ids: set<LockId>) {
    forall k, x: Request :: x.txn != t || k !in ids ==> SameAt(s, s', k, x)
  }

  ghost predicate SameAt(s: LockState, s': LockState, k: LockId, x: Request) {
    x in Queue(s'.queues, k) <==> x in Queue(s.queues, k)
  }

  // ---- tables

  /** A table lock is granted exactly when the transaction has not begun to release and nobody else's
      lock conflicts; then it is held, and otherwise no lock changes. */
  lemma OnTableGranted(s: LockState, t: int, fd: int, mode: Mode)
    requires t in s.txns
    ensures var (s', r) := OnTable(s, t, fd, mode);
            && (r == LockOnShrinking <==> s.txns[t].state == SHRINKING)
            && (r == Granted <==> s.txns[t].state != SHRINKING && Clear(s, t, Table(fd), mode))
            && (r == Granted ==> Has(s', t, Table(fd), mode) && Table(fd) in s'.txns[t].lockSet)
            && (r != Granted ==> SameRequests(s, s'))
            && OthersKept(s, s', t, {Table(fd)}) && t in s'.txns
            && s'.txns[t].state == if r == LockOnShrinking then ABORTED else GROWING
  {
    ClearIsFree(s, t, Table(fd), mode);
  }

  // ---- records

  /** The table lock that a record lock asks for first sees the same locks. */
  lemma TouchedSame(s: LockState, t: int, id: LockId)
    requires t in s.txns
    ensures var s1 := Touch(SetState(s, t, GROWING), id);
            && (forall k :: Queue(s1.queues, k) == Queue(s.queues, k)) && t in s1.txns
            && s1.txns[t].state == GROWING && s1.txns[t].lockSet == s.txns[t].lockSet
            && SameRequests(s, s1)
  {
  }

  /** An exclusive lock on a record is granted exactly when the transaction has not begun to release,
      nobody else's lock on the table conflicts with IX, and nobody else has a lock on the record. Then
      the transaction holds X on the record and IX on the table. */
  lemma ExclusiveGranted(s: LockState, t: int, id: LockId)
    requires t in s.txns && id.Record? && LockInv(s)
    ensures var (s', r) := ExclusiveOnRecord(s, t, id);
            && (r == LockOnShrinking <==> s.txns[t].state == SHRINKING)
            && (r == Granted <==>
                s.txns[t].state != SHRINKING && Clear(s, t, Table(id.fd), IX) && Clear(s, t, id, X))
            && (r == Granted ==> Has(s', t, id, X) && Has(s', t, Table(id.fd), IX) && id in s'.txns[t].lockSet)
            && (r != Granted ==> Queue(s'.queues, id) == Queue(s.queues, id))
            && OthersKept(s, s', t, {id, Table(id.fd)}) && t in s'.txns
            && s'.txns[t].state == if r == LockOnShrinking then ABORTED else GROWING
  {
    hide OnTable, LockInv, Free, Clear, OthersKept;
    SameKept(s, s, t, {id, Table(id.fd)});
    SameKept(s, SetState(s, t, ABORTED), t, {id, Table(id.fd)});
    if s.txns[t].state != SHRINKING {
      var s1 := Touch(SetState(s, t, GROWING), id);
      TouchedSame(s, t, id);
      OnTableGranted(s1, t, id.fd, IX);
      SameClear(s, s1, t, Table(id.fd), IX);
      ClearIsFree(s, t, id, X);
      OnTableKeepsQueue(s1, t, id.fd, IX, id);
      BothKept(s, s1, OnTable(s1, t, id.fd, IX).0, t, id, X);
    }
  }

  /** Asking for the table and then queueing a request for the record leaves all other requests. */
  lemma BothKept(s: LockState, s1: LockState, s2: LockState, t: int, id: LockId, mode: Mode)
    requires id.Record? && t in s2.txns && (forall k :: Queue(s1.queues, k) == Queue(s.queues, k))
    requires OthersKept(s1, s2, t, {Table(id.fd)})
    ensures OthersKept(s, s2, t, {id, Table(id.fd)})
    ensures OthersKept(s, Enqueue(s2, t, id, mode), t, {id, Table(id.fd)})
  {
    var s3 := Enqueue(s2, t, id, mode);
    forall k, x: Request | x.txn != t || k !in {id, Table(id.fd)}
      ensures SameAt(s, s2, k, x) && SameAt(s, s3, k, x)
    {
      assert SameAt(s1, s2, k, x);
    }
  }

  lemma SameKept(s: LockState, s': LockState, t: int, ids: set<LockId>)
    requires SameRequests(s, s')
    ensures OthersKept(s, s', t, ids)
  {
  }

  lemma SameClear(s: LockState, s': LockState, t: int, id: LockId, mode: Mode)
    requires Queue(s'.queues, id) == Queue(s.queues, id)
    ensures Clear(s', t, id, mode) <==> Clear(s, t, id, mode)
  {
  }

  lemma OnTableKeepsQueue(s: LockState, t: int, fd: int, mode: Mode, id: LockId)
    requires t in s.txns && id != Table(fd)
    ensures Queue(OnTable(s, t, fd, mode).0.queues, id) == Queue(s.queues, id)
  {
  }

  /** A shared lock on a record is granted exactly when the transaction is not aborted and has not begun to
      release, and nobody else has X on the table or on the record. Then the transaction holds S or X
      on the record and IS on the table. */
  lemma SharedGranted(s: LockState, t: int, id: LockId)
    requires t in s.txns && id.Record? && LockInv(s)
    ensures var (s', r) := SharedOnRecord(s, t, id);
            && (r == LockOnShrinking <==> s.txns[t].state == SHRINKING)
            && (r == Granted <==>
                && s.txns[t].state != SHRINKING && s.txns[t].state != ABORTED
                && Clear(s, t, Table(id.fd), IS) && Clear(s, t, id, S))
            && (r == Granted ==> (Has(s', t, id, S) || Has(s', t, id, X)) && Has(s', t, Table(id.fd), IS))
            && (r != Granted ==> Queue(s'.queues, id) == Queue(s.queues, id))
            && OthersKept(s, s', t, {id, Table(id.fd)}) && t in s'.txns
            && (s.txns[t].state == ABORTED ==> s' == s)
            && (s.txns[t].state != ABORTED ==> s'.txns[t].state == if r == LockOnShrinking then ABORTED else GROWING)
  {
    hide OnTable, LockInv, Free, Clear, OthersKept;
    SameKept(s, s, t, {id, Table(id.fd)});
    SameKept(s, SetState(s, t, ABORTED), t, {id, Table(id.fd)});
    if s.txns[t].state != SHRINKING && s.txns[t].state != ABORTED {
      var s1 := Touch(SetState(s, t, GROWING), id);
      TouchedSame(s, t, id);
      OnTableGranted(s1, t, id.fd, IS);
      SameClear(s, s1, t, Table(id.fd), IS);
      OnTableKeepsQueue(s1, t, id.fd, IS, id);
      BothKept(s, s1, OnTable(s1, t, id.fd, IS).0, t, id, S);
      ClearOfX(s, t, id);
    }
  }

  /** On a record, S is clear exactly when the first X, if any, is the transaction's own. */
  lemma ClearOfX(s: LockState, t: int, id: LockId)
    requires LockInv(s) && id.Record?
    ensures var q := Queue(s.queues, id);
            Clear(s, t, id, S) <==>
              if exists i :: 0 <= i < |q| && q[i].mode == X then FirstX(q).txn == t else true
  {
    var q := Queue(s.queues, id);
    if exists i :: 0 <= i < |q| && q[i].mode == X {
      var a := FirstX(q);
      if a.txn == t {
        forall x | x in q
          ensures x.txn == t
        {
          OnlyHolder(s, id, x, a);
        }
      }
    } else {
      forall x | x in q
        ensures !Conflict(x.mode, S)
      {
        assert x.mode == S || x.mode == X;
      }
    }
  }

  /** Nobody holds a lock beside an exclusive one. */
  lemma OnlyHolder(s: LockState, id: LockId, x: Request, a: Request)
    requires Compatible(s) && x in Queue(s.queues, id) && a in Queue(s.queues, id) && a.mode == X
    ensures x.txn == a.txn
  {
    assert x.txn != a.txn ==> !Refuses(x.mode, a.mode);
  }

  // ---- two phases

  /** Giving back a lock in the growing phase ends it: the next request, whatever it is, is answered with
      LockOnShrinking, which aborts the transaction. */
  lemma NoLockAfterUnlock(s: LockState, t: int, id: LockId, fd: int, mode: Mode, rec: LockId)
    requires t in s.txns && s.txns[t].state == GROWING && rec.Record?
    ensures var s' := Unlocked(s, t, id);
            && t in s'.txns && s'.txns[t].state == SHRINKING
            && OnTable(s', t, fd, mode).1 == LockOnShrinking
            && SharedOnRecord(s', t, rec).1 == LockOnShrinking
            && ExclusiveOnRecord(s', t, rec).1 == LockOnShrinking
  {
  }

  /** The request after that one is not refused for the phase: table and exclusive locks of an aborted
      transaction are granted as if it were growing, shared record locks are not. */
  lemma AbortedLocksAgain(s: LockState, t: int, fd: int, mode: Mode, rec: LockId)
    requires t in s.txns && s.txns[t].state == SHRINKING && rec.Record? && s.queues == map[]
    ensures var s' := OnTable(s, t, fd, mode).0;
            && t in s'.txns && s'.txns[t].state == ABORTED
            && OnTable(s', t, fd, mode).1 == Granted && ExclusiveOnRecord(s', t, rec).1 == Granted
            && SharedOnRecord(s', t, rec).1 == Refused
  {
  }
}
