/** The lock manager: no-wait locks on tables and records. */
module Locks {
  datatype Mode = S | X | IS | IX | SIX

  datatype LockId = Table(fd: int) | Record(fd: int, pageNo: int, slotNo: int)

  datatype Request = Request(txn: int, mode: Mode)

  datatype TxnState = DEFAULT | GROWING | SHRINKING | COMMITTED | ABORTED

  datatype Txn = Txn(state: TxnState, lockSet: set<LockId>)

  datatype Outcome = Granted | Refused | LockOnShrinking

  /** The lock table and the transactions known to it. */
  datatype LockState = LockState(queues: map<LockId, seq<Request>>, txns: map<int, Txn>)

  /** Whether a request is refused because of a lock that another transaction holds. */
  predicate Refuses(held: Mode, asked: Mode) {
    match asked
    case S => held == IX || held == SIX || held == X
    case X => true
    case IS => held == X
    case IX => held == S || held == SIX || held == X
    case SIX => held == IX || held == S || held == SIX || held == X
  }

  function Queue(queues: map<LockId, seq<Request>>, id: LockId): seq<Request> {
    if id in queues then queues[id] else []
  }

  predicate Free(q: seq<Request>, t: int, mode: Mode) {
    forall i :: 0 <= i < |q| ==> q[i].txn == t || !Refuses(q[i].mode, mode)
  }

  // ---- what each call does

  function SetState(s: LockState, t: int, st: TxnState): LockState
    requires t in s.txns
  {
    s.(txns := s.txns[t := s.txns[t].(state := st)])
  }

  /** The request is queued and remembered in the transaction's lock set. */
  function Enqueue(s: LockState, t: int, id: LockId, mode: Mode): LockState
    requires t in s.txns
  {
    LockState(s.queues[id := Queue(s.queues, id) + [Request(t, mode)]],
              s.txns[t := s.txns[t].(lockSet := s.txns[t].lockSet + {id})])
  }

  /** Looking a queue up creates it. */
  function Touch(s: LockState, id: LockId): LockState {
    s.(queues := s.queues[id := Queue(s.queues, id)])
  }

  function OnTable(s: LockState, t: int, fd: int, mode: Mode): (LockState, Outcome)
    requires t in s.txns
  {
    if s.txns[t].state == SHRINKING then (SetState(s, t, ABORTED), LockOnShrinking)
    else
      var s1 := Touch(SetState(s, t, GROWING), Table(fd));
      if Free(Queue(s.queues, Table(fd)), t, mode) then (Enqueue(s1, t, Table(fd), mode), Granted) else (s1, Refused)
  }

  function SharedOnRecord(s: LockState, t: int, id: LockId): (LockState, Outcome)
    requires t in s.txns && id.Record?
  {
    if s.txns[t].state == ABORTED then (s, Refused)
    else if s.txns[t].state == SHRINKING then (SetState(s, t, ABORTED), LockOnShrinking)
    else
      var s1 := Touch(SetState(s, t, GROWING), id);
      var (s2, table) := OnTable(s1, t, id.fd, IS);
      if table != Granted then (s2, table)
      else if exists i :: 0 <= i < |Queue(s.queues, id)| && Queue(s.queues, id)[i].mode == X then
        (s2, if FirstX(Queue(s.queues, id)).txn == t then Granted else Refused)
      else (Enqueue(s2, t, id, S), Granted)
  }

  /** The first exclusive request of a queue. */
  function FirstX(q: seq<Request>): (r: Request)
    requires exists i :: 0 <= i < |q| && q[i].mode == X
    ensures r in q && r.mode == X
  {
    if q[0].mode == X then q[0]
    else
      assert exists i :: 0 <= i < |q[1..]| && q[1..][i].mode == X by {
        var i :| 0 <= i < |q| && q[i].mode == X;
        assert q[1..][i - 1].mode == X;
      }
      FirstX(q[1..])
  }

  function ExclusiveOnRecord(s: LockState, t: int, id: LockId): (LockState, Outcome)
    requires t in s.txns && id.Record?
  {
    if s.txns[t].state == SHRINKING then (SetState(s, t, ABORTED), LockOnShrinking)
    else
      var s1 := Touch(SetState(s, t, GROWING), id);
      var (s2, table) := OnTable(s1, t, id.fd, IX);
      if table != Granted then (s2, table)
      else if Free(Queue(s.queues, id), t, X) then (Enqueue(s2, t, id, X), Granted)
      else (s2, Refused)
  }

  /** A queue without the requests of one transaction. */
  function Without(q: seq<Request>, t: int): (r: seq<Request>)
    ensures forall x :: x in r <==> x in q && x.txn != t
  {
    if q == [] then []
    else if q[0].txn == t then Without(q[1..], t)
    else [q[0]] + Without(q[1..], t)
  }

  lemma WithoutNext(q: seq<Request>, t: int, i: nat)
    requires i < |q|
    ensures Without(q[i..], t) == (if q[i].txn == t then [] else [q[i]]) + Without(q[i + 1..], t)
  {
    assert q[i..][1..] == q[i + 1..];
  }

  lemma NothingWithout(q: seq<Request>, t: int)
    ensures Without(q[|q|..], t) == []
  {
  }

  function Unlocked(s: LockState, t: int, id: LockId): LockState
    requires t in s.txns
  {
    var q := Without(Queue(s.queues, id), t);
    var s1 := if s.txns[t].state == GROWING then SetState(s, t, SHRINKING) else s;
    s1.(queues := if q == [] then s.queues - {id} else s.queues[id := q])
  }

  // ---- the calls

  class LockManager {
    var queues: map<LockId, seq<Request>>
    var txns: map<int, Txn>

    ghost function State(): LockState
      reads this
    {
      LockState(queues, txns)
    }

    constructor ()
      ensures State() == LockState(map[], map[])
    {
      queues, txns := map[], map[];
    }

    /** `lock_shared_on_table`, `lock_exclusive_on_table`, `lock_IS_on_table`,
        `lock_IX_on_table` and `lock_SIX_on_table`, which differ only in the modes they refuse. */
    method LockOnTable(t: int, fd: int, mode: Mode) returns (r: Outcome)
      requires t in txns
      modifies this
      ensures (State(), r) == OnTable(old(State()), t, fd, mode)
    {
      if txns[t].state == SHRINKING {
        txns := txns[t := txns[t].(state := ABORTED)];
        return LockOnShrinking;
      }
      txns := txns[t := txns[t].(state := GROWING)];
      var id := Table(fd);
      if id !in queues {
        queues := queues[id := []];
      }
      var q := queues[id];
      var i := 0;
      while i < |q|
        invariant i <= |q|
        invariant forall k :: 0 <= k < i ==> q[k].txn == t || !Refuses(q[k].mode, mode)
      {
        if Refuses(q[i].mode, mode) {
          if q[i].txn != t {
            assert !Free(q, t, mode);
            assert queues == OnTable(old(State()), t, fd, mode).0.queues;
            return Refused;
          }
        }
        i := i + 1;
      }
      queues := queues[id := q + [Request(t, mode)]];
      txns := txns[t := txns[t].(lockSet := txns[t].lockSet + {id})];
      ghost var s' := OnTable(old(State()), t, fd, mode).0;
      assert queues == s'.queues && txns == s'.txns;
      return Granted;
    }

    method LockSharedOnRecord(t: int, id: LockId) returns (r: Outcome)
      requires t in txns && id.Record?
      modifies this
      ensures (State(), r) == SharedOnRecord(old(State()), t, id)
    {
      if txns[t].state == ABORTED {
        return Refused;
      }
      if txns[t].state == SHRINKING {
        txns := txns[t := txns[t].(state := ABORTED)];
        return LockOnShrinking;
      }
      txns := txns[t := txns[t].(state := GROWING)];
      if id !in queues {
        queues := queues[id := []];
      }
      var q := queues[id];
      assert State() == Touch(SetState(old(State()), t, GROWING), id) by {
        assert queues == Touch(SetState(old(State()), t, GROWING), id).queues;
      }
      r := LockOnTable(t, id.fd, IS);
      if r != Granted {
        return;
      }
      var i := 0;
      while i < |q|
        invariant i <= |q|
        invariant forall k :: 0 <= k < i ==> q[k].mode != X
      {
        if q[i].mode == X {
          FirstXAt(q, i);
          return if q[i].txn == t then Granted else Refused;
        }
        i := i + 1;
      }
      queues := queues[id := q + [Request(t, S)]];
      txns := txns[t := txns[t].(lockSet := txns[t].lockSet + {id})];
    }

    method LockExclusiveOnRecord(t: int, id: LockId) returns (r: Outcome)
      requires t in txns && id.Record?
      modifies this
      ensures (State(), r) == ExclusiveOnRecord(old(State()), t, id)
    {
      if txns[t].state == SHRINKING {
        txns := txns[t := txns[t].(state := ABORTED)];
        return LockOnShrinking;
      }
      txns := txns[t := txns[t].(state := GROWING)];
      if id !in queues {
        queues := queues[id := []];
      }
      var q := queues[id];
      assert State() == Touch(SetState(old(State()), t, GROWING), id) by {
        assert queues == Touch(SetState(old(State()), t, GROWING), id).queues;
      }
      r := LockOnTable(t, id.fd, IX);
      if r != Granted {
        return;
      }
      var i := 0;
      while i < |q|
        invariant i <= |q|
        invariant forall k :: 0 <= k < i ==> q[k].txn == t
      {
        if q[i].txn != t {
          assert !Free(q, t, X);
          return Refused;
        }
        i := i + 1;
      }
      queues := queues[id := q + [Request(t, X)]];
      txns := txns[t := txns[t].(lockSet := txns[t].lockSet + {id})];
    }

    method Unlock(t: int, id: LockId)
      requires t in txns
      modifies this
      ensures State() == Unlocked(old(State()), t, id)
    {
      hide Without;
      if txns[t].state == GROWING {
        txns := txns[t := txns[t].(state := SHRINKING)];
      }
      var q := if id in queues then queues[id] else [];
      var kept, i := [], 0;
      assert q[0..] == q;
      while i < |q|
        invariant i <= |q|
        invariant kept + Without(q[i..], t) == Without(q, t)
        modifies {}
      {
        WithoutNext(q, t, i);
        if q[i].txn != t {
          kept := kept + [q[i]];
        }
        i := i + 1;
      }
      NothingWithout(q, t);
      assert kept == Without(q, t);
      queues := if kept == [] then queues - {id} else queues[id := kept];
    }

    /** Unlocks everything in the lock set, in any order (`release_locks`). */
    method ReleaseLocks(t: int)
      requires t in txns && Covered(State())
      modifies this
      ensures t in txns && txns[t].lockSet == {}
      ensures txns[t].state == if old(txns[t].state == GROWING && txns[t].lockSet != {}) then SHRINKING
                               else old(txns[t].state)
      ensures forall id, i :: 0 <= i < |Queue(queues, id)| ==> Queue(queues, id)[i].txn != t
      ensures forall id, x: Request :: x.txn != t ==> (x in Queue(queues, id) <==> x in old(Queue(queues, id)))
      ensures forall u :: u != t ==> (u in txns <==> u in old(txns)) && (u in txns ==> txns[u] == old(txns)[u])
    {
      hide Unlocked, Without, Queue, PartReleased;
      var todo := txns[t].lockSet;
      ghost var done: set<LockId> := {};
      NoneReleased(State(), t);
      while todo != {}
        invariant t in txns && txns[t].lockSet == old(txns)[t].lockSet == todo + done
        invariant txns[t].state == if done != {} && old(txns)[t].state == GROWING then SHRINKING
                                   else old(txns)[t].state
        invariant PartReleased(old(State()), State(), t, done)
        decreases |todo|
      {
        var id :| id in todo;
        ghost var s := State();
        Unlock(t, id);
        UnlockedTxns(s, t, id);
        UnlockedState(s, t, id);
        ReleaseStep(old(State()), s, t, done, id);
        todo := todo - {id};
        done := done + {id};
      }
      AllReleased(old(State()), State(), t, done);
      txns := txns[t := txns[t].(lockSet := {})];
    }
  }

  /** The request is not one of `t` for `id`. */
  predicate Kept(k: LockId, x: Request, t: int, id: LockId) {
    k != id || x.txn != t
  }

  /** The transaction's requests for the things in `done` are gone, and nobody else is affected. */
  ghost predicate PartReleased(s0: LockState, s: LockState, t: int, done: set<LockId>) {
    && (forall id, x: Request :: x.txn != t ==> (x in Queue(s.queues, id) <==> x in Queue(s0.queues, id)))
    && (forall id, x: Request :: x.txn == t && x in Queue(s.queues, id) ==> x in Queue(s0.queues, id) && id !in done)
    && (forall u :: u != t ==> (u in s.txns <==> u in s0.txns) && (u in s.txns ==> s.txns[u] == s0.txns[u]))
  }

  lemma NoneReleased(s: LockState, t: int)
    ensures PartReleased(s, s, t, {})
  {
  }

  lemma ReleaseStep(s0: LockState, s: LockState, t: int, done: set<LockId>, id: LockId)
    requires t in s.txns && PartReleased(s0, s, t, done)
    ensures PartReleased(s0, Unlocked(s, t, id), t, done + {id})
  {
    hide Unlocked, Queue;
    UnlockedAre(s, Unlocked(s, t, id), t, id);
  }

  lemma AllReleased(s0: LockState, s: LockState, t: int, done: set<LockId>)
    requires PartReleased(s0, s, t, done) && Covered(s0) && t in s0.txns && done == s0.txns[t].lockSet
    ensures forall id, i :: 0 <= i < |Queue(s.queues, id)| ==> Queue(s.queues, id)[i].txn != t
    ensures forall id, x: Request :: x.txn != t ==> (x in Queue(s.queues, id) <==> x in Queue(s0.queues, id))
    ensures forall u :: u != t ==> (u in s.txns <==> u in s0.txns) && (u in s.txns ==> s.txns[u] == s0.txns[u])
  {
  }

  /** Unlocking takes away exactly the transaction's requests for one thing. */
  lemma UnlockedAre(s: LockState, s': LockState, t: int, id: LockId)
    requires t in s.txns && s' == Unlocked(s, t, id)
    ensures forall k, x: Request :: x in Queue(s'.queues, k) ==> x in Queue(s.queues, k) && Kept(k, x, t, id)
    ensures forall k, x: Request :: x in Queue(s.queues, k) && Kept(k, x, t, id) ==> x in Queue(s'.queues, k)
    ensures t in s'.txns && s'.txns == s.txns[t := s'.txns[t]] && s'.txns[t].lockSet == s.txns[t].lockSet
  {
    hide Queue, Unlocked;
    forall k, x: Request | x in Queue(s'.queues, k)
      ensures x in Queue(s.queues, k) && Kept(k, x, t, id)
    {
      UnlockedAt(s, t, id, k, x);
    }
    forall k, x: Request | x in Queue(s.queues, k) && Kept(k, x, t, id)
      ensures x in Queue(s'.queues, k)
    {
      UnlockedAt(s, t, id, k, x);
    }
    UnlockedTxns(s, t, id);
  }

  lemma UnlockedState(s: LockState, t: int, id: LockId)
    requires t in s.txns
    ensures t in Unlocked(s, t, id).txns
    ensures Unlocked(s, t, id).txns[t].state == if s.txns[t].state == GROWING then SHRINKING else s.txns[t].state
  {
  }

  lemma UnlockedTxns(s: LockState, t: int, id: LockId)
    requires t in s.txns
    ensures Unlocked(s, t, id).txns == s.txns[t := Unlocked(s, t, id).txns[t]]
    ensures t in Unlocked(s, t, id).txns && Unlocked(s, t, id).txns[t].lockSet == s.txns[t].lockSet
  {
  }

  lemma UnlockedAt(s: LockState, t: int, id: LockId, k: LockId, x: Request)
    requires t in s.txns
    ensures x in Queue(Unlocked(s, t, id).queues, k) <==> x in Queue(s.queues, k) && Kept(k, x, t, id)
  {
    var q := Without(Queue(s.queues, id), t);
    assert x in q <==> x in Queue(s.queues, id) && x.txn != t;
    if k == id && q == [] {
      assert Queue(Unlocked(s, t, id).queues, k) == [];
    }
  }

  lemma {:induction false} FirstXAt(q: seq<Request>, i: nat)
    requires i < |q| && q[i].mode == X && forall k :: 0 <= k < i ==> q[k].mode != X
    ensures FirstX(q) == q[i]
  {
    if i == 0 {
    } else {
      FirstXAt(q[1..], i - 1);
    }
  }

  // ---- what every call keeps

  /** Locks of different transactions on one thing go together. */
  ghost predicate Compatible(s: LockState) {
    forall id, a, b :: a in Queue(s.queues, id) && b in Queue(s.queues, id) && a.txn != b.txn ==>
      !Refuses(a.mode, b.mode)
  }

  /** Records are locked in modes S and X only. */
  ghost predicate RecordModes(s: LockState) {
    forall id: LockId, a :: id.Record? && a in Queue(s.queues, id) ==> a.mode == S || a.mode == X
  }

  /** The lock set of a transaction names everything it has requests for. */
  ghost predicate Covered(s: LockState) {
    forall id, a :: a in Queue(s.queues, id) ==> a.txn in s.txns && id in s.txns[a.txn].lockSet
  }

  /** A transaction with a lock on a record also holds the matching intention on the table. */
  ghost predicate Intends(s: LockState, t: int) {
    forall id: LockId, a :: id.Record? && a in Queue(s.queues, id) && a.txn == t ==>
      && (a.mode == X ==> Request(t, IX) in Queue(s.queues, Table(id.fd)))
      && (a.mode == S ==> Request(t, IS) in Queue(s.queues, Table(id.fd)))
  }

  ghost predicate LockInv(s: LockState) {
    Compatible(s) && RecordModes(s) && Covered(s)
  }

  /** Refusal is symmetric, whichever of the two came first. */
  lemma RefusesBothWays(a: Mode, b: Mode)
    ensures Refuses(a, b) == Refuses(b, a)
  {
  }

  lemma EnqueuedAre(s: LockState, t: int, id: LockId, mode: Mode)
    requires t in s.txns
    ensures forall k, x :: x in Queue(Enqueue(s, t, id, mode).queues, k) <==>
            x in Queue(s.queues, k) || (k == id && x == Request(t, mode))
  {
  }

  /** The same requests: at most empty queues and transaction states differ. */
  ghost predicate SameRequests(s: LockState, s': LockState) {
    && (forall k :: Queue(s'.queues, k) == Queue(s.queues, k))
    && (forall u :: u in s.txns ==> u in s'.txns && s'.txns[u].lockSet == s.txns[u].lockSet)
  }

  lemma SameKeeps(s: LockState, s': LockState)
    requires SameRequests(s, s')
    ensures LockInv(s) ==> LockInv(s')
    ensures forall u :: Intends(s, u) ==> Intends(s', u)
  {
  }

  /** A request that nobody refuses keeps the locks compatible. */
  lemma EnqueueKeeps(s: LockState, t: int, id: LockId, mode: Mode)
    requires t in s.txns && LockInv(s) && Free(Queue(s.queues, id), t, mode)
    requires id.Record? ==> mode == S || mode == X
    ensures LockInv(Enqueue(s, t, id, mode))
  {
    var s' := Enqueue(s, t, id, mode);
    EnqueuedAre(s, t, id, mode);
    forall k, a, b | a in Queue(s'.queues, k) && b in Queue(s'.queues, k) && a.txn != b.txn
      ensures !Refuses(a.mode, b.mode)
    {
      RefusesBothWays(a.mode, b.mode);
    }
  }

  /** It keeps record locks below table locks, if the intention is already there. */
  lemma EnqueueIntends(s: LockState, t: int, id: LockId, mode: Mode, u: int)
    requires t in s.txns && Intends(s, u)
    requires id.Record? ==> (mode == X ==> Request(t, IX) in Queue(s.queues, Table(id.fd)))
                            && (mode == S ==> Request(t, IS) in Queue(s.queues, Table(id.fd)))
    ensures Intends(Enqueue(s, t, id, mode), u)
  {
    EnqueuedAre(s, t, id, mode);
  }

  lemma OnTableKeeps(s: LockState, t: int, fd: int, mode: Mode)
    requires t in s.txns && LockInv(s)
    ensures LockInv(OnTable(s, t, fd, mode).0)
    ensures forall u :: Intends(s, u) ==> Intends(OnTable(s, t, fd, mode).0, u)
    ensures t in OnTable(s, t, fd, mode).0.txns
    ensures OnTable(s, t, fd, mode).1 == Granted ==>
            Request(t, mode) in Queue(OnTable(s, t, fd, mode).0.queues, Table(fd))
    ensures forall k :: k != Table(fd) ==> Queue(OnTable(s, t, fd, mode).0.queues, k) == Queue(s.queues, k)
  {
    hide LockInv, Intends, Free;
    var s1 := Touch(SetState(s, t, GROWING), Table(fd));
    SameKeeps(s, s1);
    SameKeeps(s, SetState(s, t, ABORTED));
    if Free(Queue(s.queues, Table(fd)), t, mode) {
      EnqueueKeeps(s1, t, Table(fd), mode);
      forall u | Intends(s, u)
        ensures Intends(Enqueue(s1, t, Table(fd), mode), u)
      {
        EnqueueIntends(s1, t, Table(fd), mode, u);
      }
    }
  }

  lemma SharedKeeps(s: LockState, t: int, id: LockId)
    requires t in s.txns && id.Record? && LockInv(s)
    ensures LockInv(SharedOnRecord(s, t, id).0)
    ensures forall u :: Intends(s, u) ==> Intends(SharedOnRecord(s, t, id).0, u)
  {
    hide LockInv, Intends, OnTable;
    SameKeeps(s, SetState(s, t, ABORTED));
    var s1 := Touch(SetState(s, t, GROWING), id);
    SameKeeps(s, s1);
    OnTableKeeps(s1, t, id.fd, IS);
    var s2 := OnTable(s1, t, id.fd, IS).0;
    var q := Queue(s.queues, id);
    if OnTable(s1, t, id.fd, IS).1 == Granted && !exists i :: 0 <= i < |q| && q[i].mode == X {
      RecordFree(s, t, id);
      EnqueueKeeps(s2, t, id, S);
      forall u | Intends(s, u)
        ensures Intends(Enqueue(s2, t, id, S), u)
      {
        EnqueueIntends(s2, t, id, S, u);
      }
    }
  }

  lemma RecordFree(s: LockState, t: int, id: LockId)
    requires LockInv(s) && id.Record? && forall i :: 0 <= i < |Queue(s.queues, id)| ==> Queue(s.queues, id)[i].mode != X
    ensures Free(Queue(s.queues, id), t, S)
  {
    var q := Queue(s.queues, id);
    forall i | 0 <= i < |q|
      ensures !Refuses(q[i].mode, S)
    {
      assert q[i] in Queue(s.queues, id);
    }
  }

  lemma ExclusiveKeeps(s: LockState, t: int, id: LockId)
    requires t in s.txns && id.Record? && LockInv(s)
    ensures LockInv(ExclusiveOnRecord(s, t, id).0)
    ensures forall u :: Intends(s, u) ==> Intends(ExclusiveOnRecord(s, t, id).0, u)
  {
    hide LockInv, Intends, OnTable, Free;
    SameKeeps(s, SetState(s, t, ABORTED));
    var s1 := Touch(SetState(s, t, GROWING), id);
    SameKeeps(s, s1);
    OnTableKeeps(s1, t, id.fd, IX);
    var s2 := OnTable(s1, t, id.fd, IX).0;
    if OnTable(s1, t, id.fd, IX).1 == Granted && Free(Queue(s.queues, id), t, X) {
      EnqueueKeeps(s2, t, id, X);
      forall u | Intends(s, u)
        ensures Intends(Enqueue(s2, t, id, X), u)
      {
        EnqueueIntends(s2, t, id, X, u);
      }
    }
  }

  lemma UnlockKeeps(s: LockState, t: int, id: LockId)
    requires t in s.txns && LockInv(s)
    ensures LockInv(Unlocked(s, t, id))
    ensures forall u :: u != t && Intends(s, u) ==> Intends(Unlocked(s, t, id), u)
  {
    hide Unlocked;
    UnlockedAre(s, Unlocked(s, t, id), t, id);
  }
}
