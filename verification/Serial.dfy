/** Whole runs of transactions under the lock manager are serializable. */
module Serial {
  import opened Locks

  /** What a transaction does to the tables: read one, write a row (insert or update), or
      remove a row. A change is made under the lock of the table or of the row. */
  datatype Op =
    | Scan(fd: int)
    | Put(fd: int, pageNo: int, slotNo: int, val: int, wide: bool)
    | Remove(fd: int, pageNo: int, slotNo: int, wide: bool)

  datatype Event =
    | Begin(txn: int)
    | LockTable(txn: int, tab: int, mode: Mode)
    | LockShared(txn: int, id: LockId)
    | LockExclusive(txn: int, id: LockId)
    | Access(txn: int, op: Op, back: bool)
    | Release(txn: int, id: LockId)
    | End(txn: int, commit: bool)

  /** The lock table, the transactions that have begun to release, and those whose end is logged. */
  datatype State = State(locks: LockState, released: set<int>, ended: set<int>)

  /** The locks under which each operation is done: inserts and updates lock the row, deletes the
      table, and a change is taken back (`back`) under the lock it was made with. */
  function Guards(op: Op): set<(LockId, Mode)> {
    if op.Scan? then {(Table(op.fd), S)}
    else if op.wide then {(Table(op.fd), X)}
    else {(Table(op.fd), IX), (Record(op.fd, op.pageNo, op.slotNo), X)}
  }

  ghost predicate Holds(s: LockState, t: int, op: Op) {
    forall g :: g in Guards(op) ==> Request(t, g.1) in Queue(s.queues, g.0)
  }

  /** One step of a run. Nothing but releasing and the end follows a transaction's first release. */
  ghost predicate Step(s: State, e: Event, s': State) {
    match e
    case Begin(t) =>
      t !in s.locks.txns && t !in s.released && s' == s.(locks := s.locks.(txns := s.locks.txns[t := Txn(DEFAULT, {})]))
    case LockTable(t, fd, mode) =>
      t in s.locks.txns && t !in s.released && s' == s.(locks := OnTable(s.locks, t, fd, mode).0)
    case LockShared(t, id) =>
      t in s.locks.txns && t !in s.released && id.Record? && s' == s.(locks := SharedOnRecord(s.locks, t, id).0)
    case LockExclusive(t, id) =>
      t in s.locks.txns && t !in s.released && id.Record? && s' == s.(locks := ExclusiveOnRecord(s.locks, t, id).0)
    case Access(t, op, _) =>
      t in s.locks.txns && t !in s.released && Holds(s.locks, t, op) && s' == s
    case Release(t, id) =>
      t in s.locks.txns && t !in s.ended
      && s' == s.(locks := Unlocked(s.locks, t, id), released := s.released + {t})
    case End(t, _) =>
      t in s.locks.txns && t !in s.ended && s' == s.(released := s.released + {t}, ended := s.ended + {t})
  }

  const INITIAL := State(LockState(map[], map[]), {}, {})

  ghost predicate Run(states: seq<State>, events: seq<Event>) {
    && |states| == |events| + 1
    && states[0] == INITIAL
    && forall i :: 0 <= i < |events| ==> StepAt(states, events, i)
  }

  ghost predicate StepAt(states: seq<State>, events: seq<Event>, i: nat)
    requires |states| == |events| + 1 && i < |events|
  {
    Step(states[i], events[i], states[i + 1])
  }

  // ---- what holds in every state of a run

  ghost predicate StateInv(s: State) {
    && LockInv(s.locks)
    && (forall t :: t !in s.released ==> Intends(s.locks, t))
  }

  lemma StepKeeps(s: State, e: Event, s': State)
    requires StateInv(s) && Step(s, e, s')
    ensures StateInv(s')
  {
    hide LockInv, Intends, OnTable, SharedOnRecord, ExclusiveOnRecord, Unlocked;
    match e
    case Begin(t) =>
      SameKeeps(s.locks, s'.locks);
    case LockTable(t, fd, mode) =>
      OnTableKeeps(s.locks, t, fd, mode);
    case LockShared(t, id) =>
      SharedKeeps(s.locks, t, id);
    case LockExclusive(t, id) =>
      ExclusiveKeeps(s.locks, t, id);
    case Access(_, _, _) =>
    case Release(t, id) =>
      UnlockKeeps(s.locks, t, id);
    case End(_, _) =>
  }

  /** In every reachable lock table, locks of different transactions are compatible, record
      locks sit below table intentions until release, and lock sets name all requests. */
  lemma {:induction false} Reachable(states: seq<State>, events: seq<Event>, i: nat)
    requires Run(states, events) && i < |states|
    ensures StateInv(states[i])
  {
    if i == 0 {
    } else {
      Reachable(states, events, i - 1);
      assert StepAt(states, events, i - 1);
      StepKeeps(states[i - 1], events[i - 1], states[i]);
    }
  }

  // ---- locks are kept until the first release

  /** The index of the first release of a transaction from `i` on, or the length of the run. */
  ghost function FirstRelease(events: seq<Event>, t: int, i: nat): (k: nat)
    requires i <= |events|
    ensures i <= k <= |events|
    ensures k < |events| ==> events[k].Release? && events[k].txn == t
    ensures forall x :: i <= x < k ==> !(events[x].Release? && events[x].txn == t)
    decreases |events| - i
  {
    if i == |events| || (events[i].Release? && events[i].txn == t) then i else FirstRelease(events, t, i + 1)
  }

  ghost function Released(events: seq<Event>, t: int): nat {
    FirstRelease(events, t, 0)
  }

  lemma StepHolds(s: State, e: Event, s': State, t: int, id: LockId, m: Mode)
    requires Step(s, e, s') && Request(t, m) in Queue(s.locks.queues, id) && !(e.Release? && e.txn == t)
    ensures Request(t, m) in Queue(s'.locks.queues, id)
  {
    match e
    case Release(u, k) =>
      UnlockedAt(s.locks, u, k, id, Request(t, m));
    case _ =>
  }

  lemma {:induction false} Keeps(states: seq<State>, events: seq<Event>, i: nat, j: nat, t: int, id: LockId, m: Mode)
    requires Run(states, events) && i <= j < |states|
    requires Request(t, m) in Queue(states[i].locks.queues, id)
    requires forall x :: i <= x < j ==> !(events[x].Release? && events[x].txn == t)
    ensures Request(t, m) in Queue(states[j].locks.queues, id)
  {
    if i < j {
      Keeps(states, events, i, j - 1, t, id, m);
      assert StepAt(states, events, j - 1);
      StepHolds(states[j - 1], events[j - 1], states[j], t, id, m);
    }
  }

  lemma {:induction false} ReleasedSet(states: seq<State>, events: seq<Event>, i: nat, k: nat)
    requires Run(states, events) && k < i < |states| && events[k].Release?
    ensures events[k].txn in states[i].released
  {
    assert StepAt(states, events, i - 1);
    if k < i - 1 {
      ReleasedSet(states, events, i - 1, k);
    }
  }

  // ---- conflicts

  /** Two operations whose order matters. */
  predicate Conflict(a: Op, b: Op) {
    && a.fd == b.fd
    && match (a, b)
       case (Scan(_), Scan(_)) => false
       case (Scan(_), _) => true
       case (_, Scan(_)) => true
       case (_, _) => a.pageNo == b.pageNo && a.slotNo == b.slotNo
  }

  /** Conflicting operations need locks that exclude each other. */
  lemma ConflictExcludes(a: Op, b: Op) returns (id: LockId, m: Mode, n: Mode)
    requires Conflict(a, b)
    ensures (id, m) in Guards(a) && (id, n) in Guards(b) && Refuses(m, n)
  {
    if !a.Scan? && !a.wide && !b.Scan? && !b.wide {
      id, m, n := Record(a.fd, a.pageNo, a.slotNo), X, X;
    } else {
      id := Table(a.fd);
      m := if a.Scan? then S else if a.wide then X else IX;
      n := if b.Scan? then S else if b.wide then X else IX;
    }
  }

  /** The first of two conflicting transactions has begun to release before the second acts,
      and the second has not. */
  lemma EdgeOrder(states: seq<State>, events: seq<Event>, i: nat, j: nat)
    requires Run(states, events) && i < j < |events|
    requires events[i].Access? && events[j].Access? && events[i].txn != events[j].txn
    requires Conflict(events[i].op, events[j].op)
    ensures Released(events, events[i].txn) < j <= Released(events, events[j].txn)
  {
    var t, u := events[i].txn, events[j].txn;
    assert StepAt(states, events, i) && StepAt(states, events, j);
    var id, m, n := ConflictExcludes(events[i].op, events[j].op);
    assert Request(u, n) in Queue(states[j].locks.queues, id) by {
      assert (id, n) in Guards(events[j].op);
    }
    assert Request(t, m) in Queue(states[i].locks.queues, id) by {
      assert (id, m) in Guards(events[i].op);
    }
    Reachable(states, events, j);
    if Released(events, u) < j {
      ReleasedSet(states, events, j, Released(events, u));
    }
    if Released(events, t) >= j {
      Keeps(states, events, i, j, t, id, m);
    }
  }

  ghost predicate Edge(events: seq<Event>, t: int, u: int) {
    exists i, j :: 0 <= i < j < |events| && events[i].Access? && events[j].Access?
      && events[i].txn == t && events[j].txn == u && t != u && Conflict(events[i].op, events[j].op)
  }

  /** The conflict graph has no cycle: along every path the first releases come later and
      later. */
  lemma {:induction false} NoCycle(states: seq<State>, events: seq<Event>, path: seq<int>)
    requires Run(states, events) && |path| >= 2
    requires forall k :: 0 <= k < |path| - 1 ==> Edge(events, path[k], path[k + 1])
    ensures Released(events, path[0]) < Released(events, path[|path| - 1])
    ensures path[0] != path[|path| - 1]
  {
    var n := |path| - 1;
    assert Edge(events, path[n - 1], path[n]);
    var i, j :| 0 <= i < j < |events| && events[i].Access? && events[j].Access?
      && events[i].txn == path[n - 1] && events[j].txn == path[n] && path[n - 1] != path[n]
         && Conflict(events[i].op, events[j].op);
    EdgeOrder(states, events, i, j);
    if n > 1 {
      NoCycle(states, events, path[..n]);
    }
  }

  // ---- the same effect as a serial run

  type Cell = (int, int, int)

  datatype Obs = SawTable(rows: map<Cell, int>) | SawRow(row: map<Cell, int>)

  /** The tables, and what each transaction has seen. */
  datatype World = World(db: map<Cell, int>, seen: map<int, seq<Obs>>)

  datatype Acc = Acc(txn: int, op: Op)

  function RowsOf(db: map<Cell, int>, fd: int): map<Cell, int> {
    map c | c in db && c.0 == fd :: db[c]
  }

  function RowAt(db: map<Cell, int>, c: Cell): map<Cell, int> {
    if c in db then map[c := db[c]] else map[]
  }

  function See(w: World, t: int, o: Obs): World {
    w.(seen := w.seen[t := (if t in w.seen then w.seen[t] else []) + [o]])
  }

  function CellOf(op: Op): Cell
    requires !op.Scan?
  {
    (op.fd, op.pageNo, op.slotNo)
  }

  /** An operation shows the transaction what it reads or replaces, and changes the tables. */
  function Do(w: World, a: Acc): World {
    match a.op
    case Scan(fd) => See(w, a.txn, SawTable(RowsOf(w.db, fd)))
    case Put(_, _, _, v, _) => See(w, a.txn, SawRow(RowAt(w.db, CellOf(a.op)))).(db := w.db[CellOf(a.op) := v])
    case Remove(_, _, _, _) => See(w, a.txn, SawRow(RowAt(w.db, CellOf(a.op)))).(db := w.db - {CellOf(a.op)})
  }

  function Exec(w: World, accs: seq<Acc>): World {
    if accs == [] then w else Do(Exec(w, accs[..|accs| - 1]), accs[|accs| - 1])
  }

  lemma ExecLast(w: World, accs: seq<Acc>, a: Acc)
    ensures Exec(w, accs + [a]) == Do(Exec(w, accs), a)
  {
    assert (accs + [a])[..|accs|] == accs;
  }

  lemma SeeCommutes(w: World, t: int, o: Obs, u: int, p: Obs)
    requires t != u
    ensures See(See(w, t, o), u, p) == See(See(w, u, p), t, o)
  {
    assert See(See(w, t, o), u, p).seen == See(See(w, u, p), t, o).seen;
  }

  function Effect(db: map<Cell, int>, op: Op): map<Cell, int> {
    match op
    case Scan(_) => db
    case Put(_, _, _, v, _) => db[CellOf(op) := v]
    case Remove(_, _, _, _) => db - {CellOf(op)}
  }

  function View(db: map<Cell, int>, op: Op): Obs {
    if op.Scan? then SawTable(RowsOf(db, op.fd)) else SawRow(RowAt(db, CellOf(op)))
  }

  lemma DoIs(w: World, a: Acc)
    ensures Do(w, a) == See(w, a.txn, View(w.db, a.op)).(db := Effect(w.db, a.op))
  {
  }

  lemma NoConflict(db: map<Cell, int>, a: Op, b: Op)
    requires !Conflict(a, b)
    ensures Effect(Effect(db, a), b) == Effect(Effect(db, b), a)
    ensures View(Effect(db, a), b) == View(db, b)
  {
    if b.Scan? {
      assert RowsOf(Effect(db, a), b.fd) == RowsOf(db, b.fd);
    }
  }

  /** What is seen tells tables apart: equal scans of every table, or equal views of every row, mean equal
      contents. */
  lemma ViewsTell(a: map<Cell, int>, b: map<Cell, int>)
    ensures (forall fd :: RowsOf(a, fd) == RowsOf(b, fd)) <==> a == b
    ensures (forall c :: RowAt(a, c) == RowAt(b, c)) <==> a == b
  {
    if forall fd :: RowsOf(a, fd) == RowsOf(b, fd) {
      forall c: Cell
        ensures (c in a <==> c in b) && (c in a ==> a[c] == b[c])
      {
        assert c in a <==> c in RowsOf(a, c.0);
        assert c in b <==> c in RowsOf(b, c.0);
        assert c in a ==> RowsOf(a, c.0)[c] == a[c];
        assert c in b ==> RowsOf(b, c.0)[c] == b[c];
      }
      assert a == b;
    }
    if forall c :: RowAt(a, c) == RowAt(b, c) {
      forall c: Cell
        ensures (c in a <==> c in b) && (c in a ==> a[c] == b[c])
      {
        assert RowAt(a, c) == RowAt(b, c);
        assert c in a <==> c in RowAt(a, c);
        assert c in b <==> c in RowAt(b, c);
        assert c in a ==> RowAt(a, c)[c] == a[c];
        assert c in b ==> RowAt(b, c)[c] == b[c];
      }
      assert a == b;
    }
  }

  /** Operations of different transactions that do not conflict can change places. */
  lemma Commute(w: World, a: Acc, b: Acc)
    requires a.txn != b.txn && !Conflict(a.op, b.op)
    ensures Do(Do(w, a), b) == Do(Do(w, b), a)
  {
    DoIs(w, a);
    DoIs(w, b);
    DoIs(Do(w, a), b);
    DoIs(Do(w, b), a);
    NoConflict(w.db, a.op, b.op);
    NoConflict(w.db, b.op, a.op);
    SeeCommutes(w, a.txn, View(w.db, a.op), b.txn, View(w.db, b.op));
  }

  /** The order of the serial run: by first release, and by number among those that have not
      released. */
  ghost predicate Before(events: seq<Event>, t: int, u: int) {
    Released(events, t) < Released(events, u) || (Released(events, t) == Released(events, u) && t <= u)
  }

  ghost function Insert(events: seq<Event>, accs: seq<Acc>, a: Acc): seq<Acc> {
    if accs == [] || Before(events, accs[|accs| - 1].txn, a.txn) then accs + [a]
    else Insert(events, accs[..|accs| - 1], a) + [accs[|accs| - 1]]
  }

  /** The accesses of a run, regrouped so that each transaction runs alone. */
  ghost function Serialized(events: seq<Event>, accs: seq<Acc>): seq<Acc> {
    if accs == [] then [] else Insert(events, Serialized(events, accs[..|accs| - 1]), accs[|accs| - 1])
  }

  ghost predicate Sorted(events: seq<Event>, accs: seq<Acc>) {
    forall i, j :: 0 <= i < j < |accs| ==> Before(events, accs[i].txn, accs[j].txn)
  }

  lemma {:induction false} InsertSame(events: seq<Event>, accs: seq<Acc>, a: Acc)
    ensures multiset(Insert(events, accs, a)) == multiset(accs) + multiset{a}
  {
    if !(accs == [] || Before(events, accs[|accs| - 1].txn, a.txn)) {
      InsertSame(events, accs[..|accs| - 1], a);
      assert accs == accs[..|accs| - 1] + [accs[|accs| - 1]];
    }
  }

  lemma {:induction false} InsertSorted(events: seq<Event>, accs: seq<Acc>, a: Acc)
    requires Sorted(events, accs)
    ensures Sorted(events, Insert(events, accs, a))
  {
    hide Before;
    BeforeOrder(events);
    if !(accs == [] || Before(events, accs[|accs| - 1].txn, a.txn)) {
      var init, z := accs[..|accs| - 1], accs[|accs| - 1];
      InsertSorted(events, init, a);
      InsertSame(events, init, a);
      forall i | 0 <= i < |Insert(events, init, a)|
        ensures Before(events, Insert(events, init, a)[i].txn, z.txn)
      {
        var x := Insert(events, init, a)[i];
        assert x in multiset(Insert(events, init, a));
      }
    } else if accs != [] {
      forall i | 0 <= i < |accs|
        ensures Before(events, accs[i].txn, a.txn)
      {
      }
    }
  }

  lemma BeforeOrder(events: seq<Event>)
    ensures forall t, u :: Before(events, t, u) || Before(events, u, t)
    ensures forall t, u, v :: Before(events, t, u) && Before(events, u, v) ==> Before(events, t, v)
    ensures forall t :: Before(events, t, t)
  {
  }

  /** Moving an access back past later transactions changes nothing. */
  lemma {:induction false} InsertExec(events: seq<Event>, w: World, accs: seq<Acc>, a: Acc)
    requires forall x :: x in accs && !Before(events, x.txn, a.txn) ==> !Conflict(x.op, a.op)
    ensures Exec(w, Insert(events, accs, a)) == Do(Exec(w, accs), a)
  {
    ExecLast(w, accs, a);
    if !(accs == [] || Before(events, accs[|accs| - 1].txn, a.txn)) {
      var init, z := accs[..|accs| - 1], accs[|accs| - 1];
      assert z in accs && forall x :: x in init ==> x in accs;
      InsertExec(events, w, init, a);
      ExecLast(w, Insert(events, init, a), z);
      Commute(Exec(w, init), z, a);
    }
  }

  /** Conflicting accesses of different transactions come in the serial order already. */
  ghost predicate InOrder(events: seq<Event>, accs: seq<Acc>) {
    forall i, j :: 0 <= i < j < |accs| && accs[i].txn != accs[j].txn && Conflict(accs[i].op, accs[j].op) ==>
      Before(events, accs[i].txn, accs[j].txn)
  }

  lemma {:induction false} SerializedIs(events: seq<Event>, accs: seq<Acc>)
    ensures multiset(Serialized(events, accs)) == multiset(accs) && Sorted(events, Serialized(events, accs))
  {
    if accs == [] {
    } else {
      var init, a := accs[..|accs| - 1], accs[|accs| - 1];
      SerializedIs(events, init);
      InsertSame(events, Serialized(events, init), a);
      InsertSorted(events, Serialized(events, init), a);
      assert accs == init + [a];
    }
  }

  lemma {:induction false} SerializedExec(events: seq<Event>, w: World, accs: seq<Acc>)
    requires InOrder(events, accs)
    ensures Exec(w, Serialized(events, accs)) == Exec(w, accs)
  {
    if accs == [] {
    } else {
      var init, a := accs[..|accs| - 1], accs[|accs| - 1];
      SerializedExec(events, w, init);
      SerializedIs(events, init);
      var ser := Serialized(events, init);
      forall x | x in ser && !Before(events, x.txn, a.txn)
        ensures !Conflict(x.op, a.op)
      {
        assert x in multiset(ser) && x in multiset(init) && x in init;
        var i :| 0 <= i < |init| && init[i] == x;
        assert accs[i] == x;
      }
      InsertExec(events, w, ser, a);
    }
  }

  /** The accesses of a run in the order they happened. */
  ghost function Accesses(events: seq<Event>, n: nat): seq<Acc>
    requires n <= |events|
  {
    if n == 0 then []
    else if events[n - 1].Access? then Accesses(events, n - 1) + [Acc(events[n - 1].txn, events[n - 1].op)]
    else Accesses(events, n - 1)
  }

  lemma {:induction false} AccessAt(events: seq<Event>, n: nat, k: nat) returns (i: nat)
    requires n <= |events| && k < |Accesses(events, n)|
    ensures i < n && events[i].Access? && Accesses(events, n)[k] == Acc(events[i].txn, events[i].op)
  {
    if events[n - 1].Access? && k == |Accesses(events, n)| - 1 {
      i := n - 1;
    } else {
      i := AccessAt(events, n - 1, k);
    }
  }

  lemma {:induction false} RunInOrder(states: seq<State>, events: seq<Event>, n: nat)
    requires Run(states, events) && n <= |events|
    ensures InOrder(events, Accesses(events, n))
  {
    if n == 0 {
    } else {
      RunInOrder(states, events, n - 1);
      if events[n - 1].Access? {
        var init := Accesses(events, n - 1);
        var accs := Accesses(events, n);
        forall i, j | 0 <= i < j < |accs| && accs[i].txn != accs[j].txn && Conflict(accs[i].op, accs[j].op)
          ensures Before(events, accs[i].txn, accs[j].txn)
        {
          if j < |init| {
            assert init[i] == accs[i] && init[j] == accs[j];
          } else {
            var k := AccessAt(events, n - 1, i);
            EdgeOrder(states, events, k, n - 1);
          }
        }
      }
    }
  }

  /** Every run has the same effect as its serial rearrangement: the same tables, and every
      transaction sees the same. */
  lemma Serializable(states: seq<State>, events: seq<Event>, w: World)
    requires Run(states, events)
    ensures Exec(w, Accesses(events, |events|)) == Exec(w, Serialized(events, Accesses(events, |events|)))
    ensures multiset(Serialized(events, Accesses(events, |events|))) == multiset(Accesses(events, |events|))
    ensures Sorted(events, Serialized(events, Accesses(events, |events|)))
  {
    RunInOrder(states, events, |events|);
    SerializedExec(events, w, Accesses(events, |events|));
    SerializedIs(events, Accesses(events, |events|));
  }

  /** In a sorted rearrangement the accesses of one transaction stand together. */
  lemma Alone(events: seq<Event>, accs: seq<Acc>, i: nat, j: nat, k: nat)
    requires Sorted(events, accs) && i < j < k < |accs| && accs[i].txn == accs[k].txn
    ensures accs[j].txn == accs[i].txn
  {
    assert Before(events, accs[i].txn, accs[j].txn) && Before(events, accs[j].txn, accs[k].txn);
  }

  /** The accesses of one transaction. */
  ghost function Of(accs: seq<Acc>, t: int): seq<Acc> {
    if accs == [] then []
    else Of(accs[..|accs| - 1], t) + if accs[|accs| - 1].txn == t then [accs[|accs| - 1]] else []
  }

  lemma OfLast(accs: seq<Acc>, a: Acc, t: int)
    ensures Of(accs + [a], t) == Of(accs, t) + if a.txn == t then [a] else []
  {
    assert (accs + [a])[..|accs|] == accs;
  }

  lemma {:induction false} InsertOf(events: seq<Event>, accs: seq<Acc>, a: Acc, t: int)
    ensures Of(Insert(events, accs, a), t) == Of(accs, t) + if a.txn == t then [a] else []
  {
    OfLast(accs, a, t);
    if !(accs == [] || Before(events, accs[|accs| - 1].txn, a.txn)) {
      var init, z := accs[..|accs| - 1], accs[|accs| - 1];
      InsertOf(events, init, a, t);
      OfLast(Insert(events, init, a), z, t);
    }
  }

  /** Every transaction does in the serial run what it did, in the order it did it. */
  lemma {:induction false} SameProgram(events: seq<Event>, accs: seq<Acc>, t: int)
    ensures Of(Serialized(events, accs), t) == Of(accs, t)
  {
    if accs == [] {
    } else {
      var init, a := accs[..|accs| - 1], accs[|accs| - 1];
      SameProgram(events, init, t);
      InsertOf(events, Serialized(events, init), a, t);
    }
  }
}
