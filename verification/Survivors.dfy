/** Which rows are left after recovery: those of the committed transactions, and exactly when. */
module Survivors {
  import opened LogCodec
  import opened Recovery

  // ---- one row

  type Value = Option<seq<Byte>>

  function At(rows: Rows, k: Key): Value {
    if k in rows then Some(rows[k]) else None
  }

  predicate Touches(r: LogRecord, k: Key) {
    (Writes(r) || Compensates(r)) && !r.body.NoBody? && KeyOf(r.body) == k
  }

  /** What redo of a record leaves in its row. */
  function RedoValue(r: LogRecord): Value
    requires WellKinded(r)
  {
    if r.kind == INSERT || r.kind == CLR_DELETE then Some(r.body.value)
    else if r.kind == UPDATE || r.kind == CLR_UPDATE then Some(r.body.after)
    else None
  }

  /** What the run had in the row after that record: a compensation takes a change back. */
  function RunValue(r: LogRecord): Value
    requires WellKinded(r)
  {
    if r.kind == INSERT || r.kind == CLR_INSERT then Some(r.body.value)
    else if r.kind == UPDATE || r.kind == CLR_UPDATE then Some(r.body.after)
    else None
  }

  /** What the run had in the row before a change. */
  function OldValue(r: LogRecord): Value
    requires WellKinded(r)
  {
    if r.kind == DELETE then Some(r.body.value) else if r.kind == UPDATE then Some(r.body.before) else None
  }

  lemma ApplyAt(rows: Rows, r: LogRecord, k: Key)
    requires WellKinded(r)
    ensures At(Apply(rows, r), k) == if Touches(r, k) then RedoValue(r) else At(rows, k)
  {
  }

  lemma RevertAt(rows: Rows, r: LogRecord, k: Key)
    requires WellKinded(r)
    ensures At(Revert(rows, r), k) == if Writes(r) && Touches(r, k) then OldValue(r) else At(rows, k)
  {
  }

  /** What the row was in the run after `n` records. */
  ghost function Running(rs: seq<LogRecord>, n: nat, k: Key): Value
    requires Kinded(rs) && n <= |rs|
  {
    if n == 0 then None
    else if Touches(rs[n - 1], k) then RunValue(rs[n - 1])
    else Running(rs, n - 1, k)
  }

  // ---- what a log written by this system looks like

  /** The run found the row as the record of the change says. */
  ghost predicate Possible(rs: seq<LogRecord>)
    requires Kinded(rs)
  {
    forall i :: 0 <= i < |rs| && Writes(rs[i]) ==> Running(rs, i, KeyOf(rs[i].body)) == OldValue(rs[i])
  }

  ghost predicate EndBetween(rs: seq<LogRecord>, t: int, i: int, j: int) {
    exists c :: 0 <= c < |rs| && i < c < j && Ends(rs[c]) && rs[c].tid == t
  }

  ghost predicate SameRow(a: LogRecord, b: LogRecord) {
    !a.body.NoBody? && Touches(b, KeyOf(a.body)) && Touches(a, KeyOf(a.body))
  }

  /** Exclusive locks are held until the end: a row of one transaction is touched by another only
      after the first has ended. */
  ghost predicate Locked(rs: seq<LogRecord>) {
    forall i, j :: 0 <= i < j < |rs| && SameRow(rs[i], rs[j]) && rs[i].tid != rs[j].tid ==>
      EndBetween(rs, rs[i].tid, i, j)
  }

  /** A transaction that compensates does not commit, and has changed the row before. */
  ghost predicate Owned(rs: seq<LogRecord>) {
    forall j :: 0 <= j < |rs| && Compensates(rs[j]) ==> !Committed(rs, rs[j].tid) && HasChanged(rs, j)
  }

  ghost predicate HasChanged(rs: seq<LogRecord>, j: nat)
    requires j < |rs|
  {
    exists i :: 0 <= i < j && Writes(rs[i]) && rs[i].tid == rs[j].tid && SameRow(rs[i], rs[j])
  }

  /** Record `f` is the first change that its transaction made to its row. */
  ghost predicate First(rs: seq<LogRecord>, f: nat)
    requires f < |rs|
  {
    && Writes(rs[f]) && !rs[f].body.NoBody?
    && forall i :: 0 <= i < f && Writes(rs[i]) && rs[i].tid == rs[f].tid ==> !Touches(rs[i], KeyOf(rs[f].body))
  }

  /** At its ABORT every row a transaction has changed is as it was before. */
  ghost predicate PutBack(rs: seq<LogRecord>)
    requires Kinded(rs)
  {
    forall f, c :: 0 <= f < c < |rs| && rs[c].kind == ABORT && rs[f].tid == rs[c].tid && First(rs, f) ==>
      Running(rs, c, KeyOf(rs[f].body)) == OldValue(rs[f])
  }

  ghost predicate Log(rs: seq<LogRecord>) {
    Kinded(rs) && Framed(rs) && Possible(rs) && Locked(rs) && Owned(rs) && PutBack(rs)
  }

  lemma LogKinds(rs: seq<LogRecord>)
    requires Log(rs)
    ensures Kinded(rs) && Framed(rs)
  {
  }

  // ---- what the committed transactions have left in a row

  /** The row is in the hands of a transaction that will not commit: record `f` is its first change. */
  ghost predicate Held(rs: seq<LogRecord>, n: nat, k: Key, f: nat)
    requires n <= |rs|
  {
    && f < n && First(rs, f) && KeyOf(rs[f].body) == k && !Committed(rs, rs[f].tid)
    && forall c :: f < c < n && Ends(rs[c]) ==> rs[c].tid != rs[f].tid
  }

  /** The committed rows against the run. */
  ghost predicate CommittedAt(rs: seq<LogRecord>, n: nat, k: Key)
    requires Kinded(rs) && n <= |rs|
  {
    && (forall f: nat :: Held(rs, n, k, f) ==> At(CommittedRows(rs, n), k) == OldValue(rs[f]))
    && ((forall f: nat :: !Held(rs, n, k, f)) ==> At(CommittedRows(rs, n), k) == Running(rs, n, k))
  }

  /** Whoever touches a row that is in somebody's hands is that transaction. */
  lemma HolderTouches(rs: seq<LogRecord>, n: nat, k: Key, f: nat)
    requires Log(rs) && n < |rs| && Held(rs, n, k, f) && Touches(rs[n], k)
    ensures rs[n].tid == rs[f].tid
  {
    hide Framed, Possible, Owned, PutBack, Committed;
    assert SameRow(rs[f], rs[n]);
  }

  /** The first change of a row by a record's transaction. */
  lemma {:induction false} FirstOf(rs: seq<LogRecord>, i: nat, k: Key) returns (f: nat)
    requires i < |rs| && Writes(rs[i]) && Touches(rs[i], k)
    ensures f <= i && First(rs, f) && KeyOf(rs[f].body) == k && rs[f].tid == rs[i].tid
    decreases i
  {
    if j :| 0 <= j < i && Writes(rs[j]) && rs[j].tid == rs[i].tid && Touches(rs[j], k) {
      f := FirstOf(rs, j, k);
    } else {
      f := i;
    }
  }

  /** A transaction that goes on has not ended. */
  lemma NotEnded(rs: seq<LogRecord>, f: nat, n: nat)
    requires Framed(rs) && f < n < |rs| && rs[f].tid == rs[n].tid
    ensures forall c :: f < c < n && Ends(rs[c]) ==> rs[c].tid != rs[f].tid
  {
  }

  /** A compensation is made by who holds the row. */
  lemma CompensatorHolds(rs: seq<LogRecord>, n: nat, k: Key) returns (f: nat)
    requires Log(rs) && n < |rs| && Compensates(rs[n]) && Touches(rs[n], k)
    ensures Held(rs, n, k, f) && rs[f].tid == rs[n].tid
  {
    hide Possible, PutBack, Locked, Committed, Framed;
    assert HasChanged(rs, n);
    var i :| 0 <= i < n && Writes(rs[i]) && rs[i].tid == rs[n].tid && SameRow(rs[i], rs[n]);
    f := FirstOf(rs, i, k);
    NotEnded(rs, f, n);
  }

  /** So does another change by a transaction that will not commit, unless it is the first. */
  lemma ChangerHolds(rs: seq<LogRecord>, n: nat, k: Key) returns (f: nat)
    requires Log(rs) && n < |rs| && Writes(rs[n]) && Touches(rs[n], k) && !Committed(rs, rs[n].tid)
    ensures (f == n && First(rs, n)) || Held(rs, n, k, f)
  {
    hide Possible, PutBack, Locked, Committed, Framed;
    f := FirstOf(rs, n, k);
    if f < n {
      NotEnded(rs, f, n);
    }
  }

  lemma CommittedNext(rs: seq<LogRecord>, n: nat, k: Key)
    requires Kinded(rs) && n < |rs|
    ensures At(CommittedRows(rs, n + 1), k) ==
              if Committed(rs, rs[n].tid) && Touches(rs[n], k) then RedoValue(rs[n]) else At(CommittedRows(rs, n), k)
    ensures Running(rs, n + 1, k) == if Touches(rs[n], k) then RunValue(rs[n]) else Running(rs, n, k)
  {
    hide Apply, RedoValue, Touches;
    ApplyAt(CommittedRows(rs, n), rs[n], k);
  }

  lemma HeldNext(rs: seq<LogRecord>, n: nat, k: Key, f: nat)
    requires n < |rs|
    ensures f < n ==> (Held(rs, n + 1, k, f) <==> Held(rs, n, k, f) && !(Ends(rs[n]) && rs[n].tid == rs[f].tid))
    ensures Held(rs, n + 1, k, n) <==> First(rs, n) && KeyOf(rs[n].body) == k && !Committed(rs, rs[n].tid)
    ensures Held(rs, n + 1, k, f) ==> f <= n
  {
    hide Committed, First;
  }

  /** A committed transaction touches the row. */
  lemma WinnerStep(rs: seq<LogRecord>, n: nat, k: Key)
    requires Log(rs) && n < |rs| && CommittedAt(rs, n, k) && Touches(rs[n], k) && Committed(rs, rs[n].tid)
    ensures CommittedAt(rs, n + 1, k)
  {
    hide Framed, Possible, Locked, PutBack, Committed, CommittedRows, Running;
    LogKinds(rs);
    CommittedNext(rs, n, k);
    assert Writes(rs[n]);
    var m := n + 1;
    forall f: nat
      ensures !Held(rs, m, k, f)
    {
      HeldNext(rs, n, k, f);
      if Held(rs, n, k, f) {
        HolderTouches(rs, n, k, f);
      }
    }
  }

  /** Another transaction touches the row. */
  lemma LoserStep(rs: seq<LogRecord>, n: nat, k: Key)
    requires Log(rs) && n < |rs| && CommittedAt(rs, n, k) && Touches(rs[n], k) && !Committed(rs, rs[n].tid)
    ensures CommittedAt(rs, n + 1, k)
  {
    hide Framed, Locked, PutBack, Committed, CommittedRows, Running, Owned, Kinded;
    LogKinds(rs);
    CommittedNext(rs, n, k);
    var h;
    if Writes(rs[n]) {
      h := ChangerHolds(rs, n, k);
    } else {
      h := CompensatorHolds(rs, n, k);
    }
    forall f: nat
      ensures Held(rs, n + 1, k, f) ==> At(CommittedRows(rs, n + 1), k) == OldValue(rs[f])
    {
      HeldNext(rs, n, k, f);
      if f == n && Held(rs, n + 1, k, n) {
        FirstTakes(rs, n, k);
      }
    }
    HeldNext(rs, n, k, h);
    assert Held(rs, n + 1, k, h);
  }

  /** A first change is made to a row that nobody holds. */
  lemma FirstTakes(rs: seq<LogRecord>, n: nat, k: Key)
    requires Log(rs) && n < |rs| && CommittedAt(rs, n, k) && First(rs, n) && KeyOf(rs[n].body) == k
    ensures At(CommittedRows(rs, n), k) == OldValue(rs[n])
  {
    hide Framed, Locked, PutBack, Committed, CommittedRows, Running, Owned;
    forall f: nat
      ensures !Held(rs, n, k, f)
    {
      if Held(rs, n, k, f) {
        HolderTouches(rs, n, k, f);
      }
    }
  }

  /** A record that does not touch the row; an ABORT may let go of it. */
  lemma OtherStep(rs: seq<LogRecord>, n: nat, k: Key)
    requires Log(rs) && n < |rs| && CommittedAt(rs, n, k) && !Touches(rs[n], k)
    ensures CommittedAt(rs, n + 1, k)
  {
    hide Framed, Possible, Locked, CommittedRows, Running, Owned;
    LogKinds(rs);
    CommittedNext(rs, n, k);
    forall f: nat
      ensures Held(rs, n + 1, k, f) ==> Held(rs, n, k, f)
      ensures Held(rs, n, k, f) && !Held(rs, n + 1, k, f) ==> OldValue(rs[f]) == Running(rs, n, k)
    {
      HeldNext(rs, n, k, f);
      if Held(rs, n, k, f) && !Held(rs, n + 1, k, f) {
        assert rs[n].kind == ABORT && rs[f].tid == rs[n].tid;
      }
    }
  }

  /** Along every log the committed transactions have left in a row what the run has in it, or what it
      had before somebody who will not commit changed it. */
  lemma {:induction false} CommittedAlong(rs: seq<LogRecord>, n: nat, k: Key)
    requires Log(rs) && n <= |rs|
    ensures Kinded(rs) && CommittedAt(rs, n, k)
  {
    hide Log, CommittedAt, Touches, Committed;
    LogKinds(rs);
    if n == 0 {
      NothingCommitted(rs, k);
    } else {
      CommittedAlong(rs, n - 1, k);
      if !Touches(rs[n - 1], k) {
        OtherStep(rs, n - 1, k);
      } else if Committed(rs, rs[n - 1].tid) {
        WinnerStep(rs, n - 1, k);
      } else {
        LoserStep(rs, n - 1, k);
      }
    }
  }

  lemma NothingCommitted(rs: seq<LogRecord>, k: Key)
    requires Kinded(rs)
    ensures CommittedAt(rs, 0, k)
  {
  }

  // ---- what recovery leaves in a row

  /** A transaction without an end has changed the row. */
  ghost predicate Lost(rs: seq<LogRecord>, k: Key) {
    exists i :: 0 <= i < |rs| && LostChange(rs, k, i)
  }

  ghost predicate LostChange(rs: seq<LogRecord>, k: Key, i: nat)
    requires i < |rs|
  {
    Writes(rs[i]) && Touches(rs[i], k) && !Ended(rs, rs[i].tid)
  }

  /** Undo leaves a row alone that no lost change is in. */
  lemma {:induction false} BackNone(rs: seq<LogRecord>, n: nat, k: Key)
    requires Kinded(rs) && n <= |rs| && forall i :: n <= i < |rs| ==> !LostChange(rs, k, i)
    ensures At(Back(rs, n), k) == At(After(rs, |rs|), k)
    decreases |rs| - n
  {
    hide Revert, OldValue, Touches, Ended, After, WellKinded;
    if n == |rs| {
    } else {
      BackNone(rs, n + 1, k);
      RevertAt(Back(rs, n + 1), rs[n], k);
      assert !LostChange(rs, k, n);
    }
  }

  /** Otherwise it ends with the first of them. */
  lemma {:induction false} BackFirst(rs: seq<LogRecord>, n: nat, f: nat, k: Key)
    requires Kinded(rs) && n <= f < |rs| && LostChange(rs, k, f) && forall i :: n <= i < f ==> !LostChange(rs, k, i)
    ensures At(Back(rs, n), k) == OldValue(rs[f])
    decreases f - n
  {
    hide Revert, OldValue, Touches, Ended, After, WellKinded;
    RevertAt(Back(rs, n + 1), rs[n], k);
    if n < f {
      BackFirst(rs, n + 1, f, k);
      assert !LostChange(rs, k, n);
    }
  }

  /** The record leaves its row other than the run had it: redo of the compensation of an insert or a
      delete. */
  predicate Misleads(r: LogRecord) {
    r.kind == CLR_INSERT || r.kind == CLR_DELETE
  }

  /** The last of the first `n` records that touches the row misleads. */
  ghost predicate Misled(rs: seq<LogRecord>, n: nat, k: Key)
    requires n <= |rs|
  {
    if n == 0 then false else if Touches(rs[n - 1], k) then Misleads(rs[n - 1]) else Misled(rs, n - 1, k)
  }

  lemma {:induction false} RedoAt(rs: seq<LogRecord>, n: nat, k: Key)
    requires Kinded(rs) && n <= |rs|
    ensures At(After(rs, n), k) == Running(rs, n, k) <==> !Misled(rs, n, k)
  {
    if n == 0 {
    } else {
      RedoAt(rs, n - 1, k);
      ApplyAt(After(rs, n - 1), rs[n - 1], k);
    }
  }

  /** Recovery leaves in a row what the committed transactions have left in it if and only if it is undone or
      not misled. */
  lemma RowRecovered(rs: seq<LogRecord>, k: Key)
    requires Log(rs)
    ensures Kinded(rs)
    ensures At(Recovered(rs), k) == At(CommittedRows(rs, |rs|), k) <==> Lost(rs, k) || !Misled(rs, |rs|, k)
  {
    hide Possible, Locked, Owned, PutBack, CommittedRows, Running, Misled;
    LogKinds(rs);
    var n := |rs|;
    CommittedAlong(rs, n, k);
    RedoAt(rs, n, k);
    if Lost(rs, k) {
      var f := FirstLost(rs, k);
      HeldByLost(rs, k, f);
      BackFirst(rs, 0, f, k);
    } else {
      BackNone(rs, 0, k);
      forall f: nat
        ensures !Held(rs, n, k, f)
      {
        if Held(rs, n, k, f) {
          HolderLost(rs, k, f);
        }
      }
    }
  }

  lemma {:induction false} FirstLost(rs: seq<LogRecord>, k: Key) returns (f: nat)
    requires Lost(rs, k)
    ensures f < |rs| && LostChange(rs, k, f) && forall i :: 0 <= i < f ==> !LostChange(rs, k, i)
  {
    f := 0;
    while !LostChange(rs, k, f)
      invariant f < |rs| && (forall i :: 0 <= i < f ==> !LostChange(rs, k, i))
      invariant exists i :: f <= i < |rs| && LostChange(rs, k, i)
      decreases |rs| - f
    {
      f := f + 1;
    }
  }

  lemma CommittedEnded(rs: seq<LogRecord>, t: int)
    requires Committed(rs, t)
    ensures Ended(rs, t)
  {
    var c :| 0 <= c < |rs| && rs[c].kind == COMMIT && rs[c].tid == t;
    assert Ends(rs[c]);
  }

  /** The first lost change of a row is the first of its transaction, which holds the row. */
  lemma HeldByLost(rs: seq<LogRecord>, k: Key, f: nat)
    requires f < |rs| && LostChange(rs, k, f) && forall i :: 0 <= i < f ==> !LostChange(rs, k, i)
    ensures Held(rs, |rs|, k, f)
  {
    hide Committed;
    if Committed(rs, rs[f].tid) {
      CommittedEnded(rs, rs[f].tid);
    }
    forall i | 0 <= i < f && Writes(rs[i]) && rs[i].tid == rs[f].tid
      ensures !Touches(rs[i], k)
    {
      assert !LostChange(rs, k, i);
    }
  }

  /** Who holds a row at the end of the log has no end. */
  lemma HolderOpen(rs: seq<LogRecord>, k: Key, f: nat)
    requires Framed(rs) && Held(rs, |rs|, k, f)
    ensures !Ended(rs, rs[f].tid)
  {
    forall c | 0 <= c < |rs| && Ends(rs[c])
      ensures rs[c].tid != rs[f].tid
    {
      assert c != f;
    }
  }

  lemma HolderLost(rs: seq<LogRecord>, k: Key, f: nat)
    requires Framed(rs) && Held(rs, |rs|, k, f)
    ensures Lost(rs, k)
  {
    hide Framed, Ended;
    HolderOpen(rs, k, f);
    assert LostChange(rs, k, f);
  }

  // ---- the theorem

  /** A compensation of an insert or a delete by a transaction that has aborted, with nothing after it in
      its row. */
  ghost predicate Stale(rs: seq<LogRecord>, i: nat)
    requires i < |rs|
  {
    && Misleads(rs[i]) && !rs[i].body.NoBody? && Ended(rs, rs[i].tid)
    && forall j :: i < j < |rs| ==> !Touches(rs[j], KeyOf(rs[i].body))
  }

  lemma SameMaps(a: Rows, b: Rows)
    requires forall k :: At(a, k) == At(b, k)
    ensures a == b
  {
    assert forall k :: k in a ==> At(a, k) == At(b, k);
    assert forall k :: k in b ==> At(a, k) == At(b, k);
  }

  lemma {:induction false} MisledBy(rs: seq<LogRecord>, n: nat, k: Key) returns (i: nat)
    requires n <= |rs| && Misled(rs, n, k)
    ensures i < n && Misleads(rs[i]) && Touches(rs[i], k) && forall j :: i < j < n ==> !Touches(rs[j], k)
  {
    if Touches(rs[n - 1], k) {
      i := n - 1;
    } else {
      i := MisledBy(rs, n - 1, k);
    }
  }

  lemma {:induction false} LastMisleads(rs: seq<LogRecord>, n: nat, i: nat, k: Key)
    requires i < n <= |rs| && Misleads(rs[i]) && Touches(rs[i], k) && forall j :: i < j < n ==> !Touches(rs[j], k)
    ensures Misled(rs, n, k)
  {
    if n > i + 1 {
      LastMisleads(rs, n - 1, i, k);
    }
  }

  /** The transaction that made the last compensation in a row is the only one that can have lost it. */
  lemma StaleRow(rs: seq<LogRecord>, i: nat, k: Key)
    requires Log(rs) && i < |rs| && Compensates(rs[i]) && Touches(rs[i], k)
    requires forall j :: i < j < |rs| ==> !Touches(rs[j], k)
    ensures Lost(rs, k) <==> !Ended(rs, rs[i].tid)
  {
    hide Possible, PutBack, Committed;
    LogKinds(rs);
    var f := CompensatorHolds(rs, i, k);
    if Ended(rs, rs[i].tid) {
      forall j | 0 <= j < |rs|
        ensures !LostChange(rs, k, j)
      {
        if Touches(rs[j], k) && rs[j].tid != rs[i].tid {
          assert SameRow(rs[j], rs[i]) && EndBetween(rs, rs[j].tid, j, i);
          assert Ended(rs, rs[j].tid);
        }
      }
    } else {
      assert LostChange(rs, k, f);
    }
  }

  /** Recovery leaves exactly the rows of the committed transactions if and only if no aborted transaction
      ends what the log says about a row with the compensation of an insert or a delete. */
  lemma CommittedSurvive(rs: seq<LogRecord>)
    requires Log(rs)
    ensures Kinded(rs)
    ensures Recovered(rs) == CommittedRows(rs, |rs|) <==> forall i :: 0 <= i < |rs| ==> !Stale(rs, i)
  {
    hide Recovered, CommittedRows, Lost, Log, Ended;
    LogKinds(rs);
    if forall i :: 0 <= i < |rs| ==> !Stale(rs, i) {
      forall k
        ensures At(Recovered(rs), k) == At(CommittedRows(rs, |rs|), k)
      {
        RowRecovered(rs, k);
        if Misled(rs, |rs|, k) {
          var i := MisledBy(rs, |rs|, k);
          assert !Stale(rs, i);
          StaleRow(rs, i, k);
        }
      }
      SameMaps(Recovered(rs), CommittedRows(rs, |rs|));
    } else {
      var i :| 0 <= i < |rs| && Stale(rs, i);
      var k := KeyOf(rs[i].body);
      RowRecovered(rs, k);
      LastMisleads(rs, |rs|, i, k);
      StaleRow(rs, i, k);
    }
  }

  /** So it does if aborted transactions only update. */
  lemma UpdatesSurvive(rs: seq<LogRecord>)
    requires Log(rs) && forall i :: 0 <= i < |rs| && Misleads(rs[i]) ==> !Ended(rs, rs[i].tid)
    ensures Kinded(rs) && Recovered(rs) == CommittedRows(rs, |rs|)
  {
    CommittedSurvive(rs);
  }

  // ---- whatever part of a log reached the disk

  lemma {:induction false} RunningPrefix(rs: seq<LogRecord>, n: nat, i: nat, k: Key)
    requires Kinded(rs) && i <= n <= |rs|
    ensures Running(rs[..n], i, k) == Running(rs, i, k)
  {
    if i == 0 {
    } else {
      RunningPrefix(rs, n, i - 1, k);
    }
  }

  lemma PrefixFramed(rs: seq<LogRecord>, n: nat)
    requires Framed(rs) && n <= |rs|
    ensures Framed(rs[..n])
  {
    var ps := rs[..n];
    forall i | 0 <= i < |ps|
      ensures Begun(ps, ps[i], i)
    {
      assert Begun(rs, rs[i], i);
      if ps[i].kind != BEGIN {
        var b :| 0 <= b < i && rs[b].kind == BEGIN && rs[b].tid == rs[i].tid;
        assert ps[b].kind == BEGIN && ps[b].tid == ps[i].tid;
      }
    }
  }

  lemma PrefixLocked(rs: seq<LogRecord>, n: nat)
    requires Locked(rs) && n <= |rs|
    ensures Locked(rs[..n])
  {
    var ps := rs[..n];
    forall i, j | 0 <= i < j < |ps| && SameRow(ps[i], ps[j]) && ps[i].tid != ps[j].tid
      ensures EndBetween(ps, ps[i].tid, i, j)
    {
      assert EndBetween(rs, rs[i].tid, i, j);
      var c :| 0 <= c < |rs| && i < c < j && Ends(rs[c]) && rs[c].tid == rs[i].tid;
      assert Ends(ps[c]) && ps[c].tid == ps[i].tid;
    }
  }

  lemma PrefixOwned(rs: seq<LogRecord>, n: nat)
    requires Owned(rs) && n <= |rs|
    ensures Owned(rs[..n])
  {
    var ps := rs[..n];
    forall j | 0 <= j < |ps| && Compensates(ps[j])
      ensures !Committed(ps, ps[j].tid) && HasChanged(ps, j)
    {
      assert Compensates(rs[j]) && HasChanged(rs, j);
      var i :| 0 <= i < j && Writes(rs[i]) && rs[i].tid == rs[j].tid && SameRow(rs[i], rs[j]);
      assert Writes(ps[i]) && SameRow(ps[i], ps[j]);
    }
  }

  lemma PrefixFirst(rs: seq<LogRecord>, n: nat, f: nat)
    requires f < n <= |rs|
    ensures First(rs[..n], f) <==> First(rs, f)
  {
    assert forall i :: 0 <= i < n ==> rs[..n][i] == rs[i];
  }

  /** Whatever part of the log reached the disk is again such a log: a transaction may be cut off in its
      work or in taking it back. */
  lemma PrefixLog(rs: seq<LogRecord>, n: nat)
    requires Log(rs) && n <= |rs|
    ensures Log(rs[..n])
  {
    hide Framed, Locked, Owned, Running, Touches;
    var ps := rs[..n];
    PrefixFramed(rs, n);
    PrefixLocked(rs, n);
    PrefixOwned(rs, n);
    forall i | 0 <= i < |ps| && Writes(ps[i])
      ensures Running(ps, i, KeyOf(ps[i].body)) == OldValue(ps[i])
    {
      RunningPrefix(rs, n, i, KeyOf(rs[i].body));
    }
    forall f, c | 0 <= f < c < |ps| && ps[c].kind == ABORT && ps[f].tid == ps[c].tid && First(ps, f)
      ensures Running(ps, c, KeyOf(ps[f].body)) == OldValue(ps[f])
    {
      PrefixFirst(rs, n, f);
      RunningPrefix(rs, n, c, KeyOf(rs[f].body));
    }
  }

  /** Recovery from such a log ends if and only if every row it stores finds its page, and then leaves
      exactly the rows of the committed transactions if and only if no aborted transaction ends what the
      log says about a row with the compensation of an insert or a delete. */
  method RecoverLog(rm: RecoveryManager, ghost rs: seq<LogRecord>) returns (done: bool, found: bool)
    requires ValidLog(rs) && rm.log == LogBytes(rs) && Log(rs) && rm.undoList == {} && rm.emitted == []
    modifies rm
    ensures Kinded(rs) && (done <==> AllOffered(rs, rm.per))
    ensures done ==> (found <==> AllFound(rs)) && rm.emitted == Emitted(rs, 0)
    ensures done ==> (rm.rows == CommittedRows(rs, |rs|) <==> forall i :: 0 <= i < |rs| ==> !Stale(rs, i))
  {
    hide Log, AllOffered, AllFound, Emitted, Recovered, Stale, LogBytes, ValidRecord;
    LogKinds(rs);
    CommittedSurvive(rs);
    done, found := rm.Recover(rs);
  }
}
