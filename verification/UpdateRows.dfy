/** The UPDATE executor: rows are rewritten, and every index follows or is put back. */
module UpdateRows {
  import opened Common
  import opened Agreement

  type Row = seq<int>

  // ---- one index

  /** An index without the first `n` of some keys. */
  function Minus(m: Index, ks: seq<nat>, n: nat): Index
    requires n <= |ks|
  {
    if n == 0 then m else Minus(m, ks, n - 1) - {ks[n - 1]}
  }

  /** An index with the first `n` of some entries added. */
  function Plus(m: Index, ks: seq<nat>, rs: seq<Rid>, n: nat): Index
    requires n <= |ks| && |rs| == |ks|
  {
    if n == 0 then m else Plus(m, ks, rs, n - 1)[ks[n - 1] := rs[n - 1]]
  }

  /** Each of the first `n` keys was absent when it was added. */
  ghost predicate FreshKeys(m: Index, ks: seq<nat>, rs: seq<Rid>, n: nat)
    requires n <= |ks| && |rs| == |ks|
  {
    forall k :: 0 <= k < n ==> FreshAt(m, ks, rs, k)
  }

  ghost predicate FreshAt(m: Index, ks: seq<nat>, rs: seq<Rid>, k: nat)
    requires k < |ks| && |rs| == |ks|
  {
    ks[k] !in Plus(m, ks, rs, k)
  }

  lemma {:induction false} MinusHas(m: Index, ks: seq<nat>, n: nat, x: nat)
    requires n <= |ks|
    ensures x in Minus(m, ks, n) <==> x in m && x !in ks[..n]
    ensures x in Minus(m, ks, n) ==> Minus(m, ks, n)[x] == m[x]
  {
    if n == 0 {
    } else {
      MinusHas(m, ks, n - 1, x);
      assert ks[..n] == ks[..n - 1] + [ks[n - 1]];
    }
  }

  lemma {:induction false} PlusHas(m: Index, ks: seq<nat>, rs: seq<Rid>, n: nat, x: nat)
    requires n <= |ks| && |rs| == |ks|
    ensures x in Plus(m, ks, rs, n) <==> x in m || x in ks[..n]
    ensures x in m && x !in ks[..n] ==> Plus(m, ks, rs, n)[x] == m[x]
  {
    if n == 0 {
    } else {
      PlusHas(m, ks, rs, n - 1, x);
      assert ks[..n] == ks[..n - 1] + [ks[n - 1]];
    }
  }

  /** Taking out again what was freshly added leaves the index as it was. */
  lemma PlusMinus(m: Index, ks: seq<nat>, rs: seq<Rid>, n: nat)
    requires n <= |ks| && |rs| == |ks| && FreshKeys(m, ks, rs, n)
    ensures Minus(Plus(m, ks, rs, n), ks, n) == m
  {
    var p := Plus(m, ks, rs, n);
    forall x
      ensures x in Minus(p, ks, n) <==> x in m
      ensures x in m ==> Minus(p, ks, n)[x] == m[x]
    {
      MinusHas(p, ks, n, x);
      PlusHas(m, ks, rs, n, x);
      if x in ks[..n] {
        NotThere(m, ks, rs, n, x);
      }
    }
  }

  lemma NotThere(m: Index, ks: seq<nat>, rs: seq<Rid>, n: nat, x: nat)
    requires n <= |ks| && |rs| == |ks| && FreshKeys(m, ks, rs, n) && x in ks[..n]
    ensures x !in m
  {
    var k :| 0 <= k < n && ks[k] == x;
    assert FreshAt(m, ks, rs, k);
    PlusHas(m, ks, rs, k, x);
  }

  /** The index files these rows under these keys. */
  ghost predicate Files(m: Index, ks: seq<nat>, rs: seq<Rid>)
    requires |rs| == |ks|
  {
    && (forall k :: 0 <= k < |ks| ==> ks[k] in m && m[ks[k]] == rs[k])
    && (forall i, j :: 0 <= i < j < |ks| ==> rs[i] != rs[j])
  }

  lemma FilesApart(m: Index, ks: seq<nat>, rs: seq<Rid>, i: nat, j: nat)
    requires |rs| == |ks| && Files(m, ks, rs) && i < j < |ks|
    ensures ks[i] != ks[j]
  {
  }

  lemma {:induction false} PlusOwn(m: Index, ks: seq<nat>, rs: seq<Rid>, n: nat, k: nat)
    requires k < n <= |ks| == |rs| && forall j :: k < j < |ks| ==> ks[j] != ks[k]
    ensures ks[k] in Plus(m, ks, rs, n) && Plus(m, ks, rs, n)[ks[k]] == rs[k]
  {
    if k < n - 1 {
      PlusOwn(m, ks, rs, n - 1, k);
    }
  }

  lemma BackAt(m: Index, ks: seq<nat>, rs: seq<Rid>, x: nat)
    requires |rs| == |ks| && Files(m, ks, rs)
    ensures x in Plus(Minus(m, ks, |ks|), ks, rs, |ks|) <==> x in m
    ensures x in m ==> Plus(Minus(m, ks, |ks|), ks, rs, |ks|)[x] == m[x]
  {
    hide Plus, Minus;
    MinusHas(m, ks, |ks|, x);
    PlusHas(Minus(m, ks, |ks|), ks, rs, |ks|, x);
    if x in ks[..|ks|] {
      var k :| 0 <= k < |ks| && ks[k] == x;
      forall j | k < j < |ks|
        ensures ks[j] != ks[k]
      {
        FilesApart(m, ks, rs, k, j);
      }
      PlusOwn(Minus(m, ks, |ks|), ks, rs, |ks|, k);
    }
  }

  lemma BackFresh(m: Index, ks: seq<nat>, rs: seq<Rid>, k: nat)
    requires |rs| == |ks| && Files(m, ks, rs) && k < |ks|
    ensures FreshAt(Minus(m, ks, |ks|), ks, rs, k)
  {
    hide Plus, Minus;
    MinusHas(m, ks, |ks|, ks[k]);
    PlusHas(Minus(m, ks, |ks|), ks, rs, k, ks[k]);
    assert ks[k] in ks[..|ks|];
    forall j | 0 <= j < k
      ensures ks[..k][j] != ks[k]
    {
      FilesApart(m, ks, rs, j, k);
    }
  }

  /** Putting back what was taken out restores the index, and no key is found taken. */
  lemma Restored(m: Index, ks: seq<nat>, rs: seq<Rid>)
    requires |rs| == |ks| && Files(m, ks, rs)
    ensures Plus(Minus(m, ks, |ks|), ks, rs, |ks|) == m
    ensures FreshKeys(Minus(m, ks, |ks|), ks, rs, |ks|)
  {
    hide Plus, Minus, FreshAt;
    forall x
      ensures x in Plus(Minus(m, ks, |ks|), ks, rs, |ks|) <==> x in m
      ensures x in m ==> Plus(Minus(m, ks, |ks|), ks, rs, |ks|)[x] == m[x]
    {
      BackAt(m, ks, rs, x);
    }
    forall k | 0 <= k < |ks|
      ensures FreshAt(Minus(m, ks, |ks|), ks, rs, k)
    {
      BackFresh(m, ks, rs, k);
    }
  }

  /** Losing some entries without putting them back is noticed unless there were none. */
  lemma {:induction false} LostUnlessNone(m: Index, ks: seq<nat>, rs: seq<Rid>, n: nat)
    requires |rs| == |ks| && Files(m, ks, rs) && n <= |ks|
    ensures Minus(m, ks, n) == m <==> n == 0
  {
    if n == 0 {
    } else {
      MinusHas(m, ks, n, ks[0]);
      assert ks[0] in ks[..n];
    }
  }

  lemma {:induction false} PlusAt(m: Index, ks: seq<nat>, rs: seq<Rid>, n: nat, k: nat)
    requires n <= |ks| && |rs| == |ks| && FreshKeys(m, ks, rs, n) && k < n
    ensures ks[k] in Plus(m, ks, rs, n) && Plus(m, ks, rs, n)[ks[k]] == rs[k]
  {
    if k < n - 1 {
      PlusAt(m, ks, rs, n - 1, k);
      assert FreshAt(m, ks, rs, n - 1);
    }
  }

  // ---- the table and its indexes

  ghost predicate DistinctRids(rs: seq<Rid>) {
    forall i, j :: 0 <= i < j < |rs| ==> rs[i] != rs[j]
  }

  function Keys(rows: seq<Row>, key: Row -> nat): (ks: seq<nat>)
    ensures |ks| == |rows| && forall k :: 0 <= k < |rows| ==> ks[k] == key(rows[k])
  {
    seq(|rows|, k requires 0 <= k < |rows| => key(rows[k]))
  }

  function Fetched(rows: map<Rid, Row>, rs: seq<Rid>): (fs: seq<Row>)
    requires forall k :: 0 <= k < |rs| ==> rs[k] in rows
    ensures |fs| == |rs| && forall k :: 0 <= k < |rs| ==> fs[k] == rows[rs[k]]
  {
    seq(|rs|, k requires 0 <= k < |rs| => rows[rs[k]])
  }

  function Changed(olds: seq<Row>, change: Row -> Row): (ns: seq<Row>)
    ensures |ns| == |olds| && forall k :: 0 <= k < |olds| ==> ns[k] == change(olds[k])
  {
    seq(|olds|, k requires 0 <= k < |olds| => change(olds[k]))
  }

  /** The table with the first `n` rows rewritten. */
  function Written(rows: map<Rid, Row>, rs: seq<Rid>, ns: seq<Row>, n: nat): map<Rid, Row>
    requires n <= |rs| == |ns|
  {
    if n == 0 then rows else Written(rows, rs, ns, n - 1)[rs[n - 1] := ns[n - 1]]
  }

  lemma {:induction false} WrittenAt(rows: map<Rid, Row>, rs: seq<Rid>, ns: seq<Row>, n: nat)
    requires n <= |rs| == |ns| && DistinctRids(rs) && forall k :: 0 <= k < |rs| ==> rs[k] in rows
    ensures Written(rows, rs, ns, n).Keys == rows.Keys
    ensures forall k :: 0 <= k < n ==> Written(rows, rs, ns, n)[rs[k]] == ns[k]
    ensures forall r :: r in rows && r !in rs[..n] ==> Written(rows, rs, ns, n)[r] == rows[r]
  {
    if n == 0 {
    } else {
      WrittenAt(rows, rs, ns, n - 1);
      assert rs[..n] == rs[..n - 1] + [rs[n - 1]];
    }
  }

  lemma AgreesFiles(m: Index, rows: map<Rid, Row>, key: Row -> nat, rs: seq<Rid>)
    requires Agrees(m, rows, key) && DistinctRids(rs) && forall k :: 0 <= k < |rs| ==> rs[k] in rows
    ensures Files(m, Keys(Fetched(rows, rs), key), rs)
  {
  }

  /** An index without the old keys and with the new ones agrees with the rewritten table. */
  lemma AgreesAfter(m: Index, rows: map<Rid, Row>, key: Row -> nat, rs: seq<Rid>, ns: seq<Row>, ks: seq<nat>,
                    ls: seq<nat>)
    requires Agrees(m, rows, key) && DistinctRids(rs) && |ns| == |rs| && forall k :: 0 <= k < |rs| ==> rs[k] in rows
    requires ks == Keys(Fetched(rows, rs), key) && ls == Keys(ns, key)
    requires FreshKeys(Minus(m, ks, |ks|), ls, rs, |rs|)
    ensures Agrees(Plus(Minus(m, ks, |ks|), ls, rs, |rs|), Written(rows, rs, ns, |rs|), key)
  {
    hide Plus, Minus, Written, FreshKeys, Keys, Fetched;
    var m', rows' := Plus(Minus(m, ks, |ks|), ls, rs, |rs|), Written(rows, rs, ns, |rs|);
    WrittenAt(rows, rs, ns, |rs|);
    forall r | r in rows'
      ensures key(rows'[r]) in m' && m'[key(rows'[r])] == r
    {
      RowFiled(m, rows, key, rs, ns, ks, ls, r);
    }
    forall x | x in m'
      ensures m'[x] in rows' && key(rows'[m'[x]]) == x
    {
      KeyUsed(m, rows, key, rs, ns, ks, ls, x);
    }
  }

  /** Old rows, new rows, and the keys of both. */
  ghost predicate Rewriting(m: Index, rows: map<Rid, Row>, key: Row -> nat, rs: seq<Rid>, ns: seq<Row>, ks: seq<nat>,
                            ls: seq<nat>) {
    && Agrees(m, rows, key) && DistinctRids(rs) && |ns| == |ks| == |ls| == |rs|
    && (forall k :: 0 <= k < |rs| ==> rs[k] in rows && ks[k] == key(rows[rs[k]]) && ls[k] == key(ns[k]))
    && FreshKeys(Minus(m, ks, |ks|), ls, rs, |rs|)
  }

  lemma RowFiled(m: Index, rows: map<Rid, Row>, key: Row -> nat, rs: seq<Rid>, ns: seq<Row>, ks: seq<nat>,
                 ls: seq<nat>, r: Rid)
    requires Rewriting(m, rows, key, rs, ns, ks, ls) && r in rows
    ensures r in Written(rows, rs, ns, |rs|)
    ensures key(Written(rows, rs, ns, |rs|)[r]) in Plus(Minus(m, ks, |ks|), ls, rs, |rs|)
    ensures Plus(Minus(m, ks, |ks|), ls, rs, |rs|)[key(Written(rows, rs, ns, |rs|)[r])] == r
  {
    hide Plus, Minus, Written;
    var base, n := Minus(m, ks, |ks|), |rs|;
    WrittenAt(rows, rs, ns, n);
    assert rs[..n] == rs;
    if r in rs {
      var k :| 0 <= k < n && rs[k] == r;
      PlusAt(base, ls, rs, n, k);
    } else {
      var x := key(rows[r]);
      KeyElsewhere(m, rows, key, rs, ks, r);
      MinusHas(m, ks, n, x);
      if x in ls[..n] {
        NotThere(base, ls, rs, n, x);
      }
      PlusHas(base, ls, rs, n, x);
    }
  }

  lemma KeyUsed(m: Index, rows: map<Rid, Row>, key: Row -> nat, rs: seq<Rid>, ns: seq<Row>, ks: seq<nat>,
                ls: seq<nat>, x: nat)
    requires Rewriting(m, rows, key, rs, ns, ks, ls) && x in Plus(Minus(m, ks, |ks|), ls, rs, |rs|)
    ensures Plus(Minus(m, ks, |ks|), ls, rs, |rs|)[x] in Written(rows, rs, ns, |rs|)
    ensures key(Written(rows, rs, ns, |rs|)[Plus(Minus(m, ks, |ks|), ls, rs, |rs|)[x]]) == x
  {
    hide Plus, Minus, Written;
    var base, n := Minus(m, ks, |ks|), |rs|;
    WrittenAt(rows, rs, ns, n);
    assert rs[..n] == rs && ls[..n] == ls && ks[..n] == ks;
    PlusHas(base, ls, rs, n, x);
    if x in ls {
      var k :| 0 <= k < n && ls[k] == x;
      PlusAt(base, ls, rs, n, k);
    } else {
      MinusHas(m, ks, n, x);
      StillThere(m, rows, key, rs, ks, x);
    }
  }

  lemma KeyElsewhere(m: Index, rows: map<Rid, Row>, key: Row -> nat, rs: seq<Rid>, ks: seq<nat>, r: Rid)
    requires Agrees(m, rows, key) && |ks| == |rs|
             && (forall k :: 0 <= k < |rs| ==> rs[k] in rows && ks[k] == key(rows[rs[k]]))
    requires r in rows && r !in rs
    ensures key(rows[r]) !in ks
  {
  }

  lemma StillThere(m: Index, rows: map<Rid, Row>, key: Row -> nat, rs: seq<Rid>, ks: seq<nat>, x: nat)
    requires Agrees(m, rows, key) && |ks| == |rs|
             && (forall k :: 0 <= k < |rs| ==> rs[k] in rows && ks[k] == key(rows[rs[k]]))
    requires x in m && x !in ks
    ensures m[x] in rows && m[x] !in rs && key(rows[m[x]]) == x
  {
    assert forall k :: 0 <= k < |rs| && rs[k] == m[x] ==> ks[k] == x;
  }

  /** A new key that is found taken is that of two rows of the rewritten table. */
  lemma TakenClashes(m: Index, rows: map<Rid, Row>, key: Row -> nat, rs: seq<Rid>, ns: seq<Row>, ks: seq<nat>,
                     ls: seq<nat>, n: nat)
    requires Agrees(m, rows, key) && DistinctRids(rs) && |ns| == |rs| && forall k :: 0 <= k < |rs| ==> rs[k] in rows
    requires ks == Keys(Fetched(rows, rs), key) && ls == Keys(ns, key)
    requires n < |rs| && !FreshAt(Minus(m, ks, |ks|), ls, rs, n)
    ensures !Unique(Written(rows, rs, ns, |rs|), key)
  {
    hide Plus, Minus, Written, Agrees;
    var rows', x := Written(rows, rs, ns, |rs|), ls[n];
    WrittenAt(rows, rs, ns, |rs|);
    assert rs[..|rs|] == rs && ks[..|ks|] == ks;
    PlusHas(Minus(m, ks, |ks|), ls, rs, n, x);
    if x in ls[..n] {
      var j :| 0 <= j < n && ls[j] == x;
      assert rs[j] != rs[n] && key(rows'[rs[j]]) == key(rows'[rs[n]]);
    } else {
      MinusHas(m, ks, |ks|, x);
      StillThere(m, rows, key, rs, ks, x);
      assert m[x] != rs[n] && key(rows'[m[x]]) == key(rows'[rs[n]]);
    }
  }

  // ---- the executor

  datatype Outcome = Done | Duplicate | LockFailed(at: nat)

  class UpdateExecutor {
    const keys: seq<Row -> nat>
    const change: Row -> Row
    const rids: seq<Rid>
    var rows: map<Rid, Row>
    var indexes: seq<Index>

    ghost predicate Ready()
      reads this
    {
      && |indexes| == |keys| && DistinctRids(rids)
      && (forall k :: 0 <= k < |rids| ==> rids[k] in rows)
      && (forall i :: 0 <= i < |keys| ==> Agrees(indexes[i], rows, keys[i]))
    }

    constructor (keys: seq<Row -> nat>, change: Row -> Row, rids: seq<Rid>, rows: map<Rid, Row>, indexes: seq<Index>)
      requires |indexes| == |keys| && DistinctRids(rids)
      requires forall k :: 0 <= k < |rids| ==> rids[k] in rows
      requires forall i :: 0 <= i < |keys| ==> Agrees(indexes[i], rows, keys[i])
      ensures Ready() && this.rids == rids && this.rows == rows && this.indexes == indexes && this.keys == keys
              && this.change == change
    {
      this.keys, this.change, this.rids, this.rows, this.indexes := keys, change, rids, rows, indexes;
    }

    /** Takes the keys of one row out of every index. */
    method TakeOutRow(record: Row, ghost start: seq<Index>, ghost fs: seq<Row>, ghost n: nat)
      requires |indexes| == |keys| == |start| && n < |fs| && record == fs[n]
      requires forall x :: 0 <= x < |keys| ==> indexes[x] == Minus(start[x], Keys(fs, keys[x]), n)
      modifies this`indexes
      ensures |indexes| == |keys|
      ensures forall x :: 0 <= x < |keys| ==> indexes[x] == Minus(start[x], Keys(fs, keys[x]), n + 1)
    {
      hide Minus;
      var i := 0;
      while i < |keys|
        invariant i <= |keys| == |indexes|
        invariant forall x :: 0 <= x < i ==> indexes[x] == Minus(start[x], Keys(fs, keys[x]), n + 1)
        invariant forall x :: i <= x < |keys| ==> indexes[x] == Minus(start[x], Keys(fs, keys[x]), n)
      {
        MinusNext(start[i], Keys(fs, keys[i]), n);
        indexes := indexes[i := indexes[i] - {keys[i](record)}];
        i := i + 1;
      }
    }

    /** Takes the old keys of row after row out of every index. A refused lock stops this. */
    method DeleteOld(granted: seq<bool>) returns (n: nat, olds: seq<Row>)
      requires Ready() && |granted| == |rids|
      modifies this`indexes
      ensures n <= |rids| && (forall j :: 0 <= j < n ==> granted[j]) && (n < |rids| ==> !granted[n])
      ensures olds == Fetched(rows, rids)[..n] && |indexes| == |keys|
      ensures forall i :: 0 <= i < |keys| ==>
              indexes[i] == Minus(old(indexes)[i], Keys(Fetched(rows, rids), keys[i]), n)
    {
      hide Minus;
      n, olds := 0, [];
      ghost var fs := Fetched(rows, rids);
      assert forall i :: 0 <= i < |keys| ==> indexes[i] == Minus(indexes[i], Keys(fs, keys[i]), 0) by {
        forall i | 0 <= i < |keys|
          ensures Minus(indexes[i], Keys(fs, keys[i]), 0) == indexes[i]
        {
          MinusNone(indexes[i], Keys(fs, keys[i]));
        }
      }
      while n < |rids|
        invariant n <= |rids| && (forall j :: 0 <= j < n ==> granted[j]) && olds == fs[..n] && |indexes| == |keys|
        invariant forall i :: 0 <= i < |keys| ==> indexes[i] == Minus(old(indexes)[i], Keys(fs, keys[i]), n)
      {
        if !granted[n] {
          return;
        }
        var record := rows[rids[n]];
        TakeOutRow(record, old(indexes), fs, n);
        olds := olds + [record];
        n := n + 1;
      }
    }

    /** Adds the new keys of row after row to every index, up to the first key that is taken:
        that of row `n` in index `i`. */
    method InsertNew(news: seq<Row>, ghost base: seq<Index>) returns (ok: bool, n: nat, i: nat)
      requires |indexes| == |keys| && |news| == |rids| && indexes == base
      modifies this`indexes
      ensures |indexes| == |keys| && n <= |rids| && i <= |keys|
      ensures ok ==> n == |rids| && i == 0
      ensures !ok ==> n < |rids| && i < |keys| && !FreshAt(base[i], Keys(news, keys[i]), rids, n)
      ensures forall x :: 0 <= x < |keys| ==> Grown(indexes, x, news, base, i, n)
    {
      hide Plus, FreshKeys;
      n := 0;
      NoneAdded(news, base);
      i := 0;
      while n < |rids|
        invariant n <= |rids| && i == 0 && |indexes| == |keys|
        invariant forall x :: 0 <= x < |keys| ==> Grown(indexes, x, news, base, 0, n)
      {
        i := 0;
        while i < |keys|
          invariant i <= |keys| == |indexes|
          invariant forall x :: 0 <= x < |keys| ==> Grown(indexes, x, news, base, i, n)
        {
          assert Grown(indexes, i, news, base, i, n);
          var k := keys[i](news[n]);
          if k in indexes[i] {
            return false, n, i;
          }
          OneAdded(base[i], Keys(news, keys[i]), rids, n);
          ghost var before := indexes;
          indexes := indexes[i := indexes[i][k := rids[n]]];
          OneMore(before, indexes, news, base, i, i + 1, n);
          i := i + 1;
        }
        NextRow(news, base, n, n + 1);
        n := n + 1;
        i := 0;
      }
      return true, n, 0;
    }

    /** Index `x` is its base with the first `n` new entries, all of them fresh; the indexes
        before `i` have one more. */
    ghost predicate Grown(idx: seq<Index>, x: nat, news: seq<Row>, base: seq<Index>, i: nat, n: nat)
      requires |idx| == |keys| == |base| && x < |keys| && |news| == |rids|
    {
      var m := if x < i then n + 1 else n;
      && m <= |rids| && idx[x] == Plus(base[x], Keys(news, keys[x]), rids, m)
      && FreshKeys(base[x], Keys(news, keys[x]), rids, m)
    }

    lemma OneMore(before: seq<Index>, after: seq<Index>, news: seq<Row>, base: seq<Index>, i: nat, j: nat, n: nat)
      requires |before| == |after| == |keys| == |base| && |news| == |rids| && i < |keys| && j == i + 1 && n < |rids|
      requires forall x :: 0 <= x < |keys| ==> Grown(before, x, news, base, i, n)
      requires forall x :: 0 <= x < |keys| && x != i ==> after[x] == before[x]
      requires after[i] == Plus(base[i], Keys(news, keys[i]), rids, n + 1)
               && FreshKeys(base[i], Keys(news, keys[i]), rids, n + 1)
      ensures forall x :: 0 <= x < |keys| ==> Grown(after, x, news, base, j, n)
    {
      hide Plus, FreshKeys;
      forall x | 0 <= x < |keys|
        ensures Grown(after, x, news, base, j, n)
      {
        assert Grown(before, x, news, base, i, n);
      }
    }

    lemma NextRow(news: seq<Row>, base: seq<Index>, n: nat, m: nat)
      requires |indexes| == |keys| == |base| && |news| == |rids| && m == n + 1
      requires forall x :: 0 <= x < |keys| ==> Grown(indexes, x, news, base, |keys|, n)
      ensures forall x :: 0 <= x < |keys| ==> Grown(indexes, x, news, base, 0, m)
    {
      hide Plus, FreshKeys;
      forall x | 0 <= x < |keys|
        ensures Grown(indexes, x, news, base, 0, m)
      {
        assert Grown(indexes, x, news, base, |keys|, n);
      }
    }

    lemma NoneAdded(news: seq<Row>, base: seq<Index>)
      requires |indexes| == |keys| && |news| == |rids| && indexes == base
      ensures forall x :: 0 <= x < |keys| ==> Grown(indexes, x, news, base, 0, 0)
    {
    }

    /** Takes the new keys out again and puts the old ones back. */
    method RollBack(olds: seq<Row>, news: seq<Row>, n: nat, i: nat, ghost start: seq<Index>, ghost base: seq<Index>)
      requires |indexes| == |keys| == |base| == |start| && |news| == |olds| == |rids| && n < |rids| && i < |keys|
      requires forall x :: 0 <= x < |keys| ==> Grown(indexes, x, news, base, i, n)
      requires forall x :: 0 <= x < |keys| ==>
               base[x] == Minus(start[x], Keys(olds, keys[x]), |rids|) && Files(start[x], Keys(olds, keys[x]), rids)
      modifies this`indexes
      ensures indexes == start
    {
      hide Plus, Minus, FreshKeys, Files;
      ghost var grown := indexes;
      var d := 0;
      while d < i
        invariant d <= i && |indexes| == |keys|
        invariant forall x :: 0 <= x < |keys| ==>
                  indexes[x] == if x < d then grown[x] - {Keys(news, keys[x])[n]} else grown[x]
      {
        indexes := indexes[d := indexes[d] - {keys[d](news[n])}];
        d := d + 1;
      }
      ghost var failed := indexes;
      RowRolledBack(news, n, i, base, grown, failed);
      TakeOutNew(news, n, failed);
      forall x | 0 <= x < |keys|
        ensures indexes[x] == base[x]
      {
        PlusMinus(base[x], Keys(news, keys[x]), rids, n);
      }
      PutBackOld(olds, start, base);
    }

    lemma RowRolledBack(news: seq<Row>, n: nat, i: nat, base: seq<Index>, grown: seq<Index>, failed: seq<Index>)
      requires |keys| == |base| == |grown| == |failed| && |news| == |rids| && n < |rids| && i < |keys|
      requires forall x :: 0 <= x < |keys| ==> Grown(grown, x, news, base, i, n)
      requires forall x :: 0 <= x < |keys| ==>
               failed[x] == if x < i then grown[x] - {Keys(news, keys[x])[n]} else grown[x]
      ensures forall x :: 0 <= x < |keys| ==>
              failed[x] == Plus(base[x], Keys(news, keys[x]), rids, n)
              && FreshKeys(base[x], Keys(news, keys[x]), rids, n)
    {
      forall x | 0 <= x < |keys|
        ensures failed[x] == Plus(base[x], Keys(news, keys[x]), rids, n)
                && FreshKeys(base[x], Keys(news, keys[x]), rids, n)
      {
        assert Grown(grown, x, news, base, i, n);
        if x < i {
          assert FreshAt(base[x], Keys(news, keys[x]), rids, n);
        }
      }
    }

    method TakeOutNew(news: seq<Row>, n: nat, ghost start: seq<Index>)
      requires |indexes| == |keys| && indexes == start && |news| == |rids| && n <= |rids|
      modifies this`indexes
      ensures |indexes| == |keys| && forall x :: 0 <= x < |keys| ==>
              indexes[x] == Minus(start[x], Keys(news, keys[x]), n)
    {
      var r := 0;
      while r < n
        invariant r <= n && |indexes| == |keys|
        invariant forall x :: 0 <= x < |keys| ==> indexes[x] == Minus(start[x], Keys(news, keys[x]), r)
      {
        var d := 0;
        while d < |keys|
          invariant d <= |keys| == |indexes|
          invariant forall x :: 0 <= x < |keys| ==>
                    indexes[x] == Minus(start[x], Keys(news, keys[x]), if x < d then r + 1 else r)
        {
          indexes := indexes[d := indexes[d] - {keys[d](news[r])}];
          d := d + 1;
        }
        r := r + 1;
      }
    }

    /** No old key is found taken on the way back. */
    method PutBackOld(olds: seq<Row>, ghost start: seq<Index>, ghost base: seq<Index>)
      requires |indexes| == |keys| == |start| && indexes == base && |olds| == |rids|
      requires forall x :: 0 <= x < |keys| ==>
               base[x] == Minus(start[x], Keys(olds, keys[x]), |rids|) && Files(start[x], Keys(olds, keys[x]), rids)
      modifies this`indexes
      ensures indexes == start
    {
      hide Plus, Minus, Files;
      forall x | 0 <= x < |keys|
        ensures Plus(base[x], Keys(olds, keys[x]), rids, |rids|) == start[x]
                && FreshKeys(base[x], Keys(olds, keys[x]), rids, |rids|)
        ensures Plus(base[x], Keys(olds, keys[x]), rids, 0) == base[x]
      {
        Restored(start[x], Keys(olds, keys[x]), rids);
        PlusNone(base[x], Keys(olds, keys[x]), rids);
      }
      var r := 0;
      while r < |rids|
        invariant r <= |rids| && |indexes| == |keys|
        invariant forall x :: 0 <= x < |keys| ==> indexes[x] == Plus(base[x], Keys(olds, keys[x]), rids, r)
      {
        var d := 0;
        while d < |keys|
          invariant d <= |keys| == |indexes|
          invariant forall x :: 0 <= x < |keys| ==>
                    indexes[x] == Plus(base[x], Keys(olds, keys[x]), rids, if x < d then r + 1 else r)
        {
          assert FreshAt(base[d], Keys(olds, keys[d]), rids, r);
          assert keys[d](olds[r]) !in indexes[d];
          PlusNext(base[d], Keys(olds, keys[d]), rids, r);
          indexes := indexes[d := indexes[d][keys[d](olds[r]) := rids[r]]];
          d := d + 1;
        }
        r := r + 1;
      }
    }

    ghost predicate AllUnique(table: map<Rid, Row>) {
      forall i :: 0 <= i < |keys| ==> Unique(table, keys[i])
    }

    /** Index `i` has lost the old keys of the first `n` rows. */
    ghost predicate Lost(before: seq<Index>, i: nat, table: map<Rid, Row>, n: nat)
      reads this`indexes
      requires |indexes| == |keys| && n <= |rids| && forall k :: 0 <= k < |rids| ==> rids[k] in table
    {
      i < |keys| == |before| && indexes[i] == Minus(before[i], Keys(Fetched(table, rids), keys[i]), n)
    }

    /** An UPDATE. With all locks granted it is all or nothing on the indexes: it succeeds if and
        only if the rewritten table has no two rows with one key, and then every index agrees with
        it; otherwise every index is put back. A lock refused at a row other than the first leaves
        the entries of the rows before it missing. */
    method Next(granted: seq<bool>) returns (r: Outcome)
      requires Ready() && |granted| == |rids|
      modifies this
      ensures r.LockFailed? <==> exists j :: 0 <= j < |rids| && !granted[j]
      ensures r.Duplicate? ==> indexes == old(indexes) && rows == old(rows)
      ensures r.Done? ==> Ready() && rows == Written(old(rows), rids, Changed(old(Fetched(rows, rids)), change), |rids|)
      ensures r.Done? <==>
                && (forall j :: 0 <= j < |rids| ==> granted[j])
                && AllUnique(Written(old(rows), rids, Changed(old(Fetched(rows, rids)), change), |rids|))
      ensures r.LockFailed? ==> rows == old(rows) && r.at < |rids| && !granted[r.at]
      ensures r.LockFailed? ==> forall j :: 0 <= j < r.at ==> granted[j]
      ensures r.LockFailed? ==> (indexes == old(indexes) <==> !granted[0] || |keys| == 0)
      ensures r.LockFailed? ==> |indexes| == |keys| && forall i :: 0 <= i < |keys| ==>
              Lost(old(indexes), i, old(rows), r.at)
    {
      hide Plus, Minus, FreshKeys, Written, Files, Unique, Agrees, FreshAt;
      ghost var start := indexes;
      ghost var fs := Fetched(rows, rids);
      forall x | 0 <= x < |keys|
        ensures Files(start[x], Keys(fs, keys[x]), rids)
      {
        AgreesFiles(start[x], rows, keys[x], rids);
      }
      var n, olds := DeleteOld(granted);
      if n < |rids| {
        LostEntries(start, fs, n);
        assert n == 0 <==> !granted[0];
        return LockFailed(n);
      }
      assert olds == fs;
      ghost var base := indexes;
      var news := [];
      while |news| < |rids|
        invariant |news| <= |rids| && news == Changed(olds, change)[..|news|] && indexes == base && rows == old(rows)
      {
        news := news + [change(olds[|news|])];
      }
      assert news == Changed(olds, change);
      var ok, m, i := InsertNew(news, base);
      if !ok {
        TakenClashes(start[i], rows, keys[i], rids, news, Keys(fs, keys[i]), Keys(news, keys[i]), m);
        RollBack(olds, news, m, i, start, base);
        return Duplicate;
      }
      WriteRows(news);
      forall x | 0 <= x < |keys|
        ensures Agrees(indexes[x], rows, keys[x])
      {
        assert Grown(indexes, x, news, base, 0, |rids|);
        AgreesAfter(start[x], old(rows), keys[x], rids, news, Keys(fs, keys[x]), Keys(news, keys[x]));
      }
      forall x | 0 <= x < |keys|
        ensures Unique(rows, keys[x])
      {
        AgreesUnique(indexes[x], rows, keys[x]);
      }
      WrittenAt(old(rows), rids, news, |rids|);
      return Done;
    }

    lemma LostEntries(start: seq<Index>, fs: seq<Row>, n: nat)
      requires |indexes| == |keys| == |start| && |fs| == |rids| && n < |rids|
      requires forall x :: 0 <= x < |keys| ==>
               indexes[x] == Minus(start[x], Keys(fs, keys[x]), n) && Files(start[x], Keys(fs, keys[x]), rids)
      ensures indexes == start <==> n == 0 || |keys| == 0
    {
      hide Minus, Files;
      forall x | 0 <= x < |keys|
        ensures indexes[x] == start[x] <==> n == 0
      {
        LostUnlessNone(start[x], Keys(fs, keys[x]), rids, n);
      }
      if n != 0 && |keys| > 0 {
        assert indexes[0] != start[0];
      }
    }

    method WriteRows(news: seq<Row>)
      requires |news| == |rids|
      modifies this`rows
      ensures rows == Written(old(rows), rids, news, |rids|)
    {
      var k := 0;
      while k < |rids|
        invariant k <= |rids| && rows == Written(old(rows), rids, news, k)
      {
        rows := rows[rids[k] := news[k]];
        k := k + 1;
      }
    }
  }

  lemma SmallTable(m: Index, rows: map<Rid, Row>)
    requires m == map[1 := LOWER, 2 := UPPER] && rows == map[LOWER := [1], UPPER := [2]]
    ensures Agrees(m, rows, FirstColumn)
    ensures Minus(m, Keys(Fetched(rows, [LOWER, UPPER]), FirstColumn), 1) == map[2 := UPPER]
  {
    assert Keys(Fetched(rows, [LOWER, UPPER]), FirstColumn) == [1, 2];
    MinusNext(m, [1, 2], 0);
  }

  /** With two rows, one index and the second lock refused, the entry of the first row is lost. */
  method SecondLockRefused() returns (index: Index)
    ensures index == map[2 := UPPER]
  {
    hide Agrees, Minus, Keys, Fetched, Written, Changed, Unique, FirstColumn;
    var before := map[1 := LOWER, 2 := UPPER];
    var table := map[LOWER := [1], UPPER := [2]];
    var rids := [LOWER, UPPER];
    SmallTable(before, table);
    var u := new UpdateExecutor([FirstColumn], row => row, rids, table, [before]);
    var granted := [true, false];
    var r := u.Next(granted);
    assert !granted[1];
    assert u.Lost([before], 0, table, 1);
    index := u.indexes[0];
  }

  lemma OneAdded(m: Index, ks: seq<nat>, rs: seq<Rid>, n: nat)
    requires n < |ks| == |rs| && FreshKeys(m, ks, rs, n) && ks[n] !in Plus(m, ks, rs, n)
    ensures FreshKeys(m, ks, rs, n + 1) && Plus(m, ks, rs, n + 1) == Plus(m, ks, rs, n)[ks[n] := rs[n]]
  {
    forall k | 0 <= k < n + 1
      ensures FreshAt(m, ks, rs, k)
    {
    }
  }

  lemma PlusNext(m: Index, ks: seq<nat>, rs: seq<Rid>, n: nat)
    requires n < |ks| == |rs|
    ensures Plus(m, ks, rs, n + 1) == Plus(m, ks, rs, n)[ks[n] := rs[n]]
  {
  }

  lemma PlusNone(m: Index, ks: seq<nat>, rs: seq<Rid>)
    requires |ks| == |rs|
    ensures Plus(m, ks, rs, 0) == m
  {
  }

  lemma MinusNext(m: Index, ks: seq<nat>, n: nat)
    requires n < |ks|
    ensures Minus(m, ks, n + 1) == Minus(m, ks, n) - {ks[n]}
  {
  }

  lemma MinusNone(m: Index, ks: seq<nat>)
    ensures Minus(m, ks, 0) == m
  {
  }
}
