/** Running a plan with scans and block nested-loop joins. */
module PlanRun {
  import opened Plans
  import opened BlockJoin

  /** At most as many choices as one outer block holds. */
  ghost predicate Few(sch: Schema, db: Database, p: Plan) {
    exists list: seq<Env> :: |list| <= OUTER_BUFFER_SIZE && Covers(sch, db, p, list)
  }

  ghost predicate Covers(sch: Schema, db: Database, p: Plan, list: seq<Env>) {
    forall env :: Gives(sch, db, p, env) ==> env in list
  }

  /** A join on the right of another is read once only, so what is on the left must fit in one
      block. */
  ghost predicate Whole(sch: Schema, db: Database, p: Plan) {
    match p
    case Scan(_, _) => true
    case Join(l, r, _) => Whole(sch, db, l) && Whole(sch, db, r) && (r.Scan? || Few(sch, db, l))
  }

  predicate OnlyScansRight(p: Plan) {
    match p
    case Scan(_, _) => true
    case Join(l, r, _) => OnlyScansRight(l) && r.Scan?
  }

  ghost predicate FewLeft(sch: Schema, db: Database, p: Plan) {
    match p
    case Scan(_, _) => true
    case Join(l, r, _) => FewLeft(sch, db, l) && FewLeft(sch, db, r) && Few(sch, db, l)
  }

  /** Joins are whole whatever the tables hold, if their right children are scans, and whatever the plan, if their
      left children give few rows. */
  lemma {:induction false} WholeWhen(sch: Schema, db: Database, p: Plan)
    ensures OnlyScansRight(p) ==> Whole(sch, db, p)
    ensures FewLeft(sch, db, p) ==> Whole(sch, db, p)
  {
    hide Few;
    if p.Join? {
      WholeWhen(sch, db, p.left);
      WholeWhen(sch, db, p.right);
    }
  }

  /** The records are those of the choices, which are all different and given by the plan. */
  ghost predicate Output(sch: Schema, db: Database, p: Plan, out: seq<Row>, envs: seq<Env>) {
    && |out| == |envs|
    && (forall a :: 0 <= a < |envs| ==> Gives(sch, db, p, envs[a]) && out[a] == Rec(db, envs[a], p))
    && (forall a, b :: 0 <= a < b < |envs| ==> envs[a] != envs[b])
  }

  lemma {:induction false} GivesKeys(sch: Schema, db: Database, p: Plan, env: Env)
    requires Gives(sch, db, p, env)
    ensures env.Keys == Tabs(p)
  {
    match p
    case Scan(_, _) =>
    case Join(_, _, _) =>
  }

  lemma {:induction false} RecOnly(db: Database, env: Env, p: Plan, tabs: set<string>)
    requires Tabs(p) <= tabs
    ensures Rec(db, Only(env, tabs), p) == Rec(db, env, p)
  {
    match p
    case Scan(t, _) =>
      assert RowOf(db, Only(env, tabs), t) == RowOf(db, env, t);
    case Join(l, r, _) =>
      RecOnly(db, env, l, tabs);
      RecOnly(db, env, r, tabs);
  }

  /** The rows of a table that pass the tests, in order. */
  method RunScan(sch: Schema, db: Database, t: string, cs: seq<Cond>) returns (out: seq<Row>, ghost envs: seq<Env>)
    ensures Output(sch, db, Scan(t, cs), out, envs) && Covers(sch, db, Scan(t, cs), envs)
  {
    hide Gives, Rec, TestAll;
    out, envs := [], [];
    if t !in db {
      NoTable(sch, db, t, cs);
      return;
    }
    RowsEnd(sch, db, t, cs);
    var i := 0;
    while i < |db[t]|
      invariant i <= |db[t]| && Output(sch, db, Scan(t, cs), out, envs)
      invariant forall a :: 0 <= a < |envs| ==> envs[a].Keys == {t} && envs[a][t] < i
      invariant forall env :: Gives(sch, db, Scan(t, cs), env) ==> t in env && (env[t] < i ==> env in envs)
    {
      var row := db[t][i];
      OneChoice(sch, db, t, cs, i);
      if TestAll(TableCols(sch, t), row, TableCols(sch, t), row, cs) == Pass {
        OutputMore(sch, db, Scan(t, cs), out, envs, row, map[t := i]);
        out := out + [row];
        envs := envs + [map[t := i]];
      }
      i := i + 1;
    }
  }

  lemma NoTable(sch: Schema, db: Database, t: string, cs: seq<Cond>)
    requires t !in db
    ensures forall env :: !Gives(sch, db, Scan(t, cs), env)
  {
  }

  lemma RowsEnd(sch: Schema, db: Database, t: string, cs: seq<Cond>)
    requires t in db
    ensures forall env :: Gives(sch, db, Scan(t, cs), env) ==> t in env && env[t] < |db[t]|
  {
  }

  /** Which choice the row with number `i` makes, and whether the scan gives it. */
  lemma OneChoice(sch: Schema, db: Database, t: string, cs: seq<Cond>, i: nat)
    requires t in db && i < |db[t]|
    ensures forall env :: Gives(sch, db, Scan(t, cs), env) ==> t in env && (env[t] == i ==> env == map[t := i])
    ensures Gives(sch, db, Scan(t, cs), map[t := i]) <==>
              TestAll(TableCols(sch, t), db[t][i], TableCols(sch, t), db[t][i], cs) == Pass
    ensures Rec(db, map[t := i], Scan(t, cs)) == db[t][i]
  {
  }

  lemma OutputMore(sch: Schema, db: Database, p: Plan, out: seq<Row>, envs: seq<Env>, row: Row, env: Env)
    requires Output(sch, db, p, out, envs) && Gives(sch, db, p, env) && row == Rec(db, env, p) && env !in envs
    ensures Output(sch, db, p, out + [row], envs + [env])
  {
    hide Gives, Rec;
  }

  /** Two choices put together. */
  lemma Together(a: Env, b: Env)
    requires a.Keys !! b.Keys
    ensures Only(a + b, a.Keys) == a && Only(a + b, b.Keys) == b && (a + b).Keys == a.Keys + b.Keys
  {
  }

  lemma Apart2(env: Env, tl: set<string>, tr: set<string>)
    requires env.Keys == tl + tr && tl !! tr
    ensures Only(env, tl) + Only(env, tr) == env
  {
  }

  predicate PairTest(sch: Schema, l: Plan, r: Plan, cs: seq<Cond>, x: Row, y: Row) {
    TestAll(Cols(sch, l), x, Cols(sch, r), y, cs) == Pass
  }

  /** A join gives a choice exactly if its sides give the two parts and the test passes. */
  lemma PairGives(sch: Schema, db: Database, l: Plan, r: Plan, cs: seq<Cond>, a: Env, b: Env)
    requires Tabs(l) !! Tabs(r) && Gives(sch, db, l, a) && Gives(sch, db, r, b)
    ensures Gives(sch, db, Join(l, r, cs), a + b) <==> PairTest(sch, l, r, cs, Rec(db, a, l), Rec(db, b, r))
    ensures Rec(db, a + b, Join(l, r, cs)) == Rec(db, a, l) + Rec(db, b, r)
  {
    GivesKeys(sch, db, l, a);
    GivesKeys(sch, db, r, b);
    Together(a, b);
    RecOnly(db, a + b, l, Tabs(l));
    RecOnly(db, a + b, r, Tabs(r));
  }

  lemma Parts(sch: Schema, db: Database, l: Plan, r: Plan, cs: seq<Cond>, env: Env)
    requires Tabs(l) !! Tabs(r) && Gives(sch, db, Join(l, r, cs), env)
    ensures Gives(sch, db, l, Only(env, Tabs(l))) && Gives(sch, db, r, Only(env, Tabs(r)))
    ensures Only(env, Tabs(l)) + Only(env, Tabs(r)) == env
  {
    Apart2(env, Tabs(l), Tabs(r));
  }

  /** Different pairs make different choices. */
  lemma PairsDiffer(sch: Schema, db: Database, l: Plan, r: Plan, a: Env, b: Env, c: Env, d: Env)
    requires Tabs(l) !! Tabs(r) && Gives(sch, db, l, a) && Gives(sch, db, r, b) && Gives(sch, db, l, c)
    requires Gives(sch, db, r, d) && (a != c || b != d)
    ensures a + b != c + d
  {
    GivesKeys(sch, db, l, a);
    GivesKeys(sch, db, r, b);
    GivesKeys(sch, db, l, c);
    GivesKeys(sch, db, r, d);
    Together(a, b);
    Together(c, d);
  }

  ghost function PairEnvs(le: seq<Env>, re: seq<Env>, pairs: seq<(nat, nat)>): seq<Env>
    requires forall a :: 0 <= a < |pairs| ==> pairs[a].0 < |le| && pairs[a].1 < |re|
  {
    seq(|pairs|, a requires 0 <= a < |pairs| => le[pairs[a].0] + re[pairs[a].1])
  }

  lemma PairOutput(sch: Schema, db: Database, p: Plan, lo: seq<Row>, le: seq<Env>, ro: seq<Row>, re: seq<Env>,
                   out: seq<Row>, pairs: seq<(nat, nat)>)
    requires p.Join? && Tabs(p.left) !! Tabs(p.right)
    requires Output(sch, db, p.left, lo, le) && Output(sch, db, p.right, ro, re) && |out| == |pairs|
    requires forall a :: 0 <= a < |pairs| ==> pairs[a].0 < |le| && pairs[a].1 < |re|
    requires forall a :: 0 <= a < |pairs| ==>
               PairTest(sch, p.left, p.right, p.conds, lo[pairs[a].0], ro[pairs[a].1])
    requires forall a :: 0 <= a < |pairs| ==> out[a] == lo[pairs[a].0] + ro[pairs[a].1]
    requires forall a, b :: 0 <= a < b < |pairs| ==> pairs[a] != pairs[b]
    ensures Output(sch, db, p, out, PairEnvs(le, re, pairs))
  {
    hide Gives, PairTest, Rec;
    var envs, l, r := PairEnvs(le, re, pairs), p.left, p.right;
    forall a | 0 <= a < |envs|
      ensures Gives(sch, db, p, envs[a]) && out[a] == Rec(db, envs[a], p)
    {
      PairGives(sch, db, l, r, p.conds, le[pairs[a].0], re[pairs[a].1]);
    }
    forall a, b | 0 <= a < b < |envs|
      ensures envs[a] != envs[b]
    {
      assert pairs[a] != pairs[b];
      PairsDiffer(sch, db, l, r, le[pairs[a].0], re[pairs[a].1], le[pairs[b].0], re[pairs[b].1]);
    }
  }

  lemma {:induction false} Pigeons(envs: seq<Env>, list: seq<Env>)
    requires forall a, b :: 0 <= a < b < |envs| ==> envs[a] != envs[b]
    requires forall a :: 0 <= a < |envs| ==> envs[a] in list
    ensures |envs| <= |list|
  {
    if envs == [] {
    } else {
      var n := |envs| - 1;
      var i :| 0 <= i < |list| && list[i] == envs[n];
      var less := list[..i] + list[i + 1..];
      forall a | 0 <= a < n
        ensures envs[..n][a] in less
      {
        var j :| 0 <= j < |list| && list[j] == envs[a];
        assert less[if j < i then j else j - 1] == envs[a];
      }
      Pigeons(envs[..n], less);
    }
  }

  lemma FewRows(sch: Schema, db: Database, p: Plan, out: seq<Row>, envs: seq<Env>)
    requires Few(sch, db, p) && Output(sch, db, p, out, envs)
    ensures |envs| <= OUTER_BUFFER_SIZE
  {
    hide Gives;
    var list :| |list| <= OUTER_BUFFER_SIZE && Covers(sch, db, p, list);
    Pigeons(envs, list);
  }

  /** If every pair that passes is there, so is every choice the join gives. */
  lemma PairCovers(sch: Schema, db: Database, p: Plan, lo: seq<Row>, le: seq<Env>, ro: seq<Row>, re: seq<Env>,
                   pairs: seq<(nat, nat)>)
    requires p.Join? && Tabs(p.left) !! Tabs(p.right)
    requires Output(sch, db, p.left, lo, le) && Output(sch, db, p.right, ro, re)
    requires Covers(sch, db, p.left, le) && Covers(sch, db, p.right, re)
    requires forall a :: 0 <= a < |pairs| ==> pairs[a].0 < |le| && pairs[a].1 < |re|
    requires forall i: nat, j: nat :: i < |lo| && j < |ro| && PairTest(sch, p.left, p.right, p.conds, lo[i], ro[j]) ==>
               (i, j) in pairs
    ensures Covers(sch, db, p, PairEnvs(le, re, pairs))
  {
    hide Gives, PairTest, Rec;
    var l, r := p.left, p.right;
    forall env | Gives(sch, db, p, env)
      ensures env in PairEnvs(le, re, pairs)
    {
      Parts(sch, db, l, r, p.conds, env);
      var i: nat :| i < |le| && le[i] == Only(env, Tabs(l));
      var j: nat :| j < |re| && re[j] == Only(env, Tabs(r));
      PairGives(sch, db, l, r, p.conds, le[i], re[j]);
      assert PairTest(sch, l, r, p.conds, lo[i], ro[j]);
      var a :| 0 <= a < |pairs| && pairs[a] == (i, j);
      assert PairEnvs(le, re, pairs)[a] == env;
    }
  }

  /** All pairs that pass are in the first outer block. */
  ghost predicate AllEarly(sch: Schema, p: Plan, lo: seq<Row>, ro: seq<Row>)
    requires p.Join?
  {
    forall i: nat, j: nat :: !LatePair(sch, p, lo, ro, i, j)
  }

  ghost predicate LatePair(sch: Schema, p: Plan, lo: seq<Row>, ro: seq<Row>, i: nat, j: nat)
    requires p.Join?
  {
    OUTER_BUFFER_SIZE <= i < |lo| && j < |ro| && PairTest(sch, p.left, p.right, p.conds, lo[i], ro[j])
  }

  lemma PairLost(sch: Schema, db: Database, p: Plan, lo: seq<Row>, le: seq<Env>, ro: seq<Row>, re: seq<Env>,
                 pairs: seq<(nat, nat)>)
    requires p.Join? && Tabs(p.left) !! Tabs(p.right)
    requires Output(sch, db, p.left, lo, le) && Output(sch, db, p.right, ro, re)
    requires forall a :: 0 <= a < |pairs| ==> pairs[a].0 < |le| && pairs[a].1 < |re|
    requires !AllEarly(sch, p, lo, ro)
    requires forall i: nat, j: nat :: LatePair(sch, p, lo, ro, i, j) ==> (i, j) !in pairs
    ensures !Covers(sch, db, p, PairEnvs(le, re, pairs))
  {
    hide Gives, PairTest, Rec;
    var l, r := p.left, p.right;
    var i: nat, j: nat :| LatePair(sch, p, lo, ro, i, j);
    PairGives(sch, db, l, r, p.conds, le[i], re[j]);
    forall a | 0 <= a < |pairs|
      ensures PairEnvs(le, re, pairs)[a] != le[i] + re[j]
    {
      assert pairs[a] in pairs && (i, j) !in pairs;
      PairsDiffer(sch, db, l, r, le[pairs[a].0], re[pairs[a].1], le[i], re[j]);
    }
  }

  /** Runs a join over what its sides give. Only a scan gives its rows again for another block. */
  method RunJoin(sch: Schema, db: Database, p: Plan, lo: seq<Row>, ghost le: seq<Env>, ro: seq<Row>,
                 ghost re: seq<Env>)
    returns (out: seq<Row>, ghost envs: seq<Env>)
    requires p.Join? && Tabs(p.left) !! Tabs(p.right)
    requires Output(sch, db, p.left, lo, le) && Output(sch, db, p.right, ro, re)
    ensures Output(sch, db, p, out, envs)
    ensures Covers(sch, db, p.left, le) && Covers(sch, db, p.right, re) ==>
              (Covers(sch, db, p, envs) <==> p.right.Scan? || AllEarly(sch, p, lo, ro))
  {
    hide Gives, PairTest, Rec, Covers, AllEarly, NestedLoopJoin.Valid, NestedLoopJoin.Pending;
    var l, r, cs := p.left, p.right, p.conds;
    var join := new NestedLoopJoin(lo, ro, (x, y) => PairTest(sch, l, r, cs, x, y), r.Scan?);
    var rows, pairs := join.Run();
    out := seq(|rows|, a requires 0 <= a < |rows| => rows[a].0 + rows[a].1);
    assert forall a :: 0 <= a < |pairs| ==> join.Given(pairs[a].0, pairs[a].1);
    envs := PairEnvs(le, re, pairs);
    PairOutput(sch, db, p, lo, le, ro, re, out, pairs);
    if Covers(sch, db, l, le) && Covers(sch, db, r, re) {
      forall i: nat, j: nat | i < |lo| && j < |ro| && PairTest(sch, l, r, cs, lo[i], ro[j])
        ensures (i, j) in pairs <==> r.Scan? || i < OUTER_BUFFER_SIZE
      {
        assert join.Given(i, j) <==> (i, j) in pairs;
      }
      JoinCovers(sch, db, p, lo, le, ro, re, pairs);
    }
  }

  lemma JoinCovers(sch: Schema, db: Database, p: Plan, lo: seq<Row>, le: seq<Env>, ro: seq<Row>, re: seq<Env>,
                   pairs: seq<(nat, nat)>)
    requires p.Join? && Tabs(p.left) !! Tabs(p.right)
    requires Output(sch, db, p.left, lo, le) && Output(sch, db, p.right, ro, re)
    requires Covers(sch, db, p.left, le) && Covers(sch, db, p.right, re)
    requires forall a :: 0 <= a < |pairs| ==> pairs[a].0 < |le| && pairs[a].1 < |re|
    requires forall i: nat, j: nat :: i < |lo| && j < |ro| && PairTest(sch, p.left, p.right, p.conds, lo[i], ro[j]) ==>
               ((i, j) in pairs <==> p.right.Scan? || i < OUTER_BUFFER_SIZE)
    ensures Covers(sch, db, p, PairEnvs(le, re, pairs)) <==> p.right.Scan? || AllEarly(sch, p, lo, ro)
  {
    hide Covers, Output, PairTest, Tabs;
    if p.right.Scan? || AllEarly(sch, p, lo, ro) {
      forall i: nat, j: nat | i < |lo| && j < |ro| && PairTest(sch, p.left, p.right, p.conds, lo[i], ro[j])
        ensures (i, j) in pairs
      {
        assert p.right.Scan? || !LatePair(sch, p, lo, ro, i, j);
      }
      PairCovers(sch, db, p, lo, le, ro, re, pairs);
    } else {
      PairLost(sch, db, p, lo, le, ro, re, pairs);
    }
  }

  /** Runs a plan to its end. Everything it hands out is given by the plan, each choice once, and
      everything the plan gives is handed out if no join on the right of another has to be read more
      than once. */
  method Execute(sch: Schema, db: Database, p: Plan) returns (out: seq<Row>, ghost envs: seq<Env>)
    requires Apart(p)
    ensures Output(sch, db, p, out, envs)
    ensures Whole(sch, db, p) ==> Covers(sch, db, p, envs)
    decreases p
  {
    hide Gives, Covers, Output, Few;
    match p
    case Scan(t, cs) =>
      out, envs := RunScan(sch, db, t, cs);
    case Join(l, r, cs) =>
      var lo, le := Execute(sch, db, l);
      var ro, re := Execute(sch, db, r);
      out, envs := RunJoin(sch, db, p, lo, le, ro, re);
      if !r.Scan? && Few(sch, db, l) {
        FewRows(sch, db, l, lo, le);
        SameCount(sch, db, l, lo, le);
        assert AllEarly(sch, p, lo, ro);
      }
  }

  lemma SameCount(sch: Schema, db: Database, p: Plan, out: seq<Row>, envs: seq<Env>)
    requires Output(sch, db, p, out, envs)
    ensures |out| == |envs|
  {
  }
}
