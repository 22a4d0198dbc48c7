/** Plans of scans and joins, and what the executors make of them. */
module Plans {
  import opened Common

  datatype TabCol = TabCol(tab: string, col: string)

  datatype Rhs = Val(v: int) | Col(col: TabCol)

  datatype Cond = Cond(lhs: TabCol, op: CompOp, rhs: Rhs)

  datatype Plan =
    | Scan(tab: string, conds: seq<Cond>)
    | Join(left: Plan, right: Plan, conds: seq<Cond>)

  // ---- tables and rows

  /** The column names of each table, in order. */
  type Schema = map<string, seq<string>>

  type Row = seq<int>

  type Database = map<string, seq<Row>>

  /** A choice of one row from each of some tables. */
  type Env = map<string, nat>

  /** Every table of the schema is there, and its rows have its columns. */
  ghost predicate Typed(sch: Schema, db: Database) {
    forall t :: t in sch ==> t in db && forall i :: 0 <= i < |db[t]| ==> |db[t][i]| == |sch[t]|
  }

  predicate Has(sch: Schema, t: string, name: string) {
    t in sch && name in sch[t]
  }

  function TableCols(sch: Schema, t: string): seq<TabCol> {
    if t in sch then seq(|sch[t]|, i requires 0 <= i < |sch[t]| => TabCol(t, sch[t][i])) else []
  }

  function RowOf(db: Database, env: Env, t: string): Row {
    if t in env && t in db && env[t] < |db[t]| then db[t][env[t]] else []
  }

  /** The first column of that name, or the number of columns if there is none
      (`find_from_cols`). */
  function Find(cols: seq<TabCol>, name: string): (i: nat)
    ensures i <= |cols| && (forall j :: 0 <= j < i ==> cols[j].col != name)
    ensures i < |cols| ==> cols[i].col == name
  {
    if cols == [] then 0 else if cols[0].col == name then 0 else 1 + Find(cols[1..], name)
  }

  /** What a lookup by name finds in a record. */
  datatype Found = Value(v: int) | NotFound

  function Read(cols: seq<TabCol>, rec: Row, name: string): Found {
    var i := Find(cols, name);
    if i < |cols| && i < |rec| then Value(rec[i]) else NotFound
  }

  // ---- conditions

  /** The value of a column in the rows chosen; 0 where there is none. */
  function Lookup(sch: Schema, db: Database, env: Env, x: TabCol): int {
    match Read(TableCols(sch, x.tab), RowOf(db, env, x.tab), x.col)
    case Value(v) => v
    case NotFound => 0
  }

  /** The condition holds of the chosen rows. */
  predicate Holds(sch: Schema, db: Database, env: Env, c: Cond) {
    Compare(c.op, Lookup(sch, db, env, c.lhs), if c.rhs.Val? then c.rhs.v else Lookup(sch, db, env, c.rhs.col))
  }

  ghost predicate AllHold(sch: Schema, db: Database, env: Env, cs: seq<Cond>) {
    forall c :: c in cs ==> Holds(sch, db, env, c)
  }

  /** A condition can be tested on rows of these tables. */
  predicate Within(c: Cond, tabs: set<string>) {
    c.lhs.tab in tabs && (c.rhs.Col? ==> c.rhs.col.tab in tabs)
  }

  /** One valid row from each table. */
  ghost predicate Fits(db: Database, env: Env, tabs: set<string>) {
    env.Keys == tabs && forall t :: t in tabs ==> t in db && env[t] < |db[t]|
  }

  // ---- running a plan

  function Tabs(p: Plan): set<string> {
    match p
    case Scan(t, _) => {t}
    case Join(l, r, _) => Tabs(l) + Tabs(r)
  }

  function CondsOf(p: Plan): seq<Cond> {
    match p
    case Scan(_, cs) => cs
    case Join(l, r, cs) => CondsOf(l) + CondsOf(r) + cs
  }

  /** The tables of a plan from left to right. */
  function Leaves(p: Plan): seq<string> {
    match p
    case Scan(t, _) => [t]
    case Join(l, r, _) => Leaves(l) + Leaves(r)
  }

  /** The columns of a plan's records: those of the left side, then those of the right. */
  function Cols(sch: Schema, p: Plan): seq<TabCol> {
    match p
    case Scan(t, _) => TableCols(sch, t)
    case Join(l, r, _) => Cols(sch, l) + Cols(sch, r)
  }

  function Rec(db: Database, env: Env, p: Plan): Row {
    match p
    case Scan(t, _) => RowOf(db, env, t)
    case Join(l, r, _) => Rec(db, env, l) + Rec(db, env, r)
  }

  /** A test, or the error that a column was not found. */
  datatype Verdict = Pass | Fail | Missing

  /** Tests a condition with its left column looked up by name in one record and its right column
      in another (`test_join_record`; a scan has one record for both, `test_record`). */
  function Test(lc: seq<TabCol>, lr: Row, rc: seq<TabCol>, rr: Row, c: Cond): Verdict {
    var l := Read(lc, lr, c.lhs.col);
    var r := if c.rhs.Val? then Value(c.rhs.v) else Read(rc, rr, c.rhs.col.col);
    if l.NotFound? || r.NotFound? then Missing else if Compare(c.op, l.v, r.v) then Pass else Fail
  }

  /** Tests conditions in order up to the first that does not pass. */
  function TestAll(lc: seq<TabCol>, lr: Row, rc: seq<TabCol>, rr: Row, cs: seq<Cond>): Verdict {
    if cs == [] then Pass
    else if Test(lc, lr, rc, rr, cs[0]) == Pass then TestAll(lc, lr, rc, rr, cs[1..])
    else Test(lc, lr, rc, rr, cs[0])
  }

  function TestScan(sch: Schema, db: Database, env: Env, t: string, cs: seq<Cond>): Verdict {
    TestAll(TableCols(sch, t), RowOf(db, env, t), TableCols(sch, t), RowOf(db, env, t), cs)
  }

  function TestJoin(sch: Schema, db: Database, env: Env, l: Plan, r: Plan, cs: seq<Cond>): Verdict {
    TestAll(Cols(sch, l), Rec(db, env, l), Cols(sch, r), Rec(db, env, r), cs)
  }

  function Only(env: Env, tabs: set<string>): Env {
    map t | t in env && t in tabs :: env[t]
  }

  /** The plan gives this choice of rows. Choices are by row number, so a plan gives each at
      most once. */
  ghost predicate Gives(sch: Schema, db: Database, p: Plan, env: Env) {
    match p
    case Scan(t, cs) =>
      env.Keys == {t} && t in db && env[t] < |db[t]| && TestScan(sch, db, env, t, cs) == Pass
    case Join(l, r, cs) =>
      && env.Keys == Tabs(l) + Tabs(r)
      && Gives(sch, db, l, Only(env, Tabs(l))) && Gives(sch, db, r, Only(env, Tabs(r)))
      && TestJoin(sch, db, env, l, r, cs) == Pass
  }

  /** Running the plan to its end meets a column that is not there. A join begins its right side
      only when its left side gives something. */
  ghost predicate Raises(sch: Schema, db: Database, p: Plan) {
    match p
    case Scan(t, cs) =>
      t in db && exists i: nat :: i < |db[t]| && TestScan(sch, db, map[t := i], t, cs) == Missing
    case Join(l, r, cs) =>
      || Raises(sch, db, l)
      || ((exists env :: Gives(sch, db, l, env)) && Raises(sch, db, r))
      || exists env: Env ::
           env.Keys == Tabs(p) && Gives(sch, db, l, Only(env, Tabs(l))) && Gives(sch, db, r, Only(env, Tabs(r)))
           && TestJoin(sch, db, env, l, r, cs) == Missing
  }

  // ---- the conditions as they are read

  /** The first of the tables that has a column of that name. */
  function FirstWith(sch: Schema, ts: seq<string>, name: string): string {
    if ts == [] then "" else if Has(sch, ts[0], name) then ts[0] else FirstWith(sch, ts[1..], name)
  }

  predicate AnyWith(sch: Schema, ts: seq<string>, name: string) {
    exists i :: 0 <= i < |ts| && Has(sch, ts[i], name)
  }

  /** The condition that a test with the given tables on either side makes. */
  function ReadCond(sch: Schema, ls: seq<string>, rs: seq<string>, c: Cond): Cond {
    Cond(TabCol(FirstWith(sch, ls, c.lhs.col), c.lhs.col), c.op,
      if c.rhs.Val? then c.rhs else Col(TabCol(FirstWith(sch, rs, c.rhs.col.col), c.rhs.col.col)))
  }

  function ReadConds(sch: Schema, ls: seq<string>, rs: seq<string>, cs: seq<Cond>): seq<Cond> {
    seq(|cs|, i requires 0 <= i < |cs| => ReadCond(sch, ls, rs, cs[i]))
  }

  /** All conditions of a plan, as they are read where they stand. */
  function Reads(sch: Schema, p: Plan): seq<Cond> {
    match p
    case Scan(t, cs) => ReadConds(sch, [t], [t], cs)
    case Join(l, r, cs) => Reads(sch, l) + Reads(sch, r) + ReadConds(sch, Leaves(l), Leaves(r), cs)
  }

  predicate Readable(sch: Schema, ls: seq<string>, rs: seq<string>, c: Cond) {
    AnyWith(sch, ls, c.lhs.col) && (c.rhs.Col? ==> AnyWith(sch, rs, c.rhs.col.col))
  }

  /** Every column is found where it is looked for. */
  predicate AllReadable(sch: Schema, p: Plan) {
    match p
    case Scan(t, cs) => forall c :: c in cs ==> Readable(sch, [t], [t], c)
    case Join(l, r, cs) =>
      AllReadable(sch, l) && AllReadable(sch, r) && forall c :: c in cs ==> Readable(sch, Leaves(l), Leaves(r), c)
  }

  /** No table occurs twice. */
  predicate Apart(p: Plan) {
    match p
    case Scan(_, _) => true
    case Join(l, r, _) => Apart(l) && Apart(r) && Tabs(l) !! Tabs(r)
  }

  // ---- lookups by name

  lemma {:induction false} FindConcat(a: seq<TabCol>, b: seq<TabCol>, name: string)
    ensures Find(a + b, name) == if Find(a, name) < |a| then Find(a, name) else |a| + Find(b, name)
  {
    if a == [] {
      assert a + b == b;
    } else {
      assert (a + b)[1..] == a[1..] + b;
      FindConcat(a[1..], b, name);
    }
  }

  lemma ReadConcat(a: seq<TabCol>, b: seq<TabCol>, x: Row, y: Row, name: string)
    requires |a| == |x|
    ensures Read(a + b, x + y, name) == if Read(a, x, name).Value? then Read(a, x, name) else Read(b, y, name)
  {
    FindConcat(a, b, name);
  }

  lemma TableHas(sch: Schema, t: string, name: string)
    ensures Find(TableCols(sch, t), name) < |TableCols(sch, t)| <==> Has(sch, t, name)
  {
    if Has(sch, t, name) {
      var i :| 0 <= i < |sch[t]| && sch[t][i] == name;
      assert TableCols(sch, t)[i].col == name;
    }
  }

  /** What a lookup by name in the records of these tables finds. */
  function ReadIn(sch: Schema, db: Database, env: Env, ts: seq<string>, name: string): Found {
    if AnyWith(sch, ts, name) then Value(Lookup(sch, db, env, TabCol(FirstWith(sch, ts, name), name))) else NotFound
  }

  lemma {:induction false} FirstConcat(sch: Schema, a: seq<string>, b: seq<string>, name: string)
    ensures AnyWith(sch, a + b, name) <==> AnyWith(sch, a, name) || AnyWith(sch, b, name)
    ensures FirstWith(sch, a + b, name) == if AnyWith(sch, a, name) then FirstWith(sch, a, name)
                                           else FirstWith(sch, b, name)
  {
    AnyConcat(sch, a, b, name);
    if a == [] {
      assert a + b == b;
    } else {
      assert (a + b)[1..] == a[1..] + b;
      AnyNext(sch, a, name);
      FirstConcat(sch, a[1..], b, name);
    }
  }

  lemma AnyNext(sch: Schema, a: seq<string>, name: string)
    requires a != []
    ensures AnyWith(sch, a, name) <==> Has(sch, a[0], name) || AnyWith(sch, a[1..], name)
  {
    if i :| 0 <= i < |a| && Has(sch, a[i], name) {
      assert i > 0 ==> a[1..][i - 1] == a[i];
    }
    if i :| 0 <= i < |a[1..]| && Has(sch, a[1..][i], name) {
      assert Has(sch, a[i + 1], name);
    }
  }

  lemma AnyConcat(sch: Schema, a: seq<string>, b: seq<string>, name: string)
    ensures AnyWith(sch, a + b, name) <==> AnyWith(sch, a, name) || AnyWith(sch, b, name)
  {
    if i :| 0 <= i < |a| && Has(sch, a[i], name) {
      assert Has(sch, (a + b)[i], name);
    }
    if i :| 0 <= i < |b| && Has(sch, b[i], name) {
      assert Has(sch, (a + b)[|a| + i], name);
    }
  }

  /** Looking a name up in the record of a plan is reading it from the first table that has it. */
  lemma {:induction false} ReadPlan(sch: Schema, db: Database, env: Env, p: Plan, name: string)
    requires Typed(sch, db) && Tabs(p) <= sch.Keys && Tabs(p) <= env.Keys
    requires forall t :: t in Tabs(p) ==> t in db && env[t] < |db[t]|
    ensures |Cols(sch, p)| == |Rec(db, env, p)|
    ensures Read(Cols(sch, p), Rec(db, env, p), name) == ReadIn(sch, db, env, Leaves(p), name)
  {
    match p
    case Scan(t, _) =>
      ReadTable(sch, db, env, t, name);
    case Join(l, r, _) =>
      hide Read, Lookup, AnyWith, FirstWith, Has;
      ReadPlan(sch, db, env, l, name);
      ReadPlan(sch, db, env, r, name);
      ReadConcat(Cols(sch, l), Cols(sch, r), Rec(db, env, l), Rec(db, env, r), name);
      FirstConcat(sch, Leaves(l), Leaves(r), name);
  }

  lemma ReadTable(sch: Schema, db: Database, env: Env, t: string, name: string)
    requires Typed(sch, db) && t in sch && t in env && t in db && env[t] < |db[t]|
    ensures |TableCols(sch, t)| == |RowOf(db, env, t)|
    ensures Read(TableCols(sch, t), RowOf(db, env, t), name) == ReadIn(sch, db, env, [t], name)
  {
    TableHas(sch, t, name);
    assert [t][1..] == [] && [t][0] == t;
  }

  // ---- what plans mean

  lemma {:induction false} AllPass(lc: seq<TabCol>, lr: Row, rc: seq<TabCol>, rr: Row, cs: seq<Cond>)
    ensures TestAll(lc, lr, rc, rr, cs) == Pass <==> forall c :: c in cs ==> Test(lc, lr, rc, rr, c) == Pass
    ensures TestAll(lc, lr, rc, rr, cs) == Missing ==> exists c :: c in cs && Test(lc, lr, rc, rr, c) == Missing
  {
    hide Test;
    if cs == [] {
    } else {
      AllPass(lc, lr, rc, rr, cs[1..]);
      assert forall c :: c in cs <==> c == cs[0] || c in cs[1..];
    }
  }

  /** The first condition that does not pass decides, whatever comes behind it. */
  lemma {:induction false} FirstDecides(lc: seq<TabCol>, lr: Row, rc: seq<TabCol>, rr: Row, cs: seq<Cond>, i: nat)
    requires i < |cs| && Test(lc, lr, rc, rr, cs[i]) != Pass
    requires forall j :: 0 <= j < i ==> Test(lc, lr, rc, rr, cs[j]) == Pass
    ensures TestAll(lc, lr, rc, rr, cs) == Test(lc, lr, rc, rr, cs[i])
  {
    hide Test;
    if i == 0 {
    } else {
      FirstDecides(lc, lr, rc, rr, cs[1..], i - 1);
    }
  }

  /** A test where the names are found is the test of the condition as read. */
  lemma TestReads(sch: Schema, db: Database, env: Env, l: Plan, r: Plan, c: Cond)
    requires Typed(sch, db) && Tabs(l) + Tabs(r) <= sch.Keys && Tabs(l) + Tabs(r) <= env.Keys
    requires forall t :: t in Tabs(l) + Tabs(r) ==> t in db && env[t] < |db[t]|
    requires Readable(sch, Leaves(l), Leaves(r), c)
    ensures Test(Cols(sch, l), Rec(db, env, l), Cols(sch, r), Rec(db, env, r), c)
            == if Holds(sch, db, env, ReadCond(sch, Leaves(l), Leaves(r), c)) then Pass else Fail
  {
    hide Lookup, Read, AnyWith, FirstWith, Typed, Cols, Rec, Leaves, Tabs, Compare, Has;
    ReadPlan(sch, db, env, l, c.lhs.col);
    if c.rhs.Col? {
      ReadPlan(sch, db, env, r, c.rhs.col.col);
    }
  }

  lemma ReadsHold(sch: Schema, db: Database, env: Env, ls: seq<string>, rs: seq<string>, cs: seq<Cond>)
    ensures AllHold(sch, db, env, ReadConds(sch, ls, rs, cs)) <==>
              forall c :: c in cs ==> Holds(sch, db, env, ReadCond(sch, ls, rs, c))
  {
    hide Holds, ReadCond;
    var ds := ReadConds(sch, ls, rs, cs);
    forall c | c in cs
      ensures ReadCond(sch, ls, rs, c) in ds
    {
      var i :| 0 <= i < |cs| && cs[i] == c;
      assert ds[i] == ReadCond(sch, ls, rs, c);
    }
    forall d | d in ds
      ensures exists c :: c in cs && d == ReadCond(sch, ls, rs, c)
    {
      var i :| 0 <= i < |ds| && ds[i] == d;
      assert cs[i] in cs;
    }
  }

  /** The tests of a node pass together exactly if its conditions, as read, hold. */
  lemma NodeMeans(sch: Schema, db: Database, env: Env, l: Plan, r: Plan, cs: seq<Cond>)
    requires Typed(sch, db) && Tabs(l) + Tabs(r) <= sch.Keys && Tabs(l) + Tabs(r) <= env.Keys
    requires forall t :: t in Tabs(l) + Tabs(r) ==> t in db && env[t] < |db[t]|
    requires forall c :: c in cs ==> Readable(sch, Leaves(l), Leaves(r), c)
    ensures TestJoin(sch, db, env, l, r, cs) != Missing
    ensures TestJoin(sch, db, env, l, r, cs) == Pass <==>
              AllHold(sch, db, env, ReadConds(sch, Leaves(l), Leaves(r), cs))
  {
    hide Holds, ReadCond, Test, Readable, AllHold, Typed;
    var lc, lr, rc, rr := Cols(sch, l), Rec(db, env, l), Cols(sch, r), Rec(db, env, r);
    AllPass(lc, lr, rc, rr, cs);
    ReadsHold(sch, db, env, Leaves(l), Leaves(r), cs);
    forall c | c in cs
      ensures Test(lc, lr, rc, rr, c)
              == if Holds(sch, db, env, ReadCond(sch, Leaves(l), Leaves(r), c)) then Pass else Fail
    {
      TestReads(sch, db, env, l, r, c);
    }
  }

  lemma FitsJoin(db: Database, env: Env, tl: set<string>, tr: set<string>)
    ensures Fits(db, env, tl + tr) <==>
              env.Keys == tl + tr && Fits(db, Only(env, tl), tl) && Fits(db, Only(env, tr), tr)
  {
    if env.Keys == tl + tr {
      assert Only(env, tl).Keys == tl && Only(env, tr).Keys == tr;
    }
  }

  lemma {:induction false} FirstIn(sch: Schema, ts: seq<string>, name: string)
    requires AnyWith(sch, ts, name)
    ensures FirstWith(sch, ts, name) in ts && Has(sch, FirstWith(sch, ts, name), name)
  {
    if !Has(sch, ts[0], name) {
      AnyNext(sch, ts, name);
      FirstIn(sch, ts[1..], name);
    }
  }

  lemma {:induction false} LeavesTabs(p: Plan, t: string)
    ensures t in Leaves(p) <==> t in Tabs(p)
  {
    match p
    case Scan(_, _) =>
    case Join(l, r, _) =>
      LeavesTabs(l, t);
      LeavesTabs(r, t);
  }

  lemma ReadWithin(sch: Schema, ls: seq<string>, rs: seq<string>, c: Cond)
    requires Readable(sch, ls, rs, c)
    ensures ReadCond(sch, ls, rs, c).lhs.tab in ls
    ensures c.rhs.Col? ==> ReadCond(sch, ls, rs, c).rhs.col.tab in rs
  {
    FirstIn(sch, ls, c.lhs.col);
    if c.rhs.Col? {
      FirstIn(sch, rs, c.rhs.col.col);
    }
  }

  lemma NodeWithin(sch: Schema, l: Plan, r: Plan, cs: seq<Cond>, d: Cond)
    requires forall c :: c in cs ==> Readable(sch, Leaves(l), Leaves(r), c)
    requires d in ReadConds(sch, Leaves(l), Leaves(r), cs)
    ensures Within(d, Tabs(l) + Tabs(r))
  {
    hide Readable, ReadCond;
    var i :| 0 <= i < |cs| && d == ReadConds(sch, Leaves(l), Leaves(r), cs)[i];
    assert cs[i] in cs;
    ReadWithin(sch, Leaves(l), Leaves(r), cs[i]);
    LeavesTabs(l, d.lhs.tab);
    RhsKept(sch, Leaves(l), Leaves(r), cs[i]);
    if d.rhs.Col? {
      LeavesTabs(r, d.rhs.col.tab);
    }
  }

  lemma RhsKept(sch: Schema, ls: seq<string>, rs: seq<string>, c: Cond)
    ensures ReadCond(sch, ls, rs, c).rhs.Col? <==> c.rhs.Col?
  {
  }

  /** Conditions are read from tables of the plan. */
  lemma {:induction false} ReadsWithin(sch: Schema, p: Plan, c: Cond)
    requires AllReadable(sch, p) && c in Reads(sch, p)
    ensures Within(c, Tabs(p))
  {
    match p
    case Scan(t, cs) =>
      NodeWithin(sch, p, p, cs, c);
    case Join(l, r, cs) =>
      if c in Reads(sch, l) {
        ReadsWithin(sch, l, c);
      } else if c in Reads(sch, r) {
        ReadsWithin(sch, r, c);
      } else {
        NodeWithin(sch, l, r, cs, c);
      }
  }

  lemma HoldsOnly(sch: Schema, db: Database, env: Env, tabs: set<string>, c: Cond)
    requires Within(c, tabs)
    ensures Holds(sch, db, Only(env, tabs), c) <==> Holds(sch, db, env, c)
  {
    assert RowOf(db, Only(env, tabs), c.lhs.tab) == RowOf(db, env, c.lhs.tab);
    if c.rhs.Col? {
      assert RowOf(db, Only(env, tabs), c.rhs.col.tab) == RowOf(db, env, c.rhs.col.tab);
    }
  }

  lemma PartMeans(sch: Schema, db: Database, p: Plan, env: Env)
    requires AllReadable(sch, p)
    ensures AllHold(sch, db, Only(env, Tabs(p)), Reads(sch, p)) <==> AllHold(sch, db, env, Reads(sch, p))
  {
    hide Holds, Within;
    forall c | c in Reads(sch, p)
      ensures Holds(sch, db, Only(env, Tabs(p)), c) <==> Holds(sch, db, env, c)
    {
      ReadsWithin(sch, p, c);
      HoldsOnly(sch, db, env, Tabs(p), c);
    }
  }

  lemma AllHoldConcat(sch: Schema, db: Database, env: Env, a: seq<Cond>, b: seq<Cond>, c: seq<Cond>)
    ensures AllHold(sch, db, env, a + b + c) <==>
              AllHold(sch, db, env, a) && AllHold(sch, db, env, b) && AllHold(sch, db, env, c)
  {
    hide Holds;
    assert forall d :: d in a + b + c <==> d in a || d in b || d in c;
  }

  /** A plan in which every column is found gives exactly the choices from its tables that meet all
      its conditions, as they are read: the filtered cross product. */
  lemma {:induction false} PlanMeans(sch: Schema, db: Database, p: Plan, env: Env)
    requires Typed(sch, db) && Tabs(p) <= sch.Keys && AllReadable(sch, p)
    ensures Gives(sch, db, p, env) <==> Fits(db, env, Tabs(p)) && AllHold(sch, db, env, Reads(sch, p))
  {
    hide AllHold, TestJoin, Holds, Only, Typed, Readable;
    match p
    case Scan(t, cs) =>
      if Fits(db, env, {t}) {
        NodeMeans(sch, db, env, p, p, cs);
        ScanTest(sch, db, env, t, cs);
      }
    case Join(l, r, cs) =>
      PlanMeans(sch, db, l, Only(env, Tabs(l)));
      PlanMeans(sch, db, r, Only(env, Tabs(r)));
      FitsJoin(db, env, Tabs(l), Tabs(r));
      PartMeans(sch, db, l, env);
      PartMeans(sch, db, r, env);
      AllHoldConcat(sch, db, env, Reads(sch, l), Reads(sch, r), ReadConds(sch, Leaves(l), Leaves(r), cs));
      if Fits(db, env, Tabs(p)) {
        NodeMeans(sch, db, env, l, r, cs);
      }
  }

  lemma ScanTest(sch: Schema, db: Database, env: Env, t: string, cs: seq<Cond>)
    ensures TestScan(sch, db, env, t, cs) == TestJoin(sch, db, env, Scan(t, cs), Scan(t, cs), cs)
  {
  }

  /** Such a plan never meets a missing column. */
  lemma {:induction false} PlanRuns(sch: Schema, db: Database, p: Plan)
    requires Typed(sch, db) && Tabs(p) <= sch.Keys && AllReadable(sch, p)
    ensures !Raises(sch, db, p)
  {
    hide TestJoin, TestScan, Only, Typed, Readable, AllHold;
    match p
    case Scan(t, cs) =>
      forall i: nat | t in db && i < |db[t]|
        ensures TestScan(sch, db, map[t := i], t, cs) != Missing
      {
        NodeMeans(sch, db, map[t := i], p, p, cs);
        ScanTest(sch, db, map[t := i], t, cs);
      }
    case Join(l, r, cs) =>
      PlanRuns(sch, db, l);
      PlanRuns(sch, db, r);
      forall env: Env | env.Keys == Tabs(p) && Gives(sch, db, l, Only(env, Tabs(l)))
                        && Gives(sch, db, r, Only(env, Tabs(r)))
        ensures TestJoin(sch, db, env, l, r, cs) != Missing
      {
        PlanMeans(sch, db, l, Only(env, Tabs(l)));
        PlanMeans(sch, db, r, Only(env, Tabs(r)));
        FitsJoin(db, env, Tabs(l), Tabs(r));
        NodeMeans(sch, db, env, l, r, cs);
      }
  }
}
