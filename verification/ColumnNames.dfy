/** When looking columns up by name finds the ones that a query means. */
module ColumnNames {
  import opened Common
  import opened Plans
  import opened Placing
  import opened Queries
  import opened Planner

  // ---- databases with one row in each table

  type Values = map<TabCol, int>

  function ValueOf(m: Values, x: TabCol): int {
    if x in m then m[x] else 0
  }

  function OneRow(sch: Schema, m: Values, t: string): Row
    requires t in sch
  {
    seq(|sch[t]|, i requires 0 <= i < |sch[t]| => ValueOf(m, TabCol(t, sch[t][i])))
  }

  function OneRowEach(sch: Schema, m: Values): Database {
    map t | t in sch :: [OneRow(sch, m, t)]
  }

  function FirstRows(tables: seq<string>): Env {
    map t | t in tables :: 0
  }

  lemma OneRowFits(sch: Schema, m: Values, tables: seq<string>)
    requires forall t :: t in tables ==> t in sch
    ensures Typed(sch, OneRowEach(sch, m)) && Fits(OneRowEach(sch, m), FirstRows(tables), TableSet(tables))
  {
  }

  lemma OneRowLooks(sch: Schema, m: Values, tables: seq<string>, x: TabCol)
    requires x.tab in tables && Has(sch, x.tab, x.col)
    ensures Lookup(sch, OneRowEach(sch, m), FirstRows(tables), x) == ValueOf(m, x)
  {
    TableHas(sch, x.tab, x.col);
    var i := Find(TableCols(sch, x.tab), x.col);
    assert TableCols(sch, x.tab)[i] == x;
    assert RowOf(OneRowEach(sch, m), FirstRows(tables), x.tab) == OneRow(sch, m, x.tab);
  }

  /** Both columns exist in tables of the query. */
  predicate Exist(sch: Schema, tables: seq<string>, c: Cond) {
    && c.lhs.tab in tables && Has(sch, c.lhs.tab, c.lhs.col)
    && (c.rhs.Col? ==> c.rhs.col.tab in tables && Has(sch, c.rhs.col.tab, c.rhs.col.col))
  }

  lemma OneRowHolds(sch: Schema, m: Values, tables: seq<string>, c: Cond)
    requires Exist(sch, tables, c) && c.rhs.Col?
    ensures Holds(sch, OneRowEach(sch, m), FirstRows(tables), c) <==>
              Compare(c.op, ValueOf(m, c.lhs), ValueOf(m, c.rhs.col))
  {
    hide Lookup, ValueOf, Has, OneRowEach, FirstRows;
    OneRowLooks(sch, m, tables, c.lhs);
    OneRowLooks(sch, m, tables, c.rhs.col);
  }

  // ---- one condition

  /** Values for which a comparison goes one way and, with the first or the second changed, the other. */
  function Yes(op: CompOp): (int, int) {
    match op
    case EQ => (1, 1)
    case NE => (0, 1)
    case LT => (0, 1)
    case GT => (2, 1)
    case LE => (1, 1)
    case GE => (1, 1)
  }

  function NoLeft(op: CompOp): (v: int)
    ensures Compare(op, Yes(op).0, Yes(op).1) && !Compare(op, v, Yes(op).1)
  {
    match op
    case EQ => 0
    case NE => 1
    case LT => 1
    case GT => 1
    case LE => 2
    case GE => 0
  }

  function NoRight(op: CompOp): (v: int)
    ensures Compare(op, Yes(op).0, Yes(op).1) && !Compare(op, Yes(op).0, v)
  {
    match op
    case EQ => 0
    case NE => 0
    case LT => 0
    case GT => 2
    case LE => 0
    case GE => 2
  }

  /** Different conditions with the same operator differ on some database, if the columns on the left
      are not among those on the right. */
  lemma Differ(sch: Schema, tables: seq<string>, c: Cond, d: Cond)
    requires Exist(sch, tables, c) && Exist(sch, tables, d) && c.rhs.Col? && d.rhs.Col? && c.op == d.op && c != d
    requires forall t :: t in tables ==> t in sch
    requires {c.lhs, d.lhs} !! {c.rhs.col, d.rhs.col}
    ensures !Equivalent(sch, tables, [d], [c])
  {
    var m: Values := map[c.lhs := Yes(c.op).0, c.rhs.col := Yes(c.op).1];
    if c.lhs != d.lhs {
      m := m[d.lhs := NoLeft(c.op)][d.rhs.col := Yes(c.op).1];
    } else {
      m := m[d.rhs.col := NoRight(c.op)];
    }
    Tells(sch, tables, m, c, d);
  }

  lemma Tells(sch: Schema, tables: seq<string>, m: Values, c: Cond, d: Cond)
    requires Exist(sch, tables, c) && Exist(sch, tables, d) && c.rhs.Col? && d.rhs.Col?
    requires forall t :: t in tables ==> t in sch
    requires Compare(c.op, ValueOf(m, c.lhs), ValueOf(m, c.rhs.col))
    requires !Compare(d.op, ValueOf(m, d.lhs), ValueOf(m, d.rhs.col))
    ensures !Equivalent(sch, tables, [d], [c])
  {
    hide Holds, Compare, ValueOf, OneRowEach, FirstRows, Exist, Typed, Fits;
    var db, env := OneRowEach(sch, m), FirstRows(tables);
    OneRowFits(sch, m, tables);
    OneRowHolds(sch, m, tables, c);
    OneRowHolds(sch, m, tables, d);
    assert AllHold(sch, db, env, [c]);
    assert d in [d] && !AllHold(sch, db, env, [d]);
  }

  /** No table is in two groups. */
  predicate GroupsApart(gs: seq<seq<string>>) {
    gs == [] || ((forall t :: t in gs[0] ==> t !in Flat(gs[1..])) && GroupsApart(gs[1..]))
  }

  lemma {:induction false} GroupsAreApart(cs: seq<Cond>)
    ensures GroupsApart(Groups(cs))
  {
    if cs == [] {
    } else {
      var n := |cs| - 1;
      GroupsAreApart(cs[..n]);
      var gs := Groups(cs[..n]);
      assert forall g: seq<string> :: ([g] + gs)[1..] == gs && ([g] + gs)[0] == g;
    }
  }

  lemma {:induction false} GroupsWithin(cs: seq<Cond>, tables: seq<string>, t: string)
    requires forall c :: c in cs ==> c.lhs.tab in tables && RhsTab(c) in tables
    requires t in Flat(Groups(cs))
    ensures t in tables
  {
    if cs == [] {
    } else {
      var n := |cs| - 1;
      var gs := Groups(cs[..n]);
      assert cs[n] in cs;
      assert forall g: seq<string> :: ([g] + gs)[1..] == gs && ([g] + gs)[0] == g;
      if t in Flat(gs) {
        GroupsWithin(cs[..n], tables, t);
      }
    }
  }

  /** A condition has its own tables on its two sides, and the sides have no table in common. */
  lemma {:induction false} SidesApart(gs: seq<seq<string>>, c: Cond)
    requires GroupsApart(gs) && TwoTables(c) && c.lhs.tab in Flat(gs) && RhsTab(c) in Flat(gs)
    ensures c.lhs.tab in JoinSides(gs, c).0 && RhsTab(c) in JoinSides(gs, c).1
    ensures forall t :: t in JoinSides(gs, c).0 ==> t !in JoinSides(gs, c).1
    ensures forall t :: t in JoinSides(gs, c).0 || t in JoinSides(gs, c).1 ==> t in Flat(gs)
  {
    if c.lhs.tab !in gs[0] && RhsTab(c) !in gs[0] {
      SidesApart(gs[1..], c);
    }
  }

  lemma AnyIn(sch: Schema, ts: seq<string>, x: TabCol)
    requires x.tab in ts && Has(sch, x.tab, x.col)
    ensures AnyWith(sch, ts, x.col)
  {
    var i :| 0 <= i < |ts| && ts[i] == x.tab;
  }

  /** What a condition between two tables is read as. */
  lemma JoinReads(sch: Schema, tables: seq<string>, conds: seq<Cond>, c: Cond)
    requires ForQuery(tables, conds) && Declared(sch, tables, conds) && c in conds && TwoTables(c)
    ensures var d := ReadAs(sch, tables[0], Groups(JoinConds(conds)), c);
            && d.rhs.Col? && d.op == c.op && Exist(sch, tables, d)
            && {c.lhs, d.lhs} !! {c.rhs.col, d.rhs.col}
  {
    hide Groups, JoinConds, JoinSides;
    var cs := JoinConds(conds);
    var gs := Groups(cs);
    JoinsHave(conds, c);
    GroupsCover(cs, c);
    GroupsAreApart(cs);
    SidesApart(gs, c);
    var (ls, rs) := JoinSides(gs, c);
    AnyIn(sch, ls, c.lhs);
    AnyIn(sch, rs, c.rhs.col);
    FirstIn(sch, ls, c.lhs.col);
    FirstIn(sch, rs, c.rhs.col.col);
    InTables(tables, conds, FirstWith(sch, ls, c.lhs.col));
    InTables(tables, conds, FirstWith(sch, rs, c.rhs.col.col));
  }

  lemma {:induction false} JoinsFrom(conds: seq<Cond>, c: Cond)
    requires c in JoinConds(conds)
    ensures c in conds && TwoTables(c)
  {
    if conds == [] {
    } else {
      var n := |conds| - 1;
      if c in JoinConds(conds[..n]) {
        JoinsFrom(conds[..n], c);
      }
    }
  }

  lemma InTables(tables: seq<string>, conds: seq<Cond>, t: string)
    requires ForQuery(tables, conds) && t in Flat(Groups(JoinConds(conds)))
    ensures t in tables
  {
    hide Groups, JoinConds;
    forall c | c in JoinConds(conds)
      ensures c.lhs.tab in tables && RhsTab(c) in tables
    {
      JoinsFrom(conds, c);
    }
    GroupsWithin(JoinConds(conds), tables, t);
  }

  /** A condition is tested as it is written, on every database, if and only if every column of it is in
      the first table of its side that has that name. A comparison of a column with itself does not
      care. */
  lemma TestedAsWritten(sch: Schema, tables: seq<string>, conds: seq<Cond>, c: Cond)
    requires ForQuery(tables, conds) && Declared(sch, tables, conds) && Findable(sch, tables, conds) && c in conds
    ensures var d := ReadAs(sch, tables[0], Groups(JoinConds(conds)), c);
            Equivalent(sch, tables, [d], [c]) <==> d == c || (OneTable(c) && c.lhs == c.rhs.col)
  {
    hide Groups, JoinConds, JoinSides, Equivalent;
    var d := ReadAs(sch, tables[0], Groups(JoinConds(conds)), c);
    if c.rhs.Val? {
      assert d == c;
      SameEquivalent(sch, tables, c);
    } else if OneTable(c) {
      assert d == Cond(TabCol(tables[0], c.lhs.col), c.op, Col(TabCol(tables[0], c.rhs.col.col)));
      if d == c {
        SameEquivalent(sch, tables, c);
      } else if c.lhs == c.rhs.col {
        SelfEquivalent(sch, tables, c, d);
      } else {
        Differ(sch, tables, c, d);
      }
    } else {
      JoinReads(sch, tables, conds, c);
      if d == c {
        SameEquivalent(sch, tables, c);
      } else {
        Differ(sch, tables, c, d);
      }
    }
  }

  lemma SameEquivalent(sch: Schema, tables: seq<string>, c: Cond)
    ensures Equivalent(sch, tables, [c], [c])
  {
  }

  lemma SelfEquivalent(sch: Schema, tables: seq<string>, c: Cond, d: Cond)
    requires c.rhs == Col(c.lhs) && d.rhs == Col(d.lhs) && c.op == d.op
    ensures Equivalent(sch, tables, [d], [c])
  {
    hide Lookup, Typed, Fits;
    forall db, env
      ensures AllHold(sch, db, env, [d]) <==> AllHold(sch, db, env, [c])
    {
      assert Holds(sch, db, env, d) <==> Holds(sch, db, env, c);
      assert c in [c] && d in [d];
    }
  }

  // ---- queries whose conditions are all read as they are written

  lemma ReadRightMeans(sch: Schema, p: Plan, tables: seq<string>, conds: seq<Cond>)
    requires ForQuery(tables, conds) && Declared(sch, tables, conds) && Arranged(sch, p, tables, conds)
    requires AsRead(sch, tables, conds) == conds
    ensures Means(sch, p, tables, conds)
  {
    hide Groups, JoinConds, Means, Equivalent, Arranged;
    forall c | c in conds && OneTable(c)
      ensures Has(sch, tables[0], c.lhs.col) && Has(sch, tables[0], c.rhs.col.col)
    {
      var i :| 0 <= i < |conds| && conds[i] == c;
      assert AsRead(sch, tables, conds)[i] == ReadAs(sch, tables[0], Groups(JoinConds(conds)), c);
      OnlyTable(sch, tables[0], c.lhs.col);
      OnlyTable(sch, tables[0], c.rhs.col.col);
      assert c.lhs.tab != "";
    }
    assert Equivalent(sch, tables, conds, conds) by { EquivalentSelf(sch, tables, conds); }
    QueryMeans(sch, p, tables, conds);
  }

  lemma OnlyTable(sch: Schema, t: string, name: string)
    ensures FirstWith(sch, [t], name) == if Has(sch, t, name) then t else ""
  {
    assert [t][1..] == [];
  }

  lemma EquivalentSelf(sch: Schema, tables: seq<string>, cs: seq<Cond>)
    ensures Equivalent(sch, tables, cs, cs)
  {
  }

  /** No other table of the query has a column of that name. */
  ghost predicate OwnName(sch: Schema, tables: seq<string>, x: TabCol) {
    forall t :: t in tables && Has(sch, t, x.col) ==> t == x.tab
  }

  /** It is enough that names compared across tables are in one table each, and that comparisons
      within a table are about the first. */
  lemma OwnNamesMean(sch: Schema, p: Plan, tables: seq<string>, conds: seq<Cond>)
    requires ForQuery(tables, conds) && Declared(sch, tables, conds) && Arranged(sch, p, tables, conds)
    requires forall c :: c in conds && TwoTables(c) ==> OwnName(sch, tables, c.lhs) && OwnName(sch, tables, c.rhs.col)
    requires forall c :: c in conds && OneTable(c) ==> c.lhs.tab == tables[0]
    ensures AsRead(sch, tables, conds) == conds && Means(sch, p, tables, conds)
  {
    hide Groups, JoinConds, Means, Arranged, JoinSides;
    var gs := Groups(JoinConds(conds));
    forall i | 0 <= i < |conds|
      ensures ReadAs(sch, tables[0], gs, conds[i]) == conds[i]
    {
      var c := conds[i];
      assert c in conds;
      if TwoTables(c) {
        JoinReads(sch, tables, conds, c);
      }
    }
    assert AsRead(sch, tables, conds) == conds;
    ReadRightMeans(sch, p, tables, conds);
  }

  // ---- equalities

  predicate Equalities(cs: seq<Cond>) {
    forall c :: c in cs ==> c.op == EQ && c.rhs.Col?
  }

  /** One of the equalities is between these two columns. */
  ghost predicate Edge(cs: seq<Cond>, x: TabCol, y: TabCol) {
    Cond(x, EQ, Col(y)) in cs || Cond(y, EQ, Col(x)) in cs
  }

  ghost predicate Path(cs: seq<Cond>, path: seq<TabCol>, x: TabCol, y: TabCol) {
    && path != [] && path[0] == x && path[|path| - 1] == y
    && forall i :: 0 <= i < |path| - 1 ==> Edge(cs, path[i], path[i + 1])
  }

  /** A chain of equalities leads from one column to the other. */
  ghost predicate Linked(cs: seq<Cond>, x: TabCol, y: TabCol) {
    exists path :: Path(cs, path, x, y)
  }

  ghost predicate AllLinked(cs: seq<Cond>, ds: seq<Cond>) {
    forall d :: d in ds && d.rhs.Col? ==> Linked(cs, d.lhs, d.rhs.col)
  }

  lemma LinkedSelf(cs: seq<Cond>, x: TabCol)
    ensures Linked(cs, x, x)
  {
    assert Path(cs, [x], x, x);
  }

  lemma LinkedOn(cs: seq<Cond>, x: TabCol, y: TabCol, z: TabCol)
    requires Linked(cs, x, y) && Edge(cs, y, z)
    ensures Linked(cs, x, z)
  {
    var path :| Path(cs, path, x, y);
    var longer := path + [z];
    forall i | 0 <= i < |longer| - 1
      ensures Edge(cs, longer[i], longer[i + 1])
    {
      if i < |path| - 1 {
        assert Edge(cs, path[i], path[i + 1]);
      }
    }
    assert Path(cs, longer, x, z);
  }

  lemma {:induction false} PathEqual(sch: Schema, db: Database, env: Env, cs: seq<Cond>, path: seq<TabCol>,
                                     x: TabCol, y: TabCol)
    requires AllHold(sch, db, env, cs) && Path(cs, path, x, y)
    ensures Lookup(sch, db, env, x) == Lookup(sch, db, env, y)
    decreases |path|
  {
    hide Lookup;
    if |path| == 1 {
    } else {
      assert Edge(cs, path[0], path[1]);
      assert Holds(sch, db, env, Cond(x, EQ, Col(path[1]))) || Holds(sch, db, env, Cond(path[1], EQ, Col(x)));
      forall i | 0 <= i < |path[1..]| - 1
        ensures Edge(cs, path[1..][i], path[1..][i + 1])
      {
        assert Edge(cs, path[i + 1], path[i + 2]);
      }
      PathEqual(sch, db, env, cs, path[1..], path[1], y);
    }
  }

  /** Equalities that lead from column to column imply each other. */
  lemma LinkedHold(sch: Schema, db: Database, env: Env, cs: seq<Cond>, ds: seq<Cond>)
    requires Equalities(ds) && AllLinked(cs, ds) && AllHold(sch, db, env, cs)
    ensures AllHold(sch, db, env, ds)
  {
    hide Lookup;
    forall d | d in ds
      ensures Holds(sch, db, env, d)
    {
      var path :| Path(cs, path, d.lhs, d.rhs.col);
      PathEqual(sch, db, env, cs, path, d.lhs, d.rhs.col);
    }
  }

  /** The columns of the conditions that a chain of equalities reaches from `x`. */
  ghost function Reached(cs: seq<Cond>, x: TabCol, n: nat): Values
    requires n <= |cs| && Equalities(cs)
  {
    if n == 0 then map[x := 1]
    else
      var m := Reached(cs, x, n - 1);
      var c := cs[n - 1];
      assert c in cs;
      var m' := if Linked(cs, x, c.lhs) then m[c.lhs := 1] else m;
      if Linked(cs, x, c.rhs.col) then m'[c.rhs.col := 1] else m'
  }

  lemma {:induction false} ReachedAre(cs: seq<Cond>, x: TabCol, n: nat, y: TabCol)
    requires n <= |cs| && Equalities(cs)
    ensures y in Reached(cs, x, n) ==> Reached(cs, x, n)[y] == 1 && Linked(cs, x, y)
    ensures Linked(cs, x, y) && (y == x || exists i :: 0 <= i < n && (cs[i].lhs == y || cs[i].rhs == Col(y))) ==>
              y in Reached(cs, x, n)
  {
    hide Linked;
    LinkedSelf(cs, x);
    if n == 0 {
    } else {
      ReachedAre(cs, x, n - 1, y);
      assert cs[n - 1] in cs;
    }
  }

  lemma ReachedHolds(sch: Schema, tables: seq<string>, cs: seq<Cond>, x: TabCol, c: Cond)
    requires Equalities(cs) && c in cs && Exist(sch, tables, c)
    ensures Holds(sch, OneRowEach(sch, Reached(cs, x, |cs|)), FirstRows(tables), c)
  {
    hide Linked, Holds, Reached, OneRowEach, FirstRows, Exist;
    var m := Reached(cs, x, |cs|);
    var y, z := c.lhs, c.rhs.col;
    var i :| 0 <= i < |cs| && cs[i] == c;
    assert c == Cond(y, EQ, Col(z));
    assert Edge(cs, y, z) && Edge(cs, z, y);
    ReachedAre(cs, x, |cs|, y);
    ReachedAre(cs, x, |cs|, z);
    if Linked(cs, x, y) {
      LinkedOn(cs, x, y, z);
    } else if Linked(cs, x, z) {
      LinkedOn(cs, x, z, y);
    }
    OneRowHolds(sch, m, tables, c);
  }

  /** Equalities that do not lead from one column to the other do not imply that they are equal. */
  lemma NotLinked(sch: Schema, tables: seq<string>, cs: seq<Cond>, d: Cond) returns (db: Database, env: Env)
    requires Equalities(cs) && d.rhs.Col? && d.op == EQ && !Linked(cs, d.lhs, d.rhs.col)
    requires (forall t :: t in tables ==> t in sch) && Exist(sch, tables, d)
    requires forall c :: c in cs ==> Exist(sch, tables, c)
    ensures Typed(sch, db) && Fits(db, env, TableSet(tables)) && AllHold(sch, db, env, cs) && !Holds(sch, db, env, d)
  {
    hide Linked, Holds, Reached, OneRowEach, FirstRows, Exist, Typed, Fits;
    var m := Reached(cs, d.lhs, |cs|);
    db, env := OneRowEach(sch, m), FirstRows(tables);
    OneRowFits(sch, m, tables);
    forall c | c in cs
      ensures Holds(sch, db, env, c)
    {
      ReachedHolds(sch, tables, cs, d.lhs, c);
    }
    LinkedSelf(cs, d.lhs);
    ReachedAre(cs, d.lhs, |cs|, d.lhs);
    ReachedAre(cs, d.lhs, |cs|, d.rhs.col);
    OneRowHolds(sch, m, tables, d);
  }

  lemma NotImplied(sch: Schema, tables: seq<string>, cs: seq<Cond>, ds: seq<Cond>, d: Cond)
    requires Equalities(cs) && Equalities(ds) && d in ds && !Linked(cs, d.lhs, d.rhs.col)
    requires forall t :: t in tables ==> t in sch
    requires forall c :: c in cs || c in ds ==> Exist(sch, tables, c)
    ensures !Equivalent(sch, tables, cs, ds) && !Equivalent(sch, tables, ds, cs)
  {
    hide Linked, Holds, Exist, Typed, Fits;
    var db, env := NotLinked(sch, tables, cs, d);
    assert AllHold(sch, db, env, cs) && !AllHold(sch, db, env, ds);
  }

  lemma ImpliesLinked(sch: Schema, tables: seq<string>, cs: seq<Cond>, ds: seq<Cond>)
    requires Equalities(cs) && Equalities(ds) && Equivalent(sch, tables, cs, ds)
    requires forall t :: t in tables ==> t in sch
    requires forall c :: c in cs || c in ds ==> Exist(sch, tables, c)
    ensures AllLinked(cs, ds) && AllLinked(ds, cs)
  {
    hide Linked, Equivalent, Exist;
    forall d | d in ds
      ensures Linked(cs, d.lhs, d.rhs.col)
    {
      if !Linked(cs, d.lhs, d.rhs.col) {
        NotImplied(sch, tables, cs, ds, d);
      }
    }
    forall d | d in cs
      ensures Linked(ds, d.lhs, d.rhs.col)
    {
      if !Linked(ds, d.lhs, d.rhs.col) {
        NotImplied(sch, tables, ds, cs, d);
      }
    }
  }

  lemma LinkedEquivalent(sch: Schema, tables: seq<string>, cs: seq<Cond>, ds: seq<Cond>)
    requires Equalities(cs) && Equalities(ds) && AllLinked(cs, ds) && AllLinked(ds, cs)
    ensures Equivalent(sch, tables, cs, ds)
  {
    hide Linked, Holds, Typed, Fits;
    forall db, env
      ensures AllHold(sch, db, env, cs) <==> AllHold(sch, db, env, ds)
    {
      if AllHold(sch, db, env, cs) {
        LinkedHold(sch, db, env, cs, ds);
      }
      if AllHold(sch, db, env, ds) {
        LinkedHold(sch, db, env, ds, cs);
      }
    }
  }

  /** The plan of a query with equalities between columns of different tables means the query if and only
      if the equalities as written and as read lead from column to column in the same way. */
  lemma EquiJoinMeans(sch: Schema, p: Plan, tables: seq<string>, conds: seq<Cond>)
    requires ForQuery(tables, conds) && Declared(sch, tables, conds) && Arranged(sch, p, tables, conds)
    requires Equalities(conds) && forall c :: c in conds ==> TwoTables(c)
    ensures var tested := AsRead(sch, tables, conds);
            Means(sch, p, tables, conds) <==> AllLinked(tested, conds) && AllLinked(conds, tested)
  {
    hide Groups, JoinConds, Means, Equivalent, Arranged, AllLinked, ReadAs;
    var tested := AsRead(sch, tables, conds);
    forall d | d in tested
      ensures d.op == EQ && d.rhs.Col? && Exist(sch, tables, d)
    {
      var i :| 0 <= i < |tested| && tested[i] == d;
      assert conds[i] in conds;
      JoinReads(sch, tables, conds, conds[i]);
    }
    QueryMeans(sch, p, tables, conds);
    if Means(sch, p, tables, conds) {
      ImpliesLinked(sch, tables, tested, conds);
    }
    if AllLinked(tested, conds) && AllLinked(conds, tested) {
      LinkedEquivalent(sch, tables, tested, conds);
    }
  }
}
