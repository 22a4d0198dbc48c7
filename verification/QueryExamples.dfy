/** Queries that are planned wrong, and one that is planned right although a column is misread. */
module QueryExamples {
  import opened Common
  import opened Plans
  import opened Placing
  import opened Queries
  import opened Planner
  import opened ColumnNames

  function Equal(x: TabCol, y: TabCol): Cond {
    Cond(x, EQ, Col(y))
  }

  lemma TwoJoins(c: Cond, d: Cond)
    requires TwoTables(c) && TwoTables(d)
    ensures JoinConds([c, d]) == [c, d]
    ensures Groups([c, d]) == Grown([[c.lhs.tab, c.rhs.col.tab]], d)
  {
    JoinsOnly([c, d]);
    assert [c, d][..1] == [c] && [c][..0] == [] && [c.lhs.tab] + [c.rhs.col.tab] == [c.lhs.tab, c.rhs.col.tab];
    assert Groups([c]) == [[c.lhs.tab, c.rhs.col.tab]];
  }

  lemma Flat1(g: seq<string>)
    ensures Flat([g]) == g
  {
    assert [g][1..] == [] && g + [] == g;
  }

  /** A third table, joined to the second by a name that the first has too, is compared with the first. */
  lemma ThirdReadsFirst(sch: Schema, a: string, b: string, c: string, x: string, y: string, id: string, z: string)
    requires a != b && b != c && a != c && Has(sch, a, x) && Has(sch, b, y) && Has(sch, a, id) && Has(sch, c, z)
    ensures AsRead(sch, [a, b, c], [Equal(TabCol(a, x), TabCol(b, y)), Equal(TabCol(b, id), TabCol(c, z))])
            == [Equal(TabCol(a, x), TabCol(b, y)), Equal(TabCol(a, id), TabCol(c, z))]
  {
    var first, second := Equal(TabCol(a, x), TabCol(b, y)), Equal(TabCol(b, id), TabCol(c, z));
    TwoJoins(first, second);
    Flat1([a, b]);
    var gs := Groups([first, second]);
    assert [] + [c] == [c] && gs == [[c], [a, b]];
    assert gs[1..] == [[a, b]] && gs[0] == [c];
    assert JoinSides([[a, b]], first) == ([a], [b]);
    assert JoinSides(gs, first) == ([a], [b]) && JoinSides(gs, second) == ([a, b], [c]);
    OnlyTable(sch, a, x);
    OnlyTable(sch, b, y);
    OnlyTable(sch, c, z);
    assert [a, b][0] == a && FirstWith(sch, [a, b], id) == a;
  }

  predicate Distinct(a: string, b: string, c: string) {
    a != b && b != c && a != c && a != "" && b != "" && c != ""
  }

  lemma ThreeTables(sch: Schema, a: string, b: string, c: string, u: Cond, v: Cond)
    requires Distinct(a, b, c) && a in sch && b in sch && c in sch
    requires Exist(sch, [a, b, c], u) && Exist(sch, [a, b, c], v)
    ensures ForQuery([a, b, c], [u, v]) && Declared(sch, [a, b, c], [u, v]) && TableSet([a, b, c]) == {a, b, c}
    ensures a in [a, b, c] && b in [a, b, c] && c in [a, b, c]
  {
  }

  /** `SELECT * FROM a, b, c WHERE a.x = b.y AND b.id = c.z`, where `a` has a column `id`, too: `c.z` is compared
      with `a.id`, and a row is lost. */
  method NameTaken(sch: Schema, a: string, b: string, c: string, x: string, y: string, id: string, z: string)
    returns (p: Plan, ghost db: Database, ghost env: Env)
    requires Distinct(a, b, c) && x != id
    requires Has(sch, a, x) && Has(sch, a, id) && Has(sch, b, y) && Has(sch, b, id) && Has(sch, c, z)
    ensures Typed(sch, db) && Fits(db, env, {a, b, c})
    ensures AllHold(sch, db, env, [Equal(TabCol(a, x), TabCol(b, y)), Equal(TabCol(b, id), TabCol(c, z))])
    ensures !Gives(sch, db, p, env)
  {
    hide Gives, Raises, Arranged, AllHold, ForQuery, Declared, Typed, Fits, AsRead, Equivalent, Satisfiable, TableSet;
    var tables, u, v := [a, b, c], Equal(TabCol(a, x), TabCol(b, y)), Equal(TabCol(b, id), TabCol(c, z));
    ghost var w := Equal(TabCol(a, id), TabCol(c, z));
    ThreeTables(sch, a, b, c, u, v);
    p := MakeOneRel(tables, [u, v], sch);
    ThirdReadsFirst(sch, a, b, c, x, y, id, z);
    db, env := RowLost(sch, a, b, c, u, v, w);
    assert Findable(sch, tables, [u, v]);
    assert Filters(sch, db, p, tables, [u, w]);
  }

  lemma RowLost(sch: Schema, a: string, b: string, c: string, u: Cond, v: Cond, w: Cond)
    returns (db: Database, env: Env)
    requires Distinct(a, b, c) && a in sch && b in sch && c in sch
    requires Exist(sch, [a, b, c], u) && Exist(sch, [a, b, c], v) && Exist(sch, [a, b, c], w)
    requires u.rhs.Col? && v.rhs.Col? && w.rhs.Col? && u.op == v.op == w.op == EQ
    requires w.lhs !in {u.lhs, u.rhs.col, v.lhs, v.rhs.col} && w.rhs == v.rhs
    ensures Typed(sch, db) && Fits(db, env, TableSet([a, b, c]))
    ensures AllHold(sch, db, env, [u, v]) && !AllHold(sch, db, env, [u, w])
  {
    hide Lookup, OneRowEach, FirstRows, Typed, Fits, Exist;
    var m: Values := map[u.lhs := 1, u.rhs.col := 1, v.lhs := 1, v.rhs.col := 1];
    db, env := OneRowEach(sch, m), FirstRows([a, b, c]);
    OneRowFits(sch, m, [a, b, c]);
    OneRowHolds(sch, m, [a, b, c], u);
    OneRowHolds(sch, m, [a, b, c], v);
    OneRowHolds(sch, m, [a, b, c], w);
    assert w in [u, w];
  }

  /** `SELECT * FROM a, b, c WHERE a.id = b.id AND b.id = c.id`: here, too, `c.id` is compared with `a.id`, but
      since that equals `b.id` the plan means the query. */
  method NameShared(sch: Schema, a: string, b: string, c: string, id: string) returns (p: Plan)
    requires Distinct(a, b, c) && Has(sch, a, id) && Has(sch, b, id) && Has(sch, c, id)
    ensures var x, y, z := TabCol(a, id), TabCol(b, id), TabCol(c, id);
            AsRead(sch, [a, b, c], [Equal(x, y), Equal(y, z)]) == [Equal(x, y), Equal(x, z)]
    ensures Means(sch, p, [a, b, c], [Equal(TabCol(a, id), TabCol(b, id)), Equal(TabCol(b, id), TabCol(c, id))])
  {
    hide Arranged, Means, ForQuery, Declared, AsRead, Equivalent, Satisfiable, TableSet, Linked, Has;
    var x, y, z := TabCol(a, id), TabCol(b, id), TabCol(c, id);
    var tables, conds := [a, b, c], [Equal(x, y), Equal(y, z)];
    assert a in sch && b in sch && c in sch by {
      HasTable(sch, a, id);
      HasTable(sch, b, id);
      HasTable(sch, c, id);
    }
    ThreeTables(sch, a, b, c, Equal(x, y), Equal(y, z));
    p := MakeOneRel(tables, conds, sch);
    ThirdReadsFirst(sch, a, b, c, id, id, id, id);
    Triangle(x, y, z);
    EquiJoinMeans(sch, p, tables, conds);
  }

  lemma HasTable(sch: Schema, t: string, name: string)
    requires Has(sch, t, name)
    ensures t in sch
  {
  }

  lemma Triangle(x: TabCol, y: TabCol, z: TabCol)
    ensures AllLinked([Equal(x, y), Equal(x, z)], [Equal(x, y), Equal(y, z)])
    ensures AllLinked([Equal(x, y), Equal(y, z)], [Equal(x, y), Equal(x, z)])
  {
    var cs, ds := [Equal(x, y), Equal(x, z)], [Equal(x, y), Equal(y, z)];
    assert cs[0] in cs && cs[1] in cs && ds[0] in ds && ds[1] in ds;
    assert Path(cs, [x, y], x, y) && Path(cs, [y, x, z], y, z);
    assert Path(ds, [x, y], x, y) && Path(ds, [x, y, z], x, z);
  }

  lemma TwoTabs(sch: Schema, a: string, b: string, c: Cond)
    requires a != b && a != "" && b != "" && a in sch && Exist(sch, [a, b], c) && b in sch
    ensures ForQuery([a, b], [c]) && Declared(sch, [a, b], [c]) && a in [a, b] && b in [a, b]
    ensures TableSet([a, b]) == {a, b}
  {
  }

  lemma StrayRead(sch: Schema, a: string, b: string, x: string, y: string)
    requires a != b && Has(sch, a, x) && Has(sch, a, y)
    ensures AsRead(sch, [a, b], [Cond(TabCol(b, x), LT, Col(TabCol(b, y)))])
            == [Cond(TabCol(a, x), LT, Col(TabCol(a, y)))]
  {
    OnlyTable(sch, a, x);
    OnlyTable(sch, a, y);
  }

  /** `SELECT * FROM a, b WHERE b.x < b.y`, where `a` has these columns, too: those of `a` are compared, and a row
      comes out that should not. */
  method StrayReadsFirst(sch: Schema, a: string, b: string, x: string, y: string)
    returns (p: Plan, ghost db: Database, ghost env: Env)
    requires a != b && a != "" && b != "" && x != y
    requires Has(sch, a, x) && Has(sch, a, y) && Has(sch, b, x) && Has(sch, b, y)
    ensures Typed(sch, db) && !AllHold(sch, db, env, [Cond(TabCol(b, x), LT, Col(TabCol(b, y)))])
    ensures Gives(sch, db, p, env)
  {
    hide Gives, Raises, Arranged, ForQuery, Declared, Typed, Fits, AsRead, Equivalent, Satisfiable, TableSet, Holds;
    var c, d := Cond(TabCol(b, x), LT, Col(TabCol(b, y))), Cond(TabCol(a, x), LT, Col(TabCol(a, y)));
    TwoTabs(sch, a, b, c);
    p := MakeOneRel([a, b], [c], sch);
    StrayRead(sch, a, b, x, y);
    ghost var m: Values := map[TabCol(a, x) := 0, TabCol(a, y) := 1];
    db, env := OneRowEach(sch, m), FirstRows([a, b]);
    OneRowFits(sch, m, [a, b]);
    OneRowHolds(sch, m, [a, b], c);
    OneRowHolds(sch, m, [a, b], d);
    assert c in [c] && AllHold(sch, db, env, [d]);
    assert Filters(sch, db, p, [a, b], [d]);
  }

  lemma {:induction false} SomeTable(p: Plan) returns (t: string)
    ensures t in Tabs(p)
  {
    match p
    case Scan(u, _) =>
      t := u;
    case Join(l, _, _) =>
      t := SomeTable(l);
  }

  lemma TwoOfJoin(p: Plan) returns (u: string, v: string)
    requires p.Join? && JoinsPlaced(p)
    ensures u in Tabs(p) && v in Tabs(p) && u != v
  {
    u := SomeTable(p.left);
    v := SomeTable(p.right);
  }

  lemma ScanOfOne(p: Plan, t: string)
    requires JoinsPlaced(p) && Tabs(p) == {t}
    ensures p.Scan? && p.tab == t
  {
    if p.Join? {
      var u, v := TwoOfJoin(p);
    }
  }

  /** A tree over two tables joins their scans. */
  lemma TwoScans(p: Plan, a: string, b: string)
    requires JoinsPlaced(p) && Tabs(p) == {a, b} && a != b
    ensures p.Join? && p.left.Scan? && p.right.Scan?
    ensures (p.left.tab == a && p.right.tab == b) || (p.left.tab == b && p.right.tab == a)
  {
    assert a in Tabs(p) && b in Tabs(p);
    if p.Join? {
      var u := SomeTable(p.left);
      var v := SomeTable(p.right);
      assert u in Tabs(p) && v in Tabs(p);
      assert Tabs(p.left) == {u} && Tabs(p.right) == {v};
      ScanOfOne(p.left, u);
      ScanOfOne(p.right, v);
    }
  }

  lemma Member(cs: seq<Cond>)
    ensures cs != [] ==> exists c :: c in cs
  {
    if cs != [] {
      assert cs[0] in cs;
    }
  }

  /** All conditions are this one, read either way. */
  ghost predicate AllSame(cs: seq<Cond>, c: Cond) {
    forall d :: d in cs ==> Same(d, c)
  }

  lemma PlanSame(p: Plan, c: Cond)
    requires SameConds(CondsOf(p), [c])
    ensures AllSame(CondsOf(p), c) && CondsOf(p) != []
  {
    forall d | d in CondsOf(p)
      ensures Same(d, c)
    {
      var e := SameMember(CondsOf(p), [c], d);
    }
    var d := SameMember([c], CondsOf(p), c);
  }

  /** A scan that begins with a missing column fails on its first row. */
  lemma ScanRaises(sch: Schema, db: Database, t: string, cs: seq<Cond>, c: Cond)
    requires t in db && |db[t]| > 0 && cs != [] && AllSame(cs, c) && c.rhs.Col?
    requires !Has(sch, t, c.lhs.col) || !Has(sch, t, c.rhs.col.col)
    ensures Raises(sch, db, Scan(t, cs))
  {
    assert cs[0] in cs;
    TableHas(sch, t, c.lhs.col);
    TableHas(sch, t, c.rhs.col.col);
    assert TestScan(sch, db, map[t := 0], t, cs) == Missing;
  }

  lemma StrayRaises(sch: Schema, db: Database, p: Plan, a: string, b: string, c: Cond)
    requires JoinsPlaced(p) && ScanConds(p, a) && Tabs(p) == {a, b} && a != b && SameConds(CondsOf(p), [c])
    requires OneTable(c) && (!Has(sch, a, c.lhs.col) || !Has(sch, a, c.rhs.col.col))
    requires a in db && b in db && |db[a]| > 0 && |db[b]| > 0
    ensures Raises(sch, db, p)
  {
    hide Count, TestScan, SameConds, Has;
    TwoScans(p, a, b);
    PlanSame(p, c);
    var l, r, cs := p.left, p.right, p.conds;
    assert forall d :: d in l.conds || d in r.conds || d in cs ==> d in CondsOf(p);
    assert forall d :: d in cs ==> Same(d, c);
    Member(cs);
    if l.tab == a {
      assert r.conds == [] by { NoConds(r, a, b, c); }
      ScanRaises(sch, db, a, l.conds, c);
    } else {
      assert l.conds == [] by { NoConds(l, a, b, c); }
      ScanRaises(sch, db, a, r.conds, c);
      assert Gives(sch, db, l, map[b := 0]) by { FreeScan(sch, db, b); }
    }
  }

  lemma NoConds(p: Plan, a: string, b: string, c: Cond)
    requires p.Scan? && p.tab == b && b != a && ScanConds(p, a) && AllSame(p.conds, c) && OneTable(c)
    ensures p.conds == []
  {
    Member(p.conds);
  }

  lemma FreeScan(sch: Schema, db: Database, b: string)
    requires b in db && |db[b]| > 0
    ensures Gives(sch, db, Scan(b, []), map[b := 0])
  {
  }

  /** The same query, where `a` lacks one of the columns: its scan meets a missing column, and a row is lost. */
  method StrayNotFound(sch: Schema, a: string, b: string, x: string, y: string)
    returns (p: Plan, ghost db: Database, ghost env: Env)
    requires a != b && a != "" && b != "" && x != y
    requires a in sch && Has(sch, b, x) && Has(sch, b, y) && !(Has(sch, a, x) && Has(sch, a, y))
    ensures Typed(sch, db) && Fits(db, env, {a, b})
    ensures AllHold(sch, db, env, [Cond(TabCol(b, x), LT, Col(TabCol(b, y)))])
    ensures !Gives(sch, db, p, env) && Raises(sch, db, p)
  {
    hide Gives, Raises, JoinsPlaced, SameConds, Reads, ForQuery, Declared, Typed, Fits, AsRead, Equivalent, Satisfiable,
      TableSet, Holds;
    var c := Cond(TabCol(b, x), LT, Col(TabCol(b, y)));
    TwoTabs(sch, a, b, c);
    p := MakeOneRel([a, b], [c], sch);
    ghost var m: Values := map[TabCol(b, x) := 0, TabCol(b, y) := 1];
    db, env := OneRowEach(sch, m), FirstRows([a, b]);
    OneRowFits(sch, m, [a, b]);
    OneRowHolds(sch, m, [a, b], c);
    assert c in [c] && !Findable(sch, [a, b], [c]);
    RowsThere(db, env, a, b);
    StrayRaises(sch, db, p, a, b, c);
  }

  lemma RowsThere(db: Database, env: Env, a: string, b: string)
    requires Fits(db, env, {a, b})
    ensures a in db && b in db && |db[a]| > 0 && |db[b]| > 0
  {
    assert a in env && b in env;
  }
}
