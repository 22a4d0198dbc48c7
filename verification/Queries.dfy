/** What the plan of a query means. */
module Queries {
  import opened Plans
  import opened Placing

  // ---- counting conditions, whichever way they are read

  predicate Same(c: Cond, d: Cond) {
    d == c || (c.rhs.Col? && d == Swapped(c))
  }

  function Count(cs: seq<Cond>, c: Cond): nat {
    if cs == [] then 0 else Count(cs[..|cs| - 1], c) + if Same(c, cs[|cs| - 1]) then 1 else 0
  }

  lemma {:induction false} CountConcat(a: seq<Cond>, b: seq<Cond>, c: Cond)
    ensures Count(a + b, c) == Count(a, c) + Count(b, c)
  {
    if b == [] {
      assert a + b == a;
    } else {
      assert (a + b)[..|a + b| - 1] == a + b[..|b| - 1];
      CountConcat(a, b[..|b| - 1], c);
    }
  }

  lemma CountOne(c: Cond, d: Cond)
    ensures Count([d], c) == if Same(c, d) then 1 else 0
    ensures d.rhs.Col? ==> Count([Swapped(d)], c) == Count([d], c)
  {
    assert [d][..0] == [];
    if d.rhs.Col? {
      assert [Swapped(d)][..0] == [];
      assert Swapped(Swapped(d)) == d;
      assert Same(c, Swapped(d)) <==> Same(c, d);
    }
  }

  lemma {:induction false} CountHas(cs: seq<Cond>, c: Cond)
    ensures Count(cs, c) > 0 <==> exists i :: 0 <= i < |cs| && Same(c, cs[i])
  {
    if cs == [] {
    } else {
      var n := |cs| - 1;
      CountHas(cs[..n], c);
      if i :| 0 <= i < n && Same(c, cs[i]) {
        assert Same(c, cs[..n][i]);
      }
      if i :| 0 <= i < |cs[..n]| && Same(c, cs[..n][i]) {
        assert Same(c, cs[i]);
      }
    }
  }

  /** The same conditions, each as often, read either way. */
  ghost predicate SameConds(a: seq<Cond>, b: seq<Cond>) {
    forall c :: Count(a, c) == Count(b, c)
  }

  lemma SameMember(a: seq<Cond>, b: seq<Cond>, c: Cond) returns (d: Cond)
    requires SameConds(a, b) && c in a
    ensures d in b && Same(c, d)
  {
    var i :| 0 <= i < |a| && a[i] == c;
    assert Same(c, a[i]);
    CountHas(a, c);
    CountHas(b, c);
    var j :| 0 <= j < |b| && Same(c, b[j]);
    d := b[j];
  }

  // ---- queries

  ghost predicate DistinctTables(tables: seq<string>) {
    forall i, j :: 0 <= i < j < |tables| ==> tables[i] != tables[j]
  }

  /** The conditions name tables of the query; constants and columns alike. */
  ghost predicate ForQuery(tables: seq<string>, conds: seq<Cond>) {
    && 0 < |tables| && DistinctTables(tables) && "" !in tables
    && forall c :: c in conds ==> c.lhs.tab in tables && (c.rhs.Col? ==> c.rhs.col.tab in tables)
  }

  function TableSet(tables: seq<string>): set<string> {
    set t | t in tables
  }

  /** The tables and columns of the query exist, as name analysis has found. */
  ghost predicate Declared(sch: Schema, tables: seq<string>, conds: seq<Cond>) {
    && (forall t :: t in tables ==> t in sch)
    && (forall c :: c in conds ==> Has(sch, c.lhs.tab, c.lhs.col))
    && (forall c :: c in conds && c.rhs.Col? ==> Has(sch, c.rhs.col.tab, c.rhs.col.col))
  }

  /** The conditions that are tested in place of those of the query. */
  function AsRead(sch: Schema, tables: seq<string>, conds: seq<Cond>): seq<Cond>
    requires tables != []
  {
    AllReadAs(sch, tables[0], Groups(JoinConds(conds)), conds)
  }

  /** The first table has a column of each name that is compared within one table. */
  ghost predicate Findable(sch: Schema, tables: seq<string>, conds: seq<Cond>)
    requires tables != []
  {
    forall c :: c in conds && OneTable(c) ==> Has(sch, tables[0], c.lhs.col) && Has(sch, tables[0], c.rhs.col.col)
  }

  /** Two lists of conditions hold of the same choices of rows. */
  ghost predicate Equivalent(sch: Schema, tables: seq<string>, a: seq<Cond>, b: seq<Cond>) {
    forall db, env :: Typed(sch, db) && Fits(db, env, TableSet(tables)) ==>
      (AllHold(sch, db, env, a) <==> AllHold(sch, db, env, b))
  }

  /** Some database has rows to give. */
  ghost predicate Satisfiable(sch: Schema, tables: seq<string>, conds: seq<Cond>) {
    exists db, env :: Typed(sch, db) && Fits(db, env, TableSet(tables)) && AllHold(sch, db, env, conds)
  }

  /** The plan runs without error and gives exactly the cross product of the tables filtered by the
      conditions, on every database. */
  ghost predicate Means(sch: Schema, p: Plan, tables: seq<string>, conds: seq<Cond>) {
    forall db :: Typed(sch, db) ==> !Raises(sch, db, p) && Filters(sch, db, p, tables, conds)
  }

  ghost predicate Filters(sch: Schema, db: Database, p: Plan, tables: seq<string>, conds: seq<Cond>) {
    forall env :: Gives(sch, db, p, env) <==> Fits(db, env, TableSet(tables)) && AllHold(sch, db, env, conds)
  }

  /** The plan never gives anything. */
  ghost predicate Barren(sch: Schema, p: Plan) {
    forall db, env :: !Gives(sch, db, p, env)
  }

  /** The plan is over the tables of the query and holds its conditions, each once, and every one is
      read as the order of the conditions says. */
  ghost predicate Arranged(sch: Schema, p: Plan, tables: seq<string>, conds: seq<Cond>) {
    && tables != [] && Tabs(p) == TableSet(tables) && JoinsPlaced(p) && ScanConds(p, tables[0])
    && SameConds(CondsOf(p), conds)
    && Reads(sch, p) == AllReadAs(sch, tables[0], Groups(JoinConds(conds)), CondsOf(p))
  }

  // ---- from the plan to the query

  /** Both columns exist, and in the first table too if it is a comparison within one table. */
  ghost predicate Known(sch: Schema, first: string, c: Cond) {
    && Has(sch, c.lhs.tab, c.lhs.col) && (c.rhs.Col? ==> Has(sch, c.rhs.col.tab, c.rhs.col.col))
    && (OneTable(c) ==> Has(sch, first, c.lhs.col) && Has(sch, first, c.rhs.col.col))
  }

  lemma {:induction false} TreeReadable(sch: Schema, p: Plan, first: string)
    requires JoinsPlaced(p) && ScanConds(p, first) && forall c :: c in CondsOf(p) ==> Known(sch, first, c)
    ensures AllReadable(sch, p)
  {
    match p
    case Scan(t, cs) =>
      forall c | c in cs
        ensures Readable(sch, [t], [t], c)
      {
        assert Known(sch, first, c) && [t][0] == t;
      }
    case Join(l, r, cs) =>
      assert forall c :: c in CondsOf(l) || c in CondsOf(r) || c in cs ==> c in CondsOf(p);
      TreeReadable(sch, l, first);
      TreeReadable(sch, r, first);
      forall c | c in cs
        ensures Readable(sch, Leaves(l), Leaves(r), c)
      {
        assert Known(sch, first, c);
        AmongLeaves(sch, l, c.lhs);
        AmongLeaves(sch, r, c.rhs.col);
      }
  }

  lemma AmongLeaves(sch: Schema, p: Plan, x: TabCol)
    requires x.tab in Tabs(p) && Has(sch, x.tab, x.col)
    ensures AnyWith(sch, Leaves(p), x.col)
  {
    LeavesTabs(p, x.tab);
    var i :| 0 <= i < |Leaves(p)| && Leaves(p)[i] == x.tab;
  }

  lemma PlanKnown(sch: Schema, p: Plan, tables: seq<string>, conds: seq<Cond>)
    requires Arranged(sch, p, tables, conds) && Declared(sch, tables, conds) && Findable(sch, tables, conds)
    ensures AllReadable(sch, p)
  {
    hide Count, Reads, Groups;
    forall c | c in CondsOf(p)
      ensures Known(sch, tables[0], c)
    {
      var d := SameMember(CondsOf(p), conds, c);
      assert d in conds;
    }
    TreeReadable(sch, p, tables[0]);
  }

  lemma ReadAsHolds(sch: Schema, db: Database, env: Env, first: string, gs: seq<seq<string>>, cs: seq<Cond>)
    ensures AllHold(sch, db, env, AllReadAs(sch, first, gs, cs)) <==>
              forall c :: c in cs ==> Holds(sch, db, env, ReadAs(sch, first, gs, c))
  {
    hide Holds, ReadAs;
    var ds := AllReadAs(sch, first, gs, cs);
    forall c | c in cs
      ensures ReadAs(sch, first, gs, c) in ds
    {
      var i :| 0 <= i < |cs| && cs[i] == c;
      assert ds[i] == ReadAs(sch, first, gs, c);
    }
    forall d | d in ds
      ensures exists c :: c in cs && d == ReadAs(sch, first, gs, c)
    {
      var i :| 0 <= i < |ds| && ds[i] == d;
      assert cs[i] in cs;
    }
  }

  /** Conditions that are the same up to their direction are read the same. */
  lemma SameReads(sch: Schema, db: Database, env: Env, first: string, gs: seq<seq<string>>, a: seq<Cond>, b: seq<Cond>)
    requires SameConds(a, b) && AllHold(sch, db, env, AllReadAs(sch, first, gs, a))
    ensures AllHold(sch, db, env, AllReadAs(sch, first, gs, b))
  {
    hide Holds, ReadAs, Count;
    ReadAsHolds(sch, db, env, first, gs, a);
    ReadAsHolds(sch, db, env, first, gs, b);
    forall c | c in b
      ensures Holds(sch, db, env, ReadAs(sch, first, gs, c))
    {
      var d := SameMember(b, a, c);
      if c.rhs.Col? {
        ReadSwap(sch, first, gs, c);
        SwappedHolds(sch, db, env, ReadAs(sch, first, gs, c));
      }
    }
  }

  /** The plan gives exactly the choices of rows that meet the conditions as read. */
  lemma QueryReads(sch: Schema, db: Database, p: Plan, tables: seq<string>, conds: seq<Cond>)
    requires Arranged(sch, p, tables, conds) && Declared(sch, tables, conds) && Findable(sch, tables, conds)
    requires Typed(sch, db)
    ensures !Raises(sch, db, p) && Filters(sch, db, p, tables, AsRead(sch, tables, conds))
  {
    hide Count, AllHold, Raises, Gives, Fits, Typed, AllReadable, Groups, JoinConds, AllReadAs;
    PlanKnown(sch, p, tables, conds);
    PlanRuns(sch, db, p);
    var first, gs := tables[0], Groups(JoinConds(conds));
    forall env
      ensures Gives(sch, db, p, env) <==>
                Fits(db, env, TableSet(tables)) && AllHold(sch, db, env, AsRead(sch, tables, conds))
    {
      PlanMeans(sch, db, p, env);
      if AllHold(sch, db, env, Reads(sch, p)) {
        SameReads(sch, db, env, first, gs, CondsOf(p), conds);
      }
      if AllHold(sch, db, env, AsRead(sch, tables, conds)) {
        SameReads(sch, db, env, first, gs, conds, CondsOf(p));
      }
    }
  }

  /** A comparison whose names the first table does not have never passes. */
  lemma {:induction false} StrayNever(sch: Schema, db: Database, p: Plan, first: string, c: Cond, env: Env)
    requires JoinsPlaced(p) && ScanConds(p, first) && c in CondsOf(p) && OneTable(c)
    requires !Has(sch, first, c.lhs.col) || !Has(sch, first, c.rhs.col.col)
    ensures !Gives(sch, db, p, env)
  {
    match p
    case Scan(t, cs) =>
      TableHas(sch, t, c.lhs.col);
      TableHas(sch, t, c.rhs.col.col);
      AllPass(TableCols(sch, t), RowOf(db, env, t), TableCols(sch, t), RowOf(db, env, t), cs);
    case Join(l, r, cs) =>
      assert c !in cs;
      if c in CondsOf(l) {
        StrayNever(sch, db, l, first, c, Only(env, Tabs(l)));
      } else {
        StrayNever(sch, db, r, first, c, Only(env, Tabs(r)));
      }
  }

  lemma NothingGiven(sch: Schema, p: Plan, tables: seq<string>, conds: seq<Cond>)
    requires Arranged(sch, p, tables, conds) && !Findable(sch, tables, conds)
    ensures Barren(sch, p)
  {
    hide Count, Gives, Reads;
    var c :| c in conds && OneTable(c) && !(Has(sch, tables[0], c.lhs.col) && Has(sch, tables[0], c.rhs.col.col));
    var d := SameMember(conds, CondsOf(p), c);
    forall db, env
      ensures !Gives(sch, db, p, env)
    {
      StrayNever(sch, db, p, tables[0], d, env);
    }
  }

  /** The plan means the query if and only if the conditions as read mean the conditions. */
  lemma MeansReads(sch: Schema, p: Plan, tables: seq<string>, conds: seq<Cond>)
    requires Arranged(sch, p, tables, conds) && Declared(sch, tables, conds) && Findable(sch, tables, conds)
    ensures Means(sch, p, tables, conds) <==> Equivalent(sch, tables, AsRead(sch, tables, conds), conds)
  {
    assert tables != [];
    hide Arranged, Declared, Findable, AllHold, Raises, Gives, Fits, Typed, AsRead;
    var tested := AsRead(sch, tables, conds);
    forall db | Typed(sch, db)
      ensures !Raises(sch, db, p) && Filters(sch, db, p, tables, tested)
    {
      QueryReads(sch, db, p, tables, conds);
    }
    if Means(sch, p, tables, conds) {
      forall db, env | Typed(sch, db) && Fits(db, env, TableSet(tables))
        ensures AllHold(sch, db, env, tested) <==> AllHold(sch, db, env, conds)
      {
        assert Filters(sch, db, p, tables, tested) && Filters(sch, db, p, tables, conds);
        assert Gives(sch, db, p, env) <==> AllHold(sch, db, env, tested);
      }
    }
    if Equivalent(sch, tables, tested, conds) {
      forall db | Typed(sch, db)
        ensures !Raises(sch, db, p) && Filters(sch, db, p, tables, conds)
      {
        assert Filters(sch, db, p, tables, tested);
      }
    }
  }

  /** Where some database has rows to give, the names must be found, too. */
  lemma BarrenMeans(sch: Schema, p: Plan, tables: seq<string>, conds: seq<Cond>)
    requires Barren(sch, p) && Satisfiable(sch, tables, conds)
    ensures !Means(sch, p, tables, conds)
  {
    hide AllHold, Raises, Gives, Fits, Typed;
    var db, env :| Typed(sch, db) && Fits(db, env, TableSet(tables)) && AllHold(sch, db, env, conds);
    assert !Gives(sch, db, p, env);
  }

  /** What a plan does for its query. */
  lemma QueryMeans(sch: Schema, p: Plan, tables: seq<string>, conds: seq<Cond>)
    requires Arranged(sch, p, tables, conds) && Declared(sch, tables, conds)
    ensures Findable(sch, tables, conds) ==> Means(sch, p, tables, AsRead(sch, tables, conds))
    ensures !Findable(sch, tables, conds) ==> Barren(sch, p)
    ensures Findable(sch, tables, conds) || Satisfiable(sch, tables, conds) ==>
              (Means(sch, p, tables, conds) <==>
               Findable(sch, tables, conds) && Equivalent(sch, tables, AsRead(sch, tables, conds), conds))
  {
    assert tables != [];
    hide Arranged, Declared, Findable, Raises, Gives, Equivalent, Satisfiable, AsRead, Filters, Barren, Typed;
    if Findable(sch, tables, conds) {
      forall db | Typed(sch, db)
        ensures !Raises(sch, db, p) && Filters(sch, db, p, tables, AsRead(sch, tables, conds))
      {
        QueryReads(sch, db, p, tables, conds);
      }
      MeansReads(sch, p, tables, conds);
    } else {
      NothingGiven(sch, p, tables, conds);
      if Satisfiable(sch, tables, conds) {
        BarrenMeans(sch, p, tables, conds);
      }
    }
  }
}
