/** What the comparison operators mean, and what negating a condition does to the answer of a query. */
module Comparing {
  import opened Common
  import opened Plans
  import opened Placing
  import opened Queries
  import opened Planner
  import IndexScan

  function Negated(op: CompOp): CompOp {
    match op
    case EQ => NE
    case NE => EQ
    case LT => GE
    case GE => LT
    case GT => LE
    case LE => GT
  }

  /** `=` asks for the same value, one of `<`, `=`, `>` holds of any two values, and the other operators are
      made from these. */
  lemma CompareMeans(a: int, b: int)
    ensures Compare(EQ, a, b) <==> b - a == 0
    ensures Compare(LT, a, b) <==> b - a > 0
    ensures Compare(GT, a, b) <==> Compare(LT, b, a)
    ensures Compare(LT, a, b) || Compare(EQ, a, b) || Compare(GT, a, b)
    ensures !(Compare(LT, a, b) && Compare(EQ, a, b)) && !(Compare(LT, a, b) && Compare(GT, a, b))
            && !(Compare(EQ, a, b) && Compare(GT, a, b))
    ensures Compare(LE, a, b) <==> Compare(LT, a, b) || Compare(EQ, a, b)
    ensures Compare(GE, a, b) <==> Compare(GT, a, b) || Compare(EQ, a, b)
    ensures forall op :: Compare(Negated(op), a, b) <==> !Compare(op, a, b)
  {
  }

  function Not(c: Cond): Cond {
    c.(op := Negated(c.op))
  }

  lemma NotHolds(sch: Schema, db: Database, env: Env, c: Cond)
    ensures Holds(sch, db, env, Not(c)) <==> !Holds(sch, db, env, c)
  {
    CompareMeans(Lookup(sch, db, env, c.lhs), if c.rhs.Val? then c.rhs.v else Lookup(sch, db, env, c.rhs.col));
  }

  // ---- one more condition

  lemma SidesMore(gs: seq<seq<string>>, c: Cond, d: Cond)
    requires TwoTables(c) && TwoTables(d) && d.lhs.tab in Flat(gs) && RhsTab(d) in Flat(gs)
    ensures JoinSides(Grown(gs, c), d) == JoinSides(gs, d)
  {
    hide Flat;
    if Grown(gs, c) != gs {
      assert Grown(gs, c)[1..] == gs;
    }
  }

  lemma JoinsMore(conds: seq<Cond>, c: Cond)
    ensures JoinConds(conds + [c]) == if TwoTables(c) then JoinConds(conds) + [c] else JoinConds(conds)
    ensures Groups(JoinConds(conds + [c])) ==
              if TwoTables(c) then Grown(Groups(JoinConds(conds)), c) else Groups(JoinConds(conds))
  {
    assert (conds + [c])[..|conds|] == conds;
    assert (JoinConds(conds) + [c])[..|JoinConds(conds)|] == JoinConds(conds);
  }

  /** A condition put behind the others changes none of their lookups. */
  lemma MoreReads(sch: Schema, tables: seq<string>, conds: seq<Cond>, c: Cond)
    requires tables != []
    ensures AsRead(sch, tables, conds + [c])
            == AsRead(sch, tables, conds) + [ReadAs(sch, tables[0], Groups(JoinConds(conds + [c])), c)]
  {
    hide Groups, JoinConds, JoinSides, Grown, ReadCond;
    JoinsMore(conds, c);
    forall d | d in conds
      ensures Sides(tables[0], Groups(JoinConds(conds + [c])), d) == Sides(tables[0], Groups(JoinConds(conds)), d)
    {
      if TwoTables(d) && TwoTables(c) {
        JoinsHave(conds, d);
        GroupsCover(JoinConds(conds), d);
        SidesMore(Groups(JoinConds(conds)), c, d);
      }
    }
  }

  /** The negation is looked up in the same places. */
  lemma NotReads(sch: Schema, tables: seq<string>, conds: seq<Cond>, c: Cond)
    requires tables != []
    ensures ReadAs(sch, tables[0], Groups(JoinConds(conds + [Not(c)])), Not(c))
            == Not(ReadAs(sch, tables[0], Groups(JoinConds(conds + [c])), c))
  {
    hide Groups, JoinConds, JoinSides, Grown;
    JoinsMore(conds, c);
    JoinsMore(conds, Not(c));
    SameGrown(Groups(JoinConds(conds)), c);
    SameSides(Groups(JoinConds(conds + [c])), c);
  }

  lemma SameGrown(gs: seq<seq<string>>, c: Cond)
    ensures Grown(gs, Not(c)) == Grown(gs, c)
  {
  }

  lemma {:induction false} SameSides(gs: seq<seq<string>>, c: Cond)
    ensures JoinSides(gs, Not(c)) == JoinSides(gs, c)
  {
    if gs == [] {
    } else {
      SameSides(gs[1..], c);
    }
  }

  lemma AllHoldMore(sch: Schema, db: Database, env: Env, cs: seq<Cond>, c: Cond)
    ensures AllHold(sch, db, env, cs + [c]) <==> AllHold(sch, db, env, cs) && Holds(sch, db, env, c)
  {
    hide Holds;
    assert forall d :: d in cs + [c] <==> d in cs || d == c;
  }

  /** A query with one more condition, and the same query with that condition negated: whatever the tables
      hold, the rows of the two answers together are those of the query without it, and none is in both. */
  method NegationParts(sch: Schema, tables: seq<string>, conds: seq<Cond>, c: Cond) returns (p: Plan, y: Plan, n: Plan)
    requires ForQuery(tables, conds + [c]) && Declared(sch, tables, conds + [c]) && Findable(sch, tables, conds + [c])
    ensures Arranged(sch, p, tables, conds) && Arranged(sch, y, tables, conds + [c])
            && Arranged(sch, n, tables, conds + [Not(c)])
    ensures forall db, env :: Typed(sch, db) ==>
              && (Gives(sch, db, p, env) <==> Gives(sch, db, y, env) || Gives(sch, db, n, env))
              && !(Gives(sch, db, y, env) && Gives(sch, db, n, env))
  {
    hide Means, Gives, AllHold, Arranged, AsRead, Findable, ForQuery, Declared, Equivalent;
    PartsFit(sch, tables, conds, c);
    p := MakeOneRel(tables, conds, sch);
    y := MakeOneRel(tables, conds + [c], sch);
    n := MakeOneRel(tables, conds + [Not(c)], sch);
    forall db, env | Typed(sch, db)
      ensures Gives(sch, db, p, env) <==> Gives(sch, db, y, env) || Gives(sch, db, n, env)
      ensures !(Gives(sch, db, y, env) && Gives(sch, db, n, env))
    {
      MeansGives(sch, db, env, p, tables, AsRead(sch, tables, conds));
      MeansGives(sch, db, env, y, tables, AsRead(sch, tables, conds + [c]));
      MeansGives(sch, db, env, n, tables, AsRead(sch, tables, conds + [Not(c)]));
      var r := ReadAs(sch, tables[0], Groups(JoinConds(conds + [c])), c);
      MoreReads(sch, tables, conds, c);
      MoreReads(sch, tables, conds, Not(c));
      NotReads(sch, tables, conds, c);
      AllHoldMore(sch, db, env, AsRead(sch, tables, conds), r);
      AllHoldMore(sch, db, env, AsRead(sch, tables, conds), Not(r));
      NotHolds(sch, db, env, r);
    }
  }

  lemma PartsFit(sch: Schema, tables: seq<string>, conds: seq<Cond>, c: Cond)
    requires ForQuery(tables, conds + [c]) && Declared(sch, tables, conds + [c]) && Findable(sch, tables, conds + [c])
    ensures tables != []
    ensures ForQuery(tables, conds) && Declared(sch, tables, conds) && Findable(sch, tables, conds)
    ensures ForQuery(tables, conds + [Not(c)]) && Declared(sch, tables, conds + [Not(c)])
            && Findable(sch, tables, conds + [Not(c)])
  {
    assert forall d :: d in conds ==> d in conds + [c];
    assert c in conds + [c];
    assert forall d :: d in conds + [Not(c)] <==> d in conds || d == Not(c);
  }

  lemma MeansGives(sch: Schema, db: Database, env: Env, p: Plan, tables: seq<string>, cs: seq<Cond>)
    requires Means(sch, p, tables, cs) && Typed(sch, db)
    ensures Gives(sch, db, p, env) <==> Fits(db, env, TableSet(tables)) && AllHold(sch, db, env, cs)
  {
    assert Filters(sch, db, p, tables, cs);
  }

  /** The row that a comparison with a value picks, operator by operator. */
  lemma ScanPicks(sch: Schema, db: Database, t: string, name: string, op: CompOp, v: int, i: nat)
    requires Typed(sch, db) && Has(sch, t, name) && t in db && i < |db[t]|
    ensures var x := Lookup(sch, db, map[t := i], TabCol(t, name));
            Gives(sch, db, Scan(t, [Cond(TabCol(t, name), op, Val(v))]), map[t := i]) <==>
              match op {
                case EQ => x == v
                case NE => x != v
                case LT => x < v
                case GT => v < x
                case LE => !(v < x)
                case GE => !(x < v)
              }
  {
    var c := Cond(TabCol(t, name), op, Val(v));
    ReadTable(sch, db, map[t := i], t, name);
    AllPass(TableCols(sch, t), RowOf(db, map[t := i], t), TableCols(sch, t), RowOf(db, map[t := i], t), [c]);
    assert AnyWith(sch, [t], name) && FirstWith(sch, [t], name) == t by {
      assert Has(sch, [t][0], name);
    }
    var cols, row := TableCols(sch, t), RowOf(db, map[t := i], t);
    assert TestScan(sch, db, map[t := i], t, [c]) == Pass <==> Test(cols, row, cols, row, c) == Pass;
  }

  /** The same for the rows that an index scan gives: a condition and its negation part them. */
  lemma IndexParts(conds: seq<IndexScan.Cond>, c: IndexScan.Cond, row: IndexScan.Row)
    requires c.col < |row|
    ensures var n := c.(op := Negated(c.op));
            && (IndexScan.TestAll(conds, row) <==>
                IndexScan.TestAll(conds + [c], row) || IndexScan.TestAll(conds + [n], row))
            && !(IndexScan.TestAll(conds + [c], row) && IndexScan.TestAll(conds + [n], row))
  {
    var n := c.(op := Negated(c.op));
    CompareMeans(row[c.col], c.val);
    assert (conds + [c])[|conds|] == c && (conds + [n])[|conds|] == n;
    assert forall x :: 0 <= x < |conds| ==> (conds + [c])[x] == conds[x] && (conds + [n])[x] == conds[x];
  }
}
