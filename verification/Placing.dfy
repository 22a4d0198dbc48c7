/** Where conditions stand in a plan, and which tables they are read from there. */
module Placing {
  import opened Common
  import opened Plans

  /** The table of the right column; a constant leaves the field empty. */
  function RhsTab(c: Cond): string {
    if c.rhs.Val? then "" else c.rhs.col.tab
  }

  predicate OneTable(c: Cond) {
    c.rhs.Col? && c.lhs.tab == c.rhs.col.tab
  }

  predicate TwoTables(c: Cond) {
    c.rhs.Col? && c.lhs.tab != c.rhs.col.tab
  }

  /** Conditions at joins have their left column on the left and their right column on the
      right, and no table occurs twice. */
  predicate JoinsPlaced(p: Plan) {
    match p
    case Scan(_, _) => true
    case Join(l, r, cs) =>
      && JoinsPlaced(l) && JoinsPlaced(r) && Tabs(l) !! Tabs(r)
      && forall c :: c in cs ==> c.rhs.Col? && c.lhs.tab in Tabs(l) && c.rhs.col.tab in Tabs(r)
  }

  /** Conditions at scans are about the scanned table. */
  predicate ScansPlaced(p: Plan) {
    match p
    case Scan(t, cs) => forall c :: c in cs ==> Within(c, {t})
    case Join(l, r, _) => ScansPlaced(l) && ScansPlaced(r)
  }

  predicate WellPlaced(p: Plan) {
    JoinsPlaced(p) && ScansPlaced(p)
  }

  /** Scans have the comparisons of their own columns with constants, and the scan of the first table
      has all comparisons of two columns of one table. */
  predicate ScanConds(p: Plan, first: string) {
    match p
    case Scan(t, cs) =>
      forall c :: c in cs ==> (c.rhs.Val? && c.lhs.tab == t) || (OneTable(c) && t == first)
    case Join(l, r, _) => ScanConds(l, first) && ScanConds(r, first)
  }

  function SwapOp(op: CompOp): CompOp {
    match op
    case EQ => EQ
    case NE => NE
    case LT => GT
    case GT => LT
    case LE => GE
    case GE => LE
  }

  /** The condition read from right to left. */
  function Swapped(c: Cond): Cond
    requires c.rhs.Col?
  {
    Cond(c.rhs.col, SwapOp(c.op), Col(c.lhs))
  }

  lemma SwappedHolds(sch: Schema, db: Database, env: Env, c: Cond)
    requires c.rhs.Col?
    ensures Holds(sch, db, env, Swapped(c)) <==> Holds(sch, db, env, c)
    ensures Swapped(Swapped(c)) == c
  {
    hide Lookup;
  }

  // ---- the order in which tables are joined

  function Flat(gs: seq<seq<string>>): seq<string> {
    if gs == [] then [] else gs[0] + Flat(gs[1..])
  }

  /** A condition brings in those of its tables that are not there yet, in front. */
  function Grown(gs: seq<seq<string>>, c: Cond): seq<seq<string>> {
    var more := (if c.lhs.tab in Flat(gs) then [] else [c.lhs.tab]) + if RhsTab(c) in Flat(gs) then [] else [RhsTab(c)];
    if more == [] then gs else [more] + gs
  }

  /** The tables that conditions bring in one after the other, the latest first. */
  function Groups(cs: seq<Cond>): seq<seq<string>> {
    if cs == [] then [] else Grown(Groups(cs[..|cs| - 1]), cs[|cs| - 1])
  }

  function JoinConds(cs: seq<Cond>): seq<Cond> {
    if cs == [] then []
    else JoinConds(cs[..|cs| - 1]) + if TwoTables(cs[|cs| - 1]) then [cs[|cs| - 1]] else []
  }

  /** The tables on either side of the join that tests a condition: its own two, if they came
      together, and otherwise what the later one came with and everything that was there before. */
  function JoinSides(gs: seq<seq<string>>, c: Cond): (seq<string>, seq<string>) {
    if gs == [] then ([], [])
    else if c.lhs.tab in gs[0] && RhsTab(c) in gs[0] then ([c.lhs.tab], [RhsTab(c)])
    else if c.lhs.tab in gs[0] then (gs[0], Flat(gs[1..]))
    else if RhsTab(c) in gs[0] then (Flat(gs[1..]), gs[0])
    else JoinSides(gs[1..], c)
  }

  function Sides(first: string, gs: seq<seq<string>>, c: Cond): (seq<string>, seq<string>) {
    if c.rhs.Val? then ([c.lhs.tab], [c.lhs.tab])
    else if OneTable(c) then ([first], [first])
    else JoinSides(gs, c)
  }

  /** The condition that is tested in place of the given one. */
  function ReadAs(sch: Schema, first: string, gs: seq<seq<string>>, c: Cond): Cond {
    ReadCond(sch, Sides(first, gs, c).0, Sides(first, gs, c).1, c)
  }

  function AllReadAs(sch: Schema, first: string, gs: seq<seq<string>>, cs: seq<Cond>): seq<Cond> {
    seq(|cs|, i requires 0 <= i < |cs| => ReadAs(sch, first, gs, cs[i]))
  }

  lemma {:induction false} SidesSwap(gs: seq<seq<string>>, c: Cond)
    requires TwoTables(c)
    ensures JoinSides(gs, Swapped(c)) == (JoinSides(gs, c).1, JoinSides(gs, c).0)
  {
    if gs == [] {
    } else {
      SidesSwap(gs[1..], c);
    }
  }

  lemma ReadSwap(sch: Schema, first: string, gs: seq<seq<string>>, c: Cond)
    requires c.rhs.Col?
    ensures ReadAs(sch, first, gs, c).rhs.Col?
    ensures ReadAs(sch, first, gs, Swapped(c)) == Swapped(ReadAs(sch, first, gs, c))
  {
    if TwoTables(c) {
      SidesSwap(gs, c);
    }
  }

  // ---- plans that join tables in such an order

  /** One scan, or the join of two. */
  predicate Block(g: seq<string>, p: Plan) {
    || (|g| == 1 && p.Scan? && p.tab == g[0])
    || (|g| == 2 && p.Join? && p.left.Scan? && p.left.tab == g[0] && p.right.Scan? && p.right.tab == g[1])
  }

  /** What came later is joined from the left. */
  predicate Chain(gs: seq<seq<string>>, p: Plan) {
    if |gs| <= 1 then |gs| == 1 && Block(gs[0], p)
    else p.Join? && Block(gs[0], p.left) && Chain(gs[1..], p.right)
  }

  lemma BlockLeaves(g: seq<string>, p: Plan)
    requires Block(g, p)
    ensures Leaves(p) == g
  {
    if p.Join? {
      assert Leaves(p.left) == [g[0]] && Leaves(p.right) == [g[1]];
    }
  }

  lemma {:induction false} ChainLeaves(gs: seq<seq<string>>, p: Plan)
    requires Chain(gs, p)
    ensures Leaves(p) == Flat(gs)
  {
    if |gs| == 1 {
      BlockLeaves(gs[0], p);
      assert gs[0] + [] == gs[0];
    } else {
      BlockLeaves(gs[0], p.left);
      ChainLeaves(gs[1..], p.right);
    }
  }

  lemma {:induction false} PlacedCond(p: Plan, first: string, c: Cond)
    requires JoinsPlaced(p) && ScanConds(p, first) && c in CondsOf(p)
    ensures c.rhs.Val? || OneTable(c) || (TwoTables(c) && Within(c, Tabs(p)))
  {
    match p
    case Scan(_, cs) =>
      assert c in cs;
    case Join(l, r, cs) =>
      if c in CondsOf(l) {
        PlacedCond(l, first, c);
      } else if c in CondsOf(r) {
        PlacedCond(r, first, c);
      } else {
        assert c in cs;
      }
  }

  lemma ReadConcat3(sch: Schema, first: string, gs: seq<seq<string>>, a: seq<Cond>, b: seq<Cond>, c: seq<Cond>)
    ensures AllReadAs(sch, first, gs, a + b + c)
            == AllReadAs(sch, first, gs, a) + AllReadAs(sch, first, gs, b) + AllReadAs(sch, first, gs, c)
  {
    hide ReadAs;
  }

  lemma ScanReads(sch: Schema, first: string, gs: seq<seq<string>>, p: Plan)
    requires p.Scan? && ScanConds(p, first)
    ensures Reads(sch, p) == AllReadAs(sch, first, gs, CondsOf(p))
  {
    forall i | 0 <= i < |p.conds|
      ensures Reads(sch, p)[i] == ReadAs(sch, first, gs, p.conds[i])
    {
      assert p.conds[i] in p.conds;
    }
  }

  /** The conditions of a join are read from its two sides. */
  lemma NodeReads(sch: Schema, first: string, gs: seq<seq<string>>, ls: seq<string>, rs: seq<string>, cs: seq<Cond>)
    requires forall c :: c in cs ==> TwoTables(c) && JoinSides(gs, c) == (ls, rs)
    ensures ReadConds(sch, ls, rs, cs) == AllReadAs(sch, first, gs, cs)
  {
    forall i | 0 <= i < |cs|
      ensures ReadCond(sch, ls, rs, cs[i]) == ReadAs(sch, first, gs, cs[i])
    {
      assert cs[i] in cs;
    }
  }

  lemma BlockReads(sch: Schema, first: string, gs: seq<seq<string>>, p: Plan)
    requires gs != [] && Block(gs[0], p) && JoinsPlaced(p) && ScanConds(p, first)
    ensures Reads(sch, p) == AllReadAs(sch, first, gs, CondsOf(p))
    ensures Leaves(p) == gs[0]
  {
    hide ReadAs, ReadCond, ReadConds;
    match p
    case Scan(t, _) =>
      ScanReads(sch, first, gs, p);
    case Join(l, r, cs) =>
      ScanReads(sch, first, gs, l);
      ScanReads(sch, first, gs, r);
      NodeReads(sch, first, gs, [l.tab], [r.tab], cs);
      ReadConcat3(sch, first, gs, CondsOf(l), CondsOf(r), cs);
  }

  /** What is joined later does not change what is read below. */
  lemma LaterReads(sch: Schema, first: string, gs: seq<seq<string>>, cs: seq<Cond>)
    requires gs != []
    requires forall c :: c in cs ==> c.rhs.Val? || OneTable(c) || (c.lhs.tab !in gs[0] && RhsTab(c) !in gs[0])
    ensures AllReadAs(sch, first, gs, cs) == AllReadAs(sch, first, gs[1..], cs)
  {
    hide ReadCond;
    forall i | 0 <= i < |cs|
      ensures ReadAs(sch, first, gs, cs[i]) == ReadAs(sch, first, gs[1..], cs[i])
    {
      assert cs[i] in cs;
    }
  }

  /** In such a plan every condition is read from the sides that the order of the tables gives it. */
  lemma {:induction false} ChainReads(sch: Schema, first: string, gs: seq<seq<string>>, p: Plan)
    requires Chain(gs, p) && JoinsPlaced(p) && ScanConds(p, first)
    ensures Reads(sch, p) == AllReadAs(sch, first, gs, CondsOf(p))
  {
    hide ReadAs, ReadCond, ReadConds;
    if |gs| == 1 {
      BlockReads(sch, first, gs, p);
    } else {
      var l, r, cs := p.left, p.right, p.conds;
      BlockReads(sch, first, gs, l);
      ChainReads(sch, first, gs[1..], r);
      ChainLeaves(gs[1..], r);
      assert forall t :: t in gs[0] <==> t in Tabs(l) by {
        forall t { LeavesTabs(l, t); }
      }
      forall c | c in CondsOf(r)
        ensures c.rhs.Val? || OneTable(c) || (c.lhs.tab !in gs[0] && RhsTab(c) !in gs[0])
      {
        PlacedCond(r, first, c);
      }
      LaterReads(sch, first, gs, CondsOf(r));
      NodeReads(sch, first, gs, Leaves(l), Leaves(r), cs);
      ReadConcat3(sch, first, gs, CondsOf(l), CondsOf(r), cs);
    }
  }
}
