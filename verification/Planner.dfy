/** Placing a conjunctive WHERE clause in a tree of joins. */
module Planner {
  import opened Plans
  import opened Placing
  import opened Queries

  /** Takes out the conditions on one table alone. */
  method PopConds(conds: seq<Cond>, tab: string) returns (solved: seq<Cond>, rest: seq<Cond>)
    ensures forall c :: Count(conds, c) == Count(solved, c) + Count(rest, c)
    ensures forall c :: c in solved ==> c in conds && ForScan(c, tab)
    ensures forall c :: c in rest ==> c in conds && !ForScan(c, tab)
    ensures JoinConds(rest) == JoinConds(conds)
  {
    hide Count, ForScan, JoinConds;
    solved, rest := [], conds;
    var i := 0;
    NoneCounted();
    while i < |rest|
      invariant i <= |rest|
      invariant forall c :: Count(conds, c) == Count(solved, c) + Count(rest, c)
      invariant forall c :: c in solved ==> c in conds && ForScan(c, tab)
      invariant forall c :: c in rest ==> c in conds
      invariant forall k :: 0 <= k < i ==> !ForScan(rest[k], tab)
      invariant JoinConds(rest) == JoinConds(conds)
      decreases |rest| - i
    {
      if ForScan(rest[i], tab) {
        TakeOut(solved, rest, i);
        TakeOutJoins(rest, tab, i);
        solved := solved + [rest[i]];
        rest := rest[..i] + rest[i + 1..];
      } else {
        i := i + 1;
      }
    }
  }

  lemma NoneCounted()
    ensures forall c :: Count([], c) == 0
  {
  }

  lemma TakeOut(solved: seq<Cond>, rest: seq<Cond>, i: nat)
    requires i < |rest|
    ensures forall c ::
            Count(solved + [rest[i]], c) + Count(rest[..i] + rest[i + 1..], c) == Count(solved, c) + Count(rest, c)
  {
    forall c
      ensures Count(solved + [rest[i]], c) + Count(rest[..i] + rest[i + 1..], c) == Count(solved, c) + Count(rest, c)
    {
      assert rest == rest[..i] + ([rest[i]] + rest[i + 1..]);
      CountConcat(solved, [rest[i]], c);
      CountConcat(rest[..i], rest[i + 1..], c);
      CountConcat([rest[i]], rest[i + 1..], c);
      CountConcat(rest[..i], [rest[i]] + rest[i + 1..], c);
    }
  }

  lemma {:induction false} JoinsConcat(a: seq<Cond>, b: seq<Cond>)
    ensures JoinConds(a + b) == JoinConds(a) + JoinConds(b)
  {
    if b == [] {
      assert a + b == a;
    } else {
      assert (a + b)[..|a + b| - 1] == a + b[..|b| - 1];
      JoinsConcat(a, b[..|b| - 1]);
    }
  }

  /** The conditions between two tables keep their order. */
  lemma TakeOutJoins(rest: seq<Cond>, tab: string, i: nat)
    requires i < |rest| && ForScan(rest[i], tab)
    ensures JoinConds(rest[..i] + rest[i + 1..]) == JoinConds(rest)
  {
    var a, c, b := rest[..i], rest[i], rest[i + 1..];
    assert rest == a + [c] + b;
    assert JoinConds([c]) == [] by {
      assert [c][..0] == [];
    }
    hide JoinConds;
    JoinsConcat(a, b);
    JoinsConcat(a, [c]);
    JoinsConcat(a + [c], b);
    assert JoinConds(a) + [] == JoinConds(a);
  }

  lemma {:induction false} JoinsOnly(rest: seq<Cond>)
    requires forall c :: c in rest ==> TwoTables(c)
    ensures JoinConds(rest) == rest
  {
    if rest == [] {
    } else {
      var n := |rest| - 1;
      assert rest[n] in rest && (forall c :: c in rest[..n] ==> c in rest) && rest == rest[..n] + [rest[n]];
      hide TwoTables;
      JoinsOnly(rest[..n]);
    }
  }

  /** `pop_conds` takes a condition with a constant for its own table, and one whose columns
      are of one table for any table. */
  predicate ForScan(c: Cond, tab: string) {
    (c.lhs.tab == tab && c.rhs.Val?) || c.lhs.tab == RhsTab(c)
  }

  /** Puts a condition at the lowest join between its two tables. The code says which of its
      columns were found: 0 none, 1 the left one, 2 the right one, 3 both, and it is placed. */
  function PushCond(c: Cond, p: Plan): (int, Plan)
    requires c.rhs.Col?
  {
    match p
    case Scan(t, _) => (if t == c.lhs.tab then 1 else if t == RhsTab(c) then 2 else 0, p)
    case Join(l, r, cs) =>
      var (lc, l') := PushCond(c, l);
      if lc == 3 then (3, Join(l', r, cs))
      else
        var (rc, r') := PushCond(c, r);
        if rc == 3 then (3, Join(l', r', cs))
        else if lc == 0 || rc == 0 then (lc + rc, Join(l', r', cs))
        else (3, Join(l', r', cs + [if lc == 2 then Swapped(c) else c]))
  }

  function Code(c: Cond, tabs: set<string>): int
    requires c.rhs.Col?
  {
    (if c.lhs.tab in tabs then 1 else 0) + (if c.rhs.col.tab in tabs then 2 else 0)
  }

  /** Where the condition lands it is well placed, and nothing else changes. */
  lemma {:induction false} PushPlaces(c: Cond, p: Plan)
    requires c.rhs.Col? && c.lhs.tab != c.rhs.col.tab && JoinsPlaced(p)
    ensures PushCond(c, p).0 == Code(c, Tabs(p))
    ensures Tabs(PushCond(c, p).1) == Tabs(p) && JoinsPlaced(PushCond(c, p).1)
    ensures ScansPlaced(PushCond(c, p).1) == ScansPlaced(p)
    ensures PushCond(c, p).0 != 3 ==> PushCond(c, p).1 == p
  {
    match p
    case Scan(t, _) =>
    case Join(l, r, cs) =>
      PushPlaces(c, l);
      PushPlaces(c, r);
  }

  lemma {:induction false} PushScans(c: Cond, p: Plan, first: string)
    requires c.rhs.Col? && ScanConds(p, first)
    ensures ScanConds(PushCond(c, p).1, first)
  {
    match p
    case Scan(t, _) =>
    case Join(l, r, cs) =>
      PushScans(c, l, first);
      PushScans(c, r, first);
  }

  lemma PushBlock(c: Cond, p: Plan, g: seq<string>)
    requires c.rhs.Col? && Block(g, p)
    ensures Block(g, PushCond(c, p).1)
  {
    if p.Join? {
      assert PushCond(c, p.left).1 == p.left && PushCond(c, p.right).1 == p.right;
    }
  }

  /** The joins stay in their order. */
  lemma {:induction false} PushChain(c: Cond, p: Plan, gs: seq<seq<string>>)
    requires c.rhs.Col? && Chain(gs, p)
    ensures Chain(gs, PushCond(c, p).1)
  {
    if |gs| == 1 {
      PushBlock(c, p, gs[0]);
    } else {
      PushBlock(c, p.left, gs[0]);
      PushChain(c, p.right, gs[1..]);
    }
  }

  lemma {:induction false} PushCounts(c: Cond, p: Plan, d: Cond)
    requires c.rhs.Col? && c.lhs.tab != c.rhs.col.tab && JoinsPlaced(p) && PushCond(c, p).0 == 3
    ensures Count(CondsOf(PushCond(c, p).1), d) == Count(CondsOf(p), d) + Count([c], d)
  {
    hide Count;
    PushPlaces(c, p);
    CountOne(d, c);
    match p
    case Scan(t, _) =>
    case Join(l, r, cs) =>
      JoinCounts(l, r, cs, d);
      PushPlaces(c, l);
      PushPlaces(c, r);
      var (lc, l') := PushCond(c, l);
      var (rc, r') := PushCond(c, r);
      if lc == 3 {
        PushCounts(c, l, d);
        JoinCounts(l', r, cs, d);
      } else if rc == 3 {
        PushCounts(c, r, d);
        JoinCounts(l', r', cs, d);
      } else {
        var e := if lc == 2 then Swapped(c) else c;
        JoinCounts(l', r', cs + [e], d);
        CountConcat(cs, [e], d);
      }
  }

  lemma JoinCounts(l: Plan, r: Plan, cs: seq<Cond>, d: Cond)
    ensures Count(CondsOf(Join(l, r, cs)), d) == Count(CondsOf(l), d) + Count(CondsOf(r), d) + Count(cs, d)
  {
    CountConcat(CondsOf(l), CondsOf(r), d);
    CountConcat(CondsOf(l) + CondsOf(r), cs, d);
  }

  // ---- building the tree

  /** One scan per table, in order. */
  ghost predicate ScansOf(tables: seq<string>, scans: seq<Plan>) {
    && |scans| == |tables| && DistinctTables(tables)
    && forall i :: 0 <= i < |scans| ==> scans[i].Scan? && scans[i].tab == tables[i] && ScanConds(scans[i], tables[0])
  }

  /** How often a condition stands at the scans with numbers in `u`. */
  ghost function SumIn(scans: seq<Plan>, u: set<nat>, n: nat, c: Cond): nat
    requires n <= |scans|
  {
    if n == 0 then 0
    else SumIn(scans, u, n - 1, c) + if n - 1 in u then Count(CondsOf(scans[n - 1]), c) else 0
  }

  lemma {:induction false} SumUnion(scans: seq<Plan>, u: set<nat>, v: set<nat>, n: nat, c: Cond)
    requires u !! v && n <= |scans|
    ensures SumIn(scans, u + v, n, c) == SumIn(scans, u, n, c) + SumIn(scans, v, n, c)
  {
    if n == 0 {
    } else {
      SumUnion(scans, u, v, n - 1, c);
    }
  }

  lemma {:induction false} SumNone(scans: seq<Plan>, u: set<nat>, n: nat, c: Cond)
    requires n <= |scans| && forall i :: i in u ==> i >= n
    ensures SumIn(scans, u, n, c) == 0
  {
    if n == 0 {
    } else {
      SumNone(scans, u, n - 1, c);
    }
  }

  lemma {:induction false} SumOne(scans: seq<Plan>, i: nat, n: nat, c: Cond)
    requires i < n <= |scans|
    ensures SumIn(scans, {i}, n, c) == Count(CondsOf(scans[i]), c)
  {
    if i == n - 1 {
      SumNone(scans, {i}, n - 1, c);
    } else {
      SumOne(scans, i, n - 1, c);
    }
  }

  /** The plan joins exactly the scans with numbers in `u`, and holds their conditions and
      those in `done`. */
  ghost predicate Part(tables: seq<string>, scans: seq<Plan>, u: set<nat>, p: Plan, done: seq<Cond>)
    requires ScansOf(tables, scans)
  {
    && (forall i :: i in u ==> i < |scans|)
    && (forall t :: t in Tabs(p) <==> exists i :: i in u && i < |tables| && tables[i] == t)
    && JoinsPlaced(p) && tables != [] && ScanConds(p, tables[0])
    && (ScansPlaced(p) <==> forall i :: i in u && i < |scans| ==> ScansPlaced(scans[i]))
    && (forall c :: Count(CondsOf(p), c) == SumIn(scans, u, |scans|, c) + Count(done, c))
  }

  lemma OnePart(tables: seq<string>, scans: seq<Plan>, i: nat)
    requires ScansOf(tables, scans) && i < |scans|
    ensures Part(tables, scans, {i}, scans[i], [])
  {
    forall c
      ensures Count(CondsOf(scans[i]), c) == SumIn(scans, {i}, |scans|, c) + Count([], c)
    {
      SumOne(scans, i, |scans|, c);
    }
  }

  lemma PartsApart(tables: seq<string>, scans: seq<Plan>, u: set<nat>, p: Plan, d: seq<Cond>, v: set<nat>, q: Plan,
                   e: seq<Cond>)
    requires ScansOf(tables, scans) && Part(tables, scans, u, p, d) && Part(tables, scans, v, q, e) && u !! v
    ensures Tabs(p) !! Tabs(q)
  {
    forall t | t in Tabs(p)
      ensures t !in Tabs(q)
    {
      var i :| i in u && i < |tables| && tables[i] == t;
      assert forall j :: j in v && j < |tables| ==> tables[j] != t;
    }
  }

  /** Joining two parts over different tables. */
  lemma JoinParts(tables: seq<string>, scans: seq<Plan>, u: set<nat>, p: Plan, d: seq<Cond>, v: set<nat>, q: Plan,
                  e: seq<Cond>, cs: seq<Cond>)
    requires ScansOf(tables, scans) && Part(tables, scans, u, p, d) && Part(tables, scans, v, q, e) && u !! v
    requires forall c :: c in cs ==> c.rhs.Col? && c.lhs.tab in Tabs(p) && c.rhs.col.tab in Tabs(q)
    ensures Part(tables, scans, u + v, Join(p, q, cs), d + e + cs)
  {
    PartsApart(tables, scans, u, p, d, v, q, e);
    var w, pq := u + v, Join(p, q, cs);
    forall c
      ensures Count(CondsOf(pq), c) == SumIn(scans, w, |scans|, c) + Count(d + e + cs, c)
    {
      JoinCounts(p, q, cs, c);
      SumUnion(scans, u, v, |scans|, c);
      CountConcat(d, e, c);
      CountConcat(d + e, cs, c);
    }
    JoinTabs(tables, u, v, Tabs(p), Tabs(q));
  }

  lemma JoinTabs(tables: seq<string>, u: set<nat>, v: set<nat>, tp: set<string>, tq: set<string>)
    requires forall t :: t in tp <==> exists i :: i in u && i < |tables| && tables[i] == t
    requires forall t :: t in tq <==> exists i :: i in v && i < |tables| && tables[i] == t
    ensures forall t :: t in tp + tq <==> exists i :: i in u + v && i < |tables| && tables[i] == t
  {
    forall t | t in tp + tq
      ensures exists i :: i in u + v && i < |tables| && tables[i] == t
    {
      if t in tp {
        var i :| i in u && i < |tables| && tables[i] == t;
        assert i in u + v;
      } else {
        var i :| i in v && i < |tables| && tables[i] == t;
        assert i in u + v;
      }
    }
  }

  lemma PushPart(tables: seq<string>, scans: seq<Plan>, u: set<nat>, p: Plan, d: seq<Cond>, c: Cond)
    requires ScansOf(tables, scans) && Part(tables, scans, u, p, d)
    requires c.rhs.Col? && c.lhs.tab != c.rhs.col.tab && c.lhs.tab in Tabs(p) && c.rhs.col.tab in Tabs(p)
    ensures Part(tables, scans, u, PushCond(c, p).1, d + [c])
  {
    hide PushCond, Count;
    PushPlaces(c, p);
    PushScans(c, p, tables[0]);
    forall e
      ensures Count(CondsOf(PushCond(c, p).1), e) == SumIn(scans, u, |scans|, e) + Count(d + [c], e)
    {
      PushCounts(c, p, e);
      CountConcat(d, [c], e);
    }
  }

  /** `pop_conds` once per table, in order. */
  method MakeScans(tables: seq<string>, conds: seq<Cond>) returns (scans: seq<Plan>, rest: seq<Cond>)
    requires ForQuery(tables, conds)
    ensures ScansOf(tables, scans)
    ensures forall c :: Count(conds, c) == SumIn(scans, Below(|scans|), |scans|, c) + Count(rest, c)
    ensures forall c :: c in rest ==> c in conds && c.rhs.Col? && c.lhs.tab != c.rhs.col.tab
    ensures rest == JoinConds(conds)
    ensures forall i :: 0 < i < |scans| ==> ScansPlaced(scans[i])
    ensures ScansPlaced(scans[0]) <==> forall c :: c in conds && OneTable(c) ==> c.lhs.tab == tables[0]
  {
    hide Count, ForScan, JoinConds;
    scans, rest := [], conds;
    NoneCounted();
    var i := 0;
    while i < |tables|
      invariant i <= |tables| && |scans| == i
      invariant forall k :: 0 <= k < i ==>
                scans[k].Scan? && scans[k].tab == tables[k] && ScanConds(scans[k], tables[0])
      invariant JoinConds(rest) == JoinConds(conds)
      invariant forall c :: Count(conds, c) == SumIn(scans, Below(i), i, c) + Count(rest, c)
      invariant forall c :: c in rest ==> c in conds
      invariant forall c, k :: c in rest && 0 <= k < i ==> !ForScan(c, tables[k])
      invariant forall k :: 0 < k < i ==> ScansPlaced(scans[k])
      invariant i == 0 ==> rest == conds
      invariant i > 0 ==> (ScansPlaced(scans[0]) <==> forall c :: c in conds && OneTable(c) ==> c.lhs.tab == tables[0])
    {
      var before := rest;
      var curr;
      curr, rest := PopConds(rest, tables[i]);
      var scan := Scan(tables[i], curr);
      AddedScan(scans, scan, conds, before, rest);
      if i == 0 {
        FirstScan(tables, conds, curr, rest);
      } else {
        LaterScan(tables, before, curr, i);
      }
      scans := scans + [scan];
      i := i + 1;
    }
    RestJoins(tables, conds, rest);
    JoinsOnly(rest);
  }

  ghost function Below(n: nat): (r: set<nat>)
    ensures forall i: nat :: i in r <==> i < n
  {
    if n == 0 then {} else Below(n - 1) + {n - 1}
  }

  lemma {:induction false} SumExtends(scans: seq<Plan>, scan: Plan, u: set<nat>, n: nat, c: Cond)
    requires n <= |scans|
    ensures SumIn(scans + [scan], u, n, c) == SumIn(scans, u, n, c)
  {
    if n == 0 {
    } else {
      SumExtends(scans, scan, u, n - 1, c);
    }
  }

  lemma {:induction false} SumBelow(scans: seq<Plan>, m: nat, n: nat, c: Cond)
    requires n <= m && n <= |scans|
    ensures SumIn(scans, Below(m), n, c) == SumIn(scans, Below(n), n, c)
  {
    if n == 0 {
    } else {
      SumBelow(scans, m, n - 1, c);
      SumBelow(scans, n, n - 1, c);
    }
  }

  lemma AddedScan(scans: seq<Plan>, scan: Plan, conds: seq<Cond>, before: seq<Cond>, rest: seq<Cond>)
    requires scan.Scan? && forall c :: Count(before, c) == Count(scan.conds, c) + Count(rest, c)
    requires forall c :: Count(conds, c) == SumIn(scans, Below(|scans|), |scans|, c) + Count(before, c)
    ensures forall c :: Count(conds, c) == SumIn(scans + [scan], Below(|scans| + 1), |scans| + 1, c) + Count(rest, c)
  {
    forall c
      ensures Count(conds, c) == SumIn(scans + [scan], Below(|scans| + 1), |scans| + 1, c) + Count(rest, c)
    {
      var n := |scans|;
      SumExtends(scans, scan, Below(n + 1), n, c);
      SumBelow(scans, n + 1, n, c);
      assert (scans + [scan])[n] == scan && n in Below(n + 1);
    }
  }

  /** The first scan gets every condition within one table, whichever that is. */
  lemma FirstScan(tables: seq<string>, conds: seq<Cond>, curr: seq<Cond>, rest: seq<Cond>)
    requires ForQuery(tables, conds)
    requires forall c :: Count(conds, c) == Count(curr, c) + Count(rest, c)
    requires forall c :: c in curr ==> c in conds && ForScan(c, tables[0])
    requires forall c :: c in rest ==> c in conds && !ForScan(c, tables[0])
    ensures ScanConds(Scan(tables[0], curr), tables[0])
    ensures ScansPlaced(Scan(tables[0], curr)) <==> forall c :: c in conds && OneTable(c) ==> c.lhs.tab == tables[0]
  {
    if ScansPlaced(Scan(tables[0], curr)) {
      forall c | c in conds && OneTable(c)
        ensures c.lhs.tab == tables[0]
      {
        OnePlace(conds, curr, rest, c);
        var d :| d in curr && Same(c, d);
      }
    }
  }

  lemma LaterScan(tables: seq<string>, before: seq<Cond>, curr: seq<Cond>, i: nat)
    requires 0 < i < |tables|
    requires forall c :: c in before ==> !ForScan(c, tables[0])
    requires forall c :: c in curr ==> c in before && ForScan(c, tables[i])
    ensures ScansPlaced(Scan(tables[i], curr)) && ScanConds(Scan(tables[i], curr), tables[0])
  {
  }

  /** What is left are conditions between two tables. */
  lemma RestJoins(tables: seq<string>, conds: seq<Cond>, rest: seq<Cond>)
    requires ForQuery(tables, conds)
    requires forall c :: c in rest ==> c in conds
    requires forall c, k :: c in rest && 0 <= k < |tables| ==> !ForScan(c, tables[k])
    ensures forall c :: c in rest ==> c.rhs.Col? && c.lhs.tab != c.rhs.col.tab
  {
    forall c | c in rest
      ensures c.rhs.Col? && c.lhs.tab != c.rhs.col.tab
    {
      var k :| 0 <= k < |tables| && tables[k] == c.lhs.tab;
      assert !ForScan(c, tables[k]);
    }
  }

  lemma OnePlace(conds: seq<Cond>, curr: seq<Cond>, rest: seq<Cond>, c: Cond)
    requires forall d :: Count(conds, d) == Count(curr, d) + Count(rest, d)
    requires c in conds && OneTable(c) && (forall d :: d in rest ==> !OneTable(d))
    requires forall d :: d in curr ==> d in conds
    ensures exists d :: d in curr && Same(c, d)
  {
    var i :| 0 <= i < |conds| && conds[i] == c;
    CountHas(conds, c);
    CountHas(curr, c);
    CountHas(rest, c);
    if k :| 0 <= k < |rest| && Same(c, rest[k]) {
      assert rest[k] in rest;
    }
  }

  /** Finds the scan of a table and marks it as used. */
  method PopScan(scans: seq<Plan>, used: seq<bool>, table: string) returns (i: nat, used': seq<bool>)
    requires |used| == |scans| && forall k :: 0 <= k < |scans| ==> scans[k].Scan?
    requires exists k :: 0 <= k < |scans| && scans[k].tab == table
    ensures i < |scans| && scans[i].tab == table && used' == used[i := true]
  {
    i := 0;
    while scans[i].tab != table
      invariant i < |scans|
      invariant exists k :: i <= k < |scans| && scans[k].tab == table
      decreases |scans| - i
    {
      i := i + 1;
    }
    used' := used[i := true];
  }

  ghost function UsedSet(used: seq<bool>): set<nat> {
    set i: nat | i < |used| && used[i]
  }

  lemma MarkUsed(used: seq<bool>, i: nat)
    requires i < |used|
    ensures UsedSet(used[i := true]) == UsedSet(used) + {i}
  {
  }

  /** The scan of a table that is not joined yet is not used yet. */
  lemma NotUsed(tables: seq<string>, scans: seq<Plan>, u: set<nat>, p: Plan, done: seq<Cond>, i: nat)
    requires ScansOf(tables, scans) && Part(tables, scans, u, p, done) && i < |scans| && tables[i] !in Tabs(p)
    ensures i !in u
  {
  }

  lemma TableScan(tables: seq<string>, scans: seq<Plan>, t: string)
    requires ScansOf(tables, scans) && t in tables
    ensures exists k :: 0 <= k < |scans| && scans[k].tab == t
  {
    var k :| 0 <= k < |tables| && tables[k] == t;
    assert scans[k].tab == t;
  }

  /** Works one condition between two tables into the tree. */
  method AddCond(tables: seq<string>, scans: seq<Plan>, used: seq<bool>, joined: seq<string>, whole: Plan, c: Cond,
                 ghost done: seq<Cond>, ghost gs: seq<seq<string>>)
    returns (used': seq<bool>, joined': seq<string>, whole': Plan, ghost done': seq<Cond>)
    requires ScansOf(tables, scans) && |used| == |scans| && Part(tables, scans, UsedSet(used), whole, done)
    requires Chain(gs, whole)
    requires c.rhs.Col? && c.lhs.tab != c.rhs.col.tab && c.lhs.tab in tables && c.rhs.col.tab in tables && "" !in tables
    requires forall t :: t in tables ==> (t in joined <==> t in Tabs(whole))
    ensures |used'| == |scans| && Part(tables, scans, UsedSet(used'), whole', done')
    ensures forall t :: t in tables ==> (t in joined' <==> t in Tabs(whole'))
    ensures forall d :: Count(done', d) == Count(done, d) + Count([c], d)
    ensures Chain(Grown(gs, c), whole')
  {
    hide Part, Count, SumIn, PushCond, UsedSet, Chain, Grown, ScanConds;
    var l, r := c.lhs.tab, c.rhs.col.tab;
    TableScan(tables, scans, l);
    TableScan(tables, scans, r);
    Recount(done, c);
    used', joined' := used, joined;
    var needLeft, needRight := l !in joined, r !in joined;
    var i, k := 0, 0;
    if needLeft {
      i, used' := PopScan(scans, used', l);
      joined' := joined' + [l];
      MarkUsed(used, i);
    }
    if needRight {
      ghost var before := used';
      k, used' := PopScan(scans, used', r);
      joined' := joined' + [r];
      MarkUsed(before, k);
    }
    if needLeft && needRight {
      JoinTwo(tables, scans, UsedSet(used), whole, done, gs, c, i, k);
      assert UsedSet(used') == {i} + {k} + UsedSet(used);
      whole' := Join(Join(scans[i], scans[k], [c]), whole, []);
      assert Tabs(whole'.left) == {l} + {r};
      done' := [] + [] + [c] + done + [];
    } else if needLeft {
      JoinOne(tables, scans, UsedSet(used), whole, done, gs, c, c, i);
      assert UsedSet(used') == {i} + UsedSet(used);
      whole' := Join(scans[i], whole, [c]);
      done' := [] + done + [c];
    } else if needRight {
      JoinOne(tables, scans, UsedSet(used), whole, done, gs, c, Swapped(c), k);
      assert UsedSet(used') == {k} + UsedSet(used);
      whole' := Join(scans[k], whole, [Swapped(c)]);
      done' := [] + done + [Swapped(c)];
    } else {
      PushPart(tables, scans, UsedSet(used), whole, done, c);
      PushTabs(tables, scans, UsedSet(used), whole, done, c);
      PushChain(c, whole, gs);
      GrownIs(gs, whole, c);
      whole' := PushCond(c, whole).1;
      done' := done + [c];
    }
  }

  /** Both tables of a condition are new. */
  lemma JoinTwo(tables: seq<string>, scans: seq<Plan>, u: set<nat>, p: Plan, done: seq<Cond>, gs: seq<seq<string>>,
                c: Cond, i: nat, k: nat)
    requires ScansOf(tables, scans) && Part(tables, scans, u, p, done) && Chain(gs, p) && TwoTables(c)
    requires i < |scans| && k < |scans| && scans[i].tab == c.lhs.tab && scans[k].tab == c.rhs.col.tab
    requires c.lhs.tab !in Tabs(p) && c.rhs.col.tab !in Tabs(p)
    ensures Part(tables, scans, {i} + {k} + u, Join(Join(scans[i], scans[k], [c]), p, []), [] + [] + [c] + done + [])
    ensures Chain(Grown(gs, c), Join(Join(scans[i], scans[k], [c]), p, []))
  {
    hide Part, SumIn, Chain, Grown;
    NotUsed(tables, scans, u, p, done, i);
    NotUsed(tables, scans, u, p, done, k);
    OnePart(tables, scans, i);
    OnePart(tables, scans, k);
    JoinParts(tables, scans, {i}, scans[i], [], {k}, scans[k], [], [c]);
    JoinParts(tables, scans, {i} + {k}, Join(scans[i], scans[k], [c]), [] + [] + [c], u, p, done, []);
    GrownIs(gs, p, c);
    NewBlock(gs, p, [c.lhs.tab, c.rhs.col.tab], Join(scans[i], scans[k], [c]), []);
  }

  /** One table of a condition is new, and its column comes to stand on the left. */
  lemma JoinOne(tables: seq<string>, scans: seq<Plan>, u: set<nat>, p: Plan, done: seq<Cond>, gs: seq<seq<string>>,
                c: Cond, d: Cond, i: nat)
    requires ScansOf(tables, scans) && Part(tables, scans, u, p, done) && Chain(gs, p) && TwoTables(c) && Same(c, d)
    requires i < |scans| && scans[i].tab == d.lhs.tab && d.lhs.tab !in Tabs(p) && RhsTab(d) in Tabs(p)
    ensures Part(tables, scans, {i} + u, Join(scans[i], p, [d]), [] + done + [d])
    ensures Chain(Grown(gs, c), Join(scans[i], p, [d]))
  {
    hide Part, SumIn, Chain, Grown;
    NotUsed(tables, scans, u, p, done, i);
    OnePart(tables, scans, i);
    JoinParts(tables, scans, {i}, scans[i], [], u, p, done, [d]);
    GrownIs(gs, p, c);
    NewBlock(gs, p, [d.lhs.tab], scans[i], [d]);
  }

  /** How a condition between two tables makes the chain longer. */
  lemma GrownIs(gs: seq<seq<string>>, p: Plan, c: Cond)
    requires TwoTables(c) && Chain(gs, p)
    ensures c.lhs.tab in Tabs(p) && c.rhs.col.tab in Tabs(p) ==> Grown(gs, c) == gs
    ensures c.lhs.tab !in Tabs(p) && c.rhs.col.tab in Tabs(p) ==> Grown(gs, c) == [[c.lhs.tab]] + gs
    ensures c.lhs.tab in Tabs(p) && c.rhs.col.tab !in Tabs(p) ==> Grown(gs, c) == [[c.rhs.col.tab]] + gs
    ensures c.lhs.tab !in Tabs(p) && c.rhs.col.tab !in Tabs(p) ==>
              Grown(gs, c) == [[c.lhs.tab, c.rhs.col.tab]] + gs
  {
    ChainLeaves(gs, p);
    LeavesTabs(p, c.lhs.tab);
    LeavesTabs(p, c.rhs.col.tab);
    assert [c.lhs.tab] + [c.rhs.col.tab] == [c.lhs.tab, c.rhs.col.tab];
    assert [c.lhs.tab] + [] == [c.lhs.tab] && [] + [c.rhs.col.tab] == [c.rhs.col.tab];
  }

  lemma NewBlock(gs: seq<seq<string>>, p: Plan, g: seq<string>, b: Plan, cs: seq<Cond>)
    requires Block(g, b) && Chain(gs, p)
    ensures Chain([g] + gs, Join(b, p, cs))
  {
    assert ([g] + gs)[1..] == gs;
  }

  lemma PushTabs(tables: seq<string>, scans: seq<Plan>, u: set<nat>, p: Plan, done: seq<Cond>, c: Cond)
    requires ScansOf(tables, scans) && Part(tables, scans, u, p, done) && c.rhs.Col? && c.lhs.tab != c.rhs.col.tab
    ensures Tabs(PushCond(c, p).1) == Tabs(p)
  {
    PushPlaces(c, p);
  }

  lemma Recount(done: seq<Cond>, c: Cond)
    requires c.rhs.Col?
    ensures forall d :: Count([] + [] + [c] + done + [], d) == Count(done, d) + Count([c], d)
    ensures forall d :: Count([] + done + [c], d) == Count(done, d) + Count([c], d)
    ensures forall d :: Count([] + done + [Swapped(c)], d) == Count(done, d) + Count([c], d)
    ensures forall d :: Count(done + [c], d) == Count(done, d) + Count([c], d)
  {
    var e := Swapped(c);
    assert [] + [] + [c] + done + [] == [c] + done && [] + done + [c] == done + [c] && [] + done + [e] == done + [e];
    forall d
      ensures Count([c] + done, d) == Count(done, d) + Count([c], d)
      ensures Count(done + [c], d) == Count(done, d) + Count([c], d)
      ensures Count(done + [e], d) == Count(done, d) + Count([c], d)
    {
      CountConcat([c], done, d);
      CountConcat(done, [c], d);
      CountConcat(done, [e], d);
      CountOne(d, c);
    }
  }

  /** The first join, for the first condition between two tables. */
  method FirstJoin(tables: seq<string>, scans: seq<Plan>, c: Cond)
    returns (used: seq<bool>, joined: seq<string>, whole: Plan)
    requires ScansOf(tables, scans) && "" !in tables
    requires c.rhs.Col? && c.lhs.tab != c.rhs.col.tab && c.lhs.tab in tables && c.rhs.col.tab in tables
    ensures |used| == |scans| && Part(tables, scans, UsedSet(used), whole, [c]) && Chain(Groups([c]), whole)
    ensures forall t :: t in tables ==> (t in joined <==> t in Tabs(whole))
  {
    hide Part, Count, SumIn, Chain, Groups;
    var l, r := c.lhs.tab, c.rhs.col.tab;
    TableScan(tables, scans, l);
    TableScan(tables, scans, r);
    used := seq(|scans|, _ => false);
    joined := seq(|tables|, _ => "");
    assert UsedSet(used) == {};
    var i, k;
    ghost var used0 := used;
    i, used := PopScan(scans, used, l);
    MarkUsed(used0, i);
    ghost var used1 := used;
    k, used := PopScan(scans, used, r);
    MarkUsed(used1, k);
    joined := joined + [l, r];
    OnePart(tables, scans, i);
    OnePart(tables, scans, k);
    JoinParts(tables, scans, {i}, scans[i], [], {k}, scans[k], [], [c]);
    assert UsedSet(used) == {i} + {k} && [] + [] + [c] == [c];
    whole := Join(scans[i], scans[k], [c]);
    FirstChain(c, scans[i], scans[k]);
  }

  lemma FirstChain(c: Cond, a: Plan, b: Plan)
    requires TwoTables(c) && a.Scan? && b.Scan? && a.tab == c.lhs.tab && b.tab == c.rhs.col.tab
    ensures Chain(Groups([c]), Join(a, b, [c]))
  {
    assert [c][..0] == [] && Groups([c]) == [[a.tab] + [b.tab]] && [a.tab] + [b.tab] == [a.tab, b.tab];
  }

  /** Joins the tables that no condition has brought in. */
  method JoinRest(tables: seq<string>, scans: seq<Plan>, used: seq<bool>, whole: Plan, ghost done: seq<Cond>,
                  ghost gs: seq<seq<string>>)
    returns (p: Plan, ghost gs': seq<seq<string>>)
    requires ScansOf(tables, scans) && |used| == |scans| && Part(tables, scans, UsedSet(used), whole, done)
    requires Chain(gs, whole)
    ensures Part(tables, scans, Below(|scans|), p, done)
    ensures Chain(gs', p) && Later(gs, gs')
  {
    hide Part, Count, SumIn, Chain, Later;
    p, gs' := whole, gs;
    NoneLater(gs);
    ghost var u: set<nat> := UsedSet(used);
    var i := 0;
    while i < |tables|
      invariant i <= |tables| && Part(tables, scans, u, p, done) && Chain(gs', p) && Later(gs, gs')
      invariant forall k: nat :: k in u <==> k < |used| && (used[k] || k < i)
    {
      if !used[i] {
        OnePart(tables, scans, i);
        JoinParts(tables, scans, {i}, scans[i], [], u, p, done, []);
        assert [] + done + [] == done;
        NotYet(tables, scans, u, p, done, i);
        OneLater(gs, gs', p, scans[i]);
        gs' := [[tables[i]]] + gs';
        p := Join(scans[i], p, []);
        u := {i} + u;
      }
      i := i + 1;
    }
    assert u == Below(|scans|);
  }

  /** More tables in front, none of them there before. */
  ghost predicate Later(gs: seq<seq<string>>, gs': seq<seq<string>>) {
    if |gs'| <= |gs| then gs' == gs
    else |gs'[0]| == 1 && gs'[0][0] !in Flat(gs) && Later(gs, gs'[1..])
  }

  lemma NoneLater(gs: seq<seq<string>>)
    ensures Later(gs, gs)
  {
  }

  lemma {:induction false} LaterFlat(gs: seq<seq<string>>, gs': seq<seq<string>>, t: string)
    requires Later(gs, gs') && t in Flat(gs)
    ensures t in Flat(gs') && |gs'| >= |gs|
  {
    if |gs'| > |gs| {
      LaterFlat(gs, gs'[1..], t);
    }
  }

  lemma LaterLonger(gs: seq<seq<string>>, gs': seq<seq<string>>)
    requires Later(gs, gs')
    ensures |gs'| >= |gs|
  {
  }

  lemma OneLater(gs: seq<seq<string>>, gs': seq<seq<string>>, p: Plan, scan: Plan)
    requires Later(gs, gs') && Chain(gs', p) && scan.Scan? && scan.tab !in Tabs(p)
    ensures Later(gs, [[scan.tab]] + gs') && Chain([[scan.tab]] + gs', Join(scan, p, []))
  {
    ChainLeaves(gs', p);
    LeavesTabs(p, scan.tab);
    LaterLonger(gs, gs');
    if scan.tab in Flat(gs) {
      LaterFlat(gs, gs', scan.tab);
    }
    assert ([[scan.tab]] + gs')[1..] == gs';
  }

  lemma NotYet(tables: seq<string>, scans: seq<Plan>, u: set<nat>, p: Plan, done: seq<Cond>, i: nat)
    requires ScansOf(tables, scans) && Part(tables, scans, u, p, done) && i < |scans| && i !in u
    ensures tables[i] !in Tabs(p) && scans[i].tab == tables[i]
  {
    assert forall k :: k in u && k < |tables| ==> tables[k] != tables[i];
  }

  /** Tables that come in later do not change what conditions are read from. */
  lemma {:induction false} LaterSides(gs: seq<seq<string>>, gs': seq<seq<string>>, c: Cond)
    requires Later(gs, gs') && c.lhs.tab in Flat(gs) && RhsTab(c) in Flat(gs)
    ensures JoinSides(gs', c) == JoinSides(gs, c)
  {
    LaterLonger(gs, gs');
    if |gs'| > |gs| {
      LaterSides(gs, gs'[1..], c);
    }
  }

  /** Joins all tables of a query and places its conditions: each exactly once, at joins with
      its columns on their sides. Conditions within one table all go to the first scan. Columns are
      looked up by name, so the plan gives the rows that meet the conditions as read, and it means the
      query if and only if those mean the conditions of the query. */
  method MakeOneRel(tables: seq<string>, conds: seq<Cond>, ghost sch: Schema) returns (p: Plan)
    requires ForQuery(tables, conds) && Declared(sch, tables, conds)
    ensures Arranged(sch, p, tables, conds)
    ensures WellPlaced(p) <==> forall c :: c in conds && OneTable(c) ==> c.lhs.tab == tables[0]
    ensures Findable(sch, tables, conds) ==> Means(sch, p, tables, AsRead(sch, tables, conds))
    ensures !Findable(sch, tables, conds) ==> Barren(sch, p)
    ensures Findable(sch, tables, conds) || Satisfiable(sch, tables, conds) ==>
              (Means(sch, p, tables, conds) <==>
               Findable(sch, tables, conds) && Equivalent(sch, tables, AsRead(sch, tables, conds), conds))
  {
    hide Part, Count, SumIn, ScansPlaced, Chain, Later, Means, Findable, Satisfiable, Equivalent, Barren, Reads,
      JoinConds, Groups, AllReadAs, Declared, JoinsPlaced;
    var scans, rest := MakeScans(tables, conds);
    ghost var done: seq<Cond>;
    ghost var gs := [[tables[0]]];
    if rest != [] {
      SeveralTables(tables, conds, rest);
    }
    if |tables| == 1 {
      p := scans[0];
      OnePart(tables, scans, 0);
      assert {0} == Below(1);
      done := [];
      OneChain(p);
    } else {
      var used, joined;
      if |rest| >= 1 {
        used, joined, p := FirstJoin(tables, scans, rest[0]);
        done := [rest[0]];
        var i := 1;
        assert rest[..1] == [rest[0]];
        while i < |rest|
          invariant 1 <= i <= |rest| && |used| == |scans|
          invariant Part(tables, scans, UsedSet(used), p, done) && Chain(Groups(rest[..i]), p)
          invariant forall t :: t in tables ==> (t in joined <==> t in Tabs(p))
          invariant forall d :: Count(done, d) == Count(rest[..i], d)
        {
          CountNext(rest, i);
          GroupsNext(rest, i);
          used, joined, p, done := AddCond(tables, scans, used, joined, p, rest[i], done, Groups(rest[..i]));
          i := i + 1;
        }
        assert rest[..i] == rest;
        gs := Groups(rest);
      } else {
        p := scans[0];
        used := seq(|scans|, k => k == 0);
        OnePart(tables, scans, 0);
        assert UsedSet(used) == {0};
        done := [];
        OneChain(p);
      }
      ghost var before := gs;
      p, gs := JoinRest(tables, scans, used, p, done, gs);
      SidesKept(rest, before, gs);
    }
    WholePart(tables, scans, p, done, rest, conds);
    TreeReads(sch, p, tables, conds, rest, gs);
    QueryMeans(sch, p, tables, conds);
  }

  lemma SeveralTables(tables: seq<string>, conds: seq<Cond>, rest: seq<Cond>)
    requires ForQuery(tables, conds) && rest != []
    requires forall c :: c in rest ==> c in conds && c.rhs.Col? && c.lhs.tab != c.rhs.col.tab
    ensures |tables| > 1
  {
    var c := rest[0];
    assert c in rest;
    var i :| 0 <= i < |tables| && tables[i] == c.lhs.tab;
    var j :| 0 <= j < |tables| && tables[j] == c.rhs.col.tab;
  }

  lemma CountNext(rest: seq<Cond>, i: nat)
    requires i < |rest|
    ensures forall d :: Count(rest[..i + 1], d) == Count(rest[..i], d) + Count([rest[i]], d)
  {
    assert rest[..i + 1] == rest[..i] + [rest[i]];
    forall d
      ensures Count(rest[..i + 1], d) == Count(rest[..i], d) + Count([rest[i]], d)
    {
      CountConcat(rest[..i], [rest[i]], d);
    }
  }

  /** The tree over all scans, once every condition is done. */
  lemma WholePart(tables: seq<string>, scans: seq<Plan>, p: Plan, done: seq<Cond>, rest: seq<Cond>, conds: seq<Cond>)
    requires ScansOf(tables, scans) && Part(tables, scans, Below(|scans|), p, done) && 0 < |tables|
    requires forall c :: Count(done, c) == Count(rest, c)
    requires forall c :: Count(conds, c) == SumIn(scans, Below(|scans|), |scans|, c) + Count(rest, c)
    requires forall i :: 0 < i < |scans| ==> ScansPlaced(scans[i])
    ensures Tabs(p) == TableSet(tables) && JoinsPlaced(p) && ScanConds(p, tables[0])
    ensures SameConds(CondsOf(p), conds)
    ensures WellPlaced(p) <==> ScansPlaced(scans[0])
  {
    assert 0 in Below(|scans|);
    forall t | t in tables
      ensures t in Tabs(p)
    {
      var i :| 0 <= i < |tables| && tables[i] == t;
      assert i in Below(|scans|);
    }
  }

  lemma OneChain(p: Plan)
    requires p.Scan?
    ensures Chain([[p.tab]], p)
  {
  }

  lemma GroupsNext(cs: seq<Cond>, i: nat)
    requires i < |cs|
    ensures Groups(cs[..i + 1]) == Grown(Groups(cs[..i]), cs[i])
  {
    assert cs[..i + 1][..i] == cs[..i];
  }

  lemma {:induction false} GroupsCover(cs: seq<Cond>, c: Cond)
    requires c in cs
    ensures c.lhs.tab in Flat(Groups(cs)) && RhsTab(c) in Flat(Groups(cs))
  {
    var n := |cs| - 1;
    var gs := Groups(cs[..n]);
    if c in cs[..n] {
      GroupsCover(cs[..n], c);
    }
    assert forall g: seq<string> :: ([g] + gs)[1..] == gs;
  }

  lemma SidesKept(rest: seq<Cond>, gs: seq<seq<string>>, gs': seq<seq<string>>)
    requires Later(gs, gs') && (rest != [] ==> gs == Groups(rest))
    ensures forall c :: c in rest ==> JoinSides(gs', c) == JoinSides(Groups(rest), c)
  {
    hide Later, Groups;
    forall c | c in rest
      ensures JoinSides(gs', c) == JoinSides(Groups(rest), c)
    {
      GroupsCover(rest, c);
      LaterSides(gs, gs', c);
    }
  }

  lemma {:induction false} JoinsHave(cs: seq<Cond>, c: Cond)
    requires c in cs && TwoTables(c)
    ensures c in JoinConds(cs)
  {
    var n := |cs| - 1;
    if c in cs[..n] {
      JoinsHave(cs[..n], c);
    }
  }

  lemma SidesInPlan(p: Plan, conds: seq<Cond>, gs: seq<seq<string>>, c: Cond)
    requires SameConds(CondsOf(p), conds) && c in CondsOf(p) && TwoTables(c)
    requires forall d :: d in JoinConds(conds) ==> JoinSides(gs, d) == JoinSides(Groups(JoinConds(conds)), d)
    ensures JoinSides(gs, c) == JoinSides(Groups(JoinConds(conds)), c)
  {
    hide Count, JoinConds, Groups, JoinSides;
    var d := SameMember(CondsOf(p), conds, c);
    JoinsHave(conds, d);
    SidesSwap(gs, c);
    SidesSwap(Groups(JoinConds(conds)), c);
  }

  /** The finished tree reads every condition as the order of the conditions says. */
  lemma TreeReads(sch: Schema, p: Plan, tables: seq<string>, conds: seq<Cond>, rest: seq<Cond>, gs: seq<seq<string>>)
    requires tables != [] && Tabs(p) == TableSet(tables) && JoinsPlaced(p) && ScanConds(p, tables[0])
    requires SameConds(CondsOf(p), conds) && rest == JoinConds(conds) && Chain(gs, p)
    requires forall c :: c in rest ==> JoinSides(gs, c) == JoinSides(Groups(rest), c)
    ensures Arranged(sch, p, tables, conds)
  {
    hide Count, JoinConds, Groups, JoinSides, Chain, JoinsPlaced, ScanConds, ReadCond, Reads, SameConds;
    ChainReads(sch, tables[0], gs, p);
    var cs := CondsOf(p);
    forall i | 0 <= i < |cs|
      ensures ReadAs(sch, tables[0], gs, cs[i]) == ReadAs(sch, tables[0], Groups(rest), cs[i])
    {
      assert cs[i] in cs;
      if TwoTables(cs[i]) {
        SidesInPlan(p, conds, gs, cs[i]);
      }
    }
  }
}
