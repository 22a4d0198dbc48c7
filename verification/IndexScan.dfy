/** The index scan executor over a one-column index. */
module IndexScan {
  import opened Common
  import opened Agreement
  import opened IxLevels
  import opened IxShape
  import opened IxFind
  import opened IxGrow
  import opened IxTree
  import opened IxScan

  type Row = seq<nat>

  /** A comparison of a column with a constant. */
  datatype Cond = Cond(col: nat, op: CompOp, val: nat)

  predicate Test(c: Cond, row: Row) {
    c.col < |row| && Compare(c.op, row[c.col], c.val)
  }

  predicate TestAll(conds: seq<Cond>, row: Row) {
    forall x :: 0 <= x < |conds| ==> Test(conds[x], row)
  }

  function Column(col: nat): Row -> nat {
    (row: Row) => if col < |row| then row[col] else 0
  }

  /** The index files every row of the table under the value of its column, and nothing else. */
  ghost predicate Indexes(m: Index, table: map<Rid, Row>, col: nat) {
    Agrees(m, table, Column(col)) && forall r :: r in table ==> col < |table[r]|
  }

  // ---- the rows a scan should give

  ghost predicate Passes(e: Entry, table: map<Rid, Row>, conds: seq<Cond>) {
    e.rid in table && TestAll(conds, table[e.rid])
  }

  /** The rows behind the entries that pass the conditions, in order. */
  ghost function Filtered(es: seq<Entry>, table: map<Rid, Row>, conds: seq<Cond>): seq<Rid> {
    if es == [] then []
    else if Passes(es[0], table, conds) then [es[0].rid] + Filtered(es[1..], table, conds)
    else Filtered(es[1..], table, conds)
  }

  lemma FilteredNext(es: seq<Entry>, table: map<Rid, Row>, conds: seq<Cond>)
    ensures es == [] ==> Filtered(es, table, conds) == []
    ensures es != [] && Passes(es[0], table, conds) ==>
              Filtered(es, table, conds) == [es[0].rid] + Filtered(es, table, conds)[1..]
  {
  }

  /** The filtered row lists exactly the rows of the entries that pass. */
  lemma {:induction false} FilteredHas(es: seq<Entry>, table: map<Rid, Row>, conds: seq<Cond>, r: Rid)
    ensures r in Filtered(es, table, conds) <==>
            exists y :: 0 <= y < |es| && es[y].rid == r && Passes(es[y], table, conds)
  {
    hide Passes;
    if es == [] {
    } else {
      var rest := es[1..];
      FilteredHas(rest, table, conds, r);
      if r in Filtered(rest, table, conds) {
        var y :| 0 <= y < |rest| && rest[y].rid == r && Passes(rest[y], table, conds);
        assert es[y + 1] == rest[y];
      }
      if y :| 0 <= y < |es| && es[y].rid == r && Passes(es[y], table, conds) {
        if y > 0 {
          assert rest[y - 1] == es[y];
        }
      }
    }
  }

  /** Values of the column rise along the rows, so no row comes twice. */
  ghost predicate Rising(rs: seq<Rid>, table: map<Rid, Row>, col: nat) {
    && (forall x :: 0 <= x < |rs| ==> rs[x] in table && col < |table[rs[x]]|)
    && (forall x, y :: 0 <= x < y < |rs| ==> table[rs[x]][col] < table[rs[y]][col])
  }

  ghost predicate Behind(es: seq<Entry>, table: map<Rid, Row>, col: nat) {
    forall x :: 0 <= x < |es| ==> es[x].rid in table && col < |table[es[x].rid]| && table[es[x].rid][col] == es[x].key
  }

  lemma {:induction false} FilteredRises(es: seq<Entry>, table: map<Rid, Row>, conds: seq<Cond>, col: nat)
    requires SortedEnts(es) && Behind(es, table, col)
    ensures Rising(Filtered(es, table, conds), table, col)
  {
    hide Passes;
    if es == [] {
    } else {
      var rest := es[1..];
      FilteredRises(rest, table, conds, col);
      var tail := Filtered(rest, table, conds);
      forall x | 0 <= x < |tail|
        ensures table[es[0].rid][col] < table[tail[x]][col]
      {
        FilteredHas(rest, table, conds, tail[x]);
        var y :| 0 <= y < |rest| && rest[y].rid == tail[x] && Passes(rest[y], table, conds);
        assert es[y + 1] == rest[y];
      }
    }
  }

  lemma {:induction false} FilteredConcat(a: seq<Entry>, b: seq<Entry>, table: map<Rid, Row>, conds: seq<Cond>)
    ensures Filtered(a + b, table, conds) == Filtered(a, table, conds) + Filtered(b, table, conds)
  {
    hide Passes;
    if a == [] {
      assert a + b == b;
    } else {
      assert (a + b)[1..] == a[1..] + b;
      FilteredConcat(a[1..], b, table, conds);
    }
  }

  lemma {:induction false} FilteredNone(es: seq<Entry>, table: map<Rid, Row>, conds: seq<Cond>)
    requires forall x :: 0 <= x < |es| ==> !Passes(es[x], table, conds)
    ensures Filtered(es, table, conds) == []
  {
    hide Passes;
    if es == [] {
    } else {
      FilteredNone(es[1..], table, conds);
    }
  }

  // ---- the bounds

  predicate IsLower(op: CompOp) {
    op == GE || op == GT
  }

  predicate IsUpper(op: CompOp) {
    op == LE || op == LT
  }

  /** A key meets the lower limits among the first `n` conditions. */
  predicate LowersHold(conds: seq<Cond>, n: nat, k: nat)
    requires n <= |conds|
  {
    n == 0 || (LowersHold(conds, n - 1, k)
      && (IsLower(conds[n - 1].op) ==> Compare(conds[n - 1].op, k, conds[n - 1].val)))
  }

  predicate UppersHold(conds: seq<Cond>, n: nat, k: nat)
    requires n <= |conds|
  {
    n == 0 || (UppersHold(conds, n - 1, k)
      && (IsUpper(conds[n - 1].op) ==> Compare(conds[n - 1].op, k, conds[n - 1].val)))
  }

  predicate AboveLimit(has: bool, limit: nat, closed: bool, k: nat) {
    has ==> if closed then k >= limit else k > limit
  }

  predicate BelowLimit(has: bool, limit: nat, closed: bool, k: nat) {
    has ==> if closed then k <= limit else k < limit
  }

  lemma {:induction false} LimitsHold(conds: seq<Cond>, n: nat, k: nat)
    requires n <= |conds| && forall x :: 0 <= x < |conds| ==> Compare(conds[x].op, k, conds[x].val)
    ensures LowersHold(conds, n, k) && UppersHold(conds, n, k)
  {
    if n == 0 {
    } else {
      LimitsHold(conds, n - 1, k);
    }
  }

  /** The limit is one of those among the first `n` conditions, and none of them is tighter. */
  ghost predicate TightLower(conds: seq<Cond>, n: nat, has: bool, limit: nat, closed: bool)
    requires n <= |conds|
  {
    && (has <==> exists i :: 0 <= i < n && IsLower(conds[i].op))
    && (has ==> exists i :: 0 <= i < n && conds[i].op == (if closed then GE else GT) && conds[i].val == limit)
    && (forall i :: 0 <= i < n && IsLower(conds[i].op) ==>
         conds[i].val < limit || (conds[i].val == limit && (conds[i].op == GE || !closed)))
  }

  ghost predicate TightUpper(conds: seq<Cond>, n: nat, has: bool, limit: nat, closed: bool)
    requires n <= |conds|
  {
    && (has <==> exists i :: 0 <= i < n && IsUpper(conds[i].op))
    && (has ==> exists i :: 0 <= i < n && conds[i].op == (if closed then LE else LT) && conds[i].val == limit)
    && (forall i :: 0 <= i < n && IsUpper(conds[i].op) ==>
         conds[i].val > limit || (conds[i].val == limit && (conds[i].op == LE || !closed)))
  }

  /** The tightest lower and upper limit among the conditions on one column. */
  method Limits(conds: seq<Cond>)
    returns (hasLower: bool, lower: nat, lowerClosed: bool, hasUpper: bool, upper: nat, upperClosed: bool)
    ensures forall k: nat :: LowersHold(conds, |conds|, k) <==> AboveLimit(hasLower, lower, lowerClosed, k)
    ensures forall k: nat :: UppersHold(conds, |conds|, k) <==> BelowLimit(hasUpper, upper, upperClosed, k)
    ensures TightLower(conds, |conds|, hasLower, lower, lowerClosed)
    ensures TightUpper(conds, |conds|, hasUpper, upper, upperClosed)
  {
    hide TightLower, TightUpper, LowersHold, UppersHold, AboveLimit, BelowLimit;
    NoLimits(conds);
    hasLower, lower, lowerClosed := false, 0, false;
    hasUpper, upper, upperClosed := false, 0, false;
    var i := 0;
    while i < |conds|
      invariant 0 <= i <= |conds|
      invariant TightLower(conds, i, hasLower, lower, lowerClosed)
      invariant TightUpper(conds, i, hasUpper, upper, upperClosed)
    {
      var c := conds[i];
      NextLower(conds, i, hasLower, lower, lowerClosed);
      NextUpper(conds, i, hasUpper, upper, upperClosed);
      if c.op == GE || c.op == GT {
        if !hasLower || c.val > lower || (c.val == lower && lowerClosed && c.op == GT) {
          lower := c.val;
          lowerClosed := c.op == GE;
        }
        hasLower := true;
      } else if c.op == LE || c.op == LT {
        if !hasUpper || c.val < upper || (c.val == upper && upperClosed && c.op == LT) {
          upper := c.val;
          upperClosed := c.op == LE;
        }
        hasUpper := true;
      }
      i := i + 1;
    }
    forall k: nat
      ensures LowersHold(conds, |conds|, k) <==> AboveLimit(hasLower, lower, lowerClosed, k)
      ensures UppersHold(conds, |conds|, k) <==> BelowLimit(hasUpper, upper, upperClosed, k)
    {
      LowerAt(conds, hasLower, lower, lowerClosed, k);
      UpperAt(conds, hasUpper, upper, upperClosed, k);
    }
  }

  lemma NoLimits(conds: seq<Cond>)
    ensures TightLower(conds, 0, false, 0, false) && TightUpper(conds, 0, false, 0, false)
  {
  }

  /** One more condition makes the limit tighter, or leaves it. */
  lemma NextLower(conds: seq<Cond>, i: nat, has: bool, limit: nat, closed: bool)
    requires i < |conds| && TightLower(conds, i, has, limit, closed)
    ensures var c := conds[i];
            var tighter := !has || c.val > limit || (c.val == limit && closed && c.op == GT);
            if !IsLower(c.op) then TightLower(conds, i + 1, has, limit, closed)
            else if tighter then TightLower(conds, i + 1, true, c.val, c.op == GE)
            else TightLower(conds, i + 1, true, limit, closed)
  {
    if IsLower(conds[i].op) {
      assert exists j :: 0 <= j < i + 1 && IsLower(conds[j].op);
    }
  }

  lemma NextUpper(conds: seq<Cond>, i: nat, has: bool, limit: nat, closed: bool)
    requires i < |conds| && TightUpper(conds, i, has, limit, closed)
    ensures var c := conds[i];
            var tighter := !has || c.val < limit || (c.val == limit && closed && c.op == LT);
            if !IsUpper(c.op) then TightUpper(conds, i + 1, has, limit, closed)
            else if tighter then TightUpper(conds, i + 1, true, c.val, c.op == LE)
            else TightUpper(conds, i + 1, true, limit, closed)
  {
    if IsUpper(conds[i].op) {
      assert exists j :: 0 <= j < i + 1 && IsUpper(conds[j].op);
    }
  }

  lemma LowerAt(conds: seq<Cond>, has: bool, limit: nat, closed: bool, k: nat)
    requires TightLower(conds, |conds|, has, limit, closed)
    ensures LowersHold(conds, |conds|, k) <==> AboveLimit(has, limit, closed, k)
  {
    LowersAre(conds, |conds|, k);
  }

  lemma UpperAt(conds: seq<Cond>, has: bool, limit: nat, closed: bool, k: nat)
    requires TightUpper(conds, |conds|, has, limit, closed)
    ensures UppersHold(conds, |conds|, k) <==> BelowLimit(has, limit, closed, k)
  {
    UppersAre(conds, |conds|, k);
  }

  lemma {:induction false} LowersAre(conds: seq<Cond>, n: nat, k: nat)
    requires n <= |conds|
    ensures LowersHold(conds, n, k) <==>
              forall i :: 0 <= i < n && IsLower(conds[i].op) ==> Compare(conds[i].op, k, conds[i].val)
  {
    if n == 0 {
    } else {
      LowersAre(conds, n - 1, k);
    }
  }

  lemma {:induction false} UppersAre(conds: seq<Cond>, n: nat, k: nat)
    requires n <= |conds|
    ensures UppersHold(conds, n, k) <==>
              forall i :: 0 <= i < n && IsUpper(conds[i].op) ==> Compare(conds[i].op, k, conds[i].val)
  {
    if n == 0 {
    } else {
      UppersAre(conds, n - 1, k);
    }
  }

  /** The conditions that `get_index_cols` hands to an index on one column: all those on that column, in
      the order of the query. */
  function Handed(conds: seq<Cond>, col: nat): seq<Cond> {
    if conds == [] then []
    else (if conds[0].col == col then [conds[0]] else []) + Handed(conds[1..], col)
  }

  ghost predicate OneColumn(conds: seq<Cond>, col: nat) {
    0 < |conds| && forall x :: 0 <= x < |conds| ==> conds[x].col == col
  }

  lemma {:induction false} HandedColumn(conds: seq<Cond>, col: nat)
    ensures forall c :: c in Handed(conds, col) <==> c in conds && c.col == col
    ensures Handed(conds, col) != [] ==> OneColumn(Handed(conds, col), col)
  {
    if conds == [] {
    } else {
      HandedColumn(conds[1..], col);
      assert forall c :: c in conds <==> c == conds[0] || c in conds[1..];
      assert forall x :: 0 <= x < |Handed(conds, col)| ==> Handed(conds, col)[x] in Handed(conds, col);
    }
  }

  // ---- the key buffer

  /** How many conditions at the front are equalities. */
  function Leading(conds: seq<Cond>): (n: nat)
    ensures n <= |conds| && (n < |conds| ==> conds[n].op != EQ)
    ensures forall x :: 0 <= x < n ==> conds[x].op == EQ
  {
    if conds == [] || conds[0].op != EQ then 0 else 1 + Leading(conds[1..])
  }

  predicate HasLimit(conds: seq<Cond>) {
    exists i :: 0 <= i < |conds| && (IsLower(conds[i].op) || IsUpper(conds[i].op))
  }

  /** Some lower limit is above some upper one. */
  predicate Crossed(conds: seq<Cond>) {
    exists i, j :: 0 <= i < |conds| && 0 <= j < |conds| && CrossedPair(conds[i], conds[j])
  }

  predicate CrossedPair(c: Cond, d: Cond) {
    && IsLower(c.op) && IsUpper(d.op)
    && (c.val > d.val || (c.val == d.val && !(c.op == GE && d.op == LE)))
  }

  /** The key buffer of an index on one column has room for one value. The equalities at the front are
      written to it one behind the other, and then the limits, unless they are crossed. */
  predicate InKey(conds: seq<Cond>) {
    var n := Leading(conds);
    n == 0 || (n == 1 && (!HasLimit(conds[1..]) || Crossed(conds[1..])))
  }

  lemma CrossedLimits(conds: seq<Cond>, hasLower: bool, lower: nat, lowerClosed: bool, hasUpper: bool, upper: nat,
                      upperClosed: bool)
    requires TightLower(conds, |conds|, hasLower, lower, lowerClosed)
    requires TightUpper(conds, |conds|, hasUpper, upper, upperClosed)
    ensures HasLimit(conds) <==> hasLower || hasUpper
    ensures Crossed(conds) <==>
              hasLower && hasUpper && (lower > upper || (lower == upper && !(lowerClosed && upperClosed)))
  {
    if hasLower && hasUpper {
      var i :| 0 <= i < |conds| && conds[i].op == (if lowerClosed then GE else GT) && conds[i].val == lower;
      var j :| 0 <= j < |conds| && conds[j].op == (if upperClosed then LE else LT) && conds[j].val == upper;
      if lower > upper || (lower == upper && !(lowerClosed && upperClosed)) {
        assert CrossedPair(conds[i], conds[j]);
      }
    }
  }

  ghost predicate KeyPasses(conds: seq<Cond>, k: nat) {
    forall x :: 0 <= x < |conds| ==> Compare(conds[x].op, k, conds[x].val)
  }

  /** Every entry whose key meets the conditions lies from `a` up to `b`. */
  ghost predicate Encloses(es: seq<Entry>, conds: seq<Cond>, a: nat, b: nat) {
    a <= b <= |es| && forall x :: 0 <= x < |es| && KeyPasses(conds, es[x].key) ==> a <= x < b
  }

  lemma EqualRange(es: seq<Entry>, conds: seq<Cond>, key: nat, a: nat, b: nat)
    requires 0 < |conds| && conds[0].op == EQ && conds[0].val == key && FirstAtLeast(es, key, a)
             && FirstAbove(es, key, b)
    ensures a <= b <= |es|
    ensures !Crossed(conds[Leading(conds)..]) ==> Bounded(es, conds, a, b)
  {
    if b < |es| {
      assert es[b].key > key;
    }
    forall x | 0 <= x < |es| && KeyPasses(conds, es[x].key)
      ensures a <= x < b
    {
      assert Compare(conds[0].op, es[x].key, conds[0].val);
    }
  }

  /** What the scanned part is narrowed to: the value of a leading equality, or all bounds. */
  predicate BoundsHold(conds: seq<Cond>, k: nat) {
    if Leading(conds) > 0 then k == conds[0].val
    else LowersHold(conds, |conds|, k) && UppersHold(conds, |conds|, k)
  }

  /** The part between the two places has no key outside the bounds. */
  ghost predicate Narrow(es: seq<Entry>, conds: seq<Cond>, a: nat, b: nat) {
    b <= |es| && forall x :: a <= x < b ==> BoundsHold(conds, es[x].key)
  }

  /** The part between the two places has every key that passes and none outside the bounds; if no key can be
      within the bounds, it is the whole index. */
  ghost predicate Bounded(es: seq<Entry>, conds: seq<Cond>, a: nat, b: nat) {
    && Encloses(es, conds, a, b)
    && if Crossed(conds[Leading(conds)..]) then a == 0 && b == |es| else Narrow(es, conds, a, b)
  }

  /** The place where a lower limit starts. */
  ghost predicate LowerPlace(es: seq<Entry>, has: bool, limit: nat, closed: bool, a: nat) {
    if !has then a == 0 else if closed then FirstAtLeast(es, limit, a) else FirstAbove(es, limit, a)
  }

  ghost predicate UpperPlace(es: seq<Entry>, has: bool, limit: nat, closed: bool, b: nat) {
    if !has then b == |es| else if closed then FirstAbove(es, limit, b) else FirstAtLeast(es, limit, b)
  }

  lemma LimitRange(es: seq<Entry>, conds: seq<Cond>, hasLower: bool, lower: nat, lowerClosed: bool,
                   hasUpper: bool, upper: nat, upperClosed: bool, a: nat, b: nat)
    requires forall k: nat :: LowersHold(conds, |conds|, k) <==> AboveLimit(hasLower, lower, lowerClosed, k)
    requires forall k: nat :: UppersHold(conds, |conds|, k) <==> BelowLimit(hasUpper, upper, upperClosed, k)
    requires hasLower && hasUpper ==> lower < upper || (lower == upper && lowerClosed && upperClosed)
    requires LowerPlace(es, hasLower, lower, lowerClosed, a) && UpperPlace(es, hasUpper, upper, upperClosed, b)
    ensures a <= b <= |es|
    ensures Leading(conds) == 0 && !Crossed(conds[0..]) ==> Bounded(es, conds, a, b)
  {
    if b < |es| && a <= |es| {
      assert es[b].key == es[b].key;
    }
    forall x | 0 <= x < |es| && KeyPasses(conds, es[x].key)
      ensures a <= x < b
    {
      LimitsHold(conds, |conds|, es[x].key);
    }
  }

  lemma WholeRange(es: seq<Entry>, conds: seq<Cond>)
    ensures Crossed(conds[Leading(conds)..]) ==> Bounded(es, conds, 0, |es|)
  {
  }

  /** The places between which `beginTuple` scans, unless it writes past its key buffer. */
  method Bounds(ih: IxIndexHandle, conds: seq<Cond>, ghost col: nat)
    returns (ok: bool, lower: Iid, upper: Iid, ghost i: nat, ghost k: nat)
    requires ih.Valid() && OneColumn(conds, col)
    ensures ok <==> InKey(conds)
    ensures Place(ih.tree, i, lower) && Place(ih.tree, k, upper)
    ensures Pos(ih.tree, i, lower) <= Pos(ih.tree, k, upper) <= |Flat(ih.tree)|
    ensures ok ==> Bounded(Flat(ih.tree), conds, Pos(ih.tree, i, lower), Pos(ih.tree, k, upper))
  {
    hide Flat, Pos, Place, FirstAtLeast, FirstAbove, Encloses, LowersHold, UppersHold, AboveLimit, BelowLimit, Crossed,
      HasLimit, TightLower, TightUpper, Bounded;
    lower := LeafBegin(ih);
    i := 0;
    upper, k := LeafEnd(ih);
    WholeRange(Flat(ih.tree), conds);
    var first, key := 0, 0;
    while first < |conds| && conds[first].op == EQ
      invariant first <= |conds| && first <= 1 && first <= Leading(conds)
      invariant first == 1 ==> key == conds[0].val
    {
      if first == 1 {
        return false, lower, upper, i, k;
      }
      key := conds[first].val;
      first := first + 1;
    }
    assert first == Leading(conds);
    if first == |conds| {
      assert conds[1..] == [];
      NoLimit();
      lower, i := LowerBoundIn(ih, key);
      upper, k := UpperBoundIn(ih, key);
      EqualRange(Flat(ih.tree), conds, key, Pos(ih.tree, i, lower), Pos(ih.tree, k, upper));
      return true, lower, upper, i, k;
    }
    var hasLower, low, lowClosed, hasUpper, up, upClosed := Limits(conds[first..]);
    CrossedLimits(conds[first..], hasLower, low, lowClosed, hasUpper, up, upClosed);
    if hasLower && hasUpper && (low > up || (low == up && !(lowClosed && upClosed))) {
      return true, lower, upper, i, k;
    }
    if first == 1 && (hasLower || hasUpper) {
      return false, lower, upper, i, k;
    }
    if first == 1 {
      lower, i := LowerBoundIn(ih, key);
      upper, k := UpperBoundIn(ih, key);
      EqualRange(Flat(ih.tree), conds, key, Pos(ih.tree, i, lower), Pos(ih.tree, k, upper));
      return true, lower, upper, i, k;
    }
    if hasLower {
      if lowClosed {
        lower, i := LowerBoundIn(ih, low);
      } else {
        lower, i := UpperBoundIn(ih, low);
      }
    }
    if hasUpper {
      if upClosed {
        upper, k := UpperBoundIn(ih, up);
      } else {
        upper, k := LowerBoundIn(ih, up);
      }
    }
    assert conds[0..] == conds;
    LimitRange(Flat(ih.tree), conds, hasLower, low, lowClosed, hasUpper, up, upClosed, Pos(ih.tree, i, lower),
      Pos(ih.tree, k, upper));
    ok := true;
  }

  lemma NoLimit()
    ensures !HasLimit([]) && !Crossed([])
  {
  }

  // ---- the executor

  lemma BehindFlat(t: Tree, table: map<Rid, Row>, col: nat)
    requires Shape(t) && Order(t, NO_PAGE) && Indexes(MapOf(Flat(t)), table, col)
    ensures |t.lv| > 0 && Behind(Flat(t), table, col) && SortedEnts(Flat(t))
  {
    var es := Flat(t);
    forall x | 0 <= x < |es|
      ensures es[x].rid in table && col < |table[es[x].rid]| && table[es[x].rid][col] == es[x].key
    {
      MapAt(es, x);
    }
  }

  /** Scanning the enclosed part finds all rows that pass. */
  lemma EnclosedEnough(es: seq<Entry>, table: map<Rid, Row>, conds: seq<Cond>, idx: seq<Cond>, col: nat, a: nat, b: nat)
    requires Behind(es, table, col) && Encloses(es, idx, a, b) && OneColumn(idx, col)
    requires forall c :: c in idx ==> c in conds
    ensures Filtered(es[a..b], table, conds) == Filtered(es, table, conds)
  {
    forall x | 0 <= x < |es| && Passes(es[x], table, conds)
      ensures a <= x < b
    {
      var row := table[es[x].rid];
      forall y | 0 <= y < |idx|
        ensures Compare(idx[y].op, es[x].key, idx[y].val)
      {
        assert idx[y] in conds;
        var z :| 0 <= z < |conds| && conds[z] == idx[y];
        assert Test(conds[z], row);
      }
      assert KeyPasses(idx, es[x].key);
    }
    FilteredNone(es[..a], table, conds);
    FilteredNone(es[b..], table, conds);
    FilteredConcat(es[..a], es[a..b], table, conds);
    FilteredConcat(es[..b], es[b..], table, conds);
    assert es[..a] + es[a..b] == es[..b] && es[..b] + es[b..] == es;
  }

  class IndexScanExecutor {
    const ih: IxIndexHandle
    const table: map<Rid, Row>
    const col: nat
    const conds: seq<Cond>
    const idxConds: seq<Cond>
    var rid: Rid

    /** The index agrees with the table, and its conditions are among the scan's. */
    ghost predicate Ready()
      reads this, ih
    {
      && ih.Valid() && Indexes(ih.Contents(), table, col)
      && OneColumn(idxConds, col) && forall c :: c in idxConds ==> c in conds
    }

    constructor (ih: IxIndexHandle, table: map<Rid, Row>, col: nat, conds: seq<Cond>, idxConds: seq<Cond>)
      requires ih.Valid() && Indexes(ih.Contents(), table, col)
      requires OneColumn(idxConds, col) && forall c :: c in idxConds ==> c in conds
      ensures Ready() && this.ih == ih && this.table == table && this.col == col && this.conds == conds
    {
      this.ih, this.table, this.col, this.conds, this.idxConds := ih, table, col, conds, idxConds;
      rid := Rid(-1, -1);
    }

    /** What the executor has yet to give, and where it stands. */
    ghost function Pending(scan: Scan): seq<Rid>
      reads this, ih, scan
      requires Ready() && scan.ih == ih && scan.Valid()
    {
      Filtered(scan.Rest(), table, conds)
    }

    ghost predicate AtTuple(scan: Scan)
      reads this, ih, scan
      requires Ready() && scan.ih == ih && scan.Valid()
    {
      scan.Rest() != [] ==> Passes(scan.Rest()[0], table, conds) && rid == scan.Rest()[0].rid
    }

    /** Skips entries whose rows fail a condition. */
    method SkipToTuple(scan: Scan)
      requires Ready() && scan.ih == ih && scan.Valid() && Behind(scan.Rest(), table, col)
      modifies this`rid, scan
      ensures Ready() && scan.Valid() && Behind(scan.Rest(), table, col)
      ensures Pending(scan) == old(Pending(scan)) && AtTuple(scan)
    {
      hide Indexes, Flat, Shape, Order, Occupied;
      var end := scan.IsEnd();
      while !end
        invariant Ready() && scan.Valid() && Behind(scan.Rest(), table, col)
        invariant end <==> scan.Rest() == []
        invariant Pending(scan) == old(Pending(scan))
        decreases |scan.Rest()|
      {
        var r := scan.CurrentRid();
        var record := table[r];
        if TestAll(conds, record) {
          rid := r;
          return;
        }
        scan.Next();
        end := scan.IsEnd();
      }
    }

    /** Starts the scan, unless the values of its conditions do not fit in the key buffer. */
    method BeginTuple() returns (ok: bool, scan: Scan)
      requires Ready()
      modifies this`rid
      ensures ok <==> InKey(idxConds)
      ensures Ready() && fresh(scan) && scan.ih == ih && scan.Valid() && Behind(scan.Rest(), table, col)
      ensures ok ==> Pending(scan) == Filtered(Flat(ih.tree), table, conds) && AtTuple(scan)
    {
      hide Indexes, Flat, Shape, Order, Occupied, Encloses, Behind, OneColumn, Filtered, Pos, Place, InKey;
      var lower, upper;
      ghost var i, k;
      ok, lower, upper, i, k := Bounds(ih, idxConds, col);
      BehindFlat(ih.tree, table, col);
      ghost var es, a, b := Flat(ih.tree), Pos(ih.tree, i, lower), Pos(ih.tree, k, upper);
      if ok {
        EnclosedEnough(es, table, conds, idxConds, col, a, b);
      }
      BehindPart(es, table, col, a, b);
      scan := new Scan(ih, lower, upper, i, k);
      SkipToTuple(scan);
    }

    method NextTuple(scan: Scan)
      requires Ready() && scan.ih == ih && scan.Valid() && Behind(scan.Rest(), table, col)
      requires AtTuple(scan) && scan.Rest() != []
      modifies this`rid, scan
      ensures Ready() && scan.Valid() && Behind(scan.Rest(), table, col)
      ensures Pending(scan) == old(Pending(scan))[1..] && AtTuple(scan)
    {
      hide Indexes, Flat, Shape, Order, Occupied;
      scan.Next();
      SkipToTuple(scan);
    }

    /** Runs the scan to its end. If the values of its conditions fit in the key buffer, it gives every
        row of the table that passes the conditions, each once, in rising order of the indexed column. */
    method Run() returns (ok: bool, out: seq<Rid>)
      requires Ready()
      modifies this`rid
      ensures Ready() && (ok <==> InKey(idxConds))
      ensures ok ==> forall r :: r in out <==> r in table && TestAll(conds, table[r])
      ensures ok ==> Rising(out, table, col)
    {
      hide Indexes, Flat, Shape, Order, Occupied, Filtered, Behind, Rising, Passes, TestAll, MapOf, OneColumn, InKey,
        Scan.Valid, Scan.Rest;
      BehindFlat(ih.tree, table, col);
      ghost var all := Flat(ih.tree);
      FilteredRises(all, table, conds, col);
      FullScan(all, table, conds, col);
      var scan;
      ok, scan := BeginTuple();
      out := [];
      if !ok {
        return;
      }
      var end := scan.IsEnd();
      while !end
        invariant Ready() && fresh(scan) && scan.ih == ih && scan.Valid() && Behind(scan.Rest(), table, col)
        invariant AtTuple(scan) && (end <==> scan.Rest() == [])
        invariant out + Pending(scan) == Filtered(all, table, conds)
        decreases |Pending(scan)|
      {
        FilteredNext(scan.Rest(), table, conds);
        out := out + [rid];
        NextTuple(scan);
        end := scan.IsEnd();
      }
      FilteredNext(scan.Rest(), table, conds);
      assert out == Filtered(all, table, conds);
    }
  }

  /** `x = 1 AND x > 0` and `x = 1 AND x = 2` do not fit in the key buffer of an index on `x`; `x > 0 AND x = 1`
      and `x = 1 AND x <> 2` do. */
  lemma EqualityFirst(col: nat)
    ensures !InKey([Cond(col, EQ, 1), Cond(col, GT, 0)]) && !InKey([Cond(col, EQ, 1), Cond(col, EQ, 2)])
    ensures InKey([Cond(col, GT, 0), Cond(col, EQ, 1)]) && InKey([Cond(col, EQ, 1), Cond(col, NE, 2)])
  {
    var eq, gt, two, ne := Cond(col, EQ, 1), Cond(col, GT, 0), Cond(col, EQ, 2), Cond(col, NE, 2);
    assert [eq, gt][1..] == [gt] && [eq, two][1..] == [two] && [two][1..] == [] && [eq, ne][1..] == [ne];
    assert Leading([eq, gt]) == 1 && Leading([eq, two]) == 2 && Leading([eq, ne]) == 1;
    assert [gt][0] == gt && HasLimit([gt]);
  }

  /** Running the first of them. */
  method EqualityThenRange(e: IndexScanExecutor) returns (ok: bool, out: seq<Rid>)
    requires e.Ready() && e.idxConds == [Cond(e.col, EQ, 1), Cond(e.col, GT, 0)]
    modifies e
    ensures !ok
  {
    EqualityFirst(e.col);
    ok, out := e.Run();
  }

  lemma BehindPart(es: seq<Entry>, table: map<Rid, Row>, col: nat, a: nat, b: nat)
    requires Behind(es, table, col) && a <= b <= |es|
    ensures Behind(es[a..b], table, col)
  {
  }

  /** Filtering the entries of an agreeing index is filtering the table. */
  lemma FullScan(es: seq<Entry>, table: map<Rid, Row>, conds: seq<Cond>, col: nat)
    requires SortedEnts(es) && Behind(es, table, col) && Indexes(MapOf(es), table, col)
    ensures forall r :: r in Filtered(es, table, conds) <==> r in table && TestAll(conds, table[r])
  {
    forall r | r in table
      ensures exists y :: 0 <= y < |es| && es[y].rid == r
    {
      MapHas(es, table[r][col]);
      var y :| 0 <= y < |es| && es[y].key == table[r][col];
      MapAt(es, y);
    }
    forall r: Rid
      ensures r in Filtered(es, table, conds) <==> r in table && TestAll(conds, table[r])
    {
      FilteredHas(es, table, conds, r);
    }
  }
}
