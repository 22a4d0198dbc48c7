/** Moving entries or children between two neighbours of one level (`redistribute`). The
    neighbours may have different parents. */
module IxShift {
  import opened Common
  import opened IxLevels
  import opened IxShape
  import opened IxEdit

  // ---- two neighbours of a row

  lemma Assoc<T>(a: seq<T>, b: seq<T>, c: seq<T>, d: seq<T>)
    ensures a + b + (c + d) == a + (b + c) + d
  {
  }

  lemma EntsPair(pg: Pages, row: seq<int>, i: nat)
    requires i + 1 < |row|
    ensures Ents(pg, row)
         == Ents(pg, row[..i]) + (EntsOf(pg, row[i]) + EntsOf(pg, row[i + 1])) + Ents(pg, row[i + 2..])
  {
    EntsAround(pg, row, i);
    var rest := row[i + 1..];
    assert rest[0] == row[i + 1] && rest[1..] == row[i + 2..];
    Assoc(Ents(pg, row[..i]), EntsOf(pg, row[i]), EntsOf(pg, row[i + 1]), Ents(pg, row[i + 2..]));
  }

  lemma KidsPair(pg: Pages, row: seq<int>, i: nat)
    requires i + 1 < |row|
    ensures Kids(pg, row)
         == Kids(pg, row[..i]) + (KidsOf(pg, row[i]) + KidsOf(pg, row[i + 1])) + Kids(pg, row[i + 2..])
  {
    KidsAround(pg, row, i);
    var rest := row[i + 1..];
    assert rest[0] == row[i + 1] && rest[1..] == row[i + 2..];
    Assoc(Kids(pg, row[..i]), KidsOf(pg, row[i]), KidsOf(pg, row[i + 1]), Kids(pg, row[i + 2..]));
  }

  lemma SepsPair(pg: Pages, row: seq<int>, ss: seq<nat>, i: nat)
    requires i + 1 < |row| == |ss|
    ensures Seps(pg, row, ss)
         == Seps(pg, row[..i], ss[..i])
          + (([ss[i]] + KeysOf(pg, row[i])) + ([ss[i + 1]] + KeysOf(pg, row[i + 1])))
          + Seps(pg, row[i + 2..], ss[i + 2..])
  {
    SepsAround(pg, row, ss, i);
    var rest, rs := row[i + 1..], ss[i + 1..];
    assert rest[0] == row[i + 1] && rest[1..] == row[i + 2..];
    assert rs[0] == ss[i + 1] && rs[1..] == ss[i + 2..];
    Assoc(Seps(pg, row[..i], ss[..i]), [ss[i]] + KeysOf(pg, row[i]), [ss[i + 1]] + KeysOf(pg, row[i + 1]),
          Seps(pg, row[i + 2..], ss[i + 2..]));
  }

  lemma PairParts(row: seq<int>, i: nat)
    requires NoDup(row) && i + 1 < |row|
    ensures row[i] !in row[..i] && row[i] !in row[i + 2..]
    ensures row[i + 1] !in row[..i] && row[i + 1] !in row[i + 2..]
    ensures row[i] != row[i + 1]
  {
  }

  function SetPair(pg: Pages, l: int, nl: Node, r: int, nr: Node): Pages {
    pg[l := nl][r := nr]
  }

  lemma EntsSetPair(pg: Pages, row: seq<int>, i: nat, nl: Node, nr: Node)
    requires NoDup(row) && i + 1 < |row|
    ensures Ents(SetPair(pg, row[i], nl, row[i + 1], nr), row)
         == Ents(pg, row[..i]) + (nl.EntList() + nr.EntList()) + Ents(pg, row[i + 2..])
  {
    PairParts(row, i);
    EntsPair(SetPair(pg, row[i], nl, row[i + 1], nr), row, i);
    EntsSkip(pg, row[i], nl, row[..i]);
    EntsSkip(pg[row[i] := nl], row[i + 1], nr, row[..i]);
    EntsSkip(pg, row[i], nl, row[i + 2..]);
    EntsSkip(pg[row[i] := nl], row[i + 1], nr, row[i + 2..]);
  }

  lemma KidsSetPair(pg: Pages, row: seq<int>, i: nat, nl: Node, nr: Node)
    requires NoDup(row) && i + 1 < |row|
    ensures Kids(SetPair(pg, row[i], nl, row[i + 1], nr), row)
         == Kids(pg, row[..i]) + (nl.KidList() + nr.KidList()) + Kids(pg, row[i + 2..])
  {
    PairParts(row, i);
    KidsPair(SetPair(pg, row[i], nl, row[i + 1], nr), row, i);
    KidsSkip(pg, row[i], nl, row[..i]);
    KidsSkip(pg[row[i] := nl], row[i + 1], nr, row[..i]);
    KidsSkip(pg, row[i], nl, row[i + 2..]);
    KidsSkip(pg[row[i] := nl], row[i + 1], nr, row[i + 2..]);
  }

  lemma SepsSetPair(pg: Pages, row: seq<int>, ss: seq<nat>, i: nat, nl: Node, nr: Node)
    requires NoDup(row) && i + 1 < |row| == |ss|
    ensures Seps(SetPair(pg, row[i], nl, row[i + 1], nr), row, ss)
         == Seps(pg, row[..i], ss[..i])
          + (([ss[i]] + nl.KeyList()) + ([ss[i + 1]] + nr.KeyList()))
          + Seps(pg, row[i + 2..], ss[i + 2..])
  {
    PairParts(row, i);
    SepsPair(SetPair(pg, row[i], nl, row[i + 1], nr), row, ss, i);
    SepsSkip(pg, row[i], nl, row[..i], ss[..i]);
    SepsSkip(pg[row[i] := nl], row[i + 1], nr, row[..i], ss[..i]);
    SepsSkip(pg, row[i], nl, row[i + 2..], ss[i + 2..]);
    SepsSkip(pg[row[i] := nl], row[i + 1], nr, row[i + 2..], ss[i + 2..]);
  }

  // ---- leaves

  /** The two leaves with their joint entries divided anew after `m` entries. */
  function ShareEnts(pg: Pages, l: int, r: int, m: nat): Pages
    requires l in pg && r in pg && pg[l].Leaf? && pg[r].Leaf? && m <= |pg[l].ents| + |pg[r].ents|
  {
    var x := pg[l].ents + pg[r].ents;
    SetPair(pg, l, pg[l].(ents := x[..m]), r, pg[r].(ents := x[m..]))
  }

  lemma ShareLinks(pg: Pages, l: int, r: int, m: nat)
    requires l in pg && r in pg && pg[l].Leaf? && pg[r].Leaf? && m <= |pg[l].ents| + |pg[r].ents|
    ensures SameLinks(pg, ShareEnts(pg, l, r, m))
    ensures forall p :: p in pg ==> KeysOf(pg, p) == KeysOf(ShareEnts(pg, l, r, m), p)
  {
  }

  lemma ShareLeafOrder(pg: Pages, row: seq<int>, ss: seq<nat>, i: nat, m: nat)
    requires LeafOrder(pg, row, ss, NO_PAGE) && NoDup(row) && i + 1 < |row|
    requires row[i] in pg && row[i + 1] in pg && pg[row[i]].Leaf? && pg[row[i + 1]].Leaf?
    requires 0 < m < |pg[row[i]].ents| + |pg[row[i + 1]].ents|
    ensures LeafOrder(ShareEnts(pg, row[i], row[i + 1], m), row, ss, i + 1)
  {
    var pg' := ShareEnts(pg, row[i], row[i + 1], m);
    PairParts(row, i);
    forall k | 0 < k < |row| && k != i + 1
      ensures SepFits(pg', row, k, ss[k])
    {
      assert SepFits(pg, row, k, ss[k]);
    }
  }

  lemma ShareEntsRow(pg: Pages, row: seq<int>, i: nat, m: nat)
    requires NoDup(row) && i + 1 < |row|
    requires row[i] in pg && row[i + 1] in pg && pg[row[i]].Leaf? && pg[row[i + 1]].Leaf?
    requires m <= |pg[row[i]].ents| + |pg[row[i + 1]].ents|
    ensures Ents(ShareEnts(pg, row[i], row[i + 1], m), row) == Ents(pg, row)
  {
    var x := pg[row[i]].ents + pg[row[i + 1]].ents;
    assert x[..m] + x[m..] == x;
    EntsSetPair(pg, row, i, pg[row[i]].(ents := x[..m]), pg[row[i + 1]].(ents := x[m..]));
    EntsPair(pg, row, i);
  }

  /** Sharing the entries of two neighbour leaves keeps the entries of the tree; only the
      separator of the right leaf may be stale. */
  lemma ShareLeaves(t: Tree, i: nat, m: nat)
    requires Shape(t) && Order(t, NO_PAGE) && i + 1 < |t.lv[0]|
    requires 0 < m < |EntsOf(t.pg, t.lv[0][i])| + |EntsOf(t.pg, t.lv[0][i + 1])|
    ensures t.lv[0][i] in t.pg && t.lv[0][i + 1] in t.pg && t.pg[t.lv[0][i]].Leaf? && t.pg[t.lv[0][i + 1]].Leaf?
    ensures var t' := t.(pg := ShareEnts(t.pg, t.lv[0][i], t.lv[0][i + 1], m));
            && Shape(t') && Order(t', i + 1)
            && Ents(t'.pg, t.lv[0]) == Ents(t.pg, t.lv[0])
  {
    var row := t.lv[0];
    assert RowOK(t.pg, row, true);
    var pg' := ShareEnts(t.pg, row[i], row[i + 1], m);
    assert Shape(t.(pg := pg')) && LeafSeps(t.(pg := pg')) == LeafSeps(t) by {
      ShareLinks(t.pg, row[i], row[i + 1], m);
      EntsOnlyFrame(t, pg');
    }
    ShareEntsRow(t.pg, row, i, m);
    ShareLeafOrder(t.pg, row, LeafSeps(t), i, m);
  }

  // ---- inner pages

  /** Page maps that differ only in parent and neighbour links. */
  ghost predicate SameData(pg: Pages, pg': Pages) {
    && pg.Keys == pg'.Keys
    && forall p :: p in pg ==>
         && pg[p].Leaf? == pg'[p].Leaf?
         && pg[p].KidList() == pg'[p].KidList()
         && pg[p].KeyList() == pg'[p].KeyList()
         && pg[p].EntList() == pg'[p].EntList()
  }

  lemma SameDataAt(pg: Pages, pg': Pages, p: int)
    requires SameData(pg, pg')
    ensures KidsOf(pg, p) == KidsOf(pg', p) && KeysOf(pg, p) == KeysOf(pg', p) && EntsOf(pg, p) == EntsOf(pg', p)
  {
    if p !in pg {
      assert p !in pg';
    }
  }

  lemma SameDataRow(pg: Pages, pg': Pages, row: seq<int>, ss: seq<nat>)
    requires SameData(pg, pg')
    ensures Kids(pg, row) == Kids(pg', row)
    ensures Seps(pg, row, ss) == Seps(pg', row, ss)
    ensures Ents(pg, row) == Ents(pg', row)
    ensures InnerRow(pg, row) == InnerRow(pg', row)
  {
    forall i | 0 <= i < |row|
      ensures KidsOf(pg, row[i]) == KidsOf(pg', row[i]) && KeysOf(pg, row[i]) == KeysOf(pg', row[i])
      ensures EntsOf(pg, row[i]) == EntsOf(pg', row[i])
    {
      SameDataAt(pg, pg', row[i]);
    }
    KidsFrame(pg, pg', row);
    SepsFrame(pg, pg', row, ss);
    EntsFrame(pg, pg', row);
  }

  lemma {:induction false} SameDataDown(pg: Pages, pg': Pages, lv: seq<seq<int>>, L: nat, ss: seq<nat>)
    requires SameData(pg, pg') && L < |lv|
    ensures Down(pg, lv, L, ss) == Down(pg', lv, L, ss)
  {
    if L == 0 {
    } else {
      SameDataRow(pg, pg', lv[L], ss);
      SameDataDown(pg, pg', lv, L - 1, Seps(pg, lv[L], ss));
    }
  }

  lemma SameDataTall(t: Tree, pg': Pages)
    requires SameData(t.pg, pg') && Tall(t)
    ensures Tall(t.(pg := pg'))
  {
    forall L | 0 < L < |t.lv|
      ensures StackedAt(pg', t.lv, L)
    {
      assert StackedAt(t.pg, t.lv, L);
      SameDataRow(t.pg, pg', t.lv[L], []);
    }
  }

  /** An inner page with new contents and the same links. */
  ghost predicate Reshaped(n: Node, n': Node) {
    && n.Inner? && n'.Inner?
    && n.parent == n'.parent && n.prev == n'.prev && n.next == n'.next
    && |n'.kids| == |n'.keys| + 1
  }

  /** The neighbours `i` and `i + 1` of level `L` with their joint children divided anew. */
  ghost predicate Divided(t: Tree, L: nat, i: nat, nl: Node, nr: Node) {
    && 0 < L < |t.lv| && i + 1 < |t.lv[L]|
    && Reshaped(At(t.pg, t.lv[L][i]), nl) && Reshaped(At(t.pg, t.lv[L][i + 1]), nr)
    && nl.kids + nr.kids == KidsOf(t.pg, t.lv[L][i]) + KidsOf(t.pg, t.lv[L][i + 1])
  }

  lemma DividedRow(pg: Pages, row: seq<int>, i: nat, nl: Node, nr: Node)
    requires NoDup(row) && InnerRow(pg, row) && i + 1 < |row|
    requires nl.Inner? && nr.Inner? && |nl.kids| == |nl.keys| + 1 && |nr.kids| == |nr.keys| + 1
    requires nl.kids + nr.kids == KidsOf(pg, row[i]) + KidsOf(pg, row[i + 1])
    ensures InnerRow(SetPair(pg, row[i], nl, row[i + 1], nr), row)
    ensures Kids(SetPair(pg, row[i], nl, row[i + 1], nr), row) == Kids(pg, row)
  {
    KidsSetPair(pg, row, i, nl, nr);
    KidsPair(pg, row, i);
  }

  lemma DividedTall(t: Tree, L: nat, i: nat, nl: Node, nr: Node)
    requires Shape(t) && Divided(t, L, i, nl, nr)
    ensures Tall(t.(pg := SetPair(t.pg, t.lv[L][i], nl, t.lv[L][i + 1], nr)))
  {
    var l, r := t.lv[L][i], t.lv[L][i + 1];
    var pg' := SetPair(t.pg, l, nl, r, nr);
    assert t.lvl[l] == L && t.lvl[r] == L;
    forall M | 0 < M < |t.lv|
      ensures StackedAt(pg', t.lv, M)
    {
      assert StackedAt(t.pg, t.lv, M);
      if M == L {
        assert RowOK(t.pg, t.lv[L], false);
        DividedRow(t.pg, t.lv[L], i, nl, nr);
      } else {
        NotOnLevel(t, l, M);
        NotOnLevel(t, r, M);
        KidsSkip(t.pg, l, nl, t.lv[M]);
        KidsSkip(t.pg[l := nl], r, nr, t.lv[M]);
      }
    }
  }

  lemma SetParentData(pg: Pages, c: int, u: int)
    requires c in pg
    ensures SameData(pg, pg[c := pg[c].(parent := u)])
  {
  }

  /** Dividing anew, then handing child `c` over to its new parent `u`. */
  function Hand(pg: Pages, l: int, nl: Node, r: int, nr: Node, c: int, u: int): Pages
    requires c in SetPair(pg, l, nl, r, nr)
  {
    var pg1 := SetPair(pg, l, nl, r, nr);
    pg1[c := pg1[c].(parent := u)]
  }

  /** `c` is a child of one of the two, and after the change every child of the two knows its parent. */
  ghost predicate HandsOver(t: Tree, L: nat, i: nat, nl: Node, nr: Node, c: int, u: int) {
    && Divided(t, L, i, nl, nr)
    && c in t.pg && c in t.lvl && t.lvl[c] == L - 1
    && (t.pg[c].parent == t.lv[L][i] || t.pg[c].parent == t.lv[L][i + 1])
    && (forall j :: 0 <= j < |nl.kids| ==> (if nl.kids[j] == c then u else At(t.pg, nl.kids[j]).parent) == t.lv[L][i])
    && (forall j :: 0 <= j < |nr.kids| ==>
       (if nr.kids[j] == c then u else At(t.pg, nr.kids[j]).parent) == t.lv[L][i + 1])
  }

  lemma HandLinks(pg: Pages, l: int, nl: Node, r: int, nr: Node, c: int, u: int, p: int)
    requires l in pg && r in pg && c in pg && p in pg
    requires Reshaped(pg[l], nl) && Reshaped(pg[r], nr) && l != r && l != c && r != c
    ensures Hand(pg, l, nl, r, nr, c, u).Keys == pg.Keys
    ensures var n := Hand(pg, l, nl, r, nr, c, u)[p];
            && n.Leaf? == pg[p].Leaf? && n.prev == pg[p].prev && n.next == pg[p].next
            && n.parent == (if p == c then u else pg[p].parent)
            && n.KidList() == (if p == l then nl.kids else if p == r then nr.kids else pg[p].KidList())
            && n.EntList() == pg[p].EntList()
  {
  }

  lemma KidLevel(t: Tree, M: nat, x: nat, y: nat)
    requires Tall(t) && LevelsOK(t) && 0 < M < |t.lv| && x < |t.lv[M]| && y < |KidsOf(t.pg, t.lv[M][x])|
    ensures KidsOf(t.pg, t.lv[M][x])[y] in t.pg
    ensures t.lvl[KidsOf(t.pg, t.lv[M][x])[y]] == M - 1
  {
    assert StackedAt(t.pg, t.lv, M);
    KidAt(t.pg, t.lv[M], x, y);
    assert t.lv[M - 1][Off(t.pg, t.lv[M], x) + y] in t.lvl;
  }

  lemma HandParents(t: Tree, L: nat, i: nat, nl: Node, nr: Node, c: int, u: int, M: nat)
    requires Shape(t) && HandsOver(t, L, i, nl, nr, c, u) && 0 < M < |t.lv|
    ensures ParentsOK(Hand(t.pg, t.lv[L][i], nl, t.lv[L][i + 1], nr, c, u), t.lv[M])
  {
    var l, r := t.lv[L][i], t.lv[L][i + 1];
    var pg' := Hand(t.pg, l, nl, r, nr, c, u);
    assert RowOK(t.pg, t.lv[L], false) && t.lvl[l] == L && t.lvl[r] == L;
    forall x, y | 0 <= x < |t.lv[M]| && 0 <= y < |KidsOf(pg', t.lv[M][x])|
      ensures At(pg', KidsOf(pg', t.lv[M][x])[y]).parent == t.lv[M][x]
    {
      var p := t.lv[M][x];
      assert t.lvl[p] == M;
      HandLinks(t.pg, l, nl, r, nr, c, u, p);
      if p == l || p == r {
        HandKid(t, L, i, nl, nr, c, u, p, y);
      } else {
        KidLevel(t, M, x, y);
        var d := KidsOf(t.pg, p)[y];
        assert ParentsOK(t.pg, t.lv[M]);
        assert At(t.pg, d).parent == p;
        HandLinks(t.pg, l, nl, r, nr, c, u, d);
      }
    }
  }

  lemma HandKid(t: Tree, L: nat, i: nat, nl: Node, nr: Node, c: int, u: int, p: int, y: nat)
    requires Shape(t) && HandsOver(t, L, i, nl, nr, c, u)
    requires (p == t.lv[L][i] && y < |nl.kids|) || (p == t.lv[L][i + 1] && y < |nr.kids|)
    ensures var pg' := Hand(t.pg, t.lv[L][i], nl, t.lv[L][i + 1], nr, c, u);
            && y < |KidsOf(pg', p)| && At(pg', KidsOf(pg', p)[y]).parent == p
  {
    var l, r := t.lv[L][i], t.lv[L][i + 1];
    assert RowOK(t.pg, t.lv[L], false) && t.lvl[l] == L && t.lvl[r] == L;
    var both := nl.kids + nr.kids;
    var z := if p == l then y else |nl.kids| + y;
    var d := both[z];
    assert d == (KidsOf(t.pg, l) + KidsOf(t.pg, r))[z];
    if z < |KidsOf(t.pg, l)| {
      KidLevel(t, L, i, z);
    } else {
      KidLevel(t, L, i + 1, z - |KidsOf(t.pg, l)|);
    }
    HandLinks(t.pg, l, nl, r, nr, c, u, p);
    HandLinks(t.pg, l, nl, r, nr, c, u, d);
  }

  lemma HandRows(t: Tree, L: nat, i: nat, nl: Node, nr: Node, c: int, u: int, M: nat)
    requires Shape(t) && HandsOver(t, L, i, nl, nr, c, u) && M < |t.lv|
    ensures RowOK(Hand(t.pg, t.lv[L][i], nl, t.lv[L][i + 1], nr, c, u), t.lv[M], M == 0)
  {
    var l, r := t.lv[L][i], t.lv[L][i + 1];
    var pg' := Hand(t.pg, l, nl, r, nr, c, u);
    assert RowOK(t.pg, t.lv[L], false) && t.lvl[l] == L && t.lvl[r] == L;
    assert RowOK(t.pg, t.lv[M], M == 0);
    forall k | 0 <= k < |t.lv[M]|
      ensures var p := t.lv[M][k];
              p in pg' && pg'[p].Leaf? == t.pg[p].Leaf? && pg'[p].prev == t.pg[p].prev && pg'[p].next == t.pg[p].next
    {
      HandLinks(t.pg, l, nl, r, nr, c, u, t.lv[M][k]);
    }
    RowFrame(t.pg, pg', t.lv[M], M == 0);
  }

  /** Handing children over between neighbours keeps the shape. */
  lemma HandShape(t: Tree, L: nat, i: nat, nl: Node, nr: Node, c: int, u: int)
    requires Shape(t) && HandsOver(t, L, i, nl, nr, c, u)
    ensures Shape(t.(pg := Hand(t.pg, t.lv[L][i], nl, t.lv[L][i + 1], nr, c, u)))
  {
    var l, r := t.lv[L][i], t.lv[L][i + 1];
    var pg1, pg' := SetPair(t.pg, l, nl, r, nr), Hand(t.pg, l, nl, r, nr, c, u);
    assert RowOK(t.pg, t.lv[L], false) && t.lvl[l] == L && t.lvl[r] == L;
    assert Tall(t.(pg := pg')) by {
      DividedTall(t, L, i, nl, nr);
      SetParentData(pg1, c, u);
      SameDataTall(t.(pg := pg1), pg');
    }
    forall M | 0 <= M < |t.lv|
      ensures RowOK(pg', t.lv[M], M == 0)
    {
      HandRows(t, L, i, nl, nr, c, u, M);
    }
    forall M | 0 < M < |t.lv|
      ensures ParentsOK(pg', t.lv[M])
    {
      HandParents(t, L, i, nl, nr, c, u, M);
    }
    HandLinks(t.pg, l, nl, r, nr, c, u, Root(t));
  }

  lemma HandBelow(t: Tree, L: nat, i: nat, nl: Node, nr: Node, c: int, u: int, M: nat, k: nat)
    requires Shape(t) && HandsOver(t, L, i, nl, nr, c, u) && M < |t.lv| && M != L && k < |t.lv[M]|
    ensures var pg' := Hand(t.pg, t.lv[L][i], nl, t.lv[L][i + 1], nr, c, u);
            && KidsOf(pg', t.lv[M][k]) == KidsOf(t.pg, t.lv[M][k])
            && KeysOf(pg', t.lv[M][k]) == KeysOf(t.pg, t.lv[M][k])
            && EntsOf(pg', t.lv[M][k]) == EntsOf(t.pg, t.lv[M][k])
  {
    OtherLevel(t, L, i, M, k);
    OtherLevel(t, L, i + 1, M, k);
  }

  /** Changing two neighbours of level `L` leaves the separators above and the way down below alone. */
  lemma PairDown(t: Tree, L: nat, i: nat, nl: Node, nr: Node, ss: seq<nat>)
    requires LevelsOK(t) && 0 < L < |t.lv| && i + 1 < |t.lv[L]|
    ensures var pg' := SetPair(t.pg, t.lv[L][i], nl, t.lv[L][i + 1], nr);
            && SepRow(t.(pg := pg'), L) == SepRow(t, L)
            && Down(pg', t.lv, L - 1, ss) == Down(t.pg, t.lv, L - 1, ss)
  {
    var l, r := t.lv[L][i], t.lv[L][i + 1];
    assert t.lvl[l] == L && t.lvl[r] == L;
    forall M | 0 <= M < |t.lv| && M != L
      ensures l !in t.lv[M] && r !in t.lv[M]
    {
      NotOnLevel(t, l, M);
      NotOnLevel(t, r, M);
    }
    SepRowSkip(t, l, nl, L);
    SepRowSkip(t.(pg := t.pg[l := nl]), r, nr, L);
    DownSkip(t.pg, l, nl, t.lv, L - 1, ss);
    DownSkip(t.pg[l := nl], r, nr, t.lv, L - 1, ss);
  }

  /** The separators of level `L - 1` when pages `i` and `i + 1` of level `L` hold the keys `kl` and `kr`. */
  ghost function PairRow(t: Tree, L: nat, i: nat, kl: seq<nat>, kr: seq<nat>): seq<nat>
    requires 0 < L < |t.lv| && i + 1 < |t.lv[L]| == |SepRow(t, L)|
  {
    var row, ss := t.lv[L], SepRow(t, L);
    Seps(t.pg, row[..i], ss[..i]) + (([ss[i]] + kl) + ([ss[i + 1]] + kr)) + Seps(t.pg, row[i + 2..], ss[i + 2..])
  }

  lemma PairSeps(t: Tree, L: nat, i: nat, nl: Node, nr: Node)
    requires Shape(t) && Divided(t, L, i, nl, nr)
    ensures |SepRow(t, L)| == |t.lv[L]|
    ensures var t' := t.(pg := SetPair(t.pg, t.lv[L][i], nl, t.lv[L][i + 1], nr));
            LeafSeps(t') == Down(t.pg, t.lv, L - 1, PairRow(t, L, i, nl.keys, nr.keys))
  {
    var pg' := SetPair(t.pg, t.lv[L][i], nl, t.lv[L][i + 1], nr);
    var ss' := Seps(pg', t.lv[L], SepRow(t, L));
    SepRowDown(t, L);
    assert ss' == PairRow(t, L, i, nl.keys, nr.keys) by {
      assert RowOK(t.pg, t.lv[L], false);
      SepsSetPair(t.pg, t.lv[L], SepRow(t, L), i, nl, nr);
    }
    PairDown(t, L, i, nl, nr, ss');
    DividedTall(t, L, i, nl, nr);
    SepRowDown(t.(pg := pg'), L - 1);
  }

  /** What handing children over does to the leaf separators. */
  lemma HandSeps(t: Tree, L: nat, i: nat, nl: Node, nr: Node, c: int, u: int)
    requires Shape(t) && HandsOver(t, L, i, nl, nr, c, u)
    ensures |SepRow(t, L)| == |t.lv[L]|
    ensures var t' := t.(pg := Hand(t.pg, t.lv[L][i], nl, t.lv[L][i + 1], nr, c, u));
            LeafSeps(t') == Down(t.pg, t.lv, L - 1, PairRow(t, L, i, nl.keys, nr.keys))
  {
    hide Seps, Kids, SepRow, RowOK, LevelsOK, ParentsOK, Stacked, Down, PairRow;
    var pg1 := SetPair(t.pg, t.lv[L][i], nl, t.lv[L][i + 1], nr);
    PairSeps(t, L, i, nl, nr);
    SetParentData(pg1, c, u);
    SameDataDown(pg1, Hand(t.pg, t.lv[L][i], nl, t.lv[L][i + 1], nr, c, u), t.lv, |t.lv| - 1, [0]);
  }

  lemma HandEnts(t: Tree, L: nat, i: nat, nl: Node, nr: Node, c: int, u: int)
    requires Shape(t) && HandsOver(t, L, i, nl, nr, c, u)
    ensures var pg' := Hand(t.pg, t.lv[L][i], nl, t.lv[L][i + 1], nr, c, u);
            && (forall k :: 0 <= k < |t.lv[0]| ==> EntsOf(t.pg, t.lv[0][k]) == EntsOf(pg', t.lv[0][k]))
            && Ents(pg', t.lv[0]) == Ents(t.pg, t.lv[0])
  {
    var pg' := Hand(t.pg, t.lv[L][i], nl, t.lv[L][i + 1], nr, c, u);
    forall k | 0 <= k < |t.lv[0]|
      ensures EntsOf(t.pg, t.lv[0][k]) == EntsOf(pg', t.lv[0][k])
    {
      HandBelow(t, L, i, nl, nr, c, u, 0, k);
    }
    EntsFrame(t.pg, pg', t.lv[0]);
  }

  /** Where the leaves of the right page begin after the change. */
  lemma HandIdx(t: Tree, L: nat, i: nat, nl: Node, nr: Node, c: int, u: int)
    requires Shape(t) && HandsOver(t, L, i, nl, nr, c, u)
    ensures LeafIdx(Hand(t.pg, t.lv[L][i], nl, t.lv[L][i + 1], nr, c, u), t.lv, L, i + 1)
         == LeafIdx(t.pg, t.lv, L - 1, Off(t.pg, t.lv[L], i) + |nl.kids|)
  {
    var l, r := t.lv[L][i], t.lv[L][i + 1];
    var row := t.lv[L];
    var pg1, pg' := SetPair(t.pg, l, nl, r, nr), Hand(t.pg, l, nl, r, nr, c, u);
    assert RowOK(t.pg, row, false);
    PairParts(row, i);
    assert Kids(pg', row[..i]) == Kids(t.pg, row[..i]) by {
      SetParentData(pg1, c, u);
      SameDataRow(pg1, pg', row[..i], []);
      KidsSkip(t.pg, l, nl, row[..i]);
      KidsSkip(t.pg[l := nl], r, nr, row[..i]);
    }
    OffNext(pg', row, i);
    assert KidsOf(pg', l) == nl.kids by {
      assert t.lvl[l] == L && t.lvl[r] == L;
      HandLinks(t.pg, l, nl, r, nr, c, u, l);
    }
    forall M, k | 0 < M <= L - 1 && 0 <= k < |t.lv[M]|
      ensures KidsOf(pg', t.lv[M][k]) == KidsOf(t.pg, t.lv[M][k])
    {
      HandBelow(t, L, i, nl, nr, c, u, M, k);
    }
    LeafIdxFrame(t.pg, pg', t.lv, t.lv, L - 1, Off(t.pg, row, i) + |nl.kids|);
  }

  lemma MoveHole(pg: Pages, row: seq<int>, ss: seq<nat>, h: nat, h': nat, x: nat)
    requires LeafOrder(pg, row, ss, h) && SortedEnts(Ents(pg, row)) && 0 < h < |row| && 0 < h' < |row|
    ensures EntsOf(pg, row[h]) != []
    ensures LeafOrder(pg, row, ss[h := FirstKey(pg, row[h])][h' := x], h')
  {
    FillHole(pg, row, ss, h);
    var s1 := ss[h := FirstKey(pg, row[h])];
    var s2 := s1[h' := x];
    forall k | 0 < k < |row| && k != h'
      ensures SepFits(pg, row, k, s2[k])
    {
      assert SepFits(pg, row, k, s1[k]);
    }
  }

  lemma LeftSegment(a: seq<nat>, sl: nat, kl: seq<nat>, sr: nat, kr: seq<nat>, k: nat, b: seq<nat>)
    requires |kr| > 0
    ensures var s, y := a + (([sl] + kl) + ([sr] + kr)) + b, |a| + 1 + |kl|;
            a + (([sl] + (kl + [k])) + ([sr] + kr[1..])) + b == s[y := k][y + 1 := sr]
  {
  }

  lemma RightSegment(a: seq<nat>, sl: nat, kl: seq<nat>, sr: nat, kr: seq<nat>, k: nat, b: seq<nat>)
    requires |kl| > 0
    ensures var s, y := a + (([sl] + kl) + ([sr] + kr)) + b, |a| + 1 + |kl|;
            a + (([sl] + kl[..|kl| - 1]) + ([sr] + ([k] + kr))) + b == s[y := k][y - 1 := sr]
  {
  }

  /** The separators of level `L - 1` around the children of pages `i` and `i + 1` of level `L`. */
  lemma SepsOfPair(t: Tree, L: nat, i: nat)
    requires Tall(t) && 0 < L < |t.lv| && i + 1 < |t.lv[L]|
    ensures |SepRow(t, L)| == |t.lv[L]| && |SepRow(t, L - 1)| == |t.lv[L - 1]|
    ensures SepRow(t, L - 1) == PairRow(t, L, i, KeysOf(t.pg, t.lv[L][i]), KeysOf(t.pg, t.lv[L][i + 1]))
    ensures Off(t.pg, t.lv[L], i + 1)
         == |Seps(t.pg, t.lv[L][..i], SepRow(t, L)[..i])| + 1 + |KeysOf(t.pg, t.lv[L][i])|
  {
    var row, ss := t.lv[L], SepRow(t, L);
    SepRowDown(t, L);
    SepRowDown(t, L - 1);
    assert StackedAt(t.pg, t.lv, L);
    SepsPair(t.pg, row, ss, i);
    OffNext(t.pg, row, i);
    assert InnerRow(t.pg, row[..i]);
    SepsLen(t.pg, row[..i], ss[..i]);
  }

  lemma PairRowLeft(t: Tree, L: nat, i: nat, k: nat)
    requires Tall(t) && 0 < L < |t.lv| && i + 1 < |t.lv[L]| && |KeysOf(t.pg, t.lv[L][i + 1])| > 0
    ensures |SepRow(t, L)| == |t.lv[L]| && |SepRow(t, L - 1)| == |t.lv[L - 1]|
    ensures var y, kl, kr := Off(t.pg, t.lv[L], i + 1), KeysOf(t.pg, t.lv[L][i]), KeysOf(t.pg, t.lv[L][i + 1]);
            && y + 1 < |t.lv[L - 1]|
            && PairRow(t, L, i, kl + [k], kr[1..]) == SepRow(t, L - 1)[y := k][y + 1 := SepRow(t, L)[i + 1]]
  {
    var row, ss := t.lv[L], SepRow(t, L);
    SepsOfPair(t, L, i);
    LeftSegment(Seps(t.pg, row[..i], ss[..i]), ss[i], KeysOf(t.pg, row[i]), ss[i + 1], KeysOf(t.pg, row[i + 1]), k,
                Seps(t.pg, row[i + 2..], ss[i + 2..]));
  }

  lemma PairRowRight(t: Tree, L: nat, i: nat, k: nat)
    requires Tall(t) && 0 < L < |t.lv| && i + 1 < |t.lv[L]| && |KeysOf(t.pg, t.lv[L][i])| > 0
    ensures |SepRow(t, L)| == |t.lv[L]| && |SepRow(t, L - 1)| == |t.lv[L - 1]|
    ensures var y, kl, kr := Off(t.pg, t.lv[L], i + 1), KeysOf(t.pg, t.lv[L][i]), KeysOf(t.pg, t.lv[L][i + 1]);
            && 1 < y < |t.lv[L - 1]|
            && PairRow(t, L, i, kl[..|kl| - 1], [k] + kr) == SepRow(t, L - 1)[y := k][y - 1 := SepRow(t, L)[i + 1]]
  {
    var row, ss := t.lv[L], SepRow(t, L);
    SepsOfPair(t, L, i);
    RightSegment(Seps(t.pg, row[..i], ss[..i]), ss[i], KeysOf(t.pg, row[i]), ss[i + 1], KeysOf(t.pg, row[i + 1]), k,
                 Seps(t.pg, row[i + 2..], ss[i + 2..]));
  }

  lemma DownUpdate2(t: Tree, L: nat, y: nat, k: nat, z: nat, x: nat)
    requires Tall(t) && L < |t.lv| && y < |t.lv[L]| && z < |t.lv[L]|
    ensures |SepRow(t, L)| == |t.lv[L]| && |LeafSeps(t)| == |t.lv[0]|
    ensures LeafIdx(t.pg, t.lv, L, y) < |t.lv[0]| && LeafIdx(t.pg, t.lv, L, z) < |t.lv[0]|
    ensures Down(t.pg, t.lv, L, SepRow(t, L)[y := k][z := x])
         == LeafSeps(t)[LeafIdx(t.pg, t.lv, L, y) := k][LeafIdx(t.pg, t.lv, L, z) := x]
  {
    SepRowDown(t, L);
    SepRowDown(t, 0);
    DownUpdate(t.pg, t.lv, L, SepRow(t, L), y, k);
    DownUpdate(t.pg, t.lv, L, SepRow(t, L)[y := k], z, x);
    LeafIdxMono(t.pg, t.lv, L, y, y + 1);
    LeafIdxMono(t.pg, t.lv, L, z, z + 1);
  }

  /** Handing over turns the separator of the leaf at `h` into its first key and leaves the
      one at `h'`, the new first leaf under the right page, stale. */
  lemma HandStep(t: Tree, L: nat, i: nat, nl: Node, nr: Node, c: int, u: int, h: nat, h': nat, x: nat)
    requires Shape(t) && HandsOver(t, L, i, nl, nr, c, u)
    requires 0 < h < |t.lv[0]| && 0 < h' < |t.lv[0]| && Order(t, h)
    requires h' == LeafIdx(t.pg, t.lv, L - 1, Off(t.pg, t.lv[L], i) + |nl.kids|)
    requires EntsOf(t.pg, t.lv[0][h]) != []
    requires LeafSeps(t.(pg := Hand(t.pg, t.lv[L][i], nl, t.lv[L][i + 1], nr, c, u)))
          == LeafSeps(t)[h := FirstKey(t.pg, t.lv[0][h])][h' := x]
    ensures var t' := t.(pg := Hand(t.pg, t.lv[L][i], nl, t.lv[L][i + 1], nr, c, u));
            && Shape(t') && Order(t', LeafIdx(t'.pg, t.lv, L, i + 1))
            && Ents(t'.pg, t.lv[0]) == Ents(t.pg, t.lv[0])
  {
    var pg' := Hand(t.pg, t.lv[L][i], nl, t.lv[L][i + 1], nr, c, u);
    HandShape(t, L, i, nl, nr, c, u);
    HandEnts(t, L, i, nl, nr, c, u);
    HandIdx(t, L, i, nl, nr, c, u);
    MoveHole(t.pg, t.lv[0], LeafSeps(t), h, h', x);
    LeafOrderFrame(t.pg, pg', t.lv[0], LeafSeps(t.(pg := pg')), h');
  }

  lemma HandSeps2(t: Tree, L: nat, i: nat, nl: Node, nr: Node, c: int, u: int, y: nat, k: nat, z: nat, x: nat)
    requires Shape(t) && HandsOver(t, L, i, nl, nr, c, u) && y < |t.lv[L - 1]| && z < |t.lv[L - 1]|
    requires |SepRow(t, L)| == |t.lv[L]| && |SepRow(t, L - 1)| == |t.lv[L - 1]|
    requires PairRow(t, L, i, nl.keys, nr.keys) == SepRow(t, L - 1)[y := k][z := x]
    ensures |LeafSeps(t)| == |t.lv[0]|
    ensures LeafIdx(t.pg, t.lv, L - 1, y) < |t.lv[0]| && LeafIdx(t.pg, t.lv, L - 1, z) < |t.lv[0]|
    ensures LeafSeps(t.(pg := Hand(t.pg, t.lv[L][i], nl, t.lv[L][i + 1], nr, c, u)))
         == LeafSeps(t)[LeafIdx(t.pg, t.lv, L - 1, y) := k][LeafIdx(t.pg, t.lv, L - 1, z) := x]
  {
    HandSeps(t, L, i, nl, nr, c, u);
    DownUpdate2(t, L - 1, y, k, z, x);
  }

  lemma RightLeafIdx(t: Tree, L: nat, i: nat, h: nat)
    requires Tall(t) && 0 < L < |t.lv| && i + 1 < |t.lv[L]| && LeafOrder(t.pg, t.lv[0], LeafSeps(t), h)
    requires h == LeafIdx(t.pg, t.lv, L, i + 1)
    ensures 0 < h < |t.lv[0]| && EntsOf(t.pg, t.lv[0][h]) != []
    ensures h == LeafIdx(t.pg, t.lv, L - 1, Off(t.pg, t.lv[L], i + 1))
  {
    LeafIdxBound(t.pg, t.lv, L, 0);
    LeafIdxMono(t.pg, t.lv, L, 0, i + 1);
    LeafIdxMono(t.pg, t.lv, L, i + 1, i + 2);
  }

  /** `l` with child `c` added at the end behind key `k`. */
  function AddLast(n: Node, k: nat, c: int): Node
    requires n.Inner?
  {
    n.(keys := n.keys + [k], kids := n.kids + [c])
  }

  function AddFirst(n: Node, k: nat, c: int): Node
    requires n.Inner?
  {
    n.(keys := [k] + n.keys, kids := [c] + n.kids)
  }

  function DropFirst(n: Node): Node
    requires n.Inner? && |n.keys| > 0 && |n.kids| > 0
  {
    n.(keys := n.keys[1..], kids := n.kids[1..])
  }

  function DropLast(n: Node): Node
    requires n.Inner? && |n.keys| > 0 && |n.kids| > 0
  {
    n.(keys := n.keys[..|n.keys| - 1], kids := n.kids[..|n.kids| - 1])
  }

  ghost predicate InnerPages(pg: Pages, l: int, r: int) {
    && l in pg && r in pg && pg[l].Inner? && pg[r].Inner?
    && |pg[l].kids| == |pg[l].keys| + 1 && |pg[r].kids| == |pg[r].keys| + 1
    && (forall j :: 0 <= j < |pg[l].kids| ==> pg[l].kids[j] in pg)
    && (forall j :: 0 <= j < |pg[r].kids| ==> pg[r].kids[j] in pg)
  }

  /** One child moves from the front of `r` to the back of `l`; `k` is the smallest key under
      `r` before the move. */
  function MoveLeft(pg: Pages, l: int, r: int, k: nat): Pages
    requires InnerPages(pg, l, r) && |pg[r].keys| > 0
  {
    var c := pg[r].kids[0];
    Hand(pg, l, AddLast(pg[l], k, c), r, DropFirst(pg[r]), c, l)
  }

  /** One child moves from the back of `l` to the front of `r`. */
  function MoveRight(pg: Pages, l: int, r: int, k: nat): Pages
    requires InnerPages(pg, l, r) && |pg[l].keys| > 0
  {
    var c := pg[l].kids[|pg[l].kids| - 1];
    Hand(pg, l, DropLast(pg[l]), r, AddFirst(pg[r], k, c), c, r)
  }

  lemma PairPages(t: Tree, L: nat, i: nat)
    requires Shape(t) && 0 < L < |t.lv| && i + 1 < |t.lv[L]|
    ensures InnerPages(t.pg, t.lv[L][i], t.lv[L][i + 1]) && t.lv[L][i] != t.lv[L][i + 1]
    ensures var l, r := t.lv[L][i], t.lv[L][i + 1];
            && (forall j :: 0 <= j < |t.pg[l].kids| ==>
               t.pg[t.pg[l].kids[j]].parent == l && t.lvl[t.pg[l].kids[j]] == L - 1)
            && (forall j :: 0 <= j < |t.pg[r].kids| ==>
               t.pg[t.pg[r].kids[j]].parent == r && t.lvl[t.pg[r].kids[j]] == L - 1)
  {
    var l, r := t.lv[L][i], t.lv[L][i + 1];
    assert RowOK(t.pg, t.lv[L], false) && StackedAt(t.pg, t.lv, L) && ParentsOK(t.pg, t.lv[L]);
    forall j | 0 <= j < |t.pg[l].kids|
      ensures t.pg[l].kids[j] in t.pg && t.pg[t.pg[l].kids[j]].parent == l && t.lvl[t.pg[l].kids[j]] == L - 1
    {
      KidLevel(t, L, i, j);
      assert At(t.pg, KidsOf(t.pg, l)[j]).parent == l;
    }
    forall j | 0 <= j < |t.pg[r].kids|
      ensures t.pg[r].kids[j] in t.pg && t.pg[t.pg[r].kids[j]].parent == r && t.lvl[t.pg[r].kids[j]] == L - 1
    {
      KidLevel(t, L, i + 1, j);
      assert At(t.pg, KidsOf(t.pg, r)[j]).parent == r;
    }
  }

  lemma MoveLeftHands(t: Tree, L: nat, i: nat, k: nat)
    requires Shape(t) && 0 < L < |t.lv| && i + 1 < |t.lv[L]|
    requires InnerPages(t.pg, t.lv[L][i], t.lv[L][i + 1]) && |t.pg[t.lv[L][i + 1]].keys| > 0
    ensures var l, r := t.pg[t.lv[L][i]], t.pg[t.lv[L][i + 1]];
            HandsOver(t, L, i, AddLast(l, k, r.kids[0]), DropFirst(r), r.kids[0], t.lv[L][i])
  {
    PairPages(t, L, i);
    var r := t.pg[t.lv[L][i + 1]];
    forall j | 1 <= j < |r.kids|
      ensures r.kids[j] != r.kids[0]
    {
      if r.kids[j] == r.kids[0] {
        KidsDistinct(t, L - 1, i + 1, 0, j);
      }
    }
  }

  lemma MoveRightHands(t: Tree, L: nat, i: nat, k: nat)
    requires Shape(t) && 0 < L < |t.lv| && i + 1 < |t.lv[L]|
    requires InnerPages(t.pg, t.lv[L][i], t.lv[L][i + 1]) && |t.pg[t.lv[L][i]].keys| > 0
    ensures var l, r := t.pg[t.lv[L][i]], t.pg[t.lv[L][i + 1]];
            HandsOver(t, L, i, DropLast(l), AddFirst(r, k, l.kids[|l.kids| - 1]), l.kids[|l.kids| - 1], t.lv[L][i + 1])
  {
    PairPages(t, L, i);
    var l := t.pg[t.lv[L][i]];
    var z := |l.kids| - 1;
    forall j | 0 <= j < z
      ensures l.kids[j] != l.kids[z]
    {
      if l.kids[j] == l.kids[z] {
        KidsDistinct(t, L - 1, i, j, z);
      }
    }
  }

  lemma MoveLeftSeps(t: Tree, L: nat, i: nat, k: nat)
    requires Shape(t) && 0 < L < |t.lv| && i + 1 < |t.lv[L]|
    requires InnerPages(t.pg, t.lv[L][i], t.lv[L][i + 1]) && |t.pg[t.lv[L][i + 1]].keys| > 0
    ensures |SepRow(t, L)| == |t.lv[L]| && |LeafSeps(t)| == |t.lv[0]|
    ensures var y := Off(t.pg, t.lv[L], i + 1);
            && LeafIdx(t.pg, t.lv, L - 1, y) < LeafIdx(t.pg, t.lv, L - 1, y + 1) < |t.lv[0]|
            && y + 1 == Off(t.pg, t.lv[L], i) + |t.pg[t.lv[L][i]].kids| + 1
            && LeafSeps(t.(pg := MoveLeft(t.pg, t.lv[L][i], t.lv[L][i + 1], k)))
            == LeafSeps(t)[LeafIdx(t.pg, t.lv, L - 1, y) := k][LeafIdx(t.pg, t.lv, L - 1, y + 1) := SepRow(t, L)[i + 1]]
  {
    hide Seps, Kids, SepRow, RowOK, LevelsOK, ParentsOK, Stacked, Down, PairRow, HandsOver;
    var l, r := t.pg[t.lv[L][i]], t.pg[t.lv[L][i + 1]];
    var c := r.kids[0];
    MoveLeftHands(t, L, i, k);
    PairRowLeft(t, L, i, k);
    var y, x := Off(t.pg, t.lv[L], i + 1), SepRow(t, L)[i + 1];
    var nl, nr := AddLast(l, k, c), DropFirst(r);
    assert nl.keys == KeysOf(t.pg, t.lv[L][i]) + [k] && nr.keys == KeysOf(t.pg, t.lv[L][i + 1])[1..];
    HandSeps2(t, L, i, nl, nr, c, t.lv[L][i], y, k, y + 1, x);
    LeafIdxMono(t.pg, t.lv, L - 1, y, y + 1);
    OffNext(t.pg, t.lv[L], i);
  }

  lemma MoveRightSeps(t: Tree, L: nat, i: nat, k: nat)
    requires Shape(t) && 0 < L < |t.lv| && i + 1 < |t.lv[L]|
    requires InnerPages(t.pg, t.lv[L][i], t.lv[L][i + 1]) && |t.pg[t.lv[L][i]].keys| > 0
    ensures |SepRow(t, L)| == |t.lv[L]| && |LeafSeps(t)| == |t.lv[0]|
    ensures var y := Off(t.pg, t.lv[L], i + 1);
            && 0 < y && 0 < LeafIdx(t.pg, t.lv, L - 1, y - 1) < |t.lv[0]| && LeafIdx(t.pg, t.lv, L - 1, y) < |t.lv[0]|
            && y == Off(t.pg, t.lv[L], i) + |t.pg[t.lv[L][i]].kids|
            && LeafSeps(t.(pg := MoveRight(t.pg, t.lv[L][i], t.lv[L][i + 1], k)))
            == LeafSeps(t)[LeafIdx(t.pg, t.lv, L - 1, y) := k][LeafIdx(t.pg, t.lv, L - 1, y - 1) := SepRow(t, L)[i + 1]]
  {
    hide Seps, Kids, SepRow, RowOK, LevelsOK, ParentsOK, Stacked, Down, PairRow, HandsOver, LeafIdx;
    var l, r := t.pg[t.lv[L][i]], t.pg[t.lv[L][i + 1]];
    var c := l.kids[|l.kids| - 1];
    MoveRightHands(t, L, i, k);
    PairRowRight(t, L, i, k);
    var y, x := Off(t.pg, t.lv[L], i + 1), SepRow(t, L)[i + 1];
    HandSeps2(t, L, i, DropLast(l), AddFirst(r, k, c), c, t.lv[L][i + 1], y, k, y - 1, x);
    LeafIdxBound(t.pg, t.lv, L - 1, 0);
    LeafIdxMono(t.pg, t.lv, L - 1, 0, y - 1);
    OffNext(t.pg, t.lv[L], i);
  }

  /** One step of `redistribute` to the left: the stale separator moves on to the new first
      leaf under the right page. */
  lemma MoveLeftStep(t: Tree, L: nat, i: nat, h: nat)
    requires Shape(t) && 0 < L < |t.lv| && i + 1 < |t.lv[L]|
    requires InnerPages(t.pg, t.lv[L][i], t.lv[L][i + 1]) && |t.pg[t.lv[L][i + 1]].keys| > 0
    requires h == LeafIdx(t.pg, t.lv, L, i + 1) && Order(t, h)
    ensures h < |t.lv[0]| && EntsOf(t.pg, t.lv[0][h]) != []
    ensures var t' := t.(pg := MoveLeft(t.pg, t.lv[L][i], t.lv[L][i + 1], FirstKey(t.pg, t.lv[0][h])));
            && Shape(t') && Order(t', LeafIdx(t'.pg, t.lv, L, i + 1))
            && Ents(t'.pg, t.lv[0]) == Ents(t.pg, t.lv[0])
  {
    var l, r := t.pg[t.lv[L][i]], t.pg[t.lv[L][i + 1]];
    RightLeafIdx(t, L, i, h);
    var k := FirstKey(t.pg, t.lv[0][h]);
    MoveLeftHands(t, L, i, k);
    MoveLeftSeps(t, L, i, k);
    HandStep(t, L, i, AddLast(l, k, r.kids[0]), DropFirst(r), r.kids[0], t.lv[L][i], h,
             LeafIdx(t.pg, t.lv, L - 1, Off(t.pg, t.lv[L], i + 1) + 1), SepRow(t, L)[i + 1]);
  }

  /** One step of `redistribute` to the right. */
  lemma MoveRightStep(t: Tree, L: nat, i: nat, h: nat)
    requires Shape(t) && 0 < L < |t.lv| && i + 1 < |t.lv[L]|
    requires InnerPages(t.pg, t.lv[L][i], t.lv[L][i + 1]) && |t.pg[t.lv[L][i]].keys| > 0
    requires h == LeafIdx(t.pg, t.lv, L, i + 1) && Order(t, h)
    ensures h < |t.lv[0]| && EntsOf(t.pg, t.lv[0][h]) != []
    ensures var t' := t.(pg := MoveRight(t.pg, t.lv[L][i], t.lv[L][i + 1], FirstKey(t.pg, t.lv[0][h])));
            && Shape(t') && Order(t', LeafIdx(t'.pg, t.lv, L, i + 1))
            && Ents(t'.pg, t.lv[0]) == Ents(t.pg, t.lv[0])
  {
    var l, r := t.pg[t.lv[L][i]], t.pg[t.lv[L][i + 1]];
    RightLeafIdx(t, L, i, h);
    var k := FirstKey(t.pg, t.lv[0][h]);
    var c := l.kids[|l.kids| - 1];
    MoveRightHands(t, L, i, k);
    MoveRightSeps(t, L, i, k);
    HandStep(t, L, i, DropLast(l), AddFirst(r, k, c), c, t.lv[L][i + 1], h,
             LeafIdx(t.pg, t.lv, L - 1, Off(t.pg, t.lv[L], i + 1) - 1), SepRow(t, L)[i + 1]);
  }
}
