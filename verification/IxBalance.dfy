/** Moving keys between neighbouring pages and repairing the separator between them. */
module IxBalance {
  import opened Common
  import opened IxLevels
  import opened IxShape
  import opened IxEdit
  import opened IxShift
  import opened IxSplit
  import opened IxGrow

  /** The same pages with the same numbers of keys. */
  ghost predicate SameSizes(pg: Pages, pg': Pages) {
    && pg'.Keys == pg.Keys
    && forall x :: x in pg ==> pg'[x].Leaf? == pg[x].Leaf? && pg'[x].Size() == pg[x].Size()
  }

  lemma OccupiedSame(pg: Pages, pg': Pages, root: int, order: nat, ex: set<int>)
    requires SameSizes(pg, pg') && Occupied(pg, root, order, ex)
    ensures Occupied(pg', root, order, ex)
  {
    forall p | p in pg' && p !in ex
      ensures Fill(pg'[p], order, p == root)
    {
      assert Fill(pg[p], order, p == root);
    }
  }

  /** The same rows over changed pages. */
  ghost predicate SameRows(t: Tree, t': Tree) {
    t'.lv == t.lv && t'.lvl == t.lvl && t'.pg.Keys == t.pg.Keys
  }

  lemma FramedSame(t: Tree, t': Tree, root: int, firstLeaf: int, lastLeaf: int, numPages: int)
    requires Framed(t, root, firstLeaf, lastLeaf, numPages) && Shape(t') && SameRows(t, t')
    ensures Framed(t', root, firstLeaf, lastLeaf, numPages)
  {
  }

  // ---- `maintain_parent`

  /** Writing the smallest key below a page into the key that leads to it. */
  lemma RepairStep(t: Tree, s: Site, h: nat) returns (t': Tree)
    requires Shape(t) && IsSite(t, s) && s.j > 0
    requires h == LeafIdx(t.pg, t.lv, s.L, s.i) && 0 < h < |t.lv[0]| && Order(t, h)
    ensures EntsOf(t.pg, t.lv[0][h]) != []
    ensures t' == t.(pg := SetKey(t.pg, s.u, s.j, FirstKey(t.pg, t.lv[0][h])))
    ensures Shape(t') && Order(t', NO_PAGE) && Flat(t') == Flat(t)
    ensures SameRows(t, t') && SameSizes(t.pg, t'.pg) && SameEnts(t.pg, t'.pg)
  {
    hide RowOK, Kids, ParentsOK, LevelsOK, Stacked, Order;
    RepairSep(t, s.L, s.a, s.j, h);
    t' := t.(pg := SetKey(t.pg, s.u, s.j, FirstKey(t.pg, t.lv[0][h])));
  }

  /** The first child shares its leftmost leaf with its parent. */
  lemma ClimbStep(t: Tree, s: Site)
    requires Shape(t) && IsSite(t, s) && s.j == 0
    ensures LeafIdx(t.pg, t.lv, s.U, s.a) == LeafIdx(t.pg, t.lv, s.L, s.i)
  {
  }

  /** A page that is not the leftmost of its level has a parent. */
  lemma HoleBelowRoot(t: Tree, L: nat, i: nat)
    requires Shape(t) && L < |t.lv| && i < |t.lv[L]| && 0 < LeafIdx(t.pg, t.lv, L, i)
    ensures L + 1 < |t.lv| && LeafIdx(t.pg, t.lv, L, i) < |t.lv[0]|
  {
    LeafIdxBound(t.pg, t.lv, L, 0);
    LeafIdxMono(t.pg, t.lv, L, i, i + 1);
  }

  // ---- redistribution between leaves

  lemma ShareOne(pg: Pages, l: int, r: int, m: nat)
    requires l in pg && r in pg && l != r && pg[l].Leaf? && pg[r].Leaf? && m < |pg[l].ents| + |pg[r].ents|
    ensures ShareEnts(pg, l, r, m)[l].ents + [ShareEnts(pg, l, r, m)[r].ents[0]] == ShareEnts(pg, l, r, m + 1)[l].ents
    ensures ShareEnts(pg, l, r, m)[r].ents[1..] == ShareEnts(pg, l, r, m + 1)[r].ents
    ensures ShareEnts(pg, l, r, m + 1)[l].ents[..m] == ShareEnts(pg, l, r, m)[l].ents
    ensures [ShareEnts(pg, l, r, m + 1)[l].ents[m]] + ShareEnts(pg, l, r, m + 1)[r].ents ==
            ShareEnts(pg, l, r, m)[r].ents
  {
  }

  lemma ShareSame(pg: Pages, l: int, r: int)
    requires l in pg && r in pg && l != r && pg[l].Leaf? && pg[r].Leaf?
    ensures ShareEnts(pg, l, r, |pg[l].ents|) == pg
  {
    var x := pg[l].ents + pg[r].ents;
    assert x[..|pg[l].ents|] == pg[l].ents && x[|pg[l].ents|..] == pg[r].ents;
  }

  lemma ShareIs(pg: Pages, l: int, r: int, m: nat)
    requires l in pg && r in pg && l != r && pg[l].Leaf? && pg[r].Leaf? && m <= |pg[l].ents| + |pg[r].ents|
    ensures ShareEnts(pg, l, r, m).Keys == pg.Keys
    ensures ShareEnts(pg, l, r, m) ==
            pg[l := pg[l].(ents := (pg[l].ents + pg[r].ents)[..m])][r := pg[r].(ents := (pg[l].ents + pg[r].ents)[m..])]
    ensures ShareEnts(pg, l, r, m)[l].Leaf? && ShareEnts(pg, l, r, m)[r].Leaf?
    ensures |ShareEnts(pg, l, r, m)[l].ents| == m && |ShareEnts(pg, l, r, m)[r].ents| == |pg[l].ents| + |pg[r].ents| - m
    ensures ShareEnts(pg, l, r, m)[l].ents + ShareEnts(pg, l, r, m)[r].ents == pg[l].ents + pg[r].ents
  {
  }

  /** Two neighbours that can share their keys evenly: one is far from full, or one far from
      empty, and half of what they hold is an allowed number. */
  ghost predicate EvenOut(pg: Pages, root: int, order: nat, l: int, r: int) {
    && l in pg && r in pg && l != r && l != root && r != root && pg[l].Leaf? == pg[r].Leaf?
    && (pg[l].Size() - pg[r].Size() > 1 || pg[r].Size() - pg[l].Size() > 1)
    && 2 * MinKeys(order, pg[l].Leaf?) <= pg[l].Size() + pg[r].Size() <= 2 * MaxKeys(order, pg[l].Leaf?)
    && Occupied(pg, root, order, {l, r})
  }

  lemma ShareOccupied(pg: Pages, l: int, r: int, m: nat, root: int, order: nat)
    requires order >= 3 && EvenOut(pg, root, order, l, r) && pg[l].Leaf? && m <= |pg[l].ents| + |pg[r].ents|
    requires -1 <= 2 * m - (|pg[l].ents| + |pg[r].ents|) <= 1
    ensures Occupied(ShareEnts(pg, l, r, m), root, order, {})
  {
    var pg' := ShareEnts(pg, l, r, m);
    forall p | p in pg'
      ensures Fill(pg'[p], order, p == root)
    {
      if p != l && p != r {
        assert Fill(pg[p], order, p == root);
      }
    }
  }

  /** Any order holds with any one separator ignored. */
  lemma AnyHole(t: Tree, h: nat)
    requires |t.lv| > 0 && Order(t, NO_PAGE)
    ensures Order(t, h)
  {
  }

  lemma LeafPair(t: Tree, i: nat)
    requires Shape(t) && i + 1 < |t.lv[0]|
    ensures t.lv[0][i] in t.pg && t.lv[0][i + 1] in t.pg && t.lv[0][i] != t.lv[0][i + 1]
    ensures t.pg[t.lv[0][i]].Leaf? && t.pg[t.lv[0][i + 1]].Leaf?
    ensures t.lv[0][i] != Root(t) && t.lv[0][i + 1] != Root(t)
    ensures t.pg[t.lv[0][i]].next == t.lv[0][i + 1] && t.pg[t.lv[0][i + 1]].prev == t.lv[0][i]
  {
    NextLevel(t, 0, i);
    NextLevel(t, 0, i + 1);
    RootParent(t, 0, i);
    RootParent(t, 0, i + 1);
    assert RowOK(t.pg, t.lv[0], true);
  }

  lemma ShareStep(t: Tree, i: nat, m: nat) returns (t': Tree)
    requires Shape(t) && Order(t, NO_PAGE) && i + 1 < |t.lv[0]|
    requires 0 < m < |EntsOf(t.pg, t.lv[0][i])| + |EntsOf(t.pg, t.lv[0][i + 1])|
    ensures t.lv[0][i] in t.pg && t.lv[0][i + 1] in t.pg && t.pg[t.lv[0][i]].Leaf? && t.pg[t.lv[0][i + 1]].Leaf?
    ensures t' == t.(pg := ShareEnts(t.pg, t.lv[0][i], t.lv[0][i + 1], m))
    ensures Shape(t') && Order(t', i + 1) && Flat(t') == Flat(t) && SameRows(t, t')
  {
    hide RowOK, Kids, ParentsOK, LevelsOK, Stacked, Order;
    LeafPair(t, i);
    ShareLeaves(t, i, m);
    t' := t.(pg := ShareEnts(t.pg, t.lv[0][i], t.lv[0][i + 1], m));
  }

  // ---- redistribution between inner pages

  /** The pages of level `L` at positions `i` and `i + 1` after some children moved between
      them, with only the separator of the right one stale. */
  ghost predicate Moving(t: Tree, L: nat, i: nat) {
    && Shape(t) && 0 < L < |t.lv| && i + 1 < |t.lv[L]|
    && Order(t, LeafIdx(t.pg, t.lv, L, i + 1))
  }

  lemma MovingPair(t: Tree, L: nat, i: nat)
    requires Moving(t, L, i)
    ensures InnerPages(t.pg, t.lv[L][i], t.lv[L][i + 1]) && t.lv[L][i] != t.lv[L][i + 1]
    ensures 0 < LeafIdx(t.pg, t.lv, L, i + 1) < |t.lv[0]|
    ensures EntsOf(t.pg, t.lv[0][LeafIdx(t.pg, t.lv, L, i + 1)]) != []
  {
    PairPages(t, L, i);
    RightLeafIdx(t, L, i, LeafIdx(t.pg, t.lv, L, i + 1));
  }

  lemma MoveLeftTree(t: Tree, L: nat, i: nat, k: nat) returns (t': Tree)
    requires Moving(t, L, i) && InnerPages(t.pg, t.lv[L][i], t.lv[L][i + 1]) && |t.pg[t.lv[L][i + 1]].keys| > 0
    requires LeafIdx(t.pg, t.lv, L, i + 1) < |t.lv[0]| && EntsOf(t.pg, t.lv[0][LeafIdx(t.pg, t.lv, L, i + 1)]) != []
    requires k == FirstKey(t.pg, t.lv[0][LeafIdx(t.pg, t.lv, L, i + 1)])
    ensures t' == t.(pg := MoveLeft(t.pg, t.lv[L][i], t.lv[L][i + 1], k))
    ensures Moving(t', L, i) && Flat(t') == Flat(t) && SameRows(t, t')
  {
    hide RowOK, Kids, ParentsOK, LevelsOK, Stacked, Order;
    MoveLeftStep(t, L, i, LeafIdx(t.pg, t.lv, L, i + 1));
    t' := t.(pg := MoveLeft(t.pg, t.lv[L][i], t.lv[L][i + 1], k));
  }

  lemma MoveRightTree(t: Tree, L: nat, i: nat, k: nat) returns (t': Tree)
    requires Moving(t, L, i) && InnerPages(t.pg, t.lv[L][i], t.lv[L][i + 1]) && |t.pg[t.lv[L][i]].keys| > 0
    requires LeafIdx(t.pg, t.lv, L, i + 1) < |t.lv[0]| && EntsOf(t.pg, t.lv[0][LeafIdx(t.pg, t.lv, L, i + 1)]) != []
    requires k == FirstKey(t.pg, t.lv[0][LeafIdx(t.pg, t.lv, L, i + 1)])
    ensures t' == t.(pg := MoveRight(t.pg, t.lv[L][i], t.lv[L][i + 1], k))
    ensures Moving(t', L, i) && Flat(t') == Flat(t) && SameRows(t, t')
  {
    hide RowOK, Kids, ParentsOK, LevelsOK, Stacked, Order;
    MoveRightStep(t, L, i, LeafIdx(t.pg, t.lv, L, i + 1));
    t' := t.(pg := MoveRight(t.pg, t.lv[L][i], t.lv[L][i + 1], k));
  }

  /** One child changes hands: the two sizes change by one, the rest stays. */
  lemma MoveSizes(pg: Pages, l: int, r: int, k: nat, root: int, order: nat)
    requires InnerPages(pg, l, r) && l != r && Occupied(pg, root, order, {l, r})
    requires forall j :: 0 <= j < |pg[l].kids| ==> pg[l].kids[j] != l && pg[l].kids[j] != r
    requires forall j :: 0 <= j < |pg[r].kids| ==> pg[r].kids[j] != l && pg[r].kids[j] != r
    ensures |pg[r].keys| > 0 ==>
            MoveLeft(pg, l, r, k)[l] == AddLast(pg[l], k, pg[r].kids[0])
            && MoveLeft(pg, l, r, k)[r] == DropFirst(pg[r])
    ensures |pg[r].keys| > 0 ==>
            Occupied(MoveLeft(pg, l, r, k), root, order, {l, r}) && MoveLeft(pg, l, r, k).Keys == pg.Keys
    ensures |pg[l].keys| > 0 ==>
            MoveRight(pg, l, r, k)[l] == DropLast(pg[l])
            && MoveRight(pg, l, r, k)[r] == AddFirst(pg[r], k, pg[l].kids[|pg[l].kids| - 1])
    ensures |pg[l].keys| > 0 ==>
            Occupied(MoveRight(pg, l, r, k), root, order, {l, r}) && MoveRight(pg, l, r, k).Keys == pg.Keys
  {
    if |pg[r].keys| > 0 {
      var pg' := MoveLeft(pg, l, r, k);
      forall p | p in pg' && p !in {l, r}
        ensures Fill(pg'[p], order, p == root)
      {
        assert Fill(pg[p], order, p == root);
      }
    }
    if |pg[l].keys| > 0 {
      var pg' := MoveRight(pg, l, r, k);
      forall p | p in pg' && p !in {l, r}
        ensures Fill(pg'[p], order, p == root)
      {
        assert Fill(pg[p], order, p == root);
      }
    }
  }

  lemma MovingKids(t: Tree, L: nat, i: nat, l: int, r: int)
    requires Moving(t, L, i) && l == t.lv[L][i] && r == t.lv[L][i + 1]
    ensures InnerPages(t.pg, l, r) && l != r && l != Root(t) && r != Root(t)
    ensures forall j :: 0 <= j < |t.pg[l].kids| ==> t.pg[l].kids[j] != l && t.pg[l].kids[j] != r
    ensures forall j :: 0 <= j < |t.pg[r].kids| ==> t.pg[r].kids[j] != l && t.pg[r].kids[j] != r
  {
    PairPages(t, L, i);
    RootParent(t, L, i);
    RootParent(t, L, i + 1);
    assert t.lvl[l] == L && t.lvl[r] == L;
  }
}
