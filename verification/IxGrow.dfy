/** The steps of an insertion on whole trees: everything an overfull page and its parent
    have to satisfy before and after a split. */
module IxGrow {
  import opened Common
  import opened IxLevels
  import opened IxShape
  import opened IxSplit
  import opened IxRoot
  import opened IxFill

  /** The header of the index file agrees with the tree. */
  ghost predicate Framed(t: Tree, root: int, firstLeaf: int, lastLeaf: int, numPages: int) {
    && Shape(t)
    && root == Root(t)
    && t.lv[0] != []
    && firstLeaf == t.lv[0][0]
    && lastLeaf == t.lv[0][|t.lv[0]| - 1]
    && 0 < numPages
    && forall p :: p in t.pg ==> p < numPages
  }

  /** The entries of a tree, in key order. */
  ghost function Flat(t: Tree): seq<Entry>
    requires |t.lv| > 0
  {
    Ents(t.pg, t.lv[0])
  }

  /** The page holds one key more than allowed. */
  ghost predicate Overfull(n: Node, order: nat) {
    n.Size() == MaxKeys(order, n.Leaf?) + 1
  }

  ghost predicate SameEnts(pg: Pages, pg': Pages) {
    forall x :: x in pg && pg[x].Leaf? ==> x in pg' && pg'[x].Leaf? && pg'[x].ents == pg[x].ents
  }

  lemma CanCut(t: Tree, L: nat, i: nat, order: nat)
    requires Shape(t) && L < |t.lv| && i < |t.lv[L]| && order >= 3
    requires t.lv[L][i] in t.pg && Overfull(t.pg[t.lv[L][i]], order)
    ensures MinKeys(order, t.pg[t.lv[L][i]].Leaf?) > 0
    ensures Cut(t.pg[t.lv[L][i]], MinKeys(order, t.pg[t.lv[L][i]].Leaf?))
    ensures t.pg[t.lv[L][i]].Leaf? == (L == 0)
  {
    assert RowOK(t.pg, t.lv[L], L == 0);
    if L > 0 {
      assert StackedAt(t.pg, t.lv, L);
    }
  }

  /** A page has no parent exactly when it is the root. */
  lemma RootParent(t: Tree, L: nat, i: nat)
    requires Shape(t) && L < |t.lv| && i < |t.lv[L]|
    ensures t.lv[L][i] in t.pg
    ensures t.pg[t.lv[L][i]].parent == NO_PAGE <==> L == |t.lv| - 1
    ensures L == |t.lv| - 1 ==> t.lv[L][i] == Root(t)
    ensures L < |t.lv| - 1 ==> t.lv[L][i] != Root(t)
  {
    RootIn(t);
    assert RowOK(t.pg, t.lv[L], L == 0);
    if L < |t.lv| - 1 {
      var s := SiteOf(t, L, i);
      SiteFacts(t, s);
      assert Placed(t.lv, t.lvl, s.u);
    }
  }

  ghost predicate ReadyToSplit(t: Tree, s: Site, m: nat, q: int, order: nat) {
    && Shape(t) && Order(t, NO_PAGE) && order >= 3
    && IsSite(t, s) && q !in t.pg && q > 0
    && Overfull(t.pg[s.p], order) && m == MinKeys(order, t.pg[s.p].Leaf?)
    && Occupied(t.pg, Root(t), order, {s.p, s.u})
  }

  lemma SplitStep(t: Tree, s: Site, m: nat, q: int, order: nat) returns (t': Tree)
    requires ReadyToSplit(t, s, m, q, order)
    ensures m > 0 && Cut(t.pg[s.p], m) && t' == SplitTree(t, s, m, q)
    ensures t'.pg == SplitAndInsert(t.pg, s.p, q, m, s.u, s.j)
    ensures Shape(t') && Order(t', NO_PAGE) && Flat(t') == Flat(t)
    ensures |t'.lv| == |t.lv| && Root(t') == Root(t)
    ensures t'.lv[0] == if s.L == 0 then InsertAt(t.lv[0], s.i + 1, q) else t.lv[0]
    ensures s.a < |t'.lv[s.U]| && t'.lv[s.U][s.a] == s.u
    ensures Occupied(t'.pg, Root(t'), order, {s.u})
    ensures s.u in t'.pg && t'.pg[s.u].Inner? && t'.pg[s.u].Size() == t.pg[s.u].Size() + 1
    ensures t'.pg.Keys == t.pg.Keys + {q}
  {
    hide RowOK, Kids, ParentsOK, LevelsOK, Stacked, Order;
    CanCut(t, s.L, s.i, order);
    t' := SplitTree(t, s, m, q);
    SplitShape(t, t', s, m, q);
    SplitLv(t, t', s, m, q);
    SplitNew(t, t', s, m, q);
    SplitFill(t, t', s, m, q, order);
    if s.L == 0 {
      SplitLeafOrder(t, t', s, m, q);
    } else {
      SplitInnerOrder(t, t', s, m, q);
    }
  }

  lemma SplitEnts(t: Tree, s: Site, m: nat, q: int)
    requires Shape(t) && IsSite(t, s) && Cut(t.pg[s.p], m) && q !in t.pg && q > 0
    ensures SameEnts(SplitPages(t.pg, s.p, q, m), SplitAndInsert(t.pg, s.p, q, m, s.u, s.j))
  {
    hide RowOK, Kids, ParentsOK, LevelsOK, Stacked;
    var t' := SplitTree(t, s, m, q);
    SplitNew(t, t', s, m, q);
  }

  // ---- splitting the root

  /** A new root above the two halves of the old one. */
  function NewRoot(pg: Pages, p: int, q: int, w: int, k: nat): Pages
    requires p in pg && q in pg && p != q
  {
    pg[p := pg[p].(parent := w)][q := pg[q].(parent := w)][w := Inner(NO_PAGE, NO_PAGE, NO_PAGE, [k], [p, q])]
  }

  ghost predicate RootOverfull(t: Tree, q: int, w: int, order: nat) {
    && Shape(t) && Order(t, NO_PAGE) && order >= 3
    && q !in t.pg && q > 0 && w !in t.pg && w > 0 && q != w
    && Root(t) in t.pg && Overfull(t.pg[Root(t)], order)
    && Occupied(t.pg, Root(t), order, {Root(t)})
  }

  /** Hanging the root under a new root without keys and then splitting it is the same as
      splitting it first. */
  lemma RootSplitSame(pg: Pages, p: int, q: int, w: int, m: nat, cs: seq<int>)
    requires p in pg && Cut(pg[p], m) && pg[p].next == NO_PAGE && NO_PAGE !in pg
    requires q !in pg && w !in pg && q != w && q != NO_PAGE && w != NO_PAGE
    requires cs == RightHalf(pg[p], m, p).KidList() && p !in cs && q !in cs && w !in cs
    ensures SplitAndInsert(RootPages(pg, p, w), p, q, m, w, 0) ==
            NewRoot(SplitPages(pg, p, q, m), p, q, w, UpKey(pg[p], m))
  {
    assert InsertAt([p], 1, q) == [p, q];
    assert InsertAt([], 0, UpKey(pg[p], m)) == [UpKey(pg[p], m)];
    hide InsertAt;
  }

  lemma RootSplitPages(t: Tree, m: nat, q: int, w: int)
    requires Shape(t) && q !in t.pg && q > 0 && w !in t.pg && w > 0 && q != w
    requires Root(t) in t.pg && Cut(t.pg[Root(t)], m)
    ensures SplitAndInsert(RootPages(t.pg, Root(t), w), Root(t), q, m, w, 0)
         == NewRoot(SplitPages(t.pg, Root(t), q, m), Root(t), q, w, UpKey(t.pg[Root(t)], m))
  {
    hide RowOK, Kids, Seps, Ents, ParentsOK, LevelsOK, Stacked, InsertAt;
    var p := Root(t);
    var n := t.pg[p];
    var top := |t.lv| - 1;
    RootIn(t);
    assert t.lv[top][0] == p;
    NextLevel(t, top, 0);
    var cs := RightHalf(n, m, p).KidList();
    forall c | c in cs
      ensures c != p && c != q && c != w
    {
      RightKids(t, top, 0, m, c);
    }
    hide Shape;
    RootSplitSame(t.pg, p, q, w, m, cs);
  }

  lemma RootSite(t: Tree, t1: Tree, w: int)
    requires Grows(t, t1, w) && Shape(t1)
    ensures IsSite(t1, Site(|t.lv| - 1, 0, Root(t), |t.lv|, 0, w, 0))
    ensures t1.pg[Root(t)] == t.pg[Root(t)].(parent := w)
    ensures t1.pg[w].Size() == 0
  {
    hide RowOK, ParentsOK, LevelsOK, Stacked;
    GrowLv(t, t1, w);
    var row := t1.lv[|t.lv|];
    assert row[..0] == [];
    assert Off(t1.pg, row, 0) == 0;
  }

  lemma RootSplit(t: Tree, m: nat, q: int, w: int, order: nat) returns (t': Tree)
    requires RootOverfull(t, q, w, order) && m == MinKeys(order, t.pg[Root(t)].Leaf?)
    ensures m > 0 && Cut(t.pg[Root(t)], m)
    ensures t'.pg == NewRoot(SplitPages(t.pg, Root(t), q, m), Root(t), q, w, UpKey(t.pg[Root(t)], m))
    ensures Shape(t') && Order(t', NO_PAGE) && Flat(t') == Flat(t)
    ensures Root(t') == w && Occupied(t'.pg, w, order, {})
    ensures t'.lv[0] == if |t.lv| == 1 then InsertAt(t.lv[0], 1, q) else t.lv[0]
    ensures t'.pg.Keys == t.pg.Keys + {q, w}
  {
    hide RowOK, Kids, ParentsOK, LevelsOK, Stacked, Order, SplitPages, SplitTree, NewRoot;
    var t1 := AddRoot(t, w);
    GrowLv(t, t1, w);
    GrowShape(t, t1, w);
    GrowOrder(t, t1, w, NO_PAGE);
    RootSite(t, t1, w);
    var p := Root(t);
    var s := Site(|t.lv| - 1, 0, p, |t.lv|, 0, w, 0);
    assert Occupied(t1.pg, Root(t1), order, {p, w}) by {
      forall x | x in t1.pg && x !in {p, w}
        ensures Fill(t1.pg[x], order, x == w)
      {
        assert Fill(t.pg[x], order, x == p);
      }
    }
    CanCut(t, |t.lv| - 1, 0, order);
    t' := SplitStep(t1, s, m, q, order);
    assert t1.pg == RootPages(t.pg, p, w);
    RootSplitPages(t, m, q, w);
    assert Occupied(t'.pg, w, order, {}) by {
      assert Fill(t'.pg[w], order, true);
    }
  }

  lemma RootSplitEnts(t: Tree, m: nat, q: int, w: int)
    requires Shape(t) && q !in t.pg && w !in t.pg && q != w && w > 0
    requires Root(t) in t.pg && Cut(t.pg[Root(t)], m)
    requires Root(t) in SplitPages(t.pg, Root(t), q, m) && q in SplitPages(t.pg, Root(t), q, m)
    ensures SameEnts(SplitPages(t.pg, Root(t), q, m),
            NewRoot(SplitPages(t.pg, Root(t), q, m), Root(t), q, w, UpKey(t.pg[Root(t)], m)))
  {
  }
}
