/** A tree that gains or loses its top level, and how many keys the pages hold. */
module IxRoot {
  import opened Common
  import opened IxLevels
  import opened IxShape
  import opened IxEdit
  import opened IxShift

  // ---- a new root above the old one

  function RootPages(pg: Pages, p: int, w: int): Pages
    requires p in pg
  {
    pg[p := pg[p].(parent := w)][w := Inner(NO_PAGE, NO_PAGE, NO_PAGE, [], [p])]
  }

  ghost function AddRoot(t: Tree, w: int): Tree
    requires Shape(t)
  {
    assert RowOK(t.pg, t.lv[|t.lv| - 1], |t.lv| == 1);
    Tree(RootPages(t.pg, Root(t), w), t.lv + [[w]], t.lvl[w := |t.lv|])
  }

  ghost predicate Grows(t: Tree, t': Tree, w: int) {
    Shape(t) && w !in t.pg && w > 0 && t' == AddRoot(t, w)
  }

  lemma GrowLv(t: Tree, t': Tree, w: int)
    requires Grows(t, t', w)
    ensures |t'.lv| == |t.lv| + 1 && t'.lv[|t.lv|] == [w]
    ensures forall M :: 0 <= M < |t.lv| ==> t'.lv[M] == t.lv[M]
    ensures Root(t) in t.pg && Root(t) != w
    ensures t'.pg == RootPages(t.pg, Root(t), w) && t'.lvl == t.lvl[w := |t.lv|]
  {
    assert RowOK(t.pg, t.lv[|t.lv| - 1], |t.lv| == 1);
  }

  lemma GrowAt(t: Tree, t': Tree, w: int, M: nat, x: nat)
    requires Grows(t, t', w) && M < |t.lv| && x < |t.lv[M]|
    ensures |t'.lv| == |t.lv| + 1
    ensures t.lv[M][x] in t.pg && t.lv[M][x] != w && t.lv[M][x] in t'.pg
    ensures t'.pg[t.lv[M][x]] == if M == |t.lv| - 1 then t.pg[t.lv[M][x]].(parent := w) else t.pg[t.lv[M][x]]
  {
    hide ParentsOK, Stacked;
    GrowLv(t, t', w);
    assert RowOK(t.pg, t.lv[M], M == 0);
    assert t.lvl[Root(t)] == |t.lv| - 1;
    assert t.lvl[t.lv[M][x]] == M;
  }

  lemma GrowRow(t: Tree, t': Tree, w: int, M: nat)
    requires Grows(t, t', w) && M < |t.lv|
    ensures RowOK(t'.pg, t.lv[M], M == 0)
    ensures Kids(t'.pg, t.lv[M]) == Kids(t.pg, t.lv[M])
    ensures forall x :: 0 <= x < |t.lv[M]| ==> KeysOf(t'.pg, t.lv[M][x]) == KeysOf(t.pg, t.lv[M][x])
    ensures forall x :: 0 <= x < |t.lv[M]| ==> KidsOf(t'.pg, t.lv[M][x]) == KidsOf(t.pg, t.lv[M][x])
    ensures forall x :: 0 <= x < |t.lv[M]| ==> EntsOf(t'.pg, t.lv[M][x]) == EntsOf(t.pg, t.lv[M][x])
  {
    hide ParentsOK, Stacked, LevelsOK, Kids;
    var row := t.lv[M];
    assert RowOK(t.pg, row, M == 0);
    forall x | 0 <= x < |row|
      ensures LinkedAt(t'.pg, row, x) && row[x] in t'.pg && t'.pg[row[x]].Leaf? == (M == 0)
      ensures KeysOf(t'.pg, row[x]) == KeysOf(t.pg, row[x]) && KidsOf(t'.pg, row[x]) == KidsOf(t.pg, row[x])
      ensures EntsOf(t'.pg, row[x]) == EntsOf(t.pg, row[x])
    {
      GrowAt(t, t', w, M, x);
      assert LinkedAt(t.pg, row, x);
    }
    KidsFrame(t.pg, t'.pg, row);
  }

  lemma GrowStacked(t: Tree, t': Tree, w: int, M: nat)
    requires Grows(t, t', w) && 0 < M < |t'.lv|
    ensures StackedAt(t'.pg, t'.lv, M)
  {
    hide ParentsOK, RowOK, LevelsOK;
    GrowLv(t, t', w);
    if M < |t.lv| {
      hide Kids;
      GrowRow(t, t', w, M);
      assert StackedAt(t.pg, t.lv, M);
    } else {
      assert Kids(t'.pg, [w]) == [Root(t)];
      assert t.lv[|t.lv| - 1] == [Root(t)];
    }
  }

  lemma GrowParents(t: Tree, t': Tree, w: int, M: nat)
    requires Grows(t, t', w) && 0 < M < |t'.lv|
    ensures ParentsOK(t'.pg, t'.lv[M])
  {
    hide RowOK, Kids, Stacked;
    GrowLv(t, t', w);
    if M < |t.lv| {
      var row := t.lv[M];
      GrowRow(t, t', w, M);
      assert ParentsOK(t.pg, row);
      forall x, y | 0 <= x < |row| && 0 <= y < |KidsOf(t'.pg, row[x])|
        ensures At(t'.pg, KidsOf(t'.pg, row[x])[y]).parent == row[x]
      {
        var c := KidsOf(t.pg, row[x])[y];
        KidLevel(t, M, x, y);
        assert t.lvl[Root(t)] == |t.lv| - 1;
        assert At(t.pg, c).parent == row[x];
      }
    }
  }

  lemma GrowLevels(t: Tree, t': Tree, w: int)
    requires Grows(t, t', w)
    ensures LevelsOK(t')
  {
    hide RowOK, Kids, Stacked, ParentsOK;
    GrowLv(t, t', w);
    forall L, i | 0 <= L < |t'.lv| && 0 <= i < |t'.lv[L]|
      ensures t'.lv[L][i] in t'.lvl && t'.lvl[t'.lv[L][i]] == L
    {
      if L < |t.lv| {
        assert t.lv[L][i] in t.lvl;
      }
    }
    forall p | p in t'.pg
      ensures Placed(t'.lv, t'.lvl, p)
    {
      if p != w {
        assert Placed(t.lv, t.lvl, p);
        assert t'.lv[t.lvl[p]] == t.lv[t.lvl[p]];
      }
    }
  }

  /** A new root with one child and no keys keeps the shape. */
  lemma GrowShape(t: Tree, t': Tree, w: int)
    requires Grows(t, t', w)
    ensures Shape(t') && Root(t') == w
  {
    hide RowOK, Kids, Stacked, ParentsOK, LevelsOK;
    GrowLv(t, t', w);
    GrowLevels(t, t', w);
    forall M | 0 <= M < |t'.lv|
      ensures RowOK(t'.pg, t'.lv[M], M == 0)
    {
      if M < |t.lv| {
        GrowRow(t, t', w, M);
      } else {
        RootRow(t'.pg, w);
      }
    }
    forall M | 0 < M < |t'.lv|
      ensures ParentsOK(t'.pg, t'.lv[M]) && StackedAt(t'.pg, t'.lv, M)
    {
      GrowParents(t, t', w, M);
      GrowStacked(t, t', w, M);
    }
    AllStacked(t'.pg, t'.lv);
  }

  lemma AllStacked(pg: Pages, lv: seq<seq<int>>)
    requires forall M :: 0 < M < |lv| ==> StackedAt(pg, lv, M)
    ensures Stacked(pg, lv)
  {
  }

  lemma RootRow(pg: Pages, w: int)
    requires w in pg && pg[w].Inner? && pg[w].prev == NO_PAGE && pg[w].next == NO_PAGE
    ensures RowOK(pg, [w], false)
  {
    assert LinkedAt(pg, [w], 0);
  }

  lemma GrowSeps(t: Tree, t': Tree, w: int)
    requires Grows(t, t', w)
    ensures |t'.lv| > 0 && LeafSeps(t') == LeafSeps(t)
  {
    hide RowOK, Kids, Stacked, ParentsOK, LevelsOK, AddRoot;
    GrowLv(t, t', w);
    forall M, x | 0 <= M < |t.lv| && 0 <= x < |t.lv[M]|
      ensures KeysOf(t.pg, t.lv[M][x]) == KeysOf(t'.pg, t.lv[M][x])
    {
      GrowRow(t, t', w, M);
    }
    assert KeysOf(t'.pg, w) == [];
    assert Seps(t'.pg, [w], [0]) == [0];
    DownFrame(t.pg, t'.pg, t.lv, t'.lv, |t.lv| - 1, [0]);
  }

  /** It also keeps the separators of the leaves and the entries. */
  lemma GrowOrder(t: Tree, t': Tree, w: int, h: int)
    requires Grows(t, t', w) && Order(t, h)
    ensures |t'.lv| > 0 && Order(t', h)
    ensures t'.lv[0] == t.lv[0] && Ents(t'.pg, t'.lv[0]) == Ents(t.pg, t.lv[0])
  {
    hide RowOK, Kids, Stacked, ParentsOK, LevelsOK, AddRoot, LeafSeps;
    GrowLv(t, t', w);
    GrowSeps(t, t', w);
    GrowRow(t, t', w, 0);
    EntsFrame(t.pg, t'.pg, t.lv[0]);
    LeafOrderFrame(t.pg, t'.pg, t.lv[0], LeafSeps(t), h);
  }

  // ---- a root with a single child goes away

  function DropPages(pg: Pages, w: int, c: int): Pages
    requires c in pg && c != w
  {
    (pg - {w})[c := pg[c].(parent := NO_PAGE)]
  }

  ghost predicate CanDrop(t: Tree) {
    && Shape(t) && |t.lv| > 1
    && KeysOf(t.pg, Root(t)) == []
  }

  /** The only child of a root without keys. */
  lemma OnlyChild(t: Tree)
    requires CanDrop(t)
    ensures Root(t) in t.pg && t.pg[Root(t)].Inner? && |t.pg[Root(t)].kids| == 1
    ensures t.lv[|t.lv| - 2] == t.pg[Root(t)].kids
    ensures t.pg[Root(t)].kids[0] in t.pg && t.pg[Root(t)].kids[0] != Root(t)
    ensures t.lvl[Root(t)] == |t.lv| - 1 && t.lvl[t.pg[Root(t)].kids[0]] == |t.lv| - 2
  {
    var L := |t.lv| - 1;
    var row := t.lv[L];
    assert RowOK(t.pg, row, false) && StackedAt(t.pg, t.lv, L);
    assert row == [Root(t)];
    assert Kids(t.pg, row) == KidsOf(t.pg, Root(t));
    assert KidsOf(t.pg, row[0]) == t.pg[Root(t)].kids;
    KidLevel(t, L, 0, 0);
    assert t.lvl[row[0]] == L;
  }

  ghost function DropRoot(t: Tree): Tree
    requires CanDrop(t)
  {
    OnlyChild(t);
    Tree(DropPages(t.pg, Root(t), t.pg[Root(t)].kids[0]), t.lv[..|t.lv| - 1], t.lvl - {Root(t)})
  }

  ghost predicate Shrinks(t: Tree, t': Tree) {
    CanDrop(t) && t' == DropRoot(t)
  }

  lemma ShrinkAt(t: Tree, t': Tree, M: nat, x: nat)
    requires Shrinks(t, t') && M + 1 < |t.lv| && x < |t.lv[M]|
    ensures |t'.lv| == |t.lv| - 1
    ensures t.lv[M][x] in t.pg && t.lv[M][x] in t'.pg
    ensures t'.pg[t.lv[M][x]] == if M == |t.lv| - 2 then t.pg[t.lv[M][x]].(parent := NO_PAGE) else t.pg[t.lv[M][x]]
  {
    hide ParentsOK, Stacked;
    OnlyChild(t);
    assert RowOK(t.pg, t.lv[M], M == 0);
    assert t.lvl[t.lv[M][x]] == M;
  }

  lemma ShrinkRow(t: Tree, t': Tree, M: nat)
    requires Shrinks(t, t') && M + 1 < |t.lv|
    ensures RowOK(t'.pg, t.lv[M], M == 0)
    ensures Kids(t'.pg, t.lv[M]) == Kids(t.pg, t.lv[M])
    ensures forall x :: 0 <= x < |t.lv[M]| ==> KeysOf(t'.pg, t.lv[M][x]) == KeysOf(t.pg, t.lv[M][x])
    ensures forall x :: 0 <= x < |t.lv[M]| ==> KidsOf(t'.pg, t.lv[M][x]) == KidsOf(t.pg, t.lv[M][x])
    ensures forall x :: 0 <= x < |t.lv[M]| ==> EntsOf(t'.pg, t.lv[M][x]) == EntsOf(t.pg, t.lv[M][x])
  {
    hide ParentsOK, Stacked, LevelsOK, Kids;
    var row := t.lv[M];
    assert RowOK(t.pg, row, M == 0);
    forall x | 0 <= x < |row|
      ensures LinkedAt(t'.pg, row, x) && row[x] in t'.pg && t'.pg[row[x]].Leaf? == (M == 0)
      ensures KeysOf(t'.pg, row[x]) == KeysOf(t.pg, row[x]) && KidsOf(t'.pg, row[x]) == KidsOf(t.pg, row[x])
      ensures EntsOf(t'.pg, row[x]) == EntsOf(t.pg, row[x])
    {
      ShrinkAt(t, t', M, x);
      assert LinkedAt(t.pg, row, x);
    }
    KidsFrame(t.pg, t'.pg, row);
  }

  lemma ShrinkParents(t: Tree, t': Tree, M: nat)
    requires Shrinks(t, t') && 0 < M && M + 1 < |t.lv|
    ensures ParentsOK(t'.pg, t.lv[M])
  {
    hide RowOK, Kids, Stacked;
    var row := t.lv[M];
    ShrinkRow(t, t', M);
    OnlyChild(t);
    assert ParentsOK(t.pg, row);
    forall x, y | 0 <= x < |row| && 0 <= y < |KidsOf(t'.pg, row[x])|
      ensures At(t'.pg, KidsOf(t'.pg, row[x])[y]).parent == row[x]
    {
      var c := KidsOf(t.pg, row[x])[y];
      KidLevel(t, M, x, y);
      assert At(t.pg, c).parent == row[x];
    }
  }

  lemma ShrinkLevels(t: Tree, t': Tree)
    requires Shrinks(t, t')
    ensures LevelsOK(t')
  {
    hide RowOK, Kids, Stacked, ParentsOK;
    OnlyChild(t);
    forall L, i | 0 <= L < |t'.lv| && 0 <= i < |t'.lv[L]|
      ensures t'.lv[L][i] in t'.lvl && t'.lvl[t'.lv[L][i]] == L
    {
      assert t.lv[L][i] in t.lvl;
    }
    forall p | p in t'.pg
      ensures Placed(t'.lv, t'.lvl, p)
    {
      assert Placed(t.lv, t.lvl, p);
      assert t.lv[|t.lv| - 1] == [Root(t)];
    }
  }

  /** The only child of a root without keys can take its place (`adjust_root`). */
  lemma ShrinkShape(t: Tree, t': Tree)
    requires Shrinks(t, t')
    ensures |t'.lv| == |t.lv| - 1 && Shape(t') && KidsOf(t.pg, Root(t)) == [Root(t')]
  {
    hide RowOK, Kids, ParentsOK, LevelsOK;
    OnlyChild(t);
    ShrinkLevels(t, t');
    forall M | 0 <= M < |t'.lv|
      ensures RowOK(t'.pg, t'.lv[M], M == 0)
    {
      ShrinkRow(t, t', M);
    }
    forall M | 0 < M < |t'.lv|
      ensures ParentsOK(t'.pg, t'.lv[M]) && StackedAt(t'.pg, t'.lv, M)
    {
      ShrinkParents(t, t', M);
      ShrinkRow(t, t', M);
      assert StackedAt(t.pg, t.lv, M);
    }
    AllStacked(t'.pg, t'.lv);
  }

  lemma ShrinkOrder(t: Tree, t': Tree)
    requires Shrinks(t, t') && Order(t, NO_PAGE)
    ensures |t'.lv| > 0 && Order(t', NO_PAGE)
    ensures t'.lv[0] == t.lv[0] && Ents(t'.pg, t'.lv[0]) == Ents(t.pg, t.lv[0])
  {
    hide RowOK, Kids, Stacked, ParentsOK, LevelsOK;
    OnlyChild(t);
    forall M, x | 0 <= M < |t'.lv| && 0 <= x < |t.lv[M]|
      ensures KeysOf(t.pg, t.lv[M][x]) == KeysOf(t'.pg, t.lv[M][x])
    {
      ShrinkRow(t, t', M);
    }
    var top := |t.lv| - 1;
    var row := t.lv[top];
    assert row == [Root(t)];
    assert Seps(t.pg, row, [0]) == [0];
    DownFrame(t.pg, t'.pg, t.lv, t'.lv, top - 1, [0]);
    assert LeafSeps(t') == LeafSeps(t);
    ShrinkRow(t, t', 0);
    EntsFrame(t.pg, t'.pg, t.lv[0]);
    LeafOrderFrame(t.pg, t'.pg, t.lv[0], LeafSeps(t), NO_PAGE);
  }
}
