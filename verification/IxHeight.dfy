/** How full the pages of an index are, and how few levels it has. */
module IxHeight {
  import opened Common
  import opened IxLevels
  import opened IxShape
  import opened IxFind
  import opened IxGrow
  import opened IxTree

  // ---- pages

  lemma PageKind(t: Tree, p: int) returns (L: nat, i: nat)
    requires Shape(t) && p in t.pg
    ensures L < |t.lv| && i < |t.lv[L]| && t.lv[L][i] == p && t.pg[p].Leaf? == (L == 0)
    ensures t.pg[p].Inner? ==> |t.pg[p].kids| == |t.pg[p].keys| + 1
  {
    assert Placed(t.lv, t.lvl, p);
    L := t.lvl[p];
    i :| 0 <= i < |t.lv[L]| && t.lv[L][i] == p;
    assert RowOK(t.pg, t.lv[L], L == 0);
    if L > 0 {
      assert StackedAt(t.pg, t.lv, L);
    }
  }

  /** Every page but the root is at least half full, and no page holds more than the order allows. */
  lemma HalfFull(ih: IxIndexHandle, p: int)
    requires ih.Valid() && p in ih.pages
    ensures var n := ih.pages[p];
            && (n.Leaf? ==> |n.ents| <= ih.order) && (n.Inner? ==> 2 <= |n.kids| <= ih.order)
            && (p != ih.root ==> ih.order <= 2 * n.Rids())
  {
    var L, i := PageKind(ih.tree, p);
    assert Fill(ih.pages[p], ih.order, p == ih.root);
  }

  // ---- rows

  function Power(b: nat, e: nat): nat {
    if e == 0 then 1 else b * Power(b, e - 1)
  }

  lemma {:induction false} KidsCount(pg: Pages, row: seq<int>, lo: nat, hi: nat)
    requires forall i :: 0 <= i < |row| ==> lo <= |KidsOf(pg, row[i])| <= hi
    ensures lo * |row| <= |Kids(pg, row)| <= hi * |row|
  {
    if row == [] {
    } else {
      KidsCount(pg, row[1..], lo, hi);
      assert lo * |row| == lo + lo * |row[1..]| && hi * |row| == hi + hi * |row[1..]|;
    }
  }

  lemma {:induction false} EntsCount(pg: Pages, row: seq<int>, lo: nat, hi: nat)
    requires forall i :: 0 <= i < |row| ==> lo <= |EntsOf(pg, row[i])| <= hi
    ensures lo * |row| <= |Ents(pg, row)| <= hi * |row|
  {
    if row == [] {
    } else {
      EntsCount(pg, row[1..], lo, hi);
      assert lo * |row| == lo + lo * |row[1..]| && hi * |row| == hi + hi * |row[1..]|;
    }
  }

  /** How many children, or entries, a page of level `L` has. */
  lemma Degree(ih: IxIndexHandle, L: nat, i: nat)
    requires ih.Valid() && L < |ih.tree.lv| && i < |ih.tree.lv[L]|
    ensures var p, m := ih.tree.lv[L][i], (ih.order + 1) / 2;
            && (L == 0 ==> |EntsOf(ih.pages, p)| <= ih.order)
            && (L == 0 && |ih.tree.lv| > 1 ==> m <= |EntsOf(ih.pages, p)|)
            && (L > 0 ==> 2 <= |KidsOf(ih.pages, p)| <= ih.order)
            && (0 < L < |ih.tree.lv| - 1 ==> m <= |KidsOf(ih.pages, p)|)
  {
    var p := ih.tree.lv[L][i];
    RootParent(ih.tree, L, i);
    assert RowOK(ih.tree.pg, ih.tree.lv[L], L == 0);
    HalfFull(ih, p);
  }

  lemma RowBelow(ih: IxIndexHandle, L: nat, lo: nat)
    requires ih.Valid() && 0 < L < |ih.tree.lv|
    requires lo == if L == |ih.tree.lv| - 1 then 2 else (ih.order + 1) / 2
    ensures lo * |ih.tree.lv[L]| <= |ih.tree.lv[L - 1]| <= ih.order * |ih.tree.lv[L]|
  {
    forall i | 0 <= i < |ih.tree.lv[L]|
      ensures lo <= |KidsOf(ih.pages, ih.tree.lv[L][i])| <= ih.order
    {
      Degree(ih, L, i);
    }
    assert StackedAt(ih.tree.pg, ih.tree.lv, L);
    KidsCount(ih.pages, ih.tree.lv[L], lo, ih.order);
  }

  /** The number of pages on each level. */
  lemma {:induction false} PagesOn(ih: IxIndexHandle, L: nat)
    requires ih.Valid() && L < |ih.tree.lv|
    ensures |ih.tree.lv[L]| <= Power(ih.order, |ih.tree.lv| - 1 - L)
    ensures L + 1 < |ih.tree.lv| ==> |ih.tree.lv[L]| >= 2 * Power((ih.order + 1) / 2, |ih.tree.lv| - 2 - L)
    decreases |ih.tree.lv| - L
  {
    hide IxIndexHandle.Valid, Power;
    var h := |ih.tree.lv|;
    OnePower(ih.order);
    OnePower((ih.order + 1) / 2);
    if L == h - 1 {
      OneRoot(ih);
    } else {
      PagesOn(ih, L + 1);
      RowBelow(ih, L + 1, if L + 1 == h - 1 then 2 else (ih.order + 1) / 2);
      AtMostStep(|ih.tree.lv[L + 1]|, |ih.tree.lv[L]|, ih.order, h - 2 - L);
      if L + 1 < h - 1 {
        AtLeastStep(|ih.tree.lv[L + 1]|, |ih.tree.lv[L]|, (ih.order + 1) / 2, h - 3 - L);
      } else {
        OneRoot(ih);
      }
    }
  }

  lemma OnePower(b: nat)
    ensures Power(b, 0) == 1
  {
  }

  lemma OneRoot(ih: IxIndexHandle)
    requires ih.Valid()
    ensures |ih.tree.lv| > 0 && |ih.tree.lv[|ih.tree.lv| - 1]| == 1
  {
  }

  lemma AtMostStep(x: nat, y: nat, b: nat, e: nat)
    requires x <= Power(b, e) && y <= b * x
    ensures y <= Power(b, e + 1)
  {
    MulUp(x, Power(b, e), b);
  }

  lemma AtLeastStep(x: nat, y: nat, b: nat, e: nat)
    requires 2 * Power(b, e) <= x && b * x <= y
    ensures 2 * Power(b, e + 1) <= y
  {
    MulUp(2 * Power(b, e), x, b);
    assert b * (2 * Power(b, e)) == 2 * (b * Power(b, e));
  }

  // ---- entries

  lemma {:induction false} MapCount(es: seq<Entry>)
    requires SortedEnts(es)
    ensures |MapOf(es)| == |es|
  {
    if es == [] {
    } else {
      var init, e := es[..|es| - 1], es[|es| - 1];
      MapCount(init);
      MapHas(init, e.key);
      assert MapOf(es) == MapOf(init)[e.key := e.rid];
      assert MapOf(es).Keys == MapOf(init).Keys + {e.key};
    }
  }

  /** An index of `h` levels holds at most order^h entries and, if it has more than one level, at least
      2 * m^(h-1), where m is half the order rounded up. So h is at most logarithmic in the number of
      entries, even to the base 2. */
  lemma Height(ih: IxIndexHandle)
    requires ih.Valid()
    ensures var h := |ih.tree.lv|;
            && |ih.Contents()| <= Power(ih.order, h)
            && (h > 1 ==> 2 * Power((ih.order + 1) / 2, h - 1) <= |ih.Contents()|)
            && (h > 1 ==> Power(2, h) <= |ih.Contents()|)
  {
    hide Power, MapOf, EntsOf;
    var h := |ih.tree.lv|;
    assert SortedEnts(Flat(ih.tree));
    MapCount(Flat(ih.tree));
    PagesOn(ih, 0);
    LeavesHold(ih);
    Products(|ih.tree.lv[0]|, |Flat(ih.tree)|, ih.order, h);
  }

  lemma LeavesHold(ih: IxIndexHandle)
    requires ih.Valid()
    ensures |ih.tree.lv| > 0 && |Flat(ih.tree)| <= ih.order * |ih.tree.lv[0]|
    ensures |ih.tree.lv| > 1 ==> (ih.order + 1) / 2 * |ih.tree.lv[0]| <= |Flat(ih.tree)|
  {
    var lo := if |ih.tree.lv| > 1 then (ih.order + 1) / 2 else 0;
    forall i | 0 <= i < |ih.tree.lv[0]|
      ensures lo <= |EntsOf(ih.pages, ih.tree.lv[0][i])| <= ih.order
    {
      Degree(ih, 0, i);
    }
    EntsCount(ih.pages, ih.tree.lv[0], lo, ih.order);
  }

  lemma Products(leaves: nat, entries: nat, order: nat, h: nat)
    requires h > 0 && order >= 3 && leaves <= Power(order, h - 1) && entries <= order * leaves
    requires h > 1 ==> 2 * Power((order + 1) / 2, h - 2) <= leaves && (order + 1) / 2 * leaves <= entries
    ensures entries <= Power(order, h)
    ensures h > 1 ==> 2 * Power((order + 1) / 2, h - 1) <= entries && Power(2, h) <= entries
  {
    AtMostStep(leaves, entries, order, h - 1);
    if h > 1 {
      AtLeastStep(leaves, entries, (order + 1) / 2, h - 2);
      PowerUp(2, (order + 1) / 2, h - 1);
    }
  }

  lemma {:induction false} PowerUp(a: nat, b: nat, e: nat)
    requires a <= b
    ensures Power(a, e) <= Power(b, e)
  {
    if e == 0 {
    } else {
      PowerUp(a, b, e - 1);
      MulUp(Power(a, e - 1), Power(b, e - 1), a);
      assert a * Power(b, e - 1) <= b * Power(b, e - 1);
    }
  }
}
