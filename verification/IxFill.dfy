/** How many keys the pages hold across splits, merges and changes of the root. */
module IxFill {
  import opened Common
  import opened IxLevels
  import opened IxShape
  import opened IxSplit
  import opened IxMerge

  lemma RootIn(t: Tree)
    requires Shape(t)
    ensures Root(t) in t.pg && t.lvl[Root(t)] == |t.lv| - 1
    ensures t.pg[Root(t)].parent == NO_PAGE
  {
    assert RowOK(t.pg, t.lv[|t.lv| - 1], |t.lv| == 1);
    assert t.lv[|t.lv| - 1][0] == Root(t);
  }

  /** An overfull page is cut into two pages that both hold enough. */
  lemma SplitFill(t: Tree, t': Tree, s: Site, m: nat, q: int, order: nat)
    requires Splits(t, t', s, m, q) && order >= 3
    requires Occupied(t.pg, Root(t), order, {s.p, s.u})
    requires t.pg[s.p].Size() == MaxKeys(order, t.pg[s.p].Leaf?) + 1 && m == MinKeys(order, t.pg[s.p].Leaf?)
    ensures |t'.lv| == |t.lv| && |t'.lv[|t.lv| - 1]| == 1 && Root(t') == Root(t)
    ensures Occupied(t'.pg, Root(t'), order, {s.u})
    ensures s.u in t'.pg && t'.pg[s.u].Inner? && t'.pg[s.u].Size() == t.pg[s.u].Size() + 1
  {
    hide RowOK, Kids, ParentsOK, LevelsOK, SplitTree, Stacked;
    SplitLv(t, t', s, m, q);
    SplitNew(t, t', s, m, q);
    RootIn(t);
    SiteFacts(t, s);
    forall x | x in t'.pg && x != s.u
      ensures Fill(t'.pg[x], order, x == Root(t))
    {
      if x != q && x != s.p {
        SplitAt(t, t', s, m, q, x);
        assert Fill(t.pg[x], order, x == Root(t));
      }
    }
  }

  /** The two halves of a merge fit in one page. */
  lemma MergeFill(t: Tree, t': Tree, s: Site, l: int, k: nat, order: nat)
    requires Merges(t, t', s, l, k) && order >= 3
    requires Occupied(t.pg, Root(t), order, {s.p, l})
    requires t.pg[s.p].Size() + t.pg[l].Size() + 1 == 2 * MinKeys(order, t.pg[l].Leaf?)
    ensures |t'.lv| == |t.lv| && |t'.lv[|t.lv| - 1]| == 1 && Root(t') == Root(t)
    ensures Occupied(t'.pg, Root(t'), order, {s.u})
    ensures s.u in t'.pg && t'.pg[s.u].Inner? && t'.pg[s.u].Size() == t.pg[s.u].Size() - 1
  {
    hide RowOK, Kids, ParentsOK, LevelsOK, MergeTree, Stacked;
    MergeLv(t, t', s, l, k);
    MergeNew(t, t', s, l, k);
    RootIn(t);
    SiteFacts(t, s);
    LeftFacts(t, s, l);
    forall x | x in t'.pg && x != s.u
      ensures Fill(t'.pg[x], order, x == Root(t))
    {
      if x != l {
        MergeAt(t, t', s, l, k, x);
        assert Fill(t.pg[x], order, x == Root(t));
      }
    }
  }
}
