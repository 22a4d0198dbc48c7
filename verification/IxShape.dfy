/** What a well-formed index tree is, and what follows from it. */
module IxShape {
  import opened Common
  import opened IxLevels

  /** The pages of an index together with the rows they form (`lv[0]` is the leaf row,
      the last row is the root alone) and the level of every page. */
  datatype Tree = Tree(pg: Pages, lv: seq<seq<int>>, lvl: map<int, nat>)

  ghost function PrevIn(row: seq<int>, i: nat): int
    requires i < |row|
  {
    if i == 0 then NO_PAGE else row[i - 1]
  }

  ghost function NextIn(row: seq<int>, i: nat): int
    requires i < |row|
  {
    if i + 1 == |row| then NO_PAGE else row[i + 1]
  }

  /** A level: its pages exist, are of one kind, are distinct, and their neighbour links
      list exactly this row in order. */
  ghost predicate RowOK(pg: Pages, row: seq<int>, leaf: bool) {
    && row != []
    && NoDup(row)
    && (forall i :: 0 <= i < |row| ==> row[i] in pg && pg[row[i]].Leaf? == leaf)
    && forall i :: 0 <= i < |row| ==> LinkedAt(pg, row, i)
  }

  ghost predicate LinkedAt(pg: Pages, row: seq<int>, i: nat)
    requires i < |row|
  {
    && At(pg, row[i]).prev == PrevIn(row, i)
    && At(pg, row[i]).next == NextIn(row, i)
  }

  ghost predicate ParentsOK(pg: Pages, row: seq<int>) {
    forall i, j :: 0 <= i < |row| && 0 <= j < |KidsOf(pg, row[i])| ==> At(pg, KidsOf(pg, row[i])[j]).parent == row[i]
  }

  ghost predicate LevelsOK(t: Tree) {
    && (forall L, i :: 0 <= L < |t.lv| && 0 <= i < |t.lv[L]| ==> t.lv[L][i] in t.lvl && t.lvl[t.lv[L][i]] == L)
    && t.lvl.Keys == t.pg.Keys
    && (forall p {:trigger Placed(t.lv, t.lvl, p)} :: p in t.pg ==> Placed(t.lv, t.lvl, p))
  }

  /** The page is on the level recorded for it. */
  ghost predicate Placed(lv: seq<seq<int>>, lvl: map<int, nat>, p: int) {
    p > 0 && p in lvl && lvl[p] < |lv| && p in lv[lvl[p]]
  }

  ghost predicate Tall(t: Tree) {
    && |t.lv| > 0
    && |t.lv[|t.lv| - 1]| == 1
    && Stacked(t.pg, t.lv)
  }

  /** Equal depth, parent pointers, neighbour links, and no page outside the tree. */
  ghost predicate Shape(t: Tree) {
    && Tall(t)
    && (forall L :: 0 <= L < |t.lv| ==> RowOK(t.pg, t.lv[L], L == 0))
    && (forall L :: 0 < L < |t.lv| ==> ParentsOK(t.pg, t.lv[L]))
    && At(t.pg, Root(t)).parent == NO_PAGE
    && LevelsOK(t)
  }

  ghost function Root(t: Tree): int
    requires |t.lv| > 0 && |t.lv[|t.lv| - 1]| == 1
  {
    t.lv[|t.lv| - 1][0]
  }

  // ---- order

  ghost predicate SortedEnts(es: seq<Entry>) {
    forall i, j :: 0 <= i < j < |es| ==> es[i].key < es[j].key
  }

  /** Each leaf separator but the one at `hole` lies above the last key of the leaf before
      it and not above the first key of its own leaf. */
  ghost predicate LeafOrder(pg: Pages, row: seq<int>, ss: seq<nat>, hole: int) {
    && |ss| == |row|
    && (ss != [] ==> ss[0] == 0)
    && (|row| > 1 ==> forall i :: 0 <= i < |row| ==> EntsOf(pg, row[i]) != [])
    && forall i :: 0 < i < |row| && i != hole ==> SepFits(pg, row, i, ss[i])
  }

  ghost predicate SepFits(pg: Pages, row: seq<int>, i: nat, s: nat)
    requires 0 < i < |row|
  {
    && EntsOf(pg, row[i - 1]) != []
    && EntsOf(pg, row[i]) != []
    && LastKey(pg, row[i - 1]) < s <= FirstKey(pg, row[i])
  }

  ghost function FirstKey(pg: Pages, p: int): nat
    requires EntsOf(pg, p) != []
  {
    EntsOf(pg, p)[0].key
  }

  ghost function LastKey(pg: Pages, p: int): nat
    requires EntsOf(pg, p) != []
  {
    EntsOf(pg, p)[|EntsOf(pg, p)| - 1].key
  }

  /** The separator of every leaf: the key that leads the search to it. */
  ghost function LeafSeps(t: Tree): seq<nat>
    requires |t.lv| > 0
  {
    Down(t.pg, t.lv, |t.lv| - 1, [0])
  }

  /** The separator of every page of level `L`. */
  ghost function SepRow(t: Tree, L: nat): seq<nat>
    requires L < |t.lv|
    decreases |t.lv| - L
  {
    if L == |t.lv| - 1 then [0] else Seps(t.pg, t.lv[L + 1], SepRow(t, L + 1))
  }

  ghost predicate Order(t: Tree, hole: int)
    requires |t.lv| > 0
  {
    && LeafOrder(t.pg, t.lv[0], LeafSeps(t), hole)
    && SortedEnts(Ents(t.pg, t.lv[0]))
  }

  lemma {:induction false} SepRowDown(t: Tree, L: nat)
    requires Tall(t) && L < |t.lv|
    ensures |SepRow(t, L)| == |t.lv[L]|
    ensures LeafSeps(t) == Down(t.pg, t.lv, L, SepRow(t, L))
    decreases |t.lv| - L
  {
    if L < |t.lv| - 1 {
      assert StackedAt(t.pg, t.lv, L + 1);
      SepRowDown(t, L + 1);
      SepsLen(t.pg, t.lv[L + 1], SepRow(t, L + 1));
    }
  }

  /** Entries of different leaves of a sorted row. */
  lemma LeafEntsApart(pg: Pages, row: seq<int>, i: nat)
    requires SortedEnts(Ents(pg, row)) && i + 1 < |row|
    requires EntsOf(pg, row[i]) != [] && EntsOf(pg, row[i + 1]) != []
    ensures LastKey(pg, row[i]) < FirstKey(pg, row[i + 1])
  {
    EntsAround(pg, row, i);
    EntsAround(pg, row[i + 1..], 0);
    var a, b, c := Ents(pg, row[..i]), EntsOf(pg, row[i]), EntsOf(pg, row[i + 1]);
    assert row[i + 1..][..0] == [];
    var d := Ents(pg, row[i + 1..][1..]);
    assert Ents(pg, row) == a + b + (c + d);
    assert Ents(pg, row)[|a| + |b| - 1] == b[|b| - 1];
    assert Ents(pg, row)[|a| + |b|] == c[0];
  }

  lemma LeafEntsSorted(pg: Pages, row: seq<int>, i: nat)
    requires SortedEnts(Ents(pg, row)) && i < |row|
    ensures SortedEnts(EntsOf(pg, row[i]))
  {
    EntsAround(pg, row, i);
    var a, b, c := Ents(pg, row[..i]), EntsOf(pg, row[i]), Ents(pg, row[i + 1..]);
    forall x, y | 0 <= x < y < |b|
      ensures b[x].key < b[y].key
    {
      assert (a + b + c)[|a| + x] == b[x] && (a + b + c)[|a| + y] == b[y];
    }
  }

  /** The separators of the leaves rise strictly. */
  lemma {:induction false} LeafSepsRise(pg: Pages, row: seq<int>, ss: seq<nat>, i: nat, k: nat)
    requires LeafOrder(pg, row, ss, NO_PAGE) && SortedEnts(Ents(pg, row)) && i < k < |row|
    ensures ss[i] < ss[k]
    decreases k
  {
    LeafEntsSorted(pg, row, k - 1);
    assert SepFits(pg, row, k, ss[k]);
    if k - 1 > 0 {
      assert SepFits(pg, row, k - 1, ss[k - 1]);
    }
    if i < k - 1 {
      LeafSepsRise(pg, row, ss, i, k - 1);
    }
  }

  /** So do the separators of every level, and the keys within every page. */
  lemma SepRowRises(t: Tree, L: nat, i: nat, k: nat)
    requires Tall(t) && Order(t, NO_PAGE) && L < |t.lv| && i < k < |t.lv[L]|
    ensures |SepRow(t, L)| == |t.lv[L]| && SepRow(t, L)[i] < SepRow(t, L)[k]
  {
    SepRowDown(t, L);
    SepAtLeaf(t.pg, t.lv, L, SepRow(t, L), i);
    SepAtLeaf(t.pg, t.lv, L, SepRow(t, L), k);
    LeafIdxMono(t.pg, t.lv, L, i, k);
    LeafSepsRise(t.pg, t.lv[0], LeafSeps(t), LeafIdx(t.pg, t.lv, L, i), LeafIdx(t.pg, t.lv, L, k));
  }

  /** Keys of the page at position `i` of level `L + 1`, as separators of level `L`. */
  lemma KeysInSepRow(t: Tree, L: nat, i: nat, j: nat)
    requires Tall(t) && L + 1 < |t.lv| && i < |t.lv[L + 1]| && j <= |KeysOf(t.pg, t.lv[L + 1][i])|
    ensures |SepRow(t, L)| == |t.lv[L]| && |SepRow(t, L + 1)| == |t.lv[L + 1]|
    ensures Off(t.pg, t.lv[L + 1], i) + j < |t.lv[L]|
    ensures SepRow(t, L)[Off(t.pg, t.lv[L + 1], i) + j]
         == if j == 0 then SepRow(t, L + 1)[i] else KeysOf(t.pg, t.lv[L + 1][i])[j - 1]
  {
    SepRowDown(t, L);
    SepRowDown(t, L + 1);
    assert StackedAt(t.pg, t.lv, L + 1);
    SepAtKid(t.pg, t.lv[L + 1], SepRow(t, L + 1), i, j);
  }

  ghost predicate SortedKeys(ks: seq<nat>) {
    forall i, j :: 0 <= i < j < |ks| ==> ks[i] < ks[j]
  }

  lemma PageKeysRise(t: Tree, L: nat, i: nat)
    requires Tall(t) && Order(t, NO_PAGE) && L + 1 < |t.lv| && i < |t.lv[L + 1]|
    ensures SortedKeys(KeysOf(t.pg, t.lv[L + 1][i]))
  {
    var ks := KeysOf(t.pg, t.lv[L + 1][i]);
    var o := Off(t.pg, t.lv[L + 1], i);
    forall x, y | 0 <= x < y < |ks|
      ensures ks[x] < ks[y]
    {
      KeysInSepRow(t, L, i, x + 1);
      KeysInSepRow(t, L, i, y + 1);
      SepRowRises(t, L, o + x + 1, o + y + 1);
    }
  }

  // ---- neighbours and parents

  /** A page sits at one position only. */
  lemma IndexUnique(row: seq<int>, i: nat, j: nat)
    requires NoDup(row) && i < |row| && j < |row| && row[i] == row[j]
    ensures i == j
  {
  }

  /** The parent page of the page at position `x` of level `L`, and its rank there. */
  lemma ParentOf(t: Tree, L: nat, x: nat) returns (i: nat, j: nat)
    requires Shape(t) && L + 1 < |t.lv| && x < |t.lv[L]|
    ensures i < |t.lv[L + 1]| && j < |KidsOf(t.pg, t.lv[L + 1][i])|
    ensures x == Off(t.pg, t.lv[L + 1], i) + j
    ensures KidsOf(t.pg, t.lv[L + 1][i])[j] == t.lv[L][x]
    ensures t.lv[L][x] in t.pg && t.pg[t.lv[L][x]].parent == t.lv[L + 1][i]
    ensures t.lv[L + 1][i] in t.pg && t.pg[t.lv[L + 1][i]].Inner?
    ensures |t.pg[t.lv[L + 1][i]].kids| == |t.pg[t.lv[L + 1][i]].keys| + 1
  {
    assert StackedAt(t.pg, t.lv, L + 1);
    i, j := Locate(t.pg, t.lv[L + 1], x);
    assert RowOK(t.pg, t.lv[L], L == 0);
    assert RowOK(t.pg, t.lv[L + 1], false);
    assert ParentsOK(t.pg, t.lv[L + 1]);
  }

  lemma KidsDistinct(t: Tree, L: nat, i: nat, j: nat, j': nat)
    requires Shape(t) && L + 1 < |t.lv| && i < |t.lv[L + 1]|
    requires j < |KidsOf(t.pg, t.lv[L + 1][i])| && j' < |KidsOf(t.pg, t.lv[L + 1][i])|
    requires KidsOf(t.pg, t.lv[L + 1][i])[j] == KidsOf(t.pg, t.lv[L + 1][i])[j']
    ensures j == j'
  {
    assert StackedAt(t.pg, t.lv, L + 1);
    KidAt(t.pg, t.lv[L + 1], i, j);
    KidAt(t.pg, t.lv[L + 1], i, j');
    assert RowOK(t.pg, t.lv[L], L == 0);
    IndexUnique(t.lv[L], Off(t.pg, t.lv[L + 1], i) + j, Off(t.pg, t.lv[L + 1], i) + j');
  }

  // ---- occupancy

  function MinRids(order: nat): nat {
    (order + 1) / 2
  }

  function MaxKeys(order: nat, leaf: bool): int {
    if leaf then order else order - 1
  }

  function MinKeys(order: nat, leaf: bool): int {
    if leaf then MinRids(order) else MinRids(order) - 1
  }

  ghost predicate Fill(n: Node, order: nat, root: bool) {
    && n.Size() <= MaxKeys(order, n.Leaf?)
    && (if root then n.Inner? ==> n.Size() >= 1 else n.Size() >= MinKeys(order, n.Leaf?))
  }

  /** Every page but those in `ex` holds an allowed number of keys. */
  ghost predicate Occupied(pg: Pages, root: int, order: nat, ex: set<int>) {
    forall p :: p in pg && p !in ex ==> Fill(pg[p], order, p == root)
  }
}
