/** The B+ tree index: pages edited in place, with the rows they form kept as ghost state. */
module IxTree {
  import opened Common
  import opened IxLevels
  import opened IxShape
  import opened IxEdit
  import opened IxShift
  import opened IxSplit
  import opened IxMerge
  import opened IxRoot
  import opened IxFill
  import opened IxFind
  import opened IxGrow
  import opened IxBalance

  const INIT_ROOT_PAGE: int := 1
  const INIT_NUM_PAGES: int := 2

  datatype InsertResult = Inserted(leaf: int) | NotUnique

  function LeafKeys(es: seq<Entry>): seq<nat> {
    seq(|es|, i requires 0 <= i < |es| => es[i].key)
  }

  class IxIndexHandle {
    var pages: Pages
    var root: int
    var lastLeaf: int
    var numPages: int
    const firstLeaf: int
    const order: nat
    ghost var tree: Tree

    /** The pages form a tree that the file header describes. */
    ghost predicate Steady()
      reads this
    {
      && pages == tree.pg
      && order >= 3
      && Framed(tree, root, firstLeaf, lastLeaf, numPages)
    }

    ghost predicate Valid()
      reads this
    {
      && Steady()
      && Order(tree, NO_PAGE)
      && Occupied(pages, root, order, {})
    }

    /** What the index holds. */
    ghost function Contents(): map<nat, Rid>
      reads this
      requires Steady()
    {
      MapOf(Flat(tree))
    }

    /** An index with one empty leaf. */
    constructor (order: nat)
      requires order >= 3
      ensures Valid() && Contents() == map[]
      ensures this.order == order && firstLeaf == INIT_ROOT_PAGE
    {
      var n := Leaf(NO_PAGE, NO_PAGE, NO_PAGE, []);
      pages := map[INIT_ROOT_PAGE := n];
      root, firstLeaf, lastLeaf, numPages := INIT_ROOT_PAGE, INIT_ROOT_PAGE, INIT_ROOT_PAGE, INIT_NUM_PAGES;
      this.order := order;
      tree := Tree(map[INIT_ROOT_PAGE := n], [[INIT_ROOT_PAGE]], map[INIT_ROOT_PAGE := 0]);
      new;
      assert LinkedAt(pages, tree.lv[0], 0);
      assert tree.lv[0][1..] == [];
      assert EntsOf(pages, INIT_ROOT_PAGE) == [] && Ents(pages, tree.lv[0][1..]) == [];
      assert Flat(tree) == [];
    }

    /** The leaf that the search for a key leads to (`find_leaf_page`). */
    method FindLeaf(key: nat) returns (p: int, ghost i: nat)
      requires Steady() && Order(tree, NO_PAGE)
      ensures Covers(tree, 0, i, key) && i < |tree.lv[0]| && p == tree.lv[0][i]
      ensures p in pages && pages[p].Leaf?
    {
      hide Kids, Seps, LevelsOK, ParentsOK, Ents;
      p := root;
      ghost var L := |tree.lv| - 1;
      i := 0;
      CoversRoot(tree, key);
      assert RowOK(tree.pg, tree.lv[L], L == 0);
      while !pages[p].Leaf?
        invariant Covers(tree, L, i, key) && p == tree.lv[L][i]
        invariant p in pages && pages[p].Leaf? == (L == 0)
        decreases L
      {
        var ks := pages[p].keys;
        PageKeysRise(tree, L - 1, i);
        var j := UpperBound(ks, key, 1);
        assert forall x :: 0 <= x < |ks| ==> Prefix(ks[x], 1) == ks[x];
        DescendStep(tree, L - 1, i, ks, key, j);
        p := pages[p].kids[j];
        i := Off(tree.pg, tree.lv[L], i) + j;
        L := L - 1;
        assert RowOK(tree.pg, tree.lv[L], L == 0);
      }
    }

    /** Where a key sits, or would sit, in its leaf. */
    method FindSlot(p: int, key: nat, ghost i: nat) returns (j: nat)
      requires Steady() && Order(tree, NO_PAGE) && Covers(tree, 0, i, key) && p == tree.lv[0][i]
      requires p in pages && pages[p].Leaf?
      ensures j <= |pages[p].ents| && SortedEnts(pages[p].ents)
      ensures forall x :: 0 <= x < j ==> pages[p].ents[x].key < key
      ensures forall x :: j <= x < |pages[p].ents| ==> key <= pages[p].ents[x].key
      ensures key in Contents() <==> j < |pages[p].ents| && pages[p].ents[j].key == key
      ensures key in Contents() ==> Contents()[key] == pages[p].ents[j].rid
    {
      hide Kids, Seps, LevelsOK, ParentsOK, Ents, RowOK, Covers;
      var es := pages[p].ents;
      OnlyHere(tree, i, key);
      j := LowerBound(LeafKeys(es), key, 1);
      assert forall x :: 0 <= x < |es| ==> LeafKeys(es)[x] == es[x].key && Prefix(es[x].key, 1) == es[x].key;
      SlotInMap(es, key, j);
    }

    method IsExist(key: nat) returns (b: bool)
      requires Valid()
      ensures b <==> key in Contents()
    {
      var p, i := FindLeaf(key);
      var j := FindSlot(p, key, i);
      b := j < |pages[p].ents| && pages[p].ents[j].key == key;
    }

    /** All record ids filed under a key: there is at most one (`get_value`). */
    method GetValue(key: nat) returns (found: bool, result: seq<Rid>)
      requires Valid()
      ensures found <==> key in Contents()
      ensures result == if key in Contents() then [Contents()[key]] else []
    {
      var p, i := FindLeaf(key);
      var j := FindSlot(p, key, i);
      var es := pages[p].ents;
      result := [];
      ghost var j0 := j;
      while j < |es| && es[j].key == key
        invariant j0 <= j <= |es|
        invariant j == j0 ==> result == []
        invariant j > j0 ==> j == j0 + 1 && es[j0].key == key && result == [es[j0].rid]
      {
        result := result + [es[j].rid];
        j := j + 1;
      }
      found := result != [];
    }

    // ---- separators

    /** The leftmost leaf below a page (`get_min_leafnode`). */
    method MinLeaf(p: int, ghost L: nat, ghost i: nat) returns (m: int)
      requires pages == tree.pg && Shape(tree)
      requires L < |tree.lv| && i < |tree.lv[L]| && p == tree.lv[L][i]
      ensures LeafIdx(pages, tree.lv, L, i) < |tree.lv[0]| && m == tree.lv[0][LeafIdx(pages, tree.lv, L, i)]
      ensures m in pages && pages[m].Leaf?
    {
      hide Kids, LevelsOK, ParentsOK;
      m := p;
      ghost var M: nat, x: nat := L, i;
      assert RowOK(tree.pg, tree.lv[M], M == 0);
      LeftmostIdx(pages, tree.lv, L, i);
      while !pages[m].Leaf?
        invariant M < |tree.lv| && x < |tree.lv[M]| && m == tree.lv[M][x]
        invariant m in pages && pages[m].Leaf? == (M == 0)
        invariant LeafIdx(pages, tree.lv, M, x) == LeafIdx(pages, tree.lv, L, i)
        decreases M
      {
        assert StackedAt(tree.pg, tree.lv, M) && RowOK(tree.pg, tree.lv[M - 1], M - 1 == 0);
        assert |KidsOf(pages, m)| == |KeysOf(pages, m)| + 1;
        KidAt(pages, tree.lv[M], x, 0);
        m := pages[m].kids[0];
        M, x := M - 1, Off(pages, tree.lv[M], x);
      }
    }

    /** Climbs from a page to the lowest ancestor that is not a first child and writes the
        smallest key below the page into the key in front of that ancestor. */
    method MaintainParent(p: int, ghost L: nat, ghost i: nat)
      requires Steady() && L < |tree.lv| && i < |tree.lv[L]| && p == tree.lv[L][i]
      requires 0 < LeafIdx(pages, tree.lv, L, i) && Order(tree, LeafIdx(pages, tree.lv, L, i))
      modifies this`pages, this`tree
      ensures Steady() && Order(tree, NO_PAGE) && Flat(tree) == old(Flat(tree))
      ensures SameRows(old(tree), tree) && SameSizes(old(pages), pages) && SameEnts(old(pages), pages)
    {
      hide Kids, Seps, LevelsOK, ParentsOK, RowOK, Ents, Order, Stacked;
      var curr := p;
      ghost var M: nat, x: nat, h := L, i, LeafIdx(pages, tree.lv, L, i);
      RootParent(tree, M, x);
      var parentNo := pages[curr].parent;
      HoleBelowRoot(tree, L, i);
      assert parentNo != NO_PAGE;
      var minLeaf := MinLeaf(p, L, i);
      assert EntsOf(pages, minLeaf) != [] by {
        HoleEnts(tree, h);
      }
      var minKey := pages[minLeaf].ents[0].key;
      while parentNo != NO_PAGE
        invariant pages == old(pages) && tree == old(tree)
        invariant M < |tree.lv| && x < |tree.lv[M]| && curr == tree.lv[M][x] && curr in pages
        invariant parentNo == pages[curr].parent && LeafIdx(pages, tree.lv, M, x) == h
        decreases |tree.lv| - M
      {
        HoleBelowRoot(tree, M, x);
        ghost var s := SiteOf(tree, M, x);
        SiteFacts(tree, s);
        var rank := FindChild(pages[parentNo].kids, curr);
        KidsDistinct(tree, M, s.a, rank, s.j);
        if rank > 0 {
          ghost var t' := RepairStep(tree, s, h);
          pages := SetKey(pages, parentNo, rank, minKey);
          tree := t';
          FramedSame(old(tree), tree, root, firstLeaf, lastLeaf, numPages);
          return;
        }
        ClimbStep(tree, s);
        M, x := s.U, s.a;
        curr := parentNo;
        RootParent(tree, M, x);
        parentNo := pages[curr].parent;
      }
      RootParent(tree, M, x);
      HoleBelowRoot(tree, M, x);
      assert false;
    }

    // ---- redistribution

    /** Moves entries between two leaves, one at a time, until their sizes differ by one at
        most. */
    method BalanceLeaves(l: int, r: int)
      requires l in pages && r in pages && l != r && pages[l].Leaf? && pages[r].Leaf?
      modifies this`pages
      ensures l in pages && r in pages && pages[l].Leaf? && pages[r].Leaf?
      ensures old(l in pages && r in pages && pages[l].Leaf? && pages[r].Leaf?)
      ensures |pages[l].ents| <= old(|pages[l].ents| + |pages[r].ents|)
      ensures pages == ShareEnts(old(pages), l, r, |pages[l].ents|)
      ensures -1 <= 2 * |pages[l].ents| - old(|pages[l].ents| + |pages[r].ents|) <= 1
    {
      hide ShareEnts;
      ghost var pg := pages;
      ghost var n := |pg[l].ents| + |pg[r].ents|;
      ShareSame(pages, l, r);
      if |pages[l].ents| < |pages[r].ents| {
        while |pages[r].ents| - |pages[l].ents| > 1
          invariant l in pages && r in pages && pages[l].Leaf? && pages[r].Leaf?
          invariant |pages[l].ents| <= |pages[r].ents| && |pages[l].ents| + |pages[r].ents| == n
          invariant pages == ShareEnts(pg, l, r, |pages[l].ents|)
          decreases |pages[r].ents|
        {
          ShareOne(pg, l, r, |pages[l].ents|);
          ShareIs(pg, l, r, |pages[l].ents|);
          ShareIs(pg, l, r, |pages[l].ents| + 1);
          var e := pages[r].ents[0];
          pages := pages[l := pages[l].(ents := pages[l].ents + [e])];
          pages := pages[r := pages[r].(ents := pages[r].ents[1..])];
        }
      } else {
        while |pages[l].ents| - |pages[r].ents| > 1
          invariant l in pages && r in pages && pages[l].Leaf? && pages[r].Leaf?
          invariant |pages[l].ents| >= |pages[r].ents| && |pages[l].ents| + |pages[r].ents| == n
          invariant pages == ShareEnts(pg, l, r, |pages[l].ents|)
          decreases |pages[l].ents|
        {
          var k := |pages[l].ents| - 1;
          ShareOne(pg, l, r, k);
          ShareIs(pg, l, r, k);
          ShareIs(pg, l, r, k + 1);
          var e := pages[l].ents[k];
          pages := pages[r := pages[r].(ents := [e] + pages[r].ents)];
          pages := pages[l := pages[l].(ents := pages[l].ents[..k])];
        }
      }
    }

    /** Evens out two neighbouring leaves. */
    method RedistributeLeaves(l: int, r: int, ghost i: nat)
      requires Steady() && Order(tree, NO_PAGE)
      requires i + 1 < |tree.lv[0]| && l == tree.lv[0][i] && r == tree.lv[0][i + 1]
      requires EvenOut(pages, root, order, l, r)
      modifies this`pages, this`tree
      ensures Valid() && Flat(tree) == old(Flat(tree)) && SameRows(old(tree), tree)
      ensures l in pages && r in pages && pages[l].Leaf? && pages[r].Leaf?
      ensures old(l in pages && r in pages && pages[l].Leaf? && pages[r].Leaf?)
      ensures pages[l].ents + pages[r].ents == old(pages[l].ents + pages[r].ents) && pages[l].ents != []
              && pages[r].ents != []
      ensures Even(|pages[l].ents|, |pages[r].ents|) && OtherLeaves(old(pages), pages, {l, r})
    {
      hide Kids, Seps, LevelsOK, ParentsOK, RowOK, Ents, Order, Stacked, ShareEnts, Flat, Fill;
      LeafPair(tree, i);
      ghost var pg := pages;
      BalanceLeaves(l, r);
      ShareOthers(pg, l, r, |pages[l].ents|);
      ShareIs(pg, l, r, |pages[l].ents|);
      ghost var t' := ShareStep(tree, i, |pages[l].ents|);
      ShareOccupied(pg, l, r, |pages[l].ents|, root, order);
      tree := t';
      FramedSame(old(tree), tree, root, firstLeaf, lastLeaf, numPages);
      ghost var pg1 := pages;
      MaintainParent(r, 0, i + 1);
      OccupiedSame(pg1, pages, root, order, {});
    }

    /** Two inner pages between which children are being moved. */
    ghost predicate Shifting(l: int, r: int, L: nat, i: nat)
      reads this
    {
      && pages == tree.pg && Moving(tree, L, i) && l == tree.lv[L][i] && r == tree.lv[L][i + 1]
      && InnerPages(pages, l, r) && Occupied(pages, root, order, {l, r})
    }

    method MoveFirstLeft(l: int, r: int, ghost L: nat, ghost i: nat)
      requires Shifting(l, r, L, i) && |pages[r].keys| > 0
      modifies this`pages, this`tree
      ensures Shifting(l, r, L, i) && SameRows(old(tree), tree) && |tree.lv| > 0 && Flat(tree) == old(Flat(tree))
      ensures |pages[l].keys| == old(|pages[l].keys|) + 1 && |pages[r].keys| == old(|pages[r].keys|) - 1
    {
      hide Kids, Seps, LevelsOK, ParentsOK, RowOK, Ents, Order, Stacked, MoveLeft, MoveRight;
      MovingPair(tree, L, i);
      MovingKids(tree, L, i, l, r);
      var m := MinLeaf(r, L, i + 1);
      var k := pages[m].ents[0].key;
      MoveSizes(pages, l, r, k, root, order);
      ghost var t' := MoveLeftTree(tree, L, i, k);
      pages := MoveLeft(pages, l, r, k);
      tree := t';
      MovingKids(tree, L, i, l, r);
    }

    method MoveLastRight(l: int, r: int, ghost L: nat, ghost i: nat)
      requires Shifting(l, r, L, i) && |pages[l].keys| > 0
      modifies this`pages, this`tree
      ensures Shifting(l, r, L, i) && SameRows(old(tree), tree) && |tree.lv| > 0 && Flat(tree) == old(Flat(tree))
      ensures |pages[l].keys| == old(|pages[l].keys|) - 1 && |pages[r].keys| == old(|pages[r].keys|) + 1
    {
      hide Kids, Seps, LevelsOK, ParentsOK, RowOK, Ents, Order, Stacked, MoveLeft, MoveRight;
      MovingPair(tree, L, i);
      MovingKids(tree, L, i, l, r);
      var m := MinLeaf(r, L, i + 1);
      var k := pages[m].ents[0].key;
      MoveSizes(pages, l, r, k, root, order);
      ghost var t' := MoveRightTree(tree, L, i, k);
      pages := MoveRight(pages, l, r, k);
      tree := t';
      MovingKids(tree, L, i, l, r);
    }

    /** Evens out two neighbouring inner pages, which need not have the same parent. */
    method RedistributeInner(l: int, r: int, ghost L: nat, ghost i: nat)
      requires Steady() && Order(tree, NO_PAGE) && 0 < L < |tree.lv|
      requires i + 1 < |tree.lv[L]| && l == tree.lv[L][i] && r == tree.lv[L][i + 1]
      requires EvenOut(pages, root, order, l, r)
      modifies this`pages, this`tree
      ensures Valid() && Flat(tree) == old(Flat(tree)) && SameRows(old(tree), tree)
      ensures l in pages && r in pages && Even(pages[l].Size(), pages[r].Size())
    {
      hide Kids, Seps, LevelsOK, ParentsOK, RowOK, Ents, Order, Stacked, SameEnts, Flat;
      AnyHole(tree, LeafIdx(pages, tree.lv, L, i + 1));
      MovingKids(tree, L, i, l, r);
      ghost var total := |pages[l].keys| + |pages[r].keys|;
      if |pages[l].keys| < |pages[r].keys| {
        while |pages[r].keys| - |pages[l].keys| > 1
          invariant Shifting(l, r, L, i) && SameRows(old(tree), tree) && Flat(tree) == old(Flat(tree))
          invariant |pages[l].keys| + |pages[r].keys| == total && |pages[l].keys| <= |pages[r].keys|
          decreases |pages[r].keys|
        {
          MoveFirstLeft(l, r, L, i);
        }
      } else {
        while |pages[l].keys| - |pages[r].keys| > 1
          invariant Shifting(l, r, L, i) && SameRows(old(tree), tree) && Flat(tree) == old(Flat(tree))
          invariant |pages[l].keys| + |pages[r].keys| == total && |pages[l].keys| >= |pages[r].keys|
          decreases |pages[l].keys|
        {
          MoveLastRight(l, r, L, i);
        }
      }
      FramedSame(old(tree), tree, root, firstLeaf, lastLeaf, numPages);
      MovingPair(tree, L, i);
      ghost var pg1 := pages;
      assert Occupied(pg1, root, order, {}) by {
        assert Fill(pg1[l], order, false) && Fill(pg1[r], order, false);
      }
      MaintainParent(r, L, i + 1);
      OccupiedSame(pg1, pages, root, order, {});
    }

    // ---- splitting

    /** Sets the parent of each child of a new page (`maintain_child`). */
    method AdoptChildren(u: int, kids: seq<int>)
      requires forall c :: c in kids ==> c in pages
      modifies this`pages
      ensures pages == SetParents(old(pages), kids, u)
    {
      var j := 0;
      while j < |kids|
        invariant j <= |kids|
        invariant pages == SetParents(old(pages), kids[..j], u)
      {
        var c := kids[j];
        assert kids[..j + 1] == kids[..j] + [c];
        pages := pages[c := pages[c].(parent := u)];
        j := j + 1;
      }
      assert kids[..j] == kids;
    }

    /** The first half of `split`: the page gives its upper part to a new right neighbour. */
    method CutPage(p: int, ghost L: nat, ghost i: nat) returns (q: int, upKey: nat, ghost m: nat)
      requires Steady()
      requires L < |tree.lv| && i < |tree.lv[L]| && p == tree.lv[L][i] && p in pages && Overfull(pages[p], order)
      modifies this`pages, this`lastLeaf, this`numPages
      ensures q == old(numPages) && numPages == q + 1 && q !in tree.pg
      ensures m == MinKeys(order, tree.pg[p].Leaf?) && Cut(tree.pg[p], m) && upKey == UpKey(tree.pg[p], m)
      ensures pages == SplitPages(tree.pg, p, q, m) && SplitOff(tree.pg, pages, p, q)
      ensures p in pages && q in pages && EvenHalves(pages[p], pages[q], order)
      ensures tree.lv[0] != [] && lastLeaf == if L == 0
              && i + 1 == |tree.lv[0]| then q else tree.lv[0][|tree.lv[0]| - 1]
    {
      hide Kids, LevelsOK, ParentsOK, RowOK, Stacked, SetParents;
      CanCut(tree, L, i, order);
      EvenSplit(tree.pg, p, numPages, order);
      q := numPages;
      numPages := numPages + 1;
      var n := pages[p];
      m := MinKeys(order, n.Leaf?);
      upKey := UpKey(n, MinKeys(order, n.Leaf?));
      NextLevel(tree, L, i);
      SplitLeaves(tree, L, i, m, q);
      var newNode := RightHalf(n, MinKeys(order, n.Leaf?), p);
      RightKidsIn(tree, L, i, m);
      pages := pages[p := LeftHalf(n, MinKeys(order, n.Leaf?), q)][q := newNode];
      SplitPagesAre(tree, L, i, m, p, q, pages, newNode.KidList());
      if n.next != NO_PAGE {
        pages := pages[n.next := pages[n.next].(prev := q)];
      } else if n.Leaf? {
        lastLeaf := q;
      }
      if n.Inner? {
        AdoptChildren(q, newNode.kids);
      } else {
        NoChildren(pages, q);
      }
    }

    /** Cuts an overfull page in two and tells its parent. */
    method Split(p: int, ghost L: nat, ghost i: nat) returns (q: int)
      requires Steady() && Order(tree, NO_PAGE)
      requires L < |tree.lv| && i < |tree.lv[L]| && p == tree.lv[L][i] && p in pages
      requires Overfull(pages[p], order) && Occupied(pages, root, order, {p})
      modifies this
      ensures Valid() && Flat(tree) == old(Flat(tree))
      ensures SplitOff(old(pages), pages, p, q) && q !in old(pages)
      decreases |tree.lv| - L, 1
    {
      hide Kids, Shape, Ents, Order, SplitPages, Flat, Occupied;
      var upKey: nat;
      ghost var m: nat;
      q, upKey, m := CutPage(p, L, i);
      ghost var pg1 := pages;
      InsertIntoParent(p, upKey, q, L, i, m);
      assert SplitOff(old(pages), pg1, p, q) && SameEnts(pg1, pages);
    }

    /** What holds between the two halves of `split`. */
    ghost predicate Halved(p: int, k: nat, q: int, L: nat, i: nat, m: nat)
      reads this
    {
      && order >= 3 && Shape(tree) && Order(tree, NO_PAGE)
      && L < |tree.lv| && i < |tree.lv[L]| && p == tree.lv[L][i] && p in tree.pg
      && Overfull(tree.pg[p], order) && Occupied(tree.pg, root, order, {p})
      && m == MinKeys(order, tree.pg[p].Leaf?) && Cut(tree.pg[p], m) && k == UpKey(tree.pg[p], m)
      && tree.lv[0] != [] && root == Root(tree) && firstLeaf == tree.lv[0][0] && numPages == q + 1 && 0 < q
      && (forall x :: x in tree.pg ==> x < q)
      && (lastLeaf == if L == 0 && i + 1 == |tree.lv[0]| then q else tree.lv[0][|tree.lv[0]| - 1])
      && pages == SplitPages(tree.pg, p, q, m)
    }

    /** A new root above the two halves of the old one. */
    method PlaceNewRoot(p: int, k: nat, q: int, ghost i: nat, ghost m: nat)
      requires |tree.lv| > 0 && Halved(p, k, q, |tree.lv| - 1, i, m)
      modifies this
      ensures Valid() && Flat(tree) == old(Flat(tree)) && SameEnts(old(pages), pages)
    {
      hide Kids, Seps, LevelsOK, ParentsOK, RowOK, Ents, Order, Stacked, SetParents, SplitPages, Flat, Occupied,
        SameEnts, InsertAt, SetPrev;
      RootParent(tree, |tree.lv| - 1, i);
      SplitHalves(tree, |tree.lv| - 1, i, m, q);
      var w := numPages;
      numPages := numPages + 1;
      RootSplitEnts(tree, m, q, w);
      ghost var t' := RootSplit(tree, m, q, w, order);
      pages := pages[p := pages[p].(parent := w)];
      pages := pages[q := pages[q].(parent := w)];
      pages := pages[w := Inner(NO_PAGE, NO_PAGE, NO_PAGE, [k], [p, q])];
      root := w;
      FramedSplit(tree, t', |tree.lv| - 1, i, q, numPages, firstLeaf);
      tree := t';
    }

    /** The parent takes the right half in behind the left one. */
    method AddToParent(p: int, k: nat, q: int, ghost L: nat, ghost i: nat, ghost m: nat) returns (u: int, ghost s: Site)
      requires Halved(p, k, q, L, i, m) && L + 1 < |tree.lv|
      modifies this
      ensures Steady() && Order(tree, NO_PAGE) && Flat(tree) == old(Flat(tree)) && SameEnts(old(pages), pages)
      ensures s.U == L + 1 && |tree.lv| == old(|tree.lv|) && s.a < |tree.lv[s.U]| && u == tree.lv[s.U][s.a]
      ensures u in pages && pages[u].Inner? && Occupied(pages, root, order, {u})
              && pages[u].Size() <= MaxKeys(order, false) + 1
      ensures u == root || pages[u].Size() >= MinKeys(order, false)
      ensures pages[u].Size() > 0
    {
      hide Kids, Seps, LevelsOK, ParentsOK, RowOK, Ents, Order, Stacked, SetParents, SplitPages, Flat, InsertAt;
      SplitHalves(tree, L, i, m, q);
      s := SiteOf(tree, L, i);
      SiteFacts(tree, s);
      SplitParent(tree, s, m, q);
      u := pages[p].parent;
      assert Fill(tree.pg[u], order, u == root);
      UpKeyPlace(tree, s, m);
      var ks := pages[u].keys;
      var j := UpperBound(ks, k, 1);
      SamePlace(ks, k, j, s.j);
      SplitEnts(tree, s, m, q);
      ghost var t' := SplitStep(tree, s, m, q, order);
      pages := InsertChild(pages, u, j, k, q);
      FramedSplit(tree, t', L, i, q, numPages, firstLeaf);
      tree := t';
    }

    /** Gives the right half of a split page to the parent of the left half. */
    method InsertIntoParent(p: int, k: nat, q: int, ghost L: nat, ghost i: nat, ghost m: nat)
      requires Halved(p, k, q, L, i, m)
      modifies this
      ensures Valid() && Flat(tree) == old(Flat(tree)) && SameEnts(old(pages), pages)
      decreases |tree.lv| - L, 0
    {
      hide Kids, Seps, LevelsOK, ParentsOK, RowOK, Ents, Order, Stacked, SplitPages, Flat;
      RootParent(tree, L, i);
      SplitHalves(tree, L, i, m, q);
      if pages[p].parent == NO_PAGE {
        PlaceNewRoot(p, k, q, i, m);
      } else {
        var u, s := AddToParent(p, k, q, L, i, m);
        if |pages[u].keys| > MaxKeys(order, false) {
          var q2 := Split(u, s.U, s.a);
        } else {
          NowOccupied(pages, root, order, u);
        }
      }
    }

    // ---- insertion

    /** The entry goes into its leaf, which may then hold one too many. */
    method InsertIntoLeaf(p: int, key: nat, rid: Rid, j: nat, ghost i: nat)
      requires Valid() && Covers(tree, 0, i, key) && p == tree.lv[0][i] && p in pages && pages[p].Leaf?
      requires j <= |pages[p].ents| && key !in Contents()
      requires forall x :: 0 <= x < j ==> pages[p].ents[x].key < key
      requires forall x :: j <= x < |pages[p].ents| ==> key < pages[p].ents[x].key
      modifies this`pages, this`tree
      ensures Steady() && Order(tree, NO_PAGE) && SameRows(old(tree), tree)
      ensures Contents() == old(Contents())[key := rid]
      ensures Occupied(pages, root, order, {p})
      ensures p in pages && pages[p].Leaf? && pages[p].ents == InsertAt(old(pages[p].ents), j, Entry(key, rid))
      ensures pages == old(pages)[p := old(pages[p]).(ents := pages[p].ents)]
    {
      hide Kids, Seps, LevelsOK, ParentsOK, RowOK, Ents, Order, Stacked, MapOf, Covers, InsertAt;
      ghost var t' := InsertStep(tree, i, j, Entry(key, rid));
      FramedSame(tree, t', root, firstLeaf, lastLeaf, numPages);
      pages := pages[p := pages[p].(ents := InsertAt(pages[p].ents, j, Entry(key, rid)))];
      tree := t';
      forall x | x in pages && x != p
        ensures Fill(pages[x], order, x == root)
      {
        assert Fill(old(pages)[x], order, x == root);
      }
    }

    /** An overfull leaf passes entries to a neighbour with room, or is split; the result is
        the leaf that holds the entry afterwards. */
    method MakeRoom(p: int, e: Entry, ghost i: nat) returns (leaf: int)
      requires Steady() && Order(tree, NO_PAGE) && i < |tree.lv[0]| && p == tree.lv[0][i]
      requires p in pages && pages[p].Leaf? && Overfull(pages[p], order) && Occupied(pages, root, order, {p})
      requires e in pages[p].ents
      modifies this
      ensures Valid() && Flat(tree) == old(Flat(tree))
      ensures leaf in pages && pages[leaf].Leaf? && e in pages[leaf].ents
      ensures old(HasRoom(pages, pages[p].prev, order)) ==>
                pages.Keys == old(pages.Keys) && OtherLeaves(old(pages), pages, {p, old(pages[p].prev)})
      ensures old(!HasRoom(pages, pages[p].prev, order) && HasRoom(pages, pages[p].next, order)) ==>
                pages.Keys == old(pages.Keys) && OtherLeaves(old(pages), pages, {p, old(pages[p].next)})
      ensures old(!HasRoom(pages, pages[p].prev, order) && !HasRoom(pages, pages[p].next, order)) ==>
                !(pages.Keys <= old(pages.Keys)) && OtherLeaves(old(pages), pages, {p})
    {
      hide Kids, Shape, Ents, Order, SplitOff, Flat, Fill;
      LeafLinks(this, i);
      NoPageNowhere(tree);
      var prev := pages[p].prev;
      if prev != NO_PAGE && |pages[prev].ents| < MaxKeys(order, true) {
        leaf := Lend(prev, p, e, i - 1);
        assert {prev, p} == {p, prev};
        return;
      }
      var next := pages[p].next;
      if next != NO_PAGE && |pages[next].ents| < MaxKeys(order, true) {
        leaf := Lend(p, next, e, i);
        return;
      }
      OneSorted(tree, i);
      ghost var pg1 := pages;
      var q := Split(p, 0, i);
      SplitOffLeaf(pg1, pages, p, q);
      SplitOffOthers(pg1, pages, p, q);
      InWhichPart(pages[p].ents, pages[q].ents, e);
      leaf := if e.key >= pages[q].ents[0].key then q else p;
    }

    method Lend(l: int, r: int, e: Entry, ghost i: nat) returns (leaf: int)
      requires Steady() && Order(tree, NO_PAGE) && i + 1 < |tree.lv[0]| && l == tree.lv[0][i] && r == tree.lv[0][i + 1]
      requires l in pages && r in pages && pages[l].Leaf? && pages[r].Leaf?
      requires Occupied(pages, root, order, {l}) || Occupied(pages, root, order, {r})
      requires |pages[l].ents| + |pages[r].ents| <= 2 * order
               && (|pages[l].ents| == order + 1 || |pages[r].ents| == order + 1)
      requires e in pages[l].ents || e in pages[r].ents
      modifies this
      ensures Valid() && Flat(tree) == old(Flat(tree))
      ensures leaf in pages && pages[leaf].Leaf? && e in pages[leaf].ents
      ensures pages.Keys == old(pages.Keys) && OtherLeaves(old(pages), pages, {l, r})
    {
      hide Kids, Shape, Ents, Order, Flat, Fill;
      LeafPair(tree, i);
      PairSorted(tree, i);
      RoomBeside(pages, root, order, l, r);
      RedistributeLeaves(l, r, i);
      InWhichPart(pages[l].ents, pages[r].ents, e);
      leaf := if e.key >= pages[r].ents[0].key then r else l;
    }

    /** Files a record id under a key, unless the key is taken. */
    method InsertEntry(key: nat, rid: Rid) returns (r: InsertResult)
      requires Valid()
      modifies this
      ensures Valid()
      ensures r.NotUnique? <==> old(key in Contents())
      ensures r.NotUnique? ==> unchanged(this)
      ensures r.Inserted? ==> Contents() == old(Contents())[key := rid]
      ensures r.Inserted? ==> r.leaf in pages && pages[r.leaf].Leaf? && Entry(key, rid) in pages[r.leaf].ents
      ensures r.Inserted? ==> GrowsFor(old(tree), order, key, !(pages.Keys <= old(pages.Keys)))
    {
      hide Kids, Shape, Ents, Order, MapOf, Covers, Flat, Crowded, HasRoom;
      var p, i := FindLeaf(key);
      var j := FindSlot(p, key, i);
      if j < |pages[p].ents| && pages[p].ents[j].key <= key {
        return NotUnique;
      }
      ghost var es := pages[p].ents;
      LeafFill(pages, root, order, p);
      InsertIntoLeaf(p, key, rid, j, i);
      assert pages[p].ents[j] == Entry(key, rid);
      CrowdedIff(old(tree), i, p, pages, order);
      var leaf := p;
      if |pages[p].ents| > MaxKeys(order, true) {
        leaf := MakeRoom(p, Entry(key, rid), i);
      }
      return Inserted(leaf);
    }

    // ---- merging

    /** `redistribute`, for leaves or inner pages. */
    method Redistribute(l: int, r: int, ghost L: nat, ghost i: nat)
      requires Steady() && Order(tree, NO_PAGE) && L < |tree.lv|
      requires i + 1 < |tree.lv[L]| && l == tree.lv[L][i] && r == tree.lv[L][i + 1]
      requires EvenOut(pages, root, order, l, r)
      modifies this`pages, this`tree
      ensures Valid() && Flat(tree) == old(Flat(tree)) && SameRows(old(tree), tree)
      ensures l in pages && r in pages && Even(pages[l].Size(), pages[r].Size())
    {
      hide Kids, Shape, Ents, Order, Flat, EvenOut;
      KindOf(tree, L, i);
      if pages[l].Leaf? {
        RedistributeLeaves(l, r, i);
      } else {
        RedistributeInner(l, r, L, i);
      }
    }

    /** The first half of `coalesce`: the left page takes over everything from the right one. */
    method JoinInto(l: int, r: int, ghost L: nat, ghost i: nat) returns (ghost k: nat)
      requires Steady() && Order(tree, NO_PAGE)
      requires L < |tree.lv| && 0 < i < |tree.lv[L]| && l == tree.lv[L][i - 1] && r == tree.lv[L][i]
      requires l in pages && r in pages && pages[l].Leaf? == pages[r].Leaf?
      modifies this`pages, this`lastLeaf
      ensures pages == JoinPages(tree.pg, l, r, k)
      ensures RightSep(tree, L, i, k)
      ensures lastLeaf == if L == 0 && i + 1 == |tree.lv[0]| then l else old(lastLeaf)
    {
      hide Kids, LevelsOK, ParentsOK, RowOK, Stacked, SetParents, Order;
      var nl, nr := pages[l], pages[r];
      KindOf(tree, L, i);
      NextLevel(tree, L, i);
      JoinPagesAre(tree, L, i, l, r);
      if nl.Leaf? {
        k := 0;
        pages := pages[l := Joined(nl, nr, 0)];
      } else {
        var m := MinLeaf(r, L, i);
        RightSepIs(tree, L, i);
        var key := pages[m].ents[0].key;
        k := key;
        pages := pages[l := Joined(nl, nr, key)];
      }
      if nr.next != NO_PAGE {
        pages := pages[nr.next := pages[nr.next].(prev := l)];
      } else if nl.Leaf? {
        lastLeaf := l;
      }
      if nl.Inner? {
        AdoptChildren(l, nr.kids);
      } else {
        NoChildren(pages, l);
      }
    }

    /** What holds between the two halves of `coalesce`. */
    ghost predicate HasJoined(r: int, s: Site, l: int, k: nat)
      reads this
    {
      && order >= 3 && Shape(tree) && Order(tree, NO_PAGE)
      && CanMerge(tree, s, l) && s.p == r && RightSep(tree, s.L, s.i, k)
      && Occupied(tree.pg, root, order, {r, l})
      && tree.pg[r].Size() + tree.pg[l].Size() + 1 == 2 * MinKeys(order, tree.pg[l].Leaf?)
      && root == Root(tree) && firstLeaf == tree.lv[0][0]
      && 0 < numPages && (forall x :: x in tree.pg ==> x < numPages)
      && (lastLeaf == if s.L == 0 && s.i + 1 == |tree.lv[0]| then l else tree.lv[0][|tree.lv[0]| - 1])
      && pages == JoinPages(tree.pg, l, r, k)
    }

    /** The page lost a key too many: it borrows from a neighbour, or is merged with one, or
        is a root that has only one child left. Tells whether the page itself is gone. */
    method CoalesceOrRedistribute(p: int, ghost L: nat, ghost i: nat) returns (deleted: bool)
      requires Steady() && Order(tree, NO_PAGE)
      requires L < |tree.lv| && i < |tree.lv[L]| && p == tree.lv[L][i] && p in pages
      requires TooShort(pages[p], order, p == root) && Occupied(pages, root, order, {p})
      modifies this
      ensures Valid() && Flat(tree) == old(Flat(tree))
      ensures deleted <==> p !in pages
      ensures KeepsBelow(old(tree), pages, L) && pages.Keys <= old(pages.Keys)
      ensures old(pages[p].parent) == NO_PAGE ==> p !in pages
      ensures old(pages[p].parent) != NO_PAGE ==>
                if old(CanSpare(pages, Partner(pages[p]), order)) then pages.Keys == old(pages.Keys)
                else (if old(pages[p].prev) != NO_PAGE then p else old(pages[p].next)) in old(pages).Keys - pages.Keys
      decreases |tree.lv| - L, 2
    {
      hide Kids, Shape, Ents, Order, Flat, Occupied, MergeTree;
      RootParent(tree, L, i);
      if pages[p].parent == NO_PAGE {
        AdjustRoot(p, i);
        return true;
      }
      Neighbours(tree, L, i, order);
      var left := pages[p].prev;
      if left != NO_PAGE {
        if pages[left].Size() > MinKeys(order, pages[left].Leaf?) {
          CanEvenOut(tree, L, i - 1, order, p);
          Redistribute(left, p, L, i - 1);
          KeptAll(old(tree), tree, L);
          return false;
        } else {
          CanJoin(tree, L, i, order, p);
          Coalesce(left, p, L, i);
          return true;
        }
      }
      var right := pages[p].next;
      if right != NO_PAGE {
        if pages[right].Size() > MinKeys(order, pages[right].Leaf?) {
          CanEvenOut(tree, L, i, order, p);
          Redistribute(p, right, L, i);
          KeptAll(old(tree), tree, L);
          return false;
        } else {
          CanJoin(tree, L, i + 1, order, p);
          Coalesce(p, right, L, i + 1);
          return false;
        }
      }
      assert false;
    }

    /** Merges a page into its left neighbour and takes it out of its parent. */
    method Coalesce(l: int, r: int, ghost L: nat, ghost i: nat)
      requires Steady() && Order(tree, NO_PAGE)
      requires L + 1 < |tree.lv| && 0 < i < |tree.lv[L]| && l == tree.lv[L][i - 1] && r == tree.lv[L][i]
      requires l in pages && r in pages && pages[l].Leaf? == pages[r].Leaf?
      requires Occupied(pages, root, order, {r, l})
      requires pages[r].Size() + pages[l].Size() + 1 == 2 * MinKeys(order, pages[l].Leaf?)
      modifies this
      ensures Valid() && Flat(tree) == old(Flat(tree))
      ensures r !in pages && l in pages && KeepsBelow(old(tree), pages, L) && pages.Keys <= old(pages.Keys)
      decreases |tree.lv| - L, 1
    {
      hide Kids, Shape, Ents, Order, Flat, JoinPages;
      assert pages[l].Size() + pages[r].Size() <= MaxKeys(order, pages[l].Leaf?);
      assert pages[l].Inner? ==> pages[l].Size() + pages[r].Size() < MaxKeys(order, false);
      ghost var s := MergeSite(tree, L, i, root, order);
      ghost var k := JoinInto(l, r, L, i);
      UpdateRightParent(r, s, l, k);
    }

    /** The right page goes, its parent loses a child, and the separator in front of the
        parent is repaired if that was its first child. */
    method RemoveChild(r: int, ghost s: Site, ghost l: int, ghost k: nat) returns (u: int)
      requires HasJoined(r, s, l, k)
      modifies this
      ensures Steady() && Order(tree, NO_PAGE) && Flat(tree) == old(Flat(tree))
      ensures |tree.lv| == old(|tree.lv|) && s.a < |tree.lv[s.U]| && tree.lv[s.U][s.a] == u == s.u && u in pages
              && pages[u].Inner?
      ensures pages[u].Size() == old(tree.pg[s.u].Size()) - 1 && Occupied(pages, root, order, {u}) && root == old(root)
      ensures tree.lvl == old(tree.lvl) - {r} && pages.Keys == old(tree.pg.Keys) - {r}
    {
      hide Kids, Ents, Order, Flat, JoinPages, LevelsOK, ParentsOK, RowOK, Stacked, Occupied;
      SiteFacts(tree, s);
      JoinedParent(tree, s, l, k);
      u := pages[r].parent;
      var j := FindChild(pages[u].kids, r);
      KidsDistinct(tree, s.L, s.a, j, s.j);
      ghost var t' := MergeStep(tree, s, l, k, order);
      pages := pages - {r};
      pages := pages[u := WithoutKid(pages[u], j)];
      FramedMerge(tree, t', s, l, k, numPages, firstLeaf);
      tree := t';
      if j == 0 {
        ghost var pg1 := pages;
        MaintainParent(u, s.U, s.a);
        OccupiedSame(pg1, pages, root, order, {u});
      }
    }

    /** The second half of `coalesce`: takes the right page out of the tree and goes on with
        its parent if that has become too small. */
    method UpdateRightParent(r: int, ghost s: Site, ghost l: int, ghost k: nat)
      requires HasJoined(r, s, l, k)
      modifies this
      ensures Valid() && Flat(tree) == old(Flat(tree))
      ensures r !in pages && l in pages && KeepsBelow(old(tree), pages, s.L) && pages.Keys <= old(tree.pg.Keys)
      decreases |tree.lv| - s.L, 0
    {
      hide Kids, Ents, Order, Flat, JoinPages, Shape, Occupied;
      SiteFacts(tree, s);
      LeftFacts(tree, s, l);
      UpperFill(tree, s, l, order);
      var u := RemoveChild(r, s, l, k);
      RootParent(tree, s.U, s.a);
      if (pages[u].parent == NO_PAGE && pages[u].Size() == 0)
        || (pages[u].parent != NO_PAGE && pages[u].Size() < MinKeys(order, false)) {
        var gone := CoalesceOrRedistribute(u, s.U, s.a);
      } else {
        NowOccupied(pages, root, order, u);
      }
    }

    /** The only child of a root without keys becomes the root. */
    method AdjustRoot(p: int, ghost i: nat)
      requires Steady() && Order(tree, NO_PAGE)
      requires i < |tree.lv[|tree.lv| - 1]| && p == tree.lv[|tree.lv| - 1][i] && p in pages
      requires TooShort(pages[p], order, true) && Occupied(pages, root, order, {p})
      modifies this
      ensures Valid() && Flat(tree) == old(Flat(tree))
      ensures p !in pages && KeepsBelow(old(tree), pages, old(|tree.lv|) - 1) && pages.Keys <= old(pages.Keys)
    {
      hide Kids, Ents, Order, Flat, LevelsOK, ParentsOK, RowOK, Stacked;
      KindOf(tree, |tree.lv| - 1, i);
      OnlyChild(tree);
      ghost var t' := ShrinkStep(tree, order);
      var newRoot := pages[p].kids[0];
      pages := pages - {p};
      root := newRoot;
      pages := pages[newRoot := pages[newRoot].(parent := NO_PAGE)];
      tree := t';
    }

    // ---- deletion

    /** Removes the entries with this key from a leaf (`remove`): one, or none. */
    method RemoveFromLeaf(p: int, key: nat, ghost i: nat)
      requires Valid() && Covers(tree, 0, i, key) && i < |tree.lv[0]| && p == tree.lv[0][i] && p in pages
               && pages[p].Leaf?
      modifies this`pages, this`tree
      ensures Steady() && Order(tree, NO_PAGE) && SameRows(old(tree), tree)
      ensures Contents() == old(Contents()) - {key}
      ensures Occupied(pages, root, order, {p})
      ensures p in pages && pages[p].Leaf?
      ensures |pages[p].ents| == old(|pages[p].ents|) - if old(key in Contents()) then 1 else 0
      ensures pages == old(pages)[p := old(pages[p]).(ents := pages[p].ents)]
    {
      hide Kids, Ents, Order, LevelsOK, ParentsOK, RowOK, Stacked, MapOf, Covers, RemoveAt;
      var j := FindSlot(p, key, i);
      LeafFill(pages, root, order, p);
      RootParent(tree, 0, i);
      ghost var j0, es := j, pages[p].ents;
      if j0 < |es| && es[j0].key == key {
        NoNextSame(es, j0, key);
      }
      while j < |pages[p].ents| && pages[p].ents[j].key == key
        invariant p in pages && pages[p].Leaf? && tree == old(tree)
        invariant (j == j0 && pages == old(pages))
               || (j == j0 + 1 && j0 < |es| && es[j0].key == key && pages == SetEnts(old(pages), p, RemoveAt(es, j0)))
        decreases |pages[p].ents|
      {
        RemovedLength(es, j0);
        pages := pages[p := pages[p].(ents := RemoveAt(pages[p].ents, j))];
        j := j + 1;
      }
      if j == j0 + 1 {
        RemovedLength(es, j0);
        ghost var t' := RemoveStep(tree, i, j0);
        FramedSame(tree, t', root, firstLeaf, lastLeaf, numPages);
        tree := t';
        forall x | x in pages && x != p
          ensures Fill(pages[x], order, x == root)
        {
          assert Fill(old(pages)[x], order, x == root);
        }
      }
    }

    /** Takes a key out of the index, if it is there. */
    method DeleteEntry(key: nat) returns (b: bool)
      requires Valid()
      modifies this
      ensures Valid() && Contents() == old(Contents()) - {key}
      ensures !b
      ensures pages.Keys <= old(pages.Keys) && ShrinksFor(old(tree), order, key, pages.Keys != old(pages.Keys))
    {
      hide Kids, Ents, Order, RowOK, ParentsOK, LevelsOK, Stacked, MapOf, Covers, Flat, Sparse, CanSpare;
      var p, i := FindLeaf(key);
      LeafFill(pages, root, order, p);
      RootParent(tree, 0, i);
      RemoveFromLeaf(p, key, i);
      RootParent(tree, 0, i);
      if old(key in Contents()) {
        SparseIff(old(tree), i, p, pages, order);
      }
      if pages[p].parent != NO_PAGE && |pages[p].ents| < MinKeys(order, true) {
        var deleted := CoalesceOrRedistribute(p, 0, i);
      } else {
        NowOccupied(pages, root, order, p);
      }
      return false;
    }
  }

  lemma SlotInMap(es: seq<Entry>, key: nat, j: nat)
    requires SortedEnts(es) && j <= |es|
    requires forall x :: 0 <= x < j ==> es[x].key < key
    requires forall x :: j <= x < |es| ==> key <= es[x].key
    ensures key in MapOf(es) <==> j < |es| && es[j].key == key
    ensures key in MapOf(es) ==> MapOf(es)[key] == es[j].rid
  {
    MapHas(es, key);
    if j < |es| && es[j].key == key {
      MapAt(es, j);
    }
  }

  lemma HoleEnts(t: Tree, h: nat)
    requires |t.lv| > 0 && 0 < h < |t.lv[0]| && Order(t, h)
    ensures EntsOf(t.pg, t.lv[0][h]) != []
  {
  }

  /** Page `q` took over the upper part of page `p`, and no other leaf changed. */
  /** The leaf is full, and so are its neighbours. */
  ghost predicate Crowded(t: Tree, order: nat, i: nat) {
    && |t.lv| > 0 && i < |t.lv[0]| && |EntsOf(t.pg, t.lv[0][i])| >= order
    && (i > 0 ==> |EntsOf(t.pg, t.lv[0][i - 1])| >= order)
    && (i + 1 < |t.lv[0]| ==> |EntsOf(t.pg, t.lv[0][i + 1])| >= order)
  }

  /** A page was added, or not, as the leaf of the key and its neighbours were full or not. */
  ghost predicate GrowsFor(t: Tree, order: nat, key: nat, grew: bool) {
    exists i :: Covers(t, 0, i, key) && (grew <==> Crowded(t, order, i))
  }

  lemma CrowdedIff(t: Tree, i: nat, p: int, pg: Pages, order: nat)
    requires Shape(t) && i < |t.lv[0]| && p == t.lv[0][i] && p in t.pg && t.pg[p].Leaf?
    requires p in pg && pg[p].Leaf? && pg == t.pg[p := t.pg[p].(ents := pg[p].ents)]
    requires |pg[p].ents| == |t.pg[p].ents| + 1
    ensures |pg[p].ents| <= order ==> !Crowded(t, order, i)
    ensures |pg[p].ents| > order ==>
              (Crowded(t, order, i) <==> !HasRoom(pg, pg[p].prev, order) && !HasRoom(pg, pg[p].next, order))
  {
    assert RowOK(t.pg, t.lv[0], true);
    assert LinkedAt(t.pg, t.lv[0], i);
    NoPageNowhere(t);
    if i > 0 {
      assert t.lv[0][i - 1] != t.lv[0][i];
    }
    if i + 1 < |t.lv[0]| {
      assert t.lv[0][i + 1] != t.lv[0][i];
    }
  }

  /** The leaf holds no more than it must, and neither does the neighbour it turns to. */
  ghost predicate Sparse(t: Tree, order: nat, i: nat) {
    && |t.lv| > 1 && i < |t.lv[0]| && |EntsOf(t.pg, t.lv[0][i])| <= (order + 1) / 2
    && (if i > 0 then |EntsOf(t.pg, t.lv[0][i - 1])| <= (order + 1) / 2
        else 1 < |t.lv[0]| && |EntsOf(t.pg, t.lv[0][1])| <= (order + 1) / 2)
  }

  /** A page was taken away exactly if the key was there and its leaf and the neighbour had nothing to spare. */
  ghost predicate ShrinksFor(t: Tree, order: nat, key: nat, shrank: bool)
    requires |t.lv| > 0
  {
    exists i :: Covers(t, 0, i, key) && (shrank <==> key in MapOf(Flat(t)) && Sparse(t, order, i))
  }

  lemma SparseIff(t: Tree, i: nat, p: int, pg: Pages, order: nat)
    requires Shape(t) && i < |t.lv[0]| && p == t.lv[0][i] && p in t.pg && t.pg[p].Leaf? && order >= 3
    requires p in pg && pg[p].Leaf? && pg == t.pg[p := t.pg[p].(ents := pg[p].ents)]
    requires |pg[p].ents| == |t.pg[p].ents| - 1 && Occupied(t.pg, Root(t), order, {})
    ensures Sparse(t, order, i) <==>
              |t.lv| > 1 && |pg[p].ents| < MinKeys(order, true) && !CanSpare(pg, Partner(pg[p]), order)
  {
    assert RowOK(t.pg, t.lv[0], true);
    assert LinkedAt(t.pg, t.lv[0], i);
    NoPageNowhere(t);
    if |t.lv| > 1 {
      Neighbours(t, 0, i, order);
      if i > 0 {
        assert t.lv[0][i - 1] != t.lv[0][i];
      } else {
        assert t.lv[0][1] != t.lv[0][0];
      }
    }
  }

  /** The neighbour that a page turns to when it is too short: the left one, if there is one. */
  function Partner(n: Node): int {
    if n.prev != NO_PAGE then n.prev else n.next
  }

  /** The page holds more rids than a page must. */
  predicate CanSpare(pg: Pages, p: int, order: nat) {
    p in pg && pg[p].Size() > MinKeys(order, pg[p].Leaf?)
  }

  /** The leaf exists and can take one more entry. */
  predicate HasRoom(pg: Pages, p: int, order: nat) {
    p in pg && pg[p].Leaf? && |pg[p].ents| < order
  }

  /** Leaves outside `ex` are still there, with their entries. */
  ghost predicate OtherLeaves(pg: Pages, pg': Pages, ex: set<int>) {
    forall x :: x in pg && x !in ex && pg[x].Leaf? ==> x in pg' && pg'[x].Leaf? && pg'[x].ents == pg[x].ents
  }

  predicate Even(a: nat, b: nat) {
    a <= b + 1 && b <= a + 1
  }

  lemma NoPageNowhere(t: Tree)
    requires Shape(t)
    ensures NO_PAGE !in t.pg
  {
    assert NO_PAGE in t.pg ==> Placed(t.lv, t.lvl, NO_PAGE);
  }

  lemma SplitOffOthers(pg: Pages, pg': Pages, p: int, q: int)
    requires SplitOff(pg, pg', p, q)
    ensures OtherLeaves(pg, pg', {p})
    ensures p in pg && pg[p].Leaf? && q !in pg ==> !(pg'.Keys <= pg.Keys)
  {
    assert q in pg' ==> q in pg'.Keys;
  }

  lemma ShareOthers(pg: Pages, l: int, r: int, n: nat)
    requires l in pg && r in pg && pg[l].Leaf? && pg[r].Leaf? && n <= |pg[l].ents| + |pg[r].ents|
    ensures OtherLeaves(pg, ShareEnts(pg, l, r, n), {l, r})
  {
  }

  /** The rids of an overfull page are dealt out evenly. */
  ghost predicate EvenHalves(l: Node, r: Node, order: nat) {
    l.Rids() + r.Rids() == order + 1 && l.Rids() <= r.Rids() <= l.Rids() + 1
  }

  lemma EvenSplit(pg: Pages, p: int, q: int, order: nat)
    requires p in pg && q !in pg && order >= 3 && Overfull(pg[p], order)
    requires MinKeys(order, pg[p].Leaf?) >= 0 && Cut(pg[p], MinKeys(order, pg[p].Leaf?))
    ensures var pg' := SplitPages(pg, p, q, MinKeys(order, pg[p].Leaf?));
            p in pg' && q in pg' && EvenHalves(pg'[p], pg'[q], order)
  {
  }

  ghost predicate SplitOff(pg: Pages, pg': Pages, p: int, q: int) {
    && (forall x :: x in pg && x != p && pg[x].Leaf? ==> x in pg' && pg'[x].Leaf? && pg'[x].ents == pg[x].ents)
    && (p in pg && pg[p].Leaf? ==> && p in pg' && q in pg' && pg'[p].Leaf? && pg'[q].Leaf?
                                   && pg[p].ents == pg'[p].ents + pg'[q].ents && pg'[p].ents != [] && pg'[q].ents != [])
  }

  lemma SamePlace(ks: seq<nat>, k: nat, j: nat, j': nat)
    requires j <= |ks| && j' <= |ks|
    requires forall x :: 0 <= x < j ==> Prefix(ks[x], 1) <= Prefix(k, 1)
    requires forall x :: j <= x < |ks| ==> Prefix(ks[x], 1) > Prefix(k, 1)
    requires forall x :: 0 <= x < j' ==> ks[x] < k
    requires forall x :: j' <= x < |ks| ==> k < ks[x]
    ensures j == j'
  {
    if j < |ks| {
      assert Prefix(ks[j], 1) > Prefix(k, 1);
      assert ks[j] > k;
    }
    if j' < |ks| {
      assert ks[j'] > k;
      assert Prefix(ks[j'], 1) > Prefix(k, 1);
    }
  }

  /** The file header after a split at position `i` of level `L`. */
  lemma FramedSplit(t: Tree, t': Tree, L: nat, i: nat, q: int, numPages: int, firstLeaf: int)
    requires Shape(t) && Shape(t') && L < |t.lv| && i < |t.lv[L]|
    requires t'.lv[0] == if L == 0 then InsertAt(t.lv[0], i + 1, q) else t.lv[0]
    requires 0 < numPages && firstLeaf == t.lv[0][0]
    requires forall x :: x in t'.pg ==> x < numPages
    ensures Framed(t', Root(t'), firstLeaf, if L == 0
            && i + 1 == |t.lv[0]| then q else t.lv[0][|t.lv[0]| - 1], numPages)
  {
    hide Kids, LevelsOK, ParentsOK, Stacked;
    assert RowOK(t.pg, t.lv[0], true);
  }

  lemma SplitPagesAre(t: Tree, L: nat, i: nat, m: nat, p: int, q: int, pg1: Pages, cs: seq<int>)
    requires Shape(t) && L < |t.lv| && i < |t.lv[L]| && p == t.lv[L][i] && p in t.pg && Cut(t.pg[p], m)
             && q !in t.pg && q > 0
    requires pg1 == t.pg[p := LeftHalf(t.pg[p], m, q)][q := RightHalf(t.pg[p], m, p)]
    requires cs == RightHalf(t.pg[p], m, p).KidList()
    ensures t.pg[p].next == NO_PAGE <==> i + 1 == |t.lv[L]|
    ensures t.pg[p].next != NO_PAGE ==> t.pg[p].next in pg1
    ensures t.pg[p].next == NO_PAGE ==> SplitPages(t.pg, p, q, m) == SetParents(pg1, cs, q)
    ensures t.pg[p].next != NO_PAGE ==>
              SplitPages(t.pg, p, q, m) == SetParents(pg1[t.pg[p].next := pg1[t.pg[p].next].(prev := q)], cs, q)
  {
    NextLevel(t, L, i);
    assert NO_PAGE in t.pg ==> Placed(t.lv, t.lvl, NO_PAGE);
  }

  lemma SplitLeaves(t: Tree, L: nat, i: nat, m: nat, q: int)
    requires Shape(t) && L < |t.lv| && i < |t.lv[L]| && t.lv[L][i] in t.pg && Cut(t.pg[t.lv[L][i]], m) && q !in t.pg
             && q > 0 && m > 0
    ensures SplitOff(t.pg, SplitPages(t.pg, t.lv[L][i], q, m), t.lv[L][i], q)
  {
    SplitHalves(t, L, i, m, q);
    NextLevel(t, L, i);
  }

  lemma NoChildren(pg: Pages, u: int)
    ensures SetParents(pg, [], u) == pg
  {
  }

  lemma RightKidsIn(t: Tree, L: nat, i: nat, m: nat)
    requires Shape(t) && L < |t.lv| && i < |t.lv[L]| && t.lv[L][i] in t.pg && Cut(t.pg[t.lv[L][i]], m)
    ensures forall c :: c in RightHalf(t.pg[t.lv[L][i]], m, t.lv[L][i]).KidList() ==> c in t.pg
  {
    forall c | c in RightHalf(t.pg[t.lv[L][i]], m, t.lv[L][i]).KidList()
      ensures c in t.pg
    {
      RightKids(t, L, i, m, c);
    }
  }

  lemma SplitHalves(t: Tree, L: nat, i: nat, m: nat, q: int)
    requires Shape(t) && L < |t.lv| && i < |t.lv[L]| && t.lv[L][i] in t.pg && Cut(t.pg[t.lv[L][i]], m) && q !in t.pg
             && q > 0
    ensures SplitPages(t.pg, t.lv[L][i], q, m).Keys == t.pg.Keys + {q}
    ensures SplitPages(t.pg, t.lv[L][i], q, m)[t.lv[L][i]] == LeftHalf(t.pg[t.lv[L][i]], m, q)
    ensures SplitPages(t.pg, t.lv[L][i], q, m)[q] == RightHalf(t.pg[t.lv[L][i]], m, t.lv[L][i])
  {
    var p := t.lv[L][i];
    NextLevel(t, L, i);
    forall c | c in RightHalf(t.pg[p], m, p).KidList()
      ensures c != p && c != q && c in t.pg
    {
      RightKids(t, L, i, m, c);
    }
    assert t.pg[p].next != p;
  }

  /** The parent does not notice the split before it is told. */
  lemma SplitParent(t: Tree, s: Site, m: nat, q: int)
    requires Shape(t) && IsSite(t, s) && Cut(t.pg[s.p], m) && q !in t.pg && q > 0
    ensures s.u in SplitPages(t.pg, s.p, q, m) && SplitPages(t.pg, s.p, q, m)[s.u].Inner?
    ensures SplitPages(t.pg, s.p, q, m)[s.u].keys == t.pg[s.u].keys
            && SplitPages(t.pg, s.p, q, m)[s.u].kids == t.pg[s.u].kids
  {
    SiteFacts(t, s);
    NextLevel(t, s.L, s.i);
  }

  /** The neighbours of a leaf. */
  lemma LeafLinks(ih: IxIndexHandle, i: nat)
    requires ih.Steady() && i < |ih.tree.lv[0]|
    ensures var p := ih.tree.lv[0][i];
            && p in ih.pages && ih.pages[p].Leaf?
            && (ih.pages[p].prev == NO_PAGE <==> i == 0)
            && (i > 0 ==>
               ih.pages[p].prev == ih.tree.lv[0][i - 1] && ih.pages[p].prev in ih.pages
               && ih.pages[ih.pages[p].prev].Leaf?)
            && (ih.pages[p].next == NO_PAGE <==> i + 1 == |ih.tree.lv[0]|)
            && (i + 1 < |ih.tree.lv[0]| ==>
               ih.pages[p].next == ih.tree.lv[0][i + 1] && ih.pages[p].next in ih.pages
               && ih.pages[ih.pages[p].next].Leaf?)
  {
    hide Kids, ParentsOK, Stacked;
    var t := ih.tree;
    NextLevel(t, 0, i);
    assert RowOK(t.pg, t.lv[0], true);
    if i > 0 {
      assert t.lv[0][i - 1] in t.pg;
      assert Placed(t.lv, t.lvl, t.lv[0][i - 1]);
    }
    if i + 1 < |t.lv[0]| {
      assert Placed(t.lv, t.lvl, t.lv[0][i + 1]);
    }
  }

  lemma RoomBeside(pg: Pages, root: int, order: nat, l: int, r: int)
    requires l in pg && r in pg && l != r && l != root && r != root && pg[l].Leaf? && pg[r].Leaf? && order >= 3
    requires Occupied(pg, root, order, {l}) || Occupied(pg, root, order, {r})
    requires |pg[l].ents| + |pg[r].ents| <= 2 * order && (|pg[l].ents| == order + 1 || |pg[r].ents| == order + 1)
    ensures EvenOut(pg, root, order, l, r)
  {
    assert Fill(pg[l], order, l == root) || Fill(pg[r], order, r == root);
  }

  lemma OneSorted(t: Tree, i: nat)
    requires Shape(t) && i < |t.lv[0]| && Order(t, NO_PAGE)
    ensures |t.lv| > 0 && SortedEnts(EntsOf(t.pg, t.lv[0][i]))
  {
    LeafEntsSorted(t.pg, t.lv[0], i);
  }

  lemma PairSorted(t: Tree, i: nat)
    requires Shape(t) && i + 1 < |t.lv[0]| && Order(t, NO_PAGE)
    ensures SortedEnts(EntsOf(t.pg, t.lv[0][i]) + EntsOf(t.pg, t.lv[0][i + 1]))
  {
    var row := t.lv[0];
    EntsPair(t.pg, row, i);
    SortedParts(Ents(t.pg, row[..i]), EntsOf(t.pg, row[i]) + EntsOf(t.pg, row[i + 1]), Ents(t.pg, row[i + 2..]));
  }

  /** Comparing with the first key of the right part tells where an entry went. */
  lemma InWhichPart(a: seq<Entry>, b: seq<Entry>, e: Entry)
    requires SortedEnts(a + b) && b != [] && e in a + b
    ensures if e.key >= b[0].key then e in b else e in a
  {
    var es := a + b;
    var x :| 0 <= x < |es| && es[x] == e;
    assert es[|a|] == b[0];
  }

  lemma SplitOffLeaf(pg: Pages, pg': Pages, p: int, q: int)
    requires SplitOff(pg, pg', p, q) && p in pg && pg[p].Leaf?
    ensures p in pg' && q in pg' && pg'[p].Leaf? && pg'[q].Leaf?
    ensures pg[p].ents == pg'[p].ents + pg'[q].ents && pg'[q].ents != []
  {
  }

  lemma FlatInsert(a: seq<Entry>, es: seq<Entry>, c: seq<Entry>, j: nat, e: Entry)
    requires j <= |es| && SortedEnts(a + InsertAt(es, j, e) + c)
    ensures MapOf(a + InsertAt(es, j, e) + c) == MapOf(a + es + c)[e.key := e.rid]
  {
    var x, y := a + es[..j], es[j..] + c;
    assert a + InsertAt(es, j, e) + c == x + [e] + y;
    assert a + es + c == x + y by {
      assert es == es[..j] + es[j..];
    }
    MapMiddle(x, e, y);
  }

  lemma InsertStep(t: Tree, i: nat, j: nat, e: Entry) returns (t': Tree)
    requires Shape(t) && Order(t, NO_PAGE) && Covers(t, 0, i, e.key)
    requires t.lv[0][i] in t.pg && t.pg[t.lv[0][i]].Leaf? && j <= |t.pg[t.lv[0][i]].ents|
    requires forall x :: 0 <= x < j ==> EntsOf(t.pg, t.lv[0][i])[x].key < e.key
    requires forall x :: j <= x < |EntsOf(t.pg, t.lv[0][i])| ==> e.key < EntsOf(t.pg, t.lv[0][i])[x].key
    ensures t' == t.(pg := SetEnts(t.pg, t.lv[0][i], InsertAt(t.pg[t.lv[0][i]].ents, j, e)))
    ensures Shape(t') && Order(t', NO_PAGE) && SameRows(t, t')
    ensures MapOf(Flat(t')) == MapOf(Flat(t))[e.key := e.rid]
  {
    hide Kids, Seps, LevelsOK, ParentsOK, RowOK, Stacked, MapOf;
    SepRowDown(t, 0);
    InsertEntry(t, i, j, e);
    t' := t.(pg := SetEnts(t.pg, t.lv[0][i], InsertAt(t.pg[t.lv[0][i]].ents, j, e)));
    EntsAround(t.pg, t.lv[0], i);
    FlatInsert(Ents(t.pg, t.lv[0][..i]), t.pg[t.lv[0][i]].ents, Ents(t.pg, t.lv[0][i + 1..]), j, e);
  }

  lemma LeafFill(pg: Pages, root: int, order: nat, p: int)
    requires Occupied(pg, root, order, {}) && p in pg && pg[p].Leaf?
    ensures |pg[p].ents| <= order && (p != root ==> MinRids(order) <= |pg[p].ents|)
  {
    assert Fill(pg[p], order, p == root);
  }

  // ---- merging

  lemma KindOf(t: Tree, L: nat, i: nat)
    requires Shape(t) && L < |t.lv| && i < |t.lv[L]|
    ensures t.lv[L][i] in t.pg && t.pg[t.lv[L][i]].Leaf? == (L == 0)
    ensures |t.lv| > 0
  {
    assert RowOK(t.pg, t.lv[L], L == 0);
  }

  /** `k` is the smallest key under the page at position `i` of an inner level `L`. */
  ghost predicate RightSep(t: Tree, L: nat, i: nat, k: nat)
    requires L < |t.lv|
  {
    L > 0 ==> && LeafIdx(t.pg, t.lv, L, i) < |t.lv[0]| && EntsOf(t.pg, t.lv[0][LeafIdx(t.pg, t.lv, L, i)]) != []
              && k == FirstKey(t.pg, t.lv[0][LeafIdx(t.pg, t.lv, L, i)])
  }

  lemma RightSepIs(t: Tree, L: nat, i: nat)
    requires Shape(t) && Order(t, NO_PAGE) && L < |t.lv| && 0 < i < |t.lv[L]|
    ensures 0 < LeafIdx(t.pg, t.lv, L, i) < |t.lv[0]|
    ensures EntsOf(t.pg, t.lv[0][LeafIdx(t.pg, t.lv, L, i)]) != []
  {
    LeafIdxBound(t.pg, t.lv, L, 0);
    LeafIdxMono(t.pg, t.lv, L, 0, i);
    LeafIdxMono(t.pg, t.lv, L, i, i + 1);
  }

  lemma JoinPagesAre(t: Tree, L: nat, i: nat, l: int, r: int)
    requires Shape(t) && L < |t.lv| && 0 < i < |t.lv[L]| && l == t.lv[L][i - 1] && r == t.lv[L][i]
    requires l in t.pg && r in t.pg && t.pg[l].Leaf? == t.pg[r].Leaf?
    ensures t.pg[r].next == NO_PAGE <==> i + 1 == |t.lv[L]|
    ensures t.pg[r].next != NO_PAGE ==> t.pg[r].next in t.pg
    ensures t.pg[r].next == NO_PAGE ==> NO_PAGE !in t.pg
    ensures forall c :: c in t.pg[r].KidList() ==> c in t.pg
  {
    NextLevel(t, L, i);
    assert NO_PAGE in t.pg ==> Placed(t.lv, t.lvl, NO_PAGE);
    forall c | c in t.pg[r].KidList()
      ensures c in t.pg
    {
      KidFacts(t, L, i, c);
    }
  }

  /** The page holds one key less than allowed. */
  ghost predicate TooShort(n: Node, order: nat, root: bool) {
    if root then n.Inner? && n.Size() == 0 else n.Size() == MinKeys(order, n.Leaf?) - 1
  }

  /** No page below level `L` has been given up. */
  ghost predicate KeepsBelow(t: Tree, pg: Pages, L: nat) {
    forall x :: x in t.pg && x in t.lvl && t.lvl[x] < L ==> x in pg
  }

  lemma KeptAll(t: Tree, t': Tree, L: nat)
    requires SameRows(t, t')
    ensures KeepsBelow(t, t'.pg, L)
  {
  }

  /** The levels below a root with two children or more have two pages or more. */
  lemma {:induction false} Wide(t: Tree, L: nat)
    requires Shape(t) && L + 1 < |t.lv| && KeysOf(t.pg, Root(t)) != []
    ensures |t.lv[L]| > 1
    decreases |t.lv| - L
  {
    var row := t.lv[L + 1];
    assert StackedAt(t.pg, t.lv, L + 1) && RowOK(t.pg, row, false);
    if L + 2 == |t.lv| {
      assert row == [Root(t)];
      assert KidsOf(t.pg, row[0]) == KidsOf(t.pg, Root(t)) && |KeysOf(t.pg, row[0])| > 0;
      KidAt(t.pg, row, 0, 1);
    } else {
      Wide(t, L + 1);
      OffMono(t.pg, row, 0, 1);
      OffMono(t.pg, row, 1, 2);
      OffBound(t.pg, row, 2);
    }
  }

  lemma Neighbours(t: Tree, L: nat, i: nat, order: nat)
    requires Shape(t) && L + 1 < |t.lv| && i < |t.lv[L]| && order >= 3
    requires Occupied(t.pg, Root(t), order, {t.lv[L][i]})
    ensures t.lv[L][i] in t.pg
    ensures t.pg[t.lv[L][i]].prev == NO_PAGE <==> i == 0
    ensures i > 0 ==>
            t.pg[t.lv[L][i]].prev == t.lv[L][i - 1] && t.lv[L][i - 1] in t.pg
            && t.pg[t.lv[L][i - 1]].Leaf? == t.pg[t.lv[L][i]].Leaf?
    ensures t.pg[t.lv[L][i]].next == NO_PAGE <==> i + 1 == |t.lv[L]|
    ensures i + 1 < |t.lv[L]| ==>
            t.pg[t.lv[L][i]].next == t.lv[L][i + 1] && t.lv[L][i + 1] in t.pg
            && t.pg[t.lv[L][i + 1]].Leaf? == t.pg[t.lv[L][i]].Leaf?
    ensures |t.lv[L]| > 1
  {
    RootParent(t, L, i);
    RootIn(t);
    assert Fill(t.pg[Root(t)], order, true);
    KindOf(t, |t.lv| - 1, 0);
    Wide(t, L);
    NextLevel(t, L, i);
    assert RowOK(t.pg, t.lv[L], L == 0);
    if i > 0 {
      assert Placed(t.lv, t.lvl, t.lv[L][i - 1]);
    }
    if i + 1 < |t.lv[L]| {
      assert Placed(t.lv, t.lvl, t.lv[L][i + 1]);
    }
  }

  lemma CanEvenOut(t: Tree, L: nat, i: nat, order: nat, p: int)
    requires Shape(t) && L + 1 < |t.lv| && i + 1 < |t.lv[L]| && order >= 3 && p in t.pg
    requires t.lv[L][i] in t.pg && t.lv[L][i + 1] in t.pg
    requires p == t.lv[L][i] || p == t.lv[L][i + 1]
    requires Occupied(t.pg, Root(t), order, {p}) && TooShort(t.pg[p], order, false)
    requires t.pg[t.lv[L][i]].Size() + t.pg[t.lv[L][i + 1]].Size() > 2 * MinKeys(order, t.pg[p].Leaf?) - 1
    ensures EvenOut(t.pg, Root(t), order, t.lv[L][i], t.lv[L][i + 1])
  {
    RootParent(t, L, i);
    RootParent(t, L, i + 1);
    var l, r := t.lv[L][i], t.lv[L][i + 1];
    assert RowOK(t.pg, t.lv[L], L == 0);
    assert p != l ==> Fill(t.pg[l], order, false);
    assert p != r ==> Fill(t.pg[r], order, false);
  }

  lemma CanJoin(t: Tree, L: nat, i: nat, order: nat, p: int)
    requires Shape(t) && L + 1 < |t.lv| && 0 < i < |t.lv[L]| && order >= 3 && p in t.pg
    requires t.lv[L][i - 1] in t.pg && t.lv[L][i] in t.pg
    requires p == t.lv[L][i - 1] || p == t.lv[L][i]
    requires Occupied(t.pg, Root(t), order, {p}) && TooShort(t.pg[p], order, false)
    requires t.pg[t.lv[L][i - 1]].Size() + t.pg[t.lv[L][i]].Size() <= 2 * MinKeys(order, t.pg[p].Leaf?) - 1
    ensures t.pg[t.lv[L][i - 1]].Leaf? == t.pg[t.lv[L][i]].Leaf?
    ensures t.pg[t.lv[L][i - 1]].Size() + t.pg[t.lv[L][i]].Size() + 1 == 2 * MinKeys(order, t.pg[t.lv[L][i - 1]].Leaf?)
    ensures Occupied(t.pg, Root(t), order, {t.lv[L][i], t.lv[L][i - 1]})
  {
    RootParent(t, L, i - 1);
    RootParent(t, L, i);
    var l, r := t.lv[L][i - 1], t.lv[L][i];
    assert RowOK(t.pg, t.lv[L], L == 0);
    assert p != l ==> Fill(t.pg[l], order, false);
    assert p != r ==> Fill(t.pg[r], order, false);
  }

  lemma MergeSite(t: Tree, L: nat, i: nat, root: int, order: nat) returns (s: Site)
    requires Shape(t) && L + 1 < |t.lv| && 0 < i < |t.lv[L]| && order >= 3 && root == Root(t)
    requires t.lv[L][i - 1] in t.pg && t.lv[L][i] in t.pg && t.pg[t.lv[L][i - 1]].Leaf? == t.pg[t.lv[L][i]].Leaf?
    requires Occupied(t.pg, root, order, {t.lv[L][i], t.lv[L][i - 1]})
    ensures CanMerge(t, s, t.lv[L][i - 1]) && s.L == L && s.i == i && s.p == t.lv[L][i]
  {
    s := SiteOf(t, L, i);
    SiteFacts(t, s);
    OtherLevel(t, L, i - 1, s.U, s.a);
    assert Fill(t.pg[s.u], order, s.u == root);
  }

  /** The right page and its parent, just before the parent is told. */
  lemma JoinedParent(t: Tree, s: Site, l: int, k: nat)
    requires Shape(t) && CanMerge(t, s, l)
    ensures s.p in JoinPages(t.pg, l, s.p, k) && JoinPages(t.pg, l, s.p, k)[s.p].parent == s.u
    ensures s.u in JoinPages(t.pg, l, s.p, k) && JoinPages(t.pg, l, s.p, k)[s.u].Inner?
    ensures JoinPages(t.pg, l, s.p, k)[s.u].kids == t.pg[s.u].kids
            && JoinPages(t.pg, l, s.p, k)[s.u].keys == t.pg[s.u].keys
  {
    SiteFacts(t, s);
    LeftFacts(t, s, l);
    NextLevel(t, s.L, s.i);
    if s.p in t.pg[s.p].KidList() {
      KidFacts(t, s.L, s.i, s.p);
    }
  }

  lemma MergeStep(t: Tree, s: Site, l: int, k: nat, order: nat) returns (t': Tree)
    requires Shape(t) && Order(t, NO_PAGE) && CanMerge(t, s, l) && RightSep(t, s.L, s.i, k) && order >= 3
    requires Occupied(t.pg, Root(t), order, {s.p, l})
    requires t.pg[s.p].Size() + t.pg[l].Size() + 1 == 2 * MinKeys(order, t.pg[l].Leaf?)
    ensures t' == MergeTree(t, s, l, k)
    ensures t'.pg == (JoinPages(t.pg, l, s.p, k) - {s.p})[s.u := WithoutKid(JoinPages(t.pg, l, s.p, k)[s.u], s.j)]
    ensures Shape(t') && Flat(t') == Flat(t) && Root(t') == Root(t)
    ensures |t'.lv| == |t.lv| && s.a < |t'.lv[s.U]| && t'.lv[s.U][s.a] == s.u
    ensures s.j > 0 ==> Order(t', NO_PAGE)
    ensures s.j == 0 ==> 0 < LeafIdx(t'.pg, t'.lv, s.U, s.a) && Order(t', LeafIdx(t'.pg, t'.lv, s.U, s.a))
    ensures Occupied(t'.pg, Root(t'), order, {s.u})
    ensures s.u in t'.pg && t'.pg[s.u].Inner? && t'.pg[s.u].Size() == t.pg[s.u].Size() - 1
    ensures t'.pg.Keys == t.pg.Keys - {s.p} && l in t'.pg && t'.lvl == t.lvl - {s.p}
    ensures t'.lv[0] == if s.L == 0 then RemoveAt(t.lv[0], s.i) else t.lv[0]
  {
    hide RowOK, Kids, ParentsOK, LevelsOK, Stacked, Order;
    t' := MergeTree(t, s, l, k);
    MergeShape(t, t', s, l, k);
    MergeOrder(t, t', s, l, k);
    MergeFill(t, t', s, l, k, order);
    MergeLv(t, t', s, l, k);
    MergeNew(t, t', s, l, k);
    LeftFacts(t, s, l);
  }

  /** The file header after the page at site `s` is merged away. */
  lemma FramedMerge(t: Tree, t': Tree, s: Site, l: int, k: nat, numPages: int, firstLeaf: int)
    requires Shape(t) && CanMerge(t, s, l) && Shape(t')
    requires t'.lv[0] == if s.L == 0 then RemoveAt(t.lv[0], s.i) else t.lv[0]
    requires t'.pg.Keys == t.pg.Keys - {s.p}
    requires 0 < numPages && firstLeaf == t.lv[0][0]
    requires forall x :: x in t.pg ==> x < numPages
    ensures Framed(t', Root(t'), firstLeaf, if s.L == 0
            && s.i + 1 == |t.lv[0]| then l else t.lv[0][|t.lv[0]| - 1], numPages)
  {
    hide Kids, Seps, LevelsOK, ParentsOK, Stacked, RemoveAt, Off, Shape;
    LeavesThere(t);
    LeavesThere(t');
    if s.L == 0 {
      RemovedEnds(t.lv[0], s.i, t'.lv[0]);
    }
  }

  lemma LeavesThere(t: Tree)
    requires Shape(t)
    ensures |t.lv| > 0 && t.lv[0] != []
  {
    hide Kids, Seps, LevelsOK, ParentsOK, Stacked;
    assert RowOK(t.pg, t.lv[0], true);
  }

  /** The ends of a row that loses a page which is not its first. */
  lemma RemovedEnds(row: seq<int>, i: nat, row': seq<int>)
    requires 0 < i < |row| && row' == RemoveAt(row, i)
    ensures row' != [] && row'[0] == row[0]
    ensures row'[|row'| - 1] == if i + 1 == |row| then row[i - 1] else row[|row| - 1]
  {
  }

  lemma UpperFill(t: Tree, s: Site, l: int, order: nat)
    requires Shape(t) && CanMerge(t, s, l) && Occupied(t.pg, Root(t), order, {s.p, l})
    ensures Fill(t.pg[s.u], order, s.u == Root(t))
  {
  }

  lemma NowOccupied(pg: Pages, root: int, order: nat, u: int)
    requires Occupied(pg, root, order, {u}) && u in pg && Fill(pg[u], order, u == root)
    ensures Occupied(pg, root, order, {})
  {
  }

  lemma ShrinkStep(t: Tree, order: nat) returns (t': Tree)
    requires CanDrop(t) && Order(t, NO_PAGE) && order >= 3 && Occupied(t.pg, Root(t), order, {Root(t)})
    ensures t' == DropRoot(t) && Shape(t') && Order(t', NO_PAGE) && Flat(t') == Flat(t)
    ensures KidsOf(t.pg, Root(t)) == [Root(t')]
    ensures t'.lv[0] == t.lv[0] && t'.pg.Keys == t.pg.Keys - {Root(t)}
    ensures Occupied(t'.pg, Root(t'), order, {})
  {
    hide RowOK, Kids, ParentsOK, LevelsOK, Stacked, Order;
    t' := DropRoot(t);
    ShrinkShape(t, t');
    ShrinkOrder(t, t');
    OnlyChild(t);
    forall x | x in t'.pg
      ensures Fill(t'.pg[x], order, x == Root(t'))
    {
      assert Fill(t.pg[x], order, x == Root(t));
    }
  }

  // ---- deletion

  lemma NoNextSame(es: seq<Entry>, j: nat, key: nat)
    requires SortedEnts(es) && j < |es| && es[j].key == key
    ensures forall x :: 0 <= x < |RemoveAt(es, j)| ==> RemoveAt(es, j)[x].key != key
  {
  }

  lemma RemovedLength(es: seq<Entry>, j: nat)
    requires j < |es|
    ensures |RemoveAt(es, j)| == |es| - 1
  {
  }

  lemma FlatRemove(a: seq<Entry>, es: seq<Entry>, c: seq<Entry>, j: nat)
    requires j < |es| && SortedEnts(a + es + c)
    ensures MapOf(a + RemoveAt(es, j) + c) == MapOf(a + es + c) - {es[j].key}
  {
    var x, y := a + es[..j], es[j + 1..] + c;
    assert a + RemoveAt(es, j) + c == x + y;
    assert a + es + c == x + [es[j]] + y by {
      assert es == es[..j] + [es[j]] + es[j + 1..];
    }
    MapMiddle(x, es[j], y);
  }

  lemma RemoveStep(t: Tree, i: nat, j: nat) returns (t': Tree)
    requires Shape(t) && Order(t, NO_PAGE) && i < |t.lv[0]|
    requires t.lv[0][i] in t.pg && t.pg[t.lv[0][i]].Leaf? && j < |t.pg[t.lv[0][i]].ents|
    requires |t.lv[0]| > 1 ==> |t.pg[t.lv[0][i]].ents| > 1
    ensures t' == t.(pg := SetEnts(t.pg, t.lv[0][i], RemoveAt(t.pg[t.lv[0][i]].ents, j)))
    ensures Shape(t') && Order(t', NO_PAGE) && SameRows(t, t')
    ensures MapOf(Flat(t')) == MapOf(Flat(t)) - {t.pg[t.lv[0][i]].ents[j].key}
  {
    hide Kids, Seps, LevelsOK, ParentsOK, RowOK, Stacked, MapOf;
    RemoveEntry(t, i, j);
    t' := t.(pg := SetEnts(t.pg, t.lv[0][i], RemoveAt(t.pg[t.lv[0][i]].ents, j)));
    EntsAround(t.pg, t.lv[0], i);
    FlatRemove(Ents(t.pg, t.lv[0][..i]), t.pg[t.lv[0][i]].ents, Ents(t.pg, t.lv[0][i + 1..]), j);
  }
}
