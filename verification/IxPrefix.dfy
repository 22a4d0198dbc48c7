/** Searches by leading columns in a whole index.

The descent to a leaf compares all columns, whatever the bytes behind the leading ones happen to be; only the
search in the leaf compares the leading columns alone. */
module IxPrefix {
  import opened Common
  import opened IxLevels
  import opened IxShape
  import opened IxFind
  import opened IxGrow
  import opened IxTree
  import opened IxScan

  /** `pos` is where the entries whose leading columns are at least those of `key` start. */
  ghost predicate FirstPrefix(es: seq<Entry>, key: nat, w: nat, pos: nat)
    requires w > 0
  {
    && pos <= |es|
    && (forall x :: 0 <= x < pos ==> Prefix(es[x].key, w) < Prefix(key, w))
    && (forall x :: pos <= x < |es| ==> Prefix(es[x].key, w) >= Prefix(key, w))
  }

  ghost predicate AbovePrefix(es: seq<Entry>, key: nat, w: nat, pos: nat)
    requires w > 0
  {
    && pos <= |es|
    && (forall x :: 0 <= x < pos ==> Prefix(es[x].key, w) <= Prefix(key, w))
    && (forall x :: pos <= x < |es| ==> Prefix(es[x].key, w) > Prefix(key, w))
  }

  /** The entry has the same leading columns as the key. */
  predicate SamePrefix(e: Entry, key: nat, w: nat)
    requires w > 0
  {
    Prefix(e.key, w) == Prefix(key, w)
  }

  /** The last entry before leaf `i` has the leading columns of the key. */
  ghost predicate CutBefore(t: Tree, i: nat, key: nat, w: nat)
    requires |t.lv| > 0 && i < |t.lv[0]| && w > 0
  {
    0 < Start(t, i) <= |Flat(t)| && SamePrefix(Flat(t)[Start(t, i) - 1], key, w)
  }

  /** The first entry behind leaf `i` has. */
  ghost predicate CutBehind(t: Tree, i: nat, key: nat, w: nat)
    requires |t.lv| > 0 && i < |t.lv[0]| && w > 0
  {
    Start(t, i + 1) < |Flat(t)| && SamePrefix(Flat(t)[Start(t, i + 1)], key, w)
  }

  lemma Before(a: seq<Entry>, key: nat, w: nat)
    requires SortedEnts(a) && w > 0 && (a != [] ==> a[|a| - 1].key < key)
    ensures forall x :: 0 <= x < |a| ==> Prefix(a[x].key, w) <= Prefix(a[|a| - 1].key, w) <= Prefix(key, w)
  {
    hide Prefix;
    forall x | 0 <= x < |a|
      ensures Prefix(a[x].key, w) <= Prefix(a[|a| - 1].key, w) <= Prefix(key, w)
    {
      PrefixMono(a[x].key, a[|a| - 1].key, w);
      PrefixMono(a[|a| - 1].key, key, w);
    }
  }

  lemma Behind(c: seq<Entry>, key: nat, w: nat)
    requires SortedEnts(c) && w > 0 && (c != [] ==> key < c[0].key)
    ensures forall x :: 0 <= x < |c| ==> Prefix(key, w) <= Prefix(c[0].key, w) <= Prefix(c[x].key, w)
  {
    hide Prefix;
    forall x | 0 <= x < |c|
      ensures Prefix(key, w) <= Prefix(c[0].key, w) <= Prefix(c[x].key, w)
    {
      PrefixMono(key, c[0].key, w);
      PrefixMono(c[0].key, c[x].key, w);
    }
  }

  lemma Joined(a: seq<Entry>, b: seq<Entry>, c: seq<Entry>)
    ensures forall x :: 0 <= x < |a| ==> (a + b + c)[x] == a[x]
    ensures forall x :: 0 <= x < |b| ==> (a + b + c)[|a| + x] == b[x]
    ensures forall x :: 0 <= x < |c| ==> (a + b + c)[|a| + |b| + x] == c[x]
  {
  }

  /** A slot found among the entries `b` of the leaf, with the entries before and behind it. */
  lemma LowerInMiddle(a: seq<Entry>, b: seq<Entry>, c: seq<Entry>, key: nat, w: nat, s: nat)
    requires SortedEnts(a) && SortedEnts(c) && w > 0 && FirstPrefix(b, key, w, s)
    requires (a != [] ==> a[|a| - 1].key < key) && (c != [] ==> key < c[0].key)
    ensures FirstPrefix(a + b + c, key, w, |a| + s) <==> (a != [] ==> !SamePrefix(a[|a| - 1], key, w))
  {
    hide Prefix, SortedEnts;
    Before(a, key, w);
    Behind(c, key, w);
    Joined(a, b, c);
    var es := a + b + c;
    if a != [] && SamePrefix(a[|a| - 1], key, w) {
      assert es[|a| - 1] == a[|a| - 1];
    } else {
      forall x | 0 <= x < |es|
        ensures x < |a| + s ==> Prefix(es[x].key, w) < Prefix(key, w)
        ensures |a| + s <= x ==> Prefix(es[x].key, w) >= Prefix(key, w)
      {
        if x < |a| {
          assert es[x] == a[x];
        } else if x < |a| + |b| {
          assert es[x] == es[|a| + (x - |a|)] == b[x - |a|];
        } else {
          assert es[x] == es[|a| + |b| + (x - |a| - |b|)] == c[x - |a| - |b|];
        }
      }
    }
  }

  lemma UpperInMiddle(a: seq<Entry>, b: seq<Entry>, c: seq<Entry>, key: nat, w: nat, s: nat)
    requires SortedEnts(a) && SortedEnts(c) && w > 0 && AbovePrefix(b, key, w, s)
    requires (a != [] ==> a[|a| - 1].key < key) && (c != [] ==> key < c[0].key)
    ensures AbovePrefix(a + b + c, key, w, |a| + s) <==> (c != [] ==> !SamePrefix(c[0], key, w))
  {
    hide Prefix, SortedEnts;
    Before(a, key, w);
    Behind(c, key, w);
    Joined(a, b, c);
    var es := a + b + c;
    if c != [] && SamePrefix(c[0], key, w) {
      assert es[|a| + |b| + 0] == c[0];
    } else {
      forall x | 0 <= x < |es|
        ensures x < |a| + s ==> Prefix(es[x].key, w) <= Prefix(key, w)
        ensures |a| + s <= x ==> Prefix(es[x].key, w) > Prefix(key, w)
      {
        if x < |a| {
          assert es[x] == a[x];
        } else if x < |a| + |b| {
          assert es[x] == es[|a| + (x - |a|)] == b[x - |a|];
        } else {
          assert es[x] == es[|a| + |b| + (x - |a| - |b|)] == c[x - |a| - |b|];
        }
      }
    }
  }

  lemma PrefixSlot(t: Tree, i: nat, key: nat, w: nat, es: seq<Entry>, s: nat, above: bool)
    requires Shape(t) && Order(t, NO_PAGE) && Covers(t, 0, i, key) && es == EntsOf(t.pg, t.lv[0][i]) && w > 0
    requires if above then AbovePrefix(es, key, w, s) else FirstPrefix(es, key, w, s)
    ensures above ==> (AbovePrefix(Flat(t), key, w, Start(t, i) + s) <==> !CutBehind(t, i, key, w))
    ensures !above ==> (FirstPrefix(Flat(t), key, w, Start(t, i) + s) <==> !CutBefore(t, i, key, w))
  {
    hide Shape, Order, Ents, AbovePrefix, FirstPrefix, SortedEnts, SamePrefix;
    var a, c := Ents(t.pg, t.lv[0][..i]), Ents(t.pg, t.lv[0][i + 1..]);
    Sides(t, i, key, a, es, c);
    StartNext(t, i);
    if above {
      UpperInMiddle(a, es, c, key, w, s);
    } else {
      LowerInMiddle(a, es, c, key, w, s);
    }
    assert c != [] ==> (a + es + c)[|a| + |es|] == c[0];
    assert a != [] ==> (a + es + c)[|a| - 1] == a[|a| - 1];
  }

  lemma LeafRows(es: seq<Entry>)
    requires SortedEnts(es)
    ensures SortedKeys(LeafKeys(es)) && |LeafKeys(es)| == |es|
    ensures forall x :: 0 <= x < |es| ==> LeafKeys(es)[x] == es[x].key
  {
  }

  /** The first place whose leading columns are not below those of the key: this is right if and only if the leaf
      before the one that the search leads to does not end with the same leading columns, as it never does
      when the columns behind them are as small as can be. */
  method LowerPrefix(ih: IxIndexHandle, key: nat, w: nat) returns (iid: Iid, ghost k: nat, ghost i: nat)
    requires ih.Valid() && w > 0
    ensures Place(ih.tree, k, iid) && Covers(ih.tree, 0, i, key)
    ensures FirstPrefix(Flat(ih.tree), key, w, Pos(ih.tree, k, iid)) <==> !CutBefore(ih.tree, i, key, w)
    ensures key % w == 0 ==> FirstPrefix(Flat(ih.tree), key, w, Pos(ih.tree, k, iid))
  {
    hide Kids, Seps, RowOK, LevelsOK, ParentsOK, Ents, Order, Occupied, Covers, FirstPrefix, SortedEnts, Prefix;
    var p;
    p, i := ih.FindLeaf(key);
    var es := ih.pages[p].ents;
    OnlyHere(ih.tree, i, key);
    LeafRows(es);
    var slot := LowerBound(LeafKeys(es), key, w);
    assert FirstPrefix(es, key, w, slot) by { LowerIs(es, key, w, slot); }
    PrefixSlot(ih.tree, i, key, w, es, slot, false);
    if key % w == 0 {
      LowestRight(ih.tree, i, key, w);
    }
    iid, k := Settle(ih, p, slot, i);
  }

  lemma LowerIs(es: seq<Entry>, key: nat, w: nat, r: nat)
    requires w > 0 && |LeafKeys(es)| == |es| && (forall x :: 0 <= x < |es| ==> LeafKeys(es)[x] == es[x].key)
             && r <= |es|
    requires forall i :: 0 <= i < r ==> Prefix(LeafKeys(es)[i], w) < Prefix(key, w)
    requires forall i :: r <= i < |es| ==> Prefix(LeafKeys(es)[i], w) >= Prefix(key, w)
    ensures FirstPrefix(es, key, w, r)
  {
    hide Prefix, LeafKeys;
    assert forall x :: 0 <= x < |es| ==> Prefix(LeafKeys(es)[x], w) == Prefix(es[x].key, w);
  }

  lemma UpperIs(es: seq<Entry>, key: nat, w: nat, r: nat)
    requires w > 0 && |LeafKeys(es)| == |es| && (forall x :: 0 <= x < |es| ==> LeafKeys(es)[x] == es[x].key)
             && r <= |es|
    requires forall i :: 0 <= i < r ==> Prefix(LeafKeys(es)[i], w) <= Prefix(key, w)
    requires forall i :: r <= i < |es| ==> Prefix(LeafKeys(es)[i], w) > Prefix(key, w)
    ensures AbovePrefix(es, key, w, r)
  {
    hide Prefix, LeafKeys;
    assert forall x :: 0 <= x < |es| ==> Prefix(LeafKeys(es)[x], w) == Prefix(es[x].key, w);
  }

  /** Entries before the leaf have smaller keys, entries behind it greater ones. */
  lemma AroundLeaf(t: Tree, i: nat, key: nat)
    requires Shape(t) && Order(t, NO_PAGE) && Covers(t, 0, i, key)
    ensures 0 < Start(t, i) <= |Flat(t)| ==> Flat(t)[Start(t, i) - 1].key < key
    ensures Start(t, i + 1) < |Flat(t)| ==> key < Flat(t)[Start(t, i + 1)].key
  {
    hide Shape, Order, Ents, SortedEnts;
    var a, es, c := Ents(t.pg, t.lv[0][..i]), EntsOf(t.pg, t.lv[0][i]), Ents(t.pg, t.lv[0][i + 1..]);
    Sides(t, i, key, a, es, c);
    StartNext(t, i);
    assert c != [] ==> (a + es + c)[|a| + |es|] == c[0];
    assert a != [] ==> (a + es + c)[|a| - 1] == a[|a| - 1];
  }

  lemma LowestRight(t: Tree, i: nat, key: nat, w: nat)
    requires Shape(t) && Order(t, NO_PAGE) && Covers(t, 0, i, key) && w > 0 && key % w == 0
    ensures !CutBefore(t, i, key, w)
  {
    hide Shape, Order, Flat, Start;
    AroundLeaf(t, i, key);
    if 0 < Start(t, i) <= |Flat(t)| {
      BelowWhole(Flat(t)[Start(t, i) - 1].key, key, w);
    }
  }

  lemma BelowWhole(x: nat, key: nat, w: nat)
    requires w > 0 && x < key && key % w == 0
    ensures Prefix(x, w) < Prefix(key, w)
  {
    assert key == (key / w) * w && x == (x / w) * w + x % w;
    if x / w >= key / w {
      MulUp(key / w, x / w, w);
    }
  }

  lemma AboveWhole(x: nat, key: nat, w: nat)
    requires w > 0 && key < x && key % w == w - 1
    ensures Prefix(key, w) < Prefix(x, w)
  {
    assert key == (key / w) * w + (w - 1) && x == (x / w) * w + x % w;
    if x / w <= key / w {
      MulUp(x / w, key / w, w);
    }
  }

  lemma HighestRight(t: Tree, i: nat, key: nat, w: nat)
    requires Shape(t) && Order(t, NO_PAGE) && Covers(t, 0, i, key) && w > 0 && key % w == w - 1
    ensures !CutBehind(t, i, key, w)
  {
    hide Shape, Order, Flat, Start;
    AroundLeaf(t, i, key);
    if Start(t, i + 1) < |Flat(t)| {
      AboveWhole(Flat(t)[Start(t, i + 1)].key, key, w);
    }
  }

  /** The first place whose leading columns are above those of the key: right if and only if the leaf behind
      does not begin with the same leading columns. */
  method UpperPrefix(ih: IxIndexHandle, key: nat, w: nat) returns (iid: Iid, ghost k: nat, ghost i: nat)
    requires ih.Valid() && w > 0
    ensures Place(ih.tree, k, iid) && Covers(ih.tree, 0, i, key)
    ensures AbovePrefix(Flat(ih.tree), key, w, Pos(ih.tree, k, iid)) <==> !CutBehind(ih.tree, i, key, w)
    ensures key % w == w - 1 ==> AbovePrefix(Flat(ih.tree), key, w, Pos(ih.tree, k, iid))
  {
    hide Kids, Seps, RowOK, LevelsOK, ParentsOK, Ents, Order, Occupied, Covers, AbovePrefix, SortedEnts, Prefix;
    var p;
    p, i := ih.FindLeaf(key);
    var es := ih.pages[p].ents;
    OnlyHere(ih.tree, i, key);
    LeafRows(es);
    var slot := UpperBound(LeafKeys(es), key, w);
    assert AbovePrefix(es, key, w, slot) by { UpperIs(es, key, w, slot); }
    PrefixSlot(ih.tree, i, key, w, es, slot, true);
    if key % w == w - 1 {
      HighestRight(ih.tree, i, key, w);
    }
    iid, k := Settle(ih, p, slot, i);
  }

  // ---- an index in which a search by leading columns goes wrong

  function Ent(key: nat): Entry {
    Entry(key, Rid(1, key))
  }

  /** Two leaves below a root. */
  function TwoLeaves(): Tree {
    Tree(map[1 := Leaf(3, NO_PAGE, 2, [Ent(10), Ent(11)]), 2 := Leaf(3, 1, NO_PAGE, [Ent(12), Ent(13)]),
             3 := Inner(NO_PAGE, NO_PAGE, NO_PAGE, [12], [1, 2])],
         [[1, 2], [3]], map[1 := 0, 2 := 0, 3 := 1])
  }

  lemma TwoPages(t: Tree)
    requires t == TwoLeaves()
    ensures t.lv == [[1, 2], [3]] && t.lv[0] == [1, 2] && t.lv[1] == [3]
    ensures EntsOf(t.pg, 1) == [Ent(10), Ent(11)] && EntsOf(t.pg, 2) == [Ent(12), Ent(13)]
    ensures KidsOf(t.pg, 3) == [1, 2] && KeysOf(t.pg, 3) == [12]
  {
  }

  lemma TwoRows(t: Tree)
    requires t == TwoLeaves()
    ensures Kids(t.pg, [3]) == [1, 2] && Ents(t.pg, [1, 2]) == [Ent(10), Ent(11), Ent(12), Ent(13)]
    ensures Ents(t.pg, [1]) == [Ent(10), Ent(11)]
    ensures Seps(t.pg, [3], [0]) == [0, 12]
  {
    TwoPages(t);
    hide TwoLeaves;
    assert [3][1..] == [] && [1, 2][1..] == [2] && [2][1..] == [] && [0][1..] == [] && [1][1..] == [];
    assert [1, 2] + [] == [1, 2] && [Ent(12), Ent(13)] + [] == [Ent(12), Ent(13)];
    assert [Ent(10), Ent(11)] + [] == [Ent(10), Ent(11)];
    assert Ents(t.pg, [2]) == [Ent(12), Ent(13)];
    assert [Ent(10), Ent(11)] + [Ent(12), Ent(13)] == [Ent(10), Ent(11), Ent(12), Ent(13)];
    assert [0] + [12] + [] == [0, 12];
  }

  lemma TwoShape(t: Tree)
    requires t == TwoLeaves()
    ensures Shape(t)
  {
    TwoRows(t);
    assert t.lv[0] == [1, 2] && t.lv[1] == [3];
    assert LinkedAt(t.pg, [1, 2], 0) && LinkedAt(t.pg, [1, 2], 1) && LinkedAt(t.pg, [3], 0);
    assert RowOK(t.pg, [1, 2], true) && RowOK(t.pg, [3], false);
    assert Placed(t.lv, t.lvl, 1) && Placed(t.lv, t.lvl, 2) && Placed(t.lv, t.lvl, 3);
  }

  lemma TwoOrder(t: Tree)
    requires t == TwoLeaves()
    ensures Order(t, NO_PAGE) && SepRow(t, 0) == [0, 12]
  {
    TwoRows(t);
    TwoPages(t);
    assert SepRow(t, 1) == [0];
    assert SepRow(t, 0) == [0, 12];
    assert LeafSeps(t) == [0, 12];
    assert SepFits(t.pg, [1, 2], 1, 12);
  }

  /** The tree is well formed, and a search for the leading column 1 of keys of two decimal digits, with a 3 behind
      it, is led to the second leaf: the entries 10 and 11 are missed. */
  lemma LeadingColumnMissed(t: Tree)
    requires t == TwoLeaves()
    ensures Shape(t) && Order(t, NO_PAGE) && Covers(t, 0, 1, 13) && CutBefore(t, 1, 13, 10)
    ensures FirstPrefix(Flat(t), 13, 10, 0) && !FirstPrefix(Flat(t), 13, 10, Start(t, 1))
  {
    TwoShape(t);
    TwoOrder(t);
    TwoRows(t);
    TwoPages(t);
    hide TwoLeaves, Shape, Order, SepRow, Ents;
    assert [1, 2][..1] == [1] && Start(t, 1) == 2 && Flat(t) == [Ent(10), Ent(11), Ent(12), Ent(13)];
    assert Prefix(10, 10) == Prefix(11, 10) == Prefix(12, 10) == Prefix(13, 10) == 1;
  }
}
