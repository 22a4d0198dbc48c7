/** Positions in an index and scans along its leaves. */
module IxScan {
  import opened Common
  import opened IxLevels
  import opened IxShape
  import opened IxEdit
  import opened IxFind
  import opened IxGrow
  import opened IxTree

  /** A place in an index: a slot of a leaf. */
  datatype Iid = Iid(pageNo: int, slotNo: int)

  // ---- places as positions in the sorted row of entries

  /** How many entries come before leaf `i`. */
  ghost function Start(t: Tree, i: nat): nat
    requires |t.lv| > 0 && i <= |t.lv[0]|
  {
    |Ents(t.pg, t.lv[0][..i])|
  }

  /** The place is in leaf `i`, and past its last entry only in the last leaf. */
  ghost predicate Place(t: Tree, i: nat, iid: Iid) {
    && |t.lv| > 0 && i < |t.lv[0]|
    && iid.pageNo == t.lv[0][i]
    && 0 <= iid.slotNo <= |EntsOf(t.pg, t.lv[0][i])|
    && (iid.slotNo == |EntsOf(t.pg, t.lv[0][i])| ==> i + 1 == |t.lv[0]|)
  }

  ghost function Pos(t: Tree, i: nat, iid: Iid): nat
    requires Place(t, i, iid)
  {
    Start(t, i) + iid.slotNo
  }

  lemma StartNext(t: Tree, i: nat)
    requires |t.lv| > 0 && i < |t.lv[0]|
    ensures Start(t, i + 1) == Start(t, i) + |EntsOf(t.pg, t.lv[0][i])|
  {
    var row := t.lv[0];
    EntsAround(t.pg, row[..i + 1], i);
    assert row[..i + 1][..i] == row[..i] && row[..i + 1][i + 1..] == [];
  }

  lemma {:induction false} StartMono(t: Tree, i: nat, k: nat)
    requires |t.lv| > 0 && i <= k <= |t.lv[0]|
    ensures Start(t, i) <= Start(t, k) <= |Flat(t)|
    decreases |t.lv[0]| - i
  {
    if k < |t.lv[0]| {
      StartNext(t, k);
      StartMono(t, k + 1, |t.lv[0]|);
    } else {
      assert t.lv[0][..k] == t.lv[0];
    }
    if i < k {
      StartNext(t, i);
      StartMono(t, i + 1, k);
    }
  }

  /** Within leaf `i` the sorted row lists exactly its entries. */
  lemma EntryAt(t: Tree, i: nat, s: nat)
    requires |t.lv| > 0 && i < |t.lv[0]| && s < |EntsOf(t.pg, t.lv[0][i])|
    ensures Start(t, i) + s < |Flat(t)| && Flat(t)[Start(t, i) + s] == EntsOf(t.pg, t.lv[0][i])[s]
  {
    EntsAround(t.pg, t.lv[0], i);
  }

  /** Two places are equal exactly when they have the same position. */
  lemma PlaceUnique(t: Tree, i: nat, a: Iid, k: nat, b: Iid)
    requires Shape(t) && Place(t, i, a) && Place(t, k, b)
    ensures a == b <==> Pos(t, i, a) == Pos(t, k, b)
    ensures a == b ==> i == k
  {
    assert RowOK(t.pg, t.lv[0], true);
    if i < k {
      StartNext(t, i);
      StartMono(t, i + 1, k);
    } else if k < i {
      StartNext(t, k);
      StartMono(t, k + 1, i);
    }
  }

  lemma PosBound(t: Tree, i: nat, iid: Iid)
    requires Place(t, i, iid)
    ensures Pos(t, i, iid) <= |Flat(t)|
    ensures Pos(t, i, iid) == |Flat(t)| <==> iid.slotNo == |EntsOf(t.pg, t.lv[0][i])|
  {
    StartNext(t, i);
    StartMono(t, i + 1, |t.lv[0]|);
    if i + 1 == |t.lv[0]| {
      assert t.lv[0][..i + 1] == t.lv[0];
    }
  }

  // ---- bounds of the whole tree

  /** `pos` is where the entries with keys of at least `key` start. */
  ghost predicate FirstAtLeast(es: seq<Entry>, key: nat, pos: nat) {
    && pos <= |es|
    && (forall x :: 0 <= x < pos ==> es[x].key < key)
    && (forall x :: pos <= x < |es| ==> es[x].key >= key)
  }

  ghost predicate FirstAbove(es: seq<Entry>, key: nat, pos: nat) {
    && pos <= |es|
    && (forall x :: 0 <= x < pos ==> es[x].key <= key)
    && (forall x :: pos <= x < |es| ==> es[x].key > key)
  }

  /** The entries before and after the leaf that the search leads to. */
  lemma Sides(t: Tree, i: nat, key: nat, a: seq<Entry>, b: seq<Entry>, c: seq<Entry>)
    requires Shape(t) && Order(t, NO_PAGE) && Covers(t, 0, i, key)
    requires a == Ents(t.pg, t.lv[0][..i]) && b == EntsOf(t.pg, t.lv[0][i]) && c == Ents(t.pg, t.lv[0][i + 1..])
    ensures Flat(t) == a + b + c && SortedEnts(a) && SortedEnts(c)
    ensures a != [] ==> a[|a| - 1].key < key
    ensures c != [] ==> key < c[0].key
  {
    hide Kids, Seps, RowOK, LevelsOK, ParentsOK, Ents, SortedEnts;
    SepRowDown(t, 0);
    EntsAround(t.pg, t.lv[0], i);
    EntsBeforeAfter(t.pg, t.lv[0], LeafSeps(t), i);
    SortedParts(a, b, c);
  }

  /** A slot found in the leaf that the search leads to, seen in the sorted row. */
  lemma SlotInRow(t: Tree, i: nat, key: nat, es: seq<Entry>, s: nat, above: bool)
    requires Shape(t) && Order(t, NO_PAGE) && Covers(t, 0, i, key) && es == EntsOf(t.pg, t.lv[0][i])
    requires if above then FirstAbove(es, key, s) else FirstAtLeast(es, key, s)
    ensures if above then FirstAbove(Flat(t), key, Start(t, i) + s) else FirstAtLeast(Flat(t), key, Start(t, i) + s)
  {
    hide Shape, Order, Ents, FirstAbove, FirstAtLeast, SortedEnts;
    var a, c := Ents(t.pg, t.lv[0][..i]), Ents(t.pg, t.lv[0][i + 1..]);
    Sides(t, i, key, a, es, c);
    BoundInMiddle(a, es, c, key, s, above);
  }

  lemma BoundInMiddle(a: seq<Entry>, b: seq<Entry>, c: seq<Entry>, key: nat, s: nat, above: bool)
    requires SortedEnts(a) && SortedEnts(c)
    requires a != [] ==> a[|a| - 1].key < key
    requires c != [] ==> key < c[0].key
    requires if above then FirstAbove(b, key, s) else FirstAtLeast(b, key, s)
    ensures if above then FirstAbove(a + b + c, key, |a| + s) else FirstAtLeast(a + b + c, key, |a| + s)
  {
    var es := a + b + c;
    forall x | 0 <= x < |es|
      ensures x < |a| ==> es[x].key < key
      ensures |a| <= x < |a| + |b| ==> es[x] == b[x - |a|]
      ensures |a| + |b| <= x ==> es[x].key > key
    {
      if x < |a| {
        assert es[x] == a[x] && a[x].key <= a[|a| - 1].key;
      } else if |a| + |b| <= x {
        assert es[x] == c[x - |a| - |b|] && c[0].key <= es[x].key;
      }
    }
  }

  /** Moving on to the next leaf when the slot is past the end of this one. */
  lemma Onward(t: Tree, i: nat, s: nat)
    requires Shape(t) && Order(t, NO_PAGE) && i + 1 < |t.lv[0]| && s == |EntsOf(t.pg, t.lv[0][i])|
    ensures Place(t, i + 1, Iid(t.lv[0][i + 1], 0)) && Pos(t, i + 1, Iid(t.lv[0][i + 1], 0)) == Start(t, i) + s
  {
    StartNext(t, i);
    assert EntsOf(t.pg, t.lv[0][i + 1]) != [];
  }

  method Settle(ih: IxIndexHandle, p: int, slot: nat, ghost i: nat) returns (iid: Iid, ghost k: nat)
    requires ih.Valid() && i < |ih.tree.lv[0]| && p == ih.tree.lv[0][i] && p in ih.pages && ih.pages[p].Leaf?
    requires slot <= |ih.pages[p].ents|
    ensures Place(ih.tree, k, iid) && Pos(ih.tree, k, iid) == Start(ih.tree, i) + slot
  {
    hide Kids, Seps, RowOK, LevelsOK, ParentsOK, Ents, Order, Occupied;
    LeafLinks(ih, i);
    if slot == |ih.pages[p].ents| && ih.pages[p].next != NO_PAGE {
      Onward(ih.tree, i, slot);
      iid := Iid(ih.pages[p].next, 0);
      k := i + 1;
    } else {
      iid := Iid(p, slot);
      k := i;
    }
  }

  /** The first place whose key is not below the given one. */
  method LowerBoundIn(ih: IxIndexHandle, key: nat) returns (iid: Iid, ghost k: nat)
    requires ih.Valid()
    ensures Place(ih.tree, k, iid) && FirstAtLeast(Flat(ih.tree), key, Pos(ih.tree, k, iid))
  {
    hide Kids, Seps, RowOK, LevelsOK, ParentsOK, Ents, Order, Occupied, Covers;
    var p, i := ih.FindLeaf(key);
    var es := ih.pages[p].ents;
    OnlyHere(ih.tree, i, key);
    var slot := LowerBound(LeafKeys(es), key, 1);
    assert forall x :: 0 <= x < |es| ==> LeafKeys(es)[x] == es[x].key && Prefix(es[x].key, 1) == es[x].key;
    SlotInRow(ih.tree, i, key, es, slot, false);
    iid, k := Settle(ih, p, slot, i);
  }

  /** The first place whose key is above the given one. */
  method UpperBoundIn(ih: IxIndexHandle, key: nat) returns (iid: Iid, ghost k: nat)
    requires ih.Valid()
    ensures Place(ih.tree, k, iid) && FirstAbove(Flat(ih.tree), key, Pos(ih.tree, k, iid))
  {
    hide Kids, Seps, RowOK, LevelsOK, ParentsOK, Ents, Order, Occupied, Covers;
    var p, i := ih.FindLeaf(key);
    var es := ih.pages[p].ents;
    OnlyHere(ih.tree, i, key);
    var slot := UpperBound(LeafKeys(es), key, 1);
    assert forall x :: 0 <= x < |es| ==> LeafKeys(es)[x] == es[x].key && Prefix(es[x].key, 1) == es[x].key;
    SlotInRow(ih.tree, i, key, es, slot, true);
    iid, k := Settle(ih, p, slot, i);
  }

  // ---- scans

  /** A cursor that walks the leaf chain from one place to another. */
  class Scan {
    const ih: IxIndexHandle
    const end: Iid
    var iid: Iid
    var isEnd: bool
    var currNodeSize: int
    ghost var leaf: nat
    ghost const endLeaf: nat

    /** The places are places of the index, in order, and the cached size is the size of the
        current leaf while the scan goes on. */
    ghost predicate Valid()
      reads this, ih
    {
      && ih.Valid()
      && Place(ih.tree, leaf, iid) && Place(ih.tree, endLeaf, end)
      && Pos(ih.tree, leaf, iid) <= Pos(ih.tree, endLeaf, end)
      && (isEnd ==> iid == end)
      && (iid != end ==> currNodeSize == |EntsOf(ih.pages, iid.pageNo)|)
    }

    /** What is still to come. */
    ghost function Rest(): seq<Entry>
      reads this, ih
      requires Valid()
    {
      PosBound(ih.tree, endLeaf, end);
      Flat(ih.tree)[Pos(ih.tree, leaf, iid)..Pos(ih.tree, endLeaf, end)]
    }

    constructor (ih: IxIndexHandle, lower: Iid, upper: Iid, ghost i: nat, ghost k: nat)
      requires ih.Valid() && Place(ih.tree, i, lower) && Place(ih.tree, k, upper)
      requires Pos(ih.tree, i, lower) <= Pos(ih.tree, k, upper)
      ensures Valid() && this.ih == ih
      ensures Pos(ih.tree, k, upper) <= |Flat(ih.tree)|
      ensures Rest() == Flat(ih.tree)[Pos(ih.tree, i, lower)..Pos(ih.tree, k, upper)]
    {
      PosBound(ih.tree, k, upper);
      LeafLinks(ih, i);
      this.ih, this.iid, this.end, this.isEnd := ih, lower, upper, false;
      this.leaf, this.endLeaf := i, k;
      if lower != upper {
        this.currNodeSize := |ih.pages[lower.pageNo].ents|;
      } else {
        this.currNodeSize := -1;
      }
    }

    method IsEnd() returns (b: bool)
      requires Valid()
      ensures b <==> Rest() == []
    {
      PlaceUnique(ih.tree, leaf, iid, endLeaf, end);
      PosBound(ih.tree, endLeaf, end);
      assert |Rest()| == Pos(ih.tree, endLeaf, end) - Pos(ih.tree, leaf, iid);
      b := isEnd || iid == end;
    }

    /** The record id at the cursor (`get_rid`). */
    method CurrentRid() returns (r: Rid)
      requires Valid()
      ensures Rest() != [] ==> r == Rest()[0].rid
      ensures Pos(ih.tree, leaf, iid) == |Flat(ih.tree)| ==> r == Rid(-1, -1)
    {
      LeafLinks(ih, leaf);
      PosBound(ih.tree, leaf, iid);
      PosBound(ih.tree, endLeaf, end);
      var n := ih.pages[iid.pageNo];
      if iid.slotNo == |n.ents| {
        return Rid(-1, -1);
      }
      EntryAt(ih.tree, leaf, iid.slotNo);
      return n.ents[iid.slotNo].rid;
    }

    method Next()
      requires Valid() && Rest() != []
      modifies this
      ensures Valid() && Rest() == old(Rest())[1..]
    {
      hide Ents, Shape, Order, Occupied, Flat;
      PosBound(ih.tree, endLeaf, end);
      PosBound(ih.tree, leaf, iid);
      PlaceUnique(ih.tree, leaf, iid, endLeaf, end);
      LeafLinks(ih, leaf);
      ghost var pos := Pos(ih.tree, leaf, iid);
      LastLeafAt(ih, leaf);
      iid := iid.(slotNo := iid.slotNo + 1);
      if iid.pageNo != ih.lastLeaf && iid.slotNo == currNodeSize {
        Onward(ih.tree, leaf, iid.slotNo);
        LeafLinks(ih, leaf + 1);
        iid := Iid(ih.pages[iid.pageNo].next, 0);
        leaf := leaf + 1;
        currNodeSize := |ih.pages[iid.pageNo].ents|;
      } else if iid.pageNo == ih.lastLeaf && iid.slotNo == currNodeSize {
        isEnd := true;
        PosBound(ih.tree, leaf, iid);
      }
      PlaceUnique(ih.tree, leaf, iid, endLeaf, end);
      assert Pos(ih.tree, leaf, iid) == pos + 1;
    }
  }

  lemma LastLeafAt(ih: IxIndexHandle, i: nat)
    requires ih.Steady() && i < |ih.tree.lv[0]|
    ensures ih.tree.lv[0][i] == ih.lastLeaf <==> i + 1 == |ih.tree.lv[0]|
  {
    assert RowOK(ih.tree.pg, ih.tree.lv[0], true);
  }

  /** The places before the first and after the last entry (`leaf_begin`, `leaf_end`). */
  method LeafBegin(ih: IxIndexHandle) returns (iid: Iid)
    requires ih.Valid()
    ensures Place(ih.tree, 0, iid) && Pos(ih.tree, 0, iid) == 0
  {
    LeafLinks(ih, 0);
    FirstPlace(ih.tree);
    iid := Iid(ih.firstLeaf, 0);
  }

  lemma FirstPlace(t: Tree)
    requires Shape(t) && Order(t, NO_PAGE) && t.lv[0] != []
    ensures Place(t, 0, Iid(t.lv[0][0], 0)) && Start(t, 0) == 0
  {
    assert t.lv[0][..0] == [];
    assert |t.lv[0]| > 1 ==> EntsOf(t.pg, t.lv[0][0]) != [];
  }

  method LeafEnd(ih: IxIndexHandle) returns (iid: Iid, ghost k: nat)
    requires ih.Valid()
    ensures Place(ih.tree, k, iid) && Pos(ih.tree, k, iid) == |Flat(ih.tree)|
  {
    k := |ih.tree.lv[0]| - 1;
    LeafLinks(ih, k);
    iid := Iid(ih.lastLeaf, |ih.pages[ih.lastLeaf].ents|);
    PosBound(ih.tree, k, iid);
  }
}
