/** Splitting an overfull page and telling its parent (`split`, `insert_into_parent`). */
module IxSplit {
  import opened Common
  import opened IxLevels
  import opened IxShape
  import opened IxEdit
  import opened IxShift

  function InsertAt<T>(s: seq<T>, i: nat, x: T): seq<T>
    requires i <= |s|
  {
    s[..i] + [x] + s[i..]
  }

  /** The page can be cut at `m`. */
  predicate Cut(n: Node, m: nat) {
    if n.Leaf? then m < |n.ents| else m < |n.keys| && |n.kids| == |n.keys| + 1
  }

  function LeftHalf(n: Node, m: nat, q: int): Node
    requires Cut(n, m)
  {
    if n.Leaf? then n.(ents := n.ents[..m], next := q)
    else n.(keys := n.keys[..m], kids := n.kids[..m + 1], next := q)
  }

  function RightHalf(n: Node, m: nat, p: int): Node
    requires Cut(n, m)
  {
    if n.Leaf? then Leaf(n.parent, p, n.next, n.ents[m..])
    else Inner(n.parent, p, n.next, n.keys[m + 1..], n.kids[m + 1..])
  }

  /** The key that goes up: the first key of a right leaf, the middle key of an inner page. */
  function UpKey(n: Node, m: nat): nat
    requires Cut(n, m)
  {
    if n.Leaf? then n.ents[m].key else n.keys[m]
  }

  function SetPrev(pg: Pages, x: int, q: int): Pages {
    if x in pg then pg[x := pg[x].(prev := q)] else pg
  }

  /** `maintain_child` for each of the children. */
  function SetParents(pg: Pages, cs: seq<int>, u: int): Pages {
    map x | x in pg :: if x in cs then pg[x].(parent := u) else pg[x]
  }

  function SplitPages(pg: Pages, p: int, q: int, m: nat): Pages
    requires p in pg && Cut(pg[p], m)
  {
    SetParents(SetPrev(SetPair(pg, p, LeftHalf(pg[p], m, q), q, RightHalf(pg[p], m, p)), pg[p].next, q),
               RightHalf(pg[p], m, p).KidList(), q)
  }

  function InsertChild(pg: Pages, u: int, j: nat, k: nat, q: int): Pages
    requires u in pg && pg[u].Inner? && j <= |pg[u].keys| && j + 1 <= |pg[u].kids|
  {
    pg[u := pg[u].(keys := InsertAt(pg[u].keys, j, k), kids := InsertAt(pg[u].kids, j + 1, q))]
  }

  /** Page `p`, at position `i` of level `L`, is child `j` of page `u`, at position `a` of
      level `U`, the next one. */
  datatype Site = Site(L: nat, i: nat, p: int, U: nat, a: nat, u: int, j: nat)

  ghost predicate IsSite(t: Tree, s: Site) {
    && s.U == s.L + 1
    && s.U < |t.lv| && s.i < |t.lv[s.L]| && s.a < |t.lv[s.U]|
    && t.lv[s.L][s.i] == s.p && t.lv[s.U][s.a] == s.u
    && s.p in t.pg && s.u in t.pg && s.u != s.p
    && t.pg[s.u].Inner?
    && s.j < |t.pg[s.u].kids| == |t.pg[s.u].keys| + 1
    && s.i == Off(t.pg, t.lv[s.U], s.a) + s.j
  }

  function SplitAndInsert(pg: Pages, p: int, q: int, m: nat, u: int, j: nat): Pages
    requires p in pg && Cut(pg[p], m) && u in pg && u != p && u != q
    requires pg[u].Inner? && j < |pg[u].kids| == |pg[u].keys| + 1
  {
    InsertChild(SplitPages(pg, p, q, m), u, j, UpKey(pg[p], m), q)
  }

  /** The tree after page `p` is cut at `m` and the new page `q` is added to the parent. */
  ghost function SplitTree(t: Tree, s: Site, m: nat, q: int): Tree
    requires IsSite(t, s) && Cut(t.pg[s.p], m) && q !in t.pg
  {
    Tree(SplitAndInsert(t.pg, s.p, q, m, s.u, s.j), t.lv[s.L := InsertAt(t.lv[s.L], s.i + 1, q)], t.lvl[q := s.L])
  }

  ghost predicate Splits(t: Tree, t': Tree, s: Site, m: nat, q: int) {
    && Shape(t)
    && IsSite(t, s) && Cut(t.pg[s.p], m) && q !in t.pg && q > 0
    && t' == SplitTree(t, s, m, q)
  }

  lemma SplitLv(t: Tree, t': Tree, s: Site, m: nat, q: int)
    requires Splits(t, t', s, m, q)
    ensures |t'.lv| == |t.lv|
    ensures t'.lv[s.L] == InsertAt(t.lv[s.L], s.i + 1, q)
    ensures forall M :: 0 <= M < |t.lv| && M != s.L ==> t'.lv[M] == t.lv[M]
  {
  }

  /** The place of a page that is not the root. */
  lemma SiteOf(t: Tree, L: nat, i: nat) returns (s: Site)
    requires Shape(t) && L + 1 < |t.lv| && i < |t.lv[L]|
    ensures IsSite(t, s) && s.L == L && s.i == i
  {
    var a, j := ParentOf(t, L, i);
    assert RowOK(t.pg, t.lv[L], L == 0);
    OtherLevel(t, L, i, L + 1, a);
    s := Site(L, i, t.lv[L][i], L + 1, a, t.lv[L + 1][a], j);
  }

  lemma SiteFacts(t: Tree, s: Site)
    requires Shape(t) && IsSite(t, s)
    ensures t.pg[s.u].kids[s.j] == s.p && t.pg[s.p].parent == s.u
    ensures t.lvl[s.p] == s.L && t.lvl[s.u] == s.U
  {
    assert StackedAt(t.pg, t.lv, s.U) && ParentsOK(t.pg, t.lv[s.U]);
    KidAt(t.pg, t.lv[s.U], s.a, s.j);
    assert At(t.pg, KidsOf(t.pg, s.u)[s.j]).parent == s.u;
  }

  // ---- what each page looks like afterwards

  lemma NextLevel(t: Tree, L: nat, i: nat)
    requires Shape(t) && L < |t.lv| && i < |t.lv[L]|
    ensures t.lv[L][i] in t.pg && t.pg[t.lv[L][i]].next == NextIn(t.lv[L], i)
            && t.pg[t.lv[L][i]].prev == PrevIn(t.lv[L], i)
    ensures t.pg[t.lv[L][i]].next in t.pg ==> i + 1 < |t.lv[L]| && t.lvl[t.pg[t.lv[L][i]].next] == L
    ensures t.pg[t.lv[L][i]].next !in t.pg ==> i + 1 == |t.lv[L]| && t.pg[t.lv[L][i]].next == NO_PAGE
  {
    assert RowOK(t.pg, t.lv[L], L == 0);
    assert LinkedAt(t.pg, t.lv[L], i);
    if i + 1 < |t.lv[L]| {
      assert t.lv[L][i + 1] in t.lvl;
    } else {
      assert NO_PAGE in t.pg ==> Placed(t.lv, t.lvl, NO_PAGE);
    }
  }

  lemma RightKids(t: Tree, L: nat, i: nat, m: nat, c: int)
    requires Shape(t) && L < |t.lv| && i < |t.lv[L]| && t.lv[L][i] in t.pg && Cut(t.pg[t.lv[L][i]], m)
    requires c in RightHalf(t.pg[t.lv[L][i]], m, t.lv[L][i]).KidList()
    ensures L > 0 && c in t.pg && t.lvl[c] == L - 1 && t.pg[c].parent == t.lv[L][i]
  {
    var p := t.lv[L][i];
    assert RowOK(t.pg, t.lv[L], L == 0);
    var y :| 0 <= y < |t.pg[p].kids| && t.pg[p].kids[y] == c;
    KidLevel(t, L, i, y);
    assert ParentsOK(t.pg, t.lv[L]);
    assert At(t.pg, KidsOf(t.pg, p)[y]).parent == p;
  }

  lemma SplitAt(t: Tree, t': Tree, s: Site, m: nat, q: int, x: int)
    requires Splits(t, t', s, m, q) && x in t.pg
    ensures x in t'.pg
    ensures t'.pg[x].Leaf? == t.pg[x].Leaf?
    ensures t'.pg[x].prev == (if x == t.pg[s.p].next then q else t.pg[x].prev)
    ensures t'.pg[x].next == (if x == s.p then q else t.pg[x].next)
    ensures t'.pg[x].parent == (if x in RightHalf(t.pg[s.p], m, s.p).KidList() then q else t.pg[x].parent)
    ensures (x != s.p && x != s.u ==>
            t'.pg[x].KidList() == t.pg[x].KidList()
            && t'.pg[x].KeyList() == t.pg[x].KeyList() && t'.pg[x].EntList() == t.pg[x].EntList())
  {
    SiteFacts(t, s);
    NextLevel(t, s.L, s.i);
    var p, u := s.p, s.u;
    var cs := RightHalf(t.pg[p], m, p).KidList();
    if x in cs {
      RightKids(t, s.L, s.i, m, x);
    }
  }

  lemma SplitNew(t: Tree, t': Tree, s: Site, m: nat, q: int)
    requires Splits(t, t', s, m, q)
    ensures t'.pg.Keys == t.pg.Keys + {q}
    ensures t'.pg[q] == RightHalf(t.pg[s.p], m, s.p)
    ensures t'.pg[s.p] == LeftHalf(t.pg[s.p], m, q)
    ensures t'.pg[s.u].Inner? && t'.pg[s.u].keys == InsertAt(t.pg[s.u].keys, s.j, UpKey(t.pg[s.p], m))
    ensures t'.pg[s.u].kids == InsertAt(t.pg[s.u].kids, s.j + 1, q)
  {
    SiteFacts(t, s);
    NextLevel(t, s.L, s.i);
    var p, u := s.p, s.u;
    var cs := RightHalf(t.pg[p], m, p).KidList();
    forall c | c in cs
      ensures c != p && c != q && c != u && c in t.pg
    {
      RightKids(t, s.L, s.i, m, c);
    }
    assert t.pg[p].next != p;
  }

  // ---- the shape

  lemma KidsSetOne(pg: Pages, row: seq<int>, a: nat, n: Node)
    requires NoDup(row) && a < |row|
    ensures Kids(pg[row[a] := n], row) == Kids(pg, row[..a]) + n.KidList() + Kids(pg, row[a + 1..])
  {
    NotInParts(row, a);
    KidsAround(pg[row[a] := n], row, a);
    KidsSkip(pg, row[a], n, row[..a]);
    KidsSkip(pg, row[a], n, row[a + 1..]);
  }

  lemma SepsSetOne(pg: Pages, row: seq<int>, ss: seq<nat>, a: nat, n: Node)
    requires NoDup(row) && a < |row| == |ss|
    ensures Seps(pg[row[a] := n], row, ss)
         == Seps(pg, row[..a], ss[..a]) + ([ss[a]] + n.KeyList()) + Seps(pg, row[a + 1..], ss[a + 1..])
  {
    NotInParts(row, a);
    SepsAround(pg[row[a] := n], row, ss, a);
    SepsSkip(pg, row[a], n, row[..a], ss[..a]);
    SepsSkip(pg, row[a], n, row[a + 1..], ss[a + 1..]);
  }

  lemma InsertAtIndex<T>(s: seq<T>, i: nat, x: T, y: nat)
    requires i <= |s| && y <= |s|
    ensures InsertAt(s, i, x)[y] == if y < i then s[y] else if y == i then x else s[y - 1]
  {
  }

  lemma InsertBehind<T>(h: T, s: seq<T>, j: nat, x: T)
    requires j <= |s|
    ensures InsertAt([h] + s, j + 1, x) == [h] + InsertAt(s, j, x)
  {
  }

  lemma InsertInMiddle<T>(a: seq<T>, b: seq<T>, c: seq<T>, j: nat, x: T)
    requires j <= |b|
    ensures InsertAt(a + b + c, |a| + j, x) == a + InsertAt(b, j, x) + c
  {
  }

  /** The rows read alike in two page maps. */
  lemma RowData(pg: Pages, pg': Pages, row: seq<int>, ss: seq<nat>)
    requires forall k :: 0 <= k < |row| ==>
             KidsOf(pg, row[k]) == KidsOf(pg', row[k]) && KeysOf(pg, row[k]) == KeysOf(pg', row[k])
    ensures Kids(pg, row) == Kids(pg', row) && Seps(pg, row, ss) == Seps(pg', row, ss)
    ensures InnerRow(pg, row) == InnerRow(pg', row)
  {
    KidsFrame(pg, pg', row);
    SepsFrame(pg, pg', row, ss);
    if InnerRow(pg, row) {
      assert forall k :: 0 <= k < |row| ==> |KidsOf(pg, row[k])| == |KeysOf(pg, row[k])| + 1;
    }
    if InnerRow(pg', row) {
      assert forall k :: 0 <= k < |row| ==> |KidsOf(pg', row[k])| == |KeysOf(pg', row[k])| + 1;
    }
  }

  lemma InsertedRow(row: seq<int>, i: nat, q: int, row': seq<int>)
    requires i < |row| && row' == InsertAt(row, i + 1, q)
    ensures |row'| == |row| + 1 && row'[..i] == row[..i] && row'[i] == row[i] && row'[i + 1] == q
    ensures row'[i + 2..] == row[i + 1..]
    ensures forall k :: 0 <= k <= i ==> row'[k] == row[k]
    ensures forall k :: i + 1 < k <= |row| ==> row'[k] == row[k - 1]
  {
  }

  lemma InsertedNoDup(row: seq<int>, i: nat, q: int)
    requires NoDup(row) && i < |row| && q !in row
    ensures NoDup(InsertAt(row, i + 1, q))
  {
    var row' := InsertAt(row, i + 1, q);
    InsertedRow(row, i, q, row');
    forall x, y | 0 <= x < y < |row'|
      ensures row'[x] != row'[y]
    {
      var x', y' := if x <= i then x else x - 1, if y <= i then y else y - 1;
      if x == i + 1 {
        assert row'[y] == row[y'];
      } else if y == i + 1 {
        assert row'[x] == row[x'];
      } else {
        assert row'[x] == row[x'] && row'[y] == row[y'];
      }
    }
  }

  /** The pages of other levels keep their data. */
  lemma SplitElse(t: Tree, t': Tree, s: Site, m: nat, q: int, M: nat)
    requires Splits(t, t', s, m, q) && M < |t.lv| && M != s.L && M != s.U
    ensures (forall k :: 0 <= k < |t.lv[M]| ==>
            KidsOf(t.pg, t.lv[M][k]) == KidsOf(t'.pg, t.lv[M][k])
            && KeysOf(t.pg, t.lv[M][k]) == KeysOf(t'.pg, t.lv[M][k]))
    ensures (forall k :: 0 <= k < |t.lv[M]| ==> EntsOf(t.pg, t.lv[M][k]) == EntsOf(t'.pg, t.lv[M][k]))
  {
    SplitNew(t, t', s, m, q);
    forall k | 0 <= k < |t.lv[M]|
      ensures KidsOf(t.pg, t.lv[M][k]) == KidsOf(t'.pg, t.lv[M][k])
              && KeysOf(t.pg, t.lv[M][k]) == KeysOf(t'.pg, t.lv[M][k])
      ensures EntsOf(t.pg, t.lv[M][k]) == EntsOf(t'.pg, t.lv[M][k])
    {
      OtherLevel(t, s.L, s.i, M, k);
      OtherLevel(t, s.U, s.a, M, k);
      assert RowOK(t.pg, t.lv[M], M == 0);
      SplitAt(t, t', s, m, q, t.lv[M][k]);
    }
  }

  /** Page `a` of the row gains child `q` at `j + 1` behind key `k`. */
  ghost predicate Gains(pg: Pages, row: seq<int>, a: nat, n: Node, j: nat, k: nat, q: int) {
    && a < |row| && NoDup(row) && InnerRow(pg, row)
    && j <= |KeysOf(pg, row[a])|
    && n.Inner?
    && n.keys == InsertAt(KeysOf(pg, row[a]), j, k)
    && n.kids == InsertAt(KidsOf(pg, row[a]), j + 1, q)
  }

  lemma GainsKids(pg: Pages, row: seq<int>, a: nat, n: Node, j: nat, k: nat, q: int)
    requires Gains(pg, row, a, n, j, k, q)
    ensures InnerRow(pg[row[a] := n], row)
    ensures Off(pg, row, a) + j + 1 <= |Kids(pg, row)|
    ensures Kids(pg[row[a] := n], row) == InsertAt(Kids(pg, row), Off(pg, row, a) + (j + 1), q)
  {
    KidsSetOne(pg, row, a, n);
    KidsAround(pg, row, a);
    InsertInMiddle(Kids(pg, row[..a]), KidsOf(pg, row[a]), Kids(pg, row[a + 1..]), j + 1, q);
  }

  lemma GainsSeps(pg: Pages, row: seq<int>, a: nat, n: Node, j: nat, k: nat, q: int, ss: seq<nat>)
    requires Gains(pg, row, a, n, j, k, q) && |ss| == |row|
    ensures Off(pg, row, a) + (j + 1) <= |Seps(pg, row, ss)|
    ensures Seps(pg[row[a] := n], row, ss) == InsertAt(Seps(pg, row, ss), Off(pg, row, a) + (j + 1), k)
  {
    hide Kids, Ents, Seps, InsertAt;
    SepsSetOne(pg, row, ss, a, n);
    SepsAround(pg, row, ss, a);
    var x := Seps(pg, row[..a], ss[..a]);
    assert |x| == Off(pg, row, a) by {
      assert InnerRow(pg, row[..a]);
      SepsLen(pg, row[..a], ss[..a]);
    }
    var ks := KeysOf(pg, row[a]);
    var seg, z := [ss[a]] + ks, Seps(pg, row[a + 1..], ss[a + 1..]);
    InsertInMiddle(x, seg, z, j + 1, k);
    InsertBehind(ss[a], ks, j, k);
  }

  lemma SplitParentRow(t: Tree, t': Tree, s: Site, m: nat, q: int)
    requires Splits(t, t', s, m, q)
    ensures s.u in t'.pg && Gains(t.pg, t.lv[s.U], s.a, t'.pg[s.u], s.j, UpKey(t.pg[s.p], m), q)
    ensures (forall x :: 0 <= x < |t.lv[s.U]| ==>
            KidsOf(t.pg[s.u := t'.pg[s.u]], t.lv[s.U][x]) == KidsOf(t'.pg, t.lv[s.U][x])
            && KeysOf(t.pg[s.u := t'.pg[s.u]], t.lv[s.U][x]) == KeysOf(t'.pg, t.lv[s.U][x]))
  {
    var row, u := t.lv[s.U], s.u;
    SplitNew(t, t', s, m, q);
    assert RowOK(t.pg, row, false) && StackedAt(t.pg, t.lv, s.U);
    forall x | 0 <= x < |row|
      ensures KidsOf(t.pg[u := t'.pg[u]], row[x]) == KidsOf(t'.pg, row[x])
              && KeysOf(t.pg[u := t'.pg[u]], row[x]) == KeysOf(t'.pg, row[x])
    {
      OtherLevel(t, s.L, s.i, s.U, x);
      SplitAt(t, t', s, m, q, row[x]);
    }
  }

  /** The children of the parent's level. */
  lemma SplitUpperKids(t: Tree, t': Tree, s: Site, m: nat, q: int)
    requires Splits(t, t', s, m, q)
    ensures InnerRow(t'.pg, t.lv[s.U])
    ensures Kids(t'.pg, t.lv[s.U]) == InsertAt(t.lv[s.L], s.i + 1, q)
  {
    var row, u := t.lv[s.U], s.u;
    var pg' := t'.pg;
    SplitParentRow(t, t', s, m, q);
    RowData(t.pg[u := pg'[u]], pg', row, []);
    GainsKids(t.pg, row, s.a, pg'[u], s.j, UpKey(t.pg[s.p], m), q);
    assert StackedAt(t.pg, t.lv, s.U);
  }

  /** The separators the parent's level hands down. */
  lemma SplitUpperSeps(t: Tree, t': Tree, s: Site, m: nat, q: int, ss: seq<nat>)
    requires Splits(t, t', s, m, q) && |ss| == |t.lv[s.U]|
    ensures s.i + 1 <= |Seps(t.pg, t.lv[s.U], ss)|
    ensures Seps(t'.pg, t.lv[s.U], ss)
         == InsertAt(Seps(t.pg, t.lv[s.U], ss), s.i + 1, UpKey(t.pg[s.p], m))
  {
    hide Kids, InsertAt, SplitTree;
    var row, u := t.lv[s.U], s.u;
    var pg' := t'.pg;
    SplitParentRow(t, t', s, m, q);
    RowData(t.pg[u := pg'[u]], pg', row, ss);
    GainsSeps(t.pg, row, s.a, pg'[u], s.j, UpKey(t.pg[s.p], m), q, ss);
  }

  /** The two halves in their own row, as far as children and separators go. */
  lemma SplitOwn(t: Tree, t': Tree, s: Site, m: nat, q: int)
    requires Splits(t, t', s, m, q)
    ensures (forall x :: 0 <= x < |t'.lv[s.L]| ==>
            KidsOf(SetPair(t.pg, s.p, LeftHalf(t.pg[s.p], m, q), q, RightHalf(t.pg[s.p], m, s.p)), t'.lv[s.L][x]) ==
            KidsOf(t'.pg, t'.lv[s.L][x])
            && KeysOf(SetPair(t.pg, s.p, LeftHalf(t.pg[s.p], m, q), q, RightHalf(t.pg[s.p], m, s.p)), t'.lv[s.L][x]) ==
            KeysOf(t'.pg, t'.lv[s.L][x]))
    ensures (forall x :: 0 <= x < |t'.lv[s.L]| ==>
            EntsOf(SetPair(t.pg, s.p, LeftHalf(t.pg[s.p], m, q), q, RightHalf(t.pg[s.p], m, s.p)), t'.lv[s.L][x]) ==
            EntsOf(t'.pg, t'.lv[s.L][x]))
    ensures NoDup(t'.lv[s.L])
  {
    hide Kids, Seps, Ents, Stacked, ParentsOK, InsertAt, SplitTree;
    SplitLv(t, t', s, m, q);
    var row, row', p := t.lv[s.L], t'.lv[s.L], s.p;
    var pg1 := SetPair(t.pg, p, LeftHalf(t.pg[p], m, q), q, RightHalf(t.pg[p], m, p));
    assert RowOK(t.pg, row, s.L == 0);
    InsertedRow(row, s.i, q, t'.lv[s.L]);
    InsertedNoDup(row, s.i, q);
    SplitNew(t, t', s, m, q);
    forall x | 0 <= x < |row'|
      ensures KidsOf(pg1, row'[x]) == KidsOf(t'.pg, row'[x]) && KeysOf(pg1, row'[x]) == KeysOf(t'.pg, row'[x])
      ensures EntsOf(pg1, row'[x]) == EntsOf(t'.pg, row'[x])
    {
      if x != s.i && x != s.i + 1 {
        var y := if x < s.i then x else x - 1;
        OtherLevel(t, s.U, s.a, s.L, y);
        IndexUnique(row', x, if row'[x] == p then s.i else x);
        SplitAt(t, t', s, m, q, row[y]);
      }
    }
  }

  lemma HalvesKids(n: Node, m: nat, p: int, q: int)
    requires Cut(n, m) && n.Inner?
    ensures LeftHalf(n, m, q).kids + RightHalf(n, m, p).kids == n.kids
    ensures |LeftHalf(n, m, q).kids| == |LeftHalf(n, m, q).keys| + 1
            && |RightHalf(n, m, p).kids| == |RightHalf(n, m, p).keys| + 1
    ensures LeftHalf(n, m, q).keys + [UpKey(n, m)] + RightHalf(n, m, p).keys == n.keys
  {
  }

  /** The halves of a page are again pages with one child more than keys. */
  lemma PairInner(pg: Pages, row: seq<int>, i: nat, q: int, np: Node, nq: Node, row': seq<int>)
    requires InnerRow(pg, row) && i < |row| && row' == InsertAt(row, i + 1, q)
    requires np.Inner? && nq.Inner? && |np.kids| == |np.keys| + 1 && |nq.kids| == |nq.keys| + 1
    ensures InnerRow(SetPair(pg, row[i], np, q, nq), row')
  {
    var pg1 := SetPair(pg, row[i], np, q, nq);
    InsertedRow(row, i, q, row');
    forall x | 0 <= x < |row'|
      ensures |KidsOf(pg1, row'[x])| == |KeysOf(pg1, row'[x])| + 1
    {
      if x != i && x != i + 1 {
        assert row'[x] == row[if x < i then x else x - 1];
      }
    }
  }

  lemma SplitOwnKids(t: Tree, t': Tree, s: Site, m: nat, q: int)
    requires Splits(t, t', s, m, q) && s.L > 0
    ensures InnerRow(t'.pg, t'.lv[s.L]) && Kids(t'.pg, t'.lv[s.L]) == t.lv[s.L - 1]
  {
    hide Seps, Ents, Kids, LevelsOK, ParentsOK, InsertAt, SplitTree, InnerRow, SetPair;
    SplitLv(t, t', s, m, q);
    var row, row', p := t.lv[s.L], t'.lv[s.L], s.p;
    assert RowOK(t.pg, row, false) && StackedAt(t.pg, t.lv, s.L);
    assert t.pg[p].Inner?;
    hide RowOK;
    var np, nq := LeftHalf(t.pg[p], m, q), RightHalf(t.pg[p], m, p);
    var pg1 := SetPair(t.pg, p, np, q, nq);
    HalvesKids(t.pg[p], m, p, q);
    SplitOwn(t, t', s, m, q);
    InsertedRow(row, s.i, q, row');
    RowData(pg1, t'.pg, row', []);
    KidsSetPair(t.pg, row', s.i, np, nq);
    KidsAround(t.pg, row, s.i);
    PairInner(t.pg, row, s.i, q, np, nq, row');
  }

  lemma SplitElseKids(t: Tree, t': Tree, s: Site, m: nat, q: int, M: nat)
    requires Splits(t, t', s, m, q) && M < |t.lv| && M != s.L && M != s.U
    ensures InnerRow(t'.pg, t.lv[M]) == InnerRow(t.pg, t.lv[M])
    ensures Kids(t'.pg, t.lv[M]) == Kids(t.pg, t.lv[M])
  {
    SplitElse(t, t', s, m, q, M);
    RowData(t.pg, t'.pg, t.lv[M], []);
  }

  lemma SplitStacked(t: Tree, t': Tree, s: Site, m: nat, q: int, M: nat)
    requires Splits(t, t', s, m, q) && 0 < M < |t.lv|
    ensures |t'.lv| == |t.lv|
    ensures StackedAt(t'.pg, t'.lv, M)
  {
    hide Kids, Seps, Ents, LevelsOK, ParentsOK, InsertAt, SplitTree, InnerRow;
    SplitLv(t, t', s, m, q);
    if M == s.L {
      SplitOwnKids(t, t', s, m, q);
    } else if M == s.U {
      SplitUpperKids(t, t', s, m, q);
    } else {
      assert StackedAt(t.pg, t.lv, M);
      SplitElseKids(t, t', s, m, q, M);
    }
  }

  lemma SplitTall(t: Tree, t': Tree, s: Site, m: nat, q: int)
    requires Splits(t, t', s, m, q)
    ensures Tall(t')
  {
    forall M | 0 < M < |t'.lv|
      ensures StackedAt(t'.pg, t'.lv, M)
    {
      SplitStacked(t, t', s, m, q, M);
    }
  }

  lemma RowInserted(pg: Pages, pg': Pages, row: seq<int>, i: nat, q: int, leaf: bool)
    requires RowOK(pg, row, leaf) && i < |row| && q !in row
    requires q in pg' && pg'[q].Leaf? == leaf && pg'[q].prev == row[i] && pg'[q].next == NextIn(row, i)
    requires forall x :: 0 <= x < |row| ==> row[x] in pg' && pg'[row[x]].Leaf? == leaf
    requires forall x :: 0 <= x < |row| ==> pg'[row[x]].prev == (if x == i + 1 then q else pg[row[x]].prev)
    requires forall x :: 0 <= x < |row| ==> pg'[row[x]].next == (if x == i then q else pg[row[x]].next)
    ensures RowOK(pg', InsertAt(row, i + 1, q), leaf)
  {
    var row' := InsertAt(row, i + 1, q);
    InsertedRow(row, i, q, row');
    InsertedNoDup(row, i, q);
    forall x | 0 <= x < |row'|
      ensures LinkedAt(pg', row', x)
    {
      if x != i + 1 {
        assert LinkedAt(pg, row, if x <= i then x else x - 1);
      }
    }
  }

  lemma SplitRow(t: Tree, t': Tree, s: Site, m: nat, q: int)
    requires Splits(t, t', s, m, q)
    ensures RowOK(t'.pg, t'.lv[s.L], s.L == 0)
  {
    hide Kids, Seps, Stacked, InsertAt;
    var row, p := t.lv[s.L], s.p;
    assert RowOK(t.pg, row, s.L == 0);
    NextLevel(t, s.L, s.i);
    SplitNew(t, t', s, m, q);
    forall x | 0 <= x < |row|
      ensures row[x] in t'.pg && t'.pg[row[x]].Leaf? == (s.L == 0)
      ensures t'.pg[row[x]].prev == (if x == s.i + 1 then q else t.pg[row[x]].prev)
      ensures t'.pg[row[x]].next == (if x == s.i then q else t.pg[row[x]].next)
    {
      SplitAt(t, t', s, m, q, row[x]);
      if row[x] == t.pg[p].next {
        IndexUnique(row, x, s.i + 1);
      }
      if row[x] == p {
        IndexUnique(row, x, s.i);
      }
    }
    RowInserted(t.pg, t'.pg, row, s.i, q, s.L == 0);
  }

  lemma SplitOtherRow(t: Tree, t': Tree, s: Site, m: nat, q: int, M: nat)
    requires Splits(t, t', s, m, q) && M < |t.lv| && M != s.L
    ensures RowOK(t'.pg, t.lv[M], M == 0)
  {
    var p := s.p;
    assert RowOK(t.pg, t.lv[M], M == 0);
    NextLevel(t, s.L, s.i);
    forall x | 0 <= x < |t.lv[M]|
      ensures var y := t.lv[M][x];
              y in t'.pg && t.pg[y].Leaf? == t'.pg[y].Leaf? && t.pg[y].prev == t'.pg[y].prev
                && t.pg[y].next == t'.pg[y].next
    {
      OtherLevel(t, s.L, s.i, M, x);
      assert t.lvl[t.lv[M][x]] == M;
      SplitAt(t, t', s, m, q, t.lv[M][x]);
    }
    RowFrame(t.pg, t'.pg, t.lv[M], M == 0);
  }

  lemma SplitOldKid(t: Tree, t': Tree, s: Site, m: nat, q: int, M: nat, x: nat, y: nat)
    requires Splits(t, t', s, m, q) && 0 < M < |t.lv| && x < |t.lv[M]| && y < |KidsOf(t.pg, t.lv[M][x])|
    ensures KidsOf(t.pg, t.lv[M][x])[y] in t.pg && KidsOf(t.pg, t.lv[M][x])[y] in t'.pg
    ensures t'.pg[KidsOf(t.pg, t.lv[M][x])[y]].parent
         == if KidsOf(t.pg, t.lv[M][x])[y] in RightHalf(t.pg[s.p], m, s.p).KidList() then q else t.lv[M][x]
    ensures KidsOf(t.pg, t.lv[M][x])[y] in RightHalf(t.pg[s.p], m, s.p).KidList() ==> M == s.L && x == s.i
  {
    var c := KidsOf(t.pg, t.lv[M][x])[y];
    var p := s.p;
    KidLevel(t, M, x, y);
    assert ParentsOK(t.pg, t.lv[M]);
    assert At(t.pg, c).parent == t.lv[M][x];
    SplitAt(t, t', s, m, q, c);
    if c in RightHalf(t.pg[p], m, p).KidList() {
      RightKids(t, s.L, s.i, m, c);
      assert RowOK(t.pg, t.lv[M], M == 0);
      IndexUnique(t.lv[M], x, s.i);
    }
  }

  lemma SplitParentsElse(t: Tree, t': Tree, s: Site, m: nat, q: int, M: nat)
    requires Splits(t, t', s, m, q) && 0 < M < |t.lv| && M != s.L && M != s.U
    ensures ParentsOK(t'.pg, t.lv[M])
  {
    SplitElse(t, t', s, m, q, M);
    forall x, y | 0 <= x < |t.lv[M]| && 0 <= y < |KidsOf(t'.pg, t.lv[M][x])|
      ensures At(t'.pg, KidsOf(t'.pg, t.lv[M][x])[y]).parent == t.lv[M][x]
    {
      SplitOldKid(t, t', s, m, q, M, x, y);
    }
  }

  lemma SplitParentsUpper(t: Tree, t': Tree, s: Site, m: nat, q: int)
    requires Splits(t, t', s, m, q)
    ensures ParentsOK(t'.pg, t.lv[s.U])
  {
    var row, u := t.lv[s.U], s.u;
    SiteFacts(t, s);
    SplitNew(t, t', s, m, q);
    SplitParentRow(t, t', s, m, q);
    assert RowOK(t.pg, row, false);
    forall x, y | 0 <= x < |row| && 0 <= y < |KidsOf(t'.pg, row[x])|
      ensures At(t'.pg, KidsOf(t'.pg, row[x])[y]).parent == row[x]
    {
      if row[x] == u {
        IndexUnique(row, x, s.a);
        SplitUpperKid(t, t', s, m, q, y);
      } else {
        SplitOldKid(t, t', s, m, q, s.U, x, y);
      }
    }
  }

  lemma SplitUpperKid(t: Tree, t': Tree, s: Site, m: nat, q: int, y: nat)
    requires Splits(t, t', s, m, q)
    requires y < |KidsOf(t.pg, s.u)| + 1
    ensures y < |KidsOf(t'.pg, s.u)|
    ensures At(t'.pg, KidsOf(t'.pg, s.u)[y]).parent == s.u
  {
    SiteFacts(t, s);
    SplitNew(t, t', s, m, q);
    InsertAtIndex(KidsOf(t.pg, s.u), s.j + 1, q, y);
    if y != s.j + 1 {
      var y' := if y <= s.j then y else y - 1;
      SplitOldKid(t, t', s, m, q, s.U, s.a, y');
    }
  }

  lemma SplitParentsOwn(t: Tree, t': Tree, s: Site, m: nat, q: int)
    requires Splits(t, t', s, m, q) && s.L > 0
    ensures ParentsOK(t'.pg, t'.lv[s.L])
  {
    hide Kids, Seps, Ents, LevelsOK, Stacked, InsertAt, SplitTree;
    SplitLv(t, t', s, m, q);
    var row, row', p := t.lv[s.L], t'.lv[s.L], s.p;
    SplitNew(t, t', s, m, q);
    SplitOwn(t, t', s, m, q);
    InsertedRow(row, s.i, q, t'.lv[s.L]);
    assert RowOK(t.pg, row, false);
    forall x, y | 0 <= x < |row'| && 0 <= y < |KidsOf(t'.pg, row'[x])|
      ensures At(t'.pg, KidsOf(t'.pg, row'[x])[y]).parent == row'[x]
    {
      if x == s.i {
        SplitOldKid(t, t', s, m, q, s.L, s.i, y);
        LeftNotRight(t, s.L, s.i, m, y);
      } else if x == s.i + 1 {
        SplitOldKid(t, t', s, m, q, s.L, s.i, m + 1 + y);
      } else {
        var z := if x < s.i then x else x - 1;
        assert row'[x] == row[z];
        IndexUnique(row', x, if row'[x] == p then s.i else x);
        SplitOldKid(t, t', s, m, q, s.L, z, y);
      }
    }
  }

  lemma LeftNotRight(t: Tree, L: nat, i: nat, m: nat, y: nat)
    requires Shape(t) && 0 < L < |t.lv| && i < |t.lv[L]| && t.lv[L][i] in t.pg && t.pg[t.lv[L][i]].Inner?
    requires Cut(t.pg[t.lv[L][i]], m) && y <= m
    ensures t.pg[t.lv[L][i]].kids[y] !in RightHalf(t.pg[t.lv[L][i]], m, t.lv[L][i]).kids
  {
    var n := t.pg[t.lv[L][i]];
    if n.kids[y] in n.kids[m + 1..] {
      var z :| 0 <= z < |n.kids[m + 1..]| && n.kids[m + 1..][z] == n.kids[y];
      KidsDistinct(t, L - 1, i, y, m + 1 + z);
      assert false;
    }
  }

  lemma SplitLevels(t: Tree, t': Tree, s: Site, m: nat, q: int)
    requires Splits(t, t', s, m, q)
    ensures LevelsOK(t')
  {
    hide Kids, Seps, Stacked, RowOK, ParentsOK;
    SplitNew(t, t', s, m, q);
    InsertedRow(t.lv[s.L], s.i, q, t'.lv[s.L]);
    forall M, x | 0 <= M < |t'.lv| && 0 <= x < |t'.lv[M]|
      ensures t'.lv[M][x] in t'.lvl && t'.lvl[t'.lv[M][x]] == M
    {
      if M == s.L && x != s.i + 1 {
        assert t'.lv[M][x] == t.lv[M][if x <= s.i then x else x - 1];
      }
    }
    forall p | p in t'.pg
      ensures Placed(t'.lv, t'.lvl, p)
    {
      assert p != q ==> Placed(t.lv, t.lvl, p);
      if p == q {
        assert t'.lv[s.L][s.i + 1] == q;
      } else if t.lvl[p] == s.L {
        var x :| 0 <= x < |t.lv[s.L]| && t.lv[s.L][x] == p;
        assert t'.lv[s.L][if x <= s.i then x else x + 1] == p;
      }
    }
  }

  /** Splitting a page and adding the new page to its parent keeps the shape. */
  lemma SplitShape(t: Tree, t': Tree, s: Site, m: nat, q: int)
    requires Splits(t, t', s, m, q)
    ensures Shape(t')
  {
    hide Kids, Seps, Stacked, RowOK, ParentsOK, LevelsOK, LeftHalf, RightHalf, SplitPages;
    SplitTall(t, t', s, m, q);
    SplitLevels(t, t', s, m, q);
    forall M | 0 <= M < |t'.lv|
      ensures RowOK(t'.pg, t'.lv[M], M == 0)
    {
      if M == s.L {
        SplitRow(t, t', s, m, q);
      } else {
        SplitOtherRow(t, t', s, m, q, M);
      }
    }
    forall M | 0 < M < |t'.lv|
      ensures ParentsOK(t'.pg, t'.lv[M])
    {
      if M == s.L {
        SplitParentsOwn(t, t', s, m, q);
      } else if M == s.U {
        SplitParentsUpper(t, t', s, m, q);
      } else {
        SplitParentsElse(t, t', s, m, q, M);
      }
    }
    SplitRoot(t, t', s, m, q);
  }

  lemma SplitRoot(t: Tree, t': Tree, s: Site, m: nat, q: int)
    requires Splits(t, t', s, m, q)
    ensures t'.lv[|t.lv| - 1] == t.lv[|t.lv| - 1]
    ensures At(t'.pg, Root(t)).parent == NO_PAGE
  {
    assert t.lvl[Root(t)] == |t.lv| - 1;
    SplitAt(t, t', s, m, q, Root(t));
    var p := s.p;
    if Root(t) in RightHalf(t.pg[p], m, p).KidList() {
      RightKids(t, s.L, s.i, m, Root(t));
    }
  }

  // ---- the order

  /** The separators of the split level and of its parent level. */
  lemma SplitSepRow(t: Tree, t': Tree, s: Site, m: nat, q: int)
    requires Splits(t, t', s, m, q)
    ensures |SepRow(t, s.L)| == |t.lv[s.L]| && |t'.lv| == |t.lv|
    ensures SepRow(t', s.L) == InsertAt(SepRow(t, s.L), s.i + 1, UpKey(t.pg[s.p], m))
  {
    hide Kids, Ents, InsertAt, SplitTree, RowOK, ParentsOK, LevelsOK;
    SplitLv(t, t', s, m, q);
    forall M, k | s.U < M < |t.lv| && 0 <= k < |t.lv[M]|
      ensures KeysOf(t.pg, t.lv[M][k]) == KeysOf(t'.pg, t.lv[M][k])
    {
      SplitElse(t, t', s, m, q, M);
    }
    SepRowFrame(t, t', s.U);
    SepRowDown(t, s.U);
    SepRowDown(t, s.L);
    SplitUpperSeps(t, t', s, m, q, SepRow(t, s.U));
  }

  /** Splitting an inner page keeps the separators of its children. */
  lemma SplitSepsRow(pg: Pages, row: seq<int>, ss: seq<nat>, i: nat, m: nat, q: int)
    requires NoDup(row) && i < |row| == |ss| && q !in row
    requires row[i] in pg && pg[row[i]].Inner? && Cut(pg[row[i]], m)
    ensures Seps(SetPair(pg, row[i], LeftHalf(pg[row[i]], m, q), q, RightHalf(pg[row[i]], m, row[i])),
                 InsertAt(row, i + 1, q), InsertAt(ss, i + 1, UpKey(pg[row[i]], m)))
         == Seps(pg, row, ss)
  {
    var n, row', ss' := pg[row[i]], InsertAt(row, i + 1, q), InsertAt(ss, i + 1, UpKey(pg[row[i]], m));
    var np, nq := LeftHalf(n, m, q), RightHalf(n, m, row[i]);
    InsertedRow(row, i, q, row');
    InsertedNoDup(row, i, q);
    SepsSetPair(pg, row', ss', i, np, nq);
    assert ss'[..i] == ss[..i] && ss'[i] == ss[i] && ss'[i + 1] == UpKey(n, m) && ss'[i + 2..] == ss[i + 1..];
    SepsAround(pg, row, ss, i);
    HalvesKeys(ss[i], n, m, row[i], q);
  }

  lemma HalvesKeys(s: nat, n: Node, m: nat, p: int, q: int)
    requires Cut(n, m) && n.Inner?
    ensures ([s] + LeftHalf(n, m, q).keys) + ([UpKey(n, m)] + RightHalf(n, m, p).keys) == [s] + n.keys
  {
  }

  lemma SplitSepRowBelow(t: Tree, t': Tree, s: Site, m: nat, q: int)
    requires Splits(t, t', s, m, q) && s.L > 0
    ensures |t'.lv| == |t.lv|
    ensures SepRow(t', s.L - 1) == SepRow(t, s.L - 1)
  {
    hide Kids, LevelsOK, ParentsOK, Stacked, LeftHalf, RightHalf, Seps;
    var row, p := t.lv[s.L], s.p;
    SplitLv(t, t', s, m, q);
    SplitSepRow(t, t', s, m, q);
    assert RowOK(t.pg, row, false);
    SplitOwn(t, t', s, m, q);
    SplitSepsRow(t.pg, row, SepRow(t, s.L), s.i, m, q);
    RowData(SetPair(t.pg, p, LeftHalf(t.pg[p], m, q), q, RightHalf(t.pg[p], m, p)), t'.pg, t'.lv[s.L], SepRow(t', s.L));
  }

  lemma SplitDown(t: Tree, t': Tree, s: Site, m: nat, q: int, ss: seq<nat>)
    requires Splits(t, t', s, m, q) && s.L > 0
    ensures |t'.lv| == |t.lv|
    ensures Down(t'.pg, t'.lv, s.L - 1, ss) == Down(t.pg, t.lv, s.L - 1, ss)
  {
    forall M, k | 0 < M <= s.L - 1 && 0 <= k < |t.lv[M]|
      ensures KeysOf(t.pg, t.lv[M][k]) == KeysOf(t'.pg, t.lv[M][k])
    {
      SplitElse(t, t', s, m, q, M);
    }
    DownFrame(t.pg, t'.pg, t.lv, t'.lv, s.L - 1, ss);
  }

  lemma SplitInnerSeps(t: Tree, t': Tree, s: Site, m: nat, q: int)
    requires Splits(t, t', s, m, q) && s.L > 0
    ensures LeafSeps(t') == LeafSeps(t)
  {
    hide Kids, Seps, RowOK, LevelsOK, ParentsOK, Stacked, SplitTree, Down, SepRow;
    SplitSepRowBelow(t, t', s, m, q);
    SplitDown(t, t', s, m, q, SepRow(t, s.L - 1));
    SplitTall(t, t', s, m, q);
    SameLeafSeps(t, t', s.L - 1);
  }

  lemma SameLeafSeps(t: Tree, t': Tree, L: nat)
    requires Tall(t) && Tall(t') && L < |t.lv| == |t'.lv|
    requires SepRow(t', L) == SepRow(t, L)
    requires Down(t'.pg, t'.lv, L, SepRow(t, L)) == Down(t.pg, t.lv, L, SepRow(t, L))
    ensures LeafSeps(t') == LeafSeps(t)
  {
    SepRowDown(t, L);
    SepRowDown(t', L);
  }

  lemma SplitInnerOrder(t: Tree, t': Tree, s: Site, m: nat, q: int)
    requires Splits(t, t', s, m, q) && Order(t, NO_PAGE) && s.L > 0
    ensures |t'.lv| > 0 && Order(t', NO_PAGE) && Ents(t'.pg, t'.lv[0]) == Ents(t.pg, t.lv[0])
  {
    SplitInnerSeps(t, t', s, m, q);
    SplitElse(t, t', s, m, q, 0);
    EntsFrame(t.pg, t'.pg, t.lv[0]);
    LeafOrderFrame(t.pg, t'.pg, t.lv[0], LeafSeps(t), NO_PAGE);
  }

  lemma AllFit(pg: Pages, row: seq<int>, ss: seq<nat>)
    requires |ss| == |row| && (ss != [] ==> ss[0] == 0)
    requires forall x :: 0 < x < |row| ==> SepFits(pg, row, x, ss[x])
    ensures LeafOrder(pg, row, ss, NO_PAGE)
  {
    if |row| > 1 {
      assert SepFits(pg, row, 1, ss[1]);
      forall x | 0 <= x < |row|
        ensures EntsOf(pg, row[x]) != []
      {
        if x > 0 {
          assert SepFits(pg, row, x, ss[x]);
        }
      }
    }
  }

  lemma SplitLeafFits(pg: Pages, pg': Pages, row: seq<int>, row': seq<int>, ss: seq<nat>, i: nat, m: nat, q: int,
                      x: nat)
    requires NoDup(row) && i < |row| == |ss| && q !in row && row[i] in pg && pg[row[i]].Leaf?
             && 0 < m < |pg[row[i]].ents|
    requires LeafOrder(pg, row, ss, NO_PAGE) && SortedEnts(pg[row[i]].ents) && 0 < x <= |row|
    requires pg' == SetPair(pg, row[i], LeftHalf(pg[row[i]], m, q), q, RightHalf(pg[row[i]], m, row[i]))
    requires row' == InsertAt(row, i + 1, q)
    ensures SepFits(pg', row', x, InsertAt(ss, i + 1, UpKey(pg[row[i]], m))[x])
  {
    hide InsertAt, LeafOrder, LeftHalf, RightHalf, NoDup, SetPair, SortedEnts, UpKey;
    InsertedRow(row, i, q, row');
    InsertAtIndex(ss, i + 1, UpKey(pg[row[i]], m), x);
    HalvesEnts(pg, row, i, m, q, pg');
    if x < i + 1 {
      OldFits(pg, row, ss, x);
      EntsElsewhere(pg, row, i, m, q, pg', x);
      EntsElsewhere(pg, row, i, m, q, pg', x - 1);
    } else if x > i + 1 {
      OldFits(pg, row, ss, x - 1);
      EntsElsewhere(pg, row, i, m, q, pg', x - 1);
      EntsElsewhere(pg, row, i, m, q, pg', x - 2);
    }
  }

  lemma OldFits(pg: Pages, row: seq<int>, ss: seq<nat>, x: nat)
    requires LeafOrder(pg, row, ss, NO_PAGE) && 0 < x < |row|
    ensures SepFits(pg, row, x, ss[x])
  {
  }

  lemma EntsElsewhere(pg: Pages, row: seq<int>, i: nat, m: nat, q: int, pg': Pages, x: nat)
    requires NoDup(row) && i < |row| && q !in row && row[i] in pg && pg[row[i]].Leaf? && m < |pg[row[i]].ents|
             && x < |row|
    requires pg' == SetPair(pg, row[i], LeftHalf(pg[row[i]], m, q), q, RightHalf(pg[row[i]], m, row[i]))
    ensures x != i ==> EntsOf(pg', row[x]) == EntsOf(pg, row[x])
  {
  }

  lemma HalvesEnts(pg: Pages, row: seq<int>, i: nat, m: nat, q: int, pg': Pages)
    requires i < |row| && q !in row && row[i] in pg && pg[row[i]].Leaf? && 0 < m < |pg[row[i]].ents|
             && SortedEnts(pg[row[i]].ents)
    requires pg' == SetPair(pg, row[i], LeftHalf(pg[row[i]], m, q), q, RightHalf(pg[row[i]], m, row[i]))
    ensures EntsOf(pg', row[i]) != [] && EntsOf(pg', q) != []
    ensures FirstKey(pg', row[i]) == FirstKey(pg, row[i]) && LastKey(pg', q) == LastKey(pg, row[i])
    ensures LastKey(pg', row[i]) < UpKey(pg[row[i]], m) == FirstKey(pg', q)
  {
    assert EntsOf(pg', row[i]) == pg[row[i]].ents[..m] && EntsOf(pg', q) == pg[row[i]].ents[m..];
  }

  lemma SplitLeafRow(pg: Pages, pg': Pages, row: seq<int>, ss: seq<nat>, i: nat, m: nat, q: int)
    requires NoDup(row) && i < |row| && q !in row && row[i] in pg && pg[row[i]].Leaf? && 0 < m < |pg[row[i]].ents|
    requires LeafOrder(pg, row, ss, NO_PAGE) && SortedEnts(Ents(pg, row))
    requires pg' == SetPair(pg, row[i], LeftHalf(pg[row[i]], m, q), q, RightHalf(pg[row[i]], m, row[i]))
    ensures LeafOrder(pg', InsertAt(row, i + 1, q), InsertAt(ss, i + 1, UpKey(pg[row[i]], m)), NO_PAGE)
  {
    var row', ss' := InsertAt(row, i + 1, q), InsertAt(ss, i + 1, UpKey(pg[row[i]], m));
    LeafEntsSorted(pg, row, i);
    InsertAtIndex(ss, i + 1, UpKey(pg[row[i]], m), 0);
    forall x | 0 < x < |row'|
      ensures SepFits(pg', row', x, ss'[x])
    {
      SplitLeafFits(pg, pg', row, row', ss, i, m, q, x);
    }
    AllFit(pg', row', ss');
  }

  lemma SplitLeafEnts(pg: Pages, row: seq<int>, i: nat, m: nat, q: int)
    requires NoDup(row) && i < |row| && q !in row && row[i] in pg && pg[row[i]].Leaf? && Cut(pg[row[i]], m)
    ensures var n := pg[row[i]];
            Ents(SetPair(pg, row[i], LeftHalf(n, m, q), q, RightHalf(n, m, row[i])), InsertAt(row, i + 1, q)) ==
              Ents(pg, row)
  {
    var n, row' := pg[row[i]], InsertAt(row, i + 1, q);
    InsertedRow(row, i, q, row');
    InsertedNoDup(row, i, q);
    EntsSetPair(pg, row', i, LeftHalf(n, m, q), RightHalf(n, m, row[i]));
    EntsAround(pg, row, i);
    assert n.ents[..m] + n.ents[m..] == n.ents;
  }

  lemma SplitLeafOrder(t: Tree, t': Tree, s: Site, m: nat, q: int)
    requires Splits(t, t', s, m, q) && Order(t, NO_PAGE) && s.L == 0 && m > 0
    ensures |t'.lv| > 0 && Order(t', NO_PAGE)
    ensures Ents(t'.pg, t'.lv[0]) == Ents(t.pg, t.lv[0])
  {
    hide Kids, Seps, LevelsOK, ParentsOK, Stacked, Ents, SplitTree, InsertAt, LeafOrder;
    SplitLv(t, t', s, m, q);
    var row, n := t.lv[0], t.pg[s.p];
    var pg1 := SetPair(t.pg, s.p, LeftHalf(n, m, q), q, RightHalf(n, m, s.p));
    assert RowOK(t.pg, row, true);
    SplitTall(t, t', s, m, q);
    SplitSepRow(t, t', s, m, q);
    SepRowDown(t, 0);
    SepRowDown(t', 0);
    SplitOwn(t, t', s, m, q);
    SplitLeafRow(t.pg, pg1, row, LeafSeps(t), s.i, m, q);
    SplitLeafEnts(t.pg, row, s.i, m, q);
    EntsFrame(pg1, t'.pg, t'.lv[0]);
    LeafOrderFrame(pg1, t'.pg, t'.lv[0], LeafSeps(t'), NO_PAGE);
  }

  /** The key going up belongs behind child `j` of the parent: the place `upper_bound` finds. */
  lemma UpKeyPlace(t: Tree, s: Site, m: nat)
    requires Shape(t) && Order(t, NO_PAGE) && IsSite(t, s) && Cut(t.pg[s.p], m) && m > 0
    ensures forall x :: 0 <= x < s.j ==> t.pg[s.u].keys[x] < UpKey(t.pg[s.p], m)
    ensures forall x :: s.j <= x < |t.pg[s.u].keys| ==> UpKey(t.pg[s.p], m) < t.pg[s.u].keys[x]
    ensures SortedKeys(t.pg[s.u].keys)
  {
    hide Kids, Seps, RowOK, LevelsOK, ParentsOK;
    PageKeysRise(t, s.L, s.a);
    UpKeyBetween(t, s.L, s.i, m);
    if s.j > 0 {
      KeysInSepRow(t, s.L, s.a, s.j);
    }
    if s.j < |t.pg[s.u].keys| {
      KeysInSepRow(t, s.L, s.a, s.j + 1);
    }
  }

  lemma UpKeyLeaf(pg: Pages, row: seq<int>, ss: seq<nat>, i: nat, m: nat)
    requires LeafOrder(pg, row, ss, NO_PAGE) && SortedEnts(Ents(pg, row)) && i < |row| && 0 < m < |EntsOf(pg, row[i])|
    ensures ss[i] < EntsOf(pg, row[i])[m].key
    ensures i + 1 < |row| ==> EntsOf(pg, row[i])[m].key < ss[i + 1]
  {
    LeafEntsSorted(pg, row, i);
    assert EntsOf(pg, row[i])[0].key < EntsOf(pg, row[i])[m].key;
    if i > 0 {
      assert SepFits(pg, row, i, ss[i]);
    }
    if i + 1 < |row| {
      assert SepFits(pg, row, i + 1, ss[i + 1]);
    }
  }

  lemma UpKeyInner(t: Tree, L: nat, i: nat, m: nat)
    requires Tall(t) && Order(t, NO_PAGE) && 0 < L < |t.lv| && i < |t.lv[L]| && m < |KeysOf(t.pg, t.lv[L][i])|
    ensures |SepRow(t, L)| == |t.lv[L]|
    ensures SepRow(t, L)[i] < KeysOf(t.pg, t.lv[L][i])[m]
    ensures i + 1 < |t.lv[L]| ==> KeysOf(t.pg, t.lv[L][i])[m] < SepRow(t, L)[i + 1]
  {
    hide Kids, Seps;
    var row := t.lv[L];
    assert StackedAt(t.pg, t.lv, L);
    var o := Off(t.pg, row, i);
    KeysInSepRow(t, L - 1, i, 0);
    KeysInSepRow(t, L - 1, i, m + 1);
    SepRowRises(t, L - 1, o, o + m + 1);
    if i + 1 < |row| {
      OffNext(t.pg, row, i);
      KeysInSepRow(t, L - 1, i + 1, 0);
      SepRowRises(t, L - 1, o + m + 1, Off(t.pg, row, i + 1));
    }
  }

  lemma UpKeyBetween(t: Tree, L: nat, i: nat, m: nat)
    requires Shape(t) && Order(t, NO_PAGE) && L < |t.lv| && i < |t.lv[L]| && t.lv[L][i] in t.pg
             && Cut(t.pg[t.lv[L][i]], m) && m > 0
    ensures |SepRow(t, L)| == |t.lv[L]|
    ensures SepRow(t, L)[i] < UpKey(t.pg[t.lv[L][i]], m)
    ensures i + 1 < |t.lv[L]| ==> UpKey(t.pg[t.lv[L][i]], m) < SepRow(t, L)[i + 1]
  {
    assert RowOK(t.pg, t.lv[L], L == 0);
    if L == 0 {
      SepRowDown(t, L);
      UpKeyLeaf(t.pg, t.lv[0], LeafSeps(t), i, m);
    } else {
      UpKeyInner(t, L, i, m);
    }
  }
}
