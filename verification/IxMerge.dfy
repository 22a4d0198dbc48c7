/** Merging a page into its left neighbour and removing it from its parent
    (`coalesce`, first half of `update_right_parent`). The two pages may be cousins. */
module IxMerge {
  import opened Common
  import opened IxLevels
  import opened IxShape
  import opened IxEdit
  import opened IxShift
  import opened IxSplit

  function RemoveAt<T>(s: seq<T>, i: nat): seq<T>
    requires i < |s|
  {
    s[..i] + s[i + 1..]
  }

  /** The left page after it takes over everything from the right one; `k` separates the two. */
  function Joined(nl: Node, nr: Node, k: nat): Node
    requires nl.Leaf? == nr.Leaf?
  {
    if nl.Leaf? then nl.(ents := nl.ents + nr.ents, next := nr.next)
    else nl.(keys := nl.keys + [k] + nr.keys, kids := nl.kids + nr.kids, next := nr.next)
  }

  /** A page without its child `j`: the key to the left of the child goes, or the first key. */
  function WithoutKid(n: Node, j: nat): Node
    requires n.Inner? && 0 < |n.keys| && |n.kids| == |n.keys| + 1 && j < |n.kids|
  {
    n.(keys := RemoveAt(n.keys, if j == 0 then 0 else j - 1), kids := RemoveAt(n.kids, j))
  }

  /** The pages after `r` is joined into `l`, before its parent learns of it. */
  function JoinPages(pg: Pages, l: int, r: int, k: nat): Pages
    requires l in pg && r in pg && pg[l].Leaf? == pg[r].Leaf?
  {
    SetParents(SetPrev(pg[l := Joined(pg[l], pg[r], k)], pg[r].next, l), pg[r].KidList(), l)
  }

  function MergePages(pg: Pages, l: int, r: int, k: nat, u: int, j: nat): Pages
    requires l in pg && r in pg && u in pg && pg[l].Leaf? == pg[r].Leaf? && u != l && u != r
    requires pg[u].Inner? && 0 < |pg[u].keys| && |pg[u].kids| == |pg[u].keys| + 1 && j < |pg[u].kids|
  {
    var pg1 := JoinPages(pg, l, r, k) - {r};
    pg1[u := WithoutKid(pg1[u], j)]
  }

  /** The page at site `s` can be merged into its left neighbour `l`. */
  ghost predicate CanMerge(t: Tree, s: Site, l: int) {
    && IsSite(t, s)
    && 0 < s.i && t.lv[s.L][s.i - 1] == l
    && l in t.pg && t.pg[l].Leaf? == t.pg[s.p].Leaf? && l != s.u
    && 0 < |t.pg[s.u].keys|
  }

  ghost function MergeTree(t: Tree, s: Site, l: int, k: nat): Tree
    requires CanMerge(t, s, l)
  {
    Tree(MergePages(t.pg, l, s.p, k, s.u, s.j), t.lv[s.L := RemoveAt(t.lv[s.L], s.i)], t.lvl - {s.p})
  }

  ghost predicate Merges(t: Tree, t': Tree, s: Site, l: int, k: nat) {
    && Shape(t)
    && CanMerge(t, s, l)
    && t' == MergeTree(t, s, l, k)
  }

  lemma MergeLv(t: Tree, t': Tree, s: Site, l: int, k: nat)
    requires Merges(t, t', s, l, k)
    ensures |t'.lv| == |t.lv| && t'.lv[s.L] == RemoveAt(t.lv[s.L], s.i)
    ensures forall M :: 0 <= M < |t.lv| && M != s.L ==> t'.lv[M] == t.lv[M]
    ensures t'.lvl == t.lvl - {s.p}
  {
  }

  // ---- what each page looks like afterwards

  lemma KidFacts(t: Tree, L: nat, x: nat, c: int)
    requires Shape(t) && L < |t.lv| && x < |t.lv[L]| && c in KidsOf(t.pg, t.lv[L][x])
    ensures L > 0 && c in t.pg && t.lvl[c] == L - 1 && t.pg[c].parent == t.lv[L][x]
  {
    assert RowOK(t.pg, t.lv[L], L == 0);
    var y :| 0 <= y < |KidsOf(t.pg, t.lv[L][x])| && KidsOf(t.pg, t.lv[L][x])[y] == c;
    KidLevel(t, L, x, y);
    assert ParentsOK(t.pg, t.lv[L]);
  }

  lemma LeftFacts(t: Tree, s: Site, l: int)
    requires Shape(t) && CanMerge(t, s, l)
    ensures l in t.lvl && t.lvl[l] == s.L && l != s.p && t.pg[l].next == s.p && t.pg[s.p].prev == l
    ensures t.pg[l].Leaf? == (s.L == 0)
  {
    var i := s.i - 1;
    assert RowOK(t.pg, t.lv[s.L], s.L == 0) && LinkedAt(t.pg, t.lv[s.L], i) && LinkedAt(t.pg, t.lv[s.L], s.i);
    assert t.lv[s.L][i] == l;
  }

  lemma MergeAt(t: Tree, t': Tree, s: Site, l: int, k: nat, x: int)
    requires Merges(t, t', s, l, k) && x in t.pg && x != s.p
    ensures x in t'.pg
    ensures t'.pg[x].Leaf? == t.pg[x].Leaf?
    ensures t'.pg[x].prev == (if x == t.pg[s.p].next then l else t.pg[x].prev)
    ensures t'.pg[x].next == (if x == l then t.pg[s.p].next else t.pg[x].next)
    ensures t'.pg[x].parent == (if x in KidsOf(t.pg, s.p) then l else t.pg[x].parent)
    ensures x != l && x != s.u ==>
              t'.pg[x].KidList() == t.pg[x].KidList() && t'.pg[x].KeyList() == t.pg[x].KeyList()
                && t'.pg[x].EntList() == t.pg[x].EntList()
  {
    SiteFacts(t, s);
    LeftFacts(t, s, l);
    NextLevel(t, s.L, s.i);
    if x in KidsOf(t.pg, s.p) {
      KidFacts(t, s.L, s.i, x);
    }
  }

  lemma MergeNew(t: Tree, t': Tree, s: Site, l: int, k: nat)
    requires Merges(t, t', s, l, k)
    ensures t'.pg.Keys == t.pg.Keys - {s.p}
    ensures t'.pg[l] == Joined(t.pg[l], t.pg[s.p], k)
    ensures t'.pg[s.u].Inner?
    ensures t'.pg[s.u].keys == WithoutKid(t.pg[s.u], s.j).keys
    ensures t'.pg[s.u].kids == WithoutKid(t.pg[s.u], s.j).kids
  {
    SiteFacts(t, s);
    LeftFacts(t, s, l);
    NextLevel(t, s.L, s.i);
    forall c | c in KidsOf(t.pg, s.p)
      ensures c != l && c != s.u
    {
      KidFacts(t, s.L, s.i, c);
    }
    NextIsNotPrev(t, s, l);
    assert l !in t.pg[s.p].KidList() && s.u !in t.pg[s.p].KidList() by {
      assert t.pg[s.p].KidList() == KidsOf(t.pg, s.p);
    }
  }

  lemma NextIsNotPrev(t: Tree, s: Site, l: int)
    requires Shape(t) && CanMerge(t, s, l)
    ensures t.pg[s.p].next != l
  {
    var row := t.lv[s.L];
    NextLevel(t, s.L, s.i);
    assert RowOK(t.pg, row, s.L == 0);
    if s.i + 1 < |row| {
      assert row[s.i - 1] != row[s.i + 1];
    } else {
      assert Placed(t.lv, t.lvl, l);
    }
  }

  // ---- the shape

  lemma MergeElse(t: Tree, t': Tree, s: Site, l: int, k: nat, M: nat)
    requires Merges(t, t', s, l, k) && M < |t.lv| && M != s.L && M != s.U
    ensures forall x :: 0 <= x < |t.lv[M]| ==>
            KidsOf(t.pg, t.lv[M][x]) == KidsOf(t'.pg, t.lv[M][x])
            && KeysOf(t.pg, t.lv[M][x]) == KeysOf(t'.pg, t.lv[M][x])
    ensures forall x :: 0 <= x < |t.lv[M]| ==> EntsOf(t.pg, t.lv[M][x]) == EntsOf(t'.pg, t.lv[M][x])
  {
    forall x | 0 <= x < |t.lv[M]|
      ensures KidsOf(t.pg, t.lv[M][x]) == KidsOf(t'.pg, t.lv[M][x])
              && KeysOf(t.pg, t.lv[M][x]) == KeysOf(t'.pg, t.lv[M][x])
      ensures EntsOf(t.pg, t.lv[M][x]) == EntsOf(t'.pg, t.lv[M][x])
    {
      OtherLevel(t, s.L, s.i - 1, M, x);
      OtherLevel(t, s.L, s.i, M, x);
      OtherLevel(t, s.U, s.a, M, x);
      assert RowOK(t.pg, t.lv[M], M == 0);
      MergeAt(t, t', s, l, k, t.lv[M][x]);
    }
  }

  lemma RemoveInMiddle<T>(a: seq<T>, b: seq<T>, c: seq<T>, j: nat)
    requires j < |b|
    ensures RemoveAt(a + b + c, |a| + j) == a + RemoveAt(b, j) + c
  {
  }

  lemma RemoveBehind<T>(h: T, s: seq<T>, j: nat)
    requires j < |s|
    ensures RemoveAt([h] + s, j + 1) == [h] + RemoveAt(s, j)
  {
  }

  /** The position, among the separators of a page's children, of the one that goes with child `j`. */
  function GoneSep(j: nat): nat {
    if j == 0 then 1 else j
  }

  lemma LosesKids(pg: Pages, row: seq<int>, a: nat, j: nat)
    requires a < |row| && NoDup(row) && InnerRow(pg, row) && row[a] in pg && pg[row[a]].Inner?
    requires 0 < |pg[row[a]].keys| && j < |pg[row[a]].kids| == |pg[row[a]].keys| + 1
    ensures InnerRow(pg[row[a] := WithoutKid(pg[row[a]], j)], row)
    ensures Off(pg, row, a) + j < |Kids(pg, row)|
    ensures Kids(pg[row[a] := WithoutKid(pg[row[a]], j)], row) == RemoveAt(Kids(pg, row), Off(pg, row, a) + j)
  {
    KidsSetOne(pg, row, a, WithoutKid(pg[row[a]], j));
    KidsAround(pg, row, a);
    RemoveInMiddle(Kids(pg, row[..a]), KidsOf(pg, row[a]), Kids(pg, row[a + 1..]), j);
  }

  lemma LosesSeps(pg: Pages, row: seq<int>, a: nat, j: nat, ss: seq<nat>)
    requires a < |row| == |ss| && NoDup(row) && InnerRow(pg, row) && row[a] in pg && pg[row[a]].Inner?
    requires 0 < |pg[row[a]].keys| && j < |pg[row[a]].kids| == |pg[row[a]].keys| + 1
    ensures Off(pg, row, a) + GoneSep(j) < |Seps(pg, row, ss)|
    ensures Seps(pg[row[a] := WithoutKid(pg[row[a]], j)], row, ss) ==
            RemoveAt(Seps(pg, row, ss), Off(pg, row, a) + GoneSep(j))
  {
    hide Kids, Seps, RemoveAt;
    var ks, n := pg[row[a]].keys, WithoutKid(pg[row[a]], j);
    assert n.KeyList() == RemoveAt(ks, GoneSep(j) - 1);
    SepsSetOne(pg, row, ss, a, n);
    SepsAround(pg, row, ss, a);
    var x, seg, z := Seps(pg, row[..a], ss[..a]), [ss[a]] + ks, Seps(pg, row[a + 1..], ss[a + 1..]);
    assert |x| == Off(pg, row, a) by {
      assert InnerRow(pg, row[..a]);
      SepsLen(pg, row[..a], ss[..a]);
    }
    RemoveInMiddle(x, seg, z, GoneSep(j));
    RemoveBehind(ss[a], ks, GoneSep(j) - 1);
  }

  lemma MergeParentRow(t: Tree, t': Tree, s: Site, l: int, k: nat, pg1: Pages)
    requires Merges(t, t', s, l, k) && pg1 == t.pg[s.u := WithoutKid(t.pg[s.u], s.j)]
    ensures forall x :: 0 <= x < |t.lv[s.U]| ==>
            KidsOf(pg1, t.lv[s.U][x]) == KidsOf(t'.pg, t.lv[s.U][x])
            && KeysOf(pg1, t.lv[s.U][x]) == KeysOf(t'.pg, t.lv[s.U][x])
  {
    var row := t.lv[s.U];
    MergeNew(t, t', s, l, k);
    assert RowOK(t.pg, row, false);
    forall x | 0 <= x < |row|
      ensures KidsOf(pg1, row[x]) == KidsOf(t'.pg, row[x]) && KeysOf(pg1, row[x]) == KeysOf(t'.pg, row[x])
    {
      OtherLevel(t, s.L, s.i - 1, s.U, x);
      OtherLevel(t, s.L, s.i, s.U, x);
      MergeAt(t, t', s, l, k, row[x]);
    }
  }

  /** The children of the parent's level. */
  lemma MergeUpperKids(t: Tree, t': Tree, s: Site, l: int, k: nat)
    requires Merges(t, t', s, l, k)
    ensures InnerRow(t'.pg, t.lv[s.U])
    ensures Kids(t'.pg, t.lv[s.U]) == RemoveAt(t.lv[s.L], s.i)
  {
    hide Seps, Ents, RemoveAt, MergeTree, LevelsOK, ParentsOK;
    var row := t.lv[s.U];
    var pg1 := t.pg[s.u := WithoutKid(t.pg[s.u], s.j)];
    MergeParentRow(t, t', s, l, k, pg1);
    RowData(pg1, t'.pg, row, []);
    assert RowOK(t.pg, row, false) && StackedAt(t.pg, t.lv, s.U);
    LosesKids(t.pg, row, s.a, s.j);
  }

  /** The separators the parent's level hands down. */
  lemma MergeUpperSeps(t: Tree, t': Tree, s: Site, l: int, k: nat, ss: seq<nat>)
    requires Merges(t, t', s, l, k) && |ss| == |t.lv[s.U]|
    ensures Off(t.pg, t.lv[s.U], s.a) + GoneSep(s.j) < |Seps(t.pg, t.lv[s.U], ss)|
    ensures Seps(t'.pg, t.lv[s.U], ss) == RemoveAt(Seps(t.pg, t.lv[s.U], ss), Off(t.pg, t.lv[s.U], s.a) + GoneSep(s.j))
  {
    hide Kids, Ents, RemoveAt, MergeTree, LevelsOK, ParentsOK;
    var row := t.lv[s.U];
    var pg1 := t.pg[s.u := WithoutKid(t.pg[s.u], s.j)];
    MergeParentRow(t, t', s, l, k, pg1);
    RowData(pg1, t'.pg, row, ss);
    assert RowOK(t.pg, row, false) && StackedAt(t.pg, t.lv, s.U);
    LosesSeps(t.pg, row, s.a, s.j, ss);
  }

  lemma RemovedRow(row: seq<int>, i: nat, row': seq<int>)
    requires 0 < i < |row| && row' == RemoveAt(row, i)
    ensures |row'| == |row| - 1 && row'[..i - 1] == row[..i - 1] && row'[i - 1] == row[i - 1]
            && row'[i..] == row[i + 1..]
    ensures forall x :: 0 <= x < i ==> row'[x] == row[x]
    ensures forall x :: i <= x < |row'| ==> row'[x] == row[x + 1]
  {
  }

  lemma RemovedNoDup(row: seq<int>, i: nat, row': seq<int>)
    requires NoDup(row) && 0 < i < |row| && row' == RemoveAt(row, i)
    ensures NoDup(row') && row[i] !in row'
  {
    RemovedRow(row, i, row');
    forall x, y | 0 <= x < y < |row'|
      ensures row'[x] != row'[y]
    {
      var x', y' := if x < i then x else x + 1, if y < i then y else y + 1;
      assert row'[x] == row[x'] && row'[y] == row[y'];
    }
    forall x | 0 <= x < |row'|
      ensures row'[x] != row[i]
    {
      var x' := if x < i then x else x + 1;
      assert row'[x] == row[x'];
    }
  }

  /** The joined page in its own row, as far as children, separators and entries go. */
  lemma MergeOwn(t: Tree, t': Tree, s: Site, l: int, k: nat, pg1: Pages, row': seq<int>)
    requires Merges(t, t', s, l, k) && pg1 == t.pg[l := Joined(t.pg[l], t.pg[s.p], k)] && row' == t'.lv[s.L]
    ensures forall x :: 0 <= x < |row'| ==>
            KidsOf(pg1, row'[x]) == KidsOf(t'.pg, row'[x]) && KeysOf(pg1, row'[x]) == KeysOf(t'.pg, row'[x])
    ensures forall x :: 0 <= x < |row'| ==> EntsOf(pg1, row'[x]) == EntsOf(t'.pg, row'[x])
  {
    var row := t.lv[s.L];
    assert RowOK(t.pg, row, s.L == 0);
    RemovedRow(row, s.i, row');
    RemovedNoDup(row, s.i, row');
    MergeNew(t, t', s, l, k);
    forall x | 0 <= x < |row'|
      ensures KidsOf(pg1, row'[x]) == KidsOf(t'.pg, row'[x]) && KeysOf(pg1, row'[x]) == KeysOf(t'.pg, row'[x])
      ensures EntsOf(pg1, row'[x]) == EntsOf(t'.pg, row'[x])
    {
      if row'[x] != l {
        var y := if x < s.i then x else x + 1;
        assert row'[x] == row[y];
        OtherLevel(t, s.U, s.a, s.L, y);
        MergeAt(t, t', s, l, k, row[y]);
      }
    }
  }

  lemma JoinedRow(pg: Pages, row: seq<int>, i: nat, k: nat, row': seq<int>)
    requires InnerRow(pg, row) && 0 < i < |row| && row' == RemoveAt(row, i)
    requires row[i - 1] in pg && row[i] in pg && pg[row[i - 1]].Inner? && pg[row[i]].Inner?
    ensures InnerRow(pg[row[i - 1] := Joined(pg[row[i - 1]], pg[row[i]], k)], row')
  {
    var pg1 := pg[row[i - 1] := Joined(pg[row[i - 1]], pg[row[i]], k)];
    RemovedRow(row, i, row');
    assert |KidsOf(pg, row[i - 1])| == |KeysOf(pg, row[i - 1])| + 1 && |KidsOf(pg, row[i])| == |KeysOf(pg, row[i])| + 1;
    forall x | 0 <= x < |row'|
      ensures |KidsOf(pg1, row'[x])| == |KeysOf(pg1, row'[x])| + 1
    {
      var y := if x < i then x else x + 1;
      assert row'[x] == row[y];
    }
  }

  lemma MergeOwnKids(t: Tree, t': Tree, s: Site, l: int, k: nat)
    requires Merges(t, t', s, l, k) && s.L > 0
    ensures InnerRow(t'.pg, t'.lv[s.L]) && Kids(t'.pg, t'.lv[s.L]) == t.lv[s.L - 1]
  {
    hide Seps, Ents, RemoveAt, MergeTree, LevelsOK, ParentsOK;
    MergeLv(t, t', s, l, k);
    var row, row', n := t.lv[s.L], t'.lv[s.L], Joined(t.pg[l], t.pg[s.p], k);
    var pg1 := t.pg[l := n];
    assert RowOK(t.pg, row, false) && StackedAt(t.pg, t.lv, s.L);
    MergeOwn(t, t', s, l, k, pg1, row');
    RemovedRow(row, s.i, row');
    RemovedNoDup(row, s.i, row');
    RowData(pg1, t'.pg, row', []);
    KidsSetOne(t.pg, row', s.i - 1, n);
    KidsPair(t.pg, row, s.i - 1);
    JoinedRow(t.pg, row, s.i, k, row');
  }

  lemma MergeElseKids(t: Tree, t': Tree, s: Site, l: int, k: nat, M: nat)
    requires Merges(t, t', s, l, k) && 0 < M < |t.lv| && M != s.L && M != s.U
    ensures InnerRow(t'.pg, t.lv[M]) && Kids(t'.pg, t.lv[M]) == t.lv[M - 1]
  {
    assert StackedAt(t.pg, t.lv, M);
    MergeElse(t, t', s, l, k, M);
    RowData(t.pg, t'.pg, t.lv[M], []);
  }

  lemma MergeTall(t: Tree, t': Tree, s: Site, l: int, k: nat)
    requires Merges(t, t', s, l, k)
    ensures Tall(t')
  {
    hide Kids, Seps, RemoveAt, MergeTree, LevelsOK, ParentsOK, RowOK;
    MergeLv(t, t', s, l, k);
    forall M | 0 < M < |t'.lv|
      ensures StackedAt(t'.pg, t'.lv, M)
    {
      if M == s.L {
        MergeOwnKids(t, t', s, l, k);
      } else if M == s.U {
        MergeUpperKids(t, t', s, l, k);
      } else {
        MergeElseKids(t, t', s, l, k, M);
      }
    }
  }

  lemma RowRemoved(pg: Pages, pg': Pages, row: seq<int>, i: nat, leaf: bool, row': seq<int>)
    requires RowOK(pg, row, leaf) && 0 < i < |row| && row' == RemoveAt(row, i)
    requires forall x :: 0 <= x < |row| && x != i ==> row[x] in pg' && pg'[row[x]].Leaf? == leaf
    requires forall x :: 0 <= x < |row| && x != i ==>
             pg'[row[x]].prev == (if x == i + 1 then row[i - 1] else pg[row[x]].prev)
    requires forall x :: 0 <= x < |row| && x != i ==>
             pg'[row[x]].next == (if x == i - 1 then pg[row[i]].next else pg[row[x]].next)
    ensures RowOK(pg', row', leaf)
  {
    RemovedRow(row, i, row');
    RemovedNoDup(row, i, row');
    assert LinkedAt(pg, row, i);
    forall x | 0 <= x < |row'|
      ensures LinkedAt(pg', row', x)
      ensures row'[x] in pg' && pg'[row'[x]].Leaf? == leaf
    {
      var y := if x < i then x else x + 1;
      assert row'[x] == row[y];
      assert LinkedAt(pg, row, y);
    }
  }

  lemma MergeRow(t: Tree, t': Tree, s: Site, l: int, k: nat)
    requires Merges(t, t', s, l, k)
    ensures RowOK(t'.pg, t'.lv[s.L], s.L == 0)
  {
    var row := t.lv[s.L];
    assert RowOK(t.pg, row, s.L == 0);
    NextLevel(t, s.L, s.i);
    forall x | 0 <= x < |row| && x != s.i
      ensures row[x] in t'.pg && t'.pg[row[x]].Leaf? == (s.L == 0)
      ensures t'.pg[row[x]].prev == (if x == s.i + 1 then row[s.i - 1] else t.pg[row[x]].prev)
      ensures t'.pg[row[x]].next == (if x == s.i - 1 then t.pg[row[s.i]].next else t.pg[row[x]].next)
    {
      MergeAt(t, t', s, l, k, row[x]);
      if row[x] == t.pg[s.p].next {
        IndexUnique(row, x, s.i + 1);
      }
      if row[x] == l {
        IndexUnique(row, x, s.i - 1);
      }
    }
    RowRemoved(t.pg, t'.pg, row, s.i, s.L == 0, t'.lv[s.L]);
  }

  lemma MergeOtherRow(t: Tree, t': Tree, s: Site, l: int, k: nat, M: nat)
    requires Merges(t, t', s, l, k) && M < |t.lv| && M != s.L
    ensures RowOK(t'.pg, t.lv[M], M == 0)
  {
    assert RowOK(t.pg, t.lv[M], M == 0);
    NextLevel(t, s.L, s.i);
    LeftFacts(t, s, l);
    SiteFacts(t, s);
    forall x | 0 <= x < |t.lv[M]|
      ensures t.lv[M][x] in t'.pg && t.pg[t.lv[M][x]].Leaf? == t'.pg[t.lv[M][x]].Leaf?
      ensures t.pg[t.lv[M][x]].prev == t'.pg[t.lv[M][x]].prev && t.pg[t.lv[M][x]].next == t'.pg[t.lv[M][x]].next
    {
      assert t.lvl[t.lv[M][x]] == M;
      MergeAt(t, t', s, l, k, t.lv[M][x]);
    }
    RowFrame(t.pg, t'.pg, t.lv[M], M == 0);
  }

  lemma MergeOldKid(t: Tree, t': Tree, s: Site, l: int, k: nat, M: nat, x: nat, y: nat, c: int)
    requires Merges(t, t', s, l, k) && 0 < M < |t.lv| && x < |t.lv[M]| && y < |KidsOf(t.pg, t.lv[M][x])|
    requires c == KidsOf(t.pg, t.lv[M][x])[y] && c != s.p
    ensures c in t'.pg
    ensures t'.pg[c].parent == if t.lv[M][x] == s.p then l else t.lv[M][x]
  {
    KidLevel(t, M, x, y);
    assert ParentsOK(t.pg, t.lv[M]);
    assert At(t.pg, c).parent == t.lv[M][x];
    MergeAt(t, t', s, l, k, c);
    if c in KidsOf(t.pg, s.p) {
      KidFacts(t, s.L, s.i, c);
    }
  }

  lemma NotThePage(t: Tree, s: Site, M: nat, x: nat, y: nat)
    requires Shape(t) && IsSite(t, s) && 0 < M < |t.lv| && x < |t.lv[M]| && y < |KidsOf(t.pg, t.lv[M][x])|
    requires KidsOf(t.pg, t.lv[M][x])[y] == s.p
    ensures M == s.U && x == s.a && y == s.j
  {
    KidLevel(t, M, x, y);
    SiteFacts(t, s);
    assert ParentsOK(t.pg, t.lv[M]);
    assert At(t.pg, KidsOf(t.pg, t.lv[M][x])[y]).parent == t.lv[M][x];
    assert RowOK(t.pg, t.lv[M], M == 0);
    IndexUnique(t.lv[M], x, s.a);
    KidsDistinct(t, s.L, s.a, s.j, y);
  }

  lemma MergeParentsElse(t: Tree, t': Tree, s: Site, l: int, k: nat, M: nat)
    requires Merges(t, t', s, l, k) && 0 < M < |t.lv| && M != s.L && M != s.U
    ensures ParentsOK(t'.pg, t.lv[M])
  {
    MergeElse(t, t', s, l, k, M);
    forall x, y | 0 <= x < |t.lv[M]| && 0 <= y < |KidsOf(t'.pg, t.lv[M][x])|
      ensures At(t'.pg, KidsOf(t'.pg, t.lv[M][x])[y]).parent == t.lv[M][x]
    {
      var c := KidsOf(t.pg, t.lv[M][x])[y];
      if c == s.p {
        NotThePage(t, s, M, x, y);
      }
      OtherLevel(t, s.L, s.i, M, x);
      MergeOldKid(t, t', s, l, k, M, x, y, c);
    }
  }

  lemma MergeUpperKid(t: Tree, t': Tree, s: Site, l: int, k: nat, y: nat)
    requires Merges(t, t', s, l, k) && y + 1 < |KidsOf(t.pg, s.u)|
    ensures y < |KidsOf(t'.pg, s.u)| && At(t'.pg, KidsOf(t'.pg, s.u)[y]).parent == s.u
  {
    SiteFacts(t, s);
    MergeNew(t, t', s, l, k);
    var y' := if y < s.j then y else y + 1;
    var c := KidsOf(t.pg, s.u)[y'];
    assert KidsOf(t'.pg, s.u)[y] == c;
    if c == s.p {
      NotThePage(t, s, s.U, s.a, y');
    }
    MergeOldKid(t, t', s, l, k, s.U, s.a, y', c);
  }

  lemma MergeParentsUpper(t: Tree, t': Tree, s: Site, l: int, k: nat)
    requires Merges(t, t', s, l, k)
    ensures ParentsOK(t'.pg, t.lv[s.U])
  {
    var row := t.lv[s.U];
    var pg1 := t.pg[s.u := WithoutKid(t.pg[s.u], s.j)];
    MergeParentRow(t, t', s, l, k, pg1);
    assert RowOK(t.pg, row, false);
    forall x, y | 0 <= x < |row| && 0 <= y < |KidsOf(t'.pg, row[x])|
      ensures At(t'.pg, KidsOf(t'.pg, row[x])[y]).parent == row[x]
    {
      if row[x] == s.u {
        MergeUpperKid(t, t', s, l, k, y);
      } else {
        var c := KidsOf(t.pg, row[x])[y];
        if c == s.p {
          NotThePage(t, s, s.U, x, y);
        }
        OtherLevel(t, s.L, s.i, s.U, x);
        MergeOldKid(t, t', s, l, k, s.U, x, y, c);
      }
    }
  }

  lemma MergeParentsOwn(t: Tree, t': Tree, s: Site, l: int, k: nat)
    requires Merges(t, t', s, l, k) && s.L > 0
    ensures ParentsOK(t'.pg, t'.lv[s.L])
  {
    var row, row' := t.lv[s.L], t'.lv[s.L];
    var pg1 := t.pg[l := Joined(t.pg[l], t.pg[s.p], k)];
    MergeOwn(t, t', s, l, k, pg1, row');
    MergeNew(t, t', s, l, k);
    RemovedRow(row, s.i, row');
    LeftFacts(t, s, l);
    forall x, y | 0 <= x < |row'| && 0 <= y < |KidsOf(t'.pg, row'[x])|
      ensures At(t'.pg, KidsOf(t'.pg, row'[x])[y]).parent == row'[x]
    {
      MergeOwnKid(t, t', s, l, k, x, y);
    }
  }

  lemma MergeOwnKid(t: Tree, t': Tree, s: Site, l: int, k: nat, x: nat, y: nat)
    requires Merges(t, t', s, l, k) && s.L > 0 && x < |t'.lv[s.L]| && y < |KidsOf(t'.pg, t'.lv[s.L][x])|
    ensures At(t'.pg, KidsOf(t'.pg, t'.lv[s.L][x])[y]).parent == t'.lv[s.L][x]
  {
    hide Kids, Seps, Stacked;
    var row, row' := t.lv[s.L], t'.lv[s.L];
    MergeOwn(t, t', s, l, k, t.pg[l := Joined(t.pg[l], t.pg[s.p], k)], row');
    MergeNew(t, t', s, l, k);
    RemovedRow(row, s.i, row');
    assert RowOK(t.pg, row, false);
    RemovedNoDup(row, s.i, row');
    LeftFacts(t, s, l);
    var x0 := if x < s.i then x else x + 1;
    assert row'[x] == row[x0];
    var n := |t.pg[l].kids|;
    var x', y' := if row'[x] == l && y >= n then s.i else x0, if row'[x] == l && y >= n then y - n else y;
    if row'[x] == l {
      IndexUnique(row', x, s.i - 1);
    }
    var c := KidsOf(t'.pg, row'[x])[y];
    assert c == KidsOf(t.pg, row[x'])[y'];
    if c == s.p {
      NotThePage(t, s, s.L, x', y');
    }
    MergeOldKid(t, t', s, l, k, s.L, x', y', c);
    if row[x'] == s.p {
      IndexUnique(row, x', s.i);
    }
  }

  lemma MergeLevels(t: Tree, t': Tree, s: Site, l: int, k: nat)
    requires Merges(t, t', s, l, k)
    ensures LevelsOK(t')
  {
    hide Kids, Seps, Stacked, ParentsOK;
    var row, row' := t.lv[s.L], t'.lv[s.L];
    MergeNew(t, t', s, l, k);
    SiteFacts(t, s);
    RemovedRow(row, s.i, row');
    assert RowOK(t.pg, row, s.L == 0);
    RemovedNoDup(row, s.i, row');
    forall M, x | 0 <= M < |t'.lv| && 0 <= x < |t'.lv[M]|
      ensures t'.lv[M][x] in t'.lvl && t'.lvl[t'.lv[M][x]] == M
    {
      if M == s.L {
        var y := if x < s.i then x else x + 1;
        assert row'[x] == row[y];
      } else {
        OtherLevel(t, s.L, s.i, M, x);
      }
    }
    forall p | p in t'.pg
      ensures Placed(t'.lv, t'.lvl, p)
    {
      assert Placed(t.lv, t.lvl, p);
      if t.lvl[p] == s.L {
        var x :| 0 <= x < |row| && row[x] == p;
        assert row'[if x < s.i then x else x - 1] == p;
      }
    }
  }

  lemma MergeRoot(t: Tree, t': Tree, s: Site, l: int, k: nat)
    requires Merges(t, t', s, l, k)
    ensures At(t'.pg, Root(t)).parent == NO_PAGE
  {
    assert t.lvl[Root(t)] == |t.lv| - 1;
    SiteFacts(t, s);
    MergeAt(t, t', s, l, k, Root(t));
    if Root(t) in KidsOf(t.pg, s.p) {
      KidFacts(t, s.L, s.i, Root(t));
    }
  }

  /** Merging two neighbours and removing the right one from its parent keeps the shape. */
  lemma MergeShape(t: Tree, t': Tree, s: Site, l: int, k: nat)
    requires Merges(t, t', s, l, k)
    ensures Shape(t')
  {
    hide Kids, Seps, RemoveAt, MergeTree, LevelsOK, ParentsOK, RowOK, Stacked;
    MergeLv(t, t', s, l, k);
    MergeTall(t, t', s, l, k);
    MergeLevels(t, t', s, l, k);
    forall M | 0 <= M < |t'.lv|
      ensures RowOK(t'.pg, t'.lv[M], M == 0)
    {
      if M == s.L {
        MergeRow(t, t', s, l, k);
      } else {
        MergeOtherRow(t, t', s, l, k, M);
      }
    }
    forall M | 0 < M < |t'.lv|
      ensures ParentsOK(t'.pg, t'.lv[M])
    {
      if M == s.L {
        MergeParentsOwn(t, t', s, l, k);
      } else if M == s.U {
        MergeParentsUpper(t, t', s, l, k);
      } else {
        MergeParentsElse(t, t', s, l, k, M);
      }
    }
    MergeRoot(t, t', s, l, k);
  }

  // ---- the order

  /** The separators of the merged level. */
  lemma MergeSepRow(t: Tree, t': Tree, s: Site, l: int, k: nat)
    requires Merges(t, t', s, l, k)
    ensures |SepRow(t, s.L)| == |t.lv[s.L]| && |t'.lv| == |t.lv|
    ensures s.i - s.j + GoneSep(s.j) < |t.lv[s.L]|
    ensures SepRow(t', s.L) == RemoveAt(SepRow(t, s.L), s.i - s.j + GoneSep(s.j))
  {
    hide Kids, Ents, RemoveAt, MergeTree, RowOK, ParentsOK, LevelsOK, Seps, Stacked, Down;
    MergeLv(t, t', s, l, k);
    forall M, x | s.U < M < |t.lv| && 0 <= x < |t.lv[M]|
      ensures KeysOf(t.pg, t.lv[M][x]) == KeysOf(t'.pg, t.lv[M][x])
    {
      MergeElse(t, t', s, l, k, M);
    }
    SepRowFrame(t, t', s.U);
    SepRowDown(t, s.U);
    SepRowDown(t, s.L);
    MergeUpperSeps(t, t', s, l, k, SepRow(t, s.U));
  }

  lemma RemoveNext(ss: seq<nat>, i: nat)
    requires i + 1 < |ss|
    ensures RemoveAt(ss, i + 1) == RemoveAt(ss, i)[i := ss[i]]
  {
  }

  lemma JoinedSegment(a: seq<nat>, sl: nat, kl: seq<nat>, sr: nat, kr: seq<nat>, k: nat, b: seq<nat>)
    ensures a + ([sl] + (kl + [k] + kr)) + b == (a + (([sl] + kl) + ([sr] + kr)) + b)[|a| + 1 + |kl| := k]
  {
  }

  /** Joining two inner pages changes one separator of their children. */
  lemma JoinedSeps(pg: Pages, row: seq<int>, ss: seq<nat>, i: nat, k: nat, row': seq<int>, n: Node)
    requires NoDup(row) && InnerRow(pg, row) && 0 < i < |row| == |ss| && row' == RemoveAt(row, i)
    requires row[i - 1] in pg && row[i] in pg && pg[row[i - 1]].Inner? && pg[row[i]].Inner?
    requires n == Joined(pg[row[i - 1]], pg[row[i]], k)
    ensures Off(pg, row, i) < |Seps(pg, row, ss)|
    ensures Seps(pg[row[i - 1] := n], row', RemoveAt(ss, i)) == Seps(pg, row, ss)[Off(pg, row, i) := k]
  {
    hide Kids, Seps;
    var ss' := RemoveAt(ss, i);
    var o := i - 1;
    RemovedRow(row, i, row');
    RemovedNoDup(row, i, row');
    SepsSetOne(pg, row', ss', o, n);
    SepsPair(pg, row, ss, o);
    assert ss'[..o] == ss[..o] && ss'[o] == ss[o] && ss'[o + 1..] == ss[o + 2..];
    var a, b := Seps(pg, row[..o], ss[..o]), Seps(pg, row[o + 2..], ss[o + 2..]);
    JoinedSegment(a, ss[o], pg[row[o]].keys, ss[i], pg[row[i]].keys, k, b);
    assert |a| == Off(pg, row, o) by {
      assert InnerRow(pg, row[..o]);
      SepsLen(pg, row[..o], ss[..o]);
    }
    OffNext(pg, row, o);
    assert |KidsOf(pg, row[o])| == |KeysOf(pg, row[o])| + 1;
  }

  lemma MergeDown(t: Tree, t': Tree, s: Site, l: int, k: nat, L: nat, ss: seq<nat>)
    requires Merges(t, t', s, l, k) && L < s.L
    ensures |t'.lv| == |t.lv|
    ensures Down(t'.pg, t'.lv, L, ss) == Down(t.pg, t.lv, L, ss)
  {
    hide Kids, Seps, RemoveAt, MergeTree, RowOK, ParentsOK, LevelsOK;
    MergeLv(t, t', s, l, k);
    forall M, x | 0 < M <= L && 0 <= x < |t.lv[M]|
      ensures KeysOf(t.pg, t.lv[M][x]) == KeysOf(t'.pg, t.lv[M][x])
    {
      MergeElse(t, t', s, l, k, M);
    }
    DownFrame(t.pg, t'.pg, t.lv, t'.lv, L, ss);
  }

  /** The leaf separators when the merged level is handed its old separators without the
      merged page. */
  lemma MergeInnerDown(t: Tree, t': Tree, s: Site, l: int, k: nat)
    requires Merges(t, t', s, l, k) && s.L > 0
    ensures |SepRow(t, s.L)| == |t.lv[s.L]| && |t'.lv| == |t.lv|
    ensures LeafIdx(t.pg, t.lv, s.L, s.i) < |LeafSeps(t)|
    ensures Down(t'.pg, t'.lv, s.L, RemoveAt(SepRow(t, s.L), s.i)) == LeafSeps(t)[LeafIdx(t.pg, t.lv, s.L, s.i) := k]
  {
    hide Kids, Seps, RemoveAt, MergeTree, ParentsOK, LevelsOK;
    MergeLv(t, t', s, l, k);
    var row, row', n := t.lv[s.L], t'.lv[s.L], Joined(t.pg[l], t.pg[s.p], k);
    var pg1 := t.pg[l := n];
    var ss := SepRow(t, s.L);
    var y := Off(t.pg, row, s.i);
    assert RowOK(t.pg, row, false) && StackedAt(t.pg, t.lv, s.L);
    SepRowDown(t, s.L);
    SepRowDown(t, s.L - 1);
    MergeOwn(t, t', s, l, k, pg1, row');
    RowData(pg1, t'.pg, row', RemoveAt(ss, s.i));
    JoinedSeps(t.pg, row, ss, s.i, k, row', n);
    MergeDown(t, t', s, l, k, s.L - 1, SepRow(t, s.L - 1)[y := k]);
    OffMono(t.pg, row, s.i, s.i + 1);
    OffBound(t.pg, row, s.i + 1);
    DownUpdate(t.pg, t.lv, s.L - 1, SepRow(t, s.L - 1), y, k);
  }

  lemma HoleIn(pg: Pages, row: seq<int>, ss: seq<nat>, h: nat, x: nat)
    requires LeafOrder(pg, row, ss, NO_PAGE) && 0 < h < |row|
    ensures LeafOrder(pg, row, ss[h := x], h)
  {
    var ss' := ss[h := x];
    forall i | 0 < i < |row| && i != h
      ensures SepFits(pg, row, i, ss'[i])
    {
      assert SepFits(pg, row, i, ss[i]);
    }
  }

  lemma MergeLeafFits(pg: Pages, pg1: Pages, row: seq<int>, row': seq<int>, ss: seq<nat>, ss': seq<nat>, i: nat, x: nat)
    requires NoDup(row) && 0 < i < |row| && row' == RemoveAt(row, i) && LeafOrder(pg, row, ss, NO_PAGE)
    requires row[i - 1] in pg && row[i] in pg && pg[row[i - 1]].Leaf? && pg[row[i]].Leaf?
    requires pg1 == pg[row[i - 1] := Joined(pg[row[i - 1]], pg[row[i]], 0)]
    requires ss' == RemoveAt(ss, i) && 0 < x < |row'|
    ensures SepFits(pg1, row', x, ss'[x])
  {
    RemovedRow(row, i, row');
    var y := if x < i then x else x + 1;
    assert ss'[x] == ss[y] && row'[x] == row[y];
    assert SepFits(pg, row, y, ss[y]);
    assert SepFits(pg, row, i, ss[i]);
  }

  lemma MergeLeafRow(pg: Pages, pg1: Pages, row: seq<int>, row': seq<int>, ss: seq<nat>, i: nat)
    requires NoDup(row) && 0 < i < |row| && row' == RemoveAt(row, i) && LeafOrder(pg, row, ss, NO_PAGE)
    requires row[i - 1] in pg && row[i] in pg && pg[row[i - 1]].Leaf? && pg[row[i]].Leaf?
    requires pg1 == pg[row[i - 1] := Joined(pg[row[i - 1]], pg[row[i]], 0)]
    ensures LeafOrder(pg1, row', RemoveAt(ss, i), NO_PAGE)
  {
    var ss' := RemoveAt(ss, i);
    forall x | 0 < x < |row'|
      ensures SepFits(pg1, row', x, ss'[x])
    {
      MergeLeafFits(pg, pg1, row, row', ss, ss', i, x);
    }
    AllFit(pg1, row', ss');
  }

  lemma MergeLeafEnts(pg: Pages, row: seq<int>, row': seq<int>, i: nat, n: Node)
    requires NoDup(row) && 0 < i < |row| && row' == RemoveAt(row, i)
    requires row[i - 1] in pg && row[i] in pg && pg[row[i - 1]].Leaf? && pg[row[i]].Leaf?
    requires n == Joined(pg[row[i - 1]], pg[row[i]], 0)
    ensures Ents(pg[row[i - 1] := n], row') == Ents(pg, row)
  {
    hide Ents, RemoveAt;
    var o := i - 1;
    RemovedRow(row, i, row');
    RemovedNoDup(row, i, row');
    EntsSetOne(pg, row', o, n);
    EntsPair(pg, row, o);
  }

  lemma EntsSetOne(pg: Pages, row: seq<int>, a: nat, n: Node)
    requires NoDup(row) && a < |row|
    ensures Ents(pg[row[a] := n], row) == Ents(pg, row[..a]) + n.EntList() + Ents(pg, row[a + 1..])
  {
    NotInParts(row, a);
    EntsAround(pg[row[a] := n], row, a);
    EntsSkip(pg, row[a], n, row[..a]);
    EntsSkip(pg, row[a], n, row[a + 1..]);
  }

  /** The leaves of the tree after the merge, apart from the separator of the page that
      follows the merged one. */
  lemma MergeLeaves(t: Tree, t': Tree, s: Site, l: int, k: nat)
    requires Merges(t, t', s, l, k) && Order(t, NO_PAGE)
    requires s.L > 0 ==>
             LeafIdx(t.pg, t.lv, s.L, s.i) < |t.lv[0]| && EntsOf(t.pg, t.lv[0][LeafIdx(t.pg, t.lv, s.L, s.i)]) != []
             && k == FirstKey(t.pg, t.lv[0][LeafIdx(t.pg, t.lv, s.L, s.i)])
    ensures |t'.lv| == |t.lv| && |SepRow(t, s.L)| == |t.lv[s.L]|
    ensures LeafOrder(t'.pg, t'.lv[0], Down(t'.pg, t'.lv, s.L, RemoveAt(SepRow(t, s.L), s.i)), NO_PAGE)
    ensures Ents(t'.pg, t'.lv[0]) == Ents(t.pg, t.lv[0])
  {
    hide Kids, Seps, RemoveAt, MergeTree, ParentsOK, LevelsOK, Ents;
    MergeLv(t, t', s, l, k);
    SepRowDown(t, s.L);
    if s.L == 0 {
      MergeLeafLevel(t, t', s, l, k);
    } else {
      MergeInnerDown(t, t', s, l, k);
      MergeElse(t, t', s, l, k, 0);
      EntsFrame(t.pg, t'.pg, t.lv[0]);
      var h := LeafIdx(t.pg, t.lv, s.L, s.i);
      LeafIdxBound(t.pg, t.lv, s.L, 0);
      LeafIdxMono(t.pg, t.lv, s.L, 0, s.i);
      HoleIn(t.pg, t.lv[0], LeafSeps(t), h, LeafSeps(t)[h]);
      assert LeafSeps(t)[h := LeafSeps(t)[h]] == LeafSeps(t);
      FillHole(t.pg, t.lv[0], LeafSeps(t), h);
      LeafOrderFrame(t.pg, t'.pg, t.lv[0], LeafSeps(t)[h := k], NO_PAGE);
    }
  }

  lemma MergeLeafLevel(t: Tree, t': Tree, s: Site, l: int, k: nat)
    requires Merges(t, t', s, l, k) && Order(t, NO_PAGE) && s.L == 0
    ensures |t'.lv| == |t.lv| && |LeafSeps(t)| == |t.lv[0]|
    ensures LeafOrder(t'.pg, t'.lv[0], RemoveAt(LeafSeps(t), s.i), NO_PAGE)
    ensures Ents(t'.pg, t'.lv[0]) == Ents(t.pg, t.lv[0])
  {
    hide Kids, Seps, RemoveAt, MergeTree, ParentsOK, LevelsOK, Ents;
    MergeLv(t, t', s, l, k);
    LeftFacts(t, s, l);
    var row, row' := t.lv[0], t'.lv[0];
    var pg1 := t.pg[l := Joined(t.pg[l], t.pg[s.p], k)];
    assert RowOK(t.pg, row, true);
    assert Joined(t.pg[l], t.pg[s.p], k) == Joined(t.pg[l], t.pg[s.p], 0);
    MergeOwn(t, t', s, l, k, pg1, row');
    MergeLeafRow(t.pg, pg1, row, row', LeafSeps(t), s.i);
    MergeLeafEnts(t.pg, row, row', s.i, Joined(t.pg[l], t.pg[s.p], 0));
    EntsFrame(pg1, t'.pg, row');
    LeafOrderFrame(pg1, t'.pg, row', RemoveAt(LeafSeps(t), s.i), NO_PAGE);
  }

  /** Where the parent's first leaf sits after its first child is gone. */
  lemma MergeFirst(t: Tree, t': Tree, s: Site, l: int, k: nat)
    requires Merges(t, t', s, l, k) && s.j == 0 && Tall(t')
    ensures |t'.lv| == |t.lv| && s.i < |t'.lv[s.L]| && s.a < |t'.lv[s.U]|
    ensures LeafIdx(t'.pg, t'.lv, s.U, s.a) == LeafIdx(t'.pg, t'.lv, s.L, s.i)
    ensures 0 < LeafIdx(t'.pg, t'.lv, s.L, s.i) < |t'.lv[0]|
  {
    hide Seps, RemoveAt, MergeTree, ParentsOK, Ents;
    MergeLv(t, t', s, l, k);
    var row := t.lv[s.U];
    var pg1 := t.pg[s.u := WithoutKid(t.pg[s.u], s.j)];
    MergeParentRow(t, t', s, l, k, pg1);
    assert RowOK(t.pg, row, false) && StackedAt(t'.pg, t'.lv, s.U);
    NotInParts(row, s.a);
    KidsSkip(t.pg, s.u, WithoutKid(t.pg[s.u], s.j), row[..s.a]);
    KidsFrame(pg1, t'.pg, row[..s.a]);
    assert Off(t'.pg, row, s.a) == s.i;
    OffMono(t'.pg, row, s.a, s.a + 1);
    OffBound(t'.pg, row, s.a + 1);
    LeafIdxBound(t'.pg, t'.lv, s.L, 0);
    LeafIdxMono(t'.pg, t'.lv, s.L, 0, s.i);
    LeafIdxMono(t'.pg, t'.lv, s.L, s.i, s.i + 1);
  }

  /** Merging keeps the entries; a separator goes stale only if the merged page was the first
      child of its parent, and then it is that parent's own separator. */
  lemma MergeOrder(t: Tree, t': Tree, s: Site, l: int, k: nat)
    requires Merges(t, t', s, l, k) && Order(t, NO_PAGE)
    requires s.L > 0 ==>
             LeafIdx(t.pg, t.lv, s.L, s.i) < |t.lv[0]| && EntsOf(t.pg, t.lv[0][LeafIdx(t.pg, t.lv, s.L, s.i)]) != []
             && k == FirstKey(t.pg, t.lv[0][LeafIdx(t.pg, t.lv, s.L, s.i)])
    ensures |t'.lv| == |t.lv| > 0
    ensures Ents(t'.pg, t'.lv[0]) == Ents(t.pg, t.lv[0])
    ensures s.j > 0 ==> Order(t', NO_PAGE)
    ensures s.j == 0 ==> s.a < |t'.lv[s.U]| && 0 < LeafIdx(t'.pg, t'.lv, s.U, s.a) < |t'.lv[0]|
    ensures s.j == 0 ==> Order(t', LeafIdx(t'.pg, t'.lv, s.U, s.a))
  {
    hide Kids, Seps, MergeTree, ParentsOK, LevelsOK, RowOK, Ents, Stacked;
    MergeLv(t, t', s, l, k);
    MergeLeaves(t, t', s, l, k);
    MergeTall(t, t', s, l, k);
    MergeSepRow(t, t', s, l, k);
    SepRowDown(t', s.L);
    var ss := RemoveAt(SepRow(t, s.L), s.i);
    if s.j == 0 {
      MergeFirst(t, t', s, l, k);
      var x := SepRow(t, s.L)[s.i];
      RemoveNext(SepRow(t, s.L), s.i);
      DownUpdate(t'.pg, t'.lv, s.L, ss, s.i, x);
      HoleIn(t'.pg, t'.lv[0], Down(t'.pg, t'.lv, s.L, ss), LeafIdx(t'.pg, t'.lv, s.L, s.i), x);
    }
  }
}
