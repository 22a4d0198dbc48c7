/** Changes that keep every row: entries within leaves, and separators. */
module IxEdit {
  import opened Common
  import opened IxLevels
  import opened IxShape

  /** The two page maps differ at most in the entries and the key values of their pages. */
  ghost predicate SameLinks(pg: Pages, pg': Pages) {
    && pg.Keys == pg'.Keys
    && forall p :: p in pg ==>
         && pg[p].Leaf? == pg'[p].Leaf?
         && pg[p].parent == pg'[p].parent
         && pg[p].prev == pg'[p].prev
         && pg[p].next == pg'[p].next
         && KidsOf(pg, p) == KidsOf(pg', p)
         && |KeysOf(pg, p)| == |KeysOf(pg', p)|
  }

  lemma SameLinksAt(pg: Pages, pg': Pages, p: int)
    requires SameLinks(pg, pg')
    ensures KidsOf(pg, p) == KidsOf(pg', p) && |KeysOf(pg, p)| == |KeysOf(pg', p)|
    ensures At(pg, p).parent == At(pg', p).parent
  {
    if p !in pg {
      assert p !in pg';
    }
  }

  lemma StackedFrame(pg: Pages, pg': Pages, lv: seq<seq<int>>)
    requires SameLinks(pg, pg') && Stacked(pg, lv)
    ensures Stacked(pg', lv)
  {
    forall L | 0 < L < |lv|
      ensures StackedAt(pg', lv, L)
    {
      assert StackedAt(pg, lv, L);
      forall i | 0 <= i < |lv[L]|
        ensures KidsOf(pg, lv[L][i]) == KidsOf(pg', lv[L][i])
        ensures |KidsOf(pg', lv[L][i])| == |KeysOf(pg', lv[L][i])| + 1
      {
        SameLinksAt(pg, pg', lv[L][i]);
      }
      KidsFrame(pg, pg', lv[L]);
    }
  }

  lemma RowFrame(pg: Pages, pg': Pages, row: seq<int>, leaf: bool)
    requires RowOK(pg, row, leaf)
    requires forall i :: 0 <= i < |row| ==> row[i] in pg'
    requires forall i :: 0 <= i < |row| ==>
      pg[row[i]].Leaf? == pg'[row[i]].Leaf? && pg[row[i]].prev == pg'[row[i]].prev
        && pg[row[i]].next == pg'[row[i]].next
    ensures RowOK(pg', row, leaf)
  {
    forall i | 0 <= i < |row|
      ensures LinkedAt(pg', row, i)
    {
      assert LinkedAt(pg, row, i);
    }
  }

  lemma ParentsFrame(pg: Pages, pg': Pages, row: seq<int>)
    requires SameLinks(pg, pg') && ParentsOK(pg, row)
    ensures ParentsOK(pg', row)
  {
    forall i, j | 0 <= i < |row| && 0 <= j < |KidsOf(pg', row[i])|
      ensures At(pg', KidsOf(pg', row[i])[j]).parent == row[i]
    {
      SameLinksAt(pg, pg', row[i]);
      SameLinksAt(pg, pg', KidsOf(pg, row[i])[j]);
    }
  }

  lemma ShapeFrame(t: Tree, pg': Pages)
    requires Shape(t) && SameLinks(t.pg, pg')
    ensures Shape(t.(pg := pg'))
  {
    StackedFrame(t.pg, pg', t.lv);
    forall L | 0 <= L < |t.lv|
      ensures RowOK(pg', t.lv[L], L == 0)
    {
      assert forall p :: p in t.pg ==>
             pg'[p].Leaf? == t.pg[p].Leaf? && pg'[p].prev == t.pg[p].prev && pg'[p].next == t.pg[p].next;
      RowFrame(t.pg, pg', t.lv[L], L == 0);
    }
    forall L | 0 < L < |t.lv|
      ensures ParentsOK(pg', t.lv[L])
    {
      ParentsFrame(t.pg, pg', t.lv[L]);
    }
    SameLinksAt(t.pg, pg', Root(t));
  }

  // ---- one separator

  lemma {:induction false} SepRowFrame(t: Tree, t': Tree, L: nat)
    requires |t.lv| == |t'.lv| && L < |t.lv|
    requires forall M :: L < M < |t.lv| ==> t.lv[M] == t'.lv[M]
    requires forall M, i :: L < M < |t.lv| && 0 <= i < |t.lv[M]| ==>
             KeysOf(t.pg, t.lv[M][i]) == KeysOf(t'.pg, t.lv[M][i])
    ensures SepRow(t, L) == SepRow(t', L)
    decreases |t.lv| - L
  {
    if L < |t.lv| - 1 {
      SepRowFrame(t, t', L + 1);
      SepsFrame(t.pg, t'.pg, t.lv[L + 1], SepRow(t, L + 1));
    }
  }

  /** The page map with key `j - 1` of page `u` replaced: what `maintain_parent` writes. */
  function SetKey(pg: Pages, u: int, j: nat, v: nat): Pages
    requires u in pg && pg[u].Inner? && 0 < j <= |pg[u].keys|
  {
    pg[u := pg[u].(keys := pg[u].keys[j - 1 := v])]
  }

  lemma UpdateKeys(a: seq<nat>, x: nat, b: seq<nat>, c: seq<nat>, j: nat, v: nat)
    requires 0 < j <= |b|
    ensures (a + ([x] + b) + c)[|a| + j := v] == a + ([x] + b[j - 1 := v]) + c
  {
  }

  /** Pages that read alike outside page `u`, seen from a part of a row without `u`. */
  lemma SepsSkip(pg: Pages, u: int, n: Node, row: seq<int>, ss: seq<nat>)
    requires u !in row
    ensures Seps(pg[u := n], row, ss) == Seps(pg, row, ss)
  {
    SepsFrame(pg, pg[u := n], row, ss);
  }

  lemma EntsSkip(pg: Pages, u: int, n: Node, row: seq<int>)
    requires u !in row
    ensures Ents(pg[u := n], row) == Ents(pg, row)
  {
    EntsFrame(pg, pg[u := n], row);
  }

  lemma KidsSkip(pg: Pages, u: int, n: Node, row: seq<int>)
    requires u !in row
    ensures Kids(pg[u := n], row) == Kids(pg, row)
  {
    KidsFrame(pg, pg[u := n], row);
  }

  lemma NotInParts(row: seq<int>, i: nat)
    requires NoDup(row) && i < |row|
    ensures row[i] !in row[..i] && row[i] !in row[i + 1..]
  {
  }

  lemma SepsSetKey(pg: Pages, row: seq<int>, ss: seq<nat>, i: nat, j: nat, v: nat)
    requires i < |row| == |ss| && InnerRow(pg, row) && NoDup(row)
    requires row[i] in pg && pg[row[i]].Inner? && 0 < j <= |pg[row[i]].keys|
    ensures Off(pg, row, i) + j < |Seps(pg, row, ss)|
    ensures Seps(SetKey(pg, row[i], j, v), row, ss) == Seps(pg, row, ss)[Off(pg, row, i) + j := v]
  {
    var pg' := SetKey(pg, row[i], j, v);
    NotInParts(row, i);
    SepsSkip(pg, row[i], pg'[row[i]], row[..i], ss[..i]);
    SepsSkip(pg, row[i], pg'[row[i]], row[i + 1..], ss[i + 1..]);
    SepsAround(pg', row, ss, i);
    SepsAround(pg, row, ss, i);
    assert |Seps(pg, row[..i], ss[..i])| == Off(pg, row, i) by {
      assert InnerRow(pg, row[..i]);
      SepsLen(pg, row[..i], ss[..i]);
    }
    UpdateKeys(Seps(pg, row[..i], ss[..i]), ss[i], pg[row[i]].keys, Seps(pg, row[i + 1..], ss[i + 1..]), j, v);
  }

  /** A page of one level is on no other level. */
  lemma OtherLevel(t: Tree, L: nat, i: nat, M: nat, k: nat)
    requires LevelsOK(t) && L < |t.lv| && i < |t.lv[L]| && M < |t.lv| && k < |t.lv[M]| && L != M
    ensures t.lv[L][i] != t.lv[M][k]
  {
    assert t.lvl[t.lv[L][i]] == L && t.lvl[t.lv[M][k]] == M;
  }

  lemma SetKeyLinks(pg: Pages, u: int, j: nat, v: nat)
    requires u in pg && pg[u].Inner? && 0 < j <= |pg[u].keys|
    ensures SameLinks(pg, SetKey(pg, u, j, v))
  {
  }

  lemma NotOnLevel(t: Tree, u: int, M: nat)
    requires LevelsOK(t) && M < |t.lv| && u in t.lvl && t.lvl[u] != M
    ensures u !in t.lv[M]
  {
  }

  lemma {:induction false} DownSkip(pg: Pages, u: int, n: Node, lv: seq<seq<int>>, L: nat, ss: seq<nat>)
    requires L < |lv| && forall M :: 0 < M <= L ==> u !in lv[M]
    ensures Down(pg[u := n], lv, L, ss) == Down(pg, lv, L, ss)
  {
    if L == 0 {
    } else {
      SepsSkip(pg, u, n, lv[L], ss);
      DownSkip(pg, u, n, lv, L - 1, Seps(pg, lv[L], ss));
    }
  }

  lemma {:induction false} SepRowSkip(t: Tree, u: int, n: Node, L: nat)
    requires L < |t.lv| && forall M :: L < M < |t.lv| ==> u !in t.lv[M]
    ensures SepRow(t.(pg := t.pg[u := n]), L) == SepRow(t, L)
    decreases |t.lv| - L
  {
    if L < |t.lv| - 1 {
      SepRowSkip(t, u, n, L + 1);
      SepsSkip(t.pg, u, n, t.lv[L + 1], SepRow(t, L + 1));
    }
  }

  /** Writing one key of a page changes the separator of exactly one leaf: the leftmost one
      under the child that key leads to. */
  lemma SetKeySeps(t: Tree, L: nat, i: nat, j: nat, v: nat)
    requires Tall(t) && LevelsOK(t) && L + 1 < |t.lv| && i < |t.lv[L + 1]| && NoDup(t.lv[L + 1])
    requires 0 < j <= |KeysOf(t.pg, t.lv[L + 1][i])|
    ensures var x := Off(t.pg, t.lv[L + 1], i) + j;
            var t' := t.(pg := SetKey(t.pg, t.lv[L + 1][i], j, v));
            && LeafIdx(t.pg, t.lv, L, x) < |LeafSeps(t)|
            && LeafSeps(t') == LeafSeps(t)[LeafIdx(t.pg, t.lv, L, x) := v]
  {
    var u := t.lv[L + 1][i];
    var pg' := SetKey(t.pg, u, j, v);
    var t' := t.(pg := pg');
    var x := Off(t.pg, t.lv[L + 1], i) + j;
    assert t.lvl[u] == L + 1;
    forall M | 0 <= M < |t.lv| && M != L + 1
      ensures u !in t.lv[M]
    {
      NotOnLevel(t, u, M);
    }
    assert Tall(t') by {
      SetKeyLinks(t.pg, u, j, v);
      StackedFrame(t.pg, pg', t.lv);
    }
    SepRowDown(t, L + 1);
    assert StackedAt(t.pg, t.lv, L + 1);
    assert SepRow(t', L) == SepRow(t, L)[x := v] by {
      SepRowSkip(t, u, pg'[u], L + 1);
      SepsSetKey(t.pg, t.lv[L + 1], SepRow(t, L + 1), i, j, v);
    }
    SepRowDown(t, L);
    SepRowDown(t', L);
    DownSkip(t.pg, u, pg'[u], t.lv, L, SepRow(t', L));
    SepAtKid(t.pg, t.lv[L + 1], SepRow(t, L + 1), i, j);
    DownUpdate(t.pg, t.lv, L, SepRow(t, L), x, v);
  }

  lemma FillHole(pg: Pages, row: seq<int>, ss: seq<nat>, h: nat)
    requires LeafOrder(pg, row, ss, h) && SortedEnts(Ents(pg, row)) && 0 < h < |row|
    ensures EntsOf(pg, row[h]) != []
    ensures LeafOrder(pg, row, ss[h := FirstKey(pg, row[h])], NO_PAGE)
  {
    LeafEntsApart(pg, row, h - 1);
    var ss' := ss[h := FirstKey(pg, row[h])];
    forall k | 0 < k < |row|
      ensures SepFits(pg, row, k, ss'[k])
    {
      if k != h {
        assert SepFits(pg, row, k, ss[k]);
      }
    }
  }

  lemma LeafOrderFrame(pg: Pages, pg': Pages, row: seq<int>, ss: seq<nat>, h: int)
    requires LeafOrder(pg, row, ss, h)
    requires forall i :: 0 <= i < |row| ==> EntsOf(pg, row[i]) == EntsOf(pg', row[i])
    ensures LeafOrder(pg', row, ss, h)
  {
    forall k | 0 < k < |row| && k != h
      ensures SepFits(pg', row, k, ss[k])
    {
      assert SepFits(pg, row, k, ss[k]);
    }
  }

  lemma SetKeyLeaves(t: Tree, L: nat, i: nat, j: nat, v: nat)
    requires Shape(t) && L + 1 < |t.lv| && i < |t.lv[L + 1]|
    requires 0 < j <= |KeysOf(t.pg, t.lv[L + 1][i])|
    ensures Shape(t.(pg := SetKey(t.pg, t.lv[L + 1][i], j, v)))
    ensures forall k :: 0 <= k < |t.lv[0]| ==>
              EntsOf(t.pg, t.lv[0][k]) == EntsOf(SetKey(t.pg, t.lv[L + 1][i], j, v), t.lv[0][k])
  {
    SetKeyLinks(t.pg, t.lv[L + 1][i], j, v);
    ShapeFrame(t, SetKey(t.pg, t.lv[L + 1][i], j, v));
  }

  /** Repairing a stale separator with the smallest key under its page. */
  lemma RepairSep(t: Tree, L: nat, i: nat, j: nat, h: nat)
    requires Shape(t) && L + 1 < |t.lv| && i < |t.lv[L + 1]|
    requires 0 < j <= |KeysOf(t.pg, t.lv[L + 1][i])|
    requires h == LeafIdx(t.pg, t.lv, L, Off(t.pg, t.lv[L + 1], i) + j)
    requires Order(t, h) && 0 < h < |t.lv[0]|
    ensures EntsOf(t.pg, t.lv[0][h]) != []
    ensures var t' := t.(pg := SetKey(t.pg, t.lv[L + 1][i], j, FirstKey(t.pg, t.lv[0][h])));
            && Shape(t') && Order(t', NO_PAGE)
            && Ents(t'.pg, t.lv[0]) == Ents(t.pg, t.lv[0])
  {
    var row := t.lv[0];
    FillHole(t.pg, row, LeafSeps(t), h);
    var v := FirstKey(t.pg, row[h]);
    var pg' := SetKey(t.pg, t.lv[L + 1][i], j, v);
    SetKeyLeaves(t, L, i, j, v);
    EntsFrame(t.pg, pg', row);
    assert LeafSeps(t.(pg := pg')) == LeafSeps(t)[h := v] by {
      assert RowOK(t.pg, t.lv[L + 1], false);
      SetKeySeps(t, L, i, j, v);
    }
    LeafOrderFrame(t.pg, pg', row, LeafSeps(t)[h := v], NO_PAGE);
  }

  // ---- entries of leaves

  function SetEnts(pg: Pages, p: int, es: seq<Entry>): Pages
    requires p in pg && pg[p].Leaf?
  {
    pg[p := pg[p].(ents := es)]
  }

  /** Changing leaf entries leaves the shape and all separators alone. */
  lemma EntsOnlyFrame(t: Tree, pg': Pages)
    requires Shape(t) && SameLinks(t.pg, pg')
    requires forall p :: p in t.pg ==> KeysOf(t.pg, p) == KeysOf(pg', p)
    ensures Shape(t.(pg := pg'))
    ensures LeafSeps(t.(pg := pg')) == LeafSeps(t)
  {
    ShapeFrame(t, pg');
    forall M, i | 0 <= M < |t.lv| && 0 <= i < |t.lv[M]|
      ensures KeysOf(t.pg, t.lv[M][i]) == KeysOf(pg', t.lv[M][i])
    {
      assert t.lv[M][i] in t.lvl;
    }
    DownFrame(t.pg, pg', t.lv, t.lv, |t.lv| - 1, [0]);
  }

  lemma SetEntsRow(pg: Pages, row: seq<int>, i: nat, es: seq<Entry>)
    requires NoDup(row) && i < |row| && row[i] in pg && pg[row[i]].Leaf?
    ensures Ents(SetEnts(pg, row[i], es), row) == Ents(pg, row[..i]) + es + Ents(pg, row[i + 1..])
  {
    var pg' := SetEnts(pg, row[i], es);
    EntsAround(pg', row, i);
    NotInParts(row, i);
    EntsSkip(pg, row[i], pg'[row[i]], row[..i]);
    EntsSkip(pg, row[i], pg'[row[i]], row[i + 1..]);
  }

  lemma SetEntsLeaf(t: Tree, i: nat, es: seq<Entry>)
    requires Shape(t) && i < |t.lv[0]| && t.lv[0][i] in t.pg && t.pg[t.lv[0][i]].Leaf?
    ensures Shape(t.(pg := SetEnts(t.pg, t.lv[0][i], es)))
    ensures LeafSeps(t.(pg := SetEnts(t.pg, t.lv[0][i], es))) == LeafSeps(t)
    ensures Ents(SetEnts(t.pg, t.lv[0][i], es), t.lv[0])
         == Ents(t.pg, t.lv[0][..i]) + es + Ents(t.pg, t.lv[0][i + 1..])
  {
    EntsOnlyFrame(t, SetEnts(t.pg, t.lv[0][i], es));
    assert RowOK(t.pg, t.lv[0], true);
    SetEntsRow(t.pg, t.lv[0], i, es);
  }

  lemma InsertSorted(es: seq<Entry>, g: nat, e: Entry)
    requires SortedEnts(es) && g <= |es|
    requires g > 0 ==> es[g - 1].key < e.key
    requires g < |es| ==> e.key < es[g].key
    ensures SortedEnts(es[..g] + [e] + es[g..])
  {
    var r := es[..g] + [e] + es[g..];
    forall i, j | 0 <= i < j < |r|
      ensures r[i].key < r[j].key
    {
      var a := if i < g then i else i - 1;
      var b := if j < g then j else j - 1;
      if i == g {
        assert r[j] == es[b] && es[g].key <= es[b].key;
      } else if j == g {
        assert r[i] == es[a] && es[a].key <= es[g - 1].key;
      } else {
        assert r[i] == es[a] && r[j] == es[b];
      }
    }
  }

  /** The last entry before leaf `i` is below its separator, and the first entry after it is
      not below the next separator. */
  lemma EntsBeforeAfter(pg: Pages, row: seq<int>, ss: seq<nat>, i: nat)
    requires LeafOrder(pg, row, ss, NO_PAGE) && i < |row|
    ensures var a := Ents(pg, row[..i]); a != [] ==> a[|a| - 1].key < ss[i]
    ensures var c := Ents(pg, row[i + 1..]); c != [] ==> i + 1 < |row| && ss[i + 1] <= c[0].key
  {
    if i > 0 {
      assert row[..i] == row[..i - 1] + [row[i - 1]];
      EntsConcat(pg, row[..i - 1], [row[i - 1]]);
      assert [row[i - 1]][1..] == [];
      assert SepFits(pg, row, i, ss[i]);
      assert Ents(pg, row[..i]) == Ents(pg, row[..i - 1]) + EntsOf(pg, row[i - 1]);
    }
    if i + 1 < |row| {
      assert SepFits(pg, row, i + 1, ss[i + 1]);
    } else {
      assert row[i + 1..] == [];
    }
  }

  lemma InsertMiddle(a: seq<Entry>, es: seq<Entry>, c: seq<Entry>, pos: nat, e: Entry)
    requires pos <= |es|
    ensures var all := a + es + c;
            a + (es[..pos] + [e] + es[pos..]) + c == all[..|a| + pos] + [e] + all[|a| + pos..]
  {
  }

  lemma InsertMiddleSorted(a: seq<Entry>, es: seq<Entry>, c: seq<Entry>, pos: nat, e: Entry)
    requires SortedEnts(a + es + c) && pos <= |es|
    requires a != [] ==> a[|a| - 1].key < e.key
    requires c != [] ==> e.key < c[0].key
    requires pos > 0 ==> es[pos - 1].key < e.key
    requires pos < |es| ==> e.key < es[pos].key
    ensures SortedEnts(a + (es[..pos] + [e] + es[pos..]) + c)
  {
    var all, g := a + es + c, |a| + pos;
    assert g > 0 ==> all[g - 1] == if pos > 0 then es[pos - 1] else a[|a| - 1];
    assert g < |all| ==> all[g] == if pos < |es| then es[pos] else c[0];
    InsertSorted(all, g, e);
    InsertMiddle(a, es, c, pos, e);
  }

  /** Where an entry belongs in a row of leaves: leaf `i`, position `pos`. */
  ghost predicate Fits(pg: Pages, row: seq<int>, ss: seq<nat>, i: nat, pos: nat, k: nat)
    requires |ss| == |row|
  {
    && i < |row|
    && ss[i] <= k && (i + 1 < |row| ==> k < ss[i + 1])
    && pos <= |EntsOf(pg, row[i])|
    && (pos > 0 ==> EntsOf(pg, row[i])[pos - 1].key < k)
    && (pos < |EntsOf(pg, row[i])| ==> k < EntsOf(pg, row[i])[pos].key)
  }

  lemma InsertRow(pg: Pages, row: seq<int>, ss: seq<nat>, i: nat, pos: nat, e: Entry)
    requires LeafOrder(pg, row, ss, NO_PAGE) && SortedEnts(Ents(pg, row))
    requires Fits(pg, row, ss, i, pos, e.key)
    ensures var es := EntsOf(pg, row[i]);
            SortedEnts(Ents(pg, row[..i]) + (es[..pos] + [e] + es[pos..]) + Ents(pg, row[i + 1..]))
  {
    EntsAround(pg, row, i);
    EntsBeforeAfter(pg, row, ss, i);
    InsertMiddleSorted(Ents(pg, row[..i]), EntsOf(pg, row[i]), Ents(pg, row[i + 1..]), pos, e);
  }

  lemma InsertLeafOrder(pg: Pages, row: seq<int>, ss: seq<nat>, i: nat, pos: nat, e: Entry)
    requires LeafOrder(pg, row, ss, NO_PAGE) && NoDup(row)
    requires Fits(pg, row, ss, i, pos, e.key)
    requires row[i] in pg && pg[row[i]].Leaf?
    ensures var es := EntsOf(pg, row[i]);
            LeafOrder(SetEnts(pg, row[i], es[..pos] + [e] + es[pos..]), row, ss, NO_PAGE)
  {
    var es := EntsOf(pg, row[i]);
    var pg' := SetEnts(pg, row[i], es[..pos] + [e] + es[pos..]);
    forall k | 0 < k < |row|
      ensures SepFits(pg', row, k, ss[k])
    {
      assert SepFits(pg, row, k, ss[k]);
    }
  }

  /** Inserting an entry into the leaf its key is led to. */
  lemma InsertEntry(t: Tree, i: nat, pos: nat, e: Entry)
    requires Shape(t) && Order(t, NO_PAGE) && Fits(t.pg, t.lv[0], LeafSeps(t), i, pos, e.key)
    ensures var es := EntsOf(t.pg, t.lv[0][i]);
            var t' := t.(pg := SetEnts(t.pg, t.lv[0][i], es[..pos] + [e] + es[pos..]));
            && Shape(t') && Order(t', NO_PAGE)
            && Ents(t'.pg, t.lv[0]) == Ents(t.pg, t.lv[0][..i]) + (es[..pos] + [e] + es[pos..])
               + Ents(t.pg, t.lv[0][i + 1..])
  {
    var row := t.lv[0];
    var es := EntsOf(t.pg, row[i]);
    var es' := es[..pos] + [e] + es[pos..];
    assert RowOK(t.pg, row, true);
    SetEntsLeaf(t, i, es');
    assert SortedEnts(Ents(t.pg, row[..i]) + es' + Ents(t.pg, row[i + 1..])) by {
      InsertRow(t.pg, row, LeafSeps(t), i, pos, e);
    }
    InsertLeafOrder(t.pg, row, LeafSeps(t), i, pos, e);
  }

  lemma RemoveSorted(es: seq<Entry>, g: nat)
    requires SortedEnts(es) && g < |es|
    ensures SortedEnts(es[..g] + es[g + 1..])
  {
    var r := es[..g] + es[g + 1..];
    forall i, j | 0 <= i < j < |r|
      ensures r[i].key < r[j].key
    {
      assert r[i] == es[if i < g then i else i + 1] && r[j] == es[if j < g then j else j + 1];
    }
  }

  lemma RemoveMiddleSorted(a: seq<Entry>, es: seq<Entry>, c: seq<Entry>, pos: nat)
    requires SortedEnts(a + es + c) && pos < |es|
    ensures SortedEnts(a + (es[..pos] + es[pos + 1..]) + c)
  {
    var all, g := a + es + c, |a| + pos;
    RemoveSorted(all, g);
    assert a + (es[..pos] + es[pos + 1..]) + c == all[..g] + all[g + 1..];
  }

  lemma RemoveLeafOrder(pg: Pages, row: seq<int>, ss: seq<nat>, i: nat, pos: nat)
    requires LeafOrder(pg, row, ss, NO_PAGE) && SortedEnts(Ents(pg, row)) && NoDup(row)
    requires i < |row| && row[i] in pg && pg[row[i]].Leaf? && pos < |EntsOf(pg, row[i])|
    requires |row| > 1 ==> |EntsOf(pg, row[i])| > 1
    ensures var es := EntsOf(pg, row[i]);
            LeafOrder(SetEnts(pg, row[i], es[..pos] + es[pos + 1..]), row, ss, NO_PAGE)
  {
    var es := EntsOf(pg, row[i]);
    var pg' := SetEnts(pg, row[i], es[..pos] + es[pos + 1..]);
    LeafEntsSorted(pg, row, i);
    forall k | 0 < k < |row|
      ensures SepFits(pg', row, k, ss[k])
    {
      assert SepFits(pg, row, k, ss[k]);
    }
  }

  /** Removing one entry of a leaf that keeps at least one, or is the only leaf. */
  lemma RemoveEntry(t: Tree, i: nat, pos: nat)
    requires Shape(t) && Order(t, NO_PAGE) && i < |t.lv[0]|
    requires pos < |EntsOf(t.pg, t.lv[0][i])|
    requires |t.lv[0]| > 1 ==> |EntsOf(t.pg, t.lv[0][i])| > 1
    ensures var es := EntsOf(t.pg, t.lv[0][i]);
            var t' := t.(pg := SetEnts(t.pg, t.lv[0][i], es[..pos] + es[pos + 1..]));
            && Shape(t') && Order(t', NO_PAGE)
            && Ents(t'.pg, t.lv[0]) == Ents(t.pg, t.lv[0][..i]) + (es[..pos] + es[pos + 1..])
               + Ents(t.pg, t.lv[0][i + 1..])
  {
    var row := t.lv[0];
    var es := EntsOf(t.pg, row[i]);
    var es' := es[..pos] + es[pos + 1..];
    assert RowOK(t.pg, row, true);
    SetEntsLeaf(t, i, es');
    assert SortedEnts(Ents(t.pg, row[..i]) + es' + Ents(t.pg, row[i + 1..])) by {
      EntsAround(t.pg, row, i);
      RemoveMiddleSorted(Ents(t.pg, row[..i]), es, Ents(t.pg, row[i + 1..]), pos);
    }
    RemoveLeafOrder(t.pg, row, LeafSeps(t), i, pos);
  }
}
