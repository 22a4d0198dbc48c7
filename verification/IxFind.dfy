/** Searching a page and descending the tree, and the map an index denotes. */
module IxFind {
  import opened Common
  import opened IxLevels
  import opened IxShape
  import opened IxEdit

  // ---- searches inside one page (`lower_bound`, `upper_bound`)

  /** The leading columns of a key: a key is a fixed-width composite, and dropping its last
      columns drops a factor `w`. */
  function Prefix(k: nat, w: nat): nat
    requires w > 0
  {
    k / w
  }

  lemma PrefixMono(a: nat, b: nat, w: nat)
    requires a <= b && w > 0
    ensures Prefix(a, w) <= Prefix(b, w)
  {
    assert a == w * (a / w) + a % w && b == w * (b / w) + b % w;
    assert w * (b / w + 1) == w * (b / w) + w;
    MulCancel(w, a / w, b / w + 1);
  }

  lemma MulCancel(w: nat, x: nat, y: nat)
    requires w * x < w * y
    ensures x < y
  {
  }

  lemma PrefixRow(ks: seq<nat>, w: nat)
    requires SortedKeys(ks) && w > 0
    ensures forall i, j :: 0 <= i <= j < |ks| ==> Prefix(ks[i], w) <= Prefix(ks[j], w)
  {
    forall i, j | 0 <= i <= j < |ks|
      ensures Prefix(ks[i], w) <= Prefix(ks[j], w)
    {
      PrefixMono(ks[i], ks[j], w);
    }
  }

  /** The first key whose prefix is not below the target's. */
  method LowerBound(ks: seq<nat>, target: nat, w: nat) returns (r: nat)
    requires SortedKeys(ks) && w > 0
    ensures r <= |ks|
    ensures forall i :: 0 <= i < r ==> Prefix(ks[i], w) < Prefix(target, w)
    ensures forall i :: r <= i < |ks| ==> Prefix(ks[i], w) >= Prefix(target, w)
  {
    PrefixRow(ks, w);
    if |ks| == 0 {
      return 0;
    }
    var lo, hi := 0, |ks| - 1;
    while lo < hi
      invariant 0 <= lo <= hi < |ks|
      invariant forall i :: 0 <= i < lo ==> Prefix(ks[i], w) < Prefix(target, w)
      invariant forall i :: hi < i < |ks| ==> Prefix(ks[i], w) >= Prefix(target, w)
      invariant hi == |ks| - 1 || Prefix(ks[hi], w) >= Prefix(target, w)
    {
      var mid := (lo + hi) / 2;
      if Prefix(ks[mid], w) < Prefix(target, w) {
        lo := mid + 1;
      } else {
        hi := mid;
      }
    }
    if Prefix(ks[hi], w) >= Prefix(target, w) {
      return hi;
    }
    return |ks|;
  }

  /** The first key whose prefix is above the target's. */
  method UpperBound(ks: seq<nat>, target: nat, w: nat) returns (r: nat)
    requires SortedKeys(ks) && w > 0
    ensures r <= |ks|
    ensures forall i :: 0 <= i < r ==> Prefix(ks[i], w) <= Prefix(target, w)
    ensures forall i :: r <= i < |ks| ==> Prefix(ks[i], w) > Prefix(target, w)
  {
    PrefixRow(ks, w);
    if |ks| == 0 {
      return 0;
    }
    var lo, hi := 0, |ks| - 1;
    while lo < hi
      invariant 0 <= lo <= hi < |ks|
      invariant forall i :: 0 <= i < lo ==> Prefix(ks[i], w) <= Prefix(target, w)
      invariant forall i :: hi < i < |ks| ==> Prefix(ks[i], w) > Prefix(target, w)
      invariant hi == |ks| - 1 || Prefix(ks[hi], w) > Prefix(target, w)
    {
      var mid := (lo + hi) / 2;
      if Prefix(ks[mid], w) <= Prefix(target, w) {
        lo := mid + 1;
      } else {
        hi := mid;
      }
    }
    if Prefix(ks[hi], w) > Prefix(target, w) {
      return hi;
    }
    return |ks|;
  }

  /** The rank of a child among the children of its parent (`find_child`). */
  method FindChild(kids: seq<int>, p: int) returns (j: nat)
    requires p in kids
    ensures j < |kids| && kids[j] == p
    ensures forall i :: 0 <= i < j ==> kids[i] != p
  {
    j := 0;
    while j < |kids|
      invariant j <= |kids|
      invariant forall i :: 0 <= i < j ==> kids[i] != p
    {
      if kids[j] == p {
        return;
      }
      j := j + 1;
    }
  }

  // ---- the map that a sorted row of entries denotes

  ghost function MapOf(es: seq<Entry>): map<nat, Rid> {
    if es == [] then map[] else MapOf(es[..|es| - 1])[es[|es| - 1].key := es[|es| - 1].rid]
  }

  lemma {:induction false} MapConcat(a: seq<Entry>, b: seq<Entry>)
    ensures MapOf(a + b) == MapOf(a) + MapOf(b)
  {
    if b == [] {
      assert a + b == a;
    } else {
      var n := |b| - 1;
      assert (a + b)[..|a + b| - 1] == a + b[..n];
      MapConcat(a, b[..n]);
    }
  }

  lemma {:induction false} MapHas(es: seq<Entry>, k: nat)
    ensures k in MapOf(es) <==> exists i :: 0 <= i < |es| && es[i].key == k
  {
    if es == [] {
    } else {
      var n := |es| - 1;
      MapHas(es[..n], k);
      if i :| 0 <= i < |es| && es[i].key == k {
        if i < n {
          assert es[..n][i].key == k;
        }
      }
      if k in MapOf(es[..n]) {
        var i :| 0 <= i < n && es[..n][i].key == k;
        assert es[i].key == k;
      }
      assert es[n].key == k || k != es[n].key;
    }
  }

  lemma MapSides(a: seq<Entry>, e: Entry, b: seq<Entry>)
    requires SortedEnts(a + [e] + b)
    ensures e.key !in MapOf(a) && e.key !in MapOf(b)
  {
    var es := a + [e] + b;
    MapHas(a, e.key);
    MapHas(b, e.key);
    assert es[|a|] == e;
    forall i | 0 <= i < |a|
      ensures a[i].key != e.key
    {
      assert es[i] == a[i];
    }
    forall i | 0 <= i < |b|
      ensures b[i].key != e.key
    {
      assert es[|a| + 1 + i] == b[i];
    }
  }

  lemma MapMiddle(a: seq<Entry>, e: Entry, b: seq<Entry>)
    requires SortedEnts(a + [e] + b)
    ensures e.key !in MapOf(a + b)
    ensures MapOf(a + [e] + b) == MapOf(a + b)[e.key := e.rid]
    ensures MapOf(a + b) == MapOf(a + [e] + b) - {e.key}
  {
    hide SortedEnts;
    MapSides(a, e, b);
    MapConcat(a, b);
    MapConcat(a, [e]);
    MapConcat(a + [e], b);
    assert MapOf([e]) == map[e.key := e.rid] by {
      assert [e][..0] == [];
    }
  }

  lemma MapAt(es: seq<Entry>, i: nat)
    requires SortedEnts(es) && i < |es|
    ensures es[i].key in MapOf(es) && MapOf(es)[es[i].key] == es[i].rid
  {
    assert es == es[..i] + [es[i]] + es[i + 1..];
    MapMiddle(es[..i], es[i], es[i + 1..]);
  }

  // ---- the descent

  /** The search for `key` passes through position `i` of level `L`. */
  ghost predicate Covers(t: Tree, L: nat, i: nat, key: nat) {
    && L < |t.lv| && i < |t.lv[L]| == |SepRow(t, L)|
    && SepRow(t, L)[i] <= key
    && (i + 1 < |t.lv[L]| ==> key < SepRow(t, L)[i + 1])
  }

  lemma CoversRoot(t: Tree, key: nat)
    requires Shape(t)
    ensures Covers(t, |t.lv| - 1, 0, key)
  {
  }

  /** One step of the descent (`internal_lookup`). */
  lemma DescendStep(t: Tree, L: nat, i: nat, ks: seq<nat>, key: nat, j: nat)
    requires Shape(t) && Covers(t, L + 1, i, key) && ks == KeysOf(t.pg, t.lv[L + 1][i])
    requires j <= |ks|
    requires forall x :: 0 <= x < j ==> ks[x] <= key
    requires forall x :: j <= x < |ks| ==> key < ks[x]
    ensures |KidsOf(t.pg, t.lv[L + 1][i])| == |ks| + 1
    ensures Covers(t, L, Off(t.pg, t.lv[L + 1], i) + j, key)
    ensures t.lv[L][Off(t.pg, t.lv[L + 1], i) + j] == KidsOf(t.pg, t.lv[L + 1][i])[j]
  {
    hide Kids, Seps, LevelsOK, ParentsOK;
    var row := t.lv[L + 1];
    assert StackedAt(t.pg, t.lv, L + 1);
    assert RowOK(t.pg, row, false);
    KidAt(t.pg, row, i, j);
    KeysInSepRow(t, L, i, j);
    if j < |ks| {
      KeysInSepRow(t, L, i, j + 1);
    } else {
      OffNext(t.pg, row, i);
      if i + 1 < |row| {
        KeysInSepRow(t, L, i + 1, 0);
      } else {
        assert row[..i + 1] == row;
      }
    }
  }

  lemma NotBelow(a: seq<Entry>, key: nat)
    requires SortedEnts(a) && (a != [] ==> a[|a| - 1].key < key || key < a[0].key)
    ensures key !in MapOf(a)
  {
    MapHas(a, key);
    forall i | 0 <= i < |a|
      ensures a[i].key != key
    {
      assert a[0].key <= a[i].key <= a[|a| - 1].key;
    }
  }

  lemma SortedParts(a: seq<Entry>, b: seq<Entry>, c: seq<Entry>)
    requires SortedEnts(a + b + c)
    ensures SortedEnts(a) && SortedEnts(b) && SortedEnts(c)
  {
    var es := a + b + c;
    assert a == es[..|a|] && b == es[|a|..|a| + |b|] && c == es[|a| + |b|..];
  }

  /** Keys elsewhere in the leaf row are below or above the key searched for. */
  lemma OnlyHere(t: Tree, i: nat, key: nat)
    requires Shape(t) && Order(t, NO_PAGE) && Covers(t, 0, i, key)
    ensures SortedEnts(EntsOf(t.pg, t.lv[0][i]))
    ensures key in MapOf(Ents(t.pg, t.lv[0])) <==> key in MapOf(EntsOf(t.pg, t.lv[0][i]))
    ensures key in MapOf(Ents(t.pg, t.lv[0])) ==>
            MapOf(Ents(t.pg, t.lv[0]))[key] == MapOf(EntsOf(t.pg, t.lv[0][i]))[key]
  {
    hide Kids, Seps, RowOK, LevelsOK, ParentsOK, Ents, MapOf;
    var row := t.lv[0];
    SepRowDown(t, 0);
    EntsAround(t.pg, row, i);
    EntsBeforeAfter(t.pg, row, LeafSeps(t), i);
    var a, b, c := Ents(t.pg, row[..i]), EntsOf(t.pg, row[i]), Ents(t.pg, row[i + 1..]);
    SortedParts(a, b, c);
    NotBelow(a, key);
    NotBelow(c, key);
    MapConcat(a, b);
    MapConcat(a + b, c);
  }
}
