/** The pages of a B+ tree index file and the rows they form.

A level of the tree is a row of page numbers, left to right across parents. Expanding a
row (replacing every page by its children, or by its keys, or by its entries) is a
homomorphism for concatenation, so a cousin merge reads the same as a sibling merge. */
module IxLevels {
  import opened Common

  datatype Entry = Entry(key: nat, rid: Rid)

  /** An index page: the page header and the used part of its key and rid areas. */
  datatype Node =
    | Leaf(parent: int, prev: int, next: int, ents: seq<Entry>)
    | Inner(parent: int, prev: int, next: int, keys: seq<nat>, kids: seq<int>)
  {
    /** `get_size`: the number of keys in the page. */
    function Size(): nat {
      if Leaf? then |ents| else |keys|
    }

    /** How many rids the page holds: entries of a leaf, children of an inner page. */
    function Rids(): nat {
      if Leaf? then |ents| else |kids|
    }

    function KidList(): seq<int> {
      if Inner? then kids else []
    }

    function KeyList(): seq<nat> {
      if Inner? then keys else []
    }

    function EntList(): seq<Entry> {
      if Leaf? then ents else []
    }
  }

  type Pages = map<int, Node>

  function At(pg: Pages, p: int): Node {
    if p in pg then pg[p] else Leaf(NO_PAGE, NO_PAGE, NO_PAGE, [])
  }

  function KidsOf(pg: Pages, p: int): seq<int> {
    At(pg, p).KidList()
  }

  function KeysOf(pg: Pages, p: int): seq<nat> {
    At(pg, p).KeyList()
  }

  function EntsOf(pg: Pages, p: int): seq<Entry> {
    At(pg, p).EntList()
  }

  /** The children of a row, left to right. */
  ghost function Kids(pg: Pages, row: seq<int>): seq<int> {
    if row == [] then [] else KidsOf(pg, row[0]) + Kids(pg, row[1..])
  }

  /** The separators of the children of a row whose own separators are `ss`: the first
      child of a page inherits the separator of that page. */
  ghost function Seps(pg: Pages, row: seq<int>, ss: seq<nat>): seq<nat> {
    if row == [] || ss == [] then [] else [ss[0]] + KeysOf(pg, row[0]) + Seps(pg, row[1..], ss[1..])
  }

  /** The entries of a row of leaves, left to right. */
  ghost function Ents(pg: Pages, row: seq<int>): seq<Entry> {
    if row == [] then [] else EntsOf(pg, row[0]) + Ents(pg, row[1..])
  }

  lemma Assoc3<T>(a: seq<T>, b: seq<T>, c: seq<T>)
    ensures a + (b + c) == a + b + c
  {
  }

  lemma {:induction false} KidsConcat(pg: Pages, a: seq<int>, b: seq<int>)
    ensures Kids(pg, a + b) == Kids(pg, a) + Kids(pg, b)
  {
    if a == [] {
      assert a + b == b;
    } else {
      assert (a + b)[1..] == a[1..] + b;
      KidsConcat(pg, a[1..], b);
      Assoc3(KidsOf(pg, a[0]), Kids(pg, a[1..]), Kids(pg, b));
    }
  }

  lemma {:induction false} EntsConcat(pg: Pages, a: seq<int>, b: seq<int>)
    ensures Ents(pg, a + b) == Ents(pg, a) + Ents(pg, b)
  {
    if a == [] {
      assert a + b == b;
    } else {
      assert (a + b)[1..] == a[1..] + b;
      EntsConcat(pg, a[1..], b);
      Assoc3(EntsOf(pg, a[0]), Ents(pg, a[1..]), Ents(pg, b));
    }
  }

  lemma {:induction false} SepsConcat(pg: Pages, a: seq<int>, b: seq<int>, sa: seq<nat>, sb: seq<nat>)
    requires |a| == |sa|
    ensures Seps(pg, a + b, sa + sb) == Seps(pg, a, sa) + Seps(pg, b, sb)
  {
    if a == [] {
      assert a + b == b && sa + sb == sb;
    } else {
      assert (a + b)[1..] == a[1..] + b;
      assert (sa + sb)[1..] == sa[1..] + sb;
      SepsConcat(pg, a[1..], b, sa[1..], sb);
      Assoc3([sa[0]] + KeysOf(pg, a[0]), Seps(pg, a[1..], sa[1..]), Seps(pg, b, sb));
    }
  }

  lemma {:induction false} KidsFrame(pg: Pages, pg': Pages, row: seq<int>)
    requires forall i :: 0 <= i < |row| ==> KidsOf(pg, row[i]) == KidsOf(pg', row[i])
    ensures Kids(pg, row) == Kids(pg', row)
  {
    if row == [] {
    } else {
      assert forall i :: 0 <= i < |row[1..]| ==> row[1..][i] == row[i + 1];
      KidsFrame(pg, pg', row[1..]);
      assert KidsOf(pg, row[0]) == KidsOf(pg', row[0]);
    }
  }

  lemma {:induction false} EntsFrame(pg: Pages, pg': Pages, row: seq<int>)
    requires forall i :: 0 <= i < |row| ==> EntsOf(pg, row[i]) == EntsOf(pg', row[i])
    ensures Ents(pg, row) == Ents(pg', row)
  {
    if row == [] {
    } else {
      assert forall i :: 0 <= i < |row[1..]| ==> row[1..][i] == row[i + 1];
      EntsFrame(pg, pg', row[1..]);
      assert EntsOf(pg, row[0]) == EntsOf(pg', row[0]);
    }
  }

  lemma {:induction false} SepsFrame(pg: Pages, pg': Pages, row: seq<int>, ss: seq<nat>)
    requires forall i :: 0 <= i < |row| ==> KeysOf(pg, row[i]) == KeysOf(pg', row[i])
    ensures Seps(pg, row, ss) == Seps(pg', row, ss)
  {
    if row != [] && ss != [] {
      assert forall i :: 0 <= i < |row[1..]| ==> row[1..][i] == row[i + 1];
      SepsFrame(pg, pg', row[1..], ss[1..]);
      assert KeysOf(pg, row[0]) == KeysOf(pg', row[0]);
    }
  }

  /** Every page of the row is an inner page with one more child than keys. */
  ghost predicate InnerRow(pg: Pages, row: seq<int>) {
    forall i :: 0 <= i < |row| ==> |KidsOf(pg, row[i])| == |KeysOf(pg, row[i])| + 1
  }

  lemma {:induction false} SepsLen(pg: Pages, row: seq<int>, ss: seq<nat>)
    requires InnerRow(pg, row) && |ss| == |row|
    ensures |Seps(pg, row, ss)| == |Kids(pg, row)|
  {
    if row == [] {
    } else {
      assert forall i :: 0 <= i < |row[1..]| ==> row[1..][i] == row[i + 1];
      assert |KidsOf(pg, row[0])| == |KeysOf(pg, row[0])| + 1;
      SepsLen(pg, row[1..], ss[1..]);
    }
  }

  /** The position in the child row of the first child of the page at position `i`. */
  ghost function Off(pg: Pages, row: seq<int>, i: nat): nat
    requires i <= |row|
  {
    |Kids(pg, row[..i])|
  }

  /** The child row around one page. */
  lemma KidsAround(pg: Pages, row: seq<int>, i: nat)
    requires i < |row|
    ensures Kids(pg, row) == Kids(pg, row[..i]) + KidsOf(pg, row[i]) + Kids(pg, row[i + 1..])
  {
    assert row == row[..i] + row[i..];
    KidsConcat(pg, row[..i], row[i..]);
    var rest := row[i..];
    assert rest[0] == row[i] && rest[1..] == row[i + 1..];
    Assoc3(Kids(pg, row[..i]), KidsOf(pg, row[i]), Kids(pg, row[i + 1..]));
  }

  lemma EntsAround(pg: Pages, row: seq<int>, i: nat)
    requires i < |row|
    ensures Ents(pg, row) == Ents(pg, row[..i]) + EntsOf(pg, row[i]) + Ents(pg, row[i + 1..])
  {
    assert row == row[..i] + row[i..];
    EntsConcat(pg, row[..i], row[i..]);
    var rest := row[i..];
    assert rest[0] == row[i] && rest[1..] == row[i + 1..];
    Assoc3(Ents(pg, row[..i]), EntsOf(pg, row[i]), Ents(pg, row[i + 1..]));
  }

  lemma SepsAround(pg: Pages, row: seq<int>, ss: seq<nat>, i: nat)
    requires i < |row| == |ss|
    ensures Seps(pg, row, ss)
         == Seps(pg, row[..i], ss[..i]) + ([ss[i]] + KeysOf(pg, row[i])) + Seps(pg, row[i + 1..], ss[i + 1..])
  {
    assert row == row[..i] + row[i..];
    assert ss == ss[..i] + ss[i..];
    SepsConcat(pg, row[..i], row[i..], ss[..i], ss[i..]);
    var rest, rs := row[i..], ss[i..];
    assert rest[0] == row[i] && rest[1..] == row[i + 1..];
    assert rs[0] == ss[i] && rs[1..] == ss[i + 1..];
    Assoc3(Seps(pg, row[..i], ss[..i]), [ss[i]] + KeysOf(pg, row[i]), Seps(pg, row[i + 1..], ss[i + 1..]));
  }

  /** Where a page's own children sit in the child row. */
  lemma KidAt(pg: Pages, row: seq<int>, i: nat, j: nat)
    requires i < |row| && j < |KidsOf(pg, row[i])|
    ensures Off(pg, row, i) + j < |Kids(pg, row)|
    ensures Kids(pg, row)[Off(pg, row, i) + j] == KidsOf(pg, row[i])[j]
  {
    KidsAround(pg, row, i);
  }

  lemma OffBound(pg: Pages, row: seq<int>, i: nat)
    requires i <= |row|
    ensures Off(pg, row, i) <= |Kids(pg, row)|
    ensures i == |row| ==> Off(pg, row, i) == |Kids(pg, row)|
    ensures i == 0 ==> Off(pg, row, i) == 0
  {
    KidsConcat(pg, row[..i], row[i..]);
    assert row[..i] + row[i..] == row;
  }

  lemma OffNext(pg: Pages, row: seq<int>, i: nat)
    requires i < |row|
    ensures Off(pg, row, i + 1) == Off(pg, row, i) + |KidsOf(pg, row[i])|
  {
    assert row[..i + 1] == row[..i] + [row[i]];
    KidsConcat(pg, row[..i], [row[i]]);
    assert [row[i]][1..] == [];
  }

  lemma {:induction false} OffMono(pg: Pages, row: seq<int>, i: nat, k: nat)
    requires i < k <= |row| && InnerRow(pg, row)
    ensures Off(pg, row, i) < Off(pg, row, k)
    decreases k
  {
    OffNext(pg, row, k - 1);
    if i < k - 1 {
      OffMono(pg, row, i, k - 1);
    }
  }

  /** The separators of a page's own children. */
  lemma SepAtKid(pg: Pages, row: seq<int>, ss: seq<nat>, i: nat, j: nat)
    requires i < |row| == |ss| && InnerRow(pg, row) && j <= |KeysOf(pg, row[i])|
    ensures Off(pg, row, i) + j < |Seps(pg, row, ss)| == |Kids(pg, row)|
    ensures Seps(pg, row, ss)[Off(pg, row, i) + j] == if j == 0 then ss[i] else KeysOf(pg, row[i])[j - 1]
  {
    SepsAround(pg, row, ss, i);
    SepsLen(pg, row, ss);
    assert InnerRow(pg, row[..i]);
    SepsLen(pg, row[..i], ss[..i]);
  }

  /** The page of the row, and the child index in it, that a position of the child row comes from. */
  lemma {:induction false} Locate(pg: Pages, row: seq<int>, x: nat) returns (i: nat, j: nat)
    requires x < |Kids(pg, row)|
    ensures i < |row| && j < |KidsOf(pg, row[i])|
    ensures x == Off(pg, row, i) + j
    ensures Kids(pg, row)[x] == KidsOf(pg, row[i])[j]
  {
    i := 0;
    assert row[..0] == [];
    while i + 1 < |row| && Off(pg, row, i + 1) <= x
      invariant i < |row| && Off(pg, row, i) <= x
    {
      i := i + 1;
    }
    assert row[..|row|] == row;
    OffNext(pg, row, i);
    j := x - Off(pg, row, i);
    KidAt(pg, row, i, j);
  }

  /** The separators of level `L` carried down to the leaves. */
  ghost function Down(pg: Pages, lv: seq<seq<int>>, L: nat, ss: seq<nat>): seq<nat>
    requires L < |lv|
  {
    if L == 0 then ss else Down(pg, lv, L - 1, Seps(pg, lv[L], ss))
  }

  /** The position in the leaf row of the leftmost leaf under position `i` of level `L`. */
  ghost function LeafIdx(pg: Pages, lv: seq<seq<int>>, L: nat, i: nat): nat
    requires L < |lv|
  {
    if L == 0 || i > |lv[L]| then i else LeafIdx(pg, lv, L - 1, Off(pg, lv[L], i))
  }

  /** Each level lists the children of the level above. */
  ghost predicate Stacked(pg: Pages, lv: seq<seq<int>>) {
    forall L :: 0 < L < |lv| ==> StackedAt(pg, lv, L)
  }

  ghost predicate StackedAt(pg: Pages, lv: seq<seq<int>>, L: nat)
    requires 0 < L < |lv|
  {
    && InnerRow(pg, lv[L])
    && lv[L - 1] == Kids(pg, lv[L])
  }

  lemma {:induction false} DownLen(pg: Pages, lv: seq<seq<int>>, L: nat, ss: seq<nat>)
    requires L < |lv| && Stacked(pg, lv) && |ss| == |lv[L]|
    ensures |Down(pg, lv, L, ss)| == |lv[0]|
  {
    if L == 0 {
    } else {
      assert StackedAt(pg, lv, L);
      SepsLen(pg, lv[L], ss);
      DownLen(pg, lv, L - 1, Seps(pg, lv[L], ss));
    }
  }

  lemma {:induction false} DownFrame(pg: Pages, pg': Pages, lv: seq<seq<int>>, lv': seq<seq<int>>, L: nat, ss: seq<nat>)
    requires L < |lv| && L < |lv'|
    requires forall M :: 0 < M <= L ==> lv[M] == lv'[M]
    requires forall M, i :: 0 < M <= L && 0 <= i < |lv[M]| ==> KeysOf(pg, lv[M][i]) == KeysOf(pg', lv[M][i])
    ensures Down(pg, lv, L, ss) == Down(pg', lv', L, ss)
  {
    if L == 0 {
    } else {
      SepsFrame(pg, pg', lv[L], ss);
      DownFrame(pg, pg', lv, lv', L - 1, Seps(pg, lv[L], ss));
    }
  }

  lemma {:induction false} LeafIdxBound(pg: Pages, lv: seq<seq<int>>, L: nat, i: nat)
    requires L < |lv| && Stacked(pg, lv) && i <= |lv[L]|
    ensures LeafIdx(pg, lv, L, i) <= |lv[0]|
    ensures i == |lv[L]| ==> LeafIdx(pg, lv, L, i) == |lv[0]|
    ensures i == 0 ==> LeafIdx(pg, lv, L, i) == 0
  {
    if L == 0 {
    } else {
      assert StackedAt(pg, lv, L);
      OffBound(pg, lv[L], i);
      LeafIdxBound(pg, lv, L - 1, Off(pg, lv[L], i));
    }
  }

  lemma {:induction false} LeafIdxMono(pg: Pages, lv: seq<seq<int>>, L: nat, i: nat, k: nat)
    requires L < |lv| && Stacked(pg, lv) && i < k <= |lv[L]|
    ensures LeafIdx(pg, lv, L, i) < LeafIdx(pg, lv, L, k) <= |lv[0]|
  {
    LeafIdxBound(pg, lv, L, k);
    if L == 0 {
    } else {
      assert StackedAt(pg, lv, L);
      OffMono(pg, lv[L], i, k);
      OffBound(pg, lv[L], k);
      LeafIdxMono(pg, lv, L - 1, Off(pg, lv[L], i), Off(pg, lv[L], k));
    }
  }

  /** Two stacks with the same children from level `L` down place their leaves alike. */
  lemma {:induction false} LeafIdxFrame(pg: Pages, pg': Pages, lv: seq<seq<int>>, lv': seq<seq<int>>, L: nat, i: nat)
    requires L < |lv| && L < |lv'|
    requires forall M :: 0 < M <= L ==> lv[M] == lv'[M]
    requires forall M, i :: 0 < M <= L && 0 <= i < |lv[M]| ==> KidsOf(pg, lv[M][i]) == KidsOf(pg', lv[M][i])
    ensures LeafIdx(pg, lv, L, i) == LeafIdx(pg', lv', L, i)
  {
    if L > 0 && i <= |lv[L]| {
      assert forall x :: 0 <= x < i ==> lv[L][..i][x] == lv[L][x];
      KidsFrame(pg, pg', lv[L][..i]);
      LeafIdxFrame(pg, pg', lv, lv', L - 1, Off(pg, lv[L], i));
    }
  }

  /** A separator of level `L` is the separator of the leftmost leaf under its page. */
  lemma {:induction false} SepAtLeaf(pg: Pages, lv: seq<seq<int>>, L: nat, ss: seq<nat>, i: nat)
    requires L < |lv| && Stacked(pg, lv) && i < |ss| == |lv[L]|
    ensures |Down(pg, lv, L, ss)| == |lv[0]| && LeafIdx(pg, lv, L, i) < |lv[0]|
    ensures Down(pg, lv, L, ss)[LeafIdx(pg, lv, L, i)] == ss[i]
  {
    DownLen(pg, lv, L, ss);
    LeafIdxMono(pg, lv, L, i, i + 1);
    if L == 0 {
    } else {
      assert StackedAt(pg, lv, L);
      SepAtKid(pg, lv[L], ss, i, 0);
      SepAtLeaf(pg, lv, L - 1, Seps(pg, lv[L], ss), Off(pg, lv[L], i));
    }
  }

  lemma UpdateMiddle(a: seq<nat>, x: nat, k: seq<nat>, b: seq<nat>, v: nat)
    ensures (a + ([x] + k) + b)[|a| := v] == a + ([v] + k) + b
  {
  }

  lemma SepsUpdate(pg: Pages, row: seq<int>, ss: seq<nat>, i: nat, v: nat)
    requires i < |row| == |ss| && InnerRow(pg, row)
    ensures Off(pg, row, i) < |Seps(pg, row, ss)|
    ensures Seps(pg, row, ss[i := v]) == Seps(pg, row, ss)[Off(pg, row, i) := v]
  {
    SepsAround(pg, row, ss, i);
    SepsAround(pg, row, ss[i := v], i);
    assert ss[i := v][..i] == ss[..i] && ss[i := v][i + 1..] == ss[i + 1..];
    assert InnerRow(pg, row[..i]);
    SepsLen(pg, row[..i], ss[..i]);
    UpdateMiddle(Seps(pg, row[..i], ss[..i]), ss[i], KeysOf(pg, row[i]), Seps(pg, row[i + 1..], ss[i + 1..]), v);
  }

  /** Changing one separator of level `L` changes exactly one leaf separator. */
  lemma {:induction false} DownUpdate(pg: Pages, lv: seq<seq<int>>, L: nat, ss: seq<nat>, i: nat, v: nat)
    requires L < |lv| && Stacked(pg, lv) && i < |ss| == |lv[L]|
    ensures LeafIdx(pg, lv, L, i) < |Down(pg, lv, L, ss)|
    ensures Down(pg, lv, L, ss[i := v]) == Down(pg, lv, L, ss)[LeafIdx(pg, lv, L, i) := v]
  {
    SepAtLeaf(pg, lv, L, ss, i);
    if L == 0 {
    } else {
      assert StackedAt(pg, lv, L);
      SepsUpdate(pg, lv[L], ss, i, v);
      SepsLen(pg, lv[L], ss);
      DownUpdate(pg, lv, L - 1, Seps(pg, lv[L], ss), Off(pg, lv[L], i), v);
    }
  }

  /** The leftmost leaf under a page of level `L`, as `get_min_leafnode` finds it. */
  ghost function Leftmost(pg: Pages, L: nat, p: int): int {
    if L == 0 || KidsOf(pg, p) == [] then p else Leftmost(pg, L - 1, KidsOf(pg, p)[0])
  }

  lemma {:induction false} LeftmostIdx(pg: Pages, lv: seq<seq<int>>, L: nat, i: nat)
    requires L < |lv| && Stacked(pg, lv) && i < |lv[L]|
    ensures LeafIdx(pg, lv, L, i) < |lv[0]|
    ensures lv[0][LeafIdx(pg, lv, L, i)] == Leftmost(pg, L, lv[L][i])
  {
    LeafIdxMono(pg, lv, L, i, i + 1);
    if L == 0 {
    } else {
      assert StackedAt(pg, lv, L);
      assert |KidsOf(pg, lv[L][i])| == |KeysOf(pg, lv[L][i])| + 1;
      KidAt(pg, lv[L], i, 0);
      LeftmostIdx(pg, lv, L - 1, Off(pg, lv[L], i));
    }
  }
}
