/** Composite index keys: column-wise comparison and its image in the natural numbers. The
    tree modules work with that image. */
module IxKeys {
  import opened Common
  import opened IxFind

  /** The type of a key column: a 32-bit integer, a float or a string of fixed length. */
  datatype ColType = TInt | TFloat | TString(len: nat)

  /** A float is given by its place in the order of the floats, counted from zero. */
  datatype ColVal = IntVal(v: int) | FloatVal(place: int) | StrVal(bytes: seq<nat>)

  predicate HasType(c: ColVal, t: ColType) {
    match t
    case TInt => c.IntVal? && -0x8000_0000 <= c.v < 0x8000_0000
    case TFloat => c.FloatVal? && -0x8000_0000 <= c.place < 0x8000_0000
    case TString(len) => c.StrVal? && |c.bytes| == len && forall i :: 0 <= i < len ==> c.bytes[i] < 256
  }

  predicate HasTypes(key: seq<ColVal>, ts: seq<ColType>) {
    |key| == |ts| && forall i :: 0 <= i < |ts| ==> HasType(key[i], ts[i])
  }

  // ---- comparison, as `ix_compare` does it

  function Sign(a: int, b: int): int {
    if a < b then -1 else if a > b then 1 else 0
  }

  /** `memcmp`: the first differing byte decides. */
  function CompareBytes(a: seq<nat>, b: seq<nat>): (r: int)
    requires |a| == |b|
    ensures -1 <= r <= 1 && (r == 0 <==> a == b)
  {
    if a == [] then 0
    else if a[0] != b[0] then Sign(a[0], b[0])
    else
      assert a == [a[0]] + a[1..] && b == [b[0]] + b[1..];
      CompareBytes(a[1..], b[1..])
  }

  function CompareCol(a: ColVal, b: ColVal, t: ColType): int
    requires HasType(a, t) && HasType(b, t)
  {
    match t
    case TInt => Sign(a.v, b.v)
    case TFloat => Sign(a.place, b.place)
    case TString(_) => CompareBytes(a.bytes, b.bytes)
  }

  /** The comparison of the first `pre` columns. */
  function CompareKeys(a: seq<ColVal>, b: seq<ColVal>, ts: seq<ColType>, pre: nat): int
    requires HasTypes(a, ts) && HasTypes(b, ts) && pre <= |ts|
  {
    if pre == 0 then 0
    else
      var r := CompareKeys(a, b, ts, pre - 1);
      if r != 0 then r else CompareCol(a[pre - 1], b[pre - 1], ts[pre - 1])
  }

  // ---- the order of keys

  ghost predicate BytesBefore(a: seq<nat>, b: seq<nat>)
    requires |a| == |b|
  {
    exists k :: 0 <= k < |a| && a[..k] == b[..k] && a[k] < b[k]
  }

  ghost predicate ColBefore(a: ColVal, b: ColVal, t: ColType)
    requires HasType(a, t) && HasType(b, t)
  {
    match t
    case TInt => a.v < b.v
    case TFloat => a.place < b.place
    case TString(_) => BytesBefore(a.bytes, b.bytes)
  }

  /** Among the first `n` columns there is one in which `a` is smaller, and it is the first in which the two
      differ. */
  ghost predicate KeyBefore(a: seq<ColVal>, b: seq<ColVal>, ts: seq<ColType>, n: nat)
    requires HasTypes(a, ts) && HasTypes(b, ts) && n <= |ts|
  {
    exists c :: 0 <= c < n && a[..c] == b[..c] && ColBefore(a[c], b[c], ts[c])
  }

  lemma {:induction false} BytesMean(a: seq<nat>, b: seq<nat>)
    requires |a| == |b|
    ensures CompareBytes(a, b) < 0 <==> BytesBefore(a, b)
  {
    if a == [] {
    } else if a[0] != b[0] {
      if a[0] < b[0] {
        assert a[..0] == b[..0];
      }
      forall k | 0 < k < |a|
        ensures a[..k] != b[..k]
      {
        assert a[..k][0] != b[..k][0];
      }
    } else {
      BytesMean(a[1..], b[1..]);
      if BytesBefore(a[1..], b[1..]) {
        var k :| 0 <= k < |a[1..]| && a[1..][..k] == b[1..][..k] && a[1..][k] < b[1..][k];
        assert a[..k + 1] == [a[0]] + a[1..][..k] && b[..k + 1] == [b[0]] + b[1..][..k];
      }
      if BytesBefore(a, b) {
        var k :| 0 <= k < |a| && a[..k] == b[..k] && a[k] < b[k];
        assert a[1..][..k - 1] == a[..k][1..] && b[1..][..k - 1] == b[..k][1..];
        assert a[1..][k - 1] < b[1..][k - 1];
      }
    }
  }

  lemma ColMeans(a: ColVal, b: ColVal, t: ColType)
    requires HasType(a, t) && HasType(b, t)
    ensures CompareCol(a, b, t) < 0 <==> ColBefore(a, b, t)
    ensures CompareCol(a, b, t) == 0 <==> a == b
    ensures CompareCol(a, b, t) == -CompareCol(b, a, t)
  {
    if t.TString? {
      BytesMean(a.bytes, b.bytes);
      BytesTurn(a.bytes, b.bytes);
    }
  }

  lemma {:induction false} BytesTurn(a: seq<nat>, b: seq<nat>)
    requires |a| == |b|
    ensures CompareBytes(a, b) == -CompareBytes(b, a)
  {
    if a == [] {
    } else {
      BytesTurn(a[1..], b[1..]);
    }
  }

  /** The sign of the comparison says which key comes first in the leading columns. */
  lemma {:induction false} KeysMean(a: seq<ColVal>, b: seq<ColVal>, ts: seq<ColType>, n: nat)
    requires HasTypes(a, ts) && HasTypes(b, ts) && n <= |ts|
    ensures CompareKeys(a, b, ts, n) < 0 <==> KeyBefore(a, b, ts, n)
    ensures CompareKeys(a, b, ts, n) == 0 <==> a[..n] == b[..n]
    ensures CompareKeys(a, b, ts, n) == -CompareKeys(b, a, ts, n)
  {
    hide ColBefore, CompareCol, HasType;
    if n == 0 {
    } else {
      KeysMean(a, b, ts, n - 1);
      ColMeans(a[n - 1], b[n - 1], ts[n - 1]);
      ColMeans(b[n - 1], a[n - 1], ts[n - 1]);
      assert a[..n] == a[..n - 1] + [a[n - 1]] && b[..n] == b[..n - 1] + [b[n - 1]];
      if a[..n - 1] == b[..n - 1] {
        forall c | 0 <= c < n - 1
          ensures !ColBefore(a[c], b[c], ts[c])
        {
          assert a[c] == a[..n - 1][c] && b[c] == b[..n - 1][c];
          NotBeforeSelf(a[c], ts[c]);
        }
      }
    }
  }

  lemma NotBeforeSelf(a: ColVal, t: ColType)
    requires HasType(a, t)
    ensures !ColBefore(a, a, t)
  {
  }

  method IxCompare(a: seq<ColVal>, b: seq<ColVal>, ts: seq<ColType>, pre: nat) returns (r: int)
    requires HasTypes(a, ts) && HasTypes(b, ts) && pre <= |ts|
    ensures r == CompareKeys(a, b, ts, if pre > 0 then pre else |ts|)
    ensures var n := if pre > 0 then pre else |ts|;
            && (r < 0 <==> KeyBefore(a, b, ts, n)) && (r > 0 <==> KeyBefore(b, a, ts, n))
            && (r == 0 <==> a[..n] == b[..n])
  {
    var n := if pre > 0 then pre else |ts|;
    KeysMean(a, b, ts, n);
    KeysMean(b, a, ts, n);
    var i := 0;
    while i < n
      invariant i <= n && CompareKeys(a, b, ts, i) == 0
    {
      var res := CompareCol(a[i], b[i], ts[i]);
      if res != 0 {
        Decided(a, b, ts, i + 1, n);
        return res;
      }
      i := i + 1;
    }
    return 0;
  }

  /** Later columns do not change a decision. */
  lemma {:induction false} Decided(a: seq<ColVal>, b: seq<ColVal>, ts: seq<ColType>, i: nat, n: nat)
    requires HasTypes(a, ts) && HasTypes(b, ts) && i <= n <= |ts| && CompareKeys(a, b, ts, i) != 0
    ensures CompareKeys(a, b, ts, n) == CompareKeys(a, b, ts, i)
  {
    if i < n {
      Decided(a, b, ts, i, n - 1);
    }
  }

  // ---- keys as numbers

  /** How many values a column can take. */
  function Range(t: ColType): (r: nat)
    ensures r > 0
  {
    match t
    case TInt => 0x1_0000_0000
    case TFloat => 0x1_0000_0000
    case TString(len) => Pow256(len)
  }

  function BytesRank(bs: seq<nat>): nat {
    if bs == [] then 0 else bs[0] * Pow256(|bs| - 1) + BytesRank(bs[1..])
  }

  function Rank(c: ColVal, t: ColType): int
    requires HasType(c, t)
  {
    match t
    case TInt => c.v + 0x8000_0000
    case TFloat => c.place + 0x8000_0000
    case TString(_) => BytesRank(c.bytes)
  }

  function Ranges(ts: seq<ColType>): (r: nat)
    ensures r > 0
  {
    if ts == [] then 1 else
      MulPositive(Ranges(ts[..|ts| - 1]), Range(ts[|ts| - 1]));
      Ranges(ts[..|ts| - 1]) * Range(ts[|ts| - 1])
  }

  lemma MulPositive(x: int, y: int)
    requires x > 0 && y > 0
    ensures x * y > 0
  {
  }

  lemma {:induction false} BytesBelow(bs: seq<nat>)
    requires forall i :: 0 <= i < |bs| ==> bs[i] < 256
    ensures BytesRank(bs) < Pow256(|bs|)
  {
    if bs == [] {
    } else {
      BytesBelow(bs[1..]);
      MulUp(bs[0], 255, Pow256(|bs| - 1));
    }
  }

  /** Digit-wise comparison is comparison of numbers. */
  lemma DigitOrder(x: int, y: int, w: int, a: int, b: int)
    requires 0 <= a < w && 0 <= b < w
    ensures Sign(x * w + a, y * w + b) == if x != y then Sign(x, y) else Sign(a, b)
  {
    if x < y {
      assert (x + 1) * w <= y * w;
      assert (x + 1) * w == x * w + w;
    } else if y < x {
      assert (y + 1) * w <= x * w;
      assert (y + 1) * w == y * w + w;
    }
  }

  lemma {:induction false} BytesOrder(a: seq<nat>, b: seq<nat>)
    requires |a| == |b|
    requires (forall i :: 0 <= i < |a| ==> a[i] < 256) && (forall i :: 0 <= i < |b| ==> b[i] < 256)
    ensures CompareBytes(a, b) == Sign(BytesRank(a), BytesRank(b))
  {
    if a == [] {
    } else {
      BytesBelow(a[1..]);
      BytesBelow(b[1..]);
      BytesOrder(a[1..], b[1..]);
      DigitOrder(a[0], b[0], Pow256(|a| - 1), BytesRank(a[1..]), BytesRank(b[1..]));
    }
  }

  lemma RankOrder(a: ColVal, b: ColVal, t: ColType)
    requires HasType(a, t) && HasType(b, t)
    ensures 0 <= Rank(a, t) < Range(t)
    ensures CompareCol(a, b, t) == Sign(Rank(a, t), Rank(b, t))
  {
    if t.TString? {
      BytesBelow(a.bytes);
      BytesOrder(a.bytes, b.bytes);
    }
  }

  /** The number of a key: its columns are the digits. */
  function Code(key: seq<ColVal>, ts: seq<ColType>): (r: int)
    requires HasTypes(key, ts)
  {
    if ts == [] then 0 else
      var n := |ts| - 1;
      Code(key[..n], ts[..n]) * Range(ts[n]) + Rank(key[n], ts[n])
  }

  lemma CodeStep(key: seq<ColVal>, ts: seq<ColType>, n: nat)
    requires HasTypes(key, ts) && n < |ts|
    ensures HasTypes(key[..n], ts[..n]) && HasTypes(key[..n + 1], ts[..n + 1])
    ensures Code(key[..n + 1], ts[..n + 1]) == Code(key[..n], ts[..n]) * Range(ts[n]) + Rank(key[n], ts[n])
  {
    assert key[..n + 1][..n] == key[..n] && ts[..n + 1][..n] == ts[..n];
  }

  /** Comparing the leading columns of two keys is comparing the numbers of these columns. */
  lemma {:induction false} CodeOrder(a: seq<ColVal>, b: seq<ColVal>, ts: seq<ColType>, pre: nat)
    requires HasTypes(a, ts) && HasTypes(b, ts) && pre <= |ts|
    ensures Code(a[..pre], ts[..pre]) >= 0
    ensures CompareKeys(a, b, ts, pre) == Sign(Code(a[..pre], ts[..pre]), Code(b[..pre], ts[..pre]))
    ensures KeyBefore(a, b, ts, pre) <==> Code(a[..pre], ts[..pre]) < Code(b[..pre], ts[..pre])
  {
    if pre == 0 {
    } else {
      var n := pre - 1;
      CodeOrder(a, b, ts, n);
      CodeStep(a, ts, n);
      CodeStep(b, ts, n);
      RankOrder(a[n], b[n], ts[n]);
      RankOrder(b[n], a[n], ts[n]);
      MulNonNeg(Code(a[..n], ts[..n]), Range(ts[n]));
      DigitOrder(Code(a[..n], ts[..n]), Code(b[..n], ts[..n]), Range(ts[n]), Rank(a[n], ts[n]), Rank(b[n], ts[n]));
    }
    KeysMean(a, b, ts, pre);
  }

  lemma MulNonNeg(x: int, y: int)
    requires x >= 0 && y >= 0
    ensures x * y >= 0
  {
  }

  lemma DivDigit(x: int, w: int, a: int)
    requires 0 <= a < w && x >= 0
    ensures (x * w + a) / w == x
  {
    DivUnique(x * w + a, w, x, a);
  }

  lemma DivDiv(x: int, a: int, b: int)
    requires x >= 0 && a > 0 && b > 0
    ensures a * b > 0 && x / (a * b) == x / b / a
  {
    var q := x / b / a;
    var r1, r2 := x % b, (x / b) % a;
    assert x == (x / b) * b + r1 && x / b == q * a + r2;
    assert x == q * (a * b) + (r2 * b + r1) by {
      assert (q * a + r2) * b == q * (a * b) + r2 * b;
    }
    assert 0 <= r2 * b + r1 < a * b by {
      assert r2 * b <= (a - 1) * b;
      assert (a - 1) * b == a * b - b;
    }
    MulPositive(a, b);
    DivUnique(x, a * b, q, r2 * b + r1);
  }

  lemma DivUnique(x: int, w: int, q: int, r: int)
    requires w > 0 && 0 <= r < w && x == q * w + r
    ensures x / w == q
  {
    var p, m := x / w, x % w;
    assert x == p * w + m;
    DigitOrder(p, q, w, m, r);
  }

  /** Dropping the last columns of a key divides its number, so searching by a prefix of the
      columns is searching by the quotients. */
  lemma {:induction false} PrefixCode(key: seq<ColVal>, ts: seq<ColType>, pre: nat)
    requires HasTypes(key, ts) && pre <= |ts|
    ensures Code(key, ts) >= 0 && Ranges(ts[pre..]) > 0
    ensures HasTypes(key[..pre], ts[..pre])
    ensures Prefix(Code(key, ts), Ranges(ts[pre..])) == Code(key[..pre], ts[..pre])
  {
    hide Rank, Range, KeyBefore, CompareKeys, Code;
    CodeOrder(key, key, ts, |ts|);
    assert key[..|ts|] == key && ts[..|ts|] == ts;
    if pre == |ts| {
      assert ts[pre..] == [];
    } else {
      var n := |ts| - 1;
      CodeStep(key, ts, n);
      var k1, t1 := key[..n], ts[..n];
      PrefixCode(k1, t1, pre);
      assert k1[..pre] == key[..pre] && t1[..pre] == ts[..pre];
      assert ts[pre..][..|ts[pre..]| - 1] == t1[pre..];
      RankOrder(key[n], key[n], ts[n]);
      DivDigit(Code(k1, t1), Range(ts[n]), Rank(key[n], ts[n]));
      DivDiv(Code(key, ts), Ranges(t1[pre..]), Range(ts[n]));
    }
  }
}
