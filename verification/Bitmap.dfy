/** The slot bitmap of a heap page, bit by bit in bytes. */
module Bitmap {
  const WIDTH: nat := 8

  /** The bit of a position within its byte: the highest bit comes first. */
  function BitOf(r: nat): bv8
    requires r < WIDTH
  {
    match r
    case 0 => 0x80
    case 1 => 0x40
    case 2 => 0x20
    case 3 => 0x10
    case 4 => 0x08
    case 5 => 0x04
    case 6 => 0x02
    case _ => 0x01
  }

  lemma HighestFirst(r: nat)
    requires r < WIDTH
    ensures BitOf(r) == (0x80 as bv8) >> r
  {
    match r
    case 0 => assert (0x80 as bv8) >> 0 == 0x80;
    case 1 => assert (0x80 as bv8) >> 1 == 0x40;
    case 2 => assert (0x80 as bv8) >> 2 == 0x20;
    case 3 => assert (0x80 as bv8) >> 3 == 0x10;
    case 4 => assert (0x80 as bv8) >> 4 == 0x08;
    case 5 => assert (0x80 as bv8) >> 5 == 0x04;
    case 6 => assert (0x80 as bv8) >> 6 == 0x02;
    case _ => assert (0x80 as bv8) >> 7 == 0x01;
  }

  predicate Has(b: bv8, r: nat)
    requires r < WIDTH
  {
    b & BitOf(r) != 0
  }

  lemma SetOne(b: bv8, r: nat, s: nat)
    requires r < WIDTH && s < WIDTH
    ensures Has(b | BitOf(r), s) <==> s == r || Has(b, s)
  {
    BitsApart(r, s);
    if r == s {
      OrSame(b, BitOf(r));
    } else {
      OrOther(b, BitOf(r), BitOf(s));
    }
  }

  lemma OrSame(b: bv8, x: bv8)
    ensures (b | x) & x == x
  {
  }

  lemma OrOther(b: bv8, x: bv8, y: bv8)
    requires x & y == 0
    ensures (b | x) & y == b & y
  {
  }

  lemma BitsApart(r: nat, s: nat)
    requires r < WIDTH && s < WIDTH
    ensures BitOf(r) & BitOf(s) != 0 <==> r == s
  {
  }

  lemma ClearOne(b: bv8, r: nat, s: nat)
    requires r < WIDTH && s < WIDTH
    ensures Has(b & !BitOf(r), s) <==> s != r && Has(b, s)
  {
    BitsApart(r, s);
    if r == s {
      AndNotSame(b, BitOf(r));
    } else {
      AndNotOther(b, BitOf(r), BitOf(s));
    }
  }

  lemma AndNotSame(b: bv8, x: bv8)
    ensures (b & !x) & x == 0
  {
  }

  lemma AndNotOther(b: bv8, x: bv8, y: bv8)
    requires x & y == 0
    ensures (b & !x) & y == b & y
  {
  }

  predicate IsSet(bm: seq<bv8>, pos: nat)
    requires pos < |bm| * WIDTH
  {
    Has(bm[pos / WIDTH], pos % WIDTH)
  }

  function SetBit(bm: seq<bv8>, pos: nat): (r: seq<bv8>)
    requires pos < |bm| * WIDTH
    ensures |r| == |bm|
  {
    bm[pos / WIDTH := bm[pos / WIDTH] | BitOf(pos % WIDTH)]
  }

  function ResetBit(bm: seq<bv8>, pos: nat): (r: seq<bv8>)
    requires pos < |bm| * WIDTH
    ensures |r| == |bm|
  {
    bm[pos / WIDTH := bm[pos / WIDTH] & !BitOf(pos % WIDTH)]
  }

  /** Setting a bit changes that position and no other. */
  lemma SetAt(bm: seq<bv8>, pos: nat, q: nat)
    requires pos < |bm| * WIDTH && q < |bm| * WIDTH
    ensures IsSet(SetBit(bm, pos), q) <==> q == pos || IsSet(bm, q)
  {
    hide BitOf, Has;
    if q / WIDTH == pos / WIDTH {
      SetOne(bm[pos / WIDTH], pos % WIDTH, q % WIDTH);
    }
  }

  /** Resetting a bit changes that position and no other. */
  lemma ResetAt(bm: seq<bv8>, pos: nat, q: nat)
    requires pos < |bm| * WIDTH && q < |bm| * WIDTH
    ensures IsSet(ResetBit(bm, pos), q) <==> q != pos && IsSet(bm, q)
  {
    hide BitOf, Has;
    if q / WIDTH == pos / WIDTH {
      ClearOne(bm[pos / WIDTH], pos % WIDTH, q % WIDTH);
    }
  }

  /** The next position after `curr` whose bit is as asked, or `maxN`. */
  method NextBit(bit: bool, bm: seq<bv8>, maxN: nat, curr: int) returns (i: nat)
    requires maxN <= |bm| * WIDTH && -1 <= curr < maxN
    ensures curr < i <= maxN
    ensures i < maxN ==> IsSet(bm, i) == bit
    ensures forall q: nat :: curr < q < i ==> IsSet(bm, q) != bit
  {
    hide IsSet;
    i := curr + 1;
    while i < maxN
      invariant curr < i <= maxN
      invariant forall q: nat :: curr < q < i ==> IsSet(bm, q) != bit
    {
      if IsSet(bm, i) == bit {
        return;
      }
      i := i + 1;
    }
  }

  /** The number of bits set among the first `n`. */
  function Count(bm: seq<bv8>, n: nat): (c: nat)
    requires n <= |bm| * WIDTH
    ensures c <= n
  {
    if n == 0 then 0 else Count(bm, n - 1) + (if IsSet(bm, n - 1) then 1 else 0)
  }

  lemma {:induction false} CountSame(bm: seq<bv8>, cm: seq<bv8>, n: nat)
    requires n <= |bm| * WIDTH && |cm| == |bm|
    requires forall q: nat :: q < n ==> IsSet(bm, q) == IsSet(cm, q)
    ensures Count(bm, n) == Count(cm, n)
  {
    if n == 0 {
    } else {
      assert IsSet(bm, n - 1) == IsSet(cm, n - 1);
      CountSame(bm, cm, n - 1);
    }
  }

  lemma {:induction false} CountOneMore(bm: seq<bv8>, cm: seq<bv8>, pos: nat, n: nat)
    requires pos < n <= |bm| * WIDTH && |cm| == |bm|
    requires forall q: nat :: q < n ==> (IsSet(cm, q) <==> q == pos || IsSet(bm, q))
    requires !IsSet(bm, pos)
    ensures Count(cm, n) == Count(bm, n) + 1
  {
    if pos == n - 1 {
      CountSame(bm, cm, n - 1);
    } else {
      CountOneMore(bm, cm, pos, n - 1);
      assert IsSet(cm, n - 1) <==> IsSet(bm, n - 1);
    }
  }

  lemma CountSet(bm: seq<bv8>, pos: nat, n: nat)
    requires pos < n <= |bm| * WIDTH && !IsSet(bm, pos)
    ensures Count(SetBit(bm, pos), n) == Count(bm, n) + 1
  {
    hide IsSet, SetBit;
    forall q: nat | q < n
      ensures IsSet(SetBit(bm, pos), q) <==> q == pos || IsSet(bm, q)
    {
      SetAt(bm, pos, q);
    }
    CountOneMore(bm, SetBit(bm, pos), pos, n);
  }

  lemma CountReset(bm: seq<bv8>, pos: nat, n: nat)
    requires pos < n <= |bm| * WIDTH && IsSet(bm, pos)
    ensures Count(bm, n) == Count(ResetBit(bm, pos), n) + 1
  {
    hide IsSet, ResetBit;
    forall q: nat | q < n
      ensures IsSet(bm, q) <==> q == pos || IsSet(ResetBit(bm, pos), q)
    {
      ResetAt(bm, pos, q);
    }
    ResetAt(bm, pos, pos);
    CountOneMore(ResetBit(bm, pos), bm, pos, n);
  }

  /** A count below `n` means that some bit is clear. */
  lemma {:induction false} CountFull(bm: seq<bv8>, n: nat)
    requires n <= |bm| * WIDTH
    ensures Count(bm, n) == n <==> forall q: nat :: q < n ==> IsSet(bm, q)
  {
    hide IsSet;
    if n == 0 {
    } else {
      CountFull(bm, n - 1);
    }
  }

  function Zeros(size: nat): (bm: seq<bv8>)
    ensures |bm| == size
    ensures forall k :: 0 <= k < size ==> bm[k] == 0
  {
    seq(size, _ => 0)
  }

  lemma ZeroClear(size: nat, q: nat)
    requires q < size * WIDTH
    ensures !IsSet(Zeros(size), q)
  {
    assert Zeros(size)[q / WIDTH] == 0;
  }

  lemma {:induction false} ZeroCount(size: nat, n: nat)
    requires n <= size * WIDTH
    ensures Count(Zeros(size), n) == 0
  {
    hide IsSet;
    if n == 0 {
    } else {
      ZeroClear(size, n - 1);
      ZeroCount(size, n - 1);
    }
  }
}
