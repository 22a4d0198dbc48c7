/** The sort executor: sorted runs, pairwise merging, and reading back with a limit. */
module ExternalSort {
  /** How many tuples a buffer holds. */
  const STEP: nat := 2000

  /** A tuple: the values of its sort columns, and the rest of it. */
  datatype Tuple = Tuple(keys: seq<int>, row: int)

  ghost predicate Keyed(desc: seq<bool>, s: seq<Tuple>) {
    forall i :: 0 <= i < |s| ==> |s[i].keys| == |desc|
  }

  // ---- the order

  /** `a` comes strictly before `b`, looking at the columns from `i` on. */
  predicate Less(desc: seq<bool>, a: Tuple, b: Tuple, i: nat)
    requires |a.keys| == |b.keys| == |desc| && i <= |desc|
    decreases |desc| - i
  {
    if i == |desc| then false
    else if a.keys[i] > b.keys[i] then desc[i]
    else if a.keys[i] < b.keys[i] then !desc[i]
    else Less(desc, a, b, i + 1)
  }

  ghost predicate AtMost(desc: seq<bool>, a: Tuple, b: Tuple)
    requires |a.keys| == |b.keys| == |desc|
  {
    !Less(desc, b, a, 0)
  }

  // ---- what ORDER BY asks for

  /** `c` is the first column in which the two differ, and there `a` has the value that comes first: the
      smaller one, or the larger one if the column is descending. */
  ghost predicate BeforeAt(desc: seq<bool>, a: Tuple, b: Tuple, c: nat)
    requires |a.keys| == |b.keys| == |desc| && c < |desc|
  {
    && (forall k :: 0 <= k < c ==> a.keys[k] == b.keys[k])
    && if desc[c] then a.keys[c] > b.keys[c] else a.keys[c] < b.keys[c]
  }

  ghost predicate Before(desc: seq<bool>, a: Tuple, b: Tuple)
    requires |a.keys| == |b.keys| == |desc|
  {
    exists c: nat :: c < |desc| && BeforeAt(desc, a, b, c)
  }

  /** `a` may stand in front of `b`. */
  ghost predicate InOrder(desc: seq<bool>, a: Tuple, b: Tuple)
    requires |a.keys| == |b.keys| == |desc|
  {
    a.keys == b.keys || Before(desc, a, b)
  }

  lemma {:induction false} LessFrom(desc: seq<bool>, a: Tuple, b: Tuple, i: nat)
    requires |a.keys| == |b.keys| == |desc| && i <= |desc| && forall k :: 0 <= k < i ==> a.keys[k] == b.keys[k]
    ensures Less(desc, a, b, i) <==> Before(desc, a, b)
    decreases |desc| - i
  {
    if i == |desc| {
      assert a.keys == b.keys;
    } else if a.keys[i] == b.keys[i] {
      LessFrom(desc, a, b, i + 1);
    } else {
      assert Less(desc, a, b, i) <==> BeforeAt(desc, a, b, i);
      forall c: nat | c < |desc| && BeforeAt(desc, a, b, c)
        ensures c == i
      {
      }
    }
  }

  /** One of three: in order one way only, the other way only, or all keys equal. */
  lemma LessMeans(desc: seq<bool>, a: Tuple, b: Tuple)
    requires |a.keys| == |b.keys| == |desc|
    ensures Less(desc, a, b, 0) <==> Before(desc, a, b)
    ensures AtMost(desc, a, b) <==> InOrder(desc, a, b)
  {
    LessFrom(desc, a, b, 0);
    LessFrom(desc, b, a, 0);
    if a.keys != b.keys {
      var i := FirstDifference(a.keys, b.keys);
      assert BeforeAt(desc, a, b, i) || BeforeAt(desc, b, a, i);
    }
    LessAsym(desc, a, b, 0);
  }

  lemma {:induction false} FirstDifference(s: seq<int>, t: seq<int>) returns (i: nat)
    requires |s| == |t| && s != t
    ensures i < |s| && s[i] != t[i] && forall k :: 0 <= k < i ==> s[k] == t[k]
    decreases |s|
  {
    if s[0] != t[0] {
      i := 0;
    } else {
      var j := FirstDifference(s[1..], t[1..]);
      i := j + 1;
      assert forall k :: 0 < k < i ==> s[k] == s[1..][k - 1] && t[k] == t[1..][k - 1];
    }
  }

  // ---- the comparisons

  /** The comparison used for sorting runs. */
  method CmpRecord(desc: seq<bool>, a: Tuple, b: Tuple) returns (r: bool)
    requires |a.keys| == |b.keys| == |desc|
    ensures r == Less(desc, a, b, 0) && (r <==> Before(desc, a, b))
  {
    LessMeans(desc, a, b);
    var i := 0;
    while i < |desc|
      invariant i <= |desc| && Less(desc, a, b, 0) == Less(desc, a, b, i)
    {
      if a.keys[i] > b.keys[i] {
        return desc[i];
      } else if a.keys[i] < b.keys[i] {
        return !desc[i];
      }
      i := i + 1;
    }
    return false;
  }

  /** The comparison used for merging: it also lets ties pass. */
  method CmpRawData(desc: seq<bool>, a: Tuple, b: Tuple) returns (r: bool)
    requires |a.keys| == |b.keys| == |desc|
    ensures r == AtMost(desc, a, b) && (r <==> InOrder(desc, a, b))
  {
    LessMeans(desc, a, b);
    var i := 0;
    while i < |desc|
      invariant i <= |desc| && Less(desc, b, a, 0) == Less(desc, b, a, i)
    {
      if a.keys[i] > b.keys[i] {
        return desc[i];
      } else if a.keys[i] < b.keys[i] {
        return !desc[i];
      }
      i := i + 1;
    }
    return true;
  }

  lemma {:induction false} LessAsym(desc: seq<bool>, a: Tuple, b: Tuple, i: nat)
    requires |a.keys| == |b.keys| == |desc| && i <= |desc|
    ensures !(Less(desc, a, b, i) && Less(desc, b, a, i))
    decreases |desc| - i
  {
    if i < |desc| {
      LessAsym(desc, a, b, i + 1);
    }
  }

  /** Not being before is transitive: the order is total up to ties. */
  lemma {:induction false} LessTrans(desc: seq<bool>, a: Tuple, b: Tuple, c: Tuple, i: nat)
    requires |a.keys| == |b.keys| == |c.keys| == |desc| && i <= |desc|
    ensures !Less(desc, b, a, i) && !Less(desc, c, b, i) ==> !Less(desc, c, a, i)
    decreases |desc| - i
  {
    if i < |desc| {
      LessTrans(desc, a, b, c, i + 1);
    }
  }

  ghost predicate Sorted(desc: seq<bool>, s: seq<Tuple>)
    requires Keyed(desc, s)
  {
    forall i, j :: 0 <= i < j < |s| ==> AtMost(desc, s[i], s[j])
  }

  lemma SortedMeans(desc: seq<bool>, s: seq<Tuple>)
    requires Keyed(desc, s) && Sorted(desc, s)
    ensures forall i, j :: 0 <= i < j < |s| ==> InOrder(desc, s[i], s[j])
  {
    forall i, j | 0 <= i < j < |s|
      ensures InOrder(desc, s[i], s[j])
    {
      LessMeans(desc, s[i], s[j]);
    }
  }

  // ---- sorting a run

  function Place(desc: seq<bool>, s: seq<Tuple>, x: Tuple): (r: seq<Tuple>)
    requires Keyed(desc, s) && |x.keys| == |desc|
    ensures multiset(r) == multiset(s) + multiset{x} && Keyed(desc, r)
  {
    if s == [] || !Less(desc, x, s[|s| - 1], 0) then s + [x]
    else
      assert s == s[..|s| - 1] + [s[|s| - 1]];
      Place(desc, s[..|s| - 1], x) + [s[|s| - 1]]
  }

  lemma {:induction false} PlaceSorted(desc: seq<bool>, s: seq<Tuple>, x: Tuple)
    requires Keyed(desc, s) && |x.keys| == |desc| && Sorted(desc, s)
    ensures Sorted(desc, Place(desc, s, x))
  {
    if s == [] || !Less(desc, x, s[|s| - 1], 0) {
      forall i | 0 <= i < |s|
        ensures AtMost(desc, s[i], x)
      {
        if i < |s| - 1 {
          LessTrans(desc, s[i], s[|s| - 1], x, 0);
        }
      }
    } else {
      var init, z := s[..|s| - 1], s[|s| - 1];
      PlaceSorted(desc, init, x);
      LessAsym(desc, x, z, 0);
      var r := Place(desc, init, x);
      forall i | 0 <= i < |r|
        ensures AtMost(desc, r[i], z)
      {
        assert r[i] in multiset(r);
        assert r[i] == x || r[i] in init;
      }
    }
  }

  lemma PlaceStep(desc: seq<bool>, s: seq<Tuple>, x: Tuple, j: nat)
    requires Keyed(desc, s) && |x.keys| == |desc| && j <= |s|
    ensures Keyed(desc, s[..j])
    ensures j == 0 || !Less(desc, x, s[j - 1], 0) ==> Place(desc, s[..j], x) == s[..j] + [x]
    ensures j > 0 && Less(desc, x, s[j - 1], 0) ==>
              Keyed(desc, s[..j - 1]) && Place(desc, s[..j], x) == Place(desc, s[..j - 1], x) + [s[j - 1]]
  {
    if j > 0 {
      assert s[..j][..j - 1] == s[..j - 1];
    }
  }

  /** Puts a tuple behind all that it does not come before. */
  method InsertTuple(desc: seq<bool>, s: seq<Tuple>, x: Tuple) returns (r: seq<Tuple>)
    requires Keyed(desc, s) && |x.keys| == |desc|
    ensures r == Place(desc, s, x)
  {
    hide Place, Less;
    var j := |s|;
    assert s[..j] == s && s[j..] == [];
    while j > 0
      invariant 0 <= j <= |s| && Keyed(desc, s[..j]) && Place(desc, s, x) == Place(desc, s[..j], x) + s[j..]
    {
      PlaceStep(desc, s, x, j);
      var before := CmpRecord(desc, x, s[j - 1]);
      if !before {
        break;
      }
      assert s[j - 1..] == [s[j - 1]] + s[j..];
      j := j - 1;
    }
    PlaceStep(desc, s, x, j);
    r := s[..j] + [x] + s[j..];
  }

  /** Stands for the library sort. */
  method SortRun(desc: seq<bool>, s: seq<Tuple>) returns (r: seq<Tuple>)
    requires Keyed(desc, s)
    ensures Keyed(desc, r) && multiset(r) == multiset(s) && Sorted(desc, r)
  {
    r := [];
    var i := 0;
    while i < |s|
      invariant i <= |s| && Keyed(desc, r) && multiset(r) == multiset(s[..i]) && Sorted(desc, r)
    {
      PlaceSorted(desc, r, s[i]);
      r := InsertTuple(desc, r, s[i]);
      assert s[..i + 1] == s[..i] + [s[i]];
      i := i + 1;
    }
    assert s[..i] == s;
  }

  // ---- merging

  /** The tuples of two runs in order, ties from the first. */
  function Merged(desc: seq<bool>, a: seq<Tuple>, b: seq<Tuple>): (r: seq<Tuple>)
    requires Keyed(desc, a) && Keyed(desc, b)
    decreases |a| + |b|
  {
    if a == [] then b
    else if b == [] then a
    else if !Less(desc, b[0], a[0], 0) then [a[0]] + Merged(desc, a[1..], b)
    else [b[0]] + Merged(desc, a, b[1..])
  }

  lemma {:induction false} MergedSame(desc: seq<bool>, a: seq<Tuple>, b: seq<Tuple>)
    requires Keyed(desc, a) && Keyed(desc, b)
    ensures multiset(Merged(desc, a, b)) == multiset(a) + multiset(b) && Keyed(desc, Merged(desc, a, b))
    decreases |a| + |b|
  {
    hide Less;
    if a != [] && b != [] {
      if !Less(desc, b[0], a[0], 0) {
        MergedSame(desc, a[1..], b);
        HeadTail(a);
      } else {
        MergedSame(desc, a, b[1..]);
        HeadTail(b);
      }
    }
  }

  lemma HeadTail(s: seq<Tuple>)
    requires s != []
    ensures s == [s[0]] + s[1..] && multiset(s) == multiset{s[0]} + multiset(s[1..])
  {
    assert s == [s[0]] + s[1..];
  }

  lemma {:induction false} MergedSorted(desc: seq<bool>, a: seq<Tuple>, b: seq<Tuple>)
    requires Keyed(desc, a) && Keyed(desc, b) && Sorted(desc, a) && Sorted(desc, b)
    ensures Keyed(desc, Merged(desc, a, b)) && Sorted(desc, Merged(desc, a, b))
    decreases |a| + |b|
  {
    hide Less;
    MergedSame(desc, a, b);
    if a != [] && b != [] {
      if !Less(desc, b[0], a[0], 0) {
        MergedSorted(desc, a[1..], b);
        MergedSame(desc, a[1..], b);
        Heads(desc, a[0], a[1..], b, Merged(desc, a[1..], b));
      } else {
        LessAsym(desc, b[0], a[0], 0);
        MergedSorted(desc, a, b[1..]);
        MergedSame(desc, a, b[1..]);
        Heads(desc, b[0], b[1..], a, Merged(desc, a, b[1..]));
      }
    }
  }

  /** The smaller head is before everything else. */
  lemma Heads(desc: seq<bool>, x: Tuple, xs: seq<Tuple>, ys: seq<Tuple>, m: seq<Tuple>)
    requires |x.keys| == |desc| && Keyed(desc, xs) && Keyed(desc, ys) && Keyed(desc, m)
    requires Sorted(desc, [x] + xs) && ys != [] && Sorted(desc, ys) && AtMost(desc, x, ys[0])
    requires multiset(m) == multiset(xs) + multiset(ys)
    ensures forall i :: 0 <= i < |m| ==> AtMost(desc, x, m[i])
  {
    assert ([x] + xs)[0] == x;
    forall i | 0 <= i < |m|
      ensures AtMost(desc, x, m[i])
    {
      assert m[i] in multiset(m);
      if m[i] in xs {
        var k :| 0 <= k < |xs| && xs[k] == m[i];
        assert ([x] + xs)[k + 1] == xs[k];
      } else {
        var k :| 0 <= k < |ys| && ys[k] == m[i];
        if k > 0 {
          LessTrans(desc, x, ys[0], ys[k], 0);
        }
      }
    }
  }

  /** What is still to be read of a file: the rest of its buffer, then the rest of the file. */
  ghost function Left(file: seq<Tuple>, pos: nat, buf: seq<Tuple>, idx: nat): seq<Tuple>
    requires idx <= |buf| && pos <= |file|
  {
    buf[idx..] + file[pos..]
  }

  /** Reads up to `STEP` tuples. */
  method ReadBlock(file: seq<Tuple>, pos: nat) returns (buf: seq<Tuple>, pos': nat)
    requires pos <= |file|
    ensures pos <= pos' <= |file| && buf == file[pos..pos'] && |buf| <= STEP
    ensures (pos < |file| ==> pos < pos') && (pos' < |file| ==> |buf| == STEP)
  {
    pos' := if pos + STEP <= |file| then pos + STEP else |file|;
    buf := file[pos..pos'];
  }

  lemma Refill(file: seq<Tuple>, pos: nat, buf: seq<Tuple>, pos': nat, buf': seq<Tuple>)
    requires pos <= pos' <= |file| && buf' == file[pos..pos']
    ensures Left(file, pos, buf, |buf|) == Left(file, pos', buf', 0)
  {
  }

  lemma Advance(file: seq<Tuple>, pos: nat, buf: seq<Tuple>, idx: nat)
    requires idx < |buf| && pos <= |file|
    ensures Left(file, pos, buf, idx) != [] && Left(file, pos, buf, idx)[0] == buf[idx]
    ensures Left(file, pos, buf, idx)[1..] == Left(file, pos, buf, idx + 1)
  {
  }

  /** Merges two files through buffers of `STEP` tuples. */
  method MergeFiles(desc: seq<bool>, fst: seq<Tuple>, snd: seq<Tuple>) returns (ret: seq<Tuple>)
    requires Keyed(desc, fst) && Keyed(desc, snd)
    ensures ret == Merged(desc, fst, snd)
  {
    hide Left, Merged, Less, Keyed;
    var buf0, pos0 := ReadBlock(fst, 0);
    var buf1, pos1 := ReadBlock(snd, 0);
    var idx0, idx1 := 0, 0;
    ret := [];
    var buf2: seq<Tuple> := [];
    Start(fst, pos0, buf0);
    Start(snd, pos1, buf1);
    assert ret + buf2 == [];
    while true
      invariant idx0 <= |buf0| && pos0 <= |fst| && idx1 <= |buf1| && pos1 <= |snd|
      invariant Keyed(desc, Left(fst, pos0, buf0, idx0)) && Keyed(desc, Left(snd, pos1, buf1, idx1))
      invariant ret + buf2 + Merged(desc, Left(fst, pos0, buf0, idx0), Left(snd, pos1, buf1, idx1)) ==
                Merged(desc, fst, snd)
      decreases |Left(fst, pos0, buf0, idx0)| + |Left(snd, pos1, buf1, idx1)|
    {
      if idx0 == |buf0| {
        if pos0 == |fst| {
          break;
        }
        ghost var old0, oldPos := buf0, pos0;
        buf0, pos0 := ReadBlock(fst, pos0);
        Refill(fst, oldPos, old0, pos0, buf0);
        idx0 := 0;
      }
      if idx1 == |buf1| {
        if pos1 == |snd| {
          break;
        }
        ghost var old1, oldPos := buf1, pos1;
        buf1, pos1 := ReadBlock(snd, pos1);
        Refill(snd, oldPos, old1, pos1, buf1);
        idx1 := 0;
      }
      Advance(fst, pos0, buf0, idx0);
      Advance(snd, pos1, buf1, idx1);
      ghost var a, b := Left(fst, pos0, buf0, idx0), Left(snd, pos1, buf1, idx1);
      KeyedTail(desc, a);
      KeyedTail(desc, b);
      var first := CmpRawData(desc, buf0[idx0], buf1[idx1]);
      if first {
        StepFirst(desc, a, b, ret, buf2, Merged(desc, fst, snd));
        buf2 := buf2 + [buf0[idx0]];
        idx0 := idx0 + 1;
      } else {
        StepSecond(desc, a, b, ret, buf2, Merged(desc, fst, snd));
        buf2 := buf2 + [buf1[idx1]];
        idx1 := idx1 + 1;
      }
      if |buf2| == STEP {
        assert ret + buf2 + [] == ret + buf2;
        ret := ret + buf2;
        buf2 := [];
      }
    }
    OneLeft(desc, fst, pos0, buf0, idx0, snd, pos1, buf1, idx1);
    ret := ret + buf2;
    ghost var a, b := Left(fst, pos0, buf0, idx0), Left(snd, pos1, buf1, idx1);
    assert ret + a + b == ret + (a + b);
    ret, idx0, pos0, buf0 := CopyRest(fst, pos0, buf0, idx0, ret);
    ret, idx1, pos1, buf1 := CopyRest(snd, pos1, buf1, idx1, ret);
  }

  lemma Start(file: seq<Tuple>, pos: nat, buf: seq<Tuple>)
    requires pos <= |file| && buf == file[0..pos]
    ensures Left(file, pos, buf, 0) == file
  {
  }

  lemma KeyedTail(desc: seq<bool>, s: seq<Tuple>)
    requires Keyed(desc, s) && s != []
    ensures |s[0].keys| == |desc| && Keyed(desc, s[1..])
  {
  }

  /** When one file is exhausted, merging appends the other. */
  lemma OneLeft(desc: seq<bool>, fst: seq<Tuple>, pos0: nat, buf0: seq<Tuple>, idx0: nat, snd: seq<Tuple>, pos1: nat,
                buf1: seq<Tuple>, idx1: nat)
    requires idx0 <= |buf0| && pos0 <= |fst| && idx1 <= |buf1| && pos1 <= |snd|
    requires (idx0 == |buf0| && pos0 == |fst|) || (idx1 == |buf1| && pos1 == |snd|)
    requires Keyed(desc, Left(fst, pos0, buf0, idx0)) && Keyed(desc, Left(snd, pos1, buf1, idx1))
    ensures Merged(desc, Left(fst, pos0, buf0, idx0), Left(snd, pos1, buf1, idx1))
         == Left(fst, pos0, buf0, idx0) + Left(snd, pos1, buf1, idx1)
  {
  }

  /** Copies what is left of one file. */
  method CopyRest(file: seq<Tuple>, pos: nat, buf: seq<Tuple>, idx: nat, ret: seq<Tuple>)
    returns (ret': seq<Tuple>, idx': nat, pos': nat, buf': seq<Tuple>)
    requires idx <= |buf| && pos <= |file|
    ensures ret' == ret + Left(file, pos, buf, idx)
    ensures idx' == |buf'| && pos' == |file|
  {
    ret', idx', pos', buf' := ret, idx, pos, buf;
    while true
      invariant idx' <= |buf'| && pos' <= |file|
      invariant ret' + Left(file, pos', buf', idx') == ret + Left(file, pos, buf, idx)
      decreases |file| - pos', |buf'| - idx'
    {
      if idx' == |buf'| {
        if pos' == |file| {
          break;
        }
        ghost var old0, oldPos := buf', pos';
        buf', pos' := ReadBlock(file, pos');
        Refill(file, oldPos, old0, pos', buf');
        idx' := 0;
      }
      assert Left(file, pos', buf', idx') == buf'[idx'..] + Left(file, pos', buf', |buf'|);
      ret' := ret' + buf'[idx'..];
      idx' := |buf'|;
    }
  }

  lemma StepFirst(desc: seq<bool>, a: seq<Tuple>, b: seq<Tuple>, ret: seq<Tuple>, buf: seq<Tuple>, m: seq<Tuple>)
    requires Keyed(desc, a) && Keyed(desc, b) && a != [] && b != [] && AtMost(desc, a[0], b[0])
    requires ret + buf + Merged(desc, a, b) == m
    ensures ret + (buf + [a[0]]) + Merged(desc, a[1..], b) == m
  {
  }

  lemma StepSecond(desc: seq<bool>, a: seq<Tuple>, b: seq<Tuple>, ret: seq<Tuple>, buf: seq<Tuple>, m: seq<Tuple>)
    requires Keyed(desc, a) && Keyed(desc, b) && a != [] && b != [] && !AtMost(desc, a[0], b[0])
    requires ret + buf + Merged(desc, a, b) == m
    ensures ret + (buf + [b[0]]) + Merged(desc, a, b[1..]) == m
  {
  }

  // ---- all runs

  /** The tuples of the files from `lo` up to `hi`. */
  ghost function Flat(files: seq<seq<Tuple>>, lo: nat, hi: nat): seq<Tuple>
    requires lo <= hi <= |files|
  {
    if lo == hi then [] else Flat(files, lo, hi - 1) + files[hi - 1]
  }

  lemma {:induction false} FlatSplit(files: seq<seq<Tuple>>, lo: nat, mid: nat, hi: nat)
    requires lo <= mid <= hi <= |files|
    ensures Flat(files, lo, hi) == Flat(files, lo, mid) + Flat(files, mid, hi)
  {
    if mid < hi {
      FlatSplit(files, lo, mid, hi - 1);
    }
  }

  lemma FlatOne(files: seq<seq<Tuple>>, i: nat)
    requires i < |files|
    ensures Flat(files, i, i + 1) == files[i]
  {
    assert Flat(files, i, i) == [];
  }

  ghost predicate Runs(desc: seq<bool>, files: seq<seq<Tuple>>) {
    forall i :: 0 <= i < |files| ==> Keyed(desc, files[i]) && Sorted(desc, files[i])
  }

  /** Merges the files with numbers `lo` to `hi`, halving the range. */
  method MergeTmpFiles(desc: seq<bool>, files: seq<seq<Tuple>>, lo: int, hi: int) returns (found: bool, r: seq<Tuple>)
    requires Runs(desc, files) && 0 <= lo && hi < |files|
    ensures found <==> lo <= hi
    ensures found ==> Keyed(desc, r) && Sorted(desc, r) && multiset(r) == multiset(Flat(files, lo, hi + 1))
    decreases hi - lo
  {
    hide Sorted, Keyed, Merged, Flat;
    if lo > hi {
      return false, [];
    }
    if lo == hi {
      FlatOne(files, lo);
      return true, files[lo];
    }
    var mid := (lo + hi) / 2;
    var a, b;
    found, a := MergeTmpFiles(desc, files, lo, mid);
    found, b := MergeTmpFiles(desc, files, mid + 1, hi);
    FlatSplit(files, lo, mid + 1, hi + 1);
    MergedSame(desc, a, b);
    MergedSorted(desc, a, b);
    r := MergeFiles(desc, a, b);
  }

  /** Sorts the tuples read so far and writes them to a file of their own. */
  method WriteRun(desc: seq<bool>, files: seq<seq<Tuple>>, tuples: seq<Tuple>) returns (files': seq<seq<Tuple>>)
    requires Runs(desc, files) && Keyed(desc, tuples) && 0 < |tuples| <= STEP
    requires forall i :: 0 <= i < |files| ==> 0 < |files[i]| <= STEP
    ensures Runs(desc, files') && forall i :: 0 <= i < |files'| ==> 0 < |files'[i]| <= STEP
    ensures multiset(Flat(files', 0, |files'|)) == multiset(Flat(files, 0, |files|)) + multiset(tuples)
    ensures |files'| == |files| + 1 && files'[..|files|] == files && multiset(files'[|files|]) == multiset(tuples)
  {
    hide Sorted, Flat, Keyed;
    var run := SortRun(desc, tuples);
    SameSize(run, tuples);
    AddRun(files, run);
    files' := files + [run];
  }

  /** The file holds the tuples of one block of the input. */
  ghost predicate BlockOf(file: seq<Tuple>, input: seq<Tuple>, k: nat) {
    && 2000 * k < |input|
    && multiset(file) == multiset(input[2000 * k..if 2000 * (k + 1) <= |input| then 2000 * (k + 1) else |input|])
  }

  ghost predicate Blocks(files: seq<seq<Tuple>>, input: seq<Tuple>) {
    forall k :: 0 <= k < |files| ==> BlockOf(files[k], input, k)
  }

  lemma BlockAdded(files: seq<seq<Tuple>>, files': seq<seq<Tuple>>, input: seq<Tuple>, tuples: seq<Tuple>, i: nat)
    requires Blocks(files, input) && 2000 * |files| < i <= |input| && tuples == input[2000 * |files|..i]
    requires |tuples| == 2000 || (i == |input| && |tuples| < 2000)
    requires |files'| == |files| + 1 && files'[..|files|] == files && multiset(files'[|files|]) == multiset(tuples)
    ensures Blocks(files', input)
  {
    forall k | 0 <= k < |files'|
      ensures BlockOf(files'[k], input, k)
    {
      if k < |files| {
        assert files'[k] == files'[..|files|][k];
      }
    }
  }

  /** Sorted runs of `STEP` tuples, the last one possibly shorter: one for each block of the input. */
  method BuildRuns(desc: seq<bool>, input: seq<Tuple>) returns (files: seq<seq<Tuple>>)
    requires Keyed(desc, input)
    ensures Runs(desc, files) && multiset(Flat(files, 0, |files|)) == multiset(input)
    ensures forall i :: 0 <= i < |files| ==> 0 < |files[i]| <= STEP
    ensures Blocks(files, input) && 2000 * |files| >= |input|
  {
    hide Sorted, Flat, Keyed, Blocks, Runs;
    NoBlocks(desc, input);
    files := [];
    KeyedNone(desc);
    FlatNone(files);
    var tuples: seq<Tuple> := [];
    var i := 0;
    while i < |input|
      invariant i <= |input| && Runs(desc, files) && Keyed(desc, tuples) && |tuples| < STEP
      invariant multiset(Flat(files, 0, |files|)) + multiset(tuples) == multiset(input[..i])
      invariant forall k :: 0 <= k < |files| ==> 0 < |files[k]| <= STEP
      invariant Blocks(files, input)
      invariant i == 2000 * |files| + |tuples| && tuples == input[2000 * |files|..i]
    {
      KeyedMore(desc, tuples, input, i);
      tuples := tuples + [input[i]];
      assert input[..i + 1] == input[..i] + [input[i]];
      assert tuples == input[2000 * |files|..i + 1];
      if |tuples| == STEP {
        ghost var files0 := files;
        files := WriteRun(desc, files, tuples);
        BlockAdded(files0, files, input, tuples, i + 1);
        tuples := [];
      }
      i := i + 1;
    }
    assert input[..i] == input;
    if |tuples| != 0 {
      ghost var files0 := files;
      files := WriteRun(desc, files, tuples);
      BlockAdded(files0, files, input, tuples, i);
    }
  }

  lemma NoBlocks(desc: seq<bool>, input: seq<Tuple>)
    ensures Blocks([], input) && Runs(desc, [])
  {
  }

  lemma FlatNone(files: seq<seq<Tuple>>)
    ensures Flat(files, 0, 0) == []
  {
  }

  lemma KeyedNone(desc: seq<bool>)
    ensures Keyed(desc, [])
  {
  }

  lemma KeyedMore(desc: seq<bool>, s: seq<Tuple>, input: seq<Tuple>, i: nat)
    requires Keyed(desc, s) && Keyed(desc, input) && i < |input|
    ensures Keyed(desc, s + [input[i]])
  {
  }

  lemma SameSize(a: seq<Tuple>, b: seq<Tuple>)
    requires multiset(a) == multiset(b)
    ensures |a| == |b|
  {
    assert |multiset(a)| == |a| && |multiset(b)| == |b|;
  }

  lemma AddRun(files: seq<seq<Tuple>>, run: seq<Tuple>)
    ensures Flat(files + [run], 0, |files| + 1) == Flat(files, 0, |files|) + run
  {
    FlatPrefix(files, run, |files|);
  }

  lemma {:induction false} FlatPrefix(files: seq<seq<Tuple>>, run: seq<Tuple>, n: nat)
    requires n <= |files|
    ensures Flat(files + [run], 0, n) == Flat(files, 0, n)
  {
    if n == 0 {
    } else {
      FlatPrefix(files, run, n - 1);
    }
  }

  // ---- the executor

  /** What the executor hands out, given its limit. */
  function Limited(res: seq<Tuple>, limit: int): seq<Tuple> {
    if limit == 0 then []
    else if 0 < limit <= STEP && limit <= |res| then res[..limit]
    else res
  }

  /** A positive limit is kept exactly when it fits in one buffer or does not matter: the
      counter it is compared with starts again with every buffer. */
  lemma LimitKept(res: seq<Tuple>, limit: int)
    requires limit > 0
    ensures Limited(res, limit) == res[..if limit <= |res| then limit else |res|] <==> limit <= STEP || limit >= |res|
  {
    if limit > STEP && limit < |res| {
      assert |Limited(res, limit)| == |res| && |res[..limit]| == limit;
    } else if limit > |res| {
      assert res[..|res|] == res;
    }
  }

  /** A limit of 2001 on 2002 tuples is not kept: all of them come out. */
  lemma LimitMissed(res: seq<Tuple>)
    requires |res| == 2002
    ensures Limited(res, 2001) == res && Limited(res, 2001) != res[..2001]
  {
    LimitKept(res, 2001);
  }

  lemma LimitedIs(res: seq<Tuple>, limit: int)
    ensures |Limited(res, limit)| <= |res| && Limited(res, limit) == res[..|Limited(res, limit)|]
    ensures res == [] || limit == 0 ==> Limited(res, limit) == []
  {
  }

  class SortExecutor {
    const desc: seq<bool>
    const limit: int
    const hasResult: bool
    const result: seq<Tuple>
    var buffer: seq<Tuple>
    var pos: nat
    var curr: nat
    var isEnd: bool
    ghost var base: nat

    /** The buffer holds the part of the result before `pos`. */
    ghost predicate Valid()
      reads this
    {
      && (hasResult <==> result != [])
      && base <= pos <= |result| && buffer == result[base..pos] && |buffer| <= STEP
      && (pos < |result| ==> |buffer| == 0 || |buffer| == STEP)
    }

    /** How much has been handed out before the current tuple. */
    ghost function Done(): nat
      reads this
    {
      base + curr
    }

    ghost predicate AtTuple()
      reads this
    {
      Valid() && !isEnd && curr < |buffer| && limit != 0 && (limit > 0 ==> curr < limit)
        && (Done() == curr || limit < 0 || limit > STEP)
    }

    constructor (desc: seq<bool>, input: seq<Tuple>, limit: int)
      requires Keyed(desc, input)
      ensures Valid() && this.limit == limit && !isEnd
      ensures Keyed(desc, result) && Sorted(desc, result) && multiset(result) == multiset(input)
      ensures forall i, j :: 0 <= i < j < |result| ==> InOrder(desc, result[i], result[j])
    {
      var files := BuildRuns(desc, input);
      var found, r := MergeTmpFiles(desc, files, 0, |files| - 1);
      if !found {
        r := [];
      } else {
        assert |multiset(input)| == |input|;
        FlatNonempty(files);
        SameSize(r, Flat(files, 0, |files|));
      }
      SortedMeans(desc, r);
      this.desc, this.limit, hasResult, result := desc, limit, found, r;
      buffer, pos, curr, isEnd, base := [], 0, 0, false, 0;
    }

    /** Starts over, but does not clear the end mark: a second pass gives nothing. */
    method BeginTuple()
      requires Valid()
      modifies this
      ensures Valid() && (isEnd <==> old(isEnd) || result == [] || limit == 0)
      ensures !isEnd ==> AtTuple() && Done() == 0
    {
      curr := 0;
      if !hasResult || limit == 0 {
        isEnd := true;
        return;
      }
      pos, base := 0, 0;
      buffer, pos := ReadBlock(result, pos);
    }

    /** Moves on. The scan ends at the end of the result, or when the counter of the current
        buffer meets the limit. */
    method NextTuple()
      requires AtTuple()
      modifies this
      ensures Valid() && (!isEnd ==> AtTuple() && Done() == old(Done()) + 1)
      ensures isEnd ==> old(Done()) + 1 == |Limited(result, limit)|
      ensures old(Done()) < |Limited(result, limit)|
    {
      curr := curr + 1;
      if limit > 0 && curr == limit {
        isEnd := true;
        return;
      }
      if curr == |buffer| {
        if pos == |result| {
          isEnd := true;
          return;
        }
        base := pos;
        buffer, pos := ReadBlock(result, pos);
        curr := 0;
      }
    }

    method Next() returns (t: Tuple)
      requires AtTuple()
      ensures Done() < |result| && t == result[Done()]
    {
      t := buffer[curr];
    }

    /** Everything the executor gives from beginning to end. */
    method Run() returns (out: seq<Tuple>)
      requires Valid()
      modifies this
      ensures Valid() && isEnd && out == if old(isEnd) then [] else Limited(result, limit)
    {
      hide Limited, SortExecutor.Valid, SortExecutor.AtTuple, SortExecutor.Done;
      LimitedIs(result, limit);
      out := [];
      BeginTuple();
      while !isEnd
        invariant !isEnd ==> AtTuple() && Done() == |out|
        invariant |out| <= |result| && out == result[..|out|]
        invariant Valid() && (isEnd ==> |out| == if old(isEnd) then 0 else |Limited(result, limit)|)
        invariant old(isEnd) ==> isEnd
        decreases |result| - |out|
      {
        var t := Next();
        TakeNext(result, out, t);
        NextTuple();
        out := out + [t];
      }
    }
  }

  lemma TakeNext(res: seq<Tuple>, out: seq<Tuple>, t: Tuple)
    requires |out| < |res| && out == res[..|out|] && t == res[|out|]
    ensures out + [t] == res[..|out| + 1]
  {
  }

  lemma FlatNonempty(files: seq<seq<Tuple>>)
    requires |files| > 0 && forall i :: 0 <= i < |files| ==> 0 < |files[i]|
    ensures |Flat(files, 0, |files|)| > 0
  {
  }
}
