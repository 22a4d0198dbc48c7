/** The block nested-loop join executor. */
module BlockJoin {
  const OUTER_BUFFER_SIZE: nat := 4000
  const INNER_BUFFER_SIZE: nat := 2000

  type Tuple = seq<int>

  /** Reads up to `size` tuples from a child that stands at `pos`. */
  method Fill(child: seq<Tuple>, pos: nat, size: nat) returns (buf: seq<Tuple>, pos': nat)
    requires pos <= |child| && size > 0
    ensures pos <= pos' <= |child| && buf == child[pos..pos'] && |buf| == pos' - pos <= size
    ensures pos' == |child| || pos' == pos + size
  {
    buf, pos' := [], pos;
    while |buf| < size && pos' < |child|
      invariant pos <= pos' <= |child| && buf == child[pos..pos'] && |buf| == pos' - pos <= size
      decreases |child| - pos'
    {
      buf := buf + [child[pos']];
      pos' := pos' + 1;
    }
  }

  /** Position `(i, j)` comes at or after `(a, b)` within a block. */
  predicate From(i: int, j: int, a: int, b: int) {
    i > a || (i == a && j >= b)
  }

  /** The position of a join in its run: outer block, inner block, and the place in both. */
  datatype Place = Place(outer: nat, inner: nat, row: nat, col: nat)

  /** `q` is not before `p`. */
  predicate Onward(p: Place, q: Place) {
    || q.outer > p.outer
    || (q.outer == p.outer && q.inner > p.inner)
    || (q.outer == p.outer && q.inner == p.inner && From(q.row, q.col, p.row, p.col))
  }

  class NestedLoopJoin {
    const left: seq<Tuple>
    const right: seq<Tuple>
    const test: (Tuple, Tuple) -> bool
    /** Whether the inner child gives its tuples again when it is started again after its end. */
    const restarts: bool
    var leftBuf: seq<Tuple>
    var rightBuf: seq<Tuple>
    var leftPos: nat
    var rightPos: nat
    var leftIndex: nat
    var rightIndex: nat
    var isEnd: bool
    ghost var started: bool
    ghost var leftBase: nat
    ghost var rightBase: nat

    constructor (left: seq<Tuple>, right: seq<Tuple>, test: (Tuple, Tuple) -> bool, restarts: bool)
      ensures this.left == left && this.right == right && this.test == test && this.restarts == restarts
      ensures !isEnd && !started
    {
      this.left, this.right, this.test, this.restarts := left, right, test, restarts;
      started := false;
      leftBuf, rightBuf, leftPos, rightPos, leftIndex, rightIndex, isEnd := [], [], 0, 0, 0, 0, false;
      leftBase, rightBase := 0, 0;
    }

    /** The buffers hold the blocks that end where the children stand. */
    ghost predicate Valid()
      reads this
    {
      && leftBase <= leftPos <= |left| && leftBuf == left[leftBase..leftPos] && |leftBuf| == leftPos - leftBase
      && rightBase <= rightPos <= |right| && rightBuf == right[rightBase..rightPos]
         && |rightBuf| == rightPos - rightBase
      && (leftPos == |left| || leftPos >= OUTER_BUFFER_SIZE) && |leftBuf| <= OUTER_BUFFER_SIZE
      && (restarts || leftBase == 0 || rightBase == |right|)
      && leftIndex <= |leftBuf| && rightIndex <= |rightBuf| && (leftIndex == |leftBuf| ==> rightIndex == 0)
    }

    /** The pair of tuples `i` and `j` is still to be looked at. */
    ghost predicate Pending(i: int, j: int)
      reads this
    {
      || i >= leftPos
      || (leftBase <= i && j >= rightPos)
      || (leftBase <= i && rightBase <= j && From(i, j, leftBase + leftIndex, rightBase + rightIndex))
    }

    ghost function At(): Place
      reads this
    {
      Place(leftPos, rightPos, leftBase + leftIndex, rightBase + rightIndex)
    }

    predicate Matches(i: int, j: int)
    {
      0 <= i < |left| && 0 <= j < |right| && test(left[i], right[j])
    }

    /** The pairs that the join gives: a child that does not restart has tuples for the first outer
        block only. */
    predicate Given(i: int, j: int) {
      Matches(i, j) && (restarts || i < OUTER_BUFFER_SIZE)
    }

    /** The executor stands at a pair that satisfies the conditions. */
    ghost predicate AtPair()
      reads this
    {
      && Valid() && leftIndex < |leftBuf| && rightIndex < |rightBuf|
      && Matches(leftBase + leftIndex, rightBase + rightIndex)
    }

    /** Looks for the next matching pair, from the current position on, refilling the inner
        block when it is used up, and the outer block when the inner child is. */
    method Search() returns (found: bool)
      requires Valid()
      modifies this
      ensures started == old(started) && isEnd == (old(isEnd) || !found)
      ensures found ==> AtPair() && Onward(old(At()), At())
      ensures forall i, j :: Given(i, j) ==> (old(Pending(i, j)) <==> found && Pending(i, j))
    {
      while true
        invariant Valid() && isEnd == old(isEnd) && started == old(started) && Onward(old(At()), At())
        invariant forall i, j :: Given(i, j) ==> (old(Pending(i, j)) <==> Pending(i, j))
        decreases |left| - leftPos, |right| - rightPos
      {
        found := SearchBlock();
        if found {
          return;
        }
        var more := NextBlock();
        if !more {
          isEnd := true;
          return;
        }
      }
    }

    /** The next inner block, or the next outer block and the inner child from its start. */
    method NextBlock() returns (more: bool)
      requires Valid() && leftIndex == |leftBuf| && rightIndex == 0
      modifies this`leftBuf, this`rightBuf, this`leftPos, this`rightPos, this`leftIndex, this`leftBase, this`rightBase
      ensures more ==> Valid() && (leftPos > old(leftPos) || (leftPos == old(leftPos) && rightPos > old(rightPos)))
      ensures forall i, j :: Given(i, j) ==> (old(Pending(i, j)) <==> more && Pending(i, j))
    {
      leftIndex := 0;
      rightBase := rightPos;
      rightBuf, rightPos := Fill(right, rightPos, INNER_BUFFER_SIZE);
      if |rightBuf| == 0 {
        leftBase := leftPos;
        leftBuf, leftPos := Fill(left, leftPos, OUTER_BUFFER_SIZE);
        if |leftBuf| == 0 {
          return false;
        }
        leftIndex := 0;
        rightBase := if restarts then 0 else |right|;
        rightBuf, rightPos := Fill(right, if restarts then 0 else |right|, INNER_BUFFER_SIZE);
      }
      return true;
    }

    /** Looks for the next matching pair with the current outer tuple. */
    method SearchRow() returns (found: bool)
      requires Valid() && leftIndex < |leftBuf|
      modifies this`rightIndex
      ensures Valid() && (if found then AtPair() else rightIndex == |rightBuf|) && rightIndex >= old(rightIndex)
      ensures forall i, j :: Matches(i, j) ==> (old(Pending(i, j)) <==> Pending(i, j))
    {
      while rightIndex < |rightBuf|
        invariant Valid() && rightIndex >= old(rightIndex)
        invariant forall i, j :: Matches(i, j) ==> (old(Pending(i, j)) <==> Pending(i, j))
        decreases |rightBuf| - rightIndex
      {
        if test(leftBuf[leftIndex], rightBuf[rightIndex]) {
          return true;
        }
        rightIndex := rightIndex + 1;
      }
      return false;
    }

    /** Looks for the next matching pair of the current blocks. */
    method SearchBlock() returns (found: bool)
      requires Valid()
      modifies this`leftIndex, this`rightIndex
      ensures Valid() && (found ==> AtPair()) && (!found ==> leftIndex == |leftBuf| && rightIndex == 0)
      ensures Onward(old(At()), At())
      ensures forall i, j :: Matches(i, j) ==> (old(Pending(i, j)) <==> Pending(i, j))
    {
      while leftIndex < |leftBuf|
        invariant Valid() && Onward(old(At()), At())
        invariant forall i, j :: Matches(i, j) ==> (old(Pending(i, j)) <==> Pending(i, j))
        decreases |leftBuf| - leftIndex
      {
        found := SearchRow();
        if found {
          return;
        }
        rightIndex := 0;
        leftIndex := leftIndex + 1;
      }
      return false;
    }

    /** Starts over, but does not clear the end mark: a join that is started again after its end gives
        nothing. */
    method BeginTuple()
      requires started ==> isEnd
      modifies this
      ensures started && (isEnd || AtPair()) && (old(isEnd) ==> isEnd)
      ensures !old(isEnd) ==> forall i, j :: Given(i, j) ==> !isEnd && Pending(i, j)
    {
      started := true;
      leftBuf, leftPos := Fill(left, 0, OUTER_BUFFER_SIZE);
      leftBase, leftIndex := 0, 0;
      if |leftBuf| == 0 {
        isEnd := true;
        return;
      }
      rightBuf, rightPos := Fill(right, 0, INNER_BUFFER_SIZE);
      rightBase := 0;
      if |rightBuf| == 0 {
        isEnd := true;
        return;
      }
      rightIndex := 0;
      var found := Search();
    }

    method NextTuple()
      requires AtPair() && !isEnd
      modifies this
      ensures started == old(started) && (isEnd || AtPair())
      ensures forall i, j :: Given(i, j) && !(i == old(leftBase + leftIndex) && j == old(rightBase + rightIndex)) ==>
                (old(Pending(i, j)) <==> !isEnd && Pending(i, j))
      ensures isEnd || !Pending(old(leftBase + leftIndex), old(rightBase + rightIndex))
      ensures isEnd || (Onward(old(At()), At()) && At() != old(At()))
    {
      rightIndex := rightIndex + 1;
      var found := Search();
    }

    /** The rows are the pairs with these numbers, all matching and all different. */
    ghost predicate Listed(rows: seq<(Tuple, Tuple)>, pairs: seq<(nat, nat)>) {
      && |rows| == |pairs|
      && (forall a :: 0 <= a < |pairs| ==> Given(pairs[a].0, pairs[a].1))
      && (forall a :: 0 <= a < |pairs| ==> rows[a] == (left[pairs[a].0], right[pairs[a].1]))
      && (forall a, b :: 0 <= a < b < |pairs| ==> pairs[a] != pairs[b])
    }

    lemma ListedMore(rows: seq<(Tuple, Tuple)>, pairs: seq<(nat, nat)>, i: nat, j: nat)
      requires Listed(rows, pairs) && Given(i, j) && (i, j) !in pairs
      ensures Listed(rows + [(left[i], right[j])], pairs + [(i, j)])
    {
    }

    lemma ListedGiven(rows: seq<(Tuple, Tuple)>, pairs: seq<(nat, nat)>)
      requires Listed(rows, pairs)
      ensures forall i: nat, j: nat :: (i, j) in pairs ==> Given(i, j)
    {
    }

    lemma HereIsPending()
      requires AtPair()
      ensures Given(leftBase + leftIndex, rightBase + rightIndex)
              && Pending(leftBase + leftIndex, rightBase + rightIndex)
      ensures leftBuf[leftIndex] == left[leftBase + leftIndex] && rightBuf[rightIndex] == right[rightBase + rightIndex]
    {
    }

    /** Everything that matches is given already or still to come, and not both. */
    ghost predicate Split(pairs: seq<(nat, nat)>)
      reads this
    {
      && (forall i: nat, j: nat :: Given(i, j) && (i, j) !in pairs ==> !isEnd && Pending(i, j))
      && (forall i: nat, j: nat :: (i, j) in pairs && !isEnd ==> !Pending(i, j))
    }

    /** Runs the join to its end: it gives every matching pair of tuples exactly once if the inner
        child restarts or all matches are in the first outer block, and only those of that block
        otherwise. */
    method Run() returns (rows: seq<(Tuple, Tuple)>, ghost pairs: seq<(nat, nat)>)
      requires started ==> isEnd
      modifies this
      ensures Listed(rows, pairs)
      ensures old(isEnd) ==> rows == []
      ensures !old(isEnd) ==> forall i: nat, j: nat :: Given(i, j) <==> (i, j) in pairs
      ensures !old(isEnd) ==>
                ((forall i: nat, j: nat :: Matches(i, j) ==> (i, j) in pairs) <==>
                 restarts || forall i: nat, j: nat :: Matches(i, j) ==> i < OUTER_BUFFER_SIZE)
    {
      hide NestedLoopJoin.Pending, NestedLoopJoin.Listed;
      rows, pairs := [], [];
      BeginTuple();
      NoneListed();
      while !isEnd
        invariant (!isEnd ==> AtPair()) && (old(isEnd) ==> isEnd && rows == [])
        invariant Listed(rows, pairs) && (!old(isEnd) ==> Split(pairs))
        decreases if isEnd then 0 else 1, |left| - leftPos, |right| - rightPos, leftPos - leftBase - leftIndex,
                  rightPos - rightBase - rightIndex
      {
        HereIsPending();
        ghost var i, j := leftBase + leftIndex, rightBase + rightIndex;
        ListedMore(rows, pairs, i, j);
        rows := rows + [(leftBuf[leftIndex], rightBuf[rightIndex])];
        ghost var before := pairs;
        pairs := pairs + [(i, j)];
        NextTuple();
        assert Split(pairs) by {
          assert forall a: nat, b: nat :: (a, b) in pairs <==> (a, b) in before || (a == i && b == j);
        }
      }
      ListedGiven(rows, pairs);
    }

    lemma NoneListed()
      ensures Listed([], [])
    {
    }
  }

  /** With an inner child that does not restart, a match with the outer tuple 4001 is lost: here every
      pair matches, and this one does not come out. */
  method LaterBlockLost() returns (rows: seq<(Tuple, Tuple)>, ghost pairs: seq<(nat, nat)>)
    ensures |pairs| == |rows| && (3999, 0) in pairs && (4000, 0) !in pairs
  {
    var join := new NestedLoopJoin(seq(4001, i => [i]), [[0]], (x, y) => true, false);
    rows, pairs := join.Run();
    assert join.Given(3999, 0) && !join.Given(4000, 0);
  }
}
