/** When a rollback ends, read off the run of the transaction. */
module Rollback {
  import opened FreeSpace
  import opened Following
  import opened AbortTxn

  /** What a write does to the free space of its file. */
  function DoRoom(s: Space, n: int, w: Write): Space {
    match w
    case InsertTuple(r, _) => Put(s, n, r.pageNo, false)
    case DeleteTuple(r, _) => Take(s, n, r.pageNo)
    case UpdateTuple(_, _, _) => s
  }

  /** The free space after the first `k` writes. */
  ghost function RoomAfter(s: Space, n: int, ws: seq<Write>, k: nat): Space
    requires k <= |ws|
  {
    if k == 0 then s else DoRoom(RoomAfter(s, n, ws, k - 1), n, ws[k - 1])
  }

  /** An insert fills the page it is offered, a delete empties a place of the file. */
  ghost predicate Possible(s: Space, w: Write) {
    match w
    case InsertTuple(r, _) => r.pageNo == Offered(s)
    case DeleteTuple(r, _) => r.pageNo in s.num
    case UpdateTuple(_, _, _) => true
  }

  ghost predicate PossibleAt(s: Space, n: int, ws: seq<Write>, k: nat)
    requires k < |ws|
  {
    Possible(RoomAfter(s, n, ws, k), ws[k])
  }

  /** The writes were made one after the other on a file with a right free list, and nobody else
      wrote to it. */
  ghost predicate Alone(s: Space, n: int, ws: seq<Write>) {
    && n >= 1 && Right(s, n)
    && forall k :: 0 <= k < |ws| ==> PossibleAt(s, n, ws, k)
  }

  ghost predicate Right(s: Space, n: int) {
    Linked(s) && Bounded(s, n) && exists list :: FreeList(s, n, list)
  }

  lemma DoKeeps(s: Space, n: int, w: Write)
    requires Right(s, n) && n >= 1 && Possible(s, w)
    ensures Right(DoRoom(s, n, w), n)
  {
    hide Linked, FreeList, Take;
    var list :| FreeList(s, n, list);
    FollowsSelf(s, n, list);
    var l, tail :| Follows(s, s, n, l, tail);
    match w
    case InsertTuple(r, _) =>
      NewFollows(s, s, n, l, tail, r.pageNo);
    case DeleteTuple(r, _) =>
      TakeFollows(s, s, n, l, tail, r.pageNo);
    case UpdateTuple(_, _, _) =>
  }

  /** Undoing a write on a free space that follows the one after it. */
  lemma UndoFollows(s: Space, r: Space, n: int, w: Write)
    requires Right(s, n) && n >= 1 && Possible(s, w) && Like(DoRoom(s, n, w), r, n)
    ensures Like(s, UndoRoom(r, n, w), n) && Offered(r) == Offered(DoRoom(s, n, w))
  {
    hide Linked, FreeList, Bounded, Take, Put;
    var list :| FreeList(s, n, list);
    var l, tail :| Follows(DoRoom(s, n, w), r, n, l, tail);
    SameOffer(DoRoom(s, n, w), r, n, l, tail);
    match w
    case InsertTuple(_, _) =>
      NewGoesBack(s, r, n, list);
    case DeleteTuple(x, _) =>
      OldGoesBack(s, r, n, list, x.pageNo);
    case UpdateTuple(x, _, _) =>
      UsedFollows(s, r, n, l, tail, x.pageNo);
  }

  lemma {:induction false} RightAfter(s: Space, n: int, ws: seq<Write>, k: nat)
    requires Alone(s, n, ws) && k <= |ws|
    ensures Right(RoomAfter(s, n, ws, k), n)
  {
    hide Right, DoRoom, Possible;
    if k == 0 {
    } else {
      RightAfter(s, n, ws, k - 1);
      assert PossibleAt(s, n, ws, k - 1);
      DoKeeps(RoomAfter(s, n, ws, k - 1), n, ws[k - 1]);
    }
  }

  /** On the way back the free space follows the one on the way there. */
  lemma {:induction false} BackFollows(s: Space, n: int, ws: seq<Write>, k: nat)
    requires Alone(s, n, ws) && k <= |ws|
    ensures Like(RoomAfter(s, n, ws, k), RoomBack(RoomAfter(s, n, ws, |ws|), n, ws, k), n)
    ensures k < |ws| ==>
              Offered(RoomBack(RoomAfter(s, n, ws, |ws|), n, ws, k + 1)) == Offered(RoomAfter(s, n, ws, k + 1))
    decreases |ws| - k
  {
    hide Right, DoRoom, UndoRoom, Possible, Like;
    RightAfter(s, n, ws, k);
    if k == |ws| {
      LikeSelf(RoomAfter(s, n, ws, k), n);
    } else {
      BackFollows(s, n, ws, k + 1);
      assert PossibleAt(s, n, ws, k);
      UndoFollows(RoomAfter(s, n, ws, k), RoomBack(RoomAfter(s, n, ws, |ws|), n, ws, k + 1), n, ws[k]);
    }
  }

  lemma LikeSelf(s: Space, n: int)
    requires Right(s, n)
    ensures Like(s, s, n)
  {
    var list :| FreeList(s, n, list);
    FollowsSelf(s, n, list);
  }

  /** A row was deleted or updated while, right after that, its file offered a page not before the
      page of the row. */
  ghost predicate OfferedAfter(s: Space, n: int, ws: seq<Write>, k: nat)
    requires k < |ws|
  {
    ws[k].InsertTuple? || Offered(RoomAfter(s, n, ws, k + 1)) >= ws[k].rid.pageNo
  }

  /** A transaction alone finds its pages on the way back if and only if each row it deleted or updated
      was on a page not behind the one its file then offered; and it leaves the free list right. */
  lemma RollbackEnds(s: Space, n: int, ws: seq<Write>)
    requires Alone(s, n, ws)
    ensures (forall k :: 0 <= k < |ws| ==> OffersAt(RoomAfter(s, n, ws, |ws|), n, ws, k)) <==>
              forall k :: 0 <= k < |ws| ==> OfferedAfter(s, n, ws, k)
    ensures Right(RoomBack(RoomAfter(s, n, ws, |ws|), n, ws, 0), n)
  {
    hide Right, RoomAfter, RoomBack, Possible;
    forall k | 0 <= k < |ws|
      ensures OffersAt(RoomAfter(s, n, ws, |ws|), n, ws, k) <==> OfferedAfter(s, n, ws, k)
    {
      BackFollows(s, n, ws, k);
    }
    BackFollows(s, n, ws, 0);
    LikeRight(RoomAfter(s, n, ws, 0), RoomBack(RoomAfter(s, n, ws, |ws|), n, ws, 0), n);
  }

  lemma LikeRight(o: Space, r: Space, n: int)
    requires Like(o, r, n) && n >= 1
    ensures Right(r, n)
  {
  }

  /** A delete from a full page can always be taken back, as an insert can. */
  lemma FullPagesGoBack(s: Space, n: int, ws: seq<Write>, k: nat)
    requires Alone(s, n, ws) && k < |ws| && ws[k].DeleteTuple?
    requires ws[k].rid.pageNo in RoomAfter(s, n, ws, k).num && RoomAfter(s, n, ws, k).num[ws[k].rid.pageNo] == n
    ensures OfferedAfter(s, n, ws, k)
  {
    RightAfter(s, n, ws, k);
    InFile(RoomAfter(s, n, ws, k), ws[k].rid.pageNo);
  }
}
