/** Two free spaces of which one follows the other: replaying a run, or taking it back, makes new
    pages earlier, and gives them back to the list later, than the run itself. */
module Following {
  import opened Common
  import opened FreeSpace

  /** No page holds more records than it has slots. */
  ghost predicate Bounded(s: Space, n: int) {
    forall k :: k in s.num ==> s.num[k] <= n
  }

  /** New pages, numbered from `first` on. */
  ghost predicate NewPages(tail: seq<int>, first: int) {
    forall j :: 0 <= j < |tail| ==> tail[j] == first + j
  }

  /** The counts of `r` are those of `o`, and 0 for the pages that `o` does not have. */
  ghost predicate SameCounts(o: Space, r: Space) {
    && (forall k :: k in o.num ==> k in r.num && r.num[k] == o.num[k])
    && (forall k :: k in r.num && k !in o.num ==> r.num[k] == 0)
  }

  /** `r` has the same pages with room in the same order as `o`, and behind them, as `tail`, new pages
      that `o` has yet to make. */
  ghost predicate Follows(o: Space, r: Space, n: int, list: seq<int>, tail: seq<int>) {
    && Linked(o) && Linked(r) && Bounded(o, n)
    && FreeList(o, n, list) && FreeList(r, n, list + tail)
    && NewPages(tail, o.numPages) && r.numPages == o.numPages + |tail| && SameCounts(o, r)
  }

  ghost predicate Like(o: Space, r: Space, n: int) {
    exists list, tail :: Follows(o, r, n, list, tail)
  }

  lemma FollowsSelf(s: Space, n: int, list: seq<int>)
    requires Linked(s) && Bounded(s, n) && FreeList(s, n, list)
    ensures Like(s, s, n)
  {
    assert list + [] == list;
    assert Follows(s, s, n, list, []);
  }

  /** Both offer the same page. */
  lemma SameOffer(o: Space, r: Space, n: int, list: seq<int>, tail: seq<int>)
    requires Follows(o, r, n, list, tail)
    ensures Offered(o) == Offered(r)
  {
    hide Linked, FreeList, SameCounts, Bounded;
    ListEnds(o, n, list);
    ListEnds(r, n, list + tail);
    ListHead(o, n, list);
    ListHead(r, n, list + tail);
  }

  /** The head of a list takes one more record. */
  lemma FillHead(s: Space, n: int, list: seq<int>)
    requires Linked(s) && FreeList(s, n, list) && list != []
    ensures s.first in s.num && s.first in s.next && s.first == list[0] && s.num[s.first] < n
    ensures FreeList(Fill(s, n, s.first), n, if s.num[s.first] + 1 == n then list[1..] else list)
  {
    ListHead(s, n, list);
    var c := s.num[s.first] + 1;
    if c == n {
      ListPop(s, n, list, c);
    } else {
      ListKept(s, n, list, s.first, c);
    }
  }

  lemma InFile(s: Space, k: int)
    requires Linked(s)
    ensures k in s.num <==> 1 <= k < s.numPages
    ensures k in s.num ==> k in s.next
  {
  }

  // ---- a run and its replay

  /** Storing to a used place may make the page that `o` will make for its next record. */
  lemma UsedFollows(o: Space, r: Space, n: int, list: seq<int>, tail: seq<int>, k: int)
    requires Follows(o, r, n, list, tail) && n >= 1
    ensures Like(o, Put(r, n, k, true), n)
  {
    hide Linked, FreeList, Bounded;
    OfferLinked(r);
    ListEnds(r, n, list + tail);
    var list' := OfferList(r, n, list + tail);
    InFile(r, r.numPages);
    InFile(o, r.numPages);
    if list + tail == [] {
      assert list + [o.numPages] == list';
      assert Follows(o, Offer(r), n, list, [o.numPages]);
    } else {
      assert Follows(o, Offer(r), n, list, tail);
    }
  }

  lemma TailParts(tail: seq<int>, first: int)
    requires NewPages(tail, first) && tail != []
    ensures tail == [first] + tail[1..] && NewPages(tail[1..], first + 1)
  {
    assert tail[0] == first;
    forall j | 0 <= j < |tail[1..]|
      ensures tail[1..][j] == first + 1 + j
    {
      assert tail[j + 1] == first + (j + 1);
    }
  }

  lemma OfferCounts(o: Space, r: Space, n: int)
    requires Linked(o) && Linked(r) && Bounded(o, n) && SameCounts(o, r) && n >= 1 && o.numPages <= r.numPages
    requires if r.first == NO_PAGE then o.first == NO_PAGE && r.numPages == o.numPages
             else o.first == NO_PAGE ==> o.numPages < r.numPages
    ensures Bounded(Offer(o), n) && SameCounts(Offer(o), Offer(r))
  {
    InFile(o, o.numPages);
    InFile(r, o.numPages);
  }

  lemma OffersFollow(o: Space, r: Space, n: int, list: seq<int>, tail: seq<int>)
    returns (list': seq<int>, tail': seq<int>)
    requires Follows(o, r, n, list, tail) && n >= 1
    ensures Follows(Offer(o), Offer(r), n, list', tail') && list' != []
  {
    hide FreeList, Linked, NewPages, SameCounts, Bounded;
    ListEnds(o, n, list);
    ListEnds(r, n, list + tail);
    list', tail' := list, tail;
    if list == [] {
      list' := [o.numPages];
      OfferLinked(o);
      OfferLinked(r);
      OfferCounts(o, r, n);
      var made := OfferList(o, n, list);
      tail' := OfferedTail(r, n, o.numPages, tail);
    }
  }

  lemma OfferedTail(r: Space, n: int, x: int, tail: seq<int>) returns (tail': seq<int>)
    requires Linked(r) && FreeList(r, n, [] + tail) && NewPages(tail, x) && r.numPages == x + |tail| && n >= 1
    ensures FreeList(Offer(r), n, [x] + tail') && NewPages(tail', x + 1) && Offer(r).numPages == x + 1 + |tail'|
  {
    hide FreeList, Linked, NewPages;
    assert [] + tail == tail;
    ListEnds(r, n, tail);
    var both := OfferList(r, n, tail);
    if tail == [] {
      NoNewPages(x + 1);
      tail' := [];
      assert [x] + tail' == [x];
    } else {
      TailParts(tail, x);
      tail' := tail[1..];
    }
  }

  lemma NoNewPages(first: int)
    ensures NewPages([], first)
  {
  }

  lemma FillFollows(o: Space, r: Space, n: int, list: seq<int>, tail: seq<int>)
    requires Follows(o, r, n, list, tail) && list != []
    ensures o.first == r.first && o.first in o.num && o.first in o.next && r.first in r.num && r.first in r.next
    ensures Linked(Fill(o, n, o.first)) && Linked(Fill(r, n, r.first)) ==>
              Like(Fill(o, n, o.first), Fill(r, n, r.first), n)
  {
    hide FreeList, Linked;
    FillHead(o, n, list);
    FillHead(r, n, list + tail);
    var list' := if o.num[o.first] + 1 == n then list[1..] else list;
    assert (list + tail)[1..] == list[1..] + tail;
    if Linked(Fill(o, n, o.first)) && Linked(Fill(r, n, r.first)) {
      assert Follows(Fill(o, n, o.first), Fill(r, n, r.first), n, list', tail);
    }
  }

  /** Storing the same new record in both. */
  lemma NewFollows(o: Space, r: Space, n: int, list: seq<int>, tail: seq<int>, k: int)
    requires Follows(o, r, n, list, tail) && n >= 1 && k == Offered(o)
    ensures Like(Put(o, n, k, false), Put(r, n, k, false), n)
  {
    hide FreeList, Linked, Fill, Like;
    SameOffer(o, r, n, list, tail);
    OfferLinked(o);
    OfferLinked(r);
    PutLinked(o, n, k, false);
    PutLinked(r, n, k, false);
    var list', tail' := OffersFollow(o, r, n, list, tail);
    FillFollows(Offer(o), Offer(r), n, list', tail');
  }

  /** Taking the same record out of both. */
  lemma TakeFollows(o: Space, r: Space, n: int, list: seq<int>, tail: seq<int>, k: int)
    requires Follows(o, r, n, list, tail) && k in o.num
    ensures Like(Take(o, n, k), Take(r, n, k), n)
  {
    hide FreeList, Linked;
    TakeLinked(o, n, k);
    TakeLinked(r, n, k);
    var list' := TakeList(o, n, list, k);
    var both := TakeList(r, n, list + tail, k);
    assert both == list' + tail;
    assert Follows(Take(o, n, k), Take(r, n, k), n, list', tail);
  }

  // ---- a run and its way back

  lemma SameList(s: Space, n: int, a: seq<int>, b: seq<int>)
    requires Linked(s) && FreeList(s, n, a) && FreeList(s, n, b)
    ensures a == b
  {
    ChainUnique(s.next, s.first, a, b);
  }

  /** The list after a new record. */
  lemma PutNew(o: Space, n: int, list: seq<int>) returns (list': seq<int>)
    requires Linked(o) && FreeList(o, n, list) && n >= 1
    ensures Offered(o) in Offer(o).num && Offered(o) in Offer(o).next && Offered(o) in Put(o, n, Offered(o), false).num
    ensures Linked(Put(o, n, Offered(o), false)) && FreeList(Put(o, n, Offered(o), false), n, list')
    ensures list == [] ==> Offered(o) == o.numPages && list' == if n == 1 then [] else [o.numPages]
    ensures list != [] ==> Offered(o) == list[0] && list[0] in o.num
    ensures list != [] ==> list' == if o.num[list[0]] + 1 == n then list[1..] else list
  {
    hide FreeList, Linked;
    OfferLinked(o);
    PutLinked(o, n, Offered(o), false);
    ListEnds(o, n, list);
    ListHead(o, n, list);
    var l := OfferList(o, n, list);
    InFile(Offer(o), Offered(o));
    FillHead(Offer(o), n, l);
    list' := if Offer(o).num[Offered(o)] + 1 == n then l[1..] else l;
  }

  /** Taking out the record that was stored last. */
  lemma NewGoesBack(o: Space, r: Space, n: int, list: seq<int>)
    requires Linked(o) && Bounded(o, n) && FreeList(o, n, list) && n >= 1
    requires Like(Put(o, n, Offered(o), false), r, n)
    ensures Like(o, Take(r, n, Offered(o)), n)
  {
    hide FreeList, Linked, Bounded;
    var k := Offered(o);
    var o1 := Put(o, n, k, false);
    var list1 := PutNew(o, n, list);
    var list2, tail :| Follows(o1, r, n, list2, tail);
    SameList(o1, n, list1, list2);
    TakeLinked(r, n, k);
    BoundedAt(o1, r, n, k);
    var both := TakeList(r, n, list1 + tail, k);
    InFile(o, k);
    InFile(o, o.numPages);
    if list == [] {
      assert both == [] + ([k] + tail);
      assert NewPages([k] + tail, o.numPages);
      assert Follows(o, Take(r, n, k), n, [], [k] + tail);
    } else {
      assert both == list + tail;
      assert Follows(o, Take(r, n, k), n, list, tail);
    }
  }

  lemma BoundedAt(o: Space, r: Space, n: int, k: int)
    requires Bounded(o, n) && SameCounts(o, r) && k in o.num
    ensures k in r.num && r.num[k] == o.num[k] <= n
  {
  }

  /** Storing again the record that was taken out last. */
  lemma OldGoesBack(o: Space, r: Space, n: int, list: seq<int>, k: int)
    requires Linked(o) && Bounded(o, n) && FreeList(o, n, list) && n >= 1 && k in o.num
    requires Like(Take(o, n, k), r, n)
    ensures Like(o, Put(r, n, k, false), n) && (o.num[k] == n ==> Offered(r) == k)
  {
    hide FreeList, Linked, Bounded;
    var o1 := Take(o, n, k);
    TakeLinked(o, n, k);
    BoundedAt(o, o, n, k);
    var list1 := TakeList(o, n, list, k);
    var list2, tail :| Follows(o1, r, n, list2, tail);
    SameList(o1, n, list1, list2);
    PutLinked(r, n, k, false);
    InFile(r, k);
    ListEnds(r, n, list1 + tail);
    RoomyIn(r, n, list1 + tail, k);
    ListHead(r, n, list1 + tail);
    if o.num[k] == n {
      FillHead(r, n, list1 + tail);
      assert (list1 + tail)[1..] == list + tail;
    } else {
      ListKept(r, n, list1 + tail, k, r.num[k] + 1);
    }
    assert Follows(o, Put(r, n, k, false), n, list, tail);
  }

  lemma RoomyIn(s: Space, n: int, list: seq<int>, k: int)
    requires FreeList(s, n, list) && k in s.num && s.num[k] < n
    ensures list != []
  {
    assert Roomy(s, n, k);
  }
}
