/** The free-space bookkeeping of a heap file: how many records each page holds, and the list of
    pages with room that starts in the file header and goes on through the page headers. */
module FreeSpace {
  import opened Common

  datatype Space = Space(numPages: int, first: int, num: map<int, int>, next: map<int, int>)

  /** Page 0 is the file header. */
  const NEW_FILE := Space(1, NO_PAGE, map[], map[])

  predicate LinkOk(s: Space, k: int) {
    k == NO_PAGE || k in s.num
  }

  /** The pages are numbered from 1 on, and links lead to pages of the file. */
  ghost predicate Linked(s: Space) {
    && s.numPages >= 1
    && (forall k :: k in s.num <==> 1 <= k < s.numPages)
    && (forall k :: k in s.next <==> k in s.num)
    && LinkOk(s, s.first) && forall k :: k in s.next ==> LinkOk(s, s.next[k])
  }

  lemma LinkedPages(s: Space)
    requires Linked(s)
    ensures s.numPages >= 1 && s.numPages !in s.num && LinkOk(s, s.first)
  {
  }

  // ---- what the file handle does to it ----

  /** The page that a request for a free page returns. */
  function Offered(s: Space): int {
    if s.first == NO_PAGE then s.numPages else s.first
  }

  /** The request itself: an empty list gets a new page. */
  function Offer(s: Space): Space {
    if s.first != NO_PAGE then s
    else Space(s.numPages + 1, s.numPages, s.num[s.numPages := 0], s.next[s.numPages := NO_PAGE])
  }

  /** One more record in page `k`: when that fills the page, the list goes on behind it. */
  function Fill(s: Space, n: int, k: int): Space
    requires k in s.num && k in s.next
  {
    var c := s.num[k] + 1;
    s.(num := s.num[k := c], first := if c == n then s.next[k] else s.first)
  }

  /** A record is stored at a place of page `k` that is used already or not. */
  function Put(s: Space, n: int, k: int, used: bool): Space {
    var o := Offer(s);
    if used || k !in o.num || k !in o.next then o else Fill(o, n, k)
  }

  /** One record less in page `k`: a page that was full comes to the front of the list. */
  function Take(s: Space, n: int, k: int): Space {
    if k !in s.num then s
    else
      var c := s.num[k] - 1;
      if c == n - 1 then s.(num := s.num[k := c], next := s.next[k := s.first], first := k)
      else s.(num := s.num[k := c])
  }

  /** The page is there and has no room for another of `n` records. */
  predicate FullAt(s: Space, n: int, k: int) {
    k in s.num && s.num[k] >= n
  }

  /** A page that a request makes is not full. */
  lemma OfferedFull(s: Space, n: int)
    requires Linked(s) && n >= 1
    ensures FullAt(Offer(s), n, Offered(s)) <==> FullAt(s, n, Offered(s))
  {
  }

  lemma OfferLinked(s: Space)
    requires Linked(s)
    ensures Linked(Offer(s)) && Offered(s) == Offer(s).first && Offered(s) in Offer(s).num
  {
  }

  lemma PutLinked(s: Space, n: int, k: int, used: bool)
    requires Linked(s)
    ensures Linked(Put(s, n, k, used))
  {
    OfferLinked(s);
  }

  lemma TakeLinked(s: Space, n: int, k: int)
    requires Linked(s)
    ensures Linked(Take(s, n, k))
  {
  }

  // ---- the page search of a placed insert ----

  /** The page returned by request `i` of a loop that keeps asking. */
  function Asked(s: Space, i: nat): int
    decreases i
  {
    if i == 0 then Offered(s) else Asked(Offer(s), i - 1)
  }

  /** Asking again never gives another page, so the search for a page that is not before `target`
      ends if and only if the first answer is good. */
  lemma SearchEnds(s: Space, target: int)
    requires Linked(s)
    ensures (exists i: nat :: Asked(s, i) >= target) <==> Offered(s) >= target
  {
    forall i: nat
      ensures Asked(s, i) == Offered(s)
    {
      SameAnswer(s, i);
    }
    if Offered(s) >= target {
      var once: nat := 0;
      SameAnswer(s, once);
      assert Asked(s, once) >= target;
    }
  }

  lemma {:induction false} SameAnswer(s: Space, i: nat)
    requires Linked(s)
    ensures Asked(s, i) == Offered(s)
    decreases i
  {
    if i == 0 {
    } else {
      OfferLinked(s);
      SameAnswer(Offer(s), i - 1);
    }
  }

  // ---- the free list ----

  /** Following the links from `first` visits `list` and then ends. */
  ghost predicate Chain(next: map<int, int>, first: int, list: seq<int>)
    decreases list
  {
    if list == [] then
      first == NO_PAGE
    else
      first == list[0] && first in next && Chain(next, next[first], list[1..])
  }

  ghost predicate Roomy(s: Space, n: int, k: int) {
    k in s.num && s.num[k] < n
  }

  /** The list is a chain without repetition, and holds exactly the pages with a free slot. */
  ghost predicate FreeList(s: Space, n: int, list: seq<int>) {
    && Chain(s.next, s.first, list)
    && NoDup(list)
    && (forall k :: k in list <==> Roomy(s, n, k))
  }

  /** No list at all describes the pages with room. */
  ghost predicate ListLost(s: Space, n: int) {
    forall list :: !FreeList(s, n, list)
  }

  lemma {:induction false} ChainKept(next: map<int, int>, after: map<int, int>, first: int, list: seq<int>)
    requires Chain(next, first, list)
    requires forall k :: k in list && k in next ==> k in after && after[k] == next[k]
    ensures Chain(after, first, list)
    decreases list
  {
    if list == [] {
    } else {
      assert list[0] in list;
      forall k | k in list[1..] && k in next
        ensures k in after && after[k] == next[k]
      {
        assert k in list;
      }
      ChainKept(next, after, next[first], list[1..]);
    }
  }

  /** The links determine the list. */
  lemma {:induction false} ChainUnique(next: map<int, int>, first: int, a: seq<int>, b: seq<int>)
    requires NO_PAGE !in next
    requires Chain(next, first, a) && Chain(next, first, b)
    ensures a == b
    decreases a
  {
    if a == [] || b == [] {
    } else {
      ChainUnique(next, next[first], a[1..], b[1..]);
      assert a == [a[0]] + a[1..] && b == [b[0]] + b[1..];
    }
  }

  lemma {:induction false} ChainTail(next: map<int, int>, first: int, list: seq<int>, j: nat)
    requires Chain(next, first, list) && j < |list|
    ensures list[j] in next && Chain(next, next[list[j]], list[j + 1..])
    decreases j
  {
    if j == 0 {
    } else {
      ChainTail(next, next[first], list[1..], j - 1);
      assert list[1..][j - 1] == list[j];
      assert list[1..][j..] == list[j + 1..];
    }
  }

  lemma ListHead(s: Space, n: int, list: seq<int>)
    requires FreeList(s, n, list)
    ensures list == [] ==> s.first == NO_PAGE
    ensures list != [] ==> s.first == list[0] && Roomy(s, n, s.first)
  {
    if list != [] {
      assert list[0] in list;
    }
  }

  lemma ListEnds(s: Space, n: int, list: seq<int>)
    requires Linked(s) && FreeList(s, n, list)
    ensures s.first == NO_PAGE <==> list == []
  {
    ListHead(s, n, list);
  }

  /** A count that does not fill or empty a page for the list may change. */
  lemma ListKept(s: Space, n: int, list: seq<int>, k: int, c: int)
    requires FreeList(s, n, list) && k in s.num && (c < n <==> s.num[k] < n)
    ensures FreeList(s.(num := s.num[k := c]), n, list)
  {
    var s' := s.(num := s.num[k := c]);
    forall q
      ensures q in list <==> Roomy(s', n, q)
    {
      assert q in list <==> Roomy(s, n, q);
    }
  }

  /** The head of the list becomes full: the list goes on behind it. */
  lemma ListPop(s: Space, n: int, list: seq<int>, c: int)
    requires FreeList(s, n, list) && list != [] && c >= n
    ensures s.first in s.num && s.first in s.next
    ensures FreeList(s.(num := s.num[s.first := c], first := s.next[s.first]), n, list[1..])
  {
    ListHead(s, n, list);
    var s', rest := s.(num := s.num[s.first := c], first := s.next[s.first]), list[1..];
    assert list == [s.first] + rest;
    forall q
      ensures q in rest <==> Roomy(s', n, q)
    {
      assert q in list <==> Roomy(s, n, q);
      if q == s.first {
        assert s.first !in rest;
      }
    }
  }

  /** A page without room, or a new one, gets room and comes to the front of the list. */
  lemma ListPush(s: Space, n: int, list: seq<int>, k: int, c: int, s': Space)
    requires FreeList(s, n, list) && !Roomy(s, n, k) && c < n
    requires s'.num == s.num[k := c] && s'.next == s.next[k := s.first] && s'.first == k
    ensures FreeList(s', n, [k] + list)
  {
    var more := [k] + list;
    assert k !in list;
    assert more[1..] == list;
    ChainKept(s.next, s'.next, s.first, list);
    forall q
      ensures q in more <==> Roomy(s', n, q)
    {
      assert q in list <==> Roomy(s, n, q);
    }
  }

  /** Going on behind a page that is not the head loses the head. */
  lemma ListCut(s: Space, n: int, list: seq<int>, k: int, c: int)
    requires Linked(s) && FreeList(s, n, list) && Roomy(s, n, k) && k != s.first
    ensures k in s.next && ListLost(s.(num := s.num[k := c], first := s.next[k]), n)
  {
    var s' := s.(num := s.num[k := c], first := s.next[k]);
    assert k in list;
    var j :| 0 <= j < |list| && list[j] == k;
    ChainTail(s.next, s.first, list, j);
    var rest := list[j + 1..];
    assert s.first == list[0] && s.first !in rest;
    ListHead(s, n, list);
    assert Roomy(s', n, s.first);
    forall other
      ensures !FreeList(s', n, other)
    {
      if FreeList(s', n, other) {
        ChainUnique(s'.next, s'.first, other, rest);
      }
    }
  }

  lemma OfferList(s: Space, n: int, list: seq<int>) returns (list': seq<int>)
    requires Linked(s) && FreeList(s, n, list) && n >= 1
    ensures list' == if list == [] then [s.numPages] else list
    ensures FreeList(Offer(s), n, list') && list' != [] && Roomy(Offer(s), n, Offered(s))
  {
    ListEnds(s, n, list);
    list' := list;
    if list == [] {
      ListPush(s, n, list, s.numPages, 0, Offer(s));
      list' := [s.numPages] + list;
    }
    ListHead(Offer(s), n, list');
  }

  /** The list survives a placed insert when the place was used, the page heads the list, or the
      page keeps a free slot. */
  predicate Survives(s: Space, n: int, k: int, used: bool) {
    used || k == Offered(s) || (k in s.num && s.num[k] + 1 < n)
  }

  /** Otherwise the list is lost. */
  lemma PutList(s: Space, n: int, list: seq<int>, k: int, used: bool) returns (list': seq<int>)
    requires Linked(s) && FreeList(s, n, list) && n >= 1
    requires k in Offer(s).num && (used || Roomy(Offer(s), n, k))
    ensures Survives(s, n, k, used) ==> FreeList(Put(s, n, k, used), n, list')
    ensures !Survives(s, n, k, used) ==> ListLost(Put(s, n, k, used), n)
  {
    hide Linked;
    var o := Offer(s);
    OfferLinked(s);
    OfferHas(s, k);
    list' := OfferList(s, n, list);
    if used {
    } else if o.num[k] + 1 < n {
      ListKept(o, n, list', k, o.num[k] + 1);
    } else if k == o.first {
      ListPop(o, n, list', o.num[k] + 1);
      list' := list'[1..];
    } else {
      ListCut(o, n, list', k, o.num[k] + 1);
    }
  }

  lemma OfferHas(s: Space, k: int)
    requires Linked(s) && k in Offer(s).num
    ensures k in Offer(s).next
    ensures k == Offered(s) || (k in s.num && Offer(s).num[k] == s.num[k])
  {
  }

  lemma TakeList(s: Space, n: int, list: seq<int>, k: int) returns (list': seq<int>)
    requires Linked(s) && FreeList(s, n, list) && k in s.num && s.num[k] <= n
    ensures list' == if s.num[k] == n then [k] + list else list
    ensures FreeList(Take(s, n, k), n, list')
  {
    list' := list;
    if s.num[k] == n {
      ListPush(s, n, list, k, n - 1, Take(s, n, k));
      list' := [k] + list;
    } else {
      ListKept(s, n, list, k, s.num[k] - 1);
    }
  }

  // ---- inputs on which a placed insert goes wrong ----

  /** A file with one record to a page after `m` inserts. */
  function FullPages(m: nat): Space {
    if m == 0 then NEW_FILE else Put(FullPages(m - 1), 1, m, false)
  }

  lemma {:induction false} FullPagesAre(m: nat)
    ensures FullPages(m).numPages == m + 1 && FullPages(m).first == NO_PAGE
    ensures forall k :: k in FullPages(m).num <==> 1 <= k <= m
    ensures forall k :: k in FullPages(m).next <==> 1 <= k <= m
    ensures forall k :: k in FullPages(m).num ==> FullPages(m).num[k] == 1
    ensures forall k :: k in FullPages(m).next ==> FullPages(m).next[k] == NO_PAGE
  {
    if m == 0 {
    } else {
      FullPagesAre(m - 1);
    }
  }

  /** When the record of page `h` is taken out, that page heads the list, and a search for any later
      page never ends: for page 5, say, in a file of five pages whose third has room. */
  lemma SearchNever(m: nat, h: int, t: int)
    requires 1 <= h < t <= m
    ensures Linked(Take(FullPages(m), 1, h)) && FreeList(Take(FullPages(m), 1, h), 1, [h])
    ensures t in Take(FullPages(m), 1, h).num
    ensures !exists i: nat :: Asked(Take(FullPages(m), 1, h), i) >= t
  {
    FullPagesAre(m);
    assert [h][1..] == [];
    SearchEnds(Take(FullPages(m), 1, h), t);
  }

  /** A file with one record to a page after two inserts and both removals. */
  function BothEmptied(): Space {
    Take(Take(Put(Put(NEW_FILE, 1, 1, false), 1, 2, false), 1, 1), 1, 2)
  }

  /** Page 2 heads its list; putting a record in page 1 loses page 2. */
  lemma HeadLost()
    ensures Linked(BothEmptied()) && FreeList(BothEmptied(), 1, [2, 1]) && Offered(BothEmptied()) >= 1
    ensures ListLost(Put(BothEmptied(), 1, 1, false), 1)
  {
    var s := BothEmptied();
    assert s.numPages == 3 && s.first == 2;
    assert s.num == map[1 := 0, 2 := 0] && s.next == map[1 := NO_PAGE, 2 := 1];
    assert [2, 1][1..] == [1] && [1][1..] == [];
    var list := PutList(s, 1, [2, 1], 1, false);
  }

  /** Storing a row in page 1 and then one in page 2 of the same file leaves page 1 at the head of the list,
      and it is full. */
  lemma FullOffered()
    ensures var s := Put(BothEmptied(), 1, 1, false);
            && Offered(BothEmptied()) >= 1 && Offered(s) >= 2
            && Offered(Put(s, 1, 2, false)) == 1 && FullAt(Put(s, 1, 2, false), 1, 1)
  {
    var s := BothEmptied();
    assert s.numPages == 3 && s.first == 2;
    assert s.num == map[1 := 0, 2 := 0] && s.next == map[1 := NO_PAGE, 2 := 1];
    var s1 := Put(s, 1, 1, false);
    assert s1 == Space(3, NO_PAGE, map[1 := 1, 2 := 0], s.next);
    assert Offer(s1).first == 3 && Offer(s1).num[2] == 0 && Offer(s1).next[2] == 1;
  }
}
