/** Heap files: pages of record slots, their free list, and scans over them. */
module HeapFile {
  import opened Common
  import opened Bitmap
  import opened FreeSpace
  import Layout

  type Record = seq<int>

  const NO_RID := Rid(-1, -1)

  datatype Page = Page(bitmap: seq<bv8>, slots: seq<Record>, num: nat, next: int)

  // ---- what a file holds ----

  ghost predicate PageOk(p: Page, n: nat) {
    && |p.slots| == n <= |p.bitmap| * WIDTH
    && p.num == Count(p.bitmap, n)
  }

  ghost predicate PagesOk(pages: map<int, Page>, numPages: int, n: nat) {
    && (forall k :: k in pages <==> 1 <= k < numPages)
    && (forall k :: k in pages ==> PageOk(pages[k], n))
  }

  predicate Used(pages: map<int, Page>, r: Rid) {
    && r.pageNo in pages
    && 0 <= r.slotNo < |pages[r.pageNo].slots|
    && r.slotNo < |pages[r.pageNo].bitmap| * WIDTH
    && IsSet(pages[r.pageNo].bitmap, r.slotNo)
  }

  ghost function Slots(pages: map<int, Page>, n: nat): set<Rid> {
    set k, s: int | k in pages && 0 <= s < n :: Rid(k, s)
  }

  /** The row map of a file: the used slots and their records. */
  ghost function Rows(pages: map<int, Page>, n: nat): map<Rid, Record> {
    map r | r in Slots(pages, n) && Used(pages, r) :: pages[r.pageNo].slots[r.slotNo]
  }

  lemma RowsHas(pages: map<int, Page>, numPages: int, n: nat, r: Rid)
    requires PagesOk(pages, numPages, n)
    ensures r in Rows(pages, n) <==> Used(pages, r)
    ensures Used(pages, r) ==> Rows(pages, n)[r] == pages[r.pageNo].slots[r.slotNo]
  {
    hide Used;
    if Used(pages, r) {
      UsedSlot(pages, r);
      assert PageOk(pages[r.pageNo], n);
      assert Rid(r.pageNo, r.slotNo) in Slots(pages, n);
    }
  }

  lemma UsedSlot(pages: map<int, Page>, r: Rid)
    requires Used(pages, r)
    ensures r.pageNo in pages && 0 <= r.slotNo < |pages[r.pageNo].slots|
  {
  }

  // ---- its free-space bookkeeping ----

  ghost function SpaceOf(pages: map<int, Page>, numPages: int, first: int): Space {
    Space(numPages, first, map k | k in pages :: pages[k].num, map k | k in pages :: pages[k].next)
  }

  /** Storing a page stores its count and its link. */
  lemma SpacePut(pages: map<int, Page>, numPages: int, first: int, k: int, p: Page)
    ensures SpaceOf(pages[k := p], numPages, first).num == SpaceOf(pages, numPages, first).num[k := p.num]
    ensures SpaceOf(pages[k := p], numPages, first).next == SpaceOf(pages, numPages, first).next[k := p.next]
    ensures k in pages && pages[k].num == p.num ==>
              SpaceOf(pages[k := p], numPages, first).num == SpaceOf(pages, numPages, first).num
    ensures k in pages && pages[k].next == p.next ==>
              SpaceOf(pages[k := p], numPages, first).next == SpaceOf(pages, numPages, first).next
  {
  }

  // ---- one page ----

  lemma PagesPut(pages: map<int, Page>, numPages: int, n: nat, k: int, p: Page)
    requires PagesOk(pages, numPages, n) && k in pages && PageOk(p, n)
    ensures PagesOk(pages[k := p], numPages, n)
  {
  }

  /** The page with a record stored at a clear slot. */
  function Filled(p: Page, i: nat, buf: Record): Page
    requires i < |p.slots| <= |p.bitmap| * WIDTH
  {
    p.(slots := p.slots[i := buf], bitmap := SetBit(p.bitmap, i), num := p.num + 1)
  }

  lemma FilledRows(pages: map<int, Page>, numPages: int, n: nat, r: Rid, buf: Record)
    requires PagesOk(pages, numPages, n)
    requires r.pageNo in pages && 0 <= r.slotNo < n && !Used(pages, r)
    ensures |pages[r.pageNo].slots| == n <= |pages[r.pageNo].bitmap| * WIDTH
    ensures PagesOk(pages[r.pageNo := Filled(pages[r.pageNo], r.slotNo, buf)], numPages, n)
    ensures Rows(pages[r.pageNo := Filled(pages[r.pageNo], r.slotNo, buf)], n) == Rows(pages, n)[r := buf]
  {
    hide Rows, IsSet, SetBit, Count;
    var p := pages[r.pageNo];
    assert PageOk(p, n);
    CountSet(p.bitmap, r.slotNo, n);
    var f := Filled(p, r.slotNo, buf);
    PagesPut(pages, numPages, n, r.pageNo, f);
    var after := pages[r.pageNo := f];
    forall q
      ensures q in Rows(after, n) <==> q in Rows(pages, n)[r := buf]
      ensures q in Rows(after, n) ==> Rows(after, n)[q] == Rows(pages, n)[r := buf][q]
    {
      FilledAt(pages, numPages, n, r, buf, q);
    }
  }

  lemma FilledAt(pages: map<int, Page>, numPages: int, n: nat, r: Rid, buf: Record, q: Rid)
    requires PagesOk(pages, numPages, n)
    requires r.pageNo in pages && 0 <= r.slotNo < n
    requires PageOk(pages[r.pageNo], n)
    requires PagesOk(pages[r.pageNo := Filled(pages[r.pageNo], r.slotNo, buf)], numPages, n)
    ensures q in Rows(pages[r.pageNo := Filled(pages[r.pageNo], r.slotNo, buf)], n) <==> q == r || q in Rows(pages, n)
    ensures r in Rows(pages[r.pageNo := Filled(pages[r.pageNo], r.slotNo, buf)], n)
    ensures Rows(pages[r.pageNo := Filled(pages[r.pageNo], r.slotNo, buf)], n)[r] == buf
    ensures q != r && q in Rows(pages, n) ==>
      Rows(pages[r.pageNo := Filled(pages[r.pageNo], r.slotNo, buf)], n)[q] == Rows(pages, n)[q]
  {
    hide Rows, IsSet, SetBit, Count;
    var after := pages[r.pageNo := Filled(pages[r.pageNo], r.slotNo, buf)];
    RowsHas(pages, numPages, n, q);
    RowsHas(after, numPages, n, q);
    RowsHas(after, numPages, n, r);
    SetAt(pages[r.pageNo].bitmap, r.slotNo, r.slotNo);
    if q.pageNo == r.pageNo && 0 <= q.slotNo < n {
      SetAt(pages[r.pageNo].bitmap, r.slotNo, q.slotNo);
    }
  }

  /** The page with the bit of a slot reset. */
  function Emptied(p: Page, i: nat): Page
    requires i < |p.slots| <= |p.bitmap| * WIDTH && p.num > 0
  {
    p.(bitmap := ResetBit(p.bitmap, i), num := p.num - 1)
  }

  lemma EmptiedRows(pages: map<int, Page>, numPages: int, n: nat, r: Rid)
    requires PagesOk(pages, numPages, n) && Used(pages, r)
    ensures pages[r.pageNo].num > 0 && |pages[r.pageNo].slots| == n
    ensures PagesOk(pages[r.pageNo := Emptied(pages[r.pageNo], r.slotNo)], numPages, n)
    ensures Rows(pages[r.pageNo := Emptied(pages[r.pageNo], r.slotNo)], n) == Rows(pages, n) - {r}
  {
    hide Rows, IsSet, ResetBit, Count;
    var p := pages[r.pageNo];
    assert PageOk(p, n);
    CountReset(p.bitmap, r.slotNo, n);
    var e := Emptied(p, r.slotNo);
    PagesPut(pages, numPages, n, r.pageNo, e);
    var after := pages[r.pageNo := e];
    forall q
      ensures q in Rows(after, n) <==> q in Rows(pages, n) - {r}
      ensures q in Rows(after, n) ==> Rows(after, n)[q] == (Rows(pages, n) - {r})[q]
    {
      EmptiedAt(pages, numPages, n, r, q);
    }
  }

  lemma EmptiedAt(pages: map<int, Page>, numPages: int, n: nat, r: Rid, q: Rid)
    requires PagesOk(pages, numPages, n) && Used(pages, r)
    requires PageOk(pages[r.pageNo], n) && pages[r.pageNo].num > 0
    requires PagesOk(pages[r.pageNo := Emptied(pages[r.pageNo], r.slotNo)], numPages, n)
    ensures q in Rows(pages[r.pageNo := Emptied(pages[r.pageNo], r.slotNo)], n) <==> q != r && q in Rows(pages, n)
    ensures q != r && q in Rows(pages, n) ==>
      Rows(pages[r.pageNo := Emptied(pages[r.pageNo], r.slotNo)], n)[q] == Rows(pages, n)[q]
  {
    hide Rows, IsSet, ResetBit, Count;
    var after := pages[r.pageNo := Emptied(pages[r.pageNo], r.slotNo)];
    RowsHas(pages, numPages, n, q);
    RowsHas(after, numPages, n, q);
    if q.pageNo == r.pageNo && 0 <= q.slotNo < n {
      ResetAt(pages[r.pageNo].bitmap, r.slotNo, q.slotNo);
    }
  }

  /** The page with another record in a slot. */
  function Stored(p: Page, i: nat, buf: Record): Page
    requires i < |p.slots|
  {
    p.(slots := p.slots[i := buf])
  }

  lemma StoredRows(pages: map<int, Page>, numPages: int, n: nat, r: Rid, buf: Record)
    requires PagesOk(pages, numPages, n) && Used(pages, r)
    ensures PagesOk(pages[r.pageNo := Stored(pages[r.pageNo], r.slotNo, buf)], numPages, n)
    ensures Rows(pages[r.pageNo := Stored(pages[r.pageNo], r.slotNo, buf)], n) == Rows(pages, n)[r := buf]
  {
    hide Rows, IsSet, Count;
    var p := pages[r.pageNo];
    assert PageOk(p, n);
    var s := Stored(p, r.slotNo, buf);
    PagesPut(pages, numPages, n, r.pageNo, s);
    var after := pages[r.pageNo := s];
    forall q
      ensures q in Rows(after, n) <==> q in Rows(pages, n)[r := buf]
      ensures q in Rows(after, n) ==> Rows(after, n)[q] == Rows(pages, n)[r := buf][q]
    {
      RowsHas(pages, numPages, n, q);
      RowsHas(after, numPages, n, q);
    }
  }

  /** A page as it is created: zeroed, and last in the free list. */
  function NewPage(n: nat): Page {
    Page(Zeros(Layout.BitmapSize(n)), seq(n, _ => []), 0, NO_PAGE)
  }

  lemma NewPageOk(n: nat)
    ensures PageOk(NewPage(n), n)
  {
    ZeroCount(Layout.BitmapSize(n), n);
  }

  lemma NewPageRows(pages: map<int, Page>, numPages: int, n: nat)
    requires PagesOk(pages, numPages, n) && numPages >= 1
    ensures PagesOk(pages[numPages := NewPage(n)], numPages + 1, n)
    ensures Rows(pages[numPages := NewPage(n)], n) == Rows(pages, n)
  {
    hide Rows, IsSet, Count, NewPage;
    NewPageOk(n);
    var after := pages[numPages := NewPage(n)];
    assert PagesOk(after, numPages + 1, n);
    forall q
      ensures q in Rows(after, n) <==> q in Rows(pages, n)
      ensures q in Rows(after, n) ==> Rows(after, n)[q] == Rows(pages, n)[q]
    {
      RowsHas(pages, numPages, n, q);
      RowsHas(after, numPages + 1, n, q);
      if q.pageNo == numPages && 0 <= q.slotNo < n {
        NewPageClear(n, q.slotNo);
      }
    }
  }

  lemma NewPageClear(n: nat, i: nat)
    requires i < n
    ensures i < |NewPage(n).bitmap| * WIDTH && !IsSet(NewPage(n).bitmap, i)
  {
    ZeroClear(Layout.BitmapSize(n), i);
  }

  lemma NewPageRoom(n: nat)
    ensures NewPage(n).num == 0 && NewPage(n).next == NO_PAGE
  {
  }

  lemma PageAt(pages: map<int, Page>, numPages: int, n: nat, k: int)
    requires PagesOk(pages, numPages, n) && k in pages
    ensures |pages[k].slots| == n <= |pages[k].bitmap| * WIDTH
    ensures pages[k].num == Count(pages[k].bitmap, n) <= n
  {
    assert PageOk(pages[k], n);
  }

  lemma PrefixUsed(pages: map<int, Page>, numPages: int, n: nat, r: Rid)
    requires PagesOk(pages, numPages, n) && r.pageNo in pages && 0 <= r.slotNo < n <= |pages[r.pageNo].bitmap| * WIDTH
    requires forall q: nat :: q < r.slotNo ==> IsSet(pages[r.pageNo].bitmap, q)
    ensures forall i :: 0 <= i < r.slotNo ==> Rid(r.pageNo, i) in Rows(pages, n)
  {
    hide Rows, IsSet;
    forall i | 0 <= i < r.slotNo
      ensures Rid(r.pageNo, i) in Rows(pages, n)
    {
      assert PageOk(pages[r.pageNo], n);
      RowsHas(pages, numPages, n, Rid(r.pageNo, i));
    }
  }

  /** Links do not matter to the rows. */
  lemma Relinked(pages: map<int, Page>, numPages: int, n: nat, k: int, next: int)
    requires PagesOk(pages, numPages, n) && k in pages
    ensures PagesOk(pages[k := pages[k].(next := next)], numPages, n)
    ensures Rows(pages[k := pages[k].(next := next)], n) == Rows(pages, n)
  {
    hide Rows, IsSet, Count;
    var after := pages[k := pages[k].(next := next)];
    PagesPut(pages, numPages, n, k, pages[k].(next := next));
    forall q
      ensures q in Rows(after, n) <==> q in Rows(pages, n)
      ensures q in Rows(after, n) ==> Rows(after, n)[q] == Rows(pages, n)[q]
    {
      RowsHas(pages, numPages, n, q);
      RowsHas(after, numPages, n, q);
    }
  }

  lemma InFile(pages: map<int, Page>, numPages: int, n: nat, k: int)
    requires PagesOk(pages, numPages, n)
    ensures k in pages <==> 1 <= k < numPages
  {
  }

  lemma RowRange(pages: map<int, Page>, numPages: int, n: nat)
    requires PagesOk(pages, numPages, n)
    ensures forall q :: q in Rows(pages, n) ==> 1 <= q.pageNo < numPages && 0 <= q.slotNo < n
  {
  }

  // ---- the file handle ----

  class RmFileHandle {
    const perPage: nat
    var numPages: int
    var firstFree: int
    var pages: map<int, Page>
    ghost var free: seq<int>

    ghost function Room(): Space
      reads this
    {
      SpaceOf(pages, numPages, firstFree)
    }

    /** Every count is that of the set bits, and links stay in the file. */
    ghost predicate Sound()
      reads this
    {
      perPage >= 1 && PagesOk(pages, numPages, perPage) && Linked(Room())
    }

    /** And the free list is right. */
    ghost predicate Valid()
      reads this
    {
      Sound() && FreeList(Room(), perPage, free)
    }

    ghost function Contents(): map<Rid, Record>
      reads this
    {
      Rows(pages, perPage)
    }

    constructor (recordSize: nat)
      requires 1 <= recordSize <= Layout.MAX_RECORD_SIZE
      ensures Valid() && Contents() == map[] && Room() == NEW_FILE
      ensures perPage == Layout.RecordsPerPage(recordSize)
    {
      Layout.RecordsFit(recordSize);
      perPage := Layout.RecordsPerPage(recordSize);
      numPages, firstFree, pages, free := 1, NO_PAGE, map[], [];
    }

    /** A page from the free list; a new one when the list is empty. */
    method FetchFreePage() returns (k: int)
      requires Sound()
      modifies this
      ensures Sound() && Contents() == old(Contents()) && Room() == Offer(old(Room()))
      ensures k == firstFree == Offered(old(Room())) && k in pages
      ensures forall q :: q in old(pages) ==> q in pages && pages[q] == old(pages)[q]
      ensures old(Valid()) ==> Valid() && pages[k].num < perPage
    {
      hide Rows, PagesOk, FreeList, NewPage, Linked;
      ghost var space := Room();
      OfferLinked(space);
      if old(Valid()) {
        free := OfferList(space, perPage, free);
      }
      if firstFree == NO_PAGE {
        InFile(pages, numPages, perPage, numPages);
        LinkedPages(space);
        NewPageRows(pages, numPages, perPage);
        NewPageRoom(perPage);
        SpacePut(pages, numPages, firstFree, numPages, NewPage(perPage));
        pages := pages[numPages := NewPage(perPage)];
        firstFree := numPages;
        numPages := numPages + 1;
      }
      k := firstFree;
    }

    /** Stores a record in the first free slot of the page offered. If the free list is wrong, that page may
        be full: this fails an assertion or, without assertions, gives an invalid rid. */
    method InsertRecord(buf: Record) returns (rid: Rid)
      requires Sound()
      modifies this
      ensures Sound() && (old(Valid()) ==> Valid() && rid != NO_RID)
      ensures rid == NO_RID <==> FullAt(old(Room()), perPage, Offered(old(Room())))
      ensures rid == NO_RID ==> Contents() == old(Contents()) && Room() == Offer(old(Room()))
      ensures rid != NO_RID ==>
                && rid !in old(Contents()) && Contents() == old(Contents())[rid := buf]
                && rid.pageNo == Offered(old(Room())) && 0 <= rid.slotNo < perPage
                && Room() == Put(old(Room()), perPage, rid.pageNo, false)
                && forall i :: 0 <= i < rid.slotNo ==> Rid(rid.pageNo, i) in old(Contents())
    {
      hide Rows, PagesOk, FreeList, Chain, Count, IsSet, SetBit, Linked, Fill;
      ghost var space, list := Room(), free;
      var k := FetchFreePage();
      PageAt(pages, numPages, perPage, k);
      CountFull(pages[k].bitmap, perPage);
      OfferedFull(space, perPage);
      assert Room().num[k] == pages[k].num;
      var i := 0;
      while i < perPage && IsSet(pages[k].bitmap, i)
        invariant 0 <= i <= perPage
        invariant forall q: nat :: q < i ==> IsSet(pages[k].bitmap, q)
      {
        i := i + 1;
      }
      if i == perPage {
        return NO_RID;
      }
      rid := Rid(k, i);
      RowsHas(pages, numPages, perPage, rid);
      PrefixUsed(pages, numPages, perPage, rid);
      PutLinked(space, perPage, k, false);
      if old(Valid()) {
        free := PutList(space, perPage, list, k, false);
      }
      StoreNew(rid, buf);
    }

    /** Stores a record at a place that is not used. */
    method StoreNew(rid: Rid, buf: Record)
      requires Sound() && rid.pageNo in pages && 0 <= rid.slotNo < perPage && rid !in Contents()
      modifies this`pages, this`firstFree
      ensures PagesOk(pages, numPages, perPage) && Contents() == old(Contents())[rid := buf]
      ensures rid.pageNo in old(Room()).num && rid.pageNo in old(Room()).next
      ensures Room() == Fill(old(Room()), perPage, rid.pageNo)
    {
      hide Rows, PagesOk, Count, IsSet, SetBit, Linked;
      var k := rid.pageNo;
      PageAt(pages, numPages, perPage, k);
      RowsHas(pages, numPages, perPage, rid);
      FilledRows(pages, numPages, perPage, rid, buf);
      SpacePut(pages, numPages, firstFree, k, Filled(pages[k], rid.slotNo, buf));
      pages := pages[k := Filled(pages[k], rid.slotNo, buf)];
      if pages[k].num == perPage {
        firstFree := pages[k].next;
      }
    }

    /** Takes a record out; a page that was full returns to the front of the free list. */
    method DeleteRecord(rid: Rid)
      requires Sound() && rid in Contents()
      modifies this
      ensures Sound() && Contents() == old(Contents()) - {rid}
      ensures Room() == Take(old(Room()), perPage, rid.pageNo)
      ensures old(Valid()) ==> Valid()
    {
      hide Rows, PagesOk, FreeList, Chain, Count, IsSet, ResetBit, Linked;
      var k := rid.pageNo;
      RowsHas(pages, numPages, perPage, rid);
      EmptiedRows(pages, numPages, perPage, rid);
      PageAt(pages, numPages, perPage, k);
      TakeLinked(Room(), perPage, k);
      if old(Valid()) {
        free := TakeList(Room(), perPage, free, k);
      }
      var p := Emptied(pages[k], rid.slotNo);
      if p.num == perPage - 1 {
        var q := p.(next := firstFree);
        Relinked(pages[k := p], numPages, perPage, k, firstFree);
        assert pages[k := p][k := q] == pages[k := q];
        SpacePut(pages, numPages, firstFree, k, q);
        pages := pages[k := q];
        firstFree := k;
      } else {
        SpacePut(pages, numPages, firstFree, k, p);
        pages := pages[k := p];
      }
    }

    /** Overwrites a record in place. */
    method UpdateRecord(rid: Rid, buf: Record)
      requires Sound() && rid in Contents()
      modifies this`pages
      ensures Sound() && Contents() == old(Contents())[rid := buf]
      ensures Room() == old(Room()) && (old(Valid()) ==> Valid())
    {
      hide Rows, PagesOk, FreeList, Chain, Count, IsSet, Linked;
      RowsHas(pages, numPages, perPage, rid);
      StoredRows(pages, numPages, perPage, rid, buf);
      SpacePut(pages, numPages, firstFree, rid.pageNo, Stored(pages[rid.pageNo], rid.slotNo, buf));
      pages := pages[rid.pageNo := Stored(pages[rid.pageNo], rid.slotNo, buf)];
    }

    /** Puts a record at a given place, as rollback and recovery do. A loop asks for a free page until
        it gets one that is not before the wanted one; as asking again never gives another page, the
        loop ends at once or never, and `done` tells which. The free list survives exactly when the
        place was used, the page is the head of the list, or it keeps a free slot. */
    method InsertRecordAt(rid: Rid, buf: Record) returns (done: bool)
      requires Sound() && 1 <= rid.pageNo && 0 <= rid.slotNo < perPage
      modifies this
      ensures Sound() && (done <==> exists i: nat :: Asked(old(Room()), i) >= rid.pageNo)
      ensures done <==> Offered(old(Room())) >= rid.pageNo
      ensures done ==> Contents() == old(Contents())[rid := buf]
      ensures done ==> Room() == Put(old(Room()), perPage, rid.pageNo, rid in old(Contents()))
      ensures done && old(Valid()) && old(ListSurvives(rid)) ==> Valid()
      ensures done && old(Valid()) && !old(ListSurvives(rid)) ==> ListLost(Room(), perPage)
      ensures !done ==> Contents() == old(Contents())
    {
      hide Rows, PagesOk, FreeList, ListLost, Chain, Count, IsSet, SetBit, Linked, Fill;
      ghost var space, list := Room(), free;
      SearchEnds(space, rid.pageNo);
      var head := FetchFreePage();
      var k := rid.pageNo;
      if head < k {
        return false;
      }
      LinkedPages(Room());
      InFile(pages, numPages, perPage, head);
      InFile(pages, numPages, perPage, k);
      PageAt(pages, numPages, perPage, k);
      RowsHas(pages, numPages, perPage, rid);
      PutLinked(space, perPage, k, rid in Contents());
      if old(Valid()) {
        RoomyAt(rid);
        free := PutList(space, perPage, list, k, rid in Contents());
      }
      if IsSet(pages[k].bitmap, rid.slotNo) {
        UpdateRecord(rid, buf);
      } else {
        StoreNew(rid, buf);
      }
      return true;
    }

    /** A page with a place that is not used has room. */
    lemma RoomyAt(rid: Rid)
      requires PagesOk(pages, numPages, perPage) && rid.pageNo in pages && 0 <= rid.slotNo < perPage
      ensures rid.pageNo in Room().num && (rid in Contents() || Roomy(Room(), perPage, rid.pageNo))
    {
      hide Rows, IsSet;
      PageAt(pages, numPages, perPage, rid.pageNo);
      RowsHas(pages, numPages, perPage, rid);
      CountFull(pages[rid.pageNo].bitmap, perPage);
    }

    ghost predicate ListSurvives(rid: Rid)
      reads this
    {
      Survives(Room(), perPage, rid.pageNo, rid in Contents())
    }

    lemma InRange(rid: Rid)
      requires Sound() && rid in Contents()
      ensures rid.pageNo in pages && 1 <= rid.pageNo < numPages && 0 <= rid.slotNo < perPage
    {
      RowRange(pages, numPages, perPage);
    }

    /** Reads a slot; for a used one this is its record. */
    method GetRecord(rid: Rid) returns (rec: Record)
      requires Sound() && rid.pageNo in pages && 0 <= rid.slotNo < perPage
      ensures rid in Contents() ==> rec == Contents()[rid]
    {
      hide Rows, PagesOk, FreeList, Chain, Count, IsSet;
      PageAt(pages, numPages, perPage, rid.pageNo);
      RowsHas(pages, numPages, perPage, rid);
      rec := pages[rid.pageNo].slots[rid.slotNo];
    }
  }

  // ---- scans ----

  predicate Before(a: Rid, b: Rid) {
    a.pageNo < b.pageNo || (a.pageNo == b.pageNo && a.slotNo < b.slotNo)
  }

  const END := Rid(NO_PAGE, -1)

  /** `r` is the first row not before `from`, or the end mark when there is none. */
  ghost predicate FirstFrom(rows: map<Rid, Record>, from: Rid, r: Rid) {
    if r == END then
      forall q :: q in rows ==> Before(q, from)
    else
      r in rows && !Before(r, from) && forall q :: q in rows ==> Before(q, from) || !Before(q, r)
  }

  class RmScan {
    const file: RmFileHandle
    var rid: Rid

    constructor (f: RmFileHandle)
      requires f.Sound()
      ensures file == f
      ensures FirstFrom(f.Contents(), Rid(1, 0), rid)
    {
      file, rid := f, END;
      new;
      rid := Search(f, 1, 0);
    }

    /** Moves to the next used slot, in page and slot order. */
    method Next()
      requires file.Sound() && !IsEnd() && rid.pageNo >= 1 && 0 <= rid.slotNo < file.perPage
      modifies this
      ensures FirstFrom(file.Contents(), Rid(old(rid).pageNo, old(rid).slotNo + 1), rid)
    {
      rid := Search(file, rid.pageNo, rid.slotNo + 1);
    }

    predicate IsEnd()
      reads this
    {
      rid.pageNo == NO_PAGE && rid.slotNo == -1
    }

    static method Search(file: RmFileHandle, page: int, slot: int) returns (rid: Rid)
      requires file.Sound() && page >= 1 && 0 <= slot <= file.perPage
      ensures FirstFrom(file.Contents(), Rid(page, slot), rid)
    {
      hide Rows, PagesOk, FreeList, Chain, Count, IsSet;
      ghost var rows := file.Contents();
      ghost var from := Rid(page, slot);
      RowRange(file.pages, file.numPages, file.perPage);
      var i := page;
      while i < file.numPages
        invariant page <= i
        invariant forall q :: q in rows && !Before(q, from) ==> q.pageNo >= i
      {
        InFile(file.pages, file.numPages, file.perPage, i);
        PageAt(file.pages, file.numPages, file.perPage, i);
        var j := if i == page then slot else 0;
        while j < file.perPage
          invariant 0 <= j <= file.perPage
          invariant forall q :: q in rows && !Before(q, from) ==> !Before(q, Rid(i, j))
        {
          RowsHas(file.pages, file.numPages, file.perPage, Rid(i, j));
          if IsSet(file.pages[i].bitmap, j) {
            return Rid(i, j);
          }
          j := j + 1;
        }
        i := i + 1;
      }
      rid := END;
    }
  }

  /** A whole scan lists exactly the rids of the file, in page and slot order. */
  method ScanAll(file: RmFileHandle) returns (out: seq<Rid>)
    requires file.Sound()
    ensures forall r :: r in out <==> r in file.Contents()
    ensures forall i, j :: 0 <= i < j < |out| ==> Before(out[i], out[j])
  {
    hide Rows, PagesOk, FreeList;
    ghost var rows := file.Contents();
    RowRange(file.pages, file.numPages, file.perPage);
    out := [];
    var scan := new RmScan(file);
    ghost var from := Rid(1, 0);
    while !scan.IsEnd()
      invariant scan.file == file && FirstFrom(rows, from, scan.rid)
      invariant forall r :: r in out <==> r in rows && Before(r, from)
      invariant forall i, j :: 0 <= i < j < |out| ==> Before(out[i], out[j])
      decreases if scan.IsEnd() then 0 else file.numPages - scan.rid.pageNo, file.perPage - scan.rid.slotNo
    {
      assert forall k :: 0 <= k < |out| ==> out[k] in out;
      out := out + [scan.rid];
      from := Rid(scan.rid.pageNo, scan.rid.slotNo + 1);
      scan.Next();
    }
  }
}
