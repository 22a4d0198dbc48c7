/** The buffer pool and its LRU replacer. */
module BufferPool {
  import opened Common
  import Layout

  const INVALID_PAGE_ID := -1

  datatype PageId = PageId(fd: int, pageNo: int)

  type Data = seq<int>

  /** A page that was never written. */
  function Zeros(n: nat): (d: Data)
    ensures |d| == n && forall i :: 0 <= i < n ==> d[i] == 0
  {
    if n == 0 then [] else Zeros(n - 1) + [0]
  }

  datatype Frame = Frame(id: PageId, data: Data, dirty: bool, pins: nat)

  // ---- the replacer

  function Without(s: seq<nat>, f: nat): (r: seq<nat>)
    ensures forall x :: x in r <==> x in s && x != f
  {
    if s == [] then [] else (if s[0] == f then [] else [s[0]]) + Without(s[1..], f)
  }

  lemma {:induction false} WithoutNoDup(s: seq<nat>, f: nat)
    requires NoDup(s)
    ensures NoDup(Without(s, f))
    ensures f !in s ==> Without(s, f) == s
  {
    if s == [] {
    } else {
      WithoutNoDup(s[1..], f);
      assert s == [s[0]] + s[1..] && s[0] !in s[1..];
      assert forall x :: x in Without(s[1..], f) ==> x != s[0];
    }
  }

  /** The frames that may be evicted, the one unpinned last in front. */
  class LruReplacer {
    var list: seq<nat>
    var hash: set<nat>

    ghost predicate Valid()
      reads this
    {
      NoDup(list) && forall f :: f in hash <==> f in list
    }

    constructor ()
      ensures Valid() && list == []
    {
      list, hash := [], {};
    }

    /** Gives up the frame at the back. */
    method Victim() returns (found: bool, f: nat)
      requires Valid()
      modifies this
      ensures Valid() && (found <==> old(list) != [])
      ensures found ==> old(list) == list + [f] && f !in list
      ensures !found ==> list == old(list)
    {
      found, f := list != [], 0;
      if found {
        f := list[|list| - 1];
        list := list[..|list| - 1];
        hash := hash - {f};
      }
    }

    method Pin(f: nat)
      requires Valid()
      modifies this
      ensures Valid() && list == Without(old(list), f)
    {
      WithoutNoDup(list, f);
      if f in hash {
        list := Without(list, f);
        hash := hash - {f};
      }
    }

    method Unpin(f: nat)
      requires Valid()
      modifies this
      ensures Valid() && list == if f in old(list) then old(list) else [f] + old(list)
    {
      if f !in hash {
        list := [f] + list;
        hash := hash + {f};
      }
    }
  }

  // ---- the pool

  function OnDisk(disk: map<PageId, Data>, p: PageId): Data {
    if p in disk then disk[p] else Zeros(Layout.PAGE_SIZE)
  }

  /** The bytes of page `q` after page `p` is overwritten. */
  function Overlay(q: PageId, p: PageId, data: Data, before: Data): Data {
    if q == p then data else before
  }

  /** What a reader of a page sees. */
  function Visible(frames: seq<Frame>, table: map<PageId, nat>, disk: map<PageId, Data>, p: PageId): Data {
    if p in table && table[p] < |frames| then frames[table[p]].data else OnDisk(disk, p)
  }

  /** Frames are either free or hold the page that the table says. */
  ghost predicate Tables(frames: seq<Frame>, table: map<PageId, nat>, free: seq<nat>) {
    && NoDup(free)
    && (forall p :: p in table ==>
       table[p] < |frames| && frames[table[p]].id == p && p.pageNo != INVALID_PAGE_ID && table[p] !in free)
    && (forall f :: f in free ==> f < |frames| && IsFree(frames[f]))
    && (forall f :: 0 <= f < |frames| && f !in free ==> frames[f].id in table && table[frames[f].id] == f)
  }

  predicate IsFree(f: Frame) {
    f.id.pageNo == INVALID_PAGE_ID && !f.dirty && f.pins == 0
  }

  /** The replacer lists the resident frames that nobody has pinned. */
  ghost predicate Evictable(frames: seq<Frame>, free: seq<nat>, lru: seq<nat>) {
    forall f :: f in lru <==> 0 <= f < |frames| && f !in free && frames[f].pins == 0
  }

  /** A clean frame that no holder is modifying agrees with the disk. */
  ghost predicate Clean(frames: seq<Frame>, free: seq<nat>, disk: map<PageId, Data>, touched: set<nat>) {
    && (forall f :: 0 <= f < |frames| && f !in free && !frames[f].dirty && f !in touched ==>
       frames[f].data == OnDisk(disk, frames[f].id))
    && (forall f :: f in touched ==> f < |frames| && f !in free && frames[f].pins > 0)
  }

  /** The replacer's list is ordered by the time of the last unpin. */
  ghost predicate ByAge(lru: seq<nat>, stamp: map<nat, nat>, clock: nat) {
    && (forall f :: f in lru ==> f in stamp && stamp[f] < clock)
    && (forall i, j :: 0 <= i < j < |lru| ==> lru[i] in stamp && lru[j] in stamp && stamp[lru[i]] > stamp[lru[j]])
  }

  /** The frame for the next page that comes in: the free one given back longest ago or, if none is free, the one
      unpinned longest ago. */
  function NextFrame(free: seq<nat>, lru: seq<nat>): nat {
    if free != [] then free[0] else if lru != [] then lru[|lru| - 1] else 0
  }

  // ---- holders

  /** A call that gave its caller a pinned page, or took a pin back. */
  datatype Hold = Took(id: PageId) | GaveBack(id: PageId)

  function Pins(frames: seq<Frame>, table: map<PageId, nat>, p: PageId): nat {
    if p in table && table[p] < |frames| then frames[table[p]].pins else 0
  }

  /** The pin count of every page is the number of times it was handed out less the number of times it was
      given back. */
  ghost predicate Counted(frames: seq<Frame>, table: map<PageId, nat>, history: seq<Hold>) {
    forall p :: Pins(frames, table, p) + multiset(history)[GaveBack(p)] == multiset(history)[Took(p)]
  }

  /** Pages that somebody holds are still where they were. */
  ghost predicate HeldStay(frames: seq<Frame>, table: map<PageId, nat>, table': map<PageId, nat>) {
    forall p :: Pins(frames, table, p) > 0 ==> p in table' && p in table && table'[p] == table[p]
  }

  lemma TookOne(history: seq<Hold>, h: Hold)
    ensures forall x :: multiset(history + [h])[x] == multiset(history)[x] + if x == h then 1 else 0
  {
  }

  lemma CountInstalled(frames: seq<Frame>, table: map<PageId, nat>, free: seq<nat>, history: seq<Hold>, f: nat,
                       fr: Frame)
    requires Tables(frames, table, free) && Counted(frames, table, history) && f < |frames| && frames[f].pins == 0
    requires fr.id !in table && fr.pins == 1
    ensures Counted(frames[f := fr], (table - {frames[f].id})[fr.id := f], history + [Took(fr.id)])
    ensures HeldStay(frames, table, (table - {frames[f].id})[fr.id := f])
  {
    TookOne(history, Took(fr.id));
    var frames', table' := frames[f := fr], (table - {frames[f].id})[fr.id := f];
    forall p
      ensures Pins(frames', table', p) == Pins(frames, table, p) + if p == fr.id then 1 else 0
      ensures Pins(frames, table, p) > 0 ==> p in table' && p in table && table'[p] == table[p]
    {
      if p in table && p != fr.id {
        assert table[p] == f ==> frames[f].id == p;
      }
    }
  }

  lemma CountUpdated(frames: seq<Frame>, table: map<PageId, nat>, free: seq<nat>, history: seq<Hold>, f: nat,
                     fr: Frame, more: seq<Hold>)
    requires Tables(frames, table, free) && Counted(frames, table, history) && f < |frames| && f !in free
    requires fr.id == frames[f].id
    requires more == if fr.pins == frames[f].pins then []
                     else if fr.pins > frames[f].pins then [Took(fr.id)] else [GaveBack(fr.id)]
    requires frames[f].pins - 1 <= fr.pins <= frames[f].pins + 1
    ensures Counted(frames[f := fr], table, history + more)
  {
    assert fr.id in table && table[fr.id] == f;
    if more == [] {
      assert history + more == history;
    } else {
      TookOne(history, more[0]);
      assert more == [more[0]];
    }
    forall p
      ensures Pins(frames[f := fr], table, p) == if p == fr.id then fr.pins else Pins(frames, table, p)
    {
      assert p in table && p != fr.id ==> table[p] != f;
    }
  }

  lemma CountVacated(frames: seq<Frame>, table: map<PageId, nat>, free: seq<nat>, history: seq<Hold>, f: nat,
                     fr: Frame)
    requires Tables(frames, table, free) && Counted(frames, table, history) && f < |frames| && f !in free
    requires frames[f].pins == 0
    ensures Counted(frames[f := fr], table - {frames[f].id}, history)
    ensures HeldStay(frames, table, table - {frames[f].id})
  {
    assert frames[f].id in table && table[frames[f].id] == f;
    forall p
      ensures Pins(frames[f := fr], table - {frames[f].id}, p) == Pins(frames, table, p)
    {
      assert p in table && p != frames[f].id ==> table[p] != f;
    }
  }

  // ---- what each change of a frame keeps

  /** A new page in a frame that is free or evicted. */
  lemma InstallTables(frames: seq<Frame>, table: map<PageId, nat>, free: seq<nat>, free': seq<nat>, f: nat, fr: Frame)
    requires Tables(frames, table, free) && f < |frames| && fr.id.pageNo != INVALID_PAGE_ID && fr.id !in table
    requires NoDup(free') && forall x :: x in free' <==> x in free && x != f
    ensures Tables(frames[f := fr], (table - {frames[f].id})[fr.id := f], free')
  {
    var frames', table' := frames[f := fr], (table - {frames[f].id})[fr.id := f];
    forall p | p in table'
      ensures table'[p] < |frames'| && frames'[table'[p]].id == p && p.pageNo != INVALID_PAGE_ID && table'[p] !in free'
    {
      if p != fr.id {
        assert p in table && p != frames[f].id;
        assert table[p] != f;
      }
    }
    forall g | 0 <= g < |frames'| && g !in free'
      ensures frames'[g].id in table' && table'[frames'[g].id] == g
    {
      if g != f {
        assert g !in free && frames[g].id in table && table[frames[g].id] == g;
        assert frames[g].id != fr.id;
        SameFrame(frames, table, free, f, g);
      }
    }
  }

  /** Different resident frames hold different pages. */
  lemma SameFrame(frames: seq<Frame>, table: map<PageId, nat>, free: seq<nat>, f: nat, g: nat)
    requires Tables(frames, table, free) && f < |frames| && g < |frames| && f != g && g !in free
    ensures frames[f].id != frames[g].id
  {
  }

  lemma InstallEvictable(frames: seq<Frame>, free: seq<nat>, free': seq<nat>, lru: seq<nat>, f: nat, fr: Frame)
    requires f < |frames| && fr.pins > 0 && forall x :: x in free' <==> x in free && x != f
    requires forall g :: g in lru <==> 0 <= g < |frames| && g !in free && frames[g].pins == 0 && g != f
    ensures Evictable(frames[f := fr], free', lru)
  {
  }

  lemma InstalledVisible(frames: seq<Frame>, table: map<PageId, nat>, disk: map<PageId, Data>, f: nat, fr: Frame)
    requires f < |frames|
    ensures Visible(frames[f := fr], (table - {frames[f].id})[fr.id := f], disk, fr.id) == fr.data
  {
  }

  function WrittenBack(disk: map<PageId, Data>, fr: Frame): map<PageId, Data> {
    if fr.dirty then disk[fr.id := fr.data] else disk
  }

  /** Evicting a frame changes no page's visible bytes. */
  lemma InstallVisible(frames: seq<Frame>, table: map<PageId, nat>, free: seq<nat>, disk: map<PageId, Data>,
                       touched: set<nat>, f: nat, fr: Frame, p: PageId)
    requires Tables(frames, table, free) && Clean(frames, free, disk, touched) && f < |frames| && f !in touched
    requires fr.id.pageNo != INVALID_PAGE_ID && fr.id !in table && fr.data == OnDisk(disk, fr.id)
    ensures Visible(frames[f := fr], (table - {frames[f].id})[fr.id := f], WrittenBack(disk, frames[f]), p) ==
            Visible(frames, table, disk, p)
    ensures OnDisk(WrittenBack(disk, frames[f]), fr.id) == fr.data
  {
    if f in free {
      assert IsFree(frames[f]);
    } else {
      assert frames[f].id in table && table[frames[f].id] == f;
    }
  }

  lemma InstallClean(frames: seq<Frame>, table: map<PageId, nat>, free: seq<nat>, free': seq<nat>,
                     disk: map<PageId, Data>, touched: set<nat>, f: nat, fr: Frame)
    requires Tables(frames, table, free) && Clean(frames, free, disk, touched) && f < |frames| && f !in touched
    requires forall x :: x in free' <==> x in free && x != f
    requires fr.id.pageNo != INVALID_PAGE_ID && fr.id !in table && fr.data == OnDisk(disk, fr.id) && !fr.dirty
    ensures Clean(frames[f := fr], free', WrittenBack(disk, frames[f]), touched)
  {
    InstallVisible(frames, table, free, disk, touched, f, fr, fr.id);
    forall g | 0 <= g < |frames| && g != f && g !in free && !frames[g].dirty && g !in touched
      ensures frames[g].data == OnDisk(WrittenBack(disk, frames[f]), frames[g].id)
    {
      SameFrame(frames, table, free, f, g);
    }
  }

  /** A frame whose page stays where it is. */
  lemma UpdateTables(frames: seq<Frame>, table: map<PageId, nat>, free: seq<nat>, f: nat, fr: Frame)
    requires Tables(frames, table, free) && f < |frames| && f !in free && fr.id == frames[f].id
    ensures Tables(frames[f := fr], table, free)
  {
  }

  lemma UpdateEvictable(frames: seq<Frame>, free: seq<nat>, lru: seq<nat>, f: nat, fr: Frame, lru': seq<nat>)
    requires Evictable(frames, free, lru) && f < |frames| && f !in free
    requires forall x :: x in lru' <==> (x in lru && x != f) || (x == f && fr.pins == 0)
    ensures Evictable(frames[f := fr], free, lru')
  {
  }

  lemma UpdateVisible(frames: seq<Frame>, table: map<PageId, nat>, free: seq<nat>, disk: map<PageId, Data>, f: nat,
                      fr: Frame, p: PageId)
    requires Tables(frames, table, free) && f < |frames| && f !in free && fr.id == frames[f].id
    ensures Visible(frames[f := fr], table, disk, p) == if p == fr.id then fr.data else Visible(frames, table, disk, p)
  {
    assert fr.id in table && table[fr.id] == f;
  }

  lemma UpdateClean(frames: seq<Frame>, table: map<PageId, nat>, free: seq<nat>, disk: map<PageId, Data>,
                    touched: set<nat>, f: nat, fr: Frame, disk': map<PageId, Data>, touched': set<nat>)
    requires Tables(frames, table, free) && Clean(frames, free, disk, touched) && f < |frames| && f !in free
             && fr.id == frames[f].id
    requires disk' == disk || disk' == disk[fr.id := fr.data]
    requires forall g :: g != f ==> (g in touched' <==> g in touched)
    requires f in touched' ==> fr.pins > 0
    requires !fr.dirty && f !in touched' ==> fr.data == OnDisk(disk', fr.id)
    ensures Clean(frames[f := fr], free, disk', touched')
  {
    forall g | 0 <= g < |frames| && g != f && g !in free
      ensures OnDisk(disk', frames[g].id) == OnDisk(disk, frames[g].id)
    {
      SameFrame(frames, table, free, f, g);
    }
  }

  lemma Resident(frames: seq<Frame>, table: map<PageId, nat>, free: seq<nat>, p: PageId)
    requires Tables(frames, table, free) && p in table
    ensures table[p] < |frames| && frames[table[p]].id == p && table[p] !in free
  {
  }

  // ---- the pool

  class BufferPoolManager {
    var frames: seq<Frame>
    var table: map<PageId, nat>
    var free: seq<nat>
    var disk: map<PageId, Data>
    var nextPage: map<int, nat>
    const replacer: LruReplacer
    ghost var touched: set<nat>
    ghost var stamp: map<nat, nat>
    ghost var clock: nat
    /** What was handed out and given back so far. */
    ghost var history: seq<Hold>

    ghost predicate Valid()
      reads this, replacer
    {
      && replacer.Valid()
      && Tables(frames, table, free)
      && Evictable(frames, free, replacer.list)
      && Clean(frames, free, disk, touched)
      && ByAge(replacer.list, stamp, clock)
      && Numbered(table, disk, nextPage)
      && Counted(frames, table, history)
    }

    /** The store that the pool caches. */
    ghost function View(p: PageId): Data
      reads this
    {
      Visible(frames, table, disk, p)
    }

    constructor (poolSize: nat)
      ensures Valid() && fresh(replacer) && |frames| == poolSize && history == []
      ensures forall p :: View(p) == Zeros(Layout.PAGE_SIZE)
    {
      replacer := new LruReplacer();
      frames := FreshFrames(poolSize);
      free := Upto(poolSize);
      table, disk, nextPage, touched, stamp, clock, history := map[], map[], map[], {}, map[], 0, [];
      new;
      AllFree(poolSize);
    }

    /** A frame to use: a free one, or the one unpinned longest ago. */
    method FindVictim() returns (found: bool, f: nat)
      requires Valid()
      modifies this`free, replacer
      ensures replacer.Valid() && NoDup(free)
      ensures found <==> old(free) != [] || old(replacer.list) != []
      ensures !found ==> free == old(free) && replacer.list == old(replacer.list)
      ensures found ==> f < |frames| && frames[f].pins == 0 && f !in touched && f !in free && f !in replacer.list
      ensures found ==> forall x :: x in free <==> x in old(free) && x != f
      ensures old(free) != [] ==> old(free) == [f] + free && replacer.list == old(replacer.list)
      ensures found && old(free) == [] ==> free == [] && old(replacer.list) == replacer.list + [f]
      ensures found && f in old(replacer.list) ==> forall g :: g in replacer.list ==>
              g in stamp && f in stamp && stamp[f] < stamp[g]
    {
      if free != [] {
        f := free[0];
        free := free[1..];
        assert old(free) == [f] + free;
        return true, f;
      }
      found, f := replacer.Victim();
      if found {
        assert old(replacer.list)[|replacer.list|] == f;
        assert f in old(replacer.list);
      }
    }

    /** Writes an evicted page back if it is dirty, and puts another page in its frame. */
    method Install(f: nat, p: PageId, data: Data, ghost free0: seq<nat>)
      requires replacer.Valid() && Tables(frames, table, free0) && Clean(frames, free0, disk, touched)
      requires f < |frames| && f !in touched && p.pageNo != INVALID_PAGE_ID && p !in table && data == OnDisk(disk, p)
      requires frames[f].pins == 0 && Counted(frames, table, history)
      requires NoDup(free) && forall x :: x in free <==> x in free0 && x != f
      requires Numbered(table, disk, nextPage) && p.pageNo < NextNo(nextPage, p.fd)
      requires forall g :: g in replacer.list <==> 0 <= g < |frames| && g !in free0 && frames[g].pins == 0 && g != f
      requires ByAge(replacer.list, stamp, clock)
      modifies this`frames, this`table, this`disk, this`history
      ensures Valid() && (forall q :: View(q) == old(View(q)))
      ensures history == old(history) + [Took(p)] && HeldStay(old(frames), old(table), table)
      ensures disk == WrittenBack(old(disk), old(frames)[f])
      ensures |frames| == old(|frames|) && frames[f] == Frame(p, data, false, 1) && p in table && table[p] == f
              && View(p) == data
      ensures forall g :: 0 <= g < |frames| && g != f ==> frames[g] == old(frames)[g]
    {
      hide Visible, OnDisk, Tables, Clean, Evictable, Numbered, ByAge, Counted, HeldStay;
      var fr := Frame(p, data, false, 1);
      CountInstalled(frames, table, free0, history, f, fr);
      InstallTables(frames, table, free0, free, f, fr);
      InstallClean(frames, table, free0, free, disk, touched, f, fr);
      forall q
        ensures Visible(frames[f := fr], (table - {frames[f].id})[p := f], WrittenBack(disk, frames[f]), q) ==
                old(View(q))
      {
        InstallVisible(frames, table, free0, disk, touched, f, fr, q);
      }
      NumberedBack(frames, table, free0, disk, nextPage, f, p);
      InstallEvictable(frames, free0, free, replacer.list, f, fr);
      InstalledVisible(frames, table, WrittenBack(disk, frames[f]), f, fr);
      if frames[f].dirty {
        disk := disk[frames[f].id := frames[f].data];
      }
      table := (table - {frames[f].id})[p := f];
      frames := frames[f := fr];
      history := history + [Took(p)];
    }

    /** Pins a page in a frame. There is no frame only if all are pinned. */
    method FetchPage(p: PageId) returns (ok: bool, f: nat)
      requires Valid() && p.pageNo != INVALID_PAGE_ID && p.pageNo < NextNo(nextPage, p.fd)
      modifies this, replacer
      ensures Valid() && (forall q :: View(q) == old(View(q)))
      ensures ok <==> old(p in table || free != [] || replacer.list != [])
      ensures |frames| == |old(frames)| && nextPage == old(nextPage)
      ensures ok ==>
              f < |frames| && frames[f].id == p && frames[f].data == View(p) && p in table && table[p] == f
              && frames[f].pins == old(Pins(frames, table, p)) + 1
              && (frames[f].dirty <==> p in old(table) && old(frames)[f].dirty)
      ensures ok ==> forall g :: 0 <= g < |frames| && g != f ==> frames[g] == old(frames)[g]
      ensures disk == if ok && p !in old(table) then WrittenBack(old(disk), old(frames)[f]) else old(disk)
      ensures !ok ==> frames == old(frames) && table == old(table) && forall g :: 0 <= g < |frames| ==>
              frames[g].pins > 0
      ensures history == if ok then old(history) + [Took(p)] else old(history)
      ensures touched == old(touched) && HeldStay(old(frames), old(table), table)
      ensures ok && p !in old(table) ==> f == old(NextFrame(free, replacer.list))
    {
      hide ByAge, Tables, Clean, Evictable, Numbered, Visible, Counted;
      if p in table {
        Resident(frames, table, free, p);
        f := table[p];
        PinResident(p);
        return true, f;
      }
      ghost var free0 := free;
      ok, f := FindVictim();
      if ok {
        AgePrefix(old(replacer.list), replacer.list, stamp, clock);
        Vacated(frames, free0, old(replacer.list), replacer.list, f);
        Install(f, p, if p in disk then disk[p] else Zeros(Layout.PAGE_SIZE), free0);
      } else {
        AllPinned(frames, free, replacer.list);
      }
    }

    /** One more holder for a page that is in the pool. */
    method PinResident(p: PageId)
      requires Valid() && p in table
      modifies this`frames, this`history, replacer
      ensures Valid() && (forall q :: View(q) == old(View(q))) && table[p] < |frames| == old(|frames|)
      ensures history == old(history) + [Took(p)]
      ensures frames[table[p]].id == p && frames[table[p]].data == View(p)
      ensures frames == old(frames)[table[p] := old(frames)[table[p]].(pins := old(frames)[table[p]].pins + 1)]
    {
      hide ByAge, Tables, Clean, Evictable, Numbered, Visible, OnDisk, Counted;
      Resident(frames, table, free, p);
      var f := table[p];
      var fr := frames[f].(pins := frames[f].pins + 1);
      CountUpdated(frames, table, free, history, f, fr, [Took(p)]);
      UpdateTables(frames, table, free, f, fr);
      CleanAt(frames, free, disk, touched, f);
      UpdateClean(frames, table, free, disk, touched, f, fr, disk, touched);
      UpdateEvictable(frames, free, replacer.list, f, fr, Without(replacer.list, f));
      AgeWithout(replacer.list, stamp, clock, f);
      forall q
        ensures Visible(frames[f := fr], table, disk, q) == View(q)
      {
        UpdateVisible(frames, table, free, disk, f, fr, q);
        UpdateVisible(frames, table, free, disk, f, frames[f], q);
        assert frames[f := frames[f]] == frames;
      }
      UpdateVisible(frames, table, free, disk, f, fr, p);
      frames := frames[f := fr];
      history := history + [Took(p)];
      replacer.Pin(f);
    }

    /** A holder of a pinned page changes its bytes in place. */
    method Modify(f: nat, data: Data)
      requires Valid() && f < |frames| && frames[f].pins > 0
      modifies this`frames, this`touched
      ensures Valid() && touched == old(touched) + {f}
      ensures frames == old(frames)[f := old(frames)[f].(data := data)]
      ensures forall q :: View(q) == Overlay(q, frames[f].id, data, old(View(q)))
    {
      hide ByAge, Tables, Clean, Evictable, Numbered, Visible, OnDisk, Counted;
      PinnedResident(frames, table, free, f);
      var fr := frames[f].(data := data);
      CountUpdated(frames, table, free, history, f, fr, []);
      assert history + [] == history;
      UpdateTables(frames, table, free, f, fr);
      UpdateClean(frames, table, free, disk, touched, f, fr, disk, touched + {f});
      NotEvictable(frames, free, replacer.list, f);
      UpdateEvictable(frames, free, replacer.list, f, fr, replacer.list);
      forall q
        ensures Visible(frames[f := fr], table, disk, q) == Overlay(q, fr.id, data, View(q))
      {
        UpdateVisible(frames, table, free, disk, f, fr, q);
      }
      frames := frames[f := fr];
      touched := touched + {f};
    }

    /** A holder lets go of a page. Whoever changed it says so: the last one to leave a changed
        frame that is not marked dirty passes `dirty`. */
    method UnpinPage(p: PageId, dirty: bool) returns (ok: bool)
      requires Valid()
      requires p in table && table[p] < |frames| && frames[table[p]].pins == 1 && table[p] in touched ==>
               dirty || frames[table[p]].dirty
      modifies this, replacer
      ensures Valid() && (forall q :: View(q) == old(View(q)))
      ensures ok <==> old(p in table && table[p] < |frames| && frames[table[p]].pins > 0)
      ensures table == old(table) && free == old(free) && disk == old(disk) && nextPage == old(nextPage)
      ensures |frames| == |old(frames)|
      ensures !ok ==> frames == old(frames) && replacer.list == old(replacer.list)
      ensures ok ==>
              frames == old(frames)[table[p] := old(frames)[table[p]].(pins := old(frames)[table[p]].pins - 1,
              dirty := old(frames)[table[p]].dirty || dirty)]
      ensures ok ==> replacer.list == if frames[table[p]].pins == 0 then [table[p]] + old(replacer.list)
              else old(replacer.list)
      ensures history == if ok then old(history) + [GaveBack(p)] else old(history)
    {
      hide ByAge, Tables, Clean, Evictable, Numbered, Visible, OnDisk, Counted;
      if p !in table {
        return false;
      }
      Resident(frames, table, free, p);
      var f := table[p];
      if frames[f].pins == 0 {
        return false;
      }
      var fr := frames[f].(pins := frames[f].pins - 1, dirty := frames[f].dirty || dirty);
      CountUpdated(frames, table, free, history, f, fr, [GaveBack(p)]);
      UpdateTables(frames, table, free, f, fr);
      CleanAt(frames, free, disk, touched, f);
      ghost var touched' := if fr.dirty then touched - {f} else touched;
      UpdateClean(frames, table, free, disk, touched, f, fr, disk, touched');
      NotEvictable(frames, free, replacer.list, f);
      UpdateEvictable(frames, free, replacer.list, f, fr, if fr.pins == 0 then [f] + replacer.list else replacer.list);
      forall q
        ensures Visible(frames[f := fr], table, disk, q) == View(q)
      {
        UpdateVisible(frames, table, free, disk, f, fr, q);
        UpdateVisible(frames, table, free, disk, f, frames[f], q);
        assert frames[f := frames[f]] == frames;
      }
      frames := frames[f := fr];
      history := history + [GaveBack(p)];
      touched := touched';
      if fr.pins == 0 {
        YoungestFirst(replacer.list, stamp, clock, f);
        stamp := stamp[f := clock];
        clock := clock + 1;
        replacer.Unpin(f);
      }
      return true;
    }

    /** Writes a page to disk, pinned or not. */
    method FlushPage(p: PageId) returns (ok: bool)
      requires Valid()
      modifies this`frames, this`disk, this`touched
      ensures Valid() && (forall q :: View(q) == old(View(q))) && (ok <==> p in table)
      ensures ok ==> disk == old(disk)[p := View(p)]
      ensures ok ==>
                && table[p] < |old(frames)|
                && frames == old(frames)[table[p] := old(frames)[table[p]].(dirty := false)]
      ensures !ok ==> disk == old(disk) && frames == old(frames)
    {
      if p !in table {
        return false;
      }
      Resident(frames, table, free, p);
      WriteFrame(table[p]);
      return true;
    }

    /** Writes the page of a resident frame to disk and marks it clean. */
    method WriteFrame(f: nat)
      requires Valid() && f < |frames| && f !in free
      modifies this`frames, this`disk, this`touched
      ensures Valid() && (forall q :: View(q) == old(View(q)))
      ensures frames == old(frames)[f := old(frames)[f].(dirty := false)]
              && disk == old(disk)[frames[f].id := frames[f].data]
      ensures touched == old(touched) - {f} && View(frames[f].id) == frames[f].data
    {
      hide ByAge, Tables, Clean, Evictable, Numbered, Visible, Counted;
      var fr := frames[f].(dirty := false);
      CountUpdated(frames, table, free, history, f, fr, []);
      assert history + [] == history;
      var disk' := disk[fr.id := fr.data];
      UpdateTables(frames, table, free, f, fr);
      UpdateClean(frames, table, free, disk, touched, f, fr, disk', touched - {f});
      EvictableAt(frames, free, replacer.list, f);
      UpdateEvictable(frames, free, replacer.list, f, fr, replacer.list);
      WriteVisible(frames, table, free, disk, f, fr);
      FrameNumbered(frames, table, free, disk, nextPage, f);
      frames := frames[f := fr];
      disk := disk';
      touched := touched - {f};
    }

    /** A frame for a page that did not exist before. */
    method NewPage(fd: int) returns (ok: bool, p: PageId, f: nat)
      requires Valid()
      modifies this, replacer
      ensures Valid() && (forall q :: View(q) == old(View(q)))
      ensures ok <==> old(free != [] || replacer.list != [])
      ensures ok ==> p == PageId(fd, old(NextNo(nextPage, fd))) && nextPage == old(nextPage)[fd := p.pageNo + 1]
      ensures ok ==> old(p !in table && p !in disk) && View(p) == Zeros(Layout.PAGE_SIZE)
      ensures |frames| == |old(frames)| && (ok ==> f < |frames| && p in table && table[p] == f)
      ensures ok ==> frames[f] == Frame(p, Zeros(Layout.PAGE_SIZE), false, 1)
      ensures disk == if ok then WrittenBack(old(disk), old(frames)[f]) else old(disk)
      ensures ok ==> forall g :: 0 <= g < |frames| && g != f ==> frames[g] == old(frames)[g]
      ensures !ok ==> frames == old(frames) && table == old(table) && nextPage == old(nextPage)
      ensures history == if ok then old(history) + [Took(p)] else old(history)
      ensures HeldStay(old(frames), old(table), table)
      ensures ok ==> f == old(NextFrame(free, replacer.list))
    {
      hide ByAge, Tables, Clean, Evictable, Visible, Counted;
      p := PageId(fd, INVALID_PAGE_ID);
      ghost var free0 := free;
      ok, f := FindVictim();
      if ok {
        AgePrefix(old(replacer.list), replacer.list, stamp, clock);
        Vacated(frames, free0, old(replacer.list), replacer.list, f);
        p := PageId(fd, NextNo(nextPage, fd));
        nextPage := nextPage[fd := NextNo(nextPage, fd) + 1];
        Install(f, p, Zeros(Layout.PAGE_SIZE), free0);
      }
    }

    /** Drops the page of an unpinned frame from the pool. */
    method Vacate(f: nat, fr: Frame)
      requires Valid() && f < |frames| && f !in free && frames[f].pins == 0 && IsFree(fr)
      modifies this, replacer
      ensures Valid() && (forall q :: View(q) == old(View(q)))
      ensures frames == old(frames)[f := fr] && table == old(table) - {old(frames)[f].id} && free == old(free) + [f]
      ensures disk == WrittenBack(old(disk), old(frames)[f]) && nextPage == old(nextPage) && touched == old(touched)
      ensures history == old(history) && HeldStay(old(frames), old(table), table)
    {
      hide ByAge, Tables, Clean, Evictable, Numbered, Visible, OnDisk, Counted;
      CleanAt(frames, free, disk, touched, f);
      CountVacated(frames, table, free, history, f, fr);
      FreeTables(frames, table, free, f, fr);
      FreeClean(frames, table, free, disk, touched, f, fr);
      FreeVisible(frames, table, free, disk, touched, f, fr);
      FreeNumbered(frames, table, free, disk, nextPage, f);
      FreeEvictable(frames, free, replacer.list, f, fr);
      AgeWithout(replacer.list, stamp, clock, f);
      replacer.Pin(f);
      table := table - {frames[f].id};
      free := free + [f];
      if frames[f].dirty {
        disk := disk[frames[f].id := frames[f].data];
      }
      frames := frames[f := fr];
    }

    /** Removes a page from the pool unless somebody holds it. */
    method DeletePage(p: PageId) returns (ok: bool)
      requires Valid()
      modifies this, replacer
      ensures Valid() && (forall q :: View(q) == old(View(q)))
      ensures !ok <==> old(p in table && table[p] < |frames| && frames[table[p]].pins > 0)
      ensures ok ==> p !in table && OnDisk(disk, p) == View(p)
      ensures forall q :: q != p ==> (q in table <==> q in old(table)) && (q in table ==> table[q] == old(table)[q])
      ensures history == old(history) && HeldStay(old(frames), old(table), table) && nextPage == old(nextPage)
      ensures free == if ok && p in old(table) then old(free) + [old(table)[p]] else old(free)
      ensures !ok ==> frames == old(frames) && table == old(table) && free == old(free) && disk == old(disk)
    {
      if p !in table {
        return true;
      }
      Resident(frames, table, free, p);
      var f := table[p];
      if frames[f].pins > 0 {
        return false;
      }
      Vacate(f, Frame(PageId(-1, INVALID_PAGE_ID), Zeros(Layout.PAGE_SIZE), false, 0));
      return true;
    }

    /** Gives the frame of a clean, unpinned page back. */
    method FreePage(p: PageId)
      requires Valid()
      requires p in table && table[p] < |frames| ==> frames[table[p]].pins == 0 && !frames[table[p]].dirty
      modifies this, replacer
      ensures Valid() && (forall q :: View(q) == old(View(q))) && p !in table && disk == old(disk)
      ensures forall q :: q != p ==> (q in table <==> q in old(table)) && (q in table ==> table[q] == old(table)[q])
      ensures history == old(history) && HeldStay(old(frames), old(table), table) && nextPage == old(nextPage)
      ensures free == if p in old(table) then old(free) + [old(table)[p]] else old(free)
    {
      if p in table {
        Resident(frames, table, free, p);
        var f := table[p];
        Vacate(f, frames[f].(id := frames[f].id.(pageNo := INVALID_PAGE_ID)));
      }
    }

    /** Writes every page of a file to disk. */
    method FlushAllPages(fd: int)
      requires Valid()
      modifies this`frames, this`disk, this`touched
      ensures Valid() && (forall q :: View(q) == old(View(q)))
      ensures |frames| == |old(frames)| && forall g :: 0 <= g < |frames| ==>
              frames[g] == if old(frames)[g].id.fd == fd then old(frames)[g].(dirty := false) else old(frames)[g]
      ensures forall q: PageId :: q.fd == fd && q in table ==> q in disk && disk[q] == View(q)
      ensures forall q: PageId :: q.fd != fd || q !in table ==>
              (q in disk <==> q in old(disk)) && (q in disk ==> disk[q] == old(disk)[q])
    {
      hide ByAge, Tables, Clean, Evictable, Numbered, Visible, Counted, Flushed;
      var i := 0;
      FlushedNone(disk, frames, table, fd);
      while i < |frames|
        invariant i <= |frames| == |old(frames)| && Valid() && (forall q :: View(q) == old(View(q)))
        invariant forall g :: 0 <= g < |frames| ==>
                  frames[g] == if g < i && old(frames)[g].id.fd == fd then old(frames)[g].(dirty := false)
                               else old(frames)[g]
        invariant Flushed(disk, old(disk), frames, table, fd, i)
      {
        InvalidIsFree(frames, table, free, i);
        FlushedNext(disk, old(disk), frames, table, free, fd, i);
        ghost var frames0 := frames;
        if frames[i].id.pageNo != INVALID_PAGE_ID && frames[i].id.fd == fd {
          WriteFrame(i);
        }
        FlushedSame(disk, old(disk), frames0, frames, table, fd, i + 1);
        i := i + 1;
      }
      FlushedAll(disk, old(disk), frames, table, free, fd);
    }

    /** Gives back every frame of a file whose pages are clean and unpinned. */
    method FreeAllPages(fd: int)
      requires Valid()
      requires forall g :: 0 <= g < |frames| && frames[g].id.pageNo != INVALID_PAGE_ID && frames[g].id.fd == fd ==>
               frames[g].pins == 0 && !frames[g].dirty
      modifies this, replacer
      ensures Valid() && (forall q :: View(q) == old(View(q))) && disk == old(disk)
      ensures forall p :: p in table <==> p in old(table) && p.fd != fd
      ensures forall p :: p in table ==> table[p] == old(table)[p]
      ensures history == old(history) && nextPage == old(nextPage)
    {
      hide ByAge, Clean, Evictable, Numbered, Visible;
      var i := 0;
      while i < |frames|
        invariant i <= |frames| == |old(frames)| && Valid() && (forall q :: View(q) == old(View(q)))
                  && disk == old(disk)
        invariant forall g :: i <= g < |frames| ==> frames[g] == old(frames)[g]
        invariant forall g :: 0 <= g < i && frames[g].id.pageNo != INVALID_PAGE_ID ==> frames[g].id.fd != fd
        invariant forall p :: p in table ==> p in old(table) && table[p] == old(table)[p]
        invariant history == old(history) && nextPage == old(nextPage)
        invariant forall p :: p in old(table) && p.fd != fd ==> p in table
      {
        InvalidIsFree(frames, table, free, i);
        if frames[i].id.pageNo != INVALID_PAGE_ID && frames[i].id.fd == fd {
          Vacate(i, frames[i].(id := frames[i].id.(pageNo := INVALID_PAGE_ID)));
        }
        i := i + 1;
      }
      forall p | p in table
        ensures p.fd != fd
      {
        Resident(frames, table, free, p);
      }
    }
  }

  /** The pages of a file in the first `n` frames have been written, and nothing else. */
  ghost predicate Flushed(disk: map<PageId, Data>, disk0: map<PageId, Data>, frames: seq<Frame>,
                          table: map<PageId, nat>, fd: int, n: nat) {
    && (forall q: PageId :: q.fd == fd && q in table && table[q] < n && table[q] < |frames| ==>
         q in disk && disk[q] == frames[table[q]].data)
    && (forall q: PageId :: q.fd != fd || q !in table || table[q] >= n ==>
         (q in disk <==> q in disk0) && (q in disk ==> disk[q] == disk0[q]))
  }

  lemma FlushedNone(disk: map<PageId, Data>, frames: seq<Frame>, table: map<PageId, nat>, fd: int)
    ensures Flushed(disk, disk, frames, table, fd, 0)
  {
  }

  lemma FlushedNext(disk: map<PageId, Data>, disk0: map<PageId, Data>, frames: seq<Frame>, table: map<PageId, nat>,
                    free: seq<nat>, fd: int, i: nat)
    requires Tables(frames, table, free) && i < |frames| && Flushed(disk, disk0, frames, table, fd, i)
    ensures var mine := frames[i].id.pageNo != INVALID_PAGE_ID && frames[i].id.fd == fd;
            Flushed(if mine then disk[frames[i].id := frames[i].data] else disk, disk0, frames, table, fd, i + 1)
  {
    assert forall q :: q in table && table[q] == i ==> q == frames[i].id;
    InvalidIsFree(frames, table, free, i);
  }

  lemma FlushedSame(disk: map<PageId, Data>, disk0: map<PageId, Data>, frames: seq<Frame>, frames': seq<Frame>,
                    table: map<PageId, nat>, fd: int, n: nat)
    requires Flushed(disk, disk0, frames, table, fd, n) && |frames'| == |frames|
    requires forall g :: 0 <= g < |frames| ==> frames'[g].data == frames[g].data
    ensures Flushed(disk, disk0, frames', table, fd, n)
  {
  }

  lemma FlushedAll(disk: map<PageId, Data>, disk0: map<PageId, Data>, frames: seq<Frame>, table: map<PageId, nat>,
                   free: seq<nat>, fd: int)
    requires Tables(frames, table, free) && Flushed(disk, disk0, frames, table, fd, |frames|)
    ensures forall q: PageId :: q.fd == fd && q in table ==> q in disk && disk[q] == Visible(frames, table, disk, q)
    ensures forall q: PageId :: q.fd != fd || q !in table ==>
              (q in disk <==> q in disk0) && (q in disk ==> disk[q] == disk0[q])
  {
  }

  /** After any calls, a page that was handed out more often than it was given back is in the pool, in a frame
      that cannot be chosen for another page. */
  lemma HolderKept(pool: BufferPoolManager, p: PageId)
    requires pool.Valid() && multiset(pool.history)[Took(p)] > multiset(pool.history)[GaveBack(p)]
    ensures p in pool.table && pool.table[p] < |pool.frames|
    ensures var f := pool.table[p];
            && pool.frames[f].id == p && f !in pool.free && f !in pool.replacer.list
            && pool.frames[f].pins == multiset(pool.history)[Took(p)] - multiset(pool.history)[GaveBack(p)]
  {
    assert Pins(pool.frames, pool.table, p) > 0;
  }

  /** Page numbers handed out so far are below the next one. */
  ghost predicate Numbered(table: map<PageId, nat>, disk: map<PageId, Data>, nextPage: map<int, nat>) {
    && (forall p :: p in table ==> p.pageNo < NextNo(nextPage, p.fd))
    && (forall p :: p in disk ==> p.pageNo < NextNo(nextPage, p.fd))
  }

  function NextNo(nextPage: map<int, nat>, fd: int): nat {
    if fd in nextPage then nextPage[fd] else 0
  }

  function FreshFrames(n: nat): (fs: seq<Frame>)
    ensures |fs| == n && forall i :: 0 <= i < n ==> IsFree(fs[i])
  {
    if n == 0 then [] else FreshFrames(n - 1) + [Frame(PageId(-1, INVALID_PAGE_ID), Zeros(Layout.PAGE_SIZE), false, 0)]
  }

  function Upto(n: nat): (s: seq<nat>)
    ensures |s| == n && forall i :: 0 <= i < n ==> s[i] == i
  {
    if n == 0 then [] else Upto(n - 1) + [n - 1]
  }

  lemma NumberedBack(frames: seq<Frame>, table: map<PageId, nat>, free: seq<nat>, disk: map<PageId, Data>,
                     nextPage: map<int, nat>, f: nat, p: PageId)
    requires Tables(frames, table, free) && Numbered(table, disk, nextPage) && f < |frames|
             && p.pageNo < NextNo(nextPage, p.fd)
    ensures Numbered((table - {frames[f].id})[p := f], WrittenBack(disk, frames[f]), nextPage)
  {
    if f in free {
      assert IsFree(frames[f]);
    }
  }

  lemma {:induction false} AgeWithout(lru: seq<nat>, stamp: map<nat, nat>, clock: nat, f: nat)
    requires ByAge(lru, stamp, clock)
    ensures ByAge(Without(lru, f), stamp, clock)
  {
    if lru == [] {
    } else {
      var rest := lru[1..];
      AgeWithout(rest, stamp, clock, f);
      assert forall x :: x in rest ==> stamp[lru[0]] > stamp[x];
    }
  }

  lemma AgePrefix(lru: seq<nat>, lru': seq<nat>, stamp: map<nat, nat>, clock: nat)
    requires ByAge(lru, stamp, clock) && lru' <= lru
    ensures ByAge(lru', stamp, clock)
  {
  }

  lemma Vacated(frames: seq<Frame>, free: seq<nat>, lru: seq<nat>, lru': seq<nat>, f: nat)
    requires Evictable(frames, free, lru) && f < |frames| && f !in lru'
    requires lru' == lru || lru == lru' + [f]
    ensures forall g :: g in lru' <==> 0 <= g < |frames| && g !in free && frames[g].pins == 0 && g != f
  {
    forall g
      ensures g in lru' <==> g in lru && g != f
    {
    }
  }

  lemma AllPinned(frames: seq<Frame>, free: seq<nat>, lru: seq<nat>)
    requires Evictable(frames, free, lru) && free == [] && lru == []
    ensures forall g :: 0 <= g < |frames| ==> frames[g].pins > 0
  {
    forall g | 0 <= g < |frames|
      ensures frames[g].pins > 0
    {
      assert g in lru <==> g !in free && frames[g].pins == 0;
    }
  }

  lemma CleanAt(frames: seq<Frame>, free: seq<nat>, disk: map<PageId, Data>, touched: set<nat>, f: nat)
    requires Clean(frames, free, disk, touched) && f < |frames| && f !in free
    ensures !frames[f].dirty && f !in touched ==> frames[f].data == OnDisk(disk, frames[f].id)
    ensures f in touched ==> frames[f].pins > 0
  {
  }

  lemma PinnedResident(frames: seq<Frame>, table: map<PageId, nat>, free: seq<nat>, f: nat)
    requires Tables(frames, table, free) && f < |frames| && frames[f].pins > 0
    ensures f !in free
  {
    assert f in free ==> IsFree(frames[f]);
  }

  lemma NotEvictable(frames: seq<Frame>, free: seq<nat>, lru: seq<nat>, f: nat)
    requires Evictable(frames, free, lru) && f < |frames| && frames[f].pins > 0
    ensures f !in lru
  {
  }

  lemma EvictableAt(frames: seq<Frame>, free: seq<nat>, lru: seq<nat>, f: nat)
    requires Evictable(frames, free, lru) && f < |frames| && f !in free
    ensures f in lru <==> frames[f].pins == 0
  {
  }

  lemma YoungestFirst(lru: seq<nat>, stamp: map<nat, nat>, clock: nat, f: nat)
    requires ByAge(lru, stamp, clock) && f !in lru
    ensures ByAge([f] + lru, stamp[f := clock], clock + 1)
  {
  }

  lemma WriteVisible(frames: seq<Frame>, table: map<PageId, nat>, free: seq<nat>, disk: map<PageId, Data>, f: nat,
                     fr: Frame)
    requires Tables(frames, table, free) && f < |frames| && f !in free && fr.id == frames[f].id
             && fr.data == frames[f].data
    ensures forall q :: Visible(frames[f := fr], table, disk[fr.id := fr.data], q) == Visible(frames, table, disk, q)
    ensures Visible(frames, table, disk, fr.id) == fr.data
  {
    assert fr.id in table && table[fr.id] == f;
  }

  lemma FrameNumbered(frames: seq<Frame>, table: map<PageId, nat>, free: seq<nat>, disk: map<PageId, Data>,
                      nextPage: map<int, nat>, f: nat)
    requires Tables(frames, table, free) && Numbered(table, disk, nextPage) && f < |frames| && f !in free
    ensures Numbered(table, disk[frames[f].id := frames[f].data], nextPage)
  {
  }

  lemma InvalidIsFree(frames: seq<Frame>, table: map<PageId, nat>, free: seq<nat>, f: nat)
    requires Tables(frames, table, free) && f < |frames|
    ensures frames[f].id.pageNo == INVALID_PAGE_ID <==> f in free
    ensures f in free ==> !frames[f].dirty
  {
    assert f in free ==> IsFree(frames[f]);
  }

  lemma FreeTables(frames: seq<Frame>, table: map<PageId, nat>, free: seq<nat>, f: nat, fr: Frame)
    requires Tables(frames, table, free) && f < |frames| && f !in free && IsFree(fr)
    ensures Tables(frames[f := fr], table - {frames[f].id}, free + [f])
  {
    forall p | p in table && p != frames[f].id
      ensures table[p] != f
    {
    }
    forall g | 0 <= g < |frames| && g !in free && g != f
      ensures frames[g].id in table - {frames[f].id}
    {
      SameFrame(frames, table, free, f, g);
    }
  }

  lemma FreeClean(frames: seq<Frame>, table: map<PageId, nat>, free: seq<nat>, disk: map<PageId, Data>,
                  touched: set<nat>, f: nat, fr: Frame)
    requires Tables(frames, table, free) && Clean(frames, free, disk, touched) && f < |frames| && f !in free
             && frames[f].pins == 0
    ensures Clean(frames[f := fr], free + [f], WrittenBack(disk, frames[f]), touched)
  {
    forall g | 0 <= g < |frames| && g != f && g !in free
      ensures OnDisk(WrittenBack(disk, frames[f]), frames[g].id) == OnDisk(disk, frames[g].id)
    {
      SameFrame(frames, table, free, f, g);
    }
  }

  lemma FreeVisible(frames: seq<Frame>, table: map<PageId, nat>, free: seq<nat>, disk: map<PageId, Data>,
                    touched: set<nat>, f: nat, fr: Frame)
    requires Tables(frames, table, free) && Clean(frames, free, disk, touched) && f < |frames| && f !in free
             && frames[f].pins == 0
    ensures forall q ::
            Visible(frames[f := fr], table - {frames[f].id}, WrittenBack(disk, frames[f]), q) ==
            Visible(frames, table, disk, q)
  {
    forall q
      ensures Visible(frames[f := fr], table - {frames[f].id}, WrittenBack(disk, frames[f]), q) ==
              Visible(frames, table, disk, q)
    {
      assert frames[f].id in table && table[frames[f].id] == f;
      if q in table && q != frames[f].id {
        assert table[q] != f;
      }
    }
  }

  lemma FreeNumbered(frames: seq<Frame>, table: map<PageId, nat>, free: seq<nat>, disk: map<PageId, Data>,
                     nextPage: map<int, nat>, f: nat)
    requires Tables(frames, table, free) && Numbered(table, disk, nextPage) && f < |frames| && f !in free
    ensures Numbered(table - {frames[f].id}, WrittenBack(disk, frames[f]), nextPage)
  {
  }

  lemma FreeEvictable(frames: seq<Frame>, free: seq<nat>, lru: seq<nat>, f: nat, fr: Frame)
    requires Evictable(frames, free, lru) && f < |frames| && f !in free
    ensures Evictable(frames[f := fr], free + [f], Without(lru, f))
  {
  }

  lemma AllFree(n: nat)
    ensures Tables(FreshFrames(n), map[], Upto(n)) && Evictable(FreshFrames(n), Upto(n), [])
    ensures Clean(FreshFrames(n), Upto(n), map[], {})
  {
    forall f | 0 <= f < n
      ensures f in Upto(n)
    {
      assert Upto(n)[f] == f;
    }
  }
}
