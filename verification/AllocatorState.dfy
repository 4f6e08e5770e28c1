/** What an allocator keeps over its whole life, and that each of its steps keeps it. */
module AllocatorState {
  import opened Heap
  import opened BucketTrees
  import opened Buckets
  import opened Page
  import opened Store
  import opened Utilization

  /** What the phases of a collection write into the metadata of each entry. */
  type Marks = (PageId, nat) -> MetaData

  /**
   Marking, evacuation and counting write the metadata of allocated entries. They make none of them young,
   and only a young original that was evacuated stops being allocated: decrements free through the page's list.
   */
  function Remarked(pg: Page, p: PageId, after: Marks): Page {
    pg.(entries := seq(|pg.entries|, (i: nat) requires i < |pg.entries| => RemarkedEntry(pg.entries[i], after(p, i))))
  }

  function RemarkedEntry(was: MetaData, now: MetaData): MetaData {
    if was.isAlloc then now.(isYoung := was.isYoung && now.isYoung, isAlloc := now.isAlloc || !was.isYoung) else was
  }

  predicate HasYoung(pg: Page) {
    exists i :: 0 <= i < |pg.entries| && pg.entries[i].isAlloc && pg.entries[i].isYoung
  }

  ghost predicate SoundPage(pg: Page, n: nat) {
    |pg.entries| == n && ValidPage(pg)
  }

  function ZeroPage(n: nat): Page {
    Page(NIL, 0, 0.0, seq(n, _ => ZERO_META), seq(n, _ => NIL))
  }

  function In(where: Option<PageId>, p: PageId): nat {
    if where == Some(p) then 1 else 0
  }

  lemma RemarkKeepsPage(pg: Page, p: PageId, after: Marks)
    requires ValidPage(pg)
    ensures ValidPage(Remarked(pg, p, after)) && |Remarked(pg, p, after).entries| == |pg.entries|
    ensures HasYoung(Remarked(pg, p, after)) ==> HasYoung(pg)
    ensures Complete(pg) && !HasYoung(pg) ==> Complete(Remarked(pg, p, after))
  {
    var r := Remarked(pg, p, after);
    assert FreeList(r) == FreeList(pg);
    forall i: nat | i < |pg.entries|
      ensures r.entries[i].isAlloc ==> pg.entries[i].isAlloc
      ensures r.entries[i].isAlloc && r.entries[i].isYoung ==> pg.entries[i].isYoung
      ensures pg.entries[i].isAlloc && !pg.entries[i].isYoung ==> r.entries[i].isAlloc
    {
      assert r.entries[i] == RemarkedEntry(pg.entries[i], after(p, i));
    }
  }

  // ---- What an allocator keeps

  /** A page in use, and the list cached for it. */
  datatype Current = Current(page: Option<PageId>, list: int)

  /** The page in use was not full when it was last recorded; without a page there is no list. */
  ghost predicate InUse(pages: Pages, c: Current) {
    if c.page.None? then c.list == NIL else c.page.value in pages && !IsFull(pages[c.page.value].util)
  }

  /** The cached list is that of the page. */
  ghost predicate InStep(pages: Pages, c: Current) {
    c.page.Some? ==> c.page.value in pages && c.list == pages[c.page.value].freelist
  }

  ghost function Places(s: Store, pages: Pages, a: Current, e: Current, p: PageId): nat
    requires p in pages
  {
    Count(s, pages, p) + In(a.page, p) + In(e.page, p)
  }

  /** The next collection looks at the allocation page and the pending pages. */
  ghost predicate Collected(s: Store, a: Current, p: PageId) {
    a.page == Some(p) || p in s.pending
  }

  ghost predicate OnlyCollected(s: Store, pages: Pages, a: Current) {
    forall p <- pages :: HasYoung(pages[p]) || !Complete(pages[p]) ==> Collected(s, a, p)
  }

  ghost predicate EachOnce(s: Store, pages: Pages, a: Current, e: Current) {
    forall p <- pages :: Places(s, pages, a, e, p) == 1
  }

  ghost predicate AllSound(pages: Pages, n: nat) {
    forall p <- pages :: SoundPage(pages[p], n)
  }

  ghost predicate AllComplete(pages: Pages) {
    forall p <- pages :: Complete(pages[p])
  }

  /** Every page stands in exactly one place, and only collected pages hold young objects or unlisted free entries. */
  ghost predicate IsPlaced(s: Store, pages: Pages, n: nat, a: Current, e: Current) {
    && 0 < n <= 100
    && GoodStore(s, pages, n)
    && AllSound(pages, n)
    && InUse(pages, a)
    && InUse(pages, e)
    && EachOnce(s, pages, a, e)
    && OnlyCollected(s, pages, a)
  }

  /** Outside the decrements of a collection the cached lists are in step as well. */
  ghost predicate IsKept(s: Store, pages: Pages, n: nat, a: Current, e: Current) {
    IsPlaced(s, pages, n, a, e) && InStep(pages, a) && InStep(pages, e)
  }

  // ---- Taking pages

  /** What taking a page out of a store does: that page is in hand, with room, and nothing else moved. */
  ghost predicate TookOut(s: Store, pages: Pages, s': Store, pages': Pages, p: PageId) {
    && pages'.Keys == pages.Keys + {p}
    && Count(s', pages', p) == 0
    && pages'[p].freecount > 0 && !IsFull(pages'[p].util)
    && (p in pages && Complete(pages[p]) ==> Complete(pages'[p]))
    && (HasYoung(pages'[p]) ==> p in pages && HasYoung(pages[p]))
    && (p !in pages ==> Complete(pages'[p]))
    && (forall q <- pages :: Count(s, pages, q) == Count(s', pages', q) + At(p, q))
    && (forall q <- pages :: q != p ==> pages'[q] == pages[q])
    && (p in pages ==> pages'[p].entries == pages[p].entries)
    && s'.pending == s.pending
  }

  lemma TookOutPage(s: Store, pages: Pages, s': Store, pages': Pages, p: PageId)
    requires TookOut(s, pages, s', pages', p)
    ensures p in pages' && pages'[p].freecount > 0 && pages.Keys <= pages'.Keys && s'.pending == s.pending
    ensures SameEntries(pages, pages')
  {
  }

  lemma PoolIsKnown(s: Store, pages: Pages, n: nat)
    requires n > 0 && GoodStore(s, pages, n) && s.empty != []
    ensures s.empty[0] in pages
  {
    assert s.empty[0] in s.empty;
  }

  lemma PagesAreSquare(pg: Page, n: nat)
    requires SoundPage(pg, n)
    ensures |pg.entries| == |pg.links| == n
  {
  }

  lemma PoolGives(s: Store, pages: Pages, n: nat)
    requires n > 0 && GoodStore(s, pages, n) && s.empty != [] && s.empty[0] in pages
    requires SoundPage(pages[s.empty[0]], n) && forall q <- pages :: Count(s, pages, q) <= 1
    ensures var p := s.empty[0]; var s' := s.(empty := s.empty[1..]); var pages' := pages[p := Initialized(pages[p])];
            SoundPage(pages'[p], n) && pages'[p].freecount == n
             && GoodStore(s', pages', n) && TookOut(s, pages, s', pages', p)
  {
    hide GoodStore, Count, SoundPage, Initialized, Complete, HasYoung;
    var p := s.empty[0];
    PagesAreSquare(pages[p], n);
    EmptyTaken(s, pages, n);
    FreshFromPool(pages[p], n);
    StoreIgnores(s.(empty := s.empty[1..]), pages, n, p, Initialized(pages[p]));
  }

  lemma SystemGives(s: Store, pages: Pages, n: nat, p: PageId)
    requires n > 0 && GoodStore(s, pages, n) && p !in pages
    ensures var pages' := pages[p := Initialized(ZeroPage(n))];
            SoundPage(pages'[p], n) && pages'[p].freecount == n
             && GoodStore(s, pages', n) && TookOut(s, pages, s, pages', p)
  {
    hide GoodStore, Count, SoundPage, Initialized, Complete, HasYoung;
    FreshZero(n);
    NewPage(s, pages, n, p, Initialized(ZeroPage(n)));
  }

  lemma LowGives(s: Store, pages: Pages, n: nat)
    requires n > 0 && GoodStore(s, pages, n) && Lowest(s.low).Some?
    requires forall q <- pages :: Count(s, pages, q) <= 1
    ensures var s' := s.(low := RemoveFrom(s.low));
            GoodStore(s', pages, n) && TookOut(s, pages, s', pages, Lowest(s.low).value.0)
  {
    hide GoodStore, Count, Complete, HasYoung, Lowest, RemoveFrom;
    LowTaken(s, pages, n);
  }

  lemma HighGives(s: Store, pages: Pages, n: nat)
    requires n > 0 && GoodStore(s, pages, n) && Lowest(s.high).Some?
    requires forall q <- pages :: Count(s, pages, q) <= 1
    ensures var s' := s.(high := RemoveFrom(s.high));
            GoodStore(s', pages, n) && TookOut(s, pages, s', pages, Lowest(s.high).value.0)
  {
    hide GoodStore, Count, Complete, HasYoung, Lowest, RemoveFrom;
    HighTaken(s, pages, n);
  }

  // ---- Fresh pages

  lemma FreshFromPool(pg: Page, n: nat)
    requires n > 0 && SoundPage(pg, n) && pg.freecount == n
    ensures var r := Initialized(pg);
            SoundPage(r, n) && Complete(r) && r.freecount == n && r.util == UNPROCESSED
             && r.entries == pg.entries && !HasYoung(r)
  {
    EmptyPageIsFree(pg);
    forall k: nat | k < |pg.entries|
      ensures !pg.entries[k].isAlloc
    {
      assert k !in AllocatedEntries(pg);
    }
    InitializeListsAll(pg);
    ThreadedUtil(pg, 0);
  }

  lemma {:induction false} ThreadedUtil(pg: Page, i: nat)
    requires i <= |pg.entries| == |pg.links|
    ensures Threaded(pg, i).util == UNPROCESSED
    decreases |pg.entries| - i
  {
    if i < |pg.entries| {
      ThreadedUtil(pg, i + 1);
    }
  }

  lemma FreshZero(n: nat)
    requires n > 0
    ensures var r := Initialized(ZeroPage(n));
            SoundPage(r, n) && Complete(r) && r.freecount == n && r.util == UNPROCESSED && !HasYoung(r)
  {
    InitializeListsAll(ZeroPage(n));
    ThreadedUtil(ZeroPage(n), 0);
  }

  lemma {:induction false} LeavesHoldNothing(ts: seq<Tree<PageId>>)
    requires forall t <- ts :: t == Leaf
    ensures AllEntries(ts) == multiset{}
  {
    if ts != [] {
      assert ts[0] in ts && forall t <- ts[1..] :: t in ts;
      LeavesHoldNothing(ts[1..]);
    }
  }

  lemma NoEntries(ts: seq<Tree<PageId>>, high: bool)
    requires |ts| == BucketsOf(high) && forall t <- ts :: t == Leaf
    ensures AllEntries(ts) == multiset{} && AreBuckets(ts, high)
  {
    LeavesHoldNothing(ts);
    assert forall i :: 0 <= i < |ts| ==> ts[i] in ts;
  }

  // ---- Steps

  /** Installing a page as the allocation page. */
  lemma InstallAlloc(s: Store, pages: Pages, s': Store, pages': Pages, n: nat, a: Current, e: Current, p: PageId)
    requires IsKept(s, pages, n, a, e) && a.page.None?
    requires TookOut(s, pages, s', pages', p) && GoodStore(s', pages', n) && SoundPage(pages'[p], n)
    ensures IsKept(s', pages', n, Current(Some(p), pages'[p].freelist), e)
    ensures AllComplete(pages) ==> AllComplete(pages')
  {
    hide GoodStore, Count, SoundPage, Complete, HasYoung, EachOnce;
    var a' := Current(Some(p), pages'[p].freelist);
    TakenIsNew(s, pages, s', pages', a, e, p);
    TakenOnce(s, pages, s', pages', a, e, a', e, p);
  }

  /** Installing a page as the evacuation page. */
  lemma InstallEvac(s: Store, pages: Pages, s': Store, pages': Pages, n: nat, a: Current, e: Current, p: PageId)
    requires IsKept(s, pages, n, a, e) && e.page.None?
    requires TookOut(s, pages, s', pages', p) && GoodStore(s', pages', n) && SoundPage(pages'[p], n)
    ensures IsKept(s', pages', n, a, Current(Some(p), pages'[p].freelist))
    ensures AllComplete(pages) ==> AllComplete(pages')
  {
    hide GoodStore, Count, SoundPage, Complete, HasYoung, EachOnce;
    var e' := Current(Some(p), pages'[p].freelist);
    TakenIsNew(s, pages, s', pages', a, e, p);
    TakenOnce(s, pages, s', pages', a, e, a, e', p);
    OutsideIsNotPending(s', pages', p);
  }

  /** A page taken out of the store was not in use. */
  lemma TakenIsNew(s: Store, pages: Pages, s': Store, pages': Pages, a: Current, e: Current, p: PageId)
    requires EachOnce(s, pages, a, e) && InUse(pages, a) && InUse(pages, e) && TookOut(s, pages, s', pages', p)
    ensures a.page != Some(p) && e.page != Some(p)
  {
    hide Count, IsFull, Complete, HasYoung;
    if p in pages {
      assert Places(s, pages, a, e, p) == 1;
    }
  }

  lemma TakenOnce(s: Store, pages: Pages, s': Store, pages': Pages, a: Current, e: Current,
                  a': Current, e': Current, p: PageId)
    requires EachOnce(s, pages, a, e) && TookOut(s, pages, s', pages', p) && a.page != Some(p) && e.page != Some(p)
    requires InUse(pages, a) && InUse(pages, e)
    requires forall q <- pages' :: In(a'.page, q) + In(e'.page, q) == In(a.page, q) + In(e.page, q) + At(p, q)
    ensures EachOnce(s', pages', a', e')
  {
    hide Count, IsFull, Complete, HasYoung;
    forall q | q in pages'
      ensures Places(s', pages', a', e', q) == 1
    {
      if q in pages {
        assert Places(s, pages, a, e, q) == 1;
      }
    }
  }

  /** A current page that moves into the store still stands in one place. */
  lemma MovedOnce(s: Store, pages: Pages, a: Current, e: Current,
                s': Store, pages': Pages, a': Current, e': Current, p: PageId)
    requires EachOnce(s, pages, a, e) && pages'.Keys == pages.Keys
    requires forall q <- pages :: Count(s', pages', q) == Count(s, pages, q) + At(p, q)
    requires forall q <- pages :: In(a'.page, q) + In(e'.page, q) + At(p, q) == In(a.page, q) + In(e.page, q)
    ensures EachOnce(s', pages', a', e')
  {
    hide Count;
    forall q | q in pages'
      ensures Places(s', pages', a', e', q) == 1
    {
      assert Places(s, pages, a, e, q) == 1;
    }
  }

  lemma CurrentIsOutside(s: Store, pages: Pages, a: Current, e: Current, p: PageId)
    requires EachOnce(s, pages, a, e) && p in pages && (a.page == Some(p) || e.page == Some(p))
    ensures Count(s, pages, p) == 0 && a.page != e.page
  {
    hide Count;
    assert Places(s, pages, a, e, p) == 1;
  }

  lemma OutsideIsNotPending(s: Store, pages: Pages, p: PageId)
    requires p in pages && Count(s, pages, p) == 0
    ensures p !in s.pending
  {
  }

  /** One page changed and moved: what is left to check about it for the whole to stay placed. */
  lemma PlacedAfter(s: Store, pages: Pages, n: nat, a: Current, e: Current,
                    s': Store, pages': Pages, a': Current, e': Current, p: PageId)
    requires 0 < n <= 100 && AllSound(pages, n) && OnlyCollected(s, pages, a)
    requires p in pages && pages'.Keys == pages.Keys && forall q <- pages :: q != p ==> pages'[q] == pages[q]
    requires GoodStore(s', pages', n) && SoundPage(pages'[p], n) && InUse(pages', a') && InUse(pages', e')
    requires EachOnce(s', pages', a', e')
    requires forall q <- pages :: q != p && Collected(s, a, q) ==> Collected(s', a', q)
    requires HasYoung(pages'[p]) || !Complete(pages'[p]) ==> Collected(s', a', p)
    ensures IsPlaced(s', pages', n, a', e')
    ensures AllComplete(pages) && Complete(pages'[p]) ==> AllComplete(pages')
  {
    hide GoodStore, SoundPage, Complete, HasYoung, EachOnce, InUse, Collected;
  }

  lemma ListedWith(s: Store, s': Store, pages: Pages, n: nat, p: PageId, pg: Page)
    requires n > 0 && GoodStore(s, pages, n) && p in pages && Count(s, pages, p) == 0
    requires s' == s.(filled := [p] + s.filled) || s' == s.(pending := [p] + s.pending)
    requires IsFull(pg.util)
    ensures GoodStore(s', pages[p := pg], n)
    ensures forall q <- pages :: Count(s', pages[p := pg], q) == Count(s, pages, q) + At(p, q)
  {
    hide GoodStore, Count, IsFull;
    StoreIgnores(s, pages, n, p, pg);
    PlacedOnList(s, s', pages[p := pg], n, p);
  }

  /** A full evacuation page goes to the filled list. */
  lemma RetireEvac(s: Store, pages: Pages, n: nat, a: Current, e: Current)
    requires IsKept(s, pages, n, a, e) && e.page.Some?
    ensures var p := e.page.value; var pages' := pages[p := pages[p].(util := 1.0)];
            IsKept(s.(filled := [p] + s.filled), pages', n, a, Current(None, NIL))
             && (AllComplete(pages) ==> AllComplete(pages'))
  {
    hide GoodStore, SoundPage, Complete, HasYoung, Count, EachOnce;
    var p := e.page.value;
    var pg := pages[p].(util := 1.0);
    var s' := s.(filled := [p] + s.filled);
    UtilIsAside(pages[p], 1.0);
    CurrentIsOutside(s, pages, a, e, p);
    ListedWith(s, s', pages, n, p, pg);
    MovedOnce(s, pages, a, e, s', pages[p := pg], a, Current(None, NIL), p);
    hide IsFull;
    PlacedAfter(s, pages, n, a, e, s', pages[p := pg], a, Current(None, NIL), p);
  }

  /** The recorded utilization has no part in what a page is. */
  lemma UtilIsAside(pg: Page, u: real)
    ensures FreeList(pg.(util := u)) == FreeList(pg)
    ensures Complete(pg.(util := u)) == Complete(pg) && HasYoung(pg.(util := u)) == HasYoung(pg)
    ensures forall n :: SoundPage(pg.(util := u), n) == SoundPage(pg, n)
  {
    assert FreeList(pg.(util := u)) == FreeList(pg);
  }

  lemma RetiredIsKept(s: Store, pages: Pages, n: nat, a: Current, e: Current)
    requires IsKept(s, pages, n, a, e) && a.page.Some?
    ensures var p := a.page.value; var pages' := pages[p := pages[p].(util := 1.0)];
            IsKept(s.(pending := [p] + s.pending), pages', n, Current(None, NIL), e)
             && (AllComplete(pages) ==> AllComplete(pages'))
  {
    hide GoodStore, SoundPage, Complete, HasYoung, Count, EachOnce;
    var p := a.page.value;
    var pg := pages[p].(util := 1.0);
    var s' := s.(pending := [p] + s.pending);
    UtilIsAside(pages[p], 1.0);
    CurrentIsOutside(s, pages, a, e, p);
    ListedWith(s, s', pages, n, p, pg);
    MovedOnce(s, pages, a, e, s', pages[p := pg], Current(None, NIL), e, p);
    hide IsFull;
    PlacedAfter(s, pages, n, a, e, s', pages[p := pg], Current(None, NIL), e, p);
  }

  /** Retiring a page with no free entry: it becomes pending. */
  lemma RetireAlloc(s: Store, pages: Pages, n: nat, a: Current, e: Current)
    requires IsKept(s, pages, n, a, e) && a.page.Some? && a.list == NIL
    ensures |s.low| == BucketsOf(false) && |s.high| == BucketsOf(true)
    ensures var p := a.page.value; var pages' := pages[p := Processed(pages[p], n)];
            var s' := PlacedIn(s, pages, p, n, e.page == Some(p));
            && s' == s.(pending := [p] + s.pending)
            && IsKept(s', pages', n, Current(None, NIL), e)
            && (AllComplete(pages) ==> AllComplete(pages'))
  {
    SizesOf(s, pages, n);
    NullListIsFull(pages[a.page.value], n);
    CurrentIsOutside(s, pages, a, e, a.page.value);
    RetiredIsKept(s, pages, n, a, e);
    hide GoodStore, SoundPage, Complete, HasYoung, Count, EachOnce, CalcApproxUtilization, AllComplete, OnlyCollected;
  }

  lemma NullListIsFull(pg: Page, n: nat)
    requires n > 0 && SoundPage(pg, n) && pg.freelist == NIL
    ensures pg.freecount == 0 && CalcApproxUtilization(pg.freecount, n) == 1.0
  {
    assert FreeList(pg) == [];
    UtilizationInUnits(0, n);
  }

  lemma ReplacedOutside(s: Store, pages: Pages, n: nat, a: Current, e: Current, p: PageId, pg: Page)
    requires n > 0 && GoodStore(s, pages, n) && EachOnce(s, pages, a, e) && p in pages && Count(s, pages, p) == 0
    ensures GoodStore(s, pages[p := pg], n) && EachOnce(s, pages[p := pg], a, e)
  {
    hide GoodStore, Count;
    StoreIgnores(s, pages, n, p, pg);
    forall q | q in pages
      ensures Places(s, pages[p := pg], a, e, q) == 1
    {
      assert Places(s, pages, a, e, q) == 1;
    }
  }

  lemma TakeKeepsPage(pg: Page, n: nat, m: MetaData)
    requires SoundPage(pg, n) && pg.freelist != NIL && m.isAlloc
    ensures 0 <= pg.freelist < |pg.links| == |pg.entries| && pg.freecount > 0
    ensures SoundPage(Take(pg, m), n) && (Complete(pg) ==> Complete(Take(pg, m)))
    ensures HasYoung(Take(pg, m)) && !m.isYoung ==> HasYoung(pg)
  {
    assert pg.freecount == 0 ==> After(pg.links, pg.freelist, pg.freecount) == pg.freelist;
    TakePops(pg, m);
    if HasYoung(Take(pg, m)) && !m.isYoung {
      var i :| 0 <= i < |pg.entries| && Take(pg, m).entries[i].isAlloc && Take(pg, m).entries[i].isYoung;
      assert pg.entries[i].isAlloc && pg.entries[i].isYoung;
    }
  }

  lemma TakenIsKept(s: Store, pages: Pages, n: nat, a: Current, e: Current, p: PageId, m: MetaData)
    requires IsKept(s, pages, n, a, e) && m.isAlloc && (a.page == Some(p) || (e.page == Some(p) && !m.isYoung))
    requires p in pages && pages[p].freelist != NIL
    ensures 0 <= pages[p].freelist < |pages[p].links| == |pages[p].entries| && pages[p].freecount > 0
    ensures var pages' := pages[p := Take(pages[p], m)];
            IsPlaced(s, pages', n, a, e) && (AllComplete(pages) ==> AllComplete(pages')) && a.page != e.page
  {
    hide GoodStore, SoundPage, Complete, HasYoung, Count, EachOnce, IsFull;
    TakeKeepsPage(pages[p], n, m);
    CurrentIsOutside(s, pages, a, e, p);
    ReplacedOutside(s, pages, n, a, e, p, Take(pages[p], m));
    PlacedAfter(s, pages, n, a, e, s, pages[p := Take(pages[p], m)], a, e, p);
  }

  /** Placement speaks of the current pages, not of the cached lists. */
  lemma SamePlacement(s: Store, pages: Pages, n: nat, a: Current, e: Current, a': Current, e': Current)
    requires IsPlaced(s, pages, n, a, e) && a'.page == a.page && e'.page == e.page
    requires (a' == a || a.page.Some?) && (e' == e || e.page.Some?)
    ensures IsPlaced(s, pages, n, a', e')
  {
    hide GoodStore, AllSound, EachOnce, OnlyCollected, IsFull;
    SamePlaces(s, pages, a, e, a', e');
    SameCollected(s, pages, a, a');
  }

  /** An entry taken from the allocation page. */
  lemma TakeFromAlloc(s: Store, pages: Pages, n: nat, a: Current, e: Current, m: MetaData)
    requires IsKept(s, pages, n, a, e) && m.isAlloc && a.page.Some? && a.list != NIL
    ensures var p := a.page.value;
            0 <= pages[p].freelist < |pages[p].links| == |pages[p].entries| && pages[p].freecount > 0
    ensures var p := a.page.value; var pages' := pages[p := Take(pages[p], m)];
            IsKept(s, pages', n, Current(a.page, pages'[p].freelist), e) && (AllComplete(pages) ==> AllComplete(pages'))
  {
    hide IsPlaced, AllComplete, Take;
    var p := a.page.value;
    TakenIsKept(s, pages, n, a, e, p, m);
    var pages' := pages[p := Take(pages[p], m)];
    SamePlacement(s, pages', n, a, e, Current(a.page, pages'[p].freelist), e);
  }

  /** An entry for an old object taken from the evacuation page. */
  lemma TakeFromEvac(s: Store, pages: Pages, n: nat, a: Current, e: Current, m: MetaData)
    requires IsKept(s, pages, n, a, e) && m.isAlloc && !m.isYoung && e.page.Some? && e.list != NIL
    ensures var p := e.page.value;
            0 <= pages[p].freelist < |pages[p].links| == |pages[p].entries| && pages[p].freecount > 0
    ensures var p := e.page.value; var pages' := pages[p := Take(pages[p], m)];
            IsKept(s, pages', n, a, Current(e.page, pages'[p].freelist)) && (AllComplete(pages) ==> AllComplete(pages'))
  {
    hide IsPlaced, AllComplete, Take;
    var p := e.page.value;
    TakenIsKept(s, pages, n, a, e, p, m);
    var pages' := pages[p := Take(pages[p], m)];
    SamePlacement(s, pages', n, a, e, a, Current(e.page, pages'[p].freelist));
  }

  lemma SameCollected(s: Store, pages: Pages, a: Current, a': Current)
    requires OnlyCollected(s, pages, a) && a'.page == a.page
    ensures OnlyCollected(s, pages, a')
  {
    hide HasYoung, Complete;
  }

  lemma SamePlaces(s: Store, pages: Pages, a: Current, e: Current, a': Current, e': Current)
    requires EachOnce(s, pages, a, e) && a'.page == a.page && e'.page == e.page
    ensures EachOnce(s, pages, a', e')
  {
    assert forall q <- pages :: Places(s, pages, a', e', q) == Places(s, pages, a, e, q);
  }

  // ---- The end of a collection

  function RemarkedAll(pages: Pages, after: Marks): Pages {
    map p | p in pages :: Remarked(pages[p], p, after)
  }

  lemma TagsSeeCounts(ts: seq<Tree<PageId>>, pages: Pages, pages': Pages, n: nat)
    requires n > 0 && AllTagged(ts, pages, n) && pages'.Keys == pages.Keys
    requires forall p <- pages :: pages'[p].util == pages[p].util && pages'[p].freecount == pages[p].freecount
    ensures AllTagged(ts, pages', n) && forall p <- pages :: CountIn(ts, pages', p) == CountIn(ts, pages, p)
  {
    hide AllEntries, OnGrid, CalcApproxUtilization;
    forall e | e in AllEntries(ts)
      ensures IsTagged(e, pages', n)
    {
      assert IsTagged(e, pages, n);
    }
  }

  lemma StoreSeesCounts(s: Store, pages: Pages, pages': Pages, n: nat)
    requires n > 0 && GoodStore(s, pages, n) && pages'.Keys == pages.Keys
    requires forall p <- pages :: pages'[p].util == pages[p].util && pages'[p].freecount == pages[p].freecount
    ensures GoodStore(s, pages', n) && forall p <- pages :: Count(s, pages', p) == Count(s, pages, p)
  {
    hide AreBuckets, AllTagged, CountIn, IsFull;
    TagsSeeCounts(s.low, pages, pages', n);
    TagsSeeCounts(s.high, pages, pages', n);
  }

  /** Marking, evacuation and counting only touch allocated entries, so the allocator's own state stays. */
  lemma RemarkKeeps(s: Store, pages: Pages, n: nat, a: Current, e: Current, after: Marks)
    requires IsPlaced(s, pages, n, a, e)
    ensures IsPlaced(s, RemarkedAll(pages, after), n, a, e)
  {
    hide GoodStore, Count, Complete, HasYoung, ValidPage, RemarkedEntry, IsFull;
    var pages' := RemarkedAll(pages, after);
    StoreSeesCounts(s, pages, pages', n);
    forall p | p in pages
      ensures SoundPage(pages'[p], n)
      ensures HasYoung(pages'[p]) || !Complete(pages'[p]) ==> HasYoung(pages[p]) || !Complete(pages[p])
    {
      RemarkKeepsPage(pages[p], p, after);
    }
    SamePlacesAfter(s, pages, pages', a, e);
  }

  /**
   A decrement that frees an entry, wherever its page stands: the page stays there, its list gains the entry,
   and every page still stands in one place. The cached list of a current page may fall out of step.
   */
  lemma FreeKeeps(s: Store, pages: Pages, n: nat, a: Current, e: Current, p: PageId, i: nat)
    requires IsPlaced(s, pages, n, a, e) && p in pages && i < |pages[p].entries| && pages[p].entries[i].isAlloc
    ensures |pages[p].entries| == |pages[p].links|
    ensures IsPlaced(s, pages[p := Freed(pages[p], i)], n, a, e)
    ensures AllComplete(pages) ==> AllComplete(pages[p := Freed(pages[p], i)])
    ensures AllYoungGoes(pages) ==> AllYoungGoes(pages[p := Freed(pages[p], i)])
    ensures FreeList(Freed(pages[p], i)) == [i] + FreeList(pages[p])
  {
    hide GoodStore, Complete, HasYoung, Count, IsFull, ValidPage, Freed, YoungGoes, EachOnce, OnlyCollected, FreeList;
    FreedIsSound(pages[p], n, i);
    FreedYoung(pages[p], i);
    FreeingKeepsStore(s, pages, n, p, Freed(pages[p], i));
    SamePlacesAfter(s, pages, pages[p := Freed(pages[p], i)], a, e);
    FreedIsInUse(pages, p, Freed(pages[p], i), a);
    FreedIsInUse(pages, p, Freed(pages[p], i), e);
    CollectedStays(s, pages, a, p, Freed(pages[p], i));
    PlacedAfter(s, pages, n, a, e, s, pages[p := Freed(pages[p], i)], a, e, p);
  }

  lemma FreedIsSound(pg: Page, n: nat, i: nat)
    requires SoundPage(pg, n) && i < |pg.entries| && pg.entries[i].isAlloc
    ensures |pg.entries| == |pg.links|
    ensures SoundPage(Freed(pg, i), n) && Freed(pg, i).freecount == pg.freecount + 1 <= n
            && Freed(pg, i).util == pg.util
    ensures Complete(pg) ==> Complete(Freed(pg, i))
    ensures FreeList(Freed(pg, i)) == [i] + FreeList(pg)
  {
    FreedPage(pg, i);
    hide Freed, FreeList;
    FreeCountFits(Freed(pg, i));
  }

  lemma SamePlacesAfter(s: Store, pages: Pages, pages': Pages, a: Current, e: Current)
    requires EachOnce(s, pages, a, e) && pages'.Keys == pages.Keys
    requires forall q <- pages :: Count(s, pages', q) == Count(s, pages, q)
    ensures EachOnce(s, pages', a, e)
  {
    hide Count;
    forall q | q in pages'
      ensures Places(s, pages', a, e, q) == 1
    {
      assert Places(s, pages, a, e, q) == 1;
    }
  }

  lemma FreedIsInUse(pages: Pages, p: PageId, pg: Page, c: Current)
    requires InUse(pages, c) && p in pages && pg.util == pages[p].util
    ensures InUse(pages[p := pg], c)
  {
  }

  lemma CollectedStays(s: Store, pages: Pages, a: Current, p: PageId, pg: Page)
    requires OnlyCollected(s, pages, a) && p in pages
    requires HasYoung(pg) || !Complete(pg) ==> HasYoung(pages[p]) || !Complete(pages[p])
    ensures HasYoung(pg) || !Complete(pg) ==> Collected(s, a, p)
  {
    hide HasYoung, Complete;
  }

  lemma FreedYoung(pg: Page, i: nat)
    requires i < |pg.entries| == |pg.links|
    ensures HasYoung(Freed(pg, i)) ==> HasYoung(pg)
    ensures YoungGoes(pg) ==> YoungGoes(Freed(pg, i))
  {
    forall k: nat | k < |pg.entries| && Freed(pg, i).entries[k].isAlloc
      ensures Freed(pg, i).entries[k] == pg.entries[k]
    {
    }
  }

  /** Every young object of the page may be freed, as evacuation leaves it. */
  ghost predicate YoungGoes(pg: Page) {
    forall i :: 0 <= i < |pg.entries| && pg.entries[i].isAlloc && pg.entries[i].isYoung ==>
      ShouldFreeListAdd(pg.entries[i])
  }

  ghost predicate AllYoungGoes(pages: Pages) {
    forall p <- pages :: YoungGoes(pages[p])
  }

  function SweptEntries(m: seq<MetaData>): seq<MetaData> {
    seq(|m|, (i: nat) requires i < |m| => SweptEntry(m[i], true))
  }

  lemma SweepTwice(m: seq<MetaData>)
    ensures SweptEntries(SweptEntries(m)) == SweptEntries(m)
  {
  }

  lemma RebuildIsSound(pg: Page, n: nat)
    requires SoundPage(pg, n)
    ensures |pg.entries| == |pg.links|
    ensures SoundPage(Rebuilt(pg), n) && Complete(Rebuilt(pg)) && Rebuilt(pg).util == pg.util
    ensures Rebuilt(pg).entries == SweptEntries(pg.entries)
    ensures YoungGoes(pg) ==> !HasYoung(Rebuilt(pg)) && YoungGoes(Rebuilt(pg))
  {
    SweptExactly(pg, 0);
    hide FreeList, After, ValidPage, Complete;
    var r := Rebuilt(pg);
    assert |r.entries| == n;
    forall k: nat | k < n
      ensures r.entries[k] == SweptEntry(pg.entries[k], true)
    {
    }
    assert r.entries == SweptEntries(pg.entries);
    RebuildExactly(pg);
  }

  /** Placing a processed page that stood nowhere. */
  lemma PlacedKept(s: Store, pages: Pages, n: nat, p: PageId, isEvac: bool)
    requires 0 < n <= 100 && GoodStore(s, pages, n) && p in pages && Count(s, pages, p) == 0 && SoundPage(pages[p], n)
    ensures |s.low| == BucketsOf(false) && |s.high| == BucketsOf(true)
    ensures var s', pages' := PlacedIn(s, pages, p, n, isEvac), pages[p := Processed(pages[p], n)];
            && GoodStore(s', pages', n)
            && forall q <- pages :: Count(s', pages', q) == Count(s, pages, q) + At(p, q)
  {
    FreeCountFits(pages[p]);
    SizesOf(s, pages, n);
    EveryPageHasAClassExactly(n);
    ProcessedPageIsKeptExactly(s, pages, n, p, isEvac);
    hide GoodStore, Count, CalcApproxUtilization, Placed;
    assert ClassOf(CalcApproxUtilization(pages[p].freecount, n)) != Nowhere;
  }

  lemma PlacedPending(s: Store, pages: Pages, n: nat, p: PageId, isEvac: bool)
    requires n > 0 && p in pages && |s.low| == BucketsOf(false) && |s.high| == BucketsOf(true)
    ensures var s' := PlacedIn(s, pages, p, n, isEvac);
            s'.pending == s.pending || (s'.pending == [p] + s.pending && !isEvac && !IsFull(pages[p].util))
  {
    hide CalcApproxUtilization, InsertInto, IsLowUtil, IsHighUtil, IsFull;
  }

  lemma PlacedBesidePending(s: Store, pages: Pages, n: nat, p: PageId, rest: seq<PageId>)
    requires n > 0 && p in pages && |s.low| == BucketsOf(false) && |s.high| == BucketsOf(true) && IsFull(pages[p].util)
    ensures PlacedIn(s.(pending := rest), pages, p, n, false) == PlacedIn(s, pages, p, n, false).(pending := rest)
    ensures PlacedIn(s, pages, p, n, false).pending == s.pending
  {
    hide CalcApproxUtilization, InsertInto, IsLowUtil, IsHighUtil, IsFull;
  }

  /** What the sweep does to one collected page. */
  function SweptPage(pg: Page, n: nat): Page
    requires n > 0 && |pg.entries| == |pg.links|
  {
    Processed(Rebuilt(pg), n)
  }

  lemma SweptPageIsSound(pg: Page, n: nat)
    requires n > 0 && SoundPage(pg, n)
    ensures |pg.entries| == |pg.links|
    ensures SoundPage(SweptPage(pg, n), n) && Complete(SweptPage(pg, n))
            && SweptPage(pg, n).entries == SweptEntries(pg.entries)
    ensures YoungGoes(pg) ==> !HasYoung(SweptPage(pg, n)) && YoungGoes(SweptPage(pg, n))
  {
    RebuildIsSound(pg, n);
    UtilIsAside(Rebuilt(pg), Processed(Rebuilt(pg), n).util);
    hide Rebuilt, ValidPage, Complete, SweptEntries;
  }

  /** A collected page in hand is rebuilt and placed. */
  lemma SweepOne(s: Store, pages: Pages, n: nat, a: Current, e: Current, p: PageId)
    requires 0 < n <= 100 && GoodStore(s, pages, n) && AllSound(pages, n) && OnlyCollected(s, pages, a)
    requires EachOnce(s, pages, a, e) && InUse(pages, e) && p in pages && a.page == Some(p) && AllYoungGoes(pages)
    ensures |pages[p].entries| == |pages[p].links| && |s.low| == BucketsOf(false) && |s.high| == BucketsOf(true)
    ensures var s' := PlacedIn(s, pages[p := Rebuilt(pages[p])], p, n, e.page == Some(p));
            var pages' := pages[p := SweptPage(pages[p], n)];
            && IsPlaced(s', pages', n, Current(None, NIL), e)
            && AllYoungGoes(pages')
            && (s'.pending == s.pending || (s'.pending == [p] + s.pending && !IsFull(pages[p].util)))
  {
    hide GoodStore, SoundPage, Complete, HasYoung, Count, EachOnce, Placed, YoungGoes, SweptEntries, Rebuilt, IsFull;
    RebuildIsSound(pages[p], n);
    SweptPageIsSound(pages[p], n);
    CurrentIsOutside(s, pages, a, e, p);
    var pages1 := pages[p := Rebuilt(pages[p])];
    var pages' := pages[p := SweptPage(pages[p], n)];
    assert pages1[p := Processed(pages1[p], n)] == pages';
    ReplacedOutside(s, pages, n, a, e, p, Rebuilt(pages[p]));
    StoreIgnores(s, pages, n, p, Rebuilt(pages[p]));
    PlacedKept(s, pages1, n, p, e.page == Some(p));
    PlacedPending(s, pages1, n, p, e.page == Some(p));
    var s' := PlacedIn(s, pages1, p, n, e.page == Some(p));
    MovedOnce(s, pages1, a, e, s', pages', Current(None, NIL), e, p);
    PlacedAfter(s, pages, n, a, e, s', pages', Current(None, NIL), e, p);
  }

  /** The allocation page is rebuilt and placed. */
  lemma SweepAlloc(s: Store, pages: Pages, n: nat, a: Current, e: Current)
    requires IsPlaced(s, pages, n, a, e) && a.page.Some? && AllYoungGoes(pages)
    ensures var p := a.page.value;
            |pages[p].entries| == |pages[p].links| && |s.low| == BucketsOf(false) && |s.high| == BucketsOf(true)
    ensures var p := a.page.value;
            var s' := PlacedIn(s, pages[p := Rebuilt(pages[p])], p, n, e.page == Some(p));
            var pages' := pages[p := SweptPage(pages[p], n)];
            && IsPlaced(s', pages', n, Current(None, NIL), e)
            && AllYoungGoes(pages')
            && (s'.pending == s.pending || s'.pending == [p] + s.pending)
  {
    hide GoodStore, AllSound, OnlyCollected, EachOnce, AllYoungGoes, Placed, SweptPage, Rebuilt;
    SweepOne(s, pages, n, a, e, a.page.value);
  }

  /** The evacuation page is placed as it is. */
  lemma PlaceEvac(s: Store, pages: Pages, n: nat, a: Current, e: Current)
    requires IsPlaced(s, pages, n, a, e) && a.page.None? && e.page.Some? && AllYoungGoes(pages)
    ensures |s.low| == BucketsOf(false) && |s.high| == BucketsOf(true)
    ensures var p := e.page.value;
            var s' := PlacedIn(s, pages, p, n, true);
            var pages' := pages[p := Processed(pages[p], n)];
            IsPlaced(s', pages', n, a, Current(None, NIL)) && AllYoungGoes(pages') && s'.pending == s.pending
  {
    hide GoodStore, SoundPage, Complete, HasYoung, Count, EachOnce, Placed, YoungGoes, IsFull;
    var p := e.page.value;
    var pages' := pages[p := Processed(pages[p], n)];
    UtilIsAside(pages[p], Processed(pages[p], n).util);
    CurrentIsOutside(s, pages, a, e, p);
    OutsideIsNotPending(s, pages, p);
    PlacedKept(s, pages, n, p, true);
    PlacedPending(s, pages, n, p, true);
    var s' := PlacedIn(s, pages, p, n, true);
    MovedOnce(s, pages, a, e, s', pages', a, Current(None, NIL), p);
    SameYoung(pages[p], pages'[p]);
    PlacedAfter(s, pages, n, a, e, s', pages', a, Current(None, NIL), p);
  }

  lemma SameYoung(pg: Page, pg': Page)
    requires pg'.entries == pg.entries
    ensures YoungGoes(pg') == YoungGoes(pg)
  {
  }

  /** The first pending page is rebuilt and placed, and never comes back as pending. */
  lemma SweepPending(s: Store, pages: Pages, n: nat, e: Current)
    requires IsPlaced(s, pages, n, Current(None, NIL), e) && e.page.None? && s.pending != [] && AllYoungGoes(pages)
    ensures |s.low| == BucketsOf(false) && |s.high| == BucketsOf(true)
    ensures var p := s.pending[0];
            p in pages && |pages[p].entries| == |pages[p].links| && IsFull(Rebuilt(pages[p]).util)
             && p !in s.pending[1..]
    ensures var p := s.pending[0];
            var s' := PlacedIn(s.(pending := s.pending[1..]), pages[p := Rebuilt(pages[p])], p, n, false);
            var pages' := pages[p := SweptPage(pages[p], n)];
            IsPlaced(s', pages', n, Current(None, NIL), e) && AllYoungGoes(pages') && s'.pending == s.pending[1..]
  {
    FirstPending(s, pages, n, e);
    RebuildIsSound(pages[s.pending[0]], n);
    hide GoodStore, AllSound, OnlyCollected, EachOnce, AllYoungGoes, Placed, SweptPage, Rebuilt, IsFull;
    var p := s.pending[0];
    SweepOne(s.(pending := s.pending[1..]), pages, n, Current(Some(p), NIL), e, p);
  }

  lemma FirstPending(s: Store, pages: Pages, n: nat, e: Current)
    requires IsPlaced(s, pages, n, Current(None, NIL), e) && e.page.None? && s.pending != []
    ensures var p := s.pending[0]; var s1 := s.(pending := s.pending[1..]);
            && p in pages && IsFull(pages[p].util) && p !in s.pending[1..]
            && GoodStore(s1, pages, n)
            && EachOnce(s1, pages, Current(Some(p), NIL), e)
            && OnlyCollected(s1, pages, Current(Some(p), NIL))
  {
    hide AllTagged, AreBuckets, CountIn, Complete, HasYoung, SoundPage, IsFull;
    var p := s.pending[0];
    var s1 := s.(pending := s.pending[1..]);
    assert p in s.pending && s.pending == [p] + s.pending[1..];
    forall q | q in pages
      ensures Places(s1, pages, Current(Some(p), NIL), e, q) == 1
    {
      PushedCounts(s.pending[1..], p, q);
      assert Places(s, pages, Current(None, NIL), e, q) == 1;
    }
    assert Places(s1, pages, Current(Some(p), NIL), e, p) == 1;
  }

  lemma MarkedYoungGoes(pages: Pages, after: Marks)
    requires forall p, i :: after(p, i).isYoung ==> ShouldFreeListAdd(after(p, i))
    ensures AllYoungGoes(RemarkedAll(pages, after))
  {
    forall p | p in pages
      ensures YoungGoes(Remarked(pages[p], p, after))
    {
      var r := Remarked(pages[p], p, after);
      forall i: nat | i < |r.entries| && r.entries[i].isAlloc && r.entries[i].isYoung
        ensures ShouldFreeListAdd(r.entries[i])
      {
        assert r.entries[i] == RemarkedEntry(pages[p].entries[i], after(p, i));
        assert r.entries[i] == after(p, i);
      }
    }
  }

  lemma RoomMeansList(pg: Page, n: nat)
    requires SoundPage(pg, n)
    ensures pg.freecount > 0 <==> pg.freelist != NIL
  {
    assert pg.freecount == 0 ==> After(pg.links, pg.freelist, pg.freecount) == pg.freelist;
  }

  /** With nothing left to collect every page is complete and old. */
  lemma NothingToCollect(s: Store, pages: Pages, n: nat, a: Current, e: Current)
    requires IsPlaced(s, pages, n, a, e) && a.page.None? && s.pending == []
    ensures AllComplete(pages) && forall p <- pages :: !HasYoung(pages[p])
  {
    hide Complete, HasYoung, GoodStore, EachOnce;
  }

  lemma SizesAtAllTimes(s: Store, pages: Pages, n: nat, a: Current, e: Current)
    requires IsPlaced(s, pages, n, a, e)
    ensures |s.low| == BucketsOf(false) && |s.high| == BucketsOf(true)
    ensures 0 < n <= 100 && GoodStore(s, pages, n)
    ensures forall p <- pages :: SoundPage(pages[p], n) && Count(s, pages, p) <= 1
  {
    forall p | p in pages
      ensures Count(s, pages, p) <= 1
    {
      assert Places(s, pages, a, e, p) == 1;
    }
  }

  lemma CurrentIsKnown(s: Store, pages: Pages, n: nat, a: Current, e: Current)
    requires IsKept(s, pages, n, a, e)
    ensures |s.low| == BucketsOf(false) && |s.high| == BucketsOf(true) && n > 0
    ensures a.page.Some? ==>
              a.page.value in pages && a.list == pages[a.page.value].freelist && SoundPage(pages[a.page.value], n)
    ensures e.page.Some? ==>
              e.page.value in pages && e.list == pages[e.page.value].freelist && SoundPage(pages[e.page.value], n)
    ensures a.page.Some? ==> (pages[a.page.value].freecount == 0 <==> a.list == NIL)
    ensures e.page.Some? ==> (pages[e.page.value].freecount == 0 <==> e.list == NIL)
    ensures a.page.None? ==> a.list == NIL
    ensures e.page.None? ==> e.list == NIL
  {
    SizesAtAllTimes(s, pages, n, a, e);
    if a.page.Some? {
      RoomMeansList(pages[a.page.value], n);
    }
    if e.page.Some? {
      RoomMeansList(pages[e.page.value], n);
    }
  }

  lemma FirstIsFree(pg: Page, n: nat)
    requires SoundPage(pg, n) && pg.freelist != NIL
    ensures 0 <= pg.freelist < |pg.entries| == |pg.links| && !pg.entries[pg.freelist].isAlloc && pg.freecount > 0
  {
    RoomMeansList(pg, n);
    assert FreeList(pg)[0] == pg.freelist;
  }

  /** What is known of the current pages when the cached lists may be out of step. */
  lemma PlacedIsKnown(s: Store, pages: Pages, n: nat, a: Current, e: Current)
    requires IsPlaced(s, pages, n, a, e)
    ensures |s.low| == BucketsOf(false) && |s.high| == BucketsOf(true) && n > 0
    ensures a.page.Some? ==> a.page.value in pages && SoundPage(pages[a.page.value], n)
    ensures e.page.Some? ==> e.page.value in pages && SoundPage(pages[e.page.value], n)
    ensures (a.page.None? ==> a.list == NIL) && (e.page.None? ==> e.list == NIL)
  {
    SizesAtAllTimes(s, pages, n, a, e);
  }

  /** One entry that was free is in use; all other entries are as they were. */
  ghost predicate OnlyEntry(was: Pages, pages: Pages, p: PageId, i: nat) {
    && was.Keys <= pages.Keys
    && (forall q <- was :: q != p ==> pages[q].entries == was[q].entries)
    && p in pages && i < |pages[p].entries|
    && (p in was ==> i < |was[p].entries| && !was[p].entries[i].isAlloc
                     && pages[p].entries == was[p].entries[i := pages[p].entries[i]])
  }

  ghost predicate SameEntries(was: Pages, pages: Pages) {
    was.Keys <= pages.Keys && forall q <- was :: pages[q].entries == was[q].entries
  }

  lemma SamePages(pages: Pages)
    ensures SameEntries(pages, pages)
  {
  }

  lemma TookEntry(was: Pages, pages: Pages, p: PageId, m: MetaData)
    requires SameEntries(was, pages) && p in pages
    requires 0 <= pages[p].freelist < |pages[p].links| == |pages[p].entries| && pages[p].freecount > 0
    requires !pages[p].entries[pages[p].freelist].isAlloc
    ensures OnlyEntry(was, pages[p := Take(pages[p], m)], p, pages[p].freelist)
  {
  }

  lemma EvacIsNotCollected(s: Store, pages: Pages, n: nat, a: Current, e: Current)
    requires IsPlaced(s, pages, n, a, e) && e.page.Some?
    ensures !Collected(s, a, e.page.value)
  {
    CurrentIsOutside(s, pages, a, e, e.page.value);
    OutsideIsNotPending(s, pages, e.page.value);
  }

  lemma FreedIs(pg: Page, i: nat)
    requires i < |pg.entries| == |pg.links|
    ensures var q := pg.(entries := pg.entries[i := pg.entries[i].(isAlloc := false)]);
            Freed(pg, i) == q.(links := q.links[i := q.freelist], freelist := i, freecount := q.freecount + 1)
  {
  }

  /** The utilization recorded is the one the page has. */
  ghost predicate IsRecorded(pg: Page, n: nat)
    requires n > 0
  {
    pg.util == 1.0 - pg.freecount as real / n as real
  }

  lemma SweptIsRecorded(pg: Page, n: nat)
    requires n > 0 && |pg.entries| == |pg.links|
    ensures IsRecorded(SweptPage(pg, n), n)
  {
    hide Rebuilt;
  }

  /** How far a sweep over listed pages has come: the pages still ahead are untouched. */
  ghost predicate SweptUpTo(was: Pages, pages: Pages, n: nat, list: seq<PageId>, ahead: seq<PageId>)
    requires n > 0
  {
    && pages.Keys == was.Keys
    && (forall q <- ahead :: q in list)
    && (forall q <- pages ::
          if q in list && q !in ahead then IsRecorded(pages[q], n) else pages[q] == was[q])
    && (forall q <- pages :: pages[q].entries ==
          if q in list && q !in ahead then SweptEntries(was[q].entries) else was[q].entries)
  }

  lemma NothingSwept(pages: Pages, n: nat, list: seq<PageId>)
    requires n > 0
    ensures SweptUpTo(pages, pages, n, list, list)
  {
  }

  lemma SweptOneMore(was: Pages, pages: Pages, n: nat, list: seq<PageId>, ahead: seq<PageId>, pg: Page)
    requires n > 0 && SweptUpTo(was, pages, n, list, ahead)
    requires ahead != [] && ahead[0] in pages && ahead[0] !in ahead[1..]
    requires pg.entries == SweptEntries(pages[ahead[0]].entries) && IsRecorded(pg, n)
    ensures SweptUpTo(was, pages[ahead[0] := pg], n, list, ahead[1..])
  {
    hide SweptEntries, IsRecorded;
    assert forall q :: q in ahead <==> q == ahead[0] || q in ahead[1..];
  }

  // ---- How much can be young

  function YoungEntries(pages: Pages): set<(PageId, nat)> {
    set p, i: nat | p in pages && i < |pages[p].entries| && pages[p].entries[i].isAlloc
         && pages[p].entries[i].isYoung :: (p, i)
  }

  lemma SameYoungEntries(was: Pages, pages: Pages)
    requires SameEntries(was, pages) && pages.Keys == was.Keys
    ensures YoungEntries(pages) == YoungEntries(was)
  {
  }

  lemma SameEntriesTwice(was: Pages, mid: Pages, pages: Pages)
    requires SameEntries(was, mid) && SameEntries(mid, pages)
    ensures SameEntries(was, pages)
  {
  }

  /** Taking a page out brings no young object. */
  lemma TookOutYoung(s: Store, pages: Pages, s': Store, pages': Pages, p: PageId)
    requires TookOut(s, pages, s', pages', p)
    ensures YoungEntries(pages') == YoungEntries(pages)
  {
    hide Count, Complete, IsFull;
    forall q, i: nat
      ensures (q, i) in YoungEntries(pages') <==> (q, i) in YoungEntries(pages)
    {
      if q == p && q !in pages && (q, i) in YoungEntries(pages') {
        assert HasYoung(pages'[p]);
      }
    }
  }

  lemma NoYoungEntries(pages: Pages)
    ensures (forall p <- pages :: !HasYoung(pages[p])) <==> YoungEntries(pages) == {}
  {
    forall p, i: nat | p in pages && i < |pages[p].entries|
                       && pages[p].entries[i].isAlloc && pages[p].entries[i].isYoung
      ensures (p, i) in YoungEntries(pages)
    {
    }
  }

  lemma {:induction false} PairsSize(ps: set<PageId>, n: nat, pairs: set<(PageId, nat)>)
    requires forall x <- pairs :: x.0 in ps && x.1 < n
    ensures |pairs| <= |ps| * n
  {
    if ps != {} {
      var p :| p in ps;
      var here := set x | x in pairs && x.0 == p;
      PairsSize(ps - {p}, n, pairs - here);
      OnePageSize(p, n, here);
      assert |pairs - here| == |pairs| - |here|;
      OneMorePage(|ps|, n);
    } else {
      assert forall x :: x !in pairs;
      assert pairs == {};
    }
  }

  lemma OneMorePage(k: nat, n: nat)
    requires k > 0
    ensures k * n == (k - 1) * n + n
  {
  }

  lemma {:induction false} OnePageSize(p: PageId, n: nat, pairs: set<(PageId, nat)>)
    requires forall x <- pairs :: x.0 == p && x.1 < n
    ensures |pairs| <= n
  {
    if n == 0 {
      assert forall x :: x !in pairs;
      assert pairs == {};
    } else {
      OnePageSize(p, n - 1, pairs - {(p, n - 1)});
    }
  }

  function Listed(s: seq<PageId>): (r: set<PageId>)
    ensures |r| <= |s| && forall p :: p in r <==> p in s
  {
    if s == [] then {} else Listed(s[1..]) + {s[0]}
  }

  /** The young objects of one allocator fit into the pending pages and the allocation page. */
  lemma YoungFits(s: Store, pages: Pages, n: nat, a: Current, e: Current)
    requires IsPlaced(s, pages, n, a, e)
    ensures |YoungEntries(pages)| <= (|s.pending| + 1) * n
  {
    hide GoodStore, EachOnce, OnlyCollected, HasYoung, AllSound, InUse, YoungEntries;
    var ps := Listed(s.pending) + if a.page.Some? then {a.page.value} else {};
    assert |ps| <= |Listed(s.pending)| + 1;
    forall x | x in YoungEntries(pages)
      ensures x.0 in ps && x.1 < n
    {
      YoungIsCollected(s, pages, n, a, e, x);
    }
    PairsSize(ps, n, YoungEntries(pages));
    Scale(|ps|, |s.pending| + 1, n);
  }

  lemma YoungIsCollected(s: Store, pages: Pages, n: nat, a: Current, e: Current, x: (PageId, nat))
    requires IsPlaced(s, pages, n, a, e) && x in YoungEntries(pages)
    ensures Collected(s, a, x.0) && x.1 < n
  {
    hide GoodStore, EachOnce, InUse, ValidPage, Complete;
    assert HasYoung(pages[x.0]);
  }

  lemma Scale(a: nat, b: nat, n: nat)
    requires a <= b
    ensures a * n <= b * n
  {
  }

  lemma EntriesBounded(s: Store, pages: Pages, n: nat, a: Current, e: Current)
    requires IsPlaced(s, pages, n, a, e)
    ensures 0 < n <= 100
  {
  }
}
