/** The allocator of one object size: its current pages, its store, and the cycle between collections. */
module Allocator {
  import opened AllocatorState
  import opened Heap
  import opened BucketTrees
  import opened Buckets
  import opened LiveBytes
  import opened Page
  import opened Statistics
  import opened Store
  import opened Utilization

  class GCAllocator {
    const allocsize: nat
    const entrycount: nat
    var pages: Pages
    var freelist: int
    var evacfreelist: int
    var allocPage: Option<PageId>
    var evacPage: Option<PageId>
    var pendinggcPages: seq<PageId>
    var lowUtilizationBuckets: seq<Tree<PageId>>
    var highUtilizationBuckets: seq<Tree<PageId>>
    var filledPages: seq<PageId>
    /** The global pool, and the next page the system would map. */
    var emptyPages: seq<PageId>
    var nextPage: PageId

    ghost function Here(): Store
      reads this
    {
      Store(pendinggcPages, lowUtilizationBuckets, highUtilizationBuckets, filledPages, emptyPages)
    }

    /** Every page is well formed, and the store keeps its own rules. */
    ghost predicate Sound()
      reads this
    {
      && 0 < entrycount <= 100
      && GoodStore(Here(), pages, entrycount)
      && (forall p <- pages :: SoundPage(pages[p], entrycount) && p < nextPage)
    }

    ghost predicate NoneTwice()
      reads this
    {
      forall q <- pages :: Count(Here(), pages, q) <= 1
    }

    ghost function Alloc(): Current
      reads this
    {
      Current(allocPage, freelist)
    }

    ghost function Evac(): Current
      reads this
    {
      Current(evacPage, evacfreelist)
    }

    /** What holds throughout a collection, decrements included. */
    ghost predicate Kept()
      reads this
    {
      IsPlaced(Here(), pages, entrycount, Alloc(), Evac()) && forall p <- pages :: p < nextPage
    }

    /** Between collections the cached lists are in step, and no free list misses an entry. */
    ghost predicate Valid()
      reads this
    {
      && IsKept(Here(), pages, entrycount, Alloc(), Evac())
      && (forall p <- pages :: p < nextPage)
      && AllComplete(pages)
    }

    constructor (size: nat, n: nat)
      requires 0 < n <= 100
      ensures Valid() && pages == map[] && allocsize == size && entrycount == n
    {
      allocsize := size;
      entrycount := n;
      pages := map[];
      freelist := NIL;
      evacfreelist := NIL;
      allocPage := None;
      evacPage := None;
      pendinggcPages := [];
      lowUtilizationBuckets := seq(NUM_LOW_UTIL_BUCKETS, _ => Leaf);
      highUtilizationBuckets := seq(NUM_HIGH_UTIL_BUCKETS, _ => Leaf);
      filledPages := [];
      emptyPages := [];
      nextPage := 0;
      new;
      NoEntries(lowUtilizationBuckets, false);
      NoEntries(highUtilizationBuckets, true);
    }

    /** Record the utilization of a page, and put it where that says. */
    method ProcessPage(p: PageId)
      requires entrycount > 0 && p in pages
      requires |lowUtilizationBuckets| == BucketsOf(false) && |highUtilizationBuckets| == BucketsOf(true)
      modifies this`pages, this`emptyPages, this`lowUtilizationBuckets, this`highUtilizationBuckets,
               this`pendinggcPages, this`filledPages
      ensures pages == old(pages)[p := Processed(old(pages[p]), entrycount)]
      ensures Here() == old(PlacedIn(Here(), pages, p, entrycount, evacPage == Some(p)))
    {
      hide CalcApproxUtilization, Insert, BucketOf, IsLowUtil, IsHighUtil, IsFull;
      var oldUtil := pages[p].util;
      var nUtil := CalcApproxUtilization(pages[p].freecount, entrycount);
      pages := pages[p := pages[p].(util := nUtil)];
      if entrycount == pages[p].freecount {
        emptyPages := [p] + emptyPages;
      } else if IsLowUtil(nUtil) {
        ClassIsCovered(nUtil, false);
        var index := GetBucketIndex(nUtil, false, 0);
        lowUtilizationBuckets := lowUtilizationBuckets[index := Insert(lowUtilizationBuckets[index], p, nUtil)];
      } else if IsHighUtil(nUtil) {
        ClassIsCovered(nUtil, true);
        var index := GetBucketIndex(nUtil, true, 0);
        highUtilizationBuckets := highUtilizationBuckets[index := Insert(highUtilizationBuckets[index], p, nUtil)];
      } else if IsFull(nUtil) && !IsFull(oldUtil) {
        if evacPage != Some(p) {
          pendinggcPages := [p] + pendinggcPages;
        } else {
          filledPages := [p] + filledPages;
        }
      } else if IsFull(nUtil) && IsFull(oldUtil) {
        filledPages := [p] + filledPages;
      }
    }

    /** A page from the global pool, or else a fresh one, initialized. */
    method AllocateFreshPage() returns (p: PageId)
      requires Sound() && NoneTwice()
      modifies this`pages, this`emptyPages, this`nextPage
      ensures Sound() && TookOut(old(Here()), old(pages), Here(), pages, p)
      ensures pages[p].freecount == entrycount
      ensures old(emptyPages) != [] ==>
                p == old(emptyPages)[0] && emptyPages == old(emptyPages)[1..] && nextPage == old(nextPage)
      ensures old(emptyPages) == [] ==> p == old(nextPage) && emptyPages == [] && nextPage == old(nextPage) + 1
    {
      hide GoodStore, Initialized, Count, SoundPage, Complete, HasYoung, TookOut;
      if emptyPages != [] {
        p := emptyPages[0];
        PoolIsKnown(Here(), pages, entrycount);
        PagesAreSquare(pages[p], entrycount);
        PoolGives(Here(), pages, entrycount);
        emptyPages := emptyPages[1..];
        pages := pages[p := Initialized(pages[p])];
      } else {
        p := nextPage;
        nextPage := nextPage + 1;
        SystemGives(Here(), pages, entrycount, p);
        pages := pages[p := Initialized(ZeroPage(entrycount))];
      }
    }

    /** The emptiest low page, or else a page without objects. */
    method GetFreshPageForAllocator() returns (p: PageId)
      requires Sound() && NoneTwice()
      modifies this`pages, this`emptyPages, this`nextPage, this`lowUtilizationBuckets
      ensures Sound() && TookOut(old(Here()), old(pages), Here(), pages, p)
      ensures p == NextLow(old(Here()), old(nextPage))
      ensures Lowest(old(lowUtilizationBuckets)).Some? ==>
                pages == old(pages) && emptyPages == old(emptyPages) && nextPage == old(nextPage)
      ensures Lowest(old(lowUtilizationBuckets)).None? ==> pages[p].freecount == entrycount
    {
      hide GoodStore, Count, SoundPage, Complete, HasYoung, TookOut, Lowest, RemoveFrom, Initialized;
      var found := Lowest(lowUtilizationBuckets);
      if found.Some? {
        LowGives(Here(), pages, entrycount);
        p := found.value.0;
        lowUtilizationBuckets := RemoveFrom(lowUtilizationBuckets);
      } else {
        p := AllocateFreshPage();
      }
    }

    /** The emptiest high page, or else the emptiest low page, or else a page without objects. */
    method GetFreshPageForEvacuation() returns (p: PageId)
      requires Sound() && NoneTwice()
      modifies this`pages, this`emptyPages, this`nextPage, this`lowUtilizationBuckets, this`highUtilizationBuckets
      ensures Sound() && TookOut(old(Here()), old(pages), Here(), pages, p)
      ensures p == NextHigh(old(Here()), old(nextPage))
      ensures Lowest(old(highUtilizationBuckets)).Some? || Lowest(old(lowUtilizationBuckets)).Some? ==>
                pages == old(pages) && emptyPages == old(emptyPages) && nextPage == old(nextPage)
    {
      hide GoodStore, Count, SoundPage, Complete, HasYoung, TookOut, Lowest, RemoveFrom, Initialized;
      var found := Lowest(highUtilizationBuckets);
      if found.Some? {
        HighGives(Here(), pages, entrycount);
        p := found.value.0;
        highUtilizationBuckets := RemoveFrom(highUtilizationBuckets);
      } else {
        p := GetFreshPageForAllocator();
      }
    }

    /** Give the allocator a page to allocate from. */
    method InstallAllocPage()
      requires Valid() && allocPage.None?
      modifies this`pages, this`emptyPages, this`nextPage, this`lowUtilizationBuckets, this`allocPage, this`freelist
      ensures Valid() && allocPage.Some? && freelist != NIL && SameEntries(old(pages), pages)
      ensures allocPage.value == NextLow(old(Here()), old(nextPage)) && YoungEntries(pages) == YoungEntries(old(pages))
      ensures pendinggcPages == old(pendinggcPages)
    {
      hide IsPlaced, GoodStore, SoundPage, TookOut, Count, Lowest, AllComplete, YoungEntries;
      ghost var s, ps := Here(), pages;
      SizesAtAllTimes(s, ps, entrycount, Alloc(), Evac());
      var p := GetFreshPageForAllocator();
      TookOutPage(s, ps, Here(), pages, p);
      TookOutYoung(s, ps, Here(), pages, p);
      InstallAlloc(s, ps, Here(), pages, entrycount, Alloc(), Evac(), p);
      RoomMeansList(pages[p], entrycount);
      allocPage := Some(p);
      freelist := pages[p].freelist;
    }

    /** A full allocation page becomes pending. */
    method RetireAllocPage()
      requires Valid() && allocPage.Some? && freelist == NIL
      modifies this`pages, this`emptyPages, this`lowUtilizationBuckets, this`highUtilizationBuckets,
               this`pendinggcPages, this`filledPages, this`allocPage
      ensures Valid() && allocPage.None? && SameEntries(old(pages), pages) && pages.Keys == old(pages.Keys)
      ensures pendinggcPages == [old(allocPage).value] + old(pendinggcPages)
      ensures forall q <- pages :: pages[q] ==
                if old(allocPage) == Some(q) then old(pages)[q].(util := 1.0) else old(pages)[q]
    {
      hide IsPlaced, GoodStore, SoundPage, Placed, PlacedIn, CalcApproxUtilization, AllComplete;
      RetireAlloc(Here(), pages, entrycount, Alloc(), Evac());
      CurrentIsKnown(Here(), pages, entrycount, Alloc(), Evac());
      NullListIsFull(pages[allocPage.value], entrycount);
      ProcessPage(allocPage.value);
      allocPage := None;
    }

    /** A full evacuation page goes to the filled pages. */
    method RetireEvacPage()
      requires Valid() && evacfreelist == NIL && evacPage.Some?
      requires evacPage.value in pages && pages[evacPage.value].freecount == 0
      modifies this`pages, this`filledPages, this`evacPage
      ensures Valid() && evacPage.None? && SameEntries(old(pages), pages)
      ensures filledPages == [old(evacPage).value] + old(filledPages)
      ensures pages == old(pages[evacPage.value := pages[evacPage.value].(util := 1.0)])
    {
      hide IsPlaced, GoodStore, SoundPage, AllComplete;
      RetireEvac(Here(), pages, entrycount, Alloc(), Evac());
      pages := pages[evacPage.value := pages[evacPage.value].(util := 1.0)];
      filledPages := [evacPage.value] + filledPages;
      evacPage := None;
    }

    ghost predicate EvacIsFull()
      reads this
    {
      evacPage.Some? && evacPage.value in pages && pages[evacPage.value].freecount == 0
    }

    /** Refill the evacuation list. */
    method AllocatorRefreshEvacuationPage()
      requires Valid() && evacfreelist == NIL
      modifies this`pages, this`emptyPages, this`nextPage, this`lowUtilizationBuckets, this`highUtilizationBuckets,
               this`filledPages, this`evacPage, this`evacfreelist
      ensures Valid() && evacPage.Some? && evacfreelist != NIL && SameEntries(old(pages), pages)
      ensures filledPages == old(if EvacIsFull() then [evacPage.value] + filledPages else filledPages)
      ensures evacPage.value == NextHigh(old(Here()), old(nextPage))
    {
      hide IsPlaced, GoodStore, SoundPage, TookOut, Count, Lowest, AllComplete;
      ghost var a := Alloc();
      CurrentIsKnown(Here(), pages, entrycount, a, Evac());
      if evacPage.Some? && pages[evacPage.value].freecount == 0 {
        RetireEvacPage();
      }
      ghost var s, ps := Here(), pages;
      SizesAtAllTimes(s, ps, entrycount, a, Evac());
      var p := GetFreshPageForEvacuation();
      TookOutPage(s, ps, Here(), pages, p);
      InstallEvac(s, ps, Here(), pages, entrycount, a, Evac(), p);
      RoomMeansList(pages[p], entrycount);
      evacPage := Some(p);
      evacfreelist := pages[p].freelist;
    }

    /** An entry for an old object, on the evacuation page. */
    method AllocateEvacuation(t: TypeInfo) returns (p: PageId, i: nat)
      requires Valid()
      modifies this`pages, this`emptyPages, this`nextPage, this`lowUtilizationBuckets, this`highUtilizationBuckets,
               this`filledPages, this`evacPage, this`evacfreelist
      ensures Valid() && old(pages.Keys) <= pages.Keys
      ensures evacPage == Some(p) && p in pages && i < |pages[p].entries|
      ensures pages[p].entries[i] == ConvertOldMeta(Some(t))
      ensures OnlyEntry(old(pages), pages, p, i) && !Collected(Here(), Alloc(), p)
      ensures old(evacfreelist) == NIL ==> p == NextHigh(old(Here()), old(nextPage))
      ensures old(evacfreelist) != NIL ==> i == old(evacfreelist) && Here() == old(Here())
      ensures old(evacfreelist) != NIL ==> forall q <- pages :: q != p ==> q in old(pages) && pages[q] == old(pages)[q]
    {
      hide IsPlaced, GoodStore, SoundPage, AllComplete;
      ghost var was := pages;
      SamePages(was);
      if evacfreelist == NIL {
        AllocatorRefreshEvacuationPage();
      }
      var m := ConvertOldMeta(Some(t));
      CurrentIsKnown(Here(), pages, entrycount, Alloc(), Evac());
      TakeFromEvac(Here(), pages, entrycount, Alloc(), Evac(), m);
      p := evacPage.value;
      FirstIsFree(pages[p], entrycount);
      EvacIsNotCollected(Here(), pages, entrycount, Alloc(), Evac());
      TookEntry(was, pages, p, m);
      i := evacfreelist;
      evacfreelist := pages[p].links[i];
      pages := pages[p := Take(pages[p], m)];
    }

    /** An entry for a young object, on the allocation page, which must have one. */
    method AllocateHere(t: TypeInfo) returns (p: PageId, i: nat)
      requires Valid() && freelist != NIL
      modifies this`pages, this`freelist
      ensures Valid() && pages.Keys == old(pages.Keys)
      ensures allocPage == Some(p) && p in pages && i == old(freelist) && i < |pages[p].entries|
      ensures pages[p].entries[i] == FreshMeta(t)
      ensures OnlyEntry(old(pages), pages, p, i)
      ensures forall q <- pages :: q != p ==> pages[q] == old(pages)[q]
    {
      hide IsPlaced, GoodStore, SoundPage, AllComplete;
      var m := FreshMeta(t);
      SamePages(pages);
      CurrentIsKnown(Here(), pages, entrycount, Alloc(), Evac());
      TakeFromAlloc(Here(), pages, entrycount, Alloc(), Evac(), m);
      p := allocPage.value;
      FirstIsFree(pages[p], entrycount);
      TookEntry(pages, pages, p, m);
      i := freelist;
      freelist := pages[p].links[i];
      pages := pages[p := Take(pages[p], m)];
    }

    /** What marking, evacuation or counting leaves in the metadata of allocated entries. */
    method Remark(after: Marks)
      requires Kept() && forall p, i :: after(p, i).isYoung ==> ShouldFreeListAdd(after(p, i))
      modifies this`pages
      ensures Kept() && AllYoungGoes(pages) && pages == RemarkedAll(old(pages), after)
      ensures pages.Keys == old(pages.Keys)
    {
      hide IsPlaced, AllYoungGoes, ShouldFreeListAdd, Remarked;
      RemarkKeeps(Here(), pages, entrycount, Alloc(), Evac(), after);
      MarkedYoungGoes(pages, after);
      pages := RemarkedAll(pages, after);
    }

    lemma ValidHasEntries(p: PageId)
      requires Valid() && p in pages
      ensures |pages[p].entries| == entrycount
    {
      KeptHasEntries(p);
    }

    lemma KeptHasEntries(p: PageId)
      requires Kept() && p in pages
      ensures |pages[p].entries| == entrycount
    {
      SizesAtAllTimes(Here(), pages, entrycount, Alloc(), Evac());
    }

    /** A decrement frees entry i of page p where the page stands; an entry no longer allocated is skipped. */
    method FreeEntry(p: PageId, i: nat)
      requires Kept() && AllYoungGoes(pages) && p in pages && i < |pages[p].entries|
      modifies this`pages
      ensures Kept() && AllYoungGoes(pages) && pages.Keys == old(pages.Keys)
      ensures !old(pages)[p].entries[i].isAlloc ==> pages == old(pages)
      ensures old(pages)[p].entries[i].isAlloc ==>
                |old(pages)[p].entries| == |old(pages)[p].links| && pages == old(pages)[p := Freed(old(pages)[p], i)]
    {
      hide IsPlaced, AllYoungGoes, Freed, FreeList;
      if pages[p].entries[i].isAlloc {
        FreeKeeps(Here(), pages, entrycount, Alloc(), Evac(), p, i);
        var pg := pages[p];
        pg := pg.(entries := pg.entries[i := pg.entries[i].(isAlloc := false)]);
        pages := pages[p := pg.(links := pg.links[i := pg.freelist], freelist := i, freecount := pg.freecount + 1)];
        FreedIs(old(pages)[p], i);
      }
    }

    /** Rebuild and place one page whose header the collector holds. */
    method RebuildAndProcess(p: PageId)
      requires entrycount > 0 && p in pages && |pages[p].entries| == |pages[p].links|
      requires |lowUtilizationBuckets| == BucketsOf(false) && |highUtilizationBuckets| == BucketsOf(true)
      modifies this`pages, this`emptyPages, this`lowUtilizationBuckets, this`highUtilizationBuckets,
               this`pendinggcPages, this`filledPages
      ensures pages == old(pages[p := SweptPage(pages[p], entrycount)])
      ensures Here() == old(PlacedIn(Here(), pages[p := Rebuilt(pages[p])], p, entrycount, evacPage == Some(p)))
    {
      hide Rebuilt, Placed, CalcApproxUtilization;
      pages := pages[p := Rebuilt(pages[p])];
      ProcessPage(p);
    }

    /** The allocation page is rebuilt and placed. */
    method SweepAllocPage()
      requires Kept() && AllYoungGoes(pages)
      modifies this`pages, this`emptyPages, this`lowUtilizationBuckets, this`highUtilizationBuckets,
               this`pendinggcPages, this`filledPages, this`allocPage, this`freelist
      ensures Kept() && AllYoungGoes(pages) && pages.Keys == old(pages.Keys) && allocPage.None?
      ensures pendinggcPages == old(pendinggcPages)
           || (old(allocPage).Some? && pendinggcPages == [old(allocPage).value] + old(pendinggcPages))
      ensures forall q <- pages :: pages[q].entries ==
                if old(allocPage) == Some(q) then SweptEntries(old(pages)[q].entries) else old(pages)[q].entries
      ensures entrycount > 0 && forall q <- pages ::
                if old(allocPage) == Some(q) then IsRecorded(pages[q], entrycount) else pages[q] == old(pages)[q]
    {
      hide IsPlaced, GoodStore, SoundPage, Placed, PlacedIn, AllYoungGoes, SweptPage, Rebuilt, CalcApproxUtilization;
      hide SweptEntries, IsRecorded;
      ghost var n := entrycount;
      PlacedIsKnown(Here(), pages, n, Alloc(), Evac());
      if allocPage.Some? {
        SweepAlloc(Here(), pages, n, Alloc(), Evac());
        SweptPageIsSound(pages[allocPage.value], n);
        SweptIsRecorded(pages[allocPage.value], n);
        RebuildAndProcess(allocPage.value);
        allocPage := None;
        freelist := NIL;
      }
    }

    /** The evacuation page is placed as it is. */
    method PlaceEvacPage()
      requires Kept() && AllYoungGoes(pages) && allocPage.None?
      modifies this`pages, this`emptyPages, this`lowUtilizationBuckets, this`highUtilizationBuckets,
               this`pendinggcPages, this`filledPages, this`evacPage, this`evacfreelist
      ensures Kept() && AllYoungGoes(pages) && pages.Keys == old(pages.Keys) && evacPage.None?
      ensures pendinggcPages == old(pendinggcPages)
      ensures forall q <- pages :: pages[q].entries == old(pages)[q].entries
      ensures entrycount > 0 && forall q <- pages ::
                if old(evacPage) == Some(q) then IsRecorded(pages[q], entrycount) else pages[q] == old(pages)[q]
    {
      hide IsPlaced, GoodStore, SoundPage, Placed, PlacedIn, AllYoungGoes;
      PlacedIsKnown(Here(), pages, entrycount, Alloc(), Evac());
      if evacPage.Some? {
        PlaceEvac(Here(), pages, entrycount, Alloc(), Evac());
        ProcessPage(evacPage.value);
        evacPage := None;
        evacfreelist := NIL;
      }
    }

    /** The allocation page is rebuilt and placed, the evacuation page placed as it is. */
    method SweepCurrentPages()
      requires Kept() && AllYoungGoes(pages)
      modifies this`pages, this`emptyPages, this`lowUtilizationBuckets, this`highUtilizationBuckets,
               this`pendinggcPages, this`filledPages, this`allocPage, this`freelist, this`evacPage, this`evacfreelist
      ensures Kept() && AllYoungGoes(pages) && pages.Keys == old(pages.Keys)
      ensures allocPage.None? && evacPage.None?
      ensures pendinggcPages == old(pendinggcPages)
           || (old(allocPage).Some? && pendinggcPages == [old(allocPage).value] + old(pendinggcPages))
      ensures forall q <- pages :: pages[q].entries ==
                if old(allocPage) == Some(q) then SweptEntries(old(pages)[q].entries) else old(pages)[q].entries
      ensures entrycount > 0 && forall q <- pages ::
                if old(allocPage) == Some(q) || old(evacPage) == Some(q) then IsRecorded(pages[q], entrycount)
                else pages[q] == old(pages)[q]
    {
      hide Kept, AllYoungGoes, SweptEntries;
      SweepAllocPage();
      PlaceEvacPage();
    }

    /** The first of the pages still to do is rebuilt and placed. */
    method SweepNext(cur: seq<PageId>, ghost was: Pages, ghost list: seq<PageId>)
      requires cur != [] && allocPage.None? && evacPage.None?
      requires IsPlaced(Here().(pending := cur), pages, entrycount, Current(None, NIL), Current(None, NIL))
      requires AllYoungGoes(pages) && entrycount > 0 && SweptUpTo(was, pages, entrycount, list, cur)
      modifies this`pages, this`emptyPages, this`lowUtilizationBuckets, this`highUtilizationBuckets,
               this`pendinggcPages, this`filledPages
      ensures IsPlaced(Here().(pending := cur[1..]), pages, entrycount, Current(None, NIL), Current(None, NIL))
      ensures AllYoungGoes(pages) && SweptUpTo(was, pages, entrycount, list, cur[1..])
      ensures pages.Keys == old(pages.Keys)
    {
      hide IsPlaced, GoodStore, SoundPage, Placed, PlacedIn, AllYoungGoes, SweptPage, Rebuilt, CalcApproxUtilization;
      hide SweptEntries, SweptUpTo, IsRecorded;
      ghost var n, none := entrycount, Current(None, NIL);
      var p := cur[0];
      SweepPending(Here().(pending := cur), pages, n, none);
      PlacedBesidePending(Here(), pages[p := Rebuilt(pages[p])], n, p, cur[1..]);
      SizesAtAllTimes(Here().(pending := cur), pages, n, none, none);
      SweptPageIsSound(pages[p], n);
      SweptIsRecorded(pages[p], n);
      SweptOneMore(was, pages, n, list, cur, SweptPage(pages[p], n));
      RebuildAndProcess(p);
    }

    /** The pending pages are rebuilt and placed one by one. */
    method SweepPendingPages()
      requires Kept() && AllYoungGoes(pages) && allocPage.None? && evacPage.None?
      modifies this`pages, this`emptyPages, this`lowUtilizationBuckets, this`highUtilizationBuckets,
               this`pendinggcPages, this`filledPages
      ensures Kept() && AllYoungGoes(pages) && pages.Keys == old(pages.Keys) && pendinggcPages == []
      ensures entrycount > 0 && SweptUpTo(old(pages), pages, entrycount, old(pendinggcPages), [])
    {
      hide IsPlaced, AllYoungGoes, SweptUpTo;
      ghost var n, none := entrycount, Current(None, NIL);
      PlacedIsKnown(Here(), pages, n, Alloc(), Evac());
      EntriesBounded(Here(), pages, n, Alloc(), Evac());
      NothingSwept(pages, n, pendinggcPages);
      var cur := pendinggcPages;
      while cur != []
        invariant IsPlaced(Here().(pending := cur), pages, n, none, none)
        invariant AllYoungGoes(pages) && pages.Keys == old(pages.Keys)
        invariant SweptUpTo(old(pages), pages, n, old(pendinggcPages), cur)
        decreases |cur|
      {
        SweepNext(cur, old(pages), old(pendinggcPages));
        cur := cur[1..];
      }
      pendinggcPages := [];
    }

    /** Rebuild and place the pages of the round, and start the next round with none. */
    method ProcessCollectorPages()
      requires Kept() && AllYoungGoes(pages)
      modifies this`pages, this`emptyPages, this`lowUtilizationBuckets, this`highUtilizationBuckets,
               this`pendinggcPages, this`filledPages, this`allocPage, this`freelist, this`evacPage, this`evacfreelist
      ensures Valid() && pages.Keys == old(pages.Keys)
      ensures allocPage.None? && evacPage.None? && pendinggcPages == []
      ensures forall p <- pages :: !HasYoung(pages[p])
      ensures forall p <- pages :: pages[p].entries ==
                if old(Collected(Here(), Alloc(), p)) then SweptEntries(old(pages)[p].entries)
                else old(pages)[p].entries
      ensures entrycount > 0 && forall p <- pages ::
                if old(Collected(Here(), Alloc(), p)) || old(evacPage) == Some(p) then IsRecorded(pages[p], entrycount)
                else pages[p] == old(pages)[p]
    {
      hide IsPlaced, AllYoungGoes, AllComplete, HasYoung;
      SweepCurrentPages();
      SweepPendingPages();
      NothingToCollect(Here(), pages, entrycount, Alloc(), Evac());
      forall p | p in pages && old(allocPage) == Some(p)
        ensures SweptEntries(SweptEntries(old(pages)[p].entries)) == SweptEntries(old(pages)[p].entries)
      {
        SweepTwice(old(pages)[p].entries);
      }
      hide SweptEntries;
    }

    // ---- Statistics

    /** Object size times allocated entries, for each page. */
    ghost function Bytes(): map<PageId, int>
      reads this
    {
      map p | p in pages :: allocsize * (entrycount - pages[p].freecount)
    }

    /** Every page of one bucket adds its live bytes. */
    method TraverseBST(t: Tree<PageId>, total: int) returns (live: int)
      requires forall e <- Entries(t) :: e.0 in pages
      ensures live == total + Sum(Bytes(), Order(t))
      decreases t
    {
      hide Entries, Sum, Order;
      live := total;
      EmptyOrder(Bytes(), t);
      if t.Node? {
        PagesOfNode(t, pages.Keys);
        live := ProcessList([t.page] + t.chain, live);
        live := TraverseBST(t.left, live);
        live := TraverseBST(t.right, live);
        SumOfNode(Bytes(), t);
      }
    }

    method ProcessList(list: seq<PageId>, total: int) returns (live: int)
      requires forall p <- list :: p in pages
      ensures live == total + Sum(Bytes(), list)
    {
      live := total;
      for k := 0 to |list|
        invariant live == total + Sum(Bytes(), list[..k])
      {
        assert list[..k + 1] == list[..k] + [list[k]];
        SumAppend(Bytes(), list[..k], [list[k]]);
        assert list[k] in list;
        live := live + allocsize * (entrycount - pages[list[k]].freecount);
      }
      assert list[..|list|] == list;
    }

    method ProcessBuckets(ts: seq<Tree<PageId>>, total: int) returns (live: int)
      requires forall e <- AllEntries(ts) :: e.0 in pages
      ensures live == total + Sum(Bytes(), OrderAll(ts))
    {
      hide Order, Sum, Entries;
      live := total;
      NothingToAdd(Bytes(), ts);
      for k := 0 to |ts|
        invariant live == total + Sum(Bytes(), OrderAll(ts[..k]))
      {
        EntriesOfOne(ts, k);
        OrderAllSplit(ts, k);
        SumAppend(Bytes(), OrderAll(ts[..k]), Order(ts[k]));
        live := TraverseBST(ts[k], live);
      }
      assert ts[..|ts|] == ts;
    }

    /**
     At the end of a collection the statistics add up the size of every allocated object of the allocator:
     each page is visited once, and pages of the pool have none.
     */
    method UpdateMemStats(total: int) returns (live: int)
      requires Valid() && allocPage.None? && evacPage.None? && pendinggcPages == []
      ensures live == total + allocsize * |AllocatedObjects(pages)|
    {
      hide IsPlaced, AllComplete, Sum, Order, OrderAll, Entries, AllEntries;
      KnownEverywhere(Here(), pages, entrycount, Alloc(), Evac());
      live := ProcessList(filledPages, total);
      live := ProcessBuckets(highUtilizationBuckets, live);
      live := ProcessBuckets(lowUtilizationBuckets, live);
      VisitedIsAll(Here(), pages, entrycount, Alloc(), Evac(), allocsize, Bytes());
    }
  }
}
