/** Where an allocator keeps its pages between uses, and where a processed page goes. */
module Store {
  import opened Graph
  import opened Heap
  import opened BucketTrees
  import opened Buckets
  import opened Page
  import opened Utilization

  type PageId = nat

  datatype Store = Store(
    pending: seq<PageId>,
    low: seq<Tree<PageId>>,
    high: seq<Tree<PageId>>,
    filled: seq<PageId>,
    empty: seq<PageId>)

  type Pages = map<PageId, Page>

  // ---- What a store keeps

  /**
   The page stands in its bucket under the utilization that was recorded for it. Decrements may have freed
   entries since, so what it has now can be less, and is never more.
   */
  ghost predicate IsTagged(e: (PageId, real), pages: Pages, n: nat)
    requires n > 0
  {
    && e.0 in pages
    && pages[e.0].util == e.1
    && OnGrid(e.1, n)
    && pages[e.0].freecount <= n
    && CalcApproxUtilization(pages[e.0].freecount, n) <= e.1
  }

  ghost predicate AllTagged(ts: seq<Tree<PageId>>, pages: Pages, n: nat)
    requires n > 0
  {
    forall e <- AllEntries(ts) :: IsTagged(e, pages, n)
  }

  /** Pending and filled pages were recorded full, and pages of the pool are empty. */
  ghost predicate GoodStore(s: Store, pages: Pages, n: nat)
    requires n > 0
  {
    && AreBuckets(s.low, false)
    && AreBuckets(s.high, true)
    && AllTagged(s.low, pages, n)
    && AllTagged(s.high, pages, n)
    && (forall p <- s.pending :: p in pages && IsFull(pages[p].util))
    && (forall p <- s.filled :: p in pages && IsFull(pages[p].util))
    && (forall p <- s.empty :: p in pages && pages[p].freecount == n && pages[p].util == 0.0)
  }

  ghost function CountIn(ts: seq<Tree<PageId>>, pages: Pages, p: PageId): nat
    requires p in pages
  {
    AllEntries(ts)[(p, pages[p].util)]
  }

  /** In how many places of the store a page stands. */
  ghost function Count(s: Store, pages: Pages, p: PageId): nat
    requires p in pages
  {
    multiset(s.pending)[p] + CountIn(s.low, pages, p) + CountIn(s.high, pages, p)
    + multiset(s.filled)[p] + multiset(s.empty)[p]
  }

  // ---- Placing a processed page

  /** The branches of processPage, given the utilization recorded before and the one computed now. */
  ghost function Placed(s: Store, p: PageId, oldUtil: real, newUtil: real, isEmpty: bool, isEvac: bool): Store
    requires |s.low| == BucketsOf(false) && |s.high| == BucketsOf(true)
  {
    if isEmpty then s.(empty := [p] + s.empty)
    else if IsLowUtil(newUtil) then
      ClassIsCovered(newUtil, false);
      s.(low := InsertInto(s.low, p, newUtil, false))
    else if IsHighUtil(newUtil) then
      ClassIsCovered(newUtil, true);
      s.(high := InsertInto(s.high, p, newUtil, true))
    else if IsFull(newUtil) && !IsFull(oldUtil) then
      if isEvac then s.(filled := [p] + s.filled) else s.(pending := [p] + s.pending)
    else if IsFull(newUtil) && IsFull(oldUtil) then s.(filled := [p] + s.filled)
    else s
  }

  function Processed(pg: Page, n: nat): Page
    requires n > 0
  {
    pg.(util := CalcApproxUtilization(pg.freecount, n))
  }

  ghost function PlacedIn(s: Store, pages: Pages, p: PageId, n: nat, isEvac: bool): Store
    requires n > 0 && p in pages && |s.low| == BucketsOf(false) && |s.high| == BucketsOf(true)
  {
    Placed(s, p, pages[p].util, Processed(pages[p], n).util, n == pages[p].freecount, isEvac)
  }

  // ---- Pages outside the store

  lemma Untagged(ts: seq<Tree<PageId>>, pages: Pages, n: nat, p: PageId, e: (PageId, real))
    requires n > 0 && AllTagged(ts, pages, n) && p in pages && CountIn(ts, pages, p) == 0 && e in AllEntries(ts)
    ensures e.0 != p
  {
    var u := pages[p].util;
    assert IsTagged(e, pages, n);
    assert e.0 == p ==> e == (p, u);
  }

  /** Buckets do not notice a change of a page they do not hold. */
  lemma BucketsIgnore(ts: seq<Tree<PageId>>, pages: Pages, n: nat, p: PageId, pg: Page)
    requires n > 0 && AllTagged(ts, pages, n) && p in pages && CountIn(ts, pages, p) == 0
    ensures AllTagged(ts, pages[p := pg], n)
    ensures forall q <- pages :: CountIn(ts, pages[p := pg], q) == CountIn(ts, pages, q)
  {
    forall e | e in AllEntries(ts)
      ensures IsTagged(e, pages[p := pg], n)
    {
      Untagged(ts, pages, n, p, e);
      assert IsTagged(e, pages, n);
    }
    if (p, pg.util) in AllEntries(ts) {
      Untagged(ts, pages, n, p, (p, pg.util));
    }
  }

  /** A store does not notice a change of a page it does not hold. */
  lemma StoreIgnores(s: Store, pages: Pages, n: nat, p: PageId, pg: Page)
    requires n > 0 && GoodStore(s, pages, n) && p in pages && Count(s, pages, p) == 0
    ensures GoodStore(s, pages[p := pg], n)
    ensures forall q <- pages :: Count(s, pages[p := pg], q) == Count(s, pages, q)
  {
    hide AllTagged, AreBuckets, CountIn;
    BucketsIgnore(s.low, pages, n, p, pg);
    BucketsIgnore(s.high, pages, n, p, pg);
    assert p !in s.pending && p !in s.filled && p !in s.empty;
  }

  // ---- Placing counts once

  lemma InsertCounts(ts: seq<Tree<PageId>>, pages: Pages, n: nat, p: PageId, high: bool)
    requires n > 0 && AreBuckets(ts, high) && AllTagged(ts, pages, n)
    requires p in pages && pages[p].freecount <= n && pages[p].util == CalcApproxUtilization(pages[p].freecount, n)
    requires 0 <= BucketOf(pages[p].util, high) < |ts|
    ensures var ts' := InsertInto(ts, p, pages[p].util, high);
            && AreBuckets(ts', high)
            && AllTagged(ts', pages, n)
            && forall q <- pages :: CountIn(ts', pages, q) == CountIn(ts, pages, q) + At(p, q)
  {
    hide AreBuckets, InsertInto, AllEntries, BucketOf, CalcApproxUtilization, IsTagged, AllTagged, CountIn;
    var u := pages[p].util;
    var ts' := InsertInto(ts, p, u, high);
    InsertIntoBuckets(ts, p, u, high);
    ProcessedIsTagged(pages, n, p);
    TagsOfWhole(ts, ts', (p, u), pages, n);
    forall q | q in pages
      ensures CountIn(ts', pages, q) == CountIn(ts, pages, q) + At(p, q)
    {
      CountsOfPart(ts', ts, (p, u), pages, q);
    }
  }

  lemma ProcessedIsTagged(pages: Pages, n: nat, p: PageId)
    requires n > 0 && p in pages && pages[p].freecount <= n
    requires pages[p].util == CalcApproxUtilization(pages[p].freecount, n)
    ensures IsTagged((p, pages[p].util), pages, n)
  {
    hide CalcApproxUtilization;
  }

  lemma TagsOfWhole(ts: seq<Tree<PageId>>, ts': seq<Tree<PageId>>, x: (PageId, real), pages: Pages, n: nat)
    requires n > 0 && AllTagged(ts, pages, n)
             && AllEntries(ts') == AllEntries(ts) + multiset{x} && IsTagged(x, pages, n)
    ensures AllTagged(ts', pages, n)
  {
    hide AllEntries, IsTagged;
    forall e | e in AllEntries(ts')
      ensures IsTagged(e, pages, n)
    {
      assert AllEntries(ts')[e] == AllEntries(ts)[e] + multiset{x}[e];
    }
  }

  function At(p: PageId, q: PageId): nat {
    if q == p then 1 else 0
  }

  ghost predicate OneMore(s: Store, s': Store, pages: Pages, p: PageId) {
    forall q <- pages :: Count(s', pages, q) == Count(s, pages, q) + At(p, q)
  }

  lemma PushedCounts(l: seq<PageId>, p: PageId, q: PageId)
    ensures multiset([p] + l)[q] == multiset(l)[q] + At(p, q)
  {
  }

  lemma PlacedOnList(s: Store, s': Store, pages: Pages, n: nat, p: PageId)
    requires n > 0 && GoodStore(s, pages, n) && p in pages
    requires || (s' == s.(filled := [p] + s.filled) && IsFull(pages[p].util))
             || (s' == s.(pending := [p] + s.pending) && IsFull(pages[p].util))
             || (s' == s.(empty := [p] + s.empty) && pages[p].freecount == n && pages[p].util == 0.0)
    ensures GoodStore(s', pages, n) && OneMore(s, s', pages, p)
  {
    hide AllTagged, AreBuckets, CountIn, Count, IsFull;
    forall q | q in pages
      ensures Count(s', pages, q) == Count(s, pages, q) + At(p, q)
    {
      ListedCounts(s, s', pages, p, q);
    }
  }

  lemma ListedCounts(s: Store, s': Store, pages: Pages, p: PageId, q: PageId)
    requires p in pages && q in pages
    requires || s' == s.(filled := [p] + s.filled)
             || s' == s.(pending := [p] + s.pending)
             || s' == s.(empty := [p] + s.empty)
    ensures Count(s', pages, q) == Count(s, pages, q) + At(p, q)
  {
    hide CountIn;
    PushedCounts(s.filled, p, q);
    PushedCounts(s.pending, p, q);
    PushedCounts(s.empty, p, q);
  }

  lemma PlacedInBucket(s: Store, s': Store, pages: Pages, n: nat, p: PageId)
    requires n > 0 && GoodStore(s, pages, n) && p in pages && pages[p].freecount <= n
    requires pages[p].util == CalcApproxUtilization(pages[p].freecount, n)
    requires var u := pages[p].util;
             || (0 <= BucketOf(u, false) < |s.low| && s' == s.(low := InsertInto(s.low, p, u, false)))
             || (0 <= BucketOf(u, true) < |s.high| && s' == s.(high := InsertInto(s.high, p, u, true)))
    ensures GoodStore(s', pages, n) && OneMore(s, s', pages, p)
  {
    hide AllTagged, AreBuckets, CountIn, InsertInto, BucketOf, CalcApproxUtilization;
    if s'.low != s.low {
      InsertCounts(s.low, pages, n, p, false);
    } else if s'.high != s.high {
      InsertCounts(s.high, pages, n, p, true);
    } else {
      var b := BucketOf(pages[p].util, false);
      if 0 <= b < |s.low| && s' == s.(low := InsertInto(s.low, p, pages[p].util, false)) {
        InsertCounts(s.low, pages, n, p, false);
      } else {
        InsertCounts(s.high, pages, n, p, true);
      }
    }
  }

  /**
   A page that stood nowhere stands in exactly one more place after it is processed, and no other page
   moves, if and only if its new utilization has a class.
   */
  lemma ProcessedPageIsKeptExactly(s: Store, pages: Pages, n: nat, p: PageId, isEvac: bool)
    requires n > 0 && GoodStore(s, pages, n) && p in pages && Count(s, pages, p) == 0 && pages[p].freecount <= n
    ensures var pages' := pages[p := Processed(pages[p], n)];
            var s' := PlacedIn(s, pages, p, n, isEvac);
            && (forall q <- pages :: Count(s, pages', q) == Count(s, pages, q))
            && (ClassOf(pages'[p].util) != Nowhere ==> GoodStore(s', pages', n))
            && (OneMore(s, s', pages', p) <==> ClassOf(pages'[p].util) != Nowhere)
  {
    var pages' := pages[p := Processed(pages[p], n)];
    var s' := PlacedIn(s, pages, p, n, isEvac);
    var u := pages'[p].util;
    StoreIgnores(s, pages, n, p, Processed(pages[p], n));
    UtilizationInUnits(pages[p].freecount, n);
    hide GoodStore, CalcApproxUtilization, InsertInto, BucketOf, OneMore, Count;
    CountNotMore(s, pages', p);
    if n == pages[p].freecount {
      PlacedOnList(s, s', pages', n, p);
    } else if IsLowUtil(u) || IsHighUtil(u) {
      ClassIsCovered(u, IsHighUtil(u));
      SizesOf(s, pages', n);
      PlacedInBucket(s, s', pages', n, p);
    } else if IsFull(u) {
      PlacedOnList(s, s', pages', n, p);
    }
  }

  /** How often a page is on a list. */
  ghost function Times(l: seq<PageId>, q: PageId): nat {
    multiset(l)[q]
  }

  lemma PushedTimes(l: seq<PageId>, p: PageId, q: PageId)
    ensures Times([p] + l, q) == Times(l, q) + At(p, q)
  {
  }

  function If(c: bool): nat {
    if c then 1 else 0
  }

  lemma InsertedCounts(s: Store, pages: Pages, n: nat, p: PageId, high: bool, q: PageId)
    requires n > 0 && GoodStore(s, pages, n) && p in pages && q in pages && pages[p].freecount <= n
    requires pages[p].util == CalcApproxUtilization(pages[p].freecount, n)
    requires high ==> IsHighUtil(pages[p].util)
    requires !high ==> IsLowUtil(pages[p].util)
    ensures var u := pages[p].util;
            && |s.high| == BucketsOf(true) && |s.low| == BucketsOf(false)
            && if high then CountIn(InsertInto(s.high, p, u, true), pages, q) == CountIn(s.high, pages, q) + At(p, q)
               else CountIn(InsertInto(s.low, p, u, false), pages, q) == CountIn(s.low, pages, q) + At(p, q)
  {
    ClassIsCovered(pages[p].util, high);
    InsertCounts(if high then s.high else s.low, pages, n, p, high);
  }

  lemma PlacedByUtil(s: Store, pages: Pages, n: nat, p: PageId, oldUtil: real, isEvac: bool, q: PageId)
    requires n > 0 && GoodStore(s, pages, n) && p in pages && q in pages && pages[p].freecount <= n
    requires pages[p].util == CalcApproxUtilization(pages[p].freecount, n)
    requires |s.low| == BucketsOf(false) && |s.high| == BucketsOf(true)
    ensures var u, wasFull := pages[p].util, 0.90 < oldUtil <= 1.0;
            var s' := Placed(s, p, oldUtil, u, u == 0.0, isEvac);
            && Times(s'.empty, q) == Times(s.empty, q) + If(q == p && u == 0.0)
            && CountIn(s'.low, pages, q) == CountIn(s.low, pages, q) + If(q == p && 0.01 <= u <= 0.60)
            && CountIn(s'.high, pages, q) == CountIn(s.high, pages, q) + If(q == p && 0.60 < u <= 0.90)
            && Times(s'.pending, q) == Times(s.pending, q) + If(q == p && 0.90 < u && !wasFull && !isEvac)
            && Times(s'.filled, q) == Times(s.filled, q) + If(q == p && 0.90 < u && (wasFull || isEvac))
  {
    var u := pages[p].util;
    UtilizationInUnits(pages[p].freecount, n);
    hide GoodStore, CalcApproxUtilization, InsertInto, CountIn, Times;
    if u == 0.0 {
      PushedTimes(s.empty, p, q);
    } else if IsLowUtil(u) || IsHighUtil(u) {
      InsertedCounts(s, pages, n, p, IsHighUtil(u), q);
    } else if IsFull(u) {
      PushedTimes(s.pending, p, q);
      PushedTimes(s.filled, p, q);
    }
  }

  /**
   Where a processed page goes, in numbers: f of its n entries are free, so it uses 1 - f / n. A page that
   became full since it was last recorded is pending, but the evacuation page goes to the filled ones at once.
   */
  lemma PlacedWhere(s: Store, pages: Pages, n: nat, p: PageId, isEvac: bool, q: PageId)
    requires n > 0 && GoodStore(s, pages, n) && p in pages && q in pages
    requires Count(s, pages, p) == 0 && pages[p].freecount <= n
    ensures |s.low| == BucketsOf(false) && |s.high| == BucketsOf(true)
    ensures var f, wasFull := pages[p].freecount, 0.90 < pages[p].util <= 1.0;
            var u := 1.0 - f as real / n as real;
            var pages' := pages[p := pages[p].(util := u)];
            var s' := PlacedIn(s, pages, p, n, isEvac);
            && Times(s'.empty, q) == Times(s.empty, q) + If(q == p && f == n)
            && CountIn(s'.low, pages', q) == CountIn(s.low, pages', q) + If(q == p && 0.01 <= u <= 0.60)
            && CountIn(s'.high, pages', q) == CountIn(s.high, pages', q) + If(q == p && 0.60 < u <= 0.90)
            && Times(s'.pending, q) == Times(s.pending, q) + If(q == p && 0.90 < u && !wasFull && !isEvac)
            && Times(s'.filled, q) == Times(s.filled, q) + If(q == p && 0.90 < u && (wasFull || isEvac))
  {
    hide GoodStore, Placed, CountIn, Times, Count, Processed;
    var pages' := pages[p := Processed(pages[p], n)];
    StoreIgnores(s, pages, n, p, Processed(pages[p], n));
    ProcessedIs(pages[p], n);
    SizesOf(s, pages', n);
    PlacedByUtil(s, pages', n, p, pages[p].util, isEvac, q);
  }

  lemma ProcessedIs(pg: Page, n: nat)
    requires n > 0 && pg.freecount <= n
    ensures var u := 1.0 - pg.freecount as real / n as real;
            Processed(pg, n) == pg.(util := u) && u == CalcApproxUtilization(pg.freecount, n)
            && (u == 0.0 <==> pg.freecount == n)
  {
    UtilizationInUnits(pg.freecount, n);
  }

  lemma SizesOf(s: Store, pages: Pages, n: nat)
    requires n > 0 && GoodStore(s, pages, n)
    ensures |s.low| == BucketsOf(false) && |s.high| == BucketsOf(true)
  {
  }

  lemma CountNotMore(s: Store, pages: Pages, p: PageId)
    requires p in pages
    ensures !OneMore(s, s, pages, p)
  {
    assert Count(s, pages, p) != Count(s, pages, p) + 1;
  }

  // ---- Single pages

  lemma FreeCountFits(pg: Page)
    requires ValidPage(pg)
    ensures pg.freecount <= |pg.entries|
  {
    var s := FreeList(pg);
    assert forall i :: 0 <= i < |s| ==> s[i] in s;
    DistinctFits(s, Below(|pg.entries|));
  }

  /** A page whose free count is its entry count has no allocated entry. */
  lemma EmptyPageIsFree(pg: Page)
    requires ValidPage(pg) && pg.freecount == |pg.entries|
    ensures AllocatedEntries(pg) == {}
  {
    var listed := set k: nat | k in FreeList(pg);
    DistinctSize(FreeList(pg));
    assert listed <= Below(|pg.entries|);
    assert |Below(|pg.entries|) - listed| == 0;
    assert Below(|pg.entries|) - listed == {};
    assert forall k: nat :: k < |pg.entries| ==> k in Below(|pg.entries|);
  }

  // ---- Taking pages out

  ghost predicate OneLess(s: Store, s': Store, pages: Pages, p: PageId) {
    p in pages && OneMore(s', s, pages, p)
  }

  lemma LowestCounts(ts: seq<Tree<PageId>>, pages: Pages, n: nat, high: bool)
    requires n > 0 && AreBuckets(ts, high) && AllTagged(ts, pages, n) && Lowest(ts).Some?
    ensures AreBuckets(RemoveFrom(ts), high) && AllTagged(RemoveFrom(ts), pages, n)
    ensures IsTagged(Lowest(ts).value, pages, n)
    ensures forall q <- pages :: CountIn(ts, pages, q) == CountIn(RemoveFrom(ts), pages, q) + At(Lowest(ts).value.0, q)
  {
    hide AreBuckets, RemoveFrom, Lowest, AllEntries, IsTagged, AllTagged, CountIn;
    RemoveFromBuckets(ts, high);
    LowestIsTagged(ts, pages, n, high);
    TagsOfPart(ts, RemoveFrom(ts), Lowest(ts).value, pages, n);
    TagIsUtil(Lowest(ts).value, pages, n);
    forall q | q in pages
      ensures CountIn(ts, pages, q) == CountIn(RemoveFrom(ts), pages, q) + At(Lowest(ts).value.0, q)
    {
      CountsOfPart(ts, RemoveFrom(ts), Lowest(ts).value, pages, q);
    }
  }

  lemma TagsOfPart(ts: seq<Tree<PageId>>, ts': seq<Tree<PageId>>, x: (PageId, real), pages: Pages, n: nat)
    requires n > 0 && AllTagged(ts, pages, n) && AllEntries(ts) == AllEntries(ts') + multiset{x}
    ensures AllTagged(ts', pages, n)
  {
    hide AllEntries, IsTagged;
    forall e | e in AllEntries(ts')
      ensures IsTagged(e, pages, n)
    {
      assert AllEntries(ts)[e] == AllEntries(ts')[e] + multiset{x}[e];
    }
  }

  lemma CountsOfPart(ts: seq<Tree<PageId>>, ts': seq<Tree<PageId>>, x: (PageId, real), pages: Pages, q: PageId)
    requires AllEntries(ts) == AllEntries(ts') + multiset{x}
    requires q in pages && x.0 in pages && pages[x.0].util == x.1
    ensures CountIn(ts, pages, q) == CountIn(ts', pages, q) + At(x.0, q)
  {
    hide AllEntries;
    assert multiset{x}[(q, pages[q].util)] == At(x.0, q);
  }

  lemma TagIsUtil(e: (PageId, real), pages: Pages, n: nat)
    requires n > 0 && IsTagged(e, pages, n)
    ensures e.0 in pages && pages[e.0].util == e.1
  {
  }

  /** The page taken from a class has room, and is not full. */
  lemma LowestHasRoom(ts: seq<Tree<PageId>>, pages: Pages, n: nat, high: bool)
    requires n > 0 && AreBuckets(ts, high) && AllTagged(ts, pages, n) && Lowest(ts).Some?
    ensures Lowest(ts).value.0 in pages
    ensures var pg := pages[Lowest(ts).value.0]; pg.freecount > 0 && !IsFull(pg.util)
  {
    hide Lowest, AreBuckets, AllTagged;
    LowestIsTagged(ts, pages, n, high);
    LowestIsBounded(ts, high);
    TaggedHasRoom(Lowest(ts).value, pages, n);
  }

  lemma TaggedHasRoom(e: (PageId, real), pages: Pages, n: nat)
    requires n > 0 && IsTagged(e, pages, n) && e.1 <= 0.90
    ensures e.0 in pages && pages[e.0].freecount > 0 && !IsFull(pages[e.0].util)
  {
    hide OnGrid;
    assert CalcApproxUtilization(0, n) == 1.0;
  }

  lemma LowestIsTagged(ts: seq<Tree<PageId>>, pages: Pages, n: nat, high: bool)
    requires n > 0 && AreBuckets(ts, high) && AllTagged(ts, pages, n) && Lowest(ts).Some?
    ensures IsTagged(Lowest(ts).value, pages, n)
  {
    RemoveFromBuckets(ts, high);
    hide AreBuckets, RemoveFrom, Lowest, AllEntries, IsTagged;
    assert Lowest(ts).value in AllEntries(ts);
  }

  lemma LowestIsBounded(ts: seq<Tree<PageId>>, high: bool)
    requires AreBuckets(ts, high) && Lowest(ts).Some?
    ensures Lowest(ts).value.1 <= 0.90
  {
    var i := FirstUsed(ts);
    RemoveKeepsBucket(ts[i]);
    var x := Lowest(ts).value;
    hide RemoveLowest, InBucket, IsBucket, FirstUsed, Leftmost;
    assert x in Entries(ts[i]);
    assert InBucket(x.1, high, i);
    BucketIsBounded(x.1, high, i);
  }

  lemma BucketIsBounded(u: real, high: bool, i: nat)
    requires i < BucketsOf(high) && InBucket(u, high, i)
    ensures u <= 0.90
  {
  }

  lemma LowTaken(s: Store, pages: Pages, n: nat)
    requires n > 0 && GoodStore(s, pages, n) && Lowest(s.low).Some?
    ensures var p := Lowest(s.low).value.0; var s' := s.(low := RemoveFrom(s.low));
            GoodStore(s', pages, n) && OneLess(s, s', pages, p) && pages[p].freecount > 0 && !IsFull(pages[p].util)
  {
    hide AllTagged, AreBuckets, CountIn, IsTagged, Lowest, RemoveFrom;
    LowestCounts(s.low, pages, n, false);
    LowestHasRoom(s.low, pages, n, false);
  }

  lemma HighTaken(s: Store, pages: Pages, n: nat)
    requires n > 0 && GoodStore(s, pages, n) && Lowest(s.high).Some?
    ensures var p := Lowest(s.high).value.0; var s' := s.(high := RemoveFrom(s.high));
            GoodStore(s', pages, n) && OneLess(s, s', pages, p) && pages[p].freecount > 0 && !IsFull(pages[p].util)
  {
    hide AllTagged, AreBuckets, CountIn, IsTagged, Lowest, RemoveFrom;
    LowestCounts(s.high, pages, n, true);
    LowestHasRoom(s.high, pages, n, true);
  }

  lemma EmptyTaken(s: Store, pages: Pages, n: nat)
    requires n > 0 && GoodStore(s, pages, n) && s.empty != []
    ensures var p := s.empty[0]; var s' := s.(empty := s.empty[1..]);
            GoodStore(s', pages, n) && OneLess(s, s', pages, p) && pages[p].freecount == n
  {
    hide AllTagged, AreBuckets, CountIn;
    assert s.empty == [s.empty[0]] + s.empty[1..];
    assert s.empty[0] in s.empty;
    forall q | q in pages
      ensures multiset(s.empty)[q] == multiset(s.empty[1..])[q] + At(s.empty[0], q)
    {
      PushedCounts(s.empty[1..], s.empty[0], q);
    }
  }

  // ---- Which page comes next

  /** For allocation: the lowest low page, else the first of the pool, else a fresh one. */
  function NextLow(s: Store, next: PageId): PageId {
    if Lowest<PageId>(s.low).Some? then Lowest<PageId>(s.low).value.0 else if s.empty != [] then s.empty[0] else next
  }

  /** For evacuation: the lowest high page, else as for allocation. */
  function NextHigh(s: Store, next: PageId): PageId {
    if Lowest<PageId>(s.high).Some? then Lowest<PageId>(s.high).value.0 else NextLow(s, next)
  }

  ghost predicate IsEmptyClass(ts: seq<Tree<PageId>>, pages: Pages) {
    forall q <- pages :: CountIn(ts, pages, q) == 0
  }

  /** No page of the class was recorded with less. */
  ghost predicate IsLeastOf(ts: seq<Tree<PageId>>, pages: Pages, p: PageId) {
    && p in pages && CountIn(ts, pages, p) > 0
    && forall q <- pages :: CountIn(ts, pages, q) > 0 ==> pages[p].util <= pages[q].util
  }

  lemma LowestExactly(ts: seq<Tree<PageId>>, pages: Pages, n: nat, high: bool)
    requires n > 0 && AreBuckets(ts, high) && AllTagged(ts, pages, n)
    ensures Lowest(ts).None? <==> IsEmptyClass(ts, pages)
    ensures Lowest(ts).Some? ==> IsLeastOf(ts, pages, Lowest(ts).value.0)
  {
    RemoveFromBuckets(ts, high);
    hide AreBuckets, RemoveFrom, Lowest, AllEntries, IsTagged;
    if Lowest(ts).Some? {
      var e := Lowest(ts).value;
      assert e in AllEntries(ts);
      assert IsTagged(e, pages, n);
      TagIsUtil(e, pages, n);
    }
  }

  /** The allocator gets a low page of least recorded utilization, and only when there is none one of the pool. */
  lemma NextLowExactly(s: Store, pages: Pages, n: nat, next: PageId)
    requires n > 0 && GoodStore(s, pages, n)
    ensures !IsEmptyClass(s.low, pages) ==> IsLeastOf(s.low, pages, NextLow(s, next))
    ensures IsEmptyClass(s.low, pages) && s.empty != [] ==> NextLow(s, next) == s.empty[0]
    ensures IsEmptyClass(s.low, pages) && s.empty == [] ==> NextLow(s, next) == next
  {
    hide AreBuckets, AllTagged, Lowest, IsEmptyClass, IsLeastOf;
    LowestExactly(s.low, pages, n, false);
  }

  /** Evacuation gets a high page of least recorded utilization first. */
  lemma NextHighExactly(s: Store, pages: Pages, n: nat, next: PageId)
    requires n > 0 && GoodStore(s, pages, n)
    ensures !IsEmptyClass(s.high, pages) ==> IsLeastOf(s.high, pages, NextHigh(s, next))
    ensures IsEmptyClass(s.high, pages) && !IsEmptyClass(s.low, pages) ==>
              IsLeastOf(s.low, pages, NextHigh(s, next))
    ensures IsEmptyClass(s.high, pages) && IsEmptyClass(s.low, pages) ==>
              NextHigh(s, next) == if s.empty != [] then s.empty[0] else next
  {
    hide AreBuckets, AllTagged, Lowest, IsEmptyClass, IsLeastOf, NextLow;
    LowestExactly(s.high, pages, n, true);
    NextLowExactly(s, pages, n, next);
  }

  /** A page that was never seen stands nowhere. */
  lemma NewPage(s: Store, pages: Pages, n: nat, p: PageId, pg: Page)
    requires n > 0 && GoodStore(s, pages, n) && p !in pages
    ensures GoodStore(s, pages[p := pg], n) && Count(s, pages[p := pg], p) == 0
    ensures forall q <- pages :: Count(s, pages[p := pg], q) == Count(s, pages, q)
  {
    hide AreBuckets;
    NewInBuckets(s.low, pages, n, p, pg);
    NewInBuckets(s.high, pages, n, p, pg);
    hide AllTagged, CountIn;
    assert p !in s.pending && p !in s.filled && p !in s.empty;
  }

  lemma NewInBuckets(ts: seq<Tree<PageId>>, pages: Pages, n: nat, p: PageId, pg: Page)
    requires n > 0 && AllTagged(ts, pages, n) && p !in pages
    ensures AllTagged(ts, pages[p := pg], n) && CountIn(ts, pages[p := pg], p) == 0
    ensures forall q <- pages :: CountIn(ts, pages[p := pg], q) == CountIn(ts, pages, q)
  {
    forall e | e in AllEntries(ts)
      ensures IsTagged(e, pages[p := pg], n) && e.0 != p
    {
      assert IsTagged(e, pages, n);
    }
  }

  // ---- Freeing an entry where its page stands

  /** What a decrement does to the page of the object it frees. */
  function Freed(pg: Page, i: nat): Page
    requires i < |pg.entries| == |pg.links|
  {
    Push(pg.(entries := pg.entries[i := pg.entries[i].(isAlloc := false)]), i)
  }

  lemma FreedPage(pg: Page, i: nat)
    requires ValidPage(pg) && i < |pg.entries| && pg.entries[i].isAlloc
    ensures i < |pg.entries| == |pg.links|
    ensures ValidPage(Freed(pg, i)) && FreeList(Freed(pg, i)) == [i] + FreeList(pg)
    ensures Complete(pg) ==> Complete(Freed(pg, i))
    ensures Freed(pg, i).util == pg.util && Freed(pg, i).freecount == pg.freecount + 1
    ensures Freed(pg, i).entries == pg.entries[i := pg.entries[i].(isAlloc := false)]
  {
    var q := pg.(entries := pg.entries[i := pg.entries[i].(isAlloc := false)]);
    assert FreeList(q) == FreeList(pg);
    PushConses(q, i);
    if Complete(pg) {
      forall k: nat | k < |pg.entries|
        ensures k in FreeList(Freed(pg, i)) <==> !Freed(pg, i).entries[k].isAlloc
      {
        assert k in FreeList(pg) <==> !pg.entries[k].isAlloc;
      }
    }
  }

  lemma MoreFreeIsLess(f: nat, g: nat, n: nat)
    requires n > 0 && f <= g
    ensures CalcApproxUtilization(g, n) <= CalcApproxUtilization(f, n)
  {
    assert (g as real - f as real) / n as real >= 0.0;
  }

  lemma FreeingKeepsTags(ts: seq<Tree<PageId>>, pages: Pages, n: nat, p: PageId, pg: Page)
    requires n > 0 && AllTagged(ts, pages, n) && p in pages
    requires pg.util == pages[p].util && pages[p].freecount <= pg.freecount <= n
    ensures AllTagged(ts, pages[p := pg], n)
  {
    hide AllEntries, OnGrid, CalcApproxUtilization;
    MoreFreeIsLess(pages[p].freecount, pg.freecount, n);
    forall e | e in AllEntries(ts)
      ensures IsTagged(e, pages[p := pg], n)
    {
      assert IsTagged(e, pages, n);
    }
  }

  /** A page that gains a free entry stays where it is, under the utilization recorded before. */
  lemma FreeingKeepsStore(s: Store, pages: Pages, n: nat, p: PageId, pg: Page)
    requires n > 0 && GoodStore(s, pages, n) && p in pages
    requires pg.util == pages[p].util && pages[p].freecount < pg.freecount <= n
    ensures GoodStore(s, pages[p := pg], n)
    ensures forall q <- pages :: Count(s, pages[p := pg], q) == Count(s, pages, q)
  {
    hide AllTagged, AreBuckets;
    FreeingKeepsTags(s.low, pages, n, p, pg);
    FreeingKeepsTags(s.high, pages, n, p, pg);
  }
}
