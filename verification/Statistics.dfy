/** Live bytes at the end of a collection: the pages visited are all the pages that hold objects. */
module Statistics {
  import opened Graph
  import opened Heap
  import opened AllocatorState
  import opened BucketTrees
  import opened Buckets
  import opened LiveBytes
  import opened Page
  import opened Store
  import opened Utilization

  /** The pages in the order of the statistics: filled list, high buckets, low buckets. */
  ghost function Visited(s: Store): seq<PageId> {
    s.filled + OrderAll(s.high) + OrderAll(s.low)
  }

  lemma KnownEverywhere(s: Store, pages: Pages, n: nat, a: Current, e: Current)
    requires IsPlaced(s, pages, n, a, e)
    ensures forall p <- s.filled :: p in pages
    ensures forall x <- AllEntries(s.low) :: x.0 in pages
    ensures forall x <- AllEntries(s.high) :: x.0 in pages
  {
    hide AllEntries, AreBuckets;
    assert forall x <- AllEntries(s.low) :: IsTagged(x, pages, n);
    assert forall x <- AllEntries(s.high) :: IsTagged(x, pages, n);
  }

  lemma BucketsVisit(ts: seq<Tree<PageId>>, pages: Pages, n: nat, p: PageId)
    requires n > 0 && AllTagged(ts, pages, n)
    ensures multiset(OrderAll<PageId>(ts))[p] == if p in pages then CountIn(ts, pages, p) else 0
  {
    hide AllEntries, OrderAll;
    var u := if p in pages then pages[p].util else 0.0;
    forall x | x in AllEntries(ts) && x.0 == p
      ensures p in pages && x.1 == u
    {
      assert IsTagged(x, pages, n);
    }
    OrderAllCounts(ts, p, u);
  }

  // ---- Where a page stands after a sweep

  lemma BucketRange(ts: seq<Tree<PageId>>, pages: Pages, n: nat, high: bool, p: PageId)
    requires 0 < n <= 100 && AreBuckets(ts, high) && AllTagged(ts, pages, n)
    requires p in pages && CountIn(ts, pages, p) > 0
    ensures if high then 0.60 < pages[p].util <= 0.90 else 0.01 <= pages[p].util <= 0.60
  {
    var e := (p, pages[p].util);
    var i := AllEntriesElem(ts, e);
    assert IsTagged(e, pages, n);
    hide Entries, AllEntries, IsBucket, IsTagged;
    assert InBucket(e.1, high, i);
    StepRange(e.1, high, i);
    GridAboveZero(e.1, n);
  }

  lemma StepRange(u: real, high: bool, i: nat)
    requires i < BucketsOf(high) && InBucket(u, high, i)
    ensures if high then 0.60 < u <= 0.90 else 0.0 < u <= 0.60
  {
  }

  lemma GridAboveZero(u: real, n: nat)
    requires 0 < n <= 100 && OnGrid(u, n) && u > 0.0
    ensures u >= 0.01
  {
    var f: nat :| f <= n && u == CalcApproxUtilization(f, n);
    UtilizationInUnits(f, n);
    AtLeastAHundredth(u, n);
    hide CalcApproxUtilization;
  }

  /** Its recorded utilization alone says where a page stands when no page is in use or pending. */
  lemma StandsExactly(s: Store, pages: Pages, n: nat, a: Current, e: Current, p: PageId)
    requires IsPlaced(s, pages, n, a, e) && a.page.None? && e.page.None? && s.pending == [] && p in pages
    ensures var u := pages[p].util;
            && Times(s.empty, p) == If(u == 0.0)
            && CountIn(s.low, pages, p) == If(0.01 <= u <= 0.60)
            && CountIn(s.high, pages, p) == If(0.60 < u <= 0.90)
            && Times(s.filled, p) == If(0.90 < u <= 1.0)
  {
    hide AreBuckets, AllTagged, CountIn, OnlyCollected, AllSound;
    assert Places(s, pages, a, e, p) == 1;
    if CountIn(s.low, pages, p) > 0 {
      BucketRange(s.low, pages, n, false, p);
    }
    if CountIn(s.high, pages, p) > 0 {
      BucketRange(s.high, pages, n, true, p);
    }
    assert Times(s.filled, p) > 0 ==> p in s.filled;
    assert Times(s.empty, p) > 0 ==> p in s.empty;
  }

  /** Every page off the pool is visited once, and no other page at all. */
  lemma VisitsOnce(s: Store, pages: Pages, n: nat, a: Current, e: Current, p: PageId)
    requires IsPlaced(s, pages, n, a, e) && a.page.None? && e.page.None? && s.pending == []
    ensures multiset(Visited(s))[p] + multiset(s.empty)[p] == if p in pages then 1 else 0
  {
    hide OrderAll, AreBuckets, AllTagged, CountIn, OnlyCollected, AllSound;
    BucketsVisit(s.high, pages, n, p);
    BucketsVisit(s.low, pages, n, p);
    if p in pages {
      assert Places(s, pages, a, e, p) == 1;
    } else {
      assert p !in s.filled && p !in s.empty;
    }
  }

  lemma SumOfVisited(s: Store, bytes: map<PageId, int>)
    ensures Sum(bytes, Visited(s)) == Sum(bytes, s.filled) + Sum(bytes, OrderAll(s.high)) + Sum(bytes, OrderAll(s.low))
  {
    hide OrderAll, Sum;
    SumAppend(bytes, s.filled, OrderAll(s.high));
    SumAppend(bytes, s.filled + OrderAll(s.high), OrderAll(s.low));
  }

  /** A page that is not visited is in the pool, where no page has objects. */
  lemma UnvisitedIsEmpty(s: Store, pages: Pages, n: nat, a: Current, e: Current, p: PageId)
    requires IsPlaced(s, pages, n, a, e) && a.page.None? && e.page.None? && s.pending == []
    requires p in pages && p !in Visited(s)
    ensures AllocatedEntries(pages[p]) == {}
  {
    VisitsOnce(s, pages, n, a, e, p);
    hide Visited, EachOnce, OnlyCollected, AllTagged, AreBuckets;
    assert p in s.empty;
    assert SoundPage(pages[p], n);
    EmptyPageIsFree(pages[p]);
  }

  /** What the visited pages add up to is the size of every allocated object. */
  lemma VisitedIsAll(s: Store, pages: Pages, n: nat, a: Current, e: Current, size: nat, bytes: map<PageId, int>)
    requires IsPlaced(s, pages, n, a, e) && a.page.None? && e.page.None? && s.pending == [] && AllComplete(pages)
    requires bytes.Keys == pages.Keys && forall p <- pages :: bytes[p] == size * (n - pages[p].freecount)
    ensures Sum(bytes, s.filled) + Sum(bytes, OrderAll(s.high)) + Sum(bytes, OrderAll(s.low))
         == size * |AllocatedObjects(pages)|
  {
    SumOfVisited(s, bytes);
    hide Visited, Sum, OrderAll, GoodStore, EachOnce, OnlyCollected, ValidPage, Complete;
    var v := Visited(s);
    forall p
      ensures multiset(v)[p] <= 1 && (p in v ==> p in pages)
    {
      VisitsOnce(s, pages, n, a, e, p);
    }
    OnceIsDistinct(v);
    forall p | p in v
      ensures bytes[p] == size * |AllocatedEntries(pages[p])|
    {
      assert SoundPage(pages[p], n);
      LiveEntriesExactly(pages[p]);
    }
    SumIsObjects(pages, v, size, bytes);
    forall x | x in AllocatedObjects(pages)
      ensures x.0 in v
    {
      assert x.1 in AllocatedEntries(pages[x.0]);
      if x.0 !in v {
        UnvisitedIsEmpty(s, pages, n, a, e, x.0);
      }
    }
    assert ObjectsOn(pages, v) == AllocatedObjects(pages);
  }
}
