/** The collector's heap over the pages of one allocator: what the allocator proves of a collection's circumstances. */
module Joined {
  import opened Graph
  import opened Heap
  import opened Dfs
  import opened Evacuation
  import opened Marking
  import opened Collection
  import opened Allocator
  import opened AllocatorState
  import opened Page
  import opened Store
  import Layout

  /** Pages are mapped one after the other from here. */
  const ALLOC_BASE_ADDRESS: nat := 0x40_0000_0000

  function PageAddr(p: PageId): Addr {
    ALLOC_BASE_ADDRESS + Layout.PAGE_SIZE * p
  }

  /** Where the object of entry i of page p lies. */
  function Obj(size: nat, canary: nat, x: (PageId, nat)): Addr {
    Layout.ObjAddr(PageAddr(x.0), Layout.RealEntrySize(size, canary), canary, x.1)
  }

  predicate IsLayout(size: nat, canary: nat, n: nat) {
    size > 0 && size % 8 == 0 && canary % 8 == 0 && n == Layout.EntryCount(Layout.RealEntrySize(size, canary))
  }

  lemma PageAddrIsAligned(p: PageId)
    ensures PageAddr(p) % Layout.PAGE_SIZE == 0
  {
    assert PageAddr(p) == Layout.PAGE_SIZE * (0x400_0000 + p);
  }

  /** Different entries have different addresses. */
  lemma ObjIsInjective(size: nat, canary: nat, n: nat, x: (PageId, nat), y: (PageId, nat))
    requires IsLayout(size, canary, n) && x.1 < n && y.1 < n && Obj(size, canary, x) == Obj(size, canary, y)
    ensures x == y
  {
    var realSize := Layout.RealEntrySize(size, canary);
    PageAddrIsAligned(x.0);
    PageAddrIsAligned(y.0);
    Layout.EntryRoundTrip(PageAddr(x.0), realSize, x.1, Obj(size, canary, x));
    Layout.EntryRoundTrip(PageAddr(y.0), realSize, y.1, Obj(size, canary, y));
  }

  lemma ObjIsAligned(size: nat, canary: nat, n: nat, x: (PageId, nat))
    requires IsLayout(size, canary, n)
    ensures Obj(size, canary, x) % 8 == 0 && Obj(size, canary, x) != 0
  {
    PageAddrIsAligned(x.0);
    Layout.ObjectsAreAligned(PageAddr(x.0), size, canary, x.1);
  }

  // ---- One heap over one allocator's pages

  /** Every entry is an object of the heap with the entry's metadata, and nothing else is allocated. */
  ghost predicate IsJoined(h: Heap, pages: Pages, size: nat, canary: nat, n: nat) {
    && IsLayout(size, canary, n)
    && (forall p, i: nat :: p in pages && i < n ==>
          i < |pages[p].entries| && Obj(size, canary, (p, i)) in h
          && h[Obj(size, canary, (p, i))].meta == pages[p].entries[i])
    && (forall a :: a in h && h[a].meta.isAlloc ==>
          exists p, i: nat :: p in pages && i < n && a == Obj(size, canary, (p, i)))
  }

  /** The entries of the pages that a collection rebuilds. */
  ghost function CollectedEntries(s: Store, pages: Pages, a: Current, size: nat, canary: nat, n: nat): set<Addr> {
    set p, i: nat | p in pages && i < n && Collected(s, a, p) :: Obj(size, canary, (p, i))
  }

  /** Every young object lies on a page the collection rebuilds. */
  lemma YoungIsRebuilt(h: Heap, s: Store, pages: Pages, n: nat, a: Current, e: Current, size: nat, canary: nat)
    requires IsPlaced(s, pages, n, a, e) && IsJoined(h, pages, size, canary, n) && YoungIsAlloc(h)
    ensures Young(h) <= CollectedEntries(s, pages, a, size, canary, n)
  {
    hide IsPlaced, IsJoined, Young, CollectedEntries, Obj, YoungIsAlloc;
    forall x | x in Young(h)
      ensures x in CollectedEntries(s, pages, a, size, canary, n)
    {
      var p, i := YoungEntry(h, pages, n, size, canary, x);
      YoungIsCollected(s, pages, n, a, e, (p, i));
      CollectedEntry(s, pages, n, a, size, canary, p, i);
    }
  }

  lemma YoungEntry(h: Heap, pages: Pages, n: nat, size: nat, canary: nat, x: Addr) returns (p: PageId, i: nat)
    requires IsJoined(h, pages, size, canary, n) && YoungIsAlloc(h) && x in Young(h)
    ensures (p, i) in YoungEntries(pages) && p in pages && i < n && x == Obj(size, canary, (p, i))
  {
    hide Obj;
    p, i :| p in pages && i < n && x == Obj(size, canary, (p, i));
  }

  lemma CollectedEntry(s: Store, pages: Pages, n: nat, a: Current, size: nat, canary: nat, p: PageId, i: nat)
    requires p in pages && i < n && Collected(s, a, p)
    ensures Obj(size, canary, (p, i)) in CollectedEntries(s, pages, a, size, canary, n)
  {
    hide Obj, Collected;
  }

  // ---- The entries evacuation hands out

  /** Distinct entries, off the rebuilt pages, none of them allocated. */
  ghost predicate IsSupply(s: Store, pages: Pages, n: nat, a: Current, xs: seq<(PageId, nat)>) {
    && (forall j, k :: 0 <= j < k < |xs| ==> xs[j] != xs[k])
    && (forall x <- xs :: x.1 < n && !Collected(s, a, x.0))
    && (forall x <- xs :: x.0 in pages ==> x.1 < |pages[x.0].entries| && !pages[x.0].entries[x.1].isAlloc)
  }

  /** What one allocator hands out for a sequence of evacuations. */
  method EvacuationSupply(gc: GCAllocator, types: seq<TypeInfo>) returns (xs: seq<(PageId, nat)>)
    requires gc.Valid()
    modifies gc
    ensures gc.Valid() && |xs| == |types|
    ensures IsSupply(old(gc.Here()), old(gc.pages), gc.entrycount, old(gc.Alloc()), xs)
    ensures forall x <- xs :: x.0 in gc.pages
  {
    hide GCAllocator.Valid, IsSupply, Handed, OnlyEntry;
    xs := [];
    ghost var was, s, a := gc.pages, gc.Here(), gc.Alloc();
    NothingSupplied(s, was, gc.entrycount, a);
    for k := 0 to |types|
      invariant gc.Valid() && |xs| == k
      invariant gc.pendinggcPages == s.pending && gc.Alloc() == a
      invariant IsSupply(s, was, gc.entrycount, a, xs)
      invariant Handed(was, gc.pages, xs)
    {
      ghost var mid := gc.pages;
      var p, i := gc.AllocateEvacuation(types[k]);
      gc.ValidHasEntries(p);
      SuppliedOneMore(s, was, gc.entrycount, a, mid, gc.pages, xs, p, i);
      xs := xs + [(p, i)];
    }
    HandedIsKnown(was, gc.pages, xs);
  }

  lemma NothingSupplied(s: Store, pages: Pages, n: nat, a: Current)
    ensures IsSupply(s, pages, n, a, []) && Handed(pages, pages, [])
  {
  }

  lemma HandedIsKnown(was: Pages, pages: Pages, xs: seq<(PageId, nat)>)
    requires Handed(was, pages, xs)
    ensures forall x <- xs :: x.0 in pages
  {
  }

  lemma SuppliedOneMore(s: Store, was: Pages, n: nat, a: Current, mid: Pages, now: Pages,
                        xs: seq<(PageId, nat)>, p: PageId, i: nat)
    requires IsSupply(s, was, n, a, xs) && Handed(was, mid, xs) && OnlyEntry(mid, now, p, i)
    requires p in now && i < n && i < |now[p].entries| && now[p].entries[i].isAlloc && !Collected(s, a, p)
    ensures IsSupply(s, was, n, a, xs + [(p, i)]) && Handed(was, now, xs + [(p, i)])
  {
    hide Collected;
  }

  /** The entries handed out so far are the only ones that changed, and are in use. */
  ghost predicate Handed(was: Pages, pages: Pages, xs: seq<(PageId, nat)>) {
    && was.Keys <= pages.Keys
    && (forall x <- xs :: x.0 in pages && x.1 < |pages[x.0].entries| && pages[x.0].entries[x.1].isAlloc)
    && (forall p <- was :: |pages[p].entries| == |was[p].entries|)
    && (forall p, i: nat :: p in was && i < |was[p].entries| && was[p].entries[i].isAlloc ==>
          pages[p].entries[i].isAlloc)
  }

  function Objs(size: nat, canary: nat, xs: seq<(PageId, nat)>): seq<Addr> {
    seq(|xs|, (k: nat) requires k < |xs| => Obj(size, canary, xs[k]))
  }

  /** An entry handed out is no allocated object, and is not on a rebuilt page. */
  lemma SuppliedIsFree(h: Heap, s: Store, pages: Pages, n: nat, a: Current, size: nat, canary: nat,
                       xs: seq<(PageId, nat)>, k: nat)
    requires IsJoined(h, pages, size, canary, n) && IsSupply(s, pages, n, a, xs) && k < |xs|
    requires Obj(size, canary, xs[k]) in h
    ensures !h[Obj(size, canary, xs[k])].meta.isAlloc
    ensures Obj(size, canary, xs[k]) !in CollectedEntries(s, pages, a, size, canary, n)
  {
    var x := xs[k];
    assert x in xs;
    if h[Obj(size, canary, x)].meta.isAlloc {
      var p, i: nat :| p in pages && i < n && Obj(size, canary, x) == Obj(size, canary, (p, i));
      ObjIsInjective(size, canary, n, x, (p, i));
    }
    if Obj(size, canary, x) in CollectedEntries(s, pages, a, size, canary, n) {
      var p, i: nat :| p in pages && i < n && Collected(s, a, p) && Obj(size, canary, x) == Obj(size, canary, (p, i));
      ObjIsInjective(size, canary, n, x, (p, i));
    }
  }

  /** The supply is what evacuation relies on: distinct, aligned, free, and off the rebuilt pages. */
  lemma SupplyIsFree(h: Heap, s: Store, pages: Pages, n: nat, a: Current, size: nat, canary: nat,
                    xs: seq<(PageId, nat)>)
    requires IsJoined(h, pages, size, canary, n) && IsSupply(s, pages, n, a, xs)
    requires forall x <- xs :: Obj(size, canary, x) in h
    ensures FreeEntries(h, Objs(size, canary, xs))
    ensures forall y <- Objs(size, canary, xs) :: y !in CollectedEntries(s, pages, a, size, canary, n)
  {
    hide Obj, CollectedEntries, IsLayout;
    var ys := Objs(size, canary, xs);
    forall k: nat | k < |xs|
      ensures ys[k] in h && !h[ys[k]].meta.isAlloc && ys[k] != 0 && ys[k] % 8 == 0
      ensures ys[k] !in CollectedEntries(s, pages, a, size, canary, n)
    {
      assert xs[k] in xs;
      SuppliedIsFree(h, s, pages, n, a, size, canary, xs, k);
      ObjIsAligned(size, canary, n, xs[k]);
    }
    forall j, k | 0 <= j < k < |ys|
      ensures ys[j] != ys[k]
    {
      assert xs[j] in xs && xs[k] in xs;
      if ys[j] == ys[k] {
        ObjIsInjective(size, canary, n, xs[j], xs[k]);
      }
    }
  }

  /**
   With the rebuilt pages and the evacuation entries of one allocator, all that a collection still asks of the
   rebuilt pages is that each old object on them is a found root.
   */
  lemma RebuiltPagesExactly(gc: GcState, inp: Inputs, s: Store, pages: Pages, n: nat, a: Current, e: Current,
                            size: nat, canary: nat, xs: seq<(PageId, nat)>)
    requires IsPlaced(s, pages, n, a, e) && IsJoined(gc.heap, pages, size, canary, n) && YoungIsAlloc(gc.heap)
    requires IsSupply(s, pages, n, a, xs) && forall x <- xs :: Obj(size, canary, x) in gc.heap
    requires inp.rebuilt == CollectedEntries(s, pages, a, size, canary, n) && inp.supply == Objs(size, canary, xs)
    ensures FreeEntries(gc.heap, inp.supply)
    ensures RebuiltPagesAreYoung(gc, inp)
       <==> forall x <- inp.rebuilt :: Old(gc.heap, x) ==> x in FoundRoots(gc.heap, inp.objs)
  {
    hide IsPlaced, IsJoined, IsSupply, CollectedEntries, Objs, FoundRoots, FreeEntries;
    YoungIsRebuilt(gc.heap, s, pages, n, a, e, size, canary);
    SupplyIsFree(gc.heap, s, pages, n, a, size, canary, xs);
  }
}
