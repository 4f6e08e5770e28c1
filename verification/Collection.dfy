/** One whole collection as a function of the heap, the carried-over roots and the pending decrements. */
module Collection {
  import opened Graph
  import opened Heap
  import opened Dfs
  import opened Evacuation
  import opened EvacuationShape
  import opened EvacuationCounts
  import opened EvacuationGraph
  import opened Marking
  import opened Decrements
  import opened Draining
  import Sorting

  /** What survives from one collection to the next. */
  datatype GcState = GcState(heap: Heap, oldRoots: seq<Addr>, pendingDecs: seq<Addr>, pending: map<Addr, nat>)

  /**
   What a collection is given: the objects its candidate words resolve to, the free entries
   evacuation will use, the entries of the pages that get rebuilt, and the decrement budget.
   */
  datatype Inputs = Inputs(objs: seq<Addr>, supply: seq<Addr>, rebuilt: set<Addr>, budget: nat)

  ghost function Evac(s: GcState, inp: Inputs): EvacState {
    Evacuated(MarkedHeap(s.heap, inp.objs), PendingYoung(s.heap, inp.objs), inp.supply)
  }

  ghost function NewRoots(s: GcState, inp: Inputs): seq<Addr> {
    Sorting.Sort(FoundRoots(s.heap, inp.objs))
  }

  /** Old roots that are no longer roots, in order. */
  ghost function DroppedRoots(oldRoots: seq<Addr>, roots: seq<Addr>): seq<Addr> {
    if oldRoots == [] then []
    else
      var n := |oldRoots| - 1;
      DroppedRoots(oldRoots[..n], roots) + if oldRoots[n] in roots then [] else [oldRoots[n]]
  }

  ghost function BeforeDrain(s: GcState, inp: Inputs): DecState {
    DecState(Evac(s, inp).heap, s.pendingDecs + DroppedRoots(s.oldRoots, NewRoots(s, inp)), s.pending, [])
  }

  ghost function Drained(s: GcState, inp: Inputs): DecState {
    DecRun(BeforeDrain(s, inp), inp.budget)
  }

  /** rebuild on every page of the collection. */
  ghost function Rebuilt(h: Heap, entries: set<Addr>): Heap {
    map a | a in h ::
      if a in entries && ShouldFreeListAdd(h[a].meta) then h[a].(meta := ResetMeta(MAX_FWD_INDEX)) else h[a]
  }

  ghost function RootsCleared(h: Heap, roots: set<Addr>): Heap {
    map a | a in h :: if a in roots then h[a].(meta := h[a].meta.(isMarked := false, isRoot := false)) else h[a]
  }

  ghost function Collect(s: GcState, inp: Inputs): GcState {
    var d := Drained(s, inp);
    GcState(RootsCleared(Rebuilt(d.heap, inp.rebuilt), Elems(NewRoots(s, inp))), NewRoots(s, inp), d.queue, d.pending)
  }

  lemma {:induction false} DroppedRootsExactly(oldRoots: seq<Addr>, roots: seq<Addr>)
    requires Distinct(oldRoots)
    ensures Distinct(DroppedRoots(oldRoots, roots))
    ensures forall x :: x in DroppedRoots(oldRoots, roots) <==> x in oldRoots && x !in roots
  {
    if oldRoots != [] {
      var n := |oldRoots| - 1;
      DroppedRootsExactly(oldRoots[..n], roots);
      assert oldRoots == oldRoots[..n] + [oldRoots[n]];
      if oldRoots[n] !in roots {
        assert oldRoots[n] !in oldRoots[..n];
        DistinctSnoc(DroppedRoots(oldRoots[..n], roots), oldRoots[n]);
      }
    }
  }

  // ---- The invariant between collections

  ghost predicate Carried(s: GcState) {
    && Sorting.StrictlySorted(s.oldRoots)
    && (forall r :: r in s.oldRoots ==> Old(s.heap, r))
    && Distinct(s.pendingDecs)
    && (forall q :: q in s.pendingDecs ==> Old(s.heap, q) && q !in s.oldRoots)
  }

  /** Every old object is counted, was a root last time, or waits to be freed. */
  ghost predicate Accounted(s: GcState) {
    forall a :: Old(s.heap, a) ==> s.heap[a].meta.refCount > 0 || a in s.oldRoots || a in s.pendingDecs
  }

  ghost predicate GcInv(s: GcState) {
    && MutatorHeap(s.heap) && OldClosed(s.heap) && CountsExact(s.heap)
    && Carried(s) && Accounted(s)
    && PendingWithin(s.pending, s.pendingDecs)
  }

  // ---- What a collection needs from its circumstances

  ghost predicate EnoughEntries(s: GcState, inp: Inputs) {
    && Candidates(s.heap, inp.objs) && FreeEntries(s.heap, inp.supply)
    && |PendingYoung(s.heap, inp.objs)| <= |inp.supply|
    && |PendingYoung(s.heap, inp.objs)| <= BSQ_MAX_FWD_TABLE_ENTRIES
  }

  /** What is about to be freed has no root flag and, once evacuation has counted, no reference. */
  ghost predicate QueueIsDead(s: GcState, inp: Inputs) {
    var e := Evac(s, inp).heap;
    forall q :: q in BeforeDrain(s, inp).queue ==>
      q in e && e[q].meta.refCount == 0 && q !in FoundRoots(s.heap, inp.objs)
  }

  /** Rebuilt pages hold all young objects, no free entry used for evacuation, and no old object that is not a root. */
  ghost predicate RebuiltPagesAreYoung(s: GcState, inp: Inputs) {
    && Young(s.heap) <= inp.rebuilt
    && (forall y :: y in inp.supply ==> y !in inp.rebuilt)
    && (forall a :: a in inp.rebuilt && Old(s.heap, a) ==> a in FoundRoots(s.heap, inp.objs))
  }

  ghost predicate Circumstances(s: GcState, inp: Inputs) {
    && EnoughEntries(s, inp) && GoodOrder(s.heap, inp.objs)
    && QueueIsDead(s, inp) && RebuiltPagesAreYoung(s, inp)
  }

  // ---- After marking and evacuation

  lemma SameEdges(h: Heap, h': Heap, a: Addr)
    requires forall x :: Old(h', x) ==> Old(h, x)
    requires forall x :: Old(h, x) ==> Old(h', x) && h'[x].slots == h[x].slots && h'[x].meta.typ == h[x].meta.typ
    ensures OldEdges(h', a) == OldEdges(h, a)
  {
    forall x, i: nat
      ensures (x, i) in OldEdges(h, a) <==> (x, i) in OldEdges(h', a)
    {
      if Old(h, x) {
        assert Mask(h[x]) == Mask(h'[x]);
        assert IsPtr(h[x], i) == IsPtr(h'[x], i);
      }
    }
  }

  lemma MarkingKeepsCounts(h: Heap, objs: seq<Addr>)
    requires CountsExact(h) && OldClosed(h)
    ensures CountsExact(MarkedHeap(h, objs)) && OldClosed(MarkedHeap(h, objs))
  {
    MarkedKeys(h, objs);
    hide MarkedHeap;
    var h1 := MarkedHeap(h, objs);
    forall a | a in h1 && h1[a].meta.isAlloc
      ensures ExactCount(h1, a)
    {
      assert ExactCount(h, a);
      SameEdges(h, h1, a);
      hide OldEdges;
    }
    forall x, i: nat | Old(h1, x) && IsPtr(h1[x], i)
      ensures Old(h1, h1[x].slots[i])
    {
      assert IsPtr(h[x], i);
    }
  }

  /** Everything the earlier phases promise about the marked heap and its list. */
  lemma Ready(s: GcState, inp: Inputs)
    requires GcInv(s) && EnoughEntries(s, inp)
    ensures var h1, order := MarkedHeap(s.heap, inp.objs), PendingYoung(s.heap, inp.objs);
            && EvacReady(h1, order, inp.supply) && ListClosed(h1, order) && Parented(h1, order)
            && CountsExact(h1) && OldClosed(h1)
  {
    hide MutatorHeap;
    hide OldClosed;
    hide CountsExact;
    hide MarkedHeap;
    hide PendingYoung;
    MarkingReadies(s.heap, inp.objs, inp.supply);
    PendingIsClosed(s.heap, inp.objs);
    PendingIsParented(s.heap, inp.objs);
    MarkingKeepsCounts(s.heap, inp.objs);
  }

  lemma EvacKeepsCounts(s: GcState, inp: Inputs)
    requires GcInv(s) && EnoughEntries(s, inp)
    ensures CountsExact(Evac(s, inp).heap)
  {
    Ready(s, inp);
    hide GcInv;
    hide EnoughEntries;
    hide EvacReady;
    hide MarkedHeap;
    hide PendingYoung;
    hide EvacN;
    hide CountsExact;
    EvacNCounted(MarkedHeap(s.heap, inp.objs), PendingYoung(s.heap, inp.objs), inp.supply,
                |PendingYoung(s.heap, inp.objs)|);
  }

  lemma EvacKeepsClosed(s: GcState, inp: Inputs)
    requires GcInv(s) && EnoughEntries(s, inp) && GoodOrder(s.heap, inp.objs)
    ensures OldClosed(Evac(s, inp).heap)
  {
    Ready(s, inp);
    hide GcInv;
    hide EnoughEntries;
    hide EvacReady;
    hide MarkedHeap;
    hide PendingYoung;
    hide EvacN;
    hide OldClosed;
    hide MovedFirst;
    hide ListClosed;
    EvacuationKeepsOldClosed(MarkedHeap(s.heap, inp.objs), PendingYoung(s.heap, inp.objs), inp.supply);
  }

  /** Where an object lives after the collection. */
  ghost function Home(s: GcState, inp: Inputs, a: Addr): Addr {
    Image(MarkedHeap(s.heap, inp.objs), PendingYoung(s.heap, inp.objs), inp.supply, a)
  }

  ghost predicate Listed(s: GcState, inp: Inputs, a: Addr) {
    a in PendingYoung(s.heap, inp.objs)
  }

  /** Old objects stay, with their root flag set if they were found. */
  lemma OldAfterEvac(s: GcState, inp: Inputs, a: Addr)
    requires GcInv(s) && EnoughEntries(s, inp) && a in s.heap && s.heap[a].meta.isAlloc && !Listed(s, inp, a)
    ensures Home(s, inp, a) == a && a in Evac(s, inp).heap
    ensures SameButCount(s.heap[a].(meta := s.heap[a].meta.(isRoot := a in FoundRoots(s.heap, inp.objs))),
                         Evac(s, inp).heap[a])
  {
    Ready(s, inp);
    MarkedObject(s.heap, inp.objs, a);
    hide GcInv;
    hide EnoughEntries;
    hide EvacReady;
    hide MarkedHeap;
    hide PendingYoung;
    hide FoundRoots;
    hide EvacN;
    hide Img;
    var h1, order := MarkedHeap(s.heap, inp.objs), PendingYoung(s.heap, inp.objs);
    BystanderAt(h1, order, inp.supply, a);
    ImageFixed(h1, order, inp.supply, a);
  }

  lemma OldIsNotListed(s: GcState, inp: Inputs, a: Addr)
    requires GcInv(s) && EnoughEntries(s, inp)
    ensures Old(s.heap, a) ==> !Listed(s, inp, a)
    ensures Listed(s, inp, a) ==> a in s.heap && s.heap[a].meta.isAlloc && s.heap[a].meta.isYoung && WfObject(s.heap[a])
  {
    PendingYoungExactly(s.heap, inp.objs);
    hide PendingYoung;
    if Listed(s, inp, a) {
      assert a in Young(s.heap);
    }
  }

  /** A listed object has an old home of its type, flagged root exactly if it was found. */
  lemma ListedAfterEvac(s: GcState, inp: Inputs, a: Addr)
    requires GcInv(s) && EnoughEntries(s, inp) && Listed(s, inp, a)
    ensures a in s.heap && Old(Evac(s, inp).heap, Home(s, inp, a))
    ensures var o := Evac(s, inp).heap[Home(s, inp, a)];
            && o.meta.typ == s.heap[a].meta.typ && |o.slots| == |s.heap[a].slots|
            && o.meta.forwardIndex == MAX_FWD_INDEX
            && o.meta.isRoot == (a in FoundRoots(s.heap, inp.objs))
            && (o.meta.isMarked ==> o.meta.isRoot)
    ensures a in FoundRoots(s.heap, inp.objs) ==> Home(s, inp, a) == a
    ensures a !in FoundRoots(s.heap, inp.objs) ==> Home(s, inp, a) in inp.supply
  {
    Ready(s, inp);
    OldIsNotListed(s, inp, a);
    MarkedObject(s.heap, inp.objs, a);
    hide GcInv;
    hide EnoughEntries;
    hide EvacReady;
    hide MarkedHeap;
    hide PendingYoung;
    hide FoundRoots;
    hide EvacN;
    hide Img;
    var h1, order := MarkedHeap(s.heap, inp.objs), PendingYoung(s.heap, inp.objs);
    SurvivorAt(h1, order, inp.supply, Position(order, a));
    if RootAt(h1, a) {
      ImageFixed(h1, order, inp.supply, a);
    } else {
      ImageMoved(h1, order, inp.supply, Position(order, a));
    }
  }

  /** What is allocated after evacuation: old objects, homes of listed ones, and unreached young ones. */
  lemma AllocatedAfterEvac(s: GcState, inp: Inputs, y: Addr)
    requires GcInv(s) && EnoughEntries(s, inp)
    requires y in Evac(s, inp).heap && Evac(s, inp).heap[y].meta.isAlloc
    ensures (y in s.heap && s.heap[y].meta.isAlloc && !Listed(s, inp, y))
         || exists x :: Listed(s, inp, x) && y == Home(s, inp, x)
  {
    Ready(s, inp);
    MarkedKeys(s.heap, inp.objs);
    hide GcInv;
    hide EnoughEntries;
    hide EvacReady;
    hide MarkedHeap;
    hide PendingYoung;
    hide EvacN;
    hide Img;
    var h1, order := MarkedHeap(s.heap, inp.objs), PendingYoung(s.heap, inp.objs);
    AllocatedAfter(h1, order, inp.supply, y);
    if exists x :: x in order && y == Image(h1, order, inp.supply, x) {
      var x :| x in order && y == Image(h1, order, inp.supply, x);
      assert Listed(s, inp, x) && y == Home(s, inp, x);
    }
  }

  lemma HomesDiffer(s: GcState, inp: Inputs, a: Addr, b: Addr)
    requires GcInv(s) && EnoughEntries(s, inp)
    requires a in s.heap && s.heap[a].meta.isAlloc && b in s.heap && s.heap[b].meta.isAlloc && a != b
    ensures Home(s, inp, a) != Home(s, inp, b)
  {
    Ready(s, inp);
    MarkedKeys(s.heap, inp.objs);
    hide GcInv;
    hide EnoughEntries;
    hide EvacReady;
    hide MarkedHeap;
    hide PendingYoung;
    hide Img;
    ImageInjective(MarkedHeap(s.heap, inp.objs), PendingYoung(s.heap, inp.objs), inp.supply, a, b);
  }

  /** Slot i of a's home: the home of the old target, or the old data word. */
  lemma ListedSlot(s: GcState, inp: Inputs, a: Addr, i: nat)
    requires GcInv(s) && EnoughEntries(s, inp) && GoodOrder(s.heap, inp.objs) && Listed(s, inp, a)
    requires a in s.heap && i < |s.heap[a].slots|
    ensures var e := Evac(s, inp).heap; var y := Home(s, inp, a);
            && y in e && i < |e[y].slots|
            && e[y].slots[i] == if IsPtr(s.heap[a], i) then Home(s, inp, s.heap[a].slots[i]) else s.heap[a].slots[i]
  {
    Ready(s, inp);
    MarkedKeys(s.heap, inp.objs);
    hide GcInv;
    hide EnoughEntries;
    hide EvacReady;
    hide MarkedHeap;
    hide PendingYoung;
    hide EvacN;
    hide Img;
    hide MovedFirst;
    var h1, order := MarkedHeap(s.heap, inp.objs), PendingYoung(s.heap, inp.objs);
    GraphPreservedExactly(h1, order, inp.supply);
    assert SlotPreserved(h1, order, inp.supply, a, i);
    assert Mask(h1[a]) == Mask(s.heap[a]);
    assert IsPtr(h1[a], i) == IsPtr(s.heap[a], i);
  }

  lemma ListedPointer(s: GcState, inp: Inputs, a: Addr, i: nat)
    requires GcInv(s) && EnoughEntries(s, inp) && Listed(s, inp, a) && a in s.heap && IsPtr(s.heap[a], i)
    ensures var e := Evac(s, inp).heap; Home(s, inp, a) in e && IsPtr(e[Home(s, inp, a)], i)
  {
    Ready(s, inp);
    MarkedKeys(s.heap, inp.objs);
    hide GcInv;
    hide EnoughEntries;
    hide EvacReady;
    hide MarkedHeap;
    hide PendingYoung;
    hide EvacN;
    hide Img;
    var h1, order := MarkedHeap(s.heap, inp.objs), PendingYoung(s.heap, inp.objs);
    assert Mask(h1[a]) == Mask(s.heap[a]);
    assert IsPtr(h1[a], i);
    ImagePointer(h1, order, inp.supply, Position(order, a), i);
  }

  lemma MovedHomeIsCounted(s: GcState, inp: Inputs, a: Addr)
    requires GcInv(s) && EnoughEntries(s, inp) && GoodOrder(s.heap, inp.objs)
    requires Listed(s, inp, a) && a !in FoundRoots(s.heap, inp.objs)
    ensures Home(s, inp, a) in Evac(s, inp).heap && Evac(s, inp).heap[Home(s, inp, a)].meta.refCount >= 1
  {
    Ready(s, inp);
    OldIsNotListed(s, inp, a);
    MarkedObject(s.heap, inp.objs, a);
    hide GcInv;
    hide EnoughEntries;
    hide EvacReady;
    hide MarkedHeap;
    hide PendingYoung;
    hide FoundRoots;
    hide EvacN;
    hide Img;
    hide MovedFirst;
    MovedIsCounted(MarkedHeap(s.heap, inp.objs), PendingYoung(s.heap, inp.objs), inp.supply, a);
  }
}
