/** A collection keeps the invariant, loses nothing reachable, and in the end leaves nothing else. */
module CollectionInvariant {
  import opened Graph
  import opened Heap
  import opened Dfs
  import opened Evacuation
  import opened EvacuationCounts
  import opened EvacuationGraph
  import opened Marking
  import opened Decrements
  import opened Draining
  import opened Collection
  import Sorting

  // ---- From evacuation to draining

  lemma NewRootsAreFound(s: GcState, inp: Inputs)
    requires GcInv(s) && EnoughEntries(s, inp)
    ensures Sorting.StrictlySorted(NewRoots(s, inp))
    ensures forall r :: r in NewRoots(s, inp) <==> r in FoundRoots(s.heap, inp.objs)
    ensures forall r :: r in NewRoots(s, inp) ==> r in s.heap && s.heap[r].meta.isAlloc
  {
    FoundRootsExactly(s.heap, inp.objs);
    hide FoundRoots;
    Sorting.SortIsStrict(FoundRoots(s.heap, inp.objs));
    Sorting.SortElems(FoundRoots(s.heap, inp.objs));
  }

  /** The queue holds the pending decrements and exactly the old roots that were not found again. */
  lemma QueueBeforeDrain(s: GcState, inp: Inputs)
    requires GcInv(s) && EnoughEntries(s, inp)
    ensures Distinct(BeforeDrain(s, inp).queue)
    ensures forall q :: q in BeforeDrain(s, inp).queue <==>
              (q in s.pendingDecs || (q in s.oldRoots && q !in FoundRoots(s.heap, inp.objs)))
    ensures forall q :: q in BeforeDrain(s, inp).queue ==> Old(s.heap, q)
  {
    NewRootsAreFound(s, inp);
    hide FoundRoots;
    hide NewRoots;
    hide EnoughEntries;
    var d := DroppedRoots(s.oldRoots, NewRoots(s, inp));
    DroppedRootsExactly(s.oldRoots, NewRoots(s, inp));
    DistinctConcat(s.pendingDecs, d);
    hide Evac;
  }

  lemma BeforeDrainInv(s: GcState, inp: Inputs)
    requires GcInv(s) && EnoughEntries(s, inp) && GoodOrder(s.heap, inp.objs) && QueueIsDead(s, inp)
    ensures DecInv(BeforeDrain(s, inp))
  {
    EvacKeepsCounts(s, inp);
    EvacKeepsClosed(s, inp);
    QueueBeforeDrain(s, inp);
    hide CountsExact;
    hide OldClosed;
    hide Evac;
    hide FoundRoots;
    hide MutatorHeap;
    hide GoodOrder;
    forall q | q in BeforeDrain(s, inp).queue
      ensures Old(Evac(s, inp).heap, q) && !Evac(s, inp).heap[q].meta.isRoot
    {
      OldIsNotListed(s, inp, q);
      OldAfterEvac(s, inp, q);
    }
  }

  /** An object counted before evacuation is counted after it. */
  lemma CountedStaysCounted(s: GcState, inp: Inputs, a: Addr)
    requires GcInv(s) && EnoughEntries(s, inp) && Old(s.heap, a) && s.heap[a].meta.refCount > 0
    ensures a in Evac(s, inp).heap && Evac(s, inp).heap[a].meta.refCount > 0
  {
    EvacKeepsCounts(s, inp);
    OldIsNotListed(s, inp, a);
    OldAfterEvac(s, inp, a);
    assert ExactCount(s.heap, a);
    var w, i := CountedIsPointed(s.heap, a);
    OldIsNotListed(s, inp, w);
    OldAfterEvac(s, inp, w);
    hide GcInv;
    hide EnoughEntries;
    hide Evac;
    hide FoundRoots;
    var e := Evac(s, inp).heap;
    assert Mask(e[w]) == Mask(s.heap[w]);
    assert IsPtr(e[w], i) && e[w].slots[i] == a;
    assert ExactCount(e, a);
    PointedIsCounted(e, w, i, a);
  }

  lemma CoveredAt(s: GcState, inp: Inputs, a: Addr)
    requires GcInv(s) && EnoughEntries(s, inp) && GoodOrder(s.heap, inp.objs) && Old(Evac(s, inp).heap, a)
    ensures var e := Evac(s, inp).heap;
            e[a].meta.refCount > 0 || e[a].meta.isRoot || a in BeforeDrain(s, inp).queue
  {
    hide Evac;
    hide Home;
    hide FoundRoots;
    hide GoodOrder;
    hide MutatorHeap;
    hide OldClosed;
    hide CountsExact;
    AllocatedAfterEvac(s, inp, a);
    if exists x :: Listed(s, inp, x) && a == Home(s, inp, x) {
      var x :| Listed(s, inp, x) && a == Home(s, inp, x);
      ListedAfterEvac(s, inp, x);
      if x !in FoundRoots(s.heap, inp.objs) {
        MovedHomeIsCounted(s, inp, x);
      }
    } else {
      OldAfterEvac(s, inp, a);
      QueueBeforeDrain(s, inp);
      if s.heap[a].meta.refCount > 0 {
        CountedStaysCounted(s, inp, a);
      }
    }
  }

  lemma BeforeDrainCovered(s: GcState, inp: Inputs)
    requires GcInv(s) && EnoughEntries(s, inp) && GoodOrder(s.heap, inp.objs)
    ensures Covered(BeforeDrain(s, inp))
  {
    forall a | Old(BeforeDrain(s, inp).heap, a)
      ensures var h := BeforeDrain(s, inp).heap;
              h[a].meta.refCount > 0 || h[a].meta.isRoot || a in BeforeDrain(s, inp).queue
    {
      CoveredAt(s, inp, a);
    }
  }

  lemma DrainedInv(s: GcState, inp: Inputs)
    requires GcInv(s) && Circumstances(s, inp)
    ensures DecInv(Drained(s, inp)) && Covered(Drained(s, inp))
    ensures AllIntact(Evac(s, inp).heap, Drained(s, inp).heap)
  {
    hide GcInv;
    hide EnoughEntries;
    hide GoodOrder;
    hide QueueIsDead;
    hide RebuiltPagesAreYoung;
    hide DecRun;
    hide DecInv;
    hide Covered;
    hide AllIntact;
    hide Evac;
    BeforeDrainInv(s, inp);
    BeforeDrainCovered(s, inp);
    DrainKeepsInvariant(BeforeDrain(s, inp), inp.budget);
  }

  /** Found roots are old and flagged after evacuation, and draining does not free them. */
  lemma RootAfterEvac(s: GcState, inp: Inputs, r: Addr)
    requires GcInv(s) && EnoughEntries(s, inp) && r in FoundRoots(s.heap, inp.objs)
    ensures Home(s, inp, r) == r
    ensures Old(Evac(s, inp).heap, r) && Evac(s, inp).heap[r].meta.isRoot
  {
    NewRootsAreFound(s, inp);
    hide FoundRoots;
    hide Evac;
    hide Home;
    OldIsNotListed(s, inp, r);
    if Listed(s, inp, r) {
      ListedAfterEvac(s, inp, r);
    } else {
      if s.heap[r].meta.isYoung {
        YoungRootIsListed(s, inp, r);
      }
      OldAfterEvac(s, inp, r);
    }
  }

  lemma YoungRootIsListed(s: GcState, inp: Inputs, r: Addr)
    requires GcInv(s) && EnoughEntries(s, inp) && r in FoundRoots(s.heap, inp.objs)
    requires r in s.heap && s.heap[r].meta.isYoung
    ensures Listed(s, inp, r)
  {
    PendingYoungExactly(s.heap, inp.objs);
    YoungAmongElems(s.heap, FoundRoots(s.heap, inp.objs));
    hide FoundRoots;
    hide PendingYoung;
    ReachSelf(YoungGraph(s.heap), r);
  }

  lemma RootAfterDrain(s: GcState, inp: Inputs, r: Addr)
    requires GcInv(s) && Circumstances(s, inp) && r in FoundRoots(s.heap, inp.objs)
    ensures Old(Drained(s, inp).heap, r) && Drained(s, inp).heap[r].meta.isRoot
  {
    RootAfterEvac(s, inp, r);
    DrainedInv(s, inp);
    BeforeDrainInv(s, inp);
    hide GcInv;
    hide EnoughEntries;
    hide Evac;
    hide FoundRoots;
    hide DecRun;
    hide DecInv;
    hide Covered;
    var e := Evac(s, inp).heap;
    ReachSelf(OldGraph(e), r);
    assert RootReaches(e, r);
    DrainKeepsReached(BeforeDrain(s, inp), inp.budget, r);
    assert Intact(e, Drained(s, inp).heap, r);
    RootReachesOld(Drained(s, inp).heap, r);
  }

  lemma RootReachesOld(h: Heap, a: Addr)
    requires RootReaches(h, a)
    ensures Old(h, a)
  {
    var r :| Old(h, r) && h[r].meta.isRoot && Reach(OldGraph(h), r, a);
    ObjGraphWhole(h, OldSet(h));
    ReachIsNode(OldGraph(h), r, a);
  }

  // ---- Rebuilding and clearing

  /** What is left of the drained heap: its old objects, with their flags cleared. */
  ghost predicate OnlyOldLeft(h: Heap, h': Heap) {
    && h'.Keys == h.Keys
    && (forall a :: a in h ==> (h'[a].meta.isAlloc <==> Old(h, a)))
    && (forall a :: Old(h, a) ==> h'[a] == h[a].(meta := h[a].meta.(isMarked := false, isRoot := false)))
  }

  /** What the flags of allocated objects mean after draining. */
  ghost predicate FlagsTell(s: GcState, inp: Inputs, h: Heap, a: Addr)
    requires a in h
  {
    && (h[a].meta.isRoot <==> a in FoundRoots(s.heap, inp.objs))
    && (h[a].meta.isMarked ==> h[a].meta.isRoot)
    && (h[a].meta.isYoung || a in inp.rebuilt ==> (h[a].meta.isYoung <==> !h[a].meta.isRoot) && a in inp.rebuilt)
  }

  lemma FlagsAfterEvac(s: GcState, inp: Inputs, a: Addr)
    requires GcInv(s) && EnoughEntries(s, inp) && RebuiltPagesAreYoung(s, inp)
    requires a in Evac(s, inp).heap && Evac(s, inp).heap[a].meta.isAlloc
    ensures FlagsTell(s, inp, Evac(s, inp).heap, a)
  {
    hide Evac;
    hide Home;
    hide FoundRoots;
    AllocatedAfterEvac(s, inp, a);
    if exists x :: Listed(s, inp, x) && a == Home(s, inp, x) {
      var x :| Listed(s, inp, x) && a == Home(s, inp, x);
      OldIsNotListed(s, inp, x);
      ListedAfterEvac(s, inp, x);
      if x !in FoundRoots(s.heap, inp.objs) {
        NotARoot(s, inp, a);
      } else {
        assert x in Young(s.heap);
      }
    } else {
      OldIsNotListed(s, inp, a);
      OldAfterEvac(s, inp, a);
      if s.heap[a].meta.isYoung {
        assert a in Young(s.heap);
        if a in FoundRoots(s.heap, inp.objs) {
          YoungRootIsListed(s, inp, a);
        }
      }
    }
  }

  lemma NotARoot(s: GcState, inp: Inputs, y: Addr)
    requires GcInv(s) && EnoughEntries(s, inp) && y in inp.supply
    ensures y !in FoundRoots(s.heap, inp.objs)
  {
    FoundRootsExactly(s.heap, inp.objs);
  }

  lemma FlagsAfterDrain(s: GcState, inp: Inputs, a: Addr)
    requires GcInv(s) && Circumstances(s, inp) && a in Drained(s, inp).heap && Drained(s, inp).heap[a].meta.isAlloc
    ensures FlagsTell(s, inp, Drained(s, inp).heap, a)
  {
    DrainedInv(s, inp);
    hide GcInv;
    hide Evac;
    hide Drained;
    hide DecInv;
    hide Covered;
    assert Intact(Evac(s, inp).heap, Drained(s, inp).heap, a);
    FlagsAfterEvac(s, inp, a);
  }

  lemma RebuildLeavesOldAt(s: GcState, inp: Inputs, d: Heap, a: Addr)
    requires GcInv(s) && EnoughEntries(s, inp) && a in d && (d[a].meta.isAlloc ==> FlagsTell(s, inp, d, a))
    ensures var h' := RootsCleared(Rebuilt(d, inp.rebuilt), Elems(NewRoots(s, inp)));
            && a in h' && (h'[a].meta.isAlloc <==> Old(d, a))
            && (Old(d, a) ==> h'[a] == d[a].(meta := d[a].meta.(isMarked := false, isRoot := false)))
            && (h'[a].meta.isYoung ==> d[a].meta.isYoung && !d[a].meta.isAlloc)
  {
    NewRootsAreFound(s, inp);
    hide GcInv;
    hide EnoughEntries;
    hide NewRoots;
    hide FoundRoots;
  }

  /** Rebuilding after draining frees exactly what is not old, and clearing removes every flag. */
  lemma RebuildLeavesOld(s: GcState, inp: Inputs)
    requires GcInv(s) && Circumstances(s, inp)
    ensures OnlyOldLeft(Drained(s, inp).heap, Collect(s, inp).heap)
    ensures forall a :: a in Collect(s, inp).heap && Collect(s, inp).heap[a].meta.isYoung ==>
              (var d := Drained(s, inp).heap; a in d && d[a].meta.isYoung && !d[a].meta.isAlloc)
  {
    hide GcInv;
    hide Circumstances;
    hide Drained;
    hide NewRoots;
    hide FlagsTell;
    CircumstancesEnough(s, inp);
    var d, h' := Drained(s, inp).heap, Collect(s, inp).heap;
    assert h' == RootsCleared(Rebuilt(d, inp.rebuilt), Elems(NewRoots(s, inp))) && h'.Keys == d.Keys;
    hide Collect;
    hide RootsCleared;
    hide Rebuilt;
    forall a | a in d
      ensures h'[a].meta.isAlloc <==> Old(d, a)
      ensures Old(d, a) ==> h'[a] == d[a].(meta := d[a].meta.(isMarked := false, isRoot := false))
      ensures h'[a].meta.isYoung ==> d[a].meta.isYoung && !d[a].meta.isAlloc
    {
      if d[a].meta.isAlloc {
        FlagsAfterDrain(s, inp, a);
      }
      RebuildLeavesOldAt(s, inp, d, a);
    }
  }

  // ---- The invariant comes back

  lemma TypesAfterEvac(s: GcState, inp: Inputs, a: Addr)
    requires GcInv(s) && EnoughEntries(s, inp)
    requires a in Evac(s, inp).heap && Evac(s, inp).heap[a].meta.isAlloc
    ensures WfObject(Evac(s, inp).heap[a]) && Evac(s, inp).heap[a].meta.forwardIndex == MAX_FWD_INDEX
  {
    hide Evac;
    hide Home;
    hide FoundRoots;
    AllocatedAfterEvac(s, inp, a);
    if exists x :: Listed(s, inp, x) && a == Home(s, inp, x) {
      var x :| Listed(s, inp, x) && a == Home(s, inp, x);
      OldIsNotListed(s, inp, x);
      ListedAfterEvac(s, inp, x);
    } else {
      OldAfterEvac(s, inp, a);
    }
  }

  lemma CircumstancesEnough(s: GcState, inp: Inputs)
    requires Circumstances(s, inp)
    ensures EnoughEntries(s, inp)
  {
  }

  lemma LeftoverIsClosed(d: Heap, h: Heap)
    requires CountsExact(d) && OldClosed(d) && OnlyOldLeft(d, h)
    ensures OldClosed(h) && CountsExact(h) && ClosedHeap(h)
  {
    forall x, i: nat | x in h && h[x].meta.isAlloc && IsPtr(h[x], i)
      ensures Old(h, h[x].slots[i])
    {
      assert Mask(h[x]) == Mask(d[x]);
      assert IsPtr(d[x], i);
    }
    forall a | a in h && h[a].meta.isAlloc
      ensures ExactCount(h, a)
    {
      assert ExactCount(d, a);
      SameEdges(d, h, a);
      hide OldEdges;
    }
  }

  lemma LeftoverIsTyped(s: GcState, inp: Inputs, a: Addr)
    requires GcInv(s) && Circumstances(s, inp)
    requires a in Collect(s, inp).heap && Collect(s, inp).heap[a].meta.isAlloc
    ensures WfObject(Collect(s, inp).heap[a])
    ensures var m := Collect(s, inp).heap[a].meta;
            m.forwardIndex == MAX_FWD_INDEX && !m.isRoot && !m.isMarked && !m.isYoung
  {
    DrainedInv(s, inp);
    RebuildLeavesOld(s, inp);
    CircumstancesEnough(s, inp);
    hide GcInv;
    hide Circumstances;
    hide Evac;
    hide Drained;
    hide Collect;
    hide DecInv;
    hide Covered;
    assert Intact(Evac(s, inp).heap, Drained(s, inp).heap, a);
    TypesAfterEvac(s, inp, a);
  }

  lemma DrainedYoungIsAlloc(s: GcState, inp: Inputs, a: Addr)
    requires GcInv(s) && Circumstances(s, inp) && a in Drained(s, inp).heap
    ensures Drained(s, inp).heap[a].meta.isYoung ==> Drained(s, inp).heap[a].meta.isAlloc
  {
    CircumstancesEnough(s, inp);
    DrainedInv(s, inp);
    hide Circumstances;
    hide Evac;
    hide Drained;
    hide DecInv;
    hide Covered;
    assert Intact(Evac(s, inp).heap, Drained(s, inp).heap, a);
    if Drained(s, inp).heap[a].meta.isYoung {
      YoungAfterEvac(s, inp, a);
      YoungAfterDrain(s, inp, a);
    }
  }

  /** Entries that are not allocated are not young either. */
  lemma YoungIsReset(s: GcState, inp: Inputs)
    requires GcInv(s) && Circumstances(s, inp)
    ensures YoungIsAlloc(Collect(s, inp).heap)
  {
    RebuildLeavesOld(s, inp);
    hide GcInv;
    hide Circumstances;
    hide Drained;
    hide Collect;
    var h := Collect(s, inp).heap;
    forall a | a in h
      ensures h[a].meta.isYoung ==> h[a].meta.isAlloc
    {
      DrainedYoungIsAlloc(s, inp, a);
    }
  }

  lemma YoungAfterEvac(s: GcState, inp: Inputs, a: Addr)
    requires GcInv(s) && EnoughEntries(s, inp) && a in Evac(s, inp).heap && Evac(s, inp).heap[a].meta.isYoung
    ensures Evac(s, inp).heap[a].meta.isAlloc
  {
    Ready(s, inp);
    MarkedKeys(s.heap, inp.objs);
    hide EnoughEntries;
    hide EvacReady;
    hide MarkedHeap;
    hide PendingYoung;
    hide EvacN;
    YoungAfter(MarkedHeap(s.heap, inp.objs), PendingYoung(s.heap, inp.objs), inp.supply, a);
  }

  lemma PopKeepsYoung(s: DecState, a: Addr)
    requires s.queue != [] && DecInv(s) && a in s.heap && s.heap[a].meta.isYoung && s.heap[a].meta.isAlloc
    ensures var h := DecPop(s).heap; a in h && h[a].meta.isYoung && h[a].meta.isAlloc
  {
    assert s.queue[0] in s.queue;
    PopFreesExactly(s);
    hide DecPop;
    hide SlotsTo;
  }

  /** Draining frees no young object. */
  lemma {:induction false} DrainKeepsYoung(s: DecState, budget: nat, a: Addr)
    requires DecInv(s) && a in s.heap && s.heap[a].meta.isYoung && s.heap[a].meta.isAlloc
    ensures a in DecRun(s, budget).heap && DecRun(s, budget).heap[a].meta.isAlloc
    decreases budget
  {
    hide DecInv;
    hide DecPop;
    if budget > 0 && s.queue != [] {
      PopKeepsYoung(s, a);
      PopKeepsDecInv(s);
      DrainKeepsYoung(DecPop(s), budget - 1, a);
    }
  }

  lemma YoungAfterDrain(s: GcState, inp: Inputs, a: Addr)
    requires GcInv(s) && Circumstances(s, inp)
    requires a in Evac(s, inp).heap && Evac(s, inp).heap[a].meta.isYoung && Evac(s, inp).heap[a].meta.isAlloc
    ensures a in Drained(s, inp).heap && Drained(s, inp).heap[a].meta.isAlloc
  {
    hide GcInv;
    hide EnoughEntries;
    hide GoodOrder;
    hide QueueIsDead;
    hide RebuiltPagesAreYoung;
    hide Evac;
    hide DecRun;
    BeforeDrainInv(s, inp);
    hide DecInv;
    DrainKeepsYoung(BeforeDrain(s, inp), inp.budget, a);
  }

  lemma CollectedHeapIsClosed(s: GcState, inp: Inputs)
    requires GcInv(s) && Circumstances(s, inp)
    ensures OldClosed(Collect(s, inp).heap) && CountsExact(Collect(s, inp).heap) && ClosedHeap(Collect(s, inp).heap)
  {
    DrainedInv(s, inp);
    RebuildLeavesOld(s, inp);
    hide GcInv;
    hide Circumstances;
    hide Drained;
    hide Collect;
    hide Covered;
    hide OldClosed;
    hide CountsExact;
    hide ClosedHeap;
    hide OnlyOldLeft;
    LeftoverIsClosed(Drained(s, inp).heap, Collect(s, inp).heap);
  }

  lemma CollectedHeapIsMutators(s: GcState, inp: Inputs)
    requires GcInv(s) && Circumstances(s, inp)
    ensures MutatorHeap(Collect(s, inp).heap)
    ensures OldClosed(Collect(s, inp).heap) && CountsExact(Collect(s, inp).heap)
  {
    hide GcInv;
    hide Circumstances;
    hide Collect;
    hide YoungIsAlloc;
    hide ClosedHeap;
    hide OldClosed;
    hide CountsExact;
    CollectedHeapIsClosed(s, inp);
    YoungIsReset(s, inp);
    var h := Collect(s, inp).heap;
    forall a | a in h && h[a].meta.isAlloc
      ensures WfObject(h[a]) && h[a].meta.forwardIndex == MAX_FWD_INDEX && !h[a].meta.isRoot && !h[a].meta.isMarked
    {
      LeftoverIsTyped(s, inp, a);
    }
  }

  lemma OldLeftIsOld(d: Heap, h: Heap, a: Addr)
    requires OnlyOldLeft(d, h)
    ensures Old(d, a) <==> Old(h, a)
    ensures Old(d, a) ==> h[a].meta.refCount == d[a].meta.refCount
  {
  }

  /** After the collection an object is old exactly when it was after the drain, with the same count. */
  lemma OldAfterCollect(s: GcState, inp: Inputs)
    requires GcInv(s) && Circumstances(s, inp)
    ensures forall a :: Old(Drained(s, inp).heap, a) <==> Old(Collect(s, inp).heap, a)
    ensures forall a :: Old(Drained(s, inp).heap, a) ==>
              Collect(s, inp).heap[a].meta.refCount == Drained(s, inp).heap[a].meta.refCount
  {
    RebuildLeavesOld(s, inp);
    hide GcInv, Circumstances, Drained, Collect, OnlyOldLeft;
    forall a
      ensures Old(Drained(s, inp).heap, a) <==> Old(Collect(s, inp).heap, a)
      ensures Old(Drained(s, inp).heap, a) ==>
                Collect(s, inp).heap[a].meta.refCount == Drained(s, inp).heap[a].meta.refCount
    {
      OldLeftIsOld(Drained(s, inp).heap, Collect(s, inp).heap, a);
    }
  }

  lemma CollectedLists(s: GcState, inp: Inputs)
    ensures Collect(s, inp).oldRoots == NewRoots(s, inp) && Collect(s, inp).pendingDecs == Drained(s, inp).queue
  {
  }

  lemma CollectCarries(s: GcState, inp: Inputs)
    requires GcInv(s) && Circumstances(s, inp)
    ensures Carried(Collect(s, inp)) && Accounted(Collect(s, inp))
  {
    CircumstancesEnough(s, inp);
    NewRootsAreFound(s, inp);
    DrainedInv(s, inp);
    OldAfterCollect(s, inp);
    CollectedLists(s, inp);
    hide GcInv, Circumstances, Drained, NewRoots, FoundRoots, CountsExact, OldClosed, Collect;
    var d, s' := Drained(s, inp), Collect(s, inp);
    forall r | r in s'.oldRoots
      ensures Old(s'.heap, r)
    {
      RootAfterDrain(s, inp, r);
    }
    forall q | q in s'.pendingDecs
      ensures Old(s'.heap, q) && q !in s'.oldRoots
    {
      FlagsAfterDrain(s, inp, q);
    }
    forall a | Old(s'.heap, a)
      ensures s'.heap[a].meta.refCount > 0 || a in s'.oldRoots || a in s'.pendingDecs
    {
      FlagsAfterDrain(s, inp, a);
    }
  }

  /** No page's pending count exceeds what it has in the queue, before, during and after draining. */
  lemma CollectKeepsPending(s: GcState, inp: Inputs)
    requires GcInv(s) && Circumstances(s, inp)
    ensures PendingBounded(BeforeDrain(s, inp))
    ensures PendingWithin(Collect(s, inp).pending, Collect(s, inp).pendingDecs)
  {
    CircumstancesEnough(s, inp);
    BeforeDrainInv(s, inp);
    PendingWithinMore(s.pending, s.pendingDecs, DroppedRoots(s.oldRoots, NewRoots(s, inp)));
    hide PendingWithin, DecInv, DecRun, Evac, NewRoots, DroppedRoots, Rebuilt, RootsCleared;
    DrainKeepsPendingBounded(BeforeDrain(s, inp), inp.budget);
  }

  /** The invariant survives every collection made in good circumstances. */
  lemma CollectKeepsInv(s: GcState, inp: Inputs)
    requires GcInv(s) && Circumstances(s, inp)
    ensures GcInv(Collect(s, inp))
    ensures forall a :: a in Collect(s, inp).heap ==> !Collect(s, inp).heap[a].meta.isYoung
  {
    CollectedHeapIsMutators(s, inp);
    CollectCarries(s, inp);
    CollectKeepsPending(s, inp);
    hide Circumstances;
    hide PendingWithin;
    hide Collect;
    hide Carried;
    hide Accounted;
    var h := Collect(s, inp).heap;
    forall a | a in h
      ensures !h[a].meta.isYoung
    {
      if h[a].meta.isYoung {
        LeftoverIsTyped(s, inp, a);
      }
    }
  }
}
