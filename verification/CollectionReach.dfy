/** Reachability across a collection: nothing reachable is lost, and a drained acyclic heap holds nothing else. */
module CollectionReach {
  import opened Graph
  import opened Heap
  import opened Dfs
  import opened Evacuation
  import opened EvacuationCounts
  import opened EvacuationGraph
  import opened Marking
  import opened Decrements
  import opened Draining
  import opened Collection
  import opened CollectionInvariant

  /** The pointer graph of everything allocated. */
  ghost function LiveGraph(h: Heap): Graph {
    ObjGraph(h, Live(h))
  }

  ghost predicate ReachedFrom(h: Heap, roots: seq<Addr>, a: Addr) {
    exists r :: r in roots && Reach(LiveGraph(h), r, a)
  }

  /** The allocated objects are exactly what the carried-over roots reach. */
  ghost predicate NothingElse(s: GcState) {
    forall a :: a in Live(s.heap) <==> ReachedFrom(s.heap, s.oldRoots, a)
  }

  lemma LiveEdge(h: Heap, x: Addr, y: Addr)
    requires ClosedHeap(h) && x in h && h[x].meta.isAlloc
    ensures x in LiveGraph(h)
    ensures y in LiveGraph(h)[x] <==> Points(h[x], y)
    ensures Points(h[x], y) ==> y in h && h[y].meta.isAlloc
  {
    KidsOfElems(h[x], Live(h), y);
  }

  /** The objects that keep or get a home: the old and the listed ones. */
  ghost predicate Survives(s: GcState, inp: Inputs, a: Addr) {
    Old(s.heap, a) || Listed(s, inp, a)
  }

  lemma SurvivorIsAlloc(s: GcState, inp: Inputs, a: Addr)
    requires GcInv(s) && EnoughEntries(s, inp) && Survives(s, inp, a)
    ensures a in s.heap && s.heap[a].meta.isAlloc && Old(Evac(s, inp).heap, Home(s, inp, a))
    ensures Listed(s, inp, a) ==> !Old(s.heap, a)
  {
    OldIsNotListed(s, inp, a);
    hide Evac;
    hide Home;
    hide FoundRoots;
    if Listed(s, inp, a) {
      ListedAfterEvac(s, inp, a);
    } else {
      OldAfterEvac(s, inp, a);
    }
  }

  lemma TargetSurvives(s: GcState, inp: Inputs, x: Addr, y: Addr)
    requires GcInv(s) && EnoughEntries(s, inp) && Survives(s, inp, x) && x in s.heap && Points(s.heap[x], y)
    ensures Survives(s, inp, y)
  {
    OldIsNotListed(s, inp, x);
    if Listed(s, inp, x) && y in Young(s.heap) {
      PendingYoungExactly(s.heap, inp.objs);
      MarkedEdge(s.heap, inp.objs, x, y);
      PendingIsClosed(s.heap, inp.objs);
      MarkedKeys(s.heap, inp.objs);
      hide MarkedHeap;
      hide PendingYoung;
      hide Points;
      ListClosedAt(MarkedHeap(s.heap, inp.objs), PendingYoung(s.heap, inp.objs), x, y);
    }
  }

  /** Slot i of a survivor's home is a pointer exactly when the original was, and leads to the target's home. */
  lemma HomeSlot(s: GcState, inp: Inputs, x: Addr, i: nat)
    requires GcInv(s) && EnoughEntries(s, inp) && GoodOrder(s.heap, inp.objs) && Survives(s, inp, x) && x in s.heap
    ensures var e := Evac(s, inp).heap; var y := Home(s, inp, x);
            && y in e && |e[y].slots| == |s.heap[x].slots| && e[y].meta.typ == s.heap[x].meta.typ
            && (IsPtr(e[y], i) <==> IsPtr(s.heap[x], i))
            && (i < |s.heap[x].slots| && IsPtr(s.heap[x], i) ==> e[y].slots[i] == Home(s, inp, s.heap[x].slots[i]))
            && (i < |s.heap[x].slots| && !IsPtr(s.heap[x], i) ==> e[y].slots[i] == s.heap[x].slots[i])
  {
    OldIsNotListed(s, inp, x);
    if Listed(s, inp, x) {
      hide Evac;
      hide Home;
      hide FoundRoots;
      ListedAfterEvac(s, inp, x);
      if i < |s.heap[x].slots| {
        ListedSlot(s, inp, x, i);
      }
      if IsPtr(s.heap[x], i) {
        ListedPointer(s, inp, x, i);
      }
      SameMask(s.heap[x], Evac(s, inp).heap[Home(s, inp, x)]);
    } else {
      OldHomeSlot(s, inp, x, i);
    }
  }

  lemma OldHomeSlot(s: GcState, inp: Inputs, x: Addr, i: nat)
    requires GcInv(s) && EnoughEntries(s, inp) && Old(s.heap, x)
    ensures var e := Evac(s, inp).heap; var y := Home(s, inp, x);
            && y in e && e[y].slots == s.heap[x].slots && e[y].meta.typ == s.heap[x].meta.typ
            && (IsPtr(e[y], i) <==> IsPtr(s.heap[x], i))
            && (IsPtr(s.heap[x], i) ==> Home(s, inp, s.heap[x].slots[i]) == s.heap[x].slots[i])
  {
    hide Evac;
    hide Home;
    hide FoundRoots;
    OldIsNotListed(s, inp, x);
    OldAfterEvac(s, inp, x);
    if IsPtr(s.heap[x], i) {
      var t := s.heap[x].slots[i];
      assert Old(s.heap, t);
      OldIsNotListed(s, inp, t);
      OldAfterEvac(s, inp, t);
    }
    hide GcInv;
    SameMask(s.heap[x], Evac(s, inp).heap[x]);
  }

  lemma HomeEdge(s: GcState, inp: Inputs, x: Addr, y: Addr)
    requires GcInv(s) && EnoughEntries(s, inp) && GoodOrder(s.heap, inp.objs) && Survives(s, inp, x)
    requires x in s.heap && Points(s.heap[x], y)
    ensures var e := Evac(s, inp).heap; Home(s, inp, x) in e && Points(e[Home(s, inp, x)], Home(s, inp, y))
  {
    hide Evac;
    hide Home;
    hide GcInv;
    hide EnoughEntries;
    hide GoodOrder;
    var i: nat :| IsPtr(s.heap[x], i) && s.heap[x].slots[i] == y;
    HomeSlot(s, inp, x, i);
  }

  /** Homes of reachable objects are reached from the roots after evacuation. */
  lemma HomeIsReached(s: GcState, inp: Inputs, r: Addr, a: Addr)
    requires GcInv(s) && EnoughEntries(s, inp) && GoodOrder(s.heap, inp.objs)
    requires r in FoundRoots(s.heap, inp.objs) && Reach(LiveGraph(s.heap), r, a)
    ensures Survives(s, inp, a) && RootReaches(Evac(s, inp).heap, Home(s, inp, a))
  {
    var e := Evac(s, inp).heap;
    var reached := set x | x in s.heap && Survives(s, inp, x) && RootReaches(e, Home(s, inp, x));
    EvacKeepsClosed(s, inp);
    ReachedIncludesRoot(s, inp, r);
    hide Reach;
    hide RootReaches;
    hide Evac;
    hide Home;
    hide GoodOrder;
    hide FoundRoots;
    hide LiveGraph;
    hide OldClosed;
    forall x, y | x in reached && x in LiveGraph(s.heap) && y in LiveGraph(s.heap)[x]
      ensures y in reached
    {
      ReachedStep(s, inp, x, y);
    }
    ReachStaysInside(LiveGraph(s.heap), reached, r, a);
  }

  lemma ReachedIncludesRoot(s: GcState, inp: Inputs, r: Addr)
    requires GcInv(s) && EnoughEntries(s, inp) && r in FoundRoots(s.heap, inp.objs)
    ensures r in s.heap && Survives(s, inp, r) && RootReaches(Evac(s, inp).heap, Home(s, inp, r))
  {
    NewRootsAreFound(s, inp);
    hide FoundRoots;
    hide Evac;
    hide Home;
    RootAfterEvac(s, inp, r);
    if s.heap[r].meta.isYoung {
      YoungRootIsListed(s, inp, r);
    }
    ReachSelf(OldGraph(Evac(s, inp).heap), r);
  }

  lemma ReachedStep(s: GcState, inp: Inputs, x: Addr, y: Addr)
    requires GcInv(s) && EnoughEntries(s, inp) && GoodOrder(s.heap, inp.objs)
    requires x in s.heap && Survives(s, inp, x) && RootReaches(Evac(s, inp).heap, Home(s, inp, x))
    requires x in LiveGraph(s.heap) && y in LiveGraph(s.heap)[x]
    ensures y in s.heap && Survives(s, inp, y) && RootReaches(Evac(s, inp).heap, Home(s, inp, y))
  {
    EvacKeepsClosed(s, inp);
    SurvivorIsAlloc(s, inp, x);
    LiveEdge(s.heap, x, y);
    TargetSurvives(s, inp, x, y);
    HomeEdge(s, inp, x, y);
    hide GcInv;
    hide Evac;
    hide Home;
    hide GoodOrder;
    hide LiveGraph;
    RootReachesStep(Evac(s, inp).heap, Home(s, inp, x), Home(s, inp, y));
  }

  lemma RootReachesStep(h: Heap, x: Addr, y: Addr)
    requires OldClosed(h) && RootReaches(h, x) && x in h && Points(h[x], y)
    ensures RootReaches(h, y)
  {
    RootReachesOld(h, x);
    OldEdge(h, x, y);
    var r :| Old(h, r) && h[r].meta.isRoot && Reach(OldGraph(h), r, x);
    ReachEdge(OldGraph(h), x, y);
    ReachTrans(OldGraph(h), r, x, y);
  }

  /** Slot i of the home of a, after the whole collection. */
  ghost predicate SlotKept(s: GcState, inp: Inputs, a: Addr, i: nat) {
    var h' := Collect(s, inp).heap;
    var y := Home(s, inp, a);
    && a in s.heap && i < |s.heap[a].slots| && y in h' && |h'[y].slots| == |s.heap[a].slots|
    && h'[y].slots[i] == if IsPtr(s.heap[a], i) then Home(s, inp, s.heap[a].slots[i]) else s.heap[a].slots[i]
  }

  lemma HomeAfterCollect(s: GcState, inp: Inputs, y: Addr)
    requires GcInv(s) && Circumstances(s, inp) && RootReaches(Evac(s, inp).heap, y)
    ensures y in Evac(s, inp).heap && Old(Collect(s, inp).heap, y)
    ensures Collect(s, inp).heap[y].slots == Evac(s, inp).heap[y].slots
    ensures Collect(s, inp).heap[y].meta.typ == Evac(s, inp).heap[y].meta.typ
  {
    BeforeDrainInv(s, inp);
    DrainedInv(s, inp);
    RebuildLeavesOld(s, inp);
    hide GcInv;
    hide Circumstances;
    hide Evac;
    hide DecRun;
    hide DecInv;
    hide Covered;
    hide RootReaches;
    DrainKeepsReached(BeforeDrain(s, inp), inp.budget, y);
    RootReachesOld(Drained(s, inp).heap, y);
    RootReachesOld(Evac(s, inp).heap, y);
    assert Intact(Evac(s, inp).heap, Drained(s, inp).heap, y);
    hide Drained;
    hide Collect;
  }

  /**
   A collection loses nothing: whatever the found roots reach, old or young, has a home afterwards
   with the same type, the same data words, and pointers to the homes of the old targets.
   */
  lemma NothingReachableIsLost(s: GcState, inp: Inputs, r: Addr, a: Addr)
    requires GcInv(s) && Circumstances(s, inp)
    requires r in FoundRoots(s.heap, inp.objs) && Reach(LiveGraph(s.heap), r, a)
    ensures a in s.heap && Old(Collect(s, inp).heap, Home(s, inp, a))
    ensures Collect(s, inp).heap[Home(s, inp, a)].meta.typ == s.heap[a].meta.typ
    ensures forall i: nat :: i < |s.heap[a].slots| ==> SlotKept(s, inp, a, i)
    ensures Home(s, inp, r) == r
  {
    hide GcInv;
    hide EnoughEntries;
    hide QueueIsDead;
    hide RebuiltPagesAreYoung;
    hide GoodOrder;
    hide Reach;
    hide RootReaches;
    hide Evac;
    hide Collect;
    hide Home;
    hide FoundRoots;
    HomeIsReached(s, inp, r, a);
    HomeAfterCollect(s, inp, Home(s, inp, a));
    SurvivorIsAlloc(s, inp, a);
    RootAfterEvac(s, inp, r);
    HomeSlot(s, inp, a, 0);
    forall i: nat | i < |s.heap[a].slots|
      ensures SlotKept(s, inp, a, i)
    {
      HomeSlot(s, inp, a, i);
    }
  }
}
