/** When the heap is acyclic and the queue drained, a collection leaves exactly what the roots reach. */
module CollectionComplete {
  import opened Graph
  import opened Heap
  import opened Dfs
  import opened Evacuation
  import opened EvacuationCounts
  import opened EvacuationGraph
  import opened Marking
  import opened Decrements
  import opened Draining
  import opened Collection
  import opened CollectionInvariant
  import opened CollectionReach

  // ---- Evacuation creates no cycle

  /** Every old object after evacuation is the home of one survivor. */
  lemma OldHasOrigin(s: GcState, inp: Inputs, y: Addr) returns (x: Addr)
    requires GcInv(s) && EnoughEntries(s, inp) && Old(Evac(s, inp).heap, y)
    ensures Survives(s, inp, x) && Home(s, inp, x) == y && x in s.heap && s.heap[x].meta.isAlloc
  {
    hide Evac;
    hide Home;
    hide FoundRoots;
    AllocatedAfterEvac(s, inp, y);
    if exists x :: Listed(s, inp, x) && y == Home(s, inp, x) {
      x :| Listed(s, inp, x) && y == Home(s, inp, x);
      OldIsNotListed(s, inp, x);
    } else {
      x := y;
      OldAfterEvac(s, inp, y);
    }
  }

  /** An edge after evacuation comes from an edge before it. */
  lemma EdgeHasOrigin(s: GcState, inp: Inputs, x: Addr, z: Addr) returns (t: Addr)
    requires GcInv(s) && EnoughEntries(s, inp) && GoodOrder(s.heap, inp.objs)
    requires Survives(s, inp, x) && x in s.heap
    requires Home(s, inp, x) in OldGraph(Evac(s, inp).heap) && z in OldGraph(Evac(s, inp).heap)[Home(s, inp, x)]
    ensures x in LiveGraph(s.heap) && t in LiveGraph(s.heap)[x]
    ensures Survives(s, inp, t) && t in s.heap && Home(s, inp, t) == z
  {
    var e := Evac(s, inp).heap;
    EvacKeepsClosed(s, inp);
    SurvivorIsAlloc(s, inp, x);
    hide GcInv;
    hide EnoughEntries;
    hide GoodOrder;
    hide Evac;
    hide Home;
    hide FoundRoots;
    OldEdge(e, Home(s, inp, x), z);
    var i: nat :| IsPtr(e[Home(s, inp, x)], i) && e[Home(s, inp, x)].slots[i] == z;
    HomeSlot(s, inp, x, i);
    t := s.heap[x].slots[i];
    assert Points(s.heap[x], t);
    TargetSurvives(s, inp, x, t);
    LiveIsClosed(s);
    LiveEdge(s.heap, x, t);
  }

  lemma LiveIsClosed(s: GcState)
    requires GcInv(s)
    ensures ClosedHeap(s.heap)
  {
  }

  /** A path after evacuation comes from a path before it. */
  lemma {:induction false} PathHasOrigin(s: GcState, inp: Inputs, x: Addr, p: seq<Addr>, k: nat) returns (q: seq<Addr>)
    requires GcInv(s) && EnoughEntries(s, inp) && GoodOrder(s.heap, inp.objs)
    requires Survives(s, inp, x) && x in s.heap
    requires IsPath(OldGraph(Evac(s, inp).heap), p) && p[0] == Home(s, inp, x) && k < |p|
    ensures IsPath(LiveGraph(s.heap), q) && |q| == k + 1 && q[0] == x
    ensures Survives(s, inp, q[k]) && q[k] in s.heap && Home(s, inp, q[k]) == p[k]
  {
    hide GcInv;
    hide EnoughEntries;
    hide GoodOrder;
    hide Evac;
    hide Home;
    hide Survives;
    hide LiveGraph;
    hide OldGraph;
    if k == 0 {
      q := [x];
    } else {
      var r := PathHasOrigin(s, inp, x, p, k - 1);
      assert p[k - 1] in OldGraph(Evac(s, inp).heap) && p[(k - 1) + 1] in OldGraph(Evac(s, inp).heap)[p[k - 1]];
      var t := EdgeHasOrigin(s, inp, r[k - 1], p[k]);
      q := r + [t];
      PathSnoc(LiveGraph(s.heap), r, t);
    }
  }

  lemma PathSnoc(g: Graph, p: seq<Node>, t: Node)
    requires IsPath(g, p) && p[|p| - 1] in g && t in g[p[|p| - 1]]
    ensures IsPath(g, p + [t])
  {
    var q := p + [t];
    forall i | 0 <= i < |q| - 1
      ensures q[i] in g && q[i + 1] in g[q[i]]
    {
      if i < |p| - 1 {
        assert p[i] in g && p[i + 1] in g[p[i]];
      }
    }
  }

  lemma CycleBack(g: Graph, x: Node, t: Node, q: seq<Node>)
    requires x in g && t in g[x] && IsPath(g, q) && q[0] == t && q[|q| - 1] == x
    ensures !Acyclic(g)
  {
    hide IsPath;
    assert Reach(g, t, x);
  }

  lemma OldNodes(h: Heap, y: Addr)
    requires y in OldGraph(h)
    ensures Old(h, y)
  {
  }

  lemma EvacCycleHasOrigin(s: GcState, inp: Inputs, y: Addr, z: Addr)
    requires GcInv(s) && EnoughEntries(s, inp) && GoodOrder(s.heap, inp.objs)
    requires var g := OldGraph(Evac(s, inp).heap); y in g && z in g[y] && Reach(g, z, y)
    ensures !Acyclic(LiveGraph(s.heap))
  {
    hide GcInv, EnoughEntries, GoodOrder, Evac, Home, OldGraph, LiveGraph, Survives, Acyclic;
    var g := OldGraph(Evac(s, inp).heap);
    var p :| IsPath(g, p) && p[0] == z && p[|p| - 1] == y;
    OldNodes(Evac(s, inp).heap, y);
    var x := OldHasOrigin(s, inp, y);
    var t := EdgeHasOrigin(s, inp, x, z);
    var q := PathHasOrigin(s, inp, t, p, |p| - 1);
    SurvivorIsAlloc(s, inp, q[|p| - 1]);
    if q[|p| - 1] != x {
      HomesDiffer(s, inp, q[|p| - 1], x);
    }
    CycleBack(LiveGraph(s.heap), x, t, q);
  }

  lemma EvacKeepsAcyclic(s: GcState, inp: Inputs)
    requires GcInv(s) && EnoughEntries(s, inp) && GoodOrder(s.heap, inp.objs) && Acyclic(LiveGraph(s.heap))
    ensures Acyclic(OldGraph(Evac(s, inp).heap))
  {
    hide GcInv;
    hide EnoughEntries;
    hide GoodOrder;
    hide Evac;
    hide LiveGraph;
    var g := OldGraph(Evac(s, inp).heap);
    forall y, z | y in g && z in g[y]
      ensures !Reach(g, z, y)
    {
      if Reach(g, z, y) {
        EvacCycleHasOrigin(s, inp, y, z);
      }
    }
  }

  lemma SubgraphAcyclic(g: Graph, g': Graph)
    requires Acyclic(g) && forall x, y :: x in g' && y in g'[x] ==> x in g && y in g[x]
    ensures Acyclic(g')
  {
    forall x, y | x in g' && y in g'[x]
      ensures !Reach(g', y, x)
    {
      if Reach(g', y, x) {
        ReachMonotone(g', g, y, x);
      }
    }
  }

  lemma DrainKeepsAcyclic(h: Heap, h': Heap)
    requires OldClosed(h) && OldClosed(h') && AllIntact(h, h') && Acyclic(OldGraph(h))
    ensures Acyclic(OldGraph(h'))
  {
    forall x, y | x in OldGraph(h') && y in OldGraph(h')[x]
      ensures x in OldGraph(h) && y in OldGraph(h)[x]
    {
      OldEdge(h', x, y);
      assert Intact(h, h', x);
      OldEdge(h, x, y);
      SamePoints(h[x], h'[x], y);
    }
    hide OldGraph;
    SubgraphAcyclic(OldGraph(h), OldGraph(h'));
  }

  /** What is left of the drained heap has the drained heap's pointer graph. */
  lemma LeftoverGraph(d: Heap, h: Heap)
    requires OnlyOldLeft(d, h)
    ensures LiveGraph(h) == OldGraph(d)
  {
    assert Live(h) == OldSet(d);
    forall x | x in OldSet(d)
      ensures KidsOf(h[x], Live(h)) == KidsOf(d[x], OldSet(d))
    {
      SameMask(h[x], d[x]);
      SameKids(h[x], d[x], |Mask(d[x])|, OldSet(d));
    }
    hide KidsOf;
  }

  /**
   In an acyclic heap, whenever the queue ends up empty, the allocated objects are exactly those
   reachable from the roots that are carried over.
   */
  lemma DrainedCollectionIsExact(s: GcState, inp: Inputs)
    requires GcInv(s) && Circumstances(s, inp) && Acyclic(LiveGraph(s.heap))
    requires Collect(s, inp).pendingDecs == []
    ensures NothingElse(Collect(s, inp))
  {
    CircumstancesEnough(s, inp);
    DrainedInv(s, inp);
    RebuildLeavesOld(s, inp);
    var e, d, s' := Evac(s, inp).heap, Drained(s, inp), Collect(s, inp);
    assert s'.oldRoots == NewRoots(s, inp) && d.queue == [];
    LeftoverGraph(d.heap, s'.heap);
    DrainedIsAcyclic(s, inp);
    hide GcInv;
    hide Circumstances;
    hide Evac;
    hide Drained;
    hide Collect;
    hide NewRoots;
    hide DecInv;
    hide Covered;
    hide LiveGraph;
    hide Acyclic;
    DrainedIsExact(d);
    forall a
      ensures a in Live(s'.heap) <==> ReachedFrom(s'.heap, s'.oldRoots, a)
    {
      OldLeftIsOld(d.heap, s'.heap, a);
      RootsAfterDrain(s, inp, a);
    }
  }

  lemma DrainedIsAcyclic(s: GcState, inp: Inputs)
    requires GcInv(s) && Circumstances(s, inp) && Acyclic(LiveGraph(s.heap))
    ensures Acyclic(OldGraph(Drained(s, inp).heap))
  {
    DrainedInv(s, inp);
    BeforeDrainInv(s, inp);
    EvacKeepsAcyclic(s, inp);
    hide GcInv;
    hide Circumstances;
    hide Evac;
    hide Drained;
    hide Covered;
    hide AllIntact;
    hide Acyclic;
    hide OldGraph;
    hide CountsExact;
    DrainKeepsAcyclic(Evac(s, inp).heap, Drained(s, inp).heap);
  }

  /** After draining, the flagged roots are the carried-over ones. */
  lemma RootsAfterDrain(s: GcState, inp: Inputs, a: Addr)
    requires GcInv(s) && Circumstances(s, inp)
    ensures RootReaches(Drained(s, inp).heap, a)
       <==> exists r :: r in NewRoots(s, inp) && Reach(OldGraph(Drained(s, inp).heap), r, a)
  {
    CircumstancesEnough(s, inp);
    NewRootsAreFound(s, inp);
    hide GcInv;
    hide Circumstances;
    hide Drained;
    hide NewRoots;
    hide FoundRoots;
    hide OldGraph;
    hide Reach;
    var d := Drained(s, inp).heap;
    forall r
      ensures Old(d, r) && d[r].meta.isRoot <==> r in NewRoots(s, inp)
    {
      if Old(d, r) {
        FlagsAfterDrain(s, inp, r);
      }
      if r in NewRoots(s, inp) {
        RootAfterDrain(s, inp, r);
      }
    }
  }

  // ---- The circumstances, read off the heap before the collection

  /** q has no reference now and the survivors will not add one. */
  ghost predicate Unreferenced(s: GcState, inp: Inputs, q: Addr) {
    && q in s.heap && s.heap[q].meta.refCount == 0
    && forall x :: Listed(s, inp, x) && x in s.heap ==> !Points(s.heap[x], q)
  }

  lemma UnreferencedExactly(s: GcState, inp: Inputs, q: Addr)
    requires GcInv(s) && EnoughEntries(s, inp) && GoodOrder(s.heap, inp.objs) && Old(s.heap, q)
    ensures q in Evac(s, inp).heap
    ensures Evac(s, inp).heap[q].meta.refCount == 0 <==> Unreferenced(s, inp, q)
  {
    EvacKeepsCounts(s, inp);
    OldIsNotListed(s, inp, q);
    OldAfterEvac(s, inp, q);
    var e := Evac(s, inp).heap;
    assert ExactCount(e, q);
    hide Evac;
    hide Home;
    hide GoodOrder;
    hide FoundRoots;
    hide OldEdges;
    if e[q].meta.refCount != 0 {
      var w, i := CountedIsPointed(e, q);
      var x := OldHasOrigin(s, inp, w);
      HomeSlot(s, inp, x, i);
      HomeOfOldOnly(s, inp, x, i, q);
      if Old(s.heap, x) {
        assert ExactCount(s.heap, q);
        PointedIsCounted(s.heap, x, i, q);
      }
    } else {
      if s.heap[q].meta.refCount > 0 {
        CountedStaysCounted(s, inp, q);
      }
      assert ExactCount(s.heap, q);
      forall x | Listed(s, inp, x) && x in s.heap
        ensures !Points(s.heap[x], q)
      {
        if Points(s.heap[x], q) {
          ListedCounts(s, inp, x, q);
        }
      }
    }
  }

  lemma ListedCounts(s: GcState, inp: Inputs, x: Addr, q: Addr)
    requires GcInv(s) && EnoughEntries(s, inp) && GoodOrder(s.heap, inp.objs) && Old(s.heap, q)
    requires Listed(s, inp, x) && x in s.heap && Points(s.heap[x], q)
    ensures q in Evac(s, inp).heap && Evac(s, inp).heap[q].meta.refCount >= 1
  {
    var e := Evac(s, inp).heap;
    EvacKeepsCounts(s, inp);
    OldIsNotListed(s, inp, q);
    OldAfterEvac(s, inp, q);
    assert ExactCount(e, q);
    hide Evac;
    hide Home;
    hide GoodOrder;
    hide FoundRoots;
    hide GcInv;
    var i: nat :| IsPtr(s.heap[x], i) && s.heap[x].slots[i] == q;
    SurvivorIsAlloc(s, inp, x);
    HomeSlot(s, inp, x, i);
    PointedIsCounted(e, Home(s, inp, x), i, q);
  }

  /** A slot that leads to an old object's place led to that object before. */
  lemma HomeOfOldOnly(s: GcState, inp: Inputs, x: Addr, i: nat, q: Addr)
    requires GcInv(s) && EnoughEntries(s, inp) && GoodOrder(s.heap, inp.objs) && Old(s.heap, q)
    requires Survives(s, inp, x) && x in s.heap && s.heap[x].meta.isAlloc && IsPtr(s.heap[x], i)
    requires Home(s, inp, s.heap[x].slots[i]) == q
    ensures s.heap[x].slots[i] == q
  {
    var t := s.heap[x].slots[i];
    OldIsNotListed(s, inp, q);
    OldAfterEvac(s, inp, q);
    LiveIsClosed(s);
    if t != q {
      HomesDiffer(s, inp, t, q);
    }
    hide GcInv;
    hide Evac;
    hide Home;
  }

  /** The queue is dead exactly when nothing in it was found again, is counted, or is pointed to by a survivor. */
  lemma QueueIsDeadExactly(s: GcState, inp: Inputs)
    requires GcInv(s) && EnoughEntries(s, inp) && GoodOrder(s.heap, inp.objs)
    ensures QueueIsDead(s, inp)
       <==> forall q :: q in BeforeDrain(s, inp).queue ==>
              q !in FoundRoots(s.heap, inp.objs) && Unreferenced(s, inp, q)
  {
    QueueBeforeDrain(s, inp);
    hide GcInv;
    hide EnoughEntries;
    hide GoodOrder;
    hide Evac;
    hide FoundRoots;
    hide Unreferenced;
    forall q | q in BeforeDrain(s, inp).queue
      ensures q in Evac(s, inp).heap
      ensures Evac(s, inp).heap[q].meta.refCount == 0 <==> Unreferenced(s, inp, q)
    {
      UnreferencedExactly(s, inp, q);
    }
    hide BeforeDrain;
  }

  // ---- What rebuilding may free

  /** The circumstances of a collection, but for what the rebuilt pages hold. */
  ghost predicate AllButRebuilt(s: GcState, inp: Inputs) {
    && EnoughEntries(s, inp) && GoodOrder(s.heap, inp.objs) && QueueIsDead(s, inp)
    && forall y :: y in inp.supply ==> y !in inp.rebuilt
  }

  /** The object is still there after the collection, at its forwarded address. */
  ghost predicate IsLeft(s: GcState, inp: Inputs, a: Addr) {
    Home(s, inp, a) in Collect(s, inp).heap && Collect(s, inp).heap[Home(s, inp, a)].meta.isAlloc
  }

  /** An old object on a rebuilt page is itself a found root. */
  ghost predicate IsSafe(s: GcState, inp: Inputs, a: Addr) {
    Old(s.heap, a) && a in inp.rebuilt ==> a in FoundRoots(s.heap, inp.objs)
  }

  /** The flags of a survivor after evacuation: a root exactly if it was found, and marked only if a root. */
  lemma HomeFlags(s: GcState, inp: Inputs, a: Addr)
    requires GcInv(s) && EnoughEntries(s, inp) && Survives(s, inp, a)
    ensures Old(Evac(s, inp).heap, Home(s, inp, a))
    ensures var m := Evac(s, inp).heap[Home(s, inp, a)].meta;
            m.isRoot == (a in FoundRoots(s.heap, inp.objs)) && (m.isMarked ==> m.isRoot)
    ensures Old(s.heap, a) || a in FoundRoots(s.heap, inp.objs) ==> Home(s, inp, a) == a
    ensures !Old(s.heap, a) && a !in FoundRoots(s.heap, inp.objs) ==> Home(s, inp, a) in inp.supply
  {
    OldIsNotListed(s, inp, a);
    SurvivorIsAlloc(s, inp, a);
    hide Evac, Home, FoundRoots;
    if Listed(s, inp, a) {
      ListedAfterEvac(s, inp, a);
    } else {
      OldAfterEvac(s, inp, a);
    }
  }

  /** Sweeping keeps an old, unmarked or flagged object exactly if its page is not rebuilt or it is a root. */
  lemma SweptExactlyAt(d: Heap, rebuilt: set<Addr>, roots: set<Addr>, y: Addr)
    requires Old(d, y) && (d[y].meta.isMarked ==> d[y].meta.isRoot)
    ensures y in RootsCleared(Rebuilt(d, rebuilt), roots)
    ensures RootsCleared(Rebuilt(d, rebuilt), roots)[y].meta.isAlloc <==> (y in rebuilt ==> d[y].meta.isRoot)
  {
  }

  /** A reached object is left exactly if it is no old object on a rebuilt page, or is itself a found root. */
  lemma ReachedIsLeftExactly(s: GcState, inp: Inputs, r: Addr, a: Addr)
    requires GcInv(s) && AllButRebuilt(s, inp)
    requires r in FoundRoots(s.heap, inp.objs) && Reach(LiveGraph(s.heap), r, a)
    ensures IsLeft(s, inp, a) <==> IsSafe(s, inp, a)
  {
    HomeIsReached(s, inp, r, a);
    HomeFlags(s, inp, a);
    BeforeDrainInv(s, inp);
    var y := Home(s, inp, a);
    var d := Drained(s, inp);
    assert d == DecRun(BeforeDrain(s, inp), inp.budget) && BeforeDrain(s, inp).heap == Evac(s, inp).heap;
    hide GcInv, EnoughEntries, GoodOrder, QueueIsDead, Reach, RootReaches, Evac,
         Home, FoundRoots, DecInv, DecRun, Drained;
    DrainKeepsReached(BeforeDrain(s, inp), inp.budget, y);
    DrainKeepsInvariant(BeforeDrain(s, inp), inp.budget);
    RootReachesOld(d.heap, y);
    assert Intact(Evac(s, inp).heap, d.heap, y);
    SweptExactlyAt(d.heap, inp.rebuilt, Elems(NewRoots(s, inp)), y);
  }

  /**
   The exact condition on rebuilt pages: whatever the found roots reach survives the collection if and only if
   every old object they reach on a rebuilt page is itself a found root.
   */
  lemma RebuildKeepsReachedExactly(s: GcState, inp: Inputs)
    requires GcInv(s) && AllButRebuilt(s, inp)
    ensures (forall a :: ReachedFrom(s.heap, FoundRoots(s.heap, inp.objs), a) ==> IsLeft(s, inp, a))
       <==> (forall a :: ReachedFrom(s.heap, FoundRoots(s.heap, inp.objs), a) ==> IsSafe(s, inp, a))
  {
    hide GcInv, AllButRebuilt, Reach, FoundRoots, IsLeft, IsSafe;
    forall a | ReachedFrom(s.heap, FoundRoots(s.heap, inp.objs), a)
      ensures IsLeft(s, inp, a) <==> IsSafe(s, inp, a)
    {
      var r :| r in FoundRoots(s.heap, inp.objs) && Reach(LiveGraph(s.heap), r, a);
      ReachedIsLeftExactly(s, inp, r, a);
    }
  }
}
