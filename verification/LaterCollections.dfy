/** Old objects, a queue to drain, and a root that still waits in it: collections that are safe and one that is not. */
module LaterCollections {
  import opened Graph
  import opened Heap
  import opened Dfs
  import opened Evacuation
  import opened EvacuationCounts
  import opened EvacuationGraph
  import opened Marking
  import opened Decrements
  import opened Draining
  import opened Collection
  import opened CollectionInvariant
  import opened CollectionReach
  import opened CollectionComplete
  import opened CollectorSteps
  import opened PendingCounts
  import opened Witnesses
  import Sorting

  // ---- First in, first out

  lemma {:induction false} DroppedStaySorted(oldRoots: seq<Addr>, roots: seq<Addr>)
    requires Sorting.StrictlySorted(oldRoots)
    ensures Sorting.StrictlySorted(DroppedRoots(oldRoots, roots))
    ensures forall x <- DroppedRoots(oldRoots, roots) :: x in oldRoots
  {
    if oldRoots != [] {
      var n := |oldRoots| - 1;
      DroppedStaySorted(oldRoots[..n], roots);
      var r := DroppedRoots(oldRoots[..n], roots);
      forall i | 0 <= i < |r|
        ensures r[i] < oldRoots[n]
      {
        assert r[i] in r && r[i] in oldRoots[..n];
      }
    }
  }

  /** Dropped roots line up behind what waits already, in address order. */
  lemma QueueOrder(s: GcState, inp: Inputs)
    requires GcInv(s)
    ensures s.pendingDecs <= BeforeDrain(s, inp).queue
    ensures Sorting.StrictlySorted(BeforeDrain(s, inp).queue[|s.pendingDecs|..])
  {
    DroppedStaySorted(s.oldRoots, NewRoots(s, inp));
    assert BeforeDrain(s, inp).queue[|s.pendingDecs|..] == DroppedRoots(s.oldRoots, NewRoots(s, inp));
  }

  lemma PopTakesFirst(s: DecState)
    requires DecInv(s) && s.queue != []
    ensures s.queue[1..] <= DecPop(s).queue
    ensures s.queue[0] in DecPop(s).heap && !DecPop(s).heap[s.queue[0]].meta.isAlloc
  {
    assert s.queue[0] in s.queue;
    PopPendingExactly(s, 0);
    PopFreesExactly(s);
    hide DecPop;
  }

  /** A budget of b frees the first b objects of the queue, and the others wait in the same order. */
  lemma {:induction false} DrainFreesInOrder(s: DecState, b: nat)
    requires DecInv(s) && b <= |s.queue|
    ensures s.queue[b..] <= DecRun(s, b).queue
    ensures forall q <- s.queue[..b] :: q in DecRun(s, b).heap && !DecRun(s, b).heap[q].meta.isAlloc
    decreases b
  {
    hide DecInv, DecPop;
    if b > 0 {
      var s1 := DecPop(s);
      PopTakesFirst(s);
      PopKeepsDecInv(s);
      DrainFreesInOrder(s1, b - 1);
      DrainNeverAllocates(s1, b - 1, s.queue[0]);
      QueueTail(s.queue, s1.queue, b);
    }
  }

  lemma QueueTail(q: seq<Addr>, q1: seq<Addr>, b: nat)
    requires 0 < b <= |q| && q[1..] <= q1
    ensures b - 1 <= |q1| && q[b..] <= q1[b - 1..]
    ensures forall x <- q[..b] :: x == q[0] || x in q1[..b - 1]
  {
    forall i | 1 <= i < |q|
      ensures q[i] == q1[i - 1]
    {
      assert q[i] == q[1..][i - 1];
    }
    forall x | x in q[..b]
      ensures x == q[0] || x in q1[..b - 1]
    {
      var i :| 0 <= i < b && q[i] == x;
      if i > 0 {
        assert q1[..b - 1][i - 1] == x;
      }
    }
  }

  // ---- Without young objects

  lemma NothingYoung(s: GcState, inp: Inputs)
    requires GcInv(s) && Young(s.heap) == {} && Candidates(s.heap, inp.objs)
    ensures GoodOrder(s.heap, inp.objs) && PendingYoung(s.heap, inp.objs) == []
  {
    PendingYoungExactly(s.heap, inp.objs);
    hide PendingYoung, FoundRoots;
    DistinctFits(PendingYoung(s.heap, inp.objs), {});
  }

  /**
   A collection that finds nothing young meets its conditions when what waits is uncounted and not found again,
   what is dropped is uncounted, and the rebuilt pages hold found roots only.
   */
  lemma QuietCollectionIsSafe(s: GcState, inp: Inputs)
    requires GcInv(s) && Young(s.heap) == {} && Candidates(s.heap, inp.objs) && FreeEntries(s.heap, inp.supply)
    requires forall y <- inp.supply :: y !in inp.rebuilt
    requires forall a <- inp.rebuilt :: Old(s.heap, a) ==> a in inp.objs
    requires forall q <- s.pendingDecs :: q !in inp.objs && s.heap[q].meta.refCount == 0
    requires forall q <- s.oldRoots :: q !in inp.objs ==> s.heap[q].meta.refCount == 0
    ensures Circumstances(s, inp)
  {
    NothingYoung(s, inp);
    FoundRootsExactly(s.heap, inp.objs);
    hide PendingYoung, FoundRoots, GoodOrder, MutatorHeap, OldClosed, CountsExact, FreeEntries;
    assert EnoughEntries(s, inp);
    QueueBeforeDrain(s, inp);
    hide BeforeDrain;
    forall q | q in BeforeDrain(s, inp).queue
      ensures q !in FoundRoots(s.heap, inp.objs) && Unreferenced(s, inp, q)
    {
      assert forall x :: !Listed(s, inp, x);
    }
    QueueIsDeadExactly(s, inp);
  }

  lemma QuietLive(s: GcState, inp: Inputs)
    requires GcInv(s) && EnoughEntries(s, inp) && PendingYoung(s.heap, inp.objs) == []
    ensures Live(Evac(s, inp).heap) <= Live(s.heap)
  {
    hide GcInv, EnoughEntries, Evac, Home, PendingYoung;
    forall y | y in Live(Evac(s, inp).heap)
      ensures y in Live(s.heap)
    {
      AllocatedAfterEvac(s, inp, y);
    }
  }

  /** A budget of as many decrements as there are live objects leaves nothing waiting. */
  lemma BudgetDrains(s: GcState, inp: Inputs)
    requires GcInv(s) && Circumstances(s, inp) && inp.budget >= |Live(Evac(s, inp).heap)|
    ensures Collect(s, inp).pendingDecs == []
  {
    CircumstancesEnough(s, inp);
    BeforeDrainInv(s, inp);
    hide GcInv, Circumstances, DecInv, DecRun, Evac, Live;
    DrainTerminates(BeforeDrain(s, inp), inp.budget);
  }

  /** Without a found root an exact collection leaves nothing. */
  lemma NothingIsRooted(s: GcState, inp: Inputs)
    requires GcInv(s) && Circumstances(s, inp) && inp.objs == [] && NothingElse(Collect(s, inp))
    ensures forall a :: !Old(Collect(s, inp).heap, a)
  {
    CircumstancesEnough(s, inp);
    FoundRootsExactly(s.heap, []);
    NewRootsAreFound(s, inp);
    CollectedLists(s, inp);
    hide GcInv, Circumstances, FoundRoots, NewRoots, Collect, LiveGraph, Reach;
    var s' := Collect(s, inp);
    forall a
      ensures !Old(s'.heap, a)
    {
      assert a in Live(s'.heap) <==> ReachedFrom(s'.heap, s'.oldRoots, a);
    }
  }

  // ---- A dropped object at 8 whose only referrer keeps the object at 16

  ghost function Chain(oldRoots: seq<Addr>, pendingDecs: seq<Addr>): GcState {
    GcState(map[8 := OldCell(false, 0, 16), 16 := OldCell(false, 1, 0)], oldRoots, pendingDecs, map[])
  }

  ghost function Budget(objs: seq<Addr>, n: nat): Inputs {
    Inputs(objs, [], {}, n)
  }

  ghost predicate IsChain(s: GcState) {
    s == Chain([8], []) || s == Chain([], [8])
  }

  lemma ChainSlots(s: GcState)
    requires IsChain(s)
    ensures forall a :: Old(s.heap, a) <==> a == 8 || a == 16
    ensures forall a, i: nat :: a in s.heap && IsPtr(s.heap[a], i) <==> a == 8 && i == 0
    ensures s.heap[8].slots[0] == 16
  {
  }

  lemma ChainIsSound(s: GcState)
    requires IsChain(s)
    ensures GcInv(s)
  {
    hide CountsExact, OldClosed, MutatorHeap, Carried, Accounted, PendingWithin, IsChain;
    ChainIsCounted(s);
    ChainIsListed(s);
  }

  lemma ChainIsListed(s: GcState)
    requires IsChain(s)
    ensures MutatorHeap(s.heap) && Carried(s) && Accounted(s) && PendingWithin(s.pending, s.pendingDecs)
  {
    ChainSlots(s);
  }

  lemma ChainIsCounted(s: GcState)
    requires IsChain(s)
    ensures CountsExact(s.heap) && OldClosed(s.heap)
  {
    ChainSlots(s);
    assert OldEdges(s.heap, 16) == {(8, 0)};
    assert OldEdges(s.heap, 8) == {};
  }

  lemma ChainIsAcyclic(s: GcState)
    requires IsChain(s)
    ensures Acyclic(LiveGraph(s.heap))
  {
    ChainSlots(s);
    var g := LiveGraph(s.heap);
    forall x, y | x in g && y in g[x]
      ensures x == 8 && y == 16
    {
      KidsOfElems(s.heap[x], Live(s.heap), y);
    }
    assert ClosedSet(g, {16});
    if Reach(g, 16, 8) {
      ReachStaysInside(g, {16}, 16, 8);
    }
  }

  lemma ChainFacts(s: GcState)
    requires IsChain(s)
    ensures Young(s.heap) == {} && Live(s.heap) == {8, 16} && |Live(s.heap)| == 2
    ensures 8 in s.heap && s.heap[8].meta.isAlloc
    ensures forall q :: q in s.pendingDecs || q in s.oldRoots ==> q in s.heap && s.heap[q].meta.refCount == 0
  {
    assert Live(s.heap) == {8, 16};
  }

  lemma ChainIsQuiet(s: GcState, n: nat)
    requires IsChain(s)
    ensures Circumstances(s, Budget([], n))
  {
    hide GcInv, Circumstances, IsChain, Young, Live;
    ChainIsSound(s);
    ChainFacts(s);
    QuietCollectionIsSafe(s, Budget([], n));
  }

  lemma ChainIsQueued(s: GcState, n: nat)
    requires IsChain(s)
    ensures 8 in BeforeDrain(s, Budget([], n)).queue
  {
    ChainIsSound(s);
    ChainIsQuiet(s, n);
    CircumstancesEnough(s, Budget([], n));
    hide GcInv, Circumstances, BeforeDrain;
    QueueBeforeDrain(s, Budget([], n));
  }

  lemma ChainDrains(s: GcState, n: nat)
    requires IsChain(s) && n >= 2
    ensures Collect(s, Budget([], n)).pendingDecs == []
  {
    hide GcInv, Circumstances, EnoughEntries, Evac, Collect, Live, IsChain, Young, PendingYoung;
    ChainIsSound(s);
    ChainIsQuiet(s, n);
    CircumstancesEnough(s, Budget([], n));
    ChainFacts(s);
    NothingYoung(s, Budget([], n));
    QuietLive(s, Budget([], n));
    SubsetCard(Live(Evac(s, Budget([], n)).heap), Live(s.heap));
    BudgetDrains(s, Budget([], n));
  }

  /** Dropped now, or left waiting by an earlier budget: a collection that may drain two objects frees both. */
  lemma ChainIsFreed(s: GcState, n: nat)
    requires IsChain(s) && n >= 2
    ensures GcInv(s) && Circumstances(s, Budget([], n)) && BeforeDrain(s, Budget([], n)).queue != []
    ensures var s' := Collect(s, Budget([], n)); GcInv(s') && s'.pendingDecs == [] && forall a :: !Old(s'.heap, a)
  {
    ChainIsSound(s);
    ChainIsQuiet(s, n);
    ChainIsAcyclic(s);
    ChainIsQueued(s, n);
    ChainDrains(s, n);
    hide IsChain, GcInv, Circumstances, Acyclic, LiveGraph, BeforeDrain, Collect, NothingElse;
    CollectKeepsInv(s, Budget([], n));
    DrainedCollectionIsExact(s, Budget([], n));
    NothingIsRooted(s, Budget([], n));
  }

  // ---- A waiting object that is found again

  lemma PopNeverAllocates(s: DecState, a: Addr)
    requires s.queue != [] && a in s.heap && !s.heap[a].meta.isAlloc
    ensures a in DecPop(s).heap && !DecPop(s).heap[a].meta.isAlloc
  {
    var x := s.queue[0];
    var s1 := s.(queue := s.queue[1..]);
    if x in s.heap && s.heap[x].meta.isAlloc {
      DecNCountsDown(s1, x, |Mask(s.heap[x])|);
      hide DecN;
      AllocUnchanged(s.heap, s.heap[x], |Mask(s.heap[x])|, DecN(s1, x, |Mask(s.heap[x])|).heap, a);
    }
  }

  lemma {:induction false} DrainNeverAllocates(s: DecState, budget: nat, a: Addr)
    requires a in s.heap && !s.heap[a].meta.isAlloc
    ensures a in DecRun(s, budget).heap && !DecRun(s, budget).heap[a].meta.isAlloc
    decreases budget
  {
    hide DecPop;
    if budget > 0 && s.queue != [] {
      PopNeverAllocates(s, a);
      DrainNeverAllocates(DecPop(s), budget - 1, a);
    }
  }

  lemma FirstIsFreed(s: DecState, budget: nat)
    requires s.queue != [] && Old(s.heap, s.queue[0]) && budget > 0
    ensures var d := DecRun(s, budget).heap; s.queue[0] in d && !d[s.queue[0]].meta.isAlloc
  {
    PopFreesExactly(s);
    hide DecPop;
    DrainNeverAllocates(DecPop(s), budget - 1, s.queue[0]);
  }

  /** An object that waits first in the queue and is found again as a root is freed all the same. */
  lemma WaitingRootIsFreed(s: GcState, inp: Inputs)
    requires GcInv(s) && EnoughEntries(s, inp) && inp.budget > 0
    requires s.pendingDecs != [] && s.pendingDecs[0] in FoundRoots(s.heap, inp.objs)
    ensures !QueueIsDead(s, inp)
    ensures var h := Collect(s, inp).heap; s.pendingDecs[0] in h && !h[s.pendingDecs[0]].meta.isAlloc
  {
    var q, b := s.pendingDecs[0], BeforeDrain(s, inp);
    assert q in s.pendingDecs && b.queue[0] == q && b.heap == Evac(s, inp).heap;
    assert Drained(s, inp) == DecRun(b, inp.budget);
    OldIsNotListed(s, inp, q);
    OldAfterEvac(s, inp, q);
    hide GcInv, EnoughEntries, Evac, FoundRoots, BeforeDrain, DecRun, NewRoots;
    FirstIsFreed(b, inp.budget);
    assert q in b.queue;
  }

  /** Such a state satisfies the invariant: found again, the waiting object at 8 and all it keeps are lost. */
  lemma ChainRootIsFreed(n: nat)
    requires n > 0
    ensures var s, inp := Chain([], [8]), Budget([8], n);
            && GcInv(s) && EnoughEntries(s, inp) && GoodOrder(s.heap, inp.objs) && RebuiltPagesAreYoung(s, inp)
            && 8 in FoundRoots(s.heap, inp.objs)
            && 8 in Collect(s, inp).heap && !Collect(s, inp).heap[8].meta.isAlloc
  {
    hide GcInv, FoundRoots, GoodOrder, PendingYoung, Collect, IsChain, Young, Live;
    var s, inp := Chain([], [8]), Budget([8], n);
    ChainIsChain();
    hide Chain;
    ChainIsSound(s);
    ChainFacts(s);
    NothingYoung(s, inp);
    GcInvHasNoFlags(s);
    FoundRootsExactly(s.heap, [8]);
    assert 8 in [8];
    WaitingRootIsFreed(s, inp);
  }

  lemma ChainIsChain()
    ensures IsChain(Chain([], [8])) && Chain([], [8]).pendingDecs == [8]
  {
  }

  lemma GcInvHasNoFlags(s: GcState)
    requires GcInv(s)
    ensures NoFlags(s.heap)
  {
  }
}
