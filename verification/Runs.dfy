/** Safety and exactness over every run of mutation and collection. */
module Runs {
  import opened Graph
  import opened Heap
  import opened Layout
  import opened Evacuation
  import opened EvacuationCounts
  import opened EvacuationGraph
  import opened Marking
  import opened Decrements
  import opened Draining
  import opened Collection
  import opened CollectionInvariant
  import opened CollectionReach
  import opened CollectionComplete

  /** The mutator allocates and fills young objects; old objects are immutable. */
  ghost predicate Mutation(s: GcState, s': GcState) {
    && s'.oldRoots == s.oldRoots && s'.pendingDecs == s.pendingDecs && s'.pending == s.pending
    && MutatorHeap(s'.heap)
    && (forall a :: Old(s'.heap, a) ==> Old(s.heap, a))
    && (forall a :: Old(s.heap, a) ==> a in s'.heap && s'.heap[a] == s.heap[a])
    && (forall a :: a in s'.heap && s'.heap[a].meta.isYoung ==> s'.heap[a].meta.refCount == 0)
  }

  datatype Action = Mutate | Collection(inp: Inputs)

  ghost predicate Step(s: GcState, action: Action, s': GcState) {
    match action
    case Mutate => Mutation(s, s')
    case Collection(inp) => Circumstances(s, inp) && s' == Collect(s, inp)
  }

  /** Before the first allocation. */
  ghost const START: GcState := GcState(map[], [], [], map[])

  ghost predicate Run(states: seq<GcState>, actions: seq<Action>) {
    && |states| == |actions| + 1 && states[0] == START
    && forall i :: 0 <= i < |actions| ==> Step(states[i], actions[i], states[i + 1])
  }

  lemma StartInv()
    ensures GcInv(START)
  {
  }

  lemma MutationKeepsCounts(s: GcState, s': GcState)
    requires GcInv(s) && Mutation(s, s')
    ensures OldClosed(s'.heap) && CountsExact(s'.heap)
  {
    var h, h' := s.heap, s'.heap;
    forall x, i: nat | Old(h', x) && IsPtr(h'[x], i)
      ensures Old(h', h'[x].slots[i])
    {
      assert Old(h, x) && IsPtr(h[x], i);
      assert Old(h, h[x].slots[i]);
    }
    forall a | a in h' && h'[a].meta.isAlloc
      ensures ExactCount(h', a)
    {
      SameEdges(h, h', a);
      if Old(h, a) {
        assert ExactCount(h, a);
      } else {
        assert OldEdges(h', a) == {};
      }
    }
  }

  lemma MutationKeepsInv(s: GcState, s': GcState)
    requires GcInv(s) && Mutation(s, s')
    ensures GcInv(s')
  {
    MutationKeepsCounts(s, s');
    hide MutatorHeap;
    hide OldClosed;
    hide CountsExact;
  }

  lemma StepKeepsInv(s: GcState, action: Action, s': GcState)
    requires GcInv(s) && Step(s, action, s')
    ensures GcInv(s')
  {
    hide GcInv;
    hide Mutation;
    hide Circumstances;
    match action {
      case Mutate => MutationKeepsInv(s, s');
      case Collection(inp) => CollectKeepsInv(s, inp);
    }
  }

  /**
   At every point of every run: counts are exact, old objects point to old objects, and every old
   object is counted, was a root at the last collection, or waits in the decrement queue.
   */
  lemma {:induction false} RunKeepsInv(states: seq<GcState>, actions: seq<Action>, k: nat)
    requires Run(states, actions) && k < |states|
    ensures GcInv(states[k])
  {
    hide GcInv;
    hide Step;
    if k == 0 {
      StartInv();
    } else {
      RunKeepsInv(states, actions, k - 1);
      assert Step(states[k - 1], actions[k - 1], states[(k - 1) + 1]);
      StepKeepsInv(states[k - 1], actions[k - 1], states[k]);
    }
  }

  /** After any collection of any run, in an acyclic heap with a drained queue, nothing but the reachable is left. */
  lemma RunIsExact(states: seq<GcState>, actions: seq<Action>, k: nat)
    requires Run(states, actions) && k < |actions| && actions[k].Collection?
    requires Acyclic(LiveGraph(states[k].heap)) && states[k + 1].pendingDecs == []
    ensures NothingElse(states[k + 1])
  {
    RunKeepsInv(states, actions, k);
    assert Step(states[k], actions[k], states[k + 1]);
    hide GcInv;
    hide Circumstances;
    hide Collect;
    DrainedCollectionIsExact(states[k], actions[k].inp);
  }

  /** Between collections of any run, a page counts no more pending objects than its bytes, which fit 16 bits. */
  lemma RunPendingFits(states: seq<GcState>, actions: seq<Action>, k: nat, page: Addr)
    requires Run(states, actions) && k < |states|
    ensures CountAt(states[k].pending, page) <= QueuedOn(states[k].pendingDecs, page) <= PAGE_SIZE < UINT16_SIZE
  {
    RunKeepsInv(states, actions, k);
    hide QueuedOn;
    QueuedOnFits(states[k].pendingDecs, page);
  }

  /** Nor does the count wrap at any point of any drain of the run. */
  lemma RunNeverWraps(states: seq<GcState>, actions: seq<Action>, k: nat, b: nat, n: nat, page: Addr)
    requires Run(states, actions) && k < |actions| && actions[k].Collection?
    requires var d := DecRun(BeforeDrain(states[k], actions[k].inp), b);
             d.queue != [] && d.queue[0] in d.heap && n <= |Mask(d.heap[d.queue[0]])|
    ensures var d := DecRun(BeforeDrain(states[k], actions[k].inp), b);
            CountAt(DecN(d.(queue := d.queue[1..]), d.queue[0], n).pending, page) < UINT16_SIZE
  {
    var s, inp := states[k], actions[k].inp;
    RunKeepsInv(states, actions, k);
    assert Step(s, actions[k], states[k + 1]);
    hide GcInv, Circumstances, DecInv, PendingBounded, BeforeDrain, DecRun, DecN;
    DrainStarts(s, inp);
    DrainKeepsInvariant(BeforeDrain(s, inp), b);
    DrainKeepsPendingBounded(BeforeDrain(s, inp), b);
    PendingNeverWraps(DecRun(BeforeDrain(s, inp), b), n, page);
  }

  lemma DrainStarts(s: GcState, inp: Inputs)
    requires GcInv(s) && Circumstances(s, inp)
    ensures DecInv(BeforeDrain(s, inp)) && PendingBounded(BeforeDrain(s, inp))
  {
    CircumstancesEnough(s, inp);
    BeforeDrainInv(s, inp);
    CollectKeepsPending(s, inp);
  }


  /** The collections of a run between i and j all find roots that reach a. */
  ghost predicate HeldThroughout(states: seq<GcState>, actions: seq<Action>, i: nat, j: nat, a: Addr)
    requires |states| == |actions| + 1
  {
    forall k :: i <= k < j && k < |actions| && actions[k].Collection? ==>
      ReachedFrom(states[k].heap, FoundRoots(states[k].heap, actions[k].inp.objs), a)
  }

  ghost predicate SameObject(h: Heap, h': Heap, a: Addr) {
    Old(h, a) && Old(h', a) && h'[a].slots == h[a].slots && h'[a].meta.typ == h[a].meta.typ
  }

  lemma CollectKeepsOldObject(s: GcState, inp: Inputs, a: Addr)
    requires GcInv(s) && Circumstances(s, inp) && Old(s.heap, a)
    requires ReachedFrom(s.heap, FoundRoots(s.heap, inp.objs), a)
    ensures SameObject(s.heap, Collect(s, inp).heap, a)
  {
    hide Reach;
    var r :| r in FoundRoots(s.heap, inp.objs) && Reach(LiveGraph(s.heap), r, a);
    NothingReachableIsLost(s, inp, r, a);
    CircumstancesEnough(s, inp);
    OldIsNotListed(s, inp, a);
    OldAfterEvac(s, inp, a);
    HomeIsReached(s, inp, r, a);
    HomeAfterCollect(s, inp, a);
    hide GcInv;
    hide Circumstances;
    hide Collect;
    hide Evac;
    hide Home;
    hide FoundRoots;
    hide LiveGraph;
  }

  lemma StepKeepsOldObject(s: GcState, action: Action, s': GcState, a: Addr)
    requires GcInv(s) && Step(s, action, s') && Old(s.heap, a)
    requires action.Collection? ==> ReachedFrom(s.heap, FoundRoots(s.heap, action.inp.objs), a)
    ensures SameObject(s.heap, s'.heap, a)
  {
    if action.Collection? {
      hide GcInv;
      hide Circumstances;
      hide Collect;
      hide ReachedFrom;
      CollectKeepsOldObject(s, action.inp, a);
    }
  }

  /** An old object that every collection can reach never moves, changes or disappears. */
  lemma {:induction false} HeldObjectsPersist(states: seq<GcState>, actions: seq<Action>, i: nat, j: nat, a: Addr)
    requires Run(states, actions) && i <= j < |states|
    requires Old(states[i].heap, a) && HeldThroughout(states, actions, i, j, a)
    ensures SameObject(states[i].heap, states[j].heap, a)
  {
    hide Step;
    hide GcInv;
    hide ReachedFrom;
    if i < j {
      HeldObjectsPersist(states, actions, i, j - 1, a);
      RunKeepsInv(states, actions, j - 1);
      assert Step(states[j - 1], actions[j - 1], states[(j - 1) + 1]);
      StepKeepsOldObject(states[j - 1], actions[j - 1], states[j], a);
    }
  }
}
