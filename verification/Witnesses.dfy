/** Small heaps: promises that fail once their conditions are dropped, and conditions that can be met. */
module Witnesses {
  import opened Graph
  import opened Heap
  import opened Dfs
  import opened MarkOrder
  import opened Evacuation
  import opened EvacuationCounts
  import opened EvacuationGraph
  import opened Decrements
  import opened Draining
  import opened Marking
  import opened Collection
  import opened CollectionInvariant
  import opened CollectionReach

  // ---- Slots [c, b] with b pointing to c

  /** Object 1 holds 2 and then 3, and 3 holds 2. */
  ghost const SHARED: Graph := map[1 := [2, 3], 2 := [], 3 := [2]]

  lemma SharedKids()
    ensures FirstVisits([2, 3], {1}) == [2, 3]
    ensures FirstVisits([2], {1, 2, 3}) == []
  {
    assert [2, 3][..1] == [2] && [2][..0] == [];
    assert FirstVisits([2][..0], {1}) == [];
    assert FirstVisits([2], {1}) == [2];
  }

  ghost predicate Leads(s: Visit, out: seq<Node>) {
    Wf(SHARED, s) && Run(SHARED, s).out == out
  }

  /** Emitting a black top. */
  lemma LeadsByPop(marked: set<Node>, st: seq<Entry>, x: Node, before: seq<Node>, out: seq<Node>)
    requires x in SHARED && Leads(Visit(marked, st, before + [x]), out)
    ensures Leads(Visit(marked, st + [Entry(x, Black)], before), out)
  {
    var s := Visit(marked, st + [Entry(x, Black)], before);
    assert Step(SHARED, s) == Visit(marked, st, before + [x]);
    forall i | 0 <= i < |s.stack|
      ensures s.stack[i].obj in SHARED
    {
      assert i < |st| ==> s.stack[i] == st[i];
    }
  }

  /** Expanding a grey top. */
  lemma LeadsByExpand(marked: set<Node>, st: seq<Entry>, x: Node, kids: seq<Node>, before: seq<Node>, out: seq<Node>)
    requires x in SHARED && marked <= SHARED.Keys && kids == FirstVisits(SHARED[x], marked)
    requires Leads(Visit(marked + Elems(kids), st + [Entry(x, Black)] + Greys(kids), before), out)
    ensures Leads(Visit(marked, st + [Entry(x, Grey)], before), out)
  {
    var s := Visit(marked, st + [Entry(x, Grey)], before);
    var s' := Visit(marked + Elems(kids), st + [Entry(x, Black)] + Greys(kids), before);
    assert Step(SHARED, s) == s';
    forall i | 0 <= i < |s.stack|
      ensures s.stack[i].obj in SHARED
    {
      assert s.stack[i].obj == s'.stack[i].obj;
    }
  }

  /** With 3 emitted, 2 and 1 follow. */
  lemma SharedEnd()
    ensures Leads(Visit({1, 2, 3}, [Entry(1, Black)] + [Entry(2, Grey)], [3]), [3, 2, 1])
  {
    SharedKids();
    var all := {1, 2, 3};
    var b1 := [Entry(1, Black)];
    assert FirstVisits([], all) == [];
    assert [3, 2] + [1] == [3, 2, 1] && [3] + [2] == [3, 2] && [] + b1 == b1;
    assert Leads(Visit(all, [], [3, 2, 1]), [3, 2, 1]);
    hide Leads;
    LeadsByPop(all, [], 1, [3, 2], [3, 2, 1]);
    LeadsByPop(all, b1, 2, [3], [3, 2, 1]);
    assert all + Elems([]) == all && b1 + [Entry(2, Black)] + Greys([]) == b1 + [Entry(2, Black)];
    LeadsByExpand(all, b1, 2, [], [3], [3, 2, 1]);
  }

  /** The later child 3 is emitted before the earlier child 2 it points to. */
  lemma SharedComesOutWrong()
    ensures Whole(SHARED) && Nodes(SHARED, [1])
    ensures VisitOrder(SHARED, [1]) == [3, 2, 1]
  {
    SharedKids();
    SharedEnd();
    hide Leads;
    hide FirstVisits;
    var all := {1, 2, 3};
    var b12 := [Entry(1, Black)] + [Entry(2, Grey)];
    assert [] + [3] == [3];
    LeadsByPop(all, b12, 3, [], [3, 2, 1]);
    assert all + Elems([]) == all && b12 + [Entry(3, Black)] + Greys([]) == b12 + [Entry(3, Black)];
    LeadsByExpand(all, b12, 3, [], [], [3, 2, 1]);
    assert {1} + Elems([2, 3]) == all && [] + [Entry(1, Black)] + Greys([2, 3]) == b12 + [Entry(3, Grey)];
    LeadsByExpand({1}, [], 1, [2, 3], [], [3, 2, 1]);
    SharedStart();
  }

  lemma SharedStart()
    requires Leads(Visit({1}, [] + [Entry(1, Grey)], []), [3, 2, 1])
    ensures Whole(SHARED) && Nodes(SHARED, [1]) && VisitOrder(SHARED, [1]) == [3, 2, 1]
  {
    SingleRootRun(SHARED, 1);
    assert [] + [Entry(1, Grey)] == [Entry(1, Grey)];
  }

  // ---- A root at 8 pointing to a counted old object at 16

  const CELL: TypeInfo := TypeInfo(1, 1, Some("1"))

  function OldCell(root: bool, count: int, next: Addr): Object {
    Object(MetaData(Some(CELL), true, false, false, root, MAX_FWD_INDEX, count), [next])
  }

  ghost const LINKED: Heap := map[8 := OldCell(true, 0, 16), 16 := OldCell(false, 1, 0)]

  lemma LinkedIsGood()
    ensures OldClosed(LINKED) && RootReaches(LINKED, 16)
    ensures Old(LINKED, 16) && LINKED[16].meta.refCount == 1
  {
    var h := LINKED;
    assert IsPtr(h[8], 0) && h[8].slots[0] == 16;
    assert forall i: nat :: !IsPtr(h[16], i);
    assert Points(h[8], 16);
    OldEdge(h, 8, 16);
    ReachEdge(OldGraph(h), 8, 16);
  }

  /** A dropped root whose count is not zero is freed although a root still reaches it. */
  lemma CountedDropIsFreed()
    ensures var s := DecState(LINKED, [16], map[], []);
            RootReaches(s.heap, 16) && 16 in DecPop(s).heap && !DecPop(s).heap[16].meta.isAlloc
            && !OldClosed(DecPop(s).heap)
  {
    LinkedIsGood();
    var s := DecState(LINKED, [16], map[], []);
    PopFreesExactly(s);
    var h := DecPop(s).heap;
    hide DecPop;
    hide RootReaches;
    assert Old(h, 8) && IsPtr(h[8], 0) && h[8].slots[0] == 16;
  }

  /** Rebuilding a page that holds an old non-root frees it although a root still reaches it. */
  lemma RebuiltOldIsFreed()
    ensures RootReaches(LINKED, 16) && 16 in Rebuilt(LINKED, {16}) && !Rebuilt(LINKED, {16})[16].meta.isAlloc
  {
    LinkedIsGood();
    hide RootReaches;
  }

  // ---- A young root at 8 pointing to a young object at 16, and two free entries

  /** One pointer slot: always a pointer, or a string whose words may be inline. */
  predicate IsPointerMask(mask: string) {
    mask == "1" || mask == "2"
  }

  function YoungCell(mask: string, next: Addr): Object {
    Object(FreshMeta(TypeInfo(1, 1, Some(mask))), [next])
  }

  function FreeCell(): Object {
    Object(ResetMeta(MAX_FWD_INDEX), [0])
  }

  ghost function Pair(mask: string): GcState {
    GcState(map[8 := YoungCell(mask, 16), 16 := YoungCell(mask, 0), 24 := FreeCell(), 32 := FreeCell()], [], [], map[])
  }

  ghost function PairInputs(): Inputs {
    Inputs([8], [24, 32], {8, 16}, 1)
  }

  lemma PairSlots(mask: string)
    requires IsPointerMask(mask)
    ensures forall a, i: nat :: a in Pair(mask).heap && IsPtr(Pair(mask).heap[a], i) ==>
              a == 8 && Pair(mask).heap[a].slots[i] == 16
    ensures Points(Pair(mask).heap[8], 16)
  {
    assert IsPtr(Pair(mask).heap[8], 0) && Pair(mask).heap[8].slots[0] == 16;
  }

  lemma PairGraph(mask: string)
    requires IsPointerMask(mask)
    ensures Acyclic(YoungGraph(Pair(mask).heap)) && SiblingOrdered(YoungGraph(Pair(mask).heap))
  {
    var g := YoungGraph(Pair(mask).heap);
    PairSlots(mask);
    forall x, y | x in g && y in g[x]
      ensures x == 8 && y == 16
    {
      YoungEdge(Pair(mask).heap, x, y);
    }
    assert ClosedSet(g, {16});
    if Reach(g, 16, 8) {
      ReachStaysInside(g, {16}, 16, 8);
    }
    forall x, j: nat | x in g
      ensures 0 < j ==> !FirstSlot(g[x], j)
    {
      SameKidsHaveOneSlot(g[x], j);
    }
  }

  lemma SameKidsHaveOneSlot(kids: seq<Node>, j: nat)
    requires forall k <- kids :: k == 16
    ensures 0 < j ==> !FirstSlot(kids, j)
  {
    if 0 < j < |kids| {
      assert kids[0] in kids && kids[j] in kids;
      assert kids[..j][0] == kids[j];
    }
  }

  lemma PairIsSound(mask: string)
    requires IsPointerMask(mask)
    ensures GcInv(Pair(mask))
  {
    hide CountsExact, OldClosed, MutatorHeap, Carried, Accounted, PendingWithin, Pair;
    PairIsCounted(mask);
    PairIsMutable(mask);
    PairIsListed(mask);
  }

  lemma PairIsCounted(mask: string)
    requires IsPointerMask(mask)
    ensures CountsExact(Pair(mask).heap) && OldClosed(Pair(mask).heap)
  {
    var h := Pair(mask).heap;
    PairSlots(mask);
    assert forall a :: !Old(h, a);
    forall a
      ensures OldEdges(h, a) == {}
    {
    }
  }

  lemma PairIsListed(mask: string)
    requires IsPointerMask(mask)
    ensures var s := Pair(mask); Carried(s) && Accounted(s) && PendingWithin(s.pending, s.pendingDecs)
  {
  }

  lemma PairIsMutable(mask: string)
    requires IsPointerMask(mask)
    ensures MutatorHeap(Pair(mask).heap)
  {
    PairSlots(mask);
  }

  /** A first collection, with nothing old yet, meets its conditions on any acyclic, sibling-ordered heap. */
  lemma FirstCollectionIsSafe(s: GcState, inp: Inputs)
    requires GcInv(s) && s.oldRoots == [] && s.pendingDecs == [] && forall a :: !Old(s.heap, a)
    requires Acyclic(YoungGraph(s.heap)) && SiblingOrdered(YoungGraph(s.heap))
    requires Candidates(s.heap, inp.objs) && FreeEntries(s.heap, inp.supply)
    requires |Young(s.heap)| <= |inp.supply| && |Young(s.heap)| <= BSQ_MAX_FWD_TABLE_ENTRIES
    requires Young(s.heap) <= inp.rebuilt && forall y <- inp.supply :: y !in inp.rebuilt
    ensures Circumstances(s, inp)
  {
    hide PendingYoung, GoodOrder, MutatorHeap, FreeEntries, Candidates, BeforeDrain, FoundRoots, YoungGraph, Evac;
    hide OldClosed, CountsExact, Acyclic, SiblingOrdered, Young;
    SiblingOrderSuffices(s.heap, inp.objs);
    PendingYoungExactly(s.heap, inp.objs);
    DistinctFits(PendingYoung(s.heap, inp.objs), Young(s.heap));
    QueueBeforeDrain(s, inp);
  }

  lemma PairFits(mask: string)
    requires IsPointerMask(mask)
    ensures Pair(mask).oldRoots == [] && Pair(mask).pendingDecs == [] && forall a :: !Old(Pair(mask).heap, a)
    ensures Candidates(Pair(mask).heap, PairInputs().objs) && FreeEntries(Pair(mask).heap, PairInputs().supply)
    ensures Young(Pair(mask).heap) == PairInputs().rebuilt && |PairInputs().rebuilt| == |PairInputs().supply| == 2
    ensures forall y <- PairInputs().supply :: y !in PairInputs().rebuilt
  {
    assert Young(Pair(mask).heap) == {8, 16};
  }

  /** The conditions of a collection can be met, with something to mark and something to move. */
  lemma PairIsCollectable(mask: string)
    requires IsPointerMask(mask)
    ensures GcInv(Pair(mask)) && Circumstances(Pair(mask), PairInputs())
  {
    hide Pair, PairInputs, GcInv, Circumstances, YoungGraph, Acyclic, SiblingOrdered, Young, FreeEntries, Candidates;
    PairIsSound(mask);
    PairGraph(mask);
    PairFits(mask);
    FirstCollectionIsSafe(Pair(mask), PairInputs());
  }

  /** In that heap the object to move is reached from the root. */
  lemma PairIsLinked(mask: string)
    requires IsPointerMask(mask)
    ensures 8 in FoundRoots(Pair(mask).heap, [8]) && Reach(LiveGraph(Pair(mask).heap), 8, 16)
  {
    PairIsSound(mask);
    PairSlots(mask);
    LiveEdge(Pair(mask).heap, 8, 16);
    assert 8 in [8];
    FoundRootsExactly(Pair(mask).heap, [8]);
    hide FoundRoots, GcInv, LiveGraph, MutatorHeap;
    ReachEdge(LiveGraph(Pair(mask).heap), 8, 16);
  }
}
