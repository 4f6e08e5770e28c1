/** Which words are pointers, by mask character and alignment, and what each phase does to them. */
module PointerSlots {
  import opened Graph
  import opened Heap
  import opened Dfs
  import opened MarkOrder
  import opened Layout
  import opened Evacuation
  import opened EvacuationCounts
  import opened EvacuationGraph
  import opened Marking
  import opened Decrements
  import opened Draining
  import opened Collection
  import opened CollectionInvariant
  import opened CollectionReach
  import opened Witnesses

  ghost predicate HasChar(o: Object, i: nat, m: char) {
    && o.meta.typ.Some? && o.meta.typ.value.ptrMask.Some?
    && i < |o.meta.typ.value.ptrMask.value| && o.meta.typ.value.ptrMask.value[i] == m
  }

  /** Slot i refers to w: under '1' whatever w is but null, under '2' when w is word aligned besides. */
  ghost predicate IsRef(o: Object, i: nat, w: Word) {
    i < |o.slots| && o.slots[i] == w && w != 0 && (HasChar(o, i, '1') || (HasChar(o, i, '2') && w % 8 == 0))
  }

  /** Slot i holds no reference: null, an inline string, or a word under any other character. */
  ghost predicate IsData(o: Object, i: nat) {
    i < |o.slots| && (o.slots[i] == 0 || (!HasChar(o, i, '1') && (!HasChar(o, i, '2') || o.slots[i] % 8 != 0)))
  }

  ghost function RefSlots(o: Object, a: Addr): set<nat> {
    set i: nat | i < |o.slots| && IsRef(o, i, a)
  }

  /** The references to a from old objects. */
  ghost function OldRefs(h: Heap, a: Addr): set<(Addr, nat)> {
    set x, i: nat | x in h && i < |h[x].slots| && h[x].meta.isAlloc && !h[x].meta.isYoung && IsRef(h[x], i, a) :: (x, i)
  }

  lemma RefIsPtr(o: Object, i: nat, w: Word)
    ensures IsRef(o, i, w) <==> IsPtr(o, i) && o.slots[i] == w
    ensures IsData(o, i) <==> i < |o.slots| && !IsPtr(o, i)
  {
  }

  /** An object address is word aligned, so a string slot that holds one refers to it. */
  lemma ObjectInStringSlot(o: Object, i: nat, page: Addr, allocSize: nat, canary: nat, k: nat)
    requires page % 4096 == 0 && allocSize % 8 == 0 && canary % 8 == 0
    requires i < |o.slots| && o.slots[i] == ObjAddr(page, RealEntrySize(allocSize, canary), canary, k)
    requires HasChar(o, i, '2')
    ensures IsRef(o, i, o.slots[i])
  {
    ObjectsAreAligned(page, allocSize, canary, k);
  }

  // ---- Marking

  /** A young object referred to by a listed one is listed. */
  lemma RefIsListed(h: Heap, objs: seq<Addr>, x: Addr, i: nat, w: Addr)
    requires MutatorHeap(h) && Candidates(h, objs)
    requires x in PendingYoung(h, objs) && x in h && IsRef(h[x], i, w) && w in h && h[w].meta.isYoung
    ensures w in PendingYoung(h, objs)
  {
    hide PendingYoung, MarkedHeap, ListClosed;
    RefIsPtr(h[x], i, w);
    PendingIsClosed(h, objs);
    MarkedKeys(h, objs);
    var m := MarkedHeap(h, objs);
    assert IsPtr(m[x], i) && m[x].slots[i] == w;
    ListClosedAt(m, PendingYoung(h, objs), x, w);
  }

  // ---- Evacuation

  /** A reference is forwarded and counted. */
  lemma RefIsForwarded(h: Heap, fwd: seq<Addr>, x: Addr, i: nat, w: Addr)
    requires x in h && IsRef(h[x], i, w) && FwdOf(h, fwd, w) in h
    ensures var t, h' := FwdOf(h, fwd, w), UpdateSlot(h, fwd, x, i);
            && h'.Keys == h.Keys
            && h'[x].slots == h[x].slots[i := t]
            && (forall a <- h :: a != x ==> h'[a].slots == h[a].slots)
            && (forall a <- h :: h'[a].meta == h[a].meta.(refCount := h[a].meta.refCount + if a == t then 1 else 0))
  {
    hide FwdOf;
    RefIsPtr(h[x], i, w);
  }

  /** Anything else is left alone, by evacuation and by decrements, even if it is the address of an object. */
  lemma DataIsLeft(h: Heap, fwd: seq<Addr>, s: DecState, x: Addr, i: nat)
    requires x in h && IsData(h[x], i) && s.heap == h
    ensures UpdateSlot(h, fwd, x, i) == h && DecSlot(s, x, i) == s
  {
    RefIsPtr(h[x], i, h[x].slots[i]);
  }

  /** The exact count of an object is the number of references from old objects. */
  lemma CountIsRefs(h: Heap, a: Addr)
    requires CountsExact(h) && a in h && h[a].meta.isAlloc
    ensures h[a].meta.refCount == |OldRefs(h, a)|
  {
    hide IsRef, IsPtr;
    forall x, i: nat | x in h
      ensures IsRef(h[x], i, a) <==> i < |h[x].slots| && IsPtr(h[x], i) && h[x].slots[i] == a
    {
      RefIsPtr(h[x], i, a);
      InSlots(h[x], i);
    }
    assert OldRefs(h, a) == OldEdges(h, a);
  }

  // ---- Decrements

  /** Counting a reference down queues its target when that was the last one and the target is no root. */
  lemma RefIsCountedDown(s: DecState, x: Addr, i: nat, w: Addr)
    requires x in s.heap && w in s.heap && IsRef(s.heap[x], i, w)
    ensures var m, s' := s.heap[w].meta, DecSlot(s, x, i);
            && s'.heap == s.heap[w := s.heap[w].(meta := m.(refCount := m.refCount - 1))]
            && s'.queue == (if m.refCount == 1 && !m.isRoot then s.queue + [w] else s.queue)
  {
    RefIsPtr(s.heap[x], i, w);
  }

  /** Freeing an object takes one off the count of a target for each of its references. */
  lemma FreeingTakesRefs(s: DecState, a: Addr)
    requires s.queue != [] && Old(s.heap, s.queue[0]) && a in s.heap
    ensures a in DecPop(s).heap
    ensures DecPop(s).heap[a].meta.refCount == s.heap[a].meta.refCount - |RefSlots(s.heap[s.queue[0]], a)|
  {
    hide DecPop, IsRef, IsPtr;
    PopFreesExactly(s);
    var o := s.heap[s.queue[0]];
    forall i: nat
      ensures IsRef(o, i, a) <==> i < |o.slots| && IsPtr(o, i) && o.slots[i] == a
      ensures IsPtr(o, i) ==> i < |o.slots|
    {
      RefIsPtr(o, i, a);
      InSlots(o, i);
    }
    assert RefSlots(o, a) == SlotsTo(o, a);
  }

  lemma InSlots(o: Object, i: nat)
    ensures IsPtr(o, i) ==> i < |o.slots|
  {
  }

  // ---- Whole collections

  /** A path among young objects is a path among allocated ones. */
  lemma YoungPathIsLive(h: Heap, r: Addr, x: Addr)
    requires MutatorHeap(h) && Reach(YoungGraph(h), r, x)
    ensures Reach(LiveGraph(h), r, x)
  {
    hide Reach, ObjGraph;
    forall y, z | y in YoungGraph(h) && z in YoungGraph(h)[y]
      ensures y in LiveGraph(h) && z in LiveGraph(h)[y]
    {
      YoungNodes(h, y);
      YoungEdge(h, y, z);
      LiveEdge(h, y, z);
    }
    ReachMonotone(YoungGraph(h), LiveGraph(h), r, x);
  }

  lemma YoungNodes(h: Heap, y: Addr)
    requires y in YoungGraph(h)
    ensures y in h && y in Young(h)
  {
  }

  lemma ListedIsReached(s: GcState, inp: Inputs, x: Addr) returns (r: Addr)
    requires GcInv(s) && EnoughEntries(s, inp) && x in PendingYoung(s.heap, inp.objs)
    ensures r in FoundRoots(s.heap, inp.objs) && Reach(LiveGraph(s.heap), r, x)
  {
    hide PendingYoung, FoundRoots, YoungGraph, LiveGraph, Reach, MutatorHeap;
    PendingYoungExactly(s.heap, inp.objs);
    YoungAmongElems(s.heap, FoundRoots(s.heap, inp.objs));
    r :| r in YoungAmong(s.heap, FoundRoots(s.heap, inp.objs)) && Reach(YoungGraph(s.heap), r, x);
    YoungPathIsLive(s.heap, r, x);
  }

  /** After a collection a reference held by a listed object leads to the target's new address, and data stays. */
  lemma RefAfterCollect(s: GcState, inp: Inputs, x: Addr, i: nat)
    requires GcInv(s) && Circumstances(s, inp) && x in PendingYoung(s.heap, inp.objs)
    ensures var h' := Collect(s, inp).heap; var y := Home(s, inp, x);
            && x in s.heap && Old(h', y) && |h'[y].slots| == |s.heap[x].slots|
            && (forall w :: IsRef(s.heap[x], i, w) ==> h'[y].slots[i] == Home(s, inp, w) && Old(h', Home(s, inp, w)))
            && (IsData(s.heap[x], i) ==> h'[y].slots[i] == s.heap[x].slots[i])
  {
    hide GcInv, Circumstances, PendingYoung, Collect, Home, FoundRoots, LiveGraph, Reach, IsRef, IsData, IsPtr;
    CircumstancesEnough(s, inp);
    var r := ListedIsReached(s, inp, x);
    NothingReachableIsLost(s, inp, r, x);
    SurvivorIsAlloc(s, inp, x);
    RefIsPtr(s.heap[x], i, 0);
    InSlots(s.heap[x], i);
    if i < |s.heap[x].slots| {
      RefIsPtr(s.heap[x], i, s.heap[x].slots[i]);
      assert SlotKept(s, inp, x, i);
      if IsPtr(s.heap[x], i) {
        TargetIsReached(s, r, x, i);
        NothingReachableIsLost(s, inp, r, s.heap[x].slots[i]);
      }
    }
    forall w | IsRef(s.heap[x], i, w)
      ensures i < |s.heap[x].slots| && w == s.heap[x].slots[i] && IsPtr(s.heap[x], i)
    {
      RefIsPtr(s.heap[x], i, w);
    }
    LengthKept(s, inp, r, x);
  }

  lemma TargetIsReached(s: GcState, r: Addr, x: Addr, i: nat)
    requires GcInv(s) && Reach(LiveGraph(s.heap), r, x) && x in s.heap && s.heap[x].meta.isAlloc && IsPtr(s.heap[x], i)
    ensures Reach(LiveGraph(s.heap), r, s.heap[x].slots[i])
  {
    var t := s.heap[x].slots[i];
    assert Points(s.heap[x], t);
    LiveEdge(s.heap, x, t);
    ReachEdge(LiveGraph(s.heap), x, t);
    ReachTrans(LiveGraph(s.heap), r, x, t);
  }

  lemma LengthKept(s: GcState, inp: Inputs, r: Addr, x: Addr)
    requires GcInv(s) && Circumstances(s, inp)
    requires r in FoundRoots(s.heap, inp.objs) && Reach(LiveGraph(s.heap), r, x)
    ensures x in s.heap && Home(s, inp, x) in Collect(s, inp).heap
    ensures |Collect(s, inp).heap[Home(s, inp, x)].slots| == |s.heap[x].slots|
  {
    hide GcInv, Circumstances, Collect, Home, FoundRoots, LiveGraph, Reach, Evac;
    CircumstancesEnough(s, inp);
    CircumstancesOrder(s, inp);
    HomeIsReached(s, inp, r, x);
    HomeAfterCollect(s, inp, Home(s, inp, x));
    SurvivorIsAlloc(s, inp, x);
    HomeSlot(s, inp, x, 0);
  }

  lemma CircumstancesOrder(s: GcState, inp: Inputs)
    requires Circumstances(s, inp)
    ensures GoodOrder(s.heap, inp.objs)
  {
  }

  // ---- A string slot in use

  lemma PairRefers(mask: string)
    requires IsPointerMask(mask)
    ensures 8 in Pair(mask).heap && |Pair(mask).heap[8].slots| == 1 && IsRef(Pair(mask).heap[8], 0, 16)
  {
  }

  /** The target of the root's only slot is moved, and the slot leads to its new place, under '2' as under '1'. */
  lemma PairIsMoved(mask: string)
    requires IsPointerMask(mask)
    ensures var s, inp := Pair(mask), PairInputs(); var h' := Collect(s, inp).heap;
            && GcInv(s) && Circumstances(s, inp) && IsRef(s.heap[8], 0, 16)
            && Old(h', 8) && |h'[8].slots| == 1
            && h'[8].slots[0] == Home(s, inp, 16) && Old(h', Home(s, inp, 16))
  {
    hide GcInv, Circumstances, FoundRoots, LiveGraph, Reach, Collect, Home, Pair, PairInputs, IsRef, IsPtr;
    var s, inp := Pair(mask), PairInputs();
    PairIsCollectable(mask);
    PairIsLinked(mask);
    PairRefers(mask);
    PairScans();
    ReachSelf(LiveGraph(s.heap), 8);
    NothingReachableIsLost(s, inp, 8, 8);
    NothingReachableIsLost(s, inp, 8, 16);
    RefIsPtr(s.heap[8], 0, 16);
    assert SlotKept(s, inp, 8, 0);
  }

  lemma PairScans()
    ensures PairInputs().objs == [8]
  {
  }
}
