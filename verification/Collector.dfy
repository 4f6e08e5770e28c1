/** The thread's collector state and the phases that update it in place. */
module Collector {
  import opened Graph
  import opened Heap
  import opened Dfs
  import opened MarkOrder
  import opened Layout
  import opened Evacuation
  import opened EvacuationShape
  import opened EvacuationCounts
  import opened EvacuationGraph
  import opened Marking
  import opened Decrements
  import opened Draining
  import opened Collection
  import opened CollectorSteps
  import Sorting

  const BSQ_MAX_ROOTS: nat := 2048
  /** The length of the decremented_pages array. */
  const BSQ_INITIAL_MAX_DECREMENT_COUNT: nat := 16384

  class ThreadInfo {
    var heap: Heap
    /** The pages in the page table, each with the real size of its entries. */
    var pages: map<Addr, nat>
    const canary: nat
    const roots: array<Addr>
    var rootsCount: nat
    const oldRoots: array<Addr>
    var oldRootsCount: nat
    var forwardTable: seq<Addr>
    var pendingRoots: seq<Addr>
    var visitStack: seq<Entry>
    var pendingYoung: seq<Addr>
    var pendingDecs: seq<Addr>
    var pendingDecsCount: map<Addr, nat>
    var decrementedPages: seq<Addr>
    var maxDecrementCount: nat
    /** The free entries allocateEvacuation will hand out. */
    var evacEntries: seq<Addr>

    ghost predicate Valid()
      reads this
    {
      && roots != oldRoots
      && roots.Length == oldRoots.Length == BSQ_MAX_ROOTS
      && rootsCount <= BSQ_MAX_ROOTS && oldRootsCount <= BSQ_MAX_ROOTS
      && maxDecrementCount <= BSQ_INITIAL_MAX_DECREMENT_COUNT
      && forall p :: p in pages ==> pages[p] > 0
    }

    ghost function Roots(): seq<Addr>
      requires Valid()
      reads this, roots
    {
      roots[..rootsCount]
    }

    ghost function OldRoots(): seq<Addr>
      requires Valid()
      reads this, oldRoots
    {
      oldRoots[..oldRootsCount]
    }

    /** Test one candidate word; a fresh root is flagged, recorded, and queued if young. */
    method CheckPotentialPtr(addr: Word)
      requires Valid()
      requires var r := Resolve(pages, canary, addr);
               r.Object? ==> r.obj in heap && (ShouldProcessAsRoot(heap[r.obj].meta) ==> rootsCount < BSQ_MAX_ROOTS)
      modifies this`heap, this`rootsCount, this`pendingRoots, roots
      ensures Valid()
      ensures var r := Resolve(old(pages), canary, addr);
              if r.Object? && ShouldProcessAsRoot(old(heap)[r.obj].meta) then
                && heap == old(heap)[r.obj := old(heap)[r.obj].(meta := old(heap)[r.obj].meta.(isRoot := true))]
                && Roots() == old(Roots()) + [r.obj]
                && pendingRoots == old(pendingRoots) + if old(heap)[r.obj].meta.isYoung then [r.obj] else []
              else
                heap == old(heap) && Roots() == old(Roots()) && pendingRoots == old(pendingRoots)
    {
      var resolved := Resolve(pages, canary, addr);
      if resolved.Object? {
        var obj := resolved.obj;
        if ShouldProcessAsRoot(heap[obj].meta) {
          heap := heap[obj := heap[obj].(meta := heap[obj].meta.(isRoot := true))];
          roots[rootsCount] := obj;
          rootsCount := rootsCount + 1;
          if heap[obj].meta.isYoung {
            pendingRoots := pendingRoots + [obj];
          }
        }
      }
    }

    /** Scan all candidate words. */
    method WalkStack(words: seq<Word>)
      requires Valid() && rootsCount == 0 && pendingRoots == []
      requires var objs := ResolvedObjs(pages, canary, words);
               Candidates(heap, objs) && |FoundRoots(heap, objs)| <= BSQ_MAX_ROOTS
      modifies this`heap, this`rootsCount, this`pendingRoots, roots
      ensures Valid()
      ensures var found := FoundRoots(old(heap), ResolvedObjs(pages, canary, words));
              && heap == WithRoots(old(heap), Elems(found))
              && Roots() == found && pendingRoots == YoungAmong(old(heap), found)
    {
      ghost var h := heap;
      assert WithRoots(h, Elems([])) == h;
      for k := 0 to |words|
        invariant Valid()
        invariant var found := FoundRoots(h, ResolvedObjs(pages, canary, words[..k]));
                  && heap == WithRoots(h, Elems(found))
                  && Roots() == found && pendingRoots == YoungAmong(h, found)
      {
        hide FoundRoots;
        hide YoungAmong;
        ScanWord(pages, canary, words, k, h);
        hide ResolvedObjs;
        var resolved := Resolve(pages, canary, words[k]);
        if resolved.Object? {
          ScanStep(h, ResolvedObjs(pages, canary, words[..k]), resolved.obj);
        }
        CheckPotentialPtr(words[k]);
      }
      assert words[..|words|] == words;
    }

    /** Mark and push grey, in slot order, the children that still have to be visited. */
    method PushChildren(obj: Addr, ghost h: Heap, ghost marked: set<Addr>) returns (ghost kids: seq<Addr>)
      requires heap == WithMarks(h, marked) && NoMarks(h) && Readable(h) && obj in h && h[obj].meta.isYoung
      modifies this`heap, this`visitStack
      ensures kids == FirstVisits(KidsOf(h[obj], Young(h)), marked)
      ensures visitStack == old(visitStack) + Greys(kids)
      ensures heap == WithMarks(h, marked + Elems(kids))
    {
      hide FirstVisits, Greys, WithMarks, Readable, KidsUpTo, Mask, IsPtr, IsPtrWord, ShouldVisit, Young;
      MarksKeepKeys(h, marked);
      ReadsThrough(h, marked, obj);
      var slots, mask := heap[obj].slots, Mask(heap[obj]);
      ghost var o := h[obj];
      ghost var st := visitStack;
      kids := [];
      PushNothing(h, o, marked);
      assert st == st + Greys([]);
      for i := 0 to |mask|
        invariant kids == FirstVisits(KidsUpTo(o, i, Young(h)), marked)
        invariant visitStack == st + Greys(kids)
        invariant heap == WithMarks(h, marked + Elems(kids))
      {
        if IsPtrWord(mask[i], slots[i]) {
          var target := slots[i];
          assert IsPtr(o, i) && target in h;
          PushChildStep(h, o, i, marked, kids);
          assert heap.Keys == h.Keys by {
            MarksKeepKeys(h, marked + Elems(kids));
          }
          if ShouldVisit(heap[target].meta) {
            heap := heap[target := heap[target].(meta := heap[target].meta.(isMarked := true))];
            visitStack := visitStack + [Entry(target, Grey)];
            kids := kids + [target];
          }
        } else {
          PushStep(o, i, Young(h), marked);
        }
      }
    }

    /** Visit until the stack is empty. */
    method WalkSingleRoot(ghost h: Heap, ghost marked: set<Addr>) returns (ghost marked': set<Addr>)
      requires heap == WithMarks(h, marked) && NoMarks(h) && Readable(h)
      requires Wf(YoungGraph(h), Visit(marked, visitStack, pendingYoung))
      modifies this`heap, this`visitStack, this`pendingYoung
      ensures Run(YoungGraph(h), Visit(marked, old(visitStack), old(pendingYoung))) == Visit(marked', [], pendingYoung)
      ensures heap == WithMarks(h, marked') && visitStack == []
    {
      hide Run;
      hide Measure;
      hide FirstVisits;
      hide Greys;
      hide WithMarks;
      ghost var g := YoungGraph(h);
      ghost var start := Visit(marked, visitStack, pendingYoung);
      marked' := marked;
      while visitStack != []
        invariant Wf(g, Visit(marked', visitStack, pendingYoung))
        invariant Run(g, Visit(marked', visitStack, pendingYoung)) == Run(g, start)
        invariant heap == WithMarks(h, marked')
        decreases Measure(g, Visit(marked', visitStack, pendingYoung))
      {
        ghost var s := Visit(marked', visitStack, pendingYoung);
        VisitStep(g, s);
        MarksKeepKeys(h, marked');
        var entry := visitStack[|visitStack| - 1];
        visitStack := visitStack[..|visitStack| - 1];
        var typ := heap[entry.obj].meta.typ;
        if typ == None || typ.value.ptrMask == None || entry.color == Black {
          pendingYoung := pendingYoung + [entry.obj];
          if entry.color == Grey {
            LeafStep(h, s);
          }
        } else {
          visitStack := visitStack + [Entry(entry.obj, Black)];
          ghost var kids := PushChildren(entry.obj, h, marked');
          ExpandStep(h, s, kids);
          marked' := marked' + Elems(kids);
        }
      }
      VisitEnds(g, Visit(marked', visitStack, pendingYoung));
    }

    /** Visit from one pending root, unless it has been marked since. */
    method VisitRoot(obj: Addr, ghost h: Heap, ghost marked: set<Addr>) returns (ghost marked': set<Addr>)
      requires heap == WithMarks(h, marked) && NoMarks(h) && Readable(h) && visitStack == []
      requires obj in Young(h) && Wf(YoungGraph(h), Start(Visit(marked, [], pendingYoung), obj))
      modifies this`heap, this`visitStack, this`pendingYoung
      ensures heap == WithMarks(h, marked') && visitStack == []
      ensures var s := Visit(marked, [], old(pendingYoung));
              Visit(marked', [], pendingYoung) == if obj in marked then s else Run(YoungGraph(h), Start(s, obj))
    {
      hide Run;
      hide WithMarks;
      hide Readable;
      hide YoungGraph;
      MarksKeepKeys(h, marked);
      MarkStep(h, marked, obj);
      marked' := marked;
      if ShouldVisit(heap[obj].meta) {
        heap := heap[obj := heap[obj].(meta := heap[obj].meta.(isMarked := true))];
        visitStack := visitStack + [Entry(obj, Grey)];
        marked' := WalkSingleRoot(h, marked + {obj});
      }
    }

    /** Visit from the pending roots in order. */
    method VisitPendingRoots(ghost h: Heap) returns (ghost marked: set<Addr>)
      requires heap == h && NoMarks(h) && Readable(h) && visitStack == [] && pendingYoung == []
      requires Whole(YoungGraph(h)) && Nodes(YoungGraph(h), pendingRoots) && YoungGraph(h).Keys == Young(h)
      modifies this`heap, this`pendingRoots, this`visitStack, this`pendingYoung
      ensures heap == WithMarks(h, marked) && pendingRoots == [] && visitStack == []
      ensures Visit(marked, [], pendingYoung) == Walk(YoungGraph(h), old(pendingRoots), |old(pendingRoots)|)
    {
      hide Run;
      hide WithMarks;
      hide Readable;
      hide NoMarks;
      hide YoungGraph;
      ghost var g, rs := YoungGraph(h), pendingRoots;
      marked := {};
      NoneMarkedYet(h);
      assert Walk(g, rs, 0) == Visit({}, [], []);
      hide Walk;
      ghost var k := 0;
      while pendingRoots != []
        invariant k <= |rs| && pendingRoots == rs[k..] && visitStack == []
        invariant Visit(marked, [], pendingYoung) == Walk(g, rs, k)
        invariant heap == WithMarks(h, marked)
        decreases |pendingRoots|
      {
        WalkStep(g, rs, k);
        var obj := pendingRoots[0];
        pendingRoots := pendingRoots[1..];
        assert obj == rs[k] && obj in rs;
        marked := VisitRoot(obj, h, marked);
        k := k + 1;
      }
    }

    /** The mark phase. */
    method MarkingWalk(words: seq<Word>)
      requires Valid() && rootsCount == 0 && pendingYoung == []
      requires var objs := ResolvedObjs(pages, canary, words);
               Candidates(heap, objs) && |FoundRoots(heap, objs)| <= BSQ_MAX_ROOTS
      requires NoMarks(heap) && Readable(heap)
      modifies this`heap, this`rootsCount, this`pendingRoots, this`visitStack, this`pendingYoung, roots
      ensures Valid()
      ensures var objs := ResolvedObjs(pages, canary, words);
              && heap == MarkedHeap(old(heap), objs)
              && Roots() == FoundRoots(old(heap), objs)
              && pendingYoung == PendingYoung(old(heap), objs)
              && pendingRoots == [] && visitStack == []
    {
      hide FoundRoots;
      hide WithRoots;
      hide YoungGraph;
      hide Readable;
      hide NoMarks;
      hide WithMarks;
      hide Walk;
      hide MarkedHeap;
      hide PendingYoung;
      ghost var h := heap;
      ghost var objs := ResolvedObjs(pages, canary, words);
      pendingRoots := [];
      visitStack := [];
      WalkStack(words);
      RootedHeap(h, objs);
      ghost var marked := VisitPendingRoots(heap);
      WalkEnds(h, objs, marked, pendingYoung);
    }

    // ---- Evacuation

    /** Rewrite one pointer slot through the forward table and count its target. */
    method UpdateSlot(obj: Addr, i: nat)
      requires obj in heap && IsPtr(heap[obj], i) && FwdIndexOk(heap, forwardTable, heap[obj].slots[i])
      requires FwdOf(heap, forwardTable, heap[obj].slots[i]) in heap
      modifies this`heap
      ensures heap == Evacuation.UpdateSlot(old(heap), forwardTable, obj, i)
    {
      var slots := heap[obj].slots;
      var fwdIndex := heap[slots[i]].meta.forwardIndex;
      if fwdIndex != MAX_FWD_INDEX {
        slots := slots[i := forwardTable[fwdIndex]];
      }
      assert slots == heap[obj].slots[i := FwdOf(heap, forwardTable, heap[obj].slots[i])];
      heap := heap[obj := heap[obj].(slots := slots)];
      var target := slots[i];
      heap := heap[target := heap[target].(meta := heap[target].meta.(refCount := heap[target].meta.refCount + 1))];
    }

    /** Rewrite the pointer slots of obj through the forward table and count them. */
    method UpdatePointers(obj: Addr)
      requires Forwardable(heap, forwardTable, obj)
      modifies this`heap
      ensures heap == Evacuation.UpdatePointers(old(heap), forwardTable, obj)
    {
      hide ForwardsInto;
      hide FwdIndexOk;
      hide FwdOf;
      ghost var h := heap;
      var mask := Mask(heap[obj]);
      for i := 0 to |mask|
        invariant heap == UpdateN(h, forwardTable, obj, i)
      {
        UpdatingSees(h, forwardTable, obj, i);
        assert IsPtr(heap[obj], i) == IsPtr(h[obj], i) == IsPtrWord(mask[i], heap[obj].slots[i]);
        if IsPtrWord(mask[i], heap[obj].slots[i]) {
          UpdateSlot(obj, i);
        }
      }
    }

    /** Take the next free entry and give it fresh old metadata. */
    method AllocateEvacuation(typ: Option<TypeInfo>) returns (newobj: Addr)
      requires evacEntries != [] && evacEntries[0] in heap
      modifies this`heap, this`evacEntries
      ensures newobj == old(evacEntries)[0] && evacEntries == old(evacEntries)[1..]
      ensures heap == old(heap)[newobj := old(heap)[newobj].(meta := ConvertOldMeta(typ))]
    {
      newobj := evacEntries[0];
      evacEntries := evacEntries[1..];
      heap := heap[newobj := heap[newobj].(meta := ConvertOldMeta(typ))];
    }

    /** A pending root stays where it is and turns old. */
    method KeepInPlace(obj: Addr)
      requires Forwardable(heap, forwardTable, obj)
      modifies this`heap
      ensures EvacState(heap, forwardTable) == KeepRoot(EvacState(old(heap), forwardTable), obj)
    {
      hide ForwardsInto;
      ghost var h := heap;
      UpdatePointers(obj);
      UpdateNExactly(h, forwardTable, obj, |Mask(h[obj])|);
      hide UpdateN;
      hide Inc;
      heap := heap[obj := heap[obj].(meta := heap[obj].meta.(isYoung := false))];
    }

    /** Any other pending object is copied, updated in its new place, and forwarded. */
    method Evacuate(obj: Addr)
      requires obj in heap && evacEntries != [] && evacEntries[0] in heap && evacEntries[0] != obj
      requires heap[obj].meta.typ.Some? && heap[obj].meta.typ.value.slotSize <= |heap[obj].slots|
      requires Forwardable(Copied(EvacState(heap, forwardTable), obj, evacEntries[0]), forwardTable, evacEntries[0])
      modifies this`heap, this`forwardTable, this`evacEntries
      ensures EvacState(heap, forwardTable) == MoveTo(EvacState(old(heap), old(forwardTable)), obj, old(evacEntries)[0])
      ensures evacEntries == old(evacEntries)[1..]
    {
      hide Forwardable;
      ghost var s := EvacState(heap, forwardTable);
      var typ := heap[obj].meta.typ;
      var newobj := AllocateEvacuation(typ);
      heap := heap[newobj := heap[newobj].(slots := heap[obj].slots[..typ.value.slotSize])];
      assert heap == Copied(s, obj, newobj);
      ghost var c := heap;
      UpdatePointers(newobj);
      KeysAfterUpdate(c, forwardTable, newobj);
      hide Evacuation.UpdatePointers;
      heap := heap[obj := heap[obj].(meta := ResetMeta(|forwardTable|))];
      forwardTable := forwardTable + [newobj];
    }

    /** Empty the pending-young list. */
    method ProcessMarkedYoungObjects()
      requires EvacReady(heap, pendingYoung, evacEntries) && forwardTable == []
      requires forall x :: x in pendingYoung ==> heap[x].meta.isMarked
      modifies this`heap, this`forwardTable, this`evacEntries, this`pendingYoung
      ensures EvacState(heap, forwardTable) == Evacuated(old(heap), old(pendingYoung), old(evacEntries))
      ensures pendingYoung == []
    {
      hide EvacReady;
      hide EvacShape;
      hide EvacObj;
      ghost var h, order, supply := heap, pendingYoung, evacEntries;
      ghost var k := 0;
      while pendingYoung != []
        invariant k <= |order| && pendingYoung == order[k..]
        invariant EvacState(heap, forwardTable) == EvacN(h, order, supply, k)
        invariant |forwardTable| <= |supply| && evacEntries == supply[|forwardTable|..]
        decreases |pendingYoung|
      {
        ghost var s := EvacState(heap, forwardTable);
        EvacNShape(h, order, supply, k);
        PendingUntouched(h, order, supply, k, s);
        var obj := pendingYoung[0];
        assert obj == order[k] && obj in order;
        pendingYoung := pendingYoung[1..];
        PendingIsTyped(h, order, supply, k, s);
        assert heap[obj].meta.isYoung && heap[obj].meta.isMarked;
        if heap[obj].meta.isRoot {
          RootIsForwardable(h, order, supply, k, s);
          KeepInPlace(obj);
        } else {
          CopyIsForwardable(h, order, supply, k, s);
          Evacuate(obj);
        }
        EvacObjIs(s, obj, supply);
        k := k + 1;
      }
    }

    // ---- Dropped roots and decrements

    /** Walk the sorted roots and the old roots side by side, queueing the old ones that are missing. */
    method QueueDroppedRoots()
      requires Valid() && Sorting.Sorted(Roots()) && Sorting.StrictlySorted(OldRoots())
      modifies this`pendingDecs
      ensures pendingDecs == old(pendingDecs) + DroppedRoots(OldRoots(), Roots())
    {
      ghost var olds, sorted, start := OldRoots(), Roots(), pendingDecs;
      var rootsIdx, oldRootsIdx := 0, 0;
      assert MergedUpTo(sorted, 0, olds, 0) && DroppedRoots(olds[..0], sorted) == [];
      hide MergedUpTo;
      hide DroppedRoots;
      hide Sorting.Sorted;
      hide Sorting.StrictlySorted;
      while oldRootsIdx < oldRootsCount
        invariant rootsIdx <= rootsCount && oldRootsIdx <= oldRootsCount
        invariant MergedUpTo(sorted, rootsIdx, olds, oldRootsIdx)
        invariant pendingDecs == start + DroppedRoots(olds[..oldRootsIdx], sorted)
        decreases oldRootsCount - oldRootsIdx + rootsCount - rootsIdx
      {
        var curOldRoot := oldRoots[oldRootsIdx];
        assert curOldRoot == olds[oldRootsIdx];
        if rootsIdx >= rootsCount {
          MergeDrops(sorted, rootsIdx, olds, oldRootsIdx);
          pendingDecs := pendingDecs + [curOldRoot];
          oldRootsIdx := oldRootsIdx + 1;
        } else {
          var curRoot := roots[rootsIdx];
          assert curRoot == sorted[rootsIdx];
          if curRoot < curOldRoot {
            MergeSkips(sorted, rootsIdx, olds, oldRootsIdx);
            rootsIdx := rootsIdx + 1;
          } else if curOldRoot < curRoot {
            MergeDrops(sorted, rootsIdx, olds, oldRootsIdx);
            pendingDecs := pendingDecs + [curOldRoot];
            oldRootsIdx := oldRootsIdx + 1;
          } else {
            MergeKeeps(sorted, rootsIdx, olds, oldRootsIdx);
            rootsIdx := rootsIdx + 1;
            oldRootsIdx := oldRootsIdx + 1;
          }
        }
      }
      assert olds[..oldRootsIdx] == olds;
    }

    /** Sort the roots and queue the old roots that are not among them. */
    method ComputeDeadRootsForDecrement()
      requires Valid() && Sorting.StrictlySorted(OldRoots())
      modifies this`pendingDecs, this`oldRootsCount, roots
      ensures Valid() && oldRootsCount == 0
      ensures Roots() == Sorting.Sort(old(Roots()))
      ensures pendingDecs == old(pendingDecs) + DroppedRoots(old(OldRoots()), Roots())
    {
      Sorting.QSortPrefix(roots, rootsCount);
      Sorting.SortSorts(old(Roots()));
      QueueDroppedRoots();
      oldRootsCount := 0;
    }

    ghost function Decs(): DecState
      reads this
    {
      DecState(heap, pendingDecs, pendingDecsCount, decrementedPages)
    }

    /** Uncount one target, queueing it if it drops to zero and is no root. */
    method DecrementTarget(target: Addr)
      requires target in heap
      modifies this`heap, this`pendingDecs, this`pendingDecsCount
      ensures Decs() == CountDown(old(Decs()), target)
    {
      heap := heap[target := heap[target].(meta := heap[target].meta.(refCount := heap[target].meta.refCount - 1))];
      if heap[target].meta.refCount == 0 && !heap[target].meta.isRoot {
        var page := PageBase(target);
        pendingDecsCount := pendingDecsCount[page := CountAt(pendingDecsCount, page) + 1];
        pendingDecs := pendingDecs + [target];
      }
    }

    /** Uncount everything obj points to, queueing what drops to zero. */
    method DecrementChildren(obj: Addr)
      requires obj in heap && |Mask(heap[obj])| <= |heap[obj].slots|
      requires forall i: nat :: IsPtr(heap[obj], i) ==> heap[obj].slots[i] in heap
      modifies this`heap, this`pendingDecs, this`pendingDecsCount
      ensures Decs() == DecN(old(Decs()), obj, |Mask(old(heap)[obj])|)
    {
      hide CountDown;
      ghost var s := Decs();
      var mask, slots := Mask(heap[obj]), heap[obj].slots;
      assert DecN(s, obj, 0) == s;
      hide DecN;
      for i := 0 to |mask|
        invariant Decs() == DecN(s, obj, i)
      {
        DecrementStep(s, obj, i);
        if IsPtrWord(mask[i], slots[i]) {
          DecrementTarget(slots[i]);
        }
      }
    }

    /** Mark the entry free and record its page. */
    method GiveBack(obj: Addr)
      requires obj in heap && |decrementedPages| < BSQ_INITIAL_MAX_DECREMENT_COUNT
      modifies this`heap, this`pendingDecsCount, this`decrementedPages
      ensures Decs() == FreeObj(old(Decs()), obj)
    {
      var page := PageBase(obj);
      if CountAt(pendingDecsCount, page) != 0 {
        pendingDecsCount := pendingDecsCount[page := CountAt(pendingDecsCount, page) - 1];
      }
      heap := heap[obj := heap[obj].(meta := heap[obj].meta.(isAlloc := false))];
      decrementedPages := decrementedPages + [page];
    }

    /** One iteration of the decrement loop. */
    method ProcessFirstDecrement()
      requires pendingDecs != [] && PointersKnown(heap) && pendingDecs[0] in heap
      requires |decrementedPages| < BSQ_INITIAL_MAX_DECREMENT_COUNT
      modifies this`heap, this`pendingDecs, this`pendingDecsCount, this`decrementedPages
      ensures Decs() == DecPop(old(Decs())) && |decrementedPages| <= old(|decrementedPages|) + 1
    {
      ghost var s := Decs();
      var obj := pendingDecs[0];
      pendingDecs := pendingDecs[1..];
      if heap[obj].meta.isAlloc {
        PointersOf(heap, obj);
        hide PointersKnown;
        hide DecN;
        DecNCountsDown(Decs(), obj, |Mask(heap[obj])|);
        DecrementChildren(obj);
        GiveBack(obj);
      }
    }

    /** Drain the queue within the budget. */
    method ProcessDecrements()
      requires decrementedPages == [] && maxDecrementCount <= BSQ_INITIAL_MAX_DECREMENT_COUNT
      requires PointersKnown(heap) && forall q :: q in pendingDecs ==> q in heap
      modifies this`heap, this`pendingDecs, this`pendingDecsCount, this`decrementedPages
      ensures var d := DecRun(old(Decs()), maxDecrementCount);
              heap == d.heap && pendingDecs == d.queue && pendingDecsCount == d.pending
      ensures decrementedPages == []
    {
      hide DecPop;
      ghost var start := Decs();
      var decCount := 0;
      while pendingDecs != [] && decCount < maxDecrementCount
        invariant |decrementedPages| <= decCount <= maxDecrementCount
        invariant DecRun(Decs(), maxDecrementCount - decCount) == DecRun(start, maxDecrementCount)
        invariant PointersKnown(heap) && forall q :: q in pendingDecs ==> q in heap
        decreases maxDecrementCount - decCount
      {
        PopKeepsKnown(Decs());
        assert pendingDecs[0] in pendingDecs;
        hide PointersKnown;
        ProcessFirstDecrement();
        decCount := decCount + 1;
      }
      decrementedPages := [];
    }

    // ---- The whole collection

    /** Put every entry of a page that is not kept on the page's new free list. */
    method RebuildPage(entries: seq<Addr>) returns (freelist: seq<Addr>)
      requires forall e :: e in entries ==> e in heap
      modifies this`heap
      ensures heap == Rebuilt(old(heap), Elems(entries))
      ensures freelist == FreeAmong(old(heap), entries)
    {
      hide Rebuilt;
      ghost var h := heap;
      freelist := [];
      RebuildNothing(h);
      var i := |entries|;
      assert entries[i..] == [] && Elems(entries[i..]) == {};
      while i > 0
        invariant i <= |entries|
        invariant heap == Rebuilt(h, Elems(entries[i..])) && freelist == FreeAmong(h, entries[i..])
      {
        i := i - 1;
        assert entries[i..] == [entries[i]] + entries[i + 1..];
        assert Elems(entries[i..]) == Elems(entries[i + 1..]) + {entries[i]};
        RebuildStep(h, entries[i], Elems(entries[i + 1..]));
        if ShouldFreeListAdd(heap[entries[i]].meta) {
          heap := heap[entries[i] := heap[entries[i]].(meta := ResetMeta(MAX_FWD_INDEX))];
          freelist := [entries[i]] + freelist;
        }
      }
      assert entries[0..] == entries;
    }

    /** Rebuild the pages of the collection. */
    method RebuildPages(collected: seq<seq<Addr>>)
      requires forall p, e :: p in collected && e in p ==> e in heap
      modifies this`heap
      ensures heap == Rebuilt(old(heap), AllEntries(collected)) && heap.Keys == old(heap).Keys
    {
      ghost var h := heap;
      RebuildNothing(h);
      for k := 0 to |collected|
        invariant heap == Rebuilt(h, AllEntries(collected[..k])) && heap.Keys == h.Keys
      {
        assert collected[..k + 1][..k] == collected[..k];
        assert collected[k] in collected;
        RebuiltTwice(h, AllEntries(collected[..k]), Elems(collected[k]));
        var _ := RebuildPage(collected[k]);
      }
      assert collected[..|collected|] == collected;
    }

    /** Clear the root flags and remember the roots for the next collection. */
    method CarryRootsOver()
      requires Valid() && oldRootsCount == 0 && forall r :: r in Roots() ==> r in heap
      modifies this`heap, this`oldRootsCount, this`rootsCount, oldRoots
      ensures Valid() && rootsCount == 0
      ensures heap == RootsCleared(old(heap), Elems(old(Roots())))
      ensures OldRoots() == old(Roots())
    {
      hide RootsCleared;
      ghost var h, rs := heap, Roots();
      ClearNothing(h);
      assert Elems(rs[..0]) == {};
      for i := 0 to rootsCount
        invariant Valid() && Roots() == rs && oldRootsCount == i
        invariant heap == RootsCleared(h, Elems(rs[..i])) && OldRoots() == rs[..i]
      {
        assert rs[..i + 1] == rs[..i] + [rs[i]] && Elems(rs[..i + 1]) == Elems(rs[..i]) + {rs[i]};
        assert rs[i] in rs && roots[i] == rs[i];
        ClearStep(h, rs[i], Elems(rs[..i]));
        var root := roots[i];
        heap := heap[root := heap[root].(meta := heap[root].meta.(isMarked := false, isRoot := false))];
        oldRoots[oldRootsCount] := root;
        oldRootsCount := oldRootsCount + 1;
      }
      assert rs[..rootsCount] == rs;
      rootsCount := 0;
    }

    ghost function State(): GcState
      requires Valid()
      reads this, oldRoots
    {
      GcState(heap, OldRoots(), pendingDecs, pendingDecsCount)
    }

    /** The state is at rest: nothing is left over from an earlier collection but what State() shows. */
    ghost predicate AtRest()
      requires Valid()
      reads this, oldRoots
    {
      && rootsCount == 0 && pendingRoots == [] && visitStack == [] && pendingYoung == []
      && forwardTable == [] && decrementedPages == []
      && MutatorHeap(heap)
      && Sorting.StrictlySorted(OldRoots()) && (forall r :: r in OldRoots() ==> r in heap)
      && (forall q :: q in pendingDecs ==> q in heap)
    }

    ghost function Given(words: seq<Word>, collected: seq<seq<Addr>>): Inputs
      requires Valid()
      reads this
    {
      Inputs(ResolvedObjs(pages, canary, words), evacEntries, AllEntries(collected), maxDecrementCount)
    }

    /** The first half: mark, evacuate, and reset the forward table. */
    method MarkAndEvacuate(words: seq<Word>, ghost inp: Inputs)
      requires Valid() && AtRest() && EnoughEntries(State(), inp)
      requires inp.objs == ResolvedObjs(pages, canary, words) && inp.supply == evacEntries
      requires |FoundRoots(heap, inp.objs)| <= BSQ_MAX_ROOTS
      modifies this`heap, this`rootsCount, this`pendingRoots, this`visitStack, this`pendingYoung
      modifies this`forwardTable, this`evacEntries, roots
      ensures Valid() && OldRoots() == old(OldRoots())
      ensures heap == Evac(old(State()), inp).heap && heap.Keys == old(heap).Keys && PointersKnown(heap)
      ensures Roots() == FoundRoots(old(heap), inp.objs)
      ensures pendingYoung == [] && forwardTable == []
    {
      hide MutatorHeap;
      hide ResolvedObjs;
      hide FoundRoots;
      hide MarkedHeap;
      hide PendingYoung;
      hide Evacuated;
      hide EvacReady;
      hide PointersKnown;
      MutatorHeapIsReadable(heap);
      MarkedIsReady(heap, inp.objs, inp.supply);
      MarkedKeys(heap, inp.objs);
      EvacPointersKnown(MarkedHeap(heap, inp.objs), PendingYoung(heap, inp.objs), inp.supply);
      MarkingWalk(words);
      ProcessMarkedYoungObjects();
      forwardTable := [];
    }

    /** The second half: queue dropped roots, drain, rebuild, carry the roots over. */
    method ReleaseAndRebuild(collected: seq<seq<Addr>>)
      requires Valid() && Sorting.StrictlySorted(OldRoots()) && decrementedPages == []
      requires PointersKnown(heap)
      requires (forall q :: q in pendingDecs ==> q in heap) && (forall r :: r in OldRoots() ==> r in heap)
      requires forall r :: r in Sorting.Sort(Roots()) ==> r in heap
      requires forall p, e :: p in collected && e in p ==> e in heap
      modifies this`heap, this`pendingDecs, this`pendingDecsCount, this`decrementedPages
      modifies this`rootsCount, this`oldRootsCount, roots, oldRoots
      ensures Valid() && rootsCount == 0 && decrementedPages == []
      ensures var sorted := Sorting.Sort(old(Roots()));
              var d := DecRun(DecState(old(heap), old(pendingDecs) + DroppedRoots(old(OldRoots()), sorted),
                                       old(pendingDecsCount), []), maxDecrementCount);
              State() == GcState(RootsCleared(Rebuilt(d.heap, AllEntries(collected)), Elems(sorted)),
                             sorted, d.queue, d.pending)
    {
      hide PointersKnown;
      hide DecRun;
      hide Rebuilt;
      hide RootsCleared;
      hide DroppedRoots;
      DroppedKnown(heap, pendingDecs, OldRoots(), Sorting.Sort(Roots()));
      ComputeDeadRootsForDecrement();
      RunKeepsKnown(Decs(), maxDecrementCount);
      ProcessDecrements();
      RebuildPages(collected);
      CarryRootsOver();
    }

    /** One collection: exactly the function Collection.Collect of the state and its inputs. */
    method Collect(words: seq<Word>, collected: seq<seq<Addr>>)
      requires Valid() && AtRest() && EnoughEntries(State(), Given(words, collected))
      requires |FoundRoots(heap, Given(words, collected).objs)| <= BSQ_MAX_ROOTS
      requires forall p, e :: p in collected && e in p ==> e in heap
      modifies this, roots, oldRoots
      ensures Valid()
      ensures State() == Collection.Collect(old(State()), old(Given(words, collected)))
      ensures rootsCount == 0 && pendingYoung == [] && forwardTable == [] && decrementedPages == []
    {
      hide MutatorHeap;
      hide ResolvedObjs;
      hide FoundRoots;
      hide PointersKnown;
      hide Evac;
      hide DecRun;
      ghost var inp := Given(words, collected);
      NewRootsKnown(heap, inp.objs);
      MarkAndEvacuate(words, inp);
      ReleaseAndRebuild(collected);
    }
  }
}
