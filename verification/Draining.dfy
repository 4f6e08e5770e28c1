/** What draining the decrement queue promises, for any budget. */
module Draining {
  import opened Graph
  import opened Heap
  import opened Evacuation
  import opened EvacuationCounts
  import opened EvacuationGraph
  import opened Decrements
  import opened Layout

  ghost function OldSet(h: Heap): set<Addr> {
    set x | x in h && Old(h, x)
  }

  ghost function OldGraph(h: Heap): Graph {
    ObjGraph(h, OldSet(h))
  }

  /** Counts are exact, nothing dangles, and the queue holds distinct uncounted non-roots. */
  ghost predicate DecInv(s: DecState) {
    && CountsExact(s.heap) && OldClosed(s.heap)
    && Distinct(s.queue)
    && forall q :: q in s.queue ==> Old(s.heap, q) && s.heap[q].meta.refCount == 0 && !s.heap[q].meta.isRoot
  }

  /** Every old object is counted, is a root, or waits in the queue. */
  ghost predicate Covered(s: DecState) {
    forall a :: Old(s.heap, a) ==> s.heap[a].meta.refCount > 0 || s.heap[a].meta.isRoot || a in s.queue
  }

  ghost predicate FreedMeta(m: MetaData, m': MetaData, freed: bool) {
    m' == m.(isAlloc := m.isAlloc && !freed, refCount := m'.refCount)
  }

  /** Apart from x, which is given back, only counts differ. */
  ghost predicate OnlyFreed(h: Heap, x: Addr, h': Heap) {
    && h'.Keys == h.Keys && x in h
    && (forall a :: a in h ==> h'[a].slots == h[a].slots)
    && (forall a :: a in h ==> FreedMeta(h[a].meta, h'[a].meta, a == x))
  }

  lemma DecObjExactly(s: DecState, x: Addr, a: Addr)
    requires x in s.heap && a in s.heap
    ensures var s' := DecN(s, x, |Mask(s.heap[x])|);
            && s'.heap.Keys == s.heap.Keys && s'.touched == s.touched && s'.heap[a].slots == s.heap[a].slots
            && CountedFrom(s.heap[a].meta, s'.heap[a].meta, -|SlotsTo(s.heap[x], a)|)
  {
    DecNCountsDown(s, x, |Mask(s.heap[x])|);
    TakenAll(s.heap[x], a);
    hide DecN;
    hide Taken;
    hide SlotsTo;
    hide Mask;
  }

  /** One pop of an allocated object, whatever its count: it alone is freed, its pointers are uncounted. */
  lemma PopFreesExactly(s: DecState)
    requires s.queue != [] && Old(s.heap, s.queue[0])
    ensures OnlyFreed(s.heap, s.queue[0], DecPop(s).heap)
    ensures DecPop(s).touched == s.touched + [PageBase(s.queue[0])]
    ensures forall a :: a in s.heap ==> (DecPop(s).heap[a].meta.refCount
              == s.heap[a].meta.refCount - |SlotsTo(s.heap[s.queue[0]], a)|)
  {
    hide DecN;
    hide SlotsTo;
    hide Mask;
    var x := s.queue[0];
    var s1 := s.(queue := s.queue[1..]);
    var s2 := DecN(s1, x, |Mask(s.heap[x])|);
    DecObjExactly(s1, x, x);
    forall a | a in s.heap
      ensures s2.heap[a].slots == s.heap[a].slots
      ensures CountedFrom(s.heap[a].meta, s2.heap[a].meta, -|SlotsTo(s.heap[x], a)|)
    {
      DecObjExactly(s1, x, a);
    }
  }

  lemma FreedIsOnlyNewOld(h: Heap, x: Addr, h': Heap)
    requires Old(h, x) && OnlyFreed(h, x, h')
    ensures OnlyNewOld(h', h, x)
  {
  }

  /** Counts stay exact across a pop. */
  lemma PopKeepsCounts(s: DecState)
    requires s.queue != [] && Old(s.heap, s.queue[0]) && CountsExact(s.heap)
    ensures CountsExact(DecPop(s).heap)
  {
    hide DecPop;
    var x := s.queue[0];
    var h' := DecPop(s).heap;
    PopFreesExactly(s);
    FreedIsOnlyNewOld(s.heap, x, h');
    hide OldEdges;
    hide SlotsTo;
    hide OnlyNewOld;
    forall a | a in h' && h'[a].meta.isAlloc
      ensures ExactCount(h', a)
    {
      assert ExactCount(s.heap, a);
      EdgesGrow(h', s.heap, x, a);
    }
  }

  lemma UncountedIsUnpointed(h: Heap, x: Addr)
    requires ExactCount(h, x) && h[x].meta.refCount == 0
    ensures forall w, i: nat :: Old(h, w) && IsPtr(h[w], i) ==> h[w].slots[i] != x
  {
    forall w, i: nat | Old(h, w) && IsPtr(h[w], i)
      ensures h[w].slots[i] != x
    {
      if h[w].slots[i] == x {
        PointedIsCounted(h, w, i, x);
      }
    }
  }

  lemma CountedIsPointed(h: Heap, x: Addr) returns (w: Addr, i: nat)
    requires ExactCount(h, x) && h[x].meta.refCount != 0
    ensures Old(h, w) && IsPtr(h[w], i) && h[w].slots[i] == x
  {
    assert OldEdges(h, x) != {};
    var e :| e in OldEdges(h, x);
    w, i := e.0, e.1;
  }

  /** An object's own slots are the edges to it that its freeing takes away. */
  lemma OwnEdges(h: Heap, x: Addr)
    requires Old(h, x)
    ensures Pairs(x, SlotsTo(h[x], x)) <= OldEdges(h, x)
    ensures |Pairs(x, SlotsTo(h[x], x))| == |SlotsTo(h[x], x)|
  {
    PairsCard(x, SlotsTo(h[x], x));
  }

  /** Another old object points to x exactly when more is counted than x's own slots. */
  lemma OthersPointExactly(h: Heap, x: Addr)
    requires Old(h, x) && ExactCount(h, x)
    ensures h[x].meta.refCount == |SlotsTo(h[x], x)|
       <==> forall w, i: nat :: w != x && Old(h, w) && IsPtr(h[w], i) ==> h[w].slots[i] != x
  {
    OwnEdges(h, x);
    var own, all := Pairs(x, SlotsTo(h[x], x)), OldEdges(h, x);
    assert |all - own| == |all| - |own|;
    if |all - own| == 0 {
      assert all - own == {};
      forall w, i: nat | w != x && Old(h, w) && IsPtr(h[w], i)
        ensures h[w].slots[i] != x
      {
        assert (w, i) !in own;
        assert (w, i) !in all;
      }
    } else {
      var e :| e in all - own;
      assert Old(h, e.0) && IsPtr(h[e.0], e.1) && h[e.0].slots[e.1] == x;
    }
  }

  /**
   The guard the code lacks: one pop leaves no dangling pointer behind exactly when the popped object's count
   is that of its own slots, which is zero for an object that does not point to itself.
   */
  lemma PopKeepsClosedExactly(s: DecState)
    requires s.queue != [] && Old(s.heap, s.queue[0]) && CountsExact(s.heap) && OldClosed(s.heap)
    ensures OldClosed(DecPop(s).heap)
       <==> s.heap[s.queue[0]].meta.refCount == |SlotsTo(s.heap[s.queue[0]], s.queue[0])|
  {
    hide DecPop;
    var x := s.queue[0];
    var h, h' := s.heap, DecPop(s).heap;
    PopFreesExactly(s);
    assert ExactCount(h, x);
    OthersPointExactly(h, x);
    hide SlotsTo, ExactCount;
    forall w
      ensures w in h ==> Mask(h'[w]) == Mask(h[w])
      ensures Old(h', w) <==> Old(h, w) && w != x
    {
    }
    if h[x].meta.refCount == |SlotsTo(h[x], x)| {
      forall w, i: nat | Old(h', w) && IsPtr(h'[w], i)
        ensures Old(h', h'[w].slots[i])
      {
        assert IsPtr(h[w], i);
      }
    } else {
      var w, i: nat :| w != x && Old(h, w) && IsPtr(h[w], i) && h[w].slots[i] == x;
      assert IsPtr(h'[w], i);
    }
  }

  /** The counts of the popped object's targets cover its pointers. */
  lemma PopIsAffordable(h: Heap, x: Addr)
    requires CountsExact(h) && OldClosed(h) && Old(h, x)
    ensures Affordable(h, h[x])
  {
    forall a, i: nat | IsPtr(h[x], i) && h[x].slots[i] == a
      ensures a in h && |Taken(h[x], |Mask(h[x])|, a)| <= h[a].meta.refCount
    {
      assert Old(h, a) && ExactCount(h, a);
      TakenAll(h[x], a);
      PairsCard(x, SlotsTo(h[x], a));
      assert Pairs(x, SlotsTo(h[x], a)) <= OldEdges(h, a);
      SubsetCard(Pairs(x, SlotsTo(h[x], a)), OldEdges(h, a));
    }
  }

  lemma {:induction false} SubsetCard<T>(a: set<T>, b: set<T>)
    requires a <= b
    ensures |a| <= |b|
  {
    if a != {} {
      var x :| x in a;
      SubsetCard(a - {x}, b - {x});
    }
  }

  /** The queue after a pop: the rest, then what the popped object dropped. */
  lemma PopQueues(s: DecState)
    requires s.queue != [] && DecInv(s)
    ensures s.queue[0] in s.heap
    ensures var x := s.queue[0];
            Queued(s.heap, s.heap[x], |Mask(s.heap[x])|, s.queue[1..], DecPop(s).queue)
  {
    var x := s.queue[0];
    assert x in s.queue;
    hide Queued;
    hide Affordable;
    hide Mask;
    PopIsAffordable(s.heap, x);
    var s1 := s.(queue := s.queue[1..]);
    DecNQueues(s1, x, |Mask(s.heap[x])|);
    DecNCountsDown(s1, x, |Mask(s.heap[x])|);
    hide DecInv;
  }

  /** A dropped object was counted before the pop and is uncounted after it. */
  lemma DroppedAfterPop(s: DecState, a: Addr)
    requires s.queue != [] && DecInv(s)
    requires s.queue[0] in s.heap
    requires var x := s.queue[0]; Dropped(s.heap, s.heap[x], |Mask(s.heap[x])|, a)
    ensures a !in s.queue
    ensures var h' := DecPop(s).heap; Old(h', a) && h'[a].meta.refCount == 0 && !h'[a].meta.isRoot
  {
    hide DecPop;
    var x := s.queue[0];
    assert x in s.queue;
    PopFreesExactly(s);
    TakenAll(s.heap[x], a);
    var i :| i in SlotsTo(s.heap[x], a);
    assert Old(s.heap, a);
    assert |SlotsTo(s.heap[x], a)| > 0;
    hide CountsExact;
    hide SlotsTo;
    hide Taken;
  }

  /** An uncounted object is not touched by somebody else's pop. */
  lemma WaitingAfterPop(s: DecState, a: Addr)
    requires s.queue != [] && DecInv(s) && a in s.queue[1..]
    ensures var h' := DecPop(s).heap; Old(h', a) && h'[a].meta.refCount == 0 && !h'[a].meta.isRoot
  {
    hide DecPop;
    var x := s.queue[0];
    assert x in s.queue && a in s.queue && a != x;
    PopFreesExactly(s);
    assert ExactCount(s.heap, a);
    UncountedIsUnpointed(s.heap, a);
    assert SlotsTo(s.heap[x], a) == {};
    hide SlotsTo;
    hide CountsExact;
    hide OldClosed;
  }

  lemma DistinctConcat(a: seq<Addr>, b: seq<Addr>)
    requires Distinct(a) && Distinct(b) && forall x :: x in a ==> x !in b
    ensures Distinct(a + b)
  {
    var s := a + b;
    forall i, j | 0 <= i < j < |s|
      ensures s[i] != s[j]
    {
      if i < |a| <= j {
        assert a[i] in a && b[j - |a|] in b;
      }
    }
  }

  /** What is queued after a pop is distinct, old, uncounted and no root. */
  lemma PopKeepsQueue(s: DecState)
    requires s.queue != [] && DecInv(s)
    ensures Distinct(DecPop(s).queue)
    ensures var h' := DecPop(s).heap; forall a :: a in DecPop(s).queue ==>
              (Old(h', a) && h'[a].meta.refCount == 0 && !h'[a].meta.isRoot)
  {
    PopQueues(s);
    assert Distinct(s.queue[1..]);
    hide DecPop;
    hide CountsExact;
    hide OldClosed;
    hide Dropped;
    var q, q' := s.queue[1..], DecPop(s).queue;
    var added := q'[|q|..];
    assert q' == q + added;
    forall a | a in q'
      ensures Old(DecPop(s).heap, a) && DecPop(s).heap[a].meta.refCount == 0 && !DecPop(s).heap[a].meta.isRoot
      ensures a in q ==> a !in added
    {
      if a in q {
        WaitingAfterPop(s, a);
      }
      if a in added {
        DroppedAfterPop(s, a);
      }
    }
    DistinctConcat(q, added);
  }

  /** Every iteration keeps the invariant: in particular nothing is ever queued twice. */
  lemma PopKeepsDecInv(s: DecState)
    requires s.queue != [] && DecInv(s)
    ensures DecInv(DecPop(s))
  {
    hide DecPop;
    var x := s.queue[0];
    assert x in s.queue && ExactCount(s.heap, x);
    UncountedIsUnpointed(s.heap, x);
    assert !Points(s.heap[x], x);
    hide ExactCount;
    PopKeepsCounts(s);
    PopKeepsClosedExactly(s);
    PopKeepsQueue(s);
    hide CountsExact;
    hide OldClosed;
  }

  lemma PopKeepsCovered(s: DecState)
    requires s.queue != [] && DecInv(s) && Covered(s)
    ensures Covered(DecPop(s))
  {
    var x := s.queue[0];
    assert x in s.queue;
    PopFreesExactly(s);
    PopQueues(s);
    hide DecPop;
    hide OldClosed;
    var s' := DecPop(s);
    var q := s.queue[1..];
    forall a | Old(s'.heap, a)
      ensures s'.heap[a].meta.refCount > 0 || s'.heap[a].meta.isRoot || a in s'.queue
    {
      assert Old(s.heap, a) && a != x;
      if a in s.queue {
        assert a in q && s'.queue == q + s'.queue[|q|..];
      } else if s'.heap[a].meta.refCount <= 0 && !s.heap[a].meta.isRoot {
        CountedIsDropped(s.heap, x, a);
        assert a in s'.queue[|q|..];
      }
    }
  }

  lemma CountedIsDropped(h: Heap, x: Addr, a: Addr)
    requires CountsExact(h) && OldClosed(h) && Old(h, x) && Old(h, a) && h[a].meta.refCount > 0 && !h[a].meta.isRoot
    requires h[a].meta.refCount - |SlotsTo(h[x], a)| <= 0
    ensures Dropped(h, h[x], |Mask(h[x])|, a)
  {
    TakenAll(h[x], a);
    PopIsAffordable(h, x);
    assert SlotsTo(h[x], a) != {};
    var i :| i in SlotsTo(h[x], a);
    assert IsPtr(h[x], i) && h[x].slots[i] == a;
    hide CountsExact;
    hide OldClosed;
  }

  // ---- Only garbage goes

  ghost predicate RootReaches(h: Heap, a: Addr) {
    exists r :: Old(h, r) && h[r].meta.isRoot && Reach(OldGraph(h), r, a)
  }

  lemma OldEdge(h: Heap, x: Addr, y: Addr)
    requires OldClosed(h) && Old(h, x)
    ensures x in OldGraph(h)
    ensures y in OldGraph(h)[x] <==> Points(h[x], y)
  {
    KidsOfElems(h[x], OldSet(h), y);
  }

  /** What is about to be freed is reachable from no root. */
  lemma PoppedIsGarbage(s: DecState)
    requires s.queue != [] && DecInv(s)
    ensures !RootReaches(s.heap, s.queue[0])
  {
    var x := s.queue[0];
    assert x in s.queue && ExactCount(s.heap, x);
    UncountedIsUnpointed(s.heap, x);
    if RootReaches(s.heap, x) {
      var r :| Old(s.heap, r) && s.heap[r].meta.isRoot && Reach(OldGraph(s.heap), r, x);
      var w := ReachHasPredecessor(OldGraph(s.heap), r, x);
      OldEdge(s.heap, w, x);
    }
  }

  lemma OldGraphAfterFree(h: Heap, x: Addr, h': Heap, a: Addr, b: Addr)
    requires OldClosed(h) && OldClosed(h') && Old(h, x) && OnlyFreed(h, x, h') && a != x
    ensures a in OldGraph(h) && b in OldGraph(h)[a] ==> a in OldGraph(h') && b in OldGraph(h')[a]
    ensures a in OldGraph(h') && b in OldGraph(h')[a] ==> a in OldGraph(h) && b in OldGraph(h)[a]
  {
    if Old(h, a) {
      OldEdge(h, a, b);
      OldEdge(h', a, b);
      assert Mask(h[a]) == Mask(h'[a]);
      assert forall i: nat :: IsPtr(h[a], i) == IsPtr(h'[a], i);
      assert Points(h[a], b) == Points(h'[a], b);
    }
  }

  /** A path that avoids x survives the freeing of x. */
  lemma PathSurvives(h: Heap, x: Addr, h': Heap, p: seq<Addr>)
    requires OldClosed(h) && OldClosed(h') && Old(h, x) && OnlyFreed(h, x, h')
    requires IsPath(OldGraph(h), p) && x !in p
    ensures IsPath(OldGraph(h'), p)
  {
    hide OldGraph;
    forall i | 0 <= i < |p| - 1
      ensures p[i] in OldGraph(h') && p[i + 1] in OldGraph(h')[p[i]]
    {
      OldGraphAfterFree(h, x, h', p[i], p[i + 1]);
    }
  }

  /** What a root reaches is still reached after a pop. */
  lemma PopKeepsReached(s: DecState, a: Addr)
    requires s.queue != [] && DecInv(s) && RootReaches(s.heap, a)
    ensures RootReaches(DecPop(s).heap, a) && a != s.queue[0]
  {
    hide DecPop, CountsExact, SlotsTo, RootReaches, Reach, IsPath, OldGraph;
    PoppedIsGarbage(s);
    PopKeepsDecInv(s);
    var x := s.queue[0];
    assert x in s.queue;
    PopFreesExactly(s);
    var h, h' := s.heap, DecPop(s).heap;
    var p := ReachedBy(h, a);
    assert x !in p;
    PathSurvives(h, x, h', p);
    PathReaches(h', p);
  }

  /** A path from a root; the root reaches everything on it. */
  lemma ReachedBy(h: Heap, a: Addr) returns (p: seq<Addr>)
    requires RootReaches(h, a)
    ensures IsPath(OldGraph(h), p) && p[|p| - 1] == a && Old(h, p[0]) && h[p[0]].meta.isRoot
    ensures forall y <- p :: RootReaches(h, y)
  {
    hide OldGraph;
    var r :| Old(h, r) && h[r].meta.isRoot && Reach(OldGraph(h), r, a);
    p :| IsPath(OldGraph(h), p) && p[0] == r && p[|p| - 1] == a;
    forall i | 0 <= i < |p|
      ensures RootReaches(h, p[i])
    {
      PathSegment(OldGraph(h), p, 0, i);
    }
  }

  lemma PathReaches(h: Heap, p: seq<Addr>)
    requires IsPath(OldGraph(h), p) && Old(h, p[0]) && h[p[0]].meta.isRoot
    ensures RootReaches(h, p[|p| - 1])
  {
    hide OldGraph;
    assert Reach(OldGraph(h), p[0], p[|p| - 1]);
  }

  /** Type, slots and flags of a are the same in h and h', and it has not come back to life. */
  ghost predicate Intact(h: Heap, h': Heap, a: Addr) {
    && a in h && a in h'
    && h'[a].slots == h[a].slots
    && h'[a].meta == h[a].meta.(isAlloc := h'[a].meta.isAlloc, refCount := h'[a].meta.refCount)
    && (h'[a].meta.isAlloc ==> h[a].meta.isAlloc)
  }

  ghost predicate AllIntact(h: Heap, h': Heap) {
    h'.Keys == h.Keys && forall a :: a in h ==> Intact(h, h', a)
  }

  lemma IntactTrans(h: Heap, h1: Heap, h2: Heap)
    requires AllIntact(h, h1) && AllIntact(h1, h2)
    ensures AllIntact(h, h2)
  {
    forall a | a in h
      ensures Intact(h, h2, a)
    {
      assert Intact(h, h1, a) && Intact(h1, h2, a);
    }
  }

  lemma PopIsIntact(s: DecState)
    requires s.queue != [] && DecInv(s)
    ensures AllIntact(s.heap, DecPop(s).heap)
  {
    assert s.queue[0] in s.queue;
    PopFreesExactly(s);
    hide DecInv;
    hide DecPop;
    hide SlotsTo;
  }

  /** For any budget the invariant holds at the stop, and every object is intact or freed. */
  lemma {:induction false} DrainKeepsInvariant(s: DecState, budget: nat)
    requires DecInv(s)
    ensures DecInv(DecRun(s, budget))
    ensures Covered(s) ==> Covered(DecRun(s, budget))
    ensures AllIntact(s.heap, DecRun(s, budget).heap)
    decreases budget
  {
    hide DecInv;
    hide Covered;
    hide DecPop;
    if budget > 0 && s.queue != [] {
      hide AllIntact;
      PopKeepsDecInv(s);
      if Covered(s) {
        PopKeepsCovered(s);
      }
      PopIsIntact(s);
      DrainKeepsInvariant(DecPop(s), budget - 1);
      IntactTrans(s.heap, DecPop(s).heap, DecRun(s, budget).heap);
    }
  }

  lemma {:induction false} DrainKeepsReached(s: DecState, budget: nat, a: Addr)
    requires DecInv(s) && RootReaches(s.heap, a)
    ensures RootReaches(DecRun(s, budget).heap, a)
    decreases budget
  {
    hide RootReaches, DecInv, DecPop;
    if budget > 0 && s.queue != [] {
      PopKeepsReached(s, a);
      PopKeepsDecInv(s);
      DrainKeepsReached(DecPop(s), budget - 1, a);
    }
  }

  lemma PopLowersLive(s: DecState)
    requires s.queue != [] && DecInv(s)
    ensures Live(DecPop(s).heap) == Live(s.heap) - {s.queue[0]} && s.queue[0] in Live(s.heap)
    ensures |Live(DecPop(s).heap)| == |Live(s.heap)| - 1
    ensures |DecPop(s).touched| == |s.touched| + 1
  {
    assert s.queue[0] in s.queue;
    PopFreesExactly(s);
    hide DecPop;
  }

  /**
   Each iteration frees one allocated object, so none twice; a budget of the number of allocated
   objects empties the queue; and decremented_pages grows by at most the budget.
   */
  lemma {:induction false} DrainTerminates(s: DecState, budget: nat)
    requires DecInv(s)
    ensures var s' := DecRun(s, budget);
            && |Live(s.heap)| - |Live(s'.heap)| == |s'.touched| - |s.touched| <= budget
            && Live(s'.heap) <= Live(s.heap)
            && (budget >= |Live(s.heap)| ==> s'.queue == [])
    decreases budget
  {
    hide DecInv;
    hide DecPop;
    hide Live;
    if s.queue != [] {
      PopLowersLive(s);
      if budget > 0 {
        PopKeepsDecInv(s);
        DrainTerminates(DecPop(s), budget - 1);
      }
    }
  }

  /** When the queue is empty and the heap acyclic, the old objects are exactly what the roots reach. */
  lemma DrainedIsExact(s: DecState)
    requires DecInv(s) && Covered(s) && s.queue == [] && Acyclic(OldGraph(s.heap))
    ensures forall a :: Old(s.heap, a) <==> RootReaches(s.heap, a)
  {
    var g := OldGraph(s.heap);
    ObjGraphWhole(s.heap, OldSet(s.heap));
    forall a | RootReaches(s.heap, a)
      ensures Old(s.heap, a)
    {
      var r :| Old(s.heap, r) && s.heap[r].meta.isRoot && Reach(g, r, a);
      ReachIsNode(g, r, a);
    }
    var garbage := set a | a in s.heap && Old(s.heap, a) && !RootReaches(s.heap, a);
    if garbage != {} {
      AcyclicHasSource(g, garbage);
      var x :| x in garbage && !HasPredecessor(g, garbage, x);
      GarbageHasParent(s, garbage, x);
    } else {
      forall a | Old(s.heap, a)
        ensures RootReaches(s.heap, a)
      {
        assert a !in garbage;
      }
    }
  }

  lemma GarbageHasParent(s: DecState, garbage: set<Addr>, x: Addr)
    requires DecInv(s) && Covered(s) && s.queue == []
    requires garbage == set a | a in s.heap && Old(s.heap, a) && !RootReaches(s.heap, a)
    requires x in garbage
    ensures HasPredecessor(OldGraph(s.heap), garbage, x)
  {
    var g := OldGraph(s.heap);
    if s.heap[x].meta.isRoot {
      ReachSelf(g, x);
    }
    assert ExactCount(s.heap, x);
    var w, i := CountedIsPointed(s.heap, x);
    OldEdge(s.heap, w, x);
    if RootReaches(s.heap, w) {
      var r :| Old(s.heap, r) && s.heap[r].meta.isRoot && Reach(g, r, w);
      ReachEdge(g, w, x);
      ReachTrans(g, r, w, x);
    }
  }

  // ---- pending_decs_count

  ghost function QueuedOn(q: seq<Addr>, page: Addr): nat {
    if q == [] then 0
    else QueuedOn(q[..|q| - 1], page) + if PageBase(q[|q| - 1]) == page then 1 else 0
  }

  /** No page counts more pending objects than it has in the queue. */
  ghost predicate PendingWithin(pending: map<Addr, nat>, queue: seq<Addr>) {
    forall page :: CountAt(pending, page) <= QueuedOn(queue, page)
  }

  ghost predicate PendingBounded(s: DecState) {
    PendingWithin(s.pending, s.queue)
  }

  lemma {:induction false} QueuedOnFront(q: seq<Addr>, page: Addr)
    requires q != []
    ensures QueuedOn(q, page) == QueuedOn(q[1..], page) + if PageBase(q[0]) == page then 1 else 0
  {
    if |q| > 1 {
      QueuedOnFront(q[..|q| - 1], page);
      assert q[..|q| - 1][1..] == q[1..][..|q| - 2];
    }
  }

  ghost function Slack(x: Addr, page: Addr): nat {
    if PageBase(x) == page then 1 else 0
  }

  /** During a pop the bound holds with the popped object still counted in. */
  lemma {:induction false} DecNPending(s: DecState, x: Addr, n: nat, page: Addr)
    requires CountAt(s.pending, page) <= QueuedOn(s.queue, page) + Slack(x, page)
    ensures CountAt(DecN(s, x, n).pending, page) <= QueuedOn(DecN(s, x, n).queue, page) + Slack(x, page)
  {
    if n > 0 {
      DecNPending(s, x, n - 1, page);
      var s1, s2 := DecN(s, x, n - 1), DecN(s, x, n);
      if s2.queue != s1.queue {
        assert s2.queue[..|s2.queue| - 1] == s1.queue;
      }
    }
  }

  /** Every iteration keeps the bound. */
  lemma PopKeepsPendingBounded(s: DecState)
    requires s.queue != [] && DecInv(s) && PendingBounded(s)
    ensures PendingBounded(DecPop(s))
  {
    var x := s.queue[0];
    assert x in s.queue;
    var s1 := s.(queue := s.queue[1..]);
    DecNCountsDown(s1, x, |Mask(s.heap[x])|);
    hide DecInv;
    forall page
      ensures CountAt(DecPop(s).pending, page) <= QueuedOn(DecPop(s).queue, page)
    {
      QueuedOnFront(s.queue, page);
      DecNPending(s1, x, |Mask(s.heap[x])|, page);
      hide QueuedOn;
      hide DecN;
    }
  }

  lemma {:induction false} DrainKeepsPendingBounded(s: DecState, budget: nat)
    requires DecInv(s) && PendingBounded(s)
    ensures PendingBounded(DecRun(s, budget))
    decreases budget
  {
    hide DecInv, PendingBounded, DecPop;
    if budget > 0 && s.queue != [] {
      PopKeepsPendingBounded(s);
      PopKeepsDecInv(s);
      DrainKeepsPendingBounded(DecPop(s), budget - 1);
    }
  }

  lemma {:induction false} QueuedOnAppend(q: seq<Addr>, q': seq<Addr>, page: Addr)
    ensures QueuedOn(q, page) <= QueuedOn(q + q', page)
  {
    if q' == [] {
      assert q + q' == q;
    } else {
      QueuedOnAppend(q, q'[..|q'| - 1], page);
      assert (q + q')[..|q + q'| - 1] == q + q'[..|q'| - 1];
    }
  }

  /** A longer queue keeps the bound. */
  lemma PendingWithinMore(pending: map<Addr, nat>, q: seq<Addr>, q': seq<Addr>)
    requires PendingWithin(pending, q)
    ensures PendingWithin(pending, q + q')
  {
    forall page
      ensures CountAt(pending, page) <= QueuedOn(q + q', page)
    {
      QueuedOnAppend(q, q', page);
    }
  }

  // ---- The 16 bits of the count

  const UINT16_SIZE: nat := 65536

  function Bytes(page: Addr, n: nat): (r: set<Addr>)
    ensures |r| == n && forall a :: a in r <==> page <= a < page + n
  {
    if n == 0 then {} else Bytes(page, n - 1) + {page + n - 1}
  }

  ghost function OnPage(q: seq<Addr>, page: Addr): seq<Addr> {
    if q == [] then []
    else OnPage(q[..|q| - 1], page) + if PageBase(q[|q| - 1]) == page then [q[|q| - 1]] else []
  }

  lemma {:induction false} OnPageIsDistinct(q: seq<Addr>, page: Addr)
    requires Distinct(q)
    ensures Distinct(OnPage(q, page)) && |OnPage(q, page)| == QueuedOn(q, page)
    ensures forall a <- OnPage(q, page) :: a in q && PageBase(a) == page
  {
    if q != [] {
      OnPageIsDistinct(q[..|q| - 1], page);
      assert q[|q| - 1] !in q[..|q| - 1];
    }
  }

  /** A queue without duplicates holds no more objects of a page than the page has bytes. */
  lemma QueuedOnFits(q: seq<Addr>, page: Addr)
    requires Distinct(q)
    ensures QueuedOn(q, page) <= PAGE_SIZE
  {
    OnPageIsDistinct(q, page);
    hide QueuedOn, OnPage;
    forall a | a in OnPage(q, page)
      ensures a in Bytes(page, PAGE_SIZE)
    {
      assert PageBase(a) == page;
    }
    assert forall i :: 0 <= i < |OnPage(q, page)| ==> OnPage(q, page)[i] in OnPage(q, page);
    DistinctFits(OnPage(q, page), Bytes(page, PAGE_SIZE));
  }

  lemma {:induction false} QueueGrows(s: DecState, x: Addr, m: nat, n: nat)
    requires m <= n
    ensures DecN(s, x, m).queue <= DecN(s, x, n).queue
  {
    if m < n {
      QueueGrows(s, x, m, n - 1);
    }
  }

  lemma PrefixIsDistinct(q: seq<Addr>, q': seq<Addr>)
    requires q <= q' && Distinct(q')
    ensures Distinct(q)
  {
    assert forall i :: 0 <= i < |q| ==> q[i] == q'[i];
  }

  /** At no point inside an iteration does a page's pending count leave the range of its 16 bits. */
  lemma PendingNeverWraps(s: DecState, n: nat, page: Addr)
    requires s.queue != [] && s.queue[0] in s.heap && n <= |Mask(s.heap[s.queue[0]])|
    requires DecInv(s) && PendingBounded(s)
    ensures CountAt(DecN(s.(queue := s.queue[1..]), s.queue[0], n).pending, page) < UINT16_SIZE
  {
    var x := s.queue[0];
    var s1 := s.(queue := s.queue[1..]);
    assert x in s.queue;
    PopKeepsQueue(s);
    assert DecPop(s).queue == DecN(s1, x, |Mask(s.heap[x])|).queue;
    QueueGrows(s1, x, n, |Mask(s.heap[x])|);
    QueuedOnFront(s.queue, page);
    DecNPending(s1, x, n, page);
    hide DecInv, DecPop, DecN, QueuedOn;
    PrefixIsDistinct(DecN(s1, x, n).queue, DecN(s1, x, |Mask(s.heap[x])|).queue);
    QueuedOnFits(DecN(s1, x, n).queue, page);
  }
}
