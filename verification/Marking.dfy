/** The mark phase on a heap: which roots are found, what gets marked, in which order. */
module Marking {
  import opened Graph
  import opened Heap
  import opened Dfs
  import opened MarkOrder
  import opened Evacuation
  import opened EvacuationGraph

  ghost function NotRootable(h: Heap): set<Addr> {
    set x | x in h && !ShouldProcessAsRoot(h[x].meta)
  }

  /** The roots found while scanning the candidate objects, in discovery order. */
  ghost function FoundRoots(h: Heap, objs: seq<Addr>): seq<Addr> {
    FirstVisits(objs, NotRootable(h))
  }

  ghost function WithRoots(h: Heap, roots: set<Addr>): Heap {
    map a | a in h :: h[a].(meta := h[a].meta.(isRoot := h[a].meta.isRoot || a in roots))
  }

  ghost function WithMarks(h: Heap, marked: set<Addr>): Heap {
    map a | a in h :: h[a].(meta := h[a].meta.(isMarked := h[a].meta.isMarked || a in marked))
  }

  /** The young ones of a list, in order. */
  ghost function YoungAmong(h: Heap, s: seq<Addr>): seq<Addr> {
    if s == [] then []
    else
      var r := YoungAmong(h, s[..|s| - 1]);
      var x := s[|s| - 1];
      if x in Young(h) then r + [x] else r
  }

  ghost function YoungGraph(h: Heap): Graph {
    ObjGraph(h, Young(h))
  }

  lemma {:induction false} YoungAmongElems(h: Heap, s: seq<Addr>)
    ensures forall x :: x in YoungAmong(h, s) <==> x in s && x in Young(h)
  {
    if s != [] {
      YoungAmongElems(h, s[..|s| - 1]);
      assert s == s[..|s| - 1] + [s[|s| - 1]];
    }
  }

  lemma PendingRootsAreNodes(h: Heap, objs: seq<Addr>)
    ensures Whole(YoungGraph(h)) && Nodes(YoungGraph(h), YoungAmong(h, FoundRoots(h, objs)))
  {
    ObjGraphWhole(h, Young(h));
    YoungAmongElems(h, FoundRoots(h, objs));
  }

  /** The pending-young list after the mark phase. */
  ghost function PendingYoung(h: Heap, objs: seq<Addr>): seq<Addr> {
    PendingRootsAreNodes(h, objs);
    VisitOrder(YoungGraph(h), YoungAmong(h, FoundRoots(h, objs)))
  }

  /** The heap after the mark phase. */
  ghost function MarkedHeap(h: Heap, objs: seq<Addr>): Heap {
    WithMarks(WithRoots(h, Elems(FoundRoots(h, objs))), Elems(PendingYoung(h, objs)))
  }

  // ---- The heap between collections, as far as marking needs it

  ghost predicate NoFlags(h: Heap) {
    forall a :: a in h && h[a].meta.isAlloc ==> !h[a].meta.isRoot && !h[a].meta.isMarked
  }

  ghost predicate YoungIsAlloc(h: Heap) {
    forall a :: a in h && h[a].meta.isYoung ==> h[a].meta.isAlloc
  }

  ghost predicate WfHeap(h: Heap) {
    forall a :: a in h && h[a].meta.isAlloc ==> WfObject(h[a])
  }

  /** Candidates resolve to entries of known pages. */
  ghost predicate Candidates(h: Heap, objs: seq<Addr>) {
    forall o :: o in objs ==> o in h
  }

  ghost predicate MutatorHeap(h: Heap) {
    NoFlags(h) && YoungIsAlloc(h) && WfHeap(h) && ClosedHeap(h) && Unforwarded(h)
  }

  /** Roots are exactly the allocated candidates, each found once. */
  lemma FoundRootsExactly(h: Heap, objs: seq<Addr>)
    requires NoFlags(h) && Candidates(h, objs)
    ensures Distinct(FoundRoots(h, objs))
    ensures forall x :: x in FoundRoots(h, objs) <==> x in objs && h[x].meta.isAlloc
  {
    FirstVisitsElems(objs, NotRootable(h));
  }

  /** Marking changes nothing but the root and mark flags. */
  lemma MarkedObject(h: Heap, objs: seq<Addr>, a: Addr)
    requires MutatorHeap(h) && Candidates(h, objs) && a in h && h[a].meta.isAlloc
    ensures a in MarkedHeap(h, objs) && MarkedHeap(h, objs)[a] == h[a].(meta :=
              h[a].meta.(isRoot := a in FoundRoots(h, objs), isMarked := a in PendingYoung(h, objs)))
  {
    hide FirstVisits;
    hide VisitOrder;
  }

  ghost predicate SameButFlags(m: MetaData, m': MetaData) {
    m' == m.(isRoot := m'.isRoot, isMarked := m'.isMarked)
  }

  lemma MarkedKeys(h: Heap, objs: seq<Addr>)
    ensures MarkedHeap(h, objs).Keys == h.Keys
    ensures forall a :: a in h ==> MarkedHeap(h, objs)[a].slots == h[a].slots
    ensures forall a :: a in h ==> SameButFlags(h[a].meta, MarkedHeap(h, objs)[a].meta)
  {
    hide FirstVisits;
    hide VisitOrder;
  }

  /** Pending young objects are exactly the young ones that young roots reach through young objects. */
  lemma PendingYoungExactly(h: Heap, objs: seq<Addr>)
    requires MutatorHeap(h) && Candidates(h, objs)
    ensures Distinct(PendingYoung(h, objs))
    ensures forall x :: x in PendingYoung(h, objs)
              <==> FromSome(YoungGraph(h), YoungAmong(h, FoundRoots(h, objs)), x)
    ensures forall x :: x in PendingYoung(h, objs) ==> x in Young(h)
  {
    PendingRootsAreNodes(h, objs);
    ObjGraphWhole(h, Young(h));
    VisitOrderIsExact(YoungGraph(h), YoungAmong(h, FoundRoots(h, objs)));
  }

  lemma YoungEdge(h: Heap, x: Addr, y: Addr)
    requires x in h && x in Young(h)
    ensures x in YoungGraph(h)
    ensures y in YoungGraph(h)[x] <==> y in Young(h) && Points(h[x], y)
  {
    KidsOfElems(h[x], Young(h), y);
  }

  lemma SamePoints(o: Object, o': Object, y: Addr)
    requires o.slots == o'.slots && o.meta.typ == o'.meta.typ
    ensures Points(o, y) == Points(o', y)
    ensures forall i: nat :: IsPtr(o, i) == IsPtr(o', i)
  {
    assert Mask(o) == Mask(o');
    assert forall i: nat :: IsPtr(o, i) == IsPtr(o', i);
  }

  lemma MarkedEdge(h: Heap, objs: seq<Addr>, x: Addr, y: Addr)
    requires MutatorHeap(h) && Candidates(h, objs) && x in h && x in Young(h)
    ensures x in MarkedHeap(h, objs) && x in YoungGraph(h)
    ensures Points(MarkedHeap(h, objs)[x], y) == Points(h[x], y)
    ensures y in YoungGraph(h)[x] <==> y in Young(h) && Points(h[x], y)
  {
    hide FirstVisits;
    hide VisitOrder;
    hide Points;
    YoungEdge(h, x, y);
    MarkedKeys(h, objs);
    SamePoints(h[x], MarkedHeap(h, objs)[x], y);
  }

  /** The list holds the young children of its members. */
  lemma PendingIsClosed(h: Heap, objs: seq<Addr>)
    requires MutatorHeap(h) && Candidates(h, objs)
    ensures ListClosed(MarkedHeap(h, objs), PendingYoung(h, objs))
  {
    PendingYoungExactly(h, objs);
    hide PendingYoung;
    hide MarkedHeap;
    hide Points;
    MarkedKeys(h, objs);
    var h1 := MarkedHeap(h, objs);
    forall x, y | x in PendingYoung(h, objs) && x in h1 && Points(h1[x], y) && y in Young(h1)
      ensures y in PendingYoung(h, objs)
    {
      MarkedEdge(h, objs, x, y);
      KidFromSome(YoungGraph(h), YoungAmong(h, FoundRoots(h, objs)), x, y);
    }
  }

  /** A listed object that is not a root is pointed to by a listed one. */
  lemma PendingHasParent(h: Heap, objs: seq<Addr>, x: Addr) returns (p: Addr)
    requires MutatorHeap(h) && Candidates(h, objs)
    requires x in PendingYoung(h, objs) && x !in FoundRoots(h, objs)
    ensures p in PendingYoung(h, objs) && p in h && p in Young(h) && Points(h[p], x)
  {
    hide Reach;
    PendingYoungExactly(h, objs);
    hide PendingYoung;
    var rs := YoungAmong(h, FoundRoots(h, objs));
    var r :| r in rs && Reach(YoungGraph(h), r, x);
    YoungAmongElems(h, FoundRoots(h, objs));
    p := ReachHasPredecessor(YoungGraph(h), r, x);
    assert FromSome(YoungGraph(h), rs, p);
    YoungEdge(h, p, x);
  }

  lemma PendingIsParented(h: Heap, objs: seq<Addr>)
    requires MutatorHeap(h) && Candidates(h, objs)
    ensures Parented(MarkedHeap(h, objs), PendingYoung(h, objs))
  {
    PendingYoungExactly(h, objs);
    hide PendingYoung;
    hide FoundRoots;
    hide MarkedHeap;
    hide Points;
    MarkedKeys(h, objs);
    var h1 := MarkedHeap(h, objs);
    forall x | x in PendingYoung(h, objs) && !RootAt(h1, x)
      ensures exists p :: p in PendingYoung(h, objs) && p in h1 && Points(h1[p], x)
    {
      assert x in Young(h);
      MarkedObject(h, objs, x);
      var p := PendingHasParent(h, objs, x);
      MarkedEdge(h, objs, p, x);
    }
  }

  lemma MarkedListIsYoung(h: Heap, objs: seq<Addr>)
    requires MutatorHeap(h) && Candidates(h, objs)
    ensures OrderedYoung(MarkedHeap(h, objs), PendingYoung(h, objs))
  {
    PendingYoungExactly(h, objs);
    MarkedKeys(h, objs);
    hide MarkedHeap;
    hide PendingYoung;
    forall x | x in PendingYoung(h, objs)
      ensures x in h && h[x].meta.isAlloc && h[x].meta.isYoung && WfObject(h[x])
    {
      assert x in Young(h);
    }
    hide MutatorHeap;
  }

  lemma MarkedHeapClosed(h: Heap, objs: seq<Addr>)
    requires ClosedHeap(h) && Unforwarded(h)
    ensures ClosedHeap(MarkedHeap(h, objs)) && Unforwarded(MarkedHeap(h, objs))
  {
    MarkedKeys(h, objs);
    hide MarkedHeap;
    var h1 := MarkedHeap(h, objs);
    forall x, i: nat | x in h1 && h1[x].meta.isAlloc && IsPtr(h1[x], i)
      ensures h1[x].slots[i] in h1 && h1[h1[x].slots[i]].meta.isAlloc
    {
      assert IsPtr(h[x], i);
    }
  }

  /** The marked heap and the list are fit for evacuation, given enough free entries. */
  lemma MarkingReadies(h: Heap, objs: seq<Addr>, supply: seq<Addr>)
    requires MutatorHeap(h) && Candidates(h, objs) && FreeEntries(h, supply)
    requires |PendingYoung(h, objs)| <= |supply| && |PendingYoung(h, objs)| <= BSQ_MAX_FWD_TABLE_ENTRIES
    ensures EvacReady(MarkedHeap(h, objs), PendingYoung(h, objs), supply)
  {
    hide MarkedHeap;
    hide PendingYoung;
    hide ClosedHeap;
    hide Unforwarded;
    hide OrderedYoung;
    MarkedListIsYoung(h, objs);
    MarkedHeapClosed(h, objs);
    MarkedKeys(h, objs);
    RankBound(MarkedHeap(h, objs), PendingYoung(h, objs), |PendingYoung(h, objs)|);
  }

  lemma {:induction false} RankBound(h: Heap, order: seq<Addr>, k: nat)
    requires k <= |order|
    ensures Rank(h, order, k) <= k
  {
    if k > 0 {
      RankBound(h, order, k - 1);
    }
  }

  // ---- When what moves comes first

  /** What moves first is what comes before its parents, roots excepted. */
  lemma MovedFirstIsOrder(h: Heap, objs: seq<Addr>)
    requires MutatorHeap(h) && Candidates(h, objs)
    ensures MovedFirst(MarkedHeap(h, objs), PendingYoung(h, objs))
       <==> ChildrenFirstBut(YoungGraph(h), PendingYoung(h, objs), Elems(FoundRoots(h, objs)))
  {
    hide PendingYoung, MarkedHeap, FoundRoots, Points, YoungGraph, RootAt, MovedFirst, ChildrenFirstBut;
    var order := PendingYoung(h, objs);
    forall x, y | x in order
      ensures x in MarkedHeap(h, objs) && x in YoungGraph(h)
      ensures Points(MarkedHeap(h, objs)[x], y) && y in order <==> y in YoungGraph(h)[x]
      ensures y in order ==> RootAt(MarkedHeap(h, objs), y) == (y in FoundRoots(h, objs))
    {
      PendingEdge(h, objs, x, y);
    }
    SameOrder(MarkedHeap(h, objs), order, YoungGraph(h), FoundRoots(h, objs));
  }

  lemma SameOrder(h: Heap, order: seq<Addr>, g: Graph, roots: seq<Addr>)
    requires forall x <- order :: x in h && x in g
    requires forall x, y :: x in order ==> (Points(h[x], y) && y in order <==> y in g[x])
    requires forall y <- order :: RootAt(h, y) == (y in roots)
    ensures MovedFirst(h, order) <==> ChildrenFirstBut(g, order, Elems(roots))
  {
    hide Points, RootAt;
    forall j, y | 0 <= j < |order|
      ensures Points(h[order[j]], y) && y in order && !RootAt(h, y) <==> y in g[order[j]] && y !in Elems(roots)
    {
      assert order[j] in order;
    }
  }

  /** Edges and roots of the young graph, read off the marked heap along the list. */
  lemma PendingEdge(h: Heap, objs: seq<Addr>, x: Addr, y: Addr)
    requires MutatorHeap(h) && Candidates(h, objs) && x in PendingYoung(h, objs)
    ensures x in MarkedHeap(h, objs) && x in YoungGraph(h)
    ensures Points(MarkedHeap(h, objs)[x], y) && y in PendingYoung(h, objs) <==> y in YoungGraph(h)[x]
    ensures y in PendingYoung(h, objs) ==> RootAt(MarkedHeap(h, objs), y) == (y in FoundRoots(h, objs))
  {
    hide ListClosed, PendingYoung, MarkedHeap, FoundRoots, Points;
    PendingYoungExactly(h, objs);
    PendingIsClosed(h, objs);
    MarkedKeys(h, objs);
    MarkedEdge(h, objs, x, y);
    if y in YoungGraph(h)[x] {
      ListClosedAt(MarkedHeap(h, objs), PendingYoung(h, objs), x, y);
    }
    if y in PendingYoung(h, objs) {
      MarkedObject(h, objs, y);
    }
  }

  lemma ListClosedAt(h: Heap, order: seq<Addr>, x: Addr, y: Addr)
    requires ListClosed(h, order) && x in order && x in h && Points(h[x], y) && y in Young(h)
    ensures y in order
  {
  }

  ghost predicate GoodOrder(h: Heap, objs: seq<Addr>) {
    MovedFirst(MarkedHeap(h, objs), PendingYoung(h, objs))
  }

  lemma SiblingOrderSuffices(h: Heap, objs: seq<Addr>)
    requires MutatorHeap(h) && Candidates(h, objs)
    requires Acyclic(YoungGraph(h)) && SiblingOrdered(YoungGraph(h))
    ensures GoodOrder(h, objs)
  {
    hide Acyclic;
    hide SiblingOrdered;
    var g := YoungGraph(h);
    PendingRootsAreNodes(h, objs);
    var rs := YoungAmong(h, FoundRoots(h, objs));
    WalkIsChildrenFirst(g, rs, |rs|);
    MovedFirstIsOrder(h, objs);
    hide MarkedHeap;
    hide MovedFirst;
    assert ChildrenFirst(g, PendingYoung(h, objs));
    hide PendingYoung;
    hide YoungGraph;
  }

  lemma SingleRoot(h: Heap, x: Addr)
    requires MutatorHeap(h) && x in Young(h)
    ensures FoundRoots(h, [x]) == [x] && YoungAmong(h, [x]) == [x]
    ensures Whole(YoungGraph(h)) && Nodes(YoungGraph(h), [x]) && PendingYoung(h, [x]) == VisitOrder(YoungGraph(h), [x])
  {
    assert x !in NotRootable(h);
    assert [x][..0] == [];
    assert FirstVisits([x], NotRootable(h)) == [x];
    assert YoungAmong(h, [x][..0]) == [];
    PendingRootsAreNodes(h, [x]);
  }

  /** A badly ordered parent, taken as the only root, spoils the order. */
  lemma BadParentFails(h: Heap, x: Addr, i: nat, j: nat)
    requires MutatorHeap(h) && Acyclic(YoungGraph(h)) && x in Young(h) && x in YoungGraph(h)
    requires i < j && FirstSlot(YoungGraph(h)[x], j) && Reach(YoungGraph(h), YoungGraph(h)[x][j], YoungGraph(h)[x][i])
    ensures Candidates(h, [x]) && !GoodOrder(h, [x])
  {
    hide Acyclic;
    hide Reach;
    hide ChildrenFirstBut;
    hide MarkedHeap;
    SingleRoot(h, x);
    SiblingBreaksOrder(YoungGraph(h), x, i, j);
    hide YoungGraph;
    hide MovedFirst;
    hide PendingYoung;
    assert Candidates(h, [x]);
    MovedFirstIsOrder(h, [x]);
    assert Elems([x]) == {x};
  }

  lemma SiblingDisorderFails(h: Heap)
    requires MutatorHeap(h) && Acyclic(YoungGraph(h)) && !SiblingOrdered(YoungGraph(h))
    ensures exists x :: Candidates(h, [x]) && !GoodOrder(h, [x])
  {
    hide MutatorHeap;
    hide Acyclic;
    hide Reach;
    hide GoodOrder;
    var g := YoungGraph(h);
    var x, i: nat, j: nat :| x in g && i < j && FirstSlot(g[x], j) && Reach(g, g[x][j], g[x][i]);
    assert x in Young(h);
    BadParentFails(h, x, i, j);
  }

  /**
   In an acyclic young heap, marking hands evacuation a good order for every set of roots
   exactly when no child is reachable from a different child in a later slot.
   */
  lemma GoodOrderExactly(h: Heap)
    requires MutatorHeap(h) && Acyclic(YoungGraph(h))
    ensures SiblingOrdered(YoungGraph(h)) <==> forall objs :: Candidates(h, objs) ==> GoodOrder(h, objs)
  {
    hide SiblingOrdered;
    hide Acyclic;
    hide GoodOrder;
    if SiblingOrdered(YoungGraph(h)) {
      forall objs | Candidates(h, objs)
        ensures GoodOrder(h, objs)
      {
        SiblingOrderSuffices(h, objs);
      }
    } else {
      SiblingDisorderFails(h);
    }
  }
}
