/** One iteration of each collector loop, on values. */
module CollectorSteps {
  import opened Graph
  import opened Heap
  import opened Dfs
  import opened MarkOrder
  import opened Layout
  import opened Evacuation
  import opened EvacuationShape
  import opened EvacuationCounts
  import opened EvacuationGraph
  import opened Marking
  import opened Decrements
  import opened Draining
  import opened Collection
  import Sorting

  /** The objects that the candidate words resolve to, in order. */
  ghost function ResolvedObjs(pages: map<Addr, nat>, canary: nat, words: seq<Word>): seq<Addr>
    requires forall p :: p in pages ==> pages[p] > 0
  {
    if words == [] then []
    else
      var r := ResolvedObjs(pages, canary, words[..|words| - 1]);
      match Resolve(pages, canary, words[|words| - 1])
      case NotAPointer => r
      case Object(o) => r + [o]
  }

  /** FirstVisits of a longer list extends that of a shorter one. */
  lemma {:induction false} FirstVisitsPrefix(kids: seq<Node>, marked: set<Node>, n: nat)
    requires n <= |kids|
    ensures FirstVisits(kids[..n], marked) <= FirstVisits(kids, marked)
  {
    if n < |kids| {
      FirstVisitsPrefix(kids[..|kids| - 1], marked, n);
      assert kids[..|kids| - 1][..n] == kids[..n];
    } else {
      assert kids[..n] == kids;
    }
  }

  lemma FirstVisitsSnoc(kids: seq<Node>, y: Node, marked: set<Node>)
    ensures FirstVisits(kids + [y], marked)
      == if y in marked || y in FirstVisits(kids, marked) then FirstVisits(kids, marked)
          else FirstVisits(kids, marked) + [y]
  {
    assert (kids + [y])[..|kids|] == kids;
  }

  lemma {:induction false} ResolvedPrefix(pages: map<Addr, nat>, canary: nat, words: seq<Word>, k: nat)
    requires (forall p :: p in pages ==> pages[p] > 0) && k <= |words|
    ensures ResolvedObjs(pages, canary, words[..k]) <= ResolvedObjs(pages, canary, words)
  {
    if k < |words| {
      ResolvedPrefix(pages, canary, words[..|words| - 1], k);
      assert words[..|words| - 1][..k] == words[..k];
    } else {
      assert words[..k] == words;
    }
  }

  // ---- Steps of the marking loops, on values

  /** One more word: it resolves to nothing, or to one more known object. */
  lemma ScanWord(pages: map<Addr, nat>, canary: nat, words: seq<Word>, k: nat, h: Heap)
    requires (forall p :: p in pages ==> pages[p] > 0) && k < |words|
    requires Candidates(h, ResolvedObjs(pages, canary, words))
    ensures var objs, objs' := ResolvedObjs(pages, canary, words[..k]), ResolvedObjs(pages, canary, words[..k + 1]);
            match Resolve(pages, canary, words[k])
            case NotAPointer => objs' == objs
            case Object(o) =>
              (objs' == objs + [o] && o in h
               && |FoundRoots(h, objs')| <= |FoundRoots(h, ResolvedObjs(pages, canary, words))|)
  {
    var all := ResolvedObjs(pages, canary, words);
    var objs' := ResolvedObjs(pages, canary, words[..k + 1]);
    assert words[..k + 1][..k] == words[..k];
    ResolvedPrefix(pages, canary, words, k + 1);
    if Resolve(pages, canary, words[k]).Object? {
      assert objs'[|objs'| - 1] == all[|objs'| - 1];
      assert all[|objs'| - 1] in all;
      assert all[..|objs'|] == objs';
      FirstVisitsPrefix(all, NotRootable(h), |objs'|);
    }
  }

  /** One decremented slot, as the code writes it. */
  lemma DecrementStep(s: DecState, x: Addr, i: nat)
    requires x in s.heap && i < |Mask(s.heap[x])| <= |s.heap[x].slots|
             && (IsPtr(s.heap[x], i) ==> s.heap[x].slots[i] in s.heap)
    ensures var d := DecN(s, x, i); var t := s.heap[x].slots[i];
            if IsPtrWord(Mask(s.heap[x])[i], t) then
              t in d.heap && DecN(s, x, i + 1) == CountDown(d, t)
            else DecN(s, x, i + 1) == d
  {
    DecrementingSees(s, x, i);
    var d := DecN(s, x, i);
    assert IsPtr(d.heap[x], i) == IsPtr(s.heap[x], i);
    hide Taken;
  }

  ghost function CountDown(d: DecState, t: Addr): DecState
    requires t in d.heap
  {
    var h := d.heap[t := d.heap[t].(meta := d.heap[t].meta.(refCount := d.heap[t].meta.refCount - 1))];
    if h[t].meta.refCount == 0 && !h[t].meta.isRoot then
      d.(heap := h, queue := d.queue + [t], pending := d.pending[PageBase(t) := CountAt(d.pending, PageBase(t)) + 1])
    else d.(heap := h)
  }

  lemma ScanStep(h: Heap, objs: seq<Addr>, o: Addr)
    requires o in h
    ensures var f := FoundRoots(h, objs); var hk := WithRoots(h, Elems(f));
            var isNew := ShouldProcessAsRoot(hk[o].meta);
            && FoundRoots(h, objs + [o]) == (if isNew then f + [o] else f)
            && (isNew ==> WithRoots(h, Elems(f + [o])) == hk[o := hk[o].(meta := hk[o].meta.(isRoot := true))])
            && (isNew ==> YoungAmong(h, f + [o]) == YoungAmong(h, f) + if h[o].meta.isYoung then [o] else [])
  {
    FirstVisitsSnoc(objs, o, NotRootable(h));
    var f := FoundRoots(h, objs);
    assert (f + [o])[..|f|] == f;
    hide FirstVisits;
  }

  ghost predicate NoMarks(h: Heap) {
    forall a :: a in h && h[a].meta.isYoung ==> !h[a].meta.isMarked
  }

  lemma MarkStep(h: Heap, marked: set<Addr>, y: Addr)
    requires NoMarks(h) && y in h
    ensures var hk := WithMarks(h, marked);
            && (ShouldVisit(hk[y].meta) <==> y in Young(h) && y !in marked)
            && WithMarks(h, marked + {y}) == hk[y := hk[y].(meta := hk[y].meta.(isMarked := true))]
  {
  }

  /** What slot i adds to the children pushed so far. */
  lemma PushStep(o: Object, i: nat, nodes: set<Addr>, marked: set<Addr>)
    ensures var f := FirstVisits(KidsUpTo(o, i, nodes), marked);
            var push := IsPtr(o, i) && o.slots[i] in nodes && o.slots[i] !in marked && o.slots[i] !in f;
            FirstVisits(KidsUpTo(o, i + 1, nodes), marked) == if push then f + [o.slots[i]] else f
  {
    if IsPtr(o, i) && o.slots[i] in nodes {
      FirstVisitsSnoc(KidsUpTo(o, i, nodes), o.slots[i], marked);
    }
  }

  /** Handling slot i: the child is pushed exactly if the metadata says so. */
  lemma PushChildStep(h: Heap, o: Object, i: nat, marked: set<Addr>, kids: seq<Addr>)
    requires NoMarks(h) && kids == FirstVisits(KidsUpTo(o, i, Young(h)), marked) && IsPtr(o, i) && o.slots[i] in h
    ensures var hk := WithMarks(h, marked + Elems(kids)); var t := o.slots[i];
            if ShouldVisit(hk[t].meta) then
              && FirstVisits(KidsUpTo(o, i + 1, Young(h)), marked) == kids + [t]
              && Greys(kids + [t]) == Greys(kids) + [Entry(t, Grey)]
              && WithMarks(h, marked + Elems(kids + [t])) == hk[t := hk[t].(meta := hk[t].meta.(isMarked := true))]
            else FirstVisits(KidsUpTo(o, i + 1, Young(h)), marked) == kids
  {
    PushStep(o, i, Young(h), marked);
    MarkStep(h, marked + Elems(kids), o.slots[i]);
    GreysSnoc(kids, o.slots[i]);
    hide WithMarks;
    hide FirstVisits;
    assert marked + Elems(kids + [o.slots[i]]) == marked + Elems(kids) + {o.slots[i]};
  }

  lemma PushNothing(h: Heap, o: Object, marked: set<Addr>)
    ensures FirstVisits(KidsUpTo(o, 0, Young(h)), marked) == [] && Greys([]) == []
    ensures WithMarks(h, marked + Elems([])) == WithMarks(h, marked)
  {
    assert marked + Elems([]) == marked;
  }

  lemma MarksKeepKeys(h: Heap, marked: set<Addr>)
    ensures WithMarks(h, marked).Keys == h.Keys
    ensures forall a :: a in h ==> WithMarks(h, marked)[a].meta.typ == h[a].meta.typ
  {
  }

  /** An object read while marks are being set is the object of the unmarked heap. */
  lemma ReadsThrough(h: Heap, marked: set<Addr>, x: Addr)
    requires Readable(h) && x in h && h[x].meta.isYoung
    ensures var o := WithMarks(h, marked)[x];
            o.slots == h[x].slots && Mask(o) == Mask(h[x]) && |Mask(o)| <= |o.slots|
    ensures forall i: nat | i < |Mask(h[x])| :: IsPtr(h[x], i) == IsPtrWord(Mask(h[x])[i], h[x].slots[i])
    ensures forall i: nat :: IsPtr(h[x], i) ==> h[x].slots[i] in h
  {
  }

  lemma GreysSnoc(kids: seq<Node>, y: Node)
    ensures Greys(kids + [y]) == Greys(kids) + [Entry(y, Grey)]
    ensures Elems(kids + [y]) == Elems(kids) + {y}
  {
  }

  /** What the phases need to read: typed young objects whose pointers lead to known entries. */
  ghost predicate Readable(h: Heap) {
    forall x :: x in h && h[x].meta.isYoung ==>
      WfObject(h[x]) && forall i: nat :: IsPtr(h[x], i) ==> h[x].slots[i] in h
  }

  lemma VisitStep(g: Graph, s: Visit)
    requires Wf(g, s) && s.stack != []
    ensures Wf(g, Step(g, s)) && Run(g, s) == Run(g, Step(g, s)) && Measure(g, Step(g, s)) < Measure(g, s)
  {
    StepWf(g, s);
    StepDecreases(g, s);
  }

  lemma VisitEnds(g: Graph, s: Visit)
    requires Wf(g, s) && s.stack == []
    ensures Run(g, s) == s
  {
  }

  /** The pushed entries are what Step pushes. */
  lemma ExpandStep(h: Heap, s: Visit, kids: seq<Addr>)
    requires Wf(YoungGraph(h), s) && s.stack != [] && Top(s).color == Grey
    requires kids == FirstVisits(KidsOf(h[Top(s).obj], Young(h)), s.marked)
    ensures Step(YoungGraph(h), s)
         == Visit(s.marked + Elems(kids), Pop(s) + [Entry(Top(s).obj, Black)] + Greys(kids), s.out)
  {
    hide FirstVisits;
  }

  /** Expanding an object without pointer slots and popping it again just emits it. */
  lemma LeafStep(h: Heap, s: Visit)
    requires Wf(YoungGraph(h), s) && s.stack != [] && Top(s).color == Grey && Mask(h[Top(s).obj]) == ""
    ensures var g := YoungGraph(h); var s' := Visit(s.marked, Pop(s), s.out + [Top(s).obj]);
            Wf(g, s') && Run(g, s) == Run(g, s') && Measure(g, s') < Measure(g, s)
  {
    var g := YoungGraph(h);
    assert Kids(g, s) == [];
    var s1 := Step(g, s);
    StepWf(g, s);
    StepDecreases(g, s);
    assert s1 == Visit(s.marked, Pop(s) + [Entry(Top(s).obj, Black)], s.out);
    StepWf(g, s1);
    StepDecreases(g, s1);
    assert Step(g, s1) == Visit(s.marked, Pop(s), s.out + [Top(s).obj]);
  }

  /** Flagging roots leaves the heap readable and its young graph unchanged. */
  lemma RootedHeap(h: Heap, objs: seq<Addr>)
    requires NoMarks(h) && Readable(h)
    ensures var found := FoundRoots(h, objs); var hr := WithRoots(h, Elems(found));
            && NoMarks(hr) && Readable(hr) && hr.Keys == h.Keys
            && YoungGraph(hr) == YoungGraph(h) && Young(hr) == Young(h)
            && Whole(YoungGraph(hr)) && Nodes(YoungGraph(hr), YoungAmong(h, found)) && YoungGraph(hr).Keys == Young(hr)
  {
    var found := FoundRoots(h, objs);
    var hr := WithRoots(h, Elems(found));
    hide FoundRoots;
    assert Young(hr) == Young(h);
    forall x | x in Young(h)
      ensures KidsOf(hr[x], Young(h)) == KidsOf(h[x], Young(h))
    {
      SameKids(h[x], hr[x], |Mask(h[x])|, Young(h));
    }
    forall x, i: nat | x in hr && hr[x].meta.isYoung && IsPtr(hr[x], i)
      ensures hr[x].slots[i] in hr
    {
      assert IsPtr(h[x], i);
    }
    hide KidsOf;
    ObjGraphWhole(hr, Young(hr));
    YoungAmongElems(h, found);
  }

  lemma WalkStep(g: Graph, rs: seq<Addr>, k: nat)
    requires Whole(g) && Nodes(g, rs) && k < |rs|
    ensures Wf(g, Start(Walk(g, rs, k), rs[k]))
    ensures rs[k] in Walk(g, rs, k).marked ==> Walk(g, rs, k + 1) == Walk(g, rs, k)
    ensures rs[k] !in Walk(g, rs, k).marked ==> Walk(g, rs, k + 1) == Run(g, Start(Walk(g, rs, k), rs[k]))
  {
  }

  lemma NoneMarkedYet(h: Heap)
    ensures WithMarks(h, {}) == h
  {
  }

  lemma WalkEnds(h: Heap, objs: seq<Addr>, marked: set<Addr>, out: seq<Addr>)
    requires Whole(YoungGraph(h)) && Nodes(YoungGraph(h), YoungAmong(h, FoundRoots(h, objs)))
    requires var rs := YoungAmong(h, FoundRoots(h, objs)); Visit(marked, [], out) == Walk(YoungGraph(h), rs, |rs|)
    ensures out == PendingYoung(h, objs)
    ensures WithMarks(WithRoots(h, Elems(FoundRoots(h, objs))), marked) == MarkedHeap(h, objs)
  {
    VisitOrderIsExact(YoungGraph(h), YoungAmong(h, FoundRoots(h, objs)));
    hide FoundRoots;
    hide YoungGraph;
    hide WithMarks;
    hide WithRoots;
  }

  // ---- Evacuation

  /** Every pointer slot of x can be read, forwarded and counted. */
  ghost predicate Forwardable(h: Heap, fwd: seq<Addr>, x: Addr) {
    && x in h && |Mask(h[x])| <= |h[x].slots| && ForwardsInto(h, fwd, x)
    && forall i: nat :: IsPtr(h[x], i) ==> FwdIndexOk(h, fwd, h[x].slots[i])
  }

  ghost predicate FwdIndexOk(h: Heap, fwd: seq<Addr>, t: Addr) {
    t in h && (h[t].meta.forwardIndex == MAX_FWD_INDEX || h[t].meta.forwardIndex < |fwd|)
  }

  /** After n slots, slot n still reads as it did at the start. */
  lemma UpdatingSees(h: Heap, fwd: seq<Addr>, x: Addr, n: nat)
    requires Forwardable(h, fwd, x) && n < |Mask(h[x])|
    ensures var h1 := UpdateN(h, fwd, x, n);
            && h1.Keys == h.Keys && |h1[x].slots| == |h[x].slots| && Mask(h1[x]) == Mask(h[x])
            && h1[x].slots[n] == h[x].slots[n]
            && (IsPtr(h[x], n) ==> FwdIndexOk(h1, fwd, h[x].slots[n]) && FwdOf(h1, fwd, h[x].slots[n]) in h1)
  {
    UpdateNExactly(h, fwd, x, n);
    var h1 := UpdateN(h, fwd, x, n);
    SlotSeen(h, fwd, x, n, h1);
    hide Inc;
    assert CountedFrom(h[x].meta, h1[x].meta, |Inc(h, fwd, x, n, x)|);
    if IsPtr(h[x], n) {
      var t := h[x].slots[n];
      assert CountedFrom(h[t].meta, h1[t].meta, |Inc(h, fwd, x, n, t)|);
    }
  }

  lemma EvacFwdIndexOk(h: Heap, order: seq<Addr>, supply: seq<Addr>, k: nat, s: EvacState, t: Addr)
    requires EvacReady(h, order, supply) && k <= |order| && EvacShape(h, order, supply, k, s)
    requires t in h && h[t].meta.isAlloc
    ensures FwdIndexOk(s.heap, s.fwd, t) && FwdOf(s.heap, s.fwd, t) in s.heap
  {
    FwdIsImg(h, order, supply, k, s, t);
    if t in order[..k] {
      var j := Position(order[..k], t);
      assert Done(h, order, supply, j, s.heap);
      RankMonotone(h, order, j, k);
    } else {
      assert forall y :: y in s.fwd ==> y in supply;
      assert SameButCount(h[t], s.heap[t]);
    }
  }

  lemma RootIsForwardable(h: Heap, order: seq<Addr>, supply: seq<Addr>, k: nat, s: EvacState)
    requires EvacReady(h, order, supply) && k < |order| && EvacShape(h, order, supply, k, s)
    ensures Forwardable(s.heap, s.fwd, order[k])
  {
    PendingUntouched(h, order, supply, k, s);
    var x := order[k];
    assert x in order && WfObject(h[x]);
    forall i: nat | IsPtr(s.heap[x], i)
      ensures FwdIndexOk(s.heap, s.fwd, s.heap[x].slots[i]) && FwdOf(s.heap, s.fwd, s.heap[x].slots[i]) in s.heap
    {
      assert IsPtr(h[x], i);
      EvacFwdIndexOk(h, order, supply, k, s, h[x].slots[i]);
    }
    hide EvacReady;
    hide EvacShape;
  }

  lemma CopyIsForwardable(h: Heap, order: seq<Addr>, supply: seq<Addr>, k: nat, s: EvacState)
    requires EvacReady(h, order, supply) && k < |order| && EvacShape(h, order, supply, k, s) && !RootAt(h, order[k])
    ensures |s.fwd| < |supply| && order[k] in s.heap && supply[|s.fwd|] in s.heap && supply[|s.fwd|] != order[k]
    ensures Forwardable(Copied(s, order[k], supply[|s.fwd|]), s.fwd, supply[|s.fwd|])
  {
    PendingUntouched(h, order, supply, k, s);
    NextFree(h, order, supply, k, s);
    var x, y := order[k], supply[|s.fwd|];
    assert x in order && WfObject(h[x]);
    var c := Copied(s, x, y);
    forall i: nat | IsPtr(c[y], i)
      ensures FwdIndexOk(c, s.fwd, c[y].slots[i]) && FwdOf(c, s.fwd, c[y].slots[i]) in c
    {
      assert IsPtr(h[x], i);
      EvacFwdIndexOk(h, order, supply, k, s, h[x].slots[i]);
    }
    hide EvacReady;
    hide EvacShape;
  }

  lemma KeysAfterUpdate(h: Heap, fwd: seq<Addr>, x: Addr)
    requires Forwardable(h, fwd, x)
    ensures x in h && UpdatePointers(h, fwd, x).Keys == h.Keys
  {
    UpdateNExactly(h, fwd, x, |Mask(h[x])|);
  }

  lemma PendingIsTyped(h: Heap, order: seq<Addr>, supply: seq<Addr>, k: nat, s: EvacState)
    requires EvacReady(h, order, supply) && k < |order| && EvacShape(h, order, supply, k, s)
    ensures order[k] in s.heap && s.heap[order[k]].meta.typ.Some?
    ensures s.heap[order[k]].meta.typ.value.slotSize <= |s.heap[order[k]].slots|
    ensures s.heap[order[k]].meta.isRoot == RootAt(h, order[k])
  {
    PendingUntouched(h, order, supply, k, s);
    assert order[k] in order && WfObject(h[order[k]]);
    hide EvacReady;
    hide EvacShape;
  }

  lemma EvacObjIs(s: EvacState, x: Addr, supply: seq<Addr>)
    requires x in s.heap
    ensures s.heap[x].meta.isRoot ==> EvacObj(s, x, supply) == KeepRoot(s, x)
    ensures !s.heap[x].meta.isRoot && |s.fwd| < |supply| ==> EvacObj(s, x, supply) == MoveTo(s, x, supply[|s.fwd|])
    ensures !s.heap[x].meta.isRoot && |s.fwd| < |supply| ==> EvacObj(s, x, supply).fwd == s.fwd + [supply[|s.fwd|]]
    ensures s.heap[x].meta.isRoot ==> EvacObj(s, x, supply).fwd == s.fwd
  {
  }

  // ---- Dropped roots

  /** Everything before r in the sorted roots is below every old root still to come. */
  ghost predicate MergedUpTo(roots: seq<Addr>, r: nat, olds: seq<Addr>, o: nat) {
    && r <= |roots| && o <= |olds|
    && forall i, j :: 0 <= i < r && o <= j < |olds| ==> roots[i] < olds[j]
  }

  /** Without an equal root at position r or beyond, the old root is dropped. */
  lemma MergeDrops(roots: seq<Addr>, r: nat, olds: seq<Addr>, o: nat)
    requires Sorting.Sorted(roots) && Sorting.StrictlySorted(olds) && MergedUpTo(roots, r, olds, o) && o < |olds|
    requires r < |roots| ==> olds[o] < roots[r]
    ensures olds[o] !in roots && MergedUpTo(roots, r, olds, o + 1)
    ensures DroppedRoots(olds[..o + 1], roots) == DroppedRoots(olds[..o], roots) + [olds[o]]
  {
    BetweenRoots(roots, r, olds[o]);
    DropsOne(olds, roots, o);
    hide DroppedRoots, Sorting.Sorted;
  }

  lemma BetweenRoots(roots: seq<Addr>, r: nat, x: Addr)
    requires Sorting.Sorted(roots) && r <= |roots| && (r < |roots| ==> x < roots[r])
    requires forall i :: 0 <= i < r ==> roots[i] < x
    ensures x !in roots
  {
  }

  lemma DropsOne(olds: seq<Addr>, roots: seq<Addr>, o: nat)
    requires o < |olds| && olds[o] !in roots
    ensures DroppedRoots(olds[..o + 1], roots) == DroppedRoots(olds[..o], roots) + [olds[o]]
  {
    assert olds[..o + 1][..o] == olds[..o];
  }

  lemma MergeKeeps(roots: seq<Addr>, r: nat, olds: seq<Addr>, o: nat)
    requires Sorting.StrictlySorted(olds) && MergedUpTo(roots, r, olds, o)
    requires o < |olds| && r < |roots| && olds[o] == roots[r]
    ensures MergedUpTo(roots, r + 1, olds, o + 1)
    ensures DroppedRoots(olds[..o + 1], roots) == DroppedRoots(olds[..o], roots)
  {
    forall i, j | 0 <= i < r + 1 && o + 1 <= j < |olds|
      ensures roots[i] < olds[j]
    {
      assert i == r ==> olds[o] < olds[j];
    }
    assert olds[..o + 1][..o] == olds[..o];
    assert roots[r] in roots;
    hide Sorting.StrictlySorted;
    hide MergedUpTo;
  }

  lemma MergeSkips(roots: seq<Addr>, r: nat, olds: seq<Addr>, o: nat)
    requires Sorting.StrictlySorted(olds) && MergedUpTo(roots, r, olds, o)
    requires o < |olds| && r < |roots| && roots[r] < olds[o]
    ensures MergedUpTo(roots, r + 1, olds, o)
  {
  }

  // ---- Decrements

  /** Pointers of allocated objects lead to known entries. */
  ghost predicate PointersKnown(h: Heap) {
    && (forall x :: x in h && h[x].meta.isAlloc ==> |Mask(h[x])| <= |h[x].slots|)
    && (forall x, i: nat :: x in h && h[x].meta.isAlloc && IsPtr(h[x], i) ==> h[x].slots[i] in h)
  }

  lemma PointersOf(h: Heap, x: Addr)
    requires PointersKnown(h) && x in h && h[x].meta.isAlloc
    ensures |Mask(h[x])| <= |h[x].slots|
    ensures forall i: nat :: IsPtr(h[x], i) ==> h[x].slots[i] in h
  {
  }

  lemma DecrementingSees(s: DecState, x: Addr, n: nat)
    requires x in s.heap && n < |Mask(s.heap[x])|
    ensures var h1 := DecN(s, x, n).heap;
            h1.Keys == s.heap.Keys && h1[x].slots == s.heap[x].slots && Mask(h1[x]) == Mask(s.heap[x])
  {
    DecNCountsDown(s, x, n);
    SlotUnchanged(s.heap, s.heap[x], n, DecN(s, x, n).heap, x);
  }

  lemma {:induction false} DecNQueueKnown(s: DecState, x: Addr, n: nat)
    requires x in s.heap && forall q :: q in s.queue ==> q in s.heap
    ensures forall q :: q in DecN(s, x, n).queue ==> q in s.heap
  {
    if n > 0 {
      DecNQueueKnown(s, x, n - 1);
      DecNCountsDown(s, x, n - 1);
    }
  }

  /** One iteration keeps pointers and queue among the known entries. */
  lemma PopKeepsKnown(s: DecState)
    requires s.queue != [] && PointersKnown(s.heap) && forall q :: q in s.queue ==> q in s.heap
    ensures DecPop(s).heap.Keys == s.heap.Keys && PointersKnown(DecPop(s).heap)
    ensures forall q :: q in DecPop(s).queue ==> q in s.heap
  {
    var x := s.queue[0];
    assert x in s.queue;
    var s1 := s.(queue := s.queue[1..]);
    var n := |Mask(s.heap[x])|;
    DecNQueueKnown(s1, x, n);
    DecNCountsDown(s1, x, n);
    hide DecN;
    hide Taken;
    var h1 := DecN(s1, x, n).heap;
    forall y, i: nat | y in h1 && IsPtr(h1[y], i)
      ensures IsPtr(s.heap[y], i) && h1[y].slots == s.heap[y].slots && Mask(h1[y]) == Mask(s.heap[y])
    {
      SlotUnchanged(s.heap, s.heap[x], n, h1, y);
    }
    forall y | y in s.heap
      ensures h1[y].meta.isAlloc == s.heap[y].meta.isAlloc
      ensures |h1[y].slots| == |s.heap[y].slots| && Mask(h1[y]) == Mask(s.heap[y])
    {
      AllocUnchanged(s.heap, s.heap[x], n, h1, y);
      SlotUnchanged(s.heap, s.heap[x], n, h1, y);
    }
    hide CountedDown;
  }

  lemma AllocUnchanged(h: Heap, o: Object, n: nat, h1: Heap, y: Addr)
    requires CountedDown(h, o, n, h1) && y in h
    ensures y in h1 && h1[y].meta.isAlloc == h[y].meta.isAlloc
  {
    hide Taken;
    assert CountedFrom(h[y].meta, h1[y].meta, -|Taken(o, n, y)|);
  }

  // ---- Rebuilding and clearing

  lemma RebuiltTwice(h: Heap, a: set<Addr>, b: set<Addr>)
    ensures Rebuilt(Rebuilt(h, a), b) == Rebuilt(h, a + b)
  {
    assert ShouldFreeListAdd(ResetMeta(MAX_FWD_INDEX));
  }

  /** The entries rebuild puts on the free list, in order. */
  ghost function FreeAmong(h: Heap, entries: seq<Addr>): seq<Addr> {
    if entries == [] then []
    else
      (if entries[0] in h && ShouldFreeListAdd(h[entries[0]].meta) then [entries[0]] else [])
        + FreeAmong(h, entries[1..])
  }

  /** What a rebuilt page lists: its entries that are unallocated, or no root and unmarked or uncounted, in order. */
  lemma {:induction false} FreeAmongExactly(h: Heap, entries: seq<Addr>)
    requires Sorting.StrictlySorted(entries) && forall e <- entries :: e in h
    ensures Sorting.StrictlySorted(FreeAmong(h, entries))
    ensures forall e :: e in FreeAmong(h, entries) <==>
              var m := if e in h then h[e].meta else ResetMeta(0);
              e in entries && (!m.isAlloc || (!m.isRoot && (!m.isMarked || m.refCount == 0)))
  {
    if entries != [] {
      FreeAmongExactly(h, entries[1..]);
      var rest := FreeAmong(h, entries[1..]);
      assert entries == [entries[0]] + entries[1..];
      forall i | 0 <= i < |rest|
        ensures entries[0] < rest[i]
      {
        assert rest[i] in rest && rest[i] in entries[1..];
      }
    }
  }

  /** Visiting entry e after the entries in `done`. */
  lemma RebuildStep(h: Heap, e: Addr, later: set<Addr>)
    requires e in h
    ensures var hk := Rebuilt(h, later);
            && hk.Keys == h.Keys
            && (ShouldFreeListAdd(hk[e].meta) <==> ShouldFreeListAdd(h[e].meta))
            && Rebuilt(h, later + {e}) == (if ShouldFreeListAdd(h[e].meta)
                                           then hk[e := hk[e].(meta := ResetMeta(MAX_FWD_INDEX))] else hk)
  {
    assert ShouldFreeListAdd(ResetMeta(MAX_FWD_INDEX));
  }

  lemma RebuildNothing(h: Heap)
    ensures Rebuilt(h, {}) == h
  {
  }

  lemma ClearStep(h: Heap, r: Addr, done: set<Addr>)
    requires r in h
    ensures var hk := RootsCleared(h, done);
            && hk.Keys == h.Keys
            && RootsCleared(h, done + {r}) == hk[r := hk[r].(meta := hk[r].meta.(isMarked := false, isRoot := false))]
  {
  }

  lemma ClearNothing(h: Heap)
    ensures RootsCleared(h, {}) == h
  {
  }

  ghost function AllEntries(pages: seq<seq<Addr>>): set<Addr> {
    if pages == [] then {} else AllEntries(pages[..|pages| - 1]) + Elems(pages[|pages| - 1])
  }

  // ---- Between the phases

  lemma SurvivorPointersKnown(h: Heap, order: seq<Addr>, supply: seq<Addr>, j: nat)
    requires EvacReady(h, order, supply) && j < |order| && order[j] in h
    ensures var e := Evacuated(h, order, supply).heap; var y := Image(h, order, supply, order[j]);
            && y in e && |Mask(e[y])| <= |e[y].slots|
            && forall i: nat :: IsPtr(e[y], i) ==> e[y].slots[i] in h
  {
    hide EvacN;
    hide Img;
    SurvivorAt(h, order, supply, j);
    var e, y := Evacuated(h, order, supply).heap, Image(h, order, supply, order[j]);
    var o := h[order[j]];
    assert order[j] in order && WfObject(o);
    SameMask(e[y], o);
    RankMonotone(h, order, j, |order|);
    forall i: nat | IsPtr(e[y], i)
      ensures e[y].slots[i] in h
    {
      assert e[y].slots[i] == NewSlots(h, order, supply, j)[i];
      assert IsPtr(o, i);
      ImgLands(h, order, supply, j, o.slots[i]);
      assert forall s :: s in supply[..Rank(h, order, j)] ==> s in supply;
    }
  }

  lemma EvacPointersKnown(h: Heap, order: seq<Addr>, supply: seq<Addr>)
    requires EvacReady(h, order, supply) && WfHeap(h)
    ensures PointersKnown(Evacuated(h, order, supply).heap) && Evacuated(h, order, supply).heap.Keys == h.Keys
  {
    hide EvacN;
    hide Img;
    EvacNShape(h, order, supply, |order|);
    hide EvacShape;
    var e := Evacuated(h, order, supply).heap;
    assert e.Keys == h.Keys by {
      ShapeKeepsKeys(h, order, supply, |order|, Evacuated(h, order, supply));
    }
    forall y | y in e && e[y].meta.isAlloc
      ensures |Mask(e[y])| <= |e[y].slots|
      ensures forall i: nat :: IsPtr(e[y], i) ==> e[y].slots[i] in e
    {
      AllocatedAfter(h, order, supply, y);
      if exists x :: x in order && y == Image(h, order, supply, x) {
        var x :| x in order && y == Image(h, order, supply, x);
        SurvivorPointersKnown(h, order, supply, Position(order, x));
      } else {
        BystanderAt(h, order, supply, y);
        assert WfObject(h[y]);
        SameMask(h[y], e[y]);
        assert forall i: nat :: IsPtr(e[y], i) ==> IsPtr(h[y], i);
      }
    }
  }

  lemma ShapeKeepsKeys(h: Heap, order: seq<Addr>, supply: seq<Addr>, k: nat, s: EvacState)
    requires k <= |order| && EvacShape(h, order, supply, k, s)
    ensures s.heap.Keys == h.Keys
  {
  }

  /** The marked heap is ready for evacuation, its list is marked, and its objects are well formed. */
  lemma MarkedIsReady(h: Heap, objs: seq<Addr>, supply: seq<Addr>)
    requires MutatorHeap(h) && Candidates(h, objs) && FreeEntries(h, supply)
    requires |PendingYoung(h, objs)| <= |supply| && |PendingYoung(h, objs)| <= BSQ_MAX_FWD_TABLE_ENTRIES
    ensures var h1 := MarkedHeap(h, objs);
            && EvacReady(h1, PendingYoung(h, objs), supply) && WfHeap(h1)
            && forall x :: x in PendingYoung(h, objs) ==> x in h1 && h1[x].meta.isMarked
  {
    MarkingReadies(h, objs, supply);
    MarkedKeys(h, objs);
    PendingYoungExactly(h, objs);
    hide EvacReady;
    hide PendingYoung;
    forall x | x in PendingYoung(h, objs)
      ensures x in MarkedHeap(h, objs) && MarkedHeap(h, objs)[x].meta.isMarked
    {
      assert x in Young(h);
      MarkedObject(h, objs, x);
    }
    hide MarkedHeap;
    forall a | a in MarkedHeap(h, objs) && MarkedHeap(h, objs)[a].meta.isAlloc
      ensures WfObject(MarkedHeap(h, objs)[a])
    {
      assert WfObject(h[a]);
    }
  }

  lemma MutatorHeapIsReadable(h: Heap)
    requires MutatorHeap(h)
    ensures NoMarks(h) && Readable(h)
  {
  }

  lemma DroppedKnown(h: Heap, decs: seq<Addr>, olds: seq<Addr>, roots: seq<Addr>)
    requires Distinct(olds) && (forall q :: q in decs ==> q in h) && (forall r :: r in olds ==> r in h)
    ensures forall q :: q in decs + DroppedRoots(olds, roots) ==> q in h
  {
    DroppedRootsExactly(olds, roots);
  }

  lemma {:induction false} RunKeepsKnown(s: DecState, budget: nat)
    requires PointersKnown(s.heap) && forall q :: q in s.queue ==> q in s.heap
    ensures DecRun(s, budget).heap.Keys == s.heap.Keys
    decreases budget
  {
    hide PointersKnown;
    hide DecPop;
    if budget > 0 && s.queue != [] {
      PopKeepsKnown(s);
      RunKeepsKnown(DecPop(s), budget - 1);
    }
  }

  lemma NewRootsKnown(h: Heap, objs: seq<Addr>)
    requires Candidates(h, objs)
    ensures forall r :: r in Sorting.Sort(FoundRoots(h, objs)) ==> r in h
  {
    FirstVisitsElems(objs, NotRootable(h));
    Sorting.SortElems(FoundRoots(h, objs));
  }
}
