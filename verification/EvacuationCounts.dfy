/** Reference counts during evacuation: exact after every object, for any order of the list. */
module EvacuationCounts {
  import opened Graph
  import opened Heap
  import opened Evacuation
  import opened EvacuationShape

  ghost function Pairs(x: Addr, s: set<nat>): set<(Addr, nat)> {
    set i | i in s :: (x, i)
  }

  lemma {:induction false} PairsCard(x: Addr, s: set<nat>)
    ensures |Pairs(x, s)| == |s|
  {
    if s != {} {
      var i :| i in s;
      PairsCard(x, s - {i});
      assert Pairs(x, s) == Pairs(x, s - {i}) + {(x, i)};
    }
  }

  /** The pointer slots of an object that hold a. */
  ghost function SlotsTo(o: Object, a: Addr): set<nat> {
    set i: nat | i < |o.slots| && IsPtr(o, i) && o.slots[i] == a
  }

  /** n is the only object that is old in h2 but not in h1; the others kept type and slots. */
  ghost predicate OnlyNewOld(h1: Heap, h2: Heap, n: Addr) {
    && !Old(h1, n) && Old(h2, n)
    && forall b :: b != n ==>
        && Old(h1, b) == Old(h2, b)
        && (Old(h1, b) ==> h1[b].slots == h2[b].slots && h1[b].meta.typ == h2[b].meta.typ)
  }

  lemma EdgesGrow(h1: Heap, h2: Heap, n: Addr, a: Addr)
    requires OnlyNewOld(h1, h2, n)
    ensures |OldEdges(h2, a)| == |OldEdges(h1, a)| + |SlotsTo(h2[n], a)|
  {
    var new_ := Pairs(n, SlotsTo(h2[n], a));
    PairsCard(n, SlotsTo(h2[n], a));
    forall x, i: nat
      ensures (x, i) in OldEdges(h2, a) <==> (x, i) in OldEdges(h1, a) || (x, i) in new_
    {
      if x != n && Old(h1, x) {
        assert IsPtr(h1[x], i) == IsPtr(h2[x], i);
      }
    }
    assert OldEdges(h2, a) == OldEdges(h1, a) + new_;
    assert OldEdges(h1, a) !! new_;
  }

  /** Images are real pointers wherever the original was. */
  lemma {:induction false} ImgLands(h: Heap, order: seq<Addr>, supply: seq<Addr>, k: nat, t: Addr)
    requires k <= |order| && Rank(h, order, k) <= |supply|
    ensures Img(h, order, supply, k, t) == t || Img(h, order, supply, k, t) in supply[..Rank(h, order, k)]
  {
    if k > 0 {
      RankMonotone(h, order, k - 1, k);
      if order[k - 1] == t && !RootAt(h, t) {
        assert supply[..Rank(h, order, k)][Rank(h, order, k - 1)] == supply[Rank(h, order, k - 1)];
      } else {
        ImgLands(h, order, supply, k - 1, t);
        assert forall y :: y in supply[..Rank(h, order, k - 1)] ==> y in supply[..Rank(h, order, k)];
      }
    }
  }

  lemma ImgIsPtrWord(h: Heap, order: seq<Addr>, supply: seq<Addr>, k: nat, t: Addr, m: char)
    requires EvacReady(h, order, supply) && k <= |order| && IsPtrWord(m, t)
    ensures IsPtrWord(m, Img(h, order, supply, k, t))
  {
    RankMonotone(h, order, k, |order|);
    ImgLands(h, order, supply, k, t);
    assert forall y :: y in supply[..Rank(h, order, k)] ==> y in supply;
  }

  /** The slots of the rewritten object that hold a are the ones that were counted for a. */
  lemma CountedSlots(h: Heap, order: seq<Addr>, supply: seq<Addr>, k: nat,
                     c: Heap, fwd: seq<Addr>, n: Addr, o: Object, a: Addr)
    requires EvacReady(h, order, supply) && k < |order| && order[k] in h && n in c
    requires c[n].slots == h[order[k]].slots && Mask(c[n]) == Mask(h[order[k]]) == Mask(o)
    requires o.slots == NewSlots(h, order, supply, k) == UpdatedSlots(c, fwd, n, |Mask(c[n])|)
    ensures SlotsTo(o, a) == Inc(c, fwd, n, |Mask(c[n])|, a)
  {
    var src := h[order[k]];
    assert |o.slots| == |src.slots|;
    forall i: nat
      ensures IsPtr(o, i) == IsPtr(c[n], i) == IsPtr(src, i)
      ensures IsPtr(o, i) ==> o.slots[i] == FwdOf(c, fwd, c[n].slots[i])
    {
      if i < |src.slots| {
        assert o.slots[i] == NewSlots(h, order, supply, k)[i] == UpdatedSlots(c, fwd, n, |Mask(c[n])|)[i];
        if IsPtr(src, i) {
          ImgIsPtrWord(h, order, supply, k, src.slots[i], Mask(src)[i]);
        }
      }
    }
    hide NewSlots;
    hide UpdatedSlots;
    hide EvacReady;
  }

  /** Old objects point only to what was allocated before or has been handed out since. */
  ghost predicate TargetsKnown(h: Heap, s: EvacState) {
    forall x, i: nat :: Old(s.heap, x) && IsPtr(s.heap[x], i) ==>
      s.heap[x].slots[i] in Live(h) || s.heap[x].slots[i] in s.fwd
  }

  ghost predicate CountsExact(h: Heap) {
    forall a :: a in h && h[a].meta.isAlloc ==> ExactCount(h, a)
  }

  lemma NewTargetsKnown(h: Heap, order: seq<Addr>, supply: seq<Addr>, k: nat, s: EvacState, o: Object, i: nat)
    requires EvacReady(h, order, supply) && k < |order| && EvacShape(h, order, supply, k, s)
    requires order[k] in h && o.slots == NewSlots(h, order, supply, k) && Mask(o) == Mask(h[order[k]])
    requires IsPtr(o, i)
    ensures o.slots[i] in Live(h) || o.slots[i] in s.fwd
  {
    PendingUntouched(h, order, supply, k, s);
    var src := h[order[k]];
    assert o.slots[i] == NewSlots(h, order, supply, k)[i];
    if IsPtr(src, i) {
      ImgLands(h, order, supply, k, src.slots[i]);
    }
  }

  lemma KeptIsOnlyNewOld(h: Heap, order: seq<Addr>, supply: seq<Addr>, k: nat, s: EvacState, s': EvacState)
    requires EvacReady(h, order, supply) && k < |order| && EvacShape(h, order, supply, k, s)
    requires order[k] in s.heap && order[k] in h && Kept(h, order, supply, k, s, s')
    ensures OnlyNewOld(s.heap, s'.heap, order[k])
  {
    hide EvacReady;
    hide EvacShape;
    hide Inc;
    hide NewSlots;
    PendingUntouched(h, order, supply, k, s);
  }

  lemma MovedIsOnlyNewOld(h: Heap, order: seq<Addr>, supply: seq<Addr>, k: nat, s: EvacState, s': EvacState)
    requires EvacReady(h, order, supply) && k < |order| && EvacShape(h, order, supply, k, s)
    requires order[k] in s.heap && order[k] in h && !RootAt(h, order[k])
    requires |s.fwd| < |supply| && Moved(h, order, supply, k, s, s')
    ensures OnlyNewOld(s.heap, s'.heap, supply[|s.fwd|])
  {
    hide EvacReady;
    hide EvacShape;
    hide Inc;
    hide NewSlots;
    NextFree(h, order, supply, k, s);
    PendingUntouched(h, order, supply, k, s);
  }

  lemma KeptCounts(h: Heap, order: seq<Addr>, supply: seq<Addr>, k: nat, s: EvacState, s': EvacState, a: Addr)
    requires EvacReady(h, order, supply) && k < |order| && EvacShape(h, order, supply, k, s)
    requires order[k] in s.heap && order[k] in h && Kept(h, order, supply, k, s, s')
    requires a in s.heap && ExactCount(s.heap, a)
    ensures ExactCount(s'.heap, a)
  {
    var x := order[k];
    hide EvacShape;
    hide EvacReady;
    hide Inc;
    hide NewSlots;
    hide UpdatedSlots;
    hide OldEdges;
    hide SlotsTo;
    hide OnlyNewOld;
    hide Mask;
    hide ForwardsInto;
    PendingUntouched(h, order, supply, k, s);
    KeptIsOnlyNewOld(h, order, supply, k, s, s');
    EdgesGrow(s.heap, s'.heap, x, a);
    RootForwards(h, order, supply, k, s);
    SameMask(s.heap[x], h[x]);
    SameMask(s'.heap[x], h[x]);
    CountedSlots(h, order, supply, k, s.heap, s.fwd, x, s'.heap[x], a);
  }

  lemma SameMask(o: Object, o': Object)
    requires o.meta.typ == o'.meta.typ
    ensures Mask(o) == Mask(o')
  {
  }

  /** Nobody old points to an entry that has not been handed out. */
  lemma UnusedHasNoEdges(h: Heap, s: EvacState, y: Addr)
    requires TargetsKnown(h, s) && y !in Live(h) && y !in s.fwd
    ensures OldEdges(s.heap, y) == {}
  {
  }

  lemma MovedCounts(h: Heap, order: seq<Addr>, supply: seq<Addr>, k: nat, s: EvacState, s': EvacState, a: Addr)
    requires EvacReady(h, order, supply) && k < |order| && EvacShape(h, order, supply, k, s)
    requires order[k] in s.heap && order[k] in h && !RootAt(h, order[k])
    requires |s.fwd| < |supply| && Moved(h, order, supply, k, s, s')
    requires TargetsKnown(h, s) && a in s.heap && a != order[k]
    requires a == supply[|s.fwd|] || ExactCount(s.heap, a)
    ensures ExactCount(s'.heap, a)
  {
    var x, y := order[k], supply[|s.fwd|];
    NextFree(h, order, supply, k, s);
    UnusedHasNoEdges(h, s, y);
    hide TargetsKnown;
    hide EvacShape;
    hide EvacReady;
    hide Inc;
    hide NewSlots;
    hide UpdatedSlots;
    hide OldEdges;
    hide SlotsTo;
    hide OnlyNewOld;
    hide Mask;
    hide ForwardsInto;
    PendingUntouched(h, order, supply, k, s);
    MovedIsOnlyNewOld(h, order, supply, k, s, s');
    EdgesGrow(s.heap, s'.heap, y, a);
    MoveForwards(h, order, supply, k, s);
    var c := Copied(s, x, y);
    SameMask(c[y], h[x]);
    SameMask(s'.heap[y], h[x]);
    CountedSlots(h, order, supply, k, c, s.fwd, y, s'.heap[y], a);
  }

  ghost predicate EvacCounted(h: Heap, s: EvacState) {
    TargetsKnown(h, s) && CountsExact(s.heap)
  }

  lemma KeptKeepsTargets(h: Heap, order: seq<Addr>, supply: seq<Addr>, k: nat, s: EvacState, s': EvacState)
    requires EvacReady(h, order, supply) && k < |order| && EvacShape(h, order, supply, k, s)
    requires order[k] in s.heap && order[k] in h && Kept(h, order, supply, k, s, s') && TargetsKnown(h, s)
    ensures TargetsKnown(h, s')
  {
    hide EvacShape;
    hide EvacReady;
    hide Inc;
    hide NewSlots;
    KeptIsOnlyNewOld(h, order, supply, k, s, s');
    forall x, i: nat | Old(s'.heap, x) && IsPtr(s'.heap[x], i)
      ensures s'.heap[x].slots[i] in Live(h) || s'.heap[x].slots[i] in s'.fwd
    {
      if x == order[k] {
        NewTargetsKnown(h, order, supply, k, s, s'.heap[x], i);
      } else {
        assert IsPtr(s.heap[x], i);
      }
    }
  }

  lemma MovedKeepsTargets(h: Heap, order: seq<Addr>, supply: seq<Addr>, k: nat, s: EvacState, s': EvacState)
    requires EvacReady(h, order, supply) && k < |order| && EvacShape(h, order, supply, k, s)
    requires order[k] in s.heap && order[k] in h && !RootAt(h, order[k])
    requires |s.fwd| < |supply| && Moved(h, order, supply, k, s, s') && TargetsKnown(h, s)
    ensures TargetsKnown(h, s')
  {
    hide EvacShape;
    hide EvacReady;
    hide Inc;
    hide NewSlots;
    MovedIsOnlyNewOld(h, order, supply, k, s, s');
    forall x, i: nat | Old(s'.heap, x) && IsPtr(s'.heap[x], i)
      ensures s'.heap[x].slots[i] in Live(h) || s'.heap[x].slots[i] in s'.fwd
    {
      if x == supply[|s.fwd|] {
        NewTargetsKnown(h, order, supply, k, s, s'.heap[x], i);
      } else {
        assert IsPtr(s.heap[x], i);
      }
    }
  }

  lemma EvacStepCounted(h: Heap, order: seq<Addr>, supply: seq<Addr>, k: nat, s: EvacState)
    requires EvacReady(h, order, supply) && k < |order| && EvacShape(h, order, supply, k, s) && EvacCounted(h, s)
    ensures EvacCounted(h, EvacObj(s, order[k], supply))
  {
    hide EvacObj;
    hide TargetsKnown;
    hide EvacReady;
    hide ExactCount;
    hide NewSlots;
    hide Inc;
    var x := order[k];
    var s' := EvacObj(s, x, supply);
    if RootAt(h, x) {
      KeepRootExactly(h, order, supply, k, s);
      PendingUntouched(h, order, supply, k, s);
      KeptKeepsTargets(h, order, supply, k, s, s');
      forall a | a in s'.heap && s'.heap[a].meta.isAlloc
        ensures ExactCount(s'.heap, a)
      {
        KeptCounts(h, order, supply, k, s, s', a);
      }
    } else {
      MoveToExactly(h, order, supply, k, s);
      NextFree(h, order, supply, k, s);
      MovedKeepsTargets(h, order, supply, k, s, s');
      forall a | a in s'.heap && s'.heap[a].meta.isAlloc
        ensures ExactCount(s'.heap, a)
      {
        MovedCounts(h, order, supply, k, s, s', a);
      }
    }
  }

  lemma EvacStartCounted(h: Heap)
    requires ClosedHeap(h) && CountsExact(h)
    ensures EvacCounted(h, EvacState(h, []))
  {
    hide ExactCount;
  }

  /** Counts of allocated objects stay exact, whatever the order of the list. */
  lemma {:induction false} EvacNCounted(h: Heap, order: seq<Addr>, supply: seq<Addr>, k: nat)
    requires EvacReady(h, order, supply) && k <= |order| && CountsExact(h)
    ensures EvacCounted(h, EvacN(h, order, supply, k))
  {
    hide EvacCounted;
    hide EvacObj;
    hide CountsExact;
    hide EvacShape;
    if k > 0 {
      hide EvacReady;
      EvacNCounted(h, order, supply, k - 1);
      EvacNShape(h, order, supply, k - 1);
      EvacStepCounted(h, order, supply, k - 1, EvacN(h, order, supply, k - 1));
    } else {
      hide ClosedHeap;
      EvacStartCounted(h);
    }
  }
}
