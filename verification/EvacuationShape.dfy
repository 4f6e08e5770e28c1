/** What the heap looks like after each pending young object, for any order of the list. */
module EvacuationShape {
  import opened Graph
  import opened Heap
  import opened Evacuation

  /** The copy made for the object x before its pointers are updated. */
  ghost function Copied(s: EvacState, x: Addr, y: Addr): Heap
    requires x in s.heap
  {
    s.heap[y := Object(ConvertOldMeta(s.heap[x].meta.typ), CopiedSlots(s.heap[x]))]
  }

  /** An object not yet reached is as it was, up to its count. */
  lemma PendingUntouched(h: Heap, order: seq<Addr>, supply: seq<Addr>, k: nat, s: EvacState)
    requires EvacReady(h, order, supply) && k < |order| && EvacShape(h, order, supply, k, s)
    ensures order[k] in h && order[k] in s.heap && order[k] !in s.fwd && order[k] !in supply
    ensures h[order[k]].meta.isAlloc && h[order[k]].meta.isYoung
    ensures SameButCount(h[order[k]], s.heap[order[k]])
    ensures CopiedSlots(s.heap[order[k]]) == h[order[k]].slots
    ensures forall i: nat :: IsPtr(h[order[k]], i) ==> h[order[k]].slots[i] in h && h[h[order[k]].slots[i]].meta.isAlloc
  {
    var x := order[k];
    assert x in order;
    assert forall y :: y in s.fwd ==> y in supply;
    assert SameButCount(h[x], s.heap[x]);
  }

  /** The next free entry is really free and unused so far. */
  lemma NextFree(h: Heap, order: seq<Addr>, supply: seq<Addr>, k: nat, s: EvacState)
    requires EvacReady(h, order, supply) && k < |order| && EvacShape(h, order, supply, k, s)
    requires !RootAt(h, order[k])
    ensures |s.fwd| < |supply| && supply[|s.fwd|] in h && !h[supply[|s.fwd|]].meta.isAlloc
    ensures supply[|s.fwd|] !in s.fwd && supply[|s.fwd|] !in order
    ensures supply[|s.fwd|] in s.heap && !s.heap[supply[|s.fwd|]].meta.isAlloc
  {
    RankMonotone(h, order, k, |order|);
    var y := supply[|s.fwd|];
    assert y in supply && y !in order[..k];
    assert SameButCount(h[y], s.heap[y]);
  }

  lemma RootForwards(h: Heap, order: seq<Addr>, supply: seq<Addr>, k: nat, s: EvacState)
    requires EvacReady(h, order, supply) && k < |order| && EvacShape(h, order, supply, k, s)
    ensures order[k] in s.heap && order[k] in h
    ensures ForwardsInto(s.heap, s.fwd, order[k])
    ensures UpdatedSlots(s.heap, s.fwd, order[k], |Mask(s.heap[order[k]])|) == NewSlots(h, order, supply, k)
  {
    PendingUntouched(h, order, supply, k, s);
    var x := order[k];
    forall i: nat | IsPtr(s.heap[x], i)
      ensures FwdOf(s.heap, s.fwd, s.heap[x].slots[i]) == Img(h, order, supply, k, h[x].slots[i])
      ensures FwdOf(s.heap, s.fwd, s.heap[x].slots[i]) in s.heap
    {
      assert IsPtr(h[x], i);
      FwdIsImg(h, order, supply, k, s, h[x].slots[i]);
    }
    hide Img;
    assert forall i: nat :: IsPtr(s.heap[x], i) == IsPtr(h[x], i);
  }

  lemma MoveForwards(h: Heap, order: seq<Addr>, supply: seq<Addr>, k: nat, s: EvacState)
    requires EvacReady(h, order, supply) && k < |order| && EvacShape(h, order, supply, k, s)
    requires !RootAt(h, order[k])
    ensures |s.fwd| < |supply| && order[k] in s.heap && order[k] in h
    ensures var y := supply[|s.fwd|]; var c := Copied(s, order[k], y);
            && ForwardsInto(c, s.fwd, y)
            && UpdatedSlots(c, s.fwd, y, |Mask(c[y])|) == NewSlots(h, order, supply, k)
  {
    PendingUntouched(h, order, supply, k, s);
    NextFree(h, order, supply, k, s);
    var x, y := order[k], supply[|s.fwd|];
    var c := Copied(s, x, y);
    assert forall i: nat :: IsPtr(c[y], i) == IsPtr(h[x], i);
    forall i: nat | IsPtr(c[y], i)
      ensures FwdOf(c, s.fwd, c[y].slots[i]) == Img(h, order, supply, k, h[x].slots[i])
      ensures FwdOf(c, s.fwd, c[y].slots[i]) in c
    {
      var t := h[x].slots[i];
      assert IsPtr(h[x], i) && t != y;
      FwdIsImg(h, order, supply, k, s, t);
      assert FwdOf(c, s.fwd, t) == FwdOf(s.heap, s.fwd, t);
    }
    hide Img;
  }

  /** h' is h with the object at x replaced by o up to its count, and counts grown by the slots of x. */
  ghost predicate Rewritten(h: Heap, fwd: seq<Addr>, x: Addr, h': Heap)
    requires x in h
  {
    && h'.Keys == h.Keys
    && h'[x].slots == UpdatedSlots(h, fwd, x, |Mask(h[x])|)
    && (forall a :: a in h && a != x ==> h'[a].slots == h[a].slots)
    && (forall a :: a in h ==> CountedFrom(h[a].meta, h'[a].meta, |Inc(h, fwd, x, |Mask(h[x])|, a)|))
  }

  lemma UpdatePointersRewrites(h: Heap, fwd: seq<Addr>, x: Addr)
    requires x in h && ForwardsInto(h, fwd, x)
    ensures Rewritten(h, fwd, x, UpdatePointers(h, fwd, x))
  {
    hide Inc;
    hide UpdatedSlots;
    UpdateNExactly(h, fwd, x, |Mask(h[x])|);
  }

  /** Everything a kept root changes. */
  ghost predicate Kept(h: Heap, order: seq<Addr>, supply: seq<Addr>, k: nat, s: EvacState, s': EvacState)
    requires k < |order| && order[k] in s.heap && order[k] in h
  {
    var x := order[k];
    && s'.fwd == s.fwd && s'.heap.Keys == s.heap.Keys
    && (forall a :: a in s.heap && a != x ==> SameButCount(s.heap[a], s'.heap[a]))
    && SameButCount(Object(h[x].meta.(isYoung := false), NewSlots(h, order, supply, k)), s'.heap[x])
    && (forall a :: a in s.heap ==>
          s'.heap[a].meta.refCount == s.heap[a].meta.refCount + |Inc(s.heap, s.fwd, x, |Mask(s.heap[x])|, a)|)
  }

  lemma KeptFrom(h: Heap, order: seq<Addr>, supply: seq<Addr>, k: nat, s: EvacState, h1: Heap)
    requires k < |order| && order[k] in s.heap && order[k] in h
    requires s.heap[order[k]].meta.isRoot && SameButCount(h[order[k]], s.heap[order[k]])
    requires h1 == UpdatePointers(s.heap, s.fwd, order[k]) && Rewritten(s.heap, s.fwd, order[k], h1)
    requires UpdatedSlots(s.heap, s.fwd, order[k], |Mask(s.heap[order[k]])|) == NewSlots(h, order, supply, k)
    ensures Kept(h, order, supply, k, s, EvacObj(s, order[k], supply))
  {
    hide Inc, NewSlots, UpdatedSlots, UpdatePointers, EvacObj, SameButCount;
    var x := order[k];
    KeptAt(s, x, supply, h1, x);
    forall a | a in s.heap
      ensures a != x ==> SameButCount(s.heap[a], EvacObj(s, x, supply).heap[a])
      ensures EvacObj(s, x, supply).heap[a].meta.refCount ==
                s.heap[a].meta.refCount + |Inc(s.heap, s.fwd, x, |Mask(s.heap[x])|, a)|
    {
      KeptAt(s, x, supply, h1, a);
    }
    YoungNoMore(h[x], s.heap[x], EvacObj(s, x, supply).heap[x]);
  }

  /** Updating a root in place writes its slots and its young flag, and counts. */
  lemma KeptAt(s: EvacState, x: Addr, supply: seq<Addr>, h1: Heap, a: Addr)
    requires x in s.heap && a in s.heap && s.heap[x].meta.isRoot
    requires h1 == UpdatePointers(s.heap, s.fwd, x) && Rewritten(s.heap, s.fwd, x, h1)
    ensures var s' := EvacObj(s, x, supply);
            && s'.fwd == s.fwd && s'.heap.Keys == s.heap.Keys
            && (a != x ==> SameButCount(s.heap[a], s'.heap[a]))
            && s'.heap[x].slots == h1[x].slots
            && (a == x ==> SameButCount(Object(s.heap[x].meta.(isYoung := false), h1[x].slots), s'.heap[x]))
            && s'.heap[a].meta.refCount == s.heap[a].meta.refCount + |Inc(s.heap, s.fwd, x, |Mask(s.heap[x])|, a)|
  {
    hide Inc, UpdatedSlots, UpdatePointers;
    assert CountedFrom(s.heap[a].meta, h1[a].meta, |Inc(s.heap, s.fwd, x, |Mask(s.heap[x])|, a)|);
  }

  lemma YoungNoMore(o: Object, o1: Object, o2: Object)
    requires SameButCount(o, o1) && SameButCount(Object(o1.meta.(isYoung := false), o2.slots), o2)
    ensures SameButCount(Object(o.meta.(isYoung := false), o2.slots), o2)
  {
  }

  lemma KeepRootExactly(h: Heap, order: seq<Addr>, supply: seq<Addr>, k: nat, s: EvacState)
    requires EvacReady(h, order, supply) && k < |order| && EvacShape(h, order, supply, k, s)
    requires RootAt(h, order[k])
    ensures order[k] in s.heap && order[k] in h
    ensures Kept(h, order, supply, k, s, EvacObj(s, order[k], supply))
  {
    hide Rewritten;
    hide Kept;
    hide NewSlots;
    hide UpdatedSlots;
    hide ForwardsInto;
    RootForwards(h, order, supply, k, s);
    PendingUntouched(h, order, supply, k, s);
    UpdatePointersRewrites(s.heap, s.fwd, order[k]);
    KeptFrom(h, order, supply, k, s, UpdatePointers(s.heap, s.fwd, order[k]));
  }

  /** Everything a moved object changes. */
  ghost predicate Moved(h: Heap, order: seq<Addr>, supply: seq<Addr>, k: nat, s: EvacState, s': EvacState)
    requires k < |order| && order[k] in s.heap && order[k] in h && |s.fwd| < |supply|
  {
    var x, y := order[k], supply[|s.fwd|];
    var c := Copied(s, x, y);
    && s'.fwd == s.fwd + [y] && s'.heap.Keys == c.Keys && x != y
    && (forall a :: a in s.heap && a != x && a != y ==> SameButCount(s.heap[a], s'.heap[a]))
    && SameButCount(Object(ResetMeta(|s.fwd|), h[x].slots), s'.heap[x])
    && SameButCount(Object(ConvertOldMeta(h[x].meta.typ), NewSlots(h, order, supply, k)), s'.heap[y])
    && (forall a :: a in c && a != x ==>
          s'.heap[a].meta.refCount == c[a].meta.refCount + |Inc(c, s.fwd, y, |Mask(c[y])|, a)|)
  }

  lemma MovedFrom(h: Heap, order: seq<Addr>, supply: seq<Addr>, k: nat, s: EvacState, h1: Heap)
    requires k < |order| && order[k] in s.heap && order[k] in h && |s.fwd| < |supply|
    requires !s.heap[order[k]].meta.isRoot && SameButCount(h[order[k]], s.heap[order[k]])
    requires supply[|s.fwd|] != order[k]
    requires var y := supply[|s.fwd|]; var c := Copied(s, order[k], y);
             && h1 == UpdatePointers(c, s.fwd, y) && Rewritten(c, s.fwd, y, h1)
             && UpdatedSlots(c, s.fwd, y, |Mask(c[y])|) == NewSlots(h, order, supply, k)
    ensures Moved(h, order, supply, k, s, EvacObj(s, order[k], supply))
  {
    hide Inc;
    hide NewSlots;
    hide UpdatedSlots;
    hide UpdatePointers;
    var x, y := order[k], supply[|s.fwd|];
    var c := Copied(s, x, y);
    hide CopiedSlots;
    var s' := EvacObj(s, x, supply);
    assert s'.heap == h1[x := h1[x].(meta := ResetMeta(|s.fwd|))];
    forall a | a in c
      ensures CountedFrom(c[a].meta, h1[a].meta, |Inc(c, s.fwd, y, |Mask(c[y])|, a)|)
    {
    }
    assert h1[y].meta.typ == h[x].meta.typ;
  }

  /** The old place of a moved object keeps nothing but the forward index, and the new one starts without flags. */
  lemma MoveResets(s: EvacState, x: Addr, y: Addr)
    requires x in s.heap && x != y && ForwardsInto(Copied(s, x, y), s.fwd, y)
    ensures var h' := MoveTo(s, x, y).heap;
            && x in h' && h'[x].meta == MetaData(None, false, false, false, false, |s.fwd|, 0)
            && y in h' && h'[y].meta == MetaData(s.heap[x].meta.typ, true, false, false, false, 0xFFFF_FFFF,
                                                 |Inc(Copied(s, x, y), s.fwd, y, |Mask(Copied(s, x, y)[y])|, y)|)
  {
    hide Inc, UpdatedSlots, CopiedSlots, UpdatePointers;
    var c := Copied(s, x, y);
    UpdatePointersRewrites(c, s.fwd, y);
    assert CountedFrom(c[y].meta, UpdatePointers(c, s.fwd, y)[y].meta, |Inc(c, s.fwd, y, |Mask(c[y])|, y)|);
  }

  lemma MoveToExactly(h: Heap, order: seq<Addr>, supply: seq<Addr>, k: nat, s: EvacState)
    requires EvacReady(h, order, supply) && k < |order| && EvacShape(h, order, supply, k, s)
    requires !RootAt(h, order[k])
    ensures order[k] in s.heap && order[k] in h && |s.fwd| < |supply|
    ensures Moved(h, order, supply, k, s, EvacObj(s, order[k], supply))
  {
    hide Rewritten;
    hide Moved;
    hide NewSlots;
    hide UpdatedSlots;
    hide ForwardsInto;
    MoveForwards(h, order, supply, k, s);
    PendingUntouched(h, order, supply, k, s);
    NextFree(h, order, supply, k, s);
    var y := supply[|s.fwd|];
    var c := Copied(s, order[k], y);
    UpdatePointersRewrites(c, s.fwd, y);
    MovedFrom(h, order, supply, k, s, UpdatePointers(c, s.fwd, y));
  }

  lemma DonePersists(h: Heap, order: seq<Addr>, supply: seq<Addr>, j: nat, h1: Heap, h2: Heap)
    requires Done(h, order, supply, j, h1) && h1.Keys == h2.Keys
    requires SameButCount(h1[order[j]], h2[order[j]])
    requires !RootAt(h, order[j]) ==> SameButCount(h1[supply[Rank(h, order, j)]], h2[supply[Rank(h, order, j)]])
    ensures Done(h, order, supply, j, h2)
  {
    hide NewSlots;
    hide Rank;
  }

  lemma PrefixGrows(order: seq<Addr>, k: nat, a: Addr)
    requires k < |order|
    ensures a in order[..k + 1] <==> a in order[..k] || a == order[k]
  {
    assert order[..k + 1] == order[..k] + [order[k]];
  }

  /** The places of earlier objects are apart from everything object number k touches. */
  lemma EarlierPlaces(h: Heap, order: seq<Addr>, supply: seq<Addr>, k: nat, j: nat)
    requires EvacReady(h, order, supply) && j < k < |order|
    ensures order[j] in h && order[j] != order[k]
    ensures Rank(h, order, k) < |supply| ==> order[j] != supply[Rank(h, order, k)]
    ensures !RootAt(h, order[j]) ==>
      && Rank(h, order, j) < Rank(h, order, k) <= |supply|
      && supply[Rank(h, order, j)] in h && supply[Rank(h, order, j)] != order[k]
      && (Rank(h, order, k) < |supply| ==> supply[Rank(h, order, j)] != supply[Rank(h, order, k)])
  {
    RankMonotone(h, order, j, k);
    RankMonotone(h, order, k, |order|);
    assert order[j] in order && order[k] in order;
    assert Rank(h, order, k) < |supply| ==> supply[Rank(h, order, k)] in supply;
    assert !RootAt(h, order[j]) ==> supply[Rank(h, order, j)] in supply;
  }

  lemma KeptKeepsDone(h: Heap, order: seq<Addr>, supply: seq<Addr>, k: nat, s: EvacState, s': EvacState, j: nat)
    requires EvacReady(h, order, supply) && k < |order| && EvacShape(h, order, supply, k, s)
    requires RootAt(h, order[k]) && order[k] in s.heap && Kept(h, order, supply, k, s, s') && j < k
    ensures Done(h, order, supply, j, s'.heap)
  {
    hide NewSlots;
    hide Inc;
    hide EvacReady;
    hide SameButCount;
    assert Done(h, order, supply, j, s.heap);
    EarlierPlaces(h, order, supply, k, j);
    DonePersists(h, order, supply, j, s.heap, s'.heap);
  }

  lemma KeptShape(h: Heap, order: seq<Addr>, supply: seq<Addr>, k: nat, s: EvacState, s': EvacState)
    requires EvacReady(h, order, supply) && k < |order| && EvacShape(h, order, supply, k, s)
    requires RootAt(h, order[k]) && order[k] in s.heap && Kept(h, order, supply, k, s, s')
    ensures EvacShape(h, order, supply, k + 1, s')
  {
    hide NewSlots, Inc, EvacReady, SameButCount;
    KeptIsDone(h, order, supply, k, s, s');
    forall j: nat | j < k
      ensures Done(h, order, supply, j, s'.heap)
    {
      KeptKeepsDone(h, order, supply, k, s, s', j);
    }
    hide Done;
    forall a | a in h && a !in order[..k + 1] && a !in s'.fwd
      ensures SameButCount(h[a], s'.heap[a])
    {
      KeptKeepsRest(h, order, supply, k, s, s', a);
    }
  }

  lemma KeptIsDone(h: Heap, order: seq<Addr>, supply: seq<Addr>, k: nat, s: EvacState, s': EvacState)
    requires EvacReady(h, order, supply) && k < |order| && EvacShape(h, order, supply, k, s)
    requires RootAt(h, order[k]) && order[k] in s.heap && Kept(h, order, supply, k, s, s')
    ensures Done(h, order, supply, k, s'.heap)
  {
    hide NewSlots, Inc, EvacReady;
  }

  lemma KeptKeepsRest(h: Heap, order: seq<Addr>, supply: seq<Addr>, k: nat, s: EvacState, s': EvacState, a: Addr)
    requires k < |order| && EvacShape(h, order, supply, k, s) && order[k] in h
    requires order[k] in s.heap && Kept(h, order, supply, k, s, s')
    requires a in h && a !in order[..k + 1] && a !in s'.fwd
    ensures a in s'.heap && SameButCount(h[a], s'.heap[a])
  {
    hide NewSlots, Inc, Done;
    PrefixGrows(order, k, a);
    assert SameButCount(h[a], s.heap[a]);
  }

  lemma MovedKeepsDone(h: Heap, order: seq<Addr>, supply: seq<Addr>, k: nat, s: EvacState, s': EvacState, j: nat)
    requires EvacReady(h, order, supply) && k < |order| && EvacShape(h, order, supply, k, s)
    requires !RootAt(h, order[k]) && order[k] in s.heap && |s.fwd| < |supply| && Moved(h, order, supply, k, s, s')
    requires j < k
    ensures Done(h, order, supply, j, s'.heap)
  {
    hide NewSlots;
    hide Inc;
    hide EvacReady;
    hide SameButCount;
    assert Done(h, order, supply, j, s.heap);
    EarlierPlaces(h, order, supply, k, j);
    NextFree(h, order, supply, k, s);
    DonePersists(h, order, supply, j, s.heap, s'.heap);
  }

  lemma MovedKeepsRest(h: Heap, order: seq<Addr>, supply: seq<Addr>, k: nat, s: EvacState, s': EvacState, a: Addr)
    requires EvacReady(h, order, supply) && k < |order| && EvacShape(h, order, supply, k, s)
    requires order[k] in s.heap && |s.fwd| < |supply| && Moved(h, order, supply, k, s, s')
    requires a in h && a !in order[..k + 1] && a !in s'.fwd
    ensures SameButCount(h[a], s'.heap[a])
  {
    hide NewSlots;
    hide Inc;
    PrefixGrows(order, k, a);
    assert SameButCount(h[a], s.heap[a]);
    assert s'.fwd[|s.fwd|] in s'.fwd && forall y :: y in s.fwd ==> y in s'.fwd;
  }

  lemma MovedIsDone(h: Heap, order: seq<Addr>, supply: seq<Addr>, k: nat, s: EvacState, s': EvacState)
    requires k < |order| && order[k] in h && !RootAt(h, order[k]) && order[k] in s.heap
    requires |s.fwd| == Rank(h, order, k) < |supply| && supply[|s.fwd|] in s.heap
    requires Moved(h, order, supply, k, s, s')
    ensures Done(h, order, supply, k, s'.heap)
  {
    hide NewSlots;
    hide Inc;
    hide SameButCount;
    hide Rank;
  }

  lemma MovedDone(h: Heap, order: seq<Addr>, supply: seq<Addr>, k: nat, s: EvacState, s': EvacState)
    requires EvacReady(h, order, supply) && k < |order| && EvacShape(h, order, supply, k, s)
    requires !RootAt(h, order[k]) && order[k] in s.heap && |s.fwd| < |supply| && Moved(h, order, supply, k, s, s')
    ensures s'.heap.Keys == h.Keys && Done(h, order, supply, k, s'.heap)
    ensures |s'.fwd| == Rank(h, order, k + 1) <= |supply| && s'.fwd == supply[..|s'.fwd|]
  {
    hide NewSlots;
    hide Inc;
    hide EvacReady;
    hide Done;
    NextFree(h, order, supply, k, s);
    assert |s.fwd| == Rank(h, order, k);
    MovedIsDone(h, order, supply, k, s, s');
  }

  lemma MovedShape(h: Heap, order: seq<Addr>, supply: seq<Addr>, k: nat, s: EvacState, s': EvacState)
    requires EvacReady(h, order, supply) && k < |order| && EvacShape(h, order, supply, k, s)
    requires !RootAt(h, order[k]) && order[k] in s.heap && |s.fwd| < |supply| && Moved(h, order, supply, k, s, s')
    ensures EvacShape(h, order, supply, k + 1, s')
  {
    hide Moved;
    hide EvacReady;
    hide SameButCount;
    hide Done;
    hide Rank;
    MovedDone(h, order, supply, k, s, s');
    hide RootAt;
    hide Distinct;
    forall j: nat | j < k
      ensures Done(h, order, supply, j, s'.heap)
    {
      MovedKeepsDone(h, order, supply, k, s, s', j);
    }
    forall a | a in h && a !in order[..k + 1] && a !in s'.fwd
      ensures SameButCount(h[a], s'.heap[a])
    {
      MovedKeepsRest(h, order, supply, k, s, s', a);
    }
  }

  lemma EvacStepShape(h: Heap, order: seq<Addr>, supply: seq<Addr>, k: nat, s: EvacState)
    requires EvacReady(h, order, supply) && k < |order| && EvacShape(h, order, supply, k, s)
    ensures EvacShape(h, order, supply, k + 1, EvacObj(s, order[k], supply))
  {
    hide EvacShape;
    hide EvacReady;
    hide Kept;
    hide Moved;
    hide EvacObj;
    if RootAt(h, order[k]) {
      KeepRootExactly(h, order, supply, k, s);
      KeptShape(h, order, supply, k, s, EvacObj(s, order[k], supply));
    } else {
      MoveToExactly(h, order, supply, k, s);
      MovedShape(h, order, supply, k, s, EvacObj(s, order[k], supply));
    }
  }

  lemma EvacStartShape(h: Heap, order: seq<Addr>, supply: seq<Addr>)
    ensures EvacShape(h, order, supply, 0, EvacState(h, []))
  {
    assert forall a :: a in h ==> SameButCount(h[a], h[a]);
  }

  /** For any order of the list, the state after k objects has the stated shape. */
  lemma {:induction false} EvacNShape(h: Heap, order: seq<Addr>, supply: seq<Addr>, k: nat)
    requires EvacReady(h, order, supply) && k <= |order|
    ensures EvacShape(h, order, supply, k, EvacN(h, order, supply, k))
  {
    hide EvacShape;
    hide EvacReady;
    hide EvacObj;
    if k == 0 {
      EvacStartShape(h, order, supply);
    } else {
      EvacNShape(h, order, supply, k - 1);
      EvacStepShape(h, order, supply, k - 1, EvacN(h, order, supply, k - 1));
    }
  }
}
