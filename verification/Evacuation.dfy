/** Evacuating marked young objects, forwarding slots and counting references: the specification functions. */
module Evacuation {
  import opened Graph
  import opened Heap

  /** Where a slot value goes under the forward table. */
  ghost function FwdOf(h: Heap, fwd: seq<Addr>, t: Addr): Addr {
    if t in h && h[t].meta.forwardIndex != MAX_FWD_INDEX && h[t].meta.forwardIndex < |fwd|
    then fwd[h[t].meta.forwardIndex]
    else t
  }

  ghost function AddRef(h: Heap, t: Addr, d: int): Heap {
    if t in h then h[t := h[t].(meta := h[t].meta.(refCount := h[t].meta.refCount + d))] else h
  }

  /** One slot of updatePointers. */
  ghost function UpdateSlot(h: Heap, fwd: seq<Addr>, x: Addr, i: nat): Heap {
    if x in h && IsPtr(h[x], i) then
      var t := FwdOf(h, fwd, h[x].slots[i]);
      AddRef(h[x := h[x].(slots := h[x].slots[i := t])], t, 1)
    else h
  }

  /** The first n slots of updatePointers. */
  ghost function UpdateN(h: Heap, fwd: seq<Addr>, x: Addr, n: nat): Heap {
    if n == 0 then h else UpdateSlot(UpdateN(h, fwd, x, n - 1), fwd, x, n - 1)
  }

  ghost function UpdatePointers(h: Heap, fwd: seq<Addr>, x: Addr): Heap
    requires x in h
  {
    UpdateN(h, fwd, x, |Mask(h[x])|)
  }

  datatype EvacState = EvacState(heap: Heap, fwd: seq<Addr>)

  /** The words xmem_copy moves. */
  ghost function CopiedSlots(o: Object): seq<Word> {
    if o.meta.typ.Some? && o.meta.typ.value.slotSize <= |o.slots| then o.slots[..o.meta.typ.value.slotSize] else o.slots
  }

  /** A root is updated where it is and turns old. */
  ghost function KeepRoot(s: EvacState, x: Addr): EvacState
    requires x in s.heap
  {
    var h := UpdatePointers(s.heap, s.fwd, x);
    s.(heap := if x in h then h[x := h[x].(meta := h[x].meta.(isYoung := false))] else h)
  }

  /** Any other object is copied to the free entry y, and its old place records the forward index. */
  ghost function MoveTo(s: EvacState, x: Addr, y: Addr): EvacState
    requires x in s.heap
  {
    var copied := s.heap[y := Object(ConvertOldMeta(s.heap[x].meta.typ), CopiedSlots(s.heap[x]))];
    var h := UpdatePointers(copied, s.fwd, y);
    EvacState(if x in h then h[x := h[x].(meta := ResetMeta(|s.fwd|))] else h, s.fwd + [y])
  }

  /** One pending young object; free entries are used in order. */
  ghost function EvacObj(s: EvacState, x: Addr, supply: seq<Addr>): EvacState {
    if x !in s.heap then s
    else if s.heap[x].meta.isRoot then KeepRoot(s, x)
    else if |s.fwd| < |supply| then MoveTo(s, x, supply[|s.fwd|])
    else s
  }

  /** The first k pending objects. */
  ghost function EvacN(h: Heap, order: seq<Addr>, supply: seq<Addr>, k: nat): EvacState
    requires k <= |order|
  {
    if k == 0 then EvacState(h, []) else EvacObj(EvacN(h, order, supply, k - 1), order[k - 1], supply)
  }

  // ---- What the phase is given

  ghost predicate RootAt(h: Heap, x: Addr) {
    x in h && h[x].meta.isRoot
  }

  /** How many of the first k pending objects get moved. */
  ghost function Rank(h: Heap, order: seq<Addr>, k: nat): nat
    requires k <= |order|
  {
    if k == 0 then 0 else Rank(h, order, k - 1) + if RootAt(h, order[k - 1]) then 0 else 1
  }

  ghost predicate WfObject(o: Object) {
    && o.meta.typ.Some?
    && |o.slots| == o.meta.typ.value.slotSize
    && (o.meta.typ.value.ptrMask.Some? ==> |Mask(o)| == |o.slots|)
  }

  /** Distinct, word-aligned, unallocated entries. */
  ghost predicate FreeEntries(h: Heap, supply: seq<Addr>) {
    && Distinct(supply)
    && forall y :: y in supply ==> y in h && !h[y].meta.isAlloc && y != 0 && y % 8 == 0
  }

  ghost predicate OrderedYoung(h: Heap, order: seq<Addr>) {
    && Distinct(order)
    && forall x :: x in order ==> x in h && h[x].meta.isAlloc && h[x].meta.isYoung && WfObject(h[x])
  }

  ghost predicate Unforwarded(h: Heap) {
    forall a :: a in h && h[a].meta.isAlloc ==> h[a].meta.forwardIndex == MAX_FWD_INDEX
  }

  /** Pointer slots of allocated objects hold allocated objects. */
  ghost predicate ClosedHeap(h: Heap) {
    forall x, i: nat :: x in h && h[x].meta.isAlloc && IsPtr(h[x], i)
      ==> h[x].slots[i] in h && h[h[x].slots[i]].meta.isAlloc
  }

  ghost predicate EvacReady(h: Heap, order: seq<Addr>, supply: seq<Addr>) {
    && OrderedYoung(h, order) && FreeEntries(h, supply) && Unforwarded(h) && ClosedHeap(h)
    && Rank(h, order, |order|) <= |supply|
    && Rank(h, order, |order|) <= BSQ_MAX_FWD_TABLE_ENTRIES
  }

  lemma {:induction false} RankMonotone(h: Heap, order: seq<Addr>, j: nat, k: nat)
    requires j <= k <= |order|
    ensures Rank(h, order, j) <= Rank(h, order, k)
    ensures j < k && !RootAt(h, order[j]) ==> Rank(h, order, j) < Rank(h, order, k)
  {
    if j < k {
      RankMonotone(h, order, j, k - 1);
    }
  }

  // ---- Updating one object's pointers

  /** Slots among the first n of x that are forwarded to a. */
  ghost function Inc(h: Heap, fwd: seq<Addr>, x: Addr, n: nat, a: Addr): set<nat>
    requires x in h
  {
    set i: nat | i < n && IsPtr(h[x], i) && FwdOf(h, fwd, h[x].slots[i]) == a
  }

  ghost predicate HitsAt(h: Heap, fwd: seq<Addr>, x: Addr, n: nat, a: Addr)
    requires x in h
  {
    IsPtr(h[x], n) && FwdOf(h, fwd, h[x].slots[n]) == a
  }

  lemma IncSnoc(h: Heap, fwd: seq<Addr>, x: Addr, n: nat, a: Addr)
    requires x in h
    ensures |Inc(h, fwd, x, n + 1, a)| == |Inc(h, fwd, x, n, a)| + if HitsAt(h, fwd, x, n, a) then 1 else 0
  {
    if HitsAt(h, fwd, x, n, a) {
      assert Inc(h, fwd, x, n + 1, a) == Inc(h, fwd, x, n, a) + {n};
    } else {
      assert Inc(h, fwd, x, n + 1, a) == Inc(h, fwd, x, n, a);
    }
  }

  ghost predicate ForwardsInto(h: Heap, fwd: seq<Addr>, x: Addr)
    requires x in h
  {
    forall i: nat :: IsPtr(h[x], i) ==> FwdOf(h, fwd, h[x].slots[i]) in h
  }

  ghost function UpdatedSlots(h: Heap, fwd: seq<Addr>, x: Addr, n: nat): seq<Word>
    requires x in h
  {
    seq(|h[x].slots|, i requires 0 <= i < |h[x].slots| =>
      if i < n && IsPtr(h[x], i) then FwdOf(h, fwd, h[x].slots[i]) else h[x].slots[i])
  }

  /** h' is h with the first n slots of x rewritten and counted, and nothing else changed. */
  ghost predicate Updated(h: Heap, fwd: seq<Addr>, x: Addr, n: nat, h': Heap)
    requires x in h
  {
    && h'.Keys == h.Keys
    && h'[x].slots == UpdatedSlots(h, fwd, x, n)
    && (forall a :: a in h && a != x ==> h'[a].slots == h[a].slots)
    && (forall a :: a in h ==> CountedFrom(h[a].meta, h'[a].meta, |Inc(h, fwd, x, n, a)|))
  }

  ghost predicate CountedFrom(m: MetaData, m': MetaData, d: int) {
    m' == m.(refCount := m.refCount + d)
  }

  lemma SlotSeen(h: Heap, fwd: seq<Addr>, x: Addr, n: nat, h1: Heap)
    requires x in h && Updated(h, fwd, x, n, h1)
    ensures IsPtr(h1[x], n) == IsPtr(h[x], n)
    ensures IsPtr(h[x], n) ==> h1[x].slots[n] == h[x].slots[n]
    ensures IsPtr(h[x], n) ==> FwdOf(h1, fwd, h[x].slots[n]) == FwdOf(h, fwd, h[x].slots[n])
  {
    hide Inc;
    assert CountedFrom(h[x].meta, h1[x].meta, |Inc(h, fwd, x, n, x)|);
    if IsPtr(h[x], n) && h[x].slots[n] in h {
      var t := h[x].slots[n];
      assert CountedFrom(h[t].meta, h1[t].meta, |Inc(h, fwd, x, n, t)|);
    }
  }

  lemma SlotRewrites(h: Heap, fwd: seq<Addr>, x: Addr, n: nat, h1: Heap)
    requires x in h && ForwardsInto(h, fwd, x) && Updated(h, fwd, x, n, h1)
    ensures var h2 := UpdateSlot(h1, fwd, x, n);
            && h2.Keys == h.Keys
            && h2[x].slots == UpdatedSlots(h, fwd, x, n + 1)
            && (forall a :: a in h && a != x ==> h2[a].slots == h[a].slots)
  {
    hide Inc, IsPtr, FwdOf, UpdatedSlots, CountedFrom;
    SlotSeen(h, fwd, x, n, h1);
    SlotWritten(h1, fwd, x, n);
    OneMoreSlot(h, fwd, x, n);
  }

  /** One iteration writes one slot, and otherwise only a count. */
  lemma SlotWritten(h: Heap, fwd: seq<Addr>, x: Addr, n: nat)
    requires x in h && (IsPtr(h[x], n) ==> FwdOf(h, fwd, h[x].slots[n]) in h)
    ensures var h' := UpdateSlot(h, fwd, x, n);
            && h'.Keys == h.Keys
            && h'[x].slots == (if IsPtr(h[x], n) then h[x].slots[n := FwdOf(h, fwd, h[x].slots[n])] else h[x].slots)
            && (forall a :: a in h && a != x ==> h'[a].slots == h[a].slots)
  {
    hide FwdOf;
  }

  lemma OneMoreSlot(h: Heap, fwd: seq<Addr>, x: Addr, n: nat)
    requires x in h
    ensures |UpdatedSlots(h, fwd, x, n)| == |h[x].slots|
    ensures var slots := UpdatedSlots(h, fwd, x, n);
            UpdatedSlots(h, fwd, x, n + 1) ==
              if IsPtr(h[x], n) then slots[n := FwdOf(h, fwd, h[x].slots[n])] else slots
  {
    hide FwdOf;
  }

  lemma SlotCounts(h: Heap, fwd: seq<Addr>, x: Addr, n: nat, h1: Heap, a: Addr)
    requires x in h && ForwardsInto(h, fwd, x) && Updated(h, fwd, x, n, h1) && a in h
    ensures a in UpdateSlot(h1, fwd, x, n)
    ensures CountedFrom(h[a].meta, UpdateSlot(h1, fwd, x, n)[a].meta, |Inc(h, fwd, x, n + 1, a)|)
  {
    hide Inc;
    hide UpdatedSlots;
    IncSnoc(h, fwd, x, n, a);
    SlotSeen(h, fwd, x, n, h1);
    assert CountedFrom(h[a].meta, h1[a].meta, |Inc(h, fwd, x, n, a)|);
  }

  lemma UpdateSlotExactly(h: Heap, fwd: seq<Addr>, x: Addr, n: nat, h1: Heap)
    requires x in h && ForwardsInto(h, fwd, x) && Updated(h, fwd, x, n, h1)
    ensures Updated(h, fwd, x, n + 1, UpdateSlot(h1, fwd, x, n))
  {
    hide Inc;
    hide UpdatedSlots;
    hide IsPtr;
    SlotRewrites(h, fwd, x, n, h1);
    var h2 := UpdateSlot(h1, fwd, x, n);
    forall a | a in h
      ensures CountedFrom(h[a].meta, h2[a].meta, |Inc(h, fwd, x, n + 1, a)|)
    {
      SlotCounts(h, fwd, x, n, h1, a);
    }
  }

  lemma UpdatedNothing(h: Heap, fwd: seq<Addr>, x: Addr)
    requires x in h
    ensures Updated(h, fwd, x, 0, h)
  {
    assert UpdatedSlots(h, fwd, x, 0) == h[x].slots;
    forall a | a in h
      ensures Inc(h, fwd, x, 0, a) == {}
    {
    }
  }

  /** updatePointers rewrites the pointer slots of x, adds their counts, and changes nothing else. */
  lemma {:induction false} UpdateNExactly(h: Heap, fwd: seq<Addr>, x: Addr, n: nat)
    requires x in h && ForwardsInto(h, fwd, x)
    ensures Updated(h, fwd, x, n, UpdateN(h, fwd, x, n))
  {
    hide Updated;
    if n > 0 {
      UpdateNExactly(h, fwd, x, n - 1);
      UpdateSlotExactly(h, fwd, x, n - 1, UpdateN(h, fwd, x, n - 1));
    } else {
      UpdatedNothing(h, fwd, x);
    }
  }

  // ---- The shape of the state after k objects

  /** What a slot value t is rewritten to once the first k objects are processed. */
  ghost function Img(h: Heap, order: seq<Addr>, supply: seq<Addr>, k: nat, t: Addr): Addr
    requires k <= |order|
  {
    if k == 0 then t
    else if order[k - 1] == t && !RootAt(h, t) && Rank(h, order, k - 1) < |supply| then
      supply[Rank(h, order, k - 1)]
    else Img(h, order, supply, k - 1, t)
  }

  /** The slots object number j ends up with. */
  ghost function NewSlots(h: Heap, order: seq<Addr>, supply: seq<Addr>, j: nat): seq<Word>
    requires j < |order| && order[j] in h
  {
    var o := h[order[j]];
    seq(|o.slots|, i requires 0 <= i < |o.slots| =>
      if IsPtr(o, i) then Img(h, order, supply, j, o.slots[i]) else o.slots[i])
  }

  ghost predicate SameButCount(o: Object, o': Object) {
    o'.slots == o.slots && o'.meta == o.meta.(refCount := o'.meta.refCount)
  }

  /** Object number j has been dealt with. */
  ghost predicate RootDone(h: Heap, order: seq<Addr>, supply: seq<Addr>, j: nat, h': Heap)
    requires j < |order| && order[j] in h && order[j] in h'
  {
    SameButCount(Object(h[order[j]].meta.(isYoung := false), NewSlots(h, order, supply, j)), h'[order[j]])
  }

  ghost predicate MoveDone(h: Heap, order: seq<Addr>, supply: seq<Addr>, j: nat, h': Heap)
    requires j < |order| && order[j] in h && order[j] in h'
  {
    var r := Rank(h, order, j);
    && r < |supply| && supply[r] in h'
    && SameButCount(Object(ResetMeta(r), h[order[j]].slots), h'[order[j]])
    && SameButCount(Object(ConvertOldMeta(h[order[j]].meta.typ), NewSlots(h, order, supply, j)), h'[supply[r]])
  }

  ghost predicate Done(h: Heap, order: seq<Addr>, supply: seq<Addr>, j: nat, h': Heap) {
    && j < |order| && order[j] in h && order[j] in h'
    && if RootAt(h, order[j]) then RootDone(h, order, supply, j, h') else MoveDone(h, order, supply, j, h')
  }

  ghost predicate EvacShape(h: Heap, order: seq<Addr>, supply: seq<Addr>, k: nat, s: EvacState)
    requires k <= |order|
  {
    && s.heap.Keys == h.Keys
    && |s.fwd| == Rank(h, order, k) <= |supply| && s.fwd == supply[..|s.fwd|]
    && (forall j :: 0 <= j < k ==> Done(h, order, supply, j, s.heap))
    && (forall a :: a in h && a !in order[..k] && a !in s.fwd ==> SameButCount(h[a], s.heap[a]))
  }

  lemma {:induction false} ImgOfMoved(h: Heap, order: seq<Addr>, supply: seq<Addr>, k: nat, j: nat)
    requires EvacReady(h, order, supply) && j < k <= |order| && !RootAt(h, order[j])
    ensures Rank(h, order, j) < |supply| && Img(h, order, supply, k, order[j]) == supply[Rank(h, order, j)]
  {
    RankMonotone(h, order, j, |order|);
    if j < k - 1 {
      ImgOfMoved(h, order, supply, k - 1, j);
    }
  }

  lemma {:induction false} ImgOfOthers(h: Heap, order: seq<Addr>, supply: seq<Addr>, k: nat, t: Addr)
    requires k <= |order| && (t !in order[..k] || RootAt(h, t))
    ensures Img(h, order, supply, k, t) == t
  {
    if k > 0 {
      assert forall y :: y in order[..k - 1] ==> y in order[..k];
      assert order[..k][k - 1] == order[k - 1];
      ImgOfOthers(h, order, supply, k - 1, t);
    }
  }

  /** The forward table, as the code reads it, is the image function. */
  lemma FwdIsImg(h: Heap, order: seq<Addr>, supply: seq<Addr>, k: nat, s: EvacState, t: Addr)
    requires EvacReady(h, order, supply) && k <= |order| && EvacShape(h, order, supply, k, s)
    requires t in h && h[t].meta.isAlloc
    ensures FwdOf(s.heap, s.fwd, t) == Img(h, order, supply, k, t)
    ensures FwdOf(s.heap, s.fwd, t) in h
  {
    hide Img, Rank;
    if t in order[..k] {
      var j :| 0 <= j < k && order[..k][j] == t;
      if RootAt(h, t) {
        assert Done(h, order, supply, j, s.heap);
        ImgOfOthers(h, order, supply, k, t);
      } else {
        FwdIsMoved(h, order, supply, k, s, j);
        ImgOfMoved(h, order, supply, k, j);
      }
    } else {
      ImgOfOthers(h, order, supply, k, t);
      assert forall y :: y in s.fwd ==> y in supply;
      assert SameButCount(h[t], s.heap[t]);
    }
  }

  lemma FwdIsMoved(h: Heap, order: seq<Addr>, supply: seq<Addr>, k: nat, s: EvacState, j: nat)
    requires EvacReady(h, order, supply) && k <= |order| && EvacShape(h, order, supply, k, s)
    requires j < k && order[j] in h && !RootAt(h, order[j])
    ensures Rank(h, order, j) < |supply| && FwdOf(s.heap, s.fwd, order[j]) == supply[Rank(h, order, j)]
    ensures supply[Rank(h, order, j)] in h
  {
    hide Img, Rank;
    assert Done(h, order, supply, j, s.heap);
    RankMonotone(h, order, j, k);
    RankMonotone(h, order, k, |order|);
    assert supply[Rank(h, order, j)] in supply;
  }
}
