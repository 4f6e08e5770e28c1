/** Draining the decrement queue: the specification functions and their closed forms. */
module Decrements {
  import opened Graph
  import opened Heap
  import opened Evacuation
  import opened EvacuationCounts
  import opened Layout

  /** pending_decs, each page's pending_decs_count, and decremented_pages. */
  datatype DecState = DecState(heap: Heap, queue: seq<Addr>, pending: map<Addr, nat>, touched: seq<Addr>)

  function CountAt(pending: map<Addr, nat>, page: Addr): nat {
    if page in pending then pending[page] else 0
  }

  /** One slot of the popped object: count down, and queue the target when it drops to zero. */
  ghost function DecSlot(s: DecState, x: Addr, i: nat): DecState {
    if x in s.heap && IsPtr(s.heap[x], i) then
      var t := s.heap[x].slots[i];
      var h := AddRef(s.heap, t, -1);
      if t in h && h[t].meta.refCount == 0 && !h[t].meta.isRoot then
        s.(heap := h, queue := s.queue + [t],
           pending := s.pending[PageBase(t) := CountAt(s.pending, PageBase(t)) + 1])
      else s.(heap := h)
    else s
  }

  ghost function DecN(s: DecState, x: Addr, n: nat): DecState {
    if n == 0 then s else DecSlot(DecN(s, x, n - 1), x, n - 1)
  }

  /** Hand the entry back to its page. */
  ghost function FreeObj(s: DecState, x: Addr): DecState {
    if x in s.heap then
      var page := PageBase(x);
      var c := CountAt(s.pending, page);
      s.(heap := s.heap[x := s.heap[x].(meta := s.heap[x].meta.(isAlloc := false))],
         pending := if c != 0 then s.pending[page := c - 1] else s.pending,
         touched := s.touched + [page])
    else s
  }

  /** One iteration of the loop. */
  ghost function DecPop(s: DecState): DecState
    requires s.queue != []
  {
    var x := s.queue[0];
    var s1 := s.(queue := s.queue[1..]);
    if x in s.heap && s.heap[x].meta.isAlloc then FreeObj(DecN(s1, x, |Mask(s.heap[x])|), x) else s1
  }

  ghost function DecRun(s: DecState, budget: nat): DecState
    decreases budget
  {
    if budget == 0 || s.queue == [] then s else DecRun(DecPop(s), budget - 1)
  }

  // ---- Closed form of one object's decrements

  ghost function Taken(o: Object, n: nat, a: Addr): set<nat> {
    set i: nat | i < n && IsPtr(o, i) && o.slots[i] == a
  }

  function SlotTo(o: Object, n: nat, a: Addr): int {
    if IsPtr(o, n) && o.slots[n] == a then 1 else 0
  }

  lemma TakenSnoc(o: Object, n: nat, a: Addr)
    ensures |Taken(o, n + 1, a)| == |Taken(o, n, a)| + SlotTo(o, n, a)
  {
    if IsPtr(o, n) && o.slots[n] == a {
      assert Taken(o, n + 1, a) == Taken(o, n, a) + {n};
    } else {
      assert Taken(o, n + 1, a) == Taken(o, n, a);
    }
  }

  lemma TakenAll(o: Object, a: Addr)
    ensures Taken(o, |Mask(o)|, a) == SlotsTo(o, a)
  {
  }

  lemma {:induction false} TakenMonotone(o: Object, m: nat, n: nat, a: Addr)
    requires m <= n
    ensures |Taken(o, m, a)| <= |Taken(o, n, a)|
  {
    if m < n {
      TakenMonotone(o, m, n - 1, a);
      TakenSnoc(o, n - 1, a);
    }
  }

  /** Only counts change, by the slots taken so far. */
  ghost predicate CountedDown(h: Heap, o: Object, n: nat, h': Heap) {
    && h'.Keys == h.Keys
    && forall a :: a in h ==> h'[a].slots == h[a].slots && CountedFrom(h[a].meta, h'[a].meta, -|Taken(o, n, a)|)
  }

  lemma SlotUnchanged(h: Heap, o: Object, n: nat, h1: Heap, x: Addr)
    requires x in h && CountedDown(h, o, n, h1)
    ensures x in h1 && h1[x].slots == h[x].slots && Mask(h1[x]) == Mask(h[x])
    ensures forall i: nat :: IsPtr(h1[x], i) == IsPtr(h[x], i)
  {
    hide Taken;
    assert CountedFrom(h[x].meta, h1[x].meta, -|Taken(o, n, x)|);
  }

  lemma SlotCountsDownAt(h: Heap, x: Addr, n: nat, s1: DecState, a: Addr)
    requires x in h && CountedDown(h, h[x], n, s1.heap) && a in h
    ensures DecSlot(s1, x, n).heap.Keys == h.Keys
    ensures DecSlot(s1, x, n).heap[a].slots == h[a].slots
    ensures CountedFrom(h[a].meta, DecSlot(s1, x, n).heap[a].meta, -|Taken(h[x], n + 1, a)|)
  {
    hide Taken, CountedDown, CountedFrom, DecSlot, SlotTo;
    SlotUnchanged(h, h[x], n, s1.heap, x);
    SameSlotTo(h[x], s1.heap[x], n, a);
    TakenSnoc(h[x], n, a);
    CountedAt(h, h[x], n, s1.heap, a);
    DecSlotAt(s1, x, n, a);
    AddCounted(h[a].meta, s1.heap[a].meta, DecSlot(s1, x, n).heap[a].meta, -|Taken(h[x], n, a)|,
               -SlotTo(h[x], n, a));
  }

  lemma SameSlotTo(o: Object, o': Object, n: nat, a: Addr)
    requires IsPtr(o', n) == IsPtr(o, n) && o'.slots == o.slots
    ensures SlotTo(o', n, a) == SlotTo(o, n, a)
  {
  }

  lemma CountedAt(h: Heap, o: Object, n: nat, h1: Heap, a: Addr)
    requires CountedDown(h, o, n, h1) && a in h
    ensures h1.Keys == h.Keys && h1[a].slots == h[a].slots && CountedFrom(h[a].meta, h1[a].meta, -|Taken(o, n, a)|)
  {
    hide Taken;
  }

  /** One slot changes nothing but the count of its target. */
  lemma DecSlotAt(s: DecState, x: Addr, n: nat, a: Addr)
    requires x in s.heap && a in s.heap
    ensures var h := DecSlot(s, x, n).heap;
            && h.Keys == s.heap.Keys && h[a].slots == s.heap[a].slots
            && CountedFrom(s.heap[a].meta, h[a].meta, -SlotTo(s.heap[x], n, a))
  {
    hide IsPtr;
  }

  lemma AddCounted(m: MetaData, m1: MetaData, m2: MetaData, d: int, e: int)
    requires CountedFrom(m, m1, d) && CountedFrom(m1, m2, e)
    ensures CountedFrom(m, m2, d + e)
  {
  }

  lemma SlotCountsDown(h: Heap, x: Addr, n: nat, s1: DecState)
    requires x in h && CountedDown(h, h[x], n, s1.heap)
    ensures CountedDown(h, h[x], n + 1, DecSlot(s1, x, n).heap)
  {
    hide Taken;
    hide DecSlot;
    SlotCountsDownAt(h, x, n, s1, x);
    forall a | a in h
      ensures DecSlot(s1, x, n).heap[a].slots == h[a].slots
      ensures CountedFrom(h[a].meta, DecSlot(s1, x, n).heap[a].meta, -|Taken(h[x], n + 1, a)|)
    {
      SlotCountsDownAt(h, x, n, s1, a);
    }
  }

  lemma NothingTaken(h: Heap, o: Object)
    ensures CountedDown(h, o, 0, h)
  {
    forall a
      ensures Taken(o, 0, a) == {}
    {
    }
  }

  lemma {:induction false} DecNCountsDown(s: DecState, x: Addr, n: nat)
    requires x in s.heap
    ensures CountedDown(s.heap, s.heap[x], n, DecN(s, x, n).heap)
    ensures DecN(s, x, n).touched == s.touched
  {
    hide CountedDown;
    if n == 0 {
      NothingTaken(s.heap, s.heap[x]);
    } else {
      DecNCountsDown(s, x, n - 1);
      SlotCountsDown(s.heap, x, n - 1, DecN(s, x, n - 1));
    }
  }

  /** No object has more pointers from x than its count. */
  ghost predicate Affordable(h: Heap, o: Object) {
    forall a, i: nat :: IsPtr(o, i) && o.slots[i] == a ==> a in h && |Taken(o, |Mask(o)|, a)| <= h[a].meta.refCount
  }

  /** a was brought to zero by the first n slots and is not a root. */
  ghost predicate Dropped(h: Heap, o: Object, n: nat, a: Addr) {
    a in h && Taken(o, n, a) != {} && h[a].meta.refCount == |Taken(o, n, a)| && !h[a].meta.isRoot
  }

  /** What gets queued: everything dropped, each once, behind what was queued. */
  ghost predicate Queued(h: Heap, o: Object, n: nat, q: seq<Addr>, q': seq<Addr>) {
    && q <= q' && Distinct(q'[|q|..])
    && forall a :: a in q'[|q|..] <==> Dropped(h, o, n, a)
  }

  lemma DroppedSnoc(h: Heap, o: Object, n: nat, a: Addr)
    requires Affordable(h, o) && n < |Mask(o)|
    ensures var hit := IsPtr(o, n) && o.slots[n] == a;
            && (!hit ==> (Dropped(h, o, n + 1, a) <==> Dropped(h, o, n, a)))
            && (hit ==> !Dropped(h, o, n, a))
            && (hit ==> (Dropped(h, o, n + 1, a) <==>
                          a in h && h[a].meta.refCount - |Taken(o, n, a)| - 1 == 0 && !h[a].meta.isRoot))
  {
    TakenSnoc(o, n, a);
    if IsPtr(o, n) && o.slots[n] == a {
      TakenMonotone(o, n + 1, |Mask(o)|, a);
      assert n in Taken(o, n + 1, a);
    } else {
      assert Taken(o, n + 1, a) == Taken(o, n, a);
    }
  }

  /** What one more slot does to the queue. */
  lemma SlotQueueStep(h: Heap, x: Addr, n: nat, s1: DecState)
    requires x in h && Affordable(h, h[x]) && n < |Mask(h[x])| && CountedDown(h, h[x], n, s1.heap)
    ensures var hit := IsPtr(h[x], n) && Dropped(h, h[x], n + 1, h[x].slots[n]);
            DecSlot(s1, x, n).queue == if hit then s1.queue + [h[x].slots[n]] else s1.queue
  {
    SlotUnchanged(h, h[x], n, s1.heap, x);
    hide Taken;
    if IsPtr(h[x], n) {
      var t := h[x].slots[n];
      DroppedSnoc(h, h[x], n, t);
      assert t in h;
      assert CountedFrom(h[t].meta, s1.heap[t].meta, -|Taken(h[x], n, t)|);
    }
    hide Affordable;
    hide Dropped;
  }

  lemma DroppedStep(h: Heap, o: Object, n: nat, a: Addr)
    requires Affordable(h, o) && n < |Mask(o)|
    ensures IsPtr(o, n) && o.slots[n] == a ==> !Dropped(h, o, n, a)
    ensures !(IsPtr(o, n) && o.slots[n] == a) ==> (Dropped(h, o, n + 1, a) <==> Dropped(h, o, n, a))
  {
    DroppedSnoc(h, o, n, a);
  }

  lemma SlotQueues(h: Heap, x: Addr, n: nat, q: seq<Addr>, s1: DecState)
    requires x in h && Affordable(h, h[x]) && n < |Mask(h[x])|
    requires CountedDown(h, h[x], n, s1.heap) && Queued(h, h[x], n, q, s1.queue)
    ensures Queued(h, h[x], n + 1, q, DecSlot(s1, x, n).queue)
  {
    hide Affordable;
    hide Dropped;
    hide DecSlot;
    hide CountedDown;
    var o := h[x];
    var q1, q2 := s1.queue, DecSlot(s1, x, n).queue;
    SlotQueueStep(h, x, n, s1);
    var hit := IsPtr(o, n) && Dropped(h, o, n + 1, o.slots[n]);
    assert q2[..|q|] == q1[..|q|];
    assert q2[|q|..] == if hit then q1[|q|..] + [o.slots[n]] else q1[|q|..];
    forall a
      ensures a in q2[|q|..] <==> Dropped(h, o, n + 1, a)
      ensures hit && a == o.slots[n] ==> a !in q1[|q|..]
    {
      DroppedStep(h, o, n, a);
      assert a in q1[|q|..] <==> Dropped(h, o, n, a);
    }
    assert q <= q2;
    if hit {
      DistinctSnoc(q1[|q|..], o.slots[n]);
    }
  }

  lemma NothingQueued(h: Heap, o: Object, q: seq<Addr>)
    ensures Queued(h, o, 0, q, q)
  {
    forall a
      ensures Taken(o, 0, a) == {}
    {
    }
  }

  lemma {:induction false} DecNQueues(s: DecState, x: Addr, n: nat)
    requires x in s.heap && Affordable(s.heap, s.heap[x]) && n <= |Mask(s.heap[x])|
    ensures Queued(s.heap, s.heap[x], n, s.queue, DecN(s, x, n).queue)
  {
    hide Queued;
    hide Affordable;
    hide CountedDown;
    if n > 0 {
      DecNQueues(s, x, n - 1);
      DecNCountsDown(s, x, n - 1);
      SlotQueues(s.heap, x, n - 1, s.queue, DecN(s, x, n - 1));
    } else {
      NothingQueued(s.heap, s.heap[x], s.queue);
    }
  }
}
