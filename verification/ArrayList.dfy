/** The segmented double-ended queue that holds the collector's work lists. */
module ArrayList {
  import opened Heap
  import Layout

  const BSQ_BLOCK_ALLOCATION_SIZE: nat := 4096
  /** sizeof(ArrayListSegment): data, next, prev */
  const SEGMENT_HEADER: nat := 24
  /** How many 8-byte elements fit behind the header of one page. */
  const CAPACITY: nat := 509

  // ---- Addresses

  /** The address of slot i of the segment on a page. */
  function SlotAddr(page: nat, size: nat, i: nat): nat {
    page + SEGMENT_HEADER + i * size
  }

  /**
   The bump pointer of a segment ever equals the end of its page exactly when the element size
   divides the room behind the header.
   */
  lemma TailMeetsMaxExactly(page: nat, size: nat)
    requires size > 0
    ensures (exists n: nat :: SlotAddr(page, size, n) == page + BSQ_BLOCK_ALLOCATION_SIZE)
       <==> (BSQ_BLOCK_ALLOCATION_SIZE - SEGMENT_HEADER) % size == 0
  {
    var room := BSQ_BLOCK_ALLOCATION_SIZE - SEGMENT_HEADER;
    if room % size == 0 {
      assert room == (room / size) * size;
      assert SlotAddr(page, size, room / size) == page + BSQ_BLOCK_ALLOCATION_SIZE;
    } else if n: nat :| SlotAddr(page, size, n) == page + BSQ_BLOCK_ALLOCATION_SIZE {
      assert n * size == room;
      ModOfMultiple(n, size);
    }
  }

  lemma ModOfMultiple(n: nat, d: nat)
    requires d > 0
    ensures (n * d) % d == 0
  {
    Layout.DivisionIsUnique(n * d, d, n);
    assert n * d == (n * d / d) * d + (n * d) % d;
  }

  /** 8-byte elements meet the end after 509 slots; 16-byte mark-stack entries step over it. */
  lemma ElementSizes(page: nat)
    ensures SlotAddr(page, 8, CAPACITY) == page + BSQ_BLOCK_ALLOCATION_SIZE
    ensures forall n: nat :: SlotAddr(page, 16, n) != page + BSQ_BLOCK_ALLOCATION_SIZE
  {
  }

  /** Comparing head and tail as addresses is comparing segment and slot. */
  lemma PositionsAreAddresses(page: nat, i: nat, page': nat, j: nat)
    requires page % BSQ_BLOCK_ALLOCATION_SIZE == 0 && page' % BSQ_BLOCK_ALLOCATION_SIZE == 0
    requires i < CAPACITY && j <= CAPACITY
    ensures SlotAddr(page, 8, i) == SlotAddr(page', 8, j) <==> page == page' && i == j
  {
  }

  // ---- The shape of the queue: segments, first valid slot, first invalid slot

  datatype Shape = Shape(segments: nat, head: nat, tail: nat)

  ghost predicate WfShape(s: Shape) {
    && s.segments >= 1 && s.head < CAPACITY && s.tail <= CAPACITY
    && (s.segments == 1 ==> s.head <= s.tail)
  }

  /** Number of elements. */
  function Size(s: Shape): int {
    (s.segments - 1) * CAPACITY + s.tail - s.head
  }

  function PushShape(s: Shape): Shape {
    if s.tail != CAPACITY then s.(tail := s.tail + 1) else Shape(s.segments + 1, s.head, 1)
  }

  /** Popping the last slot of the only segment follows its null next pointer. */
  function PopFrontShape(s: Shape): Option<Shape> {
    if s.head + 1 != CAPACITY then Some(s.(head := s.head + 1))
    else if s.segments <= 1 then None
    else Some(Shape(s.segments - 1, 0, s.tail))
  }

  function PopBackShape(s: Shape): Shape
    requires s.segments >= 1 && (s.tail == 0 ==> s.segments >= 2)
  {
    if s.tail == 0 then Shape(s.segments - 1, s.head, CAPACITY - 1) else s.(tail := s.tail - 1)
  }

  /**
   Popping from the back undoes a push, except that a page taken for it is kept; it is given back by the next pop,
   which then takes slot 508 of the page before.
   */
  lemma PopUndoesPush(s: Shape)
    requires WfShape(s)
    ensures var t := PushShape(s);
            t.segments == (if s.tail == 509 then s.segments + 1 else s.segments) && t.head == s.head && t.tail > 0
            && PopBackShape(t) == if s.tail == 509 then Shape(s.segments + 1, s.head, 0) else s
    ensures PopBackShape(Shape(s.segments + 1, s.head, 0)) == Shape(s.segments, s.head, 508)
  {
  }

  const FRESH: Shape := Shape(1, 0, 0)

  ghost function Pushed(s: Shape, n: nat): Shape {
    if n == 0 then s else PushShape(Pushed(s, n - 1))
  }

  /** Pop n elements from the front; None is the crash. */
  ghost function Drained(s: Shape, n: nat): Option<Shape> {
    if n == 0 then Some(s)
    else match Drained(s, n - 1)
      case None => None
      case Some(t) => PopFrontShape(t)
  }

  lemma {:induction false} PushedShape(n: nat)
    ensures var s := Pushed(FRESH, n);
            WfShape(s) && s.head == 0 && Size(s) == n && (n > 0 ==> s.tail > 0)
  {
    if n > 0 {
      PushedShape(n - 1);
    }
  }

  /** The front can be popped m times as long as slots remain after each pop. */
  lemma {:induction false} DrainedShape(s: Shape, m: nat)
    requires WfShape(s) && s.head == 0 && s.tail > 0 && m < s.segments * CAPACITY
    ensures Drained(s, m).Some?
    ensures var t := Drained(s, m).value;
            t.tail == s.tail && 1 <= t.segments <= s.segments && t.head < CAPACITY
            && (s.segments - t.segments) * CAPACITY + t.head == m
  {
    if m > 0 {
      DrainedShape(s, m - 1);
    }
  }

  /**
   Filling a fresh queue with n elements and emptying it from the front crashes exactly when n is a
   positive multiple of the segment capacity.
   */
  lemma FillThenDrainCrashesExactly(n: nat)
    ensures Drained(Pushed(FRESH, n), n).None? <==> n > 0 && n % CAPACITY == 0
  {
    PushedShape(n);
    var s := Pushed(FRESH, n);
    if n > 0 {
      if n < s.segments * CAPACITY {
        DrainedShape(s, n);
        assert n % CAPACITY != 0;
      } else {
        assert s.tail == CAPACITY && n == s.segments * CAPACITY;
        DrainedShape(s, n - 1);
      }
    }
  }

  // ---- The elements of a shape, out of all slots

  ghost function Window<T>(slots: seq<T>, s: Shape): seq<T>
    requires WfShape(s) && |slots| == s.segments * CAPACITY
  {
    slots[s.head..(s.segments - 1) * CAPACITY + s.tail]
  }

  lemma WindowPush<T>(front: seq<T>, last: seq<T>, s: Shape, v: T)
    requires WfShape(s) && s.tail < CAPACITY && |last| == CAPACITY && |front| == (s.segments - 1) * CAPACITY
    ensures WfShape(PushShape(s))
    ensures Window(front + last[s.tail := v], PushShape(s)) == Window(front + last, s) + [v]
  {
  }

  lemma WindowGrow<T>(slots: seq<T>, last: seq<T>, s: Shape, v: T)
    requires WfShape(s) && s.tail == CAPACITY && |last| == CAPACITY && last[0] == v && |slots| == s.segments * CAPACITY
    ensures WfShape(PushShape(s)) && Window(slots + last, PushShape(s)) == Window(slots, s) + [v]
  {
  }

  lemma WindowPopFront<T>(first: seq<T>, rest: seq<T>, s: Shape)
    requires WfShape(s) && |first| == CAPACITY && |rest| == (s.segments - 1) * CAPACITY
    requires Window(first + rest, s) != [] && PopFrontShape(s).Some?
    ensures Window(first + rest, s)[0] == first[s.head]
    ensures var t := PopFrontShape(s).value; var slots := if t.segments == s.segments then first + rest else rest;
            WfShape(t) && |slots| == t.segments * CAPACITY && Window(slots, t) == Window(first + rest, s)[1..]
  {
    var end := (s.segments - 1) * CAPACITY + s.tail;
    SliceHead(first + rest, s.head, end);
    if s.head + 1 == CAPACITY {
      SliceBehind(first, rest, end);
    }
  }

  /** A slice without its first element starts one later. */
  lemma SliceHead<T>(slots: seq<T>, from: nat, end: nat)
    requires from < end <= |slots|
    ensures slots[from..end][0] == slots[from] && slots[from..end][1..] == slots[from + 1..end]
  {
  }

  /** A slice behind a prefix is a slice of the rest. */
  lemma SliceBehind<T>(first: seq<T>, rest: seq<T>, end: nat)
    requires |first| <= end <= |first| + |rest|
    ensures (first + rest)[|first|..end] == rest[..end - |first|]
  {
    var a, b := (first + rest)[|first|..end], rest[..end - |first|];
    assert |a| == |b|;
    assert forall i :: 0 <= i < |b| ==> a[i] == (first + rest)[|first| + i] == rest[i] == b[i];
  }

  lemma WindowPopBack<T>(front: seq<T>, last: seq<T>, s: Shape)
    requires WfShape(s) && |last| == CAPACITY && |front| == (s.segments - 1) * CAPACITY
    requires Window(front + last, s) != []
    ensures s.tail == 0 ==> s.segments >= 2
    ensures var t := PopBackShape(s); var slots := if t.segments == s.segments then front + last else front;
            && WfShape(t) && |slots| == t.segments * CAPACITY
            && Window(slots, t) + [slots[(t.segments - 1) * CAPACITY + t.tail]] == Window(front + last, s)
  {
  }

  // ---- The data structure

  class Segment<T(0)> {
    const data: array<T>
    var next: Segment?<T>
    var prev: Segment?<T>

    constructor (previous: Segment?<T>)
      ensures fresh(data) && data.Length == CAPACITY && next == null && prev == previous
    {
      data := new T[CAPACITY];
      next := null;
      prev := previous;
    }
  }

  class ArrayList<T(0)> {
    var headSegment: Segment?<T>
    var tailSegment: Segment?<T>
    /** Slot of the first element in the head segment. */
    var head: nat
    /** First slot off the end, in the tail segment. */
    var tail: nat
    /** Pages taken from and given back to the page manager. */
    var taken: nat
    var returned: nat
    /** The chain of segments. */
    ghost var segments: seq<Segment<T>>

    ghost predicate Linked()
      reads this, segments, set s | s in segments :: s.data
    {
      && segments != []
      && (forall i, j :: 0 <= i < j < |segments| ==> segments[i] != segments[j] && segments[i].data != segments[j].data)
      && (forall i :: 0 <= i < |segments| ==> segments[i].data.Length == CAPACITY)
      && headSegment == segments[0] && tailSegment == segments[|segments| - 1]
      && segments[0].prev == null && segments[|segments| - 1].next == null
      && (forall i :: 0 <= i < |segments| - 1 ==> segments[i].next == segments[i + 1])
      && (forall i :: 0 < i < |segments| ==> segments[i].prev == segments[i - 1])
    }

    ghost function ShapeOf(): Shape
      reads this
    {
      Shape(|segments|, head, tail)
    }

    ghost predicate Valid()
      reads this, segments, set s | s in segments :: s.data
    {
      Linked() && WfShape(ShapeOf()) && taken - returned == |segments|
    }

    /** All slots of all segments, one after the other. */
    ghost function Slots(segs: seq<Segment<T>>): seq<T>
      requires forall s :: s in segs ==> s.data.Length == CAPACITY
      reads set s | s in segs :: s.data
      ensures |Slots(segs)| == |segs| * CAPACITY
    {
      if segs == [] then [] else Slots(segs[..|segs| - 1]) + segs[|segs| - 1].data[..]
    }

    ghost function Contents(): seq<T>
      requires Valid()
      reads this, segments, set s | s in segments :: s.data
    {
      Window(Slots(segments), ShapeOf())
    }

    lemma SlotsFront(segs: seq<Segment<T>>)
      requires segs != [] && forall s :: s in segs ==> s.data.Length == CAPACITY
      ensures Slots(segs) == segs[0].data[..] + Slots(segs[1..])
    {
      if |segs| > 1 {
        var n := |segs| - 1;
        SlotsFront(segs[..n]);
        assert segs[..n][1..] == segs[1..][..n - 1];
        assert segs[1..][n - 1] == segs[n];
      } else {
        assert segs[..0] == [] && segs[1..] == [];
      }
    }

    constructor ()
      ensures headSegment == null && tailSegment == null && segments == []
      ensures taken == returned
    {
      headSegment := null;
      tailSegment := null;
      head := 0;
      tail := 0;
      taken := 0;
      returned := 0;
      segments := [];
    }

    /** Take one page and start empty. */
    method Initialize()
      requires headSegment == null && tailSegment == null && taken == returned
      modifies this
      ensures Valid() && ShapeOf() == FRESH && Contents() == []
      ensures fresh(segments[0]) && fresh(segments[0].data)
      ensures taken == old(taken) + 1 && returned == old(returned)
    {
      var xseg := new Segment<T>(null);
      taken := taken + 1;
      headSegment := xseg;
      tailSegment := xseg;
      head := 0;
      tail := 0;
      segments := [xseg];
    }

    /** head == tail, which by PositionsAreAddresses compares segment and slot. */
    method IsEmpty() returns (empty: bool)
      requires Valid()
      ensures empty <==> Contents() == []
    {
      empty := headSegment == tailSegment && head == tail;
      if |segments| > 1 {
        assert segments[0] != segments[|segments| - 1];
      }
    }

    method PushBack(v: T)
      requires Valid()
      modifies this, tailSegment, tailSegment.data
      ensures Valid() && ShapeOf() == PushShape(old(ShapeOf()))
      ensures Contents() == old(Contents()) + [v] && returned == old(returned)
      ensures forall s :: s in segments ==> s in old(segments) || fresh(s)
    {
      hide Window;
      ghost var shape, n := ShapeOf(), |segments| - 1;
      if tail != CAPACITY {
        ghost var front, last := Slots(segments[..n]), tailSegment.data[..];
        WindowPush(front, last, shape, v);
        tailSegment.data[tail] := v;
        assert Slots(segments[..n]) == front;
        assert tailSegment.data[..] == last[tail := v];
        tail := tail + 1;
      } else {
        ghost var slots := Slots(segments);
        PushBackSlow(v);
        assert segments[..n + 1] == old(segments) && Slots(segments[..n + 1]) == slots;
        WindowGrow(slots, tailSegment.data[..], shape, v);
      }
    }

    /** Take another page for the tail. */
    method PushBackSlow(v: T)
      requires Valid() && tail == CAPACITY
      modifies this, tailSegment
      ensures Linked() && taken == old(taken) + 1 && returned == old(returned)
      ensures |segments| == |old(segments)| + 1 && segments[..|segments| - 1] == old(segments)
      ensures fresh(segments[|segments| - 1]) && fresh(segments[|segments| - 1].data)
      ensures head == old(head) && tail == 1 && segments[|segments| - 1].data[0] == v
    {
      var xseg := new Segment<T>(tailSegment);
      taken := taken + 1;
      tailSegment.next := xseg;
      tailSegment := xseg;
      segments := segments + [xseg];
      tail := 0;
      xseg.data[0] := v;
      tail := tail + 1;
    }

    /** Remove the first element; the only segment's last slot may not be popped this way. */
    method PopFront() returns (v: T)
      requires Valid() && Contents() != [] && PopFrontShape(ShapeOf()).Some?
      modifies this, segments
      ensures Valid() && ShapeOf() == PopFrontShape(old(ShapeOf())).value
      ensures v == old(Contents())[0] && Contents() == old(Contents())[1..] && taken == old(taken)
    {
      hide Window;
      hide Slots;
      SlotsFront(segments);
      WindowPopFront(headSegment.data[..], Slots(segments[1..]), ShapeOf());
      v := headSegment.data[head];
      head := head + 1;
      if head == CAPACITY {
        ShiftFrontSlow();
      }
    }

    /** Return the first page. */
    method ShiftFrontSlow()
      requires Linked() && |segments| > 1
      modifies this, segments
      ensures Linked() && segments == old(segments)[1..] && head == 0 && tail == old(tail)
      ensures taken == old(taken) && returned == old(returned) + 1
    {
      assert segments[0].next == segments[0 + 1];
      headSegment := headSegment.next;
      headSegment.prev := null;
      segments := segments[1..];
      head := 0;
      returned := returned + 1;
    }

    /** Remove the last element. */
    method PopBack() returns (v: T)
      requires Valid() && Contents() != []
      modifies this, segments
      ensures Valid() && ShapeOf() == PopBackShape(old(ShapeOf()))
      ensures v == old(Contents())[|old(Contents())| - 1]
      ensures Contents() == old(Contents())[..|old(Contents())| - 1] && taken == old(taken)
    {
      hide Window;
      hide Slots;
      SlotsBack(segments);
      WindowPopBack(Slots(segments[..|segments| - 1]), tailSegment.data[..], ShapeOf());
      if tail == 0 {
        ShiftBackSlow();
      }
      tail := tail - 1;
      LastOf(segments, tail);
      v := tailSegment.data[tail];
    }

    lemma SlotsBack(segs: seq<Segment<T>>)
      requires segs != [] && forall s :: s in segs ==> s.data.Length == CAPACITY
      ensures Slots(segs) == Slots(segs[..|segs| - 1]) + segs[|segs| - 1].data[..]
    {
    }

    lemma LastOf(segs: seq<Segment<T>>, i: nat)
      requires segs != [] && (forall s :: s in segs ==> s.data.Length == CAPACITY) && i < CAPACITY
      ensures Slots(segs)[(|segs| - 1) * CAPACITY + i] == segs[|segs| - 1].data[i]
    {
    }

    /** Return the last page. */
    method ShiftBackSlow()
      requires Linked() && |segments| > 1
      modifies this, segments
      ensures Linked() && segments == old(segments)[..|old(segments)| - 1] && tail == CAPACITY && head == old(head)
      ensures taken == old(taken) && returned == old(returned) + 1
    {
      ghost var n := |segments| - 1;
      assert segments[n].prev == segments[n - 1];
      tailSegment := tailSegment.prev;
      tailSegment.next := null;
      segments := segments[..|segments| - 1];
      tail := CAPACITY;
      returned := returned + 1;
    }

    /** Return every page. */
    method Clear()
      requires Valid()
      modifies this
      ensures headSegment == null && tailSegment == null && segments == []
      ensures taken == old(taken) && returned == taken
    {
      ghost var k := 0;
      while headSegment != null
        invariant k <= |segments| && segments == old(segments) && taken == old(taken)
        invariant headSegment == if k < |segments| then segments[k] else null
        invariant forall i :: 0 <= i < |segments| - 1 ==> segments[i].next == segments[i + 1]
        invariant segments[|segments| - 1].next == null
        invariant returned == old(returned) + k
        decreases |segments| - k
      {
        headSegment := headSegment.next;
        returned := returned + 1;
        k := k + 1;
      }
      tailSegment := null;
      head := 0;
      tail := 0;
      segments := [];
    }
  }
}
