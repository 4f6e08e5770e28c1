/** What evacuation does to the object graph, and exactly when it preserves it. */
module EvacuationGraph {
  import opened Graph
  import opened Heap
  import opened Evacuation
  import opened EvacuationShape
  import opened EvacuationCounts

  ghost function Evacuated(h: Heap, order: seq<Addr>, supply: seq<Addr>): EvacState {
    EvacN(h, order, supply, |order|)
  }

  /** Where an object lives afterwards. */
  ghost function Image(h: Heap, order: seq<Addr>, supply: seq<Addr>, t: Addr): Addr {
    Img(h, order, supply, |order|, t)
  }

  ghost function Position(s: seq<Addr>, x: Addr): (j: nat)
    requires x in s
    ensures j < |s| && s[j] == x
  {
    var j :| 0 <= j < |s| && s[j] == x;
    j
  }

  /** The image is what the forward table says in the final heap. */
  lemma ImageIsForwarding(h: Heap, order: seq<Addr>, supply: seq<Addr>, t: Addr)
    requires EvacReady(h, order, supply) && t in h && h[t].meta.isAlloc
    ensures var e := Evacuated(h, order, supply);
            FwdOf(e.heap, e.fwd, t) == Image(h, order, supply, t) && Image(h, order, supply, t) in e.heap
  {
    hide EvacReady;
    hide EvacN;
    EvacNShape(h, order, supply, |order|);
    FwdIsImg(h, order, supply, |order|, Evacuated(h, order, supply), t);
  }

  /** Roots and everything not on the list stay where they are. */
  lemma ImageFixed(h: Heap, order: seq<Addr>, supply: seq<Addr>, t: Addr)
    requires t !in order || RootAt(h, t)
    ensures Image(h, order, supply, t) == t
  {
    assert order[..|order|] == order;
    ImgOfOthers(h, order, supply, |order|, t);
  }

  lemma ImageMoved(h: Heap, order: seq<Addr>, supply: seq<Addr>, j: nat)
    requires EvacReady(h, order, supply) && j < |order| && !RootAt(h, order[j])
    ensures Rank(h, order, j) < |supply| && Image(h, order, supply, order[j]) == supply[Rank(h, order, j)]
    ensures Image(h, order, supply, order[j]) in supply
  {
    hide EvacReady;
    ImgOfMoved(h, order, supply, |order|, j);
  }

  /** No two objects end up in one place. */
  lemma ImageInjective(h: Heap, order: seq<Addr>, supply: seq<Addr>, t: Addr, u: Addr)
    requires EvacReady(h, order, supply)
    requires t in h && h[t].meta.isAlloc && u in h && h[u].meta.isAlloc && t != u
    ensures Image(h, order, supply, t) != Image(h, order, supply, u)
  {
    hide Img;
    if t in order && !RootAt(h, t) {
      var j := Position(order, t);
      ImageMoved(h, order, supply, j);
      if u in order && !RootAt(h, u) {
        var m := Position(order, u);
        ImageMoved(h, order, supply, m);
        if j < m {
          RankMonotone(h, order, j, m);
        } else {
          RankMonotone(h, order, m, j);
        }
      } else {
        ImageFixed(h, order, supply, u);
      }
    } else {
      ImageFixed(h, order, supply, t);
      if u in order && !RootAt(h, u) {
        ImageMoved(h, order, supply, Position(order, u));
      } else {
        ImageFixed(h, order, supply, u);
      }
    }
  }

  /** Object number j: its image is old, of the same type, with the slots written when it was processed. */
  lemma SurvivorAt(h: Heap, order: seq<Addr>, supply: seq<Addr>, j: nat)
    requires EvacReady(h, order, supply) && j < |order| && order[j] in h
    ensures var e := Evacuated(h, order, supply); var y := Image(h, order, supply, order[j]);
            && Old(e.heap, y)
            && e.heap[y].meta.isMarked == (RootAt(h, order[j]) && h[order[j]].meta.isMarked)
            && e.heap[y].meta.isRoot == RootAt(h, order[j])
            && e.heap[y].meta.forwardIndex == MAX_FWD_INDEX
            && e.heap[y].meta.typ == h[order[j]].meta.typ
            && e.heap[y].slots == NewSlots(h, order, supply, j)
    ensures order[j] in Evacuated(h, order, supply).heap
    ensures !RootAt(h, order[j]) ==> !Evacuated(h, order, supply).heap[order[j]].meta.isAlloc
  {
    var e := Evacuated(h, order, supply);
    EvacNShape(h, order, supply, |order|);
    assert Done(h, order, supply, j, e.heap);
    assert order[j] in order;
    if RootAt(h, order[j]) {
      ImageFixed(h, order, supply, order[j]);
    } else {
      ImageMoved(h, order, supply, j);
    }
    hide NewSlots;
    hide EvacN;
    hide Img;
  }

  /** Everything that was not on the list and was allocated is unchanged but for its count. */
  lemma BystanderAt(h: Heap, order: seq<Addr>, supply: seq<Addr>, a: Addr)
    requires EvacReady(h, order, supply) && a in h && a !in order && h[a].meta.isAlloc
    ensures a in Evacuated(h, order, supply).heap && SameButCount(h[a], Evacuated(h, order, supply).heap[a])
  {
    hide EvacN;
    EvacNShape(h, order, supply, |order|);
    assert order[..|order|] == order;
    assert forall y :: y in Evacuated(h, order, supply).fwd ==> y in supply;
  }

  /** What is allocated afterwards was a bystander, a root of the list, or is a fresh copy. */
  lemma AllocatedAfter(h: Heap, order: seq<Addr>, supply: seq<Addr>, a: Addr)
    requires EvacReady(h, order, supply)
    requires a in Evacuated(h, order, supply).heap && Evacuated(h, order, supply).heap[a].meta.isAlloc
    ensures a in h
    ensures (h[a].meta.isAlloc && a !in order)
         || exists x :: x in order && a == Image(h, order, supply, x)
  {
    hide EvacN;
    hide Img;
    hide NewSlots;
    var e := Evacuated(h, order, supply);
    EvacNShape(h, order, supply, |order|);
    assert order[..|order|] == order;
    if a in order {
      var j := Position(order, a);
      assert Done(h, order, supply, j, e.heap);
      ImageFixed(h, order, supply, a);
    } else if a in e.fwd {
      var r := Position(e.fwd, a);
      var j := RankInverse(h, order, |order|, r);
      ImageMoved(h, order, supply, j);
      assert a == Image(h, order, supply, order[j]);
    } else {
      assert SameButCount(h[a], e.heap[a]);
    }
  }

  /** Whatever was processed or handed out is old or free afterwards. */
  lemma ProcessedIsNotYoung(h: Heap, order: seq<Addr>, supply: seq<Addr>, a: Addr)
    requires EvacReady(h, order, supply)
    requires a in order || a in Evacuated(h, order, supply).fwd
    ensures a in Evacuated(h, order, supply).heap && !Evacuated(h, order, supply).heap[a].meta.isYoung
  {
    hide EvacN;
    hide Img;
    hide NewSlots;
    var e := Evacuated(h, order, supply);
    EvacNShape(h, order, supply, |order|);
    hide EvacReady;
    if a in order {
      assert Done(h, order, supply, Position(order, a), e.heap);
    } else {
      var j := RankInverse(h, order, |order|, Position(e.fwd, a));
      assert Done(h, order, supply, j, e.heap);
    }
  }

  /** What is young afterwards was young before, is not on the list, and is unchanged but for its count. */
  lemma YoungAfter(h: Heap, order: seq<Addr>, supply: seq<Addr>, a: Addr)
    requires EvacReady(h, order, supply)
    requires a in Evacuated(h, order, supply).heap && Evacuated(h, order, supply).heap[a].meta.isYoung
    ensures a in h && a !in order && SameButCount(h[a], Evacuated(h, order, supply).heap[a])
  {
    hide EvacN;
    hide EvacReady;
    EvacNShape(h, order, supply, |order|);
    assert order[..|order|] == order;
    if a in order || a in Evacuated(h, order, supply).fwd {
      ProcessedIsNotYoung(h, order, supply, a);
    }
  }

  lemma {:induction false} RankInverse(h: Heap, order: seq<Addr>, k: nat, r: nat) returns (j: nat)
    requires k <= |order| && r < Rank(h, order, k)
    ensures j < k && !RootAt(h, order[j]) && Rank(h, order, j) == r
  {
    if r < Rank(h, order, k - 1) {
      j := RankInverse(h, order, k - 1, r);
    } else {
      j := k - 1;
    }
  }

  // ---- When the graph is preserved

  /** Each listed object that will move comes before the objects pointing to it. */
  ghost predicate MovedFirst(h: Heap, order: seq<Addr>) {
    forall j, y :: 0 <= j < |order| && order[j] in h && Points(h[order[j]], y) && y in order && !RootAt(h, y)
      ==> y in order[..j]
  }

  /** Slot i of the survivor of x holds the image of the old target, or the old data word. */
  ghost predicate SlotPreserved(h: Heap, order: seq<Addr>, supply: seq<Addr>, x: Addr, i: nat) {
    var e := Evacuated(h, order, supply);
    var y := Image(h, order, supply, x);
    && x in h && i < |h[x].slots|
    && y in e.heap && |e.heap[y].slots| == |h[x].slots|
    && e.heap[y].slots[i] == if IsPtr(h[x], i) then Image(h, order, supply, h[x].slots[i]) else h[x].slots[i]
  }

  ghost predicate GraphPreserved(h: Heap, order: seq<Addr>, supply: seq<Addr>) {
    forall x, i: nat :: x in order && x in h && i < |h[x].slots| ==> SlotPreserved(h, order, supply, x, i)
  }

  /** A slot is stale exactly when its target moves later than its holder is processed. */
  lemma SlotExactly(h: Heap, order: seq<Addr>, supply: seq<Addr>, j: nat, i: nat)
    requires EvacReady(h, order, supply) && j < |order| && order[j] in h && IsPtr(h[order[j]], i)
    ensures SlotPreserved(h, order, supply, order[j], i)
       <==> (var t := h[order[j]].slots[i]; t in order && !RootAt(h, t) ==> t in order[..j])
  {
    hide EvacN;
    hide Img;
    SurvivorAt(h, order, supply, j);
    var t := h[order[j]].slots[i];
    assert order[j] in order;
    assert t in h && h[t].meta.isAlloc;
    assert NewSlots(h, order, supply, j)[i] == Img(h, order, supply, j, t);
    hide EvacReady;
    if t in order && !RootAt(h, t) {
      var m := Position(order, t);
      ImageMoved(h, order, supply, m);
      if t in order[..j] {
        var m' := Position(order[..j], t);
        ImageMoved(h, order, supply, m');
        ImgOfMoved(h, order, supply, j, m');
      } else {
        ImgOfOthers(h, order, supply, j, t);
        SupplyIsNotAllocated(h, order, supply, Image(h, order, supply, t));
      }
    } else {
      ImageFixed(h, order, supply, t);
      assert t in order[..j] ==> t in order;
      ImgOfOthers(h, order, supply, j, t);
    }
  }

  lemma SupplyIsNotAllocated(h: Heap, order: seq<Addr>, supply: seq<Addr>, y: Addr)
    requires EvacReady(h, order, supply) && y in supply
    ensures y in h && !h[y].meta.isAlloc
  {
  }

  lemma DataPreserved(h: Heap, order: seq<Addr>, supply: seq<Addr>, j: nat, i: nat)
    requires EvacReady(h, order, supply) && j < |order| && order[j] in h
    requires i < |h[order[j]].slots| && !IsPtr(h[order[j]], i)
    ensures SlotPreserved(h, order, supply, order[j], i)
  {
    hide EvacN;
    hide Img;
    SurvivorAt(h, order, supply, j);
    assert NewSlots(h, order, supply, j)[i] == h[order[j]].slots[i];
  }

  /** The exact condition: evacuation preserves the graph if and only if what moves comes first. */
  lemma GraphPreservedExactly(h: Heap, order: seq<Addr>, supply: seq<Addr>)
    requires EvacReady(h, order, supply)
    ensures GraphPreserved(h, order, supply) <==> MovedFirst(h, order)
  {
    hide SlotPreserved;
    hide EvacReady;
    if MovedFirst(h, order) {
      forall x, i: nat | x in order && x in h && i < |h[x].slots|
        ensures SlotPreserved(h, order, supply, x, i)
      {
        var j := Position(order, x);
        if IsPtr(h[x], i) {
          assert Points(h[x], h[x].slots[i]);
          SlotExactly(h, order, supply, j, i);
        } else {
          DataPreserved(h, order, supply, j, i);
        }
      }
    } else {
      var j, y :| 0 <= j < |order| && order[j] in h && Points(h[order[j]], y) && y in order && !RootAt(h, y)
        && y !in order[..j];
      var i: nat :| IsPtr(h[order[j]], i) && h[order[j]].slots[i] == y;
      SlotExactly(h, order, supply, j, i);
      assert order[j] in order;
    }
  }

  // ---- Nothing dangles

  /** Old objects point to old objects. */
  ghost predicate OldClosed(h: Heap) {
    forall x, i: nat :: Old(h, x) && IsPtr(h[x], i) ==> Old(h, h[x].slots[i])
  }

  /** The list holds the young children of its members. */
  ghost predicate ListClosed(h: Heap, order: seq<Addr>) {
    forall x, y :: x in order && x in h && Points(h[x], y) && y in Young(h) ==> y in order
  }

  lemma ImageIsOld(h: Heap, order: seq<Addr>, supply: seq<Addr>, x: Addr, y: Addr)
    requires EvacReady(h, order, supply) && ListClosed(h, order)
    requires x in order && x in h && Points(h[x], y)
    ensures Old(Evacuated(h, order, supply).heap, Image(h, order, supply, y))
  {
    hide EvacN;
    hide Img;
    assert y in h && h[y].meta.isAlloc;
    if y in order {
      SurvivorAt(h, order, supply, Position(order, y));
    } else {
      BystanderAt(h, order, supply, y);
      ImageFixed(h, order, supply, y);
    }
  }

  lemma SurvivorPointsToOld(h: Heap, order: seq<Addr>, supply: seq<Addr>, j: nat, i: nat)
    requires EvacReady(h, order, supply) && ListClosed(h, order) && MovedFirst(h, order)
    requires j < |order| && order[j] in h
    requires var e := Evacuated(h, order, supply); var y := Image(h, order, supply, order[j]);
             y in e.heap && IsPtr(e.heap[y], i)
    ensures var e := Evacuated(h, order, supply); var y := Image(h, order, supply, order[j]);
            Old(e.heap, e.heap[y].slots[i])
  {
    hide EvacN;
    hide Img;
    hide EvacReady;
    SurvivorAt(h, order, supply, j);
    var x := order[j];
    assert x in order;
    var e := Evacuated(h, order, supply);
    var y := Image(h, order, supply, x);
    assert e.heap[y].slots[i] == NewSlots(h, order, supply, j)[i];
    if IsPtr(h[x], i) {
      assert Points(h[x], h[x].slots[i]);
      SlotExactly(h, order, supply, j, i);
      ImageIsOld(h, order, supply, x, h[x].slots[i]);
    }
  }

  /** If what moves comes first, old objects point to old objects afterwards too. */
  lemma EvacuationKeepsOldClosed(h: Heap, order: seq<Addr>, supply: seq<Addr>)
    requires EvacReady(h, order, supply) && ListClosed(h, order) && MovedFirst(h, order) && OldClosed(h)
    ensures OldClosed(Evacuated(h, order, supply).heap)
  {
    hide EvacN;
    hide Img;
    hide ListClosed;
    hide MovedFirst;
    var e := Evacuated(h, order, supply);
    forall y, i: nat | Old(e.heap, y) && IsPtr(e.heap[y], i)
      ensures Old(e.heap, e.heap[y].slots[i])
    {
      AllocatedAfter(h, order, supply, y);
      if exists x :: x in order && y == Image(h, order, supply, x) {
        var x :| x in order && y == Image(h, order, supply, x);
        SurvivorPointsToOld(h, order, supply, Position(order, x), i);
      } else {
        BystanderAt(h, order, supply, y);
        assert Old(h, y) && IsPtr(h[y], i);
        var t := h[y].slots[i];
        assert Old(h, t) && t !in order;
        BystanderAt(h, order, supply, t);
      }
    }
  }

  /** Every moved object hangs below some other listed object. */
  ghost predicate Parented(h: Heap, order: seq<Addr>) {
    forall x :: x in order && !RootAt(h, x) ==> exists p :: p in order && p in h && Points(h[p], x)
  }

  lemma PointedIsCounted(h: Heap, q: Addr, i: nat, y: Addr)
    requires Old(h, q) && IsPtr(h[q], i) && h[q].slots[i] == y && ExactCount(h, y)
    ensures h[y].meta.refCount >= 1
  {
    assert (q, i) in OldEdges(h, y);
  }

  /** The slot of a listed parent counts for the image of its child. */
  lemma ParentCounts(h: Heap, order: seq<Addr>, supply: seq<Addr>, m: nat, i: nat)
    requires EvacReady(h, order, supply) && MovedFirst(h, order)
    requires m < |order| && order[m] in h && IsPtr(h[order[m]], i)
    requires var e := Evacuated(h, order, supply); var y := Image(h, order, supply, h[order[m]].slots[i]);
             ExactCount(e.heap, y)
    ensures var e := Evacuated(h, order, supply); var y := Image(h, order, supply, h[order[m]].slots[i]);
            e.heap[y].meta.refCount >= 1
  {
    hide EvacN;
    hide Img;
    hide EvacReady;
    hide ExactCount;
    SurvivorAt(h, order, supply, m);
    assert Points(h[order[m]], h[order[m]].slots[i]);
    SlotExactly(h, order, supply, m, i);
    ImagePointer(h, order, supply, m, i);
    hide MovedFirst;
    PointedIsCounted(Evacuated(h, order, supply).heap, Image(h, order, supply, order[m]), i,
                     Image(h, order, supply, h[order[m]].slots[i]));
  }

  /** Every moved object is counted at least once. */
  lemma MovedIsCounted(h: Heap, order: seq<Addr>, supply: seq<Addr>, x: Addr)
    requires EvacReady(h, order, supply) && MovedFirst(h, order) && Parented(h, order) && CountsExact(h)
    requires x in order && x in h && !RootAt(h, x)
    ensures var e := Evacuated(h, order, supply); var y := Image(h, order, supply, x);
            y in e.heap && e.heap[y].meta.refCount >= 1
  {
    hide EvacN;
    hide Img;
    hide EvacReady;
    hide ExactCount;
    hide MovedFirst;
    EvacNCounted(h, order, supply, |order|);
    SurvivorAt(h, order, supply, Position(order, x));
    var p :| p in order && p in h && Points(h[p], x);
    var i: nat :| IsPtr(h[p], i) && h[p].slots[i] == x;
    ParentCounts(h, order, supply, Position(order, p), i);
  }

  lemma ImagePointer(h: Heap, order: seq<Addr>, supply: seq<Addr>, j: nat, i: nat)
    requires EvacReady(h, order, supply) && j < |order| && order[j] in h && IsPtr(h[order[j]], i)
    ensures var e := Evacuated(h, order, supply); var y := Image(h, order, supply, order[j]);
            y in e.heap && IsPtr(e.heap[y], i)
  {
    hide EvacN;
    SurvivorAt(h, order, supply, j);
    var o := h[order[j]];
    var e := Evacuated(h, order, supply);
    ImgIsPtrWord(h, order, supply, j, o.slots[i], Mask(o)[i]);
    SameMask(e.heap[Image(h, order, supply, order[j])], o);
    assert NewSlots(h, order, supply, j)[i] == Img(h, order, supply, j, o.slots[i]);
    hide EvacReady;
    hide Img;
  }
}
