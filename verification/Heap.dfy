/** Objects, their metadata and pointer slots, and the graphs and counts read off a heap. */
module Heap {
  import opened Graph

  datatype Option<+T> = None | Some(value: T)

  type Addr = nat
  type Word = nat

  /** MAX_FWD_INDEX: the object has not been forwarded. */
  const MAX_FWD_INDEX: nat := 0xFFFF_FFFF
  const BSQ_MAX_FWD_TABLE_ENTRIES: nat := 524288

  const PTR_MASK_PTR := '1'
  const PTR_MASK_STRING := '2'

  /** The pointer mask has one character per slot; leaves have none. */
  datatype TypeInfo = TypeInfo(typeId: nat, slotSize: nat, ptrMask: Option<string>)

  datatype MetaData = MetaData(
    typ: Option<TypeInfo>,
    isAlloc: bool,
    isYoung: bool,
    isMarked: bool,
    isRoot: bool,
    forwardIndex: nat,
    refCount: int)

  datatype Object = Object(meta: MetaData, slots: seq<Word>)

  /** Every entry of every page, allocated or not, by object address. */
  type Heap = map<Addr, Object>

  // ---- Metadata predicates and macros

  predicate ShouldVisit(m: MetaData) {
    m.isYoung && !m.isMarked
  }

  predicate ShouldProcessAsRoot(m: MetaData) {
    m.isAlloc && !m.isRoot
  }

  predicate ShouldFreeListAdd(m: MetaData) {
    !m.isAlloc || (m.refCount == 0 && !m.isRoot) || (!m.isRoot && !m.isMarked)
  }

  function FreshMeta(t: TypeInfo): MetaData {
    MetaData(Some(t), true, true, false, false, MAX_FWD_INDEX, 0)
  }

  function ConvertOldMeta(t: Option<TypeInfo>): MetaData {
    MetaData(t, true, false, false, false, MAX_FWD_INDEX, 0)
  }

  function ResetMeta(fwd: nat): MetaData {
    MetaData(None, false, false, false, false, fwd, 0)
  }

  // ---- Pointer slots

  function Mask(o: Object): string {
    if o.meta.typ.Some? && o.meta.typ.value.ptrMask.Some? then o.meta.typ.value.ptrMask.value else ""
  }

  /** A non-null word is a pointer under '1', and under '2' when it is not an inline string. */
  predicate IsPtrWord(m: char, v: Word) {
    v != 0 && (m == PTR_MASK_PTR || (m == PTR_MASK_STRING && v % 8 == 0))
  }

  predicate IsPtr(o: Object, i: nat) {
    i < |Mask(o)| && i < |o.slots| && IsPtrWord(Mask(o)[i], o.slots[i])
  }

  /** Targets of the first n slots that lie in `nodes`, in slot order. */
  ghost function KidsUpTo(o: Object, n: nat, nodes: set<Addr>): seq<Addr> {
    if n == 0 then []
    else
      var r := KidsUpTo(o, n - 1, nodes);
      if IsPtr(o, n - 1) && o.slots[n - 1] in nodes then r + [o.slots[n - 1]] else r
  }

  ghost function KidsOf(o: Object, nodes: set<Addr>): seq<Addr> {
    KidsUpTo(o, |Mask(o)|, nodes)
  }

  /** The pointer graph among `nodes`. */
  ghost function ObjGraph(h: Heap, nodes: set<Addr>): Graph {
    map x | x in nodes && x in h :: KidsOf(h[x], nodes)
  }

  ghost function Live(h: Heap): set<Addr> {
    set x | x in h && h[x].meta.isAlloc
  }

  ghost function Young(h: Heap): set<Addr> {
    set x | x in h && h[x].meta.isYoung
  }

  ghost predicate Old(h: Heap, x: Addr) {
    x in h && h[x].meta.isAlloc && !h[x].meta.isYoung
  }

  ghost predicate PointsWithin(o: Object, n: nat, y: Addr) {
    exists i: nat :: i < n && IsPtr(o, i) && o.slots[i] == y
  }

  ghost predicate Points(o: Object, y: Addr) {
    exists i: nat :: IsPtr(o, i) && o.slots[i] == y
  }

  /** The slots of old objects that point to a. */
  ghost function OldEdges(h: Heap, a: Addr): set<(Addr, nat)> {
    set x, i | x in h && 0 <= i < |h[x].slots| && Old(h, x) && IsPtr(h[x], i) && h[x].slots[i] == a :: (x, i)
  }

  /** The recorded count is the number of pointer slots in old objects. */
  ghost predicate ExactCount(h: Heap, a: Addr) {
    a in h && h[a].meta.refCount == |OldEdges(h, a)|
  }

  lemma {:induction false} KidsUpToElems(o: Object, n: nat, nodes: set<Addr>, y: Addr)
    ensures y in KidsUpTo(o, n, nodes) <==> y in nodes && PointsWithin(o, n, y)
  {
    if n > 0 {
      KidsUpToElems(o, n - 1, nodes, y);
      if PointsWithin(o, n, y) && !PointsWithin(o, n - 1, y) {
        assert IsPtr(o, n - 1) && o.slots[n - 1] == y;
      }
    }
  }

  lemma KidsOfElems(o: Object, nodes: set<Addr>, y: Addr)
    ensures y in KidsOf(o, nodes) <==> y in nodes && Points(o, y)
  {
    KidsUpToElems(o, |Mask(o)|, nodes, y);
    assert Points(o, y) <==> PointsWithin(o, |Mask(o)|, y);
  }

  lemma ObjGraphWhole(h: Heap, nodes: set<Addr>)
    requires nodes <= h.Keys
    ensures Whole(ObjGraph(h, nodes)) && ObjGraph(h, nodes).Keys == nodes
  {
    var g := ObjGraph(h, nodes);
    forall x, y | x in g && y in g[x]
      ensures y in g
    {
      KidsOfElems(h[x], nodes, y);
    }
  }

  /** Objects that agree on type and slots have the same children. */
  lemma {:induction false} SameKids(o: Object, o': Object, n: nat, nodes: set<Addr>)
    requires o.slots == o'.slots && o.meta.typ == o'.meta.typ
    ensures KidsUpTo(o, n, nodes) == KidsUpTo(o', n, nodes)
  {
    if n > 0 {
      SameKids(o, o', n - 1, nodes);
    }
  }
}
