/** One page: metadata for every entry, and a free list threaded through the free entries. */
module Page {
  import opened Graph
  import opened Heap

  /** The null link. Entries are named by their index, so entry 0 is not null. */
  const NIL: int := -1
  /** approx_utilization of a page that was never processed. */
  const UNPROCESSED: real := 100.0

  datatype Page = Page(freelist: int, freecount: nat, util: real, entries: seq<MetaData>, links: seq<int>)

  // ---- The list the links give

  function Follow(links: seq<int>, head: int, n: nat): seq<nat>
    decreases n
  {
    if n == 0 || !(0 <= head < |links|) then [] else [head] + Follow(links, links[head], n - 1)
  }

  function After(links: seq<int>, head: int, n: nat): int
    decreases n
  {
    if n == 0 || !(0 <= head < |links|) then head else After(links, links[head], n - 1)
  }

  function FreeList(p: Page): seq<nat> {
    Follow(p.links, p.freelist, p.freecount)
  }

  /**
   * The links lead to null after exactly `freecount` steps, through distinct entries of the page,
   * none of them allocated.
   */
  ghost predicate ValidPage(p: Page) {
    && |p.links| == |p.entries|
    && |FreeList(p)| == p.freecount
    && After(p.links, p.freelist, p.freecount) == NIL
    && Distinct(FreeList(p))
    && forall i <- FreeList(p) :: i < |p.entries| && !p.entries[i].isAlloc
  }

  /** The list misses no free entry either. */
  ghost predicate Complete(p: Page) {
    forall i: nat :: i < |p.entries| ==> (i in FreeList(p) <==> !p.entries[i].isAlloc)
  }

  lemma {:induction false} FollowInRange(links: seq<int>, head: int, n: nat)
    ensures forall i <- Follow(links, head, n) :: i < |links|
    ensures |Follow(links, head, n)| <= n
    decreases n
  {
    if n > 0 && 0 <= head < |links| {
      FollowInRange(links, links[head], n - 1);
    }
  }

  /** A change at an entry off the list leaves the list as it was. */
  lemma {:induction false} FollowElsewhere(links: seq<int>, i: nat, link: int, head: int, n: nat)
    requires i < |links| && i !in Follow(links, head, n)
    ensures Follow(links[i := link], head, n) == Follow(links, head, n)
    ensures After(links[i := link], head, n) == After(links, head, n)
    decreases n
  {
    if n > 0 && 0 <= head < |links| {
      assert Follow(links, head, n)[0] == head;
      assert forall j <- Follow(links, links[head], n - 1) :: j in Follow(links, head, n);
      FollowElsewhere(links, i, link, links[head], n - 1);
    }
  }

  // ---- The operations on one page

  function Push(p: Page, i: nat): Page
    requires i < |p.links|
  {
    p.(links := p.links[i := p.freelist], freelist := i, freecount := p.freecount + 1)
  }

  lemma PushConses(p: Page, i: nat)
    requires ValidPage(p) && i < |p.entries| && i !in FreeList(p) && !p.entries[i].isAlloc
    ensures ValidPage(Push(p, i)) && FreeList(Push(p, i)) == [i] + FreeList(p)
  {
    FollowElsewhere(p.links, i, p.freelist, p.freelist, p.freecount);
  }

  /** Take the first free entry and set its metadata. */
  function Take(p: Page, m: MetaData): Page
    requires 0 <= p.freelist < |p.links| == |p.entries| && p.freecount > 0
  {
    p.(freelist := p.links[p.freelist], freecount := p.freecount - 1, entries := p.entries[p.freelist := m])
  }

  /** The metadata given goes to the first listed entry, and to no other. */
  lemma TakeWrites(p: Page, m: MetaData, k: nat)
    requires ValidPage(p) && p.freecount > 0 && k < |p.entries|
    ensures |Take(p, m).entries| == |p.entries| && Take(p, m).util == p.util
    ensures Take(p, m).entries[k] == if k == FreeList(p)[0] then m else p.entries[k]
  {
    TakePops(p, m);
  }

  lemma TakeTail(p: Page, m: MetaData)
    requires ValidPage(p) && p.freecount > 0
    ensures 0 <= p.freelist < |p.links| && FreeList(p) == [p.freelist as nat] + FreeList(Take(p, m))
    ensures After(Take(p, m).links, Take(p, m).freelist, Take(p, m).freecount) == NIL
  {
  }

  lemma TakePops(p: Page, m: MetaData)
    requires ValidPage(p) && p.freecount > 0
    ensures 0 <= p.freelist < |p.links| && FreeList(p) == [p.freelist as nat] + FreeList(Take(p, m))
    ensures ValidPage(Take(p, m))
    ensures Complete(p) && m.isAlloc ==> Complete(Take(p, m))
  {
    TakeTail(p, m);
    hide FreeList, After;
    var rest := FreeList(Take(p, m));
    assert FreeList(p)[0] == p.freelist;
    assert forall k: nat :: k < |rest| ==> rest[k] == FreeList(p)[k + 1];
    assert forall i <- rest :: i in FreeList(p) && i != p.freelist;
    if Complete(p) && m.isAlloc {
      forall i: nat | i < |p.entries|
        ensures i in rest <==> !Take(p, m).entries[i].isAlloc
      {
      }
    }
  }

  /** The metadata of a page the operating system has just zeroed. */
  const ZERO_META: MetaData := MetaData(None, false, false, false, false, 0, 0)

  /** Thread entries i, i + 1, … into an empty list, as initialize does from the last one down. */
  function Threaded(p: Page, i: nat): (r: Page)
    requires i <= |p.entries| == |p.links|
    ensures |r.links| == |p.links|
    decreases |p.entries| - i
  {
    if i == |p.entries| then p.(freelist := NIL, freecount := 0, util := UNPROCESSED)
    else Push(Threaded(p, i + 1), i)
  }

  function Initialized(p: Page): Page
    requires |p.entries| == |p.links|
  {
    Threaded(p, 0)
  }

  /** Free what may be freed among entries i, i + 1, … and list it, as rebuild does from the last one down. */
  function Swept(p: Page, i: nat): (r: Page)
    requires i <= |p.entries| == |p.links|
    ensures |r.entries| == |p.entries| && |r.links| == |p.links|
    decreases |p.entries| - i
  {
    if i == |p.entries| then p.(freelist := NIL, freecount := 0)
    else
      var r := Swept(p, i + 1);
      if ShouldFreeListAdd(r.entries[i]) then Push(r.(entries := r.entries[i := ResetMeta(MAX_FWD_INDEX)]), i) else r
  }

  function Rebuilt(p: Page): Page
    requires |p.entries| == |p.links|
  {
    Swept(p, 0)
  }

  // ---- What they mean

  predicate Ascending(s: seq<nat>) {
    forall i, j :: 0 <= i < j < |s| ==> s[i] < s[j]
  }

  lemma AscendingCons(i: nat, s: seq<nat>)
    requires Ascending(s) && forall k <- s :: i < k
    ensures Ascending([i] + s)
  {
    assert forall k :: 0 <= k < |s| ==> s[k] in s;
  }

  lemma {:induction false} ThreadedListsAll(p: Page, i: nat)
    requires i <= |p.entries| == |p.links|
    requires forall k: nat :: i <= k < |p.entries| ==> !p.entries[k].isAlloc
    ensures var r := Threaded(p, i);
            ValidPage(r) && r.entries == p.entries && Ascending(FreeList(r)) && r.freecount == |p.entries| - i
    ensures forall k: nat :: k in FreeList(Threaded(p, i)) <==> i <= k < |p.entries|
    decreases |p.entries| - i
  {
    if i < |p.entries| {
      ThreadedListsAll(p, i + 1);
      PushConses(Threaded(p, i + 1), i);
      AscendingCons(i, FreeList(Threaded(p, i + 1)));
    }
  }

  /** A page initialized over free entries lists all of them, in address order. */
  lemma InitializeListsAll(p: Page)
    requires |p.entries| == |p.links|
    requires forall k: nat :: k < |p.entries| ==> !p.entries[k].isAlloc
    ensures var r := Initialized(p);
            ValidPage(r) && Complete(r) && Ascending(FreeList(r)) && r.freecount == |p.entries|
             && r.entries == p.entries
  {
    ThreadedListsAll(p, 0);
  }

  function SweptEntry(m: MetaData, reached: bool): MetaData {
    if reached && ShouldFreeListAdd(m) then ResetMeta(MAX_FWD_INDEX) else m
  }

  lemma {:induction false} SweptExactly(p: Page, i: nat)
    requires i <= |p.entries| == |p.links|
    ensures ValidPage(Swept(p, i)) && Ascending(FreeList(Swept(p, i))) && Swept(p, i).util == p.util
    ensures forall k: nat :: k in FreeList(Swept(p, i)) <==> i <= k < |p.entries| && ShouldFreeListAdd(p.entries[k])
    ensures forall k: nat :: k < |p.entries| ==>
              Swept(p, i).entries[k] == SweptEntry(p.entries[k], i <= k)
    decreases |p.entries| - i
  {
    if i < |p.entries| {
      SweptExactly(p, i + 1);
      var r := Swept(p, i + 1);
      if ShouldFreeListAdd(r.entries[i]) {
        var q := r.(entries := r.entries[i := ResetMeta(MAX_FWD_INDEX)]);
        assert FreeList(q) == FreeList(r);
        PushConses(q, i);
        AscendingCons(i, FreeList(r));
      }
    }
  }

  /**
   * Rebuilding makes any page valid and complete: it frees exactly the entries the predicate names,
   * lists them in address order, and keeps the others as they were.
   */
  lemma RebuildExactly(p: Page)
    requires |p.entries| == |p.links|
    ensures var r := Rebuilt(p); ValidPage(r) && Complete(r) && Ascending(FreeList(r)) && r.util == p.util
    ensures forall k: nat :: k in FreeList(Rebuilt(p)) <==> k < |p.entries| && ShouldFreeListAdd(p.entries[k])
    ensures forall k: nat :: k < |p.entries| && !ShouldFreeListAdd(p.entries[k]) ==>
              Rebuilt(p).entries[k] == p.entries[k]
    ensures forall k: nat :: k < |p.entries| && ShouldFreeListAdd(p.entries[k]) ==>
              Rebuilt(p).entries[k] == MetaData(None, false, false, false, false, 0xFFFF_FFFF, 0)
  {
    SweptExactly(p, 0);
  }

  lemma EmptyExactly(s: seq<nat>)
    ensures s == [] <==> forall k: nat :: k !in s
  {
    if s != [] {
      assert s[0] in s;
    }
  }

  lemma {:induction false} AscendingIsUnique(s: seq<nat>, t: seq<nat>)
    requires Ascending(s) && Ascending(t)
    requires forall k: nat :: k in s <==> k in t
    ensures s == t
  {
    EmptyExactly(s);
    EmptyExactly(t);
    if s != [] && t != [] {
      assert s[0] in t && t[0] in s;
      assert s[0] == t[0];
      assert Ascending(s[1..]) && Ascending(t[1..]);
      forall k: nat
        ensures k in s[1..] <==> k in t[1..]
      {
        assert k in s[1..] <==> k in s && k != s[0];
        assert k in t[1..] <==> k in t && k != t[0];
      }
      AscendingIsUnique(s[1..], t[1..]);
      assert s == [s[0]] + s[1..] && t == [t[0]] + t[1..];
    }
  }

  /** A second rebuild changes neither metadata nor list. */
  lemma RebuildIsIdempotent(p: Page)
    requires |p.entries| == |p.links|
    ensures var r := Rebuilt(p);
            Rebuilt(r).entries == r.entries && FreeList(Rebuilt(r)) == FreeList(r)
             && Rebuilt(r).freecount == r.freecount
  {
    SweptExactly(p, 0);
    var r := Rebuilt(p);
    SweptExactly(r, 0);
    AscendingIsUnique(FreeList(Rebuilt(r)), FreeList(r));
  }

  /** Rebuilding keeps exactly the allocated roots, if and only if no other object is marked and counted. */
  lemma RebuildKeepsRootsExactly(p: Page)
    requires |p.entries| == |p.links|
    ensures (forall k: nat :: k < |p.entries| ==>
               (Rebuilt(p).entries[k].isAlloc <==> p.entries[k].isAlloc && p.entries[k].isRoot))
       <==> (forall k: nat | k < |p.entries| ::
               p.entries[k].isAlloc && p.entries[k].isMarked && !p.entries[k].isRoot ==> p.entries[k].refCount == 0)
  {
    SweptExactly(p, 0);
    hide Swept;
  }

  // ---- How much of a page is live

  function AllocatedEntries(p: Page): set<nat> {
    set k: nat | k < |p.entries| && p.entries[k].isAlloc
  }

  function Below(n: nat): (r: set<nat>)
    ensures |r| == n && forall k: nat :: k in r <==> k < n
  {
    if n == 0 then {} else Below(n - 1) + {n - 1}
  }

  lemma {:induction false} DistinctSize(s: seq<nat>)
    requires Distinct(s)
    ensures |set k: nat | k in s| == |s|
  {
    if s == [] {
      assert (set k: nat | k in s) == {};
    } else {
      DistinctSize(s[1..]);
      assert (set k: nat | k in s) == (set k: nat | k in s[1..]) + {s[0]};
    }
  }

  /** entrycount - freecount, which the statistics multiply by the object size, counts the allocated entries. */
  lemma LiveEntriesExactly(p: Page)
    requires ValidPage(p)
    ensures Complete(p) <==> |p.entries| - p.freecount == |AllocatedEntries(p)|
  {
    var listed := set k: nat | k in FreeList(p);
    var unlisted := Below(|p.entries|) - listed;
    DistinctSize(FreeList(p));
    assert listed <= Below(|p.entries|);
    assert |unlisted| == |p.entries| - p.freecount;
    AllocatedAreUnlisted(p, listed, unlisted);
    if |unlisted| == |AllocatedEntries(p)| {
      assert |unlisted - AllocatedEntries(p)| == 0;
      assert unlisted == AllocatedEntries(p);
    }
  }

  lemma AllocatedAreUnlisted(p: Page, listed: set<nat>, unlisted: set<nat>)
    requires ValidPage(p) && listed == (set k: nat | k in FreeList(p))
    requires unlisted == Below(|p.entries|) - listed
    ensures AllocatedEntries(p) <= unlisted
    ensures Complete(p) <==> AllocatedEntries(p) == unlisted
  {
    hide FreeList, After, Distinct;
    if AllocatedEntries(p) == unlisted {
      forall i: nat | i < |p.entries|
        ensures i in FreeList(p) <==> !p.entries[i].isAlloc
      {
        assert i in AllocatedEntries(p) <==> i in unlisted;
      }
    }
  }
}
