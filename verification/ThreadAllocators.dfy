/** The allocators of one thread, which share the count of filled pages, the forward table and the collections. */
module ThreadAllocators {
  import opened Allocator
  import opened AllocatorState
  import opened Heap
  import opened LiveBytes
  import opened Page
  import opened Store
  import opened WorkDone

  const BSQ_COLLECTION_THRESHOLD: nat := 1024
  const BSQ_MAX_ALLOC_SLOTS: nat := 64
  const MAX_ENTRIES: nat := 100

  // ---- Sums over allocators

  function Total(s: seq<nat>): nat {
    if s == [] then 0 else s[0] + Total(s[1..])
  }

  lemma {:induction false} TotalUpdate(s: seq<nat>, s': seq<nat>, k: nat)
    requires k < |s| == |s'| && forall i :: 0 <= i < |s| && i != k ==> s'[i] == s[i]
    ensures Total(s') + s[k] == Total(s) + s'[k]
  {
    if k == 0 {
      assert s'[1..] == s[1..];
    } else {
      TotalUpdate(s[1..], s'[1..], k - 1);
    }
  }

  lemma {:induction false} TotalOfNone(s: seq<nat>)
    requires forall i :: 0 <= i < |s| ==> s[i] == 0
    ensures Total(s) == 0
  {
    if s != [] {
      TotalOfNone(s[1..]);
    }
  }

  /** What is bounded allocator by allocator is bounded in all. */
  lemma {:induction false} TotalBound(young: seq<nat>, pending: seq<nat>, n: nat)
    requires |young| == |pending| && forall i :: 0 <= i < |young| ==> young[i] <= (pending[i] + 1) * n
    ensures Total(young) <= (Total(pending) + |pending|) * n
  {
    if young != [] {
      TotalBound(young[1..], pending[1..], n);
      Distribute(pending[0] + 1, Total(pending[1..]) + |pending[1..]|, n);
    }
  }

  lemma Distribute(a: nat, b: nat, n: nat)
    ensures (a + b) * n == a * n + b * n
  {
  }

  // ---- What the phases of a collection do to the allocators

  /** No survivor is young: what stays young may be freed. */
  ghost predicate NoYoungSurvivor(marks: AllMarks) {
    forall k, p, i :: marks(k, p, i).isYoung ==> ShouldFreeListAdd(marks(k, p, i))
  }

  lemma {:induction false} TotalSnoc(s: seq<nat>, x: nat)
    ensures Total(s + [x]) == Total(s) + x
  {
    if s == [] {
      assert s + [x] == [x];
    } else {
      TotalSnoc(s[1..], x);
      assert (s + [x])[1..] == s[1..] + [x];
    }
  }

  class ThreadAllocators {
    const gcallocs: seq<GCAllocator>
    var newlyFilledPagesCount: nat
    var disableAutomaticCollections: bool
    var totalLiveBytes: int

    ghost predicate Apart() {
      && |gcallocs| <= BSQ_MAX_ALLOC_SLOTS
      && (forall i, j :: 0 <= i < j < |gcallocs| ==> gcallocs[i] != gcallocs[j])
    }

    ghost function Pending(): seq<nat>
      reads gcallocs
    {
      seq(|gcallocs|, (i: nat) requires i < |gcallocs| reads gcallocs => |gcallocs[i].pendinggcPages|)
    }

    ghost function Young(): seq<nat>
      reads gcallocs
    {
      seq(|gcallocs|, (i: nat) requires i < |gcallocs| reads gcallocs => |YoungEntries(gcallocs[i].pages)|)
    }

    /** Every allocator is sound, and pages pending in any of them were counted. */
    ghost predicate Valid()
      reads this, gcallocs
    {
      && Apart()
      && (forall i :: 0 <= i < |gcallocs| ==> gcallocs[i].Valid())
      && Total(Pending()) <= newlyFilledPagesCount
    }

    /** The entries to be freed are entries of known pages, and no more objects move than are young. */
    ghost predicate Fits(w: Work)
      reads gcallocs
    {
      && NoYoungSurvivor(w.evacuated)
      && NoYoungSurvivor(w.counted)
      && |w.evacuations| <= Total(Young())
      && (forall e <- w.evacuations :: e.0 < |gcallocs|)
      && (forall f <- w.freed :: f.0 < |gcallocs| && f.1 in gcallocs[f.0].pages && f.2 < gcallocs[f.0].entrycount)
    }

    constructor (allocs: seq<GCAllocator>)
      requires |allocs| <= BSQ_MAX_ALLOC_SLOTS && forall i, j :: 0 <= i < j < |allocs| ==> allocs[i] != allocs[j]
      requires forall i :: 0 <= i < |allocs| ==> allocs[i].Valid() && allocs[i].pendinggcPages == []
      ensures Valid() && gcallocs == allocs && newlyFilledPagesCount == 0
      ensures !disableAutomaticCollections && totalLiveBytes == 0
    {
      gcallocs := allocs;
      newlyFilledPagesCount := 0;
      disableAutomaticCollections := false;
      totalLiveBytes := 0;
      new;
      TotalOfNone(Pending());
    }

    /** The young objects of all allocators together fit the forward table they share. */
    lemma ForwardTableFits()
      requires Valid() && newlyFilledPagesCount <= BSQ_COLLECTION_THRESHOLD
      ensures Total(Young()) <= (1024 + |gcallocs|) * 100 <= 524288
    {
      hide IsPlaced, YoungEntries;
      forall i | 0 <= i < |gcallocs|
        ensures Young()[i] <= (Pending()[i] + 1) * MAX_ENTRIES
      {
        var a := gcallocs[i];
        YoungFits(a.Here(), a.pages, a.entrycount, a.Alloc(), a.Evac());
        EntriesBounded(a.Here(), a.pages, a.entrycount, a.Alloc(), a.Evac());
        Scale(a.entrycount, MAX_ENTRIES, |a.pendinggcPages| + 1);
      }
      TotalBound(Young(), Pending(), MAX_ENTRIES);
      Scale(Total(Pending()) + |gcallocs|, BSQ_COLLECTION_THRESHOLD + |gcallocs|, MAX_ENTRIES);
    }

    /** So do the objects a collection moves, each of which takes one index of that table. */
    lemma MovesFit(w: Work)
      requires Valid() && Fits(w) && newlyFilledPagesCount <= BSQ_COLLECTION_THRESHOLD
      ensures |w.evacuations| <= BSQ_MAX_FWD_TABLE_ENTRIES
    {
      hide GCAllocator.Valid, YoungEntries;
      ForwardTableFits();
    }

    /** No page disappears. */
    twostate predicate PagesStay()
      reads gcallocs
    {
      forall i :: 0 <= i < |gcallocs| ==> old(gcallocs[i].pages.Keys) <= gcallocs[i].pages.Keys
    }

    /** Every allocator is as the phases of a collection keep it. */
    ghost predicate InCollection()
      reads gcallocs
    {
      forall i :: 0 <= i < |gcallocs| ==> gcallocs[i].Kept() && AllYoungGoes(gcallocs[i].pages)
    }

    /** The pages the sweep will look at are still the same. */
    twostate predicate SameRound()
      reads gcallocs
    {
      forall k :: 0 <= k < |gcallocs| ==>
        && gcallocs[k].pendinggcPages == old(gcallocs[k].pendinggcPages)
        && gcallocs[k].allocPage == old(gcallocs[k].allocPage)
    }

    /** One object that is moved gets its entry. */
    method EvacuateOne(move: (nat, TypeInfo), ghost moves: seq<(nat, TypeInfo)>, ghost homes: Homes,
                       ghost was: seq<Pages>) returns (home: (nat, PageId, nat))
      requires Apart() && move.0 < |gcallocs| == |was| && gcallocs[move.0].Valid() && AreHomes(moves, homes)
      requires forall k :: 0 <= k < |gcallocs| ==> MovedTo(was[k], gcallocs[k].pages, k, moves, homes)
      modifies gcallocs[move.0]
      ensures gcallocs[move.0].Valid() && old(gcallocs[move.0].pages.Keys) <= gcallocs[move.0].pages.Keys
      ensures gcallocs[move.0].pendinggcPages == old(gcallocs[move.0].pendinggcPages)
      ensures gcallocs[move.0].allocPage == old(gcallocs[move.0].allocPage)
      ensures AreHomes(moves + [move], homes + [home])
      ensures forall k :: 0 <= k < |gcallocs| ==>
                MovedTo(was[k], gcallocs[k].pages, k, moves + [move], homes + [home])
    {
      hide GCAllocator.Valid, OnlyEntry, MovedTo, Collected;
      ghost var mid := gcallocs[move.0].pages;
      var p, i := gcallocs[move.0].AllocateEvacuation(move.1);
      home := (move.0, p, i);
      MovedOneMore(was[move.0], mid, gcallocs[move.0].pages, move.0, moves, homes, p, i, move.1);
      forall k | 0 <= k < |gcallocs| && k != move.0
        ensures MovedTo(was[k], gcallocs[k].pages, k, moves + [move], homes + [home])
      {
        MovedElsewhere(was[k], gcallocs[k].pages, k, moves, homes, home, move);
      }
    }

    ghost function AllPages(): (all: seq<Pages>)
      reads gcallocs
      ensures |all| == |gcallocs| && forall k :: 0 <= k < |all| ==> all[k] == gcallocs[k].pages
    {
      seq(|gcallocs|, (k: nat) requires k < |gcallocs| reads gcallocs => gcallocs[k].pages)
    }

    /** The objects that are moved get their entries. */
    method EvacuateEach(moves: seq<(nat, TypeInfo)>) returns (homes: Homes)
      requires Valid() && forall e <- moves :: e.0 < |gcallocs|
      modifies gcallocs
      ensures Valid() && PagesStay() && Pending() == old(Pending())
      ensures AreHomes(moves, homes) && SameRound()
      ensures forall k :: 0 <= k < |gcallocs| ==>
                MovedTo(old(gcallocs[k].pages), gcallocs[k].pages, k, moves, homes)
    {
      hide GCAllocator.Valid, MovedTo, AreHomes;
      homes := [];
      ghost var was := AllPages();
      NobodyMoved();
      for k := 0 to |moves|
        invariant Pending() == old(Pending()) && Valid() && PagesStay() && SameRound()
        invariant AreHomes(moves[..k], homes)
        invariant forall i :: 0 <= i < |gcallocs| ==> MovedTo(was[i], gcallocs[i].pages, i, moves[..k], homes)
      {
        assert moves[k] in moves && moves[..k + 1] == moves[..k] + [moves[k]];
        var home := EvacuateOne(moves[k], moves[..k], homes, was);
        homes := homes + [home];
        assert Pending() == old(Pending());
      }
      assert moves[..|moves|] == moves;
    }

    lemma NobodyMoved()
      ensures AreHomes([], [])
      ensures forall k :: 0 <= k < |gcallocs| ==> MovedTo(gcallocs[k].pages, gcallocs[k].pages, k, [], [])
    {
      hide MovedTo;
      forall k | 0 <= k < |gcallocs|
        ensures MovedTo(gcallocs[k].pages, gcallocs[k].pages, k, [], [])
      {
        NothingMoved(gcallocs[k].pages, k);
      }
    }

    /** Metadata is written in every allocator. */
    method RemarkEach(marks: AllMarks)
      requires Apart() && NoYoungSurvivor(marks) && forall i :: 0 <= i < |gcallocs| ==> gcallocs[i].Kept()
      modifies gcallocs
      ensures InCollection() && PagesStay() && SameRound()
      ensures forall k :: 0 <= k < |gcallocs| ==> RemarkedTo(old(gcallocs[k].pages), gcallocs[k].pages, k, marks)
    {
      hide GCAllocator.Kept, AllYoungGoes, ShouldFreeListAdd, RemarkedTo, RemarkedAll;
      for k := 0 to |gcallocs|
        invariant forall i :: 0 <= i < |gcallocs| ==> gcallocs[i].Kept()
        invariant forall i :: 0 <= i < k ==> AllYoungGoes(gcallocs[i].pages)
        invariant forall i :: 0 <= i < k ==> RemarkedTo(old(gcallocs[i].pages), gcallocs[i].pages, i, marks)
        invariant forall i :: k <= i < |gcallocs| ==> gcallocs[i].pages == old(gcallocs[i].pages)
        invariant PagesStay() && SameRound()
      {
        RemarkedIs(gcallocs[k].pages, k, marks);
        gcallocs[k].Remark((p: PageId, i: nat) => marks(k, p, i));
      }
    }

    /** One entry is freed by a decrement. */
    method FreeOne(x: (nat, PageId, nat), ghost freed: seq<(nat, PageId, nat)>, ghost was: seq<Pages>)
      requires Apart() && InCollection() && x.0 < |gcallocs| == |was|
      requires x.1 in gcallocs[x.0].pages && x.2 < gcallocs[x.0].entrycount
      requires forall k :: 0 <= k < |gcallocs| ==> FreedTo(was[k], gcallocs[k].pages, k, freed)
      modifies gcallocs[x.0]
      ensures InCollection() && gcallocs[x.0].pages.Keys == old(gcallocs[x.0].pages.Keys)
      ensures gcallocs[x.0].pendinggcPages == old(gcallocs[x.0].pendinggcPages)
      ensures gcallocs[x.0].allocPage == old(gcallocs[x.0].allocPage)
      ensures forall k :: 0 <= k < |gcallocs| ==> FreedTo(was[k], gcallocs[k].pages, k, freed + [x])
    {
      hide GCAllocator.Kept, AllYoungGoes, Freed, FreedTo;
      gcallocs[x.0].KeptHasEntries(x.1);
      ghost var mid := gcallocs[x.0].pages;
      gcallocs[x.0].FreeEntry(x.1, x.2);
      FreedOneMore(was[x.0], mid, gcallocs[x.0].pages, x.0, freed, x.1, x.2);
      forall k | 0 <= k < |gcallocs| && k != x.0
        ensures FreedTo(was[k], gcallocs[k].pages, k, freed + [x])
      {
        FreedElsewhere(was[k], gcallocs[k].pages, k, freed, x);
      }
    }

    /** The drained decrements free their entries, each where its page stands. */
    method FreeEach(freed: seq<(nat, PageId, nat)>)
      requires Apart() && InCollection()
      requires forall x <- freed :: x.0 < |gcallocs| && x.1 in gcallocs[x.0].pages && x.2 < gcallocs[x.0].entrycount
      modifies gcallocs
      ensures InCollection() && PagesStay() && SameRound()
      ensures forall k :: 0 <= k < |gcallocs| ==> FreedTo(old(gcallocs[k].pages), gcallocs[k].pages, k, freed)
    {
      hide GCAllocator.Kept, AllYoungGoes, FreedTo;
      ghost var was := AllPages();
      NobodyFreed();
      for k := 0 to |freed|
        invariant InCollection() && PagesStay() && SameRound()
        invariant forall i :: 0 <= i < |gcallocs| ==> FreedTo(was[i], gcallocs[i].pages, i, freed[..k])
      {
        assert freed[k] in freed && freed[..k + 1] == freed[..k] + [freed[k]];
        FreeOne(freed[k], freed[..k], was);
      }
      assert freed[..|freed|] == freed;
    }

    lemma NobodyFreed()
      ensures forall k :: 0 <= k < |gcallocs| ==> FreedTo(gcallocs[k].pages, gcallocs[k].pages, k, [])
    {
      hide FreedTo;
      forall k | 0 <= k < |gcallocs|
        ensures FreedTo(gcallocs[k].pages, gcallocs[k].pages, k, [])
      {
        NothingFreed(gcallocs[k].pages, k);
      }
    }

    /** No page is in use or pending, and nothing is young. */
    static ghost predicate Swept(a: GCAllocator)
      reads a
    {
      a.allocPage.None? && a.evacPage.None? && a.pendinggcPages == [] && forall p <- a.pages :: !HasYoung(a.pages[p])
    }

    static ghost function LiveBytesOf(a: GCAllocator): nat
      reads a
    {
      a.allocsize * |AllocatedObjects(a.pages)|
    }

    ghost function LiveBytesEach(): seq<nat>
      reads gcallocs
    {
      seq(|gcallocs|, (i: nat) requires i < |gcallocs| reads gcallocs => LiveBytesOf(gcallocs[i]))
    }

    /** One allocator sweeps, and adds up the objects it has left. */
    method SweepOne(k: nat)
      requires k < |gcallocs| && gcallocs[k].Kept() && AllYoungGoes(gcallocs[k].pages)
      modifies gcallocs[k], this`totalLiveBytes
      ensures gcallocs[k].Valid() && Swept(gcallocs[k]) && gcallocs[k].pages.Keys == old(gcallocs[k].pages.Keys)
      ensures totalLiveBytes == old(totalLiveBytes) + LiveBytesOf(gcallocs[k])
      ensures SweptTo(old(gcallocs[k].pages), gcallocs[k].pages, old(gcallocs[k].Here()), old(gcallocs[k].Alloc()))
    {
      hide GCAllocator.Kept, GCAllocator.Valid, AllYoungGoes, HasYoung, AllocatedObjects, SweptEntries, SweptTo;
      hide Collected;
      ghost var was, s, a := gcallocs[k].pages, gcallocs[k].Here(), gcallocs[k].Alloc();
      gcallocs[k].ProcessCollectorPages();
      SweptIs(was, gcallocs[k].pages, s, a);
      totalLiveBytes := gcallocs[k].UpdateMemStats(totalLiveBytes);
    }

    /** Every allocator sweeps. */
    method SweepEach()
      requires Apart() && InCollection()
      modifies gcallocs, this`totalLiveBytes
      ensures Apart() && PagesStay()
      ensures forall i :: 0 <= i < |gcallocs| ==> gcallocs[i].Valid() && Swept(gcallocs[i])
      ensures totalLiveBytes == Total(LiveBytesEach())
      ensures forall i :: 0 <= i < |gcallocs| ==>
                SweptTo(old(gcallocs[i].pages), gcallocs[i].pages, old(gcallocs[i].Here()), old(gcallocs[i].Alloc()))
    {
      hide GCAllocator.Kept, GCAllocator.Valid, AllYoungGoes, Swept, LiveBytesOf, SweptTo;
      totalLiveBytes := 0;
      ghost var done: seq<nat> := [];
      for k := 0 to |gcallocs|
        invariant PagesStay()
        invariant forall i :: k <= i < |gcallocs| ==> gcallocs[i].Kept() && AllYoungGoes(gcallocs[i].pages)
        invariant forall i :: 0 <= i < k ==> gcallocs[i].Valid() && Swept(gcallocs[i])
        invariant |done| == k && totalLiveBytes == Total(done)
        invariant forall i :: 0 <= i < k ==> done[i] == LiveBytesOf(gcallocs[i])
        invariant forall i :: k <= i < |gcallocs| ==> unchanged(gcallocs[i])
        invariant forall i :: 0 <= i < k ==>
          SweptTo(old(gcallocs[i].pages), gcallocs[i].pages, old(gcallocs[i].Here()), old(gcallocs[i].Alloc()))
      {
        SweepOne(k);
        TotalSnoc(done, LiveBytesOf(gcallocs[k]));
        done := done + [LiveBytesOf(gcallocs[k])];
      }
      assert done == LiveBytesEach();
    }

    lemma ValidIsKept()
      requires Valid()
      ensures forall i :: 0 <= i < |gcallocs| ==> gcallocs[i].Kept()
    {
      hide IsPlaced, AllComplete;
    }

    /** Everything a collection does before it sweeps. */
    method MarkMoveAndDrain(w: Work) returns (homes: Homes)
      requires Valid() && Fits(w)
      modifies gcallocs
      ensures InCollection() && PagesStay() && SameRound() && Apart() && AreHomes(w.evacuations, homes)
      ensures forall k :: 0 <= k < |gcallocs| ==>
                WorkedTo(old(gcallocs[k].pages), gcallocs[k].pages, k, w, homes)
    {
      hide GCAllocator.Valid, GCAllocator.Kept, AllYoungGoes, ShouldFreeListAdd, YoungEntries, NoYoungSurvivor;
      hide MovedTo, RemarkedTo, FreedTo, WorkedTo, AreHomes;
      ghost var p0 := AllPages();
      homes := EvacuateEach(w.evacuations);
      ghost var p1 := AllPages();
      ValidIsKept();
      RemarkEach(w.evacuated);
      ghost var p2 := AllPages();
      FreeEach(w.freed);
      ghost var p3 := AllPages();
      RemarkEach(w.counted);
      forall k | 0 <= k < |gcallocs|
        ensures WorkedTo(p0[k], gcallocs[k].pages, k, w, homes)
      {
        PhasesAreWork(p0[k], p1[k], p2[k], p3[k], gcallocs[k].pages, k, w, homes);
      }
    }

    ghost function Stores(): (all: seq<Store>)
      reads gcallocs
      ensures |all| == |gcallocs| && forall k :: 0 <= k < |all| ==> all[k] == gcallocs[k].Here()
    {
      seq(|gcallocs|, (k: nat) requires k < |gcallocs| reads gcallocs => gcallocs[k].Here())
    }

    ghost function Allocs(): (all: seq<Current>)
      reads gcallocs
      ensures |all| == |gcallocs| && forall k :: 0 <= k < |all| ==> all[k] == gcallocs[k].Alloc()
    {
      seq(|gcallocs|, (k: nat) requires k < |gcallocs| reads gcallocs => gcallocs[k].Alloc())
    }

    /** Everything a collection does to the pages. */
    method MarkMoveAndSweep(w: Work) returns (homes: Homes)
      requires Valid() && Fits(w)
      modifies gcallocs, this`totalLiveBytes
      ensures Apart() && PagesStay() && AreHomes(w.evacuations, homes)
      ensures forall i :: 0 <= i < |gcallocs| ==> gcallocs[i].Valid() && Swept(gcallocs[i])
      ensures totalLiveBytes == Total(LiveBytesEach())
      ensures forall k :: 0 <= k < |gcallocs| ==>
                CollectedTo(old(gcallocs[k].pages), gcallocs[k].pages, k, w, homes,
                            old(gcallocs[k].Here()), old(gcallocs[k].Alloc()))
    {
      hide Valid, GCAllocator.Valid, GCAllocator.Kept, Apart, Swept, LiveBytesEach, Fits;
      hide WorkedTo, SweptTo, CollectedTo, AreHomes;
      ghost var was, s, a := AllPages(), Stores(), Allocs();
      homes := MarkMoveAndDrain(w);
      ghost var mid, s', a' := AllPages(), Stores(), Allocs();
      assert forall k :: 0 <= k < |gcallocs| ==> s'[k].pending == s[k].pending && a'[k].page == a[k].page;
      SweepEach();
      ghost var now := AllPages();
      forall k | 0 <= k < |gcallocs|
        ensures CollectedTo(was[k], now[k], k, w, homes, s[k], a[k])
      {
        SweepCompletes(was[k], mid[k], now[k], k, w, homes, s[k], a[k], s'[k], a'[k]);
      }
    }

    /**
     A collection as the allocators see it. Afterwards no page is in use or pending, every page of every allocator
     stands in one place with a complete list, nothing is young, and the live bytes are those of the objects left.
     Every entry is what the phases make of it, those handed out to moved objects included.
     */
    method Collect(w: Work) returns (homes: Homes)
      requires Valid() && Fits(w)
      modifies this, gcallocs
      ensures Valid() && PagesStay() && newlyFilledPagesCount == 0
      ensures disableAutomaticCollections == old(disableAutomaticCollections)
      ensures forall i :: 0 <= i < |gcallocs| ==> Swept(gcallocs[i])
      ensures totalLiveBytes == Total(LiveBytesEach())
      ensures AreHomes(w.evacuations, homes)
      ensures forall k :: 0 <= k < |gcallocs| ==>
                CollectedTo(old(gcallocs[k].pages), gcallocs[k].pages, k, w, homes,
                            old(gcallocs[k].Here()), old(gcallocs[k].Alloc()))
    {
      hide Valid, GCAllocator.Valid, GCAllocator.Kept, Apart, Swept, LiveBytesEach, Fits;
      hide CollectedTo, AreHomes;
      homes := MarkMoveAndSweep(w);
      newlyFilledPagesCount := 0;
      SweptIsValid();
    }

    lemma SweptIsValid()
      requires Apart() && forall i :: 0 <= i < |gcallocs| ==> gcallocs[i].Valid() && Swept(gcallocs[i])
      ensures Valid()
    {
      hide GCAllocator.Valid, HasYoung;
      TotalOfNone(Pending());
    }

    /** No object appears, disappears or changes in allocator k, and nothing at all changes in the others. */
    twostate predicate OnlyPagesMove(k: nat)
      requires k < |gcallocs|
      reads gcallocs
    {
      && SameEntries(old(gcallocs[k].pages), gcallocs[k].pages)
      && forall j :: 0 <= j < |gcallocs| && j != k ==> unchanged(gcallocs[j])
    }

    /** A full allocation page becomes pending and is counted for all allocators together. */
    method RetireAndCount(k: nat, ghost w: Work)
      requires Valid() && k < |gcallocs| && gcallocs[k].freelist == NIL && gcallocs[k].allocPage.Some? && Fits(w)
      modifies this`newlyFilledPagesCount, gcallocs[k]
      ensures Valid() && Fits(w) && PagesStay() && gcallocs[k].allocPage.None?
      ensures newlyFilledPagesCount == old(newlyFilledPagesCount) + 1
      ensures gcallocs[k].pendinggcPages == [old(gcallocs[k].allocPage).value] + old(gcallocs[k].pendinggcPages)
      ensures SameEntries(old(gcallocs[k].pages), gcallocs[k].pages)
    {
      hide GCAllocator.Valid, YoungEntries, SameEntries, NoYoungSurvivor, Total;
      ghost var was := Pending();
      gcallocs[k].RetireAllocPage();
      newlyFilledPagesCount := newlyFilledPagesCount + 1;
      TotalUpdate(was, Pending(), k);
      SameYoungEntries(old(gcallocs[k].pages), gcallocs[k].pages);
      assert Young() == old(Young());
    }

    /** The allocator takes its next page. */
    method InstallPage(k: nat)
      requires Valid() && k < |gcallocs| && gcallocs[k].allocPage.None?
      modifies gcallocs[k]
      ensures Valid() && PagesStay() && gcallocs[k].freelist != NIL
      ensures gcallocs[k].pendinggcPages == old(gcallocs[k].pendinggcPages)
      ensures gcallocs[k].allocPage == Some(NextLow(old(gcallocs[k].Here()), old(gcallocs[k].nextPage)))
      ensures SameEntries(old(gcallocs[k].pages), gcallocs[k].pages)
      ensures YoungEntries(gcallocs[k].pages) == YoungEntries(old(gcallocs[k].pages))
    {
      hide GCAllocator.Valid, NextLow, YoungEntries;
      ghost var was := Pending();
      gcallocs[k].InstallAllocPage();
      assert Pending() == was;
    }

    lemma ValidIsApart()
      requires Valid()
      ensures forall j, k :: 0 <= j < |gcallocs| && 0 <= k < |gcallocs| && j != k ==> gcallocs[j] != gcallocs[k]
    {
    }

    /** Nothing is pending and nothing is young in any allocator. */
    ghost predicate JustCollected()
      reads this, gcallocs
    {
      && newlyFilledPagesCount == 0
      && forall i :: 0 <= i < |gcallocs| ==> gcallocs[i].pendinggcPages == [] && YoungEntries(gcallocs[i].pages) == {}
    }

    lemma SweptIsCollected()
      requires newlyFilledPagesCount == 0 && forall i :: 0 <= i < |gcallocs| ==> Swept(gcallocs[i])
      ensures JustCollected() && forall i :: 0 <= i < |gcallocs| ==> gcallocs[i].allocPage.None?
    {
      hide YoungEntries, HasYoung;
      forall i | 0 <= i < |gcallocs|
        ensures YoungEntries(gcallocs[i].pages) == {}
      {
        NoYoungEntries(gcallocs[i].pages);
      }
    }

    /** Retire the full page, and collect if that makes enough of them and collections are automatic. */
    method RetireOrCollect(k: nat, w: Work)
      requires Valid() && k < |gcallocs| && gcallocs[k].freelist == NIL && gcallocs[k].allocPage.Some? && Fits(w)
      modifies this, gcallocs
      ensures Valid() && PagesStay() && gcallocs[k].allocPage.None?
      ensures disableAutomaticCollections == old(disableAutomaticCollections)
      ensures old(newlyFilledPagesCount) + 1 != 1024 || disableAutomaticCollections ==>
                && newlyFilledPagesCount == old(newlyFilledPagesCount) + 1 && OnlyPagesMove(k)
                && gcallocs[k].pendinggcPages == [old(gcallocs[k].allocPage).value] + old(gcallocs[k].pendinggcPages)
      ensures old(newlyFilledPagesCount) + 1 == 1024 && !disableAutomaticCollections ==>
                JustCollected()
    {
      hide Valid, Fits, LiveBytesEach, Total, HasYoung, YoungEntries, SameEntries, Swept, JustCollected;
      hide CollectedTo, AreHomes;
      ValidIsApart();
      RetireAndCount(k, w);
      if newlyFilledPagesCount == BSQ_COLLECTION_THRESHOLD {
        if !disableAutomaticCollections {
          MovesFit(w);
          var _ := Collect(w);
          SweptIsCollected();
        }
      }
    }

    /** Retire the full page, collect when enough pages were filled in all, and take the next page. */
    method AllocatorRefreshPage(k: nat, w: Work)
      requires Valid() && k < |gcallocs| && gcallocs[k].freelist == NIL && Fits(w)
      modifies this, gcallocs
      ensures Valid() && PagesStay() && gcallocs[k].freelist != NIL
      ensures disableAutomaticCollections == old(disableAutomaticCollections)
      // without a page to retire, one is taken and that is all
      ensures old(gcallocs[k].allocPage).None? ==>
                && newlyFilledPagesCount == old(newlyFilledPagesCount) && OnlyPagesMove(k)
                && gcallocs[k].pendinggcPages == old(gcallocs[k].pendinggcPages)
      // below the threshold, or with collections disabled, the page becomes pending and nothing is collected
      ensures old(gcallocs[k].allocPage).Some?
              && (old(newlyFilledPagesCount) + 1 != 1024 || disableAutomaticCollections) ==>
                && newlyFilledPagesCount == old(newlyFilledPagesCount) + 1 && OnlyPagesMove(k)
                && gcallocs[k].pendinggcPages == [old(gcallocs[k].allocPage).value] + old(gcallocs[k].pendinggcPages)
      // at the threshold everything is collected
      ensures old(gcallocs[k].allocPage).Some?
              && old(newlyFilledPagesCount) + 1 == 1024 && !disableAutomaticCollections ==>
                JustCollected()
      ensures !disableAutomaticCollections && old(newlyFilledPagesCount) < 1024 ==>
                newlyFilledPagesCount < 1024
    {
      hide Valid, Fits, YoungEntries, SameEntries, NextLow;
      ValidIsApart();
      ghost var was := gcallocs[k].pages;
      SamePages(was);
      if gcallocs[k].allocPage.Some? {
        RetireOrCollect(k, w);
      }
      ghost var mid := gcallocs[k].pages;
      InstallPage(k);
      if SameEntries(was, mid) {
        SameEntriesTwice(was, mid, gcallocs[k].pages);
      }
    }

    /** An entry for a young object, on the allocation page of its allocator. */
    method Allocate(k: nat, t: TypeInfo, w: Work) returns (p: PageId, i: nat)
      requires Valid() && k < |gcallocs| && Fits(w)
      modifies this, gcallocs
      ensures Valid() && PagesStay()
      ensures gcallocs[k].allocPage == Some(p) && p in gcallocs[k].pages && i < |gcallocs[k].pages[p].entries|
      ensures gcallocs[k].pages[p].entries[i] == FreshMeta(t)
      ensures old(gcallocs[k].freelist) != NIL ==> i == old(gcallocs[k].freelist)
      ensures old(gcallocs[k].freelist) != NIL ==> OnlyEntry(old(gcallocs[k].pages), gcallocs[k].pages, p, i)
      ensures old(gcallocs[k].freelist) != NIL ==> forall j :: 0 <= j < |gcallocs| && j != k ==> unchanged(gcallocs[j])
      ensures newlyFilledPagesCount ==
                if old(gcallocs[k].freelist) != NIL || old(gcallocs[k].allocPage).None? then old(newlyFilledPagesCount)
                else if disableAutomaticCollections || old(newlyFilledPagesCount) + 1 != 1024 then
                  old(newlyFilledPagesCount) + 1
                else 0
      ensures disableAutomaticCollections == old(disableAutomaticCollections)
      ensures !disableAutomaticCollections && old(newlyFilledPagesCount) < 1024 ==>
                newlyFilledPagesCount < 1024
    {
      hide GCAllocator.Valid, YoungEntries, OnlyEntry, Fits;
      if gcallocs[k].freelist == NIL {
        AllocatorRefreshPage(k, w);
      }
      ghost var was := Pending();
      p, i := gcallocs[k].AllocateHere(t);
      assert Pending() == was;
    }
  }
}
