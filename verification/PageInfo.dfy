/** The page header as the allocator updates it in place. */
module PageInfo {
  import opened Graph
  import opened Heap
  import opened Page

  class PageInfo {
    var freelist: int
    var next: PageInfo?
    var left: PageInfo?
    var right: PageInfo?
    var allocsize: nat
    var entrycount: nat
    var freecount: nat
    var approxUtilization: real
    /** The metadata of each entry, and the link each entry holds while it is free. */
    var entries: seq<MetaData>
    var links: seq<int>

    function State(): Page
      reads this`freelist, this`freecount, this`approxUtilization, this`entries, this`links
    {
      Page(freelist, freecount, approxUtilization, entries, links)
    }

    ghost predicate Sized()
      reads this`entrycount, this`entries, this`links
    {
      |entries| == |links| == entrycount
    }

    /** Set up the header of a page whose memory holds n entries. */
    method Initialize()
      requires Sized()
      modifies this
      ensures Sized() && State() == Initialized(old(State()))
      ensures next == null && left == null && right == null
    {
      ghost var p := State();
      freelist := NIL;
      next := null;
      approxUtilization := UNPROCESSED;
      left := null;
      right := null;
      freecount := entrycount;
      var i := entrycount;
      while i > 0
        invariant 0 <= i <= entrycount && Sized() && freecount == entrycount
        invariant entries == p.entries && next == null && left == null && right == null
        invariant State().(freecount := entrycount - i) == Threaded(p, i)
      {
        i := i - 1;
        links := links[i := freelist];
        freelist := i;
      }
    }

    /** Thread a new list through the entries that may be freed, from the last one down. */
    method Rebuild()
      requires Sized()
      modifies this`freelist, this`freecount, this`entries, this`links, this`next
      ensures Sized() && State() == Rebuilt(old(State())) && next == null
    {
      ghost var p := State();
      freelist := NIL;
      freecount := 0;
      var i := entrycount;
      while i > 0
        invariant 0 <= i <= entrycount && Sized()
        invariant State() == Swept(p, i)
      {
        i := i - 1;
        if ShouldFreeListAdd(entries[i]) {
          entries := entries[i := ResetMeta(MAX_FWD_INDEX)];
          links := links[i := freelist];
          freelist := i;
          freecount := freecount + 1;
        }
      }
      next := null;
    }

    /** The allocation step on its page: pop the first free entry and set its metadata. */
    method TakeEntry(m: MetaData) returns (i: nat)
      requires Sized() && ValidPage(State()) && freecount > 0
      modifies this`freelist, this`freecount, this`entries
      ensures Sized() && State() == Take(old(State()), m)
      ensures ValidPage(State()) && old(FreeList(State())) == [i] + FreeList(State())
    {
      TakePops(State(), m);
      i := freelist;
      freelist := links[i];
      freecount := freecount - 1;
      entries := entries[i := m];
    }

    /** The freeing step of a decrement: push entry i and unmark its allocation. */
    method GiveEntry(i: nat)
      requires Sized() && ValidPage(State()) && i < entrycount && entries[i].isAlloc
      modifies this`freelist, this`freecount, this`entries, this`links
      ensures Sized() && ValidPage(State()) && FreeList(State()) == [i] + old(FreeList(State()))
      ensures entries == old(entries)[i := old(entries)[i].(isAlloc := false)]
      ensures old(Complete(State())) ==> Complete(State())
    {
      ghost var p := State().(entries := entries[i := entries[i].(isAlloc := false)]);
      assert FreeList(p) == FreeList(State());
      assert i !in FreeList(p);
      PushConses(p, i);
      links := links[i := freelist];
      freelist := i;
      entries := entries[i := entries[i].(isAlloc := false)];
      freecount := freecount + 1;
      assert State() == Push(p, i);
    }
  }
}
