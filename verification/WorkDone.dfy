/** What the phases of a collection leave in the metadata of one allocator, entry by entry. */
module WorkDone {
  import opened AllocatorState
  import opened Heap
  import opened Page
  import opened Store

  /** Metadata by allocator, page and entry. */
  type AllMarks = (nat, PageId, nat) -> MetaData

  /**
   The objects moved, each to the evacuation page of its allocator; the metadata that marking and evacuation
   leave; the entries decrements free; the metadata that counting leaves.
   */
  datatype Work = Work(
    evacuations: seq<(nat, TypeInfo)>,
    evacuated: AllMarks,
    freed: seq<(nat, PageId, nat)>,
    counted: AllMarks)

  type Homes = seq<(nat, PageId, nat)>

  function EntryAt(pages: Pages, p: PageId, i: nat): Option<MetaData> {
    if p in pages && i < |pages[p].entries| then Some(pages[p].entries[i]) else None
  }

  // ---- Evacuation

  /** Every object moved by allocator k has its entry, which was free, and no other entry changed. */
  ghost predicate MovedTo(was: Pages, now: Pages, k: nat, moves: seq<(nat, TypeInfo)>, homes: Homes) {
    && |homes| == |moves|
    && (forall p: PageId, i: nat :: EntryAt(was, p, i).Some? && (k, p, i) !in homes ==>
          EntryAt(now, p, i) == EntryAt(was, p, i))
    && (forall j :: 0 <= j < |homes| && homes[j].0 == k ==> Settled(was, now, homes[j], moves[j].1))
  }

  ghost predicate Settled(was: Pages, now: Pages, home: (nat, PageId, nat), t: TypeInfo) {
    && EntryAt(now, home.1, home.2) == Some(ConvertOldMeta(Some(t)))
    && (EntryAt(was, home.1, home.2).Some? ==> !EntryAt(was, home.1, home.2).value.isAlloc)
  }

  /** Each move goes to its own allocator, and no two to one entry. */
  ghost predicate AreHomes(moves: seq<(nat, TypeInfo)>, homes: Homes) {
    && |homes| == |moves|
    && (forall j :: 0 <= j < |homes| ==> homes[j].0 == moves[j].0)
    && (forall i, j :: 0 <= i < j < |homes| ==> homes[i] != homes[j])
  }

  lemma NothingMoved(pages: Pages, k: nat)
    ensures MovedTo(pages, pages, k, [], [])
  {
  }

  lemma MovedOneMore(was: Pages, mid: Pages, now: Pages, k: nat, moves: seq<(nat, TypeInfo)>, homes: Homes,
                     p: PageId, i: nat, t: TypeInfo)
    requires MovedTo(was, mid, k, moves, homes) && OnlyEntry(mid, now, p, i)
    requires p in now && i < |now[p].entries| && now[p].entries[i] == ConvertOldMeta(Some(t))
    ensures MovedTo(was, now, k, moves + [(k, t)], homes + [(k, p, i)])
    ensures (k, p, i) !in homes
  {
    forall q: PageId, j: nat | EntryAt(mid, q, j).Some? && (q, j) != (p, i)
      ensures EntryAt(now, q, j) == EntryAt(mid, q, j)
    {
    }
    if EntryAt(was, p, i).Some? {
      assert EntryAt(mid, p, i) == EntryAt(was, p, i);
    }
    assert Settled(was, now, (k, p, i), t);
    forall j | 0 <= j < |homes| && homes[j].0 == k
      ensures Settled(was, now, homes[j], moves[j].1)
    {
      assert Settled(was, mid, homes[j], moves[j].1) && homes[j] in homes;
    }
  }

  lemma MovedElsewhere(was: Pages, now: Pages, k: nat, moves: seq<(nat, TypeInfo)>, homes: Homes,
                       home: (nat, PageId, nat), move: (nat, TypeInfo))
    requires MovedTo(was, now, k, moves, homes) && home.0 != k
    ensures MovedTo(was, now, k, moves + [move], homes + [home])
  {
    hide Settled, EntryAt;
  }

  // ---- Writes, decrements and the sweep

  ghost predicate RemarkedTo(was: Pages, now: Pages, k: nat, marks: AllMarks) {
    forall p: PageId, i: nat :: EntryAt(now, p, i) ==
      match EntryAt(was, p, i) case None => None case Some(m) => Some(RemarkedEntry(m, marks(k, p, i)))
  }

  /** Metadata that a phase may write arrives as it is, and an entry that is not allocated is left alone. */
  lemma WrittenAsIs(m: MetaData, now: MetaData)
    requires now.isYoung ==> m.isYoung
    requires !now.isAlloc ==> m.isYoung
    ensures RemarkedEntry(m, now) == if m.isAlloc then now else m
  {
  }

  lemma RemarkedIs(pages: Pages, k: nat, marks: AllMarks)
    ensures RemarkedTo(pages, RemarkedAll(pages, (p: PageId, i: nat) => marks(k, p, i)), k, marks)
  {
  }

  function FreedEntry(m: MetaData, freed: bool): MetaData {
    if freed then m.(isAlloc := false) else m
  }

  ghost predicate FreedTo(was: Pages, now: Pages, k: nat, freed: seq<(nat, PageId, nat)>) {
    forall p: PageId, i: nat :: EntryAt(now, p, i) ==
      match EntryAt(was, p, i) case None => None case Some(m) => Some(FreedEntry(m, (k, p, i) in freed))
  }

  lemma NothingFreed(pages: Pages, k: nat)
    ensures FreedTo(pages, pages, k, [])
  {
  }

  lemma FreedOneMore(was: Pages, mid: Pages, now: Pages, k: nat, freed: seq<(nat, PageId, nat)>, p: PageId, i: nat)
    requires FreedTo(was, mid, k, freed) && p in mid && i < |mid[p].entries|
    requires !mid[p].entries[i].isAlloc ==> now == mid
    requires mid[p].entries[i].isAlloc ==> |mid[p].entries| == |mid[p].links| && now == mid[p := Freed(mid[p], i)]
    ensures FreedTo(was, now, k, freed + [(k, p, i)])
  {
    forall q: PageId, j: nat
      ensures EntryAt(now, q, j) ==
                match EntryAt(was, q, j)
                case None => None
                case Some(m) => Some(FreedEntry(m, (k, q, j) in freed + [(k, p, i)]))
    {
      FreedAt(mid, now, p, i, q, j);
      assert EntryAt(mid, q, j) ==
        match EntryAt(was, q, j) case None => None case Some(m) => Some(FreedEntry(m, (k, q, j) in freed));
    }
  }

  lemma FreedAt(mid: Pages, now: Pages, p: PageId, i: nat, q: PageId, j: nat)
    requires p in mid && i < |mid[p].entries|
    requires !mid[p].entries[i].isAlloc ==> now == mid
    requires mid[p].entries[i].isAlloc ==> |mid[p].entries| == |mid[p].links| && now == mid[p := Freed(mid[p], i)]
    ensures EntryAt(now, q, j) ==
              match EntryAt(mid, q, j) case None => None case Some(m) => Some(FreedEntry(m, (q, j) == (p, i)))
  {
  }

  lemma FreedElsewhere(was: Pages, now: Pages, k: nat, freed: seq<(nat, PageId, nat)>, x: (nat, PageId, nat))
    requires FreedTo(was, now, k, freed) && x.0 != k
    ensures FreedTo(was, now, k, freed + [x])
  {
    forall p, i: nat
      ensures (k, p, i) in freed + [x] <==> (k, p, i) in freed
    {
    }
  }

  ghost predicate SweptTo(was: Pages, now: Pages, s: Store, a: Current) {
    forall p: PageId, i: nat :: EntryAt(now, p, i) ==
      match EntryAt(was, p, i) case None => None case Some(m) => Some(SweptEntry(m, Collected(s, a, p)))
  }

  lemma SweptIs(was: Pages, now: Pages, s: Store, a: Current)
    requires now.Keys == was.Keys
    requires forall p <- now :: now[p].entries ==
               if Collected(s, a, p) then SweptEntries(was[p].entries) else was[p].entries
    ensures SweptTo(was, now, s, a)
  {
    hide Collected;
  }

  // ---- A collection in one step

  /** What the phases before the sweep make of an entry: written, freed if a decrement reaches it, written again. */
  function Worked(m: MetaData, w: Work, k: nat, p: PageId, i: nat): MetaData {
    var m1 := RemarkedEntry(m, w.evacuated(k, p, i));
    var m2 := FreedEntry(m1, (k, p, i) in w.freed);
    RemarkedEntry(m2, w.counted(k, p, i))
  }

  /** And the sweep looks at the entries of collected pages. */
  function Fate(m: MetaData, w: Work, k: nat, p: PageId, i: nat, collected: bool): MetaData {
    SweptEntry(Worked(m, w, k, p, i), collected)
  }

  /** A free entry handed out starts as a fresh old object, and every other entry as it was. */
  ghost predicate WorkedTo(was: Pages, now: Pages, k: nat, w: Work, homes: Homes) {
    && |homes| == |w.evacuations|
    && (forall p: PageId, i: nat :: EntryAt(was, p, i).Some? && (k, p, i) !in homes ==>
          EntryAt(now, p, i) == Some(Worked(EntryAt(was, p, i).value, w, k, p, i)))
    && (forall j :: 0 <= j < |homes| && homes[j].0 == k ==>
          var x := homes[j];
          && (EntryAt(was, x.1, x.2).Some? ==> !EntryAt(was, x.1, x.2).value.isAlloc)
          && EntryAt(now, x.1, x.2) == Some(Worked(ConvertOldMeta(Some(w.evacuations[j].1)), w, k, x.1, x.2)))
  }

  ghost predicate CollectedTo(was: Pages, now: Pages, k: nat, w: Work, homes: Homes, s: Store, a: Current) {
    && |homes| == |w.evacuations|
    && (forall p: PageId, i: nat :: EntryAt(was, p, i).Some? && (k, p, i) !in homes ==>
          EntryAt(now, p, i) == Some(Fate(EntryAt(was, p, i).value, w, k, p, i, Collected(s, a, p))))
    && (forall j :: 0 <= j < |homes| && homes[j].0 == k ==>
          var x, m := homes[j], ConvertOldMeta(Some(w.evacuations[j].1));
          && (EntryAt(was, x.1, x.2).Some? ==> !EntryAt(was, x.1, x.2).value.isAlloc)
          && EntryAt(now, x.1, x.2) == Some(Fate(m, w, k, x.1, x.2, Collected(s, a, x.1))))
  }

  lemma StepsAreWork(p1: Pages, p2: Pages, p3: Pages, p4: Pages, k: nat, w: Work, p: PageId, i: nat)
    requires RemarkedTo(p1, p2, k, w.evacuated) && FreedTo(p2, p3, k, w.freed) && RemarkedTo(p3, p4, k, w.counted)
    requires EntryAt(p1, p, i).Some?
    ensures EntryAt(p4, p, i) == Some(Worked(EntryAt(p1, p, i).value, w, k, p, i))
  {
    hide EntryAt, RemarkedEntry, FreedEntry;
  }

  lemma PhasesAreWork(p0: Pages, p1: Pages, p2: Pages, p3: Pages, p4: Pages, k: nat, w: Work, homes: Homes)
    requires MovedTo(p0, p1, k, w.evacuations, homes)
    requires RemarkedTo(p1, p2, k, w.evacuated) && FreedTo(p2, p3, k, w.freed) && RemarkedTo(p3, p4, k, w.counted)
    ensures WorkedTo(p0, p4, k, w, homes)
  {
    hide RemarkedTo, FreedTo, EntryAt, Worked;
    forall p: PageId, i: nat | EntryAt(p1, p, i).Some?
      ensures EntryAt(p4, p, i) == Some(Worked(EntryAt(p1, p, i).value, w, k, p, i))
    {
      StepsAreWork(p1, p2, p3, p4, k, w, p, i);
    }
    assert forall j :: 0 <= j < |homes| && homes[j].0 == k ==> Settled(p0, p1, homes[j], w.evacuations[j].1);
  }

  /** The sweep completes the work; all that matters of store and allocation page is which pages it looks at. */
  lemma SweepCompletes(was: Pages, mid: Pages, now: Pages, k: nat, w: Work, homes: Homes,
                       s: Store, a: Current, s': Store, a': Current)
    requires WorkedTo(was, mid, k, w, homes) && SweptTo(mid, now, s', a')
    requires s'.pending == s.pending && a'.page == a.page
    ensures CollectedTo(was, now, k, w, homes, s, a)
  {
    hide EntryAt, Worked, SweptEntry;
  }
}
