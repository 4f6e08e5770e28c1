/** Which entry a candidate word leads to, in numbers: a 4096-byte page, a 56-byte header, 24 bytes of metadata. */
module RootScan {
  import opened Graph
  import opened Heap
  import opened Dfs
  import opened Layout
  import opened Marking
  import opened CollectorSteps

  /** The bytes of entry i of a page whose entries are `size` apart. */
  predicate InEntry(page: Addr, size: nat, i: nat, a: Addr) {
    page + 56 + i * size <= a < page + 56 + (i + 1) * size
  }

  /** Where the object of entry i starts. */
  function EntryObj(page: Addr, size: nat, canary: nat, i: nat): Addr {
    page + 56 + i * size + canary + 24
  }

  ghost predicate KnownSizes(pages: map<Addr, nat>) {
    forall p <- pages :: pages[p] > 0
  }

  /** Every word in the bytes of an entry resolves to that entry's object. */
  lemma WordResolves(pages: map<Addr, nat>, canary: nat, page: Addr, i: nat, a: Addr)
    requires KnownSizes(pages) && page in pages && page % 4096 == 0
    requires i < 4040 / pages[page] && InEntry(page, pages[page], i, a)
    ensures Resolve(pages, canary, a) == Resolved.Object(EntryObj(page, pages[page], canary, i))
  {
    Successor(i, pages[page]);
    EntryRoundTrip(page, pages[page], i, a);
  }

  lemma Successor(i: nat, d: nat)
    ensures (i + 1) * d == i * d + d
  {
  }

  /** A word is ignored exactly when its page is unknown or it lies in the page's header. */
  lemma WordIsIgnoredExactly(pages: map<Addr, nat>, canary: nat, a: Addr)
    requires KnownSizes(pages)
    ensures Resolve(pages, canary, a) == NotAPointer <==> a - a % 4096 !in pages || a % 4096 < 56
  {
  }

  /** Nothing but the bytes of an entry resolves to its object. */
  lemma OnlyBytesResolve(pages: map<Addr, nat>, canary: nat, page: Addr, i: nat, a: Addr)
    requires KnownSizes(pages) && page in pages && page % 4096 == 0 && i < 4040 / pages[page]
    requires Resolve(pages, canary, a) == Resolved.Object(EntryObj(page, pages[page], canary, i))
    ensures InEntry(page, pages[page], i, a)
  {
    var q := PageBase(a);
    var j := IndexOf(a, pages[q]);
    BaseIsAligned(a);
    DivisionIsUnique(a % 4096 - 56, pages[q], j);
    EntryRoundTrip(page, pages[page], i, EntryAddr(page, pages[page], i));
    SameBase(page, i * pages[page], q, j * pages[q]);
    SameIndex(i, j, pages[page]);
    Successor(i, pages[page]);
  }

  lemma BaseIsAligned(a: Addr)
    ensures PageBase(a) % 4096 == 0 && PageBase(a) == 4096 * (a / 4096)
  {
  }

  lemma SameBase(p: Addr, x: nat, q: Addr, y: nat)
    requires p % 4096 == 0 && q % 4096 == 0 && x < 4040 && y < 4040 && p + x == q + y
    ensures p == q && x == y
  {
  }

  lemma SameIndex(i: nat, j: nat, d: nat)
    requires d > 0 && i * d == j * d
    ensures i == j
  {
    StrictlyMore(i, j, d);
    StrictlyMore(j, i, d);
  }

  lemma StrictlyMore(i: nat, j: nat, d: nat)
    requires d > 0
    ensures i < j ==> i * d < j * d
  {
    if i < j {
      MulMonotone(i + 1, j, d);
      Successor(i, d);
    }
  }

  lemma {:induction false} ResolvedElems(pages: map<Addr, nat>, canary: nat, words: seq<Word>, o: Addr)
    requires KnownSizes(pages)
    ensures o in ResolvedObjs(pages, canary, words)
       <==> exists w <- words :: Resolve(pages, canary, w) == Resolved.Object(o)
  {
    hide Resolve;
    if words != [] {
      var n := |words| - 1;
      ResolvedElems(pages, canary, words[..n], o);
      assert words == words[..n] + [words[n]];
    }
  }

  /** An entry is found as a root if and only if it is allocated and some word lies in its bytes. */
  lemma RootFoundExactly(h: Heap, pages: map<Addr, nat>, canary: nat, words: seq<Word>, page: Addr, i: nat)
    requires KnownSizes(pages) && page in pages && page % 4096 == 0 && i < 4040 / pages[page]
    requires NoFlags(h) && Candidates(h, ResolvedObjs(pages, canary, words))
    requires EntryObj(page, pages[page], canary, i) in h
    ensures var o := EntryObj(page, pages[page], canary, i);
            o in FoundRoots(h, ResolvedObjs(pages, canary, words))
            <==> h[o].meta.isAlloc && exists w <- words :: InEntry(page, pages[page], i, w)
  {
    hide Resolve, InEntry, EntryObj, FoundRoots, NoFlags;
    var o := EntryObj(page, pages[page], canary, i);
    FoundRootsExactly(h, ResolvedObjs(pages, canary, words));
    ResolvedElems(pages, canary, words, o);
    forall w | w in words
      ensures Resolve(pages, canary, w) == Resolved.Object(o) <==> InEntry(page, pages[page], i, w)
    {
      if Resolve(pages, canary, w) == Resolved.Object(o) {
        OnlyBytesResolve(pages, canary, page, i, w);
      }
      if InEntry(page, pages[page], i, w) {
        WordResolves(pages, canary, page, i, w);
      }
    }
  }
}
