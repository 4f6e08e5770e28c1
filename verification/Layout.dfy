/** Address arithmetic inside one 4096-byte page: header, then entries of one real size. */
module Layout {

  type Addr = nat

  const PAGE_SIZE: nat := 4096
  /** sizeof(PageInfo) */
  const HEADER_SIZE: nat := 56
  /** sizeof(MetaData) in the verbose layout */
  const META_SIZE: nat := 24
  /** Canary bytes before the metadata and after the object in the checked build. */
  const CANARY_SIZE: nat := 16

  function RealEntrySize(allocSize: nat, canary: nat): nat {
    canary + allocSize + META_SIZE + canary
  }

  function EntryCount(realSize: nat): nat
    requires realSize > 0
  {
    (PAGE_SIZE - HEADER_SIZE) / realSize
  }

  function PageBase(a: Addr): Addr {
    a - a % PAGE_SIZE
  }

  function EntryAddr(page: Addr, realSize: nat, i: nat): Addr {
    page + HEADER_SIZE + i * realSize
  }

  function MetaAddr(page: Addr, realSize: nat, canary: nat, i: nat): Addr {
    EntryAddr(page, realSize, i) + canary
  }

  function ObjAddr(page: Addr, realSize: nat, canary: nat, i: nat): Addr {
    MetaAddr(page, realSize, canary, i) + META_SIZE
  }

  /** The index computed for an address past the header of its page. */
  function IndexOf(a: Addr, realSize: nat): nat
    requires realSize > 0 && a % PAGE_SIZE >= HEADER_SIZE
  {
    (a % PAGE_SIZE - HEADER_SIZE) / realSize
  }

  /** Where processDecrements links a freed object: just before its metadata. */
  function FreedEntryAddr(obj: Addr): int {
    obj - META_SIZE
  }

  lemma DivisionIsUnique(n: nat, d: nat, i: nat)
    requires d > 0
    ensures n / d == i <==> i * d <= n < (i + 1) * d
  {
    assert n == (n / d) * d + n % d;
    if n / d < i {
      assert (n / d + 1) * d <= i * d;
    } else if i < n / d {
      assert (i + 1) * d <= (n / d) * d;
    }
  }

  lemma MulMonotone(i: nat, j: nat, d: nat)
    requires i <= j
    ensures i * d <= j * d
  {
  }

  /** Entry i < EntryCount lies inside the page, and entries do not overlap. */
  lemma EntriesFitAndAreDisjoint(page: Addr, realSize: nat, i: nat, j: nat)
    requires realSize > 0 && i < j < EntryCount(realSize)
    ensures page + HEADER_SIZE <= EntryAddr(page, realSize, i)
    ensures EntryAddr(page, realSize, i) + realSize <= EntryAddr(page, realSize, j)
    ensures EntryAddr(page, realSize, j) + realSize <= page + PAGE_SIZE
  {
    DivisionIsUnique(PAGE_SIZE - HEADER_SIZE, realSize, EntryCount(realSize));
    MulMonotone(i + 1, j, realSize);
    MulMonotone(j + 1, EntryCount(realSize), realSize);
  }

  /** An address past the header resolves to entry i exactly when it lies in entry i's bytes. */
  lemma ResolvesExactly(page: Addr, realSize: nat, a: Addr, i: nat)
    requires realSize > 0 && page % PAGE_SIZE == 0
    requires page + HEADER_SIZE <= a < page + PAGE_SIZE
    ensures PageBase(a) == page
    ensures IndexOf(a, realSize) == i <==> EntryAddr(page, realSize, i) <= a < EntryAddr(page, realSize, i) + realSize
  {
    assert a % PAGE_SIZE == a - page;
    DivisionIsUnique(a - page - HEADER_SIZE, realSize, i);
  }

  /** The round trip: every byte of a real entry leads back to that entry. */
  lemma EntryRoundTrip(page: Addr, realSize: nat, i: nat, a: Addr)
    requires realSize > 0 && page % PAGE_SIZE == 0 && i < EntryCount(realSize)
    requires EntryAddr(page, realSize, i) <= a < EntryAddr(page, realSize, i) + realSize
    ensures a % PAGE_SIZE >= HEADER_SIZE && PageBase(a) == page && IndexOf(a, realSize) == i
  {
    DivisionIsUnique(PAGE_SIZE - HEADER_SIZE, realSize, EntryCount(realSize));
    MulMonotone(i + 1, EntryCount(realSize), realSize);
    ResolvesExactly(page, realSize, a, i);
  }

  /** An address resolves to a real entry exactly when it is not in the slack at the page's end. */
  lemma ResolvesToRealEntryExactly(page: Addr, realSize: nat, a: Addr)
    requires realSize > 0 && page % PAGE_SIZE == 0
    requires page + HEADER_SIZE <= a < page + PAGE_SIZE
    ensures PageBase(a) == page
    ensures IndexOf(a, realSize) < EntryCount(realSize) <==> a < EntryAddr(page, realSize, EntryCount(realSize))
  {
    var n := a - page - HEADER_SIZE;
    assert a % PAGE_SIZE == a - page;
    QuotientBelow(n, realSize, EntryCount(realSize));
  }

  lemma QuotientBelow(n: nat, d: nat, c: nat)
    requires d > 0
    ensures n / d < c <==> n < c * d
  {
    DivisionIsUnique(n, d, n / d);
    if n / d < c {
      MulMonotone(n / d + 1, c, d);
    } else {
      MulMonotone(c, n / d, d);
    }
  }

  /** With canaries the slack is reachable: 24-byte objects leave 40 bytes, resolved to entry 50 of 50. */
  lemma SlackWitness(page: Addr)
    requires page % PAGE_SIZE == 0
    ensures var realSize := RealEntrySize(24, CANARY_SIZE); var a := page + 4056;
            a % PAGE_SIZE >= HEADER_SIZE && IndexOf(a, realSize) == EntryCount(realSize)
  {
    assert (page + 4056) % PAGE_SIZE == 4056;
  }

  /** A page of the checked build holds at most 63 entries. */
  lemma AtMost63Entries(allocSize: nat)
    requires allocSize >= 8
    ensures EntryCount(RealEntrySize(allocSize, CANARY_SIZE)) <= 63
  {
    var realSize := RealEntrySize(allocSize, CANARY_SIZE);
    DivisionIsUnique(PAGE_SIZE - HEADER_SIZE, realSize, EntryCount(realSize));
    if EntryCount(realSize) > 63 {
      MulMonotone(64, EntryCount(realSize), realSize);
    }
  }

  lemma MultipleOfEight(z: nat)
    ensures (8 * z) % 8 == 0
  {
  }

  /** Objects are word aligned. */
  lemma ObjectsAreAligned(page: Addr, allocSize: nat, canary: nat, i: nat)
    requires page % PAGE_SIZE == 0 && allocSize % 8 == 0 && canary % 8 == 0
    ensures ObjAddr(page, RealEntrySize(allocSize, canary), canary, i) % 8 == 0
  {
    var p, c, a := page / PAGE_SIZE, canary / 8, allocSize / 8;
    var k := c + a + 3 + c;
    assert RealEntrySize(allocSize, canary) == 8 * k;
    assert i * (8 * k) == 8 * (i * k);
    var m := i * k;
    assert ObjAddr(page, RealEntrySize(allocSize, canary), canary, i) == 8 * (512 * p + 7 + m + c + 3);
    MultipleOfEight(512 * p + 7 + m + c + 3);
  }

  /** The address linked by processDecrements is one of the page's entries exactly without canaries. */
  lemma FreedEntryExactly(page: Addr, allocSize: nat, canary: nat, i: nat)
    requires allocSize > 0
    ensures var realSize := RealEntrySize(allocSize, canary);
            (exists j: nat :: FreedEntryAddr(ObjAddr(page, realSize, canary, i)) == EntryAddr(page, realSize, j))
            <==> canary == 0
  {
    var realSize := RealEntrySize(allocSize, canary);
    var a := FreedEntryAddr(ObjAddr(page, realSize, canary, i));
    assert a == EntryAddr(page, realSize, i) + canary;
    if canary != 0 {
      forall j: nat
        ensures a != EntryAddr(page, realSize, j)
      {
        if j <= i {
          MulMonotone(j, i, realSize);
        } else {
          MulMonotone(i + 1, j, realSize);
        }
      }
    }
  }

  /** What a candidate word resolves to: the object of the entry whose bytes contain it. */
  datatype Resolved = NotAPointer | Object(obj: Addr)

  function Resolve(pages: map<Addr, nat>, canary: nat, a: Addr): Resolved
    requires forall p :: p in pages ==> pages[p] > 0
  {
    var page := PageBase(a);
    if page in pages && a % PAGE_SIZE >= HEADER_SIZE then
      Object(ObjAddr(page, pages[page], canary, IndexOf(a, pages[page])))
    else
      NotAPointer
  }
}
