/** The four-level table of pages in use, which refines a set of page numbers. */
module PageTable {

  type Addr = nat
  type Word = nat

  const FANOUT: nat := 512
  const PAGE_PRESENT: Word := 1
  const PAGE_SIZE: nat := 4096

  // ---- The four 9-bit indices of an address

  function Index1(a: Addr): (i: nat)
    ensures i < FANOUT
  {
    (a / 0x80_0000_0000) % FANOUT
  }

  function Index2(a: Addr): (i: nat)
    ensures i < FANOUT
  {
    (a / 0x4000_0000) % FANOUT
  }

  function Index3(a: Addr): (i: nat)
    ensures i < FANOUT
  {
    (a / 0x20_0000) % FANOUT
  }

  function Index4(a: Addr): (i: nat)
    ensures i < FANOUT
  {
    (a / 0x1000) % FANOUT
  }

  /** Bits 47 to 12. */
  function PageNumber(a: Addr): nat {
    (a / 0x1000) % 0x10_0000_0000
  }

  function Join(i1: nat, i2: nat, i3: nat, i4: nat): nat {
    ((i1 * FANOUT + i2) * FANOUT + i3) * FANOUT + i4
  }

  /** The four indices put together are the page number. */
  lemma IndicesJoin(a: Addr)
    ensures PageNumber(a) == Join(Index1(a), Index2(a), Index3(a), Index4(a))
  {
    var p := a / 0x1000;
    assert a / 0x20_0000 == p / 512;
    assert a / 0x4000_0000 == p / 0x4_0000;
    assert a / 0x80_0000_0000 == p / 0x800_0000;
    assert p / 0x4_0000 == (p / 512) / 512;
    assert p / 0x800_0000 == ((p / 512) / 512) / 512;
    assert p / 0x10_0000_0000 == (((p / 512) / 512) / 512) / 512;
  }

  lemma JoinInjective(i1: nat, i2: nat, i3: nat, i4: nat, j1: nat, j2: nat, j3: nat, j4: nat)
    requires i2 < FANOUT && i3 < FANOUT && i4 < FANOUT && j2 < FANOUT && j3 < FANOUT && j4 < FANOUT
    requires Join(i1, i2, i3, i4) == Join(j1, j2, j3, j4)
    ensures i1 == j1 && i2 == j2 && i3 == j3 && i4 == j4
  {
  }

  /** Two addresses are on one page exactly when they take the same way through the four levels. */
  lemma SamePageExactly(a: Addr, b: Addr)
    ensures PageNumber(a) == PageNumber(b) <==>
            (Index1(a) == Index1(b) && Index2(a) == Index2(b) && Index3(a) == Index3(b) && Index4(a) == Index4(b))
  {
    IndicesJoin(a);
    IndicesJoin(b);
    if PageNumber(a) == PageNumber(b) {
      JoinInjective(Index1(a), Index2(a), Index3(a), Index4(a), Index1(b), Index2(b), Index3(b), Index4(b));
    }
  }

  // ---- Tables in memory

  /** The table pages by address. */
  type Memory = map<Addr, seq<Word>>

  /** What slot `i` of the table at `t` holds, and null when there is no table at `t`. */
  function Entry(m: Memory, t: Addr, i: nat): Word {
    if t in m && i < |m[t]| then m[t][i] else 0
  }

  function Store(m: Memory, t: Addr, i: nat, w: Word): Memory
    requires t in m && i < |m[t]|
  {
    var table: seq<Word> := m[t][i := w];
    m[t := table]
  }

  function LastTable(m: Memory, root: Addr, i1: nat, i2: nat, i3: nat): Addr {
    Entry(m, Entry(m, Entry(m, root, i1), i2), i3)
  }

  predicate Present(m: Memory, root: Addr, i1: nat, i2: nat, i3: nat, i4: nat) {
    Entry(m, LastTable(m, root, i1, i2, i3), i4) == PAGE_PRESENT
  }

  function ZeroTable(): seq<Word> {
    seq(FANOUT, _ => 0)
  }

  /**
   * Each table is reached from the root by the way `path` gives, so no two slots share a table,
   * and only tables above the last level point to tables.
   */
  ghost predicate Shape(m: Memory, root: Addr, path: map<Addr, seq<nat>>) {
    && 0 !in m
    && path.Keys == m.Keys
    && (root != 0 ==> root in m && path[root] == [])
    && (forall t <- m :: |m[t]| == FANOUT && |path[t]| <= 3)
    && (forall t, i :: t in m && 0 <= i < FANOUT && |path[t]| < 3 && Entry(m, t, i) != 0 ==>
          Entry(m, t, i) in m && path[Entry(m, t, i)] == path[t] + [i])
  }

  /** Hanging a fresh zeroed table into an empty slot shows no page that was not shown before. */
  lemma FreshTableShowsNothing(m: Memory, root: Addr, path: map<Addr, seq<nat>>, t: Addr, i: nat, n: Addr,
                               m': Memory, j1: nat, j2: nat, j3: nat, j4: nat)
    requires Shape(m, root, path) && t in m && i < FANOUT && |path[t]| < 3
    requires Entry(m, t, i) == 0 && n != 0 && n !in m && root in m
    requires m' == Store(m, t, i, n)[n := ZeroTable()]
    requires j1 < FANOUT && j2 < FANOUT && j3 < FANOUT && j4 < FANOUT
    ensures Present(m', root, j1, j2, j3, j4) == Present(m, root, j1, j2, j3, j4)
  {
    forall u: Addr, j: nat | u != n && !(u == t && j == i)
      ensures Entry(m', u, j) == Entry(m, u, j)
    {
    }
    assert forall j: nat :: Entry(m', n, j) == 0 && Entry(m', 0, j) == 0 && Entry(m, 0, j) == 0;
  }

  /** Setting a slot of a last table shows the one page at the end of that way, and changes no other. */
  lemma MarkShowsOne(m: Memory, root: Addr, path: map<Addr, seq<nat>>, t: Addr, i: nat, m': Memory,
                     i1: nat, i2: nat, i3: nat, j1: nat, j2: nat, j3: nat, j4: nat)
    requires Shape(m, root, path) && root in m && i < FANOUT
    requires i1 < FANOUT && i2 < FANOUT && i3 < FANOUT
    requires t == LastTable(m, root, i1, i2, i3) && t in m && path[t] == [i1, i2, i3]
    requires m' == Store(m, t, i, PAGE_PRESENT)
    requires j1 < FANOUT && j2 < FANOUT && j3 < FANOUT && j4 < FANOUT
    ensures Present(m', root, j1, j2, j3, j4) <==>
            (Present(m, root, j1, j2, j3, j4) || (j1 == i1 && j2 == i2 && j3 == i3 && j4 == i))
  {
    LastTableHasPath(m, root, path, j1, j2, j3);
    var a2 := Entry(m, root, j1);
    var a3 := Entry(m, a2, j2);
    assert root != t;
    assert Entry(m', root, j1) == a2;
    assert a2 != t;
    assert Entry(m', a2, j2) == a3;
    assert a3 != t;
    assert LastTable(m', root, j1, j2, j3) == LastTable(m, root, j1, j2, j3);
    assert LastTable(m, root, j1, j2, j3) == t ==>
             [j1, j2, j3][0] == i1 && [j1, j2, j3][1] == i2 && [j1, j2, j3][2] == i3;
  }

  lemma LastTableHasPath(m: Memory, root: Addr, path: map<Addr, seq<nat>>, j1: nat, j2: nat, j3: nat)
    requires Shape(m, root, path) && root in m
    requires j1 < FANOUT && j2 < FANOUT && j3 < FANOUT
    ensures var a2 := Entry(m, root, j1); a2 != 0 ==> a2 in m && |path[a2]| == 1
    ensures var a3 := Entry(m, Entry(m, root, j1), j2); a3 != 0 ==> a3 in m && |path[a3]| == 2
    ensures var a4 := LastTable(m, root, j1, j2, j3); a4 != 0 ==> a4 in m && path[a4] == [j1, j2, j3]
  {
    var a2 := Entry(m, root, j1);
    if a2 != 0 {
      assert path[a2] == [] + [j1];
      var a3 := Entry(m, a2, j2);
      if a3 != 0 {
        assert path[a3] == path[a2] + [j2];
        var a4 := Entry(m, a3, j3);
        if a4 != 0 {
          assert path[a4] == path[a3] + [j3];
        }
      }
    }
  }

  // ---- The table of pages in use

  predicate OnPage(inserted: set<Addr>, p: nat) {
    exists a <- inserted :: PageNumber(a) == p
  }

  /** The ways that end in a set slot are those of the inserted addresses. */
  ghost predicate Shows(m: Memory, root: Addr, inserted: set<Addr>) {
    forall i1, i2, i3, i4 :: 0 <= i1 < FANOUT && 0 <= i2 < FANOUT && 0 <= i3 < FANOUT && 0 <= i4 < FANOUT ==>
      (Present(m, root, i1, i2, i3, i4) <==> OnPage(inserted, Join(i1, i2, i3, i4)))
  }

  lemma FreshKeepsShape(m: Memory, root: Addr, path: map<Addr, seq<nat>>, t: Addr, i: nat, n: Addr)
    requires Shape(m, root, path) && t in m && i < FANOUT && |path[t]| < 3
    requires Entry(m, t, i) == 0 && n != 0 && n !in m && root in m
    ensures Shape(Store(m, t, i, n)[n := ZeroTable()], root, path[n := path[t] + [i]])
  {
    var m' := Store(m, t, i, n)[n := ZeroTable()];
    var path' := path[n := path[t] + [i]];
    forall u, j | u in m' && 0 <= j < FANOUT && |path'[u]| < 3 && Entry(m', u, j) != 0
      ensures Entry(m', u, j) in m' && path'[Entry(m', u, j)] == path'[u] + [j]
    {
      if u == t && j == i {
        assert Entry(m', u, j) == n;
      } else {
        assert u != n;
        assert Entry(m', u, j) == Entry(m, u, j);
      }
    }
  }

  lemma FreshKeepsShows(m: Memory, root: Addr, path: map<Addr, seq<nat>>, t: Addr, i: nat, n: Addr, inserted: set<Addr>)
    requires Shape(m, root, path) && t in m && i < FANOUT && |path[t]| < 3
    requires Entry(m, t, i) == 0 && n != 0 && n !in m && root in m
    requires Shows(m, root, inserted)
    ensures Shows(Store(m, t, i, n)[n := ZeroTable()], root, inserted)
  {
    hide Present, Store, Join, OnPage, Entry;
    var m' := Store(m, t, i, n)[n := ZeroTable()];
    forall j1, j2, j3, j4 | 0 <= j1 < FANOUT && 0 <= j2 < FANOUT && 0 <= j3 < FANOUT && 0 <= j4 < FANOUT
      ensures Present(m', root, j1, j2, j3, j4) <==> OnPage(inserted, Join(j1, j2, j3, j4))
    {
      FreshTableShowsNothing(m, root, path, t, i, n, m', j1, j2, j3, j4);
    }
  }

  lemma EmptyShows(root: Addr, m: Memory)
    requires root != 0 && m == map[root := ZeroTable()]
    ensures Shows(m, root, {})
  {
    assert forall u, j: nat :: Entry(m, u, j) == 0;
  }

  lemma MarkKeepsShape(m: Memory, root: Addr, path: map<Addr, seq<nat>>, t: Addr, i: nat)
    requires Shape(m, root, path) && t in m && |path[t]| == 3 && i < FANOUT
    ensures Shape(Store(m, t, i, PAGE_PRESENT), root, path)
  {
    var m' := Store(m, t, i, PAGE_PRESENT);
    assert forall u, j: nat :: u != t ==> Entry(m', u, j) == Entry(m, u, j);
  }

  lemma MarkShows(m: Memory, root: Addr, path: map<Addr, seq<nat>>, t: Addr, addr: Addr, inserted: set<Addr>)
    requires Shape(m, root, path) && root in m
    requires t == LastTable(m, root, Index1(addr), Index2(addr), Index3(addr)) && t in m
    requires path[t] == [Index1(addr), Index2(addr), Index3(addr)]
    requires Shows(m, root, inserted)
    ensures Shows(Store(m, t, Index4(addr), PAGE_PRESENT), root, inserted + {addr})
  {
    var i1, i2, i3, i4 := Index1(addr), Index2(addr), Index3(addr), Index4(addr);
    IndicesJoin(addr);
    hide Index1, Index2, Index3, Index4, Present, Store, Entry, Join, LastTable, PageNumber;
    var m' := Store(m, t, i4, PAGE_PRESENT);
    forall j1, j2, j3, j4 | 0 <= j1 < FANOUT && 0 <= j2 < FANOUT && 0 <= j3 < FANOUT && 0 <= j4 < FANOUT
      ensures Present(m', root, j1, j2, j3, j4) <==> OnPage(inserted + {addr}, Join(j1, j2, j3, j4))
    {
      MarkShowsOne(m, root, path, t, i4, m', i1, i2, i3, j1, j2, j3, j4);
      if Join(j1, j2, j3, j4) == PageNumber(addr) {
        JoinInjective(j1, j2, j3, j4, i1, i2, i3, i4);
      }
      OneMore(inserted, addr, Join(j1, j2, j3, j4));
    }
  }

  lemma OneMore(inserted: set<Addr>, addr: Addr, p: nat)
    ensures OnPage(inserted + {addr}, p) <==> OnPage(inserted, p) || PageNumber(addr) == p
  {
    hide PageNumber;
    if PageNumber(addr) == p {
      assert addr in inserted + {addr};
    }
    if OnPage(inserted, p) {
      var a :| a in inserted && PageNumber(a) == p;
      assert a in inserted + {addr};
    }
  }

  class PageTableInUseInfo {
    var root: Addr
    var tables: Memory
    var nextPage: Addr
    ghost var path: map<Addr, seq<nat>>
    ghost var inserted: set<Addr>

    ghost predicate Valid()
      reads this
    {
      && Shape(tables, root, path)
      && (root == 0 ==> tables == map[] && inserted == {})
      && nextPage > 0
      && (forall t <- tables :: t < nextPage)
      && Shows(tables, root, inserted)
    }

    constructor ()
      ensures Valid() && inserted == {}
    {
      root := 0;
      tables := map[];
      nextPage := PAGE_SIZE;
      path := map[];
      inserted := {};
    }

    /** Takes a page from the page manager and zeroes it. */
    method AllocateTable(ghost way: seq<nat>) returns (n: Addr)
      requires nextPage > 0 && forall t <- tables :: t < nextPage
      modifies this`tables, this`nextPage, this`path
      ensures n == old(nextPage) && n !in old(tables) && nextPage == n + PAGE_SIZE
      ensures tables == old(tables)[n := ZeroTable()]
      ensures path == old(path)[n := way]
    {
      n := nextPage;
      nextPage := nextPage + PAGE_SIZE;
      tables := tables[n := ZeroTable()];
      path := path[n := way];
    }

    /** The table in slot `i` of table `t`, hung in fresh when the slot is null. */
    method EnsureTable(t: Addr, i: nat) returns (child: Addr)
      requires Valid() && t in tables && i < FANOUT && |path[t]| < 3 && root != 0
      modifies this`tables, this`nextPage, this`path
      ensures Valid()
      ensures child == Entry(tables, t, i) && child in tables && path[child] == old(path[t]) + [i]
      ensures forall u: Addr, j: nat :: Entry(old(tables), u, j) != 0 ==>
                Entry(tables, u, j) == Entry(old(tables), u, j)
    {
      hide Shows, Present;
      if tables[t][i] == 0 {
        ghost var m := tables;
        ghost var way := path;
        var n := AllocateTable(path[t] + [i]);
        tables := Store(tables, t, i, n);
        assert tables == Store(m, t, i, n)[n := ZeroTable()];
        FreshKeepsShape(m, root, way, t, i, n);
        FreshKeepsShows(m, root, way, t, i, n, inserted);
      }
      child := tables[t][i];
    }

    /** The table of the fourth level on the way to the page of `addr`. */
    method Descend(addr: Addr) returns (level4: Addr)
      requires Valid() && root != 0
      modifies this`tables, this`nextPage, this`path
      ensures Valid() && level4 in tables
      ensures path[level4] == [Index1(addr), Index2(addr), Index3(addr)]
      ensures level4 == LastTable(tables, root, Index1(addr), Index2(addr), Index3(addr))
    {
      hide Shows, Present, Index1, Index2, Index3, Index4;
      var level2 := EnsureTable(root, Index1(addr));
      var level3 := EnsureTable(level2, Index2(addr));
      level4 := EnsureTable(level3, Index3(addr));
    }

    method Insert(addr: Addr)
      requires Valid()
      modifies this
      ensures Valid() && inserted == old(inserted) + {addr}
    {
      hide Shows, Present, Index1, Index2, Index3, Index4;
      if root == 0 {
        EmptyShows(nextPage, tables[nextPage := ZeroTable()]);
        root := AllocateTable([]);
      }
      var i4 := Index4(addr);
      var level4 := Descend(addr);
      MarkKeepsShape(tables, root, path, level4, i4);
      MarkShows(tables, root, path, level4, addr, inserted);
      tables := Store(tables, level4, i4, PAGE_PRESENT);
      inserted := inserted + {addr};
    }

    method Query(addr: Addr) returns (inUse: bool)
      requires Valid()
      ensures inUse <==> exists a <- inserted :: PageNumber(a) == PageNumber(addr)
    {
      IndicesJoin(addr);
      var i1, i2, i3, i4 := Index1(addr), Index2(addr), Index3(addr), Index4(addr);
      if root == 0 {
        return false;
      }
      assert Present(tables, root, i1, i2, i3, i4) <==> OnPage(inserted, Join(i1, i2, i3, i4));
      if tables[root][i1] == 0 {
        return false;
      }
      var level2 := tables[root][i1];
      if tables[level2][i2] == 0 {
        return false;
      }
      var level3 := tables[level2][i2];
      if tables[level3][i3] == 0 {
        return false;
      }
      var level4 := tables[level3][i3];
      return tables[level4][i4] == PAGE_PRESENT;
    }
  }
}
