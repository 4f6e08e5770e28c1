/** The traversal of the statistics over buckets, and what it adds up. */
module LiveBytes {
  import opened Graph
  import opened BucketTrees
  import opened Buckets
  import opened EvacuationCounts
  import opened Page
  import opened Store

  // ---- The order of a traversal

  /** Root, chain, left, right. */
  ghost function Order<P>(t: Tree<P>): seq<P> {
    if t.Leaf? then [] else [t.page] + t.chain + Order(t.left) + Order(t.right)
  }

  ghost function OrderAll<P>(ts: seq<Tree<P>>): seq<P> {
    if ts == [] then [] else Order(ts[0]) + OrderAll(ts[1..])
  }

  ghost function Sum<P>(bytes: map<P, int>, s: seq<P>): int {
    if s == [] then 0 else (if s[0] in bytes then bytes[s[0]] else 0) + Sum(bytes, s[1..])
  }

  lemma {:induction false} SumAppend<P>(bytes: map<P, int>, s: seq<P>, s': seq<P>)
    ensures Sum(bytes, s + s') == Sum(bytes, s) + Sum(bytes, s')
  {
    if s == [] {
      assert s + s' == s';
    } else {
      SumAppend(bytes, s[1..], s');
      assert (s + s')[1..] == s[1..] + s';
    }
  }

  lemma SumOfNode<P>(bytes: map<P, int>, t: Tree<P>)
    requires t.Node?
    ensures Sum(bytes, Order(t)) ==
              Sum(bytes, [t.page] + t.chain) + Sum(bytes, Order(t.left)) + Sum(bytes, Order(t.right))
  {
    SumAppend(bytes, [t.page] + t.chain, Order(t.left));
    SumAppend(bytes, [t.page] + t.chain + Order(t.left), Order(t.right));
  }

  lemma {:induction false} OrderAllSplit<P>(ts: seq<Tree<P>>, i: nat)
    requires i < |ts|
    ensures OrderAll(ts[..i + 1]) == OrderAll(ts[..i]) + Order(ts[i])
  {
    if i == 0 {
      assert ts[..1] == [ts[0]] && ts[..0] == [] && ts[..1][1..] == [];
    } else {
      OrderAllSplit(ts[1..], i - 1);
      assert ts[..i + 1][1..] == ts[1..][..i] && ts[..i][1..] == ts[1..][..i - 1];
      assert ts[..i + 1][0] == ts[0] && ts[..i][0] == ts[0];
    }
  }

  // ---- Every page as often as the buckets hold it

  lemma {:induction false} TaggedCounts<P>(s: seq<P>, u: real, p: P)
    ensures Tagged(s, u)[(p, u)] == multiset(s)[p]
  {
    if s != [] {
      TaggedCounts(s[1..], u, p);
      assert s == [s[0]] + s[1..];
    }
  }

  lemma TaggedOtherwise<P>(s: seq<P>, u: real, p: P, v: real)
    requires u != v
    ensures Tagged(s, u)[(p, v)] == 0
  {
    TaggedWith(s, u, p, v);
  }

  /** A page that every bucket entry records under one utilization comes up once for each entry. */
  lemma {:induction false} OrderCounts<P>(t: Tree<P>, p: P, u: real)
    requires forall e <- Entries(t) :: e.0 == p ==> e.1 == u
    ensures multiset(Order(t))[p] == Entries(t)[(p, u)]
  {
    if t.Node? {
      PartsOf(t, p, u);
      OrderCounts(t.left, p, u);
      OrderCounts(t.right, p, u);
      NodeCounts(t, p, u);
    }
  }

  lemma PartsOf<P>(t: Tree<P>, p: P, u: real)
    requires t.Node? && forall e <- Entries(t) :: e.0 == p ==> e.1 == u
    ensures forall e <- Entries(t.left) :: e.0 == p ==> e.1 == u
    ensures forall e <- Entries(t.right) :: e.0 == p ==> e.1 == u
    ensures t.util != u ==> t.page != p && p !in t.chain
  {
    PartsInside(t);
    hide Entries, Tagged;
    if p in t.chain {
      TaggedCounts(t.chain, t.util, p);
      assert (p, t.util) in Tagged(t.chain, t.util);
    }
  }

  lemma EntriesSplit<P>(t: Tree<P>)
    requires t.Node?
    ensures Entries(t) == Entries(t.left) + multiset{(t.page, t.util)} + Tagged(t.chain, t.util) + Entries(t.right)
  {
  }

  lemma EntryOfPart<P>(t: Tree<P>, e: (P, real))
    requires t.Node?
    ensures Entries(t)[e] == Entries(t.left)[e] + multiset{(t.page, t.util)}[e] + Tagged(t.chain, t.util)[e]
                             + Entries(t.right)[e]
  {
    EntriesSplit(t);
    hide Entries, Tagged;
  }

  lemma NodeCounts<P>(t: Tree<P>, p: P, u: real)
    requires t.Node? && (t.util != u ==> t.page != p && p !in t.chain)
    requires multiset(Order(t.left))[p] == Entries(t.left)[(p, u)]
    requires multiset(Order(t.right))[p] == Entries(t.right)[(p, u)]
    ensures multiset(Order(t))[p] == Entries(t)[(p, u)]
  {
    EntryOfPart(t, (p, u));
    if t.util == u {
      TaggedCounts(t.chain, u, p);
    } else {
      TaggedOtherwise(t.chain, t.util, p, u);
    }
    assert Order(t) == [t.page] + t.chain + Order(t.left) + Order(t.right);
    hide Entries, Tagged, Order;
  }

  lemma {:induction false} OrderAllCounts<P>(ts: seq<Tree<P>>, p: P, u: real)
    requires forall e <- AllEntries(ts) :: e.0 == p ==> e.1 == u
    ensures multiset(OrderAll(ts))[p] == AllEntries(ts)[(p, u)]
  {
    if ts != [] {
      hide Entries, Order, AllEntries, OrderAll;
      FirstTree(ts);
      InEither(Entries(ts[0]), AllEntries(ts[1..]));
      OrderCounts(ts[0], p, u);
      OrderAllCounts(ts[1..], p, u);
    }
  }

  lemma FirstTree<P>(ts: seq<Tree<P>>)
    requires ts != []
    ensures AllEntries(ts) == Entries(ts[0]) + AllEntries(ts[1..])
    ensures multiset(OrderAll(ts)) == multiset(Order(ts[0])) + multiset(OrderAll(ts[1..]))
  {
    hide Entries, Order;
  }

  lemma InEither<E>(a: multiset<E>, b: multiset<E>)
    ensures (forall e <- a :: e in a + b) && (forall e <- b :: e in a + b)
  {
  }

  // ---- What is added up

  /** Every allocated entry of every page. */
  function AllocatedObjects(pages: Pages): set<(PageId, nat)> {
    set p, i: nat | p in pages && i < |pages[p].entries| && pages[p].entries[i].isAlloc :: (p, i)
  }

  function ObjectsOn(pages: Pages, s: seq<PageId>): set<(PageId, nat)> {
    set x | x in AllocatedObjects(pages) && x.0 in s
  }

  lemma {:induction false} SumIsObjects(pages: Pages, s: seq<PageId>, size: nat, bytes: map<PageId, int>)
    requires Distinct(s) && bytes.Keys == pages.Keys && forall p <- s :: p in pages
    requires forall p <- s :: bytes[p] == size * |AllocatedEntries(pages[p])|
    ensures Sum(bytes, s) == size * |ObjectsOn(pages, s)|
  {
    if s == [] {
      assert ObjectsOn(pages, s) == {};
    } else {
      hide AllocatedObjects, ObjectsOn, AllocatedEntries;
      assert forall p <- s[1..] :: p in s;
      SumIsObjects(pages, s[1..], size, bytes);
      ObjectsOfFirst(pages, s);
      Distribute(size, |AllocatedEntries(pages[s[0]])|, |ObjectsOn(pages, s[1..])|);
    }
  }

  lemma ObjectsOfFirst(pages: Pages, s: seq<PageId>)
    requires Distinct(s) && s != [] && s[0] in pages
    ensures |ObjectsOn(pages, s)| == |AllocatedEntries(pages[s[0]])| + |ObjectsOn(pages, s[1..])|
  {
    var here := Pairs(s[0], AllocatedEntries(pages[s[0]]));
    PairsCard(s[0], AllocatedEntries(pages[s[0]]));
    forall x | x in ObjectsOn(pages, s)
      ensures x in ObjectsOn(pages, s[1..]) || x in here
    {
      assert x.0 == s[0] || x.0 in s[1..];
    }
    forall x | x in here
      ensures x in ObjectsOn(pages, s)
    {
      assert x.0 == s[0] && x.1 in AllocatedEntries(pages[s[0]]);
    }
    assert forall x <- ObjectsOn(pages, s[1..]) :: x.0 in s[1..] && x.0 in s && x.0 != s[0];
    assert ObjectsOn(pages, s) == ObjectsOn(pages, s[1..]) + here;
    assert ObjectsOn(pages, s[1..]) !! here;
  }

  lemma Distribute(size: nat, a: nat, b: nat)
    ensures size * (a + b) == size * a + size * b
  {
  }

  lemma {:induction false} OnceIsDistinct(s: seq<PageId>)
    requires forall p :: multiset(s)[p] <= 1
    ensures Distinct(s)
  {
    forall i, j | 0 <= i < j < |s|
      ensures s[i] != s[j]
    {
      assert s == s[..j] + s[j..];
      assert s[i] == s[..j][i] && s[j] == s[j..][0];
      assert multiset(s)[s[i]] == multiset(s[..j])[s[i]] + multiset(s[j..])[s[i]];
      assert s[i] in multiset(s[..j]) && s[j] in multiset(s[j..]);
    }
  }

  lemma EmptyOrder<P>(bytes: map<P, int>, t: Tree<P>)
    ensures t.Leaf? ==> Sum(bytes, Order(t)) == 0
  {
  }

  lemma NothingToAdd<P>(bytes: map<P, int>, ts: seq<Tree<P>>)
    ensures Sum(bytes, OrderAll(ts[..0])) == 0
  {
  }

  lemma PagesOfNode<P>(t: Tree<P>, known: set<P>)
    requires t.Node? && forall e <- Entries(t) :: e.0 in known
    ensures forall e <- Entries(t.left) :: e.0 in known
    ensures forall e <- Entries(t.right) :: e.0 in known
    ensures forall p <- [t.page] + t.chain :: p in known
  {
    PartsInside(t);
    hide Entries, Tagged;
    assert forall e <- Entries(t.left) :: e in Entries(t);
    assert forall e <- Entries(t.right) :: e in Entries(t);
    forall p | p in t.chain
      ensures p in known
    {
      TaggedCounts(t.chain, t.util, p);
      assert (p, t.util) in Tagged(t.chain, t.util);
    }
  }

  lemma PartsInside<P>(t: Tree<P>)
    requires t.Node?
    ensures forall e <- Entries(t.left) :: e in Entries(t)
    ensures forall e <- Entries(t.right) :: e in Entries(t)
    ensures forall e <- Tagged(t.chain, t.util) :: e in Entries(t)
    ensures (t.page, t.util) in Entries(t)
  {
    hide Entries, Tagged;
    forall e | e in Entries(t.left)
      ensures e in Entries(t)
    {
      EntryOfPart(t, e);
    }
    forall e | e in Entries(t.right)
      ensures e in Entries(t)
    {
      EntryOfPart(t, e);
    }
    forall e | e in Tagged(t.chain, t.util)
      ensures e in Entries(t)
    {
      EntryOfPart(t, e);
    }
    EntryOfPart(t, (t.page, t.util));
  }

  lemma {:induction false} EntriesOfOne<P>(ts: seq<Tree<P>>, k: nat)
    requires k < |ts|
    ensures forall e <- Entries(ts[k]) :: e in AllEntries(ts)
  {
    hide Entries;
    if k > 0 {
      EntriesOfOne(ts[1..], k - 1);
    }
  }
}
