/** Buckets of page headers linked through left, right and next, updated in place. */
module BucketPages {
  import opened BucketTrees
  import opened Buckets
  import opened LiveBytes
  import opened PageInfo
  import opened Utilization

  // ---- What the pointers stand for

  datatype Links = Links(left: PageInfo?, right: PageInfo?, next: PageInfo?, util: real)

  type Memory = map<PageInfo, Links>

  ghost function MemoryOf(pages: set<PageInfo>): Memory
    reads pages
  {
    map p | p in pages :: Links(p.left, p.right, p.next, p.approxUtilization)
  }

  ghost function Members(s: seq<PageInfo>): set<PageInfo> {
    set p | p in s
  }

  ghost function PagesOf(t: Tree<PageInfo>): set<PageInfo> {
    if t.Leaf? then {} else {t.page} + Members(t.chain) + PagesOf(t.left) + PagesOf(t.right)
  }

  /** The pages after q by next, all with the same utilization. */
  ghost predicate Chained(m: Memory, q: PageInfo, chain: seq<PageInfo>, u: real)
    decreases |chain|
  {
    && q in m
    && m[q].util == u
    && if chain == [] then m[q].next == null else m[q].next == chain[0] && Chained(m, chain[0], chain[1..], u)
  }

  ghost predicate Repr(m: Memory, t: Tree<PageInfo>, p: PageInfo?)
    decreases t
  {
    if t.Leaf? then p == null
    else
      && p == t.page
      && Chained(m, t.page, t.chain, t.util)
      && Repr(m, t.left, m[t.page].left)
      && Repr(m, t.right, m[t.page].right)
  }

  /** No page stands in two places of the tree. */
  ghost predicate Apart(t: Tree<PageInfo>) {
    t.Node? ==>
      && NoRepeat([t.page] + t.chain)
      && Members([t.page] + t.chain) !! PagesOf(t.left)
      && Members([t.page] + t.chain) !! PagesOf(t.right)
      && PagesOf(t.left) !! PagesOf(t.right)
      && Apart(t.left)
      && Apart(t.right)
  }

  ghost predicate NoRepeat(s: seq<PageInfo>) {
    forall i, j :: 0 <= i < j < |s| ==> s[i] != s[j]
  }

  // ---- Frames

  ghost predicate SameOn(m: Memory, m': Memory, pages: set<PageInfo>) {
    forall q <- pages :: q in m && q in m' && m'[q] == m[q]
  }

  lemma {:induction false} ChainedStays(m: Memory, m': Memory, q: PageInfo, chain: seq<PageInfo>, u: real)
    requires Chained(m, q, chain, u)
    requires q in m' && m'[q].next == m[q].next && m'[q].util == m[q].util && SameOn(m, m', Members(chain))
    ensures Chained(m', q, chain, u)
    decreases |chain|
  {
    if chain != [] {
      ChainedStays(m, m', chain[0], chain[1..], u);
    }
  }

  lemma {:induction false} ReprStays(m: Memory, m': Memory, t: Tree<PageInfo>, p: PageInfo?)
    requires Repr(m, t, p) && SameOn(m, m', PagesOf(t))
    ensures Repr(m', t, p)
    decreases t
  {
    if t.Node? {
      ChainedStays(m, m', t.page, t.chain, t.util);
      ReprStays(m, m', t.left, m[t.page].left);
      ReprStays(m, m', t.right, m[t.page].right);
    }
  }

  // ---- Insertion

  /** The node below which the page is hung. */
  ghost function WayEnd(t: Tree<PageInfo>, u: real): Tree<PageInfo>
    requires t.Node?
    ensures WayEnd(t, u).Node? && WayEnd(t, u).page in PagesOf(t)
  {
    var side := if u < t.util then t.left else t.right;
    if side.Leaf? then t else WayEnd(side, u)
  }

  /** A page with no links of its own. */
  ghost predicate Loose(m: Memory, n: PageInfo, u: real) {
    n in m && m[n] == Links(null, null, null, u)
  }

  ghost function Hang(l: Links, n: PageInfo, toLeft: bool): Links {
    if toLeft then l.(left := n) else l.(right := n)
  }

  lemma NodeIsApart(t: Tree<PageInfo>)
    requires t.Node? && Apart(t)
    ensures t.page !in Members(t.chain) && t.page !in PagesOf(t.left) && t.page !in PagesOf(t.right)
    ensures Members(t.chain) !! PagesOf(t.left) && Members(t.chain) !! PagesOf(t.right)
  {
    var whole := [t.page] + t.chain;
    assert whole[0] == t.page && forall k :: 0 <= k < |t.chain| ==> whole[k + 1] == t.chain[k];
    assert t.page in Members(whole) && Members(t.chain) <= Members(whole);
  }

  lemma LooseIsTree(m: Memory, n: PageInfo, u: real)
    requires Loose(m, n, u)
    ensures Repr(m, Node(Leaf, n, [], u, Leaf), n)
  {
  }

  lemma HungHere(m: Memory, m': Memory, t: Tree<PageInfo>, n: PageInfo, u: real)
    requires t.Node? && Repr(m, t, t.page) && Apart(t) && n !in PagesOf(t)
    requires (if u < t.util then t.left else t.right).Leaf?
    requires Loose(m', n, u)
    requires t.page in m' && m'[t.page] == Hang(m[t.page], n, u < t.util)
    requires SameOn(m, m', PagesOf(t) - {t.page})
    ensures Repr(m', Descend(t, n, u), t.page)
  {
    NodeIsApart(t);
    LooseIsTree(m', n, u);
    hide NoRepeat, Members, Loose;
    ChainedStays(m, m', t.page, t.chain, t.util);
    if u < t.util {
      ReprStays(m, m', t.right, m[t.page].right);
    } else {
      ReprStays(m, m', t.left, m[t.page].left);
    }
  }

  /** Hanging the page below the end of its way gives the tree that descending gives. */
  lemma {:induction false} HungBelow(m: Memory, m': Memory, t: Tree<PageInfo>, n: PageInfo, u: real)
    requires t.Node? && Repr(m, t, t.page) && Apart(t) && n !in PagesOf(t)
    requires Loose(m', n, u)
    requires var e := WayEnd(t, u);
             e.page in m && e.page in m' && m'[e.page] == Hang(m[e.page], n, u < e.util)
    requires SameOn(m, m', PagesOf(t) - {WayEnd(t, u).page})
    ensures Repr(m', Descend(t, n, u), t.page)
    decreases t
  {
    hide NoRepeat, Members, Loose, Hang;
    var side := if u < t.util then t.left else t.right;
    if side.Leaf? {
      HungHere(m, m', t, n, u);
    } else {
      NodeIsApart(t);
      HungBelow(m, m', side, n, u);
      ChainedStays(m, m', t.page, t.chain, t.util);
      if u < t.util {
        ReprStays(m, m', t.right, m[t.page].right);
      } else {
        ReprStays(m, m', t.left, m[t.page].left);
      }
    }
  }

  lemma {:induction false} DescendApart(t: Tree<PageInfo>, n: PageInfo, u: real)
    requires Apart(t) && n !in PagesOf(t)
    ensures Apart(Descend(t, n, u)) && PagesOf(Descend(t, n, u)) == PagesOf(t) + {n}
    decreases t
  {
    if t.Node? {
      hide NoRepeat;
      assert Members([t.page] + t.chain) == {t.page} + Members(t.chain);
      DescendApart(if u < t.util then t.left else t.right, n, u);
    }
  }

  function Last(q: PageInfo, chain: seq<PageInfo>): PageInfo {
    if chain == [] then q else chain[|chain| - 1]
  }

  lemma TailOfChain(q: PageInfo, chain: seq<PageInfo>)
    requires NoRepeat([q] + chain) && chain != []
    ensures NoRepeat([chain[0]] + chain[1..]) && q !in chain
    ensures Members([q] + chain) == {q} + Members(chain) && [chain[0]] + chain[1..] == chain
    ensures Last(q, chain) == Last(chain[0], chain[1..]) && Last(q, chain) in chain
  {
    assert [chain[0]] + chain[1..] == chain;
    assert forall k :: 0 <= k < |chain| ==> chain[k] == ([q] + chain)[k + 1];
    assert ([q] + chain)[0] == q;
  }

  /** Linking a page after the last of a chain. */
  lemma {:induction false} ChainedAppend(m: Memory, m': Memory, q: PageInfo, chain: seq<PageInfo>, n: PageInfo, u: real)
    requires Chained(m, q, chain, u) && NoRepeat([q] + chain) && Loose(m', n, u)
    requires var last := Last(q, chain); last in m && last in m' && m'[last] == m[last].(next := n)
    requires SameOn(m, m', Members([q] + chain) - {Last(q, chain)})
    ensures Chained(m', q, chain + [n], u)
    decreases |chain|
  {
    if chain == [] {
      assert [] + [n] == [n];
      assert Chained(m', n, [], u);
    } else {
      TailOfChain(q, chain);
      hide NoRepeat;
      ChainedAppend(m, m', chain[0], chain[1..], n, u);
      assert (chain + [n])[1..] == chain[1..] + [n];
    }
  }

  lemma RootChained(m: Memory, m': Memory, t: Tree<PageInfo>, n: PageInfo, u: real)
    requires t.Node? && u == t.util && Repr(m, t, t.page) && Apart(t) && Loose(m', n, u)
    requires var last := Last(t.page, t.chain); last in m && last in m' && m'[last] == m[last].(next := n)
    requires SameOn(m, m', PagesOf(t) - {Last(t.page, t.chain)})
    ensures Repr(m', Insert(t, n, u), t.page)
  {
    var last := Last(t.page, t.chain);
    NodeIsApart(t);
    assert last in {t.page} + Members(t.chain);
    assert last !in PagesOf(t.left) && last !in PagesOf(t.right);
    ReprStays(m, m', t.left, m[t.page].left);
    ReprStays(m, m', t.right, m[t.page].right);
    assert Members([t.page] + t.chain) == {t.page} + Members(t.chain);
    hide Repr, Apart;
    ChainedAppend(m, m', t.page, t.chain, n, u);
  }

  lemma RootChainedApart(t: Tree<PageInfo>, n: PageInfo, u: real)
    requires t.Node? && u == t.util && Apart(t) && n !in PagesOf(t)
    ensures Apart(Insert(t, n, u)) && PagesOf(Insert(t, n, u)) == PagesOf(t) + {n}
  {
    var whole := [t.page] + t.chain;
    assert [t.page] + (t.chain + [n]) == whole + [n];
    assert Members(whole) == {t.page} + Members(t.chain);
    assert Members(t.chain + [n]) == Members(t.chain) + {n};
    assert Members(whole + [n]) == Members(whole) + {n};
    forall k | 0 <= k < |whole|
      ensures whole[k] != n
    {
      assert whole[k] in Members(whole);
    }
  }

  // ---- Removal

  /** The node whose left child is the leftmost. */
  ghost function ParentOfLeftmost(t: Tree<PageInfo>): (r: Tree<PageInfo>)
    requires t.Node? && t.left.Node?
    ensures r.Node? && r.left.Node? && r.page in PagesOf(t)
  {
    if t.left.left.Leaf? then t else ParentOfLeftmost(t.left)
  }

  lemma {:induction false} LeftmostInside(t: Tree<PageInfo>)
    requires t.Node?
    ensures Leftmost(t).page in PagesOf(t)
  {
    if t.left.Node? {
      LeftmostInside(t.left);
    }
  }

  /** Linking the leftmost node's right subtree to its parent gives the tree that cutting gives. */
  lemma {:induction false} CutBelow(m: Memory, m': Memory, t: Tree<PageInfo>)
    requires t.Node? && t.left.Node? && Repr(m, t, t.page) && Apart(t)
    requires Leftmost(t).page in m && ParentOfLeftmost(t).page in m
    requires var e := ParentOfLeftmost(t).page;
             e in m' && m'[e] == m[e].(left := m[Leftmost(t).page].right)
    requires SameOn(m, m', PagesOf(t) - {ParentOfLeftmost(t).page})
    ensures Repr(m', CutLeftmost(t), t.page)
    decreases t
  {
    NodeIsApart(t);
    hide NoRepeat, Members;
    ChainedStays(m, m', t.page, t.chain, t.util);
    ReprStays(m, m', t.right, m[t.page].right);
    if t.left.left.Leaf? {
      assert CutLeftmost(t) == t.(left := t.left.right);
      ReprStays(m, m', t.left.right, m[t.left.page].right);
    } else {
      CutBelow(m, m', t.left);
    }
  }

  lemma {:induction false} CutApart(t: Tree<PageInfo>)
    requires t.Node? && Apart(t)
    ensures Apart(CutLeftmost(t))
    ensures PagesOf(CutLeftmost(t)) == PagesOf(t) - {Leftmost(t).page} - Members(Leftmost(t).chain)
    decreases t
  {
    NodeIsApart(t);
    if t.left.Node? {
      assert Members([t.page] + t.chain) == {t.page} + Members(t.chain);
      CutApart(t.left);
      LeftmostSubset(t.left);
      hide NoRepeat, Members;
    }
  }

  lemma {:induction false} LeftmostSubset(t: Tree<PageInfo>)
    requires t.Node?
    ensures {Leftmost(t).page} + Members(Leftmost(t).chain) <= PagesOf(t)
  {
    if t.left.Node? {
      LeftmostSubset(t.left);
    }
  }

  lemma RemoveApart(t: Tree<PageInfo>)
    requires t.Node? && Apart(t) && NoChains(t.left)
    ensures Apart(RemoveLowest(t)) && PagesOf(RemoveLowest(t)) == PagesOf(t) - {Leftmost(t).page}
    ensures Leftmost(t).page in PagesOf(t)
  {
    LeftmostInside(t);
    if t.left.Node? {
      LeftmostHasNoChain(t.left);
      CutApart(t);
    } else {
      NodeIsApart(t);
      if t.chain != [] {
        PromotedApart(t);
      }
    }
  }

  lemma PromotedApart(t: Tree<PageInfo>)
    requires t.Node? && Apart(t) && t.chain != []
    ensures var r := Node(t.left, t.chain[0], t.chain[1..], t.util, t.right);
            Apart(r) && PagesOf(r) == PagesOf(t) - {t.page}
  {
    NodeIsApart(t);
    assert [t.chain[0]] + t.chain[1..] == t.chain;
    assert forall k :: 0 <= k < |t.chain| ==> ([t.page] + t.chain)[k + 1] == t.chain[k];
    assert Members(t.chain) == {t.chain[0]} + Members(t.chain[1..]);
  }

  /** The next page of the root's chain takes over the root's subtrees. */
  lemma RootPromoted(m: Memory, m': Memory, t: Tree<PageInfo>)
    requires t.Node? && t.chain != [] && Repr(m, t, t.page) && Apart(t)
    requires var c := t.chain[0];
             c in m && c in m' && m'[c] == m[c].(left := m[t.page].left, right := m[t.page].right)
    requires SameOn(m, m', PagesOf(t) - {t.chain[0]})
    ensures Repr(m', Node(t.left, t.chain[0], t.chain[1..], t.util, t.right), t.chain[0])
  {
    NodeIsApart(t);
    var c := t.chain[0];
    assert c in Members(t.chain) && Members(t.chain[1..]) <= Members(t.chain);
    assert forall k :: 0 <= k < |t.chain| ==> ([t.page] + t.chain)[k + 1] == t.chain[k];
    assert c !in t.chain[1..];
    ChainedStays(m, m', c, t.chain[1..], t.util);
    ReprStays(m, m', t.left, m[t.page].left);
    ReprStays(m, m', t.right, m[t.page].right);
  }

  // ---- The methods

  /** Link a page behind the last page of the chain that starts at q. */
  method AppendToChain(q: PageInfo, n: PageInfo, ghost chain: seq<PageInfo>, ghost u: real, ghost pages: set<PageInfo>)
    requires Chained(MemoryOf(pages), q, chain, u) && q in pages && Members(chain) <= pages
    modifies pages`next
    ensures MemoryOf(pages) == var m := old(MemoryOf(pages)); var last := Last(q, chain); m[last := m[last].(next := n)]
  {
    if q.next == null {
      q.next := n;
    } else {
      var it := q;
      ghost var rest := chain;
      while it.next != null
        invariant it in pages && Members(rest) <= pages && Chained(old(MemoryOf(pages)), it, rest, u)
        invariant MemoryOf(pages) == old(MemoryOf(pages)) && Last(it, rest) == Last(q, chain)
        decreases |rest|
      {
        assert rest[0] in Members(rest);
        it := it.next;
        rest := rest[1..];
      }
      it.next := n;
    }
  }

  /** What the pointers of a node say about its subtrees. */
  lemma NodeLinks(m: Memory, t: Tree<PageInfo>, p: PageInfo?)
    requires t.Node? && Repr(m, t, p)
    ensures p == t.page && p in m && m[p].util == t.util && Chained(m, t.page, t.chain, t.util)
    ensures Repr(m, t.left, m[p].left) && (m[p].left == null <==> t.left.Leaf?)
    ensures Repr(m, t.right, m[p].right) && (m[p].right == null <==> t.right.Leaf?)
    ensures t.left.Node? ==> m[p].left == t.left.page
    ensures t.right.Node? ==> m[p].right == t.right.page
  {
  }

  lemma SubtreePages(t: Tree<PageInfo>)
    requires t.Node?
    ensures t.page in PagesOf(t) && Members(t.chain) <= PagesOf(t)
    ensures PagesOf(t.left) <= PagesOf(t) && PagesOf(t.right) <= PagesOf(t)
  {
  }

  /** A page hung at the end of its way, in a tree whose root is not its equal. */
  lemma Hung(m: Memory, m': Memory, t: Tree<PageInfo>, n: PageInfo, u: real)
    requires t.Node? && Repr(m, t, t.page) && Apart(t) && n !in PagesOf(t) && u != t.util
    requires Loose(m', n, u)
    requires var e := WayEnd(t, u);
             e.page in m && e.page in m' && m'[e.page] == Hang(m[e.page], n, u < e.util)
    requires SameOn(m, m', PagesOf(t) - {WayEnd(t, u).page})
    ensures IsInserted(m', t, n, u, t.page)
  {
    HungBelow(m, m', t, n, u);
    DescendApart(t, n, u);
  }

  lemma Appended(m: Memory, m': Memory, t: Tree<PageInfo>, n: PageInfo, u: real)
    requires t.Node? && u == t.util && Repr(m, t, t.page) && Apart(t) && n !in PagesOf(t) && Loose(m, n, u)
    requires var last := Last(t.page, t.chain); last in m && m' == m[last := m[last].(next := n)]
    ensures IsInserted(m', t, n, u, t.page)
  {
    LastInside(t);
    ReprInside(m, t, t.page);
    RootChained(m, m', t, n, u);
    RootChainedApart(t, n, u);
  }

  lemma LastInside(t: Tree<PageInfo>)
    requires t.Node?
    ensures Last(t.page, t.chain) in PagesOf(t)
  {
  }

  lemma {:induction false} ChainInside(m: Memory, q: PageInfo, chain: seq<PageInfo>, u: real)
    requires Chained(m, q, chain, u)
    ensures q in m && Members(chain) <= m.Keys
    decreases |chain|
  {
    if chain != [] {
      ChainInside(m, chain[0], chain[1..], u);
    }
  }

  lemma {:induction false} ReprInside(m: Memory, t: Tree<PageInfo>, p: PageInfo?)
    requires Repr(m, t, p)
    ensures PagesOf(t) <= m.Keys
    decreases t
  {
    if t.Node? {
      ChainInside(m, t.page, t.chain, t.util);
      ReprInside(m, t.left, m[t.page].left);
      ReprInside(m, t.right, m[t.page].right);
    }
  }

  ghost predicate IsInserted(m: Memory, t: Tree<PageInfo>, n: PageInfo, u: real, root: PageInfo?) {
    && Repr(m, Insert(t, n, u), root)
    && Apart(Insert(t, n, u))
    && PagesOf(Insert(t, n, u)) == PagesOf(t) + {n}
  }

  lemma LooseIsInserted(m: Memory, t: Tree<PageInfo>, n: PageInfo, u: real)
    requires Loose(m, n, u) && t.Leaf?
    ensures IsInserted(m, t, n, u, n)
  {
    LooseIsTree(m, n, u);
  }

  /** The search loop below a root. */
  method InsertBelow(root: PageInfo, newPage: PageInfo, nUtil: real,
                     ghost t: Tree<PageInfo>, ghost pages: set<PageInfo>)
    requires newPage in pages && newPage !in PagesOf(t) && PagesOf(t) <= pages && t.Node?
    requires Repr(MemoryOf(pages), t, root) && Apart(t) && Loose(MemoryOf(pages), newPage, nUtil)
    requires UtilizationsAreEqual(nUtil, t.util) <==> nUtil == t.util
    modifies pages`left, pages`right, pages`next
    ensures IsInserted(MemoryOf(pages), t, newPage, nUtil, root)
    ensures SameOn(old(MemoryOf(pages)), MemoryOf(pages), pages - PagesOf(t))
  {
    hide Repr, Chained, Apart, PagesOf, Insert, Descend, IsInserted, Last, Members;
    ghost var m := MemoryOf(pages);
    ghost var s := t;
    var current: PageInfo? := root;
    NodeLinks(m, t, root);
    while current != null
      invariant s.Node? && current == s.page && Repr(m, s, current) && PagesOf(s) <= PagesOf(t)
      invariant MemoryOf(pages) == m
      invariant s == t || nUtil != t.util
      invariant WayEnd(s, nUtil) == WayEnd(t, nUtil)
      decreases s
    {
      NodeLinks(m, s, current);
      SubtreePages(s);
      assert current in pages &&
             m[current] == Links(current.left, current.right, current.next, current.approxUtilization);
      if UtilizationsAreEqual(nUtil, root.approxUtilization) {
        AppendToChain(current, newPage, t.chain, t.util, pages);
        LastInside(t);
        Appended(m, MemoryOf(pages), t, newPage, nUtil);
        break;
      } else if nUtil < current.approxUtilization {
        if current.left == null {
          current.left := newPage;
          Hung(m, MemoryOf(pages), t, newPage, nUtil);
          break;
        } else {
          current := current.left;
          s := s.left;
        }
      } else {
        if current.right == null {
          current.right := newPage;
          Hung(m, MemoryOf(pages), t, newPage, nUtil);
          break;
        } else {
          current := current.right;
          s := s.right;
        }
      }
    }
  }

  /** The page goes into the bucket's tree; the other pages and buckets stay. */
  method InsertPageInBucket(bucket: array<PageInfo?>, b: nat, newPage: PageInfo, nUtil: real,
                            ghost t: Tree<PageInfo>, ghost pages: set<PageInfo>)
    requires b < bucket.Length && newPage in pages && newPage !in PagesOf(t) && PagesOf(t) <= pages
    requires Repr(MemoryOf(pages), t, bucket[b]) && Apart(t)
    requires newPage.approxUtilization == nUtil
    requires t.Node? ==> (UtilizationsAreEqual(nUtil, t.util) <==> nUtil == t.util)
    modifies bucket, pages`left, pages`right, pages`next
    ensures IsInserted(MemoryOf(pages), t, newPage, nUtil, bucket[b])
    ensures SameOn(old(MemoryOf(pages)), MemoryOf(pages), pages - PagesOf(t) - {newPage})
    ensures forall k :: 0 <= k < bucket.Length && k != b ==> bucket[k] == old(bucket[k])
  {
    hide Chained, UtilizationsAreEqual, Repr, Apart, PagesOf, IsInserted;
    var root := bucket[b];
    LeafOrNode(old(MemoryOf(pages)), t, root);
    newPage.left := null;
    newPage.right := null;
    newPage.next := null;
    ghost var m := MemoryOf(pages);
    assert Loose(m, newPage, nUtil);
    ReprStays(old(MemoryOf(pages)), m, t, root);
    if root == null {
      bucket[b] := newPage;
      LooseIsInserted(m, t, newPage, nUtil);
    } else {
      InsertBelow(root, newPage, nUtil, t, pages);
    }
  }

  lemma LeafOrNode(m: Memory, t: Tree<PageInfo>, root: PageInfo?)
    requires Repr(m, t, root)
    ensures root == null <==> t.Leaf?
    ensures t == Leaf ==> Apart(t) && PagesOf(t) == {}
  {
  }

  ghost predicate IsRemoved(m: Memory, t: Tree<PageInfo>, root: PageInfo?)
    requires t.Node?
  {
    && Repr(m, RemoveLowest(t), root)
    && Apart(RemoveLowest(t))
    && PagesOf(RemoveLowest(t)) == PagesOf(t) - {Leftmost(t).page}
  }

  lemma Cut(m: Memory, m': Memory, t: Tree<PageInfo>)
    requires t.Node? && t.left.Node? && Repr(m, t, t.page) && Apart(t) && NoChains(t.left)
    requires Leftmost(t).page in m && ParentOfLeftmost(t).page in m
    requires var e := ParentOfLeftmost(t).page; m' == m[e := m[e].(left := m[Leftmost(t).page].right)]
    ensures IsRemoved(m', t, t.page)
  {
    ReprInside(m, t, t.page);
    CutBelow(m, m', t);
    RemoveApart(t);
  }

  lemma Promoted(m: Memory, m': Memory, t: Tree<PageInfo>)
    requires t.Node? && t.left.Leaf? && t.chain != [] && Repr(m, t, t.page) && Apart(t)
    requires t.page in m && t.chain[0] in m
    requires var c := t.chain[0]; m' == m[c := m[c].(left := m[t.page].left, right := m[t.page].right)]
    ensures IsRemoved(m', t, t.chain[0])
  {
    ReprInside(m, t, t.page);
    RootPromoted(m, m', t);
    RemoveApart(t);
  }

  lemma Unchained(m: Memory, t: Tree<PageInfo>)
    requires t.Node? && t.left.Leaf? && t.chain == [] && Repr(m, t, t.page) && Apart(t)
    ensures IsRemoved(m, t, m[t.page].right)
  {
    RemoveApart(t);
  }

  lemma ChainLinks(m: Memory, q: PageInfo, chain: seq<PageInfo>, u: real)
    requires Chained(m, q, chain, u)
    ensures q in m && (m[q].next == null <==> chain == [])
    ensures chain != [] ==> m[q].next == chain[0]
  {
  }

  /** Walk to the leftmost page below a root, remembering the page above it. */
  method LowestPage(root: PageInfo, ghost t: Tree<PageInfo>, ghost pages: set<PageInfo>)
    returns (cur: PageInfo, parent: PageInfo?)
    requires PagesOf(t) <= pages && Repr(MemoryOf(pages), t, root) && Apart(t) && t.Node?
    ensures cur == Leftmost(t).page && cur in PagesOf(t) && cur.approxUtilization == Leftmost(t).util
    ensures cur == root <==> t.left.Leaf?
    ensures t.left.Node? ==> parent == ParentOfLeftmost(t).page
  {
    hide Repr, Chained, Apart, PagesOf, Members;
    ghost var m := MemoryOf(pages);
    parent := null;
    cur := root;
    ghost var s, above := t, t;
    NodeLinks(m, t, cur);
    SubtreePages(t);
    while cur.left != null
      invariant s.Node? && cur == s.page && Repr(m, s, cur) && PagesOf(s) <= PagesOf(t)
      invariant Leftmost(s) == Leftmost(t)
      invariant cur.left == null <==> s.left.Leaf?
      invariant cur.approxUtilization == s.util && cur in PagesOf(t)
      invariant s == t || (t.left.Node? && PagesOf(s) <= PagesOf(t.left))
      invariant s != t ==> above.Node? && parent == above.page
      invariant s != t ==> ParentOfLeftmost(t) == if s.left.Leaf? then above else ParentOfLeftmost(s)
      decreases s
    {
      NodeLinks(m, s, cur);
      SubtreePages(s);
      assert m[cur].left == cur.left;
      parent := cur;
      above := s;
      cur := cur.left;
      s := s.left;
      NodeLinks(m, s, cur);
      SubtreePages(s);
    }
    RootOrBelow(t, s);
  }

  /** The root goes: its chain successor takes its place, or else its right child does. */
  method RemoveRoot(buckets: array<PageInfo?>, i: nat, ghost t: Tree<PageInfo>, ghost pages: set<PageInfo>)
    requires i < buckets.Length && buckets[i] != null && PagesOf(t) <= pages
    requires Repr(MemoryOf(pages), t, buckets[i]) && Apart(t) && t.Node? && t.left.Leaf?
    modifies buckets, pages`left, pages`right
    ensures IsRemoved(MemoryOf(pages), t, buckets[i])
    ensures SameOn(old(MemoryOf(pages)), MemoryOf(pages), pages - PagesOf(t))
    ensures forall k :: 0 <= k < buckets.Length && k != i ==> buckets[k] == old(buckets[k])
  {
    hide Repr, Chained, Apart, PagesOf, RemoveLowest, IsRemoved, Members;
    ghost var m := MemoryOf(pages);
    var cur := buckets[i];
    NodeLinks(m, t, cur);
    ChainLinks(m, t.page, t.chain, t.util);
    if cur.next != null {
      ChainMember(t);
      buckets[i] := cur.next;
      buckets[i].left := cur.left;
      buckets[i].right := cur.right;
      Promoted(m, MemoryOf(pages), t);
    } else {
      if cur.right != null {
        buckets[i] := cur.right;
      } else {
        buckets[i] := null;
      }
      Unchained(m, t);
    }
  }

  /** Take the lowest page of one bucket out; the other pages and buckets stay. */
  method RemoveLowestPage(buckets: array<PageInfo?>, i: nat, ghost t: Tree<PageInfo>, ghost pages: set<PageInfo>)
    returns (cur: PageInfo)
    requires i < buckets.Length && buckets[i] != null && PagesOf(t) <= pages
    requires Repr(MemoryOf(pages), t, buckets[i]) && Apart(t) && t.Node? && NoChains(t.left)
    modifies buckets, pages`left, pages`right
    ensures cur == Leftmost(t).page && cur.approxUtilization == Leftmost(t).util
    ensures IsRemoved(MemoryOf(pages), t, buckets[i])
    ensures SameOn(old(MemoryOf(pages)), MemoryOf(pages), pages - PagesOf(t))
    ensures forall k :: 0 <= k < buckets.Length && k != i ==> buckets[k] == old(buckets[k])
  {
    hide Repr, Chained, Apart, PagesOf, RemoveLowest, IsRemoved, Members, NoChains;
    ghost var m := MemoryOf(pages);
    var parent: PageInfo?;
    cur, parent := LowestPage(buckets[i], t, pages);
    NodeLinks(m, t, buckets[i]);
    if cur == buckets[i] {
      RemoveRoot(buckets, i, t, pages);
    } else {
      if cur.right != null {
        parent.left := cur.right;
      } else {
        parent.left := null;
      }
      Cut(m, MemoryOf(pages), t);
    }
  }

  lemma ChainMember(t: Tree<PageInfo>)
    requires t.Node? && t.chain != []
    ensures t.chain[0] in PagesOf(t)
  {
  }

  lemma RootOrBelow(t: Tree<PageInfo>, s: Tree<PageInfo>)
    requires t.Node? && s.Node? && Apart(t)
    requires s == t || PagesOf(s) <= PagesOf(t.left)
    ensures s != t ==> s.page != t.page
  {
    NodeIsApart(t);
  }

  // ---- All buckets of a class

  ghost predicate AreTrees(m: Memory, ts: seq<Tree<PageInfo>>, heads: seq<PageInfo?>) {
    && |heads| == |ts|
    && (forall i :: 0 <= i < |ts| ==> Repr(m, ts[i], heads[i]) && Apart(ts[i]))
    && (forall i, j :: 0 <= i < j < |ts| ==> PagesOf(ts[i]) !! PagesOf(ts[j]))
  }

  ghost predicate Within(ts: seq<Tree<PageInfo>>, pages: set<PageInfo>) {
    forall i :: 0 <= i < |ts| ==> PagesOf(ts[i]) <= pages
  }

  /** A change inside one tree leaves the other trees as they were. */
  lemma OneTreeChanged(m: Memory, m': Memory, ts: seq<Tree<PageInfo>>, heads: seq<PageInfo?>, i: nat,
                       t: Tree<PageInfo>, head: PageInfo?, touched: set<PageInfo>, pages: set<PageInfo>)
    requires AreTrees(m, ts, heads) && Within(ts, pages) && i < |ts|
    requires Repr(m', t, head) && Apart(t) && SameOn(m, m', pages - touched)
    requires PagesOf(t) + PagesOf(ts[i]) <= touched
    requires forall k :: 0 <= k < |ts| && k != i ==> PagesOf(ts[k]) !! touched
    ensures AreTrees(m', ts[i := t], heads[i := head])
  {
    hide Repr, PagesOf, Apart;
    forall k | 0 <= k < |ts| && k != i
      ensures Repr(m', ts[k], heads[k])
    {
      assert PagesOf(ts[k]) <= pages - touched;
      ReprStays(m, m', ts[k], heads[k]);
    }
  }

  /** What is left of the trees once a page is taken out. */
  ghost predicate TakenOut(ts: seq<Tree<PageInfo>>, page: PageInfo, left: seq<Tree<PageInfo>>) {
    |left| == |ts| && forall i :: 0 <= i < |ts| ==> PagesOf(left[i]) == PagesOf(ts[i]) - {page}
  }

  lemma LowestTakenOut(m: Memory, m': Memory, ts: seq<Tree<PageInfo>>, heads: seq<PageInfo?>, i: nat,
                       head: PageInfo?, pages: set<PageInfo>)
    requires AreTrees(m, ts, heads) && Within(ts, pages) && i < |ts| && ts[i].Node? && i == FirstUsed(ts)
    requires IsRemoved(m', ts[i], head) && SameOn(m, m', pages - PagesOf(ts[i]))
    ensures AreTrees(m', RemoveFrom(ts), heads[i := head])
    ensures TakenOut(ts, Leftmost(ts[i]).page, RemoveFrom(ts))
  {
    LeftmostInside(ts[i]);
    hide Repr, PagesOf, Apart, Leftmost, RemoveLowest;
    OneTreeChanged(m, m', ts, heads, i, RemoveLowest(ts[i]), head, PagesOf(ts[i]), pages);
  }

  /** The first bucket in use gives up its lowest page; null when no bucket is in use. */
  method FindLowestUtilPage(buckets: array<PageInfo?>, ghost ts: seq<Tree<PageInfo>>, ghost pages: set<PageInfo>)
    returns (page: PageInfo?)
    requires AreTrees(MemoryOf(pages), ts, buckets[..]) && Within(ts, pages)
    requires forall i :: 0 <= i < |ts| ==> IsBucket(ts[i])
    modifies buckets, pages`left, pages`right
    ensures AreTrees(MemoryOf(pages), RemoveFrom(ts), buckets[..])
    ensures page == null ==> Lowest(ts).None?
    ensures page != null ==> Lowest(ts) == Heap.Some((page as PageInfo, page.approxUtilization))
    ensures page != null ==> TakenOut(ts, page, RemoveFrom(ts))
  {
    hide Repr, PagesOf, RemoveLowest, Apart, AreTrees, IsRemoved, Ordered, NoChains, TakenOut;
    assert buckets.Length == |ts| by {
      SameLength(MemoryOf(pages), ts, buckets[..]);
    }
    for i := 0 to buckets.Length
      invariant buckets[..] == old(buckets[..]) && MemoryOf(pages) == old(MemoryOf(pages))
      invariant buckets.Length == |ts| && forall k :: 0 <= k < i ==> ts[k].Leaf?
    {
      ghost var m, heads := MemoryOf(pages), buckets[..];
      HeadOf(m, ts, heads, i);
      if buckets[i] != null {
        assert i == FirstUsed(ts);
        page := RemoveLowestPage(buckets, i, ts[i], pages);
        LowestTakenOut(m, MemoryOf(pages), ts, heads, i, buckets[i], pages);
        assert buckets[..] == heads[i := buckets[i]];
        return;
      }
    }
    page := null;
  }

  lemma SameLength(m: Memory, ts: seq<Tree<PageInfo>>, heads: seq<PageInfo?>)
    requires AreTrees(m, ts, heads)
    ensures |heads| == |ts|
  {
  }

  lemma HeadOf(m: Memory, ts: seq<Tree<PageInfo>>, heads: seq<PageInfo?>, i: nat)
    requires AreTrees(m, ts, heads) && i < |ts|
    ensures |heads| == |ts| && Repr(m, ts[i], heads[i]) && Apart(ts[i])
    ensures heads[i] == null <==> ts[i].Leaf?
  {
  }

  /** A processed page goes into the bucket of its utilization. */
  method InsertPageInClass(buckets: array<PageInfo?>, newPage: PageInfo, high: bool,
                           ghost ts: seq<Tree<PageInfo>>, ghost n: nat, ghost pages: set<PageInfo>)
    requires AreTrees(MemoryOf(pages), ts, buckets[..]) && Within(ts, pages) && |ts| == BucketsOf(high)
    requires newPage in pages && forall i :: 0 <= i < |ts| ==> newPage !in PagesOf(ts[i])
    requires if high then IsHighUtil(newPage.approxUtilization) else IsLowUtil(newPage.approxUtilization)
    requires 0 < n < 100000 && OnGrid(newPage.approxUtilization, n)
    requires forall i :: 0 <= i < |ts| && ts[i].Node? ==> OnGrid(ts[i].util, n)
    modifies buckets, pages`left, pages`right, pages`next
    ensures 0 <= BucketOf(newPage.approxUtilization, high) < |ts|
    ensures AreTrees(MemoryOf(pages), InsertInto(ts, newPage, newPage.approxUtilization, high), buckets[..])
  {
    hide Repr, PagesOf, Apart, AreTrees, IsInserted, OnGrid, BucketOf, IsLowUtil, IsHighUtil, UtilizationsAreEqual;
    hide InsertInto, Chained, Within;
    var u := newPage.approxUtilization;
    ClassIsCovered(u, high);
    var index := GetBucketIndex(u, high, 0);
    ghost var m, heads := MemoryOf(pages), buckets[..];
    HeadOf(m, ts, heads, index);
    TreeWithin(ts, pages, index);
    if ts[index].Node? {
      GridSeparates(u, ts[index].util, n);
    }
    InsertPageInBucket(buckets, index, newPage, u, ts[index], pages);
    assert buckets[..] == heads[index := buckets[index]];
    PutIn(m, MemoryOf(pages), ts, heads, index, newPage, buckets[index], high, pages);
  }

  lemma TreeWithin(ts: seq<Tree<PageInfo>>, pages: set<PageInfo>, i: nat)
    requires Within(ts, pages) && i < |ts|
    ensures PagesOf(ts[i]) <= pages
  {
  }

  lemma PutIn(m: Memory, m': Memory, ts: seq<Tree<PageInfo>>, heads: seq<PageInfo?>, i: nat,
              n: PageInfo, head: PageInfo?, high: bool, pages: set<PageInfo>)
    requires AreTrees(m, ts, heads) && Within(ts, pages) && i < |ts| && n in m'
    requires i == BucketOf(m'[n].util, high)
    requires forall k :: 0 <= k < |ts| ==> n !in PagesOf(ts[k])
    requires IsInserted(m', ts[i], n, m'[n].util, head) && SameOn(m, m', pages - PagesOf(ts[i]) - {n})
    ensures AreTrees(m', InsertInto(ts, n, m'[n].util, high), heads[i := head])
  {
    hide Repr, PagesOf, Apart, Insert, BucketOf;
    OneTreeChanged(m, m', ts, heads, i, Insert(ts[i], n, m'[n].util), head, PagesOf(ts[i]) + {n}, pages);
  }

  // ---- Live bytes

  /** Object size times allocated entries, for each page. */
  ghost function BytesOf(pages: set<PageInfo>): map<PageInfo, int>
    reads pages
  {
    map p | p in pages :: p.allocsize * (p.entrycount - p.freecount)
  }

  lemma {:induction false} OrderMeetsPages(t: Tree<PageInfo>)
    ensures Members(Order(t)) == PagesOf(t)
  {
    if t.Node? {
      OrderMeetsPages(t.left);
      OrderMeetsPages(t.right);
    }
  }

  lemma NoRepeatAppend(s: seq<PageInfo>, s': seq<PageInfo>)
    requires NoRepeat(s) && NoRepeat(s') && Members(s) !! Members(s')
    ensures NoRepeat(s + s')
  {
    forall i, j | 0 <= i < j < |s + s'|
      ensures (s + s')[i] != (s + s')[j]
    {
      if i < |s| <= j {
        assert s[i] in Members(s) && s'[j - |s|] in Members(s');
      }
    }
  }

  /** The traversal comes to every page of the tree, and to each once. */
  lemma {:induction false} OrderVisitsOnce(t: Tree<PageInfo>)
    requires Apart(t)
    ensures Members(Order(t)) == PagesOf(t) && NoRepeat(Order(t))
  {
    OrderMeetsPages(t);
    if t.Node? {
      OrderVisitsOnce(t.left);
      OrderVisitsOnce(t.right);
      var here := [t.page] + t.chain;
      hide NoRepeat;
      NoRepeatAppend(here, Order(t.left));
      NoRepeatAppend(here + Order(t.left), Order(t.right));
    }
  }

  /** Adds the live bytes of a list of pages linked by next. */
  method ProcessChain(node: PageInfo, total: int, ghost chain: seq<PageInfo>, ghost u: real, ghost pages: set<PageInfo>)
    returns (live: int)
    requires {node} + Members(chain) <= pages && Chained(MemoryOf(pages), node, chain, u)
    ensures live == total + Sum(BytesOf(pages), [node] + chain)
  {
    ghost var bytes := BytesOf(pages);
    live := total;
    var current: PageInfo? := node;
    ghost var rest := [node] + chain;
    while current != null
      invariant live + Sum(bytes, rest) == total + Sum(bytes, [node] + chain)
      invariant current == null <==> rest == []
      invariant rest != [] ==> current == rest[0] && Members(rest) <= pages
      invariant rest != [] ==> Chained(MemoryOf(pages), rest[0], rest[1..], u)
      decreases |rest|
    {
      assert rest[0] in Members(rest);
      live := live + current.allocsize * (current.entrycount - current.freecount);
      current := current.next;
      rest := rest[1..];
    }
  }

  /** Every page of the bucket adds its live bytes. */
  method TraverseBST(node: PageInfo?, total: int, ghost t: Tree<PageInfo>, ghost pages: set<PageInfo>)
    returns (live: int)
    requires PagesOf(t) <= pages && Repr(MemoryOf(pages), t, node)
    ensures live == total + Sum(BytesOf(pages), Order(t))
    decreases t
  {
    hide Repr, Chained, Sum, Order, PagesOf, Members;
    ghost var m, bytes := MemoryOf(pages), BytesOf(pages);
    EmptyTree(m, bytes, t, node);
    live := total;
    if node == null {
      return;
    }
    NodeLinks(m, t, node);
    NodeMembers(t, pages);
    live := ProcessChain(node, live, t.chain, t.util, pages);
    live := TraverseBST(node.left, live, t.left, pages);
    live := TraverseBST(node.right, live, t.right, pages);
    SumOfNode(bytes, t);
  }

  lemma EmptyTree(m: Memory, bytes: map<PageInfo, int>, t: Tree<PageInfo>, p: PageInfo?)
    requires Repr(m, t, p)
    ensures p == null <==> t.Leaf?
    ensures t.Leaf? ==> Sum(bytes, Order(t)) == 0
  {
  }

  lemma NodeMembers(t: Tree<PageInfo>, pages: set<PageInfo>)
    requires t.Node? && PagesOf(t) <= pages
    ensures t.page in pages && {t.page} + Members(t.chain) <= pages
    ensures PagesOf(t.left) <= pages && PagesOf(t.right) <= pages
  {
  }
}
