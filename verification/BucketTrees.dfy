/** Buckets of pages as values: search trees by utilization whose root alone carries a chain of equals. */
module BucketTrees {

  datatype Tree<P> =
    | Leaf
    | Node(left: Tree<P>, page: P, chain: seq<P>, util: real, right: Tree<P>)

  // ---- The operations

  /** Go left below a larger utilization and right otherwise, and hang the page at the end of the way. */
  function Descend<P>(t: Tree<P>, p: P, u: real): Tree<P> {
    if t.Leaf? then Node(Leaf, p, [], u, Leaf)
    else if u < t.util then t.(left := Descend(t.left, p, u))
    else t.(right := Descend(t.right, p, u))
  }

  /** Only an equal root is chained. */
  function Insert<P>(t: Tree<P>, p: P, u: real): Tree<P> {
    if t.Node? && u == t.util then t.(chain := t.chain + [p]) else Descend(t, p, u)
  }

  function Leftmost<P>(t: Tree<P>): Tree<P>
    requires t.Node?
    ensures Leftmost(t).Node?
  {
    if t.left.Leaf? then t else Leftmost(t.left)
  }

  /** Below the root the right subtree takes the place of the leftmost node. */
  function CutLeftmost<P>(t: Tree<P>): Tree<P>
    requires t.Node?
  {
    if t.left.Leaf? then t.right else t.(left := CutLeftmost(t.left))
  }

  function RemoveLowest<P>(t: Tree<P>): Tree<P>
    requires t.Node?
  {
    if t.left.Node? then CutLeftmost(t)
    else if t.chain != [] then Node(t.left, t.chain[0], t.chain[1..], t.util, t.right)
    else t.right
  }

  // ---- Search order

  /** The pages with the utilization recorded for each. */
  ghost function Entries<P>(t: Tree<P>): multiset<(P, real)> {
    if t.Leaf? then multiset{}
    else Entries(t.left) + multiset{(t.page, t.util)} + Tagged(t.chain, t.util) + Entries(t.right)
  }

  ghost function Tagged<P>(s: seq<P>, u: real): multiset<(P, real)> {
    if s == [] then multiset{} else multiset{(s[0], u)} + Tagged(s[1..], u)
  }

  ghost predicate AllBelow<P>(t: Tree<P>, u: real) {
    t.Leaf? || (t.util < u && AllBelow(t.left, u) && AllBelow(t.right, u))
  }

  ghost predicate NoneBelow<P>(t: Tree<P>, u: real) {
    t.Leaf? || (t.util >= u && NoneBelow(t.left, u) && NoneBelow(t.right, u))
  }

  ghost predicate Ordered<P>(t: Tree<P>) {
    t.Leaf? || (AllBelow(t.left, t.util) && NoneBelow(t.right, t.util) && Ordered(t.left) && Ordered(t.right))
  }

  ghost predicate NoChains<P>(t: Tree<P>) {
    t.Leaf? || (t.chain == [] && NoChains(t.left) && NoChains(t.right))
  }

  /** What every bucket satisfies at all times. */
  ghost predicate IsBucket<P>(t: Tree<P>) {
    Ordered(t) && (t.Node? ==> NoChains(t.left) && NoChains(t.right))
  }

  // ---- Insertion

  lemma {:induction false} DescendOrdered<P>(t: Tree<P>, p: P, u: real, v: real)
    ensures Ordered(t) ==> Ordered(Descend(t, p, u))
    ensures AllBelow(t, v) && u < v ==> AllBelow(Descend(t, p, u), v)
    ensures NoneBelow(t, v) && u >= v ==> NoneBelow(Descend(t, p, u), v)
    ensures NoChains(t) ==> NoChains(Descend(t, p, u))
    decreases t
  {
    if t.Node? {
      if u < t.util {
        DescendOrdered(t.left, p, u, v);
        DescendOrdered(t.left, p, u, t.util);
      } else {
        DescendOrdered(t.right, p, u, v);
        DescendOrdered(t.right, p, u, t.util);
      }
    }
  }

  lemma {:induction false} DescendEntries<P>(t: Tree<P>, p: P, u: real)
    ensures Entries(Descend(t, p, u)) == Entries(t) + multiset{(p, u)}
    decreases t
  {
    hide Entries, Tagged;
    EntriesOf(t);
    EntriesOf(Descend(t, p, u));
    if t.Leaf? {
      EntriesOf<P>(Leaf);
      TaggedHead<P>([], u);
    } else {
      var node := multiset{(t.page, t.util)};
      var chain := Tagged(t.chain, t.util);
      if u < t.util {
        DescendEntries(t.left, p, u);
        AddedFirst(Entries(t.left), node, chain, Entries(t.right), multiset{(p, u)});
      } else {
        DescendEntries(t.right, p, u);
        AddedLast(Entries(t.left), node, chain, Entries(t.right), multiset{(p, u)});
      }
    }
  }

  lemma EntriesOf<P>(t: Tree<P>)
    ensures Entries(t) ==
              if t.Leaf? then multiset{}
              else Entries(t.left) + multiset{(t.page, t.util)} + Tagged(t.chain, t.util) + Entries(t.right)
  {
  }

  lemma AddedLast<E>(a: multiset<E>, b: multiset<E>, c: multiset<E>, d: multiset<E>, e: multiset<E>)
    ensures a + b + c + (d + e) == a + b + c + d + e
  {
  }

  lemma AddedFirst<E>(a: multiset<E>, b: multiset<E>, c: multiset<E>, d: multiset<E>, e: multiset<E>)
    ensures a + e + b + c + d == a + b + c + d + e
  {
  }

  lemma {:induction false} TaggedSnoc<P>(s: seq<P>, p: P, u: real)
    ensures Tagged(s + [p], u) == Tagged(s, u) + multiset{(p, u)}
  {
    hide Tagged;
    TaggedHead(s, u);
    TaggedHead(s + [p], u);
    if s == [] {
      TaggedHead((s + [p])[1..], u);
    } else {
      TaggedSnoc(s[1..], p, u);
      assert (s + [p])[1..] == s[1..] + [p];
    }
  }

  lemma TaggedHead<P>(s: seq<P>, u: real)
    ensures Tagged(s, u) == if s == [] then multiset{} else multiset{(s[0], u)} + Tagged(s[1..], u)
  {
  }

  /** Insertion keeps the order, chains nowhere but at the root, and adds the one page. */
  lemma InsertKeepsBucket<P>(t: Tree<P>, p: P, u: real)
    requires IsBucket(t)
    ensures IsBucket(Insert(t, p, u))
    ensures Entries(Insert(t, p, u)) == Entries(t) + multiset{(p, u)}
  {
    InsertEntries(t, p, u);
    hide Entries;
    if t.Node? {
      DescendOrdered(t.left, p, u, t.util);
      DescendOrdered(t.right, p, u, t.util);
    }
  }

  lemma InsertEntries<P>(t: Tree<P>, p: P, u: real)
    ensures Entries(Insert(t, p, u)) == Entries(t) + multiset{(p, u)}
  {
    DescendEntries(t, p, u);
    if t.Node? {
      TaggedSnoc(t.chain, p, u);
    }
  }

  /** At the root: an equal page joins the end of the chain, and otherwise one subtree alone takes it. */
  lemma InsertedWhere<P>(t: Tree<P>, p: P, u: real)
    requires t.Node?
    ensures var r := Insert(t, p, u);
            && r.Node? && r.page == t.page && r.util == t.util
            && r.chain == (if u == t.util then t.chain + [p] else t.chain)
            && Entries(r.left) == Entries(t.left) + (if u < t.util then multiset{(p, u)} else multiset{})
            && Entries(r.right) == Entries(t.right) + (if u > t.util then multiset{(p, u)} else multiset{})
  {
    hide Entries;
    if u < t.util {
      DescendEntries(t.left, p, u);
    } else if u > t.util {
      DescendEntries(t.right, p, u);
    }
  }

  // ---- Removal

  /** Equal pages leave a root in the order they came. */
  lemma RemovedFromChain<P>(t: Tree<P>)
    requires t.Node? && t.left.Leaf? && t.chain != []
    ensures Leftmost(t).page == t.page
    ensures var r := RemoveLowest(t);
            r.Node? && r.page == t.chain[0] && r.chain == t.chain[1..] && r.util == t.util
            && r.left == t.left && r.right == t.right
  {
  }

  lemma {:induction false} NoneBelowMonotone<P>(t: Tree<P>, u: real, v: real)
    requires v <= u && NoneBelow(t, u)
    ensures NoneBelow(t, v)
  {
    if t.Node? {
      NoneBelowMonotone(t.left, u, v);
      NoneBelowMonotone(t.right, u, v);
    }
  }

  lemma {:induction false} LeftmostIsLeast<P>(t: Tree<P>)
    requires t.Node? && Ordered(t)
    ensures NoneBelow(t, Leftmost(t).util)
  {
    if t.left.Node? {
      LeftmostIsLeast(t.left);
      LeftmostBelow(t.left, t.util);
      NoneBelowMonotone(t.right, t.util, Leftmost(t).util);
    } else {
      NoneBelowMonotone(t.right, t.util, t.util);
    }
  }

  lemma {:induction false} LeftmostBelow<P>(t: Tree<P>, v: real)
    requires t.Node? && AllBelow(t, v)
    ensures Leftmost(t).util < v
  {
    if t.left.Node? {
      LeftmostBelow(t.left, v);
    }
  }

  lemma {:induction false} CutOrdered<P>(t: Tree<P>, v: real)
    requires t.Node?
    ensures Ordered(t) ==> Ordered(CutLeftmost(t))
    ensures AllBelow(t, v) ==> AllBelow(CutLeftmost(t), v)
    ensures NoneBelow(t, v) ==> NoneBelow(CutLeftmost(t), v)
    ensures NoChains(t) ==> NoChains(CutLeftmost(t))
    decreases t
  {
    if t.left.Node? {
      CutOrdered(t.left, v);
      CutOrdered(t.left, t.util);
    }
  }

  /** Cutting a node off drops the whole of its chain. */
  lemma {:induction false} CutEntries<P>(t: Tree<P>)
    requires t.Node?
    ensures Entries(t) == Entries(CutLeftmost(t)) + multiset{(Leftmost(t).page, Leftmost(t).util)}
                          + Tagged(Leftmost(t).chain, Leftmost(t).util)
  {
    if t.left.Node? {
      CutEntries(t.left);
    }
  }

  lemma TaggedSize<P>(s: seq<P>, u: real)
    ensures |Tagged(s, u)| == |s|
  {
  }

  /** Removal takes out exactly the one page, if and only if the leftmost node below the root has no chain. */
  lemma RemovalLosesNothingExactly<P>(t: Tree<P>)
    requires t.Node?
    ensures Entries(t) == Entries(RemoveLowest(t)) + multiset{(Leftmost(t).page, Leftmost(t).util)}
       <==> (t.left.Node? ==> Leftmost(t).chain == [])
  {
    if t.left.Node? {
      CutEntries(t);
      TaggedSize(Leftmost(t).chain, Leftmost(t).util);
      hide Entries, Tagged, CutLeftmost, Leftmost;
      DropsExactly(Entries(t), Entries(CutLeftmost(t)) + multiset{(Leftmost(t).page, Leftmost(t).util)},
                   Tagged(Leftmost(t).chain, Leftmost(t).util));
    }
  }

  lemma DropsExactly<E>(whole: multiset<E>, kept: multiset<E>, dropped: multiset<E>)
    requires whole == kept + dropped
    ensures whole == kept <==> |dropped| == 0
  {
    assert |whole| == |kept| + |dropped|;
    assert |dropped| == 0 ==> dropped == multiset{};
  }

  lemma {:induction false} LeftmostHasNoChain<P>(t: Tree<P>)
    requires t.Node? && NoChains(t)
    ensures Leftmost(t).chain == []
  {
    if t.left.Node? {
      LeftmostHasNoChain(t.left);
    }
  }

  /** From a bucket, removal takes out exactly one page of least utilization and leaves a bucket. */
  lemma RemoveKeepsBucket<P>(t: Tree<P>)
    requires t.Node? && IsBucket(t)
    ensures IsBucket(RemoveLowest(t))
    ensures Entries(t) == Entries(RemoveLowest(t)) + multiset{(Leftmost(t).page, Leftmost(t).util)}
    ensures NoneBelow(t, Leftmost(t).util)
  {
    LeftmostIsLeast(t);
    RemovalLosesNothingExactly(t);
    if t.left.Node? {
      LeftmostHasNoChain(t.left);
      CutOrdered(t, t.util);
      CutOrdered(t.left, t.util);
    }
  }

  lemma {:induction false} EntriesNotBelow<P>(t: Tree<P>, u: real, p: P, v: real)
    requires NoneBelow(t, u) && (p, v) in Entries(t)
    ensures v >= u
  {
    if (p, v) in Entries(t.left) {
      EntriesNotBelow(t.left, u, p, v);
    } else if (p, v) in Entries(t.right) {
      EntriesNotBelow(t.right, u, p, v);
    } else {
      TaggedWith(t.chain, t.util, p, v);
    }
  }

  lemma {:induction false} TaggedWith<P>(s: seq<P>, u: real, p: P, v: real)
    ensures (p, v) in Tagged(s, u) ==> v == u && p in s
  {
    if s != [] {
      TaggedWith(s[1..], u, p, v);
    }
  }
}
