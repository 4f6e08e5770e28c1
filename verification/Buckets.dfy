/** The buckets of one utilization class, and runs of insertions and removals over them. */
module Buckets {
  import opened BucketTrees
  import opened Heap
  import opened Utilization

  // ---- The buckets of one class

  /** Bucket i holds only utilizations of its own step. */
  ghost predicate AreBuckets<P>(ts: seq<Tree<P>>, high: bool) {
    && |ts| == BucketsOf(high)
    && forall i :: 0 <= i < |ts| ==> IsBucket(ts[i]) && Holds(ts[i], high, i)
  }

  ghost predicate Holds<P>(t: Tree<P>, high: bool, i: nat) {
    forall e <- Entries(t) :: InBucket(e.1, high, i)
  }

  ghost function AllEntries<P>(ts: seq<Tree<P>>): multiset<(P, real)> {
    if ts == [] then multiset{} else Entries(ts[0]) + AllEntries(ts[1..])
  }

  ghost function InsertInto<P>(ts: seq<Tree<P>>, p: P, u: real, high: bool): seq<Tree<P>>
    requires 0 <= BucketOf(u, high) < |ts|
  {
    ts[BucketOf(u, high) := Insert(ts[BucketOf(u, high)], p, u)]
  }

  /** The first bucket that is not empty; past the end when all are. */
  function FirstUsed<P>(ts: seq<Tree<P>>): (i: nat)
    ensures i <= |ts| && (i < |ts| ==> ts[i].Node?)
    ensures forall k :: 0 <= k < i ==> ts[k].Leaf?
  {
    if ts == [] || ts[0].Node? then 0 else 1 + FirstUsed(ts[1..])
  }

  function RemoveFrom<P>(ts: seq<Tree<P>>): seq<Tree<P>> {
    var i := FirstUsed(ts);
    if i == |ts| then ts else ts[i := RemoveLowest(ts[i])]
  }

  /** The page taken and its utilization, and nothing from empty buckets. */
  function Lowest<P>(ts: seq<Tree<P>>): Option<(P, real)> {
    var i := FirstUsed(ts);
    if i == |ts| then None else Some((Leftmost(ts[i]).page, Leftmost(ts[i]).util))
  }

  lemma {:induction false} AllEntriesUpdate<P>(ts: seq<Tree<P>>, i: nat, t: Tree<P>)
    requires i < |ts|
    ensures AllEntries(ts[i := t]) + Entries(ts[i]) == AllEntries(ts) + Entries(t)
  {
    if i == 0 {
      assert ts[i := t][1..] == ts[1..];
    } else {
      AllEntriesUpdate(ts[1..], i - 1, t);
      assert ts[i := t][1..] == ts[1..][i - 1 := t];
      hide Entries;
      UnderBoth(Entries(ts[0]), AllEntries(ts[1..][i - 1 := t]), Entries(ts[i]), AllEntries(ts[1..]), Entries(t));
    }
  }

  lemma UnderBoth<E>(a: multiset<E>, b: multiset<E>, c: multiset<E>, b': multiset<E>, c': multiset<E>)
    requires b + c == b' + c'
    ensures a + b + c == a + b' + c'
  {
    assert a + b + c == a + (b + c) && a + b' + c' == a + (b' + c');
  }

  lemma {:induction false} AllEntriesElem<P>(ts: seq<Tree<P>>, e: (P, real)) returns (i: nat)
    requires e in AllEntries(ts)
    ensures i < |ts| && e in Entries(ts[i])
  {
    if e in Entries(ts[0]) {
      i := 0;
    } else {
      var j := AllEntriesElem(ts[1..], e);
      i := j + 1;
    }
  }

  /** Inserting into the class adds exactly the one page, in the bucket of its utilization. */
  lemma InsertIntoBuckets<P>(ts: seq<Tree<P>>, p: P, u: real, high: bool)
    requires AreBuckets(ts, high) && 0 <= BucketOf(u, high) < |ts|
    ensures AreBuckets(InsertInto(ts, p, u, high), high)
    ensures AllEntries(InsertInto(ts, p, u, high)) == AllEntries(ts) + multiset{(p, u)}
  {
    InsertIntoKeepsOrder(ts, p, u, high);
    InsertIntoAdds(ts, p, u, high);
  }

  lemma AllIn<P>(m: multiset<(P, real)>, m': multiset<(P, real)>, x: (P, real), high: bool, i: nat)
    requires m' == m + multiset{x} && InBucket(x.1, high, i)
    requires forall e <- m :: InBucket(e.1, high, i)
    ensures forall e <- m' :: InBucket(e.1, high, i)
  {
    hide InBucket;
    forall e | e in m'
      ensures InBucket(e.1, high, i)
    {
      assert m'[e] == m[e] + multiset{x}[e];
    }
  }

  lemma NoneNew<P>(m: multiset<(P, real)>, m': multiset<(P, real)>, x: (P, real), high: bool, i: nat)
    requires m == m' + multiset{x}
    requires forall e <- m :: InBucket(e.1, high, i)
    ensures forall e <- m' :: InBucket(e.1, high, i)
  {
    hide InBucket;
    forall e | e in m'
      ensures InBucket(e.1, high, i)
    {
      assert m[e] == m'[e] + multiset{x}[e];
    }
  }

  lemma InsertHolds<P>(t: Tree<P>, p: P, u: real, high: bool, i: nat)
    requires IsBucket(t) && Holds(t, high, i) && InBucket(u, high, i)
    ensures IsBucket(Insert(t, p, u)) && Holds(Insert(t, p, u), high, i)
  {
    InsertKeepsBucket(t, p, u);
    hide Entries, Insert, InBucket, IsBucket;
    AllIn(Entries(t), Entries(Insert(t, p, u)), (p, u), high, i);
  }

  lemma InsertIntoKeepsOrder<P>(ts: seq<Tree<P>>, p: P, u: real, high: bool)
    requires AreBuckets(ts, high) && 0 <= BucketOf(u, high) < |ts|
    ensures AreBuckets(InsertInto(ts, p, u, high), high)
  {
    hide Entries, Insert, InBucket, BucketOf, IsBucket, Holds;
    var i := BucketOf(u, high);
    BucketOfIsBucket(u, high, i);
    InsertHolds(ts[i], p, u, high, i);
  }

  lemma InsertIntoAdds<P>(ts: seq<Tree<P>>, p: P, u: real, high: bool)
    requires AreBuckets(ts, high) && 0 <= BucketOf(u, high) < |ts|
    ensures AllEntries(InsertInto(ts, p, u, high)) == AllEntries(ts) + multiset{(p, u)}
  {
    hide Entries, AllEntries, Holds, Insert, InBucket, BucketOf, IsBucket;
    var i := BucketOf(u, high);
    var t := Insert(ts[i], p, u);
    InsertKeepsBucket(ts[i], p, u);
    AllEntriesUpdate(ts, i, t);
    CancelRight(AllEntries(ts[i := t]), Entries(ts[i]), AllEntries(ts), multiset{(p, u)});
  }

  lemma CancelRight<E>(a: multiset<E>, b: multiset<E>, c: multiset<E>, d: multiset<E>)
    requires a + b == c + (b + d)
    ensures a == c + d
  {
    assert forall e :: (a + b)[e] == a[e] + b[e] && (c + (b + d))[e] == c[e] + b[e] + d[e];
  }

  lemma CancelOver<E>(a: multiset<E>, b: multiset<E>, c: multiset<E>, d: multiset<E>)
    requires a + (b + d) == c + b
    ensures c == a + d
  {
    assert forall e :: (a + (b + d))[e] == a[e] + b[e] + d[e] && (c + b)[e] == c[e] + b[e];
  }

  /** Removal takes out exactly one page of least utilization among all buckets, or finds them all empty. */
  lemma RemoveFromBuckets<P>(ts: seq<Tree<P>>, high: bool)
    requires AreBuckets(ts, high)
    ensures AreBuckets(RemoveFrom(ts), high)
    ensures Lowest(ts).None? <==> AllEntries(ts) == multiset{}
    ensures Lowest(ts).None? ==> RemoveFrom(ts) == ts
    ensures Lowest(ts).Some? ==> AllEntries(ts) == AllEntries(RemoveFrom(ts)) + multiset{Lowest(ts).value}
    ensures Lowest(ts).Some? ==> forall e <- AllEntries(ts) :: e.1 >= Lowest(ts).value.1
  {
    var i := FirstUsed(ts);
    if i == |ts| {
      forall e | e in AllEntries(ts)
        ensures false
      {
        var k := AllEntriesElem(ts, e);
      }
    } else {
      RemoveOne(ts, high);
      var least := Lowest(ts).value;
      forall e | e in AllEntries(ts)
        ensures e.1 >= least.1
      {
        var k := AllEntriesElem(ts, e);
        LowestIsLeast(ts, high, k, e.0, e.1);
      }
    }
  }

  lemma RemoveOne<P>(ts: seq<Tree<P>>, high: bool)
    requires AreBuckets(ts, high) && FirstUsed(ts) < |ts|
    ensures AreBuckets(RemoveFrom(ts), high)
    ensures AllEntries(ts) == AllEntries(RemoveFrom(ts)) + multiset{Lowest(ts).value}
  {
    RemoveKeepsOrder(ts, high);
    RemoveTakesOne(ts, high);
  }

  lemma RemoveKeepsOrder<P>(ts: seq<Tree<P>>, high: bool)
    requires AreBuckets(ts, high) && FirstUsed(ts) < |ts|
    ensures AreBuckets(RemoveFrom(ts), high)
  {
    hide Entries, RemoveLowest, InBucket, IsBucket, FirstUsed, Leftmost, Holds;
    RemoveHolds(ts[FirstUsed(ts)], high, FirstUsed(ts));
  }

  lemma RemoveHolds<P>(t: Tree<P>, high: bool, i: nat)
    requires t.Node? && IsBucket(t) && Holds(t, high, i)
    ensures IsBucket(RemoveLowest(t)) && Holds(RemoveLowest(t), high, i)
  {
    RemoveKeepsBucket(t);
    hide Entries, RemoveLowest, InBucket, IsBucket, Leftmost;
    NoneNew(Entries(t), Entries(RemoveLowest(t)), (Leftmost(t).page, Leftmost(t).util), high, i);
  }

  lemma RemoveTakesOne<P>(ts: seq<Tree<P>>, high: bool)
    requires AreBuckets(ts, high) && FirstUsed(ts) < |ts|
    ensures AllEntries(ts) == AllEntries(RemoveFrom(ts)) + multiset{Lowest(ts).value}
  {
    hide Entries, AllEntries, Holds, RemoveLowest, InBucket, IsBucket, FirstUsed, Leftmost;
    var i := FirstUsed(ts);
    var t := RemoveLowest(ts[i]);
    RemoveKeepsBucket(ts[i]);
    AllEntriesUpdate(ts, i, t);
    CancelOver(AllEntries(ts[i := t]), Entries(t), AllEntries(ts), multiset{Lowest(ts).value});
  }

  lemma LowestIsLeast<P>(ts: seq<Tree<P>>, high: bool, k: nat, p: P, u: real)
    requires AreBuckets(ts, high) && FirstUsed(ts) <= k < |ts| && (p, u) in Entries(ts[k])
    ensures u >= Lowest(ts).value.1
  {
    var i := FirstUsed(ts);
    var least := Lowest(ts).value;
    RemoveKeepsBucket(ts[i]);
    if k == i {
      EntriesNotBelow(ts[i], least.1, p, u);
    } else {
      assert least in Entries(ts[i]);
      assert InBucket(least.1, high, i) && InBucket(u, high, k);
      StepsAscend(high, i, k);
    }
  }

  lemma StepsAscend(high: bool, i: nat, k: nat)
    requires i < k
    ensures BaseOf(high) + BUCKET_WIDTH * (i + 1) as real <= BaseOf(high) + BUCKET_WIDTH * k as real
  {
  }

  // ---- Any interleaving

  datatype Operation<P> = Put(page: P, util: real) | Get

  ghost function Run<P>(ts: seq<Tree<P>>, ops: seq<Operation<P>>, high: bool): seq<Tree<P>>
    requires |ts| == BucketsOf(high)
    requires forall o <- ops :: o.Put? ==> 0 <= BucketOf(o.util, high) < BucketsOf(high)
    decreases |ops|
  {
    if ops == [] then ts
    else
      Run(if ops[0].Put? then InsertInto(ts, ops[0].page, ops[0].util, high) else RemoveFrom(ts), ops[1..], high)
  }

  /** What the gets of a run return. */
  ghost function Taken<P>(ts: seq<Tree<P>>, ops: seq<Operation<P>>, high: bool): multiset<(P, real)>
    requires |ts| == BucketsOf(high)
    requires forall o <- ops :: o.Put? ==> 0 <= BucketOf(o.util, high) < BucketsOf(high)
    decreases |ops|
  {
    if ops == [] then multiset{}
    else if ops[0].Put? then Taken(InsertInto(ts, ops[0].page, ops[0].util, high), ops[1..], high)
    else
      (if Lowest(ts).Some? then multiset{Lowest(ts).value} else multiset{}) + Taken(RemoveFrom(ts), ops[1..], high)
  }

  ghost function Given<P>(ops: seq<Operation<P>>): multiset<(P, real)> {
    if ops == [] then multiset{}
    else (if ops[0].Put? then multiset{(ops[0].page, ops[0].util)} else multiset{}) + Given(ops[1..])
  }

  /** Over any run the buckets stay in order, and no page is lost, invented or given out twice. */
  lemma {:induction false} RunConserves<P>(ts: seq<Tree<P>>, ops: seq<Operation<P>>, high: bool)
    requires AreBuckets(ts, high)
    requires forall o <- ops :: o.Put? ==> 0 <= BucketOf(o.util, high) < BucketsOf(high)
    ensures AreBuckets(Run(ts, ops, high), high)
    ensures AllEntries(Run(ts, ops, high)) + Taken(ts, ops, high) == AllEntries(ts) + Given(ops)
    decreases |ops|
  {
    hide Entries, AllEntries, Lowest, RemoveFrom, InsertInto, BucketOf, Holds, IsBucket;
    if ops != [] {
      assert forall o <- ops[1..] :: o in ops;
      if ops[0].Put? {
        var next := InsertInto(ts, ops[0].page, ops[0].util, high);
        InsertIntoBuckets(ts, ops[0].page, ops[0].util, high);
        RunConserves(next, ops[1..], high);
        MoreGiven(AllEntries(ts), multiset{(ops[0].page, ops[0].util)}, AllEntries(next),
                  AllEntries(Run(ts, ops, high)), Taken(ts, ops, high), Given(ops[1..]));
      } else {
        var next := RemoveFrom(ts);
        RemoveFromBuckets(ts, high);
        RunConserves(next, ops[1..], high);
        MoreTaken(AllEntries(ts), if Lowest(ts).Some? then multiset{Lowest(ts).value} else multiset{}, AllEntries(next),
                  AllEntries(Run(ts, ops, high)), Taken(next, ops[1..], high), Given(ops));
      }
    }
  }

  lemma MoreGiven<E>(a: multiset<E>, x: multiset<E>, a': multiset<E>, r: multiset<E>, t: multiset<E>, g: multiset<E>)
    requires a' == a + x && r + t == a' + g
    ensures r + t == a + (x + g)
  {
  }

  lemma MoreTaken<E>(a: multiset<E>, x: multiset<E>, a': multiset<E>, r: multiset<E>, t: multiset<E>, g: multiset<E>)
    requires a == a' + x && r + t == a' + g
    ensures r + (x + t) == a + g
  {
    assert r + (x + t) == (r + t) + x;
    assert a' + g + x == a' + x + g;
  }
}
