/** Finite directed graphs whose nodes carry an ordered list of successors. */
module Graph {

  type Node = nat
  type Graph = map<Node, seq<Node>>

  /** Every successor is itself a node. */
  ghost predicate Whole(g: Graph) {
    forall x, y :: x in g && y in g[x] ==> y in g
  }

  ghost predicate IsPath(g: Graph, p: seq<Node>) {
    && p != []
    && forall i :: 0 <= i < |p| - 1 ==> p[i] in g && p[i + 1] in g[p[i]]
  }

  ghost predicate Reach(g: Graph, a: Node, b: Node) {
    exists p :: IsPath(g, p) && p[0] == a && p[|p| - 1] == b
  }

  ghost predicate Acyclic(g: Graph) {
    forall x, y :: x in g && y in g[x] ==> !Reach(g, y, x)
  }

  ghost predicate ClosedSet(g: Graph, s: set<Node>) {
    forall x, y :: x in s && x in g && y in g[x] ==> y in s
  }

  ghost predicate Distinct(s: seq<Node>) {
    forall i, j :: 0 <= i < j < |s| ==> s[i] != s[j]
  }

  lemma DistinctSnoc(s: seq<Node>, x: Node)
    requires Distinct(s) && x !in s
    ensures Distinct(s + [x])
  {
  }

  lemma ReachSelf(g: Graph, a: Node)
    ensures Reach(g, a, a)
  {
    assert IsPath(g, [a]);
  }

  lemma ReachEdge(g: Graph, a: Node, b: Node)
    requires a in g && b in g[a]
    ensures Reach(g, a, b)
  {
    assert IsPath(g, [a, b]);
  }

  lemma ReachTrans(g: Graph, a: Node, b: Node, c: Node)
    requires Reach(g, a, b) && Reach(g, b, c)
    ensures Reach(g, a, c)
  {
    var p :| IsPath(g, p) && p[0] == a && p[|p| - 1] == b;
    var q :| IsPath(g, q) && q[0] == b && q[|q| - 1] == c;
    var r := p + q[1..];
    assert forall i :: 0 <= i < |q| ==> r[|p| - 1 + i] == q[i];
    assert forall i :: |p| - 1 <= i < |r| ==> r[i] == q[i - (|p| - 1)];
    assert IsPath(g, r) && r[0] == a && r[|r| - 1] == c;
  }

  /** A set closed under successors holds whatever its members reach. */
  lemma {:induction false} PathStaysInside(g: Graph, s: set<Node>, p: seq<Node>, k: nat)
    requires ClosedSet(g, s) && IsPath(g, p) && p[0] in s && k < |p|
    ensures p[k] in s
  {
    if k > 0 {
      PathStaysInside(g, s, p, k - 1);
      assert p[k - 1] in g && p[(k - 1) + 1] in g[p[k - 1]];
    }
  }

  lemma ReachStaysInside(g: Graph, s: set<Node>, a: Node, b: Node)
    requires ClosedSet(g, s) && a in s && Reach(g, a, b)
    ensures b in s
  {
    var p :| IsPath(g, p) && p[0] == a && p[|p| - 1] == b;
    PathStaysInside(g, s, p, |p| - 1);
  }

  lemma ReachHasPredecessor(g: Graph, a: Node, b: Node) returns (w: Node)
    requires Reach(g, a, b) && a != b
    ensures Reach(g, a, w) && w in g && b in g[w]
  {
    var p :| IsPath(g, p) && p[0] == a && p[|p| - 1] == b;
    PathSegment(g, p, 0, |p| - 2);
    w := p[|p| - 2];
    assert p[(|p| - 2) + 1] in g[p[|p| - 2]];
  }

  lemma ReachIsNode(g: Graph, a: Node, b: Node)
    requires Whole(g) && a in g && Reach(g, a, b)
    ensures b in g
  {
    assert ClosedSet(g, g.Keys);
    ReachStaysInside(g, g.Keys, a, b);
  }

  /** Adding edges adds reachability. */
  lemma ReachMonotone(g: Graph, g': Graph, a: Node, b: Node)
    requires forall x, y :: x in g && y in g[x] ==> x in g' && y in g'[x]
    requires Reach(g, a, b)
    ensures Reach(g', a, b)
  {
    var p :| IsPath(g, p) && p[0] == a && p[|p| - 1] == b;
    forall i | 0 <= i < |p| - 1
      ensures p[i] in g' && p[i + 1] in g'[p[i]]
    {
      assert p[i] in g && p[i + 1] in g[p[i]];
    }
    assert IsPath(g', p);
  }

  lemma PathSegment(g: Graph, p: seq<Node>, i: nat, j: nat)
    requires IsPath(g, p) && i <= j < |p|
    ensures Reach(g, p[i], p[j])
  {
    var q := p[i..j + 1];
    assert IsPath(g, q);
  }

  /** An acyclic graph never visits a node twice along a path. */
  lemma AcyclicPathDistinct(g: Graph, p: seq<Node>)
    requires Acyclic(g) && IsPath(g, p)
    ensures Distinct(p)
  {
    forall i, j | 0 <= i < j < |p|
      ensures p[i] != p[j]
    {
      PathSegment(g, p, i + 1, j);
      assert p[i] in g && p[i + 1] in g[p[i]];
    }
  }

  lemma {:induction false} DistinctFits(s: seq<Node>, u: set<Node>)
    requires Distinct(s) && forall i :: 0 <= i < |s| ==> s[i] in u
    ensures |s| <= |u|
  {
    if s != [] {
      DistinctFits(s[1..], u - {s[0]});
    }
  }

  ghost predicate HasPredecessor(g: Graph, u: set<Node>, x: Node) {
    exists w :: w in u && w in g && x in g[w]
  }

  /** From a set in which everybody has a predecessor, walk backwards n steps. */
  lemma {:induction false} WalkBack(g: Graph, u: set<Node>, n: nat) returns (p: seq<Node>)
    requires u != {} && forall x :: x in u ==> HasPredecessor(g, u, x)
    ensures IsPath(g, p) && |p| == n + 1 && forall i :: 0 <= i < |p| ==> p[i] in u
  {
    hide HasPredecessor;
    if n == 0 {
      var x :| x in u;
      p := [x];
    } else {
      hide IsPath;
      var q := WalkBack(g, u, n - 1);
      assert q[0] in u;
      var w := Predecessor(g, u, q[0]);
      PathCons(g, w, q);
      p := [w] + q;
    }
  }

  lemma Predecessor(g: Graph, u: set<Node>, x: Node) returns (w: Node)
    requires HasPredecessor(g, u, x)
    ensures w in u && w in g && x in g[w]
  {
    w :| w in u && w in g && x in g[w];
  }

  lemma PathCons(g: Graph, w: Node, q: seq<Node>)
    requires IsPath(g, q) && w in g && q[0] in g[w]
    ensures IsPath(g, [w] + q)
  {
    var p := [w] + q;
    forall i | 0 <= i < |p| - 1
      ensures p[i] in g && p[i + 1] in g[p[i]]
    {
      if i > 0 {
        assert p[i] == q[i - 1] && p[i + 1] == q[i];
      }
    }
  }

  /** In an acyclic graph every non-empty set has a member without predecessors in it. */
  lemma AcyclicHasSource(g: Graph, u: set<Node>)
    requires Acyclic(g) && u != {}
    ensures exists x :: x in u && !HasPredecessor(g, u, x)
  {
    if forall x :: x in u ==> HasPredecessor(g, u, x) {
      var p := WalkBack(g, u, |u|);
      AcyclicPathDistinct(g, p);
      DistinctFits(p, u);
    }
  }
}
