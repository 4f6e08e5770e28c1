/**
 What the mark phase's visit promises: it emits exactly what the roots reach, each node once,
 and it emits children before parents for every choice of roots exactly when the graph is
 acyclic and no earlier-slot child is reachable from a later-slot child.
 */
module MarkOrder {
  import opened Graph
  import opened Dfs

  ghost predicate FromSome(g: Graph, roots: seq<Node>, x: Node) {
    exists r :: r in roots && Reach(g, r, x)
  }

  ghost predicate OnStack(st: seq<Entry>, x: Node) {
    exists i :: 0 <= i < |st| && st[i].obj == x
  }

  ghost predicate DistinctObjs(st: seq<Entry>) {
    forall i, j :: 0 <= i < j < |st| ==> st[i].obj != st[j].obj
  }

  /** Marked is emitted or waiting, never both; expanded nodes have marked children only. */
  ghost predicate VisitInv(g: Graph, roots: seq<Node>, s: Visit) {
    && Wf(g, s)
    && Distinct(s.out) && DistinctObjs(s.stack)
    && (forall x :: x in s.out ==> !OnStack(s.stack, x))
    && (forall x :: x in s.marked <==> x in s.out || OnStack(s.stack, x))
    && (forall x, y :: x in s.out && x in g && y in g[x] ==> y in s.marked)
    && (forall i, y :: 0 <= i < |s.stack| && s.stack[i].color == Black && y in g[s.stack[i].obj] ==> y in s.marked)
    && (forall x :: x in s.marked ==> FromSome(g, roots, x))
  }

  lemma PopKeepsVisitInv(g: Graph, roots: seq<Node>, s: Visit)
    requires VisitInv(g, roots, s) && s.stack != [] && Top(s).color == Black
    ensures VisitInv(g, roots, Step(g, s))
  {
    StepWf(g, s);
    var s' := Step(g, s);
    assert s.stack == Pop(s) + [Top(s)];
    assert s.stack[|s.stack| - 1] == Top(s) && OnStack(s.stack, Top(s).obj);
    forall x
      ensures OnStack(s.stack, x) <==> OnStack(s'.stack, x) || x == Top(s).obj
      ensures x == Top(s).obj ==> !OnStack(s'.stack, x)
    {
      if OnStack(s'.stack, x) {
        var i :| 0 <= i < |s'.stack| && s'.stack[i].obj == x;
        assert s.stack[i].obj == x;
      }
    }
  }

  lemma KidFromSome(g: Graph, roots: seq<Node>, x: Node, y: Node)
    requires FromSome(g, roots, x) && x in g && y in g[x]
    ensures FromSome(g, roots, y)
  {
    var r :| r in roots && Reach(g, r, x);
    ReachEdge(g, x, y);
    ReachTrans(g, r, x, y);
  }

  /** The entries after expanding the top: the old ones, the top in black, the pushed kids. */
  lemma ExpandedStack(g: Graph, s: Visit)
    requires Wf(g, s) && s.stack != [] && Top(s).color == Grey
    ensures var n := |s.stack| - 1; var st := Step(g, s).stack;
            && |st| == n + 1 + |Kids(g, s)|
            && (forall i :: 0 <= i < n ==> st[i] == s.stack[i])
            && st[n] == Entry(Top(s).obj, Black)
            && (forall i {:trigger st[i]} :: n < i < |st| ==> st[i] == Entry(Kids(g, s)[i - n - 1], Grey))
    ensures forall x :: OnStack(Step(g, s).stack, x) <==> OnStack(s.stack, x) || x in Kids(g, s)
  {
    var n := |s.stack| - 1;
    var kids := Kids(g, s);
    var st := Step(g, s).stack;
    forall x
      ensures OnStack(st, x) <==> OnStack(s.stack, x) || x in kids
    {
      if x in kids {
        var k :| 0 <= k < |kids| && kids[k] == x;
        assert st[n + 1 + k].obj == x;
      }
      if OnStack(s.stack, x) {
        var i :| 0 <= i < |s.stack| && s.stack[i].obj == x;
        assert st[i].obj == x;
      }
      if OnStack(st, x) {
        var i :| 0 <= i < |st| && st[i].obj == x;
        if i <= n {
          assert s.stack[i].obj == x;
        } else {
          assert kids[i - n - 1] == x;
        }
      }
    }
  }

  lemma ExpandKeepsDistinct(g: Graph, roots: seq<Node>, s: Visit)
    requires VisitInv(g, roots, s) && s.stack != [] && Top(s).color == Grey
    ensures DistinctObjs(Step(g, s).stack)
  {
    hide VisitInv, Step, FirstVisits, OnStack, DistinctObjs, Distinct;
    StackIsMarked(g, roots, s);
    ExpandedStack(g, s);
    FirstVisitsElems(g[Top(s).obj], s.marked);
    TwoParts(s.stack, s.marked, Kids(g, s), Step(g, s).stack);
  }

  lemma StackIsMarked(g: Graph, roots: seq<Node>, s: Visit)
    requires VisitInv(g, roots, s)
    ensures Wf(g, s) && DistinctObjs(s.stack)
    ensures forall i :: 0 <= i < |s.stack| ==> s.stack[i].obj in s.marked
  {
    forall i | 0 <= i < |s.stack|
      ensures s.stack[i].obj in s.marked
    {
      assert OnStack(s.stack, s.stack[i].obj);
    }
  }

  /** Different objects of the stack, all marked, and different unmarked ones on top of them. */
  lemma TwoParts(below: seq<Entry>, marked: set<Node>, above: seq<Node>, st: seq<Entry>)
    requires DistinctObjs(below) && Distinct(above) && |st| == |below| + |above|
    requires forall i :: 0 <= i < |below| ==> st[i].obj == below[i].obj && below[i].obj in marked
    requires forall i {:trigger st[i]} :: |below| <= i < |st| ==> st[i].obj == above[i - |below|]
    requires forall i :: 0 <= i < |above| ==> above[i] !in marked
    ensures DistinctObjs(st)
  {
  }

  lemma ExpandKeepsVisitInv(g: Graph, roots: seq<Node>, s: Visit)
    requires VisitInv(g, roots, s) && s.stack != [] && Top(s).color == Grey
    ensures VisitInv(g, roots, Step(g, s))
  {
    StepWf(g, s);
    ExpandedStack(g, s);
    ExpandKeepsDistinct(g, roots, s);
    FirstVisitsElems(g[Top(s).obj], s.marked);
    var n := |s.stack| - 1;
    var s' := Step(g, s);
    assert OnStack(s.stack, Top(s).obj);
    forall x | x in Kids(g, s)
      ensures FromSome(g, roots, x)
    {
      KidFromSome(g, roots, Top(s).obj, x);
    }
    forall i, y | 0 <= i < |s'.stack| && s'.stack[i].color == Black && y in g[s'.stack[i].obj]
      ensures y in s'.marked
    {
      if i < n {
        assert s'.stack[i] == s.stack[i];
      }
    }
  }

  lemma StepKeepsVisitInv(g: Graph, roots: seq<Node>, s: Visit)
    requires VisitInv(g, roots, s) && s.stack != []
    ensures VisitInv(g, roots, Step(g, s))
  {
    if Top(s).color == Black {
      PopKeepsVisitInv(g, roots, s);
    } else {
      ExpandKeepsVisitInv(g, roots, s);
    }
  }

  lemma {:induction false} RunKeepsVisitInv(g: Graph, roots: seq<Node>, s: Visit)
    requires VisitInv(g, roots, s)
    ensures VisitInv(g, roots, Run(g, s)) && Run(g, s).stack == []
    ensures s.marked <= Run(g, s).marked
    decreases Measure(g, s)
  {
    if s.stack != [] {
      StepKeepsVisitInv(g, roots, s);
      StepDecreases(g, s);
      RunKeepsVisitInv(g, roots, Step(g, s));
    }
  }

  lemma StartKeepsVisitInv(g: Graph, roots: seq<Node>, s: Visit, r: Node)
    requires VisitInv(g, roots, s) && s.stack == [] && r in g && r in roots && r !in s.marked
    ensures VisitInv(g, roots, Start(s, r))
  {
    var s' := Start(s, r);
    ReachSelf(g, r);
    assert s'.stack[0].obj == r;
    assert forall x :: OnStack(s'.stack, x) <==> x == r;
  }

  lemma EmptyKeepsVisitInv(g: Graph, roots: seq<Node>)
    requires Whole(g)
    ensures VisitInv(g, roots, Visit({}, [], []))
  {
  }

  /** The visit from one more root. */
  lemma RootKeepsVisitInv(g: Graph, roots: seq<Node>, s: Visit, r: Node)
    requires VisitInv(g, roots, s) && s.stack == [] && r in g && r in roots && r !in s.marked
    ensures Wf(g, Start(s, r)) && VisitInv(g, roots, Run(g, Start(s, r))) && Run(g, Start(s, r)).stack == []
    ensures s.marked + {r} <= Run(g, Start(s, r)).marked
  {
    StartKeepsVisitInv(g, roots, s, r);
    RunKeepsVisitInv(g, roots, Start(s, r));
  }

  lemma {:induction false} WalkKeepsVisitInv(g: Graph, roots: seq<Node>, n: nat)
    requires Whole(g) && n <= |roots| && Nodes(g, roots)
    ensures VisitInv(g, roots, Walk(g, roots, n))
    ensures forall i :: 0 <= i < n ==> roots[i] in Walk(g, roots, n).marked
  {
    hide VisitInv;
    hide Run;
    if n == 0 {
      EmptyKeepsVisitInv(g, roots);
    } else {
      WalkKeepsVisitInv(g, roots, n - 1);
      var s := Walk(g, roots, n - 1);
      var r := roots[n - 1];
      if r !in s.marked {
        RootKeepsVisitInv(g, roots, s, r);
      }
    }
  }

  /** The visit emits exactly the nodes reachable from the roots, each one once. */
  lemma VisitOrderIsExact(g: Graph, roots: seq<Node>)
    requires Whole(g) && Nodes(g, roots)
    ensures Distinct(VisitOrder(g, roots))
    ensures forall x :: x in VisitOrder(g, roots) <==> FromSome(g, roots, x)
    ensures forall x :: x in VisitOrder(g, roots) ==> x in g
    ensures Elems(VisitOrder(g, roots)) == Walk(g, roots, |roots|).marked
  {
    WalkKeepsVisitInv(g, roots, |roots|);
    var s := Walk(g, roots, |roots|);
    forall x
      ensures x in s.out <==> x in s.marked
    {
      if OnStack(s.stack, x) {
        assert false;
      }
    }
    assert ClosedSet(g, s.marked);
    forall x | FromSome(g, roots, x)
      ensures x in s.out
    {
      var r :| r in roots && Reach(g, r, x);
      ReachStaysInside(g, s.marked, r, x);
    }
  }

  // ---- Children before parents

  /** Everything is emitted after all its successors. */
  ghost predicate ChildrenFirst(g: Graph, out: seq<Node>) {
    forall k, y :: 0 <= k < |out| && out[k] in g && y in g[out[k]] ==> y in out[..k]
  }

  /** No child is reachable from a different child whose first slot is later. */
  ghost predicate SiblingOrdered(g: Graph) {
    forall x, i: nat, j: nat :: x in g && i < j && FirstSlot(g[x], j) ==> !Reach(g, g[x][j], g[x][i])
  }

  ghost predicate Unreached(g: Graph, st: seq<Entry>) {
    forall i, j :: 0 <= i < j < |st| ==> !Reach(g, st[j].obj, st[i].obj)
  }

  /** A stack entry is unreachable from the ones above it, which hold its pending children. */
  ghost predicate OrderInv(g: Graph, s: Visit)
    requires Wf(g, s)
  {
    && ChildrenFirst(g, s.out)
    && (forall i, y :: 0 <= i < |s.stack| && s.stack[i].color == Black && y in g[s.stack[i].obj]
          ==> y in s.out || OnStack(s.stack[i + 1..], y))
    && Unreached(g, s.stack)
  }

  lemma PopKeepsChildrenFirst(g: Graph, s: Visit)
    requires Wf(g, s) && OrderInv(g, s) && s.stack != [] && Top(s).color == Black
    ensures ChildrenFirst(g, Step(g, s).out)
  {
    hide Reach;
    var s' := Step(g, s);
    var n := |s.stack| - 1;
    assert s.stack[n + 1..] == [];
    forall k, y | 0 <= k < |s'.out| && s'.out[k] in g && y in g[s'.out[k]]
      ensures y in s'.out[..k]
    {
      if k < |s.out| {
        assert s.out[..k] == s'.out[..k] && s'.out[k] == s.out[k];
      } else {
        assert s'.out[..k] == s.out;
        assert !OnStack(s.stack[n + 1..], y);
      }
    }
  }

  lemma PopKeepsOrderInv(g: Graph, s: Visit)
    requires Wf(g, s) && OrderInv(g, s) && s.stack != [] && Top(s).color == Black
    ensures Wf(g, Step(g, s)) && OrderInv(g, Step(g, s))
  {
    hide Reach;
    PopKeepsChildrenFirst(g, s);
    StepWf(g, s);
    var s' := Step(g, s);
    forall i, y | 0 <= i < |s'.stack| && s'.stack[i].color == Black && y in g[s'.stack[i].obj]
      ensures y in s'.out || OnStack(s'.stack[i + 1..], y)
    {
      assert s.stack[i] == s'.stack[i];
      if y !in s.out && y != Top(s).obj {
        var k :| 0 <= k < |s.stack[i + 1..]| && s.stack[i + 1..][k].obj == y;
        assert s'.stack[i + 1..][k].obj == y;
      }
    }
  }

  lemma KidsNotReachedFromBelow(g: Graph, roots: seq<Node>, s: Visit, y: Node)
    requires VisitInv(g, roots, s) && OrderInv(g, s) && s.stack != [] && Acyclic(g)
    requires y in g[Top(s).obj]
    ensures forall i :: 0 <= i < |s.stack| ==> !Reach(g, y, s.stack[i].obj)
  {
    forall i | 0 <= i < |s.stack|
      ensures !Reach(g, y, s.stack[i].obj)
    {
      if Reach(g, y, s.stack[i].obj) && i < |s.stack| - 1 {
        ReachEdge(g, Top(s).obj, y);
        ReachTrans(g, Top(s).obj, y, s.stack[i].obj);
      }
    }
  }

  lemma SiblingsUnreachable(g: Graph, x: Node, marked: set<Node>, p: nat, q: nat)
    requires SiblingOrdered(g) && x in g && p < q < |FirstVisits(g[x], marked)|
    ensures !Reach(g, FirstVisits(g[x], marked)[q], FirstVisits(g[x], marked)[p])
  {
    var i, j := FirstVisitsSlots(g[x], marked, p, q);
  }

  /** Whoever ends up above an entry cannot reach it. */
  lemma ExpandKeepsUnreachable(g: Graph, s: Visit)
    requires Wf(g, s) && s.stack != [] && Top(s).color == Grey
    requires Unreached(g, s.stack)
    requires forall i, q :: 0 <= i < |s.stack| && 0 <= q < |Kids(g, s)| ==> !Reach(g, Kids(g, s)[q], s.stack[i].obj)
    requires forall p, q :: 0 <= p < q < |Kids(g, s)| ==> !Reach(g, Kids(g, s)[q], Kids(g, s)[p])
    ensures Unreached(g, Step(g, s).stack)
  {
    hide Reach;
    ExpandedStack(g, s);
    var n := |s.stack| - 1;
    var st := Step(g, s).stack;
    forall i, j | 0 <= i < j < |st|
      ensures !Reach(g, st[j].obj, st[i].obj)
    {
      assert i <= n ==> st[i].obj == s.stack[i].obj;
      assert j <= n ==> st[j].obj == s.stack[j].obj;
      if j > n {
        assert st[j].obj == Kids(g, s)[j - n - 1];
        if i > n {
          assert st[i].obj == Kids(g, s)[i - n - 1];
        }
      }
    }
  }

  lemma KidsAreUnreached(g: Graph, roots: seq<Node>, s: Visit)
    requires VisitInv(g, roots, s) && OrderInv(g, s) && s.stack != [] && Acyclic(g) && SiblingOrdered(g)
    ensures forall i, q :: 0 <= i < |s.stack| && 0 <= q < |Kids(g, s)| ==> !Reach(g, Kids(g, s)[q], s.stack[i].obj)
    ensures forall p, q :: 0 <= p < q < |Kids(g, s)| ==> !Reach(g, Kids(g, s)[q], Kids(g, s)[p])
  {
    var kids := Kids(g, s);
    forall q | 0 <= q < |kids|
      ensures forall i :: 0 <= i < |s.stack| ==> !Reach(g, kids[q], s.stack[i].obj)
    {
      FirstVisitsElems(g[Top(s).obj], s.marked);
      assert kids[q] in kids;
      KidsNotReachedFromBelow(g, roots, s, kids[q]);
    }
    forall p, q | 0 <= p < q < |kids|
      ensures !Reach(g, kids[q], kids[p])
    {
      SiblingsUnreachable(g, Top(s).obj, s.marked, p, q);
    }
  }

  lemma ExpandKeepsOrderInv(g: Graph, roots: seq<Node>, s: Visit)
    requires VisitInv(g, roots, s) && OrderInv(g, s) && s.stack != [] && Top(s).color == Grey
    requires Acyclic(g) && SiblingOrdered(g)
    ensures Wf(g, Step(g, s)) && OrderInv(g, Step(g, s))
  {
    hide Reach;
    hide SiblingOrdered;
    StepWf(g, s);
    ExpandedStack(g, s);
    KidsAreUnreached(g, roots, s);
    ExpandKeepsUnreachable(g, s);
    FirstVisitsElems(g[Top(s).obj], s.marked);
    var n := |s.stack| - 1;
    var s' := Step(g, s);
    forall i, y | 0 <= i < |s'.stack| && s'.stack[i].color == Black && y in g[s'.stack[i].obj]
      ensures y in s'.out || OnStack(s'.stack[i + 1..], y)
    {
      if i < n {
        assert s'.stack[i] == s.stack[i];
        if y !in s.out {
          var k :| 0 <= k < |s.stack[i + 1..]| && s.stack[i + 1..][k].obj == y;
          SeenAbove(s'.stack, i, i + 1 + k);
        }
      } else if y in s.marked {
        KidsNotReachedFromBelow(g, roots, s, y);
        ReachSelf(g, y);
      } else {
        var k :| 0 <= k < |Kids(g, s)| && Kids(g, s)[k] == y;
        SeenAbove(s'.stack, i, i + 1 + k);
      }
    }
  }

  lemma SeenAbove(st: seq<Entry>, i: nat, k: nat)
    requires i < k < |st|
    ensures OnStack(st[i + 1..], st[k].obj)
  {
    assert st[i + 1..][k - i - 1] == st[k];
  }

  lemma {:induction false} RunKeepsOrderInv(g: Graph, roots: seq<Node>, s: Visit)
    requires VisitInv(g, roots, s) && OrderInv(g, s) && Acyclic(g) && SiblingOrdered(g)
    ensures ChildrenFirst(g, Run(g, s).out)
    decreases Measure(g, s)
  {
    if s.stack != [] {
      if Top(s).color == Black {
        PopKeepsOrderInv(g, s);
      } else {
        ExpandKeepsOrderInv(g, roots, s);
      }
      StepKeepsVisitInv(g, roots, s);
      StepDecreases(g, s);
      RunKeepsOrderInv(g, roots, Step(g, s));
    }
  }

  lemma RootIsChildrenFirst(g: Graph, roots: seq<Node>, s: Visit, r: Node)
    requires VisitInv(g, roots, s) && s.stack == [] && r in g && r in roots && r !in s.marked
    requires ChildrenFirst(g, s.out) && Acyclic(g) && SiblingOrdered(g)
    ensures Wf(g, Start(s, r)) && ChildrenFirst(g, Run(g, Start(s, r)).out)
  {
    StartKeepsVisitInv(g, roots, s, r);
    RunKeepsOrderInv(g, roots, Start(s, r));
  }

  lemma {:induction false} WalkIsChildrenFirst(g: Graph, roots: seq<Node>, n: nat)
    requires Whole(g) && n <= |roots| && Nodes(g, roots)
    requires Acyclic(g) && SiblingOrdered(g)
    ensures ChildrenFirst(g, Walk(g, roots, n).out)
  {
    hide VisitInv;
    hide Run;
    hide Acyclic;
    hide SiblingOrdered;
    if n > 0 {
      WalkIsChildrenFirst(g, roots, n - 1);
      WalkKeepsVisitInv(g, roots, n - 1);
      var s := Walk(g, roots, n - 1);
      if roots[n - 1] !in s.marked {
        RootIsChildrenFirst(g, roots, s, roots[n - 1]);
      }
    }
  }

  // ---- The converse: a badly ordered heap goes wrong from some root

  ghost predicate Before(out: seq<Node>, a: Node, b: Node) {
    exists i, j :: 0 <= i < j < |out| && out[i] == a && out[j] == b
  }

  /** The stack entries all come out after what is already out, the top one first. */
  ghost predicate TopFirst(st: seq<Entry>, from: nat, out: seq<Node>) {
    && from <= |out|
    && (forall i :: 0 <= i < |st| ==> st[i].obj in out[from..])
    && (forall i, j :: 0 <= i < j < |st| ==> Before(out, st[j].obj, st[i].obj))
  }

  lemma TopFirstBeforePop(st: seq<Entry>, e: Entry, from: nat, out: seq<Node>)
    requires TopFirst(st, from + 1, out) && out[from] == e.obj
    ensures TopFirst(st + [e], from, out)
  {
    var st' := st + [e];
    assert forall x :: x in out[from + 1..] ==> x in out[from..];
    assert out[from..][0] == e.obj;
    forall i, j | 0 <= i < j < |st'|
      ensures Before(out, st'[j].obj, st'[i].obj)
    {
      assert st'[i] == st[i];
      if j < |st| {
        assert st'[j] == st[j];
      } else {
        var k :| 0 <= k < |out[from + 1..]| && out[from + 1..][k] == st[i].obj;
        assert out[from + 1 + k] == st[i].obj;
      }
    }
  }

  lemma TopFirstBeforeExpand(st: seq<Entry>, st': seq<Entry>, from: nat, out: seq<Node>)
    requires TopFirst(st', from, out) && |st| <= |st'| && forall i :: 0 <= i < |st| ==> st'[i].obj == st[i].obj
    ensures TopFirst(st, from, out)
  {
    forall i, j | 0 <= i < j < |st|
      ensures Before(out, st[j].obj, st[i].obj)
    {
      assert Before(out, st'[j].obj, st'[i].obj);
    }
  }

  lemma StepKeepsTopFirst(g: Graph, s: Visit, out: seq<Node>)
    requires Wf(g, s) && s.stack != []
    requires Step(g, s).out <= out && TopFirst(Step(g, s).stack, |Step(g, s).out|, out)
    ensures s.out <= out && TopFirst(s.stack, |s.out|, out)
  {
    hide Before;
    hide TopFirst;
    var s' := Step(g, s);
    if Top(s).color == Grey {
      hide OnStack;
      ExpandedStack(g, s);
      assert forall i :: 0 <= i < |s.stack| ==> s'.stack[i].obj == s.stack[i].obj;
      TopFirstBeforeExpand(s.stack, s'.stack, |s.out|, out);
    } else {
      assert s.stack == Pop(s) + [Top(s)];
      assert s'.out[|s.out|] == Top(s).obj;
      TopFirstBeforePop(Pop(s), Top(s), |s.out|, out);
    }
  }

  lemma {:induction false} StackComesOutTopFirst(g: Graph, s: Visit)
    requires Wf(g, s)
    ensures s.out <= Run(g, s).out
    ensures TopFirst(s.stack, |s.out|, Run(g, s).out)
    decreases Measure(g, s)
  {
    hide Before;
    if s.stack != [] {
      hide TopFirst;
      StepWf(g, s);
      StepDecreases(g, s);
      StackComesOutTopFirst(g, Step(g, s));
      StepKeepsTopFirst(g, s, Run(g, s).out);
    }
  }

  /** Everything is emitted after all its successors outside `fixed`. */
  ghost predicate ChildrenFirstBut(g: Graph, out: seq<Node>, fixed: set<Node>) {
    forall k, y :: 0 <= k < |out| && out[k] in g && y in g[out[k]] && y !in fixed ==> y in out[..k]
  }

  /** Along a path that stays clear of `fixed`, later nodes come out earlier. */
  lemma {:induction false} ReachedComeOutBefore(g: Graph, out: seq<Node>, fixed: set<Node>,
                                         p: seq<Node>, k: nat, m: nat)
    returns (c: nat)
    requires ChildrenFirstBut(g, out, fixed) && IsPath(g, p) && k < |p| && m < |out| && out[m] == p[0]
    requires forall i :: 1 <= i < |p| ==> p[i] !in fixed
    ensures c <= m && out[c] == p[k]
  {
    if k == 0 {
      c := m;
    } else {
      var b := ReachedComeOutBefore(g, out, fixed, p, k - 1, m);
      assert p[k - 1] in g && p[(k - 1) + 1] in g[p[k - 1]];
      assert p[k] in out[..b];
      c :| 0 <= c < b && out[..b][c] == p[k];
    }
  }

  lemma ReachIsNotBefore(g: Graph, out: seq<Node>, fixed: set<Node>, a: Node, b: Node)
    requires Distinct(out) && ChildrenFirstBut(g, out, fixed) && Before(out, a, b)
    requires forall x :: x in fixed ==> !Reach(g, a, x)
    ensures !Reach(g, a, b)
  {
    var i, j :| 0 <= i < j < |out| && out[i] == a && out[j] == b;
    if Reach(g, a, b) {
      var p :| IsPath(g, p) && p[0] == a && p[|p| - 1] == b;
      forall i | 1 <= i < |p|
        ensures p[i] !in fixed
      {
        PathSegment(g, p, 0, i);
      }
      var c := ReachedComeOutBefore(g, out, fixed, p, |p| - 1, i);
    }
  }

  lemma SingleRootRun(g: Graph, x: Node)
    requires Whole(g) && x in g
    ensures Wf(g, Visit({x}, [Entry(x, Grey)], []))
    ensures VisitOrder(g, [x]) == Run(g, Visit({x}, [Entry(x, Grey)], [])).out
    ensures x in VisitOrder(g, [x]) && Distinct(VisitOrder(g, [x]))
  {
    VisitOrderIsExact(g, [x]);
    ReachSelf(g, x);
    assert Start(Walk(g, [x], 0), x) == Visit({x}, [Entry(x, Grey)], []);
  }

  lemma CycleBreaksOrder(g: Graph, x: Node, y: Node)
    requires Whole(g) && x in g && y in g[x] && Reach(g, y, x)
    ensures !ChildrenFirst(g, VisitOrder(g, [x]))
  {
    SingleRootRun(g, x);
    var out := VisitOrder(g, [x]);
    if ChildrenFirst(g, out) {
      var k :| 0 <= k < |out| && out[k] == x;
      assert y in out[..k];
      var m :| 0 <= m < k && out[..k][m] == y;
      ReachIsNotBefore(g, out, {}, y, x);
    }
  }

  /** The pushed siblings sit on the stack in slot order. */
  lemma SiblingsPushed(g: Graph, x: Node, i: nat, j: nat) returns (p: nat, q: nat)
    requires Whole(g) && x in g && x !in g[x] && i < j && FirstSlot(g[x], j)
    ensures var s := Visit({x}, [Entry(x, Grey)], []); var st := Step(g, s).stack;
            p < q < |st| && st[p].obj == g[x][i] && st[q].obj == g[x][j]
  {
    var s := Visit({x}, [Entry(x, Grey)], []);
    ExpandedStack(g, s);
    var a, b := FirstVisitsKeepsSlots(g[x], {x}, i, j);
    p, q := 1 + a, 1 + b;
    assert Step(g, s).stack[p] == Entry(Kids(g, s)[a], Grey);
    assert Step(g, s).stack[q] == Entry(Kids(g, s)[b], Grey);
  }

  /** Starting from x alone, its earlier-slot child comes out after its later-slot child. */
  lemma SiblingsComeOutLastFirst(g: Graph, x: Node, i: nat, j: nat)
    requires Whole(g) && x in g && x !in g[x] && i < j && FirstSlot(g[x], j)
    ensures Before(VisitOrder(g, [x]), g[x][j], g[x][i])
  {
    hide Before;
    SingleRootRun(g, x);
    var s := Visit({x}, [Entry(x, Grey)], []);
    var s' := Step(g, s);
    StepWf(g, s);
    StackComesOutTopFirst(g, s');
    var p, q := SiblingsPushed(g, x, i, j);
    assert Before(Run(g, s').out, s'.stack[q].obj, s'.stack[p].obj);
  }

  /** Starting from x alone, something comes out before a child other than x. */
  lemma SiblingBreaksOrder(g: Graph, x: Node, i: nat, j: nat)
    requires Whole(g) && Acyclic(g) && x in g && i < j && FirstSlot(g[x], j) && Reach(g, g[x][j], g[x][i])
    ensures !ChildrenFirstBut(g, VisitOrder(g, [x]), {x})
  {
    ReachSelf(g, x);
    SiblingsComeOutLastFirst(g, x, i, j);
    SingleRootRun(g, x);
    if ChildrenFirstBut(g, VisitOrder(g, [x]), {x}) {
      ReachIsNotBefore(g, VisitOrder(g, [x]), {x}, g[x][j], g[x][i]);
    }
  }

  /**
   The exact condition under which the mark phase emits children before parents
   whatever the roots are.
   */
  lemma ChildrenFirstExactly(g: Graph)
    requires Whole(g)
    ensures Acyclic(g) && SiblingOrdered(g)
       <==> forall roots :: Nodes(g, roots) ==> ChildrenFirst(g, VisitOrder(g, roots))
  {
    if Acyclic(g) && SiblingOrdered(g) {
      forall roots | Nodes(g, roots)
        ensures ChildrenFirst(g, VisitOrder(g, roots))
      {
        WalkIsChildrenFirst(g, roots, |roots|);
      }
    } else if !Acyclic(g) {
      var x, y :| x in g && y in g[x] && Reach(g, y, x);
      CycleBreaksOrder(g, x, y);
      assert Nodes(g, [x]);
    } else {
      var x, i: nat, j: nat :| x in g && i < j && FirstSlot(g[x], j) && Reach(g, g[x][j], g[x][i]);
      SiblingBreaksOrder(g, x, i, j);
      assert Nodes(g, [x]);
    }
  }
}
