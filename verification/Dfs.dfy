/**
 The depth-first visit of the mark phase over an abstract graph: objects are marked when
 they are pushed, pushed grey, re-pushed black when expanded, and emitted when popped black.
 */
module Dfs {
  import opened Graph

  datatype Color = Grey | Black
  datatype Entry = Entry(obj: Node, color: Color)

  /** Marked nodes, the visit stack (top last) and the nodes emitted so far. */
  datatype Visit = Visit(marked: set<Node>, stack: seq<Entry>, out: seq<Node>)

  /** The successors that get pushed: in slot order, skipping what is already marked. */
  ghost function FirstVisits(kids: seq<Node>, marked: set<Node>): seq<Node> {
    if kids == [] then []
    else
      var n := |kids| - 1;
      var r := FirstVisits(kids[..n], marked);
      if kids[n] in marked || kids[n] in r then r else r + [kids[n]]
  }

  ghost function Greys(kids: seq<Node>): seq<Entry> {
    seq(|kids|, i requires 0 <= i < |kids| => Entry(kids[i], Grey))
  }

  ghost function Elems(s: seq<Node>): set<Node> {
    set x | x in s
  }

  ghost predicate Nodes(g: Graph, roots: seq<Node>) {
    forall r :: r in roots ==> r in g
  }

  ghost predicate Wf(g: Graph, s: Visit) {
    && Whole(g)
    && s.marked <= g.Keys
    && forall i :: 0 <= i < |s.stack| ==> s.stack[i].obj in g
  }

  ghost function Top(s: Visit): Entry
    requires s.stack != []
  {
    s.stack[|s.stack| - 1]
  }

  ghost function Pop(s: Visit): seq<Entry>
    requires s.stack != []
  {
    s.stack[..|s.stack| - 1]
  }

  ghost function Kids(g: Graph, s: Visit): seq<Node>
    requires s.stack != [] && Top(s).obj in g
  {
    FirstVisits(g[Top(s).obj], s.marked)
  }

  /** One iteration of the visit loop. */
  ghost function Step(g: Graph, s: Visit): Visit
    requires s.stack != [] && Top(s).obj in g
  {
    if Top(s).color == Black then
      s.(stack := Pop(s), out := s.out + [Top(s).obj])
    else
      s.(marked := s.marked + Elems(Kids(g, s)),
         stack := Pop(s) + [Entry(Top(s).obj, Black)] + Greys(Kids(g, s)))
  }

  /** Pop and expand until the stack is empty. */
  ghost function Run(g: Graph, s: Visit): Visit
    requires Wf(g, s)
    decreases Measure(g, s)
  {
    if s.stack == [] then s
    else
      StepWf(g, s);
      StepDecreases(g, s);
      Run(g, Step(g, s))
  }

  ghost function Start(s: Visit, r: Node): Visit {
    Visit(s.marked + {r}, s.stack + [Entry(r, Grey)], s.out)
  }

  /** The outer loop over the first n pending roots. */
  ghost function Walk(g: Graph, roots: seq<Node>, n: nat): (s: Visit)
    requires Whole(g) && n <= |roots| && Nodes(g, roots)
    ensures Wf(g, s) && s.stack == []
  {
    if n == 0 then Visit({}, [], [])
    else
      var s := Walk(g, roots, n - 1);
      if roots[n - 1] in s.marked then s
      else
        RunWf(g, Start(s, roots[n - 1]));
        Run(g, Start(s, roots[n - 1]))
  }

  ghost function VisitOrder(g: Graph, roots: seq<Node>): seq<Node>
    requires Whole(g) && Nodes(g, roots)
  {
    Walk(g, roots, |roots|).out
  }

  // ---- Properties of FirstVisits

  lemma {:induction false} FirstVisitsElems(kids: seq<Node>, marked: set<Node>)
    ensures Distinct(FirstVisits(kids, marked))
    ensures forall x :: x in FirstVisits(kids, marked) <==> x in kids && x !in marked
  {
    if kids != [] {
      var n := |kids| - 1;
      FirstVisitsElems(kids[..n], marked);
      assert kids == kids[..n] + [kids[n]];
    }
  }

  ghost predicate FirstSlot(kids: seq<Node>, j: nat) {
    j < |kids| && kids[j] !in kids[..j]
  }

  /** Pushed nodes keep the order of their first slots. */
  lemma {:induction false} FirstVisitsSlots(kids: seq<Node>, marked: set<Node>, p: nat, q: nat)
    returns (i: nat, j: nat)
    requires p < q < |FirstVisits(kids, marked)|
    ensures i < j < |kids| && FirstSlot(kids, j)
    ensures kids[i] == FirstVisits(kids, marked)[p] && kids[j] == FirstVisits(kids, marked)[q]
  {
    var n := |kids| - 1;
    var r := FirstVisits(kids[..n], marked);
    FirstVisitsElems(kids[..n], marked);
    if q < |r| {
      i, j := FirstVisitsSlots(kids[..n], marked, p, q);
      assert kids[..n][..j] == kids[..j];
    } else {
      assert r[p] in r;
      i :| 0 <= i < n && kids[..n][i] == r[p];
      j := n;
    }
  }

  lemma {:induction false} FirstVisitsKeepsSlots(kids: seq<Node>, marked: set<Node>, i: nat, j: nat)
    returns (p: nat, q: nat)
    requires i < j < |kids| && FirstSlot(kids, j) && kids[i] !in marked && kids[j] !in marked
    ensures p < q < |FirstVisits(kids, marked)|
    ensures kids[i] == FirstVisits(kids, marked)[p] && kids[j] == FirstVisits(kids, marked)[q]
  {
    var n := |kids| - 1;
    var r := FirstVisits(kids[..n], marked);
    FirstVisitsElems(kids[..n], marked);
    if j < n {
      assert kids[..n][..j] == kids[..j];
      p, q := FirstVisitsKeepsSlots(kids[..n], marked, i, j);
    } else {
      assert kids[..n][i] == kids[i];
      p :| 0 <= p < |r| && r[p] == kids[i];
      q := |r|;
    }
  }

  // ---- Termination

  ghost function Weight(st: seq<Entry>): nat {
    if st == [] then 0
    else Weight(st[..|st| - 1]) + if st[|st| - 1].color == Grey then 2 else 1
  }

  /** Twice the grey entries plus the black ones, plus three for each unmarked node. */
  ghost function Measure(g: Graph, s: Visit): nat {
    3 * |g.Keys - s.marked| + Weight(s.stack)
  }

  lemma {:induction false} WeightGreys(st: seq<Entry>, kids: seq<Node>)
    ensures Weight(st + Greys(kids)) == Weight(st) + 2 * |kids|
  {
    if kids == [] {
      assert st + Greys(kids) == st;
    } else {
      var n := |kids| - 1;
      WeightGreys(st, kids[..n]);
      assert (st + Greys(kids))[..|st| + n] == st + Greys(kids[..n]);
    }
  }

  lemma {:induction false} DistinctCard(s: seq<Node>)
    requires Distinct(s)
    ensures |Elems(s)| == |s|
  {
    if s != [] {
      DistinctCard(s[1..]);
      assert Elems(s) == {s[0]} + Elems(s[1..]);
    }
  }

  lemma StepWf(g: Graph, s: Visit)
    requires Wf(g, s) && s.stack != []
    ensures Wf(g, Step(g, s))
  {
    FirstVisitsElems(g[Top(s).obj], s.marked);
    var s' := Step(g, s);
    if Top(s).color == Grey {
      forall i | 0 <= i < |s'.stack|
        ensures s'.stack[i].obj in g
      {
        if i > |Pop(s)| {
          assert s'.stack[i].obj == Kids(g, s)[i - |Pop(s)| - 1];
          assert s'.stack[i].obj in Kids(g, s);
        }
      }
    }
  }

  lemma StepDecreases(g: Graph, s: Visit)
    requires Wf(g, s) && s.stack != []
    ensures Measure(g, Step(g, s)) < Measure(g, s)
  {
    assert s.stack == Pop(s) + [Top(s)];
    var kids := Kids(g, s);
    FirstVisitsElems(g[Top(s).obj], s.marked);
    if Top(s).color == Grey {
      var black := Pop(s) + [Entry(Top(s).obj, Black)];
      WeightGreys(black, kids);
      assert black[..|black| - 1] == Pop(s);
      DistinctCard(kids);
      assert Elems(kids) <= g.Keys - s.marked;
      assert g.Keys - (s.marked + Elems(kids)) == (g.Keys - s.marked) - Elems(kids);
    }
  }

  lemma {:induction false} RunWf(g: Graph, s: Visit)
    requires Wf(g, s)
    ensures Wf(g, Run(g, s)) && Run(g, s).stack == []
    decreases Measure(g, s)
  {
    if s.stack != [] {
      StepWf(g, s);
      StepDecreases(g, s);
      RunWf(g, Step(g, s));
    }
  }
}
