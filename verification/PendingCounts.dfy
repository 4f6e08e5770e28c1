/** What the pending count of a page is worth: exactly what was queued, less what was freed. */
module PendingCounts {
  import opened Graph
  import opened Heap
  import opened Layout
  import opened Decrements
  import opened Draining
  import opened Collection
  import opened CollectionInvariant
  import opened Runs

  lemma QueuedOnSnoc(q: seq<Addr>, t: Addr, page: Addr)
    ensures QueuedOn(q + [t], page) == QueuedOn(q, page) + if t - t % 4096 == page then 1 else 0
  {
    assert (q + [t])[..|q|] == q;
  }

  lemma {:induction false} QueuedOnBoth(q: seq<Addr>, q': seq<Addr>, page: Addr)
    ensures QueuedOn(q + q', page) == QueuedOn(q, page) + QueuedOn(q', page)
  {
    if q' == [] {
      assert q + q' == q;
    } else {
      QueuedOnBoth(q, q'[..|q'| - 1], page);
      assert (q + q')[..|q + q'| - 1] == q + q'[..|q'| - 1];
    }
  }

  /** Every object queued while the mask is walked is counted on its page, and nothing else is. */
  lemma {:induction false} MaskCountsQueued(s: DecState, x: Addr, n: nat, page: Addr)
    ensures s.queue <= DecN(s, x, n).queue
    ensures CountAt(DecN(s, x, n).pending, page)
         == CountAt(s.pending, page) + QueuedOn(DecN(s, x, n).queue[|s.queue|..], page)
  {
    if n == 0 {
      assert s.queue[|s.queue|..] == [];
    } else {
      hide QueuedOn, DecSlot;
      MaskCountsQueued(s, x, n - 1, page);
      var s1, s2 := DecN(s, x, n - 1), DecN(s, x, n);
      SlotCountsQueued(s1, x, n - 1, page);
      if s2.queue != s1.queue {
        QueueGrew(s.queue, s1.queue, s2.queue[|s1.queue|], page);
      }
    }
  }

  lemma QueueGrew(q: seq<Addr>, q1: seq<Addr>, t: Addr, page: Addr)
    requires q <= q1
    ensures q <= q1 + [t]
    ensures QueuedOn((q1 + [t])[|q|..], page) == QueuedOn(q1[|q|..], page) + if t - t % 4096 == page then 1 else 0
  {
    QueuedOnSnoc(q1[|q|..], t, page);
    assert (q1 + [t])[|q|..] == q1[|q|..] + [t];
  }

  lemma SlotCountsQueued(s: DecState, x: Addr, i: nat, page: Addr)
    ensures var s' := DecSlot(s, x, i);
            || (s'.queue == s.queue && s'.pending == s.pending)
            || (|s'.queue| == |s.queue| + 1 && s'.queue == s.queue + [s'.queue[|s.queue|]]
                && CountAt(s'.pending, page) == CountAt(s.pending, page)
                   + if s'.queue[|s.queue|] - s'.queue[|s.queue|] % 4096 == page then 1 else 0)
  {
  }

  /**
   One iteration, exactly: the page of each newly queued object counts it, and the page of the freed one
   counts one less, unless it counts nothing.
   */
  lemma PopPendingExactly(s: DecState, page: Addr)
    requires s.queue != [] && s.queue[0] in s.heap && s.heap[s.queue[0]].meta.isAlloc
    ensures s.queue[1..] <= DecPop(s).queue
    ensures var x := s.queue[0];
            var c := CountAt(s.pending, page) + QueuedOn(DecPop(s).queue[|s.queue| - 1..], page);
            CountAt(DecPop(s).pending, page) == if x - x % 4096 == page && c != 0 then c - 1 else c
  {
    var x := s.queue[0];
    var s1 := s.(queue := s.queue[1..]);
    MaskCountsQueued(s1, x, |Mask(s.heap[x])|, page);
    DecNCountsDown(s1, x, |Mask(s.heap[x])|);
    FreeTakesOne(DecN(s1, x, |Mask(s.heap[x])|), x, page);
    hide DecN, QueuedOn, FreeObj, CountAt, Mask;
    assert s1.queue == s.queue[1..];
  }

  lemma FreeTakesOne(s: DecState, x: Addr, page: Addr)
    requires x in s.heap
    ensures FreeObj(s, x).queue == s.queue
    ensures var c := CountAt(s.pending, page);
            CountAt(FreeObj(s, x).pending, page) == if x - x % 4096 == page && c != 0 then c - 1 else c
  {
  }

  /** A queued object that is no longer allocated is taken off the queue, and nothing else happens. */
  lemma PopSkips(s: DecState)
    requires s.queue != [] && s.queue[0] in s.heap && !s.heap[s.queue[0]].meta.isAlloc
    ensures DecPop(s).queue == s.queue[1..] && DecPop(s).heap == s.heap
    ensures DecPop(s).pending == s.pending && DecPop(s).touched == s.touched
  {
  }

  /** All but u of the objects waiting on a page are counted. */
  ghost predicate AllBut(pending: map<Addr, nat>, queue: seq<Addr>, page: Addr, u: nat) {
    QueuedOn(queue, page) <= CountAt(pending, page) + u
  }

  lemma PopKeepsAllBut(s: DecState, page: Addr, u: nat)
    requires s.queue != [] && s.queue[0] in s.heap && AllBut(s.pending, s.queue, page, u)
    ensures AllBut(DecPop(s).pending, DecPop(s).queue, page, u)
  {
    hide QueuedOn, DecPop;
    QueuedOnFront(s.queue, page);
    if s.heap[s.queue[0]].meta.isAlloc {
      PopPendingExactly(s, page);
      var q, q' := s.queue[1..], DecPop(s).queue[|s.queue| - 1..];
      assert DecPop(s).queue == q + q';
      QueuedOnBoth(q, q', page);
    } else {
      PopSkips(s);
    }
  }

  /** However long the queue is drained, what was uncounted at first is all that can be uncounted. */
  lemma {:induction false} DrainKeepsAllBut(s: DecState, budget: nat, page: Addr, u: nat)
    requires DecInv(s) && AllBut(s.pending, s.queue, page, u)
    ensures AllBut(DecRun(s, budget).pending, DecRun(s, budget).queue, page, u)
    decreases budget
  {
    hide DecInv, AllBut, DecPop;
    if budget > 0 && s.queue != [] {
      QueuedIsKnown(s);
      PopKeepsAllBut(s, page, u);
      PopKeepsDecInv(s);
      DrainKeepsAllBut(DecPop(s), budget - 1, page, u);
    }
  }

  lemma QueuedIsKnown(s: DecState)
    requires DecInv(s) && s.queue != []
    ensures s.queue[0] in s.heap
  {
    assert s.queue[0] in s.queue;
  }

  /** The roots a collection drops, which are queued without being counted. */
  ghost function Dropped(s: GcState, inp: Inputs): seq<Addr> {
    DroppedRoots(s.oldRoots, NewRoots(s, inp))
  }

  /** A collection leaves no more uncounted on a page than was uncounted before, and the roots it dropped there. */
  lemma CollectKeepsAllBut(s: GcState, inp: Inputs, page: Addr, u: nat)
    requires GcInv(s) && Circumstances(s, inp) && AllBut(s.pending, s.pendingDecs, page, u)
    ensures AllBut(Collect(s, inp).pending, Collect(s, inp).pendingDecs, page, u + QueuedOn(Dropped(s, inp), page))
  {
    hide GcInv, Circumstances, DecInv, Evac, QueuedOn, DecRun;
    DrainStarts(s, inp);
    QueuedOnBoth(s.pendingDecs, Dropped(s, inp), page);
    DrainKeepsAllBut(BeforeDrain(s, inp), inp.budget, page, u + QueuedOn(Dropped(s, inp), page));
  }

  /** How many objects of a page entered the queue as dropped roots in the first k steps of a run. */
  ghost function DroppedOn(states: seq<GcState>, actions: seq<Action>, k: nat, page: Addr): nat
    requires k <= |actions| && |states| == |actions| + 1
  {
    if k == 0 then 0
    else
      DroppedOn(states, actions, k - 1, page)
      + if actions[k - 1].Collection? then QueuedOn(Dropped(states[k - 1], actions[k - 1].inp), page) else 0
  }

  /**
   In every state of every run a page's pending count is at most its waiting objects, and at least those
   less the ones that entered the queue as dropped roots.
   */
  lemma {:induction false} RunCountsWaiting(states: seq<GcState>, actions: seq<Action>, k: nat, page: Addr)
    requires Run(states, actions) && k < |states|
    ensures QueuedOn(states[k].pendingDecs, page) - DroppedOn(states, actions, k, page)
         <= CountAt(states[k].pending, page) <= QueuedOn(states[k].pendingDecs, page)
  {
    hide GcInv, Step, QueuedOn, Dropped;
    RunPendingFits(states, actions, k, page);
    if k == 0 {
      NothingWaits(page);
    } else {
      RunCountsWaiting(states, actions, k - 1, page);
      RunKeepsInv(states, actions, k - 1);
      assert Step(states[k - 1], actions[k - 1], states[(k - 1) + 1]);
      StepKeepsAllBut(states[k - 1], actions[k - 1], states[k], page, DroppedOn(states, actions, k - 1, page));
    }
  }

  lemma NothingWaits(page: Addr)
    ensures QueuedOn(START.pendingDecs, page) == 0
  {
  }

  lemma StepKeepsAllBut(s: GcState, action: Action, s': GcState, page: Addr, u: nat)
    requires GcInv(s) && Step(s, action, s') && AllBut(s.pending, s.pendingDecs, page, u)
    ensures AllBut(s'.pending, s'.pendingDecs, page,
                   u + if action.Collection? then QueuedOn(Dropped(s, action.inp), page) else 0)
  {
    hide GcInv, Circumstances, Collect, AllBut, QueuedOn, Dropped;
    if action.Collection? {
      CollectKeepsAllBut(s, action.inp, page, u);
    }
  }
}
