/** How full a page is, which class that puts it in, and when a class change moves it. */
module Utilization {
  import Layout

  const NUM_LOW_UTIL_BUCKETS: nat := 12
  const NUM_HIGH_UTIL_BUCKETS: nat := 6
  const BUCKET_WIDTH: real := 0.05
  const HIGH_BASE: real := 0.60

  function CalcApproxUtilization(freecount: nat, entrycount: nat): real
    requires entrycount > 0
  {
    1.0 - freecount as real / entrycount as real
  }

  predicate IsLowUtil(u: real) {
    0.01 <= u <= 0.60
  }

  predicate IsHighUtil(u: real) {
    0.60 < u <= 0.90
  }

  predicate IsFull(u: real) {
    0.90 < u <= 1.0
  }

  predicate UtilizationsAreEqual(a: real, b: real) {
    -0.00001 <= a - b <= 0.00001
  }

  // ---- Buckets

  function BaseOf(high: bool): real {
    if high then HIGH_BASE else 0.0
  }

  function BucketsOf(high: bool): nat {
    if high then NUM_HIGH_UTIL_BUCKETS else NUM_LOW_UTIL_BUCKETS
  }

  /** Bucket i of a class holds the utilizations in one half-open step of 0.05 above the class base. */
  predicate InBucket(u: real, high: bool, i: int) {
    BaseOf(high) + BUCKET_WIDTH * i as real < u <= BaseOf(high) + BUCKET_WIDTH * (i + 1) as real
  }

  ghost function BucketOf(u: real, high: bool): int {
    -((BaseOf(high) - u) * 20.0).Floor - 1
  }

  lemma BucketOfIsBucket(u: real, high: bool, i: int)
    ensures InBucket(u, high, i) <==> i == BucketOf(u, high)
  {
  }

  /** Each class is covered by its buckets. */
  lemma ClassIsCovered(u: real, high: bool)
    requires if high then IsHighUtil(u) else IsLowUtil(u)
    ensures 0 <= BucketOf(u, high) < BucketsOf(high)
  {
  }

  /** The index of the step that u lies in; `start` when it lies in none. */
  method GetBucketIndex(u: real, high: bool, start: int) returns (index: int)
    ensures 0 <= BucketOf(u, high) < BucketsOf(high) ==> index == BucketOf(u, high)
    ensures !(0 <= BucketOf(u, high) < BucketsOf(high)) ==> index == start
  {
    index := start;
    var tmp := 0.0;
    if high {
      tmp := 0.60;
    }
    var i := 0;
    while i < BucketsOf(high)
      invariant 0 <= i <= BucketsOf(high) && index == start
      invariant tmp == BaseOf(high) + BUCKET_WIDTH * i as real
      invariant forall k :: 0 <= k < i ==> !InBucket(u, high, k)
    {
      var newTmp := tmp + BUCKET_WIDTH;
      BucketOfIsBucket(u, high, i);
      if u > tmp && u <= newTmp {
        index := i;
        break;
      }
      tmp := newTmp;
      i := i + 1;
    }
    BucketOfIsBucket(u, high, BucketOf(u, high));
  }

  // ---- Classes

  /** Twelve buckets up to 0.60 and six more up to 0.90, each 0.05 wide and closed above. */
  lemma BucketsInNumbers(u: real, i: int)
    ensures IsLowUtil(u) ==>
              (BucketOf(u, false) == i <==> 0.05 * i as real < u <= 0.05 * (i + 1) as real)
              && 0 <= BucketOf(u, false) < 12
    ensures IsHighUtil(u) ==>
              (BucketOf(u, true) == i <==> 0.60 + 0.05 * i as real < u <= 0.60 + 0.05 * (i + 1) as real)
              && 0 <= BucketOf(u, true) < 6
  {
    BucketOfIsBucket(u, false, i);
    BucketOfIsBucket(u, true, i);
  }

  datatype Class = Empty | Low(bucket: int) | High(bucket: int) | Full | Nowhere

  ghost function ClassOf(u: real): Class {
    if u == 0.0 then Empty
    else if IsLowUtil(u) then Low(BucketOf(u, false))
    else if IsHighUtil(u) then High(BucketOf(u, true))
    else if IsFull(u) then Full
    else Nowhere
  }

  lemma UtilizationInUnits(f: nat, n: nat)
    requires 0 < n && f <= n
    ensures CalcApproxUtilization(f, n) * n as real == (n - f) as real
    ensures 0.0 <= CalcApproxUtilization(f, n) <= 1.0
    ensures f < n ==> CalcApproxUtilization(f, n) * n as real >= 1.0
    ensures CalcApproxUtilization(f, n) == 0.0 <==> f == n
  {
    var q := f as real / n as real;
    assert q * n as real == f as real;
  }

  /** No page falls between the classes, whatever its free count, exactly when pages have at most 100 entries. */
  lemma EveryPageHasAClassExactly(n: nat)
    requires n > 0
    ensures (forall f: nat :: f <= n ==> ClassOf(CalcApproxUtilization(f, n)) != Nowhere) <==> n <= 100
  {
    if n <= 100 {
      forall f: nat | f <= n
        ensures ClassOf(CalcApproxUtilization(f, n)) != Nowhere
      {
        UtilizationInUnits(f, n);
        AtLeastAHundredth(CalcApproxUtilization(f, n), n);
      }
    } else {
      var u := CalcApproxUtilization(n - 1, n);
      UtilizationInUnits(n - 1, n);
      LessThanAHundredth(u, n);
      assert ClassOf(u) == Nowhere;
    }
  }

  lemma AtLeastAHundredth(u: real, n: nat)
    requires 0 < n <= 100 && u >= 0.0
    ensures u * n as real >= 1.0 ==> u >= 0.01
  {
    assert u * n as real <= u * 100.0;
  }

  lemma LessThanAHundredth(u: real, n: nat)
    requires n > 100 && u * n as real == 1.0
    ensures 0.0 < u < 0.01
  {
    assert u >= 0.01 ==> u * n as real >= 0.01 * n as real;
    assert u <= 0.0 ==> u * n as real <= 0.0;
  }

  /** With canaries every page of every object size has a class; without, one 8-byte object alone has none. */
  lemma CanariesDecide(allocSize: nat, f: nat)
    requires allocSize >= 8
    ensures var n := Layout.EntryCount(Layout.RealEntrySize(allocSize, Layout.CANARY_SIZE));
            n > 0 && f <= n ==> ClassOf(CalcApproxUtilization(f, n)) != Nowhere
    ensures Layout.EntryCount(Layout.RealEntrySize(8, 0)) == 126
    ensures ClassOf(CalcApproxUtilization(125, 126)) == Nowhere
  {
    Layout.AtMost63Entries(allocSize);
    var n := Layout.EntryCount(Layout.RealEntrySize(allocSize, Layout.CANARY_SIZE));
    if n > 0 {
      EveryPageHasAClassExactly(n);
    }
  }

  /** On pages of one size the tolerance is equality: utilizations are whole numbers of entries apart. */
  lemma EqualExactly(f: nat, g: nat, n: nat)
    requires 0 < n < 100000 && f <= n && g <= n
    ensures UtilizationsAreEqual(CalcApproxUtilization(f, n), CalcApproxUtilization(g, n)) <==> f == g
  {
    UtilizationInUnits(f, n);
    UtilizationInUnits(g, n);
    var d := CalcApproxUtilization(f, n) - CalcApproxUtilization(g, n);
    assert d * n as real == (g - f) as real;
    if UtilizationsAreEqual(CalcApproxUtilization(f, n), CalcApproxUtilization(g, n)) {
      SmallTimes(d, n);
    }
  }

  /** The tolerance tells all free counts of a page apart exactly as long as pages have less than 100000 entries. */
  lemma ToleranceIsFineExactly(n: nat)
    requires n > 0
    ensures n < 100000 <==>
              forall f: nat, g: nat :: f <= n && g <= n ==>
                (UtilizationsAreEqual(CalcApproxUtilization(f, n), CalcApproxUtilization(g, n)) <==> f == g)
  {
    if n < 100000 {
      forall f: nat, g: nat | f <= n && g <= n
        ensures UtilizationsAreEqual(CalcApproxUtilization(f, n), CalcApproxUtilization(g, n)) <==> f == g
      {
        EqualExactly(f, g, n);
      }
    } else {
      UtilizationInUnits(0, n);
      UtilizationInUnits(1, n);
      var d := CalcApproxUtilization(0, n) - CalcApproxUtilization(1, n);
      OneOfMany(d, n);
      assert UtilizationsAreEqual(CalcApproxUtilization(0, n), CalcApproxUtilization(1, n));
    }
  }

  lemma OneOfMany(d: real, n: nat)
    requires n >= 100000 && d * n as real == 1.0
    ensures 0.0 < d <= 0.00001
  {
    assert d > 0.00001 ==> d * n as real > 0.00001 * n as real;
    assert d <= 0.0 ==> d * n as real <= 0.0;
  }

  /** The utilizations that a page of n entries can have. */
  ghost predicate OnGrid(u: real, n: nat)
    requires n > 0
  {
    exists f: nat :: f <= n && u == CalcApproxUtilization(f, n)
  }

  lemma GridSeparates(u: real, v: real, n: nat)
    requires 0 < n < 100000 && OnGrid(u, n) && OnGrid(v, n)
    ensures UtilizationsAreEqual(u, v) <==> u == v
  {
    var f: nat :| f <= n && u == CalcApproxUtilization(f, n);
    var g: nat :| g <= n && v == CalcApproxUtilization(g, n);
    EqualExactly(f, g, n);
    UtilizationInUnits(f, n);
    UtilizationInUnits(g, n);
  }

  lemma SmallTimes(d: real, n: nat)
    requires -0.00001 <= d <= 0.00001 && 0 < n < 100000
    ensures -1.0 < d * n as real < 1.0
  {
    assert d * n as real <= 0.00001 * n as real;
    assert d * n as real >= -0.00001 * n as real;
  }

  // ---- Moving pages

  /** What a page with at most 100 entries can have. */
  predicate Placeable(u: real) {
    u == 0.0 || 0.01 <= u <= 1.0
  }

  /** One of the eighteen steps of 0.05 below the full pages. */
  predicate InStep(u: real, i: int) {
    0 <= i < 18 && 0.05 * i as real < u <= 0.05 * (i + 1) as real
  }

  /** Two pages belong together when both are empty, both are full, or both lie in one step. */
  lemma SameClassExactly(u: real, v: real)
    requires Placeable(u) && Placeable(v)
    ensures ClassOf(u) == ClassOf(v) <==>
              (u == 0.0 && v == 0.0) || (u > 0.90 && v > 0.90) || exists i :: InStep(u, i) && InStep(v, i)
  {
    hide BucketOf;
    if ClassOf(u).Low? {
      StepOfLow(u, ClassOf(u).bucket);
      StepOfLow(v, ClassOf(u).bucket);
    } else if ClassOf(u).High? {
      StepOfHigh(u, ClassOf(u).bucket);
      StepOfHigh(v, ClassOf(u).bucket);
    }
  }

  lemma StepOfLow(u: real, i: int)
    requires Placeable(u)
    ensures ClassOf(u) == Low(i) <==> 0 <= i < 12 && InStep(u, i)
    ensures ClassOf(u).Low? ==> forall j :: InStep(u, j) <==> j == ClassOf(u).bucket
  {
    BucketsInNumbers(u, i);
    hide BucketOf;
    if ClassOf(u).Low? {
      forall j
        ensures InStep(u, j) <==> j == ClassOf(u).bucket
      {
        BucketsInNumbers(u, j);
      }
    }
  }

  lemma StepOfHigh(u: real, i: int)
    requires Placeable(u)
    ensures ClassOf(u) == High(i) <==> 0 <= i < 6 && InStep(u, i + 12)
    ensures ClassOf(u).High? ==> forall j :: InStep(u, j) <==> j == ClassOf(u).bucket + 12
  {
    BucketsInNumbers(u, i);
    hide BucketOf;
    if ClassOf(u).High? {
      forall j
        ensures InStep(u, j) <==> j == ClassOf(u).bucket + 12
      {
        BucketsInNumbers(u, j - 12);
      }
    }
  }

  /** A processed page needs to move exactly when its class changed. */
  method PageNeedsMoved(oldUtil: real, newUtil: real) returns (moved: bool)
    requires Placeable(newUtil) && (oldUtil > 1.1 || Placeable(oldUtil))
    ensures moved <==> oldUtil <= 1.1 && ClassOf(oldUtil) != ClassOf(newUtil)
  {
    if oldUtil > 1.1 {
      return false;
    }
    if newUtil < 0.01 && oldUtil > 0.01 {
      return true;
    }
    if IsLowUtil(oldUtil) != IsLowUtil(newUtil) {
      return true;
    }
    if IsHighUtil(oldUtil) != IsHighUtil(newUtil) {
      return true;
    }
    if IsFull(oldUtil) != IsFull(newUtil) {
      return true;
    }
    if IsLowUtil(newUtil) {
      ClassIsCovered(oldUtil, false);
      ClassIsCovered(newUtil, false);
      var oldBucket := GetBucketIndex(oldUtil, false, -1);
      var newBucket := GetBucketIndex(newUtil, false, -1);
      return oldBucket != newBucket;
    } else if IsHighUtil(newUtil) {
      ClassIsCovered(oldUtil, true);
      ClassIsCovered(newUtil, true);
      var oldBucket := GetBucketIndex(oldUtil, true, -1);
      var newBucket := GetBucketIndex(newUtil, true, -1);
      return oldBucket != newBucket;
    } else {
      return false;
    }
  }
}
