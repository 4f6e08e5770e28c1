/** The in-place quicksort over addresses, and what a sorted root array is. */
module Sorting {

  type Addr = nat

  ghost predicate Sorted(s: seq<Addr>) {
    forall i, j :: 0 <= i < j < |s| ==> s[i] <= s[j]
  }

  ghost predicate StrictlySorted(s: seq<Addr>) {
    forall i, j :: 0 <= i < j < |s| ==> s[i] < s[j]
  }

  /** Reference definition: insert into a sorted sequence. */
  ghost function Insert(x: Addr, s: seq<Addr>): seq<Addr> {
    if s == [] || x <= s[0] then [x] + s else [s[0]] + Insert(x, s[1..])
  }

  /** Reference definition: the sorted sequence with the elements of s. */
  ghost function Sort(s: seq<Addr>): seq<Addr> {
    if s == [] then [] else Insert(s[0], Sort(s[1..]))
  }

  lemma SplitHead(s: seq<Addr>)
    requires s != []
    ensures multiset(s) == multiset{s[0]} + multiset(s[1..])
    ensures multiset(s[1..]) == multiset(s) - multiset{s[0]}
  {
    assert s == [s[0]] + s[1..];
  }

  lemma HeadIsLeast(s: seq<Addr>, y: Addr)
    requires Sorted(s) && y in multiset(s)
    ensures s != [] && s[0] <= y
  {
    assert y in s;
  }

  lemma {:induction false} InsertPermutes(x: Addr, s: seq<Addr>)
    ensures multiset(Insert(x, s)) == multiset(s) + multiset{x}
  {
    if s != [] && s[0] < x {
      InsertPermutes(x, s[1..]);
      SplitHead(s);
      assert multiset([s[0]] + Insert(x, s[1..])) == multiset{s[0]} + multiset(Insert(x, s[1..]));
    } else {
      assert multiset([x] + s) == multiset([x]) + multiset(s);
    }
  }

  lemma {:induction false} InsertSorts(x: Addr, s: seq<Addr>)
    requires Sorted(s)
    ensures Sorted(Insert(x, s))
    ensures Insert(x, s) != [] && (Insert(x, s)[0] == x || (s != [] && Insert(x, s)[0] == s[0]))
  {
    if s != [] && s[0] < x {
      InsertSorts(x, s[1..]);
      SortedCons(s[0], Insert(x, s[1..]));
    } else {
      SortedCons(x, s);
    }
  }

  lemma SortedCons(x: Addr, s: seq<Addr>)
    requires Sorted(s) && (s != [] ==> x <= s[0])
    ensures Sorted([x] + s)
  {
  }

  lemma {:induction false} SortSorts(s: seq<Addr>)
    ensures Sorted(Sort(s)) && multiset(Sort(s)) == multiset(s)
  {
    if s != [] {
      SortSorts(s[1..]);
      InsertSorts(s[0], Sort(s[1..]));
      InsertPermutes(s[0], Sort(s[1..]));
      SplitHead(s);
    }
  }

  lemma SameHead(a: seq<Addr>, b: seq<Addr>)
    requires Sorted(a) && Sorted(b) && multiset(a) == multiset(b) && a != []
    ensures b != [] && a[0] == b[0]
  {
    assert a[0] in multiset(a);
    HeadIsLeast(b, a[0]);
    assert b[0] in multiset(b);
    HeadIsLeast(a, b[0]);
  }

  /** A sorted permutation is unique. */
  lemma {:induction false} SortedIsUnique(a: seq<Addr>, b: seq<Addr>)
    requires Sorted(a) && Sorted(b) && multiset(a) == multiset(b)
    ensures a == b
  {
    if a == [] {
      assert |multiset(b)| == 0;
    } else {
      SameHead(a, b);
      SplitHead(a);
      SplitHead(b);
      SortedIsUnique(a[1..], b[1..]);
      assert a == [a[0]] + a[1..] && b == [b[0]] + b[1..];
    }
  }

  lemma SortedIsSort(a: seq<Addr>, s: seq<Addr>)
    requires Sorted(a) && multiset(a) == multiset(s)
    ensures a == Sort(s)
  {
    SortSorts(s);
    SortedIsUnique(a, Sort(s));
  }

  lemma SortElems(s: seq<Addr>)
    ensures forall x :: x in Sort(s) <==> x in s
    ensures |Sort(s)| == |s|
  {
    SortSorts(s);
    assert |multiset(Sort(s))| == |multiset(s)|;
    forall x
      ensures x in Sort(s) <==> x in s
    {
      assert x in Sort(s) <==> x in multiset(Sort(s));
      assert x in s <==> x in multiset(s);
    }
  }

  lemma MultisetOfPair(s: seq<Addr>, i: nat, j: nat)
    requires i < j < |s|
    ensures multiset(s)[s[i]] >= if s[i] == s[j] then 2 else 1
  {
    assert s == s[..i] + [s[i]] + s[i + 1..j] + [s[j]] + s[j + 1..];
  }

  /** Sorting duplicate-free roots gives a strictly increasing sequence. */
  lemma SortIsStrict(s: seq<Addr>)
    requires forall i, j :: 0 <= i < j < |s| ==> s[i] != s[j]
    ensures StrictlySorted(Sort(s))
  {
    SortSorts(s);
    var t := Sort(s);
    forall i, j | 0 <= i < j < |t|
      ensures t[i] < t[j]
    {
      MultisetOfPair(t, i, j);
      DistinctMultiset(s, t[i]);
    }
  }

  lemma {:induction false} DistinctMultiset(s: seq<Addr>, x: Addr)
    requires forall i, j :: 0 <= i < j < |s| ==> s[i] != s[j]
    ensures multiset(s)[x] <= 1
  {
    if s != [] {
      assert s == [s[0]] + s[1..];
      DistinctMultiset(s[1..], x);
      if s[0] == x {
        assert x !in s[1..];
        assert multiset(s[1..])[x] == 0;
      }
    }
  }

  // ---- The in-place algorithm

  /** Elements low..high are permuted, the rest is untouched. */
  ghost predicate Permuted(s: seq<Addr>, t: seq<Addr>, low: int, high: int) {
    && 0 <= low <= high + 1 <= |s| == |t|
    && t[..low] == s[..low] && t[high + 1..] == s[high + 1..]
    && multiset(t[low..high + 1]) == multiset(s[low..high + 1])
  }

  lemma SlicePieces(s: seq<Addr>, low: int, l: int, h: int, high: int)
    requires 0 <= low <= l <= h <= high <= |s|
    ensures s[low..high] == s[low..l] + s[l..h] + s[h..high]
  {
  }

  /** Permuting a part permutes the whole. */
  lemma PermutedWidens(s: seq<Addr>, t: seq<Addr>, low: int, l: int, h: int, high: int)
    requires 0 <= low <= l <= h + 1 <= high + 1 <= |s| && Permuted(s, t, l, h)
    ensures Permuted(s, t, low, high)
  {
    SlicePieces(s, low, l, h + 1, high + 1);
    SlicePieces(t, low, l, h + 1, high + 1);
    SlicesAgree(s, t, low, l, h, high);
    assert multiset(t[low..high + 1]) == multiset(s[low..l]) + multiset(t[l..h + 1]) + multiset(s[h + 1..high + 1]);
  }

  lemma SlicesAgree(s: seq<Addr>, t: seq<Addr>, low: int, l: int, h: int, high: int)
    requires 0 <= low <= l <= h + 1 <= high + 1 <= |s| == |t|
    requires t[..l] == s[..l] && t[h + 1..] == s[h + 1..]
    ensures t[low..l] == s[low..l] && t[h + 1..high + 1] == s[h + 1..high + 1]
    ensures t[..low] == s[..low] && t[high + 1..] == s[high + 1..]
  {
    assert t[low..l] == t[..l][low..];
    assert s[low..l] == s[..l][low..];
    assert t[h + 1..high + 1] == t[h + 1..][..high - h];
    assert s[h + 1..high + 1] == s[h + 1..][..high - h];
    assert t[..low] == t[..l][..low];
    assert s[..low] == s[..l][..low];
    assert t[high + 1..] == t[h + 1..][high - h..];
    assert s[high + 1..] == s[h + 1..][high - h..];
  }

  lemma PermutedKeepsElems(s: seq<Addr>, t: seq<Addr>, low: int, high: int, k: int) returns (m: int)
    requires Permuted(s, t, low, high) && low <= k <= high
    ensures low <= m <= high && s[m] == t[k]
  {
    assert t[low..high + 1][k - low] == t[k];
    assert t[k] in multiset(t[low..high + 1]);
    assert t[k] in s[low..high + 1];
    var j :| 0 <= j < |s[low..high + 1]| && s[low..high + 1][j] == t[k];
    m := low + j;
  }

  ghost predicate IsSwap(s: seq<Addr>, t: seq<Addr>, i: int, j: int) {
    && 0 <= i < |s| && 0 <= j < |s| && |t| == |s|
    && t[i] == s[j] && t[j] == s[i]
    && forall k :: 0 <= k < |s| && k != i && k != j ==> t[k] == s[k]
  }

  lemma SwapKeepsMultiset(a: seq<Addr>, b: seq<Addr>, p: int, q: int)
    requires p < q && IsSwap(a, b, p, q)
    ensures multiset(b) == multiset(a)
  {
    assert a == a[..p] + [a[p]] + a[p + 1..q] + [a[q]] + a[q + 1..];
    assert b == a[..p] + [a[q]] + a[p + 1..q] + [a[p]] + a[q + 1..];
  }

  lemma SwapPermutes(s: seq<Addr>, t: seq<Addr>, low: int, high: int, i: int, j: int)
    requires 0 <= low <= i <= j <= high < |s| && IsSwap(s, t, i, j)
    ensures Permuted(s, t, low, high)
  {
    if i < j {
      SwapKeepsMultiset(s[low..high + 1], t[low..high + 1], i - low, j - low);
    } else {
      assert t == s;
    }
  }

  lemma PermutedTrans(s: seq<Addr>, t: seq<Addr>, u: seq<Addr>, low: int, high: int)
    requires Permuted(s, t, low, high) && Permuted(t, u, low, high)
    ensures Permuted(s, u, low, high)
  {
  }

  lemma PermutedSelf(s: seq<Addr>, low: int, high: int)
    requires 0 <= low <= high + 1 <= |s|
    ensures Permuted(s, s, low, high)
  {
  }

  method Swap(arr: array<Addr>, first: int, second: int)
    requires 0 <= first < arr.Length && 0 <= second < arr.Length
    modifies arr
    ensures IsSwap(old(arr[..]), arr[..], first, second)
  {
    var tmp := arr[first];
    arr[first] := arr[second];
    arr[second] := tmp;
  }

  /** The pivot ends at p, with smaller elements before it and the others after it. */
  ghost predicate SplitAt(s: seq<Addr>, low: int, high: int, p: int) {
    && 0 <= low <= p <= high < |s|
    && (forall k :: low <= k < p ==> s[k] < s[p])
    && (forall k :: p < k <= high ==> s[p] <= s[k])
  }

  /** Up to i the elements are below the last one, from there to j they are not. */
  ghost predicate Parted(s: seq<Addr>, low: int, i: int, j: int, high: int) {
    && 0 <= low <= i + 1 <= j <= high < |s|
    && (forall k :: low <= k <= i ==> s[k] < s[high])
    && (forall k :: i < k < j ==> s[high] <= s[k])
  }

  /** The partition loop's state: t is s permuted within low..high, parted up to j. */
  ghost predicate Progress(s: seq<Addr>, t: seq<Addr>, low: int, i: int, j: int, high: int) {
    Parted(t, low, i, j, high) && Permuted(s, t, low, high)
  }

  lemma ProgressSkips(s: seq<Addr>, t: seq<Addr>, low: int, i: int, j: int, high: int)
    requires Progress(s, t, low, i, j, high) && j < high && t[high] <= t[j]
    ensures Progress(s, t, low, i, j + 1, high)
  {
    hide Permuted;
  }

  lemma PartedSwaps(t: seq<Addr>, u: seq<Addr>, low: int, i: int, j: int, high: int)
    requires Parted(t, low, i, j, high) && j < high && t[j] < t[high] && IsSwap(t, u, i + 1, j)
    ensures Parted(u, low, i + 1, j + 1, high) && u[high] == t[high]
  {
  }

  lemma ProgressSwaps(s: seq<Addr>, t: seq<Addr>, u: seq<Addr>, low: int, i: int, j: int, high: int)
    requires Progress(s, t, low, i, j, high) && j < high && t[j] < t[high] && IsSwap(t, u, i + 1, j)
    ensures Progress(s, u, low, i + 1, j + 1, high) && u[high] == t[high]
  {
    hide Permuted;
    PartedSwaps(t, u, low, i, j, high);
    SwapPermutes(t, u, low, high, i + 1, j);
    hide Parted;
    PermutedTrans(s, t, u, low, high);
  }

  lemma PartedSplits(t: seq<Addr>, u: seq<Addr>, low: int, i: int, high: int)
    requires Parted(t, low, i, high, high) && IsSwap(t, u, i + 1, high)
    ensures SplitAt(u, low, high, i + 1)
  {
  }

  lemma ProgressEnds(s: seq<Addr>, t: seq<Addr>, u: seq<Addr>, low: int, i: int, high: int)
    requires Progress(s, t, low, i, high, high) && IsSwap(t, u, i + 1, high)
    ensures SplitAt(u, low, high, i + 1) && Permuted(s, u, low, high)
  {
    hide Permuted;
    PartedSplits(t, u, low, i, high);
    SwapPermutes(t, u, low, high, i + 1, high);
    hide Parted;
    PermutedTrans(s, t, u, low, high);
  }

  method Partition(arr: array<Addr>, low: int, high: int) returns (p: int)
    requires 0 <= low <= high < arr.Length
    modifies arr
    ensures SplitAt(arr[..], low, high, p)
    ensures Permuted(old(arr[..]), arr[..], low, high)
  {
    hide SplitAt;
    hide IsSwap;
    ghost var s := arr[..];
    PermutedSelf(s, low, high);
    hide Permuted;
    var pi := arr[high];
    var i := low - 1;
    assert Progress(s, arr[..], low, i, low, high);
    hide Progress;
    for j := low to high
      invariant low - 1 <= i < j
      invariant arr[high] == pi
      invariant Progress(s, arr[..], low, i, j, high)
    {
      ghost var t := arr[..];
      if arr[j] < pi {
        i := i + 1;
        Swap(arr, i, j);
        ProgressSwaps(s, t, arr[..], low, i - 1, j, high);
        assert arr[..][high] == pi;
      } else {
        ProgressSkips(s, t, low, i, j, high);
      }
    }
    ghost var t := arr[..];
    Swap(arr, i + 1, high);
    ProgressEnds(s, t, arr[..], low, i, high);
    p := i + 1;
  }

  ghost predicate SortedWithin(s: seq<Addr>, low: int, high: int) {
    forall i, j :: 0 <= low <= i < j <= high < |s| ==> s[i] <= s[j]
  }

  /** Sorting both sides of a split sorts the whole. */
  lemma SortedSides(s: seq<Addr>, s1: seq<Addr>, s2: seq<Addr>, low: int, high: int, p: int)
    requires SplitAt(s, low, high, p)
    requires Permuted(s, s1, low, p - 1) && SortedWithin(s1, low, p - 1)
    requires Permuted(s1, s2, p + 1, high) && SortedWithin(s2, p + 1, high)
    ensures SortedWithin(s2, low, high) && Permuted(s, s2, low, high)
  {
    PermutedWidens(s, s1, low, low, p - 1, high);
    PermutedWidens(s1, s2, low, p + 1, high, high);
    assert s2[p] == s2[..p + 1][p] == s1[p] == s1[p..][0] == s[p];
    forall k | low <= k < p
      ensures s2[k] == s1[k] && s2[k] < s2[p]
    {
      assert s2[k] == s2[..p + 1][k] == s1[..p + 1][k];
      var m := PermutedKeepsElems(s, s1, low, p - 1, k);
    }
    forall k | p < k <= high
      ensures s2[p] <= s2[k]
    {
      var m := PermutedKeepsElems(s1, s2, p + 1, high, k);
      assert s1[m] == s1[p..][m - p] == s[p..][m - p];
    }
  }

  method QSort(arr: array<Addr>, low: int, high: int)
    requires 0 <= low <= high + 1 <= arr.Length
    modifies arr
    ensures SortedWithin(arr[..], low, high)
    ensures Permuted(old(arr[..]), arr[..], low, high)
    decreases high - low
  {
    if low < high {
      var p := Partition(arr, low, high);
      ghost var s := arr[..];
      QSort(arr, low, p - 1);
      ghost var s1 := arr[..];
      QSort(arr, p + 1, high);
      SortedSides(s, s1, arr[..], low, high, p);
    }
  }

  /** Sorting the first n elements gives the reference sort of them. */
  method QSortPrefix(arr: array<Addr>, n: nat)
    requires n <= arr.Length
    modifies arr
    ensures arr[..n] == Sort(old(arr[..n])) && arr[n..] == old(arr[n..])
  {
    ghost var s := arr[..];
    QSort(arr, 0, n - 1);
    assert arr[..][0..n] == arr[..n] && s[0..n] == s[..n];
    assert arr[..][n..] == arr[n..] && s[n..] == old(arr[n..]);
    forall i, j | 0 <= i < j < n
      ensures arr[..n][i] <= arr[..n][j]
    {
      assert arr[..][i] <= arr[..][j];
    }
    SortedIsSort(arr[..n], s[..n]);
  }
}
