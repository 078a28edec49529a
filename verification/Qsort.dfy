/** `qsort`: insertion sort below eight elements, otherwise a quicksort whose pivot
    stays in the array and is followed by its index. */
module Qsort {
  /** What a caller's comparator must be: a total preorder by the sign of its result. */
  ghost predicate TotalPreorder<T(!new)>(cmp: (T, T) -> int) {
    && (forall x, y :: cmp(x, y) < 0 <==> cmp(y, x) > 0)
    && (forall x, y, z :: cmp(x, y) <= 0 && cmp(y, z) <= 0 ==> cmp(x, z) <= 0)
  }

  ghost predicate Sorted<T(!new)>(s: seq<T>, cmp: (T, T) -> int) {
    forall i, j :: 0 <= i < j < |s| ==> cmp(s[i], s[j]) <= 0
  }

  ghost predicate Permutes<T(!new)>(s: seq<T>, t: seq<T>) {
    multiset(s) == multiset(t)
  }

  /** Every element of `s` is at most every element of `t`. */
  ghost predicate Before<T(!new)>(s: seq<T>, t: seq<T>, cmp: (T, T) -> int) {
    forall x, y :: x in s && y in t ==> cmp(x, y) <= 0
  }

  function Swapped<T>(s: seq<T>, x: nat, y: nat): (r: seq<T>)
    requires x < |s| && y < |s|
    ensures |r| == |s|
  {
    s[x := s[y]][y := s[x]]
  }

  lemma SwapPermutes<T(!new)>(s: seq<T>, x: nat, y: nat)
    requires x < |s| && y < |s|
    ensures Permutes(Swapped(s, x, y), s)
  {
  }

  lemma PermutesSelf<T(!new)>(s: seq<T>)
    ensures Permutes(s, s)
  {
  }

  lemma PermutesTrans<T(!new)>(a: seq<T>, b: seq<T>, c: seq<T>)
    requires Permutes(a, b) && Permutes(b, c)
    ensures |a| == |c| && Permutes(a, c)
  {
    assert |a| == |multiset(a)| == |multiset(c)| == |c|;
  }

  lemma PermutesMembers<T(!new)>(a: seq<T>, b: seq<T>)
    requires Permutes(a, b)
    ensures forall x :: x in a <==> x in b
  {
    forall x ensures x in a <==> x in b {
      assert x in a <==> x in multiset(a);
      assert x in b <==> x in multiset(b);
    }
  }

  lemma PermutesParts<T(!new)>(a: seq<T>, b: seq<T>, a': seq<T>, b': seq<T>)
    requires Permutes(a', a) && Permutes(b', b)
    ensures Permutes(a' + b', a + b)
  {
  }

  /** Sorting both sides of a partition sorts the whole. */
  lemma JoinSorted<T(!new)>(a: seq<T>, b: seq<T>, a': seq<T>, b': seq<T>, cmp: (T, T) -> int)
    requires Before(a, b, cmp) && Permutes(a', a) && Permutes(b', b) && Sorted(a', cmp) && Sorted(b', cmp)
    ensures Sorted(a' + b', cmp)
  {
    PermutesMembers(a', a);
    PermutesMembers(b', b);
    var s := a' + b';
    forall i, j | 0 <= i < j < |s| ensures cmp(s[i], s[j]) <= 0 {
      if i < |a'| <= j { assert a'[i] in a' && b'[j - |a'|] in b'; }
    }
  }

  /** The elements `a[lo..lo + n]`. */
  ghost function Part<T>(a: array<T>, lo: nat, n: nat): (r: seq<T>)
    requires lo + n <= a.Length
    reads a
    ensures |r| == n
  {
    a[lo..lo + n]
  }

  /** `memswap` of two elements of the range. */
  method Swap<T>(a: array<T>, lo: nat, n: nat, x: nat, y: nat)
    requires lo + n <= a.Length && x < n && y < n
    modifies a
    ensures Part(a, lo, n) == Swapped(old(Part(a, lo, n)), x, y)
    ensures Outside(old(a[..]), a[..], lo, n)
  {
    a[lo + x], a[lo + y] := a[lo + y], a[lo + x];
  }

  /** Nothing changed outside the range. */
  ghost predicate Outside<T>(before: seq<T>, after: seq<T>, lo: nat, n: nat) {
    |after| == |before| && forall k :: 0 <= k < |after| && !(lo <= k < lo + n) ==> after[k] == before[k]
  }

  // ---------------------------------------------------------- insertion sort

  /** Sorted up to `i`, except that the element at `j` may be smaller than those before it. */
  ghost predicate Sinking<T(!new)>(s: seq<T>, i: nat, j: nat, cmp: (T, T) -> int) {
    forall x, y :: 0 <= x < y <= i && y < |s| && y != j ==> cmp(s[x], s[y]) <= 0
  }

  lemma SinkStep<T(!new)>(s: seq<T>, i: nat, j: nat, cmp: (T, T) -> int)
    requires TotalPreorder(cmp) && 0 < j <= i < |s| && Sinking(s, i, j, cmp) && cmp(s[j - 1], s[j]) > 0
    ensures Sinking(Swapped(s, j - 1, j), i, j - 1, cmp)
  {
  }

  lemma SinkDone<T(!new)>(s: seq<T>, i: nat, j: nat, cmp: (T, T) -> int)
    requires TotalPreorder(cmp) && j <= i < |s| && Sinking(s, i, j, cmp) && (j == 0 || cmp(s[j - 1], s[j]) <= 0)
    ensures Sinking(s, i, |s|, cmp)
  {
  }

  method Sink<T(!new)>(a: array<T>, lo: nat, n: nat, i: nat, cmp: (T, T) -> int)
    requires lo + n <= a.Length && TotalPreorder(cmp) && 0 < i < n && Sinking(Part(a, lo, n), i - 1, n, cmp)
    modifies a
    ensures Sinking(Part(a, lo, n), i, n, cmp) && Permutes(Part(a, lo, n), old(Part(a, lo, n)))
    ensures Outside(old(a[..]), a[..], lo, n)
  {
    hide TotalPreorder, Permutes, Swapped, Sinking, Outside;
    var j := i;
    PermutesSelf(Part(a, lo, n));
    OutsideSelf(a[..], lo, n);
    SinkStart(Part(a, lo, n), i, cmp);
    while j > 0 && cmp(a[lo + j - 1], a[lo + j]) > 0
      invariant 0 <= j <= i && Sinking(Part(a, lo, n), i, j, cmp)
      invariant Permutes(Part(a, lo, n), old(Part(a, lo, n))) && Outside(old(a[..]), a[..], lo, n)
    {
      ghost var s, whole := Part(a, lo, n), a[..];
      SinkStep(s, i, j, cmp);
      SwapPermutes(s, j - 1, j);
      Swap(a, lo, n, j - 1, j);
      OutsideTrans(old(a[..]), whole, a[..], lo, n);
      PermutesTrans(Part(a, lo, n), s, old(Part(a, lo, n)));
      j := j - 1;
    }
    SinkDone(Part(a, lo, n), i, j, cmp);
  }

  lemma SinkStart<T(!new)>(s: seq<T>, i: nat, cmp: (T, T) -> int)
    requires 0 < i < |s| && Sinking(s, i - 1, |s|, cmp)
    ensures Sinking(s, i, i, cmp)
  {
  }

  /** The short case. */
  method InsertionSort<T(!new)>(a: array<T>, lo: nat, n: nat, cmp: (T, T) -> int)
    requires lo + n <= a.Length && TotalPreorder(cmp) && n > 0
    modifies a
    ensures Sorted(Part(a, lo, n), cmp) && Permutes(Part(a, lo, n), old(Part(a, lo, n)))
    ensures Outside(old(a[..]), a[..], lo, n)
  {
    hide TotalPreorder, Permutes;
    PermutesSelf(Part(a, lo, n));
    for i := 1 to n
      invariant Sinking(Part(a, lo, n), i - 1, n, cmp)
      invariant Permutes(Part(a, lo, n), old(Part(a, lo, n))) && Outside(old(a[..]), a[..], lo, n)
    {
      ghost var s := Part(a, lo, n);
      Sink(a, lo, n, i, cmp);
      PermutesTrans(Part(a, lo, n), s, old(Part(a, lo, n)));
    }
  }

  // -------------------------------------------------------------- partitioning

  /** Left of `i` nothing exceeds the pivot, right of `j` nothing is below it. */
  ghost predicate Split<T(!new)>(s: seq<T>, i: int, j: int, p: T, cmp: (T, T) -> int) {
    && (forall x :: 0 <= x < i && x < |s| ==> cmp(s[x], p) <= 0)
    && (forall x :: 0 <= x < |s| && x > j ==> cmp(s[x], p) >= 0)
  }

  lemma SplitSwap<T(!new)>(s: seq<T>, i: nat, j: nat, p: T, cmp: (T, T) -> int)
    requires TotalPreorder(cmp) && i < j < |s| && Split(s, i, j, p, cmp) && cmp(s[i], p) >= 0 && cmp(s[j], p) <= 0
    ensures Split(Swapped(s, i, j), i + 1, j - 1, p, cmp)
  {
  }

  lemma SplitBefore<T(!new)>(s: seq<T>, i: nat, j: nat, p: T, cmp: (T, T) -> int)
    requires TotalPreorder(cmp) && j <= i && j < |s| && Split(s, i, j, p, cmp) && cmp(s[j], p) <= 0
    ensures Before(s[..j + 1], s[j + 1..], cmp)
  {
  }

  /** The unguarded scan from the left: an element at `stop` that is not below the pivot
      keeps it inside the range. */
  method ScanUp<T(!new)>(a: array<T>, lo: nat, n: nat, start: nat, mid: nat, ghost stop: nat, cmp: (T, T) -> int) returns (i: nat)
    requires lo + n <= a.Length && start <= stop < n && mid < n && cmp(a[lo + stop], a[lo + mid]) >= 0
    ensures start <= i <= stop && cmp(a[lo + i], a[lo + mid]) >= 0 && AllLess(Part(a, lo, n), start, i, a[lo + mid], cmp)
  {
    i := start;
    while cmp(a[lo + i], a[lo + mid]) < 0
      invariant start <= i <= stop && AllLess(Part(a, lo, n), start, i, a[lo + mid], cmp)
      decreases stop - i
    {
      i := i + 1;
    }
  }

  ghost predicate AllLess<T(!new)>(s: seq<T>, from: nat, to: nat, p: T, cmp: (T, T) -> int) {
    forall x :: from <= x < to && x < |s| ==> cmp(s[x], p) < 0
  }

  ghost predicate AllGreater<T(!new)>(s: seq<T>, from: nat, to: nat, p: T, cmp: (T, T) -> int) {
    forall x :: from < x <= to && x < |s| ==> cmp(s[x], p) > 0
  }

  method ScanDown<T(!new)>(a: array<T>, lo: nat, n: nat, start: nat, mid: nat, ghost stop: nat, cmp: (T, T) -> int) returns (j: nat)
    requires lo + n <= a.Length && stop <= start < n && mid < n && cmp(a[lo + stop], a[lo + mid]) <= 0
    ensures stop <= j <= start && cmp(a[lo + j], a[lo + mid]) <= 0 && AllGreater(Part(a, lo, n), j, start, a[lo + mid], cmp)
  {
    j := start;
    while cmp(a[lo + j], a[lo + mid]) > 0
      invariant stop <= j <= start && AllGreater(Part(a, lo, n), j, start, a[lo + mid], cmp)
      decreases j
    {
      j := j - 1;
    }
  }

  /** Both scans of one turn. */
  method Scan<T(!new)>(a: array<T>, lo: nat, n: nat, i: nat, j: nat, mid: nat, cmp: (T, T) -> int) returns (i': nat, j': nat)
    requires lo + n <= a.Length && TotalPreorder(cmp) && i <= j + 1 && j < n && i < n && mid < n
    requires Split(Part(a, lo, n), i, j, a[lo + mid], cmp)
    requires if j == n - 1 then i == 0 else i > 0
    ensures i <= i' < n && j' <= j && (j == n - 1 ==> i' <= mid)
    ensures var s, p := Part(a, lo, n), a[lo + mid]; Split(s, i', j', p, cmp) && cmp(s[i'], p) >= 0 && cmp(s[j'], p) <= 0
  {
    ghost var s, p := Part(a, lo, n), a[lo + mid];
    SplitEnds(s, i, j, p, cmp);
    hide Split, TotalPreorder, AllLess, AllGreater;
    ghost var up: nat, down: nat := if j == n - 1 then mid else j + 1, if j == n - 1 then mid else i - 1;
    assert s[up] == a[lo + up] && s[down] == a[lo + down];
    i' := ScanUp(a, lo, n, i, mid, up, cmp);
    j' := ScanDown(a, lo, n, j, mid, down, cmp);
    SplitScan(s, i, j, i', j', p, cmp);
  }

  /** The swap of one turn; the pivot is followed to its new place. */
  method Exchange<T(!new)>(a: array<T>, lo: nat, n: nat, i: nat, j: nat, mid: nat, cmp: (T, T) -> int) returns (mid': nat)
    requires lo + n <= a.Length && TotalPreorder(cmp) && i < j < n && mid < n
    requires var s, p := Part(a, lo, n), a[lo + mid]; Split(s, i, j, p, cmp) && cmp(s[i], p) >= 0 && cmp(s[j], p) <= 0
    modifies a
    ensures mid' < n && a[lo + mid'] == old(a[lo + mid])
    ensures Split(Part(a, lo, n), i + 1, j - 1, old(a[lo + mid]), cmp)
    ensures Permutes(Part(a, lo, n), old(Part(a, lo, n))) && Outside(old(a[..]), a[..], lo, n)
  {
    hide Permutes, Split, Outside, TotalPreorder;
    ghost var s := Part(a, lo, n);
    SplitSwap(s, i, j, a[lo + mid], cmp);
    SwapPermutes(s, i, j);
    Swap(a, lo, n, i, j);
    mid' := mid;
    if mid == i { mid' := j; } else if mid == j { mid' := i; }
    assert Part(a, lo, n)[mid'] == s[mid];
  }

  /** The partitioning loop: both sides are shorter than the range. */
  method Partition<T(!new)>(a: array<T>, lo: nat, n: nat, cmp: (T, T) -> int) returns (j: nat)
    requires lo + n <= a.Length && TotalPreorder(cmp) && n >= 8
    modifies a
    ensures j + 1 < n && Before(Part(a, lo, n)[..j + 1], Part(a, lo, n)[j + 1..], cmp)
    ensures Permutes(Part(a, lo, n), old(Part(a, lo, n)))
    ensures Outside(old(a[..]), a[..], lo, n)
  {
    hide Permutes, Split, Outside, TotalPreorder, Before, Part;
    var mid: nat, i: nat := n / 2, 0;
    j := n - 1;
    ghost var p := a[lo + mid];
    PermutesSelf(Part(a, lo, n));
    OutsideSelf(a[..], lo, n);
    SplitStart(Part(a, lo, n), p, cmp);
    while true
      invariant i <= j + 1 && j < n && i < n && mid < n && a[lo + mid] == p
      invariant Split(Part(a, lo, n), i, j, p, cmp)
      invariant j == n - 1 ==> i == 0 && mid == n / 2
      invariant j < n - 1 ==> i > 0
      invariant Permutes(Part(a, lo, n), old(Part(a, lo, n))) && Outside(old(a[..]), a[..], lo, n)
      decreases j + 1 - i
    {
      ghost var s, whole := Part(a, lo, n), a[..];
      i, j := Scan(a, lo, n, i, j, mid, cmp);
      if i >= j { break; }
      mid := Exchange(a, lo, n, i, j, mid, cmp);
      PermutesTrans(Part(a, lo, n), s, old(Part(a, lo, n)));
      OutsideTrans(old(a[..]), whole, a[..], lo, n);
      i := i + 1;
      if j > 0 { j := j - 1; }
    }
    SplitBefore(Part(a, lo, n), i, j, p, cmp);
  }

  lemma OutsideSelf<T>(s: seq<T>, lo: nat, n: nat)
    ensures Outside(s, s, lo, n)
  {
  }

  lemma OutsideTrans<T>(a: seq<T>, b: seq<T>, c: seq<T>, lo: nat, n: nat)
    requires Outside(a, b, lo, n) && Outside(b, c, lo, n)
    ensures Outside(a, c, lo, n)
  {
  }

  lemma OutsideWiden<T>(a: seq<T>, b: seq<T>, lo: nat, n: nat, lo': nat, n': nat)
    requires Outside(a, b, lo', n') && lo <= lo' && lo' + n' <= lo + n
    ensures Outside(a, b, lo, n)
  {
  }

  lemma OutsideKeeps<T>(a: seq<T>, b: seq<T>, lo: nat, n: nat, lo': nat, n': nat)
    requires Outside(a, b, lo, n) && lo' + n' <= |a| && (lo' + n' <= lo || lo + n <= lo')
    ensures |b| == |a| && b[lo'..lo' + n'] == a[lo'..lo' + n']
  {
  }

  lemma SplitStart<T(!new)>(s: seq<T>, p: T, cmp: (T, T) -> int)
    ensures Split(s, 0, |s| - 1, p, cmp)
  {
  }

  /** The elements next to the open range stop the scans. */
  lemma SplitEnds<T(!new)>(s: seq<T>, i: nat, j: nat, p: T, cmp: (T, T) -> int)
    requires TotalPreorder(cmp) && Split(s, i, j, p, cmp) && i <= |s|
    ensures cmp(p, p) == 0
    ensures j + 1 < |s| ==> cmp(s[j + 1], p) >= 0
    ensures i > 0 ==> cmp(s[i - 1], p) <= 0
  {
  }

  lemma SplitScan<T(!new)>(s: seq<T>, i: nat, j: nat, i': nat, j': nat, p: T, cmp: (T, T) -> int)
    requires Split(s, i, j, p, cmp) && i <= i' && j' <= j < |s|
    requires AllLess(s, i, i', p, cmp) && AllGreater(s, j', j, p, cmp)
    ensures Split(s, i', j', p, cmp)
  {
  }

  /** `qsort`: a sorted permutation of the range, and nothing else changes. */
  method Sort<T(!new)>(a: array<T>, lo: nat, n: nat, cmp: (T, T) -> int)
    requires lo + n <= a.Length && TotalPreorder(cmp)
    modifies a
    ensures Sorted(Part(a, lo, n), cmp) && Permutes(Part(a, lo, n), old(Part(a, lo, n)))
    ensures Outside(old(a[..]), a[..], lo, n)
    decreases n, 1
  {
    hide TotalPreorder, Permutes, Before, Outside;
    if n < 2 {
      PermutesSelf(Part(a, lo, n));
      OutsideSelf(a[..], lo, n);
      return;
    }
    if n < 8 {
      InsertionSort(a, lo, n, cmp);
    } else {
      QuickSort(a, lo, n, cmp);
    }
  }

  /** The long case: partition, then both sides. */
  method QuickSort<T(!new)>(a: array<T>, lo: nat, n: nat, cmp: (T, T) -> int)
    requires lo + n <= a.Length && TotalPreorder(cmp) && n >= 8
    modifies a
    ensures Sorted(Part(a, lo, n), cmp) && Permutes(Part(a, lo, n), old(Part(a, lo, n)))
    ensures Outside(old(a[..]), a[..], lo, n)
    decreases n, 0
  {
    hide TotalPreorder, Permutes, Before, Outside, Sorted;
    var j := Partition(a, lo, n, cmp);
    ghost var s, whole := Part(a, lo, n), a[..];
    Halves(a[..], lo, n, j + 1);
    SortHalves(a, lo, n, j + 1, cmp);
    PermutesTrans(Part(a, lo, n), s, old(Part(a, lo, n)));
    OutsideTrans(old(a[..]), whole, a[..], lo, n);
  }

  method SortHalves<T(!new)>(a: array<T>, lo: nat, n: nat, k: nat, cmp: (T, T) -> int)
    requires lo + n <= a.Length && TotalPreorder(cmp) && 0 < k < n
    requires Before(a[lo..lo + k], a[lo + k..lo + k + (n - k)], cmp)
    modifies a
    ensures Sorted(Part(a, lo, n), cmp) && Permutes(Part(a, lo, n), old(Part(a, lo, n)))
    ensures Outside(old(a[..]), a[..], lo, n)
    decreases n - 1, 2
  {
    hide TotalPreorder, Permutes, Before, Outside, Sorted;
    Sort(a, lo, k, cmp);
    ghost var middle := a[..];
    Sort(a, lo + k, n - k, cmp);
    HalvesSorted(old(a[..]), middle, a[..], lo, n, k, cmp);
  }

  /** Both sides sorted one after the other. */
  lemma HalvesSorted<T(!new)>(w1: seq<T>, w2: seq<T>, w3: seq<T>, lo: nat, n: nat, k: nat, cmp: (T, T) -> int)
    requires lo + n <= |w1| && 0 < k < n && Outside(w1, w2, lo, k) && Outside(w2, w3, lo + k, n - k) && |w1| == |w2| == |w3|
    requires Before(w1[lo..lo + k], w1[lo + k..lo + k + (n - k)], cmp)
    requires Sorted(w2[lo..lo + k], cmp) && Permutes(w2[lo..lo + k], w1[lo..lo + k])
    requires Sorted(w3[lo + k..lo + k + (n - k)], cmp) && Permutes(w3[lo + k..lo + k + (n - k)], w2[lo + k..lo + k + (n - k)])
    ensures Sorted(w3[lo..lo + n], cmp) && Permutes(w3[lo..lo + n], w1[lo..lo + n]) && Outside(w1, w3, lo, n)
  {
    hide Permutes, Before, Outside, Sorted;
    OutsideKeeps(w1, w2, lo, k, lo + k, n - k);
    OutsideKeeps(w2, w3, lo + k, n - k, lo, k);
    OutsideWiden(w1, w2, lo, n, lo, k);
    OutsideWiden(w2, w3, lo, n, lo + k, n - k);
    OutsideTrans(w1, w2, w3, lo, n);
    Halves(w1, lo, n, k);
    Halves(w3, lo, n, k);
    JoinSorted(w1[lo..lo + k], w1[lo + k..lo + k + (n - k)], w3[lo..lo + k], w3[lo + k..lo + k + (n - k)], cmp);
    PermutesParts(w1[lo..lo + k], w1[lo + k..lo + k + (n - k)], w3[lo..lo + k], w3[lo + k..lo + k + (n - k)]);
  }

  lemma Halves<T>(w: seq<T>, lo: nat, n: nat, k: nat)
    requires lo + n <= |w| && k <= n
    ensures w[lo..lo + n][..k] == w[lo..lo + k] && w[lo..lo + n][k..] == w[lo + k..lo + k + (n - k)]
    ensures w[lo..lo + n] == w[lo..lo + k] + w[lo + k..lo + k + (n - k)]
  {
  }
}
