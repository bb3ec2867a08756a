/**
 * Merge sort as a step-producing generator (static/js/algorithms/mergeSort.js):
 * top-down recursion, and a merge that copies both halves out and writes
 * the merged values back one index at a time, counting every write as a swap.
 */
module Merge {
  import opened Snapshots
  import opened Stepper

  /** The stable merge of two runs: on a tie the left run's value goes first (`<=`). */
  function Merged(xs: seq<int>, ys: seq<int>): (m: seq<int>)
    ensures |m| == |xs| + |ys|
  {
    if |xs| == 0 then ys
    else if |ys| == 0 then xs
    else if xs[0] <= ys[0] then [xs[0]] + Merged(xs[1..], ys)
    else [ys[0]] + Merged(xs, ys[1..])
  }

  /** Number of comparisons the merge makes: one per value placed while both runs are non-empty. */
  function MergeComparisons(xs: seq<int>, ys: seq<int>): (c: nat)
    ensures |xs| == 0 || |ys| == 0 <==> c == 0
  {
    if |xs| == 0 || |ys| == 0 then 0
    else if xs[0] <= ys[0] then 1 + MergeComparisons(xs[1..], ys)
    else 1 + MergeComparisons(xs, ys[1..])
  }

  /** `v` is at most every element of `s`. */
  ghost predicate LowerBound(v: int, s: seq<int>) {
    forall k :: 0 <= k < |s| ==> v <= s[k]
  }

  /** Putting the head of `s` in front of `m` adds it back to what `m` holds. */
  lemma ConsMultiset(s: seq<int>, m: seq<int>, rest: multiset<int>)
    requires |s| > 0 && multiset(m) == multiset(s[1..]) + rest
    ensures multiset([s[0]] + m) == multiset(s) + rest
  {
    assert s == [s[0]] + s[1..];
  }

  lemma {:induction false} MergedPermutes(xs: seq<int>, ys: seq<int>)
    ensures multiset(Merged(xs, ys)) == multiset(xs) + multiset(ys)
    decreases |xs| + |ys|
  {
    if |xs| > 0 && |ys| > 0 {
      if xs[0] <= ys[0] {
        MergedPermutes(xs[1..], ys);
        ConsMultiset(xs, Merged(xs[1..], ys), multiset(ys));
      } else {
        MergedPermutes(xs, ys[1..]);
        ConsMultiset(ys, Merged(xs, ys[1..]), multiset(xs));
      }
    }
  }

  lemma {:induction false} MergedBound(v: int, xs: seq<int>, ys: seq<int>)
    requires LowerBound(v, xs) && LowerBound(v, ys)
    ensures LowerBound(v, Merged(xs, ys))
    decreases |xs| + |ys|
  {
    if |xs| > 0 && |ys| > 0 {
      if xs[0] <= ys[0] {
        MergedBound(v, xs[1..], ys);
      } else {
        MergedBound(v, xs, ys[1..]);
      }
    }
  }

  /** A value placed in front of a sorted sequence it bounds from below keeps it sorted. */
  lemma ConsSorted(v: int, s: seq<int>)
    requires IsSorted(s) && LowerBound(v, s)
    ensures IsSorted([v] + s)
  {
    var u := [v] + s;
    forall q | 0 <= q < |u|
      ensures TopOf(u, q)
    {
      forall p | 0 <= p < q
        ensures u[p] <= u[q]
      {
        if p > 0 {
          SortedAt(s, p - 1, q - 1);
        }
      }
    }
  }

  /** The head of a sorted sequence bounds its tail. */
  lemma HeadBound(s: seq<int>)
    requires IsSorted(s) && |s| > 0
    ensures LowerBound(s[0], s[1..]) && IsSorted(s[1..])
  {
    forall k | 0 <= k < |s| - 1
      ensures s[0] <= s[1..][k]
    {
      SortedAt(s, 0, k + 1);
    }
    SortedTail(s);
  }

  /** Merging two sorted runs gives a sorted run. */
  lemma {:induction false} MergedSorted(xs: seq<int>, ys: seq<int>)
    requires IsSorted(xs) && IsSorted(ys)
    ensures IsSorted(Merged(xs, ys))
    decreases |xs| + |ys|
  {
    if |xs| > 0 && |ys| > 0 {
      HeadBound(xs);
      HeadBound(ys);
      if xs[0] <= ys[0] {
        MergedSorted(xs[1..], ys);
        assert LowerBound(xs[0], ys);
        MergedBound(xs[0], xs[1..], ys);
        ConsSorted(xs[0], Merged(xs[1..], ys));
      } else {
        MergedSorted(xs, ys[1..]);
        assert LowerBound(ys[0], xs);
        MergedBound(ys[0], xs, ys[1..]);
        ConsSorted(ys[0], Merged(xs, ys[1..]));
      }
    }
  }

  /**
   * A merge of two non-empty runs compares at least as many times as the
   * shorter run is long and at most once per value but the last.
   */
  lemma {:induction false} MergeComparisonsBounds(xs: seq<int>, ys: seq<int>)
    ensures MergeComparisons(xs, ys) <= if |xs| == 0 || |ys| == 0 then 0 else |xs| + |ys| - 1
    ensures MergeComparisons(xs, ys) >= if |xs| <= |ys| then |xs| else |ys|
    decreases |xs| + |ys|
  {
    if |xs| > 0 && |ys| > 0 {
      if xs[0] <= ys[0] {
        MergeComparisonsBounds(xs[1..], ys);
      } else {
        MergeComparisonsBounds(xs, ys[1..]);
      }
    }
  }

  /** When the head of `xs` goes first, the merge starts with it. */
  lemma MergedTakesLeft(xs: seq<int>, ys: seq<int>)
    requires |xs| > 0 && (|ys| == 0 || xs[0] <= ys[0])
    ensures Merged(xs, ys) == [xs[0]] + Merged(xs[1..], ys)
  {
    if |ys| == 0 {
      MergedLeftOnly(xs, ys);
    }
  }

  /** With the right run empty, the merge is the left run, head first. */
  lemma MergedLeftOnly(xs: seq<int>, ys: seq<int>)
    requires |xs| > 0 && |ys| == 0
    ensures Merged(xs, ys) == [xs[0]] + Merged(xs[1..], ys)
  {
    MergedNoRight(xs, ys);
    MergedNoRight(xs[1..], ys);
    assert xs == [xs[0]] + xs[1..];
  }

  /** Merging with an empty right run gives the left run. */
  lemma MergedNoRight(xs: seq<int>, ys: seq<int>)
    requires |ys| == 0
    ensures Merged(xs, ys) == xs
  {
    if |xs| == 0 {
      assert xs == ys;
    }
  }

  /** When the head of `ys` goes first, the merge starts with it. */
  lemma MergedTakesRight(xs: seq<int>, ys: seq<int>)
    requires |ys| > 0 && (|xs| == 0 || ys[0] < xs[0])
    ensures Merged(xs, ys) == [ys[0]] + Merged(xs, ys[1..])
  {
    if |xs| == 0 {
      assert ys == [ys[0]] + ys[1..];
    }
  }

  /**
   * The merge of `xs` and `ys` written into `a` one index at a time from `k`
   * on: the head of `xs` while `ys` is used up or its head is not smaller,
   * otherwise the head of `ys`.
   */
  function MergeInto(a: seq<int>, xs: seq<int>, ys: seq<int>, k: int): (r: seq<int>)
    requires 0 <= k && k + |xs| + |ys| <= |a|
    ensures |r| == |a|
    decreases |xs| + |ys|
  {
    if |xs| == 0 && |ys| == 0 then a
    else if |ys| == 0 || (|xs| > 0 && xs[0] <= ys[0]) then MergeInto(a[k := xs[0]], xs[1..], ys, k + 1)
    else MergeInto(a[k := ys[0]], xs, ys[1..], k + 1)
  }

  /** Writing the merge from `k` on leaves `Merged(xs, ys)` there and every other index alone. */
  lemma {:induction false} MergeIntoAt(a: seq<int>, xs: seq<int>, ys: seq<int>, k: int, p: int)
    requires 0 <= k && k + |xs| + |ys| <= |a| && 0 <= p < |a|
    ensures MergeInto(a, xs, ys, k)[p] == if k <= p < k + |xs| + |ys| then Merged(xs, ys)[p - k] else a[p]
    decreases |xs| + |ys|
  {
    if |xs| == 0 && |ys| == 0 {
    } else if |ys| == 0 || (|xs| > 0 && xs[0] <= ys[0]) {
      MergeIntoAt(a[k := xs[0]], xs[1..], ys, k + 1, p);
      MergedTakesLeft(xs, ys);
    } else {
      MergeIntoAt(a[k := ys[0]], xs, ys[1..], k + 1, p);
      MergedTakesRight(xs, ys);
    }
  }

  /** Two sequences that agree on `[lo, hi)` have the same slice there. */
  lemma SameSlice(x: seq<int>, y: seq<int>, lo: int, hi: int)
    requires 0 <= lo <= hi <= |x| && hi <= |y|
    requires forall p :: lo <= p < hi ==> x[p] == y[p]
    ensures x[lo..hi] == y[lo..hi]
  {
  }

  /**
   * What `merge(left, mid, right)` leaves in the array `a`: the runs
   * `a[left..mid]` and `a[mid+1..right]` merged back over `[left, right]`.
   */
  function MergeRange(a: seq<int>, left: int, mid: int, right: int): (r: seq<int>)
    requires 0 <= left <= mid < right < |a|
    ensures |r| == |a|
  {
    MergeFrom(a, a, left, mid + 1, mid, right, left)
  }

  /**
   * The three loops of `merge` with its own cursors: `src[i]` heads the left
   * run `src[i..mid]`, `src[j]` the right run `src[j..right]`, and `k` is the
   * next index of `a` to write.
   */
  function MergeFrom(a: seq<int>, src: seq<int>, i: int, j: int, mid: int, right: int, k: int): (r: seq<int>)
    requires 0 <= i <= mid + 1 <= j <= right + 1 <= |src| && 0 <= k
    requires k + (mid + 1 - i) + (right + 1 - j) <= |a|
    ensures |r| == |a|
    decreases (mid + 1 - i) + (right + 1 - j)
  {
    if i > mid && j > right then a
    else if j > right || (i <= mid && src[i] <= src[j]) then MergeFrom(a[k := src[i]], src, i + 1, j, mid, right, k + 1)
    else MergeFrom(a[k := src[j]], src, i, j + 1, mid, right, k + 1)
  }

  /** The cursor form and the run form of the array-level merge agree. */
  lemma {:induction false} MergeFromIsMergeInto(a: seq<int>, src: seq<int>, i: int, j: int, mid: int, right: int, k: int)
    requires 0 <= i <= mid + 1 <= j <= right + 1 <= |src| && 0 <= k
    requires k + (mid + 1 - i) + (right + 1 - j) <= |a|
    ensures MergeFrom(a, src, i, j, mid, right, k) == MergeInto(a, src[i..mid + 1], src[j..right + 1], k)
    decreases (mid + 1 - i) + (right + 1 - j)
  {
    var xs, ys := src[i..mid + 1], src[j..right + 1];
    if i > mid && j > right {
    } else if j > right || (i <= mid && src[i] <= src[j]) {
      MergeFromIsMergeInto(a[k := src[i]], src, i + 1, j, mid, right, k + 1);
      assert xs[0] == src[i] && xs[1..] == src[i + 1..mid + 1];
    } else {
      MergeFromIsMergeInto(a[k := src[j]], src, i, j + 1, mid, right, k + 1);
      assert ys[0] == src[j] && ys[1..] == src[j + 1..right + 1];
    }
  }

  /** `merge(left, mid, right)` is the array-level merge of its two runs. */
  lemma MergeRangeIsMergeInto(a: seq<int>, left: int, mid: int, right: int)
    requires 0 <= left <= mid < right < |a|
    ensures MergeRange(a, left, mid, right) == MergeInto(a, a[left..mid + 1], a[mid + 1..right + 1], left)
  {
    MergeFromIsMergeInto(a, a, left, mid + 1, mid, right, left);
  }

  /** `merge` only changes `[left, right]`. */
  lemma MergeRangeAt(a: seq<int>, left: int, mid: int, right: int, p: int)
    requires 0 <= left <= mid < right < |a| && 0 <= p < |a| && (p < left || right < p)
    ensures MergeRange(a, left, mid, right)[p] == a[p]
  {
    MergeRangeIsMergeInto(a, left, mid, right);
    MergeIntoAt(a, a[left..mid + 1], a[mid + 1..right + 1], left, p);
  }

  /** `merge` leaves the stable merge of the two runs in `[left, right]`. */
  lemma MergeRangeSlice(a: seq<int>, left: int, mid: int, right: int)
    requires 0 <= left <= mid < right < |a|
    ensures MergeRange(a, left, mid, right)[left..right + 1] == Merged(a[left..mid + 1], a[mid + 1..right + 1])
  {
    var xs, ys := a[left..mid + 1], a[mid + 1..right + 1];
    var w := MergeRange(a, left, mid, right);
    MergeRangeIsMergeInto(a, left, mid, right);
    forall q | 0 <= q < right + 1 - left
      ensures w[left..right + 1][q] == Merged(xs, ys)[q]
    {
      MergeIntoAt(a, xs, ys, left, q + left);
    }
  }

  /**
   * What `mergeSortRecursive(left, right)` leaves in the array `a`: split at
   * `mid = floor((left + right) / 2)`, sort `[left, mid]`, then `[mid+1, right]`
   * in what the first call left, then merge them.
   */
  function SortRange(a: seq<int>, left: int, right: int): (r: seq<int>)
    requires 0 <= left && right < |a| && left <= right + 1
    ensures |r| == |a|
    decreases right - left
  {
    if left >= right then a
    else
      var mid := (left + right) / 2;
      MergeRange(SortRange(SortRange(a, left, mid), mid + 1, right), left, mid, right)
  }

  /** Writes made by `mergeSortRecursive(left, right)`: every merge writes its whole range. */
  function RangeWrites(left: int, right: int): nat
    decreases right - left
  {
    if left >= right then 0
    else
      var mid := (left + right) / 2;
      RangeWrites(left, mid) + RangeWrites(mid + 1, right) + (right - left + 1)
  }

  /** One level of the recursion, with the intermediate arrays named. */
  lemma SortRangeStep(a0: seq<int>, a1: seq<int>, a2: seq<int>, left: int, mid: int, right: int)
    requires 0 <= left < right < |a0| && mid == (left + right) / 2
    requires a1 == SortRange(a0, left, mid) && a2 == SortRange(a1, mid + 1, right)
    ensures SortRange(a0, left, right) == MergeRange(a2, left, mid, right)
  {
  }

  /** The midpoint splits a range of two or more into two non-empty halves. */
  lemma MidBounds(left: int, right: int)
    requires left < right
    ensures left <= (left + right) / 2 < right
  {
  }

  lemma RangeWritesStep(left: int, mid: int, right: int)
    requires left < right && mid == (left + right) / 2
    ensures RangeWrites(left, right) == RangeWrites(left, mid) + RangeWrites(mid + 1, right) + (right - left + 1)
  {
  }

  /** The recursion only changes `a` inside `[left, right]`. */
  lemma {:induction false} SortRangeFrame(a: seq<int>, left: int, right: int, p: int)
    requires 0 <= left && right < |a| && left <= right + 1
    requires 0 <= p < |a| && (p < left || right < p)
    ensures SortRange(a, left, right)[p] == a[p]
    decreases right - left
  {
    if left < right {
      var mid := (left + right) / 2;
      var a1 := SortRange(a, left, mid);
      var a2 := SortRange(a1, mid + 1, right);
      SortRangeFrame(a, left, mid, p);
      SortRangeFrame(a1, mid + 1, right, p);
      SortRangeStep(a, a1, a2, left, mid, right);
      FrameStep(a, a1, a2, left, mid, right, p);
    }
  }

  /** One level of the recursion: both sorted halves and the merge keep `p` when it lies outside `[left, right]`. */
  lemma FrameStep(a: seq<int>, a1: seq<int>, a2: seq<int>, left: int, mid: int, right: int, p: int)
    requires 0 <= left <= mid < right < |a2| && 0 <= p < |a2| && (p < left || right < p)
    requires |a| == |a1| == |a2| && a1[p] == a[p] && a2[p] == a1[p]
    ensures MergeRange(a2, left, mid, right)[p] == a[p]
  {
    MergeRangeAt(a2, left, mid, right, p);
  }

  /**
   * The two halves as `merge` finds them: the left one as the first recursive
   * call left it, the right one sorted from the original.
   */
  lemma HalvesBeforeMerge(a: seq<int>, left: int, mid: int, right: int)
    requires 0 <= left <= mid < right < |a|
    ensures var a1 := SortRange(a, left, mid);
      var a2 := SortRange(a1, mid + 1, right);
      a2[left..mid + 1] == a1[left..mid + 1] && a1[mid + 1..right + 1] == a[mid + 1..right + 1]
  {
    var a1 := SortRange(a, left, mid);
    var a2 := SortRange(a1, mid + 1, right);
    forall p | left <= p < mid + 1
      ensures a2[p] == a1[p]
    {
      SortRangeFrame(a1, mid + 1, right, p);
    }
    forall p | mid + 1 <= p < right + 1
      ensures a1[p] == a[p]
    {
      SortRangeFrame(a, left, mid, p);
    }
    SameSlice(a2, a1, left, mid + 1);
    SameSlice(a1, a, mid + 1, right + 1);
  }

  lemma SliceSplit(a: seq<int>, lo: int, mid: int, hi: int)
    requires 0 <= lo <= mid <= hi <= |a|
    ensures a[lo..hi] == a[lo..mid] + a[mid..hi]
  {
  }

  /** Merging two sorted runs leaves `[left, right]` sorted. */
  lemma MergeRangeSorts(a: seq<int>, left: int, mid: int, right: int)
    requires 0 <= left <= mid < right < |a|
    requires IsSorted(a[left..mid + 1]) && IsSorted(a[mid + 1..right + 1])
    ensures IsSorted(MergeRange(a, left, mid, right)[left..right + 1])
  {
    MergeRangeSlice(a, left, mid, right);
    MergedSorted(a[left..mid + 1], a[mid + 1..right + 1]);
  }

  /** Merging leaves in `[left, right]` the values of both runs. */
  lemma MergeRangePermutes(a: seq<int>, left: int, mid: int, right: int)
    requires 0 <= left <= mid < right < |a|
    ensures multiset(MergeRange(a, left, mid, right)[left..right + 1])
      == multiset(a[left..mid + 1]) + multiset(a[mid + 1..right + 1])
  {
    MergeRangeSlice(a, left, mid, right);
    MergedPermutes(a[left..mid + 1], a[mid + 1..right + 1]);
  }

  /**
   * One level of the recursion keeps the values of `[left, right]`: each
   * recursive call kept those of its half, and the merge keeps both.
   */
  lemma MergeStepPermutes(a: seq<int>, a1: seq<int>, a2: seq<int>, left: int, mid: int, right: int)
    requires 0 <= left <= mid < right < |a| && |a1| == |a| && |a2| == |a|
    requires a2[left..mid + 1] == a1[left..mid + 1] && a1[mid + 1..right + 1] == a[mid + 1..right + 1]
    requires multiset(a1[left..mid + 1]) == multiset(a[left..mid + 1])
    requires multiset(a2[mid + 1..right + 1]) == multiset(a1[mid + 1..right + 1])
    ensures multiset(MergeRange(a2, left, mid, right)[left..right + 1]) == multiset(a[left..right + 1])
  {
    MergeRangePermutes(a2, left, mid, right);
    SliceSplit(a, left, mid + 1, right + 1);
  }

  /** The recursion leaves `[left, right]` sorted. */
  lemma {:induction false} SortRangeSorted(a: seq<int>, left: int, right: int)
    requires 0 <= left && right < |a| && left <= right + 1
    ensures IsSorted(SortRange(a, left, right)[left..right + 1])
    decreases right - left
  {
    if left < right {
      var mid := (left + right) / 2;
      var a1 := SortRange(a, left, mid);
      var a2 := SortRange(a1, mid + 1, right);
      SortRangeSorted(a, left, mid);
      SortRangeSorted(a1, mid + 1, right);
      HalvesBeforeMerge(a, left, mid, right);
      SortRangeStep(a, a1, a2, left, mid, right);
      MergeRangeSorts(a2, left, mid, right);
    } else if left == right {
      assert TopOf(a[left..right + 1], 0);
    }
  }

  /** The recursion leaves in `[left, right]` the values it held before. */
  lemma {:induction false} SortRangePermutes(a: seq<int>, left: int, right: int)
    requires 0 <= left && right < |a| && left <= right + 1
    ensures multiset(SortRange(a, left, right)[left..right + 1]) == multiset(a[left..right + 1])
    decreases right - left
  {
    if left < right {
      var mid := (left + right) / 2;
      var a1 := SortRange(a, left, mid);
      var a2 := SortRange(a1, mid + 1, right);
      SortRangePermutes(a, left, mid);
      SortRangePermutes(a1, mid + 1, right);
      HalvesBeforeMerge(a, left, mid, right);
      SortRangeStep(a, a1, a2, left, mid, right);
      MergeStepPermutes(a, a1, a2, left, mid, right);
    }
  }

  /**
   * The comparisons the first loop of `merge` makes, in the cursor form of
   * `MergeFrom`: one for every value placed while both runs have values left.
   */
  function MergeComparisonsFrom(src: seq<int>, i: int, j: int, mid: int, right: int): nat
    requires 0 <= i <= mid + 1 <= j <= right + 1 <= |src|
    decreases (mid + 1 - i) + (right + 1 - j)
  {
    if i > mid || j > right then 0
    else if src[i] <= src[j] then 1 + MergeComparisonsFrom(src, i + 1, j, mid, right)
    else 1 + MergeComparisonsFrom(src, i, j + 1, mid, right)
  }

  /** The cursor form and the run form of the comparison count agree. */
  lemma {:induction false} MergeComparisonsFromRuns(src: seq<int>, i: int, j: int, mid: int, right: int)
    requires 0 <= i <= mid + 1 <= j <= right + 1 <= |src|
    ensures MergeComparisonsFrom(src, i, j, mid, right) == MergeComparisons(src[i..mid + 1], src[j..right + 1])
    decreases (mid + 1 - i) + (right + 1 - j)
  {
    var xs, ys := src[i..mid + 1], src[j..right + 1];
    if i > mid || j > right {
    } else if src[i] <= src[j] {
      MergeComparisonsFromRuns(src, i + 1, j, mid, right);
      assert xs[0] == src[i] && ys[0] == src[j] && xs[1..] == src[i + 1..mid + 1];
    } else {
      MergeComparisonsFromRuns(src, i, j + 1, mid, right);
      assert xs[0] == src[i] && ys[0] == src[j] && ys[1..] == src[j + 1..right + 1];
    }
  }

  /**
   * One iteration of the first loop of `merge`: compare the heads
   * `leftRun[i]` and `rightRun[j]`, write the smaller (the left one on a tie)
   * to `array[k]` with `k = left + i + j`, and move past it. `src` is the
   * array when the merge began and `target` what the whole merge leaves.
   */
  method PlaceNext(r: Run, left: int, mid: int, right: int, leftRun: seq<int>, rightRun: seq<int>, i: int, j: int,
                   ghost src: seq<int>, ghost target: seq<int>) returns (i': int, j': int)
    requires r.Valid() && 0 <= left <= mid < right < r.a.Length && |src| == r.a.Length
    requires leftRun == src[left..mid + 1] && rightRun == src[mid + 1..right + 1]
    requires 0 <= i < |leftRun| && 0 <= j < |rightRun|
    requires MergeFrom(r.a[..], src, left + i, mid + 1 + j, mid, right, left + i + j) == target
    modifies r, r.a
    ensures r.Valid() && r.sorted == old(r.sorted)
    ensures if leftRun[i] <= rightRun[j] then i' == i + 1 && j' == j else i' == i && j' == j + 1
    ensures MergeFrom(r.a[..], src, left + i', mid + 1 + j', mid, right, left + i' + j') == target
    ensures MergeComparisonsFrom(src, left + i, mid + 1 + j, mid, right)
      == 1 + MergeComparisonsFrom(src, left + i', mid + 1 + j', mid, right)
    ensures r.comparisons == old(r.comparisons) + 1 && r.swaps == old(r.swaps) + 1
  {
    r.Compare(left + i, mid + 1 + j, NoPivot);
    if leftRun[i] <= rightRun[j] {
      r.Write(left + i + j, leftRun[i]);
      i', j' := i + 1, j;
    } else {
      r.Write(left + i + j, rightRun[j]);
      i', j' := i, j + 1;
    }
  }

  /** The first loop of `merge`: while both runs have values left, place the next one. */
  method MergeBoth(r: Run, left: int, mid: int, right: int, leftRun: seq<int>, rightRun: seq<int>,
                   ghost src: seq<int>, ghost target: seq<int>) returns (i: int, j: int)
    requires r.Valid() && 0 <= left <= mid < right < r.a.Length && |src| == r.a.Length
    requires leftRun == src[left..mid + 1] && rightRun == src[mid + 1..right + 1]
    requires MergeFrom(r.a[..], src, left, mid + 1, mid, right, left) == target
    modifies r, r.a
    ensures r.Valid() && r.sorted == old(r.sorted)
    ensures 0 <= i <= |leftRun| && 0 <= j <= |rightRun| && (i == |leftRun| || j == |rightRun|)
    ensures MergeFrom(r.a[..], src, left + i, mid + 1 + j, mid, right, left + i + j) == target
    ensures r.comparisons == old(r.comparisons) + MergeComparisonsFrom(src, left, mid + 1, mid, right)
    ensures r.swaps == old(r.swaps) + i + j
  {
    i, j := 0, 0;
    while i < |leftRun| && j < |rightRun|
      invariant 0 <= i <= |leftRun| && 0 <= j <= |rightRun|
      invariant r.Valid() && r.sorted == old(r.sorted)
      invariant MergeFrom(r.a[..], src, left + i, mid + 1 + j, mid, right, left + i + j) == target
      invariant r.comparisons + MergeComparisonsFrom(src, left + i, mid + 1 + j, mid, right)
        == old(r.comparisons) + MergeComparisonsFrom(src, left, mid + 1, mid, right)
      invariant r.swaps == old(r.swaps) + i + j
    {
      i, j := PlaceNext(r, left, mid, right, leftRun, rightRun, i, j, src, target);
    }
  }

  /** The second loop of `merge`: copy what is left of the left run, the right one being used up. */
  method CopyLeftRest(r: Run, left: int, mid: int, right: int, leftRun: seq<int>, i0: int,
                      ghost src: seq<int>, ghost target: seq<int>)
    requires r.Valid() && 0 <= left <= mid < right < r.a.Length && |src| == r.a.Length
    requires leftRun == src[left..mid + 1] && 0 <= i0 <= |leftRun|
    requires MergeFrom(r.a[..], src, left + i0, right + 1, mid, right, right - mid + i0 + left) == target
    modifies r, r.a
    ensures r.Valid() && r.sorted == old(r.sorted)
    ensures r.a[..] == target
    ensures r.comparisons == old(r.comparisons) && r.swaps == old(r.swaps) + (|leftRun| - i0)
  {
    var i := i0;
    while i < |leftRun|
      invariant i0 <= i <= |leftRun|
      invariant r.Valid() && r.sorted == old(r.sorted)
      invariant MergeFrom(r.a[..], src, left + i, right + 1, mid, right, right - mid + i + left) == target
      invariant r.comparisons == old(r.comparisons) && r.swaps == old(r.swaps) + (i - i0)
    {
      r.Write(right - mid + i + left, leftRun[i]);
      i := i + 1;
    }
  }

  /** The third loop of `merge`: copy what is left of the right run, the left one being used up. */
  method CopyRightRest(r: Run, left: int, mid: int, right: int, rightRun: seq<int>, j0: int,
                       ghost src: seq<int>, ghost target: seq<int>)
    requires r.Valid() && 0 <= left <= mid < right < r.a.Length && |src| == r.a.Length
    requires rightRun == src[mid + 1..right + 1] && 0 <= j0 <= |rightRun|
    requires MergeFrom(r.a[..], src, mid + 1, mid + 1 + j0, mid, right, mid + 1 + j0) == target
    modifies r, r.a
    ensures r.Valid() && r.sorted == old(r.sorted)
    ensures r.a[..] == target
    ensures r.comparisons == old(r.comparisons) && r.swaps == old(r.swaps) + (|rightRun| - j0)
  {
    var j := j0;
    while j < |rightRun|
      invariant j0 <= j <= |rightRun|
      invariant r.Valid() && r.sorted == old(r.sorted)
      invariant MergeFrom(r.a[..], src, mid + 1, mid + 1 + j, mid, right, mid + 1 + j) == target
      invariant r.comparisons == old(r.comparisons) && r.swaps == old(r.swaps) + (j - j0)
    {
      r.Write(mid + 1 + j, rightRun[j]);
      j := j + 1;
    }
  }

  /**
   * `merge(left, mid, right)`: copy out `array[left..mid]` and
   * `array[mid+1..right]`, then write their stable merge back over
   * `array[left..right]`, one counted write per index.
   */
  method MergeRuns(r: Run, left: int, mid: int, right: int)
    requires r.Valid() && 0 <= left <= mid < right < r.a.Length
    modifies r, r.a
    ensures r.Valid() && r.sorted == old(r.sorted)
    ensures r.a[..] == MergeRange(old(r.a[..]), left, mid, right)
    ensures r.comparisons == old(r.comparisons) +
      MergeComparisons(old(r.a[..])[left..mid + 1], old(r.a[..])[mid + 1..right + 1])
    ensures r.comparisons <= old(r.comparisons) + (right - left)
    ensures r.swaps == old(r.swaps) + (right - left + 1)
  {
    ghost var src := r.a[..];
    ghost var target := MergeRange(src, left, mid, right);
    var leftRun := r.a[..][left..mid + 1];
    var rightRun := r.a[..][mid + 1..right + 1];
    MergeComparisonsFromRuns(src, left, mid + 1, mid, right);
    MergeComparisonsBounds(leftRun, rightRun);
    var i, j := MergeBoth(r, left, mid, right, leftRun, rightRun, src, target);
    CopyRest(r, left, mid, right, leftRun, rightRun, i, j, src, target);
  }

  /** Once one run is used up, the rest of the other is copied: the second or the third loop of `merge`. */
  method CopyRest(r: Run, left: int, mid: int, right: int, leftRun: seq<int>, rightRun: seq<int>, i: int, j: int,
                  ghost src: seq<int>, ghost target: seq<int>)
    requires r.Valid() && 0 <= left <= mid < right < r.a.Length && |src| == r.a.Length
    requires leftRun == src[left..mid + 1] && rightRun == src[mid + 1..right + 1]
    requires 0 <= i <= |leftRun| && 0 <= j <= |rightRun| && (i == |leftRun| || j == |rightRun|)
    requires MergeFrom(r.a[..], src, left + i, mid + 1 + j, mid, right, left + i + j) == target
    modifies r, r.a
    ensures r.Valid() && r.sorted == old(r.sorted)
    ensures r.a[..] == target
    ensures r.comparisons == old(r.comparisons) && r.swaps == old(r.swaps) + (|leftRun| - i) + (|rightRun| - j)
  {
    if i < |leftRun| {
      CopyLeftRest(r, left, mid, right, leftRun, i, src, target);
    } else {
      CopyRightRest(r, left, mid, right, rightRun, j, src, target);
    }
  }

  /**
   * The end of one level of `mergeSortRecursive`: merge the two sorted halves
   * and, when the range is the whole array, mark every index sorted. `a0`,
   * `c0` and `w0` are the array and the two counters before the level began.
   */
  method MergeLevel(r: Run, left: int, mid: int, right: int,
                    ghost a0: seq<int>, ghost a1: seq<int>, ghost c0: int, ghost c1: int, ghost w0: int, ghost w1: int)
    requires r.Valid() && r.sorted == [] && 0 <= left <= mid < right < r.a.Length && mid == (left + right) / 2
    requires |a0| == r.a.Length && a1 == SortRange(a0, left, mid) && r.a[..] == SortRange(a1, mid + 1, right)
    requires c1 + (if left < mid then 1 else 0) <= c0 + RangeWrites(left, mid)
    requires r.comparisons + (if mid + 1 < right then 1 else 0) <= c1 + RangeWrites(mid + 1, right)
    requires w1 == w0 + RangeWrites(left, mid) && r.swaps == w1 + RangeWrites(mid + 1, right)
    modifies r, r.a
    ensures r.Valid()
    ensures r.a[..] == SortRange(a0, left, right)
    ensures r.swaps == w0 + RangeWrites(left, right) && r.comparisons < c0 + RangeWrites(left, right)
    ensures r.sorted == if left == 0 && right == r.a.Length - 1 then Range(0, r.a.Length) else []
  {
    MergeRuns(r, left, mid, right);
    SortRangeStep(a0, a1, old(r.a[..]), left, mid, right);
    RangeWritesStep(left, mid, right);
    MarkIfWhole(r, left, right);
  }

  /** After the merge that spans the whole array, every index is marked sorted in ascending order. */
  method MarkIfWhole(r: Run, left: int, right: int)
    requires r.sorted == []
    modifies r`sorted
    ensures r.sorted == if left == 0 && right == r.a.Length - 1 then Range(0, r.a.Length) else []
  {
    if left == 0 && right == r.a.Length - 1 {
      MarkPrefixSorted(r, r.a.Length);
    }
  }

  /**
   * `mergeSortRecursive(left, right)`: a range of one or no element is left
   * alone; a longer one is sorted by `SortAndMerge`.
   */
  method MergeSortRange(r: Run, left: int, right: int)
    requires r.Valid() && r.sorted == [] && 0 <= left && right < r.a.Length && left <= right + 1
    modifies r, r.a
    ensures r.Valid()
    ensures r.a[..] == SortRange(old(r.a[..]), left, right)
    ensures r.swaps == old(r.swaps) + RangeWrites(left, right)
    ensures r.comparisons + (if left < right then 1 else 0) <= old(r.comparisons) + RangeWrites(left, right)
    ensures r.sorted == if left == 0 && right == r.a.Length - 1 && left < right then Range(0, r.a.Length) else []
    decreases right - left, 1
  {
    if left < right {
      SortAndMerge(r, left, right);
    }
  }

  /**
   * The body of `mergeSortRecursive` when `left < right`: sort both halves,
   * merge them, and after the merge of the whole array mark every index sorted.
   */
  method SortAndMerge(r: Run, left: int, right: int)
    requires r.Valid() && r.sorted == [] && 0 <= left < right < r.a.Length
    modifies r, r.a
    ensures r.Valid()
    ensures r.a[..] == SortRange(old(r.a[..]), left, right)
    ensures r.swaps == old(r.swaps) + RangeWrites(left, right)
    ensures r.comparisons < old(r.comparisons) + RangeWrites(left, right)
    ensures r.sorted == if left == 0 && right == r.a.Length - 1 then Range(0, r.a.Length) else []
    decreases right - left, 0
  {
    var mid := (left + right) / 2;
    MidBounds(left, right);
    ghost var a0, c0, w0 := r.a[..], r.comparisons, r.swaps;
    MergeSortRange(r, left, mid);
    ghost var a1, c1, w1 := r.a[..], r.comparisons, r.swaps;
    MergeSortRange(r, mid + 1, right);
    MergeLevel(r, left, mid, right, a0, a1, c0, c1, w0, w1);
  }

  /** Over the whole array, the recursion sorts and permutes. */
  lemma SortsWhole(a: seq<int>)
    ensures IsSorted(SortRange(a, 0, |a| - 1)) && multiset(SortRange(a, 0, |a| - 1)) == multiset(a)
  {
    var b := SortRange(a, 0, |a| - 1);
    SortRangeSorted(a, 0, |a| - 1);
    SortRangePermutes(a, 0, |a| - 1);
    assert a[0..|a|] == a && b[0..|a|] == b;
  }

  method MergeSort(input: seq<int>) returns (trace: seq<StepState>, outcome: Outcome)
    ensures WellFormed(input, trace)
    ensures Last(trace).values == SortRange(input, 0, |input| - 1)
    ensures IsSorted(Last(trace).values) && multiset(Last(trace).values) == multiset(input)
    ensures Last(trace).sorted == Range(0, |input|)
    ensures Last(trace).swaps == RangeWrites(0, |input| - 1)
    ensures |input| >= 2 ==> Last(trace).comparisons < Last(trace).swaps
    ensures outcome == Outcome(Last(trace).values, Last(trace).comparisons, Last(trace).swaps)
  {
    var r: Run := new Run(input);
    MergeSortRange(r, 0, r.a.Length - 1);
    r.ShowAll(NoPivot);
    trace := r.trace;
    outcome := r.Result();
    SortsWhole(input);
  }
}
