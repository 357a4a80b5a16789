/**
 The recorded Lomuto quicksort. `Partition` and `QuickSort` are the reference
 definitions the controller uses; `PartitionPlan` and `QuickSortPlan` are the
 loop-and-recursion form the program runs, proved to compute the same arrays
 and the same swap logs.
 */
module Planner {
  import opened Steps

  /**
   `comparator.compare(x, y) <= 0`: natural order, or reverse order when
   sorting descending.
   */
  predicate Le(descending: bool, x: int, y: int) {
    if descending then y <= x else x <= y
  }

  /**
   `Le` is the order a `Comparator` must be: total, reflexive and transitive;
   the descending order is the ascending one reversed; and a cell that does
   not compare <= the pivot is strictly on the far side of it.
   */
  lemma LeIsComparator(descending: bool, x: int, y: int, z: int)
    ensures Le(descending, x, y) || Le(descending, y, x)
    ensures Le(descending, x, x)
    ensures Le(descending, x, y) && Le(descending, y, z) ==> Le(descending, x, z)
    ensures Le(true, x, y) <==> Le(false, y, x)
    ensures !Le(descending, x, y) ==> Le(descending, y, x) && x != y
  {
  }

  /** Cells lo..hi are ordered by `Le` (non-decreasing, or non-increasing when descending). */
  predicate SortedBetween(descending: bool, s: seq<int>, lo: int, hi: int)
    requires 0 <= lo && hi < |s|
  {
    forall a, b :: lo <= a < b <= hi ==> Le(descending, s[a], s[b])
  }

  /**
   `b` is `a` with only the window [lo, hi] rearranged: cells outside it
   keep their values and the window keeps its multiset.
   */
  predicate Confined(a: seq<int>, b: seq<int>, lo: int, hi: int)
    requires 0 <= lo && hi < |a| == |b|
  {
    && (forall k :: 0 <= k < |a| && (k < lo || hi < k) ==> b[k] == a[k])
    && (lo <= hi ==> multiset(b[lo..hi + 1]) == multiset(a[lo..hi + 1]))
  }

  /** The pivot sits at p, [lo, p) compares <= pivot and (p, hi] compares > pivot. */
  predicate SplitAt(descending: bool, a: seq<int>, lo: int, p: int, hi: int, pivot: int)
    requires 0 <= lo <= p <= hi < |a|
  {
    && a[p] == pivot
    && (forall k :: lo <= k < p ==> Le(descending, a[k], pivot))
    && (forall k :: p < k <= hi ==> !Le(descending, a[k], pivot))
  }

  /** What the partition loop leaves behind: the array, the boundary `i`, the steps it logged. */
  datatype ScanState = ScanState(a: seq<int>, i: int, steps: seq<Step>)

  /** The loop's invariant: [low, i] compares <= pivot, (i, j) compares > pivot. */
  predicate Split(descending: bool, a: seq<int>, low: int, i: int, j: int, pivot: int)
    requires 0 <= low && -1 <= i < j <= |a|
  {
    && (forall k :: low <= k <= i ==> Le(descending, a[k], pivot))
    && (forall k :: i < k < j ==> !Le(descending, a[k], pivot))
  }

  /**
   One iteration of the partition loop at position j with boundary i: when
   a[j] compares <= pivot the boundary advances, and the cells at the new
   boundary and j are swapped and logged only when they differ.
   */
  function LoopBody(a: seq<int>, descending: bool, pivot: int, i: int, j: int): (r: ScanState)
    requires -1 <= i < j < |a|
    ensures |r.a| == |a|
    ensures r.i == (if Le(descending, a[j], pivot) then i + 1 else i)
    ensures |r.steps| <= 1
    ensures forall k :: 0 <= k < |r.steps| ==> r.steps[k] == Step(i + 1, j) && i + 1 < j
  {
    if Le(descending, a[j], pivot) then
      if i + 1 != j then
        ScanState(Swap(a, i + 1, j), i + 1, [Step(i + 1, j)])
      else
        ScanState(a, i + 1, [])
    else
      ScanState(a, i, [])
  }

  /** Replaying one iteration's log (nothing, or its one swap) gives the iteration's array. */
  lemma LoopBodyReplays(a: seq<int>, descending: bool, pivot: int, i: int, j: int)
    requires -1 <= i < j < |a|
    ensures AllInRange(LoopBody(a, descending, pivot, i, j).steps, 0, |a| - 1)
    ensures Replay(a, LoopBody(a, descending, pivot, i, j).steps) == LoopBody(a, descending, pivot, i, j).a
  {
    var r := LoopBody(a, descending, pivot, i, j);
    if r.steps != [] {
      assert r.steps == [Step(i + 1, j)];
      assert Replay(r.a, []) == r.a;
    }
  }

  /**
   The partition loop from position j to high - 1 with boundary i. It never
   touches the pivot cell `high`.
   */
  function Scan(a: seq<int>, low: int, high: int, descending: bool, pivot: int, i: int, j: int): (r: ScanState)
    requires 0 <= low <= j <= high < |a|
    requires low - 1 <= i < j
    ensures |r.a| == |a|
    ensures i <= r.i < high
    ensures AllInRange(r.steps, low, high - 1)
    ensures forall k :: 0 <= k < |r.steps| ==> r.steps[k].i < r.steps[k].j
    decreases high - j
  {
    if j == high then ScanState(a, i, [])
    else
      var s := LoopBody(a, descending, pivot, i, j);
      var r := Scan(s.a, low, high, descending, pivot, s.i, j + 1);
      var steps := s.steps + r.steps;
      assert forall k :: |s.steps| <= k < |steps| ==> steps[k] == r.steps[k - |s.steps|];
      ScanState(r.a, r.i, steps)
  }

  /** Replaying the loop's log on its input gives the loop's array. */
  lemma {:induction false} ScanReplays(a: seq<int>, low: int, high: int, descending: bool, pivot: int, i: int, j: int)
    requires 0 <= low <= j <= high < |a|
    requires low - 1 <= i < j
    ensures AllInRange(Scan(a, low, high, descending, pivot, i, j).steps, 0, |a| - 1)
    ensures Replay(a, Scan(a, low, high, descending, pivot, i, j).steps) == Scan(a, low, high, descending, pivot, i, j).a
    decreases high - j
  {
    var r := Scan(a, low, high, descending, pivot, i, j);
    Widen(r.steps, low, high - 1, 0, |a| - 1);
    if j < high {
      var s := LoopBody(a, descending, pivot, i, j);
      var rest := Scan(s.a, low, high, descending, pivot, s.i, j + 1);
      ScanReplays(s.a, low, high, descending, pivot, s.i, j + 1);
      LoopBodyReplays(a, descending, pivot, i, j);
      ReplayAppend(a, s.steps, rest.steps);
    }
  }

  /** The loop keeps its invariant to the end: [low, r.i] compares <= pivot, (r.i, high) compares > pivot. */
  lemma {:induction false} ScanSplits(a: seq<int>, low: int, high: int, descending: bool, pivot: int, i: int, j: int)
    requires 0 <= low <= j <= high < |a|
    requires low - 1 <= i < j
    requires Split(descending, a, low, i, j, pivot)
    ensures Split(descending, Scan(a, low, high, descending, pivot, i, j).a, low,
                  Scan(a, low, high, descending, pivot, i, j).i, high, pivot)
    decreases high - j
  {
    if j < high {
      var s := LoopBody(a, descending, pivot, i, j);
      assert Split(descending, s.a, low, s.i, j + 1, pivot);
      ScanSplits(s.a, low, high, descending, pivot, s.i, j + 1);
    }
  }

  /**
   A partition's result: the array, the pivot's final index, the steps logged.
   The type parameters serve only the solver: a datatype with sequence fields
   brings axioms about the rank of those fields into every proof that
   mentions it, and a generic datatype used through a synonym does not.
   */
  datatype PartitionedOf<A, L> = Partitioned(a: A, p: int, steps: L)
  type Partitioned = PartitionedOf<seq<int>, seq<Step>>

  /**
   Lomuto partition of [low, high] around the value at `high`: the loop,
   then the pivot-placement step.
   */
  function Partition(a: seq<int>, low: int, high: int, descending: bool): (r: Partitioned)
    requires 0 <= low <= high < |a|
    ensures |r.a| == |a|
    ensures low <= r.p <= high
  {
    PlaceAfterLoop(high, Scan(a, low, high, descending, a[high], low - 1, low))
  }

  /**
   The pivot-placement step after the loop: the pivot at `high` trades places
   with the cell just past the boundary, that index is returned, and the pair
   is appended to the log whether or not the two indices differ.
   */
  function PlaceAfterLoop(high: int, s: ScanState): (r: Partitioned)
    requires -1 <= s.i < high < |s.a|
    ensures r.p == s.i + 1
    ensures |r.a| == |s.a| && r.a[r.p] == s.a[high] && r.a[high] == s.a[r.p]
    ensures forall k :: 0 <= k < |s.a| && k != r.p && k != high ==> r.a[k] == s.a[k]
    ensures |r.steps| == |s.steps| + 1 && r.steps[..|s.steps|] == s.steps
    ensures r.steps[|s.steps|] == Step(r.p, high)
  {
    Partitioned(Swap(s.a, s.i + 1, high), s.i + 1, s.steps + [Step(s.i + 1, high)])
  }

  /** The partition's log stays inside [low, high] and replays to the partitioned array. */
  lemma PartitionReplays(a: seq<int>, low: int, high: int, descending: bool)
    requires 0 <= low <= high < |a|
    ensures Logs(a, Partition(a, low, high, descending).steps, Partition(a, low, high, descending).a, low, high)
  {
    var s := Scan(a, low, high, descending, a[high], low - 1, low);
    ScanReplays(a, low, high, descending, a[high], low - 1, low);
    PivotLogged(s.steps, low, high, s.i + 1);
    Widen(s.steps + [Step(s.i + 1, high)], low, high, 0, |a| - 1);
    ReplaySnoc(a, s.steps, Step(s.i + 1, high));
  }

  /**
   The log is the loop's swaps, each with distinct indices below `high`,
   followed by exactly one pivot-placement step, recorded even when it swaps
   a cell with itself.
   */
  lemma PartitionLogged(a: seq<int>, low: int, high: int, descending: bool)
    requires 0 <= low <= high < |a|
    ensures var r := Partition(a, low, high, descending);
            && |r.steps| >= 1 && r.steps[|r.steps| - 1] == Step(r.p, high)
            && (forall k :: 0 <= k < |r.steps| - 1 ==> r.steps[k].i < r.steps[k].j < high)
  {
    var s := Scan(a, low, high, descending, a[high], low - 1, low);
    PivotLogged(s.steps, low, high, s.i + 1);
  }

  /**
   The pivot ends at index p, every cell of [low, p) compares <= pivot, every
   cell of (p, high] compares > pivot, and cells outside [low, high] keep
   their values.
   */
  lemma PartitionSplits(a: seq<int>, low: int, high: int, descending: bool)
    requires 0 <= low <= high < |a|
    ensures var r := Partition(a, low, high, descending);
            && SplitAt(descending, r.a, low, r.p, high, a[high])
            && (forall k :: 0 <= k < |a| && (k < low || high < k) ==> r.a[k] == a[k])
  {
    var s := Scan(a, low, high, descending, a[high], low - 1, low);
    ScanReplays(a, low, high, descending, a[high], low - 1, low);
    ScanSplits(a, low, high, descending, a[high], low - 1, low);
    ReplayWithin(a, s.steps, low, high - 1);
    PivotSplits(a, s.a, low, high, descending, s.i);
  }

  /** After the loop, swapping the pivot to the boundary splits [low, high] around it. */
  lemma PivotSplits(a: seq<int>, b: seq<int>, low: int, high: int, descending: bool, i: int)
    requires 0 <= low <= high < |a| == |b|
    requires low - 1 <= i < high
    requires b[high] == a[high]
    requires Split(descending, b, low, i, high, a[high])
    requires forall k :: 0 <= k < |a| && (k < low || high < k) ==> b[k] == a[k]
    ensures SplitAt(descending, Swap(b, i + 1, high), low, i + 1, high, a[high])
    ensures forall k :: 0 <= k < |a| && (k < low || high < k) ==> Swap(b, i + 1, high)[k] == a[k]
  {
    var p := i + 1;
    var r := Swap(b, p, high);
    forall k | p < k <= high ensures !Le(descending, r[k], a[high]) {
      if k == high {
        assert r[k] == b[p];
      } else {
        assert r[k] == b[k];
      }
    }
  }

  /** The loop's log followed by the pivot step stays in [low, high], in-loop steps with distinct indices. */
  lemma PivotLogged(loop: seq<Step>, low: int, high: int, p: int)
    requires AllInRange(loop, low, high - 1) && low <= p <= high
    requires forall k :: 0 <= k < |loop| ==> loop[k].i < loop[k].j
    ensures var steps := loop + [Step(p, high)];
            && AllInRange(steps, low, high)
            && steps[|steps| - 1] == Step(p, high)
            && (forall k :: 0 <= k < |steps| - 1 ==> steps[k].i < steps[k].j < high)
  {
    var steps := loop + [Step(p, high)];
    forall k | 0 <= k < |steps| ensures InRange(steps[k], low, high) && (k < |steps| - 1 ==> steps[k].i < steps[k].j < high) {
      if k < |loop| {
        assert steps[k] == loop[k];
        assert InRange(loop[k], low, high - 1);
      } else {
        assert steps[k] == Step(p, high);
      }
    }
  }

  /** A sort's result: the array and the full log, in recording order (generic for the reason given at `PartitionedOf`). */
  datatype PlanOf<A, L> = Plan(a: A, steps: L)
  type Plan = PlanOf<seq<int>, seq<Step>>

  /**
   Quicksort of [low, high]: nothing to do for fewer than two cells,
   otherwise `SortWindow`.
   */
  function QuickSort(a: seq<int>, low: int, high: int, descending: bool): (r: Plan)
    requires 0 <= low && high < |a|
    ensures |r.a| == |a|
    decreases high - low, 2
  {
    if low < high then SortWindow(a, low, high, descending) else Plan(a, [])
  }

  /** Partition [low, high], then sort both sides of the placed pivot. */
  function SortWindow(a: seq<int>, low: int, high: int, descending: bool): (r: Plan)
    requires 0 <= low < high < |a|
    ensures |r.a| == |a|
    decreases high - low, 1
  {
    SortSides(Partition(a, low, high, descending), low, high, descending)
  }

  /**
   Sort the part left of the placed pivot, then the part right of it; the
   log is the partition's, then the left part's, then the right part's.
   */
  function SortSides(part: Partitioned, low: int, high: int, descending: bool): (r: Plan)
    requires 0 <= low <= part.p <= high < |part.a|
    ensures |r.a| == |part.a|
    decreases high - low, 0
  {
    var left := QuickSort(part.a, low, part.p - 1, descending);
    var right := QuickSort(left.a, part.p + 1, high, descending);
    Plan(right.a, part.steps + left.steps + right.steps)
  }

  /** The sort's log stays inside [low, high] and replays to its array. */
  lemma {:induction false} QuickSortReplays(a: seq<int>, low: int, high: int, descending: bool)
    requires 0 <= low && high < |a|
    ensures Logs(a, QuickSort(a, low, high, descending).steps, QuickSort(a, low, high, descending).a, low, high)
    decreases high - low, 3
  {
    if low < high {
      SortWindowReplays(a, low, high, descending);
    }
  }

  /** The partition's log followed by both sides' logs replays to the sorted window. */
  lemma {:induction false} SortWindowReplays(a: seq<int>, low: int, high: int, descending: bool)
    requires 0 <= low < high < |a|
    ensures Logs(a, SortWindow(a, low, high, descending).steps, SortWindow(a, low, high, descending).a, low, high)
    decreases high - low, 2
  {
    PartitionReplays(a, low, high, descending);
    SortSidesReplays(a, Partition(a, low, high, descending), low, high, descending);
  }

  /** If the partition's log replays `a` to the partitioned array, the whole log replays `a` to the sorted one. */
  lemma {:induction false} SortSidesReplays(a: seq<int>, part: Partitioned, low: int, high: int, descending: bool)
    requires 0 <= low <= part.p <= high < |part.a|
    requires Logs(a, part.steps, part.a, low, high)
    ensures Logs(a, SortSides(part, low, high, descending).steps, SortSides(part, low, high, descending).a, low, high)
    decreases high - low, 1
  {
    var left := QuickSort(part.a, low, part.p - 1, descending);
    QuickSortReplays(part.a, low, part.p - 1, descending);
    ExtendLogs(a, part.steps, part.a, left.steps, left.a, low, high, low, part.p - 1);
    RightReplays(a, part.steps + left.steps, left.a, part.p, low, high, descending);
  }

  /** Sorting the part right of p extends a log of [low, high] ending in `b`. */
  lemma {:induction false} RightReplays(a: seq<int>, done: seq<Step>, b: seq<int>, p: int, low: int, high: int, descending: bool)
    requires 0 <= low <= p <= high < |b|
    requires Logs(a, done, b, low, high)
    ensures Logs(a, done + QuickSort(b, p + 1, high, descending).steps, QuickSort(b, p + 1, high, descending).a, low, high)
    decreases high - p, 0
  {
    var right := QuickSort(b, p + 1, high, descending);
    QuickSortReplays(b, p + 1, high, descending);
    ExtendLogs(a, done, b, right.steps, right.a, low, high, p + 1, high);
  }

  /** The sort rearranges only [low, high]: cells outside keep their values, the window its multiset. */
  lemma QuickSortConfined(a: seq<int>, low: int, high: int, descending: bool)
    requires 0 <= low && high < |a|
    ensures Confined(a, QuickSort(a, low, high, descending).a, low, high)
  {
    if low <= high {
      QuickSortReplays(a, low, high, descending);
      ReplayWithin(a, QuickSort(a, low, high, descending).steps, low, high);
    }
  }

  /** The sort leaves cells low..high ordered by `Le`. */
  lemma {:induction false} QuickSortSorted(a: seq<int>, low: int, high: int, descending: bool)
    requires 0 <= low && high < |a|
    ensures SortedBetween(descending, QuickSort(a, low, high, descending).a, low, high)
    decreases high - low, 2
  {
    if low < high {
      SortWindowSorted(a, low, high, descending);
    }
  }

  /** Partitioning and then sorting both sides sorts the window. */
  lemma {:induction false} SortWindowSorted(a: seq<int>, low: int, high: int, descending: bool)
    requires 0 <= low < high < |a|
    ensures SortedBetween(descending, SortWindow(a, low, high, descending).a, low, high)
    decreases high - low, 1
  {
    PartitionSplits(a, low, high, descending);
    SortSidesSorted(Partition(a, low, high, descending), low, high, descending, a[high]);
  }

  /** Sorting both sides of a pivot that splits the window sorts the window. */
  lemma {:induction false} SortSidesSorted(part: Partitioned, low: int, high: int, descending: bool, pivot: int)
    requires 0 <= low <= part.p <= high < |part.a|
    requires SplitAt(descending, part.a, low, part.p, high, pivot)
    ensures SortedBetween(descending, SortSides(part, low, high, descending).a, low, high)
    decreases high - low, 0
  {
    var left := QuickSort(part.a, low, part.p - 1, descending);
    var right := QuickSort(left.a, part.p + 1, high, descending);
    QuickSortConfined(part.a, low, part.p - 1, descending);
    QuickSortConfined(left.a, part.p + 1, high, descending);
    QuickSortSorted(part.a, low, part.p - 1, descending);
    QuickSortSorted(left.a, part.p + 1, high, descending);
    CombineSorted(low, high, descending, pivot, part.p, part.a, left.a, right.a);
  }

  /** A window permuted by a multiset-preserving step keeps every bound its cells met. */
  lemma PermutedKeepsSide(s: seq<int>, t: seq<int>, lo: int, hi: int, descending: bool, pivot: int, below: bool)
    requires 0 <= lo <= hi + 1 <= |s| && |s| == |t|
    requires multiset(t[lo..hi + 1]) == multiset(s[lo..hi + 1])
    requires forall k :: lo <= k <= hi ==> Le(descending, s[k], pivot) == below
    ensures forall k :: lo <= k <= hi ==> Le(descending, t[k], pivot) == below
  {
    forall k | lo <= k <= hi
      ensures Le(descending, t[k], pivot) == below
    {
      assert t[k] == t[lo..hi + 1][k - lo];
      assert t[k] in multiset(s[lo..hi + 1]);
      var m :| 0 <= m < |s[lo..hi + 1]| && s[lo..hi + 1][m] == t[k];
      assert s[lo + m] == t[k];
    }
  }

  /**
   Sorting the cells left of the pivot (all compare <= pivot) and right of it
   (all compare > pivot) leaves [low, high] sorted.
   */
  lemma CombineSorted(low: int, high: int, descending: bool, pivot: int, p: int, pa: seq<int>, la: seq<int>, ra: seq<int>)
    requires 0 <= low <= p <= high < |pa| == |la| == |ra|
    requires SplitAt(descending, pa, low, p, high, pivot)
    requires Confined(pa, la, low, p - 1) && SortedBetween(descending, la, low, p - 1)
    requires Confined(la, ra, p + 1, high) && SortedBetween(descending, ra, p + 1, high)
    ensures SortedBetween(descending, ra, low, high)
  {
    if low <= p - 1 {
      PermutedKeepsSide(pa, la, low, p - 1, descending, pivot, true);
    }
    if p + 1 <= high {
      PermutedKeepsSide(la, ra, p + 1, high, descending, pivot, false);
    }
    forall x, y | low <= x < y <= high
      ensures Le(descending, ra[x], ra[y])
    {
      if y < p {
        assert ra[x] == la[x] && ra[y] == la[y];
      } else if y == p {
        assert ra[x] == la[x] && ra[y] == pivot;
      } else if x < p {
        assert ra[x] == la[x];
      } else if x == p {
        assert ra[x] == pivot;
      }
    }
  }

  /**
   Loop state (a, i, j, done) still finishes as `whole`: running the rest of
   the loop from it and appending its log to `done` gives `whole`.
   */
  ghost predicate Resumes(whole: ScanState, a: seq<int>, low: int, high: int, descending: bool, pivot: int,
                          i: int, j: int, done: seq<Step>)
    requires 0 <= low <= j <= high < |a| && low - 1 <= i < j
  {
    var rest := Scan(a, low, high, descending, pivot, i, j);
    whole == ScanState(rest.a, rest.i, done + rest.steps)
  }

  /** One iteration keeps `Resumes`: the loop from (a, i, j) is one body, then the loop from j + 1. */
  lemma ResumesStep(whole: ScanState, a: seq<int>, low: int, high: int, descending: bool, pivot: int,
                    i: int, j: int, done: seq<Step>, a': seq<int>, i': int, done': seq<Step>)
    requires 0 <= low <= j < high < |a| && low - 1 <= i < j
    requires Resumes(whole, a, low, high, descending, pivot, i, j, done)
    requires var b := LoopBody(a, descending, pivot, i, j);
             a' == b.a && i' == b.i && done' == done + b.steps
    ensures low - 1 <= i' < j + 1 && |a'| == |a|
    ensures Resumes(whole, a', low, high, descending, pivot, i', j + 1, done')
  {
    var b := LoopBody(a, descending, pivot, i, j);
    var rest := Scan(b.a, low, high, descending, pivot, b.i, j + 1);
    assert Scan(a, low, high, descending, pivot, i, j) == ScanState(rest.a, rest.i, b.steps + rest.steps);
    assert done + (b.steps + rest.steps) == (done + b.steps) + rest.steps;
  }

  /**
   The loop of the partition as the program runs it: one pass of j over
   [low, high) with boundary i, logging each swap it makes.
   */
  method ScanLoop(a0: seq<int>, low: int, high: int, descending: bool, pivot: int)
    returns (a: seq<int>, i: int, steps: seq<Step>)
    requires 0 <= low <= high < |a0|
    ensures ScanState(a, i, steps) == Scan(a0, low, high, descending, pivot, low - 1, low)
  {
    a := a0;
    i := low - 1;
    steps := [];
    var j := low;
    ghost var whole := Scan(a0, low, high, descending, pivot, low - 1, low);
    assert [] + whole.steps == whole.steps;
    while j < high
      invariant low <= j <= high && low - 1 <= i < j
      invariant |a| == |a0|
      invariant Resumes(whole, a, low, high, descending, pivot, i, j, steps)
      decreases high - j
    {
      ghost var body := LoopBody(a, descending, pivot, i, j);
      ghost var (a_, i_, before) := (a, i, steps);
      if Le(descending, a[j], pivot) {
        i := i + 1;
        if i != j {
          steps := steps + [Step(i, j)];
          a := Swap(a, i, j);
        }
      }
      assert before + [] == before;
      assert a == body.a && i == body.i && steps == before + body.steps;
      ResumesStep(whole, a_, low, high, descending, pivot, i_, j, before, a, i, steps);
      j := j + 1;
    }
    assert steps + [] == steps;
  }

  /**
   The partition as the program runs it: the loop, then the pivot-placement
   swap, which is logged whether or not it moves anything.
   */
  method PartitionPlan(a0: seq<int>, low: int, high: int, descending: bool)
    returns (a: seq<int>, p: int, steps: seq<Step>)
    requires 0 <= low <= high < |a0|
    ensures Partitioned(a, p, steps) == Partition(a0, low, high, descending)
  {
    var pivot := a0[high];
    var i;
    a, i, steps := ScanLoop(a0, low, high, descending, pivot);
    steps := steps + [Step(i + 1, high)];
    a := Swap(a, i + 1, high);
    p := i + 1;
  }

  /**
   The recursive sort as the program runs it; its log is the program's
   deque contents, in insertion order.
   */
  method QuickSortPlan(a0: seq<int>, low: int, high: int, descending: bool)
    returns (a: seq<int>, steps: seq<Step>)
    requires 0 <= low && high < |a0|
    ensures Plan(a, steps) == QuickSort(a0, low, high, descending)
    decreases high - low
  {
    if low < high {
      var b, pi, partSteps := PartitionPlan(a0, low, high, descending);
      var c, leftSteps := QuickSortPlan(b, low, pi - 1, descending);
      var rightSteps;
      a, rightSteps := QuickSortPlan(c, pi + 1, high, descending);
      steps := partSteps + leftSteps + rightSteps;
      assert SortWindow(a0, low, high, descending) == SortSides(Partitioned(b, pi, partSteps), low, high, descending);
    } else {
      a := a0;
      steps := [];
    }
  }
}
