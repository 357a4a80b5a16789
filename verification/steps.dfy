/**
 The swap log shared by the planner and the player: a recorded step is an
 index pair, `Swap` exchanges two cells of a sequence, and `Replay` applies a
 log of steps in the order they were recorded (the order the deque hands them
 out, head first).
 */
module Steps {

  /** One recorded swap, the `int[]{i, j}` pair the planner appends to the deque. */
  datatype Step = Step(i: int, j: int)

  /** Both indices of `st` lie in [lo, hi]. */
  predicate InRange(st: Step, lo: int, hi: int) {
    lo <= st.i <= hi && lo <= st.j <= hi
  }

  /** Every step of the log lies in [lo, hi]. */
  predicate AllInRange(steps: seq<Step>, lo: int, hi: int) {
    forall k :: 0 <= k < |steps| ==> InRange(steps[k], lo, hi)
  }

  /**
   Exchanges cells i and j; equal indices leave the sequence as it is.
   */
  function Swap<T>(s: seq<T>, i: int, j: int): (r: seq<T>)
    requires 0 <= i < |s| && 0 <= j < |s|
    ensures |r| == |s|
    ensures r[i] == s[j] && r[j] == s[i]
    ensures forall k :: 0 <= k < |s| && k != i && k != j ==> r[k] == s[k]
    ensures i == j ==> r == s
  {
    if i == j then s else s[i := s[j]][j := s[i]]
  }

  /** A swap permutes the sequence. */
  lemma SwapPermutes<T>(s: seq<T>, i: int, j: int)
    requires 0 <= i < |s| && 0 <= j < |s|
    ensures multiset(Swap(s, i, j)) == multiset(s)
  {
  }

  /** Swapping the same pair twice restores the sequence. */
  lemma SwapTwice<T>(s: seq<T>, i: int, j: int)
    requires 0 <= i < |s| && 0 <= j < |s|
    ensures Swap(Swap(s, i, j), i, j) == s
  {
    var t := Swap(Swap(s, i, j), i, j);
    assert forall k :: 0 <= k < |s| ==> t[k] == s[k];
  }

  /** Applies the steps in order, the first step first. */
  function Replay<T>(s: seq<T>, steps: seq<Step>): (r: seq<T>)
    requires AllInRange(steps, 0, |s| - 1)
    ensures |r| == |s|
    decreases |steps|
  {
    if steps == [] then s
    else Replay(Swap(s, steps[0].i, steps[0].j), steps[1..])
  }

  /** Replaying a log is replaying its first part, then its second part. */
  lemma {:induction false} ReplayAppend<T>(s: seq<T>, a: seq<Step>, b: seq<Step>)
    requires AllInRange(a, 0, |s| - 1) && AllInRange(b, 0, |s| - 1)
    ensures AllInRange(a + b, 0, |s| - 1)
    ensures Replay(s, a + b) == Replay(Replay(s, a), b)
    decreases |a|
  {
    assert forall k :: 0 <= k < |a + b| ==> (a + b)[k] == if k < |a| then a[k] else b[k - |a|];
    if a != [] {
      assert (a + b)[0] == a[0];
      assert (a + b)[1..] == a[1..] + b;
      ReplayAppend(Swap(s, a[0].i, a[0].j), a[1..], b);
    } else {
      assert a + b == b;
    }
  }

  /** A log inside a window is inside any window containing it. */
  lemma Widen(steps: seq<Step>, lo: int, hi: int, lo': int, hi': int)
    requires AllInRange(steps, lo, hi) && lo' <= lo && hi <= hi'
    ensures AllInRange(steps, lo', hi')
  {
    assert forall k :: 0 <= k < |steps| ==> InRange(steps[k], lo, hi);
  }

  /** Replaying a log that starts with `st` is swapping `st` first. */
  lemma ReplayCons<T>(s: seq<T>, st: Step, rest: seq<Step>)
    requires InRange(st, 0, |s| - 1) && AllInRange(rest, 0, |s| - 1)
    ensures AllInRange([st] + rest, 0, |s| - 1)
    ensures Replay(s, [st] + rest) == Replay(Swap(s, st.i, st.j), rest)
  {
    var steps := [st] + rest;
    assert forall k :: 0 < k < |steps| ==> steps[k] == rest[k - 1];
    assert steps[0] == st && steps[1..] == rest;
  }

  /** Replaying a log and then one more step is swapping that step after the log. */
  lemma ReplaySnoc<T>(s: seq<T>, steps: seq<Step>, st: Step)
    requires AllInRange(steps, 0, |s| - 1) && InRange(st, 0, |s| - 1)
    ensures AllInRange(steps + [st], 0, |s| - 1)
    ensures Replay(s, steps + [st]) == Swap(Replay(s, steps), st.i, st.j)
  {
    assert AllInRange([st], 0, |s| - 1);
    ReplayAppend(s, steps, [st]);
    var t := Replay(s, steps);
    assert [st][1..] == [];
    assert Replay(t, [st]) == Replay(Swap(t, st.i, st.j), []);
  }

  /** A swap inside [lo, hi] permutes that window and leaves the rest alone. */
  lemma SwapWithin<T>(s: seq<T>, i: int, j: int, lo: int, hi: int)
    requires 0 <= lo <= i <= hi < |s| && lo <= j <= hi
    ensures multiset(Swap(s, i, j)[lo..hi + 1]) == multiset(s[lo..hi + 1])
  {
    var w := s[lo..hi + 1];
    assert Swap(s, i, j)[lo..hi + 1] == Swap(w, i - lo, j - lo);
    SwapPermutes(w, i - lo, j - lo);
  }

  /**
   A log whose steps all lie in [lo, hi] only permutes that window: cells
   outside it keep their values and the window keeps its multiset.
   */
  lemma {:induction false} ReplayWithin<T>(s: seq<T>, steps: seq<Step>, lo: int, hi: int)
    requires 0 <= lo <= hi + 1 <= |s|
    requires AllInRange(steps, lo, hi)
    ensures AllInRange(steps, 0, |s| - 1)
    ensures forall k :: 0 <= k < |s| && (k < lo || hi < k) ==> Replay(s, steps)[k] == s[k]
    ensures multiset(Replay(s, steps)[lo..hi + 1]) == multiset(s[lo..hi + 1])
    decreases |steps|
  {
    if steps != [] {
      var st := steps[0];
      assert InRange(st, lo, hi);
      var t := Swap(s, st.i, st.j);
      SwapWithin(s, st.i, st.j, lo, hi);
      assert AllInRange(steps[1..], lo, hi) by {
        forall k | 0 <= k < |steps[1..]| ensures InRange(steps[1..][k], lo, hi) {
          assert steps[1..][k] == steps[k + 1];
        }
      }
      ReplayWithin(t, steps[1..], lo, hi);
    }
  }

  /** Replaying a log permutes the sequence. */
  lemma ReplayPermutes<T>(s: seq<T>, steps: seq<Step>)
    requires AllInRange(steps, 0, |s| - 1)
    ensures multiset(Replay(s, steps)) == multiset(s)
  {
    ReplayWithin(s, steps, 0, |s| - 1);
    assert s[0..|s|] == s;
    assert Replay(s, steps)[0..|s|] == Replay(s, steps);
  }

  /** `steps` stays inside [lo, hi] of `a` and replays `a` to `b`. */
  predicate Logs<T(==)>(a: seq<T>, steps: seq<Step>, b: seq<T>, lo: int, hi: int) {
    && 0 <= lo && hi < |a|
    && AllInRange(steps, lo, hi)
    && Replay(a, steps) == b
  }

  /**
   A log from `a` to `b` inside [lo, hi], followed by a log from `b` to `c`
   inside a sub-window, is a log from `a` to `c` inside [lo, hi].
   */
  lemma ExtendLogs<T>(a: seq<T>, s1: seq<Step>, b: seq<T>, s2: seq<Step>, c: seq<T>, lo: int, hi: int, lo2: int, hi2: int)
    requires lo <= lo2 && hi2 <= hi
    requires Logs(a, s1, b, lo, hi) && Logs(b, s2, c, lo2, hi2)
    ensures Logs(a, s1 + s2, c, lo, hi)
  {
    Widen(s2, lo2, hi2, lo, hi);
    forall k | 0 <= k < |s1 + s2| ensures InRange((s1 + s2)[k], lo, hi) {
      if k < |s1| {
        assert (s1 + s2)[k] == s1[k];
      } else {
        assert (s1 + s2)[k] == s2[k - |s1|];
      }
    }
    Widen(s1, lo, hi, 0, |a| - 1);
    Widen(s2, lo, hi, 0, |a| - 1);
    ReplayAppend(a, s1, s2);
  }

  /** The steps from index m to n of a log inside [lo, hi] are inside [lo, hi] too. */
  lemma SliceInRange(steps: seq<Step>, m: int, n: int, lo: int, hi: int)
    requires AllInRange(steps, lo, hi) && 0 <= m <= n <= |steps|
    ensures AllInRange(steps[m..n], lo, hi)
  {
    forall k | 0 <= k < n - m ensures InRange(steps[m..n][k], lo, hi) {
      assert steps[m..n][k] == steps[m + k];
    }
  }

  /** Replaying the first n > 0 steps of a log is swapping its head step, then replaying steps 1 to n. */
  lemma ReplayPrefix<T>(s: seq<T>, steps: seq<Step>, n: int)
    requires AllInRange(steps, 0, |s| - 1) && 0 < n <= |steps|
    ensures AllInRange(steps[..n], 0, |s| - 1) && AllInRange(steps[1..n], 0, |s| - 1)
    ensures Replay(s, steps[..n]) == Replay(Swap(s, steps[0].i, steps[0].j), steps[1..n])
  {
    SliceInRange(steps, 0, n, 0, |s| - 1);
    SliceInRange(steps, 1, n, 0, |s| - 1);
    assert InRange(steps[0], 0, |s| - 1);
    assert steps[..n] == [steps[0]] + steps[1..n];
    ReplayCons(s, steps[0], steps[1..n]);
  }
}
