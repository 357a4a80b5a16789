/**
 Random number generation with the single repair pass: `numberCount` values
 drawn in [1, MAX_NUMBER_VALUE]; when none of them is at most
 MIN_SPECIAL_NUMBER, one drawn slot is overwritten with a value in
 [1, MIN_SPECIAL_NUMBER]. The draws of `java.util.Random` are an input.
 */
module Generator {

  const MAX_NUMBER_VALUE := 1000
  const MIN_SPECIAL_NUMBER := 30
  const MAX_NUMBER_COUNT := 1000

  /**
   What `java.util.Random` hands the generator: `values[k]` is the k-th
   `nextInt(MAX_NUMBER_VALUE)`, `slot` the `nextInt(numberCount)` and
   `special` the `nextInt(MIN_SPECIAL_NUMBER)` of the repair pass (the last
   two are drawn only when the repair pass runs).
   */
  datatype Draws = Draws(values: seq<int>, slot: int, special: int)

  /** The draws are what `nextInt` can return for a run of `count` numbers. */
  predicate Fits(d: Draws, count: int) {
    && |d.values| == count
    && (forall k :: 0 <= k < |d.values| ==> 0 <= d.values[k] < MAX_NUMBER_VALUE)
    && 0 <= d.slot < count
    && 0 <= d.special < MIN_SPECIAL_NUMBER
  }

  /** Some value is at most MIN_SPECIAL_NUMBER. */
  predicate HasSpecial(s: seq<int>) {
    exists k :: 0 <= k < |s| && s[k] <= MIN_SPECIAL_NUMBER
  }

  /** The first loop's values: each draw plus one. */
  function Drawn(d: Draws): (r: seq<int>)
    ensures |r| == |d.values|
    ensures forall k :: 0 <= k < |r| ==> r[k] == d.values[k] + 1
  {
    seq(|d.values|, k requires 0 <= k < |d.values| => d.values[k] + 1)
  }

  /**
   The generated numbers. The count must be positive: `nextInt(numberCount)`
   rejects a bound of zero or less.
   */
  function Generate(count: int, d: Draws): (r: seq<int>)
    requires 1 <= count && Fits(d, count)
    ensures |r| == count
    ensures forall k :: 0 <= k < count ==> 1 <= r[k] <= MAX_NUMBER_VALUE
    ensures HasSpecial(r)
    ensures forall k :: 0 <= k < count && k != d.slot ==> r[k] == d.values[k] + 1
    ensures r[d.slot] == d.values[d.slot] + 1 || r[d.slot] == d.special + 1
    ensures r == Drawn(d) <==> HasSpecial(Drawn(d))
  {
    var drawn := Drawn(d);
    if HasSpecial(drawn) then drawn
    else
      var r := drawn[d.slot := d.special + 1];
      assert r[d.slot] <= MIN_SPECIAL_NUMBER;
      r
  }

  /**
   The generator as the program runs it: one loop that draws and tracks
   whether a small value was seen, the repair pass, then the planning copy.
   */
  method GenerateRandomNumbers(count: int, d: Draws) returns (numbers: seq<int>, planning: seq<int>)
    requires 1 <= count && Fits(d, count)
    ensures numbers == Generate(count, d)
    ensures planning == numbers
    ensures |numbers| == count && HasSpecial(numbers)
  {
    var a := new int[count];
    var hasLessThanThirty := false;
    var i := 0;
    while i < count
      invariant 0 <= i <= count
      invariant forall k :: 0 <= k < i ==> a[k] == d.values[k] + 1
      invariant hasLessThanThirty <==> exists k :: 0 <= k < i && a[k] <= MIN_SPECIAL_NUMBER
    {
      a[i] := d.values[i] + 1;
      if a[i] <= MIN_SPECIAL_NUMBER {
        hasLessThanThirty := true;
      }
      i := i + 1;
    }
    assert a[..] == Drawn(d);
    if !hasLessThanThirty {
      a[d.slot] := d.special + 1;
    }
    numbers := a[..];
    planning := numbers;
  }
}
