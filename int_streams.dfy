/**
 * `java.util.stream.IntStream`: `range`, `sum` and `summaryStatistics`, and
 * the `skip` of a range.
 */
module IntStreams {
  import opened JavaInt
  import opened Streams

  /** `IntStream.range(a, b)`: `a`, `a + 1`, ..., `b - 1`; empty when `b <= a`. */
  function Range(a: int, b: int): (r: seq<int>)
    ensures |r| == if a < b then b - a else 0
    ensures forall i :: 0 <= i < |r| ==> r[i] == a + i
    decreases b - a
  {
    if a < b then [a] + Range(a + 1, b) else []
  }

  /** Skipping `k` elements of a range starts the range `k` later. */
  lemma SkipRange(a: int, b: int, k: nat)
    ensures Skip(Range(a, b), k) == Range(a + k, b)
  {
  }

  /** The exact sum of the elements, added from left to right. */
  function Sum(s: seq<int>): (r: int)
    ensures (forall i :: 0 <= i < |s| ==> s[i] >= 0) ==> r >= 0
  {
    if s == [] then 0 else Sum(s[..|s| - 1]) + s[|s| - 1]
  }

  /**
   * `IntStream.sum()`: `reduce(0, Integer::sum)`, so every partial sum wraps
   * around at 32 bits.
   */
  function IntSum(s: seq<int>): (r: int)
    ensures InRange(r)
  {
    if s == [] then 0 else Wrap(IntSum(s[..|s| - 1]) + s[|s| - 1])
  }

  /** Wrapping each partial sum gives the exact sum, wrapped once. */
  lemma {:induction false} IntSumIsWrappedSum(s: seq<int>)
    ensures IntSum(s) == Wrap(Sum(s))
  {
    if s != [] {
      var init := s[..|s| - 1];
      IntSumIsWrappedSum(init);
      WrapAdd(Sum(init), s[|s| - 1]);
    }
  }

  /** Appending one more element to a range. */
  lemma RangeSnoc(a: int, b: int)
    requires a <= b
    ensures Range(a, b + 1) == Range(a, b) + [b]
  {
  }

  /** The sum of a range: twice the sum is the count times (first + last). */
  lemma {:induction false} SumRange(a: int, b: int)
    requires a <= b
    ensures 2 * Sum(Range(a, b)) == (b - a) * (a + b - 1)
    decreases b - a
  {
    if a < b {
      SumRange(a, b - 1);
      SumRangeSnoc(a, b - 1);
      RangeSumStep(Sum(Range(a, b - 1)), a, b - 1);
    }
  }

  /** The sum of a range one longer is the old sum plus the new last element. */
  lemma SumRangeSnoc(a: int, c: int)
    requires a <= c
    ensures Sum(Range(a, c + 1)) == Sum(Range(a, c)) + c
  {
    RangeSnoc(a, c);
    var r := Range(a, c + 1);
    assert r[..|r| - 1] == Range(a, c);
  }

  /** The arithmetic of one step of SumRange. */
  lemma RangeSumStep(prev: int, a: int, c: int)
    requires 2 * prev == (c - a) * (a + c - 1)
    ensures 2 * (prev + c) == (c + 1 - a) * (a + c)
  {
    var m := c - a;
    var k := a + c;
    assert (m + 1) * k == m * k + k;
    assert m * (k - 1) == m * k - m;
  }

  /** The `int` sum of a range whose exact sum fits in an `int`. */
  lemma IntSumRange(a: int, b: int)
    requires a <= b
    requires InRange((b - a) * (a + b - 1) / 2)
    ensures IntSum(Range(a, b)) == (b - a) * (a + b - 1) / 2
  {
    SumRange(a, b);
    IntSumIsWrappedSum(Range(a, b));
  }

  // ---------------------------------------------------------------------------
  // summaryStatistics()

  /**
   * `IntSummaryStatistics` without its `average` field: `count` and `sum`
   * are `long`s, `min` starts at `Integer.MAX_VALUE` and `max` at
   * `Integer.MIN_VALUE`.
   */
  datatype IntSummary = IntSummary(count: int, sum: int, min: int, max: int)

  const EmptySummary := IntSummary(0, 0, MaxInt, MinInt)

  function Min(x: int, y: int): int { if x <= y then x else y }
  function Max(x: int, y: int): int { if x >= y then x else y }

  /** `accept(value)`: one more element counted, added, and compared. */
  function Accept(st: IntSummary, v: int): (r: IntSummary)
    ensures r.count == st.count + 1 && r.sum - st.sum == v
    ensures r.min <= v <= r.max && r.min <= st.min && st.max <= r.max
    ensures (r.min == st.min || r.min == v) && (r.max == st.max || r.max == v)
  {
    IntSummary(st.count + 1, st.sum + v, Min(st.min, v), Max(st.max, v))
  }

  /** `summaryStatistics()`: every element accepted, left to right. */
  function Summarize(s: seq<Int32>): (r: IntSummary)
    ensures r.count == |s| && r.sum == Sum(s)
    ensures s != [] ==> r.min <= r.max
  {
    if s == [] then EmptySummary
    else Accept(Summarize(s[..|s| - 1]), s[|s| - 1])
  }

  /**
   * The summary of a non-empty stream: count is the length, sum the sum, and
   * min and max are elements that bound every element.
   */
  lemma {:induction false} SummarizeSpec(s: seq<Int32>)
    ensures Summarize(s).count == |s| && Summarize(s).sum == Sum(s)
    ensures forall i :: 0 <= i < |s| ==> Summarize(s).min <= s[i] <= Summarize(s).max
    ensures s != [] ==> Summarize(s).min in s && Summarize(s).max in s
    ensures s == [] ==> Summarize(s) == EmptySummary
  {
    if s != [] {
      var init, last := s[..|s| - 1], s[|s| - 1];
      SummarizeSpec(init);
      var r0, r := Summarize(init), Summarize(s);
      assert r == Accept(r0, last);
      forall i | 0 <= i < |s|
        ensures r.min <= s[i] <= r.max
      {
        if i < |init| { assert s[i] == init[i]; }
      }
      if init == [] {
        assert r.min == last && r.max == last;
      }
      assert s == init + [last];
    }
  }
}
