/** utils.py AverageMeter: a running, count-weighted average of the
    values reported since the last reset. */
module Meters {

  /** One call `update(val, n)`: a value and the number of items it stands for. */
  datatype Report = Report(value: real, weight: int)

  /** Σ value·weight over the reports. */
  function WeightedSum(h: seq<Report>): real
    decreases |h|
  {
    if h == [] then 0.0 else WeightedSum(h[..|h| - 1]) + h[|h| - 1].value * h[|h| - 1].weight as real
  }

  /** Σ weight over the reports. */
  function TotalWeight(h: seq<Report>): int
    decreases |h|
  {
    if h == [] then 0 else TotalWeight(h[..|h| - 1]) + h[|h| - 1].weight
  }

  class AverageMeter {
    var val: real
    var avg: real
    var sum: real
    var count: int
    /** The reports received since construction or the last reset. */
    ghost var history: seq<Report>

    /** sum and count accumulate the history; avg is their quotient once
        something was reported, and val is the latest value. */
    ghost predicate Valid()
      reads this
    {
      && sum == WeightedSum(history)
      && count == TotalWeight(history)
      && (history == [] ==> val == 0.0 && avg == 0.0)
      && (history != [] ==> count != 0 && val == history[|history| - 1].value && avg == sum / count as real)
    }

    constructor ()
      ensures Valid() && history == []
      ensures val == 0.0 && avg == 0.0 && sum == 0.0 && count == 0
    {
      val, avg, sum, count := 0.0, 0.0, 0.0, 0;
      history := [];
    }

    method Reset()
      modifies this
      ensures Valid() && history == []
      ensures val == 0.0 && avg == 0.0 && sum == 0.0 && count == 0
    {
      val, avg, sum, count := 0.0, 0.0, 0.0, 0;
      history := [];
    }

    /** `update(val, n)`. Python divides by the new count, which raises
        ZeroDivisionError when it is 0; callers never reach that. */
    method Update(v: real, n: int)
      requires Valid() && count + n != 0
      modifies this
      ensures Valid() && history == old(history) + [Report(v, n)]
      ensures val == v && sum == old(sum) + v * n as real && count == old(count) + n
      ensures avg == sum / count as real
    {
      val := v;
      sum := sum + v * n as real;
      count := count + n;
      avg := sum / count as real;
      history := history + [Report(v, n)];
      assert history[..|history| - 1] == old(history);
    }
  }

  lemma ScaleMonotone(a: real, b: real, w: real)
    requires a <= b && w >= 0.0
    ensures a * w <= b * w
  {
    assert b * w - a * w == (b - a) * w;
  }

  /** One more report keeps the weighted sum within the bounds. */
  lemma BoundsStep(lo: real, hi: real, s: real, t: real, v: real, w: real)
    requires lo * t <= s <= hi * t && lo <= v <= hi && w >= 0.0
    ensures lo * (t + w) <= s + v * w <= hi * (t + w)
  {
    ScaleMonotone(lo, v, w);
    ScaleMonotone(v, hi, w);
    assert lo * (t + w) == lo * t + lo * w;
    assert hi * (t + w) == hi * t + hi * w;
  }

  /** With positive weights, the weighted sum lies between lo and hi times
      the total weight when every value does. */
  lemma {:induction false} WeightedSumBounds(h: seq<Report>, lo: real, hi: real)
    requires forall k :: 0 <= k < |h| ==> h[k].weight > 0 && lo <= h[k].value <= hi
    ensures TotalWeight(h) >= |h|
    ensures lo * TotalWeight(h) as real <= WeightedSum(h) <= hi * TotalWeight(h) as real
    decreases |h|
  {
    if h != [] {
      var init, last := h[..|h| - 1], h[|h| - 1];
      WeightedSumBounds(init, lo, hi);
      BoundsStep(lo, hi, WeightedSum(init), TotalWeight(init) as real, last.value, last.weight as real);
      assert TotalWeight(h) as real == TotalWeight(init) as real + last.weight as real;
    }
  }

  lemma QuotientBounds(s: real, t: real, lo: real, hi: real)
    requires t > 0.0 && lo * t <= s <= hi * t
    ensures lo <= s / t && s / t <= hi
  {
    var q := s / t;
    assert q * t == s;
    if q < lo {
      ScaleMonotone(q, lo, t);
    }
    if q > hi {
      ScaleMonotone(hi, q, t);
    }
  }

  /** The average a meter reports is a true average: it lies between the
      smallest and the largest value reported, when counts are positive. */
  lemma AverageWithinRange(h: seq<Report>, lo: real, hi: real)
    requires h != []
    requires forall k :: 0 <= k < |h| ==> h[k].weight > 0 && lo <= h[k].value <= hi
    ensures TotalWeight(h) > 0
    ensures lo <= WeightedSum(h) / TotalWeight(h) as real <= hi
  {
    WeightedSumBounds(h, lo, hi);
    AverageBounds(WeightedSum(h), TotalWeight(h), |h|, lo, hi);
  }

  lemma AverageBounds(s: real, t: int, n: nat, lo: real, hi: real)
    requires n > 0 && t >= n && lo * t as real <= s <= hi * t as real
    ensures t > 0 && lo <= s / t as real <= hi
  {
    QuotientBounds(s, t as real, lo, hi);
  }
}
