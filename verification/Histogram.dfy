/** Histogram differencing and quantile interpolation of bench/replay.py, over exact reals. */
module Histogram {
  import opened Core

  /** An upper bucket bound. */
  datatype Bound = Finite(le: real) | Infinite

  datatype Bucket = Bucket(bound: Bound, count: real)

  predicate Below(a: Bound, b: Bound) {
    a.Finite? && (b.Finite? ==> a.le < b.le)
  }

  /** Buckets as a scrape lists them: strictly increasing bounds, so only the last may be +Inf. */
  predicate Increasing(buckets: seq<Bucket>) {
    forall i, j :: 0 <= i < j < |buckets| ==> Below(buckets[i].bound, buckets[j].bound)
  }

  /** Counts are cumulative. */
  predicate Cumulative(buckets: seq<Bucket>) {
    && (forall i :: 0 <= i < |buckets| ==> buckets[i].count >= 0.0)
    && (forall i, j :: 0 <= i < j < |buckets| ==> buckets[i].count <= buckets[j].count)
  }

  // ----- quantiles -----

  function PrevLe(buckets: seq<Bucket>, i: nat): real
    requires i < |buckets| && Increasing(buckets)
  {
    if i == 0 then 0.0
    else
      assert Below(buckets[i - 1].bound, buckets[i].bound);
      buckets[i - 1].bound.le
  }

  function PrevCount(buckets: seq<Bucket>, i: nat): real
    requires i <= |buckets|
  {
    if i == 0 then 0.0 else buckets[i - 1].count
  }

  function Interpolate(low: real, high: real, before: real, count: real, target: real): real
    requires count > before
  {
    low + (target - before) / (count - before) * (high - low)
  }

  /** The estimate when bucket i is the first to reach the target. */
  function Estimate(buckets: seq<Bucket>, i: nat, target: real): Bound
    requires i < |buckets| && Increasing(buckets)
  {
    var b := buckets[i];
    if b.bound == Infinite then Finite(PrevLe(buckets, i))
    else if b.count <= PrevCount(buckets, i) then b.bound
    else Finite(Interpolate(PrevLe(buckets, i), b.bound.le, PrevCount(buckets, i), b.count, target))
  }

  /** Bucket i is the first whose count reaches the target. */
  ghost predicate FirstReaching(buckets: seq<Bucket>, target: real, i: nat) {
    i < |buckets| && buckets[i].count >= target && forall j :: 0 <= j < i ==> buckets[j].count < target
  }

  function Target(buckets: seq<Bucket>, q: real): real
    requires buckets != []
  {
    q * buckets[|buckets| - 1].count
  }

  /** The answer for a target: the estimate in the first bucket that reaches it, or the last bound
      when none does. */
  ghost predicate Answers(buckets: seq<Bucket>, target: real, r: Bound)
    requires Increasing(buckets) && buckets != []
  {
    || (exists i :: FirstReaching(buckets, target, i) && r == Estimate(buckets, i, target))
    || ((forall i :: 0 <= i < |buckets| ==> buckets[i].count < target) && r == buckets[|buckets| - 1].bound)
  }

  lemma AnswersWithin(buckets: seq<Bucket>, target: real, i: nat)
    requires Increasing(buckets) && FirstReaching(buckets, target, i)
    ensures Answers(buckets, target, Estimate(buckets, i, target))
  {
    hide Estimate;
  }

  lemma AnswersBeyond(buckets: seq<Bucket>, target: real)
    requires Increasing(buckets) && buckets != [] && forall i :: 0 <= i < |buckets| ==> buckets[i].count < target
    ensures Answers(buckets, target, buckets[|buckets| - 1].bound)
  {
  }

  /** The linear interpolation in bucket i, spelled out: from the bound below it, or zero, to its own. */
  predicate IsInterpolated(buckets: seq<Bucket>, i: nat, target: real, r: Bound)
    requires i < |buckets| && Increasing(buckets)
  {
    assert i > 0 ==> Below(buckets[i - 1].bound, buckets[i].bound);
    var low, before := if i == 0 then 0.0 else buckets[i - 1].bound.le, if i == 0 then 0.0 else buckets[i - 1].count;
    var Bucket(bound, count) := buckets[i];
    r == if bound == Infinite then Finite(low)
         else if count <= before then bound
         else Finite(low + (target - before) / (count - before) * (bound.le - low))
  }

  lemma EstimateInterpolates(buckets: seq<Bucket>, i: nat, target: real)
    requires i < |buckets| && Increasing(buckets)
    ensures IsInterpolated(buckets, i, target, Estimate(buckets, i, target))
  {
    assert i > 0 ==> Below(buckets[i - 1].bound, buckets[i].bound);
  }

  method HistogramQuantile(buckets: seq<Bucket>, q: real) returns (r: Option<Bound>)
    requires Increasing(buckets)
    ensures r.None? <==> buckets == [] || buckets[|buckets| - 1].count <= 0.0
    ensures r.Some? ==> Answers(buckets, Target(buckets, q), r.value)
    ensures r.Some? ==> forall i ::
      FirstReaching(buckets, Target(buckets, q), i) ==>
        IsInterpolated(buckets, i, q * buckets[|buckets| - 1].count, r.value)
    ensures r.Some? && (forall i :: 0 <= i < |buckets| ==> buckets[i].count < q * buckets[|buckets| - 1].count) ==>
      r.value == buckets[|buckets| - 1].bound
  {
    hide Answers;
    if buckets == [] {
      return None;
    }
    var total := buckets[|buckets| - 1].count;
    if total <= 0.0 {
      return None;
    }
    var target := Target(buckets, q);
    var prevLe, prevCount := 0.0, 0.0;
    for i := 0 to |buckets|
      invariant forall j :: 0 <= j < i ==> buckets[j].count < target
      invariant i < |buckets| ==> prevLe == PrevLe(buckets, i) && prevCount == PrevCount(buckets, i)
    {
      var Bucket(bound, count) := buckets[i];
      if count >= target {
        AnswersWithin(buckets, target, i);
        var estimate :=
          if bound == Infinite then Finite(prevLe)
          else if count <= prevCount then bound
          else Finite(Interpolate(prevLe, bound.le, prevCount, count, target));
        assert estimate == Estimate(buckets, i, target);
        EstimateInterpolates(buckets, i, target);
        assert FirstReaching(buckets, target, i);
        return Some(estimate);
      }
      prevCount := count;
      if i + 1 < |buckets| {
        assert Below(bound, buckets[i + 1].bound);
        prevLe := bound.le;
      }
    }
    AnswersBeyond(buckets, target);
    return Some(buckets[|buckets| - 1].bound);
  }

  // ----- the estimate stays in its bucket -----

  lemma FractionBetween(part: real, whole: real)
    requires 0.0 <= part <= whole && whole > 0.0
    ensures 0.0 <= part / whole <= 1.0
    ensures part > 0.0 ==> part / whole > 0.0
  {
    var f := part / whole;
    assert f * whole == part;
    assert (f - 1.0) * whole == part - whole;
  }

  lemma ScaledBetween(f: real, span: real)
    requires 0.0 <= f <= 1.0 && span >= 0.0
    ensures 0.0 <= f * span <= span
    ensures f > 0.0 && span > 0.0 ==> f * span > 0.0
  {
    assert (1.0 - f) * span >= 0.0;
    assert (1.0 - f) * span == span - f * span;
  }

  lemma InterpolateBetween(low: real, high: real, before: real, count: real, target: real)
    requires low <= high && before <= target <= count && before < count
    ensures low <= Interpolate(low, high, before, count, target) <= high
    ensures low < high && before < target ==> low < Interpolate(low, high, before, count, target)
  {
    FractionBetween(target - before, count - before);
    ScaledBetween((target - before) / (count - before), high - low);
  }

  lemma InterpolateMonotone(low: real, high: real, before: real, count: real, t1: real, t2: real)
    requires low <= high && before <= t1 <= t2 <= count && before < count
    ensures Interpolate(low, high, before, count, t1) <= Interpolate(low, high, before, count, t2)
  {
    var whole := count - before;
    var f1, f2 := (t1 - before) / whole, (t2 - before) / whole;
    FractionBetween(t2 - t1, whole);
    assert f2 - f1 == (t2 - t1) / whole;
    ScaledBetween((t2 - t1) / whole, high - low);
    assert f2 * (high - low) - f1 * (high - low) == (f2 - f1) * (high - low);
  }

  /** The condition under which interpolating the first bucket from zero is sound. */
  predicate StartsAboveZero(buckets: seq<Bucket>) {
    buckets != [] ==> buckets[0].bound == Infinite || buckets[0].bound.le >= 0.0 || buckets[0].count <= 0.0
  }

  lemma EstimateInBucket(buckets: seq<Bucket>, i: nat, target: real)
    requires Increasing(buckets) && Cumulative(buckets) && StartsAboveZero(buckets)
    requires target >= 0.0 && FirstReaching(buckets, target, i)
    ensures Estimate(buckets, i, target).Finite?
    ensures buckets[i].bound.Finite? ==> Estimate(buckets, i, target).le <= buckets[i].bound.le
    ensures i > 0 || buckets[0].count > 0.0 ==> PrevLe(buckets, i) <= Estimate(buckets, i, target).le
  {
    var b := buckets[i];
    if i > 0 {
      assert Below(buckets[i - 1].bound, b.bound);
    }
    if b.bound.Finite? && b.count > PrevCount(buckets, i) {
      InterpolateBetween(PrevLe(buckets, i), b.bound.le, PrevCount(buckets, i), b.count, target);
    }
  }

  lemma EstimateMonotone(buckets: seq<Bucket>, i: nat, j: nat, t1: real, t2: real)
    requires Increasing(buckets) && Cumulative(buckets) && StartsAboveZero(buckets)
    requires 0.0 <= t1 <= t2 && FirstReaching(buckets, t1, i) && FirstReaching(buckets, t2, j)
    ensures Estimate(buckets, i, t1).Finite? && Estimate(buckets, j, t2).Finite?
    ensures Estimate(buckets, i, t1).le <= Estimate(buckets, j, t2).le
  {
    EstimateInBucket(buckets, i, t1);
    EstimateInBucket(buckets, j, t2);
    if i == j {
      var b := buckets[i];
      if i > 0 {
        assert Below(buckets[i - 1].bound, b.bound);
      }
      if b.bound.Finite? && b.count > PrevCount(buckets, i) {
        InterpolateMonotone(PrevLe(buckets, i), b.bound.le, PrevCount(buckets, i), b.count, t1, t2);
      }
    } else {
      assert i < j;
      assert Below(buckets[i].bound, buckets[j].bound);
      if i < j - 1 {
        assert Below(buckets[i].bound, buckets[j - 1].bound);
      }
    }
  }

  ghost predicate MonotoneOnUnit(buckets: seq<Bucket>)
    requires Increasing(buckets) && buckets != []
  {
    forall p, q, x, y ::
      0.0 <= p <= q <= 1.0 && Answers(buckets, Target(buckets, p), x) && Answers(buckets, Target(buckets, q), y)
      ==> x.Finite? && y.Finite? && x.le <= y.le
  }

  lemma TargetsOrdered(buckets: seq<Bucket>, p: real, q: real)
    requires buckets != [] && buckets[|buckets| - 1].count >= 0.0 && 0.0 <= p <= q <= 1.0
    ensures 0.0 <= Target(buckets, p) <= Target(buckets, q) <= buckets[|buckets| - 1].count
  {
    var total := buckets[|buckets| - 1].count;
    Product(p, total);
    Product(q - p, total);
    Product(1.0 - q, total);
    assert q * total - p * total == (q - p) * total;
    assert total - q * total == (1.0 - q) * total;
  }

  lemma Product(a: real, b: real)
    requires a >= 0.0 && b >= 0.0
    ensures a * b >= 0.0
  {}

  lemma MonotoneWhenAboveZero(buckets: seq<Bucket>, p: real, q: real, x: Bound, y: Bound)
    requires Increasing(buckets) && Cumulative(buckets) && StartsAboveZero(buckets) && buckets != []
    requires 0.0 <= p <= q <= 1.0
    requires Answers(buckets, Target(buckets, p), x) && Answers(buckets, Target(buckets, q), y)
    ensures x.Finite? && y.Finite? && x.le <= y.le
  {
    var t1, t2 := Target(buckets, p), Target(buckets, q);
    TargetsOrdered(buckets, p, q);
    var last := buckets[|buckets| - 1];
    var i :| FirstReaching(buckets, t1, i) && x == Estimate(buckets, i, t1);
    var j :| FirstReaching(buckets, t2, j) && y == Estimate(buckets, j, t2);
    EstimateMonotone(buckets, i, j, t1, t2);
  }

  /** Exact condition: on a cumulative histogram with observations the quantile is monotone in q
      on [0, 1] if and only if the first bucket's bound is not negative or that bucket is empty. */
  lemma MonotoneExactlyWhenAboveZero(buckets: seq<Bucket>)
    requires Increasing(buckets) && Cumulative(buckets)
    requires buckets != [] && buckets[|buckets| - 1].count > 0.0
    ensures MonotoneOnUnit(buckets) <==> StartsAboveZero(buckets)
  {
    if StartsAboveZero(buckets) {
      forall p, q, x, y |
        0.0 <= p <= q <= 1.0 && Answers(buckets, Target(buckets, p), x) && Answers(buckets, Target(buckets, q), y)
        ensures x.Finite? && y.Finite? && x.le <= y.le
      {
        MonotoneWhenAboveZero(buckets, p, q, x, y);
      }
    } else {
      NegativeStartDecreases(buckets);
    }
  }

  /** From zero at q = 0 the estimate falls to the negative bound. */
  lemma NegativeStartDecreases(buckets: seq<Bucket>)
    requires Increasing(buckets) && Cumulative(buckets) && !StartsAboveZero(buckets)
    requires buckets[|buckets| - 1].count > 0.0
    ensures !MonotoneOnUnit(buckets)
  {
    var total, first := buckets[|buckets| - 1].count, buckets[0];
    var q := first.count / total;
    assert first.count <= total;
    FractionBetween(first.count, total);
    assert Target(buckets, 0.0) == 0.0 && Target(buckets, q) == first.count;
    InterpolateEnds(first.bound.le, first.count);
    assert FirstReaching(buckets, 0.0, 0) && FirstReaching(buckets, first.count, 0);
    assert Estimate(buckets, 0, 0.0) == Finite(0.0);
    assert Estimate(buckets, 0, first.count) == first.bound;
    assert Answers(buckets, Target(buckets, 0.0), Finite(0.0)) && Answers(buckets, Target(buckets, q), first.bound);
  }

  lemma InterpolateEnds(high: real, count: real)
    requires count > 0.0
    ensures Interpolate(0.0, high, 0.0, count, 0.0) == 0.0
    ensures Interpolate(0.0, high, 0.0, count, count) == high
  {
    assert (count - 0.0) / (count - 0.0) == 1.0;
  }

  // ----- against the observations -----

  predicate Within(x: real, bound: Bound) {
    bound.Finite? ==> x <= bound.le
  }

  /** Number of observations up to a bound. */
  function CountWithin(observations: seq<real>, bound: Bound): nat {
    if observations == [] then 0
    else
      CountWithin(observations[..|observations| - 1], bound)
      + (if Within(observations[|observations| - 1], bound) then 1 else 0)
  }

  /** Number of observations strictly below x. */
  function CountBelow(observations: seq<real>, x: real): nat {
    if observations == [] then 0
    else CountBelow(observations[..|observations| - 1], x) + (if observations[|observations| - 1] < x then 1 else 0)
  }

  /** The scrape of a histogram with these bounds after these observations. */
  function Scrape(bounds: seq<Bound>, observations: seq<real>): (buckets: seq<Bucket>)
    ensures |buckets| == |bounds|
    ensures forall i :: 0 <= i < |bounds| ==> buckets[i] == Bucket(bounds[i], CountWithin(observations, bounds[i]) as real)
  {
    seq(|bounds|, i requires 0 <= i < |bounds| => Bucket(bounds[i], CountWithin(observations, bounds[i]) as real))
  }

  lemma {:induction false} CountsGrow(observations: seq<real>, a: Bound, b: Bound)
    requires Below(a, b)
    ensures CountWithin(observations, a) <= CountWithin(observations, b)
  {
    if observations != [] {
      CountsGrow(observations[..|observations| - 1], a, b);
    }
  }

  lemma {:induction false} CountAll(observations: seq<real>)
    ensures CountWithin(observations, Infinite) == |observations|
  {
    if observations != [] {
      CountAll(observations[..|observations| - 1]);
    }
  }

  /** Observations up to le are strictly below any x above le. */
  lemma {:induction false} WithinIsBelow(observations: seq<real>, le: real, x: real)
    requires le < x
    ensures CountWithin(observations, Finite(le)) <= CountBelow(observations, x)
  {
    if observations != [] {
      WithinIsBelow(observations[..|observations| - 1], le, x);
    }
  }

  lemma {:induction false} WithinMonotone(observations: seq<real>, x: real, le: real)
    requires x <= le
    ensures CountWithin(observations, Finite(x)) <= CountWithin(observations, Finite(le))
  {
    if observations != [] {
      WithinMonotone(observations[..|observations| - 1], x, le);
    }
  }

  lemma ScrapeIsCumulative(bounds: seq<Bound>, observations: seq<real>)
    requires forall i, j :: 0 <= i < j < |bounds| ==> Below(bounds[i], bounds[j])
    ensures Increasing(Scrape(bounds, observations)) && Cumulative(Scrape(bounds, observations))
  {
    forall i, j | 0 <= i < j < |bounds|
      ensures Scrape(bounds, observations)[i].count <= Scrape(bounds, observations)[j].count
    {
      CountsGrow(observations, bounds[i], bounds[j]);
    }
  }

  /** x is the rank-th smallest observation. */
  ghost predicate HasRank(observations: seq<real>, rank: nat, x: real) {
    CountBelow(observations, x) < rank <= CountWithin(observations, Finite(x))
  }

  /** Accuracy: for q > 0 the estimate and the true observation of rank ceil(q * n) lie in the same
      bucket, whenever that bucket has a finite bound. */
  lemma QuantileInTrueBucket(bounds: seq<Bound>, observations: seq<real>, q: real, rank: nat, x: real, i: nat)
    requires forall a, b :: 0 <= a < b < |bounds| ==> Below(bounds[a], bounds[b])
    requires bounds != [] && bounds[|bounds| - 1] == Infinite && observations != []
    requires 0.0 < q <= 1.0
    requires rank as real - 1.0 < q * |observations| as real <= rank as real
    requires HasRank(observations, rank, x)
    requires Increasing(Scrape(bounds, observations))
    requires FirstReaching(Scrape(bounds, observations), q * |observations| as real, i) && bounds[i].Finite?
    requires i > 0 || bounds[0].le >= 0.0
    ensures Scrape(bounds, observations)[|bounds| - 1].count == |observations| as real
    ensures var estimate := Estimate(Scrape(bounds, observations), i, q * |observations| as real);
      && estimate.Finite?
      && x <= bounds[i].le && estimate.le <= bounds[i].le
      && (i > 0 ==> bounds[i - 1].le < x && bounds[i - 1].le < estimate.le)
  {
    var buckets := Scrape(bounds, observations);
    var target := q * |observations| as real;
    CountAll(observations);
    ScrapeIsCumulative(bounds, observations);
    assert target > 0.0;
    RankInBucket(bounds, observations, target, rank, x, i);
    if i > 0 {
      assert Below(bounds[i - 1], bounds[i]);
      assert buckets[i - 1].count < target;
    }
    InterpolateBetween(PrevLe(buckets, i), bounds[i].le, PrevCount(buckets, i), buckets[i].count, target);
  }

  lemma RankInBucket(bounds: seq<Bound>, observations: seq<real>, target: real, rank: nat, x: real, i: nat)
    requires rank as real - 1.0 < target <= rank as real && HasRank(observations, rank, x)
    requires FirstReaching(Scrape(bounds, observations), target, i) && bounds[i].Finite?
    requires i > 0 ==> bounds[i - 1].Finite?
    ensures x <= bounds[i].le
    ensures i > 0 ==> bounds[i - 1].le < x
  {
    var buckets := Scrape(bounds, observations);
    var within := CountWithin(observations, bounds[i]);
    assert buckets[i].count == within as real;
    assert within >= rank;
    if x > bounds[i].le {
      WithinIsBelow(observations, bounds[i].le, x);
    }
    if i > 0 {
      var before := CountWithin(observations, bounds[i - 1]);
      assert buckets[i - 1].count == before as real;
      assert before < rank;
      if x <= bounds[i - 1].le {
        WithinMonotone(observations, x, bounds[i - 1].le);
      }
    }
  }

  // ----- differencing two scrapes -----

  /** `dict(before).get(le, 0.0)`. */
  function CountAt(buckets: seq<Bucket>, bound: Bound): real {
    if buckets == [] then 0.0
    else if buckets[|buckets| - 1].bound == bound then buckets[|buckets| - 1].count
    else CountAt(buckets[..|buckets| - 1], bound)
  }

  /** Per-bound increase, never negative. Sorting is the identity on increasing bounds. */
  function DiffBuckets(before: seq<Bucket>, after: seq<Bucket>): (diff: seq<Bucket>)
    requires Increasing(after)
    ensures |diff| == |after|
    ensures forall i :: 0 <= i < |after| ==> diff[i].bound == after[i].bound && diff[i].count >= 0.0
    ensures Increasing(diff)
  {
    var diff := seq(|after|, i requires 0 <= i < |after| =>
      var d := after[i].count - CountAt(before, after[i].bound);
      Bucket(after[i].bound, if d > 0.0 then d else 0.0));
    assert forall i, j :: 0 <= i < j < |after| ==> Below(after[i].bound, after[j].bound);
    diff
  }

  lemma {:induction false} CountAtFinds(buckets: seq<Bucket>, i: nat)
    requires i < |buckets| && Increasing(buckets)
    ensures CountAt(buckets, buckets[i].bound) == buckets[i].count
  {
    if i < |buckets| - 1 {
      assert Below(buckets[i].bound, buckets[|buckets| - 1].bound);
      CountAtFinds(buckets[..|buckets| - 1], i);
    }
  }

  lemma {:induction false} CountAtMissing(buckets: seq<Bucket>, bound: Bound)
    requires forall i :: 0 <= i < |buckets| ==> buckets[i].bound != bound
    ensures CountAt(buckets, bound) == 0.0
  {
    if buckets != [] {
      CountAtMissing(buckets[..|buckets| - 1], bound);
    }
  }

  /** What a difference counts: the increase at the same bound, from zero where the bound is new, and zero
      instead of a decrease. */
  lemma DiffCounts(before: seq<Bucket>, after: seq<Bucket>, i: nat)
    requires Increasing(before) && Increasing(after) && i < |after|
    ensures forall j :: 0 <= j < |before| && before[j].bound == after[i].bound ==>
      DiffBuckets(before, after)[i].count == Larger(0.0, after[i].count - before[j].count)
    ensures (forall j :: 0 <= j < |before| ==> before[j].bound != after[i].bound) ==>
      DiffBuckets(before, after)[i].count == Larger(0.0, after[i].count)
  {
    forall j | 0 <= j < |before| && before[j].bound == after[i].bound
      ensures CountAt(before, after[i].bound) == before[j].count
    {
      CountAtFinds(before, j);
    }
    if forall j :: 0 <= j < |before| ==> before[j].bound != after[i].bound {
      CountAtMissing(before, after[i].bound);
    }
  }

  function Larger(a: real, b: real): real {
    if a > b then a else b
  }

  lemma {:induction false} CountsAdd(a: seq<real>, b: seq<real>, bound: Bound)
    ensures CountWithin(a + b, bound) == CountWithin(a, bound) + CountWithin(b, bound)
  {
    if b == [] {
      assert a + b == a;
    } else {
      assert (a + b)[..|a + b| - 1] == a + b[..|b| - 1];
      CountsAdd(a, b[..|b| - 1], bound);
    }
  }

  /** Differencing two scrapes yields the histogram of the observations in between. */
  lemma DiffIsHistogramBetween(bounds: seq<Bound>, earlier: seq<real>, later: seq<real>)
    requires forall i, j :: 0 <= i < j < |bounds| ==> Below(bounds[i], bounds[j])
    ensures Increasing(Scrape(bounds, earlier + later))
    ensures DiffBuckets(Scrape(bounds, earlier), Scrape(bounds, earlier + later)) == Scrape(bounds, later)
  {
    ScrapeIsCumulative(bounds, earlier);
    ScrapeIsCumulative(bounds, earlier + later);
    var diff := DiffBuckets(Scrape(bounds, earlier), Scrape(bounds, earlier + later));
    forall i | 0 <= i < |bounds|
      ensures diff[i] == Scrape(bounds, later)[i]
    {
      CountAtFinds(Scrape(bounds, earlier), i);
      CountsAdd(earlier, later, bounds[i]);
    }
  }
}
