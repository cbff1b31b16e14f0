/** The robust weighted average of strathmark/decay.py in real arithmetic. */
module WeightedAverage {
  import opened Wrappers
  import opened Lists
  import opened Medians

  // ---------------------------------------------------------------- sums

  /** The sum of f over a list. */
  function Sum<A>(f: A -> real, s: seq<A>): real {
    if s == [] then 0.0 else f(s[0]) + Sum(f, s[1..])
  }

  lemma SumHead<A>(f: A -> real, s: seq<A>)
    requires s != []
    ensures Sum(f, s) == f(s[0]) + Sum(f, s[1..])
  {}

  lemma {:induction false} SumWithout<A>(f: A -> real, s: seq<A>, i: nat)
    requires i < |s|
    ensures Sum(f, s) == f(s[i]) + Sum(f, Without(s, i))
  {
    if i > 0 {
      SumWithout(f, s[1..], i - 1);
      WithoutTail(s, i);
    } else {
      assert Without(s, i) == s[1..];
    }
  }

  lemma {:induction false} SumForgetsOrder<A>(f: A -> real, s: seq<A>, t: seq<A>)
    requires multiset(s) == multiset(t)
    ensures Sum(f, s) == Sum(f, t)
  {
    if s == [] {
      assert |t| == |multiset(t)| == 0;
    } else {
      var i := Find(s, t);
      SumForgetsOrder(f, s[1..], Without(t, i));
      SumWithout(f, t, i);
    }
  }

  lemma {:induction false} SumDependsOnValues<A>(f: A -> real, g: A -> real, s: seq<A>)
    requires forall x | x in s :: f(x) == g(x)
    ensures Sum(f, s) == Sum(g, s)
  {
    if s != [] {
      assert s[0] in s && forall x | x in s[1..] :: x in s;
      SumDependsOnValues(f, g, s[1..]);
    }
  }

  lemma {:induction false} SumIsPositive<A>(f: A -> real, s: seq<A>)
    requires forall x | x in s :: f(x) >= 0.0
    ensures Sum(f, s) >= 0.0
  {
    if s != [] {
      assert s[0] in s && forall x | x in s[1..] :: x in s;
      SumIsPositive(f, s[1..]);
    }
  }

  lemma {:induction false} SumIsNegative<A>(f: A -> real, s: seq<A>)
    requires forall x | x in s :: f(x) <= 0.0
    ensures Sum(f, s) <= 0.0
  {
    if s != [] {
      assert s[0] in s && forall x | x in s[1..] :: x in s;
      SumIsNegative(f, s[1..]);
    }
  }

  // ---------------------------------------------------------------- the average

  datatype Sample = Sample(time: real, weight: real)

  datatype AverageError = UnequalLengths | Empty | NoWeight

  function Zip(times: seq<real>, weights: seq<real>): seq<Sample>
    requires |times| == |weights|
  {
    seq(|times|, i requires 0 <= i < |times| => Sample(times[i], weights[i]))
  }

  function Time(): Sample -> real { (x: Sample) => x.time }
  function Weight(): Sample -> real { (x: Sample) => x.weight }

  function Abs(x: real): real {
    if x < 0.0 then -x else x
  }

  function Clip(x: real, low: real, high: real): real {
    if x < low then low else if x > high then high else x
  }

  function Deviation(median: real): Sample -> real {
    (x: Sample) => Abs(x.time - median)
  }

  function Distances(samples: seq<Sample>, median: real): (r: seq<real>)
    ensures |r| == |samples|
  {
    Map(Deviation(median), samples)
  }

  /** The median of the times, and the median distance from it. */
  function Middle(samples: seq<Sample>): real
    requires samples != []
  {
    Median(Map(Time(), samples))
  }

  function Mad(samples: seq<Sample>): real
    requires samples != []
  {
    Median(Distances(samples, Middle(samples)))
  }

  /** How a time is clipped: not at all below five samples or without spread. */
  function Clipping(count: nat, median: real, mad: real): real -> real {
    if count < 5 || mad <= 0.0 then (t: real) => t
    else (t: real) => Clip(t, median - 2.5 * mad, median + 2.5 * mad)
  }

  function ClippingOf(samples: seq<Sample>): real -> real
    requires samples != []
  {
    Clipping(|samples|, Middle(samples), Mad(samples))
  }

  function Weighed(clip: real -> real): Sample -> real {
    (x: Sample) => clip(x.time) * x.weight
  }

  function Mean(clip: real -> real, samples: seq<Sample>): Result<real, AverageError> {
    if Sum(Weight(), samples) <= 0.0 then Err(NoWeight)
    else Ok(Sum(Weighed(clip), samples) / Sum(Weight(), samples))
  }

  function Robust(samples: seq<Sample>): Result<real, AverageError> {
    if samples == [] then Err(Empty) else Mean(ClippingOf(samples), samples)
  }

  function ComputeWeightedAverage(times: seq<real>, weights: seq<real>): Result<real, AverageError> {
    if |times| != |weights| then Err(UnequalLengths) else Robust(Zip(times, weights))
  }

  // ---------------------------------------------------------------- what it promises

  /** The pull of the samples on a value: zero exactly at the weighted mean. */
  function Pull(clip: real -> real, value: real): Sample -> real {
    (x: Sample) => (clip(x.time) - value) * x.weight
  }

  lemma {:induction false} PullIsLinear(clip: real -> real, samples: seq<Sample>, value: real)
    ensures Sum(Pull(clip, value), samples)
            == Sum(Weighed(clip), samples) - value * Sum(Weight(), samples)
  {
    if samples != [] {
      var w, rest := samples[0].weight, Sum(Weight(), samples[1..]);
      PullIsLinear(clip, samples[1..], value);
      Distribute(value, w, rest);
      Distribute(w, clip(samples[0].time), -value);
    }
  }

  lemma Distribute(a: real, b: real, c: real)
    ensures a * (b + c) == a * b + a * c && (b + c) * a == a * b + a * c
  {}

  /** The mean is the one value the clipped times balance around. */
  lemma MeanBalances(clip: real -> real, samples: seq<Sample>, value: real)
    requires Sum(Weight(), samples) > 0.0
    ensures Mean(clip, samples) == Ok(value) <==> Sum(Pull(clip, value), samples) == 0.0
  {
    PullIsLinear(clip, samples, value);
    Quotient(Sum(Weighed(clip), samples), Sum(Weight(), samples), value);
  }

  lemma Quotient(x: real, total: real, value: real)
    requires total > 0.0
    ensures x / total == value <==> x - value * total == 0.0
  {
    assert (x / total) * total == x;
    if x == value * total {
      assert (x / total - value) * total == 0.0;
    }
  }

  lemma PulledUp(clip: real -> real, samples: seq<Sample>, value: real)
    requires forall x | x in samples :: x.weight >= 0.0 && value <= clip(x.time)
    ensures Sum(Pull(clip, value), samples) >= 0.0
  {
    forall x | x in samples ensures Pull(clip, value)(x) >= 0.0 {
      Signs(clip(x.time) - value, x.weight);
    }
    SumIsPositive(Pull(clip, value), samples);
  }

  lemma PulledDown(clip: real -> real, samples: seq<Sample>, value: real)
    requires forall x | x in samples :: x.weight >= 0.0 && clip(x.time) <= value
    ensures Sum(Pull(clip, value), samples) <= 0.0
  {
    forall x | x in samples ensures Pull(clip, value)(x) <= 0.0 {
      Signs(clip(x.time) - value, x.weight);
    }
    SumIsNegative(Pull(clip, value), samples);
  }

  lemma Signs(x: real, w: real)
    requires w >= 0.0
    ensures (x >= 0.0 ==> x * w >= 0.0) && (x <= 0.0 ==> x * w <= 0.0)
  {}

  /** An interval that contains every clipped time contains the mean. */
  lemma MeanIsBetween(clip: real -> real, samples: seq<Sample>, low: real, high: real)
    requires Mean(clip, samples).Ok?
    requires forall x | x in samples :: x.weight >= 0.0 && low <= clip(x.time) <= high
    ensures low <= Mean(clip, samples).value <= high
  {
    SumsAreBetween(clip, samples, low, high);
    Divide(low, Sum(Weighed(clip), samples), high, Sum(Weight(), samples));
  }

  lemma SumsAreBetween(clip: real -> real, samples: seq<Sample>, low: real, high: real)
    requires forall x | x in samples :: x.weight >= 0.0 && low <= clip(x.time) <= high
    ensures low * Sum(Weight(), samples) <= Sum(Weighed(clip), samples) <= high * Sum(Weight(), samples)
  {
    PulledUp(clip, samples, low);
    PulledDown(clip, samples, high);
    PullIsLinear(clip, samples, low);
    PullIsLinear(clip, samples, high);
  }

  lemma Divide(low: real, x: real, high: real, total: real)
    requires total > 0.0 && low * total <= x <= high * total
    ensures low <= x / total <= high
  {
    assert (x / total) * total == x;
    CancelLe(low, x / total, total);
    CancelLe(x / total, high, total);
  }

  lemma CancelLe(x: real, y: real, w: real)
    requires w > 0.0 && x * w <= y * w
    ensures x <= y
  {
    assert (y - x) * w >= 0.0;
  }

  lemma ClippingStaysInside(count: nat, median: real, mad: real, low: real, high: real, time: real)
    requires low <= median <= high && low <= time <= high
    ensures low <= Clipping(count, median, mad)(time) <= high
  {}

  lemma MiddleIsBetween(samples: seq<Sample>, low: real, high: real)
    requires samples != [] && forall x | x in samples :: low <= x.time <= high
    ensures low <= Middle(samples) <= high
  {
    var times := Map(Time(), samples);
    forall t | t in times ensures low <= t <= high {
      var i :| 0 <= i < |times| && times[i] == t;
      assert samples[i] in samples;
    }
    MedianIsBetween(times, low, high);
  }

  /** The average lies between the smallest and the largest time: clipping never leaves the
      range of the times because their median is inside it. */
  lemma AverageStaysInRange(samples: seq<Sample>, low: real, high: real)
    requires Robust(samples).Ok?
    requires forall x | x in samples :: x.weight >= 0.0 && low <= x.time <= high
    ensures low <= Robust(samples).value <= high
  {
    MiddleIsBetween(samples, low, high);
    var clip := ClippingOf(samples);
    forall x | x in samples ensures low <= clip(x.time) <= high {
      ClippingStaysInside(|samples|, Middle(samples), Mad(samples), low, high, x.time);
    }
    MeanIsBetween(clip, samples, low, high);
  }

  /** With at least five times and a positive spread the average is within 2.5 spreads of the
      median, however extreme a time or its weight is. */
  lemma OutliersAreBounded(samples: seq<Sample>)
    requires Robust(samples).Ok? && |samples| >= 5 && Mad(samples) > 0.0
    requires forall x | x in samples :: x.weight >= 0.0
    ensures Abs(Robust(samples).value - Middle(samples)) <= 2.5 * Mad(samples)
  {
    var clip, middle, reach := ClippingOf(samples), Middle(samples), 2.5 * Mad(samples);
    assert forall x | x in samples :: middle - reach <= clip(x.time) <= middle + reach;
    MeanIsBetween(clip, samples, middle - reach, middle + reach);
  }

  lemma ClippingKeeps(count: nat, median: real, mad: real, time: real)
    requires count < 5 || mad <= 0.0 || Abs(time - median) <= 2.5 * mad
    ensures Clipping(count, median, mad)(time) == time
  {}

  lemma SameMeans(clip: real -> real, other: real -> real, samples: seq<Sample>)
    requires forall x | x in samples :: clip(x.time) == other(x.time)
    ensures Mean(clip, samples) == Mean(other, samples)
  {
    SumDependsOnValues(Weighed(clip), Weighed(other), samples);
  }

  /** Clipping changes only outliers: with few samples, no spread, or every time within 2.5
      spreads, the average is the plain weighted mean. */
  lemma PlainWithoutOutliers(samples: seq<Sample>)
    requires samples != []
    requires |samples| < 5 || Mad(samples) <= 0.0
             || forall x | x in samples :: Abs(x.time - Middle(samples)) <= 2.5 * Mad(samples)
    ensures Robust(samples) == Mean((t: real) => t, samples)
  {
    var clip := ClippingOf(samples);
    forall x | x in samples ensures clip(x.time) == x.time {
      ClippingKeeps(|samples|, Middle(samples), Mad(samples), x.time);
    }
    SameMeans(clip, (t: real) => t, samples);
  }

  /** An outlier weighs in at the edge of the interval it is clipped to. */
  lemma OutliersCountAsTheEdge(samples: seq<Sample>, x: Sample)
    requires |samples| >= 5 && Mad(samples) > 0.0 && Abs(x.time - Middle(samples)) > 2.5 * Mad(samples)
    ensures ClippingOf(samples)(x.time)
            == if x.time > Middle(samples) then Middle(samples) + 2.5 * Mad(samples)
               else Middle(samples) - 2.5 * Mad(samples)
  {}

  // ---------------------------------------------------------------- how far an outlier lies

  /** Both times lie beyond the clipping interval, on the same side. */
  ghost predicate BothBeyond(samples: seq<Sample>, time: real, other: real)
    requires samples != []
  {
    var median, reach := Middle(samples), 2.5 * Mad(samples);
    || (time > median + reach && other > median + reach)
    || (time < median - reach && other < median - reach)
  }

  lemma SpreadCoversHalves(samples: seq<Sample>, low: seq<real>, high: seq<real>, a: real, b: real)
    requires samples != [] && Halved(Map(Time(), samples), low, high, a, b)
    ensures Mad(samples) >= b - Middle(samples) && Mad(samples) >= Middle(samples) - a
  {
    var times, m := Map(Time(), samples), Middle(samples);
    MedianOfHalves(times, low, high, a, b);
    var distances := Distances(samples, m);
    forall d | d in distances ensures b - m <= d && m - a <= d {
      var i :| 0 <= i < |distances| && distances[i] == d;
      assert d == Abs(times[i] - m);
      assert times[i] in multiset(times);
      assert times[i] in low || times[i] in high;
    }
    MedianIsAtLeast(distances, b - m);
    MedianIsAtLeast(distances, m - a);
  }

  lemma MiddleStays(samples: seq<Sample>, i: nat, time: real)
    requires i < |samples| && Mad(samples) > 0.0 && BothBeyond(samples, samples[i].time, time)
    ensures Middle(samples[i := Sample(time, samples[i].weight)]) == Middle(samples)
  {
    var moved, times := samples[i := Sample(time, samples[i].weight)], Map(Time(), samples);
    var low, high, a, b := HalvesExist(times);
    SpreadCoversHalves(samples, low, high, a, b);
    assert Map(Time(), moved) == times[i := time];
    MedianIgnoresFar(times, i, time, low, high, a, b);
  }

  lemma MadStays(samples: seq<Sample>, i: nat, time: real)
    requires i < |samples| && Mad(samples) > 0.0 && BothBeyond(samples, samples[i].time, time)
    ensures Mad(samples[i := Sample(time, samples[i].weight)]) == Mad(samples)
  {
    var moved, m := samples[i := Sample(time, samples[i].weight)], Middle(samples);
    MiddleStays(samples, i, time);
    var distances := Distances(samples, m);
    DistancesMove(samples, i, time, m);
    var low, high, a, b := HalvesExist(distances);
    FarFromHalves(distances, i, Abs(time - m), low, high, a, b);
    MedianIgnoresFar(distances, i, Abs(time - m), low, high, a, b);
  }

  /** More than 2.5 times the median of distances is more than their inner values. */
  lemma FarFromHalves(
      distances: seq<real>, i: nat, other: real, low: seq<real>, high: seq<real>, a: real, b: real)
    requires i < |distances| && Halved(distances, low, high, a, b) && Median(distances) > 0.0
    requires forall k | 0 <= k < |distances| :: distances[k] >= 0.0
    requires distances[i] > 2.5 * Median(distances) && other > 2.5 * Median(distances)
    ensures distances[i] > b && other > b
  {
    MedianOfHalves(distances, low, high, a, b);
    if |distances| % 2 == 0 {
      assert a in multiset(distances);
      var k :| 0 <= k < |distances| && distances[k] == a;
    }
  }

  lemma DistancesMove(samples: seq<Sample>, i: nat, time: real, m: real)
    requires i < |samples|
    ensures Distances(samples[i := Sample(time, samples[i].weight)], m) == Distances(samples, m)[i := Abs(time - m)]
    ensures forall k | 0 <= k < |samples| :: Distances(samples, m)[k] == Abs(samples[k].time - m)
  {}

  lemma {:induction false} SumUpdate<A>(f: A -> real, s: seq<A>, i: nat, x: A)
    requires i < |s| && f(x) == f(s[i])
    ensures Sum(f, s[i := x]) == Sum(f, s)
  {
    var t := s[i := x];
    if i == 0 {
      assert t[1..] == s[1..];
    } else {
      assert t[0] == s[0] && t[1..] == s[1..][i - 1 := x];
      SumUpdate(f, s[1..], i - 1, x);
    }
  }

  lemma MeanStays(clip: real -> real, samples: seq<Sample>, i: nat, x: Sample)
    requires i < |samples| && x.weight == samples[i].weight && clip(x.time) == clip(samples[i].time)
    ensures Mean(clip, samples[i := x]) == Mean(clip, samples)
  {
    SumUpdate(Weight(), samples, i, x);
    SumUpdate(Weighed(clip), samples, i, x);
  }

  /** An outlier has the influence of its weight and its side, and none of its distance: moving
      it beyond the clipping interval leaves median, spread and average as they are. */
  lemma OutlierDistanceDoesNotMatter(samples: seq<Sample>, i: nat, time: real)
    requires i < |samples| && |samples| >= 5 && Mad(samples) > 0.0
    requires BothBeyond(samples, samples[i].time, time)
    ensures Robust(samples[i := Sample(time, samples[i].weight)]) == Robust(samples)
  {
    var x := Sample(time, samples[i].weight);
    MiddleStays(samples, i, time);
    MadStays(samples, i, time);
    BothClipAlike(samples, samples[i], x);
    SameSpreadSameClipping(samples, samples[i := x]);
    MeanStays(ClippingOf(samples), samples, i, x);
  }

  lemma BothClipAlike(samples: seq<Sample>, x: Sample, y: Sample)
    requires |samples| >= 5 && Mad(samples) > 0.0 && BothBeyond(samples, x.time, y.time)
    ensures ClippingOf(samples)(x.time) == ClippingOf(samples)(y.time)
  {
    OutliersCountAsTheEdge(samples, x);
    OutliersCountAsTheEdge(samples, y);
  }

  lemma SameSpreadSameClipping(samples: seq<Sample>, other: seq<Sample>)
    requires samples != [] && |other| == |samples|
    requires Middle(other) == Middle(samples) && Mad(other) == Mad(samples)
    ensures Robust(other) == Mean(ClippingOf(samples), other) && Robust(samples) == Mean(ClippingOf(samples), samples)
  {}

  /** When there is an average at all, and which error is reported otherwise. */
  lemma AverageExistsIff(times: seq<real>, weights: seq<real>)
    ensures ComputeWeightedAverage(times, weights).Ok? <==>
      |times| == |weights| > 0 && Sum((w: real) => w, weights) > 0.0
    ensures ComputeWeightedAverage(times, weights) == Err(UnequalLengths) <==> |times| != |weights|
    ensures ComputeWeightedAverage(times, weights) == Err(Empty) <==> times == weights == []
  {
    if |times| == |weights| {
      WeightsOfZip(times, weights);
    }
  }

  lemma {:induction false} WeightsOfZip(times: seq<real>, weights: seq<real>)
    requires |times| == |weights|
    ensures Sum(Weight(), Zip(times, weights)) == Sum((w: real) => w, weights)
  {
    if times != [] {
      assert Zip(times, weights)[1..] == Zip(times[1..], weights[1..]);
      WeightsOfZip(times[1..], weights[1..]);
      SumHead(Weight(), Zip(times, weights));
    }
  }

  // ---------------------------------------------------------------- which weight is whose

  function Offsets(times: seq<real>, median: real): (r: seq<real>)
    ensures |r| == |times|
    ensures forall i | 0 <= i < |r| :: r[i] == if times[i] < median then median - times[i] else times[i] - median
  {
    seq(|times|, i requires 0 <= i < |times| => Abs(times[i] - median))
  }

  /** A time among `count` of them as it enters the average. */
  function Counted(count: nat, median: real, mad: real, time: real): real {
    if count >= 5 && mad > 0.0 && time < median - 2.5 * mad then median - 2.5 * mad
    else if count >= 5 && mad > 0.0 && time > median + 2.5 * mad then median + 2.5 * mad
    else time
  }

  /** How the times, each with the weight at its own place, pull on a value. */
  function Moment(times: seq<real>, weights: seq<real>, count: nat, median: real, mad: real, value: real): real
    requires |times| == |weights|
  {
    if times == [] then 0.0
    else
      (Counted(count, median, mad, times[0]) - value) * weights[0]
      + Moment(times[1..], weights[1..], count, median, mad, value)
  }

  lemma {:induction false} MomentIsPull(
      times: seq<real>, weights: seq<real>, count: nat, median: real, mad: real, value: real)
    requires |times| == |weights|
    ensures Moment(times, weights, count, median, mad, value)
            == Sum(Pull(Clipping(count, median, mad), value), Zip(times, weights))
  {
    if times != [] {
      var clip, samples := Clipping(count, median, mad), Zip(times, weights);
      assert samples[1..] == Zip(times[1..], weights[1..]);
      MomentIsPull(times[1..], weights[1..], count, median, mad, value);
      SumHead(Pull(clip, value), samples);
      ClippedIsCounted(count, median, mad, times[0]);
    }
  }

  lemma ClippedIsCounted(count: nat, median: real, mad: real, time: real)
    ensures Clipping(count, median, mad)(time) == Counted(count, median, mad, time)
  {}

  lemma SpreadOfLists(times: seq<real>, weights: seq<real>)
    requires |times| == |weights| > 0
    ensures Middle(Zip(times, weights)) == Median(times)
    ensures Mad(Zip(times, weights)) == Median(Offsets(times, Median(times)))
  {
    TimesOfZip(times, weights);
    OffsetsOfZip(times, weights, Median(times));
  }

  lemma TimesOfZip(times: seq<real>, weights: seq<real>)
    requires |times| == |weights|
    ensures Map(Time(), Zip(times, weights)) == times
  {}

  lemma OffsetsOfZip(times: seq<real>, weights: seq<real>, median: real)
    requires |times| == |weights|
    ensures Distances(Zip(times, weights), median) == Offsets(times, median)
  {
    var samples, offsets := Zip(times, weights), Offsets(times, median);
    forall i | 0 <= i < |samples| ensures Distances(samples, median)[i] == offsets[i] {
      assert samples[i].time == times[i];
    }
  }

  /** The average of two lists: the value on which the times, clipped by median and median
      offset and each with the weight at its own place, have no pull. */
  lemma AverageOfLists(times: seq<real>, weights: seq<real>, value: real)
    requires |times| == |weights| > 0 && Sum((w: real) => w, weights) > 0.0
    ensures
      var median := Median(times);
      var mad := Median(Offsets(times, median));
      ComputeWeightedAverage(times, weights) == Ok(value) <==>
        Moment(times, weights, |times|, median, mad, value) == 0.0
  {
    var samples := Zip(times, weights);
    WeightsOfZip(times, weights);
    SpreadOfLists(times, weights);
    MomentIsPull(times, weights, |times|, Middle(samples), Mad(samples), value);
    MeanBalances(ClippingOf(samples), samples, value);
  }

  /** Jointly reordering times and weights changes nothing, errors included. */
  lemma ReorderingChangesNothing(samples: seq<Sample>, other: seq<Sample>)
    requires multiset(samples) == multiset(other)
    ensures Robust(samples) == Robust(other)
  {
    assert |samples| == |multiset(samples)| == |multiset(other)| == |other|;
    if samples != [] {
      SpreadForgetsOrder(samples, other);
      SumForgetsOrder(Weight(), samples, other);
      SumForgetsOrder(Weighed(ClippingOf(samples)), samples, other);
    }
  }

  lemma SpreadForgetsOrder(samples: seq<Sample>, other: seq<Sample>)
    requires samples != [] && other != [] && multiset(samples) == multiset(other)
    ensures Middle(samples) == Middle(other) && Mad(samples) == Mad(other)
  {
    MapForgetsOrder(Time(), samples, other);
    MedianForgetsOrder(Map(Time(), samples), Map(Time(), other));
    var spread := Deviation(Middle(samples));
    MapForgetsOrder(spread, samples, other);
    MedianForgetsOrder(Map(spread, samples), Map(spread, other));
  }

  function Scaled(samples: seq<Sample>, factor: real): (r: seq<Sample>)
    ensures |r| == |samples|
    ensures forall i | 0 <= i < |r| :: r[i] == Sample(samples[i].time, factor * samples[i].weight)
  {
    seq(|samples|, i requires 0 <= i < |samples| => Sample(samples[i].time, factor * samples[i].weight))
  }

  lemma ScaledTail(samples: seq<Sample>, factor: real)
    requires samples != []
    ensures Scaled(samples, factor)[1..] == Scaled(samples[1..], factor)
  {
    var all, rest := Scaled(samples, factor), Scaled(samples[1..], factor);
    forall i | 0 <= i < |rest| ensures all[1..][i] == rest[i] {
      assert all[i + 1].time == samples[1..][i].time;
    }
    assert all[1..] == rest;
  }

  lemma {:induction false} WeightsScale(samples: seq<Sample>, factor: real)
    ensures Sum(Weight(), Scaled(samples, factor)) == factor * Sum(Weight(), samples)
  {
    if samples != [] {
      var w, rest := samples[0].weight, Sum(Weight(), samples[1..]);
      ScaledTail(samples, factor);
      WeightsScale(samples[1..], factor);
      SumHead(Weight(), samples);
      SumHead(Weight(), Scaled(samples, factor));
      Distribute(factor, w, rest);
    }
  }

  lemma {:induction false} ProductsScale(clip: real -> real, samples: seq<Sample>, factor: real)
    ensures Sum(Weighed(clip), Scaled(samples, factor)) == factor * Sum(Weighed(clip), samples)
  {
    if samples != [] {
      var x, rest := Weighed(clip)(samples[0]), Sum(Weighed(clip), samples[1..]);
      ScaledTail(samples, factor);
      ProductsScale(clip, samples[1..], factor);
      SumHead(Weighed(clip), samples);
      SumHead(Weighed(clip), Scaled(samples, factor));
      Reassociate(clip(samples[0].time), factor, samples[0].weight);
      assert Weighed(clip)(Scaled(samples, factor)[0]) == factor * x;
      Distribute(factor, x, rest);
    }
  }

  lemma Reassociate(x: real, factor: real, w: real)
    ensures x * (factor * w) == factor * (x * w)
  {}

  lemma SameTimesMap(f: Sample -> real, samples: seq<Sample>, factor: real)
    requires forall x: Sample, y: Sample :: x.time == y.time ==> f(x) == f(y)
    ensures Map(f, Scaled(samples, factor)) == Map(f, samples)
  {}

  lemma MiddleIgnoresWeights(samples: seq<Sample>, factor: real)
    requires samples != []
    ensures Middle(Scaled(samples, factor)) == Middle(samples)
  {
    assert Map(Time(), Scaled(samples, factor)) == Map(Time(), samples) by {
      SameTimesMap(Time(), samples, factor);
    }
  }

  lemma DistancesIgnoreWeights(samples: seq<Sample>, factor: real, median: real)
    ensures Distances(Scaled(samples, factor), median) == Distances(samples, median)
  {
    SameTimesMap(Deviation(median), samples, factor);
  }

  lemma SpreadIgnoresWeights(samples: seq<Sample>, factor: real)
    requires samples != []
    ensures Middle(Scaled(samples, factor)) == Middle(samples)
    ensures Mad(Scaled(samples, factor)) == Mad(samples)
  {
    MiddleIgnoresWeights(samples, factor);
    DistancesIgnoreWeights(samples, factor, Middle(samples));
  }

  lemma MeanScales(clip: real -> real, samples: seq<Sample>, factor: real)
    requires factor > 0.0
    ensures Mean(clip, Scaled(samples, factor)) == Mean(clip, samples)
  {
    WeightsScale(samples, factor);
    ProductsScale(clip, samples, factor);
    var x, total := Sum(Weighed(clip), samples), Sum(Weight(), samples);
    Cancel(factor, x, total);
    assert Sum(Weighed(clip), Scaled(samples, factor)) == factor * x;
    assert Sum(Weight(), Scaled(samples, factor)) == factor * total;
  }

  /** Only the proportions of the weights matter. */
  lemma ScalingChangesNothing(samples: seq<Sample>, factor: real)
    requires factor > 0.0
    ensures Robust(Scaled(samples, factor)) == Robust(samples)
  {
    if samples != [] {
      SpreadIgnoresWeights(samples, factor);
      assert ClippingOf(Scaled(samples, factor)) == ClippingOf(samples);
      MeanScales(ClippingOf(samples), samples, factor);
    }
  }

  lemma Cancel(factor: real, x: real, total: real)
    requires factor > 0.0
    ensures factor * total > 0.0 <==> total > 0.0
    ensures total > 0.0 ==> (factor * x) / (factor * total) == x / total
  {
    Signs(total, factor);
    if total > 0.0 {
      var q := x / total;
      assert factor * total > 0.0;
      Reassociate(q, factor, total);
      Quotient(factor * x, factor * total, q);
    }
  }
}
