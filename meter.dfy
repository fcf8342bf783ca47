/** The running weighted-mean accumulator used for per-epoch loss and accuracy
    (class AverageMeter of simclr_lin.py), and the way an epoch pass feeds it. */
module Meter {

  /** One call of update: the value reported and the weight (batch size) it carries. */
  datatype Sample = Sample(value: real, weight: int)

  /** Sum of value * weight over every sample seen. */
  function WeightedSum(h: seq<Sample>): real
  {
    if h == [] then 0.0
    else WeightedSum(h[..|h| - 1]) + h[|h| - 1].value * h[|h| - 1].weight as real
  }

  /** Sum of the weights of every sample seen. */
  function TotalWeight(h: seq<Sample>): int
  {
    if h == [] then 0 else TotalWeight(h[..|h| - 1]) + h[|h| - 1].weight
  }

  /** The weighted mean of the samples: what the meter's average is meant to be. */
  function WeightedMean(h: seq<Sample>): real
    requires TotalWeight(h) != 0
  {
    WeightedSum(h) / TotalWeight(h) as real
  }

  /** The value of the most recent sample, or 0 before any. */
  function LastValue(h: seq<Sample>): real
  {
    if h == [] then 0.0 else h[|h| - 1].value
  }

  /** Every sample carries a weight of at least one, as a batch size does. */
  predicate PositiveWeights(h: seq<Sample>)
  {
    forall k :: 0 <= k < |h| ==> h[k].weight >= 1
  }

  /** With weights of at least one, the total weight is at least the number of
      samples, so the count is positive as soon as one update happened. */
  lemma {:induction false} TotalWeightAtLeastLength(h: seq<Sample>)
    requires PositiveWeights(h)
    ensures TotalWeight(h) >= |h|
  {
    if h != [] {
      var p := h[..|h| - 1];
      assert PositiveWeights(p) by {
        forall k | 0 <= k < |p| ensures p[k].weight >= 1 { assert p[k] == h[k]; }
      }
      TotalWeightAtLeastLength(p);
    }
  }

  /** Bounds on the values bound the weighted sum by the same multiples of the total weight. */
  lemma {:induction false} WeightedSumBounds(h: seq<Sample>, lo: real, hi: real)
    requires PositiveWeights(h)
    requires forall k :: 0 <= k < |h| ==> lo <= h[k].value <= hi
    ensures lo * TotalWeight(h) as real <= WeightedSum(h) <= hi * TotalWeight(h) as real
  {
    if h != [] {
      var p := h[..|h| - 1];
      var s := h[|h| - 1];
      assert PositiveWeights(p) by {
        forall k | 0 <= k < |p| ensures p[k].weight >= 1 { assert p[k] == h[k]; }
      }
      forall k | 0 <= k < |p| ensures lo <= p[k].value <= hi { assert p[k] == h[k]; }
      WeightedSumBounds(p, lo, hi);
      var w := s.weight as real;
      assert w >= 1.0;
      assert (s.value - lo) * w >= 0.0;
      assert (hi - s.value) * w >= 0.0;
    }
  }

  /** The weighted mean of samples that all lie in [lo, hi] lies in [lo, hi]:
      an accuracy meter fed fractions in [0, 1] reports a fraction in [0, 1]. */
  lemma MeanWithinBounds(h: seq<Sample>, lo: real, hi: real)
    requires h != [] && PositiveWeights(h)
    requires forall k :: 0 <= k < |h| ==> lo <= h[k].value <= hi
    ensures TotalWeight(h) > 0
    ensures lo <= WeightedMean(h) <= hi
  {
    TotalWeightAtLeastLength(h);
    WeightedSumBounds(h, lo, hi);
    QuotientBounds(WeightedSum(h), TotalWeight(h) as real, lo, hi);
  }

  lemma QuotientBounds(s: real, t: real, lo: real, hi: real)
    requires t > 0.0 && lo * t <= s <= hi * t
    ensures lo <= s / t <= hi
  {
    assert (s / t) * t == s;
  }

  /** A running weighted mean: the fields track the samples given to Update since
      the last Reset, and the ghost field history lists those samples. */
  class AverageMeter {
    var name: string
    var val: real
    var avg: real
    var sum: real
    var count: int
    ghost var history: seq<Sample>

    /** The fields agree with the samples seen since the last reset. */
    ghost predicate Valid()
      reads this
    {
      && sum == WeightedSum(history)
      && count == TotalWeight(history)
      && val == LastValue(history)
      && (history == [] ==> avg == 0.0)
      && (count != 0 ==> avg == sum / count as real)
    }

    constructor (name: string)
      ensures Valid()
      ensures this.name == name
      ensures history == [] && val == 0.0 && avg == 0.0 && sum == 0.0 && count == 0
    {
      this.name := name;
      new;
      Reset();
    }

    /** Zeroes the four counters; the name is kept. */
    method Reset()
      modifies this
      ensures Valid()
      ensures history == []
      ensures val == 0.0 && avg == 0.0 && sum == 0.0 && count == 0
      ensures name == old(name)
    {
      val := 0.0;
      avg := 0.0;
      sum := 0.0;
      count := 0;
      history := [];
    }

    /** Records value v with weight n (1 when omitted). The average is recomputed as sum / count;
        when the new count is zero that division fails (ok is false) after val,
        sum and count have already been updated, and avg keeps its old value. */
    method Update(v: real, n: int := 1) returns (ok: bool)
      requires Valid()
      modifies this
      ensures Valid()
      ensures history == old(history) + [Sample(v, n)]
      ensures name == old(name)
      ensures val == v
      ensures sum == old(sum) + v * n as real
      ensures count == old(count) + n
      ensures ok == (count != 0)
      ensures ok ==> avg == WeightedMean(history)
      ensures !ok ==> avg == old(avg)
    {
      history := history + [Sample(v, n)];
      assert history[..|history| - 1] == old(history);
      val := v;
      sum := sum + v * n as real;
      count := count + n;
      ok := count != 0;
      if ok {
        avg := sum / count as real;
      }
    }
  }

  /** The use run_epoch makes of a meter: a fresh meter, one update per batch
      with the batch's value and size, and the final average returned. */
  method EpochAverage(batches: seq<Sample>) returns (avg: real)
    requires PositiveWeights(batches)
    ensures batches == [] ==> avg == 0.0
    ensures batches != [] ==> TotalWeight(batches) > 0 && avg == WeightedMean(batches)
  {
    var meter := new AverageMeter("loss");
    var i := 0;
    while i < |batches|
      invariant 0 <= i <= |batches|
      invariant meter.Valid()
      invariant meter.history == batches[..i]
    {
      var seen := batches[..i + 1];
      assert PositiveWeights(seen) by {
        forall k | 0 <= k < |seen| ensures seen[k].weight >= 1 { assert seen[k] == batches[k]; }
      }
      TotalWeightAtLeastLength(seen);
      assert batches[..i] + [batches[i]] == batches[..i + 1];
      var ok := meter.Update(batches[i].value, batches[i].weight);
      i := i + 1;
    }
    assert batches[..i] == batches;
    if batches != [] {
      TotalWeightAtLeastLength(batches);
    }
    avg := meter.avg;
  }
}
