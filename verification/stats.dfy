/** The column statistics pandas computes inside a group-by: sum, mean, min,
    max and the sample (n - 1 denominator) standard deviation. Values are
    reals; the square root is an uninterpreted parameter `sqrt`. */
module Stats {
  import opened Wrappers
  import Seqs

  /** What the model requires of the square root it is given: the root of 0
      is 0 and the root of a positive number is positive. */
  ghost predicate IsSqrt(sqrt: real -> real) {
    && sqrt(0.0) == 0.0
    && forall x :: 0.0 < x ==> 0.0 < sqrt(x)
  }

  function Sum(xs: seq<real>): real {
    if |xs| == 0 then 0.0 else xs[0] + Sum(xs[1..])
  }

  function Mean(xs: seq<real>): real
    requires |xs| > 0
  {
    Sum(xs) / (|xs| as real)
  }

  function Min(xs: seq<real>): (m: real)
    requires |xs| > 0
    ensures m in xs
    ensures forall i :: 0 <= i < |xs| ==> m <= xs[i]
  {
    if |xs| == 1 then xs[0]
    else
      var rest := Min(xs[1..]);
      if xs[0] <= rest then xs[0] else rest
  }

  function Max(xs: seq<real>): (m: real)
    requires |xs| > 0
    ensures m in xs
    ensures forall i :: 0 <= i < |xs| ==> xs[i] <= m
  {
    if |xs| == 1 then xs[0]
    else
      var rest := Max(xs[1..]);
      if xs[0] >= rest then xs[0] else rest
  }

  function SquaredDeviation(x: real, center: real): real {
    (x - center) * (x - center)
  }

  function Deviations(xs: seq<real>, center: real): seq<real> {
    Seqs.Map(xs, x => SquaredDeviation(x, center))
  }

  /** Sum of squared distances of the values from `center`. */
  function SumSquaredDeviations(xs: seq<real>, center: real): real {
    Sum(Deviations(xs, center))
  }

  /** The sample variance: squared deviations from the mean over n - 1. */
  function SampleVariance(xs: seq<real>): real
    requires |xs| >= 2
  {
    SumSquaredDeviations(xs, Mean(xs)) / ((|xs| - 1) as real)
  }

  /** pandas' default `std` (ddof = 1): NaN, here None, when there are fewer
      than two values. */
  function SampleStd(xs: seq<real>, sqrt: real -> real): (r: Option<real>)
    ensures r.Some? <==> |xs| >= 2
  {
    if |xs| < 2 then None else Some(sqrt(SampleVariance(xs)))
  }

  // ---------------------------------------------------------------------------
  // Facts about the statistics

  lemma {:induction false} SumConcat(a: seq<real>, b: seq<real>)
    ensures Sum(a + b) == Sum(a) + Sum(b)
    decreases |a|
  {
    if |a| == 0 {
      assert a + b == b;
    } else {
      assert (a + b)[0] == a[0];
      assert (a + b)[1..] == a[1..] + b;
      SumConcat(a[1..], b);
    }
  }

  /** Every value at least `lo` puts the sum at least n * lo; at most `hi`, at most n * hi. */
  lemma {:induction false} SumBounds(xs: seq<real>, lo: real, hi: real)
    requires forall i :: 0 <= i < |xs| ==> lo <= xs[i] <= hi
    ensures (|xs| as real) * lo <= Sum(xs) <= (|xs| as real) * hi
    decreases |xs|
  {
    if |xs| > 0 {
      SumBounds(xs[1..], lo, hi);
      assert (|xs| as real) * lo == lo + ((|xs| - 1) as real) * lo;
      assert (|xs| as real) * hi == hi + ((|xs| - 1) as real) * hi;
    }
  }

  lemma DivideBounds(s: real, n: real, lo: real, hi: real)
    requires 0.0 < n && n * lo <= s <= n * hi
    ensures lo <= s / n <= hi
  {
    var q := s / n;
    assert q * n == s;
    assert n * (q - lo) >= 0.0;
    assert n * (hi - q) >= 0.0;
  }

  /** `total` is `mean` taken `n` times. */
  predicate IsMeanTimesCount(total: real, mean: real, n: nat) {
    total == mean * (n as real)
  }

  /** The sum is the mean times the count. */
  lemma SumIsMeanTimesCount(xs: seq<real>)
    requires |xs| > 0
    ensures IsMeanTimesCount(Sum(xs), Mean(xs), |xs|)
  {
  }

  /** Bounds on every value bound the mean. */
  lemma MeanBounds(xs: seq<real>, lo: real, hi: real)
    requires |xs| > 0
    requires forall i :: 0 <= i < |xs| ==> lo <= xs[i] <= hi
    ensures lo <= Mean(xs) <= hi
  {
    SumBounds(xs, lo, hi);
    DivideBounds(Sum(xs), |xs| as real, lo, hi);
  }

  /** The mean lies between the minimum and the maximum. */
  lemma MeanBetweenMinMax(xs: seq<real>)
    requires |xs| > 0
    ensures Min(xs) <= Mean(xs) <= Max(xs)
  {
    MeanBounds(xs, Min(xs), Max(xs));
  }

  lemma {:induction false} SumNonNegative(xs: seq<real>)
    requires forall i :: 0 <= i < |xs| ==> 0.0 <= xs[i]
    ensures 0.0 <= Sum(xs)
    decreases |xs|
  {
    if |xs| > 0 {
      SumNonNegative(xs[1..]);
    }
  }

  lemma {:induction false} SumZero(xs: seq<real>)
    requires forall i :: 0 <= i < |xs| ==> xs[i] == 0.0
    ensures Sum(xs) == 0.0
    decreases |xs|
  {
    if |xs| > 0 {
      SumZero(xs[1..]);
    }
  }

  /** The sample variance is never negative. */
  lemma SampleVarianceNonNegative(xs: seq<real>)
    requires |xs| >= 2
    ensures 0.0 <= SampleVariance(xs)
  {
    var m := Mean(xs);
    DeviationsNonNegative(xs, m);
    SumNonNegative(Deviations(xs, m));
  }

  /** With a genuine square root the standard deviation, when defined, is non-negative. */
  lemma SampleStdNonNegative(xs: seq<real>, sqrt: real -> real)
    ensures IsSqrt(sqrt) && SampleStd(xs, sqrt).Some? ==> 0.0 <= SampleStd(xs, sqrt).value
  {
    if IsSqrt(sqrt) && |xs| >= 2 {
      SampleVarianceNonNegative(xs);
      assert SampleVariance(xs) == 0.0 || 0.0 < SampleVariance(xs);
    }
  }

  /** A sum of non-negative values with one positive value is positive. */
  lemma {:induction false} SumPositive(xs: seq<real>, t: nat)
    requires forall i :: 0 <= i < |xs| ==> 0.0 <= xs[i]
    requires t < |xs| && 0.0 < xs[t]
    ensures 0.0 < Sum(xs)
    decreases |xs|
  {
    if t == 0 {
      SumNonNegative(xs[1..]);
    } else {
      SumPositive(xs[1..], t - 1);
    }
  }

  /** A squared deviation is never negative. */
  lemma SquaredDeviationNonNegative(x: real, center: real)
    ensures 0.0 <= SquaredDeviation(x, center)
  {
  }

  /** A product is zero only when one of its factors is. */
  lemma ZeroProduct(a: real, b: real)
    requires a * b == 0.0
    ensures a == 0.0 || b == 0.0
  {
  }

  /** A value away from the centre has a strictly positive squared deviation. */
  lemma SquaredDeviationPositive(x: real, center: real)
    requires x != center
    ensures 0.0 < SquaredDeviation(x, center)
  {
    SquaredDeviationNonNegative(x, center);
    if SquaredDeviation(x, center) == 0.0 {
      ZeroProduct(x - center, x - center);
    }
  }

  /** Values that are not all equal have a strictly positive standard
      deviation, under a genuine square root. */
  lemma SampleStdPositive(xs: seq<real>, sqrt: real -> real, i: nat, j: nat)
    requires IsSqrt(sqrt)
    requires i < |xs| && j < |xs| && xs[i] != xs[j]
    ensures SampleStd(xs, sqrt).Some? && 0.0 < SampleStd(xs, sqrt).value
  {
    var m := Mean(xs);
    var sq := Deviations(xs, m);
    var t := if xs[i] != m then i else j;
    SquaredDeviationPositive(xs[t], m);
    assert sq[t] == SquaredDeviation(xs[t], m);
    DeviationsNonNegative(xs, m);
    SumPositive(sq, t);
    var v := SampleVariance(xs);
    assert 0.0 < v;
  }

  /** The scores 80, 85 and 90 have sample variance 25: the squared
      deviations 25, 0 and 25 over n - 1 = 2, not over n = 3. */
  lemma SampleStdExample(sqrt: real -> real)
    ensures SampleStd([80.0, 85.0, 90.0], sqrt) == Some(sqrt(25.0))
  {
    var xs := [80.0, 85.0, 90.0];
    assert Sum(xs) == 255.0;
    assert Mean(xs) == 85.0;
    var sq := Deviations(xs, 85.0);
    assert sq == [25.0, 0.0, 25.0];
    assert Sum(sq) == 50.0;
  }

  lemma DeviationsNonNegative(xs: seq<real>, center: real)
    ensures forall i :: 0 <= i < |xs| ==> 0.0 <= Deviations(xs, center)[i]
  {
    var sq := Deviations(xs, center);
    forall i | 0 <= i < |sq|
      ensures 0.0 <= sq[i]
    {
      SquaredDeviationNonNegative(xs[i], center);
    }
  }

  /** Values with no spread have standard deviation 0 (when it is defined). */
  lemma ConstantSampleStd(xs: seq<real>, c: real, sqrt: real -> real)
    requires IsSqrt(sqrt)
    requires forall i :: 0 <= i < |xs| ==> xs[i] == c
    ensures SampleStd(xs, sqrt).Some? ==> SampleStd(xs, sqrt).value == 0.0
  {
    if |xs| >= 2 {
      MeanBounds(xs, c, c);
      var sq := Deviations(xs, c);
      forall i | 0 <= i < |sq|
        ensures sq[i] == 0.0
      {
        assert sq[i] == (xs[i] - c) * (xs[i] - c);
      }
      SumZero(sq);
    }
  }

  // ---------------------------------------------------------------------------
  // Order independence

  lemma {:induction false} SumPermutation(a: seq<real>, b: seq<real>)
    requires multiset(a) == multiset(b)
    ensures Sum(a) == Sum(b)
    decreases |a|
  {
    if |a| == 0 {
      assert |b| == |multiset(b)| == 0;
    } else {
      assert a[0] in multiset(b);
      var i :| 0 <= i < |b| && b[i] == a[0];
      var rest := Seqs.RemoveAt(b, i);
      assert a == [a[0]] + a[1..];
      assert multiset(a[1..]) == multiset(rest);
      SumPermutation(a[1..], rest);
      SumRemoveAt(b, i);
    }
  }

  /** Taking one value out of a sequence takes it out of the sum. */
  lemma SumRemoveAt(b: seq<real>, i: nat)
    requires i < |b|
    ensures Sum(b) == b[i] + Sum(Seqs.RemoveAt(b, i))
  {
    var l, r := b[..i], b[i+1..];
    Seqs.RemoveAtSplit(b, i);
    SumConcat(l + [b[i]], r);
    SumConcat(l, [b[i]]);
    SumConcat(l, r);
    assert Sum([b[i]]) == b[i] + Sum([]);
  }

  lemma MinMaxPermutation(a: seq<real>, b: seq<real>)
    requires |a| > 0 && multiset(a) == multiset(b)
    ensures |b| > 0 && Min(a) == Min(b) && Max(a) == Max(b)
  {
    assert |b| == |multiset(b)| == |a|;
    assert Min(a) in multiset(b) && Min(b) in multiset(a);
    assert Max(a) in multiset(b) && Max(b) in multiset(a);
  }

  lemma SampleStdPermutation(a: seq<real>, b: seq<real>, sqrt: real -> real)
    requires multiset(a) == multiset(b)
    ensures SampleStd(a, sqrt) == SampleStd(b, sqrt)
  {
    assert |a| == |multiset(a)| == |b|;
    if |a| >= 2 {
      SumPermutation(a, b);
      var m := Mean(a);
      Seqs.MapPermutation(a, b, x => SquaredDeviation(x, m));
      SumPermutation(Deviations(a, m), Deviations(b, m));
    }
  }
}
