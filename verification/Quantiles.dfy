/**
  Interpolated quantiles of an explicit-bucket histogram.  Counts are one longer
  than bounds; the last slot is the overflow, which has no upper edge.
 */
module Quantiles {

  /** The observations in the first k buckets. */
  function Sum(counts: seq<nat>, k: nat): nat
    requires k <= |counts|
  {
    if k == 0 then 0 else Sum(counts, k - 1) + counts[k - 1]
  }

  /** The first nonempty bucket in which the running count reaches the rank. */
  ghost function RankBucket(counts: seq<nat>, rank: real, from: nat): (k: nat)
    requires from <= |counts|
    ensures from <= k <= |counts|
    ensures forall i :: from <= i < k ==> counts[i] == 0 || (Sum(counts, i + 1) as real) < rank
    ensures k < |counts| ==> 0 < counts[k] && rank <= Sum(counts, k + 1) as real
    decreases |counts| - from
  {
    if from == |counts| then from
    else if 0 < counts[from] && rank <= Sum(counts, from + 1) as real then from
    else RankBucket(counts, rank, from + 1)
  }

  /** The lower edge of bucket k; the first one begins at zero. */
  function Lower(bounds: seq<real>, k: nat): real
    requires k <= |bounds|
  {
    if k == 0 then 0.0 else bounds[k - 1]
  }

  /** The rank asked for: the q-th part of all observations. */
  function Rank(q: real, total: nat): real {
    q * total as real
  }

  ghost function Quantile(bounds: seq<real>, counts: seq<nat>, total: nat, q: real): real {
    if total == 0 || bounds == [] then 0.0
    else
      var rank := Rank(q, total);
      var k := RankBucket(counts, rank, 0);
      if k == |counts| || |bounds| <= k then bounds[|bounds| - 1]
      else Interpolate(bounds, counts, rank, k)
  }

  ghost function Interpolate(bounds: seq<real>, counts: seq<nat>, rank: real, k: nat): real
    requires k < |bounds| && k < |counts| && 0 < counts[k]
  {
    Lower(bounds, k) + (bounds[k] - Lower(bounds, k)) * ((rank - Sum(counts, k) as real) / counts[k] as real)
  }

  method BucketQuantile(bounds: seq<real>, counts: seq<nat>, total: nat, q: real) returns (x: real)
    ensures x == Quantile(bounds, counts, total, q)
  {
    if total == 0 || |bounds| == 0 {
      return 0.0;
    }
    var rank := Rank(q, total);
    var cumulative := 0;
    for i := 0 to |counts|
      invariant cumulative == Sum(counts, i)
      invariant RankBucket(counts, rank, 0) == RankBucket(counts, rank, i)
    {
      var count := counts[i];
      if count == 0 {
        continue;
      }
      if ((cumulative + count) as real) < rank {
        cumulative := cumulative + count;
        continue;
      }
      if i >= |bounds| {
        return bounds[|bounds| - 1];
      }
      var lower := 0.0;
      if i > 0 {
        lower := bounds[i - 1];
      }
      return lower + (bounds[i] - lower) * ((rank - cumulative as real) / count as real);
    }
    return bounds[|bounds| - 1];
  }

  // ----- what the quantile means -----

  ghost predicate ValidHistogram(bounds: seq<real>, counts: seq<nat>, total: nat) {
    && bounds != [] && |counts| == |bounds| + 1
    && (forall i, j :: 0 <= i < j < |bounds| ==> bounds[i] <= bounds[j])
    && total == Sum(counts, |counts|) && 0 < total
  }

  /** The share of a bucket at or below x, spread evenly between its edges.  A
      bucket without width jumps; closed says whether x itself is included. */
  ghost function Share(lower: real, upper: real, x: real, closed: bool): real {
    if upper <= lower then (if lower < x || (closed && x == lower) then 1.0 else 0.0)
    else if x <= lower then 0.0
    else if upper <= x then 1.0
    else (x - lower) / (upper - lower)
  }

  ghost function Weighted(count: nat, share: real): real {
    count as real * share
  }

  /** The observations at or below x in bucket i, if they are spread evenly. */
  ghost function InBucket(bounds: seq<real>, counts: seq<nat>, x: real, closed: bool, i: nat): real
    requires i < |bounds| && i < |counts|
  {
    Weighted(counts[i], Share(Lower(bounds, i), bounds[i], x, closed))
  }

  /** The piecewise-linear cumulative count at x over the first n finite buckets. */
  ghost function Cumulative(bounds: seq<real>, counts: seq<nat>, x: real, closed: bool, n: nat): real
    requires n <= |bounds| && n <= |counts|
  {
    if n == 0 then 0.0
    else Cumulative(bounds, counts, x, closed, n - 1) + InBucket(bounds, counts, x, closed, n - 1)
  }

  lemma {:induction false} SumMonotone(counts: seq<nat>, i: nat, j: nat)
    requires i <= j <= |counts|
    ensures Sum(counts, i) <= Sum(counts, j)
    decreases j
  {
    if i < j {
      SumMonotone(counts, i, j - 1);
    }
  }

  /** The rank lies in its bucket: behind everything before, within its count. */
  lemma {:induction false} RankInBucket(counts: seq<nat>, rank: real)
    requires 0.0 < rank <= Sum(counts, |counts|) as real
    ensures
      var k := RankBucket(counts, rank, 0);
      k < |counts| && (Sum(counts, k) as real) < rank <= Sum(counts, k + 1) as real
  {
    var k := RankBucket(counts, rank, 0);
    BelowRank(counts, rank, k, k);
  }

  lemma {:induction false} BelowRank(counts: seq<nat>, rank: real, k: nat, n: nat)
    requires 0.0 < rank && n <= k <= |counts|
    requires forall i :: 0 <= i < k ==> counts[i] == 0 || (Sum(counts, i + 1) as real) < rank
    ensures (Sum(counts, n) as real) < rank
    decreases n
  {
    if n != 0 && counts[n - 1] == 0 {
      BelowRank(counts, rank, k, n - 1);
    }
  }

  lemma RankBucketMonotone(counts: seq<nat>, r: real, s: real)
    requires r <= s
    ensures RankBucket(counts, r, 0) <= RankBucket(counts, s, 0)
  {
  }

  /** Within a bucket the interpolation stays between the edges, solves the linear
      equation of the cumulative count, and follows the rank. */
  lemma InterpolateInBucket(bounds: seq<real>, counts: seq<nat>, rank: real, k: nat)
    requires k < |bounds| && k < |counts| && 0 < counts[k] && Lower(bounds, k) <= bounds[k]
    requires (Sum(counts, k) as real) < rank <= Sum(counts, k + 1) as real
    ensures
      var x, lower, upper := Interpolate(bounds, counts, rank, k), Lower(bounds, k), bounds[k];
      && lower <= x <= upper
      && (lower < upper ==> lower < x && Sum(counts, k) as real + InBucket(bounds, counts, x, false, k) == rank)
  {
    var x, lower, upper := Interpolate(bounds, counts, rank, k), Lower(bounds, k), bounds[k];
    var part := (rank - Sum(counts, k) as real) / counts[k] as real;
    DivInUnit(rank - Sum(counts, k) as real, counts[k] as real);
    ScaleInUnit(upper - lower, part);
    if lower < upper {
      assert (x - lower) / (upper - lower) == part;
    }
  }

  lemma DivInUnit(a: real, b: real)
    requires 0.0 < a <= b
    ensures 0.0 < a / b <= 1.0 && b * (a / b) == a
  {
  }

  lemma ScaleInUnit(w: real, p: real)
    requires 0.0 <= w && 0.0 < p <= 1.0
    ensures 0.0 <= w * p <= w && (0.0 < w ==> 0.0 < w * p) && (0.0 < w ==> w * p / w == p)
  {
    if 0.0 < w {
      var z := w * p / w;
      assert (z - p) * w == 0.0;
    }
  }

  // ----- the cumulative count around a quantile -----

  /** How bucket i contributes at a point x between the edges of bucket k: in full
      when before it, not at all when behind it. */
  ghost predicate Splits(bounds: seq<real>, counts: seq<nat>, x: real, closed: bool, k: nat)
    requires |bounds| < |counts|
  {
    && (forall i :: 0 <= i < k && i < |bounds| ==> InBucket(bounds, counts, x, closed, i) == counts[i] as real)
    && (forall i :: k < i < |bounds| ==> InBucket(bounds, counts, x, closed, i) == 0.0)
  }

  lemma BucketInUnit(bounds: seq<real>, counts: seq<nat>, x: real, closed: bool, i: nat)
    requires i < |bounds| && i < |counts|
    ensures 0.0 <= InBucket(bounds, counts, x, closed, i) <= counts[i] as real
  {
  }

  lemma {:induction false} CumulativeBelow(bounds: seq<real>, counts: seq<nat>, x: real, closed: bool, n: nat)
    requires n <= |bounds| < |counts|
    ensures 0.0 <= Cumulative(bounds, counts, x, closed, n) <= Sum(counts, n) as real
    ensures (forall i :: 0 <= i < n ==> InBucket(bounds, counts, x, closed, i) == counts[i] as real) ==>
      Cumulative(bounds, counts, x, closed, n) == Sum(counts, n) as real
  {
    hide InBucket;
    if n != 0 {
      CumulativeBelow(bounds, counts, x, closed, n - 1);
      BucketInUnit(bounds, counts, x, closed, n - 1);
    }
  }

  lemma {:induction false} CumulativeAbove(bounds: seq<real>, counts: seq<nat>, x: real, closed: bool, k: nat, n: nat)
    requires k <= n <= |bounds| < |counts|
    ensures Cumulative(bounds, counts, x, closed, k) <= Cumulative(bounds, counts, x, closed, n)
    ensures (forall i :: k <= i < n ==> InBucket(bounds, counts, x, closed, i) == 0.0) ==>
      Cumulative(bounds, counts, x, closed, n) == Cumulative(bounds, counts, x, closed, k)
    decreases n
  {
    hide InBucket;
    if k < n {
      CumulativeAbove(bounds, counts, x, closed, k, n - 1);
      BucketInUnit(bounds, counts, x, closed, n - 1);
    }
  }

  /** The edges of the buckets around bucket k. */
  lemma EdgesOrdered(bounds: seq<real>, counts: seq<nat>, total: nat, i: nat, k: nat)
    requires ValidHistogram(bounds, counts, total) && i < k < |bounds| && (0.0 <= bounds[0] || 0 < i)
    ensures Lower(bounds, i) <= bounds[i] <= Lower(bounds, k) <= bounds[k]
  {
  }

  lemma BucketBefore(bounds: seq<real>, counts: seq<nat>, x: real, i: nat)
    requires i < |bounds| < |counts| && Lower(bounds, i) <= bounds[i] <= x
    ensures InBucket(bounds, counts, x, true, i) == counts[i] as real
    ensures bounds[i] < x ==> InBucket(bounds, counts, x, false, i) == counts[i] as real
  {
  }

  lemma BucketBehind(bounds: seq<real>, counts: seq<nat>, x: real, i: nat)
    requires i < |bounds| < |counts| && x <= Lower(bounds, i)
    ensures InBucket(bounds, counts, x, false, i) == 0.0
  {
  }

  lemma EmptyBucket(bounds: seq<real>, counts: seq<nat>, x: real, closed: bool, i: nat)
    requires i < |bounds| < |counts| && counts[i] == 0
    ensures InBucket(bounds, counts, x, closed, i) == 0.0
  {
  }

  /** Between the edges of bucket k the buckets before it count in full. */
  lemma SplitsAt(bounds: seq<real>, counts: seq<nat>, total: nat, k: nat, x: real)
    requires ValidHistogram(bounds, counts, total) && (0.0 <= bounds[0] || counts[0] == 0)
    requires k < |bounds| && 0 < counts[k] && Lower(bounds, k) <= x <= bounds[k]
    ensures forall i :: 0 <= i < k ==> InBucket(bounds, counts, x, true, i) == counts[i] as real
    ensures Lower(bounds, k) < x ==> Splits(bounds, counts, x, false, k)
    ensures forall i :: k < i < |bounds| ==> InBucket(bounds, counts, x, false, i) == 0.0
  {
    hide InBucket;
    forall i | 0 <= i < k
      ensures InBucket(bounds, counts, x, true, i) == counts[i] as real
      ensures Lower(bounds, k) < x ==> InBucket(bounds, counts, x, false, i) == counts[i] as real
    {
      if counts[i] == 0 {
        EmptyBucket(bounds, counts, x, true, i);
        EmptyBucket(bounds, counts, x, false, i);
      } else {
        EdgesOrdered(bounds, counts, total, i, k);
        BucketBefore(bounds, counts, x, i);
      }
    }
    forall i | k < i < |bounds|
      ensures InBucket(bounds, counts, x, false, i) == 0.0
    {
      EdgesOrdered(bounds, counts, total, k, i);
      BucketBehind(bounds, counts, x, i);
    }
  }

  lemma RankWithinTotal(total: nat, q: real)
    requires 0 < total && 0.0 < q <= 1.0
    ensures 0.0 < Rank(q, total) <= total as real
  {
  }

  /** The quantile inverts the cumulative distribution.  In a finite bucket the
      result lies between the bucket's edges, and the piecewise-linear cumulative
      count passes the rank there: it equals the rank when the bucket has width,
      and jumps across it when it has none.  In the overflow the last bound is
      reported although the count there is still below the rank. */
  lemma QuantileInverts(bounds: seq<real>, counts: seq<nat>, total: nat, q: real)
    requires ValidHistogram(bounds, counts, total) && 0.0 < q <= 1.0
    requires 0.0 <= bounds[0] || counts[0] == 0
    ensures
      var rank, n := q * total as real, |bounds|;
      var k, x := RankBucket(counts, rank, 0), Quantile(bounds, counts, total, q);
      && k <= n
      && (k < n ==>
        && Lower(bounds, k) <= x <= bounds[k]
        && Cumulative(bounds, counts, x, false, n) <= rank <= Cumulative(bounds, counts, x, true, n)
        && (Lower(bounds, k) < bounds[k] ==> Cumulative(bounds, counts, x, false, n) == rank))
      && (k == n ==> x == bounds[n - 1] && Cumulative(bounds, counts, x, true, n) < rank)
  {
    hide Interpolate, InBucket, Cumulative;
    var rank, n := Rank(q, total), |bounds|;
    RankWithinTotal(total, q);
    RankInBucket(counts, rank);
    QuantileAtRank(bounds, counts, total, rank, RankBucket(counts, rank, 0));
  }

  lemma QuantileAtRank(bounds: seq<real>, counts: seq<nat>, total: nat, rank: real, k: nat)
    requires ValidHistogram(bounds, counts, total) && (0.0 <= bounds[0] || counts[0] == 0)
    requires k <= |bounds| && 0 < counts[k] && (Sum(counts, k) as real) < rank <= Sum(counts, k + 1) as real
    ensures k == |bounds| ==> Cumulative(bounds, counts, bounds[k - 1], true, k) < rank
    ensures k < |bounds| ==>
      var x, n := Interpolate(bounds, counts, rank, k), |bounds|;
      && Lower(bounds, k) <= x <= bounds[k]
      && Cumulative(bounds, counts, x, false, n) <= rank <= Cumulative(bounds, counts, x, true, n)
      && (Lower(bounds, k) < bounds[k] ==> Cumulative(bounds, counts, x, false, n) == rank)
  {
    hide Interpolate, InBucket;
    var n := |bounds|;
    if k == n {
      CumulativeBelow(bounds, counts, bounds[n - 1], true, n);
    } else {
      var x := Interpolate(bounds, counts, rank, k);
      InterpolateInBucket(bounds, counts, rank, k);
      SplitsAt(bounds, counts, total, k, x);
      CumulativeBelow(bounds, counts, x, false, k);
      CumulativeBelow(bounds, counts, x, true, k);
      CumulativeAbove(bounds, counts, x, false, k + 1, n);
      CumulativeAbove(bounds, counts, x, true, k + 1, n);
      if bounds[k] == Lower(bounds, k) {
        FlatBucket(bounds, counts, k);
      } else {
        ClosedAtLeast(bounds, counts, x, k);
      }
    }
  }

  lemma FlatBucket(bounds: seq<real>, counts: seq<nat>, k: nat)
    requires k < |bounds| < |counts| && bounds[k] == Lower(bounds, k)
    ensures InBucket(bounds, counts, bounds[k], false, k) == 0.0
    ensures InBucket(bounds, counts, bounds[k], true, k) == counts[k] as real
  {
  }

  lemma ClosedAtLeast(bounds: seq<real>, counts: seq<nat>, x: real, k: nat)
    requires k < |bounds| < |counts| && Lower(bounds, k) < bounds[k]
    ensures InBucket(bounds, counts, x, true, k) == InBucket(bounds, counts, x, false, k)
  {
  }

  // ----- order of the quantiles -----

  /** Larger ranks give larger values, whatever the sign of the first bound, once
      the rank is past the first bucket or that bucket does not run backwards. */
  lemma QuantileMonotone(bounds: seq<real>, counts: seq<nat>, total: nat, p: real, q: real)
    requires ValidHistogram(bounds, counts, total) && 0.0 < p <= q <= 1.0
    requires 0.0 <= bounds[0] || counts[0] == 0
    ensures Quantile(bounds, counts, total, p) <= Quantile(bounds, counts, total, q)
  {
    var r, s := Rank(p, total), Rank(q, total);
    var j, k := RankBucket(counts, r, 0), RankBucket(counts, s, 0);
    hide Rank, Interpolate;
    RankWithinTotal(total, p);
    RankWithinTotal(total, q);
    RankMonotone(p, q, total);
    RankInBucket(counts, r);
    RankInBucket(counts, s);
    RankBucketMonotone(counts, r, s);
    ValueMonotone(bounds, counts, total, r, s, j, k);
  }

  lemma RankMonotone(p: real, q: real, total: nat)
    requires p <= q
    ensures Rank(p, total) <= Rank(q, total)
  {
  }

  ghost function ValueAt(bounds: seq<real>, counts: seq<nat>, rank: real, k: nat): real
    requires bounds != [] && k < |counts| && 0 < counts[k]
  {
    if |bounds| <= k then bounds[|bounds| - 1] else Interpolate(bounds, counts, rank, k)
  }

  lemma ValueMonotone(bounds: seq<real>, counts: seq<nat>, total: nat, r: real, s: real, j: nat, k: nat)
    requires ValidHistogram(bounds, counts, total) && r <= s && j <= k <= |bounds|
    requires 0 < counts[j] && (Sum(counts, j) as real) < r <= Sum(counts, j + 1) as real
    requires 0 < counts[k] && (Sum(counts, k) as real) < s <= Sum(counts, k + 1) as real
    requires 0.0 <= bounds[0] || counts[0] == 0
    ensures ValueAt(bounds, counts, r, j) <= ValueAt(bounds, counts, s, k)
  {
    hide InBucket;
    if j < |bounds| {
      assert Lower(bounds, j) <= bounds[j];
      if j == k {
        InterpolateMonotone(bounds, counts, r, s, k);
      } else {
        hide Interpolate;
        InterpolateInBucket(bounds, counts, r, j);
        if k < |bounds| {
          assert Lower(bounds, k) <= bounds[k];
          InterpolateInBucket(bounds, counts, s, k);
        }
      }
    }
  }

  lemma InterpolateMonotone(bounds: seq<real>, counts: seq<nat>, r: real, s: real, k: nat)
    requires k < |bounds| && k < |counts| && 0 < counts[k] && Lower(bounds, k) <= bounds[k] && r <= s
    ensures Interpolate(bounds, counts, r, k) <= Interpolate(bounds, counts, s, k)
  {
  }

  /** A first bucket that runs backwards: with a negative first bound that has
      observations below it, the quantile falls as the rank rises. */
  lemma NegativeFirstBound(bounds: seq<real>, counts: seq<nat>, total: nat) returns (p: real, q: real)
    requires ValidHistogram(bounds, counts, total) && bounds[0] < 0.0 && 0 < counts[0]
    ensures 0.0 < p < q <= 1.0
    ensures Quantile(bounds, counts, total, q) < Quantile(bounds, counts, total, p)
  {
    SumMonotone(counts, 1, |counts|);
    p, q := RankQuotient(counts[0] as real / 2.0, total), RankQuotient(counts[0] as real, total);
    QuotientOrder(counts[0] as real, total);
    FirstBucketValue(bounds, counts, counts[0] as real / 2.0);
    FirstBucketValue(bounds, counts, counts[0] as real);
    HalfAndWhole(bounds[0], counts[0]);
  }

  function RankQuotient(rank: real, total: nat): (q: real)
    requires 0 < total && 0.0 < rank <= total as real
    ensures 0.0 < q <= 1.0 && Rank(q, total) == rank
  {
    DivInUnit(rank, total as real);
    rank / total as real
  }

  lemma QuotientOrder(rank: real, total: nat)
    requires 0 < total && 0.0 < rank <= total as real
    ensures RankQuotient(rank / 2.0, total) < RankQuotient(rank, total)
  {
    hide Rank, RankQuotient;
    var a, b := RankQuotient(rank / 2.0, total), RankQuotient(rank, total);
    if b <= a {
      RankMonotone(b, a, total);
    }
  }

  lemma FirstBucketValue(bounds: seq<real>, counts: seq<nat>, rank: real)
    requires bounds != [] && counts != [] && 0 < counts[0] && 0.0 < rank <= counts[0] as real
    ensures RankBucket(counts, rank, 0) == 0
    ensures Interpolate(bounds, counts, rank, 0) == bounds[0] * (rank / counts[0] as real)
  {
  }

  lemma HalfAndWhole(b: real, n: nat)
    requires b < 0.0 && 0 < n
    ensures b * (n as real / n as real) < b * (n as real / 2.0 / n as real)
  {
  }

  /** The quantiles of a histogram rise with the rank exactly when its first bucket
      is empty or ends at or above zero. */
  lemma QuantilesOrderedIff(bounds: seq<real>, counts: seq<nat>, total: nat)
    requires ValidHistogram(bounds, counts, total)
    ensures (forall p, q :: 0.0 < p <= q <= 1.0 ==>
      Quantile(bounds, counts, total, p) <= Quantile(bounds, counts, total, q))
      <==> (0.0 <= bounds[0] || counts[0] == 0)
  {
    if 0.0 <= bounds[0] || counts[0] == 0 {
      forall p, q | 0.0 < p <= q <= 1.0
        ensures Quantile(bounds, counts, total, p) <= Quantile(bounds, counts, total, q)
      {
        QuantileMonotone(bounds, counts, total, p, q);
      }
    } else {
      var p, q := NegativeFirstBound(bounds, counts, total);
    }
  }
}
