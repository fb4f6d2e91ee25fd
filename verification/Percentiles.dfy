/** The nearest-rank percentile of request durations. */
module Percentiles {
  import opened Sorting

  function Size(v: int): real {
    v as real
  }

  /** The one-based rank of the p-th percentile among n values. */
  function NearestRank(p: int, n: nat): (rank: nat)
    requires 0 < n
    ensures 1 <= rank <= n
    ensures 1 <= p <= 100 ==> p * n <= rank * 100 < p * n + 100
  {
    var rank := (p * n + 99) / 100;
    if rank < 1 then 1 else if rank > n then n else rank
  }

  function PercentileOf(vals: seq<int>, p: int): int {
    if vals == [] then 0
    else
      SortSorts(vals, Size);
      Sort(vals, Size)[NearestRank(p, |vals|) - 1]
  }

  /** The percentile of an array, which is left as it is: a copy is sorted. */
  method Percentile(vals: array<int>, p: int) returns (r: int)
    ensures r == PercentileOf(vals[..], p)
  {
    if vals.Length == 0 {
      return 0;
    }
    var sorted := Sort(vals[..], Size);
    SortSorts(vals[..], Size);
    var rank := (p * |sorted| + 99) / 100;
    if rank < 1 {
      rank := 1;
    }
    if rank > |sorted| {
      rank := |sorted|;
    }
    return sorted[rank - 1];
  }

  /** How many values are at most v, and how many are below it. */
  function AtMost(s: seq<int>, v: int): nat {
    if s == [] then 0 else AtMost(s[1..], v) + if s[0] <= v then 1 else 0
  }

  function Below(s: seq<int>, v: int): nat {
    AtMost(s, v - 1)
  }

  lemma {:induction false} InsertCounts(x: int, s: seq<int>, v: int)
    ensures AtMost(Insert(x, s, Size), v) == AtMost(s, v) + if x <= v then 1 else 0
  {
    if s != [] && Size(x) > Size(s[0]) {
      InsertCounts(x, s[1..], v);
    }
  }

  lemma {:induction false} SortCounts(s: seq<int>, v: int)
    ensures AtMost(Sort(s, Size), v) == AtMost(s, v)
  {
    if s != [] {
      SortCounts(s[1..], v);
      InsertCounts(s[0], Sort(s[1..], Size), v);
    }
  }

  /** In a sorted sequence the counts bracket the index. */
  lemma {:induction false} SortedCounts(s: seq<int>, k: nat, v: int)
    requires SortedBy(s, Size) && k < |s|
    ensures s[k] <= v ==> k < AtMost(s, v)
    ensures v < s[k] ==> AtMost(s, v) <= k
  {
    if 0 < k {
      assert Size(s[0]) <= Size(s[k]);
      SortedCounts(s[1..], k - 1, v);
    } else if v < s[0] {
      NoneAtMost(s, v);
    }
  }

  lemma {:induction false} NoneAtMost(s: seq<int>, v: int)
    requires forall i :: 0 <= i < |s| ==> v < s[i]
    ensures AtMost(s, v) == 0
  {
    if s != [] {
      NoneAtMost(s[1..], v);
    }
  }

  /** Nearest rank, without ranks: a value of the input such that at least p
      percent of the values are at most it and fewer than p percent are below. */
  ghost predicate IsPercentile(vals: seq<int>, p: int, v: int) {
    v in vals && p * |vals| <= AtMost(vals, v) * 100 && Below(vals, v) * 100 < p * |vals|
  }

  lemma PercentileIs(vals: seq<int>, p: int)
    requires vals != [] && 1 <= p <= 100
    ensures IsPercentile(vals, p, PercentileOf(vals, p))
  {
    var sorted, k := Sort(vals, Size), NearestRank(p, |vals|) - 1;
    SortSorts(vals, Size);
    var v := sorted[k];
    assert v in multiset(sorted);
    SortCounts(vals, v);
    SortCounts(vals, v - 1);
    SortedCounts(sorted, k, v);
    SortedCounts(sorted, k, v - 1);
  }

  lemma {:induction false} AtMostMonotone(s: seq<int>, v: int, w: int)
    requires v <= w
    ensures AtMost(s, v) <= AtMost(s, w)
  {
    if s != [] {
      AtMostMonotone(s[1..], v, w);
    }
  }

  /** There is only one such value. */
  lemma PercentileUnique(vals: seq<int>, p: int, v: int, w: int)
    requires IsPercentile(vals, p, v) && IsPercentile(vals, p, w)
    ensures v == w
  {
    if v < w {
      AtMostMonotone(vals, v, w - 1);
    } else if w < v {
      AtMostMonotone(vals, w, v - 1);
    }
  }

  /** Higher percentiles are no smaller, for any two ranks asked for. */
  lemma PercentileMonotone(vals: seq<int>, p: int, q: int)
    requires p <= q
    ensures PercentileOf(vals, p) <= PercentileOf(vals, q)
  {
    if vals != [] {
      var sorted := Sort(vals, Size);
      SortSorts(vals, Size);
      RankMonotone(p, q, |vals|);
      var i, j := NearestRank(p, |vals|) - 1, NearestRank(q, |vals|) - 1;
      assert i < j ==> Size(sorted[i]) <= Size(sorted[j]);
    }
  }

  lemma RankMonotone(p: int, q: int, n: nat)
    requires p <= q && 0 < n
    ensures NearestRank(p, n) <= NearestRank(q, n)
  {
    TimesMonotone(p, q, n);
    HundredthsMonotone(p * n, q * n);
  }

  lemma {:induction false} TimesMonotone(p: int, q: int, n: nat)
    requires p <= q
    ensures p * n <= q * n
  {
    if 0 < n {
      TimesMonotone(p, q, n - 1);
    }
  }

  lemma HundredthsMonotone(a: int, b: int)
    requires a <= b
    ensures (a + 99) / 100 <= (b + 99) / 100
  {
  }
}
