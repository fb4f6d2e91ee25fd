/** The request chart: volume, errors and duration percentiles of each bucket. */
module RequestStats {
  import opened Grouping
  import opened Percentiles

  const MAX_ROWS := 100000

  datatype Request = Request(duration: int, isError: bool)

  datatype Bucket = Bucket(count: nat, errorCount: nat, durations: seq<int>)

  datatype Stat = Stat(time: Time, count: nat, errorCount: nat, p50: int, p95: int, p99: int, timed: nat)

  datatype Stats = Stats(buckets: seq<Stat>, truncated: bool)

  ghost function Errors(rows: seq<Row<Request>>): (n: nat)
    ensures n <= |rows|
  {
    if rows == [] then 0
    else Errors(rows[..|rows| - 1]) + if rows[|rows| - 1].data.isError then 1 else 0
  }

  /** The durations that were measured, in the order of their rows. */
  ghost function Durations(rows: seq<Row<Request>>): (d: seq<int>)
    ensures |d| <= |rows| && forall i :: 0 <= i < |d| ==> 0 < d[i]
  {
    if rows == [] then []
    else
      var duration := rows[|rows| - 1].data.duration;
      Durations(rows[..|rows| - 1]) + if duration > 0 then [duration] else []
  }

  ghost function StatOf(g: Group<Request>): Stat {
    var d := Durations(g.rows);
    Stat(g.time, |g.rows|, Errors(g.rows), PercentileOf(d, 50), PercentileOf(d, 95), PercentileOf(d, 99), |d|)
  }

  ghost function StatsOf(groups: seq<Group<Request>>): (s: seq<Stat>)
    ensures |s| == |groups|
  {
    seq(|groups|, i requires 0 <= i < |groups| => StatOf(groups[i]))
  }

  ghost function Tally(key: Time, rows: seq<Row<Request>>): Bucket {
    Bucket(|rows|, Errors(rows), Durations(rows))
  }

  lemma TallyMore(key: Time, rows: seq<Row<Request>>, r: Row<Request>)
    ensures Tally(key, []) == Bucket(0, 0, [])
    ensures
      var b, all := Tally(key, rows), Tally(key, rows + [r]);
      all.count == b.count + 1 &&
      all.errorCount == (if r.data.isError then b.errorCount + 1 else b.errorCount) &&
      all.durations == if r.data.duration > 0 then b.durations + [r.data.duration] else b.durations
  {
  }

  /** The rows of the query, at most one more than are charted. */
  function Queried(rows: seq<Row<Request>>): seq<Row<Request>> {
    if |rows| > MAX_ROWS + 1 then rows[..MAX_ROWS + 1] else rows
  }

  /** Too many rows give no chart at all, never a partial one. */
  method GetRequestStats(rows: seq<Row<Request>>, bucketMins: int) returns (stats: Stats)
    ensures stats.truncated <==> |rows| > 100_000
    ensures stats.truncated ==> stats.buckets == []
    ensures !stats.truncated ==>
      var mins := if bucketMins <= 0 then 5 else bucketMins;
      var groups := MapGroups(rows, mins * MINUTE);
      stats.buckets == StatsOf(groups) && EachPlace(rows, mins * 60_000_000_000, groups)
  {
    hide MapGroups, EachPlace, KeysOf, Floor;
    var mins := bucketMins;
    if mins <= 0 {
      mins := 5;
    }
    MapGroupsMean(rows, mins * MINUTE);
    var queried := Queried(rows);
    var records: seq<Row<Request>> := [];
    for n := 0 to |queried|
      invariant records == queried[..n] && n <= MAX_ROWS
    {
      if |records| == MAX_ROWS {
        return Stats([], true);
      }
      records := records + [queried[n]];
    }
    assert records == rows;
    if |records| == 0 {
      NoKeys(records, mins * MINUTE);
      return Stats([], false);
    }
    var out := Bucketed(records, mins * MINUTE);
    return Stats(out, false);
  }

  method Bucketed(records: seq<Row<Request>>, bucketDur: int) returns (out: seq<Stat>)
    ensures out == StatsOf(MapGroups(records, bucketDur))
  {
    hide Tallied, MapGroups, Floor, KeysOf, MembersOf, Tally, StatsOf;
    var ordered: seq<Time> := [];
    var buckets: map<Time, Bucket> := map[];
    TalliedBegins(records, bucketDur, Tally);
    for n := 0 to |records|
      invariant Tallied(records, n, bucketDur, ordered, buckets, Tally)
    {
      ghost var before := buckets;
      var rec := records[n];
      var t := Truncate(rec.time, bucketDur);
      TalliedNext(records, n, bucketDur, ordered, buckets, Tally);
      TallyMore(t, MembersOf(records[..n], bucketDur, t), rec);
      if t !in buckets {
        buckets := buckets[t := Bucket(0, 0, [])];
        ordered := ordered + [t];
      }
      var b := buckets[t];
      b := b.(count := b.count + 1);
      if rec.data.isError {
        b := b.(errorCount := b.errorCount + 1);
      }
      if rec.data.duration > 0 {
        b := b.(durations := b.durations + [rec.data.duration]);
      }
      assert buckets[t := b] == before[t := b];
      buckets := buckets[t := b];
    }
    TalliedEnd(records, bucketDur, ordered, buckets, Tally);
    out := Summaries(ordered, buckets, MapGroups(records, bucketDur));
  }

  method Summaries(ordered: seq<Time>, buckets: map<Time, Bucket>, ghost groups: seq<Group<Request>>)
    returns (out: seq<Stat>)
    requires |ordered| == |groups|
    requires forall i :: 0 <= i < |ordered| ==>
      ordered[i] in buckets &&
      ordered[i] == groups[i].time && buckets[ordered[i]] == Tally(ordered[i], groups[i].rows)
    ensures out == StatsOf(groups)
  {
    hide PercentileOf, Errors, Durations;
    out := [];
    for i := 0 to |ordered|
      invariant out == StatsOf(groups)[..i]
    {
      var b := buckets[ordered[i]];
      var durations := new int[|b.durations|](k requires 0 <= k < |b.durations| => b.durations[k]);
      assert durations[..] == b.durations;
      var p50 := Percentile(durations, 50);
      var p95 := Percentile(durations, 95);
      var p99 := Percentile(durations, 99);
      out := out + [Stat(ordered[i], b.count, b.errorCount, p50, p95, p99, |b.durations|)];
    }
  }

  ghost function Requests(stats: seq<Stat>): nat {
    if stats == [] then 0 else Requests(stats[..|stats| - 1]) + stats[|stats| - 1].count
  }

  lemma {:induction false} RequestsAre(groups: seq<Group<Request>>)
    ensures Requests(StatsOf(groups)) == RowCount(groups)
  {
    if groups != [] {
      RequestsAre(groups[..|groups| - 1]);
      assert StatsOf(groups)[..|groups| - 1] == StatsOf(groups[..|groups| - 1]);
    }
  }

  /** Errors counts the rows that are marked, whatever their order. */
  lemma {:induction false} ErrorsAre(rows: seq<Row<Request>>)
    ensures Errors(rows) == |set i | 0 <= i < |rows| && rows[i].data.isError|
  {
    var failed := set i | 0 <= i < |rows| && rows[i].data.isError;
    if rows != [] {
      var n := |rows| - 1;
      ErrorsAre(rows[..n]);
      var before := set i | 0 <= i < n && rows[..n][i].data.isError;
      assert failed == if rows[n].data.isError then before + {n} else before;
    }
  }

  lemma DurationsMore(rows: seq<Row<Request>>)
    requires rows != []
    ensures
      var before, duration := Durations(rows[..|rows| - 1]), rows[|rows| - 1].data.duration;
      Durations(rows) == if 0 < duration then before + [duration] else before
  {
  }

  /** Durations keeps the positive ones of the rows, in order. */
  lemma {:induction false} DurationsAre(rows: seq<Row<Request>>) returns (from: seq<nat>)
    ensures |from| == |Durations(rows)| && forall j, k :: 0 <= j < k < |from| ==> from[j] < from[k]
    ensures forall k :: 0 <= k < |from| ==> from[k] < |rows| && Durations(rows)[k] == rows[from[k]].data.duration
    ensures forall i :: 0 <= i < |rows| ==> (i in from <==> 0 < rows[i].data.duration)
  {
    from := [];
    if rows != [] {
      hide Durations;
      var n := |rows| - 1;
      from := DurationsAre(rows[..n]);
      DurationsMore(rows);
      if 0 < rows[n].data.duration {
        ghost var before := from;
        from := from + [n];
        assert forall i :: i in from <==> i in before || i == n;
      }
    }
  }

  /** The chart counts every request once; in each bucket the percentiles are in
      order, and they are percentiles of the measured durations when there are any. */
  lemma StatsMean(rows: seq<Row<Request>>, width: int)
    ensures Requests(StatsOf(MapGroups(rows, width))) == |rows|
    ensures forall i :: 0 <= i < |MapGroups(rows, width)| ==>
      var s, d := StatsOf(MapGroups(rows, width))[i], Durations(MapGroups(rows, width)[i].rows);
      s.time == MapGroups(rows, width)[i].time && s.count == |MapGroups(rows, width)[i].rows| &&
      s.errorCount == Errors(MapGroups(rows, width)[i].rows) &&
      s.timed == |d| <= s.count && 0 <= s.p50 <= s.p95 <= s.p99 &&
      if d == [] then s.p99 == 0
      else IsPercentile(d, 50, s.p50) && IsPercentile(d, 95, s.p95) && IsPercentile(d, 99, s.p99)
  {
    hide MapGroups, Floor, PercentileOf, IsPercentile, Errors, Durations;
    RequestsAre(MapGroups(rows, width));
    MapGroupsConserve(rows, width);
    forall i | 0 <= i < |MapGroups(rows, width)|
      ensures
        var s, d := StatsOf(MapGroups(rows, width))[i], Durations(MapGroups(rows, width)[i].rows);
        s.timed == |d| <= s.count && 0 <= s.p50 <= s.p95 <= s.p99 &&
        if d == [] then s.p99 == 0
        else IsPercentile(d, 50, s.p50) && IsPercentile(d, 95, s.p95) && IsPercentile(d, 99, s.p99)
    {
      DurationPercentiles(Durations(MapGroups(rows, width)[i].rows));
    }
  }

  lemma DurationPercentiles(d: seq<int>)
    requires forall i :: 0 <= i < |d| ==> 0 < d[i]
    ensures 0 <= PercentileOf(d, 50) <= PercentileOf(d, 95) <= PercentileOf(d, 99)
    ensures d == [] ==> PercentileOf(d, 99) == 0
    ensures d != [] ==> IsPercentile(d, 50, PercentileOf(d, 50)) && IsPercentile(d, 95, PercentileOf(d, 95)) &&
                        IsPercentile(d, 99, PercentileOf(d, 99))
  {
    PercentileMonotone(d, 50, 95);
    PercentileMonotone(d, 95, 99);
    if d != [] {
      PercentileIs(d, 50);
      PercentileIs(d, 95);
      PercentileIs(d, 99);
    }
  }
}
