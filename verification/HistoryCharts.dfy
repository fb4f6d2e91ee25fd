/**
  The two history charts: an agent service's, grouped in a map, and a monitor's,
  grouped by extending the last bucket.  Each method is the loop after the query.
 */
module HistoryCharts {
  import opened Grouping

  /** A point of a history chart; its label is the bucket's instant in UTC. */
  datatype Point = Point(time: int, latency: real, uptime: real, total: nat)

  ghost function Ratio(a: real, b: int): real {
    if b == 0 then 0.0 else a / b as real
  }

  // ----- agent services: a map of buckets -----

  datatype Check = Check(healthy: int, latency: real)

  datatype CheckBucket = CheckBucket(sumLatency: real, healthy: int, total: nat)

  ghost function Healthy(rows: seq<Row<Check>>): int {
    if rows == [] then 0 else Healthy(rows[..|rows| - 1]) + rows[|rows| - 1].data.healthy
  }

  /** Only a passed check's latency is a response time. */
  ghost function HealthyLatency(rows: seq<Row<Check>>): real {
    if rows == [] then 0.0
    else
      var check := rows[|rows| - 1].data;
      HealthyLatency(rows[..|rows| - 1]) + if check.healthy == 1 then check.latency else 0.0
  }

  ghost function ServicePoint(g: Group<Check>): Point {
    var healthy := Healthy(g.rows);
    Point(g.time.at, if healthy > 0 then HealthyLatency(g.rows) / healthy as real else 0.0,
          Ratio(healthy as real * 100.0, |g.rows|), |g.rows|)
  }

  ghost function ServicePoints(groups: seq<Group<Check>>): (p: seq<Point>)
    ensures |p| == |groups|
  {
    seq(|groups|, i requires 0 <= i < |groups| => ServicePoint(groups[i]))
  }

  ghost function CheckTally(key: Time, rows: seq<Row<Check>>): CheckBucket {
    CheckBucket(HealthyLatency(rows), Healthy(rows), |rows|)
  }

  lemma CheckPoint(g: Group<Check>)
    ensures
      var b := CheckTally(g.time, g.rows);
      ServicePoint(g) == Point(g.time.at, if b.healthy > 0 then b.sumLatency / b.healthy as real else 0.0,
                               Ratio(b.healthy as real * 100.0, b.total), b.total)
  {
  }

  lemma CheckTallyMore(key: Time, rows: seq<Row<Check>>, r: Row<Check>)
    ensures CheckTally(key, []) == CheckBucket(0.0, 0, 0)
    ensures
      var b := CheckTally(key, rows);
      var sum := if r.data.healthy == 1 then b.sumLatency + r.data.latency else b.sumLatency;
      CheckTally(key, rows + [r]) == CheckBucket(sum, b.healthy + r.data.healthy, b.total + 1)
  {
  }

  method ServicePointsOf(ordered: seq<Time>, buckets: map<Time, CheckBucket>, ghost groups: seq<Group<Check>>)
    returns (points: seq<Point>)
    requires |ordered| == |groups|
    requires forall i :: 0 <= i < |ordered| ==>
      ordered[i] in buckets &&
      ordered[i] == groups[i].time && buckets[ordered[i]] == CheckTally(ordered[i], groups[i].rows)
    ensures points == ServicePoints(groups)
  {
    hide CheckTally, ServicePoint;
    points := [];
    for i := 0 to |ordered|
      invariant points == ServicePoints(groups)[..i]
    {
      CheckPoint(groups[i]);
      var b := buckets[ordered[i]];
      var avgLat := 0.0;
      if b.healthy > 0 {
        avgLat := b.sumLatency / b.healthy as real;
      }
      var uptimePct := 0.0;
      if b.total > 0 {
        uptimePct := b.healthy as real * 100.0 / b.total as real;
      }
      points := points + [Point(ordered[i].at, avgLat, uptimePct, b.total)];
    }
  }

  method GetServiceHistoryBuckets(records: seq<Row<Check>>, bucketMins: int) returns (points: seq<Point>)
    ensures
      var groups := MapGroups(records, bucketMins * MINUTE);
      points == ServicePoints(groups) && EachPlace(records, bucketMins * 60_000_000_000, groups)
  {
    hide Tallied, EachPlace, MapGroups, Floor, Truncate, KeysOf, MembersOf, CheckTally, ServicePoints, Healthy,
        HealthyLatency;
    MapGroupsMean(records, bucketMins * MINUTE);
    if |records| == 0 {
      NoKeys(records, bucketMins * MINUTE);
      return [];
    }
    var bucketDur := bucketMins * MINUTE;
    var ordered: seq<Time> := [];
    var buckets: map<Time, CheckBucket> := map[];
    TalliedBegins(records, bucketDur, CheckTally);
    for n := 0 to |records|
      invariant Tallied(records, n, bucketDur, ordered, buckets, CheckTally)
    {
      ghost var before := buckets;
      var rec := records[n];
      var t := Truncate(rec.time, bucketDur);
      TalliedNext(records, n, bucketDur, ordered, buckets, CheckTally);
      CheckTallyMore(t, MembersOf(records[..n], bucketDur, t), rec);
      if t !in buckets {
        buckets := buckets[t := CheckBucket(0.0, 0, 0)];
        ordered := ordered + [t];
      }
      var b := buckets[t];
      b := b.(total := b.total + 1, healthy := b.healthy + rec.data.healthy);
      if rec.data.healthy == 1 {
        b := b.(sumLatency := b.sumLatency + rec.data.latency);
      }
      assert b == CheckTally(t, MembersOf(records[..n], bucketDur, t) + [rec]);
      assert buckets[t := b] == before[t := b];
      buckets := buckets[t := b];
    }
    TalliedEnd(records, bucketDur, ordered, buckets, CheckTally);
    points := ServicePointsOf(ordered, buckets, MapGroups(records, bucketDur));
  }

  // ----- monitors: extending the last bucket -----

  datatype Probe = Probe(status: string, ms: int)

  datatype ProbeBucket = ProbeBucket(t: Time, total: nat, success: nat, sumMs: int)

  ghost function Successes(rows: seq<Row<Probe>>): nat {
    if rows == [] then 0
    else Successes(rows[..|rows| - 1]) + if rows[|rows| - 1].data.status == "success" then 1 else 0
  }

  ghost function SuccessMs(rows: seq<Row<Probe>>): int {
    if rows == [] then 0
    else
      var probe := rows[|rows| - 1].data;
      SuccessMs(rows[..|rows| - 1]) + if probe.status == "success" then probe.ms else 0
  }

  ghost function MonitorPoint(g: Group<Probe>): Point {
    var success := Successes(g.rows);
    Point(g.time.at, Ratio(SuccessMs(g.rows) as real, success), Ratio(success as real * 100.0, |g.rows|), |g.rows|)
  }

  ghost function MonitorPoints(groups: seq<Group<Probe>>): (p: seq<Point>)
    ensures |p| == |groups|
  {
    seq(|groups|, i requires 0 <= i < |groups| => MonitorPoint(groups[i]))
  }

  ghost function ProbeTally(g: Group<Probe>): ProbeBucket {
    ProbeBucket(g.time, |g.rows|, Successes(g.rows), SuccessMs(g.rows))
  }

  ghost predicate Extended(rows: seq<Row<Probe>>, n: nat, width: int, buckets: seq<ProbeBucket>) {
    n <= |rows| && |buckets| == |LastGroups(rows[..n], width)| &&
    forall i :: 0 <= i < |buckets| ==>
      0 < buckets[i].total && buckets[i] == ProbeTally(LastGroups(rows[..n], width)[i])
  }

  function Count(b: ProbeBucket, probe: Probe): (r: ProbeBucket)
    ensures 0 < r.total
  {
    var counted := b.(total := b.total + 1);
    if probe.status == "success" then counted.(success := b.success + 1, sumMs := b.sumMs + probe.ms) else counted
  }

  lemma ProbeTallyMore(g: Group<Probe>, r: Row<Probe>)
    ensures ProbeTally(g.(rows := g.rows + [r])) == Count(ProbeTally(g), r.data)
  {
  }

  lemma ExtendedBegins(rows: seq<Row<Probe>>, width: int)
    ensures Extended(rows, 0, width, [])
  {
  }

  lemma ExtendedNext(rows: seq<Row<Probe>>, n: nat, width: int, buckets: seq<ProbeBucket>)
    requires n < |rows| && Extended(rows, n, width, buckets)
    ensures
      var t, last := Truncate(rows[n].time, width), |buckets| - 1;
      Extended(rows, n + 1, width,
        if last < 0 || buckets[last].t.at != t.at then
          (buckets + [ProbeBucket(t, 0, 0, 0)])[|buckets| := Count(ProbeBucket(t, 0, 0, 0), rows[n].data)]
        else buckets[last := Count(buckets[last], rows[n].data)])
  {
    hide Floor, LastGroups, ProbeTally, Count;
    var groups, t := LastGroups(rows[..n], width), Truncate(rows[n].time, width);
    assert rows[..n + 1][..n] == rows[..n];
    assert LastGroups(rows[..n + 1], width) == Extend(groups, rows[n], width) by {
      NextGroup(rows, width, n);
    }
    assert ProbeTally(Group(t, [])) == ProbeBucket(t, 0, 0, 0) && forall g :: ProbeTally(g).t == g.time by {
      TallyBegins(t);
    }
    ProbeTallyMore(Group(t, []), rows[n]);
    assert [] + [rows[n]] == [rows[n]];
    if buckets != [] {
      ProbeTallyMore(groups[|buckets| - 1], rows[n]);
    }
  }

  lemma TallyBegins(t: Time)
    ensures ProbeTally(Group(t, [])) == ProbeBucket(t, 0, 0, 0) && forall g :: ProbeTally(g).t == g.time
  {
  }

  lemma NextGroup<T>(rows: seq<Row<T>>, width: int, n: nat)
    requires n < |rows|
    ensures LastGroups(rows[..n + 1], width) == Extend(LastGroups(rows[..n], width), rows[n], width)
  {
    assert rows[..n + 1][..n] == rows[..n];
  }

  lemma ExtendedEnds(rows: seq<Row<Probe>>, width: int, buckets: seq<ProbeBucket>)
    requires Extended(rows, |rows|, width, buckets)
    ensures |buckets| == |LastGroups(rows, width)|
    ensures forall i :: 0 <= i < |buckets| ==>
      var b := buckets[i];
      0 < b.total &&
      MonitorPoint(LastGroups(rows, width)[i]) ==
      Point(b.t.at, Ratio(b.sumMs as real, b.success), b.success as real * 100.0 / b.total as real, b.total)
  {
    assert rows[..|rows|] == rows;
  }

  method GetHistoryBuckets(rows: seq<Row<Probe>>, bucketMins: int) returns (points: seq<Point>)
    ensures
      var groups := LastGroups(rows, bucketMins * MINUTE);
      points == MonitorPoints(groups) && (Ordered(rows) ==> EachInterval(rows, bucketMins * 60_000_000_000, groups))
  {
    hide EachInterval, Ordered, Floor, Extended, LastGroups, MonitorPoint;
    var bucketDur := bucketMins * MINUTE;
    var buckets: seq<ProbeBucket> := [];
    if Ordered(rows) {
      LastGroupsMean(rows, bucketDur);
    }
    ExtendedBegins(rows, bucketDur);
    for n := 0 to |rows|
      invariant Extended(rows, n, bucketDur, buckets)
    {
      ExtendedNext(rows, n, bucketDur, buckets);
      var probe, t := rows[n].data, Truncate(rows[n].time, bucketDur);
      if |buckets| == 0 || buckets[|buckets| - 1].t.at != t.at {
        buckets := buckets + [ProbeBucket(t, 0, 0, 0)];
      }
      var last := |buckets| - 1;
      var b := buckets[last];
      b := b.(total := b.total + 1);
      if probe.status == "success" {
        b := b.(success := b.success + 1, sumMs := b.sumMs + probe.ms);
      }
      buckets := buckets[last := b];
    }
    ExtendedEnds(rows, bucketDur, buckets);
    points := [];
    for i := 0 to |buckets|
      invariant points == MonitorPoints(LastGroups(rows, bucketDur))[..i]
    {
      var b := buckets[i];
      var p := Point(b.t.at, 0.0, b.success as real * 100.0 / b.total as real, b.total);
      if b.success > 0 {
        p := p.(latency := b.sumMs as real / b.success as real);
      }
      points := points + [p];
    }
  }

  // ----- the two history charts compared -----

  /** A monitor's rows as an agent would have recorded them. */
  ghost function AsChecks(rows: seq<Row<Probe>>): (checks: seq<Row<Check>>)
    ensures |checks| == |rows|
  {
    seq(|rows|, i requires 0 <= i < |rows| =>
      Row(rows[i].time, Check(if rows[i].data.status == "success" then 1 else 0, rows[i].data.ms as real)))
  }

  lemma {:induction false} AsChecksGroups(rows: seq<Row<Probe>>, width: int, key: Time)
    ensures KeysOf(AsChecks(rows), width) == KeysOf(rows, width)
    ensures MembersOf(AsChecks(rows), width, key) == AsChecks(MembersOf(rows, width, key))
  {
    hide Floor;
    if rows != [] {
      AsChecksGroups(rows[..|rows| - 1], width, key);
      assert AsChecks(rows)[..|rows| - 1] == AsChecks(rows[..|rows| - 1]);
    }
  }

  lemma {:induction false} AsChecksPoint(rows: seq<Row<Probe>>)
    ensures Healthy(AsChecks(rows)) == Successes(rows)
    ensures HealthyLatency(AsChecks(rows)) == SuccessMs(rows) as real
  {
    if rows != [] {
      AsChecksPoint(rows[..|rows| - 1]);
      assert AsChecks(rows)[..|rows| - 1] == AsChecks(rows[..|rows| - 1]);
    }
  }

  lemma AsChecksPoints(rows: seq<Row<Probe>>, width: int)
    ensures ServicePoints(MapGroups(AsChecks(rows), width)) == MonitorPoints(MapGroups(rows, width))
  {
    hide Floor, KeysOf, MembersOf, AsChecks, Healthy, HealthyLatency, Successes, SuccessMs;
    AsChecksGroups(rows, width, Time(0, 0));
    var keys := KeysOf(rows, width);
    forall i | 0 <= i < |keys|
      ensures ServicePoints(MapGroups(AsChecks(rows), width))[i] == MonitorPoints(MapGroups(rows, width))[i]
    {
      AsChecksGroups(rows, width, keys[i]);
      AsChecksPoint(MembersOf(rows, width, keys[i]));
    }
  }

  /** The same checks, kept by a monitor and by an agent, draw the same history
      exactly when the rows of each bucket were read with one location. */
  lemma HistoryChartsAgreeIff(rows: seq<Row<Probe>>, width: int)
    requires Ordered(rows)
    ensures ServicePoints(MapGroups(AsChecks(rows), width)) == MonitorPoints(LastGroups(rows, width)) <==>
      OneLocation(rows, width)
  {
    hide Floor, KeysOf, MembersOf, LastGroups, MonitorPoint;
    AsChecksPoints(rows, width);
    var mapped, last := MonitorPoints(MapGroups(rows, width)), MonitorPoints(LastGroups(rows, width));
    GroupingsAgreeIff(rows, width);
    if mapped == last {
      LabelsRise(LastGroups(rows, width), rows, width);
      OneLocationFromLabels(rows, width);
    }
  }

  lemma LabelsRise(groups: seq<Group<Probe>>, rows: seq<Row<Probe>>, width: int)
    requires Ordered(rows) && groups == LastGroups(rows, width)
    ensures forall i, j :: 0 <= i < j < |groups| ==> MonitorPoints(groups)[i].time < MonitorPoints(groups)[j].time
  {
    LastGroupsRise(rows, width);
  }

  lemma OneLocationFromLabels(rows: seq<Row<Probe>>, width: int)
    requires
      var p := MonitorPoints(MapGroups(rows, width));
      forall i, j :: 0 <= i < j < |p| ==> p[i].time < p[j].time
    ensures OneLocation(rows, width)
  {
    hide Floor, KeysOf, MembersOf;
    var keys, p := KeysOf(rows, width), MonitorPoints(MapGroups(rows, width));
    assert forall i :: 0 <= i < |keys| ==> p[i].time == keys[i].at;
    forall i | 0 <= i < |rows|
      ensures Truncate(rows[i].time, width) in keys
    {
      KeysCover(rows, width, i);
    }
    OneLocationFromKeys(rows, width, keys);
  }
}
