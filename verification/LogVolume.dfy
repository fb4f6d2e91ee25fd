/**
  The log volume chart: rows come newest first, are counted by level in a map of
  buckets, and the buckets are then read backwards.
 */
module LogVolume {
  import opened Grouping

  datatype Bucket = Bucket(time: Time, error: int, warn: int, info: int, debug: int, trace: int)

  ghost function Having(rows: seq<Row<string>>, level: string): (n: nat)
    ensures n <= |rows|
  {
    if rows == [] then 0
    else Having(rows[..|rows| - 1], level) + if rows[|rows| - 1].data == level then 1 else 0
  }

  /** Every level that is not one of the other four counts as info. */
  ghost function BucketOf(time: Time, rows: seq<Row<string>>): Bucket {
    var error, warn := Having(rows, "error"), Having(rows, "warn");
    var debug, trace := Having(rows, "debug"), Having(rows, "trace");
    Bucket(time, error, warn, |rows| - error - warn - debug - trace, debug, trace)
  }

  ghost function BucketsOf(groups: seq<Group<string>>): (b: seq<Bucket>)
    ensures |b| == |groups|
  {
    seq(|groups|, i requires 0 <= i < |groups| => BucketOf(groups[i].time, groups[i].rows))
  }

  lemma BucketMore(key: Time, rows: seq<Row<string>>, r: Row<string>)
    ensures BucketOf(key, []) == Bucket(key, 0, 0, 0, 0, 0)
    ensures
      var b := BucketOf(key, rows);
      BucketOf(key, rows + [r]) ==
      match r.data
      case "error" => b.(error := b.error + 1)
      case "warn" => b.(warn := b.warn + 1)
      case "debug" => b.(debug := b.debug + 1)
      case "trace" => b.(trace := b.trace + 1)
      case _ => b.(info := b.info + 1)
  {
  }

  method Histogram(newest: seq<Row<string>>, bucketMins: int) returns (out: seq<Bucket>)
    ensures
      var mins := if bucketMins <= 0 then 10 else bucketMins;
      var groups := MapGroups(newest, mins * MINUTE);
      out == Reverse(BucketsOf(groups)) && EachPlace(newest, mins * 60_000_000_000, groups)
  {
    hide Tallied, EachPlace, MapGroups, Floor, KeysOf, MembersOf, BucketOf;
    var mins := bucketMins;
    if mins <= 0 {
      mins := 10;
    }
    var bucketDur := mins * MINUTE;
    var ordered: seq<Time> := [];
    var buckets: map<Time, Bucket> := map[];
    MapGroupsMean(newest, bucketDur);
    TalliedBegins(newest, bucketDur, BucketOf);
    for n := 0 to |newest|
      invariant Tallied(newest, n, bucketDur, ordered, buckets, BucketOf)
    {
      ghost var before := buckets;
      var t := Truncate(newest[n].time, bucketDur);
      TalliedNext(newest, n, bucketDur, ordered, buckets, BucketOf);
      BucketMore(t, MembersOf(newest[..n], bucketDur, t), newest[n]);
      if t !in buckets {
        buckets := buckets[t := Bucket(t, 0, 0, 0, 0, 0)];
        ordered := ordered + [t];
      }
      var b := buckets[t];
      match newest[n].data {
        case "error" => b := b.(error := b.error + 1);
        case "warn" => b := b.(warn := b.warn + 1);
        case "debug" => b := b.(debug := b.debug + 1);
        case "trace" => b := b.(trace := b.trace + 1);
        case _ => b := b.(info := b.info + 1);
      }
      assert buckets[t := b] == before[t := b];
      buckets := buckets[t := b];
    }
    TalliedEnd(newest, bucketDur, ordered, buckets, BucketOf);
    out := [];
    var i := |ordered| - 1;
    while i >= 0
      invariant -1 <= i < |ordered|
      invariant out == Reverse(BucketsOf(MapGroups(newest, bucketDur)))[..|ordered| - 1 - i]
    {
      out := out + [buckets[ordered[i]]];
      i := i - 1;
    }
  }

  // ----- what the chart means -----

  lemma {:induction false} HavingConcat(a: seq<Row<string>>, b: seq<Row<string>>, level: string)
    ensures Having(a + b, level) == Having(a, level) + Having(b, level)
  {
    if b == [] {
      assert a + b == a;
    } else {
      HavingConcat(a, b[..|b| - 1], level);
      assert (a + b)[..|a + b| - 1] == a + b[..|b| - 1];
    }
  }

  lemma {:induction false} HavingReverse(rows: seq<Row<string>>, level: string)
    ensures Having(Reverse(rows), level) == Having(rows, level)
  {
    if rows != [] {
      var shorter, last := rows[..|rows| - 1], rows[|rows| - 1];
      assert Reverse(rows) == [last] + Reverse(shorter);
      HavingConcat([last], Reverse(shorter), level);
      HavingReverse(shorter, level);
    }
  }

  /** The chart of rows read newest first is the chart of the same rows read
      oldest first, so that nothing of the reversal shows, exactly when the rows of
      each bucket share their location. */
  lemma ChartIsOldestFirstIff(rows: seq<Row<string>>, width: int)
    requires Ordered(rows)
    ensures Reverse(BucketsOf(MapGroups(Reverse(rows), width))) == BucketsOf(LastGroups(rows, width)) <==>
      OneLocation(rows, width)
  {
    hide Floor, KeysOf, MembersOf, LastGroups, Having, MapGroups, Reverse, OneLocation, Ordered, BucketOf;
    NewestFirstAgreesIff(rows, width);
    var back, groups := MapGroups(Reverse(rows), width), LastGroups(rows, width);
    if OneLocation(rows, width) {
      TurnedBuckets(back, groups);
    }
    if Reverse(BucketsOf(back)) == BucketsOf(groups) {
      LastGroupsRise(rows, width);
      SameTimes(back, groups);
      RisingFromNewest(rows, width);
    }
  }

  lemma TurnedBuckets(back: seq<Group<string>>, groups: seq<Group<string>>)
    requires Turned(Reverse(back), groups)
    ensures Reverse(BucketsOf(back)) == BucketsOf(groups)
  {
    hide Having, Reverse;
    assert |Reverse(back)| == |groups|;
    forall i | 0 <= i < |groups|
      ensures Reverse(BucketsOf(back))[i] == BucketsOf(groups)[i]
    {
      assert Reverse(back)[i] == back[|back| - 1 - i];
      HavingReverse(groups[i].rows, "error");
      HavingReverse(groups[i].rows, "warn");
      HavingReverse(groups[i].rows, "debug");
      HavingReverse(groups[i].rows, "trace");
    }
  }

  lemma SameTimes(back: seq<Group<string>>, groups: seq<Group<string>>)
    requires Reverse(BucketsOf(back)) == BucketsOf(groups) && Rising(groups)
    ensures Rising(Reverse(back))
  {
    hide Having;
    forall i | 0 <= i < |groups|
      ensures Reverse(back)[i].time == groups[i].time
    {
      assert Reverse(BucketsOf(back))[i] == BucketsOf(groups)[i];
    }
    assert |Reverse(back)| == |groups|;
  }

  ghost function Lines(b: Bucket): int {
    b.error + b.warn + b.info + b.debug + b.trace
  }

  ghost function AllLines(buckets: seq<Bucket>): int {
    if buckets == [] then 0 else AllLines(buckets[..|buckets| - 1]) + Lines(buckets[|buckets| - 1])
  }

  lemma {:induction false} AllLinesAre(groups: seq<Group<string>>)
    ensures AllLines(BucketsOf(groups)) == RowCount(groups)
  {
    if groups != [] {
      AllLinesAre(groups[..|groups| - 1]);
      assert BucketsOf(groups)[..|groups| - 1] == BucketsOf(groups[..|groups| - 1]);
    }
  }

  lemma {:induction false} AllLinesConcat(a: seq<Bucket>, b: seq<Bucket>)
    ensures AllLines(a + b) == AllLines(a) + AllLines(b)
  {
    if b == [] {
      assert a + b == a;
    } else {
      AllLinesConcat(a, b[..|b| - 1]);
      assert (a + b)[..|a + b| - 1] == a + b[..|b| - 1];
    }
  }

  lemma {:induction false} AllLinesReverse(buckets: seq<Bucket>)
    ensures AllLines(Reverse(buckets)) == AllLines(buckets)
  {
    if buckets != [] {
      var shorter, last := buckets[..|buckets| - 1], buckets[|buckets| - 1];
      assert Reverse(buckets) == [last] + Reverse(shorter);
      AllLinesConcat([last], Reverse(shorter));
      AllLinesReverse(shorter);
    }
  }

  /** Every row read is in the chart once, whatever its level, order or location. */
  lemma ChartConserves(newest: seq<Row<string>>, width: int)
    ensures AllLines(Reverse(BucketsOf(MapGroups(newest, width)))) == |newest|
  {
    hide Floor, MapGroups;
    AllLinesReverse(BucketsOf(MapGroups(newest, width)));
    AllLinesAre(MapGroups(newest, width));
    MapGroupsConserve(newest, width);
  }

  // ----- the row cap -----

  /** The chart as Histogram draws it for rows that come newest first. */
  ghost function Chart(rows: seq<Row<string>>, width: int): seq<Bucket> {
    Reverse(BucketsOf(MapGroups(Reverse(rows), width)))
  }

  /** Past the row cap the oldest buckets go missing, never the newest: the chart
      keeps its newest buckets, and each is drawn as it would be without the cap
      unless it lies at the instant of the oldest row left. */
  lemma CappedChart(cut: seq<Row<string>>, newest: seq<Row<string>>, width: int)
    requires newest != [] && Ordered(cut + newest)
    ensures
      var all, capped := Chart(cut + newest, width), Chart(newest, width);
      0 < |capped| <= |all| &&
      forall i :: 0 <= i < |capped| ==>
        var whole := all[|all| - |capped| + i];
        whole.time == capped[i].time &&
        (capped[i].time.at != Floor(newest[0].time.at, width) ==> whole == capped[i])
  {
    hide Floor, KeysOf, MembersOf, BucketOf;
    var a, b := Reverse(newest), Reverse(cut);
    assert Reverse(cut + newest) == a + b;
    KeysPrefix(a, b, width);
    KeysCover(a, width, 0);
    var keys, all, capped := KeysOf(a, width), Chart(cut + newest, width), Chart(newest, width);
    forall i | 0 <= i < |capped|
      ensures all[|all| - |capped| + i].time == capped[i].time
      ensures capped[i].time.at != Floor(newest[0].time.at, width) ==> all[|all| - |capped| + i] == capped[i]
    {
      var key := keys[|keys| - 1 - i];
      assert KeysOf(a + b, width)[|keys| - 1 - i] == key;
      BucketTime(key, MembersOf(a, width, key));
      BucketTime(key, MembersOf(a + b, width, key));
      if key.at != Floor(newest[0].time.at, width) {
        NotReached(cut, newest, width, key);
        MembersBefore(a, b, width, key);
      }
    }
  }

  lemma BucketTime(key: Time, rows: seq<Row<string>>)
    ensures BucketOf(key, rows).time == key
  {
  }

  /** The rows cut off lie at or before the oldest row left. */
  lemma NotReached(cut: seq<Row<string>>, newest: seq<Row<string>>, width: int, key: Time)
    requires newest != [] && Ordered(cut + newest) && key in KeysOf(Reverse(newest), width)
    requires key.at != Floor(newest[0].time.at, width)
    ensures forall i :: 0 <= i < |cut| ==> Truncate(Reverse(cut)[i].time, width).at != key.at
  {
    hide Floor, KeysOf;
    var m := KeyHasRow(Reverse(newest), width, key);
    var rows, j := cut + newest, |newest| - 1 - m;
    assert newest[0] == rows[|cut|] && newest[j] == rows[|cut| + j];
    FloorMonotone(newest[0].time.at, newest[j].time.at, width);
    forall i | 0 <= i < |cut|
      ensures Truncate(Reverse(cut)[i].time, width).at != key.at
    {
      assert Reverse(cut)[i] == rows[|cut| - 1 - i];
      FloorMonotone(rows[|cut| - 1 - i].time.at, newest[0].time.at, width);
    }
  }
}
