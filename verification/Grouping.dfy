/**
  Grouping time-ordered rows into buckets, in the three ways the repositories do
  it: a map with the order of first appearance, extending the last bucket, and a
  newest-first map read backwards.

  A Go time.Time is an instant and a location.  Map keys and == compare both,
  Equal compares the instant alone, so the location is part of the model.
 */
module Grouping {

  const MINUTE := 60_000_000_000

  /** The nanoseconds of an instant since Go's zero time, and a location. */
  datatype Time = Time(at: int, location: int)

  datatype Row<T> = Row(time: Time, data: T)

  /** One bucket: its time, and its rows in the order they were read. */
  datatype Group<T> = Group(time: Time, rows: seq<Row<T>>)

  /** The multiple of the width at or before an instant; unchanged for a width
      that is not positive. */
  function Floor(at: int, width: int): int {
    if width <= 0 then at else at / width * width
  }

  /** time.Truncate keeps the location. */
  function Truncate(t: Time, width: int): Time {
    Time(Floor(t.at, width), t.location)
  }

  lemma FloorMonotone(a: int, b: int, width: int)
    requires a <= b
    ensures Floor(a, width) <= Floor(b, width)
  {
    if 0 < width {
      var m, n := a / width, b / width;
      assert a == width * m + a % width && b == width * n + b % width;
      if n < m {
        MulMonotone(n + 1, m, width);
        assert false;
      }
      MulMonotone(m, n, width);
    }
  }

  /** The interval that begins at t, a multiple of the width, contains the instant;
      a width that is not positive leaves every instant an interval of its own. */
  ghost predicate Covers(t: int, width: int, at: int) {
    if 0 < width then t % width == 0 && t <= at < t + width else t == at
  }

  lemma FloorCovers(at: int, width: int, t: int)
    ensures Floor(at, width) == t <==> Covers(t, width, at)
  {
    if 0 < width {
      FloorDivides(at, width);
      if Covers(t, width, at) {
        FloorDivides(t, width);
        Quotient(at, width, t / width);
      }
    }
  }

  lemma FloorDivides(at: int, width: int)
    requires 0 < width
    ensures at / width * width <= at < at / width * width + width && at / width * width % width == 0
    ensures at % width == 0 ==> at == at / width * width
  {
    assert at == width * (at / width) + at % width;
    MultipleOf(at / width, width);
  }

  lemma Quotient(at: int, width: int, n: int)
    requires 0 < width && n * width <= at < n * width + width
    ensures at / width == n
  {
    var m := at / width;
    assert at == width * m + at % width;
    if n < m {
      MulMonotone(n + 1, m, width);
    } else if m < n {
      MulMonotone(m + 1, n, width);
    }
  }

  lemma MultipleOf(m: int, width: int)
    requires 0 < width
    ensures m * width % width == 0
  {
    var x := m * width;
    Quotient(x, width, m);
    assert x == width * (x / width) + x % width;
  }

  lemma MulMonotone(a: int, b: int, c: int)
    requires a <= b && 0 < c
    ensures a * c <= b * c
  {
  }

  ghost predicate Ordered<T>(rows: seq<Row<T>>) {
    forall i, j :: 0 <= i < j < |rows| ==> rows[i].time.at <= rows[j].time.at
  }

  // ----- a map, and the order in which its keys first appeared -----

  ghost function KeysOf<T>(rows: seq<Row<T>>, width: int): seq<Time> {
    if rows == [] then []
    else
      var keys, key := KeysOf(rows[..|rows| - 1], width), Truncate(rows[|rows| - 1].time, width);
      if key in keys then keys else keys + [key]
  }

  /** Every row's bucket is among the keys. */
  lemma {:induction false} KeysCover<T>(rows: seq<Row<T>>, width: int, i: nat)
    requires i < |rows|
    ensures Truncate(rows[i].time, width) in KeysOf(rows, width)
  {
    if i < |rows| - 1 {
      KeysCover(rows[..|rows| - 1], width, i);
    }
  }

  /** Every key is some row's bucket. */
  lemma {:induction false} KeyHasRow<T>(rows: seq<Row<T>>, width: int, key: Time) returns (i: nat)
    requires key in KeysOf(rows, width)
    ensures i < |rows| && Truncate(rows[i].time, width) == key
  {
    var shorter := rows[..|rows| - 1];
    if key in KeysOf(shorter, width) {
      i := KeyHasRow(shorter, width, key);
    } else {
      i := |rows| - 1;
    }
  }

  ghost function MembersOf<T>(rows: seq<Row<T>>, width: int, key: Time): seq<Row<T>> {
    if rows == [] then []
    else
      var last := rows[|rows| - 1];
      MembersOf(rows[..|rows| - 1], width, key) + if Truncate(last.time, width) == key then [last] else []
  }

  ghost function MapGroups<T>(rows: seq<Row<T>>, width: int): (g: seq<Group<T>>)
    ensures |g| == |KeysOf(rows, width)|
  {
    var keys := KeysOf(rows, width);
    seq(|keys|, i requires 0 <= i < |keys| => Group(keys[i], MembersOf(rows, width, keys[i])))
  }

  // ----- extending the last bucket -----

  ghost function LastGroups<T>(rows: seq<Row<T>>, width: int): seq<Group<T>> {
    if rows == [] then []
    else
      var groups, last := LastGroups(rows[..|rows| - 1], width), rows[|rows| - 1];
      Extend(groups, last, width)
  }

  ghost function Extend<T>(groups: seq<Group<T>>, r: Row<T>, width: int): seq<Group<T>> {
    var n := |groups| - 1;
    if n < 0 || groups[n].time.at != Truncate(r.time, width).at then groups + [Group(Truncate(r.time, width), [r])]
    else groups[n := groups[n].(rows := groups[n].rows + [r])]
  }

  /** The number of rows in all buckets together. */
  ghost function RowCount<T>(groups: seq<Group<T>>): nat {
    if groups == [] then 0 else RowCount(groups[..|groups| - 1]) + |groups[|groups| - 1].rows|
  }

  ghost predicate Rising<T>(groups: seq<Group<T>>) {
    forall i, j :: 0 <= i < j < |groups| ==> groups[i].time.at < groups[j].time.at
  }

  /** Extending the last bucket loses no row. */
  lemma {:induction false} LastGroupsConserve<T>(rows: seq<Row<T>>, width: int)
    ensures RowCount(LastGroups(rows, width)) == |rows|
  {
    hide Floor;
    if rows != [] {
      LastGroupsConserve(rows[..|rows| - 1], width);
      ExtendConserves(LastGroups(rows[..|rows| - 1], width), rows[|rows| - 1], width);
    }
  }

  /** On ordered rows the bucket times strictly rise, and end at the last row. */
  lemma {:induction false} LastGroupsRise<T>(rows: seq<Row<T>>, width: int)
    requires Ordered(rows)
    ensures Rising(LastGroups(rows, width))
    ensures rows != [] ==>
      var g := LastGroups(rows, width);
      g != [] && g[|g| - 1].time.at == Floor(rows[|rows| - 1].time.at, width)
  {
    hide Floor;
    if rows != [] {
      var shorter, last := rows[..|rows| - 1], rows[|rows| - 1];
      LastGroupsRise(shorter, width);
      if shorter != [] {
        assert shorter[|shorter| - 1].time.at <= last.time.at;
        FloorMonotone(shorter[|shorter| - 1].time.at, last.time.at, width);
      }
      ExtendRises(LastGroups(shorter, width), last, width);
    }
  }

  lemma ExtendRises<T>(groups: seq<Group<T>>, r: Row<T>, width: int)
    requires Rising(groups) && (groups != [] ==> groups[|groups| - 1].time.at <= Floor(r.time.at, width))
    ensures
      var g := Extend(groups, r, width);
      Rising(g) && g != [] && g[|g| - 1].time.at == Floor(r.time.at, width)
  {
  }

  lemma ExtendConserves<T>(groups: seq<Group<T>>, r: Row<T>, width: int)
    ensures RowCount(Extend(groups, r, width)) == RowCount(groups) + 1
  {
  }

  // ----- agreement -----

  /** Rows of one bucket share their location. */
  ghost predicate OneLocation<T>(rows: seq<Row<T>>, width: int) {
    forall i, j :: 0 <= i < j < |rows| && Truncate(rows[i].time, width).at == Truncate(rows[j].time, width).at ==>
      rows[i].time.location == rows[j].time.location
  }

  /** Rising keys: the next row's key is known exactly when it is the last one. */
  lemma KeyIsLast(keys: seq<Time>, key: Time)
    requires keys != [] && forall i, j :: 0 <= i < j < |keys| ==> keys[i].at < keys[j].at
    requires keys[|keys| - 1].at <= key.at
    requires keys[|keys| - 1].at == key.at ==> keys[|keys| - 1] == key
    ensures key in keys <==> keys[|keys| - 1].at == key.at
  {
  }

  lemma SameLocation<T>(rows: seq<Row<T>>, r: Row<T>, width: int, key: Time)
    requires OneLocation(rows + [r], width) && key in KeysOf(rows, width) && key.at == Floor(r.time.at, width)
    ensures key == Truncate(r.time, width)
  {
    hide Floor;
    var i := KeyHasRow(rows, width, key);
    var all := rows + [r];
    assert all[i] == rows[i] && all[|rows|] == r;
  }

  lemma {:induction false} MembersOfNew<T>(rows: seq<Row<T>>, width: int, key: Time)
    requires key !in KeysOf(rows, width)
    ensures MembersOf(rows, width, key) == []
  {
    if rows != [] {
      MembersOfNew(rows[..|rows| - 1], width, key);
    }
  }

  lemma MembersOfMore<T>(rows: seq<Row<T>>, r: Row<T>, width: int, key: Time)
    ensures MembersOf(rows + [r], width, key) ==
      if Truncate(r.time, width) == key then MembersOf(rows, width, key) + [r] else MembersOf(rows, width, key)
  {
  }

  lemma KeysOfMore<T>(rows: seq<Row<T>>, r: Row<T>, width: int)
    ensures KeysOf(rows + [r], width) ==
      if Truncate(r.time, width) in KeysOf(rows, width) then KeysOf(rows, width)
      else KeysOf(rows, width) + [Truncate(r.time, width)]
  {
  }

  /** What one step of a loop over the rows does to the keys and the members. */
  lemma NextRow<T>(rows: seq<Row<T>>, width: int, n: nat)
    requires n < |rows|
    ensures
      var key, keys := Truncate(rows[n].time, width), KeysOf(rows[..n], width);
      KeysOf(rows[..n + 1], width) == (if key in keys then keys else keys + [key]) &&
      (key !in keys ==> MembersOf(rows[..n], width, key) == []) &&
      MembersOf(rows[..n + 1], width, key) == MembersOf(rows[..n], width, key) + [rows[n]] &&
      forall k :: k != key ==> MembersOf(rows[..n + 1], width, k) == MembersOf(rows[..n], width, k)
  {
    hide Floor;
    assert rows[..n + 1] == rows[..n] + [rows[n]];
    KeysOfMore(rows[..n], rows[n], width);
    var key := Truncate(rows[n].time, width);
    MembersOfMore(rows[..n], rows[n], width, key);
    forall k | k != key
      ensures MembersOf(rows[..n + 1], width, k) == MembersOf(rows[..n], width, k)
    {
      MembersOfMore(rows[..n], rows[n], width, k);
    }
    if key !in KeysOf(rows[..n], width) {
      MembersOfNew(rows[..n], width, key);
    }
  }

  /** A loop has read n rows into a map of buckets, one for each key. */
  ghost predicate Tallied<T, B>(rows: seq<Row<T>>, n: nat, width: int, ordered: seq<Time>, buckets: map<Time, B>,
                                tally: (Time, seq<Row<T>>) -> B)
  {
    n <= |rows| && ordered == KeysOf(rows[..n], width) && (forall t :: t in buckets <==> t in ordered) &&
    forall t :: t in ordered ==> buckets[t] == tally(t, MembersOf(rows[..n], width, t))
  }

  lemma TalliedNext<T, B>(rows: seq<Row<T>>, n: nat, width: int, ordered: seq<Time>, buckets: map<Time, B>,
                          tally: (Time, seq<Row<T>>) -> B)
    requires n < |rows| && Tallied(rows, n, width, ordered, buckets, tally)
    ensures
      var key := Truncate(rows[n].time, width);
      var members := MembersOf(rows[..n], width, key);
      (key in buckets <==> key in ordered) &&
      (if key in ordered then buckets[key] == tally(key, members) else members == []) &&
      Tallied(rows, n + 1, width, if key in ordered then ordered else ordered + [key],
              buckets[key := tally(key, members + [rows[n]])], tally)
  {
    hide Floor, KeysOf, MembersOf;
    NextRow(rows, width, n);
  }

  lemma TalliedBegins<T, B>(rows: seq<Row<T>>, width: int, tally: (Time, seq<Row<T>>) -> B)
    ensures Tallied(rows, 0, width, [], map[], tally)
  {
  }

  lemma TalliedEnd<T, B>(rows: seq<Row<T>>, width: int, ordered: seq<Time>, buckets: map<Time, B>,
                         tally: (Time, seq<Row<T>>) -> B)
    requires Tallied(rows, |rows|, width, ordered, buckets, tally)
    ensures |ordered| == |MapGroups(rows, width)|
    ensures forall i :: 0 <= i < |ordered| ==>
      ordered[i] in buckets &&
      ordered[i] == MapGroups(rows, width)[i].time &&
      buckets[ordered[i]] == tally(ordered[i], MapGroups(rows, width)[i].rows)
  {
    assert rows[..|rows|] == rows;
  }

  /** One more row: the map's groups change as the last bucket is extended. */
  lemma MapGroupsExtend<T>(rows: seq<Row<T>>, r: Row<T>, width: int)
    requires Ordered(rows + [r]) && Ordered(rows) && OneLocation(rows + [r], width)
    requires MapGroups(rows, width) == LastGroups(rows, width)
    ensures MapGroups(rows + [r], width) == Extend(LastGroups(rows, width), r, width)
  {
    hide Floor, OneLocation, KeysOf, MembersOf, LastGroups, Ordered;
    var key, keys, groups := Truncate(r.time, width), KeysOf(rows, width), LastGroups(rows, width);
    KeysOfMore(rows, r, width);
    KeyIsKnown(rows, r, width);
    assert forall i :: 0 <= i < |keys| ==> groups[i] == Group(keys[i], MembersOf(rows, width, keys[i]));
    forall k
      ensures MembersOf(rows + [r], width, k) ==
        if key == k then MembersOf(rows, width, k) + [r] else MembersOf(rows, width, k)
    {
      MembersOfMore(rows, r, width, k);
    }
    if key !in keys {
      MembersOfNew(rows, width, key);
    }
    var mapped, extended := MapGroups(rows + [r], width), Extend(groups, r, width);
    assert |mapped| == |extended|;
    forall m | 0 <= m < |mapped|
      ensures mapped[m] == extended[m]
    {
    }
  }

  /** On ordered rows a bucket that is known is the last one. */
  lemma KeyIsKnown<T>(rows: seq<Row<T>>, r: Row<T>, width: int)
    requires Ordered(rows + [r]) && Ordered(rows) && OneLocation(rows + [r], width)
    requires MapGroups(rows, width) == LastGroups(rows, width)
    ensures
      var key, keys := Truncate(r.time, width), KeysOf(rows, width);
      var n := |keys| - 1;
      (key in keys <==> 0 <= n && keys[n].at == key.at) && (key in keys ==> keys[n] == key) &&
      forall i :: 0 <= i < n ==> keys[i] != keys[n]
  {
    hide Floor, OneLocation, KeysOf, MembersOf, LastGroups;
    var key, keys, groups := Truncate(r.time, width), KeysOf(rows, width), LastGroups(rows, width);
    LastGroupsRise(rows, width);
    assert forall i :: 0 <= i < |keys| ==> groups[i].time == keys[i];
    if rows != [] {
      var n := |keys| - 1;
      assert (rows + [r])[|rows| - 1].time.at <= (rows + [r])[|rows|].time.at;
      FloorMonotone(rows[|rows| - 1].time.at, r.time.at, width);
      if keys[n].at == key.at {
        SameLocation(rows, r, width, keys[n]);
      }
      KeyIsLast(keys, key);
    } else {
      NoKeys(rows, width);
    }
  }

  lemma NoKeys<T>(rows: seq<Row<T>>, width: int)
    requires rows == []
    ensures KeysOf(rows, width) == []
  {
  }

  lemma {:induction false} GroupingsAgree<T>(rows: seq<Row<T>>, width: int)
    requires Ordered(rows) && OneLocation(rows, width)
    ensures MapGroups(rows, width) == LastGroups(rows, width)
  {
    if rows != [] {
      var shorter, last := rows[..|rows| - 1], rows[|rows| - 1];
      assert shorter + [last] == rows;
      GroupingsAgree(shorter, width);
      MapGroupsExtend(shorter, last, width);
    }
  }

  /** Keys that differ in their instants, not only in their locations. */
  ghost predicate InstantsDiffer(keys: seq<Time>) {
    forall i, j :: 0 <= i < j < |keys| ==> keys[i].at != keys[j].at
  }

  lemma SameKey(keys: seq<Time>, a: Time, b: Time)
    requires InstantsDiffer(keys) && a in keys && b in keys && a.at == b.at
    ensures a == b
  {
    var i :| 0 <= i < |keys| && keys[i] == a;
    var j :| 0 <= j < |keys| && keys[j] == b;
  }

  lemma OneLocationFromKeys<T>(rows: seq<Row<T>>, width: int, keys: seq<Time>)
    requires InstantsDiffer(keys) && forall i :: 0 <= i < |rows| ==> Truncate(rows[i].time, width) in keys
    ensures OneLocation(rows, width)
  {
    hide Floor, InstantsDiffer;
    forall i, j | 0 <= i < j < |rows| && Truncate(rows[i].time, width).at == Truncate(rows[j].time, width).at
      ensures rows[i].time.location == rows[j].time.location
    {
      SameKey(keys, Truncate(rows[i].time, width), Truncate(rows[j].time, width));
    }
  }

  /** On time-ordered rows the two ways of grouping agree exactly when the rows of
      each bucket share their location: two rows of one instant read with
      different locations get two buckets in the map and one without it. */
  lemma GroupingsAgreeIff<T>(rows: seq<Row<T>>, width: int)
    requires Ordered(rows)
    ensures MapGroups(rows, width) == LastGroups(rows, width) <==> OneLocation(rows, width)
  {
    hide Floor, KeysOf, MembersOf, LastGroups, OneLocation, Ordered;
    if OneLocation(rows, width) {
      GroupingsAgree(rows, width);
    }
    if MapGroups(rows, width) == LastGroups(rows, width) {
      LastGroupsRise(rows, width);
      var keys := KeysOf(rows, width);
      assert forall i :: 0 <= i < |keys| ==> MapGroups(rows, width)[i].time == keys[i];
      forall i | 0 <= i < |rows|
        ensures Truncate(rows[i].time, width) in keys
      {
        KeysCover(rows, width, i);
      }
      OneLocationFromKeys(rows, width, keys);
    }
  }

  /** Two rows of one instant read with two locations: the map makes two buckets
      of them, extending the last one a single bucket. */
  lemma LocationsSplitABucket<T>(data: T)
    ensures
      var a, b := Row(Time(0, 1), data), Row(Time(0, 2), data);
      Ordered([a, b]) && MapGroups([a, b], MINUTE) == [Group(a.time, [a]), Group(b.time, [b])] &&
      LastGroups([a, b], MINUTE) == [Group(a.time, [a, b])]
  {
    hide KeysOf, MembersOf, LastGroups;
    var a, b := Row(Time(0, 1), data), Row(Time(0, 2), data);
    assert [a, b][..1] == [a] && [a][..0] == [] && [a] + [b] == [a, b];
    assert Truncate(a.time, MINUTE) == a.time && Truncate(b.time, MINUTE) == b.time;
    OneRowGroups(a);
    KeysOfMore([a], b, MINUTE);
    MembersOfMore([a], b, MINUTE, a.time);
    MembersOfMore([a], b, MINUTE, b.time);
    MembersOfNew([a], MINUTE, b.time);
    assert KeysOf([a, b], MINUTE) == [a.time, b.time];
    var groups := MapGroups([a, b], MINUTE);
    assert groups[0] == Group(a.time, [a]) && groups[1] == Group(b.time, [b]);
    JoinedGroup(a, b);
  }

  lemma JoinedGroup<T>(a: Row<T>, b: Row<T>)
    requires Truncate(a.time, MINUTE) == a.time && Floor(b.time.at, MINUTE) == a.time.at
    ensures LastGroups([a, b], MINUTE) == [Group(a.time, [a, b])]
  {
    assert [a, b][..1] == [a] && [a][..0] == [];
    assert LastGroups([a], MINUTE) == [Group(a.time, [a])];
    assert [a] + [b] == [a, b];
  }

  lemma OneRowGroups<T>(a: Row<T>)
    requires Truncate(a.time, MINUTE) == a.time
    ensures KeysOf([a], MINUTE) == [a.time] && MembersOf([a], MINUTE, a.time) == [a]
  {
    assert [a][..0] == [];
  }

  // ----- conservation in the map, on rows in any order -----

  lemma {:induction false} KeysDistinct<T>(rows: seq<Row<T>>, width: int)
    ensures forall i, j :: 0 <= i < j < |KeysOf(rows, width)| ==> KeysOf(rows, width)[i] != KeysOf(rows, width)[j]
  {
    if rows != [] {
      KeysDistinct(rows[..|rows| - 1], width);
    }
  }

  lemma {:induction false} RowCountUpdate<T>(groups: seq<Group<T>>, m: nat, g: Group<T>)
    requires m < |groups|
    ensures RowCount(groups[m := g]) == RowCount(groups) - |groups[m].rows| + |g.rows|
  {
    var n := |groups| - 1;
    if m < n {
      RowCountUpdate(groups[..n], m, g);
      assert groups[m := g][..n] == groups[..n][m := g];
    } else {
      assert groups[m := g][..n] == groups[..n];
    }
  }

  /** One more row changes exactly one bucket of the map, by one. */
  lemma MapGroupsOneMore<T>(rows: seq<Row<T>>, r: Row<T>, width: int)
    ensures
      var groups, all, key := MapGroups(rows, width), MapGroups(rows + [r], width), Truncate(r.time, width);
      all == groups + [Group(key, [r])] ||
      exists m :: 0 <= m < |groups| && all == groups[m := Group(groups[m].time, groups[m].rows + [r])]
  {
    hide Floor, KeysOf, MembersOf;
    var key, keys := Truncate(r.time, width), KeysOf(rows, width);
    var groups, all := MapGroups(rows, width), MapGroups(rows + [r], width);
    KeysOfMore(rows, r, width);
    KeysDistinct(rows, width);
    forall k
      ensures MembersOf(rows + [r], width, k) ==
        if key == k then MembersOf(rows, width, k) + [r] else MembersOf(rows, width, k)
    {
      MembersOfMore(rows, r, width, k);
    }
    if key !in keys {
      MembersOfNew(rows, width, key);
      var more := groups + [Group(key, [r])];
      assert |all| == |more|;
      forall i | 0 <= i < |all|
        ensures all[i] == more[i]
      {
        if i < |keys| {
          assert more[i] == Group(keys[i], MembersOf(rows, width, keys[i]));
        }
      }
    } else {
      var m :| 0 <= m < |keys| && keys[m] == key;
      assert all == groups[m := Group(groups[m].time, groups[m].rows + [r])];
    }
  }

  /** The buckets of the map hold every row exactly once, whatever the order and
      the locations of the rows. */
  lemma {:induction false} MapGroupsConserve<T>(rows: seq<Row<T>>, width: int)
    ensures RowCount(MapGroups(rows, width)) == |rows|
  {
    if rows != [] {
      var shorter, last := rows[..|rows| - 1], rows[|rows| - 1];
      var groups, all := MapGroups(shorter, width), MapGroups(rows, width);
      MapGroupsConserve(shorter, width);
      assert shorter + [last] == rows;
      MapGroupsOneMore(shorter, last, width);
      if all == groups + [Group(Truncate(last.time, width), [last])] {
        assert all[..|all| - 1] == groups;
      } else {
        var m :| 0 <= m < |groups| && all == groups[m := Group(groups[m].time, groups[m].rows + [last])];
        RowCountUpdate(groups, m, all[m]);
      }
    }
  }

  // ----- what a bucket holds -----

  /** The rows of one interval read with one location, in order. */
  ghost function RowsAt<T>(rows: seq<Row<T>>, width: int, t: Time): seq<Row<T>> {
    if rows == [] then []
    else
      var last := rows[|rows| - 1];
      RowsAt(rows[..|rows| - 1], width, t) +
        if Covers(t.at, width, last.time.at) && last.time.location == t.location then [last] else []
  }

  /** The rows of one interval, whatever their location. */
  ghost function RowsIn<T>(rows: seq<Row<T>>, width: int, t: int): seq<Row<T>> {
    if rows == [] then []
    else
      var last := rows[|rows| - 1];
      RowsIn(rows[..|rows| - 1], width, t) + if Covers(t, width, last.time.at) then [last] else []
  }

  /** One bucket for each interval and location that has a row, holding its rows. */
  ghost predicate EachPlace<T>(rows: seq<Row<T>>, width: int, groups: seq<Group<T>>) {
    && (forall k :: 0 <= k < |groups| ==> groups[k].rows != [] && groups[k].rows == RowsAt(rows, width, groups[k].time))
    && (forall j, k :: 0 <= j < k < |groups| ==> groups[j].time != groups[k].time)
    && forall i :: 0 <= i < |rows| ==> HasPlace(rows[i], width, groups)
  }

  ghost predicate HasPlace<T>(r: Row<T>, width: int, groups: seq<Group<T>>) {
    exists k :: 0 <= k < |groups| && Covers(groups[k].time.at, width, r.time.at) &&
      groups[k].time.location == r.time.location
  }

  /** One bucket for each interval that has a row, holding its rows, in the order
      of time. */
  ghost predicate EachInterval<T>(rows: seq<Row<T>>, width: int, groups: seq<Group<T>>) {
    && (forall k :: 0 <= k < |groups| ==>
          groups[k].rows != [] && groups[k].rows == RowsIn(rows, width, groups[k].time.at))
    && Rising(groups)
    && forall i :: 0 <= i < |rows| ==> HasInterval(rows[i], width, groups)
  }

  ghost predicate HasInterval<T>(r: Row<T>, width: int, groups: seq<Group<T>>) {
    exists k :: 0 <= k < |groups| && Covers(groups[k].time.at, width, r.time.at)
  }

  lemma {:induction false} MembersAreRowsAt<T>(rows: seq<Row<T>>, width: int, key: Time)
    ensures MembersOf(rows, width, key) == RowsAt(rows, width, key)
  {
    hide Floor, Covers;
    if rows != [] {
      MembersAreRowsAt(rows[..|rows| - 1], width, key);
      FloorCovers(rows[|rows| - 1].time.at, width, key.at);
    }
  }

  lemma {:induction false} KeysHaveMembers<T>(rows: seq<Row<T>>, width: int, key: Time)
    requires key in KeysOf(rows, width)
    ensures MembersOf(rows, width, key) != []
  {
    hide Truncate;
    if key in KeysOf(rows[..|rows| - 1], width) {
      KeysHaveMembers(rows[..|rows| - 1], width, key);
    }
  }

  /** The map of buckets separates the intervals and locations, and nothing else. */
  lemma MapGroupsMean<T>(rows: seq<Row<T>>, width: int)
    ensures EachPlace(rows, width, MapGroups(rows, width))
  {
    hide KeysOf, MembersOf, RowsAt, HasPlace;
    var keys, groups := KeysOf(rows, width), MapGroups(rows, width);
    assert forall k :: 0 <= k < |keys| ==> groups[k] == Group(keys[k], MembersOf(rows, width, keys[k]));
    KeysDistinct(rows, width);
    forall k | 0 <= k < |groups|
      ensures groups[k].rows != [] && groups[k].rows == RowsAt(rows, width, groups[k].time)
    {
      KeysHaveMembers(rows, width, keys[k]);
      MembersAreRowsAt(rows, width, keys[k]);
    }
    forall i | 0 <= i < |rows|
      ensures HasPlace(rows[i], width, groups)
    {
      KeysCover(rows, width, i);
      KeyIsPlace(rows[i], width, keys, groups);
    }
  }

  lemma KeyIsPlace<T>(r: Row<T>, width: int, keys: seq<Time>, groups: seq<Group<T>>)
    requires |keys| == |groups| && forall k :: 0 <= k < |keys| ==> groups[k].time == keys[k]
    requires Truncate(r.time, width) in keys
    ensures HasPlace(r, width, groups)
  {
    hide Floor, Covers;
    var k :| 0 <= k < |keys| && keys[k] == Truncate(r.time, width);
    FloorCovers(r.time.at, width, keys[k].at);
    assert groups[k].time == keys[k];
  }

  lemma {:induction false} NoRowsIn<T>(rows: seq<Row<T>>, width: int, t: int)
    requires forall i :: 0 <= i < |rows| ==> !Covers(t, width, rows[i].time.at)
    ensures RowsIn(rows, width, t) == []
  {
    if rows != [] {
      NoRowsIn(rows[..|rows| - 1], width, t);
    }
  }

  /** On ordered rows, extending the last bucket separates the intervals. */
  lemma {:induction false} LastGroupsMean<T>(rows: seq<Row<T>>, width: int)
    requires Ordered(rows)
    ensures EachInterval(rows, width, LastGroups(rows, width))
  {
    hide EachInterval, Extend, Floor, Covers, Rising;
    if rows == [] {
      NoIntervals(rows, width);
    } else {
      var shorter, last := rows[..|rows| - 1], rows[|rows| - 1];
      LastGroupsMean(shorter, width);
      LastGroupsRise(shorter, width);
      LastGroupsRise(rows, width);
      BehindThem(shorter, last, width);
      assert shorter + [last] == rows;
      ExtendMeans(shorter, last, width, LastGroups(shorter, width));
    }
  }

  lemma NoIntervals<T>(rows: seq<Row<T>>, width: int)
    requires rows == []
    ensures EachInterval(rows, width, [])
  {
  }

  /** No earlier row lies in the interval of a later one behind the last bucket. */
  lemma BehindThem<T>(rows: seq<Row<T>>, r: Row<T>, width: int)
    requires Ordered(rows + [r]) && Ordered(rows)
    ensures
      var t, groups := Floor(r.time.at, width), LastGroups(rows, width);
      (groups == [] <==> rows == []) &&
      (rows != [] && groups[|groups| - 1].time.at != t ==>
        forall i :: 0 <= i < |rows| ==> !Covers(t, width, rows[i].time.at))
  {
    hide Floor, Covers, Rising;
    LastGroupsRise(rows, width);
    var t, all := Floor(r.time.at, width), rows + [r];
    if rows != [] {
      var end := rows[|rows| - 1].time.at;
      assert all[|rows| - 1] == rows[|rows| - 1] && all[|rows|] == r;
      FloorMonotone(end, r.time.at, width);
      forall i | 0 <= i < |rows| && Floor(end, width) != t
        ensures !Covers(t, width, rows[i].time.at)
      {
        FloorMonotone(rows[i].time.at, end, width);
        FloorCovers(rows[i].time.at, width, t);
      }
    }
  }

  lemma RowsInMore<T>(rows: seq<Row<T>>, r: Row<T>, width: int, t: int)
    ensures RowsIn(rows + [r], width, t) ==
      if Floor(r.time.at, width) == t then RowsIn(rows, width, t) + [r] else RowsIn(rows, width, t)
  {
    hide Floor, Covers;
    FloorCovers(r.time.at, width, t);
    assert (rows + [r])[..|rows|] == rows;
  }

  lemma ExtendMeans<T>(rows: seq<Row<T>>, r: Row<T>, width: int, groups: seq<Group<T>>)
    requires EachInterval(rows, width, groups) && Rising(Extend(groups, r, width))
    requires groups == [] <==> rows == []
    requires groups != [] && groups[|groups| - 1].time.at != Floor(r.time.at, width) ==>
      forall i :: 0 <= i < |rows| ==> !Covers(Floor(r.time.at, width), width, rows[i].time.at)
    ensures EachInterval(rows + [r], width, Extend(groups, r, width))
  {
    hide Floor, Covers, RowsIn;
    var t, n, more := Floor(r.time.at, width), |groups| - 1, Extend(groups, r, width);
    FloorCovers(r.time.at, width, t);
    if n < 0 || groups[n].time.at != t {
      NoRowsIn(rows, width, t);
      assert more == groups + [Group(Truncate(r.time, width), [r])];
    }
    forall k | 0 <= k < |more|
      ensures more[k].rows != [] && more[k].rows == RowsIn(rows + [r], width, more[k].time.at)
    {
      RowsInMore(rows, r, width, more[k].time.at);
      assert [] + [r] == [r];
      assert k < |more| - 1 ==> more[k].time.at < more[|more| - 1].time.at;
    }
    forall i | 0 <= i < |rows| + 1
      ensures HasInterval((rows + [r])[i], width, more)
    {
      if i < |rows| {
        assert HasInterval(rows[i], width, groups);
        var k :| 0 <= k < |groups| && Covers(groups[k].time.at, width, rows[i].time.at);
        assert more[k].time == groups[k].time;
      } else {
        assert more[|more| - 1].time.at == t;
      }
    }
  }

  // ----- newest first, then reversed -----

  function Reverse<T>(s: seq<T>): (r: seq<T>)
    ensures |r| == |s| && forall i :: 0 <= i < |s| ==> r[i] == s[|s| - 1 - i]
  {
    seq(|s|, i requires 0 <= i < |s| => s[|s| - 1 - i])
  }

  lemma {:induction false} MembersOfConcat<T>(a: seq<Row<T>>, b: seq<Row<T>>, width: int, key: Time)
    ensures MembersOf(a + b, width, key) == MembersOf(a, width, key) + MembersOf(b, width, key)
  {
    if b == [] {
      assert a + b == a;
    } else {
      assert a + b == a + b[..|b| - 1] + [b[|b| - 1]];
      MembersOfConcat(a, b[..|b| - 1], width, key);
      MembersOfMore(a + b[..|b| - 1], b[|b| - 1], width, key);
      MembersOfMore(b[..|b| - 1], b[|b| - 1], width, key);
      assert b == b[..|b| - 1] + [b[|b| - 1]];
    }
  }

  lemma {:induction false} MembersOfReverse<T>(rows: seq<Row<T>>, width: int, key: Time)
    ensures MembersOf(Reverse(rows), width, key) == Reverse(MembersOf(rows, width, key))
  {
    hide Truncate, MembersOf;
    if rows == [] {
      MembersOfNone(width, key, rows);
    } else {
      var shorter, last := rows[..|rows| - 1], rows[|rows| - 1];
      assert Reverse(rows) == [last] + Reverse(shorter) && shorter + [last] == rows;
      MembersOfConcat([last], Reverse(shorter), width, key);
      MembersOfReverse(shorter, width, key);
      MembersOfNone<T>(width, key, []);
      MembersOfMore([], last, width, key);
      MembersOfMore(shorter, last, width, key);
      assert [] + [last] == [last];
    }
  }

  lemma MembersOfNone<T>(width: int, key: Time, rows: seq<Row<T>>)
    requires rows == []
    ensures MembersOf(rows, width, key) == []
  {
  }

  ghost predicate Falling(keys: seq<Time>) {
    forall i, j :: 0 <= i < j < |keys| ==> keys[j].at < keys[i].at
  }

  /** Falling keys: the next row's key is known exactly when it is the last one. */
  lemma KeyIsLastFalling(keys: seq<Time>, key: Time)
    requires keys != [] && Falling(keys) && key.at <= keys[|keys| - 1].at
    requires keys[|keys| - 1].at == key.at ==> keys[|keys| - 1] == key
    ensures key in keys <==> keys[|keys| - 1] == key
  {
  }

  /** Read newest first, the keys appear in falling order. */
  lemma {:induction false} KeysFall<T>(rows: seq<Row<T>>, width: int)
    requires forall i, j :: 0 <= i < j < |rows| ==> rows[j].time.at <= rows[i].time.at
    requires OneLocation(rows, width)
    ensures Falling(KeysOf(rows, width))
    ensures rows != [] ==>
      var keys := KeysOf(rows, width);
      keys != [] && keys[|keys| - 1] == Truncate(rows[|rows| - 1].time, width)
  {
    hide Floor;
    if rows != [] {
      var shorter, last := rows[..|rows| - 1], rows[|rows| - 1];
      KeysFall(shorter, width);
      if shorter != [] {
        var keys, key := KeysOf(shorter, width), Truncate(last.time, width);
        var n := |keys| - 1;
        FloorMonotone(last.time.at, rows[|rows| - 2].time.at, width);
        KeyIsLastFalling(keys, key);
      }
    }
  }

  /** Two falling lists of the same times are the same list. */
  lemma {:induction false} FallingUnique(a: seq<Time>, b: seq<Time>)
    requires Falling(a) && Falling(b) && forall k :: k in a <==> k in b
    ensures a == b
  {
    hide Falling;
    assert a == [] || a[0] in a;
    assert b == [] || b[0] in b;
    if a != [] {
      SameFirst(a, b);
      FallingTail(a);
      FallingTail(b);
      FallingUnique(a[1..], b[1..]);
      assert a == [a[0]] + a[1..] && b == [b[0]] + b[1..];
    }
  }

  lemma SameFirst(a: seq<Time>, b: seq<Time>)
    requires Falling(a) && Falling(b) && a != [] && b != [] && a[0] in b && b[0] in a
    ensures a[0] == b[0]
  {
    var m :| 0 <= m < |b| && b[m] == a[0];
    var n :| 0 <= n < |a| && a[n] == b[0];
  }

  lemma FallingTail(a: seq<Time>)
    requires Falling(a) && a != []
    ensures Falling(a[1..]) && forall k :: k in a[1..] <==> k in a && k != a[0]
  {
    assert forall i :: 0 < i < |a| ==> a[1..][i - 1] == a[i];
  }

  /** Reading the rows newest first, grouping them in a map and reversing the
      buckets gives the buckets of the rows read oldest first; only within a
      bucket are the rows the other way round. */
  lemma NewestFirstAgrees<T>(rows: seq<Row<T>>, width: int)
    requires Ordered(rows) && OneLocation(rows, width)
    ensures
      var newest, oldest := Reverse(MapGroups(Reverse(rows), width)), MapGroups(rows, width);
      |newest| == |oldest| &&
      forall i :: 0 <= i < |oldest| ==> newest[i] == Group(oldest[i].time, Reverse(oldest[i].rows))
  {
    hide Floor, KeysOf, MembersOf, OneLocation, Ordered, Reverse;
    var keys := KeysOf(rows, width);
    KeysReversed(rows, width);
    var newest := MapGroups(Reverse(rows), width);
    forall i | 0 <= i < |keys|
      ensures Reverse(newest)[i] == Group(keys[i], Reverse(MembersOf(rows, width, keys[i])))
    {
      MembersOfReverse(rows, width, keys[i]);
      assert newest[|keys| - 1 - i] == Group(keys[i], MembersOf(Reverse(rows), width, keys[i]));
    }
  }

  /** The same, with the extend-last grouping for the rows read oldest first: the
      two agree exactly when the rows of each bucket share their location. */
  lemma NewestFirstAgreesIff<T>(rows: seq<Row<T>>, width: int)
    requires Ordered(rows)
    ensures Turned(Reverse(MapGroups(Reverse(rows), width)), LastGroups(rows, width)) <==> OneLocation(rows, width)
  {
    hide Floor, KeysOf, MembersOf, OneLocation, Ordered, Reverse, LastGroups, MapGroups;
    if OneLocation(rows, width) {
      GroupingsAgree(rows, width);
      NewestFirstAgrees(rows, width);
    }
    if Turned(Reverse(MapGroups(Reverse(rows), width)), LastGroups(rows, width)) {
      LastGroupsRise(rows, width);
      RisingFromNewest(rows, width);
    }
  }

  /** The same buckets, with their rows the other way round. */
  ghost predicate Turned<T>(newest: seq<Group<T>>, oldest: seq<Group<T>>) {
    |newest| == |oldest| &&
    forall i :: 0 <= i < |oldest| ==> newest[i] == Group(oldest[i].time, Reverse(oldest[i].rows))
  }

  /** Buckets whose times strictly rise cannot share an instant. */
  lemma RisingFromNewest<T>(rows: seq<Row<T>>, width: int)
    requires Rising(Reverse(MapGroups(Reverse(rows), width)))
    ensures OneLocation(rows, width)
  {
    hide Floor, KeysOf, MembersOf;
    var keys, groups := KeysOf(Reverse(rows), width), Reverse(MapGroups(Reverse(rows), width));
    assert forall m :: 0 <= m < |keys| ==> groups[|keys| - 1 - m].time == keys[m];
    forall i | 0 <= i < |rows|
      ensures Truncate(rows[i].time, width) in keys
    {
      KeysCover(Reverse(rows), width, |rows| - 1 - i);
    }
    OneLocationFromKeys(rows, width, keys);
  }

  lemma KeysReversed<T>(rows: seq<Row<T>>, width: int)
    requires Ordered(rows) && OneLocation(rows, width)
    ensures KeysOf(Reverse(rows), width) == Reverse(KeysOf(rows, width))
  {
    hide Floor, KeysOf, MembersOf, LastGroups;
    var keys := KeysOf(rows, width);
    GroupingsAgree(rows, width);
    LastGroupsRise(rows, width);
    assert forall i :: 0 <= i < |keys| ==> MapGroups(rows, width)[i].time == keys[i];
    SameKeys(rows, width);
    KeysFall(Reverse(rows), width);
    FallingUnique(KeysOf(Reverse(rows), width), Reverse(keys));
  }

  lemma SameKeys<T>(rows: seq<Row<T>>, width: int)
    ensures forall k :: k in KeysOf(Reverse(rows), width) <==> k in Reverse(KeysOf(rows, width))
  {
    hide Floor, KeysOf;
    var keys := KeysOf(rows, width);
    assert forall k :: k in Reverse(keys) <==> k in keys by {
      assert forall i :: 0 <= i < |keys| ==> keys[i] == Reverse(keys)[|keys| - 1 - i];
    }
    forall k
      ensures k in KeysOf(Reverse(rows), width) <==> k in keys
    {
      if k in KeysOf(Reverse(rows), width) {
        var i := KeyHasRow(Reverse(rows), width, k);
        KeysCover(rows, width, |rows| - 1 - i);
      }
      if k in keys {
        var i := KeyHasRow(rows, width, k);
        KeysCover(Reverse(rows), width, |rows| - 1 - i);
      }
    }
  }

  // ----- a map of fewer rows -----

  /** More rows behind the others only append keys. */
  lemma {:induction false} KeysPrefix<T>(a: seq<Row<T>>, b: seq<Row<T>>, width: int)
    ensures KeysOf(a, width) <= KeysOf(a + b, width)
  {
    hide Floor;
    if b == [] {
      assert a + b == a;
    } else {
      var shorter := b[..|b| - 1];
      assert a + b == a + shorter + [b[|b| - 1]];
      KeysPrefix(a, shorter, width);
      KeysOfMore(a + shorter, b[|b| - 1], width);
    }
  }

  /** And they change no bucket of an instant they do not reach. */
  lemma MembersBefore<T>(a: seq<Row<T>>, b: seq<Row<T>>, width: int, key: Time)
    requires forall i :: 0 <= i < |b| ==> Truncate(b[i].time, width).at != key.at
    ensures MembersOf(a + b, width, key) == MembersOf(a, width, key)
  {
    hide Floor, KeysOf, MembersOf;
    MembersOfConcat(a, b, width, key);
    if key in KeysOf(b, width) {
      var i := KeyHasRow(b, width, key);
      assert false;
    }
    MembersOfNew(b, width, key);
  }
}
