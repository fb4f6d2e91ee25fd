/**
  Recovering one histogram from its stored points: points are accumulated per
  attribute series, a cumulative series contributes its last point minus its
  first, and series of one bounds layout are added up.
 */
module Histograms {
  import opened Options
  import opened Quantiles
  import opened Sorting

  // ----- vectors of bucket counts -----

  function Zeros(n: nat): seq<nat> {
    seq(n, i => 0)
  }

  function Plus(a: seq<nat>, b: seq<nat>): (c: seq<nat>)
    requires |a| == |b|
    ensures |c| == |a| && forall i :: 0 <= i < |a| ==> c[i] == a[i] + b[i]
  {
    seq(|a|, i requires 0 <= i < |a| => a[i] + b[i])
  }

  predicate AtMost(a: seq<nat>, b: seq<nat>) {
    |a| == |b| && forall i :: 0 <= i < |a| ==> a[i] <= b[i]
  }

  function Total(a: seq<nat>): nat {
    Sum(a, |a|)
  }

  lemma {:induction false} SumPlus(a: seq<nat>, b: seq<nat>, k: nat)
    requires |a| == |b| && k <= |a|
    ensures Sum(Plus(a, b), k) == Sum(a, k) + Sum(b, k)
  {
    if k != 0 {
      SumPlus(a, b, k - 1);
    }
  }

  // ----- cumulative series -----

  /** What a cumulative series contributes to the window, between its first and
      its last point. */
  function Delta(first: seq<nat>, last: seq<nat>): seq<nat> {
    if AtMost(first, last) then seq(|last|, i requires 0 <= i < |last| => last[i] - first[i])
    else last
  }

  /** nil stands for a point that was never seen. */
  method CumulativeDelta(first: Option<seq<nat>>, last: Option<seq<nat>>) returns (out: Option<seq<nat>>)
    ensures last.None? ==> out.None?
    ensures last.Some? ==> out == Some(if first.None? then last.value else Delta(first.value, last.value))
  {
    if last.None? {
      return None;
    }
    if first.None? || |first.value| != |last.value| {
      return last;
    }
    var f, l := first.value, last.value;
    for i := 0 to |l|
      invariant forall j :: 0 <= j < i ==> f[j] <= l[j]
    {
      if l[i] < f[i] {
        return last;
      }
    }
    var d: seq<nat> := [];
    for i := 0 to |l|
      invariant |d| == i && forall j :: 0 <= j < i ==> d[j] == l[j] - f[j]
    {
      d := d + [l[i] - f[i]];
    }
    assert d == Delta(f, l);
    return Some(d);
  }

  /** One export of a cumulative exporter: what it observed since the last export,
      and whether it restarted from zero in between. */
  datatype Export = Export(reset: bool, observed: seq<nat>)

  ghost predicate AllWide(exports: seq<Export>, n: nat) {
    forall e :: e in exports ==> |e.observed| == n
  }

  /** The cumulative point after some exports. */
  ghost function Point(first: seq<nat>, exports: seq<Export>): (p: seq<nat>)
    requires AllWide(exports, |first|)
    ensures |p| == |first|
  {
    if exports == [] then first
    else
      var n := |exports| - 1;
      if exports[n].reset then exports[n].observed else Plus(Point(first, exports[..n]), exports[n].observed)
  }

  /** What a delta exporter would have sent for the same exports, added up. */
  ghost function Observed(exports: seq<Export>, width: nat): (v: seq<nat>)
    requires AllWide(exports, width)
    ensures |v| == width
  {
    if exports == [] then Zeros(width)
    else Plus(Observed(exports[..|exports| - 1], width), exports[|exports| - 1].observed)
  }

  /** What was observed up to the last restart, and so is not in the last point. */
  ghost function Lost(exports: seq<Export>, width: nat): (v: seq<nat>)
    requires AllWide(exports, width)
    ensures |v| == width
  {
    if exports == [] then Zeros(width)
    else
      var n := |exports| - 1;
      if exports[n].reset then Observed(exports[..n], width) else Lost(exports[..n], width)
  }

  ghost predicate Resets(exports: seq<Export>) {
    exports != [] && (exports[|exports| - 1].reset || Resets(exports[..|exports| - 1]))
  }

  /** The last point, the restarts and the observations account for each other, in
      every bucket. */
  lemma {:induction false} PointMeans(first: seq<nat>, exports: seq<Export>, i: nat)
    requires AllWide(exports, |first|) && i < |first|
    ensures !Resets(exports) ==> Point(first, exports)[i] == first[i] + Observed(exports, |first|)[i]
    ensures Resets(exports) ==> Point(first, exports)[i] + Lost(exports, |first|)[i] == Observed(exports, |first|)[i]
  {
    if exports != [] {
      PointMeans(first, exports[..|exports| - 1], i);
    }
  }

  /** Temporality.  A cumulative series never contributes more than was observed
      after its first point, and exactly that when the exporter did not restart.
      After a restart it is still exact only if nothing was observed before the
      last restart, and the first point does not hide it. */
  lemma DeltaOfExports(first: seq<nat>, exports: seq<Export>)
    requires AllWide(exports, |first|)
    ensures
      var n, last := |first|, Point(first, exports);
      && AtMost(Delta(first, last), Observed(exports, n))
      && (Delta(first, last) == Observed(exports, n) <==>
            !Resets(exports) || (Lost(exports, n) == Zeros(n) && (AtMost(first, last) ==> first == Zeros(n))))
  {
    hide Point, Observed, Lost, Resets;
    var n := |first|;
    forall i | 0 <= i < n
      ensures !Resets(exports) ==> Point(first, exports)[i] == first[i] + Observed(exports, n)[i]
      ensures Resets(exports) ==> Point(first, exports)[i] + Lost(exports, n)[i] == Observed(exports, n)[i]
    {
      PointMeans(first, exports, i);
    }
    if Resets(exports) {
      DeltaAfterReset(first, Point(first, exports), Lost(exports, n), Observed(exports, n));
    } else {
      assert Delta(first, Point(first, exports)) == Observed(exports, n);
    }
  }

  /** Five were observed before the restart and seven after it, but the last
      snapshot shows a difference of seven and no bucket that went backwards. */
  lemma HiddenResetUndercounts()
    ensures
      var exports := [Export(false, [5]), Export(true, [7])];
      && Resets(exports) && Point([0], exports) == [7] && Delta([0], [7]) == [7]
      && Observed(exports, 1) == [12] && Lost(exports, 1) == [5]
  {
    var exports := [Export(false, [5]), Export(true, [7])];
    assert exports[..1] == [Export(false, [5])] && exports[..1][..0] == [];
    assert Plus(Zeros(1), [5]) == [5] && Plus([5], [7]) == [12] && Plus([0], [5]) == [5];
  }

  lemma DeltaAfterReset(first: seq<nat>, last: seq<nat>, lost: seq<nat>, observed: seq<nat>)
    requires |first| == |last| == |lost| == |observed|
    requires forall i :: 0 <= i < |first| ==> last[i] + lost[i] == observed[i]
    ensures AtMost(Delta(first, last), observed)
    ensures Delta(first, last) == observed <==> lost == Zeros(|first|) && (AtMost(first, last) ==>
      first == Zeros(|first|))
  {
  }

  // ----- accumulating the points -----

  /** What tells the series of a layout apart; a cumulative one also by the start
      of its epoch, so that a restart the exporter reports begins a new series. */
  datatype SeriesKey = SeriesKey(attributes: string, streamKey: string, start: Option<nat>)

  datatype Row = Row(
    unit: string, attributes: string, streamKey: string, layout: string, counts: Option<seq<nat>>,
    temporality: int, start: nat, exemplars: seq<Exemplar>)

  datatype Exemplar = Exemplar(traceId: string, value: real)

  /** Temporality 2 is cumulative; delta and unspecified points are summed. */
  const CUMULATIVE: int := 2
  const MAX_POINTS: nat := 50000

  function KeyOf(r: Row): SeriesKey {
    SeriesKey(r.attributes, r.streamKey, if r.temporality == CUMULATIVE then Some(r.start) else None)
  }

  /** A row whose bounds and counts decode and fit each other. */
  predicate Accepted(r: Row, bounds: string -> Option<seq<real>>) {
    bounds(r.layout).Some? && r.counts.Some? && |r.counts.value| == |bounds(r.layout).value| + 1
  }

  function Width(bounds: string -> Option<seq<real>>, layout: string): nat {
    if bounds(layout).Some? then |bounds(layout).value| + 1 else 0
  }

  datatype Accumulator = Accumulator(first: Option<seq<nat>>, last: Option<seq<nat>>, delta: seq<nat>, isDelta: bool)

  type Series = map<SeriesKey, Accumulator>
  type Layouts = map<string, Series>

  /** The accepted points of one series of one layout, in order. */
  ghost function PointsOf(rows: seq<Row>, bounds: string -> Option<seq<real>>, layout: string,
      key: SeriesKey): (points: seq<seq<nat>>)
    ensures forall p :: p in points ==> |p| == Width(bounds, layout)
  {
    if rows == [] then []
    else
      var last := rows[|rows| - 1];
      PointsOf(rows[..|rows| - 1], bounds, layout, key) +
        if Accepted(last, bounds) && last.layout == layout && KeyOf(last) == key then [last.counts.value] else []
  }

  ghost function AddUp(points: seq<seq<nat>>, width: nat): (v: seq<nat>)
    requires forall p :: p in points ==> |p| == width
    ensures |v| == width
  {
    if points == [] then Zeros(width) else Plus(AddUp(points[..|points| - 1], width), points[|points| - 1])
  }

  /** What a series contributes: the sum of its delta points, or the difference of
      its last and its first cumulative point. */
  ghost function Contribution(points: seq<seq<nat>>, cumulative: bool, width: nat): (v: seq<nat>)
    requires points != [] && forall p :: p in points ==> |p| == width
    ensures |v| == width
  {
    if cumulative then Delta(points[0], points[|points| - 1]) else AddUp(points, width)
  }

  function Resolved(a: Accumulator): seq<nat> {
    if a.isDelta then a.delta
    else if a.first.Some? && a.last.Some? then Delta(a.first.value, a.last.value)
    else []
  }

  ghost predicate IsAccumulated(a: Accumulator, points: seq<seq<nat>>, cumulative: bool, width: nat) {
    && points != [] && (forall p :: p in points ==> |p| == width)
    && a.isDelta == !cumulative && |a.delta| == width
    && (cumulative ==> a.first == Some(points[0]) && a.last == Some(points[|points| - 1]))
    && (!cumulative ==> a.delta == AddUp(points, width))
  }

  lemma AccumulatedResolves(a: Accumulator, points: seq<seq<nat>>, cumulative: bool, width: nat)
    requires IsAccumulated(a, points, cumulative, width)
    ensures Resolved(a) == Contribution(points, cumulative, width)
  {
  }

  /** The maps hold a series exactly when a point of it was accepted, and the
      accumulator of each is that of its points. */
  ghost predicate HoldsSeries(layouts: Layouts, rows: seq<Row>, bounds: string -> Option<seq<real>>, layout: string,
      key: SeriesKey) {
    var points := PointsOf(rows, bounds, layout, key);
    if layout in layouts && key in layouts[layout]
    then IsAccumulated(layouts[layout][key], points, key.start.Some?, Width(bounds, layout))
    else points == []
  }

  ghost predicate Holds(layouts: Layouts, rows: seq<Row>, bounds: string -> Option<seq<real>>) {
    && (forall layout, key :: HoldsSeries(layouts, rows, bounds, layout, key))
    && (forall layout :: layout in layouts ==> layouts[layout] != map[])
  }

  method AddInto(delta: seq<nat>, counts: seq<nat>) returns (sum: seq<nat>)
    requires |delta| == |counts|
    ensures sum == Plus(delta, counts)
  {
    sum := delta;
    for i := 0 to |counts|
      invariant |sum| == |delta|
      invariant forall j :: 0 <= j < |sum| ==> sum[j] == if j < i then delta[j] + counts[j] else delta[j]
    {
      sum := sum[i := sum[i] + counts[i]];
    }
  }

  /** The accumulator after one more point. */
  function Grown(a: Accumulator, counts: seq<nat>): Accumulator
    requires |a.delta| == |counts|
  {
    if a.isDelta then a.(delta := Plus(a.delta, counts))
    else a.(first := if a.first.None? then Some(counts) else a.first, last := Some(counts))
  }

  lemma GrownIsAccumulated(a: Accumulator, points: seq<seq<nat>>, counts: seq<nat>, cumulative: bool, width: nat)
    requires |counts| == width
    requires if points == [] then a == Accumulator(None, None, Zeros(width), !cumulative)
      else IsAccumulated(a, points, cumulative, width)
    ensures IsAccumulated(Grown(a, counts), points + [counts], cumulative, width)
  {
  }

  /** Rows of one exporter: they agree on attributes, stream and temporality and,
      when cumulative, on the start. */
  ghost predicate SameSeries(r: Row, s: Row) {
    && r.attributes == s.attributes && r.streamKey == s.streamKey
    && (r.temporality == 2 <==> s.temporality == 2)
    && (r.temporality == 2 ==> r.start == s.start)
  }

  /** Two rows of a layout feed one series exactly when they are such rows. */
  lemma SameSeriesIff(r: Row, s: Row)
    ensures KeyOf(r) == KeyOf(s) <==> SameSeries(r, s)
  {
  }

  /** One more row joins the series of its layout, its attributes, its stream and,
      when cumulative, its start, if its bounds and counts decode and fit each
      other; every other series has the points it had. */
  lemma RowJoins(rows: seq<Row>, r: Row, bounds: string -> Option<seq<real>>, layout: string, key: SeriesKey)
    ensures
      var before, after := PointsOf(rows, bounds, layout, key), PointsOf(rows + [r], bounds, layout, key);
      if && bounds(layout).Some? && r.counts.Some? && |r.counts.value| == |bounds(layout).value| + 1
         && r.layout == layout && r.attributes == key.attributes && r.streamKey == key.streamKey
         && (if r.temporality == 2 then key.start == Some(r.start) else key.start == None)
      then after == before + [r.counts.value]
      else after == before
  {
    PointsOfMore(rows, r, bounds, layout, key);
  }

  lemma PointsOfMore(rows: seq<Row>, r: Row, bounds: string -> Option<seq<real>>, layout: string, key: SeriesKey)
    ensures PointsOf(rows + [r], bounds, layout, key) ==
      if Accepted(r, bounds) && r.layout == layout && KeyOf(r) == key then
        PointsOf(rows, bounds, layout, key) + [r.counts.value]
      else PointsOf(rows, bounds, layout, key)
  {
  }

  lemma HoldsMore(layouts: Layouts, added: Layouts, r: Row, rows: seq<Row>, bounds: string -> Option<seq<real>>)
    requires Holds(layouts, rows, bounds) && Accepted(r, bounds)
    requires
      var key, width := KeyOf(r), Width(bounds, r.layout);
      var series := if r.layout in layouts then layouts[r.layout] else map[];
      var a := if key in series then series[key]
          else Accumulator(None, None, Zeros(width), r.temporality != CUMULATIVE);
      |a.delta| == width && added == layouts[r.layout := series[key := Grown(a, r.counts.value)]]
    ensures Holds(added, rows + [r], bounds)
  {
    hide IsAccumulated, Accepted, PointsOf;
    forall layout, key
      ensures HoldsSeries(added, rows + [r], bounds, layout, key)
    {
      assert HoldsSeries(layouts, rows, bounds, layout, key);
      PointsOfMore(rows, r, bounds, layout, key);
      if layout == r.layout && key == KeyOf(r) {
        var a := if layout in layouts && key in layouts[layout] then layouts[layout][key]
                 else Accumulator(None, None, Zeros(Width(bounds, layout)), r.temporality != CUMULATIVE);
        AcceptedWidth(r, bounds);
        IsAccumulatedNonempty(a, PointsOf(rows, bounds, layout, key), key.start.Some?, Width(bounds, layout));
        GrownIsAccumulated(a, PointsOf(rows, bounds, layout, key), r.counts.value,
            key.start.Some?, Width(bounds, layout));
      }
    }
  }

  lemma AcceptedWidth(r: Row, bounds: string -> Option<seq<real>>)
    requires Accepted(r, bounds)
    ensures r.counts.Some? && |r.counts.value| == Width(bounds, r.layout)
  {
  }

  lemma IsAccumulatedNonempty(a: Accumulator, points: seq<seq<nat>>, cumulative: bool, width: nat)
    ensures IsAccumulated(a, points, cumulative, width) ==>
      points != [] && |a.delta| == width && a.isDelta == !cumulative
  {
  }

  method AddPoint(layouts: Layouts, r: Row, ghost rows: seq<Row>,
      bounds: string -> Option<seq<real>>) returns (added: Layouts)
    requires Holds(layouts, rows, bounds) && Accepted(r, bounds)
    ensures Holds(added, rows + [r], bounds)
  {
    hide IsAccumulated, PointsOf;
    var counts, key := r.counts.value, KeyOf(r);
    var series := if r.layout in layouts then layouts[r.layout] else map[];
    var a := if key in series then series[key]
        else Accumulator(None, None, Zeros(|counts|), r.temporality != CUMULATIVE);
    assert HoldsSeries(layouts, rows, bounds, r.layout, key);
    IsAccumulatedNonempty(a, PointsOf(rows, bounds, r.layout, key), key.start.Some?, Width(bounds, r.layout));
    if a.isDelta {
      var delta := AddInto(a.delta, counts);
      added := layouts[r.layout := series[key := a.(delta := delta)]];
    } else {
      var first := if a.first.None? then Some(counts) else a.first;
      added := layouts[r.layout := series[key := a.(first := first, last := Some(counts))]];
    }
    HoldsMore(layouts, added, r, rows, bounds);
  }

  // ----- merging the series of a layout -----

  /** Every series of the layout resolves to a vector of the layout's width. */
  ghost predicate SameWidth(series: Series, width: nat) {
    forall key :: key in series ==> |Resolved(series[key])| == width
  }

  /** The count of bucket i over a set of series, in no particular order. */
  ghost function BucketSum(series: Series, keys: set<SeriesKey>, width: nat, i: nat): nat
    requires SameWidth(series, width) && keys <= series.Keys && i < width
  {
    if keys == {} then 0
    else
      var key :| key in keys;
      Resolved(series[key])[i] + BucketSum(series, keys - {key}, width, i)
  }

  /** The observations of a set of series together. */
  ghost function SeriesSum(series: Series, keys: set<SeriesKey>): nat
    requires keys <= series.Keys
  {
    if keys == {} then 0
    else
      var key :| key in keys;
      Total(Resolved(series[key])) + SeriesSum(series, keys - {key})
  }

  /** Neither depends on the order in which a Go map is visited. */
  lemma {:induction false} BucketSumAny(series: Series, keys: set<SeriesKey>, width: nat, i: nat, key: SeriesKey)
    requires SameWidth(series, width) && keys <= series.Keys && i < width && key in keys
    ensures BucketSum(series, keys, width, i) == Resolved(series[key])[i] + BucketSum(series, keys - {key}, width, i)
    decreases keys
  {
    var first :| first in keys &&
      BucketSum(series, keys, width, i) == Resolved(series[first])[i] + BucketSum(series, keys - {first}, width, i);
    if first != key {
      BucketSumAny(series, keys - {first}, width, i, key);
      BucketSumAny(series, keys - {key}, width, i, first);
      assert keys - {first} - {key} == keys - {key} - {first};
    }
  }

  lemma {:induction false} SeriesSumAny(series: Series, keys: set<SeriesKey>, key: SeriesKey)
    requires keys <= series.Keys && key in keys
    ensures SeriesSum(series, keys) == Total(Resolved(series[key])) + SeriesSum(series, keys - {key})
    decreases keys
  {
    var first :| first in keys &&
      SeriesSum(series, keys) == Total(Resolved(series[first])) + SeriesSum(series, keys - {first});
    if first != key {
      SeriesSumAny(series, keys - {first}, key);
      SeriesSumAny(series, keys - {key}, first);
      assert keys - {first} - {key} == keys - {key} - {first};
    }
  }

  ghost predicate IsMerged(series: Series, width: nat, merged: seq<nat>)
    requires SameWidth(series, width)
  {
    |merged| == width && forall i :: 0 <= i < width ==> merged[i] == BucketSum(series, series.Keys, width, i)
  }

  /** Adding up the series of one layout, whatever the order of the map: every
      bucket holds the sum of its series, and the total is the sum of totals. */
  method MergeSeries(series: Series, ghost width: nat) returns (merged: seq<nat>)
    requires series != map[] && SameWidth(series, width)
    ensures IsMerged(series, width, merged)
    ensures Total(merged) == SeriesSum(series, series.Keys)
  {
    var left := series.Keys;
    var key :| key in left;
    merged := Zeros(|Resolved(series[key])|);
    SumZeros(width, width);
    while left != {}
      invariant left <= series.Keys && |merged| == width
      invariant forall i :: 0 <= i < width ==>
        merged[i] + BucketSum(series, left, width, i) == BucketSum(series, series.Keys, width, i)
      invariant Total(merged) + SeriesSum(series, left) == SeriesSum(series, series.Keys)
      decreases left
    {
      key :| key in left;
      forall i | 0 <= i < width
        ensures BucketSum(series, left, width, i) ==
          Resolved(series[key])[i] + BucketSum(series, left - {key}, width, i)
      {
        BucketSumAny(series, left, width, i, key);
      }
      SeriesSumAny(series, left, key);
      SumPlus(merged, Resolved(series[key]), width);
      merged := AddInto(merged, Resolved(series[key]));
      left := left - {key};
    }
  }

  lemma {:induction false} SumZeros(n: nat, k: nat)
    requires k <= n
    ensures Sum(Zeros(n), k) == 0
  {
    if k != 0 {
      SumZeros(n, k - 1);
    }
  }

  ghost predicate AllSameWidth(layouts: Layouts, bounds: string -> Option<seq<real>>) {
    forall layout :: layout in layouts ==> layouts[layout] != map[] && SameWidth(layouts[layout], Width(bounds, layout))
  }

  ghost function LayoutTotal(layouts: Layouts, layout: string): nat
    requires layout in layouts
  {
    SeriesSum(layouts[layout], layouts[layout].Keys)
  }

  /** The layout with the most observations; None when there are none at all. */
  method BestLayout(layouts: Layouts, bounds: string -> Option<seq<real>>) returns (best: Option<string>,
      merged: seq<nat>)
    requires AllSameWidth(layouts, bounds)
    ensures best.None? ==> forall layout :: layout in layouts ==> LayoutTotal(layouts, layout) == 0
    ensures best.Some? ==>
      && best.value in layouts && IsMerged(layouts[best.value], Width(bounds, best.value), merged)
      && 0 < Total(merged) == LayoutTotal(layouts, best.value)
      && forall layout :: layout in layouts ==> LayoutTotal(layouts, layout) <= Total(merged)
  {
    best, merged := None, [];
    var bestTotal := 0;
    var left := layouts.Keys;
    while left != {}
      invariant left <= layouts.Keys
      invariant forall layout :: layout in layouts && layout !in left ==> LayoutTotal(layouts, layout) <= bestTotal
      invariant best.None? ==> bestTotal == 0
      invariant best.Some? ==>
        && best.value in layouts && IsMerged(layouts[best.value], Width(bounds, best.value), merged)
        && 0 < bestTotal == Total(merged) == LayoutTotal(layouts, best.value)
      decreases left
    {
      var layout :| layout in left;
      var candidate := MergeSeries(layouts[layout], Width(bounds, layout));
      var total := Total(candidate);
      if total > bestTotal {
        best, merged, bestTotal := Some(layout), candidate, total;
      }
      left := left - {layout};
    }
  }

  // ----- series apart -----

  /** The rows a condition selects, in order. */
  ghost function Selected(rows: seq<Row>, keep: Row -> bool): seq<Row> {
    if rows == [] then []
    else
      var last := rows[|rows| - 1];
      Selected(rows[..|rows| - 1], keep) + if keep(last) then [last] else []
  }

  /** The condition keeps together what feeds one series. */
  ghost predicate Separates(rows: seq<Row>, keep: Row -> bool) {
    forall r, s :: r in rows && s in rows && r.layout == s.layout && SameSeries(r, s) ==> keep(r) == keep(s)
  }

  /** Some row of the series is selected. */
  ghost predicate Keeps(rows: seq<Row>, keep: Row -> bool, layout: string, key: SeriesKey) {
    exists r :: r in rows && r.layout == layout && KeyOf(r) == key && keep(r)
  }

  lemma {:induction false} SelectedPoints(rows: seq<Row>, keep: Row -> bool, bounds: string -> Option<seq<real>>,
      layout: string, key: SeriesKey, kept: bool)
    requires forall r :: r in rows && r.layout == layout && KeyOf(r) == key ==> keep(r) == kept
    ensures PointsOf(Selected(rows, keep), bounds, layout, key) ==
      if kept then PointsOf(rows, bounds, layout, key) else []
  {
    hide KeyOf, Accepted, PointsOf;
    if rows == [] {
      NoPoints(bounds, layout, key);
    } else {
      var shorter, last := rows[..|rows| - 1], rows[|rows| - 1];
      assert shorter + [last] == rows;
      SelectedPoints(shorter, keep, bounds, layout, key, kept);
      PointsOfMore(shorter, last, bounds, layout, key);
      PointsOfMore(Selected(shorter, keep), last, bounds, layout, key);
      assert Selected(shorter, keep) + [] == Selected(shorter, keep);
    }
  }

  lemma NoPoints(bounds: string -> Option<seq<real>>, layout: string, key: SeriesKey)
    ensures PointsOf([], bounds, layout, key) == []
  {
  }

  /** What the series of a layout count in one bucket, nothing without the layout. */
  ghost function LayoutCount(layouts: Layouts, bounds: string -> Option<seq<real>>, layout: string, i: nat): nat
    requires AllSameWidth(layouts, bounds) && i < Width(bounds, layout)
  {
    if layout in layouts then BucketSum(layouts[layout], layouts[layout].Keys, Width(bounds, layout), i) else 0
  }

  ghost function SeriesOf(layouts: Layouts, layout: string): Series {
    if layout in layouts then layouts[layout] else map[]
  }

  /** Bucket sums over separate series add up. */
  lemma {:induction false} BucketSumSplits(series: Series, a: Series, b: Series, left: set<SeriesKey>, width: nat,
      i: nat)
    requires SameWidth(series, width) && SameWidth(a, width) && SameWidth(b, width) && i < width
    requires left <= series.Keys && a.Keys !! b.Keys && series.Keys == a.Keys + b.Keys
    requires forall key :: key in a ==> Resolved(a[key]) == Resolved(series[key])
    requires forall key :: key in b ==> Resolved(b[key]) == Resolved(series[key])
    ensures BucketSum(series, left, width, i) ==
      BucketSum(a, left * a.Keys, width, i) + BucketSum(b, left * b.Keys, width, i)
    decreases left
  {
    hide Resolved;
    if left != {} {
      var key :| key in left;
      BucketSumSplits(series, a, b, left - {key}, width, i);
      BucketSumAny(series, left, width, i, key);
      if key in a {
        BucketSumAny(a, left * a.Keys, width, i, key);
        assert left * a.Keys - {key} == (left - {key}) * a.Keys && left * b.Keys == (left - {key}) * b.Keys;
      } else {
        BucketSumAny(b, left * b.Keys, width, i, key);
        assert left * b.Keys - {key} == (left - {key}) * b.Keys && left * a.Keys == (left - {key}) * a.Keys;
      }
    } else {
      assert left * a.Keys == {} && left * b.Keys == {};
    }
  }

  /** Where the points of a series are the same, so are its accumulator's counts. */
  lemma SameContribution(layouts: Layouts, rows: seq<Row>, some: Layouts, selected: seq<Row>,
      bounds: string -> Option<seq<real>>, layout: string, key: SeriesKey)
    requires Holds(layouts, rows, bounds) && Holds(some, selected, bounds)
    ensures key in SeriesOf(layouts, layout) <==> PointsOf(rows, bounds, layout, key) != []
    ensures key in SeriesOf(some, layout) <==> PointsOf(selected, bounds, layout, key) != []
    ensures PointsOf(rows, bounds, layout, key) == PointsOf(selected, bounds, layout, key) != [] ==>
      Resolved(SeriesOf(layouts, layout)[key]) == Resolved(SeriesOf(some, layout)[key])
  {
    hide PointsOf, Resolved;
    assert HoldsSeries(layouts, rows, bounds, layout, key) && HoldsSeries(some, selected, bounds, layout, key);
    if key in SeriesOf(layouts, layout) {
      SeriesContributes(layouts, rows, bounds, layout, key);
    }
    if key in SeriesOf(some, layout) {
      SeriesContributes(some, selected, bounds, layout, key);
    }
  }

  /** Series stay apart, however their rows interleave: when a condition tells them
      apart by layout, attributes, stream, temporality or start, every bucket counts
      what the selected rows count alone and what the others count alone. */
  lemma SeparateSeriesAddUp(rows: seq<Row>, keep: Row -> bool, bounds: string -> Option<seq<real>>, layouts: Layouts,
      some: Layouts, others: Layouts, layout: string, i: nat)
    requires Separates(rows, keep) && i < Width(bounds, layout)
    requires Holds(layouts, rows, bounds) && AllSameWidth(layouts, bounds)
    requires Holds(some, Selected(rows, keep), bounds) && AllSameWidth(some, bounds)
    requires Holds(others, Selected(rows, r => !keep(r)), bounds) && AllSameWidth(others, bounds)
    ensures LayoutCount(layouts, bounds, layout, i) ==
      LayoutCount(some, bounds, layout, i) + LayoutCount(others, bounds, layout, i)
  {
    hide PointsOf, Resolved, Selected, Holds, KeyOf, Keeps, Separates;
    var series, a, b := SeriesOf(layouts, layout), SeriesOf(some, layout), SeriesOf(others, layout);
    forall key
      ensures key in series <==> key in a || key in b
      ensures !(key in a && key in b)
      ensures key in a ==> key in series && Resolved(a[key]) == Resolved(series[key])
      ensures key in b ==> key in series && Resolved(b[key]) == Resolved(series[key])
    {
      var kept := Keeps(rows, keep, layout, key);
      KeepsAll(rows, keep, layout, key);
      SelectedPoints(rows, keep, bounds, layout, key, kept);
      SelectedPoints(rows, r => !keep(r), bounds, layout, key, !kept);
      SameContribution(layouts, rows, some, Selected(rows, keep), bounds, layout, key);
      SameContribution(layouts, rows, others, Selected(rows, r => !keep(r)), bounds, layout, key);
    }
    assert series.Keys == a.Keys + b.Keys;
    BucketSumSplits(series, a, b, series.Keys, Width(bounds, layout), i);
    assert series.Keys * a.Keys == a.Keys && series.Keys * b.Keys == b.Keys;
  }

  lemma KeepsAll(rows: seq<Row>, keep: Row -> bool, layout: string, key: SeriesKey)
    requires Separates(rows, keep)
    ensures forall r :: r in rows && r.layout == layout && KeyOf(r) == key ==> keep(r) == Keeps(rows, keep, layout, key)
  {
    hide KeyOf;
    forall r | r in rows && r.layout == layout && KeyOf(r) == key
      ensures keep(r) == Keeps(rows, keep, layout, key)
    {
      if s :| s in rows && s.layout == layout && KeyOf(s) == key && keep(s) {
        SameSeriesIff(r, s);
      }
    }
  }

  // ----- exemplars -----

  const MAX_TAIL: nat := 5

  function ByFallingValue(e: Exemplar): real {
    -e.value
  }

  /** How many of the sorted exemplars make the tail. */
  ghost predicate CutsTail(sorted: seq<Exemplar>, p95: real, n: nat) {
    && n <= |sorted| && n <= MAX_TAIL
    && (sorted != [] ==> 0 < n)
    && (sorted != [] && p95 <= sorted[0].value ==> forall i :: 0 <= i < n ==> p95 <= sorted[i].value)
    && (n < MAX_TAIL && n < |sorted| ==> sorted[n].value < p95 <= sorted[0].value)
  }

  /** The slowest MAX_TAIL measurements at or above p95, or the slowest of all when
      none reaches it: the front of the list sorted by falling value. */
  method TailExemplars(all: seq<Exemplar>, p95: real) returns (tail: seq<Exemplar>)
    ensures
      var sorted := Sort(all, ByFallingValue);
      CutsTail(sorted, p95, |tail|) && tail == sorted[..|tail|]
  {
    hide Sort, SortedBy;
    SortSorts(all, ByFallingValue);
    if |all| == 0 {
      return [];
    }
    var sorted := Sort(all, ByFallingValue);
    var cut := |sorted|;
    if sorted[0].value >= p95 {
      for i := 0 to |sorted|
        invariant cut == |sorted| && forall j :: 0 <= j < i ==> sorted[j].value >= p95
      {
        if sorted[i].value < p95 {
          cut := i;
          break;
        }
      }
    }
    tail := sorted[..cut];
    if |tail| > MAX_TAIL {
      tail := tail[..MAX_TAIL];
    }
  }

  /** What that means for the reader: nothing left out is slower than anything
      offered, and when any measurement reaches p95 only such are offered, all of
      them up to the limit. */
  lemma TailMeans(all: seq<Exemplar>, p95: real, n: nat)
    requires CutsTail(Sort(all, ByFallingValue), p95, n)
    ensures
      var sorted := Sort(all, ByFallingValue);
      && multiset(all) == multiset(sorted[..n]) + multiset(sorted[n..])
      && (forall kept, left :: kept in sorted[..n] && left in sorted[n..] ==> left.value <= kept.value)
      && ((exists e :: e in all && p95 <= e.value) ==> forall kept :: kept in sorted[..n] ==> p95 <= kept.value)
      && n <= 5 && (n < 5 ==> forall left :: left in sorted[n..] ==> left.value < p95)
  {
    hide Sort, SortedBy, Falls, CutsTail;
    var sorted := Sort(all, ByFallingValue);
    SortSorts(all, ByFallingValue);
    Falling(sorted);
    TailOrder(sorted, p95, n);
    assert sorted == sorted[..n] + sorted[n..];
    if e :| e in all && p95 <= e.value {
      assert e in multiset(sorted);
      TailReaches(sorted, p95, n, e);
    }
  }

  lemma TailReaches(sorted: seq<Exemplar>, p95: real, n: nat, e: Exemplar)
    requires Falls(sorted) && CutsTail(sorted, p95, n) && e in sorted && p95 <= e.value
    ensures forall kept :: kept in sorted[..n] ==> p95 <= kept.value
  {
    hide Falls;
    var i :| 0 <= i < |sorted| && sorted[i] == e;
    FallingAt(sorted, 0, i);
  }

  lemma TailOrder(sorted: seq<Exemplar>, p95: real, n: nat)
    requires Falls(sorted) && CutsTail(sorted, p95, n)
    ensures n <= |sorted| && n <= MAX_TAIL
    ensures forall kept, left :: kept in sorted[..n] && left in sorted[n..] ==> left.value <= kept.value
    ensures n < MAX_TAIL ==> forall left :: left in sorted[n..] ==> left.value < p95
  {
    hide Falls;
    forall left | left in sorted[n..]
      ensures n < MAX_TAIL ==> left.value < p95
      ensures forall kept :: kept in sorted[..n] ==> left.value <= kept.value
    {
      var j :| n <= j < |sorted| && sorted[j] == left;
      FallingAt(sorted, n, j);
      forall kept | kept in sorted[..n]
        ensures left.value <= kept.value
      {
        var i :| 0 <= i < n && sorted[i] == kept;
        FallingAt(sorted, i, j);
      }
    }
  }

  ghost predicate Falls(sorted: seq<Exemplar>) {
    forall i, j :: 0 <= i < j < |sorted| ==> sorted[j].value <= sorted[i].value
  }

  lemma Falling(sorted: seq<Exemplar>)
    requires SortedBy(sorted, ByFallingValue)
    ensures Falls(sorted)
  {
    forall i, j | 0 <= i < j < |sorted|
      ensures sorted[j].value <= sorted[i].value
    {
      assert ByFallingValue(sorted[i]) <= ByFallingValue(sorted[j]);
    }
  }

  lemma FallingAt(sorted: seq<Exemplar>, i: nat, j: nat)
    requires Falls(sorted) && i <= j < |sorted|
    ensures sorted[j].value <= sorted[i].value
  {
  }

  // ----- the whole query -----

  datatype Answer = Truncated | NoData |
    Recovered(unit: string, count: nat, p50: real, p95: real, p99: real, exemplars: seq<Exemplar>)

  lemma HoldsSameWidth(layouts: Layouts, rows: seq<Row>, bounds: string -> Option<seq<real>>)
    requires Holds(layouts, rows, bounds)
    ensures AllSameWidth(layouts, bounds)
  {
    hide IsAccumulated, PointsOf;
    forall layout, key | layout in layouts && key in layouts[layout]
      ensures |Resolved(layouts[layout][key])| == Width(bounds, layout)
    {
      assert HoldsSeries(layouts, rows, bounds, layout, key);
      SeriesContributes(layouts, rows, bounds, layout, key);
    }
  }

  /** A series in the maps resolves to what its points contribute. */
  lemma SeriesContributes(layouts: Layouts, rows: seq<Row>, bounds: string -> Option<seq<real>>, layout: string,
      key: SeriesKey)
    requires Holds(layouts, rows, bounds) && layout in layouts && key in layouts[layout]
    ensures PointsOf(rows, bounds, layout, key) != []
    ensures Resolved(layouts[layout][key]) ==
      Contribution(PointsOf(rows, bounds, layout, key), key.start.Some?, Width(bounds, layout))
    ensures |Resolved(layouts[layout][key])| == Width(bounds, layout)
  {
    hide PointsOf;
    assert HoldsSeries(layouts, rows, bounds, layout, key);
    AccumulatedResolves(layouts[layout][key], PointsOf(rows, bounds, layout, key),
        key.start.Some?, Width(bounds, layout));
  }

  /** The points of a cumulative exporter: its first one, and one after each export. */
  ghost predicate Snapshots(points: seq<seq<nat>>, first: seq<nat>, exports: seq<Export>)
    requires AllWide(exports, |first|)
  {
    |points| == |exports| + 1 && forall i :: 0 <= i <= |exports| ==> points[i] == Point(first, exports[..i])
  }

  /** The points of a delta exporter. */
  ghost predicate Increments(points: seq<seq<nat>>, exports: seq<Export>) {
    |points| == |exports| && forall i :: 0 <= i < |exports| ==> points[i] == exports[i].observed
  }

  lemma {:induction false} IncrementsAddUp(points: seq<seq<nat>>, exports: seq<Export>, width: nat)
    requires Increments(points, exports) && AllWide(exports, width)
    ensures forall p :: p in points ==> |p| == width
    ensures AddUp(points, width) == Observed(exports, width)
  {
    if exports != [] {
      IncrementsAddUp(points[..|points| - 1], exports[..|exports| - 1], width);
    }
  }

  /** A delta series contributes everything its exporter observed. */
  lemma DeltaExporterContributes(layouts: Layouts, rows: seq<Row>, bounds: string -> Option<seq<real>>,
      layout: string, key: SeriesKey, exports: seq<Export>)
    requires Holds(layouts, rows, bounds) && layout in layouts && key in layouts[layout] && key.start.None?
    requires AllWide(exports, Width(bounds, layout)) && Increments(PointsOf(rows, bounds, layout, key), exports)
    ensures Resolved(layouts[layout][key]) == Observed(exports, Width(bounds, layout))
  {
    hide PointsOf, Observed, AddUp;
    SeriesContributes(layouts, rows, bounds, layout, key);
    IncrementsAddUp(PointsOf(rows, bounds, layout, key), exports, Width(bounds, layout));
  }

  /** A cumulative series contributes at most what its exporter observed after the
      first point, and all of it under the condition of DeltaOfExports. */
  lemma CumulativeExporterContributes(layouts: Layouts, rows: seq<Row>, bounds: string -> Option<seq<real>>,
      layout: string, key: SeriesKey, first: seq<nat>, exports: seq<Export>)
    requires Holds(layouts, rows, bounds) && layout in layouts && key in layouts[layout] && key.start.Some?
    requires AllWide(exports, |first|) && Snapshots(PointsOf(rows, bounds, layout, key), first, exports)
    ensures |first| == Width(bounds, layout)
    ensures
      var n, resolved := |first|, Resolved(layouts[layout][key]);
      && AtMost(resolved, Observed(exports, n))
      && (resolved == Observed(exports, n) <==>
            !Resets(exports) ||
            (Lost(exports, n) == Zeros(n) && (AtMost(first, Point(first, exports)) ==> first == Zeros(n))))
  {
    hide PointsOf, Observed, Lost, Resets;
    var points := PointsOf(rows, bounds, layout, key);
    SeriesContributes(layouts, rows, bounds, layout, key);
    assert exports[..|exports|] == exports;
    assert points[0] == first && points[|points| - 1] == Point(first, exports);
    DeltaOfExports(first, exports);
  }

  /** layout and merged are what the rows add up to: the maps hold the accepted
      points, no layout has more observations, and merged is the sum over the
      series of the layout. */
  ghost predicate Best(rows: seq<Row>, bounds: string -> Option<seq<real>>, layouts: Layouts, layout: string,
      merged: seq<nat>) {
    && Holds(layouts, rows, bounds) && AllSameWidth(layouts, bounds) && layout in layouts
    && IsMerged(layouts[layout], Width(bounds, layout), merged)
    && 0 < Total(merged) == LayoutTotal(layouts, layout)
    && forall other :: other in layouts ==> LayoutTotal(layouts, other) <= Total(merged)
  }

  /** Bounds in order, and nothing observed below zero or no bucket there. */
  ghost predicate Usual(bounds: seq<real>, counts: seq<nat>) {
    bounds != [] && counts != [] && (0.0 <= bounds[0] || counts[0] == 0) &&
    forall i, j :: 0 <= i < j < |bounds| ==> bounds[i] <= bounds[j]
  }

  ghost function AllExemplars(rows: seq<Row>): seq<Exemplar> {
    if rows == [] then [] else AllExemplars(rows[..|rows| - 1]) + rows[|rows| - 1].exemplars
  }

  /** The first unit an accepted row names. */
  ghost function FirstUnit(rows: seq<Row>, bounds: string -> Option<seq<real>>): string {
    if rows == [] then ""
    else
      var unit := FirstUnit(rows[..|rows| - 1], bounds);
      if unit == "" && Accepted(rows[|rows| - 1], bounds) then rows[|rows| - 1].unit else unit
  }

  method HistogramQuantiles(rows: seq<Row>, bounds: string -> Option<seq<real>>)
    returns (answer: Answer, ghost layouts: Layouts, ghost layout: string, ghost merged: seq<nat>)
    ensures answer.Truncated? <==> 50_000 < |rows|
    ensures answer.NoData? ==> Holds(layouts, rows, bounds) && forall l :: l in layouts ==> LayoutTotal(layouts, l) == 0
    ensures answer.Recovered? ==>
      Best(rows, bounds, layouts, layout, merged) && bounds(layout).Some? && answer.count == Total(merged)
    ensures answer.Recovered? ==>
      var sorted := Sort(AllExemplars(rows), ByFallingValue);
      && answer.unit == FirstUnit(rows, bounds)
      && CutsTail(sorted, answer.p95, |answer.exemplars|) && answer.exemplars == sorted[..|answer.exemplars|]
    ensures answer.Recovered? ==>
      var b := bounds(layout).value;
      && answer.p50 == Quantile(b, merged, answer.count, 0.50)
      && answer.p95 == Quantile(b, merged, answer.count, 0.95)
      && answer.p99 == Quantile(b, merged, answer.count, 0.99)
      && (Usual(b, merged) ==> answer.p50 <= answer.p95 <= answer.p99)
  {
    var maps: Layouts := map[];
    var unit, exemplars := "", [];
    var pointCount := 0;
    layout, merged := "", [];
    assert Holds(map[], [], bounds);
    for n := 0 to |rows|
      invariant pointCount == n <= MAX_POINTS
      invariant Holds(maps, rows[..n], bounds)
      invariant unit == FirstUnit(rows[..n], bounds) && exemplars == AllExemplars(rows[..n])
    {
      hide HoldsSeries, PointsOf;
      assert rows[..n + 1] == rows[..n] + [rows[n]];
      assert rows[..n + 1][..n] == rows[..n];
      pointCount := pointCount + 1;
      if pointCount > MAX_POINTS {
        return Truncated, map[], "", [];
      }
      var r := rows[n];
      exemplars := exemplars + r.exemplars;
      if !Accepted(r, bounds) {
        HoldsUnchanged(maps, rows[..n], r, bounds);
        continue;
      }
      if unit == "" {
        unit := r.unit;
      }
      maps := AddPoint(maps, r, rows[..n], bounds);
    }
    assert rows[..|rows|] == rows;
    layouts := maps;
    HoldsSameWidth(maps, rows, bounds);
    var best, sum := BestLayout(maps, bounds);
    if best.None? {
      return NoData, layouts, layout, merged;
    }
    layout, merged := best.value, sum;
    BestHasBounds(maps, rows, bounds, best.value, sum);
    var b := bounds(best.value).value;
    var total := Total(sum);
    var p95 := BucketQuantile(b, sum, total, 0.95);
    var p50 := BucketQuantile(b, sum, total, 0.50);
    var p99 := BucketQuantile(b, sum, total, 0.99);
    var tail := TailExemplars(exemplars, p95);
    if Usual(b, sum) {
      QuantileMonotone(b, sum, total, 0.50, 0.95);
      QuantileMonotone(b, sum, total, 0.95, 0.99);
    }
    answer := Recovered(unit, total, p50, p95, p99, tail);
  }

  lemma HoldsUnchanged(layouts: Layouts, rows: seq<Row>, r: Row, bounds: string -> Option<seq<real>>)
    requires Holds(layouts, rows, bounds) && !Accepted(r, bounds)
    ensures Holds(layouts, rows + [r], bounds)
  {
    hide PointsOf, IsAccumulated;
    forall layout, key
      ensures HoldsSeries(layouts, rows + [r], bounds, layout, key)
    {
      assert HoldsSeries(layouts, rows, bounds, layout, key);
      PointsOfMore(rows, r, bounds, layout, key);
    }
  }

  lemma BestHasBounds(layouts: Layouts, rows: seq<Row>, bounds: string -> Option<seq<real>>, layout: string,
      merged: seq<nat>)
    requires Holds(layouts, rows, bounds) && AllSameWidth(layouts, bounds) && layout in layouts
    requires IsMerged(layouts[layout], Width(bounds, layout), merged) && 0 < Total(merged)
    ensures bounds(layout).Some? && |merged| == |bounds(layout).value| + 1
  {
  }
}
