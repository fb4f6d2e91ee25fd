/**
  Deriving incidents from health samples: one pass over the samples of all
  services, ordered by agent, key and time, with at most one episode open.
 */
module Incidents {
  import opened Options
  import opened Sorting

  const SECOND := 1_000_000_000

  datatype Sample = Sample(agent: string, key: string, name: string, healthy: int, at: int)

  datatype Incident = Incident(
    agent: string, key: string, name: string, startedAt: int, endedAt: Option<int>, durationSec: int, active: bool)

  /** The seconds of a duration in nanoseconds, truncated toward zero. */
  function Seconds(d: int): int {
    if d >= 0 then d / SECOND else -(-d / SECOND)
  }

  lemma SecondsMean(d: int)
    ensures 0 <= d ==> Seconds(d) * 1_000_000_000 <= d < (Seconds(d) + 1) * 1_000_000_000
    ensures d <= 0 ==> (Seconds(d) - 1) * 1_000_000_000 < d <= Seconds(d) * 1_000_000_000
  {
  }

  // ----- what an incident is -----

  /** All samples from i to j are of one service. */
  ghost predicate OneService(rows: seq<Sample>, i: nat, j: nat) {
    i <= j < |rows| && forall k :: i <= k <= j ==> rows[k].agent == rows[i].agent && rows[k].key == rows[i].key
  }

  /** No sample after i and before j is healthy. */
  ghost predicate NoneHealthy(rows: seq<Sample>, i: int, j: int) {
    forall k :: 0 <= i < k < j <= |rows| ==> rows[k].healthy != 1
  }

  /** An unhealthy sample that an earlier one's run does not reach. */
  ghost predicate Begins(rows: seq<Sample>, i: nat) {
    i < |rows| && rows[i].healthy == 0 &&
    forall j :: 0 <= j < i && OneService(rows, j, i) && rows[j].healthy == 0 ==> !NoneHealthy(rows, j, i)
  }

  /** The first healthy sample of the same service after i. */
  ghost predicate Closes(rows: seq<Sample>, i: nat, e: nat) {
    i < e && OneService(rows, i, e) && rows[e].healthy == 1 && NoneHealthy(rows, i, e)
  }

  /** The incident of the run that begins at i: ended by the sample that closes
      it, and active exactly when no sample of its service does. */
  ghost predicate IncidentOf(rows: seq<Sample>, i: nat, inc: Incident) {
    i < |rows| &&
    inc.agent == rows[i].agent && inc.key == rows[i].key && inc.name == rows[i].name && inc.startedAt == rows[i].at &&
    (inc.active <==> inc.endedAt == None) &&
    if inc.active then forall e: nat :: !Closes(rows, i, e)
    else exists e: nat :: Closes(rows, i, e) && inc.endedAt == Some(rows[e].at) &&
                          inc.durationSec == Seconds(rows[e].at - rows[i].at)
  }

  ghost predicate Increasing(starts: seq<nat>) {
    forall m, n :: 0 <= m < n < |starts| ==> starts[m] < starts[n]
  }

  /** One incident for each beginning below n, but for the one still open. */
  ghost predicate Derived(rows: seq<Sample>, n: nat, starts: seq<nat>, incidents: seq<Incident>, open: Option<nat>) {
    n <= |rows| && Increasing(starts) && |incidents| == |starts| &&
    (forall i :: i in starts ==> if open == None then i < n else i < open.value < n) &&
    (forall i: nat :: i < n ==> (Begins(rows, i) <==> i in starts || open == Some(i))) &&
    forall m :: 0 <= m < |starts| ==> IncidentOf(rows, starts[m], incidents[m])
  }

  /** Whether the run of an earlier sample of this service reaches n. */
  ghost predicate Reaching(rows: seq<Sample>, n: nat, open: Option<nat>) {
    n <= |rows| &&
    match open
    case None => forall j :: 0 <= j < n && OneService(rows, j, n - 1) && rows[j].healthy == 0 ==>
      !NoneHealthy(rows, j, n)
    case Some(o) => o < n && OneService(rows, o, n - 1) && rows[o].healthy == 0 && NoneHealthy(rows, o, n)
  }

  // ----- the steps of the pass -----

  function Opened(row: Sample): Incident {
    Incident(row.agent, row.key, row.name, row.at, None, 0, true)
  }

  /** A run that ends with the rows, or at another service's row, is never closed. */
  lemma StaysActive(rows: seq<Sample>, n: nat, o: nat)
    requires Reaching(rows, n, Some(o))
    requires n < |rows| ==> rows[n].agent != rows[n - 1].agent || rows[n].key != rows[n - 1].key
    ensures forall e: nat :: !Closes(rows, o, e)
  {
  }

  lemma PushActive(rows: seq<Sample>, n: nat, starts: seq<nat>, incidents: seq<Incident>, o: nat)
    requires Derived(rows, n, starts, incidents, Some(o)) && Reaching(rows, n, Some(o))
    requires n < |rows| ==> rows[n].agent != rows[n - 1].agent || rows[n].key != rows[n - 1].key
    ensures Derived(rows, n, starts + [o], incidents + [Opened(rows[o])], None)
  {
    StaysActive(rows, n, o);
    hide Closes, Begins, OneService, NoneHealthy, Seconds;
    Push(rows, n, starts, incidents, o, Opened(rows[o]), n);
  }

  lemma Push(rows: seq<Sample>, n: nat, starts: seq<nat>, incidents: seq<Incident>, o: nat, inc: Incident, next: nat)
    requires Derived(rows, n, starts, incidents, Some(o)) && o < n && IncidentOf(rows, o, inc)
    requires n <= next <= n + 1 && next <= |rows| && (n < next ==> !Begins(rows, n))
    ensures Derived(rows, next, starts + [o], incidents + [inc], None)
  {
    hide Closes, Begins, OneService, NoneHealthy, Seconds, IncidentOf;
    var more := starts + [o];
    assert forall i :: i in more <==> i in starts || i == o;
    assert forall m :: 0 <= m < |starts| ==> starts[m] in starts;
  }

  /** The first unhealthy sample of a run opens an episode. */
  lemma Opens(rows: seq<Sample>, n: nat, starts: seq<nat>, incidents: seq<Incident>)
    requires n < |rows| && Derived(rows, n, starts, incidents, None) && Fresh(rows, n) && rows[n].healthy == 0
    ensures Derived(rows, n + 1, starts, incidents, Some(n)) && Reaching(rows, n + 1, Some(n))
  {
  }

  /** No run reaches the sample n. */
  ghost predicate Fresh(rows: seq<Sample>, n: nat) {
    n < |rows| &&
    forall j :: 0 <= j < n && OneService(rows, j, n) && rows[j].healthy == 0 ==> !NoneHealthy(rows, j, n)
  }

  lemma FreshUnless(rows: seq<Sample>, n: nat)
    requires n < |rows|
    requires n == 0 || Reaching(rows, n, None) || rows[n].agent != rows[n - 1].agent || rows[n].key != rows[n - 1].key
    ensures Fresh(rows, n)
  {
  }

  /** A healthy sample closes the open episode of its service. */
  lemma ClosesOpen(rows: seq<Sample>, n: nat, starts: seq<nat>, incidents: seq<Incident>, o: nat)
    requires n < |rows| && Derived(rows, n, starts, incidents, Some(o)) && Reaching(rows, n, Some(o))
    requires rows[n].agent == rows[n - 1].agent && rows[n].key == rows[n - 1].key && rows[n].healthy == 1
    ensures
      var d := Seconds(rows[n].at - rows[o].at);
      Derived(rows, n + 1, starts + [o],
        incidents + [Opened(rows[o]).(endedAt := Some(rows[n].at), durationSec := d, active := false)], None)
    ensures Reaching(rows, n + 1, None)
  {
    assert Closes(rows, o, n);
    assert !Begins(rows, n);
    forall j | 0 <= j < n + 1 && rows[j].healthy == 0
      ensures !NoneHealthy(rows, j, n + 1)
    {
      assert j < n;
    }
    hide Closes, Begins, OneService, NoneHealthy, Seconds;
    var d := Seconds(rows[n].at - rows[o].at);
    Push(rows, n, starts, incidents, o,
         Opened(rows[o]).(endedAt := Some(rows[n].at), durationSec := d, active := false), n + 1);
  }

  /** Any other sample leaves the episode as it is. */
  lemma StaysOpen(rows: seq<Sample>, n: nat, starts: seq<nat>, incidents: seq<Incident>, o: nat)
    requires n < |rows| && Derived(rows, n, starts, incidents, Some(o)) && Reaching(rows, n, Some(o))
    requires rows[n].agent == rows[n - 1].agent && rows[n].key == rows[n - 1].key && rows[n].healthy != 1
    ensures Derived(rows, n + 1, starts, incidents, Some(o)) && Reaching(rows, n + 1, Some(o))
  {
  }

  lemma StaysClosed(rows: seq<Sample>, n: nat, starts: seq<nat>, incidents: seq<Incident>)
    requires n < |rows| && Derived(rows, n, starts, incidents, None) && Fresh(rows, n) && rows[n].healthy != 0
    ensures Derived(rows, n + 1, starts, incidents, None) && Reaching(rows, n + 1, None)
  {
  }

  /** The pass over the rows. */
  method DeriveIncidents(rows: seq<Sample>) returns (incidents: seq<Incident>, ghost starts: seq<nat>)
    ensures |incidents| == |starts| && Derived(rows, |rows|, starts, incidents, None)
    ensures forall m :: 0 <= m < |incidents| && incidents[m].active ==> incidents[m].durationSec == 0
  {
    hide Derived, Reaching, Fresh, Seconds;
    incidents, starts := [], [];
    var open: Option<Incident> := None;
    ghost var current: Option<nat> := None;
    var prevAgent, prevKey := "", "";
    NothingYet(rows);
    for n := 0 to |rows|
      invariant n > 0 ==> prevAgent == rows[n - 1].agent && prevKey == rows[n - 1].key
      invariant Derived(rows, n, starts, incidents, current) && (n > 0 || current.Some? ==> Reaching(rows, n, current))
      invariant open.Some? <==> current.Some?
      invariant open.Some? ==> 0 < n && current.value < n && open.value == Opened(rows[current.value])
      invariant forall m :: 0 <= m < |incidents| && incidents[m].active ==> incidents[m].durationSec == 0
      invariant |incidents| == |starts|
    {
      var row := rows[n];
      if row.agent != prevAgent || row.key != prevKey {
        if open.Some? {
          PushActive(rows, n, starts, incidents, current.value);
          incidents, starts := incidents + [open.value], starts + [current.value];
          open, current := None, None;
        }
        prevAgent, prevKey := row.agent, row.key;
        FreshUnless(rows, n);
      } else if open.None? {
        FreshUnless(rows, n);
      }
      if row.healthy == 0 && open.None? {
        Opens(rows, n, starts, incidents);
        open, current := Some(Incident(row.agent, row.key, row.name, row.at, None, 0, true)), Some(n);
      } else if row.healthy == 1 && open.Some? {
        ClosesOpen(rows, n, starts, incidents, current.value);
        var d := Seconds(row.at - open.value.startedAt);
        incidents := incidents + [open.value.(endedAt := Some(row.at), durationSec := d, active := false)];
        starts := starts + [current.value];
        open, current := None, None;
      } else if open.Some? {
        StaysOpen(rows, n, starts, incidents, current.value);
      } else {
        StaysClosed(rows, n, starts, incidents);
      }
    }
    if open.Some? {
      PushActive(rows, |rows|, starts, incidents, current.value);
      incidents, starts := incidents + [open.value], starts + [current.value];
    }
  }

  lemma NothingYet(rows: seq<Sample>)
    ensures Derived(rows, 0, [], [], None)
  {
  }

  // ----- the list shown: newest first, and capped -----

  function Recency(inc: Incident): real {
    -inc.startedAt as real
  }

  method AgentIncidents(rows: seq<Sample>, now: int, limit: int)
    returns (shown: seq<Incident>, ghost all: seq<Incident>, ghost starts: seq<nat>)
    ensures Derived(rows, |rows|, starts, all, None)
    ensures forall m :: 0 <= m < |all| && all[m].active ==> all[m].durationSec == Seconds(now - all[m].startedAt)
    ensures Grouped(rows) ==> Apart(all)
    ensures |shown| <= (if limit <= 0 || limit > 100 then 20 else limit)
    ensures |shown| < |all| ==> |shown| == if limit <= 0 || limit > 100 then 20 else limit
    ensures forall i, j :: 0 <= i < j < |shown| ==> shown[i].startedAt >= shown[j].startedAt
    ensures exists omitted: seq<Incident> :: multiset(all) == multiset(shown) + multiset(omitted) &&
              forall o, inc :: o in omitted && inc in shown ==> o.startedAt <= inc.startedAt
  {
    hide Derived, IncidentOf, Seconds, Sort, SortedBy, Grouped, Apart;
    var most := limit;
    if limit <= 0 || limit > 100 {
      most := 20;
    }
    var incidents;
    incidents, starts := DeriveIncidents(rows);
    for i := 0 to |incidents|
      invariant |incidents| == |starts| && i <= |incidents| && Derived(rows, |rows|, starts, incidents, None)
      invariant forall m :: 0 <= m < i && incidents[m].active ==>
        incidents[m].durationSec == Seconds(now - incidents[m].startedAt)
    {
      if incidents[i].active {
        var d := Seconds(now - incidents[i].startedAt);
        DurationFilledIn(rows, starts, incidents, i, d);
        incidents := incidents[i := incidents[i].(durationSec := d)];
      }
    }
    all := incidents;
    DerivedApart(rows, starts, all);
    SortSorts(all, Recency);
    incidents := Sort(incidents, Recency);
    shown := incidents;
    if |incidents| > most {
      shown := incidents[..most];
    }
    NewestShown(all, incidents, |shown|);
    assert shown == incidents[..|shown|];
  }

  /** The front of the sorted list is newer than what it leaves out. */
  lemma NewestShown(all: seq<Incident>, sorted: seq<Incident>, n: nat)
    requires multiset(all) == multiset(sorted) && SortedBy(sorted, Recency) && n <= |sorted|
    ensures forall i, j :: 0 <= i < j < n ==> sorted[..n][i].startedAt >= sorted[..n][j].startedAt
    ensures exists omitted: seq<Incident> :: multiset(all) == multiset(sorted[..n]) + multiset(omitted) &&
              forall o, inc :: o in omitted && inc in sorted[..n] ==> o.startedAt <= inc.startedAt
  {
    var shown, omitted := sorted[..n], sorted[n..];
    assert sorted == shown + omitted;
    assert forall i, j :: 0 <= i < j < |sorted| ==> Recency(sorted[i]) <= Recency(sorted[j]);
    forall o, inc | o in omitted && inc in shown
      ensures o.startedAt <= inc.startedAt
    {
      var i :| 0 <= i < n && shown[i] == inc;
      var j :| 0 <= j < |omitted| && omitted[j] == o;
      assert sorted[i] == inc && sorted[n + j] == o;
    }
  }

  lemma DurationFilledIn(rows: seq<Sample>, starts: seq<nat>, incidents: seq<Incident>, i: nat, d: int)
    requires Derived(rows, |rows|, starts, incidents, None)
    ensures |incidents| == |starts|
    ensures i < |incidents| && incidents[i].active ==>
      Derived(rows, |rows|, starts, incidents[i := incidents[i].(durationSec := d)], None)
  {
  }

  // ----- what the incidents of one service look like -----

  /** The order of the query: services are not mixed, and time does not fall. */
  ghost predicate Grouped(rows: seq<Sample>) {
    forall i, j :: 0 <= i < j < |rows| && rows[i].agent == rows[j].agent && rows[i].key == rows[j].key ==>
      OneService(rows, i, j) && rows[i].at <= rows[j].at
  }

  /** The samples from a to b are of one service, and lie between the two in time. */
  ghost predicate InOrder(rows: seq<Sample>, a: nat, b: nat) {
    a < b && OneService(rows, a, b) && forall k :: a <= k <= b ==> rows[a].at <= rows[k].at <= rows[b].at
  }

  lemma GroupedInOrder(rows: seq<Sample>, a: nat, b: nat)
    requires Grouped(rows) && a < b < |rows| && rows[a].agent == rows[b].agent && rows[a].key == rows[b].key
    ensures InOrder(rows, a, b)
  {
    assert OneService(rows, a, b);
  }

  lemma {:induction false} FirstHealthy(rows: seq<Sample>, i: nat, k: nat) returns (e: nat)
    requires i < k && OneService(rows, i, k) && rows[k].healthy == 1
    ensures Closes(rows, i, e) && e <= k
    decreases k
  {
    if NoneHealthy(rows, i, k) {
      e := k;
    } else {
      var h :| i < h < k && rows[h].healthy == 1;
      e := FirstHealthy(rows, i, h);
    }
  }

  /** Incidents of one service never overlap, and only its last one can be active. */
  ghost predicate Apart(incidents: seq<Incident>) {
    forall m, n :: 0 <= m < n < |incidents| ==>
      (incidents[m].agent == incidents[n].agent && incidents[m].key == incidents[n].key ==>
         EndsBy(incidents[m], incidents[n].startedAt))
  }

  ghost predicate EndsBy(inc: Incident, at: int) {
    !inc.active && inc.endedAt.Some? && inc.startedAt <= inc.endedAt.value <= at
  }

  /** Two runs of one service: the incident of the earlier is over when the other begins. */
  lemma NeverOverlap(rows: seq<Sample>, a: nat, b: nat, inc: Incident)
    requires InOrder(rows, a, b) && rows[a].healthy == 0 && Begins(rows, b) && IncidentOf(rows, a, inc)
    ensures EndsBy(inc, rows[b].at)
  {
    ClosedBefore(rows, a, b);
    hide Closes, Begins, Seconds;
  }

  lemma TwoDerived(rows: seq<Sample>, starts: seq<nat>, all: seq<Incident>, m: nat, n: nat)
    requires Derived(rows, |rows|, starts, all, None) && m < n < |all|
    ensures |starts| == |all| && starts[m] < starts[n] && Begins(rows, starts[m]) && Begins(rows, starts[n])
    ensures IncidentOf(rows, starts[m], all[m]) && IncidentOf(rows, starts[n], all[n])
    ensures rows[starts[m]].healthy == 0
  {
    hide Closes, NoneHealthy, OneService, IncidentOf;
    assert starts[m] in starts && starts[n] in starts;
  }

  lemma DerivedApart(rows: seq<Sample>, starts: seq<nat>, all: seq<Incident>)
    requires Derived(rows, |rows|, starts, all, None)
    ensures Grouped(rows) ==> Apart(all)
  {
    hide Derived, Grouped, Begins, IncidentOf, EndsBy;
    forall m, n | 0 <= m < n < |all| && all[m].agent == all[n].agent && all[m].key == all[n].key
      ensures Grouped(rows) ==> EndsBy(all[m], all[n].startedAt)
    {
      TwoDerived(rows, starts, all, m, n);
      OfOneService(rows, starts[m], all[m]);
      OfOneService(rows, starts[n], all[n]);
      if Grouped(rows) {
        GroupedInOrder(rows, starts[m], starts[n]);
        NeverOverlap(rows, starts[m], starts[n], all[m]);
      }
    }
  }

  lemma OfOneService(rows: seq<Sample>, i: nat, inc: Incident)
    requires IncidentOf(rows, i, inc)
    ensures i < |rows| && inc.agent == rows[i].agent && inc.key == rows[i].key && inc.startedAt == rows[i].at
  {
  }

  lemma ClosedBefore(rows: seq<Sample>, a: nat, b: nat)
    requires InOrder(rows, a, b) && rows[a].healthy == 0 && Begins(rows, b)
    ensures exists e: nat :: Closes(rows, a, e)
    ensures forall e: nat :: Closes(rows, a, e) ==> e < |rows| && rows[a].at <= rows[e].at <= rows[b].at
  {
    assert !NoneHealthy(rows, a, b);
    var k :| a < k < b && rows[k].healthy == 1;
    var first := FirstHealthy(rows, a, k);
    forall e: nat | Closes(rows, a, e)
      ensures rows[a].at <= rows[e].at <= rows[b].at
    {
      assert e <= k;
    }
  }

  /** Whether the sample i belongs to the run that begins at s. */
  ghost predicate InRun(rows: seq<Sample>, s: nat, i: nat) {
    OneService(rows, s, i) && NoneHealthy(rows, s, i)
  }

  /** Every unhealthy sample is in the run of exactly one incident. */
  lemma EachUnhealthyOnce(rows: seq<Sample>, starts: seq<nat>, all: seq<Incident>, i: nat) returns (m: nat)
    requires Derived(rows, |rows|, starts, all, None) && i < |rows| && rows[i].healthy == 0
    ensures m < |starts| && InRun(rows, starts[m], i)
    ensures forall n: nat :: n < |starts| && InRun(rows, starts[n], i) ==> n == m
  {
    var s := RunStart(rows, i);
    assert s in starts;
    m :| 0 <= m < |starts| && starts[m] == s;
    forall n: nat | n < |starts| && InRun(rows, starts[n], i)
      ensures n == m
    {
      assert starts[n] in starts;
      OneRun(rows, starts[m], starts[n], i);
    }
  }

  lemma {:induction false} RunStart(rows: seq<Sample>, i: nat) returns (s: nat)
    requires i < |rows| && rows[i].healthy == 0
    ensures Begins(rows, s) && InRun(rows, s, i)
  {
    if Begins(rows, i) {
      s := i;
    } else {
      var j: nat :| j < i && OneService(rows, j, i) && rows[j].healthy == 0 && NoneHealthy(rows, j, i);
      s := RunStart(rows, j);
    }
  }

  lemma OneRun(rows: seq<Sample>, s: nat, t: nat, i: nat)
    requires Begins(rows, s) && Begins(rows, t) && InRun(rows, s, i) && InRun(rows, t, i)
    ensures s == t
  {
  }
}
