/**
  The threshold alert evaluator: for every (rule, host) key a breach counter, the
  time of the last alert for its cooldown, and a flag for the recovery message.
  Step is one sample for one key.  The class keeps three maps as the evaluator
  does, and a table of the states saved so far.
 */
module Alerts {
  import opened Options

  const SECOND: int := 1_000_000_000

  datatype Operator = GT | GTE | LT | LTE | EQ | Unknown

  datatype Metric = CPU | Memory | Disk | OtherMetric

  datatype SystemMetric = SystemMetric(cpuUsage: real, memUsage: real, diskUsage: real)

  datatype Rule = Rule(id: string, metric: Metric, operator: Operator, threshold: real, duration: int, cooldown: int)

  function ExtractMetricValue(metric: Metric, m: SystemMetric): real {
    match metric
    case CPU => m.cpuUsage
    case Memory => m.memUsage
    case Disk => m.diskUsage
    case OtherMetric => 0.0
  }

  predicate CompareValue(value: real, operator: Operator, threshold: real) {
    match operator
    case GT => value > threshold
    case GTE => value >= threshold
    case LT => value < threshold
    case LTE => value <= threshold
    case EQ => value == threshold
    case Unknown => value > threshold
  }

  /** How many samples, one each collect interval of seconds, fit into a duration
      of minutes; at least one. */
  function RequiredCount(duration: int, collectInterval: int): (r: int)
    requires 0 < collectInterval
    ensures 1 <= r && duration * 60 < (r + 1) * collectInterval
    ensures 1 < r ==> r * collectInterval <= duration * 60
  {
    var count := duration * 60 / collectInterval;
    if count < 1 then 1 else count
  }

  /** The two strict operators fail at the threshold, the other three hold there.
      A breach from above stays one when the value rises, a breach from below when
      it falls.  GT is what LTE is not and LT what GTE is not; EQ is GTE and LTE
      together, for one value alone, and an unknown operator is GT. */
  lemma CompareMeans(v: real, w: real, t: real)
    requires v <= w
    ensures CompareValue(v, GT, t) ==> CompareValue(w, GT, t)
    ensures CompareValue(v, GTE, t) ==> CompareValue(w, GTE, t)
    ensures CompareValue(w, LT, t) ==> CompareValue(v, LT, t)
    ensures CompareValue(w, LTE, t) ==> CompareValue(v, LTE, t)
    ensures !CompareValue(t, GT, t) && !CompareValue(t, LT, t)
    ensures CompareValue(t, GTE, t) && CompareValue(t, LTE, t) && CompareValue(t, EQ, t)
    ensures CompareValue(v, GT, t) <==> !CompareValue(v, LTE, t)
    ensures CompareValue(v, LT, t) <==> !CompareValue(v, GTE, t)
    ensures CompareValue(v, EQ, t) <==> CompareValue(v, GTE, t) && CompareValue(v, LTE, t)
    ensures CompareValue(v, EQ, t) && CompareValue(w, EQ, t) ==> v == w
    ensures CompareValue(v, Unknown, t) <==> CompareValue(v, GT, t)
  {
  }

  /** A metric reads the usage of its own name, whatever the others are; one of
      another name reads zero. */
  lemma MetricRead(m: SystemMetric, v: real)
    ensures ExtractMetricValue(CPU, m.(cpuUsage := v)) == v
    ensures ExtractMetricValue(Memory, m.(memUsage := v)) == v
    ensures ExtractMetricValue(Disk, m.(diskUsage := v)) == v
    ensures ExtractMetricValue(OtherMetric, m) == 0.0
  {
  }

  // ----- one key, one sample -----

  datatype KeyState = KeyState(count: int, last: Option<int>, alerting: bool)

  const NEVER_SEEN := KeyState(0, None, false)

  /** How many breached samples an alert takes, and the nanoseconds between two. */
  datatype Settings = Settings(required: int, cooldown: int)

  /** The clock is read for the cooldown check, and again for the alert time. */
  datatype Sample = Sample(breached: bool, checked: int, stamped: int)

  datatype Outcome = Quiet | Alert | Recovery

  datatype Result = Result(state: KeyState, outcome: Outcome, saves: bool)

  predicate InCooldown(s: Settings, last: Option<int>, now: int) {
    last.Some? && now - last.value < s.cooldown
  }

  function Step(s: Settings, st: KeyState, x: Sample): Result {
    var cooling := InCooldown(s, st.last, x.checked);
    if x.breached then
      var counted := st.(count := st.count + 1);
      if counted.count < s.required then Result(counted, Quiet, true)
      else if cooling then Result(counted, Quiet, false)
      else Result(counted.(last := Some(x.stamped), alerting := true), Alert, true)
    else
      Result(KeyState(if cooling then st.count else 0, st.last, false), if st.alerting then Recovery else Quiet, true)
  }

  // ----- the evaluator -----

  datatype Row = Row(key: string, state: KeyState)

  class RuleEvaluator {
    const collectInterval: int
    var breachCounts: map<string, int>
    var lastAlerted: map<string, int>
    var wasAlerting: map<string, bool>
    /** The table of saved states; a save completes before the next sample. */
    var saved: map<string, KeyState>

    /** A start: the table's rows, one a key, become the memory. */
    constructor (collectInterval: int, rows: seq<Row>)
      requires Distinct(rows)
      ensures Valid() && this.collectInterval == if collectInterval <= 0 then 5 else collectInterval
      ensures saved.Keys == Keys(rows) && forall i :: 0 <= i < |rows| ==> saved[rows[i].key] == rows[i].state
      ensures forall key :: At(key) == SavedAt(key)
    {
      this.collectInterval := if collectInterval <= 0 then 5 else collectInterval;
      breachCounts, lastAlerted, wasAlerting := map[], map[], map[];
      saved := map i | 0 <= i < |rows| :: rows[i].key := rows[i].state;
      new;
      LoadState(rows);
    }

    ghost predicate Valid()
      reads this
    {
      0 < collectInterval
    }

    static predicate Distinct(rows: seq<Row>) {
      forall i, j :: 0 <= i < j < |rows| ==> rows[i].key != rows[j].key
    }

    static function Keys(rows: seq<Row>): set<string> {
      set i | 0 <= i < |rows| :: rows[i].key
    }

    /** The state the three maps hold for a key; Go's zero values stand in for
        what is absent. */
    function At(key: string): KeyState
      reads this
    {
      KeyState(
        if key in breachCounts then breachCounts[key] else 0,
        if key in lastAlerted then Some(lastAlerted[key]) else None,
        key in wasAlerting && wasAlerting[key])
    }

    function SavedAt(key: string): KeyState
      reads this
    {
      if key in saved then saved[key] else NEVER_SEEN
    }

    static function RuleKey(ruleId: string, hostId: string): string {
      ruleId + ":" + hostId
    }

    function SettingsOf(rule: Rule): Settings
      requires 0 < collectInterval
    {
      Settings(RequiredCount(rule.duration, collectInterval), rule.cooldown * SECOND)
    }

    /** One rule against one metric: exactly Step on the state of its key, with no
        effect on any other key. */
    method EvaluateRule(rule: Rule, hostId: string, metric: SystemMetric, checked: int,
        stamped: int) returns (outcome: Outcome)
      requires Valid()
      modifies this
      ensures Valid()
      ensures
        var key := RuleKey(rule.id, hostId);
        var breached := CompareValue(ExtractMetricValue(rule.metric, metric), rule.operator, rule.threshold);
        var result := Step(SettingsOf(rule), old(At(key)), Sample(breached, checked, stamped));
        && At(key) == result.state && outcome == result.outcome
        && saved == (if result.saves then old(saved)[key := result.state] else old(saved))
        && forall k :: k != key ==> At(k) == old(At(k))
    {
      var value := ExtractMetricValue(rule.metric, metric);
      var breached := CompareValue(value, rule.operator, rule.threshold);
      var key := RuleKey(rule.id, hostId);
      outcome := Quiet;
      if breached {
        breachCounts := breachCounts[key := (if key in breachCounts then breachCounts[key] else 0) + 1];
        var requiredCount := rule.duration * 60 / collectInterval;
        if requiredCount < 1 {
          requiredCount := 1;
        }
        if breachCounts[key] >= requiredCount {
          if key in lastAlerted {
            if checked - lastAlerted[key] < rule.cooldown * SECOND {
              return;
            }
          }
          lastAlerted := lastAlerted[key := stamped];
          wasAlerting := wasAlerting[key := true];
          outcome := Alert;
        }
      } else {
        if key in wasAlerting && wasAlerting[key] {
          wasAlerting := wasAlerting[key := false];
          outcome := Recovery;
        }
        var inCooldown := false;
        if key in lastAlerted {
          inCooldown := checked - lastAlerted[key] < rule.cooldown * SECOND;
        }
        if !inCooldown {
          breachCounts := breachCounts[key := 0];
        }
      }
      SaveState(key);
    }

    method SaveState(key: string)
      modifies this`saved
      ensures saved == old(saved)[key := At(key)]
    {
      saved := saved[key := At(key)];
    }

    /** The rows of the table, loaded into the maps on startup. */
    method LoadState(rows: seq<Row>)
      requires breachCounts == map[] && lastAlerted == map[] && wasAlerting == map[] && Distinct(rows)
      modifies this`breachCounts, this`lastAlerted, this`wasAlerting
      ensures forall i :: 0 <= i < |rows| ==> At(rows[i].key) == rows[i].state
      ensures forall key :: key !in Keys(rows) ==> At(key) == NEVER_SEEN
    {
      for n := 0 to |rows|
        invariant forall key :: At(key) == Loaded(rows, n, key)
      {
        NotLoadedYet(rows, n, n);
        var key, state := rows[n].key, rows[n].state;
        breachCounts := breachCounts[key := state.count];
        if state.last.Some? {
          lastAlerted := lastAlerted[key := state.last.value];
        }
        wasAlerting := wasAlerting[key := state.alerting];
      }
      LoadedAll(rows);
    }

    /** The rows a query over the table returns, in some order. */
    method SavedRows() returns (rows: seq<Row>)
      ensures Distinct(rows) && Keys(rows) == saved.Keys
      ensures forall i :: 0 <= i < |rows| ==> rows[i].key in saved && rows[i].state == saved[rows[i].key]
    {
      rows := [];
      var left := saved.Keys;
      while left != {}
        invariant left <= saved.Keys
        invariant forall i :: 0 <= i < |rows| ==>
          rows[i].key in saved.Keys - left && rows[i].state == saved[rows[i].key]
        invariant Distinct(rows) && forall key :: key in saved.Keys - left ==> key in Keys(rows)
        decreases left
      {
        var key :| key in left;
        assert key !in Keys(rows);
        KeysMore(rows, Row(key, saved[key]));
        rows := rows + [Row(key, saved[key])];
        left := left - {key};
      }
    }

    static lemma KeysMore(rows: seq<Row>, row: Row)
      ensures Keys(rows + [row]) == Keys(rows) + {row.key}
      ensures Distinct(rows) && row.key !in Keys(rows) ==> Distinct(rows + [row])
    {
      var all := rows + [row];
      assert all[|rows|] == row && forall i :: 0 <= i < |rows| ==> all[i] == rows[i];
    }

    /** The process is gone, and with it the maps; the table is loaded again. */
    method Restart()
      modifies this`breachCounts, this`lastAlerted, this`wasAlerting
      ensures forall key :: At(key) == SavedAt(key)
    {
      breachCounts, lastAlerted, wasAlerting := map[], map[], map[];
      var rows := SavedRows();
      LoadState(rows);
      forall key
        ensures At(key) == SavedAt(key)
      {
        assert key in Keys(rows) <==> key in saved;
      }
    }

    /** Any number of rules on any number of hosts, with restarts in between: for
        each key the outcomes are those of an evaluator that never stopped.  A rule
        keeps its duration and cooldown. */
    method Serve(events: seq<Event>, ghost settings: string -> Settings) returns (outcomes: seq<Outcome>)
      requires Valid() && forall key :: Similar(settings(key), At(key), SavedAt(key))
      requires forall i :: 0 <= i < |events| && events[i].Evaluate? ==>
        SettingsOf(events[i].rule) == settings(RuleKey(events[i].rule.id, events[i].hostId))
      modifies this
      ensures Valid() && |outcomes| == |events|
      ensures forall key ::
        OutcomesOf(events, outcomes, key) == Outcomes(settings(key), old(At(key)), SamplesOf(events, key))
    {
      hide Follows, Step, SamplesOf, OutcomesOf, Similar, Concerns, CompareValue, ExtractMetricValue;
      outcomes := [];
      forall key
        ensures Follows(settings(key), old(At(key)), [], [], key, At(key), SavedAt(key))
      {
        FollowsBegins(settings(key), key, At(key), SavedAt(key));
      }
      for n := 0 to |events|
        invariant Valid() && |outcomes| == n
        invariant forall key :: Follows(settings(key), old(At(key)), events[..n], outcomes, key, At(key), SavedAt(key))
      {
        assert events[..n + 1] == events[..n] + [events[n]];
        forall key
          ensures FollowsOn(settings(key), old(At(key)), events[..n], outcomes, key, At(key), SavedAt(key), events[n])
        {
          FollowsNext(settings(key), old(At(key)), events[..n], outcomes, key, At(key), SavedAt(key), events[n]);
        }
        var outcome := Quiet;
        match events[n] {
          case Evaluate(rule, hostId, metric, checked, stamped) =>
            ConcernsOne(events[n]);
            outcome := EvaluateRule(rule, hostId, metric, checked, stamped);
          case Crash =>
            ConcernsNone();
            Restart();
        }
        outcomes := outcomes + [outcome];
      }
      assert events[..|events|] == events;
      forall key
        ensures OutcomesOf(events, outcomes, key) == Outcomes(settings(key), old(At(key)), SamplesOf(events, key))
      {
        FollowsMeans(settings(key), old(At(key)), events, outcomes, key, At(key), SavedAt(key));
      }
    }

    /** The state of a key after n rows. */
    static ghost function Loaded(rows: seq<Row>, n: nat, key: string): KeyState
      requires n <= |rows|
    {
      if n == 0 then NEVER_SEEN
      else if rows[n - 1].key == key then rows[n - 1].state
      else Loaded(rows, n - 1, key)
    }

    static lemma {:induction false} NotLoadedYet(rows: seq<Row>, n: nat, m: nat)
      requires n <= m < |rows| && Distinct(rows)
      ensures Loaded(rows, n, rows[m].key) == NEVER_SEEN
    {
      if 0 < n {
        NotLoadedYet(rows, n - 1, m);
      }
    }

    static lemma LoadedAll(rows: seq<Row>)
      requires Distinct(rows)
      ensures forall i :: 0 <= i < |rows| ==> Loaded(rows, |rows|, rows[i].key) == rows[i].state
      ensures forall key :: key !in Keys(rows) ==> Loaded(rows, |rows|, key) == NEVER_SEEN
    {
      forall key
        ensures forall i :: 0 <= i < |rows| && rows[i].key == key ==> Loaded(rows, |rows|, key) == rows[i].state
        ensures key !in Keys(rows) ==> Loaded(rows, |rows|, key) == NEVER_SEEN
      {
        LoadedIs(rows, |rows|, key);
      }
    }

    static lemma {:induction false} LoadedIs(rows: seq<Row>, n: nat, key: string)
      requires n <= |rows| && Distinct(rows)
      ensures forall i :: 0 <= i < n && rows[i].key == key ==> Loaded(rows, n, key) == rows[i].state
      ensures (forall i :: 0 <= i < n ==> rows[i].key != key) ==> Loaded(rows, n, key) == NEVER_SEEN
    {
      if 0 < n {
        LoadedIs(rows, n - 1, key);
      }
    }
  }

  /** Rules whose ids hold no colon never share a key, whatever the hosts. */
  lemma {:induction false} KeysApart(rule: string, host: string, rule2: string, host2: string)
    requires ':' !in rule && ':' !in rule2
    ensures RuleEvaluator.RuleKey(rule, host) == RuleEvaluator.RuleKey(rule2, host2) <==> rule == rule2 && host == host2
  {
    var a, b := RuleEvaluator.RuleKey(rule, host), RuleEvaluator.RuleKey(rule2, host2);
    assert a[|rule|] == ':' && b[|rule2|] == ':';
    assert a[..|rule|] == rule && b[..|rule2|] == rule2;
    assert a[|rule| + 1..] == host && b[|rule2| + 1..] == host2;
    if |rule| < |rule2| {
      assert b[|rule|] == rule2[|rule|];
    } else if |rule2| < |rule| {
      assert a[|rule2|] == rule[|rule2|];
    }
  }

  // ----- restarts -----

  datatype Action = Observe(sample: Sample) | Restart

  /** The outcomes of an evaluator that is restarted from its saved state. */
  ghost function Served(s: Settings, memory: KeyState, saved: KeyState, actions: seq<Action>): seq<Outcome>
    decreases |actions|
  {
    if actions == [] then []
    else match actions[0]
      case Restart => Served(s, saved, saved, actions[1..])
      case Observe(x) =>
        var r := Step(s, memory, x);
        [r.outcome] + Served(s, r.state, if r.saves then r.state else saved, actions[1..])
  }

  ghost function Samples(actions: seq<Action>): seq<Sample> {
    if actions == [] then []
    else match actions[0]
      case Restart => Samples(actions[1..])
      case Observe(x) => [x] + Samples(actions[1..])
  }

  /** The outcomes of an evaluator that never stops. */
  ghost function Outcomes(s: Settings, st: KeyState, samples: seq<Sample>): (o: seq<Outcome>)
    ensures |o| == |samples|
    decreases |samples|
  {
    if samples == [] then []
    else
      var r := Step(s, st, samples[0]);
      [r.outcome] + Outcomes(s, r.state, samples[1..])
  }

  /** The saved count may lag behind, but only where one more breach reaches the
      required count on both sides. */
  ghost predicate Similar(s: Settings, a: KeyState, b: KeyState) {
    && a.last == b.last && a.alerting == b.alerting
    && (a.count == b.count || (s.required - 1 <= a.count && s.required - 1 <= b.count))
  }

  lemma StepSimilar(s: Settings, a: KeyState, b: KeyState, x: Sample)
    requires Similar(s, a, b)
    ensures
      var p, q := Step(s, a, x), Step(s, b, x);
      && p.outcome == q.outcome && p.saves == q.saves
      && Similar(s, p.state, q.state)
      && (!p.saves ==> Similar(s, p.state, b) && Similar(s, q.state, a))
  {
  }

  /** A restart is not observable: wherever restarts fall, the alerts and
      recoveries on every sample are those of an evaluator that never stopped,
      although one branch skips the save.  No assumption on the clock. */
  lemma {:induction false} RestartUnobservable(s: Settings, never: KeyState, memory: KeyState, saved: KeyState,
      actions: seq<Action>)
    requires Similar(s, never, memory) && Similar(s, never, saved)
    ensures Served(s, memory, saved, actions) == Outcomes(s, never, Samples(actions))
    decreases |actions|
  {
    if actions != [] {
      match actions[0]
      case Restart =>
        RestartUnobservable(s, never, saved, saved, actions[1..]);
      case Observe(x) =>
        StepSimilar(s, never, memory, x);
        StepSimilar(s, never, saved, x);
        var n, m := Step(s, never, x), Step(s, memory, x);
        RestartUnobservable(s, n.state, m.state, if m.saves then m.state else saved, actions[1..]);
        assert Samples(actions)[0] == x && Samples(actions)[1..] == Samples(actions[1..]);
    }
  }

  // ----- all keys together -----

  datatype Event =
    | Evaluate(rule: Rule, hostId: string, metric: SystemMetric, checked: int, stamped: int)
    | Crash

  predicate Concerns(e: Event, key: string) {
    e.Evaluate? && RuleEvaluator.RuleKey(e.rule.id, e.hostId) == key
  }

  function SampleOf(e: Event): Sample
    requires e.Evaluate?
  {
    Sample(CompareValue(ExtractMetricValue(e.rule.metric, e.metric), e.rule.operator, e.rule.threshold),
               e.checked, e.stamped)
  }

  /** The samples one key is given, and the outcomes on them. */
  ghost function SamplesOf(events: seq<Event>, key: string): seq<Sample> {
    if events == [] then []
    else
      var last := events[|events| - 1];
      SamplesOf(events[..|events| - 1], key) + if Concerns(last, key) then [SampleOf(last)] else []
  }

  ghost function OutcomesOf(events: seq<Event>, outcomes: seq<Outcome>, key: string): seq<Outcome>
    requires |events| == |outcomes|
  {
    if events == [] then []
    else
      var n := |events| - 1;
      OutcomesOf(events[..n], outcomes[..n], key) + if Concerns(events[n], key) then [outcomes[n]] else []
  }

  ghost function StateFrom(s: Settings, st: KeyState, samples: seq<Sample>): KeyState
    decreases |samples|
  {
    if samples == [] then st else StateFrom(s, Step(s, st, samples[0]).state, samples[1..])
  }

  lemma {:induction false} OutcomesMore(s: Settings, st: KeyState, xs: seq<Sample>, x: Sample)
    ensures
      var r := Step(s, StateFrom(s, st, xs), x);
      Outcomes(s, st, xs + [x]) == Outcomes(s, st, xs) + [r.outcome] && StateFrom(s, st, xs + [x]) == r.state
    decreases |xs|
  {
    hide Step;
    var all := xs + [x];
    if xs == [] {
      assert all == [x] && all[1..] == [];
    } else {
      OutcomesMore(s, Step(s, st, xs[0]).state, xs[1..], x);
      assert all[0] == xs[0] && all[1..] == xs[1..] + [x];
    }
  }

  /** What a key has seen so far: the outcomes of an evaluator that never stopped,
      and a memory and a saved row that answer as it would. */
  ghost predicate Follows(s: Settings, begun: KeyState, events: seq<Event>, outcomes: seq<Outcome>, key: string,
      memory: KeyState, saved: KeyState) {
    |events| == |outcomes| &&
    OutcomesOf(events, outcomes, key) == Outcomes(s, begun, SamplesOf(events, key)) &&
    Similar(s, StateFrom(s, begun, SamplesOf(events, key)), memory) &&
    Similar(s, StateFrom(s, begun, SamplesOf(events, key)), saved)
  }

  /** What the next event has to do to the key for it to follow on. */
  ghost predicate FollowsOn(s: Settings, begun: KeyState, events: seq<Event>, outcomes: seq<Outcome>, key: string,
      memory: KeyState, saved: KeyState, e: Event) {
    if Concerns(e, key) then
      var r := Step(s, memory, SampleOf(e));
      Follows(s, begun, events + [e], outcomes + [r.outcome], key, r.state, if r.saves then r.state else saved)
    else
      forall o: Outcome, now :: now == memory || now == saved ==>
        Follows(s, begun, events + [e], outcomes + [o], key, now, saved)
  }

  lemma ConcernsOne(e: Event)
    requires e.Evaluate?
    ensures forall key :: Concerns(e, key) <==> key == RuleEvaluator.RuleKey(e.rule.id, e.hostId)
  {
  }

  lemma ConcernsNone()
    ensures forall key :: !Concerns(Crash, key)
  {
  }

  lemma FollowsBegins(s: Settings, key: string, memory: KeyState, saved: KeyState)
    requires Similar(s, memory, saved)
    ensures Follows(s, memory, [], [], key, memory, saved)
  {
  }

  lemma FollowsMeans(s: Settings, begun: KeyState, events: seq<Event>, outcomes: seq<Outcome>, key: string,
      memory: KeyState, saved: KeyState)
    requires Follows(s, begun, events, outcomes, key, memory, saved)
    ensures |events| == |outcomes|
    ensures OutcomesOf(events, outcomes, key) == Outcomes(s, begun, SamplesOf(events, key))
  {
  }

  lemma EventsMore(events: seq<Event>, outcomes: seq<Outcome>, key: string, e: Event, o: Outcome)
    requires |events| == |outcomes|
    ensures SamplesOf(events + [e], key) ==
      if Concerns(e, key) then SamplesOf(events, key) + [SampleOf(e)] else SamplesOf(events, key)
    ensures OutcomesOf(events + [e], outcomes + [o], key) ==
      if Concerns(e, key) then OutcomesOf(events, outcomes, key) + [o] else OutcomesOf(events, outcomes, key)
  {
    hide SampleOf;
    assert (events + [e])[..|events|] == events && (outcomes + [o])[..|events|] == outcomes;
  }

  lemma FollowsNext(s: Settings, begun: KeyState, events: seq<Event>, outcomes: seq<Outcome>, key: string,
      memory: KeyState, saved: KeyState, e: Event)
    requires Follows(s, begun, events, outcomes, key, memory, saved)
    ensures FollowsOn(s, begun, events, outcomes, key, memory, saved, e)
  {
    hide Step, SampleOf, Similar, SamplesOf, OutcomesOf, Outcomes;
    forall o
      ensures !Concerns(e, key) ==>
        OutcomesOf(events + [e], outcomes + [o], key) == OutcomesOf(events, outcomes, key) &&
        SamplesOf(events + [e], key) == SamplesOf(events, key)
    {
      EventsMore(events, outcomes, key, e, o);
    }
    if Concerns(e, key) {
      var never, x := StateFrom(s, begun, SamplesOf(events, key)), SampleOf(e);
      StepSimilar(s, never, memory, x);
      StepSimilar(s, never, saved, x);
      OutcomesMore(s, begun, SamplesOf(events, key), x);
      EventsMore(events, outcomes, key, e, Step(s, memory, x).outcome);
    }
  }

  // ----- runs of one key from the start -----

  ghost function StateAfter(s: Settings, xs: seq<Sample>): KeyState {
    if xs == [] then NEVER_SEEN
    else Step(s, StateAfter(s, xs[..|xs| - 1]), xs[|xs| - 1]).state
  }

  ghost function OutcomeAt(s: Settings, xs: seq<Sample>, k: nat): Outcome
    requires k < |xs|
  {
    Step(s, StateAfter(s, xs[..k]), xs[k]).outcome
  }

  lemma StateAfterStep(s: Settings, xs: seq<Sample>, k: nat)
    requires k < |xs|
    ensures StateAfter(s, xs[..k + 1]) == Step(s, StateAfter(s, xs[..k]), xs[k]).state
  {
    assert xs[..k + 1][..k] == xs[..k];
  }

  /** The two ways of running a sequence of samples agree. */
  lemma {:induction false} OutcomesAt(s: Settings, xs: seq<Sample>, k: nat)
    requires k <= |xs|
    ensures Outcomes(s, NEVER_SEEN, xs)[k..] == Outcomes(s, StateAfter(s, xs[..k]), xs[k..])
    ensures k < |xs| ==> Outcomes(s, NEVER_SEEN, xs)[k] == OutcomeAt(s, xs, k)
    decreases k
  {
    if k == 0 {
      assert xs[0..] == xs;
    } else {
      OutcomesAt(s, xs, k - 1);
      StateAfterStep(s, xs, k - 1);
      assert xs[k - 1..][1..] == xs[k..];
      assert Outcomes(s, NEVER_SEEN, xs)[k - 1..][1..] == Outcomes(s, NEVER_SEEN, xs)[k..];
    }
    if k < |xs| {
      assert Outcomes(s, NEVER_SEEN, xs)[k] == Outcomes(s, NEVER_SEEN, xs)[k..][0];
    }
  }

  /** The clock never runs backwards. */
  ghost predicate Clock(xs: seq<Sample>) {
    && (forall i :: 0 <= i < |xs| ==> xs[i].checked <= xs[i].stamped)
    && (forall i, j :: 0 <= i < j < |xs| ==> xs[i].stamped <= xs[j].checked)
  }

  lemma {:induction false} LastCoversAlerts(s: Settings, xs: seq<Sample>, i: nat, k: nat)
    requires Clock(xs) && i < k <= |xs| && OutcomeAt(s, xs, i) == Alert
    ensures StateAfter(s, xs[..k]).last.Some? && xs[i].stamped <= StateAfter(s, xs[..k]).last.value
    decreases k
  {
    StateAfterStep(s, xs, k - 1);
    if i < k - 1 {
      LastCoversAlerts(s, xs, i, k - 1);
    }
  }

  /** Two alerts of one key are at least a cooldown apart. */
  lemma CooldownApart(s: Settings, xs: seq<Sample>, i: nat, j: nat)
    requires Clock(xs) && i < j < |xs|
    requires OutcomeAt(s, xs, i) == Alert && OutcomeAt(s, xs, j) == Alert
    ensures s.cooldown <= xs[j].checked - xs[i].stamped
  {
    LastCoversAlerts(s, xs, i, j);
  }

  /** The last alert or recovery among the first k samples. */
  ghost function LastNotification(s: Settings, xs: seq<Sample>, k: nat): Outcome
    requires k <= |xs|
  {
    if k == 0 then Quiet
    else if OutcomeAt(s, xs, k - 1) != Quiet then OutcomeAt(s, xs, k - 1)
    else LastNotification(s, xs, k - 1)
  }

  /** The flag says whether the last notification was an alert; so a recovery is
      sent only after an alert that no other recovery has answered. */
  lemma {:induction false} AlertingMeans(s: Settings, xs: seq<Sample>, k: nat)
    requires k <= |xs|
    ensures StateAfter(s, xs[..k]).alerting <==> LastNotification(s, xs, k) == Alert
    ensures k < |xs| && OutcomeAt(s, xs, k) == Recovery ==> LastNotification(s, xs, k) == Alert
    ensures k < |xs| && !xs[k].breached && LastNotification(s, xs, k) == Alert ==> OutcomeAt(s, xs, k) == Recovery
  {
    if k != 0 {
      AlertingMeans(s, xs, k - 1);
      StateAfterStep(s, xs, k - 1);
    }
  }

  /** When the last alert among the first k samples was sent. */
  ghost function LastAlertTime(s: Settings, xs: seq<Sample>, k: nat): Option<int>
    requires k <= |xs|
  {
    if k == 0 then None
    else if OutcomeAt(s, xs, k - 1) == Alert then Some(xs[k - 1].stamped)
    else LastAlertTime(s, xs, k - 1)
  }

  /** The sample falls inside the cooldown of the last alert before it. */
  ghost predicate Cooling(s: Settings, xs: seq<Sample>, k: nat)
    requires k < |xs|
  {
    InCooldown(s, LastAlertTime(s, xs, k), xs[k].checked)
  }

  /** The index behind the last healthy sample outside a cooldown. */
  ghost function ResetPoint(s: Settings, xs: seq<Sample>, k: nat): (r: nat)
    requires k <= |xs|
    ensures r <= k
    ensures forall i :: r <= i < k && !xs[i].breached ==> Cooling(s, xs, i)
    ensures r != 0 ==> !xs[r - 1].breached && !Cooling(s, xs, r - 1)
  {
    if k == 0 then 0
    else if !xs[k - 1].breached && !Cooling(s, xs, k - 1) then k
    else ResetPoint(s, xs, k - 1)
  }

  ghost function Breaches(xs: seq<Sample>, from: nat, k: nat): nat
    requires from <= k <= |xs|
  {
    if k == from then 0 else Breaches(xs, from, k - 1) + if xs[k - 1].breached then 1 else 0
  }

  /** The remembered time is that of the last alert. */
  lemma {:induction false} LastMeans(s: Settings, xs: seq<Sample>, k: nat)
    requires k <= |xs|
    ensures StateAfter(s, xs[..k]).last == LastAlertTime(s, xs, k)
  {
    if k != 0 {
      LastMeans(s, xs, k - 1);
      StateAfterStep(s, xs, k - 1);
    }
  }

  /** The counter counts the breached samples since the last healthy one outside a
      cooldown. */
  lemma {:induction false} CountMeans(s: Settings, xs: seq<Sample>, k: nat)
    requires k <= |xs|
    ensures StateAfter(s, xs[..k]).count == Breaches(xs, ResetPoint(s, xs, k), k)
  {
    hide LastAlertTime;
    if k != 0 {
      CountMeans(s, xs, k - 1);
      LastMeans(s, xs, k - 1);
      StateAfterStep(s, xs, k - 1);
    }
  }

  /** Exactly when an alert is sent. */
  lemma AlertExactly(s: Settings, xs: seq<Sample>, k: nat)
    requires k < |xs|
    ensures OutcomeAt(s, xs, k) == Alert <==>
      xs[k].breached && !Cooling(s, xs, k) && s.required <= Breaches(xs, ResetPoint(s, xs, k + 1), k + 1)
  {
    LastMeans(s, xs, k);
    CountMeans(s, xs, k);
  }

  /** The breached samples in an unbroken row before index k. */
  ghost function Consecutive(xs: seq<Sample>, k: nat): nat
    requires k <= |xs|
  {
    if k == 0 || !xs[k - 1].breached then 0 else Consecutive(xs, k - 1) + 1
  }

  /** The counter is the length of the unbroken row exactly when, since the reset,
      no healthy sample has followed a breached one (inside a cooldown). */
  lemma {:induction false} CountIsConsecutive(s: Settings, xs: seq<Sample>, from: nat, k: nat)
    requires from <= k <= |xs| && (from == 0 || !xs[from - 1].breached)
    ensures Consecutive(xs, k) <= Breaches(xs, from, k)
    ensures Breaches(xs, from, k) == Consecutive(xs, k) <==>
      !exists i, j :: from <= i < j < k && xs[i].breached && !xs[j].breached
    ensures Breaches(xs, from, k) == 0 <==> forall i :: from <= i < k ==> !xs[i].breached
    decreases k
  {
    if from < k {
      CountIsConsecutive(s, xs, from, k - 1);
    }
  }

  /** The first alert fires exactly when the unbroken row of breached samples
      reaches the required count. */
  lemma {:induction false} FirstAlert(s: Settings, xs: seq<Sample>, k: nat)
    requires k < |xs| && 1 <= s.required
    requires forall i :: 0 <= i < k ==> OutcomeAt(s, xs, i) != Alert
    ensures OutcomeAt(s, xs, k) == Alert <==> Consecutive(xs, k + 1) == s.required
    ensures Consecutive(xs, k) < s.required
    decreases k
  {
    if 0 < k {
      FirstAlert(s, xs, k - 1);
    }
    NoAlertNoCooldown(s, xs, k);
    AlertExactly(s, xs, k);
    var from := ResetPoint(s, xs, k + 1);
    CountIsConsecutive(s, xs, from, k + 1);
  }

  lemma {:induction false} NoAlertNoCooldown(s: Settings, xs: seq<Sample>, k: nat)
    requires k <= |xs| && forall i :: 0 <= i < k ==> OutcomeAt(s, xs, i) != Alert
    ensures forall i :: 0 <= i <= k ==> LastAlertTime(s, xs, i) == None
  {
    if 0 < k {
      NoAlertNoCooldown(s, xs, k - 1);
    }
  }

  /** Longer rows of breaches: where one series of samples is breached, so is the other. */
  lemma {:induction false} ConsecutiveGrows(xs: seq<Sample>, ys: seq<Sample>, k: nat)
    requires k <= |xs| == |ys| && forall i :: 0 <= i < k && xs[i].breached ==> ys[i].breached
    ensures Consecutive(xs, k) <= Consecutive(ys, k)
  {
    if k != 0 {
      ConsecutiveGrows(xs, ys, k - 1);
    }
  }

  /** More breaches bring the first alert forward, never back. */
  lemma MoreBreachesAlertNoLater(s: Settings, xs: seq<Sample>, ys: seq<Sample>, k: nat)
    requires 1 <= s.required && k < |xs| == |ys|
    requires forall i :: 0 <= i <= k && xs[i].breached ==> ys[i].breached
    requires OutcomeAt(s, xs, k) == Alert
    ensures exists i :: 0 <= i <= k && OutcomeAt(s, ys, i) == Alert
  {
    hide OutcomeAt, Consecutive;
    var first := FirstAlertBy(s, xs, k);
    if forall i :: 0 <= i <= k ==> OutcomeAt(s, ys, i) != Alert {
      FirstAlert(s, xs, first);
      FirstAlert(s, ys, first);
      ConsecutiveGrows(xs, ys, first + 1);
      OneMore(ys, first);
      assert false;
    }
  }

  lemma OneMore(xs: seq<Sample>, k: nat)
    requires k < |xs|
    ensures Consecutive(xs, k + 1) <= Consecutive(xs, k) + 1
  {
  }

  lemma {:induction false} FirstAlertBy(s: Settings, xs: seq<Sample>, k: nat) returns (first: nat)
    requires k < |xs| && OutcomeAt(s, xs, k) == Alert
    ensures first <= k && OutcomeAt(s, xs, first) == Alert
    ensures forall i :: 0 <= i < first ==> OutcomeAt(s, xs, i) != Alert
  {
    if i: nat :| i < k && OutcomeAt(s, xs, i) == Alert {
      first := FirstAlertBy(s, xs, i);
    } else {
      first := k;
    }
  }

  /** Readings of one rule. */
  ghost predicate Readings(rule: Rule, events: seq<Event>) {
    forall i :: 0 <= i < |events| ==> events[i].Evaluate? && events[i].rule == rule
  }

  ghost function AsSamples(rule: Rule, events: seq<Event>): (xs: seq<Sample>)
    requires Readings(rule, events)
    ensures |xs| == |events| && forall i :: 0 <= i < |xs| ==> xs[i] == SampleOf(events[i])
  {
    seq(|events|, i requires 0 <= i < |events| => SampleOf(events[i]))
  }

  /** Every usage of one series of readings is at most that of the other. */
  ghost predicate AtMost(low: seq<Event>, high: seq<Event>, rule: Rule)
    requires Readings(rule, low) && Readings(rule, high)
  {
    |low| == |high| &&
    forall i :: 0 <= i < |low| ==>
      var a, b := low[i].metric, high[i].metric;
      a.cpuUsage <= b.cpuUsage && a.memUsage <= b.memUsage && a.diskUsage <= b.diskUsage
  }

  /** Direction.  A rule against high usage alerts no later on higher readings, a
      rule against low usage no later on lower ones. */
  lemma DirectionOfAlerts(s: Settings, rule: Rule, low: seq<Event>, high: seq<Event>, k: nat)
    requires 1 <= s.required && Readings(rule, low) && Readings(rule, high) && AtMost(low, high, rule) && k < |low|
    ensures rule.operator in {GT, GTE, Unknown} && OutcomeAt(s, AsSamples(rule, low), k) == Alert ==>
      exists i :: 0 <= i <= k && OutcomeAt(s, AsSamples(rule, high), i) == Alert
    ensures rule.operator in {LT, LTE} && OutcomeAt(s, AsSamples(rule, high), k) == Alert ==>
      exists i :: 0 <= i <= k && OutcomeAt(s, AsSamples(rule, low), i) == Alert
  {
    hide OutcomeAt, CompareValue;
    var xs, ys := AsSamples(rule, low), AsSamples(rule, high);
    forall i | 0 <= i < |low|
      ensures rule.operator in {GT, GTE, Unknown} && xs[i].breached ==> ys[i].breached
      ensures rule.operator in {LT, LTE} && ys[i].breached ==> xs[i].breached
    {
      var v, w := ExtractMetricValue(rule.metric, low[i].metric), ExtractMetricValue(rule.metric, high[i].metric);
      CompareMeans(v, w, rule.threshold);
      CompareMeans(w, w, rule.threshold);
    }
    if rule.operator in {GT, GTE, Unknown} && OutcomeAt(s, xs, k) == Alert {
      MoreBreachesAlertNoLater(s, xs, ys, k);
    }
    if rule.operator in {LT, LTE} && OutcomeAt(s, ys, k) == Alert {
      MoreBreachesAlertNoLater(s, ys, xs, k);
    }
  }

  /** The cooldown of a rule is in seconds, its clock in nanoseconds. */
  lemma CooldownInSeconds(e: RuleEvaluator, rule: Rule, xs: seq<Sample>, i: nat, j: nat)
    requires 0 < e.collectInterval && Clock(xs) && i < j < |xs|
    requires OutcomeAt(e.SettingsOf(rule), xs, i) == Alert && OutcomeAt(e.SettingsOf(rule), xs, j) == Alert
    ensures rule.cooldown * 1_000_000_000 <= xs[j].checked - xs[i].stamped
  {
    CooldownApart(e.SettingsOf(rule), xs, i, j);
  }

  /** Later alerts do not need an unbroken row: a healthy sample inside the
      cooldown does not reset the counter.  Two breaches are required here, and
      the second alert comes on the first breach after a recovery. */
  lemma LaterAlertWithoutRow()
    ensures
      var s := Settings(2, 10);
      var xs := [Sample(true, 0, 0), Sample(true, 1, 1), Sample(false, 5, 5), Sample(true, 12, 12)];
      && OutcomeAt(s, xs, 1) == Alert && OutcomeAt(s, xs, 2) == Recovery && OutcomeAt(s, xs, 3) == Alert
      && Consecutive(xs, 4) == 1 < s.required
  {
    var s := Settings(2, 10);
    var xs := [Sample(true, 0, 0), Sample(true, 1, 1), Sample(false, 5, 5), Sample(true, 12, 12)];
    assert xs[..0] == [];
    StateAfterStep(s, xs, 0);
    StateAfterStep(s, xs, 1);
    StateAfterStep(s, xs, 2);
  }

  /** Samples at least d apart, on a clock that never runs backwards. */
  ghost predicate Spaced(xs: seq<Sample>, d: nat) {
    && (forall i :: 0 <= i < |xs| ==> xs[i].checked <= xs[i].stamped)
    && (forall i, j :: 0 <= i < j < |xs| ==> xs[i].stamped + d <= xs[j].checked)
  }

  /** Every alert, over every run of samples at least d apart, falls on a full
      unbroken row exactly when the rule asks for a single breached sample or its
      cooldown has passed by the next sample. */
  lemma AlertsInRowIff(s: Settings, d: nat)
    ensures (forall xs, k: nat :: Spaced(xs, d) && k < |xs| && OutcomeAt(s, xs, k) == Alert ==>
                                    s.required <= Consecutive(xs, k + 1)) <==>
            s.required <= 1 || s.cooldown <= d
  {
    hide Spaced, OutcomeAt, Consecutive;
    if s.required <= 1 || s.cooldown <= d {
      forall xs, k: nat | Spaced(xs, d) && k < |xs| && OutcomeAt(s, xs, k) == Alert
        ensures s.required <= Consecutive(xs, k + 1)
      {
        AlertInRow(s, xs, d, k);
      }
    } else {
      var xs, k := AlertOutOfRow(s, d);
    }
  }

  lemma AlertInRow(s: Settings, xs: seq<Sample>, d: nat, k: nat)
    requires Spaced(xs, d) && k < |xs| && OutcomeAt(s, xs, k) == Alert
    requires s.required <= 1 || s.cooldown <= d
    ensures s.required <= Consecutive(xs, k + 1)
  {
    hide OutcomeAt, Spaced, ResetPoint, Breaches;
    AlertExactly(s, xs, k);
    if 1 < s.required {
      forall i | 0 <= i <= k
        ensures !Cooling(s, xs, i)
      {
        LastAlertBefore(s, xs, d, i);
      }
      CountIsConsecutive(s, xs, ResetPoint(s, xs, k + 1), k + 1);
    }
  }

  /** The last alert was stamped before the sample was checked. */
  lemma LastAlertBefore(s: Settings, xs: seq<Sample>, d: nat, k: nat)
    requires Spaced(xs, d) && k < |xs|
    ensures LastAlertTime(s, xs, k).Some? ==> LastAlertTime(s, xs, k).value + d <= xs[k].checked
  {
    LastAlertIndex(s, xs, k);
  }

  lemma {:induction false} LastAlertIndex(s: Settings, xs: seq<Sample>, k: nat)
    requires k <= |xs|
    ensures LastAlertTime(s, xs, k).Some? ==>
      exists i :: 0 <= i < k && LastAlertTime(s, xs, k) == Some(xs[i].stamped)
  {
    hide OutcomeAt;
    if k != 0 {
      LastAlertIndex(s, xs, k - 1);
    }
  }

  /** required breaches, d apart; a healthy sample d after the alert leaves the
      count, because the cooldown has not passed. */
  ghost function Burst(n: nat, d: nat): seq<Sample> {
    if n == 0 then [] else Burst(n - 1, d) + [Sample(true, (n - 1) * d, (n - 1) * d)]
  }

  lemma {:induction false} BurstSpaced(n: nat, d: nat)
    ensures |Burst(n, d)| == n && Spaced(Burst(n, d), d)
    ensures forall i :: 0 <= i < n ==> Burst(n, d)[i].stamped + d <= n * d
  {
    if n != 0 {
      BurstSpaced(n - 1, d);
      assert (n - 1) * d + d == n * d;
    }
  }

  lemma {:induction false} BurstState(s: Settings, n: nat, d: nat)
    requires n <= s.required && 1 <= s.required && 0 < s.cooldown
    ensures StateAfter(s, Burst(n, d)) ==
      if n < s.required then KeyState(n, None, false) else KeyState(n, Some((n - 1) * d), true)
  {
    if n != 0 {
      BurstState(s, n - 1, d);
      var all := Burst(n, d);
      assert all[..|all| - 1] == Burst(n - 1, d);
    }
  }

  lemma AlertOutOfRow(s: Settings, d: nat) returns (xs: seq<Sample>, k: nat)
    requires 1 < s.required && d < s.cooldown
    ensures Spaced(xs, d) && k < |xs| && OutcomeAt(s, xs, k) == Alert && Consecutive(xs, k + 1) < s.required
  {
    var n := s.required;
    var alerted := (n - 1) * d;
    var again := alerted + if s.cooldown < d + d then d + d else s.cooldown;
    var burst := Burst(n, d);
    BurstSpaced(n, d);
    BurstState(s, n, d);
    assert n * d == alerted + d;
    xs, k := burst + [Sample(false, alerted + d, alerted + d), Sample(true, again, again)], n + 1;
    TwoMore(burst, d, alerted + d, again);
    AlertAfterHealthy(s, burst, alerted, d, again);
  }

  lemma TwoMore(xs: seq<Sample>, d: nat, healthy: int, late: int)
    requires Spaced(xs, d) && healthy + d <= late && forall i :: 0 <= i < |xs| ==> xs[i].stamped + d <= healthy
    ensures Spaced(xs + [Sample(false, healthy, healthy), Sample(true, late, late)], d)
  {
  }

  /** A healthy sample inside the cooldown, then a breached one behind it. */
  lemma AlertAfterHealthy(s: Settings, burst: seq<Sample>, alerted: int, d: nat, late: int)
    requires 1 < s.required && d < s.cooldown <= late - alerted
    requires StateAfter(s, burst) == KeyState(s.required, Some(alerted), true)
    ensures
      var xs := burst + [Sample(false, alerted + d, alerted + d), Sample(true, late, late)];
      OutcomeAt(s, xs, |burst| + 1) == Alert && Consecutive(xs, |burst| + 2) < s.required
  {
    var xs, n := burst + [Sample(false, alerted + d, alerted + d), Sample(true, late, late)], |burst|;
    assert xs[..n] == burst;
    StateAfterStep(s, xs, n);
    assert Consecutive(xs, n + 1) == 0;
  }
}
