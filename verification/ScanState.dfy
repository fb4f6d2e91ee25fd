/**
  The state of one scan and what it has achieved so far, as plain values, with
  the lemmas that carry both across a record, a request and a flush.
 */
module ScanState {
  import opened LogCursors

  /** The shared state between two steps. */
  datatype Moment = Moment(
    logCursors: map<string, LogCursor>, stored: map<string, LogCursor>,
    sent: seq<nat>, origin: Origin, storedOrigin: Origin)

  /** The collected batch is a slice of the log, each entry beside the cursor to
      persist once it is accepted. */
  ghost predicate Collected(log: seq<Record>, batch: seq<Record>, positions: seq<LogCursor>, base: nat, floor: nat,
      from: Origin)
    requires Sorted(log)
  {
    && floor <= base
    && base + |batch| <= |log|
    && batch == log[base..base + |batch|]
    && |positions| == |batch|
    && (forall j :: 0 <= j < |batch| ==> positions[j] == CursorAfter(log, floor, base + j + 1))
    && (batch != [] && from.AtTime? ==> from.time <= batch[0].stamp)
  }

  /** Every record from the origin up to index k has been accepted. */
  ghost predicate Delivered(log: seq<Record>, sent: seq<nat>, from: Origin, k: nat)
    requires Sorted(log)
  {
    forall i :: Start(log, from) <= i < k ==> i in sent
  }

  lemma DeliveredGrows(log: seq<Record>, sent: seq<nat>, from: Origin, lo: nat, hi: nat)
    requires Sorted(log) && lo <= hi
    requires Delivered(log, sent, from, lo)
    ensures Delivered(log, sent + Range(lo, hi), from, hi)
  {
    forall i | Start(log, from) <= i < hi
      ensures i in sent + Range(lo, hi)
    {
      if lo <= i {
        RangeContains(lo, hi, i);
      }
    }
  }

  lemma DeliveredNone(log: seq<Record>, sent: seq<nat>, time: nat)
    requires log == []
    ensures Delivered(log, sent, AtTime(time), 0)
  {
  }

  lemma CollectedSlice(log: seq<Record>, batch: seq<Record>, positions: seq<LogCursor>, base: nat, floor: nat,
      from: Origin, lo: nat, hi: nat)
    requires Sorted(log) && Collected(log, batch, positions, base, floor, from)
    requires lo < hi <= |batch|
    ensures base + hi <= |log| && batch[lo..hi] == log[base + lo..base + hi]
    ensures |positions| == |batch| && floor <= base
    ensures positions[hi - 1] == CursorAfter(log, floor, base + hi)
    ensures from.AtTime? ==> from.time <= log[base + hi - 1].stamp
  {
    forall k | 0 <= k < hi - lo
      ensures batch[lo..hi][k] == log[base + lo..base + hi][k]
    {
      assert batch[lo + k] == log[base + lo + k];
    }
    assert batch[0] == log[base] && batch[lo..hi] == log[base + lo..base + hi];
  }

  lemma RangesJoin(before: seq<nat>, lo: nat, middle: nat, hi: nat)
    requires lo <= middle <= hi
    ensures before + Range(lo, middle) + Range(middle, hi) == before + Range(lo, hi)
  {
  }

  /** The moment after the entries of a batch from lo to hi were accepted and
      the cursor behind the last of them persisted. */
  ghost predicate Acknowledged(id: string, before: Moment, after: Moment, positions: seq<LogCursor>, base: nat,
      lo: nat, hi: nat, from: Origin) {
    && lo <= hi <= |positions|
    && after.sent == before.sent + Range(base + lo, base + hi)
    && (lo == hi ==> after == before)
    && (lo < hi ==>
      && after.logCursors == before.logCursors[id := positions[hi - 1]]
      && after.stored == after.logCursors
      && after.origin == after.storedOrigin == from)
  }

  lemma AcknowledgedNothing(id: string, now: Moment, positions: seq<LogCursor>, base: int, lo: nat, from: Origin)
    requires 0 <= base && lo <= |positions|
    ensures Acknowledged(id, now, now, positions, base, lo, lo, from)
  {
  }

  lemma AcknowledgedJoins(id: string, before: Moment, between: Moment, after: Moment, positions: seq<LogCursor>,
      base: nat, lo: nat, middle: nat, hi: nat, from: Origin)
    requires Acknowledged(id, before, between, positions, base, lo, middle, from)
    requires Acknowledged(id, between, after, positions, base, middle, hi, from)
    ensures Acknowledged(id, before, after, positions, base, lo, hi, from)
  {
  }

  /** The point from which nothing may be lost stays where it is once a cursor is
      persisted for it: only a first scan sets it. */
  ghost predicate KeepsBoundary(id: string, before: Moment, now: Moment, from: Origin) {
    && (id in before.logCursors ==> id in now.logCursors && (id in before.stored ==> id in now.stored))
    && (now.origin == before.origin || now.origin == from)
    && (id in now.logCursors && id !in before.logCursors ==> now.origin == from)
    && (now.storedOrigin == before.storedOrigin || now.storedOrigin == before.origin || now.storedOrigin == from)
  }

  lemma KeepsJoins(id: string, before: Moment, between: Moment, now: Moment, from: Origin)
    ensures KeepsBoundary(id, before, before, from)
    ensures KeepsBoundary(id, before, between, from) && KeepsBoundary(id, between, now, from) ==>
      KeepsBoundary(id, before, now, from)
  {
  }

  // ----- the local variables of a scan -----

  /** What is fixed when a scan begins: the cursor it starts from (at is 0 when
      there is none), the index lo of the first line handed over, the index first
      of the first record to collect, the index floor from which records at equal
      timestamps are counted, and the origin of the deliveries. */
  datatype Beginning = Beginning(start: LogCursor, lo: nat, floor: nat, first: nat, from: Origin)

  /** How a scan begins: from a cursor, counting all records at its timestamp, or
      without one, counting only from the first record of the tail. */
  ghost predicate Begins(log: seq<Record>, g: Beginning)
    requires Sorted(log)
  {
    && g.lo <= g.first <= |log| && g.floor <= g.first
    && (g.start.at == 0 ==> g.start.count == 0 && g.floor == g.first == g.lo && g.from == AtIndex(g.lo))
    && (g.start.at != 0 ==>
      && g.floor == 0 && g.first == Prefix(log, g.start)
      && LowerBound(log, g.start.at) + g.start.count <= UpperBound(log, g.start.at)
      && (g.from.AtTime? ==> g.from.time <= g.start.at))
  }

  /** The variables the scan loop updates: the cursor behind the last collected
      record, the records seen at the start timestamp, how many were collected,
      and those of them that still wait to be sent, with their cursors. */
  datatype Locals = Locals(next: LogCursor, seen: nat, collected: nat, batch: seq<Record>, positions: seq<LogCursor>)

  /** Their values once the records of the log before index k were visited. */
  ghost predicate Scanning(log: seq<Record>, g: Beginning, k: nat, v: Locals)
    requires Sorted(log)
  {
    && g.lo <= k <= |log| && g.floor <= g.first
    && v.seen == SeenAt(log, g.start.at, k)
    && v.collected == (if k <= g.first then 0 else k - g.first)
    && |v.batch| <= v.collected
    && v.next == (if k <= g.first then g.start else CursorAfter(log, g.floor, k))
    && (v.batch == [] ==> v.positions == [])
    && (v.batch != [] ==> Collected(log, v.batch, v.positions, k - |v.batch|, g.floor, g.from))
  }

  /** How far the accepted records reach when the batch still waits. */
  ghost function Flushed(g: Beginning, k: nat, v: Locals): int {
    if k <= g.first then g.first else k - |v.batch|
  }

  /** The cursor the loop computes for the record stamped stamp. */
  function NextCursor(next: LogCursor, stamp: nat): LogCursor {
    var begun := if next.at == 0 then LogCursor(stamp, 0) else next;
    var moved := if begun.at < stamp then LogCursor(stamp, 0) else begun;
    if stamp == moved.at then LogCursor(moved.at, moved.count + 1) else moved
  }

  /** The variables after a record that passes the filter. */
  function Collect(g: Beginning, v: Locals, r: Record): Locals {
    var next := NextCursor(v.next, r.stamp);
    Locals(next, if r.stamp == g.start.at then v.seen + 1 else v.seen,
        v.collected + 1, v.batch + [r], v.positions + [next])
  }

  /** The incremental cursor update agrees with the meaning of the position. */
  lemma NextCursorAfter(log: seq<Record>, g: Beginning, k: nat, next: LogCursor)
    requires ValidLog(log) && Begins(log, g) && g.first <= k < |log|
    requires next == if k == g.first then g.start else CursorAfter(log, g.floor, k)
    ensures NextCursor(next, log[k].stamp) == CursorAfter(log, g.floor, k + 1)
    ensures g.from.AtTime? ==> g.from.time <= log[k].stamp
  {
    if g.first < k {
      hide Prefix, LowerBound, UpperBound;
      CursorAfterStep(log, g.floor, k);
    } else {
      FirstCursorAfter(log, g);
    }
  }

  lemma FirstCursorAfter(log: seq<Record>, g: Beginning)
    requires ValidLog(log) && Begins(log, g) && g.first < |log|
    ensures NextCursor(g.start, log[g.first].stamp) == CursorAfter(log, g.floor, g.first + 1)
    ensures g.start.at <= log[g.first].stamp
  {
    hide LowerBound, UpperBound;
    if g.start.at != 0 && g.start.at < log[g.first].stamp {
      LowerBoundUnique(log, log[g.first].stamp, g.first);
    }
  }

  /** A record before the first is passed over by the filter, and by it alone. */
  lemma VisitSkips(log: seq<Record>, g: Beginning, k: nat, v: Locals)
    requires ValidLog(log) && Begins(log, g) && k < |log|
    requires Scanning(log, g, k, v)
    ensures
      var stamp := log[k].stamp;
      var seen := if stamp == g.start.at then v.seen + 1 else v.seen;
      && (stamp < g.start.at || (stamp == g.start.at && seen <= g.start.count) <==> k < g.first)
      && (k < g.first ==> Scanning(log, g, k + 1, v.(seen := seen)))
  {
  }

  lemma VisitCollects(log: seq<Record>, g: Beginning, k: nat, v: Locals)
    requires ValidLog(log) && Begins(log, g) && g.first <= k < |log|
    requires Scanning(log, g, k, v)
    ensures
      Scanning(log, g, k + 1, Collect(g, v, log[k]))
  {
    hide NextCursor, Collected, CursorAfter, SeenAt, Begins, Prefix;
    FilterDropsPrefix(log, g.start, k);
    NextCursorAfter(log, g, k, v.next);
    CollectsOne(log, g, k, NextCursor(v.next, log[k].stamp), v.batch, v.positions);
  }

  lemma CollectsOne(log: seq<Record>, g: Beginning, k: nat, next: LogCursor, batch: seq<Record>,
      positions: seq<LogCursor>)
    requires Sorted(log) && g.floor <= g.first <= k < |log| && |batch| <= k - g.first
    requires batch == [] ==> positions == []
    requires batch != [] ==> Collected(log, batch, positions, k - |batch|, g.floor, g.from)
    requires next == CursorAfter(log, g.floor, k + 1)
    requires g.from.AtTime? ==> g.from.time <= log[k].stamp
    ensures Collected(log, batch + [log[k]], positions + [next], k - |batch|, g.floor, g.from)
  {
    assert batch + [log[k]] == log[k - |batch|..k + 1];
  }

  // ----- what the scan has achieved -----

  /** Since the moment base, exactly the records from first up to d have been
      accepted, in order, and the cursor behind them is in memory and on disk. */
  ghost predicate Reached(log: seq<Record>, id: string, g: Beginning, base: Moment, now: Moment, d: int)
    requires Sorted(log)
  {
    && g.floor <= g.first <= d <= |log|
    && now.sent == base.sent + Range(g.first, d)
    && (d == g.first ==> now == base)
    && (g.first < d ==>
      && now.logCursors == base.logCursors[id := CursorAfter(log, g.floor, d)]
      && now.stored == now.logCursors
      && now.origin == now.storedOrigin == g.from)
  }

  lemma ReachedNothing(log: seq<Record>, id: string, g: Beginning, base: Moment)
    requires Sorted(log) && g.floor <= g.first <= |log|
    ensures Reached(log, id, g, base, base, g.first)
  {
  }

  lemma ReachedFurther(
    log: seq<Record>, id: string, g: Beginning, base: Moment, between: Moment, now: Moment, d: nat,
    batch: seq<Record>, positions: seq<LogCursor>, accepted: nat)
    requires Sorted(log) && accepted <= |batch| && batch != []
    requires Reached(log, id, g, base, between, d)
    requires Collected(log, batch, positions, d, g.floor, g.from)
    requires Acknowledged(id, between, now, positions, d, 0, accepted, g.from)
    ensures Reached(log, id, g, base, now, d + accepted)
  {
    RangesJoin(base.sent, g.first, d, d + accepted);
  }

  /** Web has been sent the records from the origin up to the cursor, each once
      and in order, provided the first tail did not start inside a run of equal
      timestamps. */
  ghost predicate SentExactly(log: seq<Record>, sent: seq<nat>, c: LogCursor, origin: Origin)
    requires Sorted(log)
  {
    Fresh(log, origin) ==> Start(log, origin) <= Prefix(log, c) && sent == Range(Start(log, origin), Prefix(log, c))
  }

  /** Logging more records does not disturb the exactly-once state. */
  lemma SentExactlyGrows(log: seq<Record>, more: seq<Record>, sent: seq<nat>, c: LogCursor, origin: Origin)
    requires Sorted(log + more) && Sorted(log)
    requires Safe(log, sent, c, origin) && SentExactly(log, sent, c, origin)
    ensures SentExactly(log + more, sent, c, origin)
  {
    var all := log + more;
    if LowerBound(log, c.at) < UpperBound(log, c.at) {
      PrefixStable(log, more, c);
      if origin.AtTime? {
        assert log[LowerBound(log, c.at)].stamp == c.at;
        LowerBoundStable(log, more, origin.time);
      }
      assert Start(all, origin) == Start(log, origin);
    } else {
      LowerBoundGrows(log, more, c.at);
      assert Prefix(all, c) == LowerBound(all, c.at) == Start(all, origin);
    }
  }

  ghost predicate ExactAt(log: seq<Record>, id: string, m: Moment)
    requires Sorted(log)
  {
    && (id in m.logCursors ==> SentExactly(log, m.sent, m.logCursors[id], m.origin))
    && (id in m.stored ==> SentExactly(log, m.sent, m.stored[id], m.storedOrigin))
    && (id !in m.logCursors || id !in m.stored ==> m.sent == [])
  }

  /** The cursor a scan begins from denotes the prefix before its first record. */
  ghost predicate StartsAt(log: seq<Record>, id: string, g: Beginning, base: Moment)
    requires Sorted(log)
  {
    && id in base.logCursors && base.origin == g.from
    && (Fresh(log, g.from) ==> Prefix(log, base.logCursors[id]) == g.first)
    && (g.floor == 0 || (g.floor == g.first && g.from == AtIndex(g.first)))
  }

  lemma ReachedIsExact(log: seq<Record>, id: string, g: Beginning, base: Moment, now: Moment, d: nat)
    requires Sorted(log) && StartsAt(log, id, g, base)
    requires Reached(log, id, g, base, now, d)
    requires ExactAt(log, id, base)
    ensures ExactAt(log, id, now)
  {
    if g.first < d {
      CursorAfterPrefix(log, g.floor, d);
      if Fresh(log, g.from) {
        FreshFloor(log, g, d);
        RangeJoins(Start(log, g.from), g.first, d);
      }
    }
  }

  lemma FreshFloor(log: seq<Record>, g: Beginning, d: nat)
    requires Sorted(log) && g.floor <= g.first < d <= |log| && Fresh(log, g.from)
    requires g.floor == 0 || (g.floor == g.first && g.from == AtIndex(g.first))
    ensures g.floor <= LowerBound(log, log[d - 1].stamp)
  {
  }

  /** The boundary persisted when the first scan found nothing. */
  lemma EmptyBoundary(log: seq<Record>, sent: seq<nat>, now: nat)
    requires ValidLog(log) && 0 < now
    ensures Safe(log, sent, LogCursor(now, 0), AtTime(now))
    ensures SentExactly(log, [], LogCursor(now, 0), AtTime(now))
  {
  }

  /** The invariant of the scan loop: base is the moment the deliveries of this
      scan count from. */
  ghost predicate ScanInvariant(
    log: seq<Record>, id: string, g: Beginning, base: Moment, now: Moment, exact: bool,
    k: nat, v: Locals)
    requires Sorted(log)
  {
    && Begins(log, g)
    && Scanning(log, g, k, v)
    && (g.start.at != 0 || v.collected != 0 ==> StartsAt(log, id, g, base))
    && (exact ==> ExactAt(log, id, base))
    && Reached(log, id, g, base, now, Flushed(g, k, v))
    && Delivered(log, now.sent, g.from, Flushed(g, k, v))
  }

  lemma ScanBegins(log: seq<Record>, id: string, start: LogCursor, lo: nat, now: Moment, exact: bool)
    returns (g: Beginning)
    requires ValidLog(log) && lo <= |log|
    requires if id in now.logCursors then start == now.logCursors[id] && start.at != 0 else start == LogCursor(0, 0)
    requires id in now.logCursors ==> lo == WindowStart(log, start.at) && Safe(log, now.sent, start, now.origin)
    requires exact ==> ExactAt(log, id, now)
    ensures g.start == start && g.lo == lo <= g.first <= |log|
    ensures g.first == if start.at == 0 then lo else Prefix(log, start)
    ensures g.floor == (if start.at == 0 then lo else 0) && g.from == if start.at == 0 then AtIndex(lo) else now.origin
    ensures ScanInvariant(log, id, g, now, now, exact, lo, Locals(start, 0, 0, [], []))
  {
    if start.at == 0 {
      g := Beginning(start, lo, lo, lo, AtIndex(lo));
      VisitsNone(log, lo, 0);
    } else {
      QueryWindowCovers(log, start);
      g := Beginning(start, lo, 0, Prefix(log, start), now.origin);
      VisitsNone(log, lo, start.at);
    }
    ReachedNothing(log, id, g, now);
  }

  lemma VisitsNone(log: seq<Record>, k: nat, t: nat)
    requires ValidLog(log) && k <= |log| && (t == 0 || k <= LowerBound(log, t))
    ensures SeenAt(log, t, k) == 0
  {
    if t == 0 {
      LowerBoundUnique(log, 0, 0);
      LowerBoundUnique(log, 1, 0);
    }
  }

  lemma SkipKeeps(
    log: seq<Record>, id: string, g: Beginning, base: Moment, now: Moment, exact: bool,
    k: nat, v: Locals)
    requires ValidLog(log) && k < |log|
    requires ScanInvariant(log, id, g, base, now, exact, k, v)
    ensures
      var stamp := log[k].stamp;
      var seen := if stamp == g.start.at then v.seen + 1 else v.seen;
      && (stamp < g.start.at || (stamp == g.start.at && seen <= g.start.count) <==> k < g.first)
      && (k < g.first ==> ScanInvariant(log, id, g, base, now, exact, k + 1, v.(seen := seen)))
  {
    hide ExactAt, StartsAt, Reached, Delivered, Collected, CursorAfter, SeenAt, Begins;
    VisitSkips(log, g, k, v);
  }

  lemma CollectKeeps(
    log: seq<Record>, id: string, g: Beginning, base: Moment, now: Moment, exact: bool,
    k: nat, v: Locals)
    requires ValidLog(log) && g.first <= k < |log| && StartsAt(log, id, g, base)
    requires ScanInvariant(log, id, g, base, now, exact, k, v)
    ensures
      ScanInvariant(log, id, g, base, now, exact, k + 1, Collect(g, v, log[k]))
  {
    hide ExactAt, StartsAt, Reached, Delivered, Collected, CursorAfter, SeenAt, Begins, NextCursor;
    VisitCollects(log, g, k, v);
  }

  /** Persisting the boundary of the first tail starts the deliveries afresh. */
  lemma BoundaryKeeps(
    log: seq<Record>, id: string, g: Beginning, base: Moment, now: Moment, exact: bool,
    v: Locals)
    requires ValidLog(log) && g.first < |log| && g.start.at == 0
    requires ScanInvariant(log, id, g, base, base, exact, g.first, v)
    requires id !in base.logCursors
    requires
      var boundary := LogCursor(log[g.first].stamp, 0);
      now == Moment(base.logCursors[id := boundary], base.logCursors[id := boundary], base.sent, g.from, g.from)
    ensures StartsAt(log, id, g, now)
    ensures ScanInvariant(log, id, g, now, now, exact, g.first, v)
  {
  }

  /** Before the first record of a first tail nothing has changed yet, and its
      boundary is safe to persist. */
  lemma OpensAt(log: seq<Record>, id: string, g: Beginning, base: Moment, now: Moment, exact: bool, k: nat, v: Locals)
    requires ValidLog(log) && k < |log| && g.first <= k
    requires ScanInvariant(log, id, g, base, now, exact, k, v)
    requires g.start.at == 0 && v.collected == 0
    ensures k == g.first && now == base && g.from == AtIndex(k) && v.next == LogCursor(0, 0)
    ensures Safe(log, now.sent, LogCursor(log[k].stamp, 0), g.from)
    ensures SentExactly(log, [], LogCursor(log[k].stamp, 0), g.from)
  {
  }

  /** A boundary whose save failed may still have been saved by another
      goroutine; with nothing sent that is exact too. */
  lemma BoundaryUnsaved(log: seq<Record>, id: string, base: Moment, now: Moment, boundary: LogCursor, from: Origin)
    requires ValidLog(log) && id !in base.logCursors && ExactAt(log, id, base)
    requires SentExactly(log, [], boundary, from)
    requires now.logCursors == base.logCursors && now.sent == base.sent && now.origin == base.origin
    requires (now.stored == base.stored && now.storedOrigin == base.storedOrigin) ||
             (now.stored == base.logCursors[id := boundary] && now.storedOrigin == from)
    ensures ExactAt(log, id, now)
  {
  }

  lemma BoundarySaved(log: seq<Record>, id: string, base: Moment, now: Moment, boundary: LogCursor, from: Origin)
    requires ValidLog(log) && id !in base.logCursors && ExactAt(log, id, base)
    requires SentExactly(log, [], boundary, from)
    requires now == Moment(base.logCursors[id := boundary], base.logCursors[id := boundary], base.sent, from, from)
    ensures ExactAt(log, id, now)
  {
  }

  lemma FlushKeeps(
    log: seq<Record>, id: string, g: Beginning, base: Moment, between: Moment, now: Moment, exact: bool,
    k: nat, v: Locals)
    requires ValidLog(log) && v.batch != []
    requires ScanInvariant(log, id, g, base, between, exact, k, v)
    requires Acknowledged(id, between, now, v.positions, k - |v.batch|, 0, |v.batch|, g.from)
    requires Delivered(log, now.sent, g.from, k)
    ensures ScanInvariant(log, id, g, base, now, exact, k, v.(batch := [], positions := []))
  {
    hide ExactAt, StartsAt, CursorAfter, SeenAt, Begins, Collected, Reached;
    ReachedFurther(log, id, g, base, between, now, k - |v.batch|, v.batch, v.positions, |v.batch|);
  }

  /** A scan that stops, wherever it stops, leaves the exactly-once state of what
      was accepted. */
  lemma StopIsExact(
    log: seq<Record>, id: string, g: Beginning, base: Moment, between: Moment, now: Moment,
    k: nat, v: Locals, accepted: nat)
    requires ValidLog(log) && accepted <= |v.batch|
    requires ScanInvariant(log, id, g, base, between, true, k, v)
    requires if v.batch == [] then now == between
      else Acknowledged(id, between, now, v.positions, k - |v.batch|, 0, accepted, g.from)
    ensures ExactAt(log, id, now)
  {
    hide ExactAt, StartsAt, CursorAfter, SeenAt, Begins, Collected, Reached, Delivered;
    if g.start.at == 0 && v.collected == 0 {
      StopBeforeFirst(log, id, g, base, between, k, v);
    } else if v.batch == [] {
      ReachedIsExact(log, id, g, base, now, Flushed(g, k, v));
    } else {
      ReachedFurther(log, id, g, base, between, now, k - |v.batch|, v.batch, v.positions, accepted);
      ReachedIsExact(log, id, g, base, now, k - |v.batch| + accepted);
    }
  }

  lemma StopsHere(
    log: seq<Record>, id: string, g: Beginning, base: Moment, now: Moment, exact: bool,
    k: nat, v: Locals)
    requires ValidLog(log)
    requires ScanInvariant(log, id, g, base, now, exact, k, v)
    ensures exact ==> ExactAt(log, id, now)
  {
    hide ExactAt, StartsAt, CursorAfter, SeenAt, Begins, Reached, Delivered;
    if exact {
      AcknowledgedNothing(id, now, v.positions, k - |v.batch|, 0, g.from);
      StopIsExact(log, id, g, base, now, now, k, v, 0);
    }
  }

  lemma StopBeforeFirst(log: seq<Record>, id: string, g: Beginning, base: Moment, now: Moment, k: nat, v: Locals)
    requires ValidLog(log) && k <= g.first
    requires Reached(log, id, g, base, now, Flushed(g, k, v))
    ensures now == base
  {
  }

  /** A scan that has collected something has a cursor with a real timestamp. */
  lemma CollectedHasCursor(
    log: seq<Record>, id: string, g: Beginning, base: Moment, now: Moment, exact: bool,
    k: nat, v: Locals)
    requires ValidLog(log)
    requires ScanInvariant(log, id, g, base, now, exact, k, v)
    ensures v.next.at == 0 ==> g.start.at == 0 && v.collected == 0
  {
  }

  /** What the invariant says to the caller of the scan. */
  lemma ScanSent(
    log: seq<Record>, id: string, g: Beginning, base: Moment, now: Moment, exact: bool,
    k: nat, v: Locals)
    requires Sorted(log)
    requires ScanInvariant(log, id, g, base, now, exact, k, v)
    ensures g.lo <= g.first <= Flushed(g, k, v) <= |log| && g.lo <= k <= |log|
    ensures now.sent == base.sent + Range(g.first, Flushed(g, k, v))
    ensures Delivered(log, now.sent, g.from, Flushed(g, k, v))
    ensures v.collected == if k <= g.first then 0 else k - g.first
    ensures |v.batch| <= v.collected && |v.positions| == |v.batch|
    ensures v.batch != [] ==> Collected(log, v.batch, v.positions, k - |v.batch|, g.floor, g.from)
    ensures v.collected == 0 ==> v.next == g.start && now == base
    ensures g.start.at != 0 || v.collected != 0 ==> id in now.logCursors && now.origin == g.from
    ensures g.start.at != 0 || v.collected != 0 ==> StartsAt(log, id, g, base)
    ensures g.first < Flushed(g, k, v) ==>
      now.stored == now.logCursors && now.logCursors[id] == CursorAfter(log, g.floor, Flushed(g, k, v))
    ensures g.first == Flushed(g, k, v) ==> now == base
  {
    hide CursorAfter, SeenAt, Prefix, ExactAt;
  }
}
