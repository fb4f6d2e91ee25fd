/**
  The log collector of one container: scan, batch, send, persist.

  The fields log, sent and the two origins stand for the outside world: what the
  container has written and which of its records Web has accepted, in order.
  Everything the network, the disk and the other goroutines of the agent may do
  is a nondeterministic choice in a small method of its own (Post, SaveState,
  OtherGoroutine, ReadLogsSince), so that the methods above them are verified
  for every outcome at every step.  A crash followed by a restart is a step of
  Run: it forgets everything but the stored cursors.
 */
module Collector {
  import opened BatchSplitter
  import opened LogCursors
  import opened ScanState

  const BATCH_SIZE: nat := 100
  const SCAN_LIMIT: nat := 500

  datatype ScanResult = Finished | LimitReached | Failed

  datatype Event = Logs(more: seq<Record>) | Pass(readStarted: nat) | Save | Crash

  /** The next pass resumes behind a pass that ended at upto, or before it when the
      first tail began inside the run of equal timestamps there; its window covers
      where it resumes and did not move back. */
  lemma PassAdvances(log: seq<Record>, c: LogCursor, floor: nat, upto: nat)
    requires Sorted(log) && floor < upto <= |log| && Prefix(log, c) < upto
    ensures
      var next := CursorAfter(log, floor, upto);
      && Prefix(log, next) <= upto
      && (Prefix(log, next) == upto <==> floor <= LowerBound(log, log[upto - 1].stamp))
      && c.at <= next.at
      && WindowStart(log, c.at) <= WindowStart(log, next.at) <= Prefix(log, next)
  {
    var next := CursorAfter(log, floor, upto);
    CursorAfterPrefix(log, floor, upto);
    assert LowerBound(log, c.at) <= upto - 1;
    QueryWindowMonotone(log, c.at, next.at);
    QueryWindowCovers(log, next);
  }

  class Agent {
    const id: string
    const tail: int
    /** The size of an encoded request, or the encoder's error. */
    const encode: seq<Record> -> Encoding
    /** False for a line that is handed over without a timestamp. */
    const parses: Record -> bool
    /** In a calm world no request, save or stream fails; the guarantees that
        say what a pass achieves, rather than what it never does, need it. */
    const calm: bool

    var logCursors: map<string, LogCursor>
    var stored: map<string, LogCursor>

    /** What the container has written. */
    var log: seq<Record>
    /** The indices of the records accepted by Web, in order of acceptance. */
    ghost var sent: seq<nat>
    ghost var origin: Origin
    ghost var storedOrigin: Origin
    /** Whether some acceptance was ever not followed by its cursor's save. */
    ghost var gap: bool

    constructor (id: string, tail: int, encode: seq<Record> -> Encoding, parses: Record -> bool, calm: bool)
      requires forall part :: part != [] ==> encode(part) != Encoded(0)
      requires calm ==> forall part :: encode(part).Encoded?
      requires calm ==> forall r :: Fits(encode, [r])
      ensures Valid() && Exact()
      ensures this.id == id && this.parses == parses && this.calm == calm
      ensures log == [] && sent == [] && logCursors == map[] && stored == map[]
    {
      this.id, this.tail, this.encode, this.parses, this.calm := id, tail, encode, parses, calm;
      logCursors, stored := map[], map[];
      log, sent, origin, storedOrigin, gap := [], [], AtIndex(0), AtIndex(0), false;
    }

    /** No loss.  For the cursor in memory and for the one on disk alike: every
        record that a later scan from it would skip has been accepted by Web. */
    ghost predicate Valid()
      reads this
    {
      && ValidLog(log)
      && (id in logCursors ==> Safe(log, sent, logCursors[id], origin))
      && (id in stored ==> Safe(log, sent, stored[id], storedOrigin))
      && Encodes()
    }

    /** What is known of the encoder. */
    ghost predicate Encodes() {
      && (forall part :: part != [] ==> encode(part) != Encoded(0))
      && (calm ==> (forall part :: encode(part).Encoded?) && forall r :: Fits(encode, [r]))
    }

    /** Exactly once.  Unless a save failed behind an acceptance, Web has been
        sent the records from the origin up to the cursor, each once and in
        order; the first tail must not start inside a run of equal timestamps. */
    ghost predicate Exact()
      reads this
      requires Valid()
    {
      !gap ==> ExactAt(log, id, Here())
    }

    // ----- what the surroundings may do -----

    /** One request.  An error may also be a lost response to an accepted one. */
    method Post(part: seq<Record>, ghost lo: nat, ghost hi: nat) returns (ok: bool)
      requires Valid() && lo < hi <= |log| && part == log[lo..hi]
      modifies this`sent, this`gap
      ensures Valid()
      ensures calm ==> ok
      ensures old(gap) ==> gap
      ensures ok ==> sent == old(sent) + Range(lo, hi) && gap == old(gap)
      ensures !ok ==> sent == old(sent) || (gap && sent == old(sent) + Range(lo, hi))
    {
      var accepted: bool := *;
      ok := *;
      if calm {
        accepted, ok := true, true;
      }
      ok := ok && accepted;
      assert log + [] == log;
      SafeGrowsForBoth([], if accepted then Range(lo, hi) else []);
      if accepted {
        sent := sent + Range(lo, hi);
      }
      if accepted && !ok {
        gap := true;
      }
    }

    /** Store.Save replaces the file or leaves it unchanged. */
    method SaveState() returns (ok: bool)
      requires Valid()
      modifies this`stored, this`storedOrigin
      ensures Valid()
      ensures calm ==> ok
      ensures ok ==> stored == logCursors && storedOrigin == origin
      ensures !ok ==> stored == old(stored) && storedOrigin == old(storedOrigin)
    {
      ok := *;
      ok := ok || calm;
      if ok {
        stored, storedOrigin := logCursors, origin;
      }
    }

    /** Another goroutine may save the shared snapshot at any moment, tentative
        cursors included. */
    method OtherGoroutine()
      requires Valid()
      modifies this`stored, this`storedOrigin
      ensures Valid()
      ensures (stored == old(stored) && storedOrigin == old(storedOrigin)) ||
        (stored == logCursors && storedOrigin == origin)
    {
      var saves: bool := *;
      if saves {
        var _ := SaveState();
      }
    }

    lemma SafeGrowsForBoth(more: seq<Record>, later: seq<nat>)
      requires Valid() && Sorted(log + more)
      ensures id in logCursors ==> Safe(log + more, sent + later, logCursors[id], origin)
      ensures id in stored ==> Safe(log + more, sent + later, stored[id], storedOrigin)
    {
      if id in logCursors {
        SafeGrows(log, more, sent, later, logCursors[id], origin);
      }
      if id in stored {
        SafeGrows(log, more, sent, later, stored[id], storedOrigin);
      }
    }

    /** The configured tail, between 1 and 1000 lines, 100 by default. */
    function TailLimit(): (limit: nat)
      ensures 1 <= limit <= 1000 && (limit < tail ==> limit == 1000) && (1 <= tail < limit ==> limit == 1)
      ensures tail <= 0 ==> limit == 100
    {
      if tail <= 0 then 100 else if tail > 1000 then 1000 else tail
    }

    /** Docker's answer: without a cursor the last tail records, otherwise those
        at or after the queried second, which may end early with an error.  A
        line that does not parse is handed over with the zero timestamp. */
    method ReadLogsSince(since: nat) returns (stream: seq<Record>, broken: bool, lo: nat)
      requires Valid()
      ensures lo + |stream| <= |log|
      ensures forall i :: 0 <= i < |stream| ==>
        stream[i] == if parses(log[lo + i]) then log[lo + i] else Record(0, log[lo + i].body)
      ensures !broken ==> lo + |stream| == |log|
      ensures calm ==> !broken
      ensures since != 0 ==> lo == WindowStart(log, since)
      ensures since == 0 ==> lo == TailStart()
    {
      hide Safe, WindowStart, Sorted, Encodes, LowerBound;
      if since == 0 {
        var limit := TailLimit();
        lo := if |log| > limit then |log| - limit else 0;
      } else {
        lo := FirstInWindow(since);
      }
      var cut: int := *;
      broken := *;
      broken := broken && !calm && lo <= cut <= |log|;
      var end := if broken then cut else |log|;
      stream := Handed(log[lo..end]);
      SliceAt(log, lo, end);
    }

    /** Docker passes over the records before the queried second. */
    method FirstInWindow(since: nat) returns (from: nat)
      requires Valid()
      ensures from <= |log| && from == WindowStart(log, since)
    {
      hide Safe, WindowStart, Encodes, LowerBound;
      from := 0;
      while from < |log| && log[from].stamp as int < QuerySecond(since) * NANOS
        invariant from <= |log|
        invariant forall i :: 0 <= i < from ==> log[i].stamp as int < QuerySecond(since) * NANOS
      {
        from := from + 1;
      }
      WindowStartUnique(log, since, from);
    }

    static lemma SliceAt(records: seq<Record>, lo: nat, end: nat)
      requires lo <= end <= |records|
      ensures |records[lo..end]| == end - lo
      ensures forall i :: 0 <= i < end - lo ==> records[lo..end][i] == records[lo + i]
    {
    }

    /** The lines as they are handed over: without a parsed timestamp it is zero. */
    function Handed(lines: seq<Record>): (handed: seq<Record>)
      ensures |handed| == |lines|
      ensures forall i :: 0 <= i < |lines| ==>
        handed[i] == if parses(lines[i]) then lines[i] else Record(0, lines[i].body)
    {
      var ok := parses;
      seq(|lines|, i requires 0 <= i < |lines| => if ok(lines[i]) then lines[i] else Record(0, lines[i].body))
    }

    // ----- dockerlogs.go -----

    /** Set the cursor, save, and take it back when the save fails. */
    method PersistLogCursor(cursor: LogCursor, ghost from: Origin) returns (ok: bool)
      requires Valid() && Safe(log, sent, cursor, from)
      modifies this`logCursors, this`origin, this`stored, this`storedOrigin
      ensures Valid()
      ensures calm ==> ok
      ensures ok ==>
        logCursors == old(logCursors)[id := cursor] && stored == logCursors && origin == from && storedOrigin == from
      ensures !ok ==> logCursors == old(logCursors) && origin == old(origin)
      ensures !ok ==> (stored == old(stored) && storedOrigin == old(storedOrigin)) ||
                      (stored == old(logCursors)[id := cursor] && storedOrigin == from)
      ensures KeepsBoundary(id, old(Here()), Here(), from)
    {
      hide Safe, Encodes;
      var existed := id in logCursors;
      var previous := if existed then logCursors[id] else LogCursor(0, 0);
      ghost var previousOrigin := origin;
      logCursors, origin := logCursors[id := cursor], from;
      OtherGoroutine();
      ok := SaveState();
      OtherGoroutine();
      if !ok {
        logCursors := if existed then logCursors[id := previous] else logCursors - {id};
        origin := previousOrigin;
      }
    }

    ghost function Here(): Moment
      reads this
    {
      Moment(logCursors, stored, sent, origin, storedOrigin)
    }

    /** One request small enough to send, with its acknowledgement. */
    method SendRequest(batch: seq<Record>, positions: seq<LogCursor>, lo: nat, hi: nat, ghost base: nat,
        ghost floor: nat, ghost from: Origin)
      returns (ok: bool, accepted: nat, ghost posted: nat)
      requires Valid() && lo < hi <= |batch|
      requires Collected(log, batch, positions, base, floor, from) && Delivered(log, sent, from, base + lo)
      requires Fits(encode, batch[lo..hi])
      modifies this`logCursors, this`origin, this`stored, this`storedOrigin, this`sent, this`gap
      ensures Valid()
      ensures calm ==> ok
      ensures old(gap) ==> gap
      ensures posted == lo ==> Here() == old(Here())
      ensures (posted == lo || posted == hi) && sent == old(sent) + Range(base + lo, base + posted)
      ensures accepted == lo || accepted == hi
      ensures ok ==> accepted == posted == hi && gap == old(gap) && Delivered(log, sent, from, base + hi)
      ensures ok || !gap ==> Acknowledged(id, old(Here()), Here(), positions, base, lo, accepted, from)
      ensures KeepsBoundary(id, old(Here()), Here(), from)
    {
      accepted, posted := lo, lo;
      hide Safe, Collected, CursorAfter, Prefix, Range, Sorted;
      CollectedSlice(log, batch, positions, base, floor, from, lo, hi);
      if encode(batch[lo..hi]).size > 0 {
        ok := Post(batch[lo..hi], base + lo, base + hi);
        posted := if sent == old(sent) then lo else hi;
        if !ok {
          return;
        }
      }
      posted := hi;
      assert batch[lo..hi] != [];
      DeliveredGrows(log, old(sent), from, base + lo, base + hi);
      accepted := hi;
      CursorAfterSafe(log, sent, floor, base + accepted, from);
      ok := PersistLogCursor(positions[accepted - 1], from);
      if !ok {
        gap := true;
      }
    }

    /** SendOTLPLogBatch from entry lo to entry hi: halve what is too large, and
        persist the cursor after each accepted request.  The requests accepted
        are a prefix of the plan, all of it on success; without a gap the state
        is exactly that of the accepted count. */
    method SendPart(batch: seq<Record>, positions: seq<LogCursor>, lo: nat, hi: nat, ghost base: nat,
        ghost floor: nat, ghost from: Origin)
      returns (ok: bool, accepted: nat, ghost parts: seq<Part>, ghost posted: nat)
      requires Valid() && lo < hi <= |batch|
      requires Collected(log, batch, positions, base, floor, from) && Delivered(log, sent, from, base + lo)
      modifies this`logCursors, this`origin, this`stored, this`storedOrigin, this`sent, this`gap
      ensures Valid()
      ensures calm ==> ok
      ensures old(gap) ==> gap
      ensures posted == lo ==> Here() == old(Here())
      ensures lo <= posted <= hi && sent == old(sent) + Range(base + lo, base + posted)
      ensures Realizes(encode, batch, lo, hi, parts, accepted, ok)
      ensures ok ==> accepted == posted == hi && gap == old(gap) && Delivered(log, sent, from, base + hi)
      ensures ok || !gap ==> Acknowledged(id, old(Here()), Here(), positions, base, lo, accepted, from)
      ensures KeepsBoundary(id, old(Here()), Here(), from)
      decreases hi - lo, 1
    {
      hide Safe, SplitPlan, Realizes, Collected, Delivered, Acknowledged, KeepsBoundary, Range, Sorted;
      accepted, parts, posted := lo, [], lo;
      KeepsJoins(id, Here(), Here(), Here(), from);
      CollectedSlice(log, batch, positions, base, floor, from, lo, hi);
      RealizesNothing(encode, batch, lo, hi);
      AcknowledgedNothing(id, Here(), positions, base, lo, from);
      var encoded := encode(batch[lo..hi]);
      if encoded.EncodeError? {
        return false, lo, [], lo;
      }
      if encoded.size > MAX_REQUEST {
        if hi - lo < 2 {
          CalmFits(batch, lo);
          return false, lo, [], lo;
        }
        ok, accepted, parts, posted := SendHalves(batch, positions, lo, hi, base, floor, from);
        return;
      }
      RealizesOne(encode, batch, lo, hi);
      ok, accepted, posted := SendRequest(batch, positions, lo, hi, base, floor, from);
      parts := if accepted == hi then [Part(lo, hi)] else [];
    }

    /** The left half, and once all of it is accepted, the right half. */
    method SendHalves(batch: seq<Record>, positions: seq<LogCursor>, lo: nat, hi: nat, ghost base: nat,
        ghost floor: nat, ghost from: Origin)
      returns (ok: bool, accepted: nat, ghost parts: seq<Part>, ghost posted: nat)
      requires Valid() && lo < hi <= |batch|
      requires Collected(log, batch, positions, base, floor, from) && Delivered(log, sent, from, base + lo)
      requires 2 <= hi - lo && encode(batch[lo..hi]).Encoded? && !Fits(encode, batch[lo..hi])
      modifies this`logCursors, this`origin, this`stored, this`storedOrigin, this`sent, this`gap
      ensures Valid()
      ensures calm ==> ok
      ensures old(gap) ==> gap
      ensures posted == lo ==> Here() == old(Here())
      ensures lo <= posted <= hi && sent == old(sent) + Range(base + lo, base + posted)
      ensures Realizes(encode, batch, lo, hi, parts, accepted, ok)
      ensures ok ==> accepted == posted == hi && gap == old(gap) && Delivered(log, sent, from, base + hi)
      ensures ok || !gap ==> Acknowledged(id, old(Here()), Here(), positions, base, lo, accepted, from)
      ensures KeepsBoundary(id, old(Here()), Here(), from)
      decreases hi - lo, 0
    {
      hide Safe, SplitPlan, Realizes, Collected, Delivered, Acknowledged, KeepsBoundary, Encodes, Range, Sorted;
      var middle := lo + (hi - lo) / 2;
      ok, accepted, parts, posted := SendPart(batch, positions, lo, middle, base, floor, from);
      if !ok {
        RealizesHalves(encode, batch, lo, hi, parts, [], accepted, false);
        return;
      }
      ghost var left, between := parts, Here();
      ok, accepted, parts, posted := SendPart(batch, positions, middle, hi, base, floor, from);
      RealizesHalves(encode, batch, lo, hi, left, parts, accepted, ok);
      KeepsJoins(id, old(Here()), between, Here(), from);
      RangesJoin(old(sent), base + lo, base + middle, base + posted);
      if ok || !gap {
        AcknowledgedJoins(id, old(Here()), between, Here(), positions, base, lo, middle, accepted, from);
      }
      parts := left + parts;
    }

    lemma CalmFits(batch: seq<Record>, lo: nat)
      requires Valid() && lo < |batch|
      ensures calm ==> Fits(encode, batch[lo..lo + 1])
    {
      assert batch[lo..lo + 1] == [batch[lo]];
    }

    /** Send what is collected.  On failure the exactly-once state is that of
        the requests accepted before it. */
    method Flush(v: Locals, ghost g: Beginning, ghost base: Moment, ghost k: nat) returns (ok: bool, ghost upto: nat)
      requires Valid() && ScanInvariant(log, id, g, base, Here(), !gap, k, v)
      modifies this`logCursors, this`origin, this`stored, this`storedOrigin, this`sent, this`gap
      ensures Valid() && Exact()
      ensures calm ==> ok
      ensures old(gap) ==> gap
      ensures Flushed(g, k, v) <= upto <= |log| && sent == base.sent + Range(g.first, upto)
      ensures v.batch == [] ==> ok
      ensures upto == Flushed(g, k, v) ==> Here() == old(Here())
      ensures ok ==> gap == old(gap) && upto == Flushed(g, k, v.(batch := []))
      ensures ok ==> ScanInvariant(log, id, g, base, Here(), !gap, k, v.(batch := [], positions := []))
      ensures KeepsBoundary(id, old(Here()), Here(), g.from)
    {
      hide Safe, Collected, Delivered, Acknowledged, Prefix, CursorAfter, SplitPlan, ExactAt, ScanInvariant,
          StartsAt, KeepsBoundary, LowerBound, UpperBound, Begins, Start, Fresh, SeenAt, Scanning, Reached,
          Encodes, Range, Sorted;
      KeepsJoins(id, Here(), Here(), Here(), g.from);
      ScanSent(log, id, g, base, Here(), !gap, k, v);
      upto := Flushed(g, k, v);
      if v.batch == [] {
        StopsHere(log, id, g, base, Here(), !gap, k, v);
        return true, upto;
      }
      ghost var parts, posted;
      var accepted;
      ok, accepted, parts, posted := SendPart(v.batch, v.positions, 0, |v.batch|, k - |v.batch|, g.floor, g.from);
      RangesJoin(base.sent, g.first, upto, upto + posted);
      upto := upto + posted;
      if !gap {
        StopIsExact(log, id, g, base, old(Here()), Here(), k, v, accepted);
      }
      if ok {
        FlushKeeps(log, id, g, base, old(Here()), Here(), !gap, k, v);
      }
    }

    /** The visit callback for a line that carries a timestamp. */
    method Visit(line: Record, start: LogCursor, v: Locals, ghost g: Beginning, ghost base: Moment, ghost k: nat)
      returns (ok: bool, w: Locals, ghost since: Moment, ghost upto: nat)
      requires Valid() && k < |log| && line == log[k] && start == g.start
      requires ScanInvariant(log, id, g, base, Here(), !gap, k, v)
      requires |v.batch| < BATCH_SIZE
      requires start.at == 0 && v.collected == 0 ==> id !in logCursors
      modifies this`logCursors, this`origin, this`stored, this`storedOrigin, this`sent, this`gap
      ensures Valid() && Exact()
      ensures calm ==> ok
      ensures old(gap) ==> gap
      ensures Flushed(g, k, v) <= upto <= |log| && sent == base.sent + Range(g.first, upto)
      ensures since.sent == base.sent && (start.at != 0 || w.collected == 0 ==> since == base)
      ensures ok ==> gap == old(gap) && ScanInvariant(log, id, g, since, Here(), !gap, k + 1, w)
      ensures ok ==> |w.batch| < BATCH_SIZE && w.collected == (if k < g.first then 0 else k + 1 - g.first)
      ensures upto != Flushed(g, k, v) ==> BATCH_SIZE <= k + 1 - g.first
      ensures start.at != 0 && upto == Flushed(g, k, v) ==> Here() == old(Here())
      ensures KeepsBoundary(id, old(Here()), Here(), g.from)
    {
      hide Safe, Collected, Delivered, Acknowledged, Prefix, CursorAfter, SplitPlan, ExactAt, ScanInvariant,
          StartsAt, KeepsBoundary, LowerBound, UpperBound, Begins, Start, Fresh, SeenAt, Scanning, Reached,
          Encodes, Range, Sorted;
      KeepsJoins(id, Here(), Here(), Here(), g.from);
      w, since := v, base;
      ScanSent(log, id, g, base, Here(), !gap, k, v);
      StopsHere(log, id, g, base, Here(), !gap, k, v);
      SkipKeeps(log, id, g, base, Here(), !gap, k, v);
      CollectedHasCursor(log, id, g, base, Here(), !gap, k, v);
      upto := Flushed(g, k, v);
      if line.stamp < start.at {
        return true, w, since, upto;
      }
      if line.stamp == start.at {
        w := w.(seen := w.seen + 1);
        if w.seen <= start.count {
          return true, w, since, upto;
        }
      }
      if w.next.at == 0 {
        w := w.(next := LogCursor(line.stamp, 0));
        OpensAt(log, id, g, base, Here(), !gap, k, v);
        ok := PersistLogCursor(w.next, g.from);
        if !ok {
          if !gap {
            BoundaryUnsaved(log, id, base, Here(), w.next, g.from);
          }
          return;
        }
        BoundaryKeeps(log, id, g, base, Here(), !gap, v);
        since := Here();
      }
      if w.next.at < line.stamp {
        w := w.(next := LogCursor(line.stamp, 0));
      }
      if line.stamp == w.next.at {
        w := w.(next := LogCursor(w.next.at, w.next.count + 1));
      }
      w := w.(batch := w.batch + [line], positions := w.positions + [w.next], collected := w.collected + 1);
      CollectKeeps(log, id, g, since, Here(), !gap, k, v);
      assert w == Collect(g, v, line);
      ok := true;
      if |w.batch| >= BATCH_SIZE {
        ghost var between := Here();
        ok, upto := Flush(w, g, since, k + 1);
        KeepsJoins(id, old(Here()), between, Here(), g.from);
        w := w.(batch := [], positions := []);
      } else {
        StopsHere(log, id, g, since, Here(), !gap, k + 1, w);
      }
    }

    /** One pass over the container's log.  It sends the records from first on,
        in order and without gap, up to upto; lo is the first line handed over
        and stop the line a pass fails at in a calm world. */
    method ForwardContainerLogs(readStarted: nat) returns (r: ScanResult, ghost first: nat, ghost upto: nat,
        ghost lo: nat, ghost stop: nat)
      requires Valid() && Exact() && 0 < readStarted
      modifies this`logCursors, this`origin, this`stored, this`storedOrigin, this`sent, this`gap
      ensures Valid() && Exact()
      ensures old(gap) ==> gap
      ensures lo <= first <= upto <= |log| && sent == old(sent) + Range(first, upto)
      ensures id in old(logCursors) ==>
        first == Prefix(log, old(logCursors)[id]) && lo == WindowStart(log, old(logCursors)[id].at)
      // the boundary: the first line of the tail, or the moment an empty log was read
      ensures id !in old(logCursors) ==> lo == first == TailStart()
      ensures
        var boundary := if log == [] then AtTime(readStarted) else AtIndex(first);
        KeepsBoundary(id, old(Here()), Here(), if id in old(logCursors) then old(origin) else boundary)
      ensures r != Failed && id !in old(logCursors) && log == [] ==>
        id in logCursors && logCursors[id] == LogCursor(readStarted, 0)
      // what a pass that ends in order has achieved
      ensures r != Failed ==> gap == old(gap) && id in logCursors && Delivered(log, sent, origin, upto)
      ensures r != Failed && first < upto ==>
        stored == logCursors && logCursors[id] == CursorAfter(log, if id in old(logCursors) then 0 else first, upto)
      ensures first == upto && id in old(logCursors) ==> Here() == old(Here())
      ensures r.LimitReached? ==> upto == first + 500
      ensures r.Finished? ==> upto == |log| && upto < first + 500
      // a line without a timestamp stops every pass
      ensures r != Failed ==> forall b :: lo <= b < upto ==> parses(log[b])
      ensures forall b :: lo <= b < first + 100 && b < |log| && !parses(log[b]) ==> r == Failed && upto == first
      ensures calm && r == Failed ==> lo <= stop < |log| && !parses(log[stop])
    {
      hide Safe, Collected, Delivered, Acknowledged, Prefix, CursorAfter, ExactAt, ScanInvariant, StartsAt,
          WindowStart, KeepsBoundary, LowerBound, UpperBound, Begins, Start, Fresh, SeenAt, Scanning, Reached,
          Encodes, Range, Sorted,
          Anchored, SentExactly, QuerySecond, Fits, SplitPlan;
      var existed := id in logCursors;
      var start := if existed then logCursors[id] else LogCursor(0, 0);
      SafeIsPositive();
      var stream, broken;
      stream, broken, lo := ReadLogsSince(start.at);
      var v := Locals(start, 0, 0, [], []);
      ghost var base := Here();
      ghost var g := ScanBegins(log, id, start, lo, Here(), !gap);
      first, upto, stop := g.first, g.first, lo;
      var ok, visited;
      ok, visited, v, base, upto, stop := VisitAll(stream, start, v, g, base);
      ghost var boundary := if log == [] && !existed then AtTime(readStarted) else g.from;
      ghost var between := Here();
      KeepsJoins(id, old(Here()), between, between, boundary);
      if !ok || (v.collected < SCAN_LIMIT && broken) {
        return Failed, first, upto, lo, stop;
      }
      r, upto := FinishScan(readStarted, v, g, base, lo + visited);
      KeepsJoins(id, old(Here()), between, Here(), boundary);
    }

    /** The lines handed over, one by one, until one fails or the limit is
        reached. */
    method VisitAll(stream: seq<Record>, start: LogCursor, u: Locals, ghost g: Beginning, ghost base0: Moment)
      returns (ok: bool, i: nat, v: Locals, ghost base: Moment, ghost upto: nat, ghost stop: nat)
      requires Valid() && start == g.start && u == Locals(start, 0, 0, [], []) && base0 == Here()
      requires ScanInvariant(log, id, g, base0, Here(), !gap, g.lo, u)
      requires start.at == 0 ==> id !in logCursors
      requires g.lo + |stream| <= |log|
      requires forall i :: 0 <= i < |stream| ==>
        stream[i] == if parses(log[g.lo + i]) then log[g.lo + i] else Record(0, log[g.lo + i].body)
      modifies this`logCursors, this`origin, this`stored, this`storedOrigin, this`sent, this`gap
      ensures Valid() && Exact()
      ensures old(gap) ==> gap
      ensures i <= |stream|
      ensures g.first <= upto <= |log| && sent == base.sent + Range(g.first, upto) && base.sent == base0.sent
      ensures forall b :: g.lo <= b < g.lo + i ==> parses(log[b])
      ensures upto == g.first || g.first + BATCH_SIZE <= g.lo + i ||
        (i < |stream| && g.first + BATCH_SIZE <= g.lo + i + 1 && parses(log[g.lo + i]))
      ensures ok ==> gap == old(gap) && ScanInvariant(log, id, g, base, Here(), !gap, g.lo + i, v)
      ensures ok ==> v.collected == (if g.lo + i <= g.first then 0 else g.lo + i - g.first) && v.collected <= SCAN_LIMIT
      ensures ok ==> i == |stream| || v.collected == SCAN_LIMIT
      ensures ok && (start.at != 0 || v.collected == 0) ==> base == base0
      ensures ok && start.at == 0 && v.collected == 0 ==> Here() == base0
      ensures start.at != 0 && upto == g.first ==> Here() == base0
      ensures ok ==> upto == Flushed(g, g.lo + i, v)
      ensures !ok ==> i < |stream| && stop == g.lo + i
      ensures !ok && calm ==> !parses(log[stop])
      ensures KeepsBoundary(id, old(Here()), Here(), g.from)
    {
      hide Safe, Collected, Delivered, Acknowledged, Prefix, CursorAfter, ExactAt, ScanInvariant, StartsAt,
          WindowStart, SeenAt, KeepsBoundary, LowerBound, UpperBound, Begins, Start, Fresh, Scanning, Reached,
          Encodes, Range, Sorted;
      KeepsJoins(id, Here(), Here(), Here(), g.from);
      v, i, base, upto, stop := u, 0, base0, g.first, g.lo;
      ScanSent(log, id, g, base, Here(), !gap, g.lo, v);
      StopsHere(log, id, g, base, Here(), !gap, g.lo, v);
      while i < |stream| && v.collected < SCAN_LIMIT
        invariant Valid() && Exact() && gap == old(gap)
        invariant 0 <= i <= |stream| && g.lo <= g.first <= |log|
        invariant ScanInvariant(log, id, g, base, Here(), !gap, g.lo + i, v)
        invariant base.sent == base0.sent && (start.at != 0 || v.collected == 0 ==> base == base0)
        invariant start.at == 0 && v.collected == 0 ==> Here() == base0
        invariant start.at != 0 && upto == g.first ==> Here() == base0
        invariant forall b :: g.lo <= b < g.lo + i ==> parses(log[b])
        invariant v.collected == if g.lo + i <= g.first then 0 else g.lo + i - g.first
        invariant |v.batch| < BATCH_SIZE && v.collected <= SCAN_LIMIT
        invariant upto == Flushed(g, g.lo + i, v) && g.first <= upto <= |log| &&
          sent == base.sent + Range(g.first, upto)
        invariant upto == g.first || g.first + BATCH_SIZE <= g.lo + i
        invariant KeepsBoundary(id, old(Here()), Here(), g.from)
      {
        ghost var between := Here();
        stop := g.lo + i;
        if stream[i].stamp == 0 {
          return false, i, v, base, upto, stop;
        }
        ok, v, base, upto := Visit(stream[i], start, v, g, base, stop);
        KeepsJoins(id, old(Here()), between, Here(), g.from);
        if !ok {
          return;
        }
        i := i + 1;
        ScanSent(log, id, g, base, Here(), !gap, g.lo + i, v);
      }
      ok := true;
    }

    /** What remains after the last line: flush, and when nothing was ever
        collected persist the moment the read began. */
    method FinishScan(readStarted: nat, v: Locals, ghost g: Beginning, ghost base: Moment,
        ghost k: nat) returns (r: ScanResult, ghost upto: nat)
      requires Valid() && 0 < readStarted && ScanInvariant(log, id, g, base, Here(), !gap, k, v)
      requires v.collected < SCAN_LIMIT ==> k == |log|
      requires v.collected == 0 && g.start.at == 0 ==> log == [] && id !in logCursors
      modifies this`logCursors, this`origin, this`stored, this`storedOrigin, this`sent, this`gap
      ensures Valid() && Exact()
      ensures old(gap) ==> gap
      ensures calm ==> r != Failed
      ensures Flushed(g, k, v) <= upto <= |log| && sent == base.sent + Range(g.first, upto)
      ensures r != Failed ==> gap == old(gap) && id in logCursors && Delivered(log, sent, origin, upto)
      ensures r != Failed ==> upto == if k <= g.first then g.first else k
      ensures r != Failed && g.first < upto ==>
        stored == logCursors && logCursors[id] == CursorAfter(log, g.floor, upto)
      ensures g.first == upto && g.start.at != 0 ==> Here() == old(Here())
      ensures r.LimitReached? <==> r != Failed && SCAN_LIMIT <= v.collected
      ensures KeepsBoundary(id, old(Here()), Here(),
        if g.start.at == 0 && log == [] then AtTime(readStarted) else g.from)
      ensures r != Failed && log == [] && g.start.at == 0 ==> logCursors[id] == LogCursor(readStarted, 0)
    {
      hide Safe, Collected, Delivered, Acknowledged, Prefix, CursorAfter, ExactAt, ScanInvariant, StartsAt,
          WindowStart, KeepsBoundary, LowerBound, UpperBound, Begins, Start, Fresh, SeenAt, Scanning, Reached,
          Encodes, Range, Sorted;
      ScanSent(log, id, g, base, Here(), !gap, k, v);
      var flushed;
      flushed, upto := Flush(v, g, base, k);
      KeepsJoins(id, old(Here()), Here(), Here(), AtTime(readStarted));
      if !flushed {
        return Failed, upto;
      }
      ghost var w := v.(batch := [], positions := []);
      ScanSent(log, id, g, base, Here(), !gap, k, w);
      CollectedHasCursor(log, id, g, base, Here(), !gap, k, w);
      if v.next.at == 0 {
        EmptyBoundary(log, sent, readStarted);
        ghost var before := Here();
        var ok := PersistLogCursor(LogCursor(readStarted, 0), AtTime(readStarted));
        KeepsJoins(id, old(Here()), before, Here(), AtTime(readStarted));
        if !gap && !ok {
          BoundaryUnsaved(log, id, before, Here(), LogCursor(readStarted, 0), AtTime(readStarted));
        }
        if !gap && ok {
          BoundarySaved(log, id, before, Here(), LogCursor(readStarted, 0), AtTime(readStarted));
        }
        DeliveredNone(log, sent, readStarted);
        return if ok then Finished else Failed, upto;
      }
      r := if v.collected >= SCAN_LIMIT then LimitReached else Finished;
    }

    lemma SafeIsPositive()
      requires Valid()
      ensures id in logCursors ==> 0 < logCursors[id].at && Safe(log, sent, logCursors[id], origin)
    {
    }

    // ----- whole runs -----

    /** The backlog loop on a log that stands still and in a world without
        failures, from wherever it starts.  It ends, because every pass that
        reports a backlog moved on by exactly SCAN_LIMIT records.  A container
        without a cursor starts at its tail; everything is delivered exactly when
        the tail parses and, if a second pass is needed, so does its window. */
    method Drain(readStarted: nat) returns (r: ScanResult)
      requires Valid() && Exact() && calm && 0 < readStarted
      modifies this`logCursors, this`origin, this`stored, this`storedOrigin, this`sent, this`gap
      ensures Valid() && Exact() && !r.LimitReached?
      ensures r.Finished? ==> Delivered(log, sent, origin, |log|)
      ensures id in old(logCursors) ==>
        (r.Finished? <==> ParsesFrom(WindowStart(log, old(logCursors)[id].at))) &&
        (r.Finished? ==> sent == old(sent) + Range(Prefix(log, old(logCursors)[id]), |log|))
      ensures id !in old(logCursors) ==>
        (r.Finished? <==>
          ParsesFrom(TailStart()) && (TailStart() + SCAN_LIMIT <= |log| ==>
            ParsesFrom(WindowStart(log, CursorAfter(log, TailStart(), TailStart() + SCAN_LIMIT).at))))
    {
      hide Safe, ExactAt, Delivered, Prefix, CursorAfter, WindowStart, KeepsBoundary, Sorted, Encodes, ParsesFrom;
      if id in logCursors {
        r := DrainStored(readStarted);
      } else {
        r := DrainFresh(readStarted);
      }
    }

    method DrainFresh(readStarted: nat) returns (r: ScanResult)
      requires Valid() && Exact() && calm && 0 < readStarted && id !in logCursors
      modifies this`logCursors, this`origin, this`stored, this`storedOrigin, this`sent, this`gap
      ensures Valid() && Exact() && !r.LimitReached?
      ensures r.Finished? ==> Delivered(log, sent, origin, |log|)
      ensures r.Finished? <==>
        ParsesFrom(TailStart()) && (TailStart() + SCAN_LIMIT <= |log| ==>
          ParsesFrom(WindowStart(log, CursorAfter(log, TailStart(), TailStart() + SCAN_LIMIT).at)))
    {
      hide Safe, ExactAt, Delivered, Prefix, CursorAfter, WindowStart, KeepsBoundary, LowerBound, Sorted, Encodes,
          Range, Anchored, SentExactly;
      ghost var first, upto, lo, stop;
      r, first, upto, lo, stop := ForwardContainerLogs(readStarted);
      if r.LimitReached? {
        CursorAfterPrefix(log, first, upto);
        QueryWindowCovers(log, logCursors[id]);
        r := DrainStored(readStarted);
      }
    }

    ghost predicate ParsesFrom(lo: nat)
      reads this
    {
      forall b :: lo <= b < |log| ==> parses(log[b])
    }

    /** The index of the first line of a first tail. */
    ghost function TailStart(): (lo: nat)
      reads this
      ensures lo <= |log|
    {
      if |log| > TailLimit() then |log| - TailLimit() else 0
    }

    /** The loop from a stored cursor: it delivers everything exactly when every
        line from the query window on parses. */
    method DrainStored(readStarted: nat) returns (r: ScanResult)
      requires Valid() && Exact() && calm && 0 < readStarted && id in logCursors
      modifies this`logCursors, this`origin, this`stored, this`storedOrigin, this`sent, this`gap
      ensures Valid() && Exact() && !r.LimitReached?
      ensures r.Finished? <==> ParsesFrom(WindowStart(log, old(logCursors)[id].at))
      ensures r.Finished? ==> Delivered(log, sent, origin, |log|)
      ensures r.Finished? ==> sent == old(sent) + Range(Prefix(log, old(logCursors)[id]), |log|)
    {
      hide Safe, ExactAt, Delivered, Prefix, CursorAfter, WindowStart, KeepsBoundary, Encodes, Range, Sorted;
      ghost var window, p0, c, p := WindowStart(log, logCursors[id].at), Prefix(log, logCursors[id]), logCursors[id],
          Prefix(log, logCursors[id]);
      assert sent == old(sent) + Range(p0, p0);
      while true
        invariant Valid() && Exact() && id in logCursors && logCursors[id] == c && Prefix(log, c) == p
        invariant window <= WindowStart(log, c.at) && p0 <= p <= |log|
        invariant sent == old(sent) + Range(p0, p)
        invariant forall b :: window <= b < |log| && !parses(log[b]) ==> WindowStart(log, c.at) <= b
        decreases |log| - p
      {
        ghost var first, upto, lo, stop;
        r, first, upto, lo, stop := ForwardContainerLogs(readStarted);
        RangesJoin(old(sent), p0, p, upto);
        if !r.LimitReached? {
          return;
        }
        PassAdvances(log, c, 0, upto);
        c, p := logCursors[id], upto;
      }
    }

    /** Two passes from no cursor.  When the tail began inside the last run of equal
        timestamps the first pass counted only what it sent of the run, and the
        second passes over that many records from the beginning of the run: it
        sends those behind them, older than the tail or not, and so repeats some. */
    method FirstTwoPasses(readStarted: nat, readAgain: nat)
      returns (r: ScanResult, again: ScanResult, ghost first: nat, ghost upto: nat,
              ghost resumed: nat, ghost reached: nat)
      requires Valid() && Exact() && 0 < readStarted && 0 < readAgain && id !in logCursors
      modifies this`logCursors, this`origin, this`stored, this`storedOrigin, this`sent, this`gap
      ensures Valid() && Exact() && first == TailStart()
      ensures r != Failed && first < upto ==>
        upto <= |log| && sent == old(sent) + Range(first, upto) + Range(resumed, reached) &&
        var run := LowerBound(log, log[upto - 1].stamp);
        resumed == if first <= run then upto else run + (upto - first)
    {
      hide Safe, ExactAt, Delivered, Prefix, CursorAfter, WindowStart, KeepsBoundary, LowerBound, Sorted;
      ghost var lo, stop;
      again, resumed, reached := Failed, 0, 0;
      r, first, upto, lo, stop := ForwardContainerLogs(readStarted);
      if r != Failed {
        if first < upto {
          ResumesAt(log, first, upto);
        }
        again, resumed, reached, lo, stop := ForwardContainerLogs(readAgain);
      }
    }

    /** A line without a timestamp among the next hundred records holds every
        later pass, in any world, exactly where it is, whatever the container goes
        on to write: nothing is ever sent again, not even the records before that
        line. */
    method PassesAgain(written: seq<seq<Record>>, readStarted: nat, ghost bad: nat)
      requires Valid() && Exact() && 0 < readStarted && id in logCursors
      requires WindowStart(log, logCursors[id].at) <= bad < |log| && bad < Prefix(log, logCursors[id]) + 100
      requires !parses(log[bad])
      modifies this`log, this`logCursors, this`origin, this`stored, this`storedOrigin, this`sent, this`gap
      ensures Valid() && Exact() && old(log) <= log
      ensures Here() == old(Here())
    {
      hide Safe, ExactAt, Prefix, CursorAfter, WindowStart, Sorted, LowerBound, Encodes, KeepsBoundary;
      for i := 0 to |written|
        invariant Valid() && Exact() && Here() == old(Here()) && old(log) <= log
        invariant WindowStart(log, logCursors[id].at) <= bad < |log|
        invariant bad < Prefix(log, logCursors[id]) + BATCH_SIZE && !parses(log[bad])
      {
        if ValidLog(log + written[i]) {
          StillInReach(log, written[i], logCursors[id], bad);
          AppendToLog(written[i]);
        }
        ghost var first, upto, lo, stop;
        var r;
        r, first, upto, lo, stop := ForwardContainerLogs(readStarted);
        assert upto == first;
        assert sent == old(sent) + [];
      }
    }

    /** The container writes more lines. */
    method AppendToLog(more: seq<Record>)
      requires Valid() && Exact() && ValidLog(log + more)
      modifies this`log
      ensures Valid() && Exact() && log == old(log) + more
    {
      hide Safe, SentExactly, Prefix;
      SafeGrowsForBoth(more, []);
      assert sent + [] == sent;
      if !gap {
        if id in logCursors {
          SentExactlyGrows(log, more, sent, logCursors[id], origin);
        }
        if id in stored {
          SentExactlyGrows(log, more, sent, stored[id], storedOrigin);
        }
      }
      log := log + more;
    }

    /** A crash forgets the memory; loadState takes the cursors from the file. */
    method Restart()
      requires Valid() && Exact()
      modifies this`logCursors, this`origin
      ensures Valid() && Exact() && logCursors == stored && origin == storedOrigin
    {
      logCursors, origin := stored, storedOrigin;
    }

    /** Another goroutine saves while no pass is under way. */
    method SaveBetween()
      requires Valid() && Exact()
      modifies this`stored, this`storedOrigin
      ensures Valid() && Exact()
      ensures (stored == old(stored) && storedOrigin == old(storedOrigin)) ||
              (stored == logCursors && storedOrigin == origin)
    {
      hide Safe, SentExactly, Encodes;
      OtherGoroutine();
    }

    /** The container's boundary is persisted: from here on it is final. */
    ghost predicate Settled()
      reads this
    {
      id in logCursors && id in stored && origin == storedOrigin
    }

    /** Any sequence of events.  Passes may fail at every send, save and line,
        and leave their tentative cursor to other goroutines; restarts may fall
        anywhere between.  No loss and exactly once hold throughout. */
    method Run(events: seq<Event>)
      requires Valid() && Exact()
      modifies this
      ensures Valid() && Exact()
      ensures id in stored ==> forall i :: Start(log, storedOrigin) <= i < Prefix(log, stored[id]) ==> i in sent
      ensures id in logCursors ==> forall i :: Start(log, origin) <= i < Prefix(log, logCursors[id]) ==> i in sent
      ensures !gap && id in stored && Fresh(log, storedOrigin) ==>
        sent == Range(Start(log, storedOrigin), Prefix(log, stored[id]))
      ensures old(Settled()) ==> Settled() && origin == storedOrigin == old(origin)
    {
      hide Safe, ExactAt, Delivered, Prefix, CursorAfter, WindowStart, Encodes, LowerBound, Sorted, Start, Fresh, Range;
      for i := 0 to |events|
        invariant Valid() && Exact()
        invariant old(Settled()) ==> Settled() && origin == storedOrigin == old(origin)
      {
        match events[i]
        case Logs(more) =>
          if ValidLog(log + more) {
            AppendToLog(more);
          }
        case Pass(readStarted) =>
          if 0 < readStarted {
            ghost var first, upto, lo, stop;
            var r;
            r, first, upto, lo, stop := ForwardContainerLogs(readStarted);
          }
        case Save =>
          SaveBetween();
        case Crash =>
          Restart();
      }
      WhatHolds();
    }

    /** No loss and exactly once, spelled out. */
    lemma WhatHolds()
      requires Valid() && Exact()
      ensures id in stored ==> forall i :: Start(log, storedOrigin) <= i < Prefix(log, stored[id]) ==> i in sent
      ensures id in logCursors ==> forall i :: Start(log, origin) <= i < Prefix(log, logCursors[id]) ==> i in sent
      ensures !gap && id in stored && Fresh(log, storedOrigin) ==>
        sent == Range(Start(log, storedOrigin), Prefix(log, stored[id]))
    {
      hide Prefix, Start, Fresh, Range, Encodes;
    }
  }
}
