/**
  What a persisted log cursor means.

  A container log is an append-only sequence of records whose timestamps never
  decrease.  The agent remembers a position in it as a pair (timestamp, number
  of records at that timestamp).  This module says which prefix of the log such
  a pair denotes, when that prefix is safe to skip, and why both survive the
  growth of the log.
 */
module LogCursors {

  /** One log line.  Timestamps count nanoseconds from Go's zero time, so stamp 0
      is the zero time: a line whose timestamp could not be parsed. */
  datatype Record = Record(stamp: nat, body: string)

  datatype LogCursor = LogCursor(at: nat, count: nat)

  /** Where the deliveries behind a cursor began: at a record of the first tail,
      or, when the first scan found an empty log, at a moment in time. */
  datatype Origin = AtIndex(index: nat) | AtTime(time: nat)

  predicate Sorted(log: seq<Record>) {
    forall i, j :: 0 <= i < j < |log| ==> log[i].stamp <= log[j].stamp
  }

  /** Every record carries a real timestamp, in nondecreasing order. */
  predicate ValidLog(log: seq<Record>) {
    Sorted(log) && forall i :: 0 <= i < |log| ==> 0 < log[i].stamp
  }

  /** The number of records stamped before t. */
  ghost function LowerBound(log: seq<Record>, t: nat): (p: nat)
    requires Sorted(log)
    ensures p <= |log|
    ensures forall i :: 0 <= i < p ==> log[i].stamp < t
    ensures forall i :: p <= i < |log| ==> t <= log[i].stamp
  {
    if log == [] then 0
    else if log[|log| - 1].stamp < t then |log|
    else LowerBound(log[..|log| - 1], t)
  }

  /** The number of records stamped no later than t. */
  ghost function UpperBound(log: seq<Record>, t: nat): (p: nat)
    requires Sorted(log)
    ensures LowerBound(log, t) <= p <= |log|
    ensures forall i :: LowerBound(log, t) <= i < p ==> log[i].stamp == t
    ensures forall i :: p <= i < |log| ==> t < log[i].stamp
  {
    var p := LowerBound(log, t + 1);
    assert LowerBound(log, t) < |log| ==> t <= log[LowerBound(log, t)].stamp;
    assert p < |log| ==> t < log[p].stamp;
    assert 0 < LowerBound(log, t) ==> log[LowerBound(log, t) - 1].stamp < t;
    p
  }

  /** The length of the prefix a cursor denotes: everything before its timestamp
      and the first count records at it. */
  ghost function Prefix(log: seq<Record>, c: LogCursor): (p: nat)
    requires Sorted(log)
    ensures p <= |log|
  {
    var upper := UpperBound(log, c.at);
    if LowerBound(log, c.at) + c.count <= upper then LowerBound(log, c.at) + c.count else upper
  }

  ghost function Start(log: seq<Record>, origin: Origin): nat
    requires Sorted(log)
  {
    match origin
    case AtIndex(index) => index
    case AtTime(time) => LowerBound(log, time)
  }

  /** The cursor recorded after collecting the record before index k, by a scan
      that counts equal timestamps only from index floor on. */
  ghost function CursorAfter(log: seq<Record>, floor: nat, k: nat): LogCursor
    requires Sorted(log) && floor < k <= |log|
  {
    var run := LowerBound(log, log[k - 1].stamp);
    LogCursor(log[k - 1].stamp, k - if floor <= run then run else floor)
  }

  /** The cursor names a timestamp the log has reached, or is the untouched
      boundary of an empty first scan. */
  ghost predicate Anchored(log: seq<Record>, c: LogCursor, origin: Origin)
    requires Sorted(log)
  {
    || (LowerBound(log, c.at) < UpperBound(log, c.at) && (origin.AtTime? ==> origin.time <= c.at))
    || (origin == AtTime(c.at) && c.count == 0)
  }

  /** The first delivered record does not share its timestamp with an earlier one. */
  ghost predicate Fresh(log: seq<Record>, origin: Origin)
    requires Sorted(log)
  {
    origin.AtIndex? && 0 < origin.index < |log| ==> log[origin.index - 1].stamp < log[origin.index].stamp
  }

  /** The delivery guarantee for one cursor: whatever a later scan from this
      cursor skips, from the origin on, has been accepted by Web.  accepted lists
      the indices of accepted records. */
  ghost predicate Safe(log: seq<Record>, accepted: seq<nat>, c: LogCursor, origin: Origin)
    requires Sorted(log)
  {
    && 0 < c.at
    && LowerBound(log, c.at) + c.count <= UpperBound(log, c.at)
    && Anchored(log, c, origin)
    && forall i :: Start(log, origin) <= i < Prefix(log, c) ==> i in accepted
  }

  /** The increasing list lo, lo+1, ..., hi-1. */
  ghost function Range(lo: nat, hi: nat): (r: seq<nat>)
    ensures |r| == if lo <= hi then hi - lo else 0
  {
    if lo <= hi then seq(hi - lo, i => lo + i) else []
  }

  lemma RangeContains(lo: nat, hi: nat, i: nat)
    requires lo <= i < hi
    ensures i in Range(lo, hi)
  {
    assert Range(lo, hi)[i - lo] == i;
  }

  lemma RangeJoins(lo: nat, mid: nat, hi: nat)
    requires lo <= mid <= hi
    ensures Range(lo, mid) + Range(mid, hi) == Range(lo, hi)
  {
  }

  /** A position in a sorted log is the lower bound of t exactly when it splits
      the log at t. */
  lemma LowerBoundUnique(log: seq<Record>, t: nat, p: nat)
    requires Sorted(log) && p <= |log|
    requires forall i :: 0 <= i < p ==> log[i].stamp < t
    requires forall i :: p <= i < |log| ==> t <= log[i].stamp
    ensures LowerBound(log, t) == p
  {
  }

  /** Appending records later than some record at or after t leaves the lower
      bound of t where it was. */
  lemma LowerBoundStable(log: seq<Record>, more: seq<Record>, t: nat)
    requires Sorted(log + more)
    requires Sorted(log)
    requires LowerBound(log, t) < |log|
    ensures LowerBound(log + more, t) == LowerBound(log, t)
  {
    var p := LowerBound(log, t);
    var all := log + more;
    forall i | p <= i < |all|
      ensures t <= all[i].stamp
    {
      assert all[p] == log[p] && all[p].stamp <= all[i].stamp;
    }
    LowerBoundUnique(all, t, p);
  }

  lemma LowerBoundGrows(log: seq<Record>, more: seq<Record>, t: nat)
    requires Sorted(log + more)
    requires Sorted(log)
    ensures LowerBound(log, t) <= LowerBound(log + more, t)
  {
    var p, q := LowerBound(log, t), LowerBound(log + more, t);
    assert q < |log| ==> t <= (log + more)[q].stamp && (log + more)[q] == log[q];
  }

  /** A cursor whose timestamp the log has reached keeps denoting the same prefix
      however the log grows. */
  lemma PrefixStable(log: seq<Record>, more: seq<Record>, c: LogCursor)
    requires Sorted(log + more) && Sorted(log)
    requires LowerBound(log, c.at) < |log|
    requires LowerBound(log, c.at) + c.count <= UpperBound(log, c.at)
    ensures LowerBound(log + more, c.at) + c.count <= UpperBound(log + more, c.at)
    ensures Prefix(log + more, c) == Prefix(log, c)
  {
    LowerBoundStable(log, more, c.at);
    LowerBoundGrows(log, more, c.at + 1);
  }

  /** The delivery guarantee is not lost when the container logs more records or
      Web accepts more of them. */
  lemma SafeGrows(log: seq<Record>, more: seq<Record>, accepted: seq<nat>, later: seq<nat>, c: LogCursor,
      origin: Origin)
    requires Sorted(log + more) && Sorted(log)
    requires Safe(log, accepted, c, origin)
    ensures Safe(log + more, accepted + later, c, origin)
  {
    var all := log + more;
    if LowerBound(log, c.at) < UpperBound(log, c.at) {
      PrefixStable(log, more, c);
      LowerBoundStable(log, more, c.at);
      LowerBoundGrows(log, more, c.at + 1);
      assert LowerBound(all, c.at) < UpperBound(all, c.at);
      if origin.AtTime? {
        assert LowerBound(log, origin.time) < |log| by {
          var p := LowerBound(log, c.at);
          assert log[p].stamp == c.at;
        }
        LowerBoundStable(log, more, origin.time);
      }
      assert Start(all, origin) == Start(log, origin);
    } else {
      assert Prefix(all, c) == LowerBound(all, c.at) == Start(all, origin);
    }
  }

  /** The cursor recorded after record k-1 denotes a prefix that reaches exactly
      k unless the scan began inside the run of equal timestamps it is still in. */
  lemma CursorAfterPrefix(log: seq<Record>, floor: nat, k: nat)
    requires Sorted(log) && floor < k <= |log|
    ensures
      var c := CursorAfter(log, floor, k);
      var run := LowerBound(log, c.at);
      && run < k <= UpperBound(log, c.at)
      && run + c.count <= UpperBound(log, c.at)
      && Prefix(log, c) <= k
      && (Prefix(log, c) == k <==> floor <= run)
  {
  }

  /** Where a scan from that cursor resumes: behind record k-1, or, when counting
      began inside the run of equal timestamps, as many records into the run as
      were counted, whichever records of it those were. */
  lemma ResumesAt(log: seq<Record>, floor: nat, k: nat)
    requires Sorted(log) && floor < k <= |log|
    ensures
      var run := LowerBound(log, log[k - 1].stamp);
      Prefix(log, CursorAfter(log, floor, k)) == if floor <= run then k else run + (k - floor)
  {
  }

  /** Three records share their timestamp and the tail begins at the second: the
      cursor behind all three counts two, so a later scan resumes at the third and
      sends it again. */
  lemma TailInsideRun(body: string)
    ensures
      var log := [Record(5, body), Record(5, body), Record(5, body)];
      var c := CursorAfter(log, 1, 3);
      Sorted(log) && c == LogCursor(5, 2) && Prefix(log, c) == 2 &&
      2 in Range(1, 3) && 2 in Range(Prefix(log, c), 3)
  {
    hide LowerBound;
    var log := [Record(5, body), Record(5, body), Record(5, body)];
    LowerBoundUnique(log, 5, 0);
    LowerBoundUnique(log, 6, 3);
    RangeContains(1, 3, 2);
    RangeContains(2, 3, 2);
  }

  /** Eleven records share their timestamp and the tail is the last of them: the
      cursor counts one, so a later scan resumes at the second record and sends
      nine that are older than the tail, besides the last one again. */
  lemma TailEndsRun(log: seq<Record>)
    requires |log| == 11 && forall i :: 0 <= i < |log| ==> log[i].stamp == 5
    ensures Sorted(log) && CursorAfter(log, 10, 11) == LogCursor(5, 1) && Prefix(log, CursorAfter(log, 10, 11)) == 1
    ensures forall i :: 1 <= i < 10 ==> i in Range(1, 11) && i !in Range(10, 11)
    ensures 10 in Range(1, 11) && 10 in Range(10, 11)
  {
    hide LowerBound;
    LowerBoundUnique(log, 5, 0);
    LowerBoundUnique(log, 6, 11);
    forall i | 1 <= i <= 10
      ensures i in Range(1, 11)
    {
      RangeContains(1, 11, i);
    }
    RangeContains(10, 11, 10);
  }

  /** Recording the cursor after record k-1 is safe once every record from the
      origin up to k has been accepted. */
  lemma CursorAfterSafe(log: seq<Record>, accepted: seq<nat>, floor: nat, k: nat, origin: Origin)
    requires ValidLog(log) && floor < k <= |log|
    requires origin.AtTime? ==> origin.time <= log[k - 1].stamp
    requires forall i :: Start(log, origin) <= i < k ==> i in accepted
    ensures Safe(log, accepted, CursorAfter(log, floor, k), origin)
  {
  }

  /** One record further: the incremental update of the scan loop computes the
      cursor after the next record. */
  lemma CursorAfterStep(log: seq<Record>, floor: nat, k: nat)
    requires Sorted(log) && floor < k < |log|
    ensures
      var c, stamp := CursorAfter(log, floor, k), log[k].stamp;
      CursorAfter(log, floor, k + 1) ==
        if c.at < stamp then LogCursor(stamp, 1) else LogCursor(c.at, c.count + 1)
  {
  }

  /** How many of the first k records carry timestamp t. */
  ghost function SeenAt(log: seq<Record>, t: nat, k: nat): nat
    requires Sorted(log) && k <= |log|
  {
    if k <= LowerBound(log, t) then 0
    else if k <= UpperBound(log, t) then k - LowerBound(log, t)
    else UpperBound(log, t) - LowerBound(log, t)
  }

  /** The filter of the scan loop, counting the records at the start timestamp,
      passes over exactly the prefix the start cursor denotes. */
  lemma FilterDropsPrefix(log: seq<Record>, start: LogCursor, k: nat)
    requires Sorted(log) && k < |log|
    ensures
      var stamp, seen := log[k].stamp, SeenAt(log, start.at, k);
      && SeenAt(log, start.at, k + 1) == (if stamp == start.at then seen + 1 else seen)
      && ((stamp < start.at || (stamp == start.at && seen + 1 <= start.count)) <==> k < Prefix(log, start))
  {
  }

  const NANOS: int := 1_000_000_000

  /** The since parameter sent to Docker: one second before the cursor, rounded
      down to whole seconds. */
  function QuerySecond(at: nat): int {
    (at as int - NANOS) / NANOS
  }

  /** The index of the first record at or after the queried second. */
  ghost function WindowStart(log: seq<Record>, at: nat): nat
    requires Sorted(log)
  {
    LowerBound(log, if QuerySecond(at) < 0 then 0 else QuerySecond(at) * NANOS)
  }

  lemma WindowStartUnique(log: seq<Record>, at: nat, p: nat)
    requires Sorted(log) && p <= |log|
    requires forall i :: 0 <= i < p ==> log[i].stamp as int < QuerySecond(at) * NANOS
    requires p < |log| ==> QuerySecond(at) * NANOS <= log[p].stamp as int
    ensures WindowStart(log, at) == p
  {
    assert forall i :: p <= i < |log| ==> log[p].stamp <= log[i].stamp;
    LowerBoundUnique(log, if QuerySecond(at) < 0 then 0 else QuerySecond(at) * NANOS, p);
  }

  /** The query window loses nothing: every record at or after the cursor's
      timestamp is at or after the queried second. */
  lemma QueryWindowCovers(log: seq<Record>, c: LogCursor)
    requires Sorted(log)
    ensures WindowStart(log, c.at) <= LowerBound(log, c.at) <= Prefix(log, c)
  {
  }

  /** Nor does it ask for much more: nothing younger than a second is left out, and
      nothing that was two seconds old comes back. */
  lemma QueryWindowTight(log: seq<Record>, at: nat, i: nat)
    requires Sorted(log) && i < |log|
    ensures i < WindowStart(log, at) ==> log[i].stamp + 1_000_000_000 < at
    ensures WindowStart(log, at) <= i ==> at < log[i].stamp + 2_000_000_000
  {
  }

  /** Windows only move forward with the cursor. */
  lemma QueryWindowMonotone(log: seq<Record>, at: nat, later: nat)
    requires Sorted(log) && at <= later
    ensures WindowStart(log, at) <= WindowStart(log, later)
  {
    assert QuerySecond(at) <= QuerySecond(later);
    var v, w := WindowStart(log, at), WindowStart(log, later);
    assert 0 < v ==> log[v - 1].stamp as int < (if QuerySecond(at) < 0 then 0 else QuerySecond(at) * NANOS);
    assert w < |log| ==> (if QuerySecond(later) < 0 then 0 else QuerySecond(later) * NANOS) <= log[w].stamp as int;
  }

  /** Later records neither move the window past one it covered nor shorten the
      prefix a cursor denotes. */
  lemma StillInReach(log: seq<Record>, more: seq<Record>, c: LogCursor, bad: nat)
    requires Sorted(log) && Sorted(log + more)
    requires WindowStart(log, c.at) <= bad < |log|
    ensures WindowStart(log + more, c.at) <= bad && (log + more)[bad] == log[bad]
    ensures Prefix(log, c) <= Prefix(log + more, c)
  {
    LowerBoundStable(log, more, if QuerySecond(c.at) < 0 then 0 else QuerySecond(c.at) * NANOS);
    LowerBoundGrows(log, more, c.at);
    LowerBoundGrows(log, more, c.at + 1);
  }
}
