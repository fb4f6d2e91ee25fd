/**
  Three goroutines share one snapshot: the health checks, the Web sync and the
  log collector.  mu makes single reads and writes of the memory atomic, saveMu
  is held around saves.  The step system takes one action of one goroutine at a
  time, at the granularity of those two locks; everything Web, Docker and the
  disk may do, and a crash, are steps too.
 */
module Interleaving {
  import opened AuditDelivery
  import opened AuditFile
  import opened Bytes
  import opened LogCursors
  import opened Options

  /** A log cursor with the boundary its deliveries count from. */
  datatype Mark = Mark(cursor: LogCursor, origin: Origin)

  datatype Snapshot = Snapshot(cursors: map<string, Mark>, audit: nat)

  datatype Thread = Check | Sync | Logs

  /** persistLogCursor: set, take saveMu, save, release it, and after a failed
      save put the previous cursor back. */
  datatype LogPc = LogIdle | LogSet(id: string, previous: Option<Mark>) | LogLocked(id: string, previous: Option<Mark>)
    | LogSaved(ok: bool, id: string, previous: Option<Mark>) | LogUndo(id: string, previous: Option<Mark>)

  /** persistAuditOffset: all of it under saveMu. */
  datatype SyncPc = SyncIdle | SyncLocked | SyncSet(previous: nat) | SyncFailed(previous: nat) | SyncDone

  datatype CheckPc = CheckIdle | CheckLocked | CheckDone

  /** A container's log and the records of it that Web has accepted. */
  datatype Feed = Feed(log: seq<Record>, accepted: seq<nat>)

  /** The audit file, the events accepted, and the checkpoint they count from. */
  datatype Events = Events(content: seq<Byte>, wellFormed: seq<Byte> -> bool, accepted: seq<nat>, origin: nat)

  datatype State = State(
    memory: Snapshot, disk: Snapshot, owner: Option<Thread>,
    check: CheckPc, sync: SyncPc, logs: LogPc,
    feeds: map<string, Feed>, events: Events)

  datatype Step =
    | Write(id: string, more: seq<Record>)
    | AcceptRecords(id: string, indices: seq<nat>)
    | WriteEvent(bytes: seq<Byte>)
    | AcceptEvents(starts: seq<nat>)
    | SetCursor(id: string, mark: Mark)
    | LockLogs | SaveLogs(ok: bool) | UnlockLogs | Rollback
    | LockSync | SetOffset(next: nat) | SaveSync(ok: bool) | RestoreOffset | UnlockSync
    | LockCheck | SaveCheck(ok: bool) | UnlockCheck
    | Crash

  ghost predicate ValidFeeds(feeds: map<string, Feed>) {
    forall id :: id in feeds ==> ValidLog(feeds[id].log)
  }

  /** The mark covers only accepted records. */
  ghost predicate SafeMark(feeds: map<string, Feed>, id: string, m: Mark)
    requires ValidFeeds(feeds)
  {
    id in feeds && Safe(feeds[id].log, feeds[id].accepted, m.cursor, m.origin)
  }

  ghost predicate SafeOffset(e: Events, offset: nat) {
    OffsetSafe(e.content, e.wellFormed, e.accepted, e.origin, offset)
  }

  /** The goroutine at the step is where the step needs it, and what it writes
      is what its scan justifies: the collector a cursor over accepted records
      that keeps the origin of the one it replaces, the sync an offset over
      accepted events.  Modules Collector and AuditDelivery prove that the
      methods call persist only then. */
  ghost predicate Enabled(s: State, step: Step)
    requires ValidFeeds(s.feeds)
  {
    match step
    case Write(id, more) => ValidLog((if id in s.feeds then s.feeds[id].log else []) + more)
    case AcceptRecords(id, _) => id in s.feeds
    case WriteEvent(_) => true
    case AcceptEvents(_) => true
    case SetCursor(id, mark) => s.logs.LogIdle? && SafeMark(s.feeds, id, mark) &&
      (id in s.memory.cursors ==> mark.origin == s.memory.cursors[id].origin)
    case LockLogs => s.logs.LogSet? && s.owner.None?
    case SaveLogs(_) => s.logs.LogLocked?
    case UnlockLogs => s.logs.LogSaved?
    case Rollback => s.logs.LogUndo?
    case LockSync => s.sync.SyncIdle? && s.owner.None?
    case SetOffset(next) => s.sync.SyncLocked? && SafeOffset(s.events, next)
    case SaveSync(_) => s.sync.SyncSet?
    case RestoreOffset => s.sync.SyncFailed?
    case UnlockSync => s.sync.SyncDone?
    case LockCheck => s.check.CheckIdle? && s.owner.None?
    case SaveCheck(_) => s.check.CheckLocked?
    case UnlockCheck => s.check.CheckDone?
    case Crash => true
  }

  ghost function Saved(s: State, ok: bool): Snapshot {
    if ok then s.memory else s.disk
  }

  ghost function Put(cursors: map<string, Mark>, id: string, previous: Option<Mark>): map<string, Mark> {
    match previous
    case Some(mark) => cursors[id := mark]
    case None => cursors - {id}
  }

  ghost function Apply(s: State, step: Step): State
    requires ValidFeeds(s.feeds) && Enabled(s, step)
  {
    match step
    case Write(id, more) =>
      var feed := if id in s.feeds then s.feeds[id] else Feed([], []);
      s.(feeds := s.feeds[id := feed.(log := feed.log + more)])
    case AcceptRecords(id, indices) =>
      s.(feeds := s.feeds[id := s.feeds[id].(accepted := s.feeds[id].accepted + indices)])
    case WriteEvent(bytes) => s.(events := s.events.(content := s.events.content + bytes))
    case AcceptEvents(starts) => s.(events := s.events.(accepted := s.events.accepted + starts))
    case SetCursor(id, mark) =>
      s.(memory := s.memory.(cursors := s.memory.cursors[id := mark]),
         logs := LogSet(id, if id in s.memory.cursors then Some(s.memory.cursors[id]) else None))
    case LockLogs => s.(owner := Some(Logs), logs := LogLocked(s.logs.id, s.logs.previous))
    case SaveLogs(ok) => s.(disk := Saved(s, ok), logs := LogSaved(ok, s.logs.id, s.logs.previous))
    case UnlockLogs => s.(owner := None, logs := if s.logs.ok then LogIdle else LogUndo(s.logs.id, s.logs.previous))
    case Rollback => s.(memory := s.memory.(cursors := Put(s.memory.cursors, s.logs.id, s.logs.previous)),
          logs := LogIdle)
    case LockSync => s.(owner := Some(Sync), sync := SyncLocked)
    case SetOffset(next) => s.(memory := s.memory.(audit := next), sync := SyncSet(s.memory.audit))
    case SaveSync(ok) => s.(disk := Saved(s, ok), sync := if ok then SyncDone else SyncFailed(s.sync.previous))
    case RestoreOffset => s.(memory := s.memory.(audit := s.sync.previous), sync := SyncDone)
    case UnlockSync => s.(owner := None, sync := SyncIdle)
    case LockCheck => s.(owner := Some(Check), check := CheckLocked)
    case SaveCheck(ok) => s.(disk := Saved(s, ok), check := CheckDone)
    case UnlockCheck => s.(owner := None, check := CheckIdle)
    case Crash => s.(memory := s.disk, owner := None, check := CheckIdle, sync := SyncIdle, logs := LogIdle)
  }

  // ----- the invariant -----

  ghost predicate SafeCursors(feeds: map<string, Feed>, cursors: map<string, Mark>)
    requires ValidFeeds(feeds)
  {
    forall id :: id in cursors ==> SafeMark(feeds, id, cursors[id])
  }

  /** The collector can always go back to a safe cursor. */
  ghost predicate SafeUndo(s: State)
    requires ValidFeeds(s.feeds)
  {
    !s.logs.LogIdle? && s.logs.previous.Some? ==> SafeMark(s.feeds, s.logs.id, s.logs.previous.value)
  }

  ghost predicate Mutex(s: State) {
    && (s.owner == Some(Check) <==> !s.check.CheckIdle?)
    && (s.owner == Some(Sync) <==> !s.sync.SyncIdle?)
    && (s.owner == Some(Logs) <==> s.logs.LogLocked? || s.logs.LogSaved?)
  }

  /** The memory's offset runs ahead of the disk only inside the sync goroutine's
      critical section. */
  ghost predicate OffsetsAgree(s: State) {
    && (s.sync.SyncIdle? || s.sync.SyncLocked? || s.sync.SyncDone? ==> s.memory.audit == s.disk.audit)
    && (s.sync.SyncSet? || s.sync.SyncFailed? ==> s.sync.previous == s.disk.audit)
  }

  ghost predicate Inv(s: State) {
    && ValidFeeds(s.feeds)
    && SafeCursors(s.feeds, s.memory.cursors) && SafeCursors(s.feeds, s.disk.cursors) && SafeUndo(s)
    && SafeOffset(s.events, s.memory.audit) && SafeOffset(s.events, s.disk.audit)
    && Mutex(s) && OffsetsAgree(s)
  }

  /** Growth of one container's log and deliveries keeps every mark safe. */
  lemma SafeMarkGrows(feeds: map<string, Feed>, at: string, more: seq<Record>, later: seq<nat>, id: string, m: Mark)
    requires ValidFeeds(feeds) && SafeMark(feeds, id, m)
    requires ValidLog((if at in feeds then feeds[at].log else []) + more)
    ensures
      var feed := if at in feeds then feeds[at] else Feed([], []);
      var feeds' := feeds[at := Feed(feed.log + more, feed.accepted + later)];
      ValidFeeds(feeds') && SafeMark(feeds', id, m)
  {
    if id == at {
      SafeGrows(feeds[id].log, more, feeds[id].accepted, later, m.cursor, m.origin);
    }
  }

  lemma FeedsGrow(s: State, at: string, more: seq<Record>, later: seq<nat>)
    requires Inv(s) && ValidLog((if at in s.feeds then s.feeds[at].log else []) + more)
    ensures
      var feed := if at in s.feeds then s.feeds[at] else Feed([], []);
      Inv(s.(feeds := s.feeds[at := Feed(feed.log + more, feed.accepted + later)]))
  {
    hide Safe;
    var feed := if at in s.feeds then s.feeds[at] else Feed([], []);
    var feeds' := s.feeds[at := Feed(feed.log + more, feed.accepted + later)];
    forall id | id in s.memory.cursors
      ensures SafeMark(feeds', id, s.memory.cursors[id])
    {
      SafeMarkGrows(s.feeds, at, more, later, id, s.memory.cursors[id]);
    }
    forall id | id in s.disk.cursors
      ensures SafeMark(feeds', id, s.disk.cursors[id])
    {
      SafeMarkGrows(s.feeds, at, more, later, id, s.disk.cursors[id]);
    }
    if !s.logs.LogIdle? && s.logs.previous.Some? {
      SafeMarkGrows(s.feeds, at, more, later, s.logs.id, s.logs.previous.value);
    }
  }

  lemma EventsGrow(s: State, more: seq<Byte>, later: seq<nat>)
    requires Inv(s)
    ensures Inv(s.(events := s.events.(content := s.events.content + more, accepted := s.events.accepted + later)))
  {
    hide Safe;
    var e := s.events;
    OffsetSafeGrows(e.content, more, e.wellFormed, e.accepted, later, e.origin, s.memory.audit);
    OffsetSafeGrows(e.content, more, e.wellFormed, e.accepted, later, e.origin, s.disk.audit);
  }

  /** Every step of every goroutine keeps the invariant. */
  lemma StepKeepsInv(s: State, step: Step)
    requires Inv(s) && Enabled(s, step)
    ensures Inv(Apply(s, step))
  {
    hide Safe, OffsetSafe;
    match step
    case Write(id, more) =>
      FeedsGrow(s, id, more, []);
      assert forall accepted: seq<nat> :: accepted + [] == accepted;
    case AcceptRecords(id, indices) =>
      assert s.feeds[id].log + [] == s.feeds[id].log;
      FeedsGrow(s, id, [], indices);
    case WriteEvent(bytes) =>
      assert s.events.accepted + [] == s.events.accepted;
      EventsGrow(s, bytes, []);
    case AcceptEvents(starts) =>
      assert s.events.content + [] == s.events.content;
      EventsGrow(s, [], starts);
    case _ =>
  }

  // ----- runs -----

  ghost predicate Runnable(s: State, steps: seq<Step>)
    decreases |steps|
  {
    steps == [] || (ValidFeeds(s.feeds) && Enabled(s, steps[0]) && Runnable(Apply(s, steps[0]), steps[1..]))
  }

  ghost function After(s: State, steps: seq<Step>): State
    requires Runnable(s, steps)
    decreases |steps|
  {
    if steps == [] then s else After(Apply(s, steps[0]), steps[1..])
  }

  /** Interleaving safety.  After any run whatsoever the offsets in memory and on
      disk agree whenever saveMu is free, and every cursor and offset, tentative
      ones saved by another goroutine included, covers only what was accepted. */
  lemma {:induction false} RunsAreSafe(s: State, steps: seq<Step>)
    requires Inv(s) && Runnable(s, steps)
    ensures
      var t := After(s, steps);
      && Inv(t)
      && (t.owner.None? ==> t.memory.audit == t.disk.audit)
      && (forall id :: id in t.disk.cursors ==> SafeMark(t.feeds, id, t.disk.cursors[id]))
      && (forall id :: id in t.memory.cursors ==> SafeMark(t.feeds, id, t.memory.cursors[id]))
    decreases |steps|
  {
    hide Safe, OffsetSafe;
    if steps != [] {
      StepKeepsInv(s, steps[0]);
      RunsAreSafe(Apply(s, steps[0]), steps[1..]);
    }
  }

  // ----- is the first persisted boundary final? -----

  /** The collector gives up a first boundary that another goroutine has already
      written to disk. */
  ghost predicate Abandons(s: State, step: Step) {
    step.Rollback? && s.logs.LogUndo? && s.logs.previous.None? && s.logs.id in s.disk.cursors
  }

  ghost predicate SameOrigins(s: State) {
    && (forall id :: id in s.disk.cursors ==>
      id in s.memory.cursors && s.memory.cursors[id].origin == s.disk.cursors[id].origin)
    && (!s.logs.LogIdle? ==> s.logs.id in s.memory.cursors)
    && (!s.logs.LogIdle? && s.logs.previous.Some? ==>
      s.logs.previous.value.origin == s.memory.cursors[s.logs.id].origin)
  }

  ghost predicate KeepsBoundaries(s: State, t: State) {
    forall id :: id in s.disk.cursors ==> id in t.disk.cursors && t.disk.cursors[id].origin == s.disk.cursors[id].origin
  }

  lemma StepKeepsBoundaries(s: State, step: Step)
    requires ValidFeeds(s.feeds) && SameOrigins(s) && Enabled(s, step) && !Abandons(s, step)
    ensures SameOrigins(Apply(s, step)) && KeepsBoundaries(s, Apply(s, step))
  {
    hide Safe, OffsetSafe;
  }

  /** Memory and disk have the same boundary for the container, and a cursor of it
      on its way to disk replaces one that counts from there. */
  ghost predicate Settled(s: State, id: string) {
    && id in s.disk.cursors && id in s.memory.cursors
    && s.memory.cursors[id].origin == s.disk.cursors[id].origin
    && (!s.logs.LogIdle? && s.logs.id == id ==>
          s.logs.previous.Some? && s.logs.previous.value.origin == s.disk.cursors[id].origin)
  }

  lemma StepKeepsSettled(s: State, step: Step, id: string)
    requires ValidFeeds(s.feeds) && Enabled(s, step) && Settled(s, id)
    ensures Settled(Apply(s, step), id)
    ensures Apply(s, step).disk.cursors[id].origin == s.disk.cursors[id].origin
  {
    hide Safe, OffsetSafe, ValidLog;
  }

  /** A settled boundary is the one the container's deliveries count from through
      every later run, whatever fails and whatever becomes of other containers. */
  lemma {:induction false} FirstBoundaryIsFinal(s: State, steps: seq<Step>, id: string)
    requires Inv(s) && Settled(s, id) && Runnable(s, steps)
    ensures Settled(After(s, steps), id)
    ensures After(s, steps).disk.cursors[id].origin == s.disk.cursors[id].origin
    decreases |steps|
  {
    hide Inv, Settled, Apply, Enabled;
    if steps != [] {
      StepKeepsInv(s, steps[0]);
      InvMeans(s);
      StepKeepsSettled(s, steps[0], id);
      SettledHas(Apply(s, steps[0]), id);
      FirstBoundaryIsFinal(Apply(s, steps[0]), steps[1..], id);
    }
  }

  lemma SettledHas(s: State, id: string)
    requires Settled(s, id)
    ensures id in s.disk.cursors
  {
  }

  lemma InvMeans(s: State)
    requires Inv(s)
    ensures ValidFeeds(s.feeds)
  {
  }

  /** Taking an abandoned boundary back leaves the disk with one the memory lacks. */
  lemma AbandonBreaks(s: State, step: Step)
    requires ValidFeeds(s.feeds) && Enabled(s, step) && Abandons(s, step)
    ensures !SameOrigins(Apply(s, step))
  {
    assert s.logs.id !in Apply(s, step).memory.cursors;
  }

  /** So a step keeps disk and memory in agreement exactly when it abandons nothing. */
  lemma StepKeepsOriginsIff(s: State, step: Step)
    requires ValidFeeds(s.feeds) && SameOrigins(s) && Enabled(s, step)
    ensures SameOrigins(Apply(s, step)) <==> !Abandons(s, step)
  {
    hide Apply, Enabled, SameOrigins;
    if Abandons(s, step) {
      AbandonBreaks(s, step);
    } else {
      StepKeepsBoundaries(s, step);
    }
  }

  /** The condition is exact: between two scans, a boundary on disk is final for
      every later run if and only if the memory has the same one.  Otherwise the
      next save of the checks already moves or drops it. */
  lemma BoundaryFinalIff(s: State, id: string)
    requires Inv(s) && s.owner == None && s.logs == LogIdle && id in s.disk.cursors
    ensures (id in s.memory.cursors && s.memory.cursors[id].origin == s.disk.cursors[id].origin) <==>
      forall steps :: Runnable(s, steps) ==>
        var t := After(s, steps);
        id in t.disk.cursors && t.disk.cursors[id].origin == s.disk.cursors[id].origin
  {
    hide Runnable, After, Enabled, Apply;
    if id in s.memory.cursors && s.memory.cursors[id].origin == s.disk.cursors[id].origin {
      forall steps | Runnable(s, steps)
        ensures
          var t := After(s, steps);
          id in t.disk.cursors && t.disk.cursors[id].origin == s.disk.cursors[id].origin
      {
        FirstBoundaryIsFinal(s, steps, id);
      }
    } else {
      CheckSaves(s);
    }
  }

  /** A run that breaks it: the checks save the tentative boundary of a first
      scan, the collector's own save of it fails, and by the next scan the tail
      has moved on. */
  ghost function TentativeRun(): seq<Step> {
    [SetCursor("c", Mark(LogCursor(5, 0), AtIndex(0))),
     LockCheck, SaveCheck(true), UnlockCheck,
     LockLogs, SaveLogs(false), UnlockLogs, Rollback]
  }

  ghost function SecondScan(): seq<Step> {
    [Write("c", [Record(9, "later")]),
     SetCursor("c", Mark(LogCursor(9, 0), AtIndex(1))),
     LockLogs, SaveLogs(true), UnlockLogs]
  }

  ghost function FreshStart(wellFormed: seq<Byte> -> bool): State {
    State(Snapshot(map[], 0), Snapshot(map[], 0), None, CheckIdle, SyncIdle, LogIdle,
      map["c" := Feed([Record(5, "first")], [])], Events([], wellFormed, [], 0))
  }

  lemma {:induction false} RunnableConcat(s: State, first: seq<Step>, second: seq<Step>)
    requires Runnable(s, first) && Runnable(After(s, first), second)
    ensures Runnable(s, first + second) && After(s, first + second) == After(After(s, first), second)
    decreases |first|
  {
    if first == [] {
      assert first + second == second;
    } else {
      RunnableConcat(Apply(s, first[0]), first[1..], second);
      assert (first + second)[1..] == first[1..] + second;
    }
  }

  lemma FreshStartInv(wellFormed: seq<Byte> -> bool)
    ensures Inv(FreshStart(wellFormed))
  {
    assert EventsBetween([], wellFormed, 0, 0) == [];
  }

  lemma BoundaryMarks()
    ensures
      var one := [Record(5, "first")];
      var two := one + [Record(9, "later")];
      && ValidLog(one) && Safe(one, [], LogCursor(5, 0), AtIndex(0))
      && ValidLog(two) && Safe(two, [], LogCursor(9, 0), AtIndex(1)) && Prefix(two, LogCursor(9, 0)) == 1
  {
    var one := [Record(5, "first")];
    var two := one + [Record(9, "later")];
    hide LowerBound;
    LowerBoundUnique(one, 5, 0);
    LowerBoundUnique(one, 6, 1);
    LowerBoundUnique(two, 9, 1);
    LowerBoundUnique(two, 10, 2);
  }

  lemma RunnableStep(s: State, steps: seq<Step>)
    requires steps != [] && ValidFeeds(s.feeds) && Enabled(s, steps[0]) && Runnable(Apply(s, steps[0]), steps[1..])
    ensures Runnable(s, steps) && After(s, steps) == After(Apply(s, steps[0]), steps[1..])
  {
  }

  lemma RunnableOne(s: State, a: Step)
    requires ValidFeeds(s.feeds) && Enabled(s, a)
    ensures Runnable(s, [a]) && After(s, [a]) == Apply(s, a)
  {
    hide Apply, Enabled;
    assert [a][1..] == [];
  }

  /** Four steps are as far as the proof unfolds a run at once. */
  lemma RunnableFour(s: State, a: Step, b: Step, c: Step, d: Step)
    requires ValidFeeds(s.feeds) && Enabled(s, a)
    requires var t := Apply(s, a); ValidFeeds(t.feeds) && Enabled(t, b)
    requires var t := Apply(Apply(s, a), b); ValidFeeds(t.feeds) && Enabled(t, c)
    requires var t := Apply(Apply(Apply(s, a), b), c); ValidFeeds(t.feeds) && Enabled(t, d)
    ensures Runnable(s, [a, b, c, d])
    ensures After(s, [a, b, c, d]) == Apply(Apply(Apply(Apply(s, a), b), c), d)
  {
    hide Apply, Enabled, ValidFeeds;
    var t := Apply(Apply(Apply(s, a), b), c);
    assert [a, b, c, d][1..] == [b, c, d] && [b, c, d][1..] == [c, d] && [c, d][1..] == [d] && [d][1..] == [];
    RunnableStep(t, [d]);
    RunnableStep(Apply(Apply(s, a), b), [c, d]);
    RunnableStep(Apply(s, a), [b, c, d]);
    RunnableStep(s, [a, b, c, d]);
  }

  /** A save by the checks, whatever is in memory. */
  lemma CheckSaves(s: State)
    requires ValidFeeds(s.feeds) && s.owner == None && s.check == CheckIdle
    ensures
      var steps := [LockCheck, SaveCheck(true), UnlockCheck];
      Runnable(s, steps) && After(s, steps) == s.(disk := s.memory)
  {
    hide Runnable, After;
    var steps := [LockCheck, SaveCheck(true), UnlockCheck];
    var t := Apply(s, LockCheck);
    assert steps[1..] == [SaveCheck(true), UnlockCheck] && steps[1..][1..] == [UnlockCheck];
    RunnableOne(Apply(t, SaveCheck(true)), UnlockCheck);
    RunnableStep(t, steps[1..]);
    RunnableStep(s, steps);
  }

  /** An offset that is saved moves on disk and in memory, with whatever else is in
      memory by then; after a save that fails nothing has changed. */
  lemma SyncPersists(s: State, next: nat)
    requires ValidFeeds(s.feeds) && s.owner == None && s.sync == SyncIdle && SafeOffset(s.events, next)
    ensures
      var steps := [LockSync, SetOffset(next), SaveSync(true), UnlockSync];
      var moved := s.memory.(audit := next);
      Runnable(s, steps) && After(s, steps) == s.(memory := moved, disk := moved)
    ensures
      var steps := [LockSync, SetOffset(next), SaveSync(false), RestoreOffset] + [UnlockSync];
      Runnable(s, steps) && After(s, steps) == s
  {
    hide Runnable, After, OffsetSafe;
    RunnableFour(s, LockSync, SetOffset(next), SaveSync(true), UnlockSync);
    var failed := [LockSync, SetOffset(next), SaveSync(false), RestoreOffset];
    RunnableFour(s, LockSync, SetOffset(next), SaveSync(false), RestoreOffset);
    RunnableOne(After(s, failed), UnlockSync);
    RunnableConcat(s, failed, [UnlockSync]);
  }

  /** Delivering records and then persisting a cursor over them reaches the disk;
      nothing but that container's deliveries and cursor changes on the way. */
  lemma DeliveryPersists(s: State, id: string, indices: seq<nat>, mark: Mark)
    requires ValidFeeds(s.feeds) && s.owner == None && s.logs == LogIdle && id in s.feeds
    requires Safe(s.feeds[id].log, s.feeds[id].accepted + indices, mark.cursor, mark.origin)
    requires id in s.memory.cursors ==> mark.origin == s.memory.cursors[id].origin
    ensures
      var steps := [AcceptRecords(id, indices), SetCursor(id, mark), LockLogs, SaveLogs(true)] + [UnlockLogs];
      var moved := s.memory.(cursors := s.memory.cursors[id := mark]);
      var feed := s.feeds[id].(accepted := s.feeds[id].accepted + indices);
      Runnable(s, steps) && After(s, steps) == s.(memory := moved, disk := moved, feeds := s.feeds[id := feed])
  {
    hide Runnable, After, Safe, ValidLog;
    var four := [AcceptRecords(id, indices), SetCursor(id, mark), LockLogs, SaveLogs(true)];
    RunnableFour(s, AcceptRecords(id, indices), SetCursor(id, mark), LockLogs, SaveLogs(true));
    RunnableOne(After(s, four), UnlockLogs);
    RunnableConcat(s, four, [UnlockLogs]);
  }

  /** The collector sets its cursor while another goroutine holds the save lock: the
      save of that goroutine takes the tentative cursor to the disk. */
  lemma SavedByAnother(s: State, id: string, mark: Mark)
    requires ValidFeeds(s.feeds) && s.check == CheckLocked && s.logs == LogIdle && SafeMark(s.feeds, id, mark)
    requires id in s.memory.cursors ==> mark.origin == s.memory.cursors[id].origin
    ensures
      var steps := [SetCursor(id, mark), SaveCheck(true)];
      Runnable(s, steps) && id in After(s, steps).disk.cursors && After(s, steps).disk.cursors[id] == mark
    ensures After(s, [SetCursor(id, mark), SaveCheck(true)]).disk.audit == s.memory.audit
  {
    hide Runnable, After, SafeMark;
    var steps := [SetCursor(id, mark), SaveCheck(true)];
    assert steps[1..] == [SaveCheck(true)];
    RunnableOne(Apply(s, SetCursor(id, mark)), SaveCheck(true));
    RunnableStep(s, steps);
  }

  /** The same for an event that is recorded, shipped and passed by the offset. */
  lemma EventPersists(s: State, bytes: seq<Byte>, starts: seq<nat>, next: nat)
    requires ValidFeeds(s.feeds) && s.owner == None && s.sync == SyncIdle
    requires
      var e := s.events;
      OffsetSafe(e.content + bytes, e.wellFormed, e.accepted + starts, e.origin, next)
    ensures
      var steps := [WriteEvent(bytes), AcceptEvents(starts)] + [LockSync, SetOffset(next), SaveSync(true), UnlockSync];
      var e, moved := s.events, s.memory.(audit := next);
      Runnable(s, steps) && After(s, steps) ==
        s.(memory := moved, disk := moved,
           events := e.(content := e.content + bytes, accepted := e.accepted + starts))
  {
    hide Runnable, After, OffsetSafe;
    var t := Apply(s, WriteEvent(bytes));
    RunnableOne(t, AcceptEvents(starts));
    assert [WriteEvent(bytes), AcceptEvents(starts)][1..] == [AcceptEvents(starts)];
    RunnableStep(s, [WriteEvent(bytes), AcceptEvents(starts)]);
    var u := Apply(t, AcceptEvents(starts));
    SyncPersists(u, next);
    RunnableConcat(s, [WriteEvent(bytes), AcceptEvents(starts)],
        [LockSync, SetOffset(next), SaveSync(true), UnlockSync]);
  }

  /** After a crash the memory is what was on disk, and every goroutine begins anew. */
  lemma CrashRecovers(s: State)
    requires ValidFeeds(s.feeds)
    ensures
      Runnable(s, [Step.Crash]) &&
      After(s, [Step.Crash]) == State(s.disk, s.disk, None, CheckIdle, SyncIdle, LogIdle, s.feeds, s.events)
  {
    RunnableOne(s, Step.Crash);
  }

  ghost predicate AtRest(s: State) {
    s.owner == None && s.check == CheckIdle && s.sync == SyncIdle && s.logs == LogIdle
  }

  /** How many steps the goroutines are from rest, at most. */
  ghost function ToGo(s: State): nat {
    (match s.check case CheckIdle => 0 case CheckDone => 1 case CheckLocked => 2) +
    (match s.sync
     case SyncIdle => 0
     case SyncDone => 1
     case SyncFailed(_) => 2
     case SyncSet(_) => 3
     case SyncLocked => 4) +
    match s.logs
    case LogIdle => 0
    case LogUndo(_, _) => 1
    case LogSaved(_, _, _) => 2
    case LogLocked(_, _) => 3
    case LogSet(_, _) => 4
  }

  /** A step of the goroutine that holds the lock, or else of the collector. */
  ghost function Onwards(s: State): Step {
    if s.check.CheckLocked? then SaveCheck(true)
    else if s.check.CheckDone? then UnlockCheck
    else if s.sync.SyncLocked? then SetOffset(s.memory.audit)
    else if s.sync.SyncSet? then SaveSync(true)
    else if s.sync.SyncFailed? then RestoreOffset
    else if s.sync.SyncDone? then UnlockSync
    else if s.logs.LogLocked? then SaveLogs(true)
    else if s.logs.LogSaved? then UnlockLogs
    else if s.logs.LogUndo? then Rollback
    else LockLogs
  }

  lemma OnwardsGetsThere(s: State)
    requires Inv(s) && !AtRest(s)
    ensures Enabled(s, Onwards(s)) && ToGo(Apply(s, Onwards(s))) < ToGo(s)
    ensures Apply(s, Onwards(s)).feeds == s.feeds && Apply(s, Onwards(s)).events == s.events && Onwards(s) != Step.Crash
  {
    hide Safe, OffsetSafe, ValidFeeds;
    if s.owner.Some? {
      assert s.owner.value == Check || s.owner.value == Sync || s.owner.value == Logs;
    }
  }

  /** The two locks never block each other: whatever has happened so far, without
      a crash and without another delivery the goroutines can come to rest, and the
      checks then save everything that is in memory. */
  lemma {:induction false} ComesToRest(s: State) returns (steps: seq<Step>)
    requires Inv(s)
    ensures Runnable(s, steps) && Step.Crash !in steps && |steps| <= ToGo(s) + 3
    ensures
      var t := After(s, steps);
      AtRest(t) && t.feeds == s.feeds && t.events == s.events && t.disk == t.memory
    decreases ToGo(s)
  {
    hide Inv, Enabled, Apply, Runnable, After, ToGo, Onwards;
    InvMeans(s);
    if AtRest(s) {
      CheckSaves(s);
      steps := [LockCheck, SaveCheck(true), UnlockCheck];
    } else {
      OnwardsGetsThere(s);
      StepKeepsInv(s, Onwards(s));
      var rest := ComesToRest(Apply(s, Onwards(s)));
      steps := [Onwards(s)] + rest;
      assert steps[1..] == rest;
      RunnableStep(s, steps);
    }
  }

  /** The checks save the collector's tentative boundary with their own state. */
  lemma TentativeSaved(wellFormed: seq<Byte> -> bool)
    ensures
      var s, mark := FreshStart(wellFormed), Mark(LogCursor(5, 0), AtIndex(0));
      var steps := [SetCursor("c", mark), LockCheck, SaveCheck(true), UnlockCheck];
      var saved := Snapshot(map["c" := mark], 0);
      Runnable(s, steps) && After(s, steps) == s.(memory := saved, disk := saved, logs := LogSet("c", None))
  {
    hide Safe, Runnable, After, Inv, LowerBound, Prefix, OffsetSafe;
    var s, mark := FreshStart(wellFormed), Mark(LogCursor(5, 0), AtIndex(0));
    var steps := [SetCursor("c", mark), LockCheck, SaveCheck(true), UnlockCheck];
    BoundaryMarks();
    assert steps[1..] == [LockCheck, SaveCheck(true), UnlockCheck];
    CheckSaves(Apply(s, steps[0]));
    RunnableStep(s, steps);
  }

  /** The collector's own save fails, and it takes the boundary back. */
  lemma TentativeUndone(s: State, saved: Snapshot)
    requires ValidFeeds(s.feeds) && s.owner == None && s.logs == LogSet("c", None) && s.memory == s.disk == saved
    ensures
      var steps := [LockLogs, SaveLogs(false), UnlockLogs, Rollback];
      Runnable(s, steps) && After(s, steps) == s.(memory := saved.(cursors := saved.cursors - {"c"}), logs := LogIdle)
  {
    hide Safe, Runnable, After, Inv;
    RunnableFour(s, LockLogs, SaveLogs(false), UnlockLogs, Rollback);
  }

  lemma TentativeRunEnds(wellFormed: seq<Byte> -> bool)
    ensures
      var s, mark := FreshStart(wellFormed), Mark(LogCursor(5, 0), AtIndex(0));
      && Runnable(s, TentativeRun())
      && After(s, TentativeRun()) == s.(disk := Snapshot(map["c" := mark], 0))
  {
    hide Runnable, After, Apply, Enabled, LowerBound;
    var s, mark := FreshStart(wellFormed), Mark(LogCursor(5, 0), AtIndex(0));
    var first := [SetCursor("c", mark), LockCheck, SaveCheck(true), UnlockCheck];
    var second := [LockLogs, SaveLogs(false), UnlockLogs, Rollback];
    BoundaryMarks();
    TentativeSaved(wellFormed);
    TentativeUndone(After(s, first), Snapshot(map["c" := mark], 0));
    RunnableConcat(s, first, second);
    assert TentativeRun() == first + second;
    assert map["c" := mark] - {"c"} == map[];
  }

  lemma SecondScanEnds(wellFormed: seq<Byte> -> bool)
    ensures
      var s, mark := FreshStart(wellFormed), Mark(LogCursor(5, 0), AtIndex(0));
      var t := s.(disk := Snapshot(map["c" := mark], 0));
      && Runnable(t, SecondScan())
      && After(t, SecondScan()).disk.cursors == map["c" := Mark(LogCursor(9, 0), AtIndex(1))]
      && After(t, SecondScan()).feeds.Keys == {"c"}
      && After(t, SecondScan()).feeds["c"] == Feed([Record(5, "first"), Record(9, "later")], [])
  {
    hide Safe, Runnable, After, Inv, LowerBound, Prefix, OffsetSafe;
    var s, mark := FreshStart(wellFormed), Mark(LogCursor(9, 0), AtIndex(1));
    var t := s.(disk := Snapshot(map["c" := Mark(LogCursor(5, 0), AtIndex(0))], 0));
    BoundaryMarks();
    var write := Write("c", [Record(9, "later")]);
    RunnableFour(t, write, SetCursor("c", mark), LockLogs, SaveLogs(true));
    var u := After(t, [write, SetCursor("c", mark), LockLogs, SaveLogs(true)]);
    RunnableOne(u, UnlockLogs);
    RunnableConcat(t, [write, SetCursor("c", mark), LockLogs, SaveLogs(true)], [UnlockLogs]);
    assert SecondScan() == [write, SetCursor("c", mark), LockLogs, SaveLogs(true)] + [UnlockLogs];
  }

  /** The first run leaves the boundary of index 0 on disk; the second leads from
      there to a cursor that counts from index 1.  The record at index 0, behind
      the first boundary and before the cursor, was never accepted. */
  lemma FirstBoundaryCanBeAbandoned(wellFormed: seq<Byte> -> bool)
    returns (s: State, t: State, u: State)
    ensures Inv(s) && SameOrigins(s)
    ensures Runnable(s, TentativeRun()) && t == After(s, TentativeRun())
    ensures Runnable(t, SecondScan()) && u == After(t, SecondScan())
    ensures t.disk.cursors == map["c" := Mark(LogCursor(5, 0), AtIndex(0))]
    ensures u.disk.cursors == map["c" := Mark(LogCursor(9, 0), AtIndex(1))]
    ensures u.feeds.Keys == {"c"} && u.feeds["c"].accepted == []
    ensures ValidLog(u.feeds["c"].log) && Prefix(u.feeds["c"].log, LogCursor(9, 0)) == 1
  {
    hide Safe, OffsetSafe, Apply, Enabled;
    s := FreshStart(wellFormed);
    FreshStartInv(wellFormed);
    BoundaryMarks();
    TentativeRunEnds(wellFormed);
    SecondScanEnds(wellFormed);
    t, u := After(s, TentativeRun()), After(After(s, TentativeRun()), SecondScan());
    assert [Record(5, "first")] + [Record(9, "later")] == [Record(5, "first"), Record(9, "later")];
  }
}
