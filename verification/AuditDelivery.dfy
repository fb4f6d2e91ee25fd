/**
  Shipping the audit file to Web: read a batch at the offset, send it, persist
  the offset behind it.  As in module Collector, the network and the disk choose
  their outcomes nondeterministically, and a crash is a step of a run.
 */
module AuditDelivery {
  import opened AuditFile
  import opened Bytes

  const EVENTS_PER_BATCH: nat := 100
  const BATCHES_PER_FLUSH: nat := 10

  /** At least once: every event from the origin up to the offset was accepted. */
  ghost predicate OffsetSafe(content: seq<Byte>, wellFormed: seq<Byte> -> bool, accepted: seq<nat>, origin: nat,
      offset: nat) {
    && Boundary(content, origin) && Boundary(content, offset)
    && forall s :: s in EventsBetween(content, wellFormed, origin, offset) ==> s in accepted
  }

  /** The same, said without the list: no complete well-formed line from the
      origin on lies before the offset unless Web accepted it. */
  lemma OffsetSafeMeans(content: seq<Byte>, wellFormed: seq<Byte> -> bool, accepted: seq<nat>, origin: nat,
      offset: nat, s: nat)
    requires OffsetSafe(content, wellFormed, accepted, origin, offset)
    requires origin <= s < offset && EventAt(content, wellFormed, s)
    ensures s in accepted
  {
    EventsBetweenComplete(content, wellFormed, origin, offset, s);
  }

  lemma OffsetSafeGrows(content: seq<Byte>, more: seq<Byte>, wellFormed: seq<Byte> -> bool, accepted: seq<nat>,
      later: seq<nat>, origin: nat, offset: nat)
    requires OffsetSafe(content, wellFormed, accepted, origin, offset)
    ensures OffsetSafe(content + more, wellFormed, accepted + later, origin, offset)
    ensures EventsBetween(content + more, wellFormed, origin, offset) ==
      EventsBetween(content, wellFormed, origin, offset)
  {
    EventsBetweenStable(content, more, wellFormed, origin, offset);
  }

  lemma OffsetSafeAdvances(content: seq<Byte>, wellFormed: seq<Byte> -> bool, accepted: seq<nat>, origin: nat,
      offset: nat, next: nat)
    requires OffsetSafe(content, wellFormed, accepted, origin, offset)
    requires offset <= next && Boundary(content, next)
    ensures OffsetSafe(content, wellFormed, accepted + EventsBetween(content, wellFormed, offset, next), origin, next)
    ensures origin <= offset ==>
      EventsBetween(content, wellFormed, origin, next) ==
        EventsBetween(content, wellFormed, origin, offset) + EventsBetween(content, wellFormed, offset, next)
  {
    forall s | s in EventsBetween(content, wellFormed, origin, next)
      ensures s in accepted + EventsBetween(content, wellFormed, offset, next)
    {
      EventsBetweenComplete(content, wellFormed, origin, next, s);
      EventsBetweenComplete(content, wellFormed, origin, offset, s);
      EventsBetweenComplete(content, wellFormed, offset, next, s);
    }
    if origin <= offset {
      EventsBetweenJoin(content, wellFormed, origin, offset, next);
    }
  }

  /** Behind the last newline no event is complete. */
  lemma NoEventBehind(content: seq<Byte>, wellFormed: seq<Byte> -> bool, offset: nat, s: nat)
    requires offset <= |content| && LineEnd(content, offset) == 0 && EventAt(content, wellFormed, s)
    ensures s < offset
  {
  }

  datatype Event = Happened(encoded: seq<Byte>) | Flush | Crash

  class Shipper {
    const audit: AuditLogger
    var auditOffset: nat
    var stored: nat
    /** The offsets of the events accepted by Web, in order of acceptance. */
    ghost var accepted: seq<nat>
    ghost const origin: nat
    /** Whether some acceptance was not followed by its checkpoint's save. */
    ghost var gap: bool

    /** A start from a state file whose checkpoint lies at a line boundary. */
    constructor (audit: AuditLogger, checkpoint: nat)
      requires Boundary(audit.content, checkpoint)
      ensures Valid() && this.audit == audit && origin == auditOffset == stored == checkpoint
    {
      this.audit := audit;
      auditOffset, stored, origin := checkpoint, checkpoint, checkpoint;
      accepted, gap := [], false;
      new;
      assert EventsBetween(audit.content, audit.wellFormed, checkpoint, checkpoint) == [];
    }

    ghost predicate Valid()
      reads this, audit
    {
      && OffsetSafe(audit.content, audit.wellFormed, accepted, origin, stored)
      && origin <= stored && auditOffset == stored
      && (!gap ==> accepted == EventsBetween(audit.content, audit.wellFormed, origin, stored))
    }

    /** auditEvent: whatever part of the event reaches the file, the offsets keep
        their meaning. */
    method RecordEvent(encoded: seq<Byte>)
      requires Valid() && NEWLINE !in encoded
      modifies audit
      ensures Valid() && old(audit.content) <= audit.content
    {
      var ok := audit.Append(encoded);
      ghost var more := audit.content[|old(audit.content)|..];
      assert audit.content == old(audit.content) + more && accepted + [] == accepted;
      OffsetSafeGrows(old(audit.content), more, audit.wellFormed, accepted, [], origin, stored);
    }

    /** SendEvents; an error may also be a lost response. */
    method SendEvents(events: seq<seq<Byte>>, ghost next: nat) returns (ok: bool)
      requires Valid() && auditOffset <= next && Boundary(audit.content, next)
      requires IsBatch(audit.content, audit.wellFormed, auditOffset, next, events)
      modifies this`accepted, this`gap
      ensures audit.calm ==> ok
      ensures ok ==>
        accepted == old(accepted) + EventsBetween(audit.content, audit.wellFormed, auditOffset, next) && gap == old(gap)
      ensures !ok ==> Valid() && (old(gap) ==> gap)
    {
      ok := *;
      ok := ok || audit.calm;
      var received: bool := *;
      OffsetSafeGrows(audit.content, [], audit.wellFormed, accepted, EventsBetween(audit.content, audit.wellFormed,
          auditOffset, next), origin, stored);
      assert audit.content + [] == audit.content;
      if ok || received {
        accepted := accepted + EventsBetween(audit.content, audit.wellFormed, auditOffset, next);
      }
      if received && !ok {
        gap := true;
      }
    }

    /** Set, save, restore: all under the save lock, so one step to the others. */
    method PersistAuditOffset(next: nat) returns (ok: bool)
      modifies this`auditOffset, this`stored
      ensures audit.calm ==> ok
      ensures ok ==> auditOffset == stored == next
      ensures !ok ==> auditOffset == old(auditOffset) && stored == old(stored)
    {
      var previous := auditOffset;
      auditOffset := next;
      ok := *;
      ok := ok || audit.calm;
      if ok {
        stored := auditOffset;
      } else {
        auditOffset := previous;
      }
    }

    /** The lines between an earlier checkpoint and the present one. */
    ghost function Passed(from: nat): nat
      reads this, audit
      requires from <= stored <= |audit.content|
    {
      Newlines(audit.content[from..stored])
    }

    static lemma LinesPassed(content: seq<Byte>, from: nat, offset: nat, next: nat, limit: nat)
      requires from <= offset <= next <= |content| && 0 < limit
      requires LineEnd(content, next) == 0 || Newlines(content[offset..next]) == limit
      ensures LineEnd(content, next) == 0 || limit <= Newlines(content[from..next])
      ensures next == offset ==> LineEnd(content, offset) == 0
    {
      assert content[offset..offset] == [];
      NewlinesConcat(content[from..offset], content[offset..next]);
      assert content[from..next] == content[from..offset] + content[offset..next];
    }

    /** Every batch sent holds exactly the events between two checkpoints, in
        file order; the checkpoint moves only behind an accepted batch, or over
        lines that hold no event.  Without failures a flush passes every complete
        line, or at least a hundred. */
    method FlushWebEvents()
      requires Valid()
      modifies this`accepted, this`gap, this`auditOffset, this`stored
      ensures Valid()
      ensures old(gap) ==> gap
      ensures old(stored) <= stored
      ensures audit.calm ==> gap == old(gap) && (LineEnd(audit.content, old(stored)) != 0 ==> old(stored) < stored)
      ensures audit.calm ==> LineEnd(audit.content, stored) == 0 || 100 <= Passed(old(stored))
    {
      hide EventsBetween, LineEnd, Newlines;
      var batch := 0;
      while batch < BATCHES_PER_FLUSH
        invariant Valid() && (old(gap) ==> gap) && old(stored) <= stored
        invariant audit.calm ==> gap == old(gap)
        invariant audit.calm && LineEnd(audit.content, old(stored)) != 0 && 0 < batch ==> old(stored) < stored
        invariant audit.calm && 0 < batch ==> LineEnd(audit.content, stored) == 0 || 100 <= Passed(old(stored))
      {
        var cancelled: bool := *;
        if cancelled && !audit.calm {
          return;
        }
        var offset := auditOffset;
        var ok, events, next := audit.ReadBatch(offset, EVENTS_PER_BATCH);
        if !ok {
          return;
        }
        OffsetSafeAdvances(audit.content, audit.wellFormed, accepted, origin, offset, next);
        LinesPassed(audit.content, old(stored), offset, next, EVENTS_PER_BATCH);
        if |events| == 0 {
          assert accepted + [] == accepted;
          assert EventsBetween(audit.content, audit.wellFormed, offset, next) == [];
          if next != offset {
            ok := PersistAuditOffset(next);
          }
          return;
        }
        ghost var before := accepted;
        ok := SendEvents(events, next);
        if !ok {
          return;
        }
        ok := PersistAuditOffset(next);
        if !ok {
          gap := true;
          assert audit.content + [] == audit.content;
          OffsetSafeGrows(audit.content, [], audit.wellFormed, before, EventsBetween(audit.content, audit.wellFormed,
              offset, next), origin, stored);
          return;
        }
        if |events| < EVENTS_PER_BATCH {
          return;
        }
        batch := batch + 1;
      }
    }

    /** Flushing again while a complete line is left, as every tick of the sync
        does: without failures the file is drained, and every event in it from
        the first checkpoint on was accepted once, in order. */
    method Drain()
      requires Valid() && audit.calm && !gap
      modifies this`accepted, this`gap, this`auditOffset, this`stored
      ensures Valid() && LineEnd(audit.content, stored) == 0
      ensures accepted == EventsBetween(audit.content, audit.wellFormed, origin, stored)
      ensures forall s :: origin <= s && EventAt(audit.content, audit.wellFormed, s) ==> s in accepted
    {
      while LineEnd(audit.content, auditOffset) != 0
        invariant Valid() && !gap
        decreases |audit.content| - stored
      {
        FlushWebEvents();
      }
      forall s | origin <= s && EventAt(audit.content, audit.wellFormed, s)
        ensures s in accepted
      {
        NoEventBehind(audit.content, audit.wellFormed, stored, s);
        OffsetSafeMeans(audit.content, audit.wellFormed, accepted, origin, stored, s);
      }
    }

    /** A crash forgets the memory; loadState takes the offset from the file. */
    method Restart()
      requires Valid()
      modifies this`auditOffset
      ensures Valid() && auditOffset == stored
    {
      auditOffset := stored;
    }

    /** Any sequence of recorded events, flushes and restarts: the checkpoint is
        always a line boundary, no event before it is undelivered, and without a
        failed save behind an acceptance each event was sent once, in order. */
    method Run(events: seq<Event>)
      requires Valid()
      modifies this, audit
      ensures Valid()
      ensures Boundary(audit.content, stored)
      ensures forall s :: origin <= s < stored && EventAt(audit.content, audit.wellFormed, s) ==> s in accepted
      ensures !gap ==> accepted == EventsBetween(audit.content, audit.wellFormed, origin, stored)
    {
      for i := 0 to |events|
        invariant Valid()
      {
        match events[i]
        case Happened(encoded) =>
          if NEWLINE !in encoded {
            RecordEvent(encoded);
          }
        case Flush =>
          FlushWebEvents();
        case Crash =>
          Restart();
      }
      forall s | origin <= s < stored && EventAt(audit.content, audit.wellFormed, s)
        ensures s in accepted
      {
        OffsetSafeMeans(audit.content, audit.wellFormed, accepted, origin, stored, s);
      }
    }
  }
}
