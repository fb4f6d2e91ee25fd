/**
  The audit file: one JSON event a line, appended by the agent, read in batches
  from a byte offset, and scanned backwards once to find where a tail begins.
 */
module AuditFile {
  import opened Bytes

  const BLOCK_SIZE: nat := 4096

  // ----- lines -----

  /** Offset p is 0 or just past a newline. */
  predicate Boundary(content: seq<Byte>, p: nat) {
    p <= |content| && (p == 0 || content[p - 1] == NEWLINE)
  }

  /** The offsets at which well-formed complete lines begin, between two
      boundaries, in file order. */
  ghost function EventsBetween(content: seq<Byte>, wellFormed: seq<Byte> -> bool, p: nat, q: nat): (starts: seq<nat>)
    requires p <= |content|
    ensures forall i :: 0 <= i < |starts| ==> p <= starts[i] < q && starts[i] < |content|
    ensures forall i, j :: 0 <= i < j < |starts| ==> starts[i] < starts[j]
    decreases |content| - p
  {
    var e := LineEnd(content, p);
    if e == 0 || q < e then []
    else (if wellFormed(content[p..e]) then [p] else []) + EventsBetween(content, wellFormed, e, q)
  }

  /** A complete line that parses as an event begins at s. */
  ghost predicate EventAt(content: seq<Byte>, wellFormed: seq<Byte> -> bool, s: nat) {
    && Boundary(content, s)
    && LineEnd(content, s) != 0
    && wellFormed(content[s..LineEnd(content, s)])
  }

  /** The list holds every event between the two boundaries, and only those. */
  lemma {:induction false} EventsBetweenComplete(content: seq<Byte>, wellFormed: seq<Byte> -> bool, p: nat, q: nat,
      s: nat)
    requires Boundary(content, p) && Boundary(content, q)
    ensures s in EventsBetween(content, wellFormed, p, q) <==> p <= s < q && EventAt(content, wellFormed, s)
    decreases |content| - p
  {
    var e := LineEnd(content, p);
    if e == 0 || q < e {
      // No boundary lies strictly inside the line at p, so q <= p.
      assert q != 0 ==> content[q - 1] == NEWLINE;
    } else {
      EventsBetweenComplete(content, wellFormed, e, q, s);
      if p < s < e {
        assert content[s - 1] != NEWLINE;
      }
    }
  }

  lemma {:induction false} EventsBetweenJoin(content: seq<Byte>, wellFormed: seq<Byte> -> bool, p: nat, q: nat, r: nat)
    requires Boundary(content, p) && Boundary(content, q) && p <= q <= r
    ensures EventsBetween(content, wellFormed, p, q) + EventsBetween(content, wellFormed, q, r)
         == EventsBetween(content, wellFormed, p, r)
    decreases |content| - p
  {
    var e := LineEnd(content, p);
    if p < q {
      assert content[q - 1] == NEWLINE;
      EventsBetweenJoin(content, wellFormed, e, q, r);
    } else {
      assert EventsBetween(content, wellFormed, p, q) == [];
    }
  }

  /** Appending to the file changes no complete line. */
  lemma {:induction false} LineEndStable(content: seq<Byte>, more: seq<Byte>, p: nat)
    requires p <= |content| && LineEnd(content, p) != 0
    ensures LineEnd(content + more, p) == LineEnd(content, p)
    decreases |content| - p
  {
    if content[p] != NEWLINE {
      LineEndStable(content, more, p + 1);
    }
  }

  lemma {:induction false} EventsBetweenStable(content: seq<Byte>, more: seq<Byte>, wellFormed: seq<Byte> -> bool,
      p: nat, q: nat)
    requires Boundary(content, p) && Boundary(content, q)
    ensures EventsBetween(content + more, wellFormed, p, q) == EventsBetween(content, wellFormed, p, q)
    decreases |content| - p
  {
    var e := LineEnd(content, p);
    if e != 0 {
      LineEndStable(content, more, p);
      assert (content + more)[p..e] == content[p..e];
      if e <= q {
        EventsBetweenStable(content, more, wellFormed, e, q);
      }
    } else {
      assert forall i :: p <= i < |content| ==> (content + more)[i] == content[i];
    }
  }

  ghost function Newlines(s: seq<Byte>): nat {
    if s == [] then 0 else (if s[0] == NEWLINE then 1 else 0) + Newlines(s[1..])
  }

  /** An unterminated final piece counts as a line. */
  ghost function LineCount(s: seq<Byte>): nat {
    Newlines(s) + if s != [] && s[|s| - 1] != NEWLINE then 1 else 0
  }

  lemma {:induction false} NewlinesConcat(s: seq<Byte>, t: seq<Byte>)
    ensures Newlines(s + t) == Newlines(s) + Newlines(t)
  {
    if s == [] {
      assert s + t == t;
    } else {
      NewlinesConcat(s[1..], t);
      assert (s + t)[1..] == s[1..] + t;
    }
  }

  /** The file without its final newline: what the backward scan counts in. */
  function Trimmed(content: seq<Byte>): seq<Byte> {
    if content != [] && content[|content| - 1] == NEWLINE then content[..|content| - 1] else content
  }

  lemma LineCountTrimmed(s: seq<Byte>)
    ensures LineCount(s) == if s == [] then 0 else Newlines(Trimmed(s)) + 1
  {
    if s != [] && s[|s| - 1] == NEWLINE {
      assert s == Trimmed(s) + [NEWLINE];
      NewlinesConcat(Trimmed(s), [NEWLINE]);
    }
  }

  function Min(a: nat, b: nat): nat {
    if a < b then a else b
  }

  /** Offset r begins the last limit lines of the file, or all of them. */
  ghost predicate BeginsTail(content: seq<Byte>, limit: nat, r: nat) {
    Boundary(content, r) && LineCount(content[r..]) == Min(limit, LineCount(content))
  }

  /** The offset that begins a tail is unique: no detail of the scan, such as its
      block size, can show in the result. */
  lemma TailUnique(content: seq<Byte>, limit: nat, r: nat, s: nat)
    requires BeginsTail(content, limit, r) && BeginsTail(content, limit, s)
    ensures r == s
  {
    if r < s {
      TailShrinks(content, r, s);
    } else if s < r {
      TailShrinks(content, s, r);
    }
  }

  lemma TailShrinks(content: seq<Byte>, r: nat, s: nat)
    requires Boundary(content, r) && Boundary(content, s) && r < s
    ensures LineCount(content[s..]) < LineCount(content[r..])
  {
    assert content[r..] == content[r..s] + content[s..];
    NewlinesConcat(content[r..s], content[s..]);
    assert content[r..s] == content[r..s - 1] + [NEWLINE];
    NewlinesConcat(content[r..s - 1], [NEWLINE]);
  }

  /** The newlines the backward scan has counted from the end down to p. */
  ghost function SeenFrom(content: seq<Byte>, p: nat): nat {
    var t := Trimmed(content);
    if p <= |t| then Newlines(t[p..]) else 0
  }

  lemma SeenFromStep(content: seq<Byte>, p: nat)
    requires p < |content|
    ensures SeenFrom(content, p) ==
      if content[p] == NEWLINE && p != |content| - 1 then SeenFrom(content, p + 1) + 1 else SeenFrom(content, p + 1)
  {
  }

  /** Found: the newline before the last limit lines. */
  lemma TailFound(content: seq<Byte>, p: nat, limit: nat)
    requires p < |content| - 1 && content[p] == NEWLINE && SeenFrom(content, p) == limit
    ensures BeginsTail(content, limit, p + 1)
  {
    var t := Trimmed(content);
    LineCountTrimmed(content);
    LineCountTrimmed(content[p + 1..]);
    assert t[p..] == [NEWLINE] + t[p + 1..];
    NewlinesConcat([NEWLINE], t[p + 1..]);
    assert t == t[..p] + t[p..];
    NewlinesConcat(t[..p], t[p..]);
    assert Trimmed(content[p + 1..]) == t[p + 1..];
  }

  /** The scan has come down to at: whether the last byte is still to be ignored,
      and how many newlines it has counted. */
  ghost predicate Scanned(content: seq<Byte>, limit: int, at: nat, seen: int, ignoring: bool) {
    at <= |content| && (ignoring <==> at == |content|) && seen == SeenFrom(content, at) && seen < limit
  }

  /** The scan starts with nothing counted, and when it ends without a result the
      file has no more than limit lines. */
  lemma ScannedEnds(content: seq<Byte>, limit: nat)
    requires 0 < limit
    ensures Scanned(content, limit, |content|, 0, true)
    ensures forall seen, ignoring :: Scanned(content, limit, 0, seen, ignoring) ==> BeginsTail(content, limit, 0)
  {
    var t := Trimmed(content);
    assert t[0..] == t && t[|t|..] == [];
    LineCountTrimmed(content);
    assert content[0..] == content;
  }

  lemma ScannedStep(content: seq<Byte>, limit: int, at: nat, seen: int, ignoring: bool)
    requires 0 < at <= |content| && Scanned(content, limit, at, seen, ignoring)
    ensures
      if content[at - 1] == NEWLINE && !ignoring then
        if seen + 1 == limit then BeginsTail(content, limit, at) else Scanned(content, limit, at - 1, seen + 1, false)
      else Scanned(content, limit, at - 1, seen, false)
  {
    hide SeenFrom, BeginsTail;
    SeenFromStep(content, at - 1);
    if content[at - 1] == NEWLINE && !ignoring && seen + 1 == limit {
      TailFound(content, at - 1, limit);
    }
  }

  lemma LineAppended(before: seq<Byte>, encoded: seq<Byte>)
    requires NEWLINE !in encoded && Boundary(before, |before|)
    ensures
      var content, s := before + (encoded + [NEWLINE]), |before|;
      && content == before + encoded + [NEWLINE] && Boundary(content, s)
      && content[s..] == encoded + [NEWLINE] && LineEnd(content, s) == |content|
  {
    var content, s := before + (encoded + [NEWLINE]), |before|;
    assert content == before + encoded + [NEWLINE];
    LineEndOf(content, s, |content|);
  }

  class AuditLogger {
    var content: seq<Byte>
    /** Whether a line parses as an audit event. */
    const wellFormed: seq<Byte> -> bool
    /** Whether neither the file nor Web fails. */
    const calm: bool

    constructor (wellFormed: seq<Byte> -> bool, calm: bool)
      ensures content == [] && this.wellFormed == wellFormed && this.calm == calm
    {
      content := [];
      this.wellFormed, this.calm := wellFormed, calm;
    }

    /** file.Write on a file opened for appending: an error may follow a part of
        the bytes. */
    method Write(bytes: seq<Byte>) returns (ok: bool)
      modifies this
      ensures calm ==> ok
      ensures ok ==> content == old(content) + bytes
      ensures old(content) <= content <= old(content) + bytes
    {
      var written: int := *;
      if 0 <= written < |bytes| && !calm {
        content := content + bytes[..written];
        return false;
      }
      content := content + bytes;
      ok := true;
    }

    /** Append an encoded event, which contains no newline.  Whatever partial line
        an earlier failure left behind is finished first, so that an event is
        always a line of its own. */
    method Append(encoded: seq<Byte>) returns (ok: bool)
      requires NEWLINE !in encoded
      modifies this
      ensures calm ==> ok
      ensures old(content) <= content
      ensures ok ==> exists s: nat ::
        Boundary(content, s) && |old(content)| <= s <= |old(content)| + 1 &&
        content[s..] == encoded + [NEWLINE] && LineEnd(content, s) == |content|
      ensures ok && Boundary(old(content), |old(content)|) ==> content == old(content) + encoded + [10]
    {
      hide LineEnd;
      if |content| > 0 && content[|content| - 1] != NEWLINE {
        ok := Write([NEWLINE]);
        if !ok {
          return;
        }
      }
      ghost var s, before := |content|, content;
      ok := Write(encoded + [NEWLINE]);
      if ok {
        LineAppended(before, encoded);
      }
    }

    /** The offset of the last limit lines, found by reading blocks backwards.
        The read of a block may fail. */
    method TailOffset(limit: int) returns (ok: bool, offset: nat)
      ensures calm ==> ok
      ensures ok && limit <= 0 ==> offset == |content|
      ensures ok && 0 < limit ==> BeginsTail(content, limit, offset)
    {
      hide SeenFrom, BeginsTail, Scanned;
      if limit <= 0 {
        return true, |content|;
      }
      var seen := 0;
      var end := |content|;
      var ignoreFinalNewline := true;
      ScannedEnds(content, limit);
      while end > 0
        invariant 0 <= end <= |content|
        invariant Scanned(content, limit, end, seen, ignoreFinalNewline)
      {
        var readFails: bool := *;
        if readFails && !calm {
          return false, 0;
        }
        var start := if end - BLOCK_SIZE < 0 then 0 else end - BLOCK_SIZE;
        var chunk := content[start..end];
        var i := |chunk| - 1;
        while i >= 0
          invariant -1 <= i < |chunk|
          invariant Scanned(content, limit, start + i + 1, seen, ignoreFinalNewline)
        {
          ScannedStep(content, limit, start + i + 1, seen, ignoreFinalNewline);
          if ignoreFinalNewline {
            ignoreFinalNewline := false;
            if chunk[i] == NEWLINE {
              i := i - 1;
              continue;
            }
          }
          if chunk[i] == NEWLINE {
            seen := seen + 1;
            if seen == limit {
              return true, start + i + 1;
            }
          }
          i := i - 1;
        }
        end := start;
      }
      return true, 0;
    }

    /** Up to limit complete lines from the offset on: the events among them in
        file order, and the offset behind the last line read. */
    method ReadBatch(offset: nat, limit: nat) returns (ok: bool, events: seq<seq<Byte>>, next: nat)
      ensures calm ==> ok
      ensures !ok ==> events == []
      ensures ok && |content| < offset ==> Boundary(content, next)
      ensures
        var start := if |content| < offset then 0 else offset;
        ok && Boundary(content, start) ==>
          && start <= next && Boundary(content, next)
          && IsBatch(content, wellFormed, start, next, events)
          && (LineEnd(content, next) == 0 || Newlines(content[start..next]) == limit)
          && Newlines(content[start..next]) <= limit
    {
      hide Newlines, EventsBetween, IsBatch, LineEnd;
      var start := if offset > |content| then 0 else offset;
      BatchEmpty(content, wellFormed, start);
      next, events := start, [];
      var lines := 0;
      assert content[start..start] == [];
      while lines < limit
        invariant start <= next <= |content| && lines <= limit
        invariant Boundary(content, start) ==> Boundary(content, next)
        invariant Boundary(content, start) ==> IsBatch(content, wellFormed, start, next, events)
        invariant Newlines(content[start..next]) == lines
        decreases limit - lines
      {
        var readFails: bool := *;
        if readFails && !calm {
          return false, [], start;
        }
        var end := LineEnd(content, next);
        if end == 0 {
          break;
        }
        if Boundary(content, start) {
          BatchGrows(content, wellFormed, start, next, events);
        }
        OneNewline(content, start, next);
        if wellFormed(content[next..end]) {
          events := events + [content[next..end]];
        }
        next := end;
        lines := lines + 1;
      }
      ok := true;
    }
  }

  /** The complete line that begins at s, newline included. */
  function LineAt(content: seq<Byte>, s: nat): seq<Byte>
    requires s <= |content|
  {
    var e := LineEnd(content, s);
    if e == 0 then [] else content[s..e]
  }

  /** The events are the well-formed lines between the two offsets, in order. */
  ghost predicate IsBatch(content: seq<Byte>, wellFormed: seq<Byte> -> bool, start: nat, next: nat,
      events: seq<seq<Byte>>)
    requires start <= |content|
  {
    var starts := EventsBetween(content, wellFormed, start, next);
    && |events| == |starts|
    && forall i :: 0 <= i < |starts| ==> events[i] == LineAt(content, starts[i])
  }

  lemma BatchEmpty(content: seq<Byte>, wellFormed: seq<Byte> -> bool, start: nat)
    requires start <= |content|
    ensures IsBatch(content, wellFormed, start, start, []) && Newlines(content[start..start]) == 0
  {
  }

  lemma BatchGrows(content: seq<Byte>, wellFormed: seq<Byte> -> bool, start: nat, next: nat, events: seq<seq<Byte>>)
    requires Boundary(content, start) && Boundary(content, next) && start <= next
    requires IsBatch(content, wellFormed, start, next, events)
    requires LineEnd(content, next) != 0
    ensures
      var end := LineEnd(content, next);
      IsBatch(content, wellFormed, start, end,
              if wellFormed(content[next..end]) then events + [content[next..end]] else events)
  {
    hide Boundary;
    var end := LineEnd(content, next);
    EventsBetweenJoin(content, wellFormed, start, next, end);
    EventsBetweenOne(content, wellFormed, next);
  }

  lemma EventsBetweenOne(content: seq<Byte>, wellFormed: seq<Byte> -> bool, p: nat)
    requires p <= |content| && LineEnd(content, p) != 0
    ensures
      var end := LineEnd(content, p);
      EventsBetween(content, wellFormed, p, end) == if wellFormed(content[p..end]) then [p] else []
  {
  }

  lemma OneNewline(content: seq<Byte>, start: nat, next: nat)
    requires start <= next <= |content| && LineEnd(content, next) != 0
    ensures Newlines(content[start..LineEnd(content, next)]) == Newlines(content[start..next]) + 1
  {
    var end := LineEnd(content, next);
    assert content[start..end] == content[start..next] + content[next..end - 1] + [NEWLINE];
    NewlinesConcat(content[start..next] + content[next..end - 1], [NEWLINE]);
    NewlinesConcat(content[start..next], content[next..end - 1]);
    NoNewlines(content[next..end - 1]);
  }

  lemma {:induction false} NoNewlines(s: seq<Byte>)
    requires NEWLINE !in s
    ensures Newlines(s) == 0
  {
    if s != [] {
      NoNewlines(s[1..]);
    }
  }
}
