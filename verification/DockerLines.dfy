/**
  From a decoded stream to log lines: bufio's ReadSlice over the decoder, the loop
  of readDockerLogs that keeps a bounded prefix of each line, and what the agent's
  parser makes of a line.
 */
module DockerLines {
  import opened Bytes
  import opened DockerStream
  import opened Options

  /** What a response means: frames when it begins like one, raw bytes otherwise
      (the log of a container with a terminal). */
  ghost function Response(data: seq<Byte>, framed: bool): Decoded {
    if framed then Decode(data) else Decoded(data, Clean)
  }

  predicate LooksFramed(data: seq<Byte>) {
    4 <= |data| && (data[0] == 1 || data[0] == 2) && data[1] == 0 && data[2] == 0 && data[3] == 0
  }

  /** A stream of frames, cut after any byte but the first three, is read as
      frames, whichever stream of the container the first of them carries. */
  lemma FramesRecognized(frames: seq<Frame>, n: nat)
    requires Encodable(frames) && n <= |EncodeFrames(frames)| && (n == 0 || 4 <= n)
    ensures
      var data := EncodeFrames(frames)[..n];
      Response(data, LooksFramed(data)) == Decode(data)
  {
    hide Decode;
    if n == 0 {
      NothingToDecode();
    } else {
      assert EncodeFrames(frames)[..4] == EncodeFrame(frames[0])[..4];
    }
  }

  lemma NothingToDecode()
    ensures Decode([]) == Decoded([], Clean)
  {
  }

  /** Bytes that do not begin with a stream number and three zeros are read as they
      are; so are fewer than four bytes of a frame. */
  lemma ReadAsTheyAre(data: seq<Byte>)
    requires !([1, 0, 0, 0] <= data) && !([2, 0, 0, 0] <= data)
    ensures Response(data, LooksFramed(data)) == Decoded(data, Clean)
  {
    if 4 <= |data| {
      assert data[..4] == [data[0], data[1], data[2], data[3]];
    }
  }

  function Kept(line: seq<Byte>): seq<Byte> {
    if |line| <= MAX_LINE then line else line[..MAX_LINE]
  }

  /** The lines handed over: each complete line, and at a clean end the
      unterminated last piece too, all cut to their first MAX_LINE bytes. */
  ghost function HandedOver(p: seq<Byte>, clean: bool): seq<seq<Byte>>
    decreases |p|
  {
    if p == [] then []
    else
      var e := LineEnd(p, 0);
      if e == 0 then (if clean then [Kept(p)] else [])
      else [Kept(p[..e])] + HandedOver(p[e..], clean)
  }

  lemma CompleteLineFirst(line: seq<Byte>, rest: seq<Byte>, clean: bool)
    requires line != [] && line[|line| - 1] == 10 && 10 !in line[..|line| - 1]
    ensures HandedOver(line + rest, clean) == [Kept(line)] + HandedOver(rest, clean)
  {
    var p := line + rest;
    forall i | 0 <= i < |line| - 1
      ensures p[i] != NEWLINE
    {
      assert line[i] == line[..|line| - 1][i];
    }
    LineEndOf(p, 0, |line|);
    assert p[..|line|] == line && p[|line|..] == rest;
  }

  lemma UnfinishedLine(line: seq<Byte>, clean: bool)
    requires NEWLINE !in line
    ensures HandedOver(line, clean) == if clean && line != [] then [Kept(line)] else []
  {
  }

  lemma KeptGrows(line: seq<Byte>, part: seq<Byte>)
    ensures |Kept(line)| <= MAX_LINE
    ensures Kept(line + part) == Kept(line) +
      part[..if |part| <= MAX_LINE - |Kept(line)| then |part| else MAX_LINE - |Kept(line)|]
  {
  }

  lemma KeptMeans(line: seq<Byte>)
    ensures Kept(line) <= line && (Kept(line) == line || |Kept(line)| == 65536 < |line|)
    ensures |Kept(line)| <= 65536
  {
  }

  lemma KeptSome(line: seq<Byte>)
    ensures Kept(line) == [] <==> line == []
  {
  }

  class BufferedReader {
    const framed: bool
    const frames: DockerStreamReader
    var buffer: seq<Byte>
    var pending: ReadError
    /** Everything ReadSlice has returned so far. */
    ghost var taken: seq<Byte>

    /** Over a stream of which nothing is read yet; peeking at its first four
        bytes decides how it is decoded. */
    constructor (frames: DockerStreamReader)
      requires frames.Valid() && frames.emitted == [] && frames.source.pos == 0
      ensures Valid() && this.frames == frames && taken == []
      ensures framed == LooksFramed(frames.source.data)
    {
      this.frames := frames;
      framed := LooksFramed(frames.source.data);
      buffer, pending, taken := [], NoError, [];
      new;
      assert frames.source.data[..0] == [];
    }

    ghost function Whole(): Decoded {
      Response(frames.source.data, framed)
    }

    /** The bytes returned and the bytes buffered are what the decoder emitted, and
        a pending error says how the stream ends behind them. */
    ghost predicate Valid()
      reads this, frames, frames.source
    {
      && |buffer| <= BUFFER_SIZE && !pending.BufferFull? && (pending.TransportError? ==> !frames.source.reliable)
      && taken + buffer <= Whole().payload
      && Ends(pending, taken + buffer)
      && (pending.NoError? && framed ==> frames.Valid() && frames.emitted == taken + buffer)
      && (pending.NoError? && !framed ==>
        frames.source.pos <= |frames.source.data| && taken + buffer == frames.source.data[..frames.source.pos])
    }

    ghost predicate Ends(err: ReadError, emitted: seq<Byte>) {
      && (err.Eof? ==> Whole() == Decoded(emitted, Clean))
      && (err.UnexpectedEof? ==> Whole() == Decoded(emitted, Truncated))
      && (err.InvalidFrame? ==> Whole() == Decoded(emitted, Invalid))
    }

    /** One read of the decoder into the free part of the buffer. */
    method Fill()
      requires Valid() && pending.NoError? && |buffer| < BUFFER_SIZE
      modifies this`buffer, this`pending, frames, frames.source
      ensures Valid() && old(buffer) <= buffer
      ensures pending.NoError? ==> old(|buffer|) < |buffer|
    {
      hide Decode, Continues, InFrame, Response;
      if framed {
        FillFramed();
      } else {
        FillRaw();
      }
    }

    method FillFramed()
      requires framed && Valid() && pending.NoError? && |buffer| < BUFFER_SIZE
      modifies this`buffer, this`pending, frames, frames.source
      ensures Valid() && old(buffer) <= buffer
      ensures pending.NoError? ==> old(|buffer|) < |buffer|
    {
      hide Decode, Continues, InFrame;
      var chunk;
      chunk, pending := frames.Read(BUFFER_SIZE - |buffer|);
      assert taken + buffer + chunk == taken + (buffer + chunk);
      buffer := buffer + chunk;
    }

    method FillRaw()
      requires !framed && Valid() && pending.NoError? && |buffer| < BUFFER_SIZE
      modifies this`buffer, this`pending, frames.source
      ensures Valid() && old(buffer) <= buffer
      ensures pending.NoError? ==> old(|buffer|) < |buffer|
    {
      hide Decode, Continues, InFrame;
      ghost var pos, data := frames.source.pos, frames.source.data;
      var chunk;
      chunk, pending := frames.source.Read(BUFFER_SIZE - |buffer|);
      assert data[..pos] + chunk == data[..pos + |chunk|] && data[..|data|] == data;
      assert taken + buffer + chunk == taken + (buffer + chunk);
      buffer := buffer + chunk;
    }

    /** Up to and including the next newline; a part without one only when the
        buffer is full or nothing follows. */
    method ReadSlice() returns (part: seq<Byte>, err: ReadError)
      requires Valid()
      modifies this, frames, frames.source
      ensures taken == old(taken) + part && taken <= Whole().payload
      ensures err.NoError? ==> Valid() && part != [] && part[|part| - 1] == NEWLINE && NEWLINE !in part[..|part| - 1]
      ensures err.BufferFull? ==> Valid() && part != []
      ensures !err.NoError? ==> NEWLINE !in part
      ensures Ends(err, taken) && (err.TransportError? ==> !frames.source.reliable)
    {
      hide Decode, Continues, Response;
      while true
        invariant Valid() && taken == old(taken)
        decreases pending.NoError?, BUFFER_SIZE - |buffer|
      {
        var end := LineEnd(buffer, 0);
        if end != 0 {
          part, err := buffer[..end], NoError;
          assert taken + buffer == (taken + part) + buffer[end..];
          buffer, taken := buffer[end..], taken + part;
          return;
        }
        if pending != NoError {
          part, err := buffer, pending;
          buffer, pending, taken := [], NoError, taken + part;
          return;
        }
        if |buffer| >= BUFFER_SIZE {
          part, err := buffer, BufferFull;
          assert taken + buffer == (taken + part) + [];
          buffer, taken := [], taken + part;
          return;
        }
        Fill();
      }
    }
  }

  /** What was handed over, and what the current line and the rest still yield. */
  ghost predicate Progress(p: seq<Byte>, clean: bool, visited: seq<seq<Byte>>, current: seq<Byte>, rest: seq<Byte>) {
    HandedOver(p, clean) == visited + HandedOver(current + rest, clean)
  }

  lemma ProgressStarts(p: seq<Byte>, clean: bool)
    ensures Progress(p, clean, [], [], p) && Kept([]) == []
  {
    assert [] + p == p && [] + HandedOver(p, clean) == HandedOver(p, clean);
  }

  lemma TakenPart(taken: seq<Byte>, part: seq<Byte>, rest: seq<Byte>)
    requires taken + part <= taken + rest
    ensures part <= rest && taken + rest == taken + part + rest[|part|..]
  {
    assert part == (taken + part)[|taken|..] && rest == (taken + rest)[|taken|..];
  }

  lemma ProgressPart(p: seq<Byte>, clean: bool, visited: seq<seq<Byte>>, current: seq<Byte>, part: seq<Byte>,
      rest: seq<Byte>)
    requires Progress(p, clean, visited, current, rest) && part <= rest
    ensures Progress(p, clean, visited, current + part, rest[|part|..])
  {
    assert current + rest == current + part + rest[|part|..];
  }

  /** A complete line is handed over next. */
  lemma ProgressLine(p: seq<Byte>, clean: bool, visited: seq<seq<Byte>>, current: seq<Byte>, part: seq<Byte>,
      rest: seq<Byte>)
    requires Progress(p, clean, visited, current + part, rest)
    requires NEWLINE !in current && part != [] && part[|part| - 1] == NEWLINE && NEWLINE !in part[..|part| - 1]
    ensures Progress(p, clean, visited + [Kept(current + part)], [], rest) && Kept(current + part) != []
  {
    hide HandedOver, Kept;
    var line := current + part;
    assert line[..|line| - 1] == current + part[..|part| - 1];
    KeptSome(line);
    CompleteLineFirst(line, rest, clean);
    assert [] + rest == rest;
    assert visited + ([Kept(line)] + HandedOver(rest, clean)) == visited + [Kept(line)] + HandedOver(rest, clean);
  }

  /** At a clean end the unterminated piece is handed over last. */
  lemma ProgressEnds(p: seq<Byte>, visited: seq<seq<Byte>>, current: seq<Byte>, rest: seq<Byte>)
    requires Progress(p, true, visited, current, rest) && NEWLINE !in current && rest == []
    ensures HandedOver(p, true) == if current == [] then visited else visited + [Kept(current)]
    ensures Kept(current) == [] <==> current == []
    ensures current != [] ==> Progress(p, true, visited + [Kept(current)], [], rest)
  {
    assert current + rest == current && [] + rest == [];
    UnfinishedLine(current, true);
    assert visited + [Kept(current)] + [] == visited + [Kept(current)];
  }

  /** Wherever the reading stops, what was handed over is a prefix, and at the end
      of a stream that is not clean it is all the complete lines. */
  lemma ProgressStops(p: seq<Byte>, clean: bool, visited: seq<seq<Byte>>, current: seq<Byte>, rest: seq<Byte>)
    requires Progress(p, clean, visited, current, rest)
    ensures visited <= HandedOver(p, clean)
    ensures NEWLINE !in current && rest == [] && !clean ==> visited == HandedOver(p, clean)
  {
  }

  datatype Outcome = Complete | BadStream | TransportFailed | VisitFailed

  /** readDockerLogs, from the response on.  What is visited depends on its bytes
      alone; the unfinished last line of a stream that does not end cleanly is
      never among it. */
  method ReadDockerLogs(source: Source, visitFails: nat -> bool) returns (visited: seq<seq<Byte>>, outcome: Outcome)
    requires source.pos == 0
    modifies source
    ensures
      var whole := Response(source.data, LooksFramed(source.data));
      && (outcome.Complete? ==> whole.end.Clean? && visited == HandedOver(whole.payload, true))
      && (outcome.BadStream? ==> !whole.end.Clean? && visited == HandedOver(whole.payload, false))
      && visited <= HandedOver(whole.payload, whole.end.Clean?)
    ensures outcome.TransportFailed? ==> !source.reliable
    ensures outcome.VisitFailed? ==> visited != [] && visitFails(|visited| - 1)
    ensures !outcome.VisitFailed? ==> forall i :: 0 <= i < |visited| ==> !visitFails(i)
  {
    hide Decode, Response, HandedOver, LooksFramed;
    var frames := new DockerStreamReader(source);
    var reader := new BufferedReader(frames);
    visited, outcome := VisitLines(reader, visitFails);
  }

  /** The loop over the lines. */
  method VisitLines(reader: BufferedReader, visitFails: nat -> bool) returns (visited: seq<seq<Byte>>,
      outcome: Outcome)
    requires reader.Valid() && reader.taken == []
    modifies reader, reader.frames, reader.frames.source
    ensures outcome.Complete? ==> reader.Whole().end.Clean? && visited == HandedOver(reader.Whole().payload, true)
    ensures outcome.BadStream? ==> !reader.Whole().end.Clean? && visited == HandedOver(reader.Whole().payload, false)
    ensures visited <= HandedOver(reader.Whole().payload, reader.Whole().end.Clean?)
    ensures outcome.TransportFailed? ==> !reader.frames.source.reliable
    ensures outcome.VisitFailed? ==> visited != [] && visitFails(|visited| - 1)
    ensures !outcome.VisitFailed? ==> forall i :: 0 <= i < |visited| ==> !visitFails(i)
  {
    hide Decode, Response, HandedOver, Kept, Progress;
    visited := [];
    var line: seq<Byte> := [];
    ghost var current: seq<Byte> := [];
    ghost var whole := reader.Whole();
    ghost var rest := whole.payload;
    ProgressStarts(whole.payload, whole.end.Clean?);
    while true
      invariant reader.Valid() && whole == reader.Whole()
      invariant NEWLINE !in current && line == Kept(current)
      invariant whole.payload == reader.taken + rest
      invariant Progress(whole.payload, whole.end.Clean?, visited, current, rest)
      invariant forall i :: 0 <= i < |visited| ==> !visitFails(i)
      decreases |rest|
    {
      ghost var before := reader.taken;
      var part, err := reader.ReadSlice();
      TakenPart(before, part, rest);
      KeptGrows(current, part);
      var keep := if |part| <= MAX_LINE - |line| then |part| else MAX_LINE - |line|;
      line := line + part[..keep];
      ProgressPart(whole.payload, whole.end.Clean?, visited, current, part, rest);
      rest := rest[|part|..];
      if err == BufferFull {
        current := current + part;
        continue;
      }
      if err != NoError && err != Eof {
        ProgressStops(whole.payload, whole.end.Clean?, visited, current + part, rest);
        return visited, if err.TransportError? then TransportFailed else BadStream;
      }
      if err.NoError? {
        ProgressLine(whole.payload, whole.end.Clean?, visited, current, part, rest);
      } else {
        ProgressEnds(whole.payload, visited, current + part, rest);
      }
      if |line| > 0 {
        visited := visited + [line];
        if visitFails(|visited| - 1) {
          ProgressStops(whole.payload, whole.end.Clean?, visited, [], rest);
          return visited, VisitFailed;
        }
      }
      if err == Eof {
        return visited, Complete;
      }
      line, current := [], [];
    }
  }

  // ----- parseDockerLogLines, for the bytes of one line -----

  const SPACE: Byte := 32

  /** time is 0 for a line without a parsed timestamp. */
  datatype Entry = Entry(time: nat, message: seq<Byte>)

  predicate IsSpace(b: Byte) {
    b == SPACE || 9 <= b <= 13
  }

  predicate Blank(s: seq<Byte>) {
    forall i :: 0 <= i < |s| ==> IsSpace(s[i])
  }

  function TrimRight(s: seq<Byte>): seq<Byte> {
    if s != [] && IsSpace(s[|s| - 1]) then TrimRight(s[..|s| - 1]) else s
  }

  function TrimLeft(s: seq<Byte>): seq<Byte> {
    if s != [] && IsSpace(s[0]) then TrimLeft(s[1..]) else s
  }

  function TrimSpace(s: seq<Byte>): seq<Byte> {
    TrimLeft(TrimRight(s))
  }

  /** The position of the first space, or the length when there is none. */
  function SpaceIndex(s: seq<Byte>): (k: nat)
    ensures k <= |s| && (k < |s| ==> s[k] == SPACE)
    ensures forall i :: 0 <= i < k ==> s[i] != SPACE
  {
    if s == [] || s[0] == SPACE then 0 else 1 + SpaceIndex(s[1..])
  }

  function ParseLine(line: seq<Byte>, stampOf: seq<Byte> -> Option<nat>): Option<Entry> {
    var raw := TrimSpace(line);
    if raw == [] then None
    else
      var k := SpaceIndex(raw);
      if k < |raw| && stampOf(raw[..k]).Some? then
        var message := TrimSpace(raw[k + 1..]);
        Some(Entry(stampOf(raw[..k]).value, if message == [] then raw else message))
      else Some(Entry(0, raw))
  }

  /** Trimming takes away blanks, and leaves none at either end. */
  lemma TrimSpaceMeans(s: seq<Byte>) returns (before: seq<Byte>, behind: seq<Byte>)
    ensures s == before + TrimSpace(s) + behind
    ensures forall b :: b in before || b in behind ==> b in [9, 10, 11, 12, 13, 32]
    ensures TrimSpace(s) != [] ==>
      TrimSpace(s)[0] !in [9, 10, 11, 12, 13, 32] && TrimSpace(s)[|TrimSpace(s)| - 1] !in [9, 10, 11, 12, 13, 32]
  {
    hide TrimLeft, TrimRight;
    behind := TrimmedRight(s);
    before := TrimmedLeft(TrimRight(s));
  }

  lemma {:induction false} TrimmedRight(s: seq<Byte>) returns (behind: seq<Byte>)
    ensures s == TrimRight(s) + behind && forall b :: b in behind ==> IsSpace(b)
    ensures TrimRight(s) != [] ==> !IsSpace(TrimRight(s)[|TrimRight(s)| - 1])
  {
    behind := [];
    if s != [] && IsSpace(s[|s| - 1]) {
      behind := TrimmedRight(s[..|s| - 1]);
      behind := behind + [s[|s| - 1]];
    }
  }

  lemma {:induction false} TrimmedLeft(s: seq<Byte>) returns (before: seq<Byte>)
    ensures s == before + TrimLeft(s) && forall b :: b in before ==> IsSpace(b)
    ensures TrimLeft(s) != [] ==> !IsSpace(TrimLeft(s)[0]) && TrimLeft(s)[|TrimLeft(s)| - 1] == s[|s| - 1]
  {
    before := [];
    if s != [] && IsSpace(s[0]) {
      before := TrimmedLeft(s[1..]);
      before := [s[0]] + before;
    }
  }

  lemma {:induction false} TrimRightConcat(a: seq<Byte>, b: seq<Byte>)
    ensures TrimRight(a + b) == if Blank(b) then TrimRight(a) else a + TrimRight(b)
    ensures Blank(b) <==> TrimRight(b) == []
  {
    if b == [] {
      assert a + b == a;
    } else {
      var shorter := b[..|b| - 1];
      assert b == shorter + [b[|b| - 1]] && (a + b)[..|a + b| - 1] == a + shorter;
      TrimRightConcat(a, shorter);
    }
  }

  lemma {:induction false} TrimRightTwice(s: seq<Byte>)
    ensures TrimRight(TrimRight(s)) == TrimRight(s)
  {
    if s != [] && IsSpace(s[|s| - 1]) {
      TrimRightTwice(s[..|s| - 1]);
    }
  }

  /** A line Docker stamped is handed to the collector with its time exactly when
      its message is not blank.  A blank message loses the space that separates
      the timestamp, and with it the time, whatever the timestamp was. */
  lemma TimeNeedsMessage(stamp: seq<Byte>, message: seq<Byte>, stampOf: seq<Byte> -> Option<nat>)
    requires stamp != [] && forall i :: 0 <= i < |stamp| ==> !IsSpace(stamp[i])
    ensures
      ParseLine(stamp + [SPACE] + message + [NEWLINE], stampOf) ==
        if Blank(message) then Some(Entry(0, stamp))
        else if stampOf(stamp).Some? then Some(Entry(stampOf(stamp).value, TrimSpace(message)))
        else Some(Entry(0, stamp + [SPACE] + TrimRight(message)))
  {
    hide TrimRight, TrimLeft, SpaceIndex, Blank, IsSpace;
    TrimmedLine(stamp, message);
    StampFirst(stamp, TrimRight(message));
    TrimRightConcat([], message);
    if !Blank(message) {
      TrimRightTwice(message);
      TrimSpaceNotBlank(message);
    }
  }

  lemma TrimmedLine(stamp: seq<Byte>, message: seq<Byte>)
    requires stamp != [] && forall i :: 0 <= i < |stamp| ==> !IsSpace(stamp[i])
    ensures TrimSpace(stamp + [SPACE] + message + [NEWLINE]) ==
      if Blank(message) then stamp else stamp + [SPACE] + TrimRight(message)
  {
    TrimRightConcat(stamp + [SPACE] + message, [NEWLINE]);
    TrimRightConcat(stamp + [SPACE], message);
    TrimRightConcat(stamp, [SPACE]);
  }

  /** The first space is the one behind the stamp. */
  lemma StampFirst(stamp: seq<Byte>, rest: seq<Byte>)
    requires stamp != [] && forall i :: 0 <= i < |stamp| ==> !IsSpace(stamp[i])
    ensures SpaceIndex(stamp) == |stamp|
    ensures
      var raw := stamp + [SPACE] + rest;
      SpaceIndex(raw) == |stamp| && raw[..|stamp|] == stamp && raw[|stamp| + 1..] == rest
  {
    hide SpaceIndex;
    var raw := stamp + [SPACE] + rest;
    assert raw[|stamp|] == SPACE && forall i :: 0 <= i < |stamp| ==> raw[i] == stamp[i];
    assert !IsSpace(stamp[0]) && SpaceIndex(stamp) == |stamp| && SpaceIndex(raw) == |stamp|;
  }

  lemma {:induction false} TrimLeftNotBlank(s: seq<Byte>)
    requires !Blank(s)
    ensures TrimLeft(s) != []
  {
    if IsSpace(s[0]) {
      TrimLeftNotBlank(s[1..]);
    }
  }

  lemma {:induction false} TrimRightNotBlank(s: seq<Byte>)
    requires !Blank(s)
    ensures !Blank(TrimRight(s))
  {
    if IsSpace(s[|s| - 1]) {
      TrimRightNotBlank(s[..|s| - 1]);
    }
  }

  lemma TrimSpaceNotBlank(s: seq<Byte>)
    requires !Blank(s)
    ensures TrimSpace(s) != []
  {
    TrimRightNotBlank(s);
    TrimLeftNotBlank(TrimRight(s));
  }
}
