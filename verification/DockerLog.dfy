/**
  From a container's log to the records the collector is handed: each line is
  stamped, framed and sent, the stream may be cut anywhere, and what the decoder,
  the line assembler and the parser make of it is a prefix of the log.
 */
module DockerLog {
  import opened Bytes
  import opened DockerLines
  import opened DockerStream
  import opened LogCursors
  import opened Options

  /** One line as Docker keeps it: a stamp that denotes a time, and a message. */
  datatype Line = Line(stderr: bool, stamp: seq<Byte>, time: nat, message: seq<Byte>)

  function Text(l: Line): seq<Byte> {
    l.stamp + [SPACE] + l.message + [NEWLINE]
  }

  predicate Written(l: Line, stampOf: seq<Byte> -> Option<nat>) {
    && l.stamp != [] && (forall i :: 0 <= i < |l.stamp| ==> !IsSpace(l.stamp[i])) && |l.stamp| + 1 < MAX_LINE
    && stampOf(l.stamp) == Some(l.time) && NEWLINE !in l.message && |Text(l)| < 0x1_0000_0000
  }

  ghost predicate AllWritten(lines: seq<Line>, stampOf: seq<Byte> -> Option<nat>) {
    forall i :: 0 <= i < |lines| ==> Written(lines[i], stampOf)
  }

  function FramesOf(lines: seq<Line>): (frames: seq<Frame>)
    ensures |frames| == |lines|
  {
    if lines == [] then [] else [Frame(lines[0].stderr, Text(lines[0]))] + FramesOf(lines[1..])
  }

  /** The part of a message within the bytes kept of its line. */
  function KeptMessage(l: Line): seq<Byte>
    requires |l.stamp| + 1 < MAX_LINE
  {
    var room := MAX_LINE - |l.stamp| - 1;
    if |l.message| <= room then l.message else l.message[..room]
  }

  /** The entry the collector visits: without its time when nothing but blanks is
      kept of the message. */
  function Shown(l: Line): Entry
    requires |l.stamp| + 1 < MAX_LINE
  {
    if Blank(KeptMessage(l)) then Entry(0, l.stamp) else Entry(l.time, TrimSpace(KeptMessage(l)))
  }

  function ShownAll(lines: seq<Line>): (entries: seq<Entry>)
    requires forall i :: 0 <= i < |lines| ==> |lines[i].stamp| + 1 < MAX_LINE
    ensures |entries| == |lines| && forall i :: 0 <= i < |lines| ==> entries[i] == Shown(lines[i])
  {
    if lines == [] then [] else [Shown(lines[0])] + ShownAll(lines[1..])
  }

  /** The entries of the lines handed over. */
  function Parsed(lines: seq<seq<Byte>>, stampOf: seq<Byte> -> Option<nat>): seq<Entry> {
    if lines == [] then []
    else
      var entry := ParseLine(lines[0], stampOf);
      (if entry.Some? then [entry.value] else []) + Parsed(lines[1..], stampOf)
  }

  /** A blank line is no entry, and it alone is none. */
  lemma BlankNotParsed(line: seq<Byte>, rest: seq<seq<Byte>>, stampOf: seq<Byte> -> Option<nat>)
    ensures Parsed([line] + rest, stampOf) == Parsed(rest, stampOf) <==> Blank(line)
  {
    hide Blank;
    assert ([line] + rest)[1..] == rest;
    TrimRightConcat([], line);
    if Blank(line) {
      assert [] + line == line && TrimRight([]) == [] && TrimSpace(line) == [];
    } else {
      TrimSpaceNotBlank(line);
    }
  }

  /** Cutting a long line to its first MAX_LINE bytes cuts its message. */
  lemma LineShown(l: Line, stampOf: seq<Byte> -> Option<nat>)
    requires Written(l, stampOf)
    ensures ParseLine(Kept(Text(l)), stampOf) == Some(Shown(l))
  {
    hide ParseLine, TrimSpace, Blank, IsSpace;
    TimeNeedsMessage(l.stamp, KeptMessage(l), stampOf);
    var cut := l.stamp + [SPACE] + KeptMessage(l);
    if |Text(l)| <= MAX_LINE {
      assert Text(l) == cut + [NEWLINE];
    } else {
      assert Kept(Text(l)) == cut;
      NewlineUnseen(cut, stampOf);
    }
  }

  lemma NewlineUnseen(line: seq<Byte>, stampOf: seq<Byte> -> Option<nat>)
    ensures ParseLine(line + [NEWLINE], stampOf) == ParseLine(line, stampOf)
  {
    hide TrimRight, TrimLeft, SpaceIndex;
    TrimRightConcat(line, [NEWLINE]);
  }

  lemma FramesEncodable(lines: seq<Line>, stampOf: seq<Byte> -> Option<nat>)
    requires AllWritten(lines, stampOf)
    ensures Encodable(FramesOf(lines))
  {
    if lines != [] {
      FramesEncodable(lines[1..], stampOf);
    }
  }

  /** The stream may be cut after any byte: the entries visited are those of the
      first m lines, m the number of lines whose frames are whole. */
  lemma {:induction false} CutShowsPrefix(lines: seq<Line>, n: nat, stampOf: seq<Byte> -> Option<nat>) returns (m: nat)
    requires AllWritten(lines, stampOf)
    requires Encodable(FramesOf(lines)) && n <= |EncodeFrames(FramesOf(lines))|
    ensures m <= |lines|
    ensures
      var d := Decode(EncodeFrames(FramesOf(lines))[..n]);
      Parsed(HandedOver(d.payload, d.end.Clean?), stampOf) == ShownAll(lines[..m])
    ensures Encodable(FramesOf(lines[..m])) && |EncodeFrames(FramesOf(lines[..m]))| <= n
    ensures m < |lines| ==>
      Encodable(FramesOf(lines[..m + 1])) && n < |EncodeFrames(FramesOf(lines[..m + 1]))|
  {
    hide Decode, HandedOver, ParseLine, EncodeFrame, Shown, Text, Kept, Written, FramesOf, EncodeFrames, Encodable;
    m := 0;
    NoFrames(lines[..0]);
    if lines == [] {
      NoFrames(lines);
      NothingShown(stampOf);
    } else {
      var f := Frame(lines[0].stderr, Text(lines[0]));
      var frames, all := FramesOf(lines[1..]), EncodeFrames(FramesOf(lines));
      OneFrame(lines, stampOf);
      assert Written(lines[0], stampOf);
      if n < HEADER + |f.payload| {
        assert all[..n] == EncodeFrame(f)[..n];
        CutInLine(lines[0], n, stampOf);
      } else {
        var rest := EncodeFrames(frames)[..n - HEADER - |f.payload|];
        assert all[..n] == EncodeFrame(f) + rest;
        FrameThenRest(f, rest);
        var k := CutShowsPrefix(lines[1..], n - HEADER - |f.payload|, stampOf);
        WholeLine(lines[0], Decode(rest), stampOf);
        m := k + 1;
        assert lines[..m][0] == lines[0] && lines[..m][1..] == lines[1..][..k];
        OneFrame(lines[..m], stampOf);
        if m < |lines| {
          assert lines[..m + 1][0] == lines[0] && lines[..m + 1][1..] == lines[1..][..k + 1];
          OneFrame(lines[..m + 1], stampOf);
        }
      }
    }
  }

  lemma NothingShown(stampOf: seq<Byte> -> Option<nat>)
    ensures Decode([]) == Decoded([], Clean) && Parsed(HandedOver([], true), stampOf) == []
  {
  }

  lemma OneFrame(lines: seq<Line>, stampOf: seq<Byte> -> Option<nat>)
    requires lines != [] && AllWritten(lines, stampOf)
    ensures
      var f := Frame(lines[0].stderr, Text(lines[0]));
      |f.payload| < 0x1_0000_0000 && |EncodeFrame(f)| == HEADER + |f.payload| &&
      Encodable(FramesOf(lines)) && Encodable(FramesOf(lines[1..])) &&
      EncodeFrames(FramesOf(lines)) == EncodeFrame(f) + EncodeFrames(FramesOf(lines[1..]))
    ensures lines[..1] == [lines[0]] && Encodable(FramesOf(lines[..1])) &&
      |EncodeFrames(FramesOf(lines[..1]))| == HEADER + |Text(lines[0])|
  {
    FramesEncodable(lines, stampOf);
    FramesEncodable(lines[1..], stampOf);
    FramesEncodable(lines[..1], stampOf);
    assert FramesOf(lines)[1..] == FramesOf(lines[1..]) && lines[..1][1..] == [];
    assert FramesOf(lines[..1])[1..] == [];
  }

  /** Inside a frame no line is complete, and a cut there is not a clean end. */
  lemma CutInLine(l: Line, n: nat, stampOf: seq<Byte> -> Option<nat>)
    requires Written(l, stampOf) && n < HEADER + |Text(l)|
    requires |EncodeFrame(Frame(l.stderr, Text(l)))| == HEADER + |Text(l)|
    ensures
      var d := Decode(EncodeFrame(Frame(l.stderr, Text(l)))[..n]);
      Parsed(HandedOver(d.payload, d.end.Clean?), stampOf) == []
  {
    hide EncodeFrame, InFrame;
    var f := Frame(l.stderr, Text(l));
    if n == 0 {
      NothingShown(stampOf);
    } else {
      CutInsideFrame(f, EncodeFrame(f)[..n]);
      var p := Decode(EncodeFrame(f)[..n]).payload;
      NoNewlineInside(l, |p|, stampOf);
      UnfinishedLine(p, false);
    }
  }

  lemma NoNewlineInside(l: Line, n: nat, stampOf: seq<Byte> -> Option<nat>)
    requires Written(l, stampOf) && n < |Text(l)|
    ensures NEWLINE !in Text(l)[..n]
  {
    assert forall i :: 0 <= i < |l.stamp| ==> l.stamp[i] != NEWLINE;
  }

  lemma WholeLine(l: Line, rest: Decoded, stampOf: seq<Byte> -> Option<nat>)
    requires Written(l, stampOf)
    ensures Parsed(HandedOver(Text(l) + rest.payload, rest.end.Clean?), stampOf) ==
      [Shown(l)] + Parsed(HandedOver(rest.payload, rest.end.Clean?), stampOf)
  {
    hide ParseLine, HandedOver, Kept, Shown;
    NoNewlineInside(l, |Text(l)| - 1, stampOf);
    CompleteLineFirst(Text(l), rest.payload, rest.end.Clean?);
    LineShown(l, stampOf);
    var lines := HandedOver(rest.payload, rest.end.Clean?);
    assert ([Kept(Text(l))] + lines)[1..] == lines;
  }

  /** The body of a record: the bytes of an entry's message. */
  function Body(e: Entry): (body: string)
    ensures |body| == |e.message| && forall i :: 0 <= i < |body| ==> body[i] as int == e.message[i]
  {
    seq(|e.message|, i requires 0 <= i < |e.message| => e.message[i] as char)
  }

  function AsRecords(entries: seq<Entry>): seq<Record> {
    seq(|entries|, i requires 0 <= i < |entries| => Record(entries[i].time, Body(entries[i])))
  }

  /** What is visited of a response: decoded as it looks, assembled and parsed. */
  ghost function Visited(data: seq<Byte>, stampOf: seq<Byte> -> Option<nat>): seq<Entry> {
    var d := Response(data, LooksFramed(data));
    Parsed(HandedOver(d.payload, d.end.Clean?), stampOf)
  }

  /** Of less than four bytes of a frame it cannot be told that they are one: they
      are visited as a line without a time. */
  lemma HeaderVisited(frames: seq<Frame>, n: nat, stampOf: seq<Byte> -> Option<nat>)
    requires Encodable(frames) && 1 <= n <= 3 && n <= |EncodeFrames(frames)|
    ensures Visited(EncodeFrames(frames)[..n], stampOf) == [Entry(0, EncodeFrames(frames)[..n])]
  {
    hide HandedOver, ParseLine, Parsed, EncodeFrame, LooksFramed, Response;
    var p := EncodeFrames(frames)[..n];
    BeginsFrame(frames[0]);
    assert p == EncodeFrame(frames[0])[..n];
    ReadAsTheyAre(p);
    UnfinishedLine(p, true);
    WordShown(p, stampOf);
    ParsedOne(p, stampOf);
  }

  lemma ParsedOne(line: seq<Byte>, stampOf: seq<Byte> -> Option<nat>)
    requires ParseLine(line, stampOf).Some?
    ensures Parsed([line], stampOf) == [ParseLine(line, stampOf).value]
  {
    var lines: seq<seq<Byte>> := [line];
    assert lines[1..] == [];
  }

  lemma BeginsFrame(f: Frame)
    requires |f.payload| < 0x1_0000_0000
    ensures 4 <= |EncodeFrame(f)| && forall i :: 0 <= i < 4 ==> EncodeFrame(f)[i] <= 2
  {
  }

  /** Bytes without a space are an entry without a time. */
  lemma WordShown(s: seq<Byte>, stampOf: seq<Byte> -> Option<nat>)
    requires s != [] && forall i :: 0 <= i < |s| ==> !IsSpace(s[i])
    ensures ParseLine(s, stampOf) == Some(Entry(0, s))
  {
    hide SpaceIndex;
    assert TrimSpace(s) == s;
    assert SpaceIndex(s) < |s| ==> IsSpace(s[SpaceIndex(s)]);
  }

  /** So a log read through Docker is handed to the collector as a prefix of its
      records, those with a blank message without their stamp, wherever the stream
      is cut but within the first three bytes; all of them when it is whole. */
  lemma StreamIsPrefix(log: seq<Record>, parses: Record -> bool, lines: seq<Line>, n: nat,
      stampOf: seq<Byte> -> Option<nat>) returns (m: nat)
    requires AllWritten(lines, stampOf) && |log| == |lines|
    requires forall i :: 0 <= i < |log| ==>
      log[i] == Record(lines[i].time, Body(Shown(lines[i]))) && (parses(log[i]) <==> !Blank(KeptMessage(lines[i])))
    requires Encodable(FramesOf(lines)) && n <= |EncodeFrames(FramesOf(lines))|
    ensures m <= |log| && (n == |EncodeFrames(FramesOf(lines))| ==> m == |log|)
    ensures
      var data := EncodeFrames(FramesOf(lines))[..n];
      var stream := AsRecords(Visited(data, stampOf));
      if 1 <= n <= 3 then stream == [Record(0, Body(Entry(0, data)))]
      else |stream| == m && forall i :: 0 <= i < m ==>
             stream[i] == if parses(log[i]) then log[i] else Record(0, log[i].body)
  {
    hide Decode, HandedOver, Parsed, EncodeFrames, FramesOf, Body, Blank, TrimSpace, LooksFramed, Response;
    m := CutShowsPrefix(lines, n, stampOf);
    if m < |lines| {
      FramesGrow(lines, m + 1, stampOf);
    }
    if 1 <= n <= 3 {
      HeaderVisited(FramesOf(lines), n, stampOf);
    } else {
      FramesRecognized(FramesOf(lines), n);
    }
  }

  // ----- a container with a terminal: lines without frames -----

  function Texts(lines: seq<Line>): seq<Byte> {
    if lines == [] then [] else Text(lines[0]) + Texts(lines[1..])
  }

  /** A terminal's log is read as it is, unless it begins like a frame.  Its whole
      lines are visited as those of a framed log; a cut line is visited too, as far
      as it goes, because nothing tells where the stream was to end. */
  lemma TerminalShown(lines: seq<Line>, n: nat, stampOf: seq<Byte> -> Option<nat>) returns (m: nat)
    requires AllWritten(lines, stampOf) && n <= |Texts(lines)|
    requires !([1, 0, 0, 0] <= Texts(lines)) && !([2, 0, 0, 0] <= Texts(lines))
    ensures m <= |lines| && Texts(lines[..m]) <= Texts(lines)[..n] && (m < |lines| ==> n < |Texts(lines[..m + 1])|)
    ensures
      var piece := Texts(lines)[|Texts(lines[..m])|..n];
      Visited(Texts(lines)[..n], stampOf) ==
      ShownAll(lines[..m]) + if piece == [] then [] else Parsed([Kept(piece)], stampOf)
  {
    hide HandedOver, Parsed, LooksFramed, Texts, Kept;
    var data := Texts(lines)[..n];
    if 4 <= n {
      assert data[..4] == Texts(lines)[..4];
    }
    ReadAsTheyAre(data);
    m := TerminalLines(lines, n, stampOf);
  }

  lemma {:induction false} TerminalLines(lines: seq<Line>, n: nat, stampOf: seq<Byte> -> Option<nat>) returns (m: nat)
    requires AllWritten(lines, stampOf) && n <= |Texts(lines)|
    ensures m <= |lines| && Texts(lines[..m]) <= Texts(lines)[..n] && (m < |lines| ==> n < |Texts(lines[..m + 1])|)
    ensures
      var piece := Texts(lines)[|Texts(lines[..m])|..n];
      Parsed(HandedOver(Texts(lines)[..n], true), stampOf) ==
      ShownAll(lines[..m]) + if piece == [] then [] else Parsed([Kept(piece)], stampOf)
  {
    hide HandedOver, ParseLine, Shown, Text, Kept, Written;
    m := 0;
    if lines == [] || n < |Text(lines[0])| {
      CutTerminalLine(lines, n, stampOf);
    } else {
      var first, rest := lines[0], lines[1..];
      assert Written(first, stampOf);
      var left := n - |Text(first)|;
      var k := TerminalLines(rest, left, stampOf);
      assert Texts(lines)[..n] == Text(first) + Texts(rest)[..left];
      WholeLine(first, Decoded(Texts(rest)[..left], Clean), stampOf);
      m := k + 1;
      assert lines[..m][0] == first && lines[..m][1..] == rest[..k];
      if m < |lines| {
        assert lines[..m + 1][0] == first && lines[..m + 1][1..] == rest[..k + 1];
      }
      assert Texts(lines)[|Texts(lines[..m])|..n] == Texts(rest)[|Texts(rest[..k])|..left];
    }
  }

  lemma CutTerminalLine(lines: seq<Line>, n: nat, stampOf: seq<Byte> -> Option<nat>)
    requires AllWritten(lines, stampOf) && n <= |Texts(lines)| && (lines != [] ==> n < |Text(lines[0])|)
    ensures lines[..0] == [] && Texts([]) == [] && ShownAll([]) == []
    ensures lines != [] ==> Texts(lines[..1]) == Text(lines[0])
    ensures
      var p := Texts(lines)[..n];
      Parsed(HandedOver(p, true), stampOf) == if p == [] then [] else Parsed([Kept(p)], stampOf)
  {
    hide Text, ParseLine, Kept, Written;
    var p := Texts(lines)[..n];
    if lines != [] {
      assert p == Text(lines[0])[..n] && Written(lines[0], stampOf);
      NoNewlineInside(lines[0], n, stampOf);
      assert lines[..1][1..] == [] && Text(lines[0]) + [] == Text(lines[0]);
    }
    UnfinishedLine(p, true);
  }

  lemma {:induction false} FramesGrow(lines: seq<Line>, m: nat, stampOf: seq<Byte> -> Option<nat>)
    requires AllWritten(lines, stampOf) && m <= |lines|
    ensures Encodable(FramesOf(lines)) && Encodable(FramesOf(lines[..m]))
    ensures |EncodeFrames(FramesOf(lines[..m]))| <= |EncodeFrames(FramesOf(lines))|
  {
    hide EncodeFrame, EncodeFrames, FramesOf, Text;
    FramesEncodable(lines, stampOf);
    FramesEncodable(lines[..m], stampOf);
    if m == 0 {
      NoFrames(lines[..m]);
    } else {
      FramesGrow(lines[1..], m - 1, stampOf);
      assert lines[..m][0] == lines[0] && lines[..m][1..] == lines[1..][..m - 1];
      OneFrame(lines, stampOf);
      OneFrame(lines[..m], stampOf);
    }
  }

  lemma NoFrames(lines: seq<Line>)
    requires lines == []
    ensures Encodable(FramesOf(lines)) && EncodeFrames(FramesOf(lines)) == []
  {
  }
}
