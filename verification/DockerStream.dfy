/**
  Decoding Docker's log stream.  Non-TTY output arrives as frames of an
  eight-byte header and a payload, cut anywhere by the transport.  Decode says
  what a byte stream means; the reader classes are proved to compute it for every
  way the bytes may be chunked.
 */
module DockerStream {
  import opened Bytes

  const HEADER: nat := 8
  /** bufio's default buffer, and the retained prefix of a line. */
  const BUFFER_SIZE: nat := 4096
  const MAX_LINE: nat := 65536

  datatype End = Clean | Truncated | Invalid

  datatype Decoded = Decoded(payload: seq<Byte>, end: End)

  predicate ValidHeader(h: seq<Byte>)
    requires |h| == HEADER
  {
    (h[0] == 1 || h[0] == 2) && h[1] == 0 && h[2] == 0 && h[3] == 0
  }

  function PayloadSize(h: seq<Byte>): nat
    requires |h| == HEADER
  {
    (h[4] as int) * 0x100_0000 + (h[5] as int) * 0x1_0000 + (h[6] as int) * 0x100 + h[7] as int
  }

  /** The payload bytes of a stream and how it ends: at a frame boundary, inside a
      frame, or at a header that is none. */
  function Decode(data: seq<Byte>): Decoded
    decreases |data|, 0
  {
    if data == [] then Decoded([], Clean)
    else if |data| < HEADER then Decoded([], Truncated)
    else if !ValidHeader(data[..HEADER]) then Decoded([], Invalid)
    else InFrame(data[HEADER..], PayloadSize(data[..HEADER]))
  }

  /** The same, with remaining payload bytes of the current frame to come. */
  function InFrame(data: seq<Byte>, remaining: nat): Decoded
    decreases |data|, 1
  {
    if |data| < remaining then Decoded(data, Truncated)
    else
      var rest := Decode(data[remaining..]);
      Decoded(data[..remaining] + rest.payload, rest.end)
  }

  // ----- what a writer of frames produces -----

  datatype Frame = Frame(stderr: bool, payload: seq<Byte>)

  function EncodeFrame(f: Frame): seq<Byte>
    requires |f.payload| < 0x1_0000_0000
  {
    var n := |f.payload|;
    [if f.stderr then 2 else 1, 0, 0, 0, n / 0x100_0000, n / 0x1_0000 % 0x100, n / 0x100 % 0x100, n % 0x100] + f.payload
  }

  predicate Encodable(frames: seq<Frame>) {
    forall f :: f in frames ==> |f.payload| < 0x1_0000_0000
  }

  function EncodeFrames(frames: seq<Frame>): seq<Byte>
    requires Encodable(frames)
  {
    if frames == [] then [] else EncodeFrame(frames[0]) + EncodeFrames(frames[1..])
  }

  function Payloads(frames: seq<Frame>): seq<Byte> {
    if frames == [] then [] else frames[0].payload + Payloads(frames[1..])
  }

  lemma HeaderRoundTrip(f: Frame)
    requires |f.payload| < 0x1_0000_0000
    ensures
      var h := EncodeFrame(f)[..HEADER];
      ValidHeader(h) && PayloadSize(h) == |f.payload|
  {
    var n := |f.payload|;
    assert n / 0x1_0000 == n / 0x100_0000 * 0x100 + n / 0x1_0000 % 0x100;
    assert n / 0x100 == n / 0x1_0000 * 0x100 + n / 0x100 % 0x100;
  }

  /** Frames round-trip, empty ones included. */
  lemma {:induction false} DecodeEncode(frames: seq<Frame>)
    requires Encodable(frames)
    ensures Decode(EncodeFrames(frames)) == Decoded(Payloads(frames), Clean)
  {
    if frames != [] {
      var f, rest := frames[0], EncodeFrames(frames[1..]);
      DecodeEncode(frames[1..]);
      FrameThenRest(f, rest);
    }
  }

  lemma FrameThenRest(f: Frame, rest: seq<Byte>)
    requires |f.payload| < 0x1_0000_0000
    ensures Decode(EncodeFrame(f) + rest) == Decoded(f.payload + Decode(rest).payload, Decode(rest).end)
  {
    var data := EncodeFrame(f) + rest;
    HeaderRoundTrip(f);
    assert data[..HEADER] == EncodeFrame(f)[..HEADER];
    assert data[HEADER..] == f.payload + rest;
    assert (f.payload + rest)[|f.payload|..] == rest && (f.payload + rest)[..|f.payload|] == f.payload;
  }

  /** Whatever follows some frames is decoded behind their payloads. */
  lemma {:induction false} DecodeBehind(frames: seq<Frame>, rest: seq<Byte>)
    requires Encodable(frames)
    ensures Decode(EncodeFrames(frames) + rest) == Decoded(Payloads(frames) + Decode(rest).payload, Decode(rest).end)
  {
    hide Decode, EncodeFrame;
    if frames == [] {
      assert EncodeFrames(frames) + rest == rest && Payloads(frames) + Decode(rest).payload == Decode(rest).payload;
    } else {
      var f, more := frames[0], EncodeFrames(frames[1..]);
      DecodeBehind(frames[1..], rest);
      assert EncodeFrames(frames) + rest == EncodeFrame(f) + (more + rest);
      FrameThenRest(f, more + rest);
      assert f.payload + (Payloads(frames[1..]) + Decode(rest).payload) == Payloads(frames) + Decode(rest).payload;
    }
  }

  /** Eight bytes or more that do not begin with a stream number and three zeros. */
  ghost predicate NoFrame(rest: seq<Byte>) {
    8 <= |rest| && rest[..4] != [1, 0, 0, 0] && rest[..4] != [2, 0, 0, 0]
  }

  /** A header that is valid is that of a frame. */
  lemma FrameOf(data: seq<Byte>) returns (f: Frame)
    requires HEADER <= |data| && ValidHeader(data[..HEADER]) && HEADER + PayloadSize(data[..HEADER]) <= |data|
    ensures |f.payload| == PayloadSize(data[..HEADER]) < 0x1_0000_0000
    ensures data == EncodeFrame(f) + data[HEADER + |f.payload|..]
  {
    var n := PayloadSize(data[..HEADER]);
    f := Frame(data[0] == 2, data[HEADER..HEADER + n]);
    SizeBytes(data[4], data[5], data[6], data[7]);
    assert EncodeFrame(f)[..HEADER] == data[..HEADER];
    assert EncodeFrame(f) == data[..HEADER] + data[HEADER..HEADER + n];
  }

  lemma SizeBytes(a: Byte, b: Byte, c: Byte, d: Byte)
    ensures
      var n := (a as int) * 0x100_0000 + (b as int) * 0x1_0000 + (c as int) * 0x100 + d as int;
      n < 0x1_0000_0000 && n / 0x100_0000 == a && n / 0x1_0000 % 0x100 == b && n / 0x100 % 0x100 == c && n % 0x100 == d
  {
    var n := (a as int) * 0x100_0000 + (b as int) * 0x1_0000 + (c as int) * 0x100 + d as int;
    assert n / 0x100 == (a as int) * 0x1_0000 + (b as int) * 0x100 + c as int;
    assert n / 0x1_0000 == (a as int) * 0x100 + b as int;
  }

  lemma NoWholeFrame(data: seq<Byte>)
    requires |data| < HEADER || !ValidHeader(data[..HEADER]) || |data| < HEADER + PayloadSize(data[..HEADER])
    ensures Decode(data).end.Clean? ==> data == []
    ensures Decode(data).end.Invalid? ==> NoFrame(data)
  {
    hide PayloadSize;
    if HEADER <= |data| {
      var h := data[..HEADER];
      assert data[..4] == [h[0], h[1], h[2], h[3]];
      if ValidHeader(h) {
        assert InFrame(data[HEADER..], PayloadSize(h)) == Decoded(data[HEADER..], Truncated);
      }
    }
  }

  /** The whole frames at the front of a stream, and what follows them. */
  lemma {:induction false} WholeFrames(data: seq<Byte>) returns (frames: seq<Frame>, rest: seq<Byte>)
    ensures Encodable(frames) && data == EncodeFrames(frames) + rest
    ensures Decode(data).end.Clean? ==> rest == []
    ensures Decode(data).end.Invalid? ==> NoFrame(rest)
    decreases |data|
  {
    hide EncodeFrame, PayloadSize, Decode, ValidHeader, NoFrame;
    if |data| < HEADER || !ValidHeader(data[..HEADER]) || |data| < HEADER + PayloadSize(data[..HEADER]) {
      NoWholeFrame(data);
      frames, rest := [], data;
      assert EncodeFrames([]) + data == data;
    } else {
      var f := FrameOf(data);
      var behind := data[HEADER + |f.payload|..];
      var more;
      more, rest := WholeFrames(behind);
      frames := [f] + more;
      assert frames[1..] == more;
      assert EncodeFrame(f) + (EncodeFrames(more) + rest) == EncodeFrames(frames) + rest;
      FrameThenRest(f, behind);
    }
  }

  /** A stream ends cleanly exactly when it is a sequence of frames, and is refused
      exactly when, behind some frames, a header is none. */
  lemma EndMeans(data: seq<Byte>)
    ensures Decode(data).end.Clean? <==> exists frames :: Encodable(frames) && data == EncodeFrames(frames)
    ensures Decode(data).end.Invalid? <==>
      exists frames, rest :: Encodable(frames) && data == EncodeFrames(frames) + rest && NoFrame(rest)
  {
    hide EncodeFrames, InFrame, PayloadSize;
    var frames, rest := WholeFrames(data);
    assert rest == [] ==> data == EncodeFrames(frames);
    if fs :| Encodable(fs) && data == EncodeFrames(fs) {
      DecodeEncode(fs);
    }
    if fs, r :| Encodable(fs) && data == EncodeFrames(fs) + r && NoFrame(r) {
      DecodeBehind(fs, r);
    }
  }

  /** Position n of the encoded frames lies between two of them, or at an end. */
  ghost predicate FrameBoundary(frames: seq<Frame>, n: int)
    requires Encodable(frames)
  {
    exists k :: 0 <= k <= |frames| && n == |EncodeFrames(frames[..k])|
  }

  lemma BoundariesShift(frames: seq<Frame>, n: int)
    requires Encodable(frames) && frames != []
    ensures FrameBoundary(frames, n) <==> n == 0 || FrameBoundary(frames[1..], n - HEADER - |frames[0].payload|)
  {
    var size := HEADER + |frames[0].payload|;
    assert EncodeFrames(frames[..0]) == [];
    forall k | 1 <= k <= |frames|
      ensures |EncodeFrames(frames[..k])| == size + |EncodeFrames(frames[1..][..k - 1])|
    {
      assert frames[..k][1..] == frames[1..][..k - 1];
    }
    if k :| 0 <= k <= |frames| && n == |EncodeFrames(frames[..k])| {
      if k != 0 {
        assert n - size == |EncodeFrames(frames[1..][..k - 1])|;
      }
    }
    if k :| 0 <= k <= |frames| - 1 && n - size == |EncodeFrames(frames[1..][..k])| {
      assert n == |EncodeFrames(frames[..k + 1])|;
    }
  }

  lemma CutInsideFrame(f: Frame, cut: seq<Byte>)
    requires |f.payload| < 0x1_0000_0000
    requires cut <= EncodeFrame(f) && 0 < |cut| < HEADER + |f.payload|
    ensures Decode(cut).end.Truncated? && Decode(cut).payload <= f.payload
    ensures f.payload != [] ==> |Decode(cut).payload| < |f.payload|
  {
    HeaderRoundTrip(f);
    if HEADER <= |cut| {
      assert cut[..HEADER] == EncodeFrame(f)[..HEADER];
      assert cut[HEADER..] == f.payload[..|cut| - HEADER];
    }
  }

  /** A stream of frames cut short decodes to a prefix of the payload, and passes
      for a clean one exactly when it is cut between two frames. */
  lemma {:induction false} DecodeCut(frames: seq<Frame>, n: nat)
    requires Encodable(frames) && n <= |EncodeFrames(frames)|
    ensures
      var d := Decode(EncodeFrames(frames)[..n]);
      && d.payload <= Payloads(frames)
      && !d.end.Invalid?
      && (d.end.Clean? <==> FrameBoundary(frames, n))
  {
    hide EncodeFrame, FrameBoundary, InFrame;
    if frames == [] || n == 0 {
      CutAtStart(frames);
    } else {
      var f, rest := frames[0], EncodeFrames(frames[1..]);
      var size := HEADER + |f.payload|;
      var cut := EncodeFrames(frames)[..n];
      EncodedSize(f);
      BoundariesShift(frames, n);
      if n < size {
        assert cut == EncodeFrame(f)[..n];
        CutInsideFrame(f, cut);
        NoNegativeBoundary(frames[1..], n - size);
      } else {
        DecodeCut(frames[1..], n - size);
        assert cut == EncodeFrame(f) + rest[..n - size];
        FrameThenRest(f, rest[..n - size]);
      }
    }
  }

  lemma EncodedSize(f: Frame)
    requires |f.payload| < 0x1_0000_0000
    ensures |EncodeFrame(f)| == HEADER + |f.payload|
  {
  }

  lemma CutAtStart(frames: seq<Frame>)
    requires Encodable(frames)
    ensures FrameBoundary(frames, 0)
  {
    assert EncodeFrames(frames[..0]) == [];
  }

  lemma NoNegativeBoundary(frames: seq<Frame>, n: int)
    requires Encodable(frames) && n < 0
    ensures !FrameBoundary(frames, n)
  {
  }

  // ----- readers -----

  datatype ReadError = NoError | Eof | UnexpectedEof | InvalidFrame | BufferFull | TransportError

  /** A buffered connection: any read may return fewer bytes than asked for, and
      may fail unless the connection is reliable. */
  class Source {
    const data: seq<Byte>
    const reliable: bool
    var pos: nat

    constructor (data: seq<Byte>, reliable: bool)
      ensures this.data == data && this.reliable == reliable && pos == 0
    {
      this.data, this.reliable, pos := data, reliable, 0;
    }

    method Read(want: nat) returns (chunk: seq<Byte>, err: ReadError)
      requires pos <= |data|
      modifies this
      ensures old(pos) <= pos <= |data| && pos - old(pos) <= want && chunk == data[old(pos)..pos]
      ensures err.NoError? || err.Eof? || (err.TransportError? && !reliable)
      ensures err.NoError? && 0 < want ==> chunk != []
      ensures err.Eof? ==> pos == |data|
    {
      var left := |data| - pos;
      var n: int := *;
      if n < 1 || left < n || want < n {
        n := if left < want then left else want;
      }
      chunk := data[pos..pos + n];
      pos := pos + n;
      var fails: bool := *;
      var early: bool := *;
      err := if fails && !reliable then TransportError
        else if pos == |data| && (early || n == 0) then Eof
        else NoError;
    }

    /** io.ReadFull: an end in the middle is not a clean one. */
    method ReadFull(want: nat) returns (bytes: seq<Byte>, err: ReadError)
      requires pos <= |data| && 0 < want
      modifies this
      ensures old(pos) <= pos <= |data| && bytes == data[old(pos)..pos]
      ensures err.NoError? || err.Eof? || err.UnexpectedEof? || (err.TransportError? && !reliable)
      ensures err.NoError? ==> pos == old(pos) + want
      ensures err.Eof? ==> pos == old(pos) == |data|
      ensures err.UnexpectedEof? ==> old(pos) < pos == |data| < old(pos) + want
    {
      bytes, err := [], NoError;
      while |bytes| < want && err.NoError?
        invariant old(pos) <= pos <= |data| && bytes == data[old(pos)..pos] && |bytes| <= want
        invariant err.NoError? || err.Eof? || (err.TransportError? && !reliable)
        invariant err.Eof? ==> pos == |data|
        decreases err.NoError?, want - |bytes|
      {
        var chunk;
        chunk, err := Read(want - |bytes|);
        bytes := bytes + chunk;
      }
      if |bytes| == want {
        err := NoError;
      } else if 0 < |bytes| && err.Eof? {
        err := UnexpectedEof;
      }
    }
  }

  /** What a reader still has to deliver, and how it will end. */
  ghost predicate Continues(whole: Decoded, emitted: seq<Byte>, rest: Decoded) {
    whole == Decoded(emitted + rest.payload, rest.end)
  }

  /** Between frames the next eight bytes decide. */
  lemma HeaderStep(data: seq<Byte>, pos: nat)
    requires pos <= |data|
    ensures
      var rest := InFrame(data[pos..], 0);
      && (pos == |data| ==> rest == Decoded([], Clean))
      && (pos < |data| < pos + HEADER ==> rest == Decoded([], Truncated))
      && (pos + HEADER <= |data| ==>
        var h := data[pos..pos + HEADER];
        rest == if ValidHeader(h) then InFrame(data[pos + HEADER..], PayloadSize(h)) else Decoded([], Invalid))
  {
  }

  /** A chunk of the payload leaves the rest of the frame. */
  lemma ChunkStep(data: seq<Byte>, pos: nat, remaining: nat, n: nat)
    requires pos + n <= |data| && n <= remaining
    ensures
      var rest := InFrame(data[pos + n..], remaining - n);
      InFrame(data[pos..], remaining) == Decoded(data[pos..pos + n] + rest.payload, rest.end)
    ensures pos + n == |data| ==>
      InFrame(data[pos + n..], remaining - n) == Decoded([], if remaining == n then Clean else Truncated)
  {
    var left, after := data[pos..], data[pos + n..];
    if remaining <= |left| {
      assert after[remaining - n..] == left[remaining..];
      assert left[..remaining] == data[pos..pos + n] + after[..remaining - n];
    } else {
      assert left == data[pos..pos + n] + after;
    }
  }

  lemma ContinuesWith(whole: Decoded, emitted: seq<Byte>, chunk: seq<Byte>, rest: Decoded)
    requires Continues(whole, emitted, Decoded(chunk + rest.payload, rest.end))
    ensures Continues(whole, emitted + chunk, rest)
  {
  }

  class DockerStreamReader {
    const source: Source
    var remaining: nat
    ghost var emitted: seq<Byte>

    constructor (source: Source)
      requires source.pos == 0
      ensures Valid() && this.source == source && emitted == []
    {
      this.source, remaining, emitted := source, 0, [];
      new;
      assert source.data[0..] == source.data;
    }

    ghost function Rest(): Decoded
      reads this, source
      requires source.pos <= |source.data|
    {
      InFrame(source.data[source.pos..], remaining)
    }

    /** Everything emitted so far, followed by what is left, is the meaning of the
        whole stream. */
    ghost predicate Valid()
      reads this, source
    {
      source.pos <= |source.data| && Continues(Decode(source.data), emitted, Rest())
    }

    /** Chunks of the payload, in order.  An error that is not the transport's
        means that everything was emitted, and says how the stream ends. */
    method Read(size: nat) returns (p: seq<Byte>, err: ReadError)
      requires Valid()
      modifies this, source
      ensures emitted == old(emitted) + p && |p| <= size
      ensures emitted <= Decode(source.data).payload
      ensures err.NoError? ==> Valid() && (0 < size ==> old(source.pos) < source.pos && p != [])
      ensures err.Eof? ==> Decode(source.data) == Decoded(emitted, Clean)
      ensures err.UnexpectedEof? ==> Decode(source.data) == Decoded(emitted, Truncated)
      ensures err.InvalidFrame? ==> Decode(source.data) == Decoded(emitted, Invalid)
      ensures !err.BufferFull? && (err.TransportError? ==> !source.reliable)
    {
      hide Decode, InFrame;
      while remaining == 0
        invariant Valid() && emitted == old(emitted) && old(source.pos) <= source.pos
        decreases |source.data| - source.pos
      {
        HeaderStep(source.data, source.pos);
        var header;
        header, err := source.ReadFull(HEADER);
        if err != NoError {
          return [], err;
        }
        if !ValidHeader(header) {
          return [], InvalidFrame;
        }
        remaining := PayloadSize(header);
      }
      ghost var pos := source.pos;
      p, err := source.Read(if size > remaining then remaining else size);
      ChunkStep(source.data, pos, remaining, |p|);
      ContinuesWith(Decode(source.data), emitted, p, InFrame(source.data[source.pos..], remaining - |p|));
      remaining := remaining - |p|;
      emitted := emitted + p;
      if err.Eof? && remaining > 0 {
        err := UnexpectedEof;
      }
    }
  }

  /** Reading to the end.  Whatever the sizes asked for and however the transport
      cuts the bytes, the stream alone decides what is read and how it ends. */
  method ReadAll(reader: DockerStreamReader, sizes: nat -> nat) returns (all: seq<Byte>, err: ReadError)
    requires reader.Valid() && reader.emitted == [] && forall i :: 0 < sizes(i)
    modifies reader, reader.source
    ensures err.TransportError? || err.Eof? || err.UnexpectedEof? || err.InvalidFrame?
    ensures err.TransportError? ==> !reader.source.reliable && all <= Decode(reader.source.data).payload
    ensures err.Eof? ==> Decode(reader.source.data) == Decoded(all, Clean)
    ensures err.UnexpectedEof? ==> Decode(reader.source.data) == Decoded(all, Truncated)
    ensures err.InvalidFrame? ==> Decode(reader.source.data) == Decoded(all, Invalid)
  {
    hide Decode;
    all, err := [], NoError;
    var i := 0;
    while err.NoError?
      invariant all == reader.emitted && all <= Decode(reader.source.data).payload
      invariant err.NoError? ==> reader.Valid()
      invariant err.Eof? ==> Decode(reader.source.data) == Decoded(all, Clean)
      invariant err.UnexpectedEof? ==> Decode(reader.source.data) == Decoded(all, Truncated)
      invariant err.InvalidFrame? ==> Decode(reader.source.data) == Decoded(all, Invalid)
      invariant !err.BufferFull? && (err.TransportError? ==> !reader.source.reliable)
      decreases err.NoError?, |reader.source.data| - reader.source.pos
    {
      var chunk;
      chunk, err := reader.Read(sizes(i));
      all := all + chunk;
      i := i + 1;
    }
  }

  /** Whether a whole frame begins at n; only the stream type of its header is
      looked at here. */
  ghost predicate FrameAt(data: seq<Byte>, n: nat) {
    n + HEADER <= |data| && (data[n] == 1 || data[n] == 2) && NextFrame(data, n) <= |data|
  }

  ghost function NextFrame(data: seq<Byte>, n: nat): (next: nat)
    requires n + HEADER <= |data|
    ensures n + HEADER <= next
  {
    n + HEADER + PayloadSize(data[n..n + HEADER])
  }

  /** The bytes from one offset to another are whole frames with this payload. */
  ghost predicate Whole(data: seq<Byte>, from: nat, upto: nat, payload: seq<Byte>)
    requires from <= upto
    decreases upto - from
  {
    if from == upto then payload == []
    else
      FrameAt(data, from) && NextFrame(data, from) <= upto &&
      var size := NextFrame(data, from) - from - HEADER;
      size <= |payload| && payload[..size] == data[from + HEADER..NextFrame(data, from)] &&
      Whole(data, NextFrame(data, from), upto, payload[size..])
  }

  lemma {:induction false} WholeMore(data: seq<Byte>, from: nat, upto: nat, payload: seq<Byte>)
    requires from <= upto && Whole(data, from, upto, payload) && FrameAt(data, upto)
    ensures Whole(data, from, NextFrame(data, upto), payload + data[upto + HEADER..NextFrame(data, upto)])
    decreases upto - from
  {
    hide NextFrame;
    var chunk, next := data[upto + HEADER..NextFrame(data, upto)], NextFrame(data, upto);
    if from == upto {
      assert payload + chunk == chunk && chunk[..|chunk|] == chunk && chunk[|chunk|..] == [];
      assert Whole(data, next, next, []);
    } else {
      var k := NextFrame(data, from) - from - HEADER;
      WholeMore(data, NextFrame(data, from), upto, payload[k..]);
      assert (payload + chunk)[k..] == payload[k..] + chunk;
      assert (payload + chunk)[..k] == payload[..k];
    }
  }

  /** A whole frame at the front of a clean stream. */
  lemma CleanFrame(data: seq<Byte>)
    requires HEADER <= |data| && Decode(data).end.Clean?
    ensures
      var next := HEADER + PayloadSize(data[..HEADER]);
      (data[0] == 1 || data[0] == 2) && next <= |data| && Decode(data[next..]).end.Clean? &&
      Decode(data).payload == data[HEADER..next] + Decode(data[next..]).payload
  {
    var size := PayloadSize(data[..HEADER]);
    var left := data[HEADER..];
    if size <= |left| {
      assert left[size..] == data[HEADER + size..] && left[..size] == data[HEADER..HEADER + size];
    }
  }

  lemma CleanEnd(data: seq<Byte>)
    requires |data| < HEADER && Decode(data).end.Clean?
    ensures data == [] && Decode(data).payload == []
  {
  }

  /** docker.go's decoder for a stream that is already in memory: the payload of
      the whole frames and a rest too short for a header, or, when what follows is
      no whole frame, that rest alone.  On a stream that ends at a frame boundary
      it agrees with the incremental decoder. */
  method StripDockerStreamHeaders(data: seq<Byte>) returns (output: seq<Byte>)
    ensures Decode(data).end.Clean? ==> output == Decode(data).payload
    ensures exists n: nat, payload ::
      n <= |data| && Whole(data, 0, n, payload) && !FrameAt(data, n) &&
      output == if |data| < n + HEADER then payload + data[n..] else data[n..]
  {
    hide Decode, Whole, PayloadSize;
    output := [];
    var rest := data;
    ghost var n: nat := 0;
    ghost var clean := Decode(data).end.Clean?;
    NothingWhole(data);
    while |rest| >= HEADER
      invariant clean ==> Decode(rest).end.Clean? && Decode(data).payload == output + Decode(rest).payload
      invariant n <= |data| && rest == data[n..] && Whole(data, 0, n, output)
      decreases |rest|
    {
      assert rest[..HEADER] == data[n..n + HEADER];
      if clean {
        CleanFrame(rest);
      }
      if rest[0] != 1 && rest[0] != 2 {
        return rest;
      }
      var size := PayloadSize(rest[..HEADER]);
      if |rest| < HEADER + size {
        return rest;
      }
      FrameFound(data, n, size);
      WholeMore(data, 0, n, output);
      var chunk := rest[HEADER..HEADER + size];
      SliceBehind(data, n, HEADER, HEADER + size);
      ghost var left := Decode(rest[HEADER + size..]).payload;
      assert output + (chunk + left) == output + chunk + left;
      output := output + chunk;
      n := n + HEADER + size;
      rest := rest[HEADER + size..];
    }
    if clean {
      CleanEnd(rest);
      assert output + [] == output;
    }
    assert !FrameAt(data, n);
    if |output| == 0 {
      assert output + rest == rest;
      return rest;
    }
    ghost var payload := output;
    assert Whole(data, 0, n, payload);
    output := output + rest;
  }

  lemma SliceBehind(data: seq<Byte>, n: nat, from: nat, upto: nat)
    requires from <= upto && n + upto <= |data|
    ensures data[n..][from..upto] == data[n + from..n + upto] && data[n..][upto..] == data[n + upto..]
  {
  }

  lemma FrameFound(data: seq<Byte>, n: nat, size: nat)
    requires n + HEADER <= |data| && (data[n] == 1 || data[n] == 2) && size == PayloadSize(data[n..n + HEADER])
    requires n + HEADER + size <= |data|
    ensures FrameAt(data, n) && NextFrame(data, n) == n + HEADER + size
  {
  }

  lemma NothingWhole(data: seq<Byte>)
    ensures Whole(data, 0, 0, []) && data == data[0..] && Decode(data).payload == [] + Decode(data).payload
  {
  }
}
