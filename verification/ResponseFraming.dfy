/** What the response writer guarantees about the bytes on the wire. */
module ResponseFraming {
  import opened Wrappers
  import opened Bytes
  import opened Head
  import opened Response
  import opened ChunkedRoundTrip
  import Chunked

  // ----- What a decoder makes of the pieces that are written -----------------------------

  lemma DecodeChunk(octets: bytes, data: bytes)
    requires Chunked.Eats(Chunked.INITIAL, octets, Chunked.INITIAL) && data != []
    ensures var next := octets + WriteChunk(data);
            Chunked.Eats(Chunked.INITIAL, next, Chunked.INITIAL) && Chunked.Payload(next) == Chunked.Payload(octets) + data
  {
    FeedChunk(Chunked.INITIAL, data, [], 0);
    assert WriteChunk(data) + [] == WriteChunk(data);
    assert Chunked.Feed(Chunked.INITIAL, [], 0) == Chunked.Fed(Chunked.INITIAL, [], [], None);
    Chunked.FeedEatsAll(octets, Chunked.INITIAL, WriteChunk(data));
    assert data + Flat([]) == data;
  }

  /** In front of a trailer section that the decoder can still read. */
  ghost predicate InSection(octets: bytes, d: Chunked.Decoder) {
    d.mode.Trailer? && !d.done && Chunked.Eats(Chunked.INITIAL, octets, d)
  }

  lemma FeedLastChunk()
    ensures Chunked.Feed(Chunked.INITIAL, [48] + CRLF, 0) == Chunked.Fed(Chunked.INITIAL.(mode := Chunked.Trailer), [], [], None)
  {
    assert Hex(0) == [48];
    HexHasNoCrlf(0);
    ParseHex(0, 0);
    Chunked.StepLine(Chunked.INITIAL, [48], [], 0);
    assert [48] + CRLF + [] == [48] + CRLF;
    Chunked.FeedTakeNothing(Chunked.INITIAL, [48] + CRLF, 0);
    var d := Chunked.INITIAL.(mode := Chunked.Trailer);
    assert Chunked.Feed(d, [], 0) == Chunked.Fed(d, [], [], None);
  }

  lemma DecodeLastChunk(octets: bytes) returns (d: Chunked.Decoder)
    requires Chunked.Eats(Chunked.INITIAL, octets, Chunked.INITIAL)
    ensures InSection(octets + ([48] + CRLF), d) && Chunked.Payload(octets + ([48] + CRLF)) == Chunked.Payload(octets)
  {
    d := Chunked.INITIAL.(mode := Chunked.Trailer);
    FeedLastChunk();
    Chunked.FeedEatsAll(octets, Chunked.INITIAL, [48] + CRLF);
    assert Chunked.Payload(octets) + Flat([]) == Chunked.Payload(octets);
  }

  ghost predicate AllValid(fields: seq<Field>) {
    forall i :: 0 <= i < |fields| ==> ValidTrailer(fields[i])
  }

  lemma {:induction false} FeedFields(d: Chunked.Decoder, fields: seq<Field>) returns (e: Chunked.Decoder)
    requires d.mode.Trailer? && !d.done && AllValid(fields)
    ensures e.mode.Trailer? && !e.done && Chunked.Feed(d, TrailerText(fields), 0) == Chunked.Fed(e, [], [], None)
    decreases |fields|
  {
    if fields == [] {
      e := d;
    } else {
      var after := TrailerText(fields[1..]);
      FeedOneTrailer(d, fields[0], after, 0);
      Chunked.FeedTakeNothing(d, FieldLine(fields[0]) + CRLF + after, 0);
      e := FeedFields(AfterTrailer(d, fields[0]), fields[1..]);
    }
  }

  lemma DecodeFields(octets: bytes, d: Chunked.Decoder, fields: seq<Field>) returns (e: Chunked.Decoder)
    requires InSection(octets, d) && AllValid(fields)
    ensures InSection(octets + TrailerText(fields), e)
    ensures Chunked.Payload(octets + TrailerText(fields)) == Chunked.Payload(octets)
  {
    e := FeedFields(d, fields);
    Chunked.FeedEatsAll(octets, d, TrailerText(fields));
    assert Chunked.Payload(octets) + Flat([]) == Chunked.Payload(octets);
  }

  lemma DecodeEnd(octets: bytes, d: Chunked.Decoder)
    requires InSection(octets, d)
    ensures Chunked.WholeChunked(octets + CRLF) && Chunked.Payload(octets + CRLF) == Chunked.Payload(octets)
  {
    Chunked.FeedEmptyLine(d, [], 0);
    assert CRLF + [] == CRLF;
    Chunked.FeedEatsAll(octets, d, CRLF);
    assert Chunked.Payload(octets) + Flat([]) == Chunked.Payload(octets);
  }

  /** Whatever follows, a decoder refuses these octets. */
  ghost predicate Spoilt(octets: bytes) {
    forall rest :: Chunked.Feed(Chunked.INITIAL, octets + rest, 0).error.Some?
  }

  lemma SpoiltStays(octets: bytes, more: bytes)
    requires Spoilt(octets)
    ensures Spoilt(octets + more)
  {
    forall rest ensures Chunked.Feed(Chunked.INITIAL, octets + more + rest, 0).error.Some? {
      ConcatAssoc(octets, more, rest);
    }
  }

  lemma SpoiltIsNotWhole(octets: bytes)
    requires Spoilt(octets)
    ensures !Chunked.WholeChunked(octets)
  {
    assert octets + [] == octets;
  }

  /** A line that the decoder refuses where it stands spoils what follows. */
  lemma BadLineSpoils(octets: bytes, d: Chunked.Decoder, line: bytes, more: bytes)
    requires Chunked.Eats(Chunked.INITIAL, octets, d) && !d.done && !d.mode.Data?
    requires FindCrlf(line).None? && Chunked.LineMove(d, line, 0).Refuse?
    ensures Spoilt(octets + (line + CRLF + more))
  {
    forall rest
      ensures Chunked.Feed(Chunked.INITIAL, octets + (line + CRLF + more) + rest, 0).error.Some?
    {
      var tail := line + CRLF + more + rest;
      ConcatAssoc(octets, line + CRLF + more, rest);
      ConcatAssoc(line + CRLF, more, rest);
      Chunked.StepLine(d, line, more + rest, 0);
      assert Chunked.Feed(d, tail, 0).error.Some?;
      Chunked.FeedTwice(Chunked.INITIAL, octets, tail, 0);
      assert [] + tail == tail;
    }
  }

  lemma HexSpoils(octets: bytes, d: Chunked.Decoder, n: nat, more: bytes)
    requires InSection(octets, d)
    ensures Spoilt(octets + (Hex(n) + CRLF + more))
  {
    HexHasNoCrlf(n);
    assert COLON !in Hex(n) by {
      assert forall i :: 0 <= i < |Hex(n)| ==> HexByte(Hex(n)[i]);
    }
    BadLineSpoils(octets, d, Hex(n), more);
  }

  const VERSION := Text("HTTP/1.1 ")

  lemma {:induction false} NoCrlfInFront(a: bytes, b: bytes)
    requires forall i :: 0 <= i < |a| ==> a[i] != CR
    ensures FindCrlf(a + b) == match FindCrlf(b) case None => None case Some(i) => Some(|a| + i)
  {
    if a == [] {
      assert a + b == b;
    } else {
      assert (a + b)[1..] == a[1..] + b && (a + b)[0] == a[0];
      NoCrlfInFront(a[1..], b);
    }
  }

  /** A status line is neither a chunk size nor a trailer field. */
  lemma StatusLineRefused(d: Chunked.Decoder, line: bytes)
    requires !d.mode.Data? && |VERSION| <= |line| && line[..|VERSION|] == VERSION
    ensures Chunked.LineMove(d, line, 0).Refuse?
  {
    assert line[0] == VERSION[0] == 72 && line[4] == VERSION[4] == 47;
    if d.mode.Size? {
      NotHex(line);
    } else {
      NotField(line);
    }
  }

  lemma NotHex(line: bytes)
    requires line != [] && line[0] == 72
    ensures Chunked.ParseSize(line, 0).Err?
  {
    var raw := Before(line, SEMICOLON);
    assert |raw| > 0 && raw[0] == 72;
    StripRightEnds(raw);
    assert StripLeft(raw) == raw;
    var digits := Strip(raw);
    assert digits != [] ==> digits[0] == raw[0];
  }

  lemma {:induction false} StripRightKeeps(b: bytes, i: nat)
    requires i < |b| && !White(b[i])
    ensures i < |StripRight(b)| && StripRight(b)[i] == b[i]
  {
    if White(b[|b| - 1]) {
      StripRightKeeps(b[..|b| - 1], i);
    }
  }

  lemma NotField(line: bytes)
    requires |line| >= 9 && line[..9] == VERSION
    ensures Chunked.ParseTrailer(line).Err?
  {
    var raw := Before(line, COLON);
    assert forall i :: 0 <= i < 9 ==> line[i] == VERSION[i];
    if COLON in line {
      assert |raw| > 4 by {
        assert |raw| < |line| ==> line[|raw|] == COLON;
      }
      assert raw[0] == 72 && raw[4] == 47 && StripLeft(raw) == raw;
      StripRightKeeps(raw, 4);
      assert Lower(Strip(raw))[4] == 47 && !TokenByte(47);
    }
  }

  lemma {:induction false} LineEnds(front: bytes, after: bytes) returns (i: nat)
    ensures FindCrlf(front + CRLF + after) == Some(i)
  {
    var all := front + CRLF + after;
    if FindCrlf(front).Some? {
      ConcatAssoc(front, CRLF, after);
      FindCrlfStays(front, CRLF + after);
      i := FindCrlf(front).value;
    } else {
      FindCrlfAfter(front, after);
      i := |front|;
    }
  }

  /** The status line of an interim head. */
  lemma InterimLine(ex: Exchange, m: Message) returns (line: bytes, more: bytes)
    requires m.Start?
    ensures InterimText(ex, m) == line + CRLF + more && FindCrlf(line).None?
    ensures |VERSION| <= |line| && line[..|VERSION|] == VERSION
  {
    var front := Ascii(m.status) + [SPACE] + ex.phrase(m.status);
    var after := TrailerText(Normalise(m.headers)) + CRLF;
    ConcatAssoc(front, CRLF, TrailerText(Normalise(m.headers)));
    ConcatAssoc(front, CRLF, after);
    ConcatAssoc(front + CRLF, TrailerText(Normalise(m.headers)), CRLF);
    assert InterimText(ex, m) == VERSION + (front + CRLF + after);
    line, more := VersionLine(front, after);
  }

  lemma VersionLine(front: bytes, after: bytes) returns (line: bytes, more: bytes)
    ensures VERSION + (front + CRLF + after) == line + CRLF + more && FindCrlf(line).None?
    ensures |VERSION| <= |line| && line[..|VERSION|] == VERSION
  {
    var text := VERSION + (front + CRLF + after);
    var i := LineEnds(front, after);
    NoCrlfInFront(VERSION, front + CRLF + after);
    CutAtCrlf(text, |VERSION| + i);
    line, more := text[..|VERSION| + i], text[|VERSION| + i + 2..];
  }

  /** An interim head spoils a chunked body, wherever the writer stands. */
  lemma InterimSpoils(ex: Exchange, octets: bytes, d: Chunked.Decoder, m: Message)
    requires Chunked.Eats(Chunked.INITIAL, octets, d) && !d.done && !d.mode.Data? && m.Start?
    ensures Spoilt(octets + InterimText(ex, m))
  {
    var line, more := InterimLine(ex, m);
    StatusLineRefused(d, line);
    BadLineSpoils(octets, d, line, more);
  }

  // ----- What holds between two messages ---------------------------------------------------

  /** A whole sequence of messages: how a client delimits the answers to the request,
      what a start settles, whether the messages are in order, what they amount to, and
      the body that the application sent. */
  datatype Setting = Setting(ex: Exchange, frame: FinalHead -> Framing, plan: Message -> Course, good: bool,
                             content: bytes, body: bytes)

  ghost predicate Fair(t: Setting) {
    && (forall head :: t.frame(head) == FramingOf(t.ex.verb, head))
    && (forall m :: t.plan(m) == CourseOf(t.ex, m))
  }

  ghost predicate Shape(frame: FinalHead -> Framing, w: Writer)
    requires w.head.Some?
  {
    var framing := frame(w.head.value);
    && (w.discard <==> framing.NoBody?) && (w.discard ==> !w.encoded)
    && (w.chunked <==> framing.ChunkedCoding?)
    && (w.declared.Some? ==>
          && framing == (if LengthsAgree(w.head.value.headers) then Exactly(w.declared.value) else Ambiguous)
          && !w.encoded && !w.discard && !w.chunked)
    && (!w.discard && !w.chunked && w.declared.None? ==> framing.UntilClose? && !w.keepAlive)
    && (w.awaitingTrailers ==> w.chunked && w.trailersExpected)
  }

  /** The octets of an answer that is not chunked are counted. */
  ghost predicate Tally(w: Writer) {
    && (w.discard ==> |w.octets| == w.late)
    && (!w.discard && !w.chunked ==> Adds(w))
    && (w.declared.Some? ==> w.bodyBytes == |Flat(w.pieces)| <= w.declared.value)
  }

  ghost predicate Adds(w: Writer) {
    |w.octets| == |Flat(w.pieces)| + w.late && (w.late == 0 ==> w.octets == Flat(w.pieces))
  }

  /** The octets as a decoder sees them: the pieces written so far, and maybe the
      beginning of a trailer section. */
  ghost predicate Decodable(w: Writer) {
    && Chunked.Payload(w.octets) == Flat(w.pieces)
    && (if w.awaitingTrailers then InSection(w.octets, Chunked.Feed(Chunked.INITIAL, w.octets, 0).next)
        else Chunked.Eats(Chunked.INITIAL, w.octets, Chunked.INITIAL))
  }

  function CourseNow(w: Writer): Course {
    Course(if w.discard then Bodyless else if w.chunked then Coded else Verbatim, w.encoded, w.trailersExpected, w.given,
           if w.awaitingTrailers then InTrailers else InBody)
  }

  /** Either nothing is out of order so far, or the octets show that something was. */
  ghost predicate Standing(t: Setting, w: Writer, rest: seq<Message>) {
    if w.chunked then
      || (Decodable(w) && (t.good <==> Orderly(t.ex, rest, CourseNow(w))))
      || (!t.good && Spoilt(w.octets))
    else if w.late == 0 then t.good <==> Orderly(t.ex, rest, CourseNow(w))
    else !t.good
  }

  /** Nothing of what the messages amount to is dropped, cut or out of place. */
  ghost predicate Unaltered(t: Setting, w: Writer) {
    && !w.discard && (w.chunked ==> t.good)
    && (w.keepAlive || w.declared.None? || |t.content| <= w.declared.value)
  }

  /** The writer with `rest` to come. */
  ghost predicate WriterOk(t: Setting, w: Writer, rest: seq<Message>) {
    && !w.ended && !w.aborted && StartsOnce(rest, w.head.Some?)
    && if w.head.None? then
         && w == Begin(w.keepAlive).(interim := w.interim)
         && (t.good <==> Orderly(t.ex, rest, CourseFor(t.plan, rest)))
         && ContentFor(t.ex, t.plan, rest) == t.content && BodyOf(rest, false) == t.body
       else
         && Shape(t.frame, w) && Tally(w) && Standing(t, w, rest)
         && (Unaltered(t, w) ==>
               Flat(w.pieces) + (if w.awaitingTrailers then [] else ContentOf(t.ex, CourseNow(w), rest)) == t.content)
         && (!w.encoded ==> t.content == t.body)
  }

  /** The writer after the message that ended the answer. */
  ghost predicate Finished(t: Setting, w: Writer) {
    && w.ended
    && (w.head.Some? ==>
          && Shape(t.frame, w) && Tally(w)
          && (!w.chunked ==> (t.good <==> w.late == 0))
          && (w.chunked && (w.aborted || !t.good) ==> !Chunked.WholeChunked(w.octets))
          && (w.chunked && !w.aborted && t.good ==> Chunked.WholeChunked(w.octets) && Chunked.Payload(w.octets) == Flat(w.pieces))
          && (!w.aborted && Unaltered(t, w) ==> Flat(w.pieces) == t.content)
          && (!w.encoded ==> t.content == t.body))
  }

  ghost predicate StepOk(t: Setting, v: Writer, rest: seq<Message>) {
    if v.ended then Finished(t, v) else WriterOk(t, v, rest)
  }

  lemma ChunkedFrames(verb: bytes, status: nat, headers: seq<Field>)
    requires ResponseHasBody(verb, status)
    ensures FramingOf(verb, FinalHead(status, headers + [(Text("transfer-encoding"), Text("chunked"))])).ChunkedCoding?
  {
    var name := Text("transfer-encoding");
    assert Lower(name) == name;
    assert IsKind((name, Text("chunked")), Coding);
    assert (name, Text("chunked")) in headers + [(name, Text("chunked"))];
  }

  lemma EncodedFrames(verb: bytes, status: nat, headers: seq<Field>, value: bytes)
    requires ResponseHasBody(verb, status)
    ensures var plain := Without(Normalise(headers), Length) + [(Text("content-encoding"), value)];
            FramingOf(verb, FinalHead(status, plain)).UntilClose?
  {
    EncodingNameIsPlain(value);
    var plain := Without(Normalise(headers), Length) + [(Text("content-encoding"), value)];
    forall f | f in plain ensures !IsKind(f, Length) && !IsKind(f, Coding) {
      if f in Without(Normalise(headers), Length) {
        assert f in Normalise(headers);
      }
    }
  }

  lemma PlainFrames(verb: bytes, status: nat, headers: seq<Field>)
    requires ResponseHasBody(verb, status)
    ensures var h := Normalise(headers);
            FramingOf(verb, FinalHead(status, h)) ==
            match First(h, Length)
            case None => UntilClose
            case Some(value) => if LengthsAgree(h) then Exactly(Decimal(value)) else Ambiguous
  {
  }

  lemma EncodingNameIsPlain(value: bytes)
    ensures IsKind((Text("content-encoding"), value), Plain)
  {
    var name := Text("content-encoding");
    assert Lower(name) == name;
    assert |name| == |Text("content-length")| + 2 && |name| + 1 == |Text("transfer-encoding")|;
  }

  // ----- Starts ---------------------------------------------------------------------------

  /** The start of the answer settles its framing and its course. */
  lemma StartShapes(t: Setting, keepAlive: bool, interim: bytes, m: Message)
    requires m.Start? && m.status >= 200 && Fair(t)
    ensures var v := OnStart(t.ex, Begin(keepAlive).(interim := interim), m); Shape(t.frame, v) && CourseNow(v) == t.plan(m)
  {
    var ex, headers := t.ex, Normalise(m.headers);
    var coding := ex.encoding(m.status, headers);
    if ResponseHasBody(ex.verb, m.status) {
      if coding.None? {
        PlainFrames(ex.verb, m.status, m.headers);
        ChunkedFrames(ex.verb, m.status, headers);
      } else {
        EncodedFrames(ex.verb, m.status, m.headers, coding.value);
        ChunkedFrames(ex.verb, m.status, Without(headers, Length) + [(Text("content-encoding"), coding.value)]);
      }
    }
  }

  /** Nothing has been written of an answer that has just begun. */
  ghost predicate Empty(w: Writer) {
    && w.head.Some? && w.octets == [] && w.pieces == [] && !w.awaitingTrailers && !w.aborted
    && w.late == 0 && w.bodyBytes == 0
  }

  /** What a start changes besides the head and the way the body is delimited. */
  predicate Settled(v: Writer, w: Writer, m: Message, hasBody: bool)
    requires m.Start?
  {
    && v.head.Some? && v.interim == w.interim && v.octets == w.octets && v.pieces == w.pieces && v.late == w.late
    && v.bodyBytes == w.bodyBytes
    && v.awaitingTrailers == w.awaitingTrailers && v.aborted == w.aborted && v.discard == (w.discard || !hasBody)
    && v.trailersExpected == (if hasBody then m.trailers else w.trailersExpected)
    && v.ended == (if hasBody then w.ended else !m.moreBody) && (!hasBody ==> v.chunked == w.chunked)
  }

  lemma UnsizedSettles(ex: Exchange, w: Writer, m: Message, headers: seq<Field>, encoded: bool)
    requires m.Start?
    ensures Settled(StartUnsized(ex, w, m, headers, encoded), w, m, true)
  {
    var v := StartUnsized(ex, w, m, headers, encoded);
    if ex.http11 {
      assert v.head.Some? && v.trailersExpected == m.trailers && v.ended == w.ended && v.discard == w.discard;
    } else {
      assert v.head.Some? && v.trailersExpected == m.trailers && v.ended == w.ended && v.discard == w.discard;
    }
  }

  lemma SizedSettles(w: Writer, m: Message, headers: seq<Field>, length: nat)
    requires m.Start?
    ensures Settled(StartSized(w, m, headers, length), w, m, true)
  {
  }

  lemma BodylessSettles(w: Writer, m: Message, headers: seq<Field>)
    requires m.Start?
    ensures Settled(StartBodyless(w, m, headers), w, m, false)
  {
  }

  lemma StartKeeps(ex: Exchange, w: Writer, m: Message)
    requires m.Start? && m.status >= 200
    ensures Settled(OnStart(ex, w, m), w, m, ResponseHasBody(ex.verb, m.status))
  {
    var headers := Normalise(m.headers);
    var coding, length := ex.encoding(m.status, headers), First(headers, Length);
    if !ResponseHasBody(ex.verb, m.status) {
      BodylessSettles(w, m, BodylessHeaders(ex.verb, m.status, headers));
    } else if coding.Some? {
      UnsizedSettles(ex, w, m, Without(headers, Length) + [(Text("content-encoding"), coding.value)], true);
    } else if length.None? {
      UnsizedSettles(ex, w, m, headers, w.encoded);
    } else {
      SizedSettles(w, m, headers, Decimal(length.value));
    }
  }

  /** Without an encoder the messages amount to the data they carry. */
  lemma {:induction false} PlainContent(ex: Exchange, c: Course, msgs: seq<Message>)
    requires !c.encoded
    ensures ContentOf(ex, c, msgs) == BodyOf(msgs, true)
    decreases |msgs|
  {
    if msgs != [] {
      PlainContent(ex, c, msgs[1..]);
    }
  }

  lemma FinalStartOk(t: Setting, w: Writer, rest: seq<Message>)
    requires WriterOk(t, w, rest) && rest != [] && rest[0].Start? && rest[0].status >= 200
    requires var v := OnStart(t.ex, w, rest[0]); Shape(t.frame, v) && CourseNow(v) == t.plan(rest[0])
    requires Decodable(Begin(true)) && (t.plan(rest[0]).carrier.Bodyless? <==> OnStart(t.ex, w, rest[0]).discard)
    ensures StepOk(t, OnStart(t.ex, w, rest[0]), rest[1..])
  {
    var v := OnStart(t.ex, w, rest[0]);
    StartKeeps(t.ex, w, rest[0]);
    assert Empty(v);
    assert t.plan(rest[0]).(stage := BeforeStart).(stage := InBody) == CourseNow(v);
    assert Flat(v.pieces) + ContentOf(t.ex, CourseNow(v), rest[1..]) == t.content;
    if !v.encoded {
      PlainContent(t.ex, CourseNow(v), rest[1..]);
    }
  }

  lemma InterimTextIsSome(ex: Exchange, m: Message)
    requires m.Start?
    ensures |InterimText(ex, m)| >= |VERSION| == 9
  {
  }

  /** An interim head before the answer. */
  lemma EarlyInterimOk(t: Setting, w: Writer, rest: seq<Message>)
    requires WriterOk(t, w, rest) && rest != [] && rest[0].Start? && rest[0].status < 200 && w.head.None?
    ensures StepOk(t, OnStart(t.ex, w, rest[0]), rest[1..])
  {
  }

  /** An interim head in the middle of a chunked body. */
  lemma ChunkedInterimOk(t: Setting, w: Writer, rest: seq<Message>)
    requires WriterOk(t, w, rest) && rest != [] && rest[0].Start? && rest[0].status < 200 && w.head.Some? && w.chunked
    ensures StepOk(t, OnStart(t.ex, w, rest[0]), rest[1..])
  {
    hide InterimText, Spoilt, Chunked.Feed;
    var text := InterimText(t.ex, rest[0]);
    assert !Orderly(t.ex, rest, CourseNow(w));
    if Spoilt(w.octets) {
      SpoiltStays(w.octets, text);
    } else {
      InterimSpoils(t.ex, w.octets, Chunked.Feed(Chunked.INITIAL, w.octets, 0).next, rest[0]);
    }
    assert Spoilt(w.octets + text);
  }

  /** An interim head behind any other head. */
  lemma PlainInterimOk(t: Setting, w: Writer, rest: seq<Message>)
    requires WriterOk(t, w, rest) && rest != [] && rest[0].Start? && rest[0].status < 200 && w.head.Some? && !w.chunked
    ensures StepOk(t, OnStart(t.ex, w, rest[0]), rest[1..])
  {
    InterimTextIsSome(t.ex, rest[0]);
    assert !Orderly(t.ex, rest, CourseNow(w));
  }

  lemma StartOk(t: Setting, w: Writer, rest: seq<Message>)
    requires Fair(t) && WriterOk(t, w, rest) && rest != [] && rest[0].Start?
    ensures StepOk(t, OnStart(t.ex, w, rest[0]), rest[1..])
  {
    if rest[0].status < 200 {
      if w.head.None? {
        EarlyInterimOk(t, w, rest);
      } else if w.chunked {
        ChunkedInterimOk(t, w, rest);
      } else {
        PlainInterimOk(t, w, rest);
      }
    } else {
      StartShapes(t, w.keepAlive, w.interim, rest[0]);
      NothingDecoded();
      FinalStartOk(t, w, rest);
    }
  }

  lemma NothingDecoded()
    ensures Decodable(Begin(true))
  {
    assert Chunked.Feed(Chunked.INITIAL, [], 0) == Chunked.Fed(Chunked.INITIAL, [], [], None);
  }

  // ----- Data ---------------------------------------------------------------------------------

  /** Data in front of the end of the body. */
  lemma DataDecodes(w: Writer, data: bytes)
    requires w.chunked && !w.awaitingTrailers && Decodable(w)
    ensures Decodable(WriteData(w, data)) && Flat(WriteData(w, data).pieces) == Flat(w.pieces) + data
  {
    if data != [] {
      DecodeChunk(w.octets, data);
      FlatConcat(w.pieces, [data]);
      FlatOne(data);
    } else {
      assert Flat(w.pieces) + data == Flat(w.pieces);
    }
  }

  /** Data after the end of the body. */
  lemma DataSpoils(w: Writer, data: bytes)
    requires w.chunked && w.awaitingTrailers && Decodable(w) && data != []
    ensures Spoilt(WriteData(w, data).octets)
  {
    var d := Chunked.Feed(Chunked.INITIAL, w.octets, 0).next;
    HexSpoils(w.octets, d, |data|, data + CRLF);
    assert Hex(|data|) + CRLF + (data + CRLF) == WriteChunk(data);
  }

  lemma DataAdds(w: Writer, data: bytes)
    requires !w.chunked && Adds(w)
    ensures Adds(WriteData(w, data)) && Flat(WriteData(w, data).pieces) == Flat(w.pieces) + data
  {
    FlatConcat(w.pieces, [data]);
    FlatOne(data);
    assert data == [] ==> Flat(w.pieces) + data == Flat(w.pieces);
  }

  /** What the writer does with the data of a body message. */
  function Written(ex: Exchange, w: Writer, m: Message): Writer
    requires m.Body?
  {
    if w.encoded then WriteEncoded(ex, w, m.data, m.more) else WritePlain(w, m.data)
  }

  ghost predicate Live(w: Writer, m: Message) {
    m.Body? && w.head.Some? && !w.discard && !(!m.more && m.aborted)
  }

  /** Writing data leaves everything else about the answer as it was. */
  predicate Kept(v: Writer, w: Writer) {
    SameAnswer(v, w) && SameStanding(v, w)
  }

  predicate SameAnswer(v: Writer, w: Writer) {
    && v.interim == w.interim && v.head == w.head && v.discard == w.discard && v.chunked == w.chunked
    && v.declared == w.declared && v.encoded == w.encoded && v.trailersExpected == w.trailersExpected
  }

  predicate SameStanding(v: Writer, w: Writer) {
    && v.late == w.late && v.awaitingTrailers == w.awaitingTrailers
    && v.ended == w.ended && v.aborted == w.aborted && (v.keepAlive ==> w.keepAlive)
  }

  lemma DataKeeps(w: Writer, data: bytes)
    ensures Kept(WriteData(w, data), w) && WriteData(w, data).given == w.given
  {
    if data == [] {
    } else {
    }
  }

  lemma CountedKeeps(w: Writer, data: bytes)
    ensures Kept(WriteCounted(w, data), w) && WriteCounted(w, data).given == w.given
  {
    DataKeeps(w, data);
  }

  lemma ClosingKeeps(v: Writer, w: Writer)
    requires Kept(v, w)
    ensures Kept(v.(keepAlive := false), w) && v.(keepAlive := false).given == v.given
  {
  }

  lemma CutKeeps(w: Writer, data: bytes)
    requires w.declared.Some? && w.bodyBytes + |data| > w.declared.value
    ensures Kept(WritePlain(w, data), w) && WritePlain(w, data).given == w.given
  {
    var allowed := if w.declared.value > w.bodyBytes then w.declared.value - w.bodyBytes else 0;
    var v := WriteCounted(w, data[..allowed]);
    CountedKeeps(w, data[..allowed]);
    ClosingKeeps(v, w);
    assert WritePlain(w, data) == v.(keepAlive := false);
  }

  lemma PlainKeeps(w: Writer, data: bytes)
    ensures Kept(WritePlain(w, data), w) && WritePlain(w, data).given == w.given
  {
    if w.declared.Some? && w.bodyBytes + |data| > w.declared.value {
      CutKeeps(w, data);
    } else {
      CountedKeeps(w, data);
    }
  }

  lemma CodedKeeps(ex: Exchange, w: Writer, data: bytes)
    ensures var v := WriteCoded(ex, w, data); Kept(v, w) && v.given == if data == [] then w.given else w.given + [data]
  {
    if data != [] {
      CountedKeeps(w, ex.compress(w.given + [data]));
    }
  }

  lemma EncodedKeeps(ex: Exchange, w: Writer, data: bytes, more: bool)
    ensures var v := WriteEncoded(ex, w, data, more);
            Kept(v, w) && v.given == if data == [] then w.given else w.given + [data]
  {
    var v := WriteCoded(ex, w, data);
    CodedKeeps(ex, w, data);
    if !more {
      DataKeeps(v, ex.flush(v.given));
    }
  }

  lemma WrittenKeeps(ex: Exchange, w: Writer, m: Message)
    requires m.Body?
    ensures Kept(Written(ex, w, m), w) && CourseNow(Written(ex, w, m)) == Given(CourseNow(w), m.data)
  {
    PlainKeeps(w, m.data);
    EncodedKeeps(ex, w, m.data, m.more);
  }

  lemma CodedAdds(ex: Exchange, w: Writer, data: bytes)
    requires !w.chunked && w.encoded && Adds(w)
    ensures var v := WriteCoded(ex, w, data); Adds(v) && Flat(v.pieces) == Flat(w.pieces) + Emission(ex, CourseNow(w), data, true)
  {
    if data == [] {
      assert Flat(w.pieces) + ([] + []) == Flat(w.pieces);
    } else {
      var coded := ex.compress(w.given + [data]);
      DataAdds(w, coded);
      assert coded + [] == coded;
    }
  }

  /** Data that is encoded but not chunked is what the encoder emits. */
  lemma EncodedAdds(ex: Exchange, w: Writer, data: bytes, more: bool)
    requires !w.chunked && w.encoded && Adds(w)
    ensures var v := WriteEncoded(ex, w, data, more);
            Adds(v) && Flat(v.pieces) == Flat(w.pieces) + Emission(ex, CourseNow(w), data, more)
  {
    var v := WriteCoded(ex, w, data);
    CodedAdds(ex, w, data);
    CodedKeeps(ex, w, data);
    if !more {
      DataAdds(v, ex.flush(v.given));
      EmissionEnds(ex, CourseNow(w), Flat(w.pieces), data);
    }
  }

  lemma EmissionEnds(ex: Exchange, c: Course, before: bytes, data: bytes)
    requires c.encoded
    ensures before + Emission(ex, c, data, true) + ex.flush(Given(c, data).given) == before + Emission(ex, c, data, false)
  {
    var coded := if data == [] then [] else ex.compress(c.given + [data]);
    assert coded + [] == coded;
    ConcatAssoc(before, coded, ex.flush(Given(c, data).given));
  }

  lemma CountedAdds(w: Writer, data: bytes)
    requires !w.chunked && Adds(w)
    ensures var v := WriteCounted(w, data);
            Adds(v) && Flat(v.pieces) == Flat(w.pieces) + data && v.bodyBytes == w.bodyBytes + |data|
  {
    DataAdds(w, data);
    DataKeeps(w, data);
  }

  /** Plain data that is not chunked is cut at the declared length. */
  lemma PlainAdds(w: Writer, data: bytes)
    requires !w.chunked && Adds(w) && (w.declared.Some? ==> w.bodyBytes == |Flat(w.pieces)| <= w.declared.value)
    ensures var v := WritePlain(w, data);
            && Adds(v) && (w.declared.Some? ==> v.bodyBytes == |Flat(v.pieces)| <= w.declared.value)
            && (v.keepAlive || w.declared.None? || w.bodyBytes + |data| <= w.declared.value ==>
                  Flat(v.pieces) == Flat(w.pieces) + data)
  {
    if w.declared.Some? && w.bodyBytes + |data| > w.declared.value {
      CountedAdds(w, data[..w.declared.value - w.bodyBytes]);
      assert WritePlain(w, data) == WriteCounted(w, data[..w.declared.value - w.bodyBytes]).(keepAlive := false);
    } else {
      CountedAdds(w, data);
    }
  }

  lemma UnchunkedWritten(ex: Exchange, w: Writer, m: Message)
    requires Live(w, m) && !w.chunked && Tally(w) && (w.declared.Some? ==> !w.encoded)
    ensures var v := Written(ex, w, m);
            && Tally(v) && Tally(v.(ended := true))
            && (v.keepAlive || w.declared.None? || w.bodyBytes + |m.data| <= w.declared.value ==>
                  Flat(v.pieces) == Flat(w.pieces) + Emission(ex, CourseNow(w), m.data, m.more))
  {
    WrittenKeeps(ex, w, m);
    if w.encoded {
      EncodedAdds(ex, w, m.data, m.more);
    } else {
      PlainAdds(w, m.data);
    }
  }

  /** A body that is not chunked. */
  lemma UnchunkedBodyOk(t: Setting, w: Writer, rest: seq<Message>)
    requires WriterOk(t, w, rest) && rest != [] && Live(w, rest[0]) && !w.chunked
    ensures StepOk(t, OnBody(t.ex, w, rest[0]), rest[1..])
  {
    hide WriteEncoded, WritePlain, Emission;
    var m := rest[0];
    var v := Written(t.ex, w, m);
    WrittenKeeps(t.ex, w, m);
    UnchunkedWritten(t.ex, w, m);
    ContentTaken(t.ex, w, rest);
    assert v.octets + [] == v.octets;
  }

  /** One body message, and what the rest amounts to. */
  lemma ContentTaken(ex: Exchange, w: Writer, rest: seq<Message>)
    requires rest != [] && rest[0].Body?
    ensures var m := rest[0];
            Flat(w.pieces) + ContentOf(ex, CourseNow(w), rest)
            == Flat(w.pieces) + Emission(ex, CourseNow(w), m.data, m.more)
               + (if m.more then ContentOf(ex, Given(CourseNow(w), m.data), rest[1..]) else [])
    ensures !w.encoded ==> |ContentOf(ex, CourseNow(w), rest)| >= |rest[0].data|
  {
    var m := rest[0];
    var emitted := Emission(ex, CourseNow(w), m.data, m.more);
    if m.more {
      ConcatAssoc(Flat(w.pieces), emitted, ContentOf(ex, Given(CourseNow(w), m.data), rest[1..]));
    } else {
      assert Flat(w.pieces) + emitted + [] == Flat(w.pieces) + emitted;
    }
  }

  lemma CodedDecodes(ex: Exchange, w: Writer, data: bytes)
    requires w.chunked && w.encoded && !w.awaitingTrailers && Decodable(w)
    ensures var v := WriteCoded(ex, w, data);
            Decodable(v) && Flat(v.pieces) == Flat(w.pieces) + Emission(ex, CourseNow(w), data, true)
  {
    if data == [] {
      assert Flat(w.pieces) + ([] + []) == Flat(w.pieces);
    } else {
      var coded := ex.compress(w.given + [data]);
      DataDecodes(w, coded);
      DataKeeps(w, coded);
      assert coded + [] == coded;
    }
  }

  /** What the data of a body message does to a chunked body that has not ended. */
  lemma WrittenDecodes(ex: Exchange, w: Writer, m: Message)
    requires m.Body? && w.chunked && w.declared.None? && !w.awaitingTrailers && Decodable(w)
    ensures var v := Written(ex, w, m);
            Decodable(v) && Flat(v.pieces) == Flat(w.pieces) + Emission(ex, CourseNow(w), m.data, m.more)
  {
    if !w.encoded {
      DataDecodes(w, m.data);
      DataKeeps(w, m.data);
    } else {
      CodedDecodes(ex, w, m.data);
      CodedKeeps(ex, w, m.data);
      var v := WriteCoded(ex, w, m.data);
      if !m.more {
        DataDecodes(v, ex.flush(v.given));
        EmissionEnds(ex, CourseNow(w), Flat(w.pieces), m.data);
      }
    }
  }

  /** The last chunk, with or without a trailer section to come. */
  lemma EndDecodes(w: Writer) returns (v: Writer)
    requires w.chunked && !w.awaitingTrailers && Decodable(w)
    ensures v == EndBody(w)
    ensures w.trailersExpected ==> Decodable(v)
    ensures !w.trailersExpected ==> Chunked.WholeChunked(v.octets) && Chunked.Payload(v.octets) == Flat(v.pieces)
  {
    v := EndBody(w);
    var d := DecodeLastChunk(w.octets);
    ConcatAssoc(w.octets, [48], CRLF);
    if !w.trailersExpected {
      DecodeEnd(w.octets + ([48] + CRLF), d);
      ConcatAssoc(w.octets, [48] + CRLF, CRLF);
    }
  }

  /** A chunked body that is still in order and goes on. */
  lemma ChunkedPieceOk(t: Setting, w: Writer, rest: seq<Message>)
    requires WriterOk(t, w, rest) && rest != [] && Live(w, rest[0]) && rest[0].more
    requires w.chunked && !w.awaitingTrailers && Decodable(w) && (t.good <==> Orderly(t.ex, rest, CourseNow(w)))
    ensures StepOk(t, OnBody(t.ex, w, rest[0]), rest[1..])
  {
    WrittenKeeps(t.ex, w, rest[0]);
    WrittenDecodes(t.ex, w, rest[0]);
    ContentTaken(t.ex, w, rest);
  }

  lemma ChunkedEndSettles(t: Setting, w: Writer, rest: seq<Message>)
    requires WriterOk(t, w, rest) && rest != [] && Live(w, rest[0]) && !rest[0].more
    requires w.chunked && !w.awaitingTrailers && Decodable(w) && (t.good <==> Orderly(t.ex, rest, CourseNow(w)))
    ensures var v := Written(t.ex, w, rest[0]);
            && Kept(v, w) && CourseNow(v) == Given(CourseNow(w), rest[0].data) && Decodable(v)
            && (Unaltered(t, v) ==> Flat(v.pieces) + [] == Flat(v.pieces) == t.content)
            && (t.good <==> !w.trailersExpected || Orderly(t.ex, rest[1..], CourseNow(v).(stage := InTrailers)))
  {
    WrittenKeeps(t.ex, w, rest[0]);
    WrittenDecodes(t.ex, w, rest[0]);
    ContentTaken(t.ex, w, rest);
    assert Flat(Written(t.ex, w, rest[0]).pieces) + [] == Flat(Written(t.ex, w, rest[0]).pieces);
  }

  /** Its end. */
  lemma ChunkedEndOk(t: Setting, w: Writer, rest: seq<Message>)
    requires WriterOk(t, w, rest) && rest != [] && Live(w, rest[0]) && !rest[0].more
    requires w.chunked && !w.awaitingTrailers && Decodable(w) && (t.good <==> Orderly(t.ex, rest, CourseNow(w)))
    ensures StepOk(t, OnBody(t.ex, w, rest[0]), rest[1..])
  {
    var v := Written(t.ex, w, rest[0]);
    ChunkedEndSettles(t, w, rest);
    var e := EndDecodes(v);
    if w.trailersExpected {
      assert CourseNow(e) == CourseNow(v).(stage := InTrailers);
    } else {
      assert e.ended && t.good;
    }
  }

  /** Data that comes of a body message after the end of the body is no trailer field. */
  lemma LateDataSpoils(w: Writer, data: bytes)
    requires w.chunked && w.awaitingTrailers && (Decodable(w) || Spoilt(w.octets)) && data != []
    ensures Spoilt(WriteData(w, data).octets)
  {
    if Spoilt(w.octets) {
      SpoiltStays(w.octets, WriteChunk(data));
    } else {
      DataSpoils(w, data);
    }
  }

  /** Nor is a second last chunk. */
  lemma LateEndSpoils(w: Writer)
    requires w.chunked && w.trailersExpected && w.awaitingTrailers && (Decodable(w) || Spoilt(w.octets))
    ensures Spoilt(EndBody(w).octets)
  {
    ConcatAssoc(w.octets, [48], CRLF);
    if Spoilt(w.octets) {
      SpoiltStays(w.octets, [48] + CRLF);
    } else {
      assert Hex(0) == [48] && [48] + CRLF + [] == [48] + CRLF;
      HexSpoils(w.octets, Chunked.Feed(Chunked.INITIAL, w.octets, 0).next, 0, []);
    }
  }

  lemma LateCoded(ex: Exchange, w: Writer, data: bytes)
    requires w.chunked && w.awaitingTrailers && w.encoded && Decodable(w)
    ensures var v := WriteCoded(ex, w, data);
            if Silent(ex, CourseNow(w), data) then Decodable(v) else Spoilt(v.octets)
  {
    if data != [] {
      var coded := ex.compress(w.given + [data]);
      DataKeeps(w, coded);
      if coded != [] {
        LateDataSpoils(w, coded);
      }
    }
  }

  lemma LateWritten(ex: Exchange, w: Writer, m: Message)
    requires Live(w, m) && w.chunked && w.declared.None? && w.awaitingTrailers && Decodable(w)
    ensures var v := Written(ex, w, m);
            if m.more && Silent(ex, CourseNow(w), m.data) then Decodable(v)
            else Spoilt(v.octets) || (!m.more && Decodable(v))
  {
    if !w.encoded {
      DataKeeps(w, m.data);
      if m.data != [] {
        LateDataSpoils(w, m.data);
      }
    } else {
      LateCoded(ex, w, m.data);
      CodedKeeps(ex, w, m.data);
      var v := WriteCoded(ex, w, m.data);
      if !m.more && ex.flush(v.given) != [] {
        LateDataSpoils(v, ex.flush(v.given));
      }
    }
  }

  lemma LateMoreOk(t: Setting, w: Writer, rest: seq<Message>)
    requires WriterOk(t, w, rest) && rest != [] && Live(w, rest[0]) && rest[0].more
    requires w.chunked && w.awaitingTrailers && Decodable(w) && (t.good <==> Orderly(t.ex, rest, CourseNow(w)))
    ensures StepOk(t, OnBody(t.ex, w, rest[0]), rest[1..])
  {
    var m := rest[0];
    WrittenKeeps(t.ex, w, m);
    LateWritten(t.ex, w, m);
    if t.good && !w.encoded {
      assert m.data == [];
    }
  }

  lemma LateLastOk(t: Setting, w: Writer, rest: seq<Message>)
    requires WriterOk(t, w, rest) && rest != [] && Live(w, rest[0]) && !rest[0].more
    requires w.chunked && w.awaitingTrailers && Decodable(w) && (t.good <==> Orderly(t.ex, rest, CourseNow(w)))
    ensures StepOk(t, OnBody(t.ex, w, rest[0]), rest[1..])
  {
    var v := Written(t.ex, w, rest[0]);
    WrittenKeeps(t.ex, w, rest[0]);
    LateWritten(t.ex, w, rest[0]);
    LateEndSpoils(v);
    SpoiltIsNotWhole(EndBody(v).octets);
  }

  lemma LateBodyOk(t: Setting, w: Writer, rest: seq<Message>)
    requires WriterOk(t, w, rest) && rest != [] && Live(w, rest[0])
    requires w.chunked && w.awaitingTrailers && Decodable(w) && (t.good <==> Orderly(t.ex, rest, CourseNow(w)))
    ensures StepOk(t, OnBody(t.ex, w, rest[0]), rest[1..])
  {
    hide WriterOk, StepOk, OnBody;
    if rest[0].more {
      LateMoreOk(t, w, rest);
    } else {
      LateLastOk(t, w, rest);
    }
  }

  /** Once spoilt, the octets stay so. */
  lemma DataStaysSpoilt(w: Writer, data: bytes)
    requires w.chunked && Spoilt(w.octets)
    ensures Spoilt(WriteData(w, data).octets)
  {
    if data != [] {
      SpoiltStays(w.octets, WriteChunk(data));
    }
  }

  lemma WrittenStaysSpoilt(ex: Exchange, w: Writer, m: Message)
    requires m.Body? && w.chunked && w.declared.None? && Spoilt(w.octets)
    ensures Spoilt(Written(ex, w, m).octets)
  {
    if !w.encoded {
      DataStaysSpoilt(w, m.data);
    } else {
      DataStaysSpoilt(w, ex.compress(w.given + [m.data]));
      CodedKeeps(ex, w, m.data);
      var v := WriteCoded(ex, w, m.data);
      assert Spoilt(v.octets);
      DataStaysSpoilt(v, ex.flush(v.given));
    }
  }

  lemma SpoiltBodyOk(t: Setting, w: Writer, rest: seq<Message>)
    requires WriterOk(t, w, rest) && rest != [] && Live(w, rest[0]) && w.chunked && !t.good && Spoilt(w.octets)
    ensures StepOk(t, OnBody(t.ex, w, rest[0]), rest[1..])
  {
    hide Orderly, ContentOf, WriteEncoded, WritePlain, Spoilt;
    var m := rest[0];
    var v := Written(t.ex, w, m);
    WrittenKeeps(t.ex, w, m);
    WrittenStaysSpoilt(t.ex, w, m);
    if !m.more {
      var end := if w.trailersExpected then [48] + CRLF else [48] + CRLF + CRLF;
      ConcatAssoc(v.octets, [48], CRLF);
      assert EndBody(v).octets == v.octets + end;
      SpoiltStays(v.octets, end);
      SpoiltIsNotWhole(EndBody(v).octets);
    }
  }

  /** A body message that no payload comes of: the answer has none, has not begun, or
      is given up. */
  lemma IdleBodyOk(t: Setting, w: Writer, rest: seq<Message>)
    requires WriterOk(t, w, rest) && rest != [] && rest[0].Body? && !Live(w, rest[0])
    ensures StepOk(t, OnBody(t.ex, w, rest[0]), rest[1..])
  {
    if w.head.Some? && w.chunked {
      UnfinishedIsNotWhole(w);
    }
  }

  lemma UnfinishedIsNotWhole(w: Writer)
    requires w.chunked && (Decodable(w) || Spoilt(w.octets))
    ensures !Chunked.WholeChunked(w.octets)
  {
    if !Decodable(w) {
      SpoiltIsNotWhole(w.octets);
    }
  }

  lemma BodyOk(t: Setting, w: Writer, rest: seq<Message>)
    requires WriterOk(t, w, rest) && rest != [] && rest[0].Body?
    ensures StepOk(t, OnBody(t.ex, w, rest[0]), rest[1..])
  {
    if !Live(w, rest[0]) {
      IdleBodyOk(t, w, rest);
    } else if !w.chunked {
      UnchunkedBodyOk(t, w, rest);
    } else if !t.good && Spoilt(w.octets) {
      SpoiltBodyOk(t, w, rest);
    } else if w.awaitingTrailers {
      LateBodyOk(t, w, rest);
    } else if rest[0].more {
      ChunkedPieceOk(t, w, rest);
    } else {
      ChunkedEndOk(t, w, rest);
    }
  }

  // ----- Trailers ---------------------------------------------------------------------------

  lemma DecodeField(octets: bytes, d: Chunked.Decoder, field: Field) returns (e: Chunked.Decoder)
    requires InSection(octets, d) && ValidTrailer(field)
    ensures InSection(octets + (FieldLine(field) + CRLF), e)
  {
    e := DecodeFields(octets, d, [field]);
    assert TrailerText([field]) == FieldLine(field) + CRLF + [] == FieldLine(field) + CRLF;
  }

  lemma LongFieldSpoils(octets: bytes, d: Chunked.Decoder, field: Field, after: bytes)
    requires InSection(octets, d) && Writable(field) && |field.1| > Chunked.MAX_TRAILER_VALUE
    ensures Spoilt(octets + (FieldLine(field) + CRLF + after))
  {
    ParseTrailerLine(field);
    LineHasNoCrlf(field);
    BadLineSpoils(octets, d, FieldLine(field), after);
  }

  /** A trailer field that does not fit a decoder spoils the section. */
  lemma {:induction false} UnfitSpoils(octets: bytes, d: Chunked.Decoder, fields: seq<Field>)
    requires InSection(octets, d) && !Fit(fields)
    requires forall i :: 0 <= i < |fields| ==> Writable(fields[i])
    ensures Spoilt(octets + TrailerText(fields))
    decreases |fields|
  {
    var line, after := FieldLine(fields[0]), TrailerText(fields[1..]);
    assert Writable(fields[0]);
    if |fields[0].1| > Chunked.MAX_TRAILER_VALUE {
      LongFieldSpoils(octets, d, fields[0], after);
    } else {
      var e := DecodeField(octets, d, fields[0]);
      UnfitSpoils(octets + (line + CRLF), e, fields[1..]);
      ConcatAssoc(octets, line + CRLF, after);
    }
  }

  /** A trailer message that comes when no trailer section is open. */
  lemma EarlyTrailersOk(t: Setting, w: Writer, rest: seq<Message>)
    requires WriterOk(t, w, rest) && rest != [] && rest[0].Trailers? && !w.awaitingTrailers
    ensures StepOk(t, OnTrailers(w, rest[0]), rest[1..])
  {
    if rest[0].moreTrailers {
      assert OnTrailers(w, rest[0]) == w;
    } else {
      EarlyEndOk(t, w, rest);
    }
  }

  lemma EarlyEnd(ex: Exchange, w: Writer, rest: seq<Message>)
    requires rest != [] && rest[0].Trailers? && !rest[0].moreTrailers && !w.awaitingTrailers && (w.discard ==> !w.chunked)
    ensures (Orderly(ex, rest, CourseNow(w)) <==> !w.chunked) && ContentOf(ex, CourseNow(w), rest) == []
  {
  }

  lemma EarlyEndOk(t: Setting, w: Writer, rest: seq<Message>)
    requires WriterOk(t, w, rest) && rest != [] && rest[0].Trailers? && !rest[0].moreTrailers && !w.awaitingTrailers
    ensures Finished(t, w.(ended := true))
  {
    hide Orderly, ContentOf, Decodable, Spoilt;
    assert Flat(w.pieces) + [] == Flat(w.pieces);
    if w.head.Some? {
      EarlyEnd(t.ex, w, rest);
    }
    if w.head.Some? && w.chunked {
      UnfinishedIsNotWhole(w);
    }
  }

  lemma SectionDecodes(w: Writer, m: Message)
    requires m.Trailers? && w.awaitingTrailers && Decodable(w) && Fit(Normalise(m.fields))
    ensures var v := OnTrailers(w, m);
            if m.moreTrailers then Decodable(v)
            else Chunked.WholeChunked(v.octets) && Chunked.Payload(v.octets) == Flat(v.pieces)
  {
    var d := Chunked.Feed(Chunked.INITIAL, w.octets, 0).next;
    var octets := w.octets + TrailerText(Normalise(m.fields));
    var e := DecodeFields(w.octets, d, Normalise(m.fields));
    if m.moreTrailers {
      assert octets + [] == octets;
    } else {
      DecodeEnd(octets, e);
    }
  }

  lemma SectionSpoils(w: Writer, m: Message)
    requires m.Trailers? && w.awaitingTrailers
    requires Spoilt(w.octets) || (Decodable(w) && !Fit(Normalise(m.fields)))
    ensures Spoilt(OnTrailers(w, m).octets) && !Chunked.WholeChunked(OnTrailers(w, m).octets)
  {
    var fields := Normalise(m.fields);
    if Spoilt(w.octets) {
      SpoiltStays(w.octets, TrailerText(fields));
    } else {
      UnfitSpoils(w.octets, Chunked.Feed(Chunked.INITIAL, w.octets, 0).next, fields);
    }
    SpoiltStays(w.octets + TrailerText(fields), if m.moreTrailers then [] else CRLF);
    SpoiltIsNotWhole(OnTrailers(w, m).octets);
  }

  lemma SectionKeeps(w: Writer, m: Message)
    requires m.Trailers? && w.awaitingTrailers
    ensures var v := OnTrailers(w, m);
            v == w.(octets := v.octets, trailers := v.trailers, ended := !m.moreTrailers)
  {
  }

  lemma SpoiltSectionOk(t: Setting, w: Writer, rest: seq<Message>)
    requires WriterOk(t, w, rest) && rest != [] && rest[0].Trailers? && w.awaitingTrailers && !t.good
    requires Spoilt(OnTrailers(w, rest[0]).octets) && !Chunked.WholeChunked(OnTrailers(w, rest[0]).octets)
    ensures StepOk(t, OnTrailers(w, rest[0]), rest[1..])
  {
    SectionKeeps(w, rest[0]);
  }

  /** Trailer fields that a decoder can read, with more of them to come. */
  lemma FitFieldsOk(t: Setting, w: Writer, rest: seq<Message>)
    requires WriterOk(t, w, rest) && rest != [] && rest[0].Trailers? && w.awaitingTrailers && rest[0].moreTrailers
    requires Decodable(w) && Fit(Normalise(rest[0].fields)) && (t.good <==> Orderly(t.ex, rest, CourseNow(w)))
    ensures StepOk(t, OnTrailers(w, rest[0]), rest[1..])
  {
    SectionKeeps(w, rest[0]);
    SectionDecodes(w, rest[0]);
  }

  lemma SectionEnds(t: Setting, w: Writer, octets: bytes, trailers: seq<Field>)
    requires w.head.Some? && Shape(t.frame, w) && Tally(w) && w.chunked && !w.aborted && t.good
    requires Chunked.WholeChunked(octets) && Chunked.Payload(octets) == Flat(w.pieces)
    requires (Unaltered(t, w) ==> Flat(w.pieces) == t.content) && (!w.encoded ==> t.content == t.body)
    ensures Finished(t, w.(octets := octets, trailers := trailers, ended := true))
  {
  }

  /** The last of them. */
  lemma LastFieldsOk(t: Setting, w: Writer, rest: seq<Message>)
    requires WriterOk(t, w, rest) && rest != [] && rest[0].Trailers? && w.awaitingTrailers && !rest[0].moreTrailers && t.good
    requires var v := OnTrailers(w, rest[0]); Chunked.WholeChunked(v.octets) && Chunked.Payload(v.octets) == Flat(w.pieces)
    ensures StepOk(t, OnTrailers(w, rest[0]), rest[1..])
  {
    var v := OnTrailers(w, rest[0]);
    SectionKeeps(w, rest[0]);
    assert Flat(w.pieces) + [] == Flat(w.pieces);
    SectionEnds(t, w, v.octets, v.trailers);
  }

  lemma FitSectionEnds(t: Setting, w: Writer, rest: seq<Message>)
    requires rest != [] && rest[0].Trailers? && w.awaitingTrailers && !rest[0].moreTrailers
    requires Fit(Normalise(rest[0].fields)) && Orderly(t.ex, rest, CourseNow(w)) == t.good
    ensures t.good
  {
  }

  lemma SectionOk(t: Setting, w: Writer, rest: seq<Message>)
    requires WriterOk(t, w, rest) && rest != [] && rest[0].Trailers? && w.awaitingTrailers
    ensures StepOk(t, OnTrailers(w, rest[0]), rest[1..])
  {
    if (!t.good && Spoilt(w.octets)) || !Fit(Normalise(rest[0].fields)) {
      SectionSpoils(w, rest[0]);
      SpoiltSectionOk(t, w, rest);
    } else if rest[0].moreTrailers {
      FitFieldsOk(t, w, rest);
    } else {
      FitSectionEnds(t, w, rest);
      SectionDecodes(w, rest[0]);
      LastFieldsOk(t, w, rest);
    }
  }

  // ----- The whole answer -----------------------------------------------------------------

  lemma TakenOk(t: Setting, w: Writer, rest: seq<Message>)
    requires Fair(t) && WriterOk(t, w, rest) && rest != []
    ensures StepOk(t, Taken(t.ex, w, rest[0]), rest[1..])
  {
    match rest[0]
    case Start(_, _, _, _) => StartOk(t, w, rest);
    case Body(_, _, _) => BodyOk(t, w, rest);
    case Trailers(_, _) =>
      if w.awaitingTrailers {
        SectionOk(t, w, rest);
      } else {
        EarlyTrailersOk(t, w, rest);
      }
  }

  lemma {:induction false} RunOk(t: Setting, w: Writer, rest: seq<Message>)
    requires Fair(t) && WriterOk(t, w, rest)
    ensures StepOk(t, Run(t.ex, w, rest), [])
    decreases |rest|
  {
    if rest != [] {
      TakenOk(t, w, rest);
      var v := Taken(t.ex, w, rest[0]);
      if v.ended {
        assert Run(t.ex, v, rest[1..]) == v;
      } else {
        RunOk(t, v, rest[1..]);
      }
    }
  }

  ghost function SettingOf(ex: Exchange, msgs: seq<Message>): Setting {
    Setting(ex, head => FramingOf(ex.verb, head), m => CourseOf(ex, m), InOrder(ex, msgs),
            Content(ex, msgs), BodyOf(msgs, false))
  }

  /** Every run of the writer from the beginning. */
  lemma AnswerOk(ex: Exchange, keepAlive: bool, msgs: seq<Message>)
    requires StartsOnce(msgs, false)
    ensures Fair(SettingOf(ex, msgs)) && StepOk(SettingOf(ex, msgs), Run(ex, Begin(keepAlive), msgs), [])
  {
    var t := SettingOf(ex, msgs);
    RunOk(t, Begin(keepAlive), msgs);
  }

  /** The octets that the application's messages amount to, as they are written. */
  function Meant(w: Writer): bytes {
    if w.discard then [] else Flat(w.pieces)
  }

  /** The lengths that went out, where one delimits the body, are the same number. */
  ghost predicate OneLengthOut(w: Writer) {
    w.head.Some? && w.declared.Some? ==> LengthsAgree(w.head.value.headers)
  }

  /** What the start has settled of the framing stays. */
  predicate SameHead(v: Writer, w: Writer) {
    v.head == w.head && v.declared == w.declared && v.encoded == w.encoded && v.discard == w.discard
  }

  lemma TakenKeepsHead(ex: Exchange, w: Writer, m: Message)
    requires w.head.Some? && (m.Start? ==> m.status < 200)
    ensures var v := Taken(ex, w, m); SameHead(v, w)
  {
    hide OnStart, OnBody, OnTrailers;
    match m
    case Start(_, _, _, _) => InterimKeepsHead(ex, w, m);
    case Body(_, _, _) => BodyKeepsHead(ex, w, m);
    case Trailers(_, _) => TrailersKeepHead(w, m);
  }

  lemma InterimKeepsHead(ex: Exchange, w: Writer, m: Message)
    requires m.Start? && m.status < 200
    ensures SameHead(OnStart(ex, w, m), w)
  {
    hide InterimText, StartFinal;
    if w.head.None? {
    } else {
    }
  }

  lemma BodyKeepsHead(ex: Exchange, w: Writer, m: Message)
    requires m.Body?
    ensures SameHead(OnBody(ex, w, m), w)
  {
    hide WriteEncoded, WritePlain;
    WrittenKeeps(ex, w, m);
  }

  lemma TrailersKeepHead(w: Writer, m: Message)
    requires m.Trailers?
    ensures SameHead(OnTrailers(w, m), w)
  {
  }

  lemma {:induction false} RunKeepsHead(ex: Exchange, w: Writer, msgs: seq<Message>)
    requires w.head.Some? && StartsOnce(msgs, true)
    ensures SameHead(Run(ex, w, msgs), w)
    decreases |msgs|
  {
    hide Taken;
    if msgs != [] && !w.ended {
      TakenKeepsHead(ex, w, msgs[0]);
      RunKeepsHead(ex, Taken(ex, w, msgs[0]), msgs[1..]);
    }
  }

  lemma StartLengths(ex: Exchange, w: Writer, m: Message)
    requires m.Start? && m.status >= 200 && w.declared.None?
    ensures var c := CourseOf(ex, m);
            OneLengthOut(OnStart(ex, w, m)) <==> (c.carrier.Verbatim? && !c.encoded ==> LengthsAgree(Normalise(m.headers)))
  {
    hide Normalise, ResponseHasBody, BodylessHeaders, Without, LengthsAgree;
    var headers := Normalise(m.headers);
    var coding, length := ex.encoding(m.status, headers), First(headers, Length);
    if !ResponseHasBody(ex.verb, m.status) {
      BodylessDeclaresNothing(w, m, BodylessHeaders(ex.verb, m.status, headers));
    } else if coding.Some? {
      UnsizedDeclaresNothing(ex, w, m, Without(headers, Length) + [(Text("content-encoding"), coding.value)], true);
    } else if length.None? {
      UnsizedDeclaresNothing(ex, w, m, headers, w.encoded);
      NoLengthsAgree(headers);
    } else {
      SizedDeclares(w, m, headers, Decimal(length.value));
    }
  }

  lemma BodylessDeclaresNothing(w: Writer, m: Message, headers: seq<Field>)
    requires m.Start?
    ensures StartBodyless(w, m, headers).declared == w.declared
  {
  }

  lemma UnsizedDeclaresNothing(ex: Exchange, w: Writer, m: Message, headers: seq<Field>, encoded: bool)
    requires m.Start?
    ensures StartUnsized(ex, w, m, headers, encoded).declared == w.declared
  {
    if ex.http11 {
    } else {
    }
  }

  lemma SizedDeclares(w: Writer, m: Message, headers: seq<Field>, length: nat)
    requires m.Start?
    ensures var v := StartSized(w, m, headers, length); v.declared.Some? && v.head == Some(FinalHead(m.status, headers))
  {
  }

  lemma NoLengthsAgree(headers: seq<Field>)
    requires First(headers, Length).None?
    ensures LengthsAgree(headers)
  {
  }

  /** What goes out is what the start gave. */
  lemma {:induction false} LengthsGoOut(ex: Exchange, w: Writer, msgs: seq<Message>)
    requires w.head.None? && w.declared.None? && StartsOnce(msgs, false)
    ensures var r := Run(ex, w, msgs); r.head.Some? ==> (OneLengthOut(r) <==> OneLength(ex, msgs))
    decreases |msgs|
  {
    hide OnStart;
    if msgs != [] && !w.ended {
      var m := msgs[0];
      var v := Taken(ex, w, m);
      if m.Start? && m.status >= 200 {
        StartLengths(ex, w, m);
        StartKeeps(ex, w, m);
        RunKeepsHead(ex, v, msgs[1..]);
      } else {
        if m.Start? {
          InterimKeepsHead(ex, w, m);
        }
        LengthsGoOut(ex, v, msgs[1..]);
      }
    }
  }

  lemma ConcludeLeaves(r: Writer)
    requires r.ended && Conclude(r).keepAlive
    ensures r.head.Some? && !r.aborted && Conclude(r) == r
    ensures r.declared.Some? ==> r.bodyBytes == r.declared.value
  {
  }

  lemma BodylessIsWhole(t: Setting, r: Writer)
    requires Finished(t, r) && r.head.Some? && r.discard
    ensures WholeBody(t.frame(r.head.value), r.octets, Meant(r)) <==> t.good
  {
    assert t.frame(r.head.value).NoBody?;
  }

  lemma ChunkedIsWhole(t: Setting, r: Writer)
    requires Finished(t, r) && r.head.Some? && !r.aborted && r.chunked
    ensures WholeBody(t.frame(r.head.value), r.octets, Meant(r)) <==> t.good
  {
    hide Chunked.WholeChunked, Chunked.Payload, Flat;
    assert t.frame(r.head.value).ChunkedCoding?;
  }

  lemma SizedIsWhole(t: Setting, r: Writer)
    requires Finished(t, r) && r.head.Some? && !r.discard && r.declared.Some? && r.bodyBytes == r.declared.value
    ensures WholeBody(t.frame(r.head.value), r.octets, Meant(r)) <==> t.good && OneLengthOut(r)
  {
    hide Chunked.WholeChunked, Chunked.Payload, Flat;
  }

  lemma FinishedIsReusable(t: Setting, r: Writer)
    requires Finished(t, r) && Conclude(r).keepAlive
    ensures r.head.Some? && !r.aborted && Conclude(r) == r
    ensures WholeBody(t.frame(r.head.value), r.octets, Meant(r)) <==> t.good && OneLengthOut(r)
    ensures Unaltered(t, r) ==> Meant(r) == t.content && (!r.encoded ==> Meant(r) == t.body)
  {
    hide Chunked.WholeChunked, Chunked.Payload, Flat, WholeBody, Conclude;
    ConcludeLeaves(r);
    if r.discard {
      BodylessIsWhole(t, r);
    } else if r.chunked {
      ChunkedIsWhole(t, r);
    } else {
      SizedIsWhole(t, r);
    }
  }

  /** Response framing: when the answer has ended and the connection is still to be
      reused, what went out after the interim heads is exactly one complete answer if and
      only if the messages came in order and the declared lengths agree; and it carries
      what the messages amount to. */
  lemma ReusedOnlyWhenComplete(ex: Exchange, keepAlive: bool, msgs: seq<Message>)
    requires StartsOnce(msgs, false)
    ensures var r := Run(ex, Begin(keepAlive), msgs);
            var w := Conclude(r);
            r.ended && w.keepAlive ==>
              && w.head.Some?
              && (Complete(ex.verb, w, Meant(w)) <==> InOrder(ex, msgs) && OneLength(ex, msgs))
              && (!w.discard && (w.chunked ==> InOrder(ex, msgs)) ==>
                    Meant(w) == Content(ex, msgs) && (!w.encoded ==> Meant(w) == BodyOf(msgs, false)))
  {
    AnswerOk(ex, keepAlive, msgs);
    LengthsGoOut(ex, Begin(keepAlive), msgs);
    var t, r := SettingOf(ex, msgs), Run(ex, Begin(keepAlive), msgs);
    if r.ended && Conclude(r).keepAlive {
      FinishedIsReusable(t, r);
    }
  }

  lemma StepBounds(t: Setting, w: Writer)
    requires StepOk(t, w, []) && w.head.Some?
    ensures match t.frame(w.head.value)
            case NoBody => |w.octets| == w.late
            case Exactly(n) => w.bodyBytes <= n && |w.octets| == w.bodyBytes + w.late && OneLengthOut(w)
            case Ambiguous => !OneLengthOut(w)
            case _ => true
    ensures !w.chunked ==> (t.good <==> w.late == 0)
  {
  }

  /** Whatever the application sends, and wherever it stops, the body octets never exceed
      the declared length, and none follow the head of an answer without a body: every
      octet beyond that is of an interim head that came late, and in order none does. */
  lemma NeverMoreThanDeclared(ex: Exchange, keepAlive: bool, msgs: seq<Message>)
    requires StartsOnce(msgs, false)
    ensures var w := Run(ex, Begin(keepAlive), msgs);
            w.head.Some? ==>
              && (match FramingOf(ex.verb, w.head.value)
                  case NoBody => |w.octets| == w.late
                  case Exactly(n) => |w.octets| <= n + w.late && (w.ended && Conclude(w).keepAlive ==> |w.octets| == n + w.late)
                  case Ambiguous => !OneLength(ex, msgs)
                  case _ => true)
              && (!w.chunked ==> (InOrder(ex, msgs) <==> w.late == 0))
  {
    AnswerOk(ex, keepAlive, msgs);
    LengthsGoOut(ex, Begin(keepAlive), msgs);
    var t, w := SettingOf(ex, msgs), Run(ex, Begin(keepAlive), msgs);
    if w.head.Some? {
      StepBounds(t, w);
    }
  }

  // ----- Where the claim stops ---------------------------------------------------------------

  /** A start whose headers are empty begins a chunked answer. */
  lemma StartsChunked(ex: Exchange, trailers: bool)
    requires ResponseHasBody(ex.verb, 200) && ex.http11 && ex.encoding(200, []).None?
    ensures var start := Start(200, [], trailers, true);
            && CourseOf(ex, start) == Course(Coded, false, trailers, [], InBody)
            && OnStart(ex, Begin(true), start)
               == Begin(true).(head := Some(FinalHead(200, [(Text("transfer-encoding"), Text("chunked"))])),
                               chunked := true, trailersExpected := trailers)
  {
    assert Normalise([]) == [];
    assert [] + [(Text("transfer-encoding"), Text("chunked"))] == [(Text("transfer-encoding"), Text("chunked"))];
  }

  /** A trailer message in the middle of a body ends a chunked answer without its last
      chunk, and the connection stays in use. */
  lemma EarlyTrailersLeaveItOpen(ex: Exchange, data: bytes)
    requires ResponseHasBody(ex.verb, 200) && ex.http11 && ex.encoding(200, []).None?
    ensures var msgs := [Start(200, [], true, true), Body(data, true, false), Trailers([], false)];
            var w := Conclude(Run(ex, Begin(true), msgs));
            w.ended && w.keepAlive && !Complete(ex.verb, w, Meant(w))
  {
    var start, body, end := Start(200, [], true, true), Body(data, true, false), Trailers([], false);
    var msgs := [start, body, end];
    StartsChunked(ex, true);
    var started := OnStart(ex, Begin(true), start);
    var sent := OnBody(ex, started, body);
    WrittenKeeps(ex, started, body);
    assert msgs == [start] + [body, end] && [body, end] == [body] + [end];
    RunFirst(ex, Begin(true), start, [body, end]);
    RunFirst(ex, started, body, [end]);
    RunOne(ex, sent, end);
    assert [body, end][1..] == [end] && [end][1..] == [] && msgs[1..] == [body, end];
    assert StartsOnce([end], true) && StartsOnce([body, end], true);
    var c := CourseOf(ex, start);
    assert !Orderly(ex, [end], c) && !Orderly(ex, [body, end], c) && !InOrder(ex, msgs);
    ReusedOnlyWhenComplete(ex, true, msgs);
  }

  /** Two body messages, and between them an interim answer. */
  function Interrupted(a: bytes, hints: Message, b: bytes): seq<Message> {
    [Body(a, true, false), hints, Body(b, false, false)]
  }

  /** A plain answer with a body that has just begun, without trailers to come. */
  ghost predicate Fresh(w: Writer) {
    Empty(w) && !w.ended && !w.discard && !w.encoded && !w.trailersExpected
  }

  lemma FirstBody(ex: Exchange, w: Writer, a: bytes)
    requires Fresh(w) && a != [] && (w.declared.Some? ==> |a| <= w.declared.value)
    ensures OnBody(ex, w, Body(a, true, false))
            == w.(octets := if w.chunked then WriteChunk(a) else a, bodyBytes := |a|, pieces := [a])
  {
    assert [] + WriteChunk(a) == WriteChunk(a) && [] + a == a && [] + [a] == [a];
  }

  lemma LastBody(ex: Exchange, w: Writer, b: bytes)
    requires w.head.Some? && !w.ended && !w.discard && !w.encoded && !w.trailersExpected && b != []
    requires w.declared.Some? ==> w.bodyBytes + |b| <= w.declared.value
    ensures OnBody(ex, w, Body(b, false, false))
            == w.(octets := w.octets + (if w.chunked then WriteChunk(b) else b) + (if w.chunked then [48] + CRLF + CRLF else []),
                  bodyBytes := w.bodyBytes + |b|, pieces := w.pieces + [b], ended := true)
  {
  }

  /** The interim head stands between the two pieces, and nothing else notices. */
  lemma InterruptedAnswer(ex: Exchange, w: Writer, a: bytes, hints: Message, b: bytes)
    requires Fresh(w) && a != [] && b != [] && hints.Start? && hints.status < 200
    requires w.declared.Some? ==> !w.chunked && w.declared.value == |a| + |b|
    ensures var v := Run(ex, w, Interrupted(a, hints, b));
            && v.ended && !v.aborted && v.keepAlive == w.keepAlive && v.head == w.head && v.declared == w.declared
            && v.bodyBytes == |a| + |b| && v.chunked == w.chunked
            && v.octets == if w.chunked then WriteChunk(a) + InterimText(ex, hints) + WriteChunk(b) + ([48] + CRLF + CRLF)
                           else a + InterimText(ex, hints) + b
  {
    hide Run, OnBody, InterimText, WriteChunk, Text;
    var msgs := Interrupted(a, hints, b);
    var first := OnBody(ex, w, Body(a, true, false));
    FirstBody(ex, w, a);
    var second := OnStart(ex, first, hints);
    LastBody(ex, second, b);
    assert second.octets + b + [] == second.octets + b;
    assert msgs == [msgs[0]] + [hints, msgs[2]] && [hints, msgs[2]] == [hints] + [msgs[2]];
    RunFirst(ex, w, msgs[0], [hints, msgs[2]]);
    RunFirst(ex, first, hints, [msgs[2]]);
    RunOne(ex, second, msgs[2]);
  }

  lemma InterruptedIsOutOfOrder(ex: Exchange, start: Message, a: bytes, hints: Message, b: bytes)
    requires start.Start? && start.status >= 200 && ResponseHasBody(ex.verb, start.status)
    requires hints.Start? && hints.status < 200
    ensures var msgs := [start] + Interrupted(a, hints, b); !InOrder(ex, msgs) && StartsOnce(msgs, false)
  {
    var rest := Interrupted(a, hints, b);
    var msgs := [start] + rest;
    assert msgs[1..] == rest && rest[1..] == [hints, rest[2]];
    assert [hints, rest[2]][1..] == [rest[2]] && [rest[2]][1..] == [];
    var c := Given(CourseOf(ex, start), a);
    assert !Orderly(ex, rest[1..], c) && !Orderly(ex, rest, CourseOf(ex, start));
    assert CourseFor(m => CourseOf(ex, m), msgs).(stage := Stage.InBody) == CourseOf(ex, start);
    assert StartsOnce([rest[2]], true);
    assert StartsOnce([hints, rest[2]], true);
    assert StartsOnce(rest, true);
  }

  lemma ConcludeKeeps(w: Writer)
    requires w.head.Some? && !w.aborted && (w.declared.Some? ==> w.bodyBytes == w.declared.value)
    ensures Conclude(w) == w
  {
  }

  /** A whole run of that kind, from a start that leaves the writer as `w`. */
  lemma InterruptedRun(ex: Exchange, start: Message, w: Writer, a: bytes, hints: Message, b: bytes)
    requires start.Start? && start.status >= 200 && ResponseHasBody(ex.verb, start.status)
    requires OnStart(ex, Begin(true), start) == w && Fresh(w) && w.keepAlive
    requires a != [] && b != [] && hints.Start? && hints.status < 200
    requires w.declared.Some? ==> !w.chunked && w.declared.value == |a| + |b|
    ensures var v := Conclude(Run(ex, Begin(true), [start] + Interrupted(a, hints, b)));
            && v.ended && v.keepAlive && !Complete(ex.verb, v, Meant(v)) && v.head == w.head
            && v.octets == if w.chunked then WriteChunk(a) + InterimText(ex, hints) + WriteChunk(b) + ([48] + CRLF + CRLF)
                           else a + InterimText(ex, hints) + b
  {
    var msgs := [start] + Interrupted(a, hints, b);
    RunFirst(ex, Begin(true), start, Interrupted(a, hints, b));
    InterruptedAnswer(ex, w, a, hints, b);
    ConcludeKeeps(Run(ex, w, Interrupted(a, hints, b)));
    InterruptedIsOutOfOrder(ex, start, a, hints, b);
    ReusedOnlyWhenComplete(ex, true, msgs);
  }

  /** Early hints in the middle of a chunked body go out between two chunks, and the
      connection stays in use. */
  lemma LateInterimBreaksChunks(ex: Exchange, a: bytes, hints: Message, b: bytes)
    requires ResponseHasBody(ex.verb, 200) && ex.http11 && ex.encoding(200, []).None?
    requires a != [] && b != [] && hints.Start? && hints.status < 200
    ensures var w := Conclude(Run(ex, Begin(true), [Start(200, [], false, true)] + Interrupted(a, hints, b)));
            && w.ended && w.keepAlive && !Complete(ex.verb, w, Meant(w))
            && w.octets == WriteChunk(a) + InterimText(ex, hints) + WriteChunk(b) + ([48] + CRLF + CRLF)
  {
    var start := Start(200, [], false, true);
    StartsChunked(ex, false);
    InterruptedRun(ex, start, OnStart(ex, Begin(true), start), a, hints, b);
  }

  /** In a body of declared length they are taken for body octets: the length is overrun
      although the count agrees with it, and the connection stays in use. */
  lemma LateInterimOverrunsLength(ex: Exchange, value: bytes, a: bytes, hints: Message, b: bytes)
    requires ResponseHasBody(ex.verb, 200) && Digits(value) && Decimal(value) == |a| + |b|
    requires ex.encoding(200, [(Text("content-length"), value)]).None?
    requires a != [] && b != [] && hints.Start? && hints.status < 200
    ensures var headers := [(Text("content-length"), value)];
            var w := Conclude(Run(ex, Begin(true), [Start(200, headers, false, true)] + Interrupted(a, hints, b)));
            && w.ended && w.keepAlive && !Complete(ex.verb, w, Meant(w))
            && w.head == Some(FinalHead(200, headers)) && FramingOf(ex.verb, FinalHead(200, headers)) == Exactly(|a| + |b|)
            && w.octets == a + InterimText(ex, hints) + b && |w.octets| > |a| + |b|
  {
    hide Run, Conclude, Complete, Meant, InterimText, OnStart, FramingOf, Normalise;
    var headers: seq<Field> := [(Text("content-length"), value)];
    var start := Start(200, headers, false, true);
    OneLengthIsClean(ex.verb, value);
    StartsWithLength(ex, start, value);
    InterruptedRun(ex, start, Begin(true).(head := Some(FinalHead(200, headers)), declared := Some(Decimal(value))), a, hints, b);
    InterimTextIsSome(ex, hints);
  }

  /** Two lengths that differ both go out, and only the first one is kept to. */
  lemma DifferingLengthsGoOut(ex: Exchange, a: bytes, b: bytes, data: bytes)
    requires ResponseHasBody(ex.verb, 200) && Digits(a) && Digits(b) && Decimal(a) != Decimal(b) && |data| == Decimal(a) > 0
    requires ex.encoding(200, [(Text("content-length"), a), (Text("content-length"), b)]).None?
    ensures var headers := [(Text("content-length"), a), (Text("content-length"), b)];
            var w := Conclude(Run(ex, Begin(true), [Start(200, headers, false, true), Body(data, false, false)]));
            && w.ended && w.keepAlive && w.octets == data && w.head == Some(FinalHead(200, headers))
            && FramingOf(ex.verb, w.head.value).Ambiguous?
  {
    var headers: seq<Field> := [(Text("content-length"), a), (Text("content-length"), b)];
    TwoLengths(ex.verb, a, b);
    KeepsFirstLength(ex, headers, a, data);
  }

  lemma StartsWithLength(ex: Exchange, start: Message, value: bytes)
    requires start.Start? && start.status == 200 && ResponseHasBody(ex.verb, 200) && Digits(value)
    requires Normalise(start.headers) == start.headers && First(start.headers, Length) == Some(value)
    requires ex.encoding(200, start.headers).None? && !start.trailers
    ensures OnStart(ex, Begin(true), start)
            == Begin(true).(head := Some(FinalHead(200, start.headers)), declared := Some(Decimal(value)))
  {
  }

  lemma DeclaredAnswer(ex: Exchange, start: Message, w: Writer, data: bytes)
    requires start.Start? && OnStart(ex, Begin(true), start) == w
    requires Fresh(w) && !w.chunked && data != [] && w.declared == Some(|data|)
    ensures var v := Conclude(Run(ex, Begin(true), [start, Body(data, false, false)]));
            v.ended && v.keepAlive == w.keepAlive && v.octets == data && v.head == w.head
  {
    var body := Body(data, false, false);
    assert [start, body] == [start] + [body];
    RunFirst(ex, Begin(true), start, [body]);
    assert [] + data + [] == data;
    LastBody(ex, w, data);
    RunOne(ex, w, body);
    ConcludeKeeps(OnBody(ex, w, body));
  }

  lemma KeepsFirstLength(ex: Exchange, headers: seq<Field>, value: bytes, data: bytes)
    requires ResponseHasBody(ex.verb, 200) && Digits(value) && |data| == Decimal(value) > 0
    requires Normalise(headers) == headers && First(headers, Length) == Some(value) && ex.encoding(200, headers).None?
    ensures var w := Conclude(Run(ex, Begin(true), [Start(200, headers, false, true), Body(data, false, false)]));
            w.ended && w.keepAlive && w.octets == data && w.head == Some(FinalHead(200, headers))
  {
    var start := Start(200, headers, false, true);
    StartsWithLength(ex, start, value);
    DeclaredAnswer(ex, start, Begin(true).(head := Some(FinalHead(200, headers)), declared := Some(Decimal(value))), data);
  }

  lemma TwoLengths(verb: bytes, a: bytes, b: bytes)
    requires ResponseHasBody(verb, 200) && Digits(a) && Digits(b) && Decimal(a) != Decimal(b)
    ensures var headers := [(Text("content-length"), a), (Text("content-length"), b)];
            && Normalise(headers) == headers && First(headers, Length) == Some(a)
            && FramingOf(verb, FinalHead(200, headers)).Ambiguous?
  {
    var name := Text("content-length");
    var headers: seq<Field> := [(name, a), (name, b)];
    CleanLength(a);
    OneLengthIsClean(verb, b);
    assert headers[1..] == [(name, b)];
    assert Normalise(headers) == [(name, a)] + [(name, b)] == headers;
    DifferentLengths(verb, headers);
  }

  lemma DifferentLengths(verb: bytes, headers: seq<Field>)
    requires ResponseHasBody(verb, 200) && |headers| == 2 && IsKind(headers[0], Length) && IsKind(headers[1], Length)
    requires Digits(headers[0].1) && Digits(headers[1].1) && Decimal(headers[0].1) != Decimal(headers[1].1)
    ensures First(headers, Length) == Some(headers[0].1) && FramingOf(verb, FinalHead(200, headers)).Ambiguous?
  {
    hide Decimal, Digits, SpecialOf;
    assert headers[0] in headers && headers[1] in headers && !LengthsAgree(headers);
    forall f | f in headers ensures !IsKind(f, Coding) {
      var i :| 0 <= i < |headers| && headers[i] == f;
    }
    assert First(headers, Coding).None?;
  }

  lemma OneLengthIsClean(verb: bytes, value: bytes)
    requires ResponseHasBody(verb, 200) && Digits(value)
    ensures var headers := [(Text("content-length"), value)];
            && Normalise(headers) == headers && First(headers, Length) == Some(value)
            && FramingOf(verb, FinalHead(200, headers)) == Exactly(Decimal(value))
            && IsKind(headers[0], Length)
  {
    var headers: seq<Field> := [(Text("content-length"), value)];
    CleanLength(value);
    assert headers[1..] == [];
    assert Normalise(headers) == [headers[0]] + [] == headers;
  }

  lemma LowerLetters(b: bytes)
    requires forall i :: 0 <= i < |b| ==> 97 <= b[i] <= 122 || b[i] == 45
    ensures Lower(b) == b && Stripped(b) && (b != [] ==> Token(b))
  {
  }

  lemma LengthName()
    ensures var name := Text("content-length"); Lower(name) == name && Stripped(name) && Token(name)
  {
    LowerLetters(Text("content-length"));
  }

  lemma LengthNameAllowed()
    ensures Text("content-length") !in FORBIDDEN
  {
    assert |Text("content-length")| == 14;
  }

  lemma CleanLength(value: bytes)
    requires Digits(value)
    ensures Clean((Text("content-length"), value)) == Some((Text("content-length"), value))
    ensures IsKind((Text("content-length"), value), Length)
  {
    LengthName();
    LengthNameAllowed();
    StripStripped(Text("content-length"));
    StripStripped(value);
  }
}
