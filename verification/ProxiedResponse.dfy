/** What a client of the proxy can tell: a whole answer arrives whole, and when a cut one
    can be told from it. */
module ProxiedResponse {
  import opened Wrappers
  import opened Bytes
  import opened Head
  import opened Response
  import opened ResponseFraming
  import opened Relay
  import opened Proxy
  import opened AnswerHead
  import opened AppRun
  import Chunked

  /** The reader of answer heads, for the client's method and version. */
  function AnswerParser(ex: Exchange, maxHeaderCount: nat): HeadParser {
    raw => ParseAnswer(ex.verb, ex.http11, maxHeaderCount, raw)
  }

  /** What an answer relies on: a final status, and what the relay's header loop establishes. */
  ghost predicate Forwards(ex: Exchange, a: Answer) {
    a.status >= 200 && AnswerHead.Forwards(ex.verb, a)
  }

  /** Every answer that the relay gets to start is of that kind. */
  lemma {:induction false} HeadForwards(ex: Exchange, maxHeaderCount: nat, headLimit: nat, stream: bytes)
    requires HeadOf(AnswerParser(ex, maxHeaderCount), headLimit, stream).Some?
    ensures Forwards(ex, HeadOf(AnswerParser(ex, maxHeaderCount), headLimit, stream).value.0)
    decreases |stream|
  {
    hide AnswerHead.Forwards, ParseAnswer;
    var n := FindEnd(stream).value + 4;
    var a := AnswerParser(ex, maxHeaderCount)(stream[..n]).value;
    if a.status >= 200 {
      AnswerForwards(ex.verb, ex.http11, maxHeaderCount, stream[..n]);
    } else {
      HeadForwards(ex, maxHeaderCount, headLimit, stream[n..]);
    }
  }

  /** An attempt over which the answer and the bytes after its head came. */
  ghost predicate Came(ex: Exchange, maxHeaderCount: nat, headLimit: nat, t: Try, a: Answer, s: bytes) {
    HeadOfTry(t, AnswerParser(ex, maxHeaderCount), headLimit) == Some((a, s))
  }

  /** A client takes these octets for a whole body. */
  ghost predicate LooksWhole(framing: Framing, octets: bytes) {
    match framing
    case NoBody => octets == []
    case ChunkedCoding => Chunked.WholeChunked(octets)
    case Exactly(n) => |octets| >= n
    case UntilClose => true
    case Ambiguous => false
  }

  /** Neither a length nor the chunked coding delimits the answer to the client. */
  predicate CloseDelimited(ex: Exchange, a: Answer) {
    !ex.http11 && (ex.encoding(a.status, Normalise(a.headers)).Some? || First(Normalise(a.headers), Special.Length).None?)
  }

  // ----- The relay's messages, one by one -------------------------------------------------------

  function GivenAll(c: Course, bodies: seq<bytes>): (r: Course)
    ensures r == c.(given := r.given)
  {
    if bodies == [] then c else Given(GivenAll(c, bodies[..|bodies| - 1]), bodies[|bodies| - 1])
  }

  lemma {:induction false} PiecesInOrder(ex: Exchange, bodies: seq<bytes>, rest: seq<Message>, c: Course)
    requires c.stage.InBody?
    ensures Orderly(ex, Pieces(bodies) + rest, c) == Orderly(ex, rest, GivenAll(c, bodies))
    ensures BodyOf(Pieces(bodies) + rest, true) == Flat(bodies) + BodyOf(rest, true)
    ensures StartsOnce(Pieces(bodies) + rest, true) == StartsOnce(rest, true)
    decreases |bodies|
  {
    if bodies == [] {
      assert [] + rest == rest;
      assert Flat([]) + BodyOf(rest, true) == BodyOf(rest, true);
    } else {
      var init, last := bodies[..|bodies| - 1], bodies[|bodies| - 1];
      var m := Body(last, true, false);
      ConcatAssoc(Pieces(init), [m], rest);
      PiecesInOrder(ex, init, [m] + rest, c);
      assert ([m] + rest)[1..] == rest;
      assert bodies == init + [last];
      FlatAppend(init, last);
      ConcatAssoc(Flat(init), last, BodyOf(rest, true));
    }
  }

  /** The data still fits a declared length, if there is one. */
  predicate Room(w: Writer, n: nat) {
    w.encoded || w.declared.None? || w.bodyBytes + n <= w.declared.value
  }

  /** After `n` octets of data in body messages that do not end the answer. */
  predicate GoneOut(v: Writer, w: Writer, n: nat) {
    && Kept(v, w)
    && (!w.chunked && !w.encoded && !w.discard ==> |v.octets| <= |w.octets| + n)
    && (Room(w, n) ==> v.keepAlive == w.keepAlive && (!w.encoded && !w.discard ==> v.bodyBytes == w.bodyBytes + n))
    && (w.discard ==> v.bodyBytes == w.bodyBytes)
  }

  lemma PieceGoesOut(ex: Exchange, w: Writer, data: bytes)
    requires !w.ended && w.head.Some?
    ensures GoneOut(OnBody(ex, w, Body(data, true, false)), w, |data|)
  {
    if !w.discard {
      WrittenKeeps(ex, w, Body(data, true, false));
      if w.encoded && data != [] {
        assert WriteCoded(ex, w, data).keepAlive == w.keepAlive;
      }
    }
  }

  lemma GoneOutTwice(v: Writer, u: Writer, w: Writer, a: nat, b: nat)
    requires GoneOut(u, w, a) && GoneOut(v, u, b)
    ensures GoneOut(v, w, a + b)
  {
  }

  /** While pieces go out the answer stays open, and no octet comes from elsewhere. */
  lemma {:induction false} PiecesGoOut(ex: Exchange, w: Writer, bodies: seq<bytes>)
    requires !w.ended && w.head.Some?
    ensures GoneOut(Run(ex, w, Pieces(bodies)), w, |Flat(bodies)|)
    decreases |bodies|
  {
    if bodies != [] {
      hide OnBody, Flat;
      var init, last := bodies[..|bodies| - 1], bodies[|bodies| - 1];
      var u, m := Run(ex, w, Pieces(init)), Body(last, true, false);
      PiecesGoOut(ex, w, init);
      RunConcat(ex, w, Pieces(init), [m]);
      RunOne(ex, u, m);
      PieceGoesOut(ex, u, last);
      GoneOutTwice(OnBody(ex, u, m), u, w, |Flat(init)|, |last|);
      assert bodies == init + [last];
      FlatAppend(init, last);
    }
  }

  lemma StartGoesOut(ex: Exchange, keepAlive: bool, a: Answer)
    requires Forwards(ex, a)
    ensures var u := OnStart(ex, Begin(keepAlive), StartOf(a));
            var framing := FramingOf(ex.verb, u.head.value);
            && Empty(u) && !u.ended && (u.discard <==> a.delimiter.Nothing?) && (u.discard <==> framing.NoBody?)
            && (u.chunked <==> framing.ChunkedCoding?) && (framing.UntilClose? <==> !u.discard && CloseDelimited(ex, a))
            && (!u.discard && !u.chunked && !framing.UntilClose? ==>
                  && !u.encoded && u.declared.Some? && a.delimiter == Delimiter.Length(u.declared.value)
                  && framing == Exactly(u.declared.value))
            && (u.discard || u.chunked || framing.UntilClose? ==> u.declared.None?)
            && (!u.discard ==> u.trailersExpected == a.trailers && (u.encoded <==> ex.encoding(a.status, Normalise(a.headers)).Some?))
            && u.keepAlive == (keepAlive && !framing.UntilClose?)
  {
    var t := SettingOf(ex, []);
    StartShapes(t, keepAlive, [], StartOf(a));
    StartKeeps(ex, Begin(keepAlive), StartOf(a));
  }

  lemma BeginningGoesOut(ex: Exchange, keepAlive: bool, a: Answer, bodies: seq<bytes>)
    requires Forwards(ex, a)
    ensures var msgs := [StartOf(a)] + Pieces(bodies);
            && GoneOut(Run(ex, Begin(keepAlive), msgs), OnStart(ex, Begin(keepAlive), StartOf(a)), |Flat(bodies)|)
            && StartsOnce(msgs, false)
  {
    var m := StartOf(a);
    var u := OnStart(ex, Begin(keepAlive), m);
    RunFirst(ex, Begin(keepAlive), m, Pieces(bodies));
    StartGoesOut(ex, keepAlive, a);
    PiecesGoOut(ex, u, bodies);
    PiecesInOrder(ex, bodies, [], Course(Verbatim, false, false, [], InBody));
    assert Pieces(bodies) + [] == Pieces(bodies);
    assert ([m] + Pieces(bodies))[1..] == Pieces(bodies);
  }

  // ----- Answers that are cut ------------------------------------------------------------------

  lemma CutIsShort(a: Answer, s: bytes, limit: nat, bodies: seq<bytes>, sent: seq<Message>)
    requires Faithful(a, s, limit, Cut, bodies, sent)
    ensures !a.delimiter.Nothing? && (a.delimiter.Length? ==> |Flat(bodies)| < a.delimiter.n)
  {
  }

  lemma CutForwarded(ex: Exchange, keepAlive: bool, a: Answer, s: bytes, limit: nat,
                                 bodies: seq<bytes>, sent: seq<Message>)
    requires Forwards(ex, a) && Faithful(a, s, limit, Cut, bodies, sent)
    ensures var w := Conclude(Run(ex, Begin(keepAlive), sent + [ABANDONED]));
            && w.ended && !w.keepAlive && w.head.Some?
            && var framing := FramingOf(ex.verb, w.head.value);
               && (LooksWhole(framing, w.octets) <==> CloseDelimited(ex, a))
               && (framing.UntilClose? <==> CloseDelimited(ex, a))
               && (framing.Exactly? ==> |w.octets| < framing.n)
  {
    CutIsShort(a, s, limit, bodies, sent);
    StartGoesOut(ex, keepAlive, a);
    BeginningGoesOut(ex, keepAlive, a, bodies);
    var r := Run(ex, Begin(keepAlive), sent);
    RunConcat(ex, Begin(keepAlive), sent, [ABANDONED]);
    RunOne(ex, r, ABANDONED);
    AbandonedNeverLooksWhole(ex, keepAlive, sent);
  }

  /** A cut answer: the connection closes after it, a chunked body, encoded or not, has
      no end, and a body of declared length falls short of it.  The client takes it for a
      whole answer if and only if nothing but the close delimits it. */
  lemma CutAnswerNeverLooksWhole(ex: Exchange, keepAlive: bool, maxHeaderCount: nat, headLimit: nat, t: Try,
                                 a: Answer, s: bytes, limit: nat, bodies: seq<bytes>, sent: seq<Message>)
    requires Came(ex, maxHeaderCount, headLimit, t, a, s) && Faithful(a, s, limit, Cut, bodies, sent)
    ensures var w := Conclude(Run(ex, Begin(keepAlive), sent + [ABANDONED]));
            && w.ended && !w.keepAlive && w.head.Some?
            && var framing := FramingOf(ex.verb, w.head.value);
               && (LooksWhole(framing, w.octets) <==> CloseDelimited(ex, a))
               && (framing.UntilClose? <==> CloseDelimited(ex, a))
               && (framing.Exactly? ==> |w.octets| < framing.n)
  {
    HeadForwards(ex, maxHeaderCount, headLimit, Flat(t.coming));
    CutForwarded(ex, keepAlive, a, s, limit, bodies, sent);
  }

  /** In that case the client cannot tell: an upstream that had sent no more than the
      pieces and then closed would have made the same octets go out. */
  lemma CutCannotBeTold(ex: Exchange, keepAlive: bool, a: Answer, s: bytes, limit: nat,
                        bodies: seq<bytes>, sent: seq<Message>)
    requires Forwards(ex, a) && a.delimiter.UntilEof? && Faithful(a, s, limit, Cut, bodies, sent)
    requires CloseDelimited(ex, a) && ex.encoding(a.status, Normalise(a.headers)).None?
    ensures var whole := WholeMessages(a, Flat(bodies), bodies);
            var cut, w := Conclude(Run(ex, Begin(keepAlive), sent + [ABANDONED])), Conclude(Run(ex, Begin(keepAlive), whole));
            && Faithful(a, Flat(bodies), 0, Whole, bodies, whole)
            && w.ended && cut.ended && w.head == cut.head && w.octets == cut.octets && !w.keepAlive && !cut.keepAlive
  {
    StartGoesOut(ex, keepAlive, a);
    BeginningGoesOut(ex, keepAlive, a, bodies);
    var r := Run(ex, Begin(keepAlive), sent);
    RunConcat(ex, Begin(keepAlive), sent, [ABANDONED]);
    RunOne(ex, r, ABANDONED);
    var last := Body([], false, false);
    assert EndOf(a, Flat(bodies)) == [last];
    RunConcat(ex, Begin(keepAlive), sent, [last]);
    RunOne(ex, r, last);
    assert r.octets + [] == r.octets;
  }

  /** One byte of two, to a client of HTTP/1.0: the limit cut the answer, and nobody can see it. */
  lemma CutAfterOneByte(ex: Exchange)
    requires !ex.http11 && ResponseHasBody(ex.verb, 200) && ex.encoding(200, []).None?
    ensures var a := Answer(200, [], UntilEof, false);
            var sent := [StartOf(a)] + Pieces([[65]]);
            var w := Conclude(Run(ex, Begin(true), sent + [ABANDONED]));
            && Faithful(a, [65, 66], 1, Cut, [[65]], sent) && LooksWhole(FramingOf(ex.verb, w.head.value), w.octets)
  {
    var a := Answer(200, [], UntilEof, false);
    var sent := [StartOf(a)] + Pieces([[65]]);
    assert Normalise([]) == [];
    assert Flat([[65]]) == [65] by {
      FlatOne([65]);
    }
    assert [65] <= [65, 66];
    CutForwarded(ex, true, a, [65, 66], 1, [[65]], sent);
  }

  // ----- Answers that are whole ----------------------------------------------------------------

  lemma {:induction false} DecodedTrailersFit(d: Chunked.Decoder, buffer: bytes, max: nat)
    requires Fit(d.trailers)
    ensures Fit(Chunked.Feed(d, buffer, max).next.trailers)
    decreases |buffer|
  {
    var m := Chunked.Step(d, buffer, max);
    if m.Take? {
      assert Fit(m.next.trailers);
      if !m.last {
        DecodedTrailersFit(m.next, buffer[m.n..], max);
      }
    }
  }

  lemma {:induction false} ForwardedFit(fields: seq<Field>)
    requires Fit(fields)
    ensures Fit(Forwarded(fields))
  {
    if fields != [] {
      assert |fields[0].1| <= Chunked.MAX_TRAILER_VALUE;
      ForwardedFit(fields[1..]);
    }
  }

  lemma {:induction false} StripShortens(b: bytes)
    ensures |Strip(b)| <= |b|
  {
    StripRightEnds(StripLeft(b));
    StripLeftShortens(b);
  }

  lemma {:induction false} StripLeftShortens(b: bytes)
    ensures |StripLeft(b)| <= |b|
  {
    if b != [] && White(b[0]) {
      StripLeftShortens(b[1..]);
    }
  }

  lemma {:induction false} NormalisedFit(fields: seq<Field>)
    requires Fit(fields)
    ensures Fit(Normalise(fields))
  {
    if fields != [] {
      assert |fields[0].1| <= Chunked.MAX_TRAILER_VALUE;
      StripShortens(fields[0].1);
      NormalisedFit(fields[1..]);
    }
  }

  lemma EndInOrder(ex: Exchange, a: Answer, s: bytes, c: Course)
    requires (a.trailers ==> a.delimiter.Coding?) && c.stage.InBody? && (c.carrier.Coded? ==> c.trailers == a.trailers)
    ensures Orderly(ex, EndOf(a, s), c) && BodyOf(EndOf(a, s), true) == [] && StartsOnce(EndOf(a, s), true)
  {
    var end := EndOf(a, s);
    assert end[0] == Body([], false, false);
    if a.trailers {
      var fields := Forwarded(Chunked.Feed(Chunked.INITIAL, s, 0).next.trailers);
      assert end[1..] == [Trailers(fields, false)] && end[1..][1..] == [];
      DecodedTrailersFit(Chunked.INITIAL, s, 0);
      ForwardedFit(Chunked.Feed(Chunked.INITIAL, s, 0).next.trailers);
      NormalisedFit(fields);
      assert StartsOnce(end[1..], true);
    } else {
      assert end[1..] == [];
    }
  }

  function WholeMessages(a: Answer, s: bytes, bodies: seq<bytes>): seq<Message> {
    [StartOf(a)] + Pieces(bodies) + EndOf(a, s)
  }

  lemma WholeInOrder(ex: Exchange, a: Answer, s: bytes, bodies: seq<bytes>)
    requires Forwards(ex, a)
    ensures var msgs := WholeMessages(a, s, bodies);
            InOrder(ex, msgs) && BodyOf(msgs, false) == Flat(bodies) && StartsOnce(msgs, false)
  {
    var msgs, rest := WholeMessages(a, s, bodies), Pieces(bodies) + EndOf(a, s);
    var c := CourseOf(ex, StartOf(a));
    ConcatAssoc([StartOf(a)], Pieces(bodies), EndOf(a, s));
    assert msgs[0] == StartOf(a) && msgs[1..] == rest;
    EndInOrder(ex, a, s, GivenAll(c, bodies));
    PiecesInOrder(ex, bodies, EndOf(a, s), c);
    assert CourseFor(m => CourseOf(ex, m), msgs).(stage := Stage.InBody) == c;
    assert Flat(bodies) + [] == Flat(bodies);
  }

  lemma EndEnds(ex: Exchange, r: Writer, a: Answer, s: bytes)
    requires !r.ended && r.head.Some? && (r.chunked && !r.discard ==> r.trailersExpected == a.trailers)
    requires a.trailers ==> a.delimiter.Coding?
    ensures var v := Run(ex, r, EndOf(a, s));
            && v.ended && v.aborted == r.aborted && v.head == r.head && v.declared == r.declared
            && v.chunked == r.chunked && v.encoded == r.encoded && v.discard == r.discard
            && (Room(r, 0) ==> v.keepAlive == r.keepAlive)
  {
    var end, last := EndOf(a, s), Body([], false, false);
    assert end[0] == last;
    var v := OnBody(ex, r, last);
    LastGoesOut(ex, r);
    if a.trailers {
      var t := Trailers(Forwarded(Chunked.Feed(Chunked.INITIAL, s, 0).next.trailers), false);
      assert end[1..] == [t];
      RunOne(ex, v, t);
    } else {
      assert end[1..] == [];
    }
  }

  lemma LastGoesOut(ex: Exchange, r: Writer)
    requires !r.ended && r.head.Some?
    ensures var v := OnBody(ex, r, Body([], false, false));
            && v.aborted == r.aborted && v.head == r.head && v.declared == r.declared
            && v.chunked == r.chunked && v.encoded == r.encoded && v.discard == r.discard
            && (v.ended <==> !(r.chunked && r.trailersExpected && !r.discard)) && (!v.ended ==> v.awaitingTrailers)
            && (Room(r, 0) ==> v.keepAlive == r.keepAlive)
  {
    WrittenKeeps(ex, r, Body([], false, false));
  }

  /** The answer carries exactly these octets to the client. */
  ghost predicate Carries(w: Writer, content: bytes) {
    if w.chunked then Chunked.WholeChunked(w.octets) && Chunked.Payload(w.octets) == content else w.octets == content
  }

  lemma FinishedCarries(t: Setting, w: Writer)
    requires Finished(t, w) && w.head.Some? && !w.aborted && t.good && !w.discard
    ensures Carries(w, Flat(w.pieces)) && (Unaltered(t, w) ==> Flat(w.pieces) == t.content && (!w.encoded ==> Flat(w.pieces) == t.body))
    ensures w.declared.Some? ==> w.bodyBytes == |Flat(w.pieces)|
  {
  }

  lemma WholeForwarded(ex: Exchange, keepAlive: bool, a: Answer, s: bytes, limit: nat, bodies: seq<bytes>, sent: seq<Message>)
    requires Forwards(ex, a) && Faithful(a, s, limit, Whole, bodies, sent)
    ensures var w := Conclude(Run(ex, Begin(keepAlive), sent));
            && w.ended && w.head.Some? && Carries(w, Meant(w)) && LooksWhole(FramingOf(ex.verb, w.head.value), w.octets)
            && (!w.encoded ==> Meant(w) == Decoded(a.delimiter, s)) && (w.encoded ==> Meant(w) == Content(ex, sent))
            && w.keepAlive == (keepAlive && (w.discard || !CloseDelimited(ex, a)))
            && (w.keepAlive ==> Complete(ex.verb, w, Meant(w)))
  {
    hide Run, Orderly, OnStart, Pieces, EndOf, InOrder;
    StartGoesOut(ex, keepAlive, a);
    BeginningGoesOut(ex, keepAlive, a, bodies);
    RunConcat(ex, Begin(keepAlive), [StartOf(a)] + Pieces(bodies), EndOf(a, s));
    EndEnds(ex, Run(ex, Begin(keepAlive), [StartOf(a)] + Pieces(bodies)), a, s);
    WholeInOrder(ex, a, s, bodies);
    AnswerOk(ex, keepAlive, sent);
    var t, w := SettingOf(ex, sent), Run(ex, Begin(keepAlive), sent);
    if w.discard {
      assert w.octets == [];
    } else {
      FinishedCarries(t, w);
    }
    ReusedOnlyWhenComplete(ex, keepAlive, sent);
  }

  /** A relayed answer whose upstream framing was complete goes out as a whole answer, with
      the decoded body or what the encoder makes of it, and the connection is kept unless
      its close is what delimits the body. */
  lemma WholeAnswerArrivesWhole(ex: Exchange, keepAlive: bool, maxHeaderCount: nat, headLimit: nat, t: Try,
                                a: Answer, s: bytes, limit: nat, bodies: seq<bytes>, sent: seq<Message>)
    requires Came(ex, maxHeaderCount, headLimit, t, a, s) && Faithful(a, s, limit, Whole, bodies, sent)
    ensures var w := Conclude(Run(ex, Begin(keepAlive), sent));
            && w.ended && w.head.Some? && Carries(w, Meant(w)) && LooksWhole(FramingOf(ex.verb, w.head.value), w.octets)
            && (!w.encoded ==> Meant(w) == Decoded(a.delimiter, s)) && (w.encoded ==> Meant(w) == Content(ex, sent))
            && w.keepAlive == (keepAlive && (w.discard || !CloseDelimited(ex, a)))
            && (w.keepAlive ==> Complete(ex.verb, w, Meant(w)))
  {
    HeadForwards(ex, maxHeaderCount, headLimit, Flat(t.coming));
    WholeForwarded(ex, keepAlive, a, s, limit, bodies, sent);
  }

  /** A body that its upstream delimits by closing, and that a reset has cut, reaches a
      client of HTTP/1.1 as a whole answer on a connection that is kept. */
  lemma ResetArrivesWhole(ex: Exchange, a: Answer, s: bytes, limit: nat, bodies: seq<bytes>, sent: seq<Message>)
    requires Forwards(ex, a) && Faithful(a, s, limit, Whole, bodies, sent)
    requires ex.http11 && a.delimiter.UntilEof?
    ensures var w := Conclude(Run(ex, Begin(true), sent));
            !Intact(a.delimiter, s, true) && w.ended && w.keepAlive && Complete(ex.verb, w, Meant(w))
  {
    WholeForwarded(ex, true, a, s, limit, bodies, sent);
  }

  /** One byte of a body of any length, and then a reset: a client of HTTP/1.1 gets that
      byte as the whole answer, in one chunk and a last one. */
  lemma ResetAfterOneByte(ex: Exchange)
    requires ex.http11 && ResponseHasBody(ex.verb, 200) && ex.encoding(200, []).None?
    ensures var a := Answer(200, [], UntilEof, false);
            var sent := WholeMessages(a, [65], [[65]]);
            var w := Conclude(Run(ex, Begin(true), sent));
            && Faithful(a, [65], 0, Whole, [[65]], sent) && !Intact(UntilEof, [65], true)
            && w.ended && w.keepAlive && Complete(ex.verb, w, [65])
  {
    var a := Answer(200, [], UntilEof, false);
    var sent := WholeMessages(a, [65], [[65]]);
    assert Normalise([]) == [];
    assert Flat([[65]]) == [65] by {
      FlatOne([65]);
    }
    WholeForwarded(ex, true, a, [65], 0, [[65]], sent);
    WholeInOrder(ex, a, [65], [[65]]);
    assert sent[0] == StartOf(a);
    StartedPlain(ex, a, sent);
  }

  /** Nothing is encoded or dropped of an answer whose start says so. */
  lemma StartedPlain(ex: Exchange, a: Answer, sent: seq<Message>)
    requires Forwards(ex, a) && !a.delimiter.Nothing? && ex.encoding(a.status, Normalise(a.headers)).None?
    requires sent != [] && sent[0] == StartOf(a) && StartsOnce(sent, false)
    ensures var w := Run(ex, Begin(true), sent); !w.encoded && !w.discard
  {
    StartGoesOut(ex, true, a);
    assert sent == [sent[0]] + sent[1..] && StartsOnce(sent[1..], true);
    RunFirst(ex, Begin(true), sent[0], sent[1..]);
    RunKeepsHead(ex, OnStart(ex, Begin(true), sent[0]), sent[1..]);
  }
}
