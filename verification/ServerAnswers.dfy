/** What the server says of its own accord, read the way a client reads it. */
module ServerAnswers {
  import opened Wrappers
  import opened Bytes
  import opened Head
  import opened Response
  import opened ResponseFraming
  import opened HeadText
  import opened ChunkedRoundTrip
  import RequestText
  import AnswerText
  import Proxy

  lemma {:induction false} FieldsAreLines(fields: seq<Field>)
    ensures TrailerText(fields) == WriteLines(RequestText.FieldLines(fields))
  {
    if fields != [] {
      var lines := RequestText.FieldLines(fields);
      FieldsAreLines(fields[1..]);
      assert lines[0] == FieldLine(fields[0]) && lines[1..] == RequestText.FieldLines(fields[1..]);
    }
  }

  /** The same pieces, one way and the other. */
  lemma SamePieces(version: bytes, status: bytes, phrase: bytes, fields: bytes)
    ensures version + [SPACE] + (status + [SPACE] + phrase + CRLF + fields + CRLF)
            == version + [SPACE] + status + [SPACE] + phrase + CRLF + fields + CRLF
  {
    var x := version + [SPACE];
    ConcatAssoc(x, status, [SPACE]);
    ConcatAssoc(x, status + [SPACE], phrase);
    ConcatAssoc(x, status + [SPACE] + phrase, CRLF);
    ConcatAssoc(x, status + [SPACE] + phrase + CRLF, fields);
    ConcatAssoc(x, status + [SPACE] + phrase + CRLF + fields, CRLF);
  }

  lemma VersionAndBlank()
    ensures Text("HTTP/1.1 ") == Text("HTTP/1.1") + [SPACE]
  {
  }

  lemma FirstLine(line: bytes, fields: seq<Field>)
    ensures WriteLines([line] + RequestText.FieldLines(fields)) == line + CRLF + TrailerText(fields)
  {
    FieldsAreLines(fields);
    assert ([line] + RequestText.FieldLines(fields))[1..] == RequestText.FieldLines(fields);
  }

  /** An interim answer goes out as a status line, the fields that the application may set,
      and an empty line: the form in which an upstream's answer is read back. */
  lemma InterimIsPrinted(ex: Exchange, m: Message)
    requires m.Start?
    ensures InterimText(ex, m) == AnswerText.PrintAnswer(true, m.status, ex.phrase(m.status), Normalise(m.headers))
  {
    hide Normalise, Text, Ascii, WriteLines, TrailerText, RequestText.FieldLines;
    var fields := Normalise(m.headers);
    FirstLine(AnswerText.StatusLine(true, m.status, ex.phrase(m.status)), fields);
    VersionAndBlank();
    SamePieces(Text("HTTP/1.1"), Ascii(m.status), ex.phrase(m.status), TrailerText(fields));
  }

  /** The interim answers in front of the answer itself. */
  function InterimsOf(ex: Exchange, msgs: seq<Message>): bytes {
    if msgs == [] then []
    else
      match msgs[0]
      case Start(status, _, _, _) => if status < 200 then InterimText(ex, msgs[0]) + InterimsOf(ex, msgs[1..]) else []
      case Body(_, _, _) => InterimsOf(ex, msgs[1..])
      case Trailers(_, more) => if more then InterimsOf(ex, msgs[1..]) else []
  }

  lemma HeadIsOut(ex: Exchange, w: Writer, m: Message)
    requires w.head.Some? && (m.Start? ==> m.status < 200)
    ensures Taken(ex, w, m).interim == w.interim && Taken(ex, w, m).head == w.head
  {
    hide OnStart, OnBody, OnTrailers;
    match m {
      case Start(_, _, _, _) => LateInterim(ex, w, m);
      case Body(_, _, _) => BodyAddsNoInterim(ex, w, m);
      case Trailers(_, _) => TrailersAddNoInterim(w, m);
    }
  }

  lemma LateInterim(ex: Exchange, w: Writer, m: Message)
    requires m.Start? && m.status < 200 && w.head.Some?
    ensures OnStart(ex, w, m).interim == w.interim && OnStart(ex, w, m).head == w.head
  {
    hide InterimText, StartFinal;
  }

  lemma BodyAddsNoInterim(ex: Exchange, w: Writer, m: Message)
    requires m.Body?
    ensures OnBody(ex, w, m).interim == w.interim && OnBody(ex, w, m).head == w.head
  {
    hide WriteEncoded, WritePlain;
    WrittenKeeps(ex, w, m);
  }

  lemma TrailersAddNoInterim(w: Writer, m: Message)
    requires m.Trailers?
    ensures OnTrailers(w, m).interim == w.interim && OnTrailers(w, m).head == w.head
  {
  }

  lemma {:induction false} NoInterimLater(ex: Exchange, w: Writer, msgs: seq<Message>)
    requires w.head.Some? && StartsOnce(msgs, true)
    ensures Run(ex, w, msgs).interim == w.interim
    decreases |msgs|
  {
    hide Taken;
    if msgs != [] && !w.ended {
      HeadIsOut(ex, w, msgs[0]);
      NoInterimLater(ex, Taken(ex, w, msgs[0]), msgs[1..]);
    }
  }

  /** Every interim answer in front of the answer goes out, in order. */
  lemma {:induction false} InterimsGoOut(ex: Exchange, w: Writer, msgs: seq<Message>)
    requires w.head.None? && !w.ended && !w.awaitingTrailers && StartsOnce(msgs, false)
    ensures Run(ex, w, msgs).interim == w.interim + InterimsOf(ex, msgs)
    decreases |msgs|
  {
    hide InterimText;
    if msgs != [] {
      var m, v := msgs[0], Taken(ex, w, msgs[0]);
      if m.Start? && m.status >= 200 {
        StartsTheAnswer(ex, w, m);
        NoInterimLater(ex, v, msgs[1..]);
      } else if m.Trailers? && !m.moreTrailers {
        assert Run(ex, v, msgs[1..]) == v;
      } else {
        InterimsGoOut(ex, v, msgs[1..]);
        if m.Start? {
          ConcatAssoc(w.interim, InterimText(ex, m), InterimsOf(ex, msgs[1..]));
        }
      }
    }
  }

  lemma StartsTheAnswer(ex: Exchange, w: Writer, m: Message)
    requires m.Start? && m.status >= 200
    ensures OnStart(ex, w, m).head.Some? && OnStart(ex, w, m).interim == w.interim
  {
    StartKeeps(ex, w, m);
    hide OnStart;
  }

  // ----- Plain text answers -------------------------------------------------------------------

  const TYPE_NAME := Text("content-type")
  const TYPE_VALUE := Text("text/plain; charset=utf-8")

  lemma TypeNameIsPlain()
    ensures Lower(TYPE_NAME) == TYPE_NAME && Stripped(TYPE_NAME) && Token(TYPE_NAME) && TYPE_NAME !in FORBIDDEN
    ensures SpecialOf(TYPE_NAME).Plain?
  {
    LowerLetters(TYPE_NAME);
    hide Lower, Token;
    assert |TYPE_NAME| == 12 && TYPE_NAME[8] == 116;
  }

  lemma TextIsLegal(s: string)
    requires s != "" && (forall i :: 0 <= i < |s| ==> ' ' <= s[i] <= '~') && s[0] != ' ' && s[|s| - 1] != ' '
    ensures LegalValue(Text(s)) && Stripped(Text(s))
  {
  }

  lemma TypeValueIsLegal()
    ensures LegalValue(TYPE_VALUE) && Stripped(TYPE_VALUE)
  {
    TextIsLegal("text/plain; charset=utf-8");
    hide Text;
  }

  lemma TypeIsClean()
    ensures var f := (TYPE_NAME, TYPE_VALUE); Clean(f) == Some(f) && !IsKind(f, Length) && !IsKind(f, Coding)
  {
    TypeNameIsPlain();
    TypeValueIsLegal();
    StripStripped(TYPE_NAME);
    StripStripped(TYPE_VALUE);
    hide Text, Strip, Stripped, Token, Lower, LegalValue, SpecialOf;
  }

  function Plain(length: bytes): seq<Field> {
    [(TYPE_NAME, TYPE_VALUE), (Text("content-length"), length)]
  }

  lemma PlainIsClean(length: bytes)
    requires Digits(length)
    ensures Normalise(Plain(length)) == Plain(length) && First(Plain(length), Length) == Some(length)
    ensures First(Plain(length), Coding).None? && LengthsAgree(Plain(length))
  {
    hide Text, Clean, IsKind, SameLength, Lower, SpecialOf, Digits;
    TypeIsClean();
    CleanLength(length);
    var last: seq<Field> := [(Text("content-length"), length)];
    assert Plain(length)[1..] == last && last[1..] == [];
    assert Normalise(last) == last + [];
    LengthIsNoCoding(last[0]);
    SameAsItself(length);
  }

  lemma LengthIsNoCoding(f: Field)
    requires IsKind(f, Length)
    ensures !IsKind(f, Coding)
  {
    hide SpecialOf;
  }

  lemma SameAsItself(length: bytes)
    requires Digits(length)
    ensures SameLength(length, length)
  {
  }

  /** How such an answer is delimited. */
  lemma PlainFraming(verb: bytes, status: nat, length: bytes)
    requires Digits(length)
    ensures FramingOf(verb, FinalHead(status, Plain(length)))
            == if ResponseHasBody(verb, status) then Exactly(Decimal(length)) else NoBody
  {
    hide Plain, Text, First, LengthsAgree, Normalise, Decimal, Digits;
    PlainIsClean(length);
  }

  /** A client of this exchange gets its answers as they are. */
  ghost predicate Unencoded(ex: Exchange, status: nat, length: bytes) {
    ex.encoding(status, Plain(length)).None?
  }

  lemma PlainStarts(ex: Exchange, keepAlive: bool, status: nat, length: bytes)
    requires status >= 200 && Digits(length) && ResponseHasBody(ex.verb, status) && Unencoded(ex, status, length)
    ensures OnStart(ex, Begin(keepAlive), Start(status, Plain(length), false, true))
            == Begin(keepAlive).(head := Some(FinalHead(status, Plain(length))), declared := Some(Decimal(length)))
  {
    PlainIsClean(length);
    hide Plain, Normalise, First, Text, ResponseHasBody;
  }

  lemma BodyGoesOut(ex: Exchange, w: Writer, reason: bytes)
    requires w.head.Some? && !w.discard && !w.encoded && !w.chunked && !w.ended && w.declared == Some(|reason|)
    requires w.octets == [] && w.bodyBytes == 0 && !w.aborted
    ensures var v := OnBody(ex, w, Body(reason, false, false));
            && v.ended && v.head == w.head && v.octets == reason && v.keepAlive == w.keepAlive && !v.aborted
            && v.declared == w.declared && v.bodyBytes == |reason|
  {
    assert [] + reason + [] == reason;
  }

  /** When there is no answer to relay, the client gets a whole one: the reason, delimited by
      its length, and the connection is kept as it would have been. */
  lemma BadGatewayIsWhole(ex: Exchange, keepAlive: bool, reason: bytes)
    requires ResponseHasBody(ex.verb, 502) && Unencoded(ex, 502, Ascii(|reason|))
    ensures var w := Run(ex, Begin(keepAlive), Proxy.BadGateway(reason));
            && w.ended && w.head.Some? && w.head.value.status == 502 && Complete(ex.verb, w, reason)
            && Conclude(w).keepAlive == keepAlive
  {
    var length := Ascii(|reason|);
    var start, body := Start(502, Plain(length), false, true), Body(reason, false, false);
    assert Proxy.BadGateway(reason) == [start] + [body];
    hide Plain, OnStart, OnBody, Run, Proxy.BadGateway, FramingOf, ResponseHasBody, Text;
    PlainStarts(ex, keepAlive, 502, length);
    PlainFraming(ex.verb, 502, length);
    var w := OnStart(ex, Begin(keepAlive), start);
    RunFirst(ex, Begin(keepAlive), start, [body]);
    RunOne(ex, w, body);
    BodyGoesOut(ex, w, reason);
  }

  lemma TwentyOne()
    ensures Digits(Text("21")) && Decimal(Text("21")) == 21 && |Text("Internal Server Error")| == 21
  {
    var length := Text("21");
    assert length[..1] == [50] && [50][..0] == [] && Decimal([50]) == 2;
  }

  /** An application that never answers is answered for, and the connection is not used
      again; the answer is a whole one, except that it goes on after its head when the
      request was a HEAD. */
  lemma SilenceIsAnswered(ex: Exchange, w: Writer)
    requires w.head.None?
    ensures var v := Conclude(w);
            && v.head.Some? && v.head.value.status == 500 && !v.keepAlive
            && v.octets == Text("Internal Server Error")
            && (Complete(ex.verb, v, v.octets) <==> ex.verb != Text("HEAD"))
  {
    var v := Conclude(w);
    assert v.head == Some(FinalHead(500, Plain(Text("21"))));
    TwentyOne();
    PlainFraming(ex.verb, 500, Text("21"));
    hide Plain, FramingOf, Text, Decimal, Digits;
  }
}
