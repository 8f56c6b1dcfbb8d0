/** From the bytes of an upstream to the messages for the client: nothing of an answer that
    an upstream prints, within the limits, is lost on the way. */
module RelayedAnswer {
  import opened Wrappers
  import opened Bytes
  import opened Head
  import opened HeadText
  import opened RequestText
  import opened Response
  import opened Relay
  import opened Proxy
  import opened AnswerHead
  import opened AnswerText
  import opened ChunkedRoundTrip
  import opened Selection
  import Chunked

  /** The head of an answer, as an upstream prints it. */
  datatype Printed = Printed(http11: bool, status: nat, phrase: bytes, fields: seq<Field>)

  function Text(p: Printed): bytes {
    PrintAnswer(p.http11, p.status, p.phrase, p.fields)
  }

  /** The head can be read: no line of it is cut short, it is not too large, its status is
      one, its fields are not too many, and its lengths are numbers and the same. */
  ghost predicate Legible(p: Printed, maxHeaderCount: nat, headLimit: nat) {
    var h := LowerNames(p.fields);
    && CR !in p.phrase && AllReadable(p.fields) && |Text(p)| <= headLimit
    && 100 <= p.status <= 599 && |h| <= maxHeaderCount && LengthsAreDigits(h) && SameValues(Values(h, Special.Length))
  }

  lemma FirstHead(p: Printed, verb: bytes, client11: bool, maxHeaderCount: nat, headLimit: nat, rest: bytes)
    returns (g: seq<Field>)
    requires Legible(p, maxHeaderCount, headLimit)
    ensures AllTidy(g) && OneLengthLeft(LowerNames(p.fields), g)
    ensures var parse := raw => ParseAnswer(verb, client11, maxHeaderCount, raw);
            HeadOf(parse, headLimit, Text(p) + rest) ==
            if p.status >= 200 then Some((AnswerOf(verb, client11, p.status, g), rest))
            else if p.status == 101 then None
            else HeadOf(parse, headLimit, rest)
  {
    hide ParseAnswer, OneLengthLeft, AreLines, WriteLines, FindEnd, AnswerOf, AllTidy, SameValues, Values, HeadOf, StatusLine,
         FieldLines, LengthsAreDigits, AllReadable;
    var lines := AnswerLines(p.http11, p.status, p.phrase, p.fields);
    var text := WriteLines(lines);
    StatusLineParses(p.http11, p.status, p.phrase);
    ReadableLines(p.fields);
    LinesAreLines(StatusLine(p.http11, p.status, p.phrase), FieldLines(p.fields));
    EndOfText(lines, rest);
    g := AnswerRoundTrip(verb, client11, maxHeaderCount, p.http11, p.status, p.phrase, p.fields);
    HeadBegins(raw => ParseAnswer(verb, client11, maxHeaderCount, raw), headLimit, text + CRLF, rest);
    StatusStays(verb, client11, p.status, g);
  }

  lemma HeadBegins(parse: HeadParser, headLimit: nat, text: bytes, rest: bytes)
    requires |text| >= 4 && |text| <= headLimit && FindEnd(text + rest) == Some(|text| - 4)
    ensures HeadOf(parse, headLimit, text + rest) ==
            match parse(text)
            case None => None
            case Some(a) =>
              if a.status >= 200 then Some((a, rest)) else if a.status == 101 then None else HeadOf(parse, headLimit, rest)
  {
    assert (text + rest)[..|text|] == text && (text + rest)[|text|..] == rest;
  }

  lemma LinesAreLines(first: bytes, rest: seq<bytes>)
    requires IsLine(first) && AreLines(rest)
    ensures AreLines([first] + rest)
  {
  }

  lemma StatusStays(verb: bytes, client11: bool, status: nat, g: seq<Field>)
    requires AllTidy(g)
    ensures AnswerOf(verb, client11, status, g).status == status
  {
  }

  /** Printed one after the other. */
  function Texts(heads: seq<Printed>): bytes {
    if heads == [] then [] else Text(heads[0]) + Texts(heads[1..])
  }

  /** Interim answers, any number of them. */
  ghost predicate Interim(heads: seq<Printed>, maxHeaderCount: nat, headLimit: nat) {
    forall i :: 0 <= i < |heads| ==> Legible(heads[i], maxHeaderCount, headLimit) && heads[i].status < 200 && heads[i].status != 101
  }

  /** The final head is found behind any interim answers, with what was printed in it, and
      nothing of the bytes after it is lost. */
  lemma {:induction false} FinalHeadIsFound(interim: seq<Printed>, p: Printed, verb: bytes, client11: bool,
                                            maxHeaderCount: nat, headLimit: nat, rest: bytes)
    returns (g: seq<Field>)
    requires Interim(interim, maxHeaderCount, headLimit) && Legible(p, maxHeaderCount, headLimit) && p.status >= 200
    ensures AllTidy(g) && OneLengthLeft(LowerNames(p.fields), g)
    ensures HeadOf(raw => ParseAnswer(verb, client11, maxHeaderCount, raw), headLimit, Texts(interim) + (Text(p) + rest))
            == Some((AnswerOf(verb, client11, p.status, g), rest))
    decreases |interim|
  {
    hide HeadOf, Legible, OneLengthLeft, AllTidy, AnswerOf, ParseAnswer;
    if interim == [] {
      assert Texts(interim) + (Text(p) + rest) == Text(p) + rest;
      g := FirstHead(p, verb, client11, maxHeaderCount, headLimit, rest);
    } else {
      var more := Texts(interim[1..]) + (Text(p) + rest);
      ConcatAssoc(Text(interim[0]), Texts(interim[1..]), Text(p) + rest);
      var _ := FirstHead(interim[0], verb, client11, maxHeaderCount, headLimit, more);
      g := FinalHeadIsFound(interim[1..], p, verb, client11, maxHeaderCount, headLimit, rest);
    }
  }

  // ----- The body ------------------------------------------------------------------------------------

  ghost predicate ShortPieces(pieces: seq<bytes>, trailers: seq<Field>) {
    && (forall i :: 0 <= i < |pieces| ==> |Hex(|pieces[i]|)| < Chunked.MAX_CHUNK_LINE)
    && (forall i :: 0 <= i < |trailers| ==> ValidTrailer(trailers[i]) && |FieldLine(trailers[i])| < Chunked.MAX_CHUNK_LINE)
  }

  /** The bytes `s` carry the body under that delimiter, as an upstream sends it: in any
      chunks and with any trailers, with anything behind it, or up to the close. */
  ghost predicate Holds(d: Delimiter, s: bytes, body: bytes, trailers: seq<Field>) {
    match d
    case Nothing => body == []
    case Length(n) => |body| == n && body <= s
    case Coding => exists pieces, more :: Chunks(s, pieces, trailers, more) && Flat(pieces) == body
    case UntilEof => body == s
  }

  ghost predicate Chunks(s: bytes, pieces: seq<bytes>, trailers: seq<Field>, more: bytes) {
    ShortPieces(pieces, trailers) && s == WriteBody(pieces) + (WriteEnd(trailers) + more)
  }

  lemma ChunksDecode(s: bytes, pieces: seq<bytes>, trailers: seq<Field>, more: bytes)
    requires Chunks(s, pieces, trailers, more)
    ensures Completed(Delimiter.Coding, s) && Decoded(Delimiter.Coding, s) == Flat(pieces)
    ensures Chunked.ShortLines(Chunked.INITIAL, s, 0)
    ensures Chunked.Feed(Chunked.INITIAL, s, 0).next.trailers == Capped(LowerNames(trailers))
  {
    hide Chunked.Feed, Chunked.ShortLines;
    ChunkedRoundTrip.ChunkedRoundTrip(pieces, trailers, more, 0);
  }

  lemma HeldIsDecoded(d: Delimiter, s: bytes, body: bytes, trailers: seq<Field>, limit: nat)
    requires Holds(d, s, body, trailers) && WithinLimit(limit, |body|)
    ensures Completed(d, s) && Decoded(d, s) == body && !CutShort(d, s, limit)
    ensures d.Coding? ==> Chunked.Feed(Chunked.INITIAL, s, 0).next.trailers == Capped(LowerNames(trailers))
  {
    hide Chunked.Feed, Chunked.ShortLines, Chunks;
    if d.Coding? {
      var pieces, more :| Chunks(s, pieces, trailers, more) && Flat(pieces) == body;
      ChunksDecode(s, pieces, trailers, more);
    }
  }

  /** A body that the upstream sends whole, within the limit, is relayed whole: the start,
      pieces that make up the body, its end, and the trailer fields that may be forwarded
      if they were announced. */
  lemma WholeBodyIsRelayed(a: Answer, s: bytes, limit: nat, verdict: Verdict, bodies: seq<bytes>, sent: seq<Message>,
                           body: bytes, trailers: seq<Field>)
    requires Faithful(a, s, limit, verdict, bodies, sent) && Holds(a.delimiter, s, body, trailers) && WithinLimit(limit, |body|)
    ensures verdict.Whole? && Flat(bodies) == body
    ensures sent == [Start(a.status, a.headers, a.trailers, true)] + Pieces(bodies) + [Body([], false, false)]
                    + (if a.trailers && a.delimiter.Coding? then [Trailers(Forwarded(Capped(LowerNames(trailers))), false)] else [])
  {
    hide Chunked.Feed, Completed, Decoded, CutShort;
    HeldIsDecoded(a.delimiter, s, body, trailers, limit);
    LengthIsHeld(a, s, body, trailers, limit);
    var ending := if a.trailers && a.delimiter.Coding? then [Trailers(Forwarded(Capped(LowerNames(trailers))), false)] else [];
    ConcatAssoc([StartOf(a)] + Pieces(bodies), [Body([], false, false)], ending);
    assert [Body([], false, false)] + [] == [Body([], false, false)];
  }

  lemma LengthIsHeld(a: Answer, s: bytes, body: bytes, trailers: seq<Field>, limit: nat)
    requires Holds(a.delimiter, s, body, trailers) && WithinLimit(limit, |body|)
    ensures Startable(a, limit)
  {
  }

  /** From the wire to the client, for every answer an upstream may print: behind any interim
      answers, in any arrivals, and with its body whole and within the limit, it reaches the
      client as a start with its status and the fields that may pass, the body, and its end. */
  lemma AnswerIsDelivered(t: Try, interim: seq<Printed>, p: Printed, s: bytes, verb: bytes, client11: bool,
                          maxHeaderCount: nat, headLimit: nat, limit: nat,
                          verdict: Verdict, bodies: seq<bytes>, sent: seq<Message>, body: bytes, trailers: seq<Field>)
    returns (g: seq<Field>, kept: seq<Field>)
    requires t.Reached? && t.delivered && Flat(t.coming) == Texts(interim) + (Text(p) + s)
    requires Interim(interim, maxHeaderCount, headLimit) && Legible(p, maxHeaderCount, headLimit) && p.status >= 200
    requires var found := HeadOfTry(t, raw => ParseAnswer(verb, client11, maxHeaderCount, raw), headLimit);
             found.Some? ==> Faithful(found.value.0, found.value.1, limit, verdict, bodies, sent)
    requires forall d :: Delimits(verb, p.status, LowerNames(p.fields), d) ==> Holds(d, s, body, trailers)
    requires WithinLimit(limit, |body|)
    ensures AllTidy(g) && OneLengthLeft(LowerNames(p.fields), g)
    ensures Selects(g, kept, f => Passes(verb, p.status, DelimiterOf(verb, p.status, g), g, f))
    ensures verdict.Whole? && Flat(bodies) == body && sent != []
    ensures sent[0].Start? && sent[0].status == p.status && kept <= sent[0].headers
    ensures Pieces(bodies) + [Body([], false, false)] <= sent[1..]
  {
    hide Faithful, Passes, Selects, Delimits, Holds, Legible, Interim, Texts, Text, Pieces, Values, AllTidy, DelimiterOf, OneLengthLeft;
    g := FinalHeadIsFound(interim, p, verb, client11, maxHeaderCount, headLimit, s);
    kept := ForwardsExactly(verb, client11, p.status, g);
    DelimiterIsRight(verb, p.status, g);
    SameDelimits(verb, p.status, LowerNames(p.fields), g, DelimiterOf(verb, p.status, g));
    var a := AnswerOf(verb, client11, p.status, g);
    WholeBodyIsRelayed(a, s, limit, verdict, bodies, sent, body, trailers);
    hide AnswerOf;
    var start := [Start(a.status, a.headers, a.trailers, true)];
    var ending := if a.trailers && a.delimiter.Coding? then [Trailers(Forwarded(Capped(LowerNames(trailers))), false)] else [];
    ConcatAssoc(start, Pieces(bodies), [Body([], false, false)]);
    ConcatAssoc(start, Pieces(bodies) + [Body([], false, false)], ending);
    assert sent[1..] == Pieces(bodies) + [Body([], false, false)] + ending;
  }
}
