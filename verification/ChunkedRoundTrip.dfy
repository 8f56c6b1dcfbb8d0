/** What the response writer frames as chunks, the decoder reads back. */
module ChunkedRoundTrip {
  import opened Wrappers
  import opened Bytes
  import opened Chunked

  /** One body message on the wire; an empty one is not written at all. */
  function WriteChunk(data: bytes): bytes {
    if data == [] then [] else Hex(|data|) + CRLF + data + CRLF
  }

  function WriteBody(pieces: seq<bytes>): bytes {
    if pieces == [] then [] else WriteChunk(pieces[0]) + WriteBody(pieces[1..])
  }

  function WriteTrailers(trailers: seq<Field>): bytes {
    if trailers == [] then CRLF else FieldLine(trailers[0]) + CRLF + WriteTrailers(trailers[1..])
  }

  /** The last chunk and the trailer section. */
  function WriteEnd(trailers: seq<Field>): bytes {
    [48] + CRLF + WriteTrailers(trailers)
  }

  /** A field the writer lets through. */
  ghost predicate Writable(f: Field) {
    Token(f.0) && Stripped(f.1) && LegalValue(f.1)
  }

  /** A field the writer lets through and the decoder accepts. */
  ghost predicate ValidTrailer(f: Field) {
    Writable(f) && |f.1| <= MAX_TRAILER_VALUE
  }

  lemma StripStripped(b: bytes)
    requires Stripped(b)
    ensures Strip(b) == b
  {
  }

  lemma ParseHex(n: nat, max: nat)
    requires max == 0 || n <= max
    ensures ParseSize(Hex(n), max) == Ok(n)
  {
    var s := Hex(n);
    assert Before(s, SEMICOLON) == s;
    assert HexByte(s[0]) && HexByte(s[|s| - 1]);
    StripStripped(s);
    HexRoundTrip(n);
  }

  lemma LowerToken(name: bytes)
    requires Token(name)
    ensures Token(Lower(name)) && Stripped(name)
  {
    assert TokenByte(name[0]) && TokenByte(name[|name| - 1]);
    forall i | 0 <= i < |name| ensures TokenByte(Lower(name)[i]) {
      assert TokenByte(name[i]);
    }
  }

  lemma TokenHasNoColon(name: bytes)
    requires Token(name)
    ensures COLON !in name && !White(name[0])
  {
    assert forall i :: 0 <= i < |name| ==> TokenByte(name[i]);
  }

  /** The name and the value are cut apart again. */
  lemma CutTrailerLine(f: Field)
    requires Writable(f)
    ensures var line := FieldLine(f);
            && line != [] && line[0] == f.0[0] && COLON in line
            && Before(line, COLON) == f.0 && line[|f.0| + 1..] == [SPACE] + f.1
  {
    var line := FieldLine(f);
    TokenHasNoColon(f.0);
    assert line == f.0 + [COLON] + ([SPACE] + f.1);
    BeforeMark(f.0, COLON, [SPACE] + f.1);
    assert line[|f.0|] == COLON;
  }

  lemma StripSpaced(value: bytes)
    requires Stripped(value)
    ensures Strip([SPACE] + value) == value
  {
    assert ([SPACE] + value)[1..] == value;
    StripStripped(value);
  }

  lemma ParseTrailerLine(f: Field)
    requires Writable(f)
    ensures FieldLine(f) != []
    ensures ParseTrailer(FieldLine(f)) == if |f.1| <= MAX_TRAILER_VALUE then Ok((Lower(f.0), f.1)) else Err(400)
  {
    CutTrailerLine(f);
    TokenHasNoColon(f.0);
    LowerToken(f.0);
    StripStripped(f.0);
    StripSpaced(f.1);
  }

  lemma LineHasNoCrlf(f: Field)
    requires Writable(f)
    ensures FindCrlf(FieldLine(f)).None?
  {
    var line := FieldLine(f);
    forall i | 0 <= i < |line| ensures line[i] != LF {
      assert i < |f.0| ==> TokenByte(f.0[i]);
      assert i >= |f.0| + 2 ==> line[i] == f.1[i - |f.0| - 2];
    }
    NoCrlf(line);
  }

  lemma HexHasNoCrlf(n: nat)
    ensures FindCrlf(Hex(n)).None?
  {
    assert forall i :: 0 <= i < |Hex(n)| ==> HexByte(Hex(n)[i]);
    NoCrlf(Hex(n));
  }

  /** The decoder inside a chunk that the buffer holds to its end. */
  lemma FeedChunkData(d: Decoder, data: bytes, rest: bytes, max: nat)
    requires d.mode.Size? && d.remaining == 0 && data != []
    ensures var inData := d.(mode := Data, remaining := |data|);
            && Continues(Feed(inData, data + CRLF + rest, max), data, Feed(d, rest, max))
            && (ShortLines(d, rest, max) ==> ShortLines(inData, data + CRLF + rest, max))
  {
    var inData, afterData := d.(mode := Data, remaining := |data|), d.(mode := Data);
    var buffer := data + CRLF + rest;
    assert buffer[..|data|] == data && buffer[|data|..] == CRLF + rest;
    FeedTake(inData, buffer, max);
    assert (CRLF + rest)[..2] == CRLF && (CRLF + rest)[2..] == rest;
    FeedTake(afterData, CRLF + rest, max);
    assert afterData.(mode := Size) == d;
    ContinuesTrans(Feed(inData, buffer, max), data, Feed(afterData, CRLF + rest, max), [], Feed(d, rest, max));
    assert data + [] == data;
  }

  /** The decoder in front of one chunk on the wire and whatever follows it. */
  lemma FeedChunk(d: Decoder, data: bytes, rest: bytes, max: nat)
    requires d.mode.Size? && d.remaining == 0 && data != [] && (max == 0 || |data| <= max)
    ensures Continues(Feed(d, WriteChunk(data) + rest, max), data, Feed(d, rest, max))
    ensures ShortLines(d, rest, max) && |Hex(|data|)| < MAX_CHUNK_LINE ==> ShortLines(d, WriteChunk(data) + rest, max)
  {
    var size, after := Hex(|data|), data + CRLF + rest;
    assert WriteChunk(data) + rest == size + CRLF + after;
    HexHasNoCrlf(|data|);
    ParseHex(|data|, max);
    StepLine(d, size, after, max);
    FeedTake(d, size + CRLF + after, max);
    FeedChunkData(d, data, rest, max);
    var inData := d.(mode := Data, remaining := |data|);
    ContinuesTrans(Feed(d, size + CRLF + after, max), [], Feed(inData, after, max), data, Feed(d, rest, max));
    assert [] + data == data;
  }

  /** Feeding the written pieces comes down to feeding what follows them. */
  ghost predicate BodyFeeds(pieces: seq<bytes>, rest: bytes, max: nat) {
    && Continues(Feed(INITIAL, WriteBody(pieces) + rest, max), Flat(pieces), Feed(INITIAL, rest, max))
    && (ShortLines(INITIAL, rest, max) && (forall i :: 0 <= i < |pieces| ==> |Hex(|pieces[i]|)| < MAX_CHUNK_LINE)
        ==> ShortLines(INITIAL, WriteBody(pieces) + rest, max))
  }

  lemma NoPiecesFeed(rest: bytes, max: nat)
    ensures BodyFeeds([], rest, max)
  {
    hide Feed, ShortLines;
    var f := Feed(INITIAL, rest, max);
    assert WriteBody([]) + rest == rest;
    assert [] + Flat(f.chunks) == Flat(f.chunks);
    assert Continues(f, [], f);
  }

  lemma OneMorePieceFeeds(pieces: seq<bytes>, rest: bytes, max: nat)
    requires pieces != [] && (max == 0 || |pieces[0]| <= max) && BodyFeeds(pieces[1..], rest, max)
    ensures BodyFeeds(pieces, rest, max)
  {
    var after := WriteBody(pieces[1..]) + rest;
    ConcatAssoc(WriteChunk(pieces[0]), WriteBody(pieces[1..]), rest);
    assert forall i :: 0 <= i < |pieces[1..]| ==> pieces[1..][i] == pieces[i + 1];
    if pieces[0] == [] {
      assert [] + after == after && [] + Flat(pieces[1..]) == Flat(pieces[1..]);
    } else {
      FeedChunk(INITIAL, pieces[0], after, max);
      ContinuesTrans(Feed(INITIAL, WriteChunk(pieces[0]) + after, max), pieces[0], Feed(INITIAL, after, max),
                     Flat(pieces[1..]), Feed(INITIAL, rest, max));
    }
  }

  lemma {:induction false} FeedBody(pieces: seq<bytes>, rest: bytes, max: nat)
    requires max > 0 ==> forall i :: 0 <= i < |pieces| ==> |pieces[i]| <= max
    ensures BodyFeeds(pieces, rest, max)
  {
    if pieces == [] {
      NoPiecesFeed(rest, max);
    } else {
      FeedBody(pieces[1..], rest, max);
      OneMorePieceFeeds(pieces, rest, max);
    }
  }

  /** The decoder after one more trailer field: beyond the cap they are dropped. */
  function AfterTrailer(d: Decoder, f: Field): Decoder {
    if |d.trailers| < MAX_TRAILER_FIELDS then d.(trailers := d.trailers + [(Lower(f.0), f.1)]) else d
  }

  lemma FeedOneTrailer(d: Decoder, f: Field, after: bytes, max: nat)
    requires d.mode.Trailer? && ValidTrailer(f)
    ensures Step(d, FieldLine(f) + CRLF + after, max) == Take(AfterTrailer(d, f), |FieldLine(f)| + 2, [], false)
    ensures (FieldLine(f) + CRLF + after)[|FieldLine(f)| + 2..] == after
    ensures FindCrlf(FieldLine(f) + CRLF + after) == Some(|FieldLine(f)|)
  {
    LineHasNoCrlf(f);
    ParseTrailerLine(f);
    StepLine(d, FieldLine(f), after, max);
  }

  /** The trailers that a decoder keeps: as many as the cap allows. */
  function Capped(trailers: seq<Field>): (r: seq<Field>)
    ensures r <= trailers && |r| == if |trailers| < MAX_TRAILER_FIELDS then |trailers| else MAX_TRAILER_FIELDS
  {
    if |trailers| <= MAX_TRAILER_FIELDS then trailers else trailers[..MAX_TRAILER_FIELDS]
  }

  lemma CappedMore(kept: seq<Field>, f: Field, more: seq<Field>)
    requires |kept| <= MAX_TRAILER_FIELDS
    ensures Capped(kept + ([f] + more)) == Capped((if |kept| < MAX_TRAILER_FIELDS then kept + [f] else kept) + more)
  {
    ConcatAssoc(kept, [f], more);
    if |kept| == MAX_TRAILER_FIELDS {
      assert Capped(kept + ([f] + more)) == kept && Capped(kept + more) == kept;
    }
  }

  lemma {:induction false} FeedTrailers(d: Decoder, trailers: seq<Field>, rest: bytes, max: nat)
    requires d.mode.Trailer? && |d.trailers| <= MAX_TRAILER_FIELDS
    requires forall i :: 0 <= i < |trailers| ==> ValidTrailer(trailers[i])
    ensures Feed(d, WriteTrailers(trailers) + rest, max)
         == Fed(d.(done := true, trailers := Capped(d.trailers + LowerNames(trailers))), rest, [], None)
    decreases |trailers|
  {
    if trailers == [] {
      assert d.trailers + [] == d.trailers;
      FeedEmptyLine(d, rest, max);
    } else {
      var f, after := trailers[0], WriteTrailers(trailers[1..]) + rest;
      assert WriteTrailers(trailers) + rest == FieldLine(f) + CRLF + after;
      FeedOneTrailer(d, f, after, max);
      FeedTakeNothing(d, FieldLine(f) + CRLF + after, max);
      FeedTrailers(AfterTrailer(d, f), trailers[1..], rest, max);
      CappedMore(d.trailers, (Lower(f.0), f.1), LowerNames(trailers[1..]));
    }
  }

  lemma {:induction false} ShortTrailers(d: Decoder, trailers: seq<Field>, rest: bytes, max: nat)
    requires d.mode.Trailer?
    requires forall i :: 0 <= i < |trailers| ==> ValidTrailer(trailers[i]) && |FieldLine(trailers[i])| < MAX_CHUNK_LINE
    ensures ShortLines(d, WriteTrailers(trailers) + rest, max)
    decreases |trailers|
  {
    if trailers == [] {
      FeedEmptyLine(d, rest, max);
    } else {
      var f, after := trailers[0], WriteTrailers(trailers[1..]) + rest;
      assert WriteTrailers(trailers) + rest == FieldLine(f) + CRLF + after;
      FeedOneTrailer(d, f, after, max);
      ShortTrailers(AfterTrailer(d, f), trailers[1..], rest, max);
    }
  }

  lemma FeedEnd(trailers: seq<Field>, rest: bytes, max: nat)
    requires forall i :: 0 <= i < |trailers| ==> ValidTrailer(trailers[i])
    ensures Feed(INITIAL, WriteEnd(trailers) + rest, max) == Fed(Decoder(Trailer, 0, true, Capped(LowerNames(trailers))), rest, [], None)
    ensures (forall i :: 0 <= i < |trailers| ==> |FieldLine(trailers[i])| < MAX_CHUNK_LINE)
            ==> ShortLines(INITIAL, WriteEnd(trailers) + rest, max)
  {
    var after := WriteTrailers(trailers) + rest;
    assert WriteEnd(trailers) + rest == [48] + CRLF + after;
    assert Hex(0) == [48];
    HexHasNoCrlf(0);
    ParseHex(0, max);
    StepLine(INITIAL, [48], after, max);
    FeedTakeNothing(INITIAL, [48] + CRLF + after, max);
    FeedTrailers(INITIAL.(mode := Trailer), trailers, rest, max);
    if forall i :: 0 <= i < |trailers| ==> |FieldLine(trailers[i])| < MAX_CHUNK_LINE {
      ShortTrailers(INITIAL.(mode := Trailer), trailers, rest, max);
    }
    assert [] + LowerNames(trailers) == LowerNames(trailers);
  }

  /** Decoding what was written gives it back: for any pieces, empty ones included, any
      trailer section, of which as much is kept as the cap allows, and any bytes after
      the message. */
  lemma ChunkedRoundTrip(pieces: seq<bytes>, trailers: seq<Field>, rest: bytes, max: nat)
    requires max > 0 ==> forall i :: 0 <= i < |pieces| ==> |pieces[i]| <= max
    requires forall i :: 0 <= i < |trailers| ==> ValidTrailer(trailers[i])
    ensures var f := Feed(INITIAL, WriteBody(pieces) + (WriteEnd(trailers) + rest), max);
            && f.error.None? && f.next.done && f.rest == rest
            && Flat(f.chunks) == Flat(pieces) && f.next.trailers == Capped(LowerNames(trailers))
    ensures (forall i :: 0 <= i < |pieces| ==> |Hex(|pieces[i]|)| < MAX_CHUNK_LINE)
            && (forall i :: 0 <= i < |trailers| ==> |FieldLine(trailers[i])| < MAX_CHUNK_LINE)
            ==> ShortLines(INITIAL, WriteBody(pieces) + (WriteEnd(trailers) + rest), max)
  {
    var end := WriteEnd(trailers) + rest;
    FeedBody(pieces, end, max);
    FeedEnd(trailers, rest, max);
    assert Flat(pieces) + [] == Flat(pieces);
  }

  /** However the bytes are cut on the way. */
  lemma ChunkedRoundTripInPieces(pieces: seq<bytes>, trailers: seq<Field>, rest: bytes, max: nat, cut: seq<bytes>)
    requires max > 0 ==> forall i :: 0 <= i < |pieces| ==> |pieces[i]| <= max
    requires forall i :: 0 <= i < |trailers| ==> ValidTrailer(trailers[i])
    requires forall i :: 0 <= i < |pieces| ==> |Hex(|pieces[i]|)| < MAX_CHUNK_LINE
    requires forall i :: 0 <= i < |trailers| ==> |FieldLine(trailers[i])| < MAX_CHUNK_LINE
    requires cut != [] && Flat(cut) == WriteBody(pieces) + (WriteEnd(trailers) + rest)
    ensures var f := FeedPieces(INITIAL, [], cut, max);
            && f.error.None? && f.next.done && f.rest == rest
            && Flat(f.chunks) == Flat(pieces) && f.next.trailers == Capped(LowerNames(trailers))
  {
    ChunkedRoundTrip(pieces, trailers, rest, max);
    assert [] + Flat(cut) == Flat(cut);
    ShortLinesDecodeAlike(INITIAL, [], cut, max);
    JoinsWhole(FeedPieces(INITIAL, [], cut, max), Feed(INITIAL, Flat(cut), max));
  }

  lemma JoinsWhole(f: Fed, g: Fed)
    requires Joins([], f, g) && g.error.None?
    ensures f.error.None? && f.next == g.next && f.rest == g.rest && Flat(f.chunks) == Flat(g.chunks)
  {
    assert Flat([]) + Flat(f.chunks) == Flat(f.chunks);
  }
}
