/** The requests that keep a connection going, as a client prints them. */
module PrintedRequests {
  import opened Wrappers
  import opened Bytes
  import opened Head
  import opened Connection
  import opened KeptConnection
  import opened RequestText
  import opened ChunkedRoundTrip
  import Chunked

  /** A request that is printed line by line, with a body of the length it announces, is one
      that the connection goes on after: if and only if its head is acceptable and not too
      long, and does not ask for the connection to be closed. */
  lemma PrintedIsGood(cfg: Config, verb: bytes, target: bytes, http11: bool, fields: seq<Field>, body: bytes)
    requires Sendable(verb, target, fields)
    requires var h := LowerNames(fields);
             var lengths, max := Values(h, Length), cfg.maxRequestSize;
             if Codings(Values(h, Coding)) == [] then
               |body| == (if lengths != [] && Digits(lengths[0]) then Decimal(lengths[0]) else 0)
             else Readable(body, max) && (max > 0 ==> |Chunked.Payload(body)| <= max)
    ensures var text, h := PrintRequest(verb, target, http11, fields), LowerNames(fields);
            GoodRequest(cfg, text + body) <==>
            |text| <= cfg.maxHeaderSize && Acceptable(cfg, target, http11, h) && Reusable(target, http11, h)
  {
    hide PrintRequest, ParseHead, Values, Codings, Reusable, Readable, Chunked.Payload, AllTaken, SaysHost, Rehosted, Names, Sendable;
    var text := PrintRequest(verb, target, http11, fields);
    RequestRoundTrip(cfg, verb, target, http11, fields, body);
    assert (text + body)[|text|..] == body;
  }

  /** And a body that is written in chunks is read, if its lines are short and its content
      within the limit. */
  lemma WrittenIsReadable(pieces: seq<bytes>, trailers: seq<Field>, max: nat)
    requires max > 0 ==> |Flat(pieces)| <= max
    requires forall i :: 0 <= i < |trailers| ==> ValidTrailer(trailers[i]) && |FieldLine(trailers[i])| < Chunked.MAX_CHUNK_LINE
    requires forall i :: 0 <= i < |pieces| ==> |Hex(|pieces[i]|)| < Chunked.MAX_CHUNK_LINE
    ensures var body := WriteBody(pieces) + WriteEnd(trailers);
            Readable(body, max) && Chunked.Payload(body) == Flat(pieces)
  {
    hide Chunked.Feed, Chunked.ShortLines, WriteBody, WriteEnd;
    var body := WriteBody(pieces) + WriteEnd(trailers);
    assert WriteEnd(trailers) + [] == WriteEnd(trailers);
    forall i | 0 <= i < |pieces| ensures |pieces[i]| <= |Flat(pieces)| {
      PieceWithin(pieces, i);
    }
    ChunkedRoundTrip.ChunkedRoundTrip(pieces, trailers, [], max);
    ChunkedRoundTrip.ChunkedRoundTrip(pieces, trailers, [], 0);
  }

  lemma {:induction false} PieceWithin(pieces: seq<bytes>, i: nat)
    requires i < |pieces|
    ensures |pieces[i]| <= |Flat(pieces)|
  {
    if i > 0 {
      PieceWithin(pieces[1..], i - 1);
    }
  }
}
