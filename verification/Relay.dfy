/** The reverse proxy: an upstream answer re-framed as ASGI messages. */
module Relay {
  import opened Wrappers
  import opened Bytes
  import opened Response
  import opened Upstream
  import Chunked
  import Decoding
  import Head

  /** How the upstream delimits its body. */
  datatype Delimiter = Nothing | Length(n: nat) | Coding | UntilEof

  /** What the head of the upstream's answer comes to: the fields that are forwarded,
      and whether a trailer section is announced to a client that can take one. */
  datatype Answer = Answer(status: nat, headers: seq<Field>, delimiter: Delimiter, trailers: bool)

  const TRAILER_FORBIDDEN: set<bytes> :=
    {Head.Text("content-length"), Head.Text("transfer-encoding"), Head.Text("content-encoding"),
     Head.Text("content-range"), Head.Text("trailer")}

  function Forwarded(fields: seq<Field>): seq<Field> {
    if fields == [] then []
    else (if Lower(fields[0].0) in TRAILER_FORBIDDEN then [] else [fields[0]]) + Forwarded(fields[1..])
  }

  // ----- What the bytes after the head stand for ------------------------------------------

  /** As much of the body as these bytes hold. */
  function Decoded(delimiter: Delimiter, s: bytes): bytes {
    match delimiter
    case Nothing => []
    case Length(n) => if |s| < n then s else s[..n]
    case Coding => Flat(Chunked.Feed(Chunked.INITIAL, s, 0).chunks)
    case UntilEof => s
  }

  /** The upstream has completed its own framing. */
  predicate Completed(delimiter: Delimiter, s: bytes) {
    match delimiter
    case Nothing => true
    case Length(n) => |s| >= n
    case Coding => var f := Chunked.Feed(Chunked.INITIAL, s, 0); f.error.None? && f.next.done
    case UntilEof => true
  }

  /** And it meant to end there: a connection that is reset delimits no body. */
  predicate Intact(delimiter: Delimiter, s: bytes, reset: bool) {
    Completed(delimiter, s) && !(delimiter.UntilEof? && reset)
  }

  predicate WithinLimit(limit: nat, n: nat) {
    limit == 0 || n <= limit
  }

  function Pieces(bodies: seq<bytes>): (msgs: seq<Message>)
    ensures |msgs| == |bodies| && forall i :: 0 <= i < |bodies| ==> msgs[i] == Body(bodies[i], true, false)
  {
    if bodies == [] then [] else Pieces(bodies[..|bodies| - 1]) + [Body(bodies[|bodies| - 1], true, false)]
  }

  function StartOf(a: Answer): Message {
    Start(a.status, a.headers, a.trailers, true)
  }

  /** The end of a whole answer. */
  function EndOf(a: Answer, s: bytes): seq<Message> {
    [Body([], false, false)] +
    if a.trailers && a.delimiter.Coding? then [Trailers(Forwarded(Chunked.Feed(Chunked.INITIAL, s, 0).next.trailers), false)] else []
  }

  lemma FlatAppend(bodies: seq<bytes>, data: bytes)
    ensures Flat(bodies + [data]) == Flat(bodies) + data
  {
    FlatConcat(bodies, [data]);
    FlatOne(data);
  }

  // ----- Streaming the body ---------------------------------------------------------------

  /** Relays a body of known length: the pieces are a prefix of it, and all of it if and
      only if the upstream sends that much and the limit allows it. */
  method StreamLength(connection: UpstreamConnection, length: nat, limit: nat) returns (bodies: seq<bytes>, ok: bool)
    requires connection.Valid()
    modifies connection
    ensures connection.Valid()
    ensures Flat(bodies) <= Decoded(Length(length), old(connection.Stream()))
    ensures ok ==> Flat(bodies) == Decoded(Length(length), old(connection.Stream()))
    ensures ok ==> old(connection.Stream()) == Flat(bodies) + connection.Stream()
    ensures ok <==> |old(connection.Stream())| >= length && WithinLimit(limit, length)
  {
    ghost var all := connection.Stream();
    var remaining, sent := length, 0;
    bodies, ok := [], false;
    assert Flat([]) + all == all;
    while remaining > 0
      invariant 0 <= remaining <= length && sent == length - remaining == |Flat(bodies)|
      invariant connection.Valid() && all == Flat(bodies) + connection.Stream() && WithinLimit(limit, sent)
      decreases |connection.Stream()|
    {
      var data := connection.Read(if remaining < CHUNK_SIZE then remaining else CHUNK_SIZE);
      if data == [] {
        return;
      }
      remaining := remaining - |data|;
      sent := sent + |data|;
      if limit > 0 && sent > limit {
        return;
      }
      FlatAppend(bodies, data);
      ConcatAssoc(Flat(bodies), data, connection.Stream());
      bodies := bodies + [data];
    }
    ok := true;
  }

  /** Relays everything until the connection is lost, and takes a reset for the end. */
  method StreamUntilEof(connection: UpstreamConnection, limit: nat) returns (bodies: seq<bytes>, ok: bool)
    requires connection.Valid()
    modifies connection
    ensures connection.Valid()
    ensures Flat(bodies) <= old(connection.Stream())
    ensures ok ==> Flat(bodies) == old(connection.Stream())
    ensures ok <==> WithinLimit(limit, |old(connection.Stream())|)
  {
    ghost var all := connection.Stream();
    var sent := 0;
    bodies, ok := [], false;
    assert Flat([]) + all == all;
    while true
      invariant sent == |Flat(bodies)|
      invariant connection.Valid() && all == Flat(bodies) + connection.Stream() && WithinLimit(limit, sent)
      decreases |connection.Stream()|
    {
      var data := connection.Read(CHUNK_SIZE);
      if data == [] {
        return bodies, true;
      }
      sent := sent + |data|;
      if limit > 0 && sent > limit {
        return;
      }
      FlatAppend(bodies, data);
      ConcatAssoc(Flat(bodies), data, connection.Stream());
      bodies := bodies + [data];
    }
  }

  lemma OneMoreChunk(before: seq<bytes>, chunks: seq<bytes>, i: nat)
    requires i < |chunks|
    ensures var bodies, next := before + chunks[..i], before + chunks[..i + 1];
            && next == bodies + [chunks[i]] && Flat(next) == Flat(bodies) + chunks[i]
            && Flat(bodies) <= Flat(next) <= Flat(before + chunks)
  {
    var bodies, next := before + chunks[..i], before + chunks[..i + 1];
    assert next == bodies + [chunks[i]];
    FlatAppend(bodies, chunks[i]);
    FlatConcat(next, chunks[i + 1..]);
    assert next + chunks[i + 1..] == before + chunks;
  }

  /** Sends chunks until the limit is passed. */
  method SendChunks(before: seq<bytes>, chunks: seq<bytes>, limit: nat) returns (bodies: seq<bytes>, ok: bool)
    ensures Flat(before) <= Flat(bodies) <= Flat(before + chunks)
    ensures ok <==> WithinLimit(limit, |Flat(before + chunks)|) || chunks == []
    ensures ok ==> bodies == before + chunks
  {
    bodies, ok := before, true;
    var sent := |Flat(before)|;
    assert before + chunks[..0] == before;
    for i := 0 to |chunks|
      invariant bodies == before + chunks[..i] && sent == |Flat(bodies)| && Flat(before) <= Flat(bodies)
      invariant i > 0 ==> WithinLimit(limit, sent)
    {
      OneMoreChunk(before, chunks, i);
      sent := sent + |chunks[i]|;
      if limit > 0 && sent > limit {
        return bodies, false;
      }
      bodies := bodies + [chunks[i]];
    }
    assert chunks[..|chunks|] == chunks;
  }

  /** The decoder has eaten `eaten`, the pieces are what that decodes to, and `pending`
      has been read since. */
  ghost predicate Streaming(d: Chunked.Decoder, buffer: bytes, bodies: seq<bytes>, eaten: bytes, pending: bytes) {
    var f := Chunked.Feed(Chunked.INITIAL, eaten, 0);
    f.error.None? && f.next == d && buffer == f.rest + pending && Flat(bodies) == Flat(f.chunks) && (d.done ==> pending == [])
  }

  /** What may have stopped a chunked body, when its lines are short: the upstream broke
      off or broke the framing, or there is more than the limit allows. */
  ghost predicate Excused(s: bytes, limit: nat) {
    Chunked.ShortLines(Chunked.INITIAL, s, 0) ==> !Completed(Coding, s) || !WithinLimit(limit, |Decoded(Coding, s)|)
  }

  ghost predicate BeginsBody(s: bytes, bodies: seq<bytes>) {
    Flat(bodies) <= Decoded(Coding, s)
  }

  /** The pieces are the whole of a complete body. */
  ghost predicate IsBody(s: bytes, bodies: seq<bytes>, trailers: seq<Field>) {
    && Completed(Coding, s) && Flat(bodies) == Decoded(Coding, s)
    && trailers == Chunked.Feed(Chunked.INITIAL, s, 0).next.trailers
  }

  lemma FeedRefused(d: Chunked.Decoder, buffer: bytes, bodies: seq<bytes>, eaten: bytes, pending: bytes, rest: bytes, limit: nat)
    requires Streaming(d, buffer, bodies, eaten, pending) && !d.done && Chunked.Feed(d, buffer, 0).error.Some?
    ensures Excused(eaten + pending + rest, limit)
  {
    Chunked.FeedTwice(Chunked.INITIAL, eaten, pending, 0);
    if Chunked.ShortLines(Chunked.INITIAL, eaten + pending + rest, 0) {
      Chunked.FeedPrefix(Chunked.INITIAL, eaten + pending, rest, 0);
    }
  }

  /** The pieces begin the body, so that a limit they pass is passed by the body. */
  lemma StreamingBegins(d: Chunked.Decoder, buffer: bytes, bodies: seq<bytes>, eaten: bytes, pending: bytes, rest: bytes, limit: nat)
    requires Streaming(d, buffer, bodies, eaten, pending)
    ensures BeginsBody(eaten + pending + rest, bodies)
    ensures !WithinLimit(limit, |Flat(bodies)|) ==> Excused(eaten + pending + rest, limit)
  {
    Chunked.FeedGrows(Chunked.INITIAL, eaten, pending + rest, 0);
    ConcatAssoc(eaten, pending, rest);
  }

  lemma FeedTaken(d: Chunked.Decoder, buffer: bytes, bodies: seq<bytes>, eaten: bytes, pending: bytes)
    requires Streaming(d, buffer, bodies, eaten, pending) && !d.done && Chunked.Feed(d, buffer, 0).error.None?
    ensures var f := Chunked.Feed(d, buffer, 0); Streaming(f.next, f.rest, bodies + f.chunks, eaten + pending, [])
  {
    var f := Chunked.Feed(d, buffer, 0);
    Chunked.FeedTwice(Chunked.INITIAL, eaten, pending, 0);
    FlatConcat(bodies, f.chunks);
    assert f.rest + [] == f.rest;
  }

  lemma StreamingEnds(d: Chunked.Decoder, buffer: bytes, bodies: seq<bytes>, eaten: bytes, rest: bytes)
    requires Streaming(d, buffer, bodies, eaten, []) && d.done
    ensures IsBody(eaten + rest, bodies, d.trailers)
  {
    Chunked.FeedTwice(Chunked.INITIAL, eaten, rest, 0);
  }

  /** `all` is what was eaten, what is pending and what can still be read. */
  ghost predicate Splits(all: bytes, eaten: bytes, pending: bytes, rest: bytes) {
    all == eaten + pending + rest
  }

  lemma SplitsOn(all: bytes, eaten: bytes, pending: bytes, rest: bytes)
    requires Splits(all, eaten, pending, rest)
    ensures Splits(all, eaten + pending, [], rest) && (rest == [] && pending == [] ==> eaten == all)
  {
    assert eaten + pending + [] == eaten + pending && eaten + [] + [] == eaten;
  }

  lemma SplitsRead(all: bytes, eaten: bytes, data: bytes, rest: bytes)
    requires Splits(all, eaten, [], data + rest)
    ensures Splits(all, eaten, data, rest)
  {
    assert eaten + [] == eaten;
    ConcatAssoc(eaten, data, rest);
  }

  /** Feeds what is buffered and sends the chunks on. */
  method FeedOnce(decoder: Decoding.ChunkedDecoder, buffer: Buffer, before: seq<bytes>, limit: nat,
                  ghost all: bytes, ghost eaten: bytes, ghost pending: bytes, ghost rest: bytes)
    returns (bodies: seq<bytes>, ok: bool)
    requires Streaming(decoder.State(), buffer.data, before, eaten, pending) && !decoder.done
    requires WithinLimit(limit, |Flat(before)|) && Splits(all, eaten, pending, rest)
    modifies decoder, buffer
    ensures BeginsBody(all, bodies)
    ensures ok ==> Streaming(decoder.State(), buffer.data, bodies, eaten + pending, []) && WithinLimit(limit, |Flat(bodies)|)
    ensures !ok ==> Excused(all, limit)
    ensures |buffer.data| <= |old(buffer.data)| && (ok && decoder.done ==> |buffer.data| < |old(buffer.data)|)
  {
    ghost var d, data := decoder.State(), buffer.data;
    Chunked.DoneTakesBytes(d, data, 0);
    StreamingBegins(d, data, before, eaten, pending, rest, limit);
    var chunks, error := decoder.Feed(buffer, 0);
    if error.Some? {
      FeedRefused(d, data, before, eaten, pending, rest, limit);
      return before, false;
    }
    FeedTaken(d, data, before, eaten, pending);
    SplitsOn(all, eaten, pending, rest);
    StreamingBegins(decoder.State(), buffer.data, before + chunks, eaten + pending, [], rest, limit);
    bodies, ok := SendChunks(before, chunks, limit);
    assert before + [] == before;
  }

  /** Reads more behind what is buffered, unless the upstream has closed. */
  method ReadOn(connection: UpstreamConnection, buffer: Buffer, ghost d: Chunked.Decoder, ghost bodies: seq<bytes>,
                ghost all: bytes, ghost eaten: bytes, limit: nat)
    returns (ok: bool, ghost pending: bytes)
    requires Streaming(d, buffer.data, bodies, eaten, []) && !d.done && Splits(all, eaten, [], connection.Stream())
    requires connection.Valid()
    modifies connection, buffer
    ensures connection.Valid()
    ensures !ok ==> Excused(all, limit)
    ensures ok ==> Streaming(d, buffer.data, bodies, eaten, pending) && Splits(all, eaten, pending, connection.Stream())
    ensures ok ==> buffer.data != [] && |connection.Stream()| < |old(connection.Stream())|
  {
    pending := connection.Stream();
    SplitsOn(all, eaten, [], connection.Stream());
    var data := connection.Read(CHUNK_SIZE);
    if data == [] {
      Starved(d, buffer.data, bodies, eaten, limit);
      return false, [];
    }
    SplitsRead(all, eaten, data, connection.Stream());
    ReadMore(d, buffer.data, bodies, eaten, data);
    buffer.data := buffer.data + data;
    return true, data;
  }

  lemma AtStart(s: bytes)
    ensures Streaming(Chunked.INITIAL, [], [], [], []) && BeginsBody(s, [])
  {
    assert Chunked.Feed(Chunked.INITIAL, [], 0) == Chunked.Fed(Chunked.INITIAL, [], [], None);
  }

  lemma Starved(d: Chunked.Decoder, buffer: bytes, bodies: seq<bytes>, eaten: bytes, limit: nat)
    requires Streaming(d, buffer, bodies, eaten, []) && !d.done
    ensures Excused(eaten, limit)
  {
  }

  /** Relays a chunked body: the pieces are always a prefix of what the upstream's bytes
      decode to; if the method succeeds its framing was complete and they are all of it.
      With short lines, the method fails only when the upstream's framing is broken or
      unfinished, or the limit is passed.  The loop goes round again only after bytes
      were consumed or read. */
  method StreamChunked(connection: UpstreamConnection, limit: nat)
    returns (bodies: seq<bytes>, trailers: seq<Field>, ok: bool)
    requires connection.Valid()
    modifies connection
    ensures connection.Valid()
    ensures BeginsBody(old(connection.Stream()), bodies)
    ensures ok ==> IsBody(old(connection.Stream()), bodies, trailers) && WithinLimit(limit, |Flat(bodies)|)
    ensures !ok ==> Excused(old(connection.Stream()), limit)
  {
    hide Streaming, BeginsBody, IsBody, Excused;
    ghost var all := connection.Stream();
    var decoder := new Decoding.ChunkedDecoder();
    var buffer := new Buffer([]);
    ghost var eaten, pending: bytes := [], [];
    bodies, trailers, ok := [], [], false;
    assert [] + [] + all == all;
    AtStart(all);
    while !decoder.done
      invariant fresh(decoder) && fresh(buffer) && connection.Valid()
      invariant Streaming(decoder.State(), buffer.data, bodies, eaten, pending) && Splits(all, eaten, pending, connection.Stream())
      invariant BeginsBody(all, bodies) && WithinLimit(limit, |Flat(bodies)|)
      invariant buffer.data == [] || decoder.done ==> pending == []
      decreases |connection.Stream()|, |buffer.data|
    {
      if buffer.data != [] {
        var before := |buffer.data|;
        bodies, ok := FeedOnce(decoder, buffer, bodies, limit, all, eaten, pending, connection.Stream());
        if !ok {
          return;
        }
        SplitsOn(all, eaten, pending, connection.Stream());
        eaten, pending := eaten + pending, [];
        if |buffer.data| < before {
          continue;
        }
      }
      ok, pending := ReadOn(connection, buffer, decoder.State(), bodies, all, eaten, limit);
      if !ok {
        return;
      }
    }
    StreamingEnds(decoder.State(), buffer.data, bodies, eaten, connection.Stream());
    SplitsOn(all, eaten, [], connection.Stream());
    assert eaten + [] == eaten;
    trailers, ok := decoder.trailers, true;
  }

  lemma ReadMore(d: Chunked.Decoder, buffer: bytes, bodies: seq<bytes>, eaten: bytes, data: bytes)
    requires Streaming(d, buffer, bodies, eaten, []) && !d.done
    ensures Streaming(d, buffer + data, bodies, eaten, data)
  {
    var f := Chunked.Feed(Chunked.INITIAL, eaten, 0);
    assert f.rest + [] == f.rest;
  }
}
