/** The response writer as it runs: one message at a time, on its own variables. */
module ResponseWriting {
  import opened Wrappers
  import opened Bytes
  import opened Head
  import opened Response
  import opened ChunkedRoundTrip

  class ResponseWriter {
    var interim: bytes
    var head: Option<FinalHead>
    var octets: bytes
    var bodyBytes: nat
    var discardBody: bool
    var chunked: bool
    var declaredLength: Option<nat>
    var trailersExpected: bool
    var awaitingTrailers: bool
    var encoded: bool
    var given: seq<bytes>
    var keepAlive: bool
    var ended: bool
    var aborted: bool
    ghost var late: nat
    ghost var pieces: seq<bytes>
    ghost var trailers: seq<Field>

    ghost function State(): Writer
      reads this
    {
      Writer(interim, head, octets, bodyBytes, discardBody, chunked, declaredLength, trailersExpected, awaitingTrailers,
             encoded, given, keepAlive, ended, aborted, late, pieces, trailers)
    }

    /** Only one start settles the framing, and from then on the counter stays within a
        declared length. */
    ghost predicate Valid()
      reads this
    {
      && (head.None? ==> octets == [] && bodyBytes == 0 && declaredLength.None? && !chunked && !encoded)
      && (awaitingTrailers ==> chunked)
      && (declaredLength.Some? ==> !chunked && !encoded && bodyBytes <= declaredLength.value)
    }

    constructor (reuse: bool)
      ensures Valid() && State() == Begin(reuse)
    {
      interim, head, octets, bodyBytes := [], None, [], 0;
      discardBody, chunked, declaredLength := false, false, None;
      trailersExpected, awaitingTrailers := false, false;
      encoded, given := false, [];
      keepAlive, ended, aborted := reuse, false, false;
      late, pieces, trailers := 0, [], [];
    }

    /** Writes data framed as the head has announced it. */
    method WriteFramed(data: bytes)
      modifies this`octets, this`pieces
      ensures State() == WriteData(old(State()), data)
    {
      if data == [] {
        return;
      }
      if chunked {
        octets := octets + WriteChunk(data);
      } else {
        octets := octets + data;
      }
      pieces := pieces + [data];
    }

    /** An interim head goes out where the writer stands. */
    method WriteInterimHead(text: bytes)
      requires Valid()
      modifies this`interim, this`octets, this`late
      ensures Valid() && State() == WriteInterim(old(State()), text)
    {
      if head.None? {
        interim := interim + text;
      } else {
        octets := octets + text;
        late := late + |text|;
      }
    }

    method StartWithoutBody(m: Message, headers: seq<Field>)
      requires Valid() && m.Start? && head.None?
      modifies this`head, this`discardBody, this`ended
      ensures Valid() && State() == StartBodyless(old(State()), m, headers) && head.Some?
    {
      head := Some(FinalHead(m.status, headers));
      discardBody, ended := true, !m.moreBody;
    }

    method StartInChunks(m: Message, headers: seq<Field>, coded: bool)
      requires Valid() && m.Start? && head.None?
      modifies this`chunked, this`head, this`encoded, this`trailersExpected
      ensures Valid() && State() == StartChunked(old(State()), m, headers, coded) && head.Some?
    {
      hide Text;
      encoded, trailersExpected, chunked := coded, m.trailers, true;
      head := Some(FinalHead(m.status, headers + [(Text("transfer-encoding"), Text("chunked"))]));
    }

    method StartClosing(m: Message, headers: seq<Field>, coded: bool)
      requires Valid() && m.Start? && head.None?
      modifies this`keepAlive, this`head, this`encoded, this`trailersExpected
      ensures Valid() && State() == StartUntilClose(old(State()), m, headers, coded) && head.Some?
    {
      encoded, trailersExpected, keepAlive := coded, m.trailers, false;
      head := Some(FinalHead(m.status, headers));
    }

    method StartWithoutLength(ex: Exchange, m: Message, headers: seq<Field>, coded: bool)
      requires Valid() && m.Start? && head.None?
      modifies this`chunked, this`keepAlive, this`head, this`encoded, this`trailersExpected
      ensures Valid() && State() == StartUnsized(ex, old(State()), m, headers, coded) && head.Some?
    {
      hide StartChunked, StartUntilClose;
      if ex.http11 {
        StartInChunks(m, headers, coded);
      } else {
        StartClosing(m, headers, coded);
      }
    }

    method StartWithLength(m: Message, headers: seq<Field>, length: nat)
      requires Valid() && m.Start? && head.None?
      modifies this`head, this`trailersExpected, this`declaredLength
      ensures Valid() && State() == StartSized(old(State()), m, headers, length) && head.Some?
    {
      trailersExpected := m.trailers;
      declaredLength := Some(length);
      head := Some(FinalHead(m.status, headers));
    }

    method StartAnswer(ex: Exchange, m: Message)
      requires Valid() && m.Start? && head.None?
      modifies this
      ensures Valid() && State() == StartFinal(ex, old(State()), m) && head.Some?
    {
      var headers := Normalise(m.headers);
      var coding, length := ex.encoding(m.status, headers), First(headers, Length);
      if !ResponseHasBody(ex.verb, m.status) {
        StartWithoutBody(m, BodylessHeaders(ex.verb, m.status, headers));
      } else if coding.Some? {
        StartWithoutLength(ex, m, Without(headers, Length) + [(Text("content-encoding"), coding.value)], true);
      } else if length.None? {
        StartWithoutLength(ex, m, headers, encoded);
      } else {
        StartWithLength(m, headers, Decimal(length.value));
      }
    }

    method TakeStart(ex: Exchange, m: Message)
      requires Valid() && m.Start? && (m.status >= 200 ==> head.None?)
      modifies this
      ensures Valid() && State() == OnStart(ex, old(State()), m) && head.Some? == (old(head).Some? || m.status >= 200)
    {
      if m.status < 200 {
        WriteInterimHead(InterimText(ex, m));
      } else {
        StartAnswer(ex, m);
      }
    }

    /** Writes body data that counts. */
    method CountData(data: bytes)
      requires declaredLength.Some? ==> bodyBytes + |data| <= declaredLength.value
      requires Valid() && head.Some?
      modifies this`octets, this`pieces, this`bodyBytes
      ensures Valid() && State() == WriteCounted(old(State()), data)
    {
      bodyBytes := bodyBytes + |data|;
      WriteFramed(data);
    }

    method CompressPiece(ex: Exchange, data: bytes)
      requires Valid() && encoded
      modifies this`octets, this`pieces, this`given, this`bodyBytes
      ensures Valid() && State() == WriteCoded(ex, old(State()), data)
    {
      if data == [] {
        return;
      }
      CountData(ex.compress(given + [data]));
      given := given + [data];
    }

    method CompressData(ex: Exchange, data: bytes, more: bool)
      requires Valid() && encoded
      modifies this`octets, this`pieces, this`given, this`bodyBytes
      ensures Valid() && State() == Response.WriteEncoded(ex, old(State()), data, more)
    {
      CompressPiece(ex, data);
      if !more {
        WriteFramed(ex.flush(given));
      }
    }

    /** Plain data, cut at the declared length. */
    method CopyData(data: bytes)
      requires Valid() && head.Some? && !encoded
      modifies this`octets, this`pieces, this`keepAlive, this`bodyBytes
      ensures Valid() && State() == Response.WritePlain(old(State()), data)
    {
      if data == [] {
        return;
      }
      if !chunked && declaredLength.Some? && bodyBytes + |data| > declaredLength.value {
        var allowed := declaredLength.value - bodyBytes;
        keepAlive := false;
        if allowed > 0 {
          CountData(data[..allowed]);
        }
      } else {
        CountData(data);
      }
    }

    method FinishBody()
      requires Valid()
      modifies this`octets, this`awaitingTrailers, this`ended
      requires head.Some? && (declaredLength.Some? ==> !chunked)
      ensures Valid() && State() == EndBody(old(State()))
    {
      if chunked && trailersExpected {
        octets := octets + [48] + CRLF;
        awaitingTrailers := true;
      } else {
        octets := octets + if chunked then [48] + CRLF + CRLF else [];
        ended := true;
      }
    }

    method TakeBody(ex: Exchange, m: Message)
      requires Valid() && m.Body? && !ended
      modifies this
      ensures Valid() && State() == OnBody(ex, old(State()), m) && head == old(head)
    {
      hide WriteEncoded, WritePlain, EndBody;
      if head.None? {
      } else if discardBody {
        ended := !m.more;
      } else if !m.more && m.aborted {
        ended, aborted := true, true;
      } else {
        if encoded {
          CompressData(ex, m.data, m.more);
        } else {
          CopyData(m.data);
        }
        if !m.more {
          FinishBody();
        }
      }
    }

    method TakeTrailers(m: Message)
      requires Valid() && m.Trailers?
      modifies this
      ensures Valid() && State() == OnTrailers(old(State()), m) && head == old(head)
    {
      if !awaitingTrailers {
        ended := !m.moreTrailers;
      } else {
        var fields := Normalise(m.fields);
        var payload := TrailerText(fields);
        trailers := trailers + fields;
        octets := octets + payload + if m.moreTrailers then [] else CRLF;
        ended := !m.moreTrailers;
      }
    }

    method Take(ex: Exchange, m: Message)
      requires Valid() && !ended && (m.Start? && m.status >= 200 ==> head.None?)
      modifies this
      ensures Valid() && State() == Taken(ex, old(State()), m)
      ensures head.Some? == (old(head).Some? || (m.Start? && m.status >= 200))
    {
      match m {
        case Start(_, _, _, _) => TakeStart(ex, m);
        case Body(_, _, _) => TakeBody(ex, m);
        case Trailers(_, _) => TakeTrailers(m);
      }
    }

    /** What is left to do after the last message. */
    method Settle()
      requires Valid()
      modifies this
      ensures State() == Conclude(old(State()))
    {
      if aborted {
        keepAlive := false;
      }
      if declaredLength.Some? && bodyBytes != declaredLength.value {
        keepAlive := false;
      }
      if head.None? {
        head := Some(FinalHead(500, [(Text("content-type"), Text("text/plain; charset=utf-8")),
                                     (Text("content-length"), Text("21"))]));
        octets := Text("Internal Server Error");
        keepAlive := false;
      }
    }

    method WriteResponse(ex: Exchange, msgs: seq<Message>)
      requires Valid() && head.None? && !ended && StartsOnce(msgs, false)
      modifies this
      ensures State() == Conclude(Run(ex, old(State()), msgs))
    {
      var i := 0;
      ghost var before := State();
      assert msgs[0..] == msgs;
      while i < |msgs| && !ended
        decreases |msgs| - i
        invariant 0 <= i <= |msgs| && Valid() && StartsOnce(msgs[i..], head.Some?)
        invariant Run(ex, State(), msgs[i..]) == Run(ex, before, msgs)
      {
        assert msgs[i..][1..] == msgs[i + 1..];
        Take(ex, msgs[i]);
        i := i + 1;
      }
      Settle();
    }
  }
}
