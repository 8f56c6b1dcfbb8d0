/** What of an application's start goes out in the head of the answer, and when the
    connection is kept after it. */
module WrittenHead {
  import opened Wrappers
  import opened Bytes
  import opened Head
  import opened Response
  import opened ResponseFraming
  import opened Selection
  import opened ChunkedRoundTrip
  import Chunked

  // ----- The fields an application may set -------------------------------------------------

  /** The field may be set: its name is a token and not one of this hop, its value is
      legal, and a length consists of digits. */
  predicate MaySet(f: Field) {
    var name, value := Strip(f.0), Strip(f.1);
    && Token(name) && Lower(name) !in FORBIDDEN && LegalValue(value)
    && (Lower(name) == Text("content-length") ==> Digits(value))
  }

  function Trimmed(fields: seq<Field>): (r: seq<Field>)
    ensures |r| == |fields|
  {
    seq(|fields|, i requires 0 <= i < |fields| => (Strip(fields[i].0), Strip(fields[i].1)))
  }

  lemma CleanIffMaySet(f: Field)
    ensures Clean(f) == if MaySet(f) then Some((Strip(f.0), Strip(f.1))) else None
  {
  }

  lemma {:induction false} NormaliseFilters(headers: seq<Field>)
    ensures Normalise(headers) == Trimmed(Filtered(headers, MaySet))
  {
    hide MaySet, Clean, Trimmed;
    if headers != [] {
      var rest := headers[1..];
      NormaliseFilters(rest);
      CleanIffMaySet(headers[0]);
      assert headers == [headers[0]] + rest;
      FilteredConcat([headers[0]], rest, MaySet);
      FilteredOne(headers[0], MaySet);
      TrimmedConcat(Filtered([headers[0]], MaySet), Filtered(rest, MaySet));
      TrimmedOne(headers[0]);
    } else {
      assert Trimmed([]) == [];
    }
  }

  lemma TrimmedOne(f: Field)
    ensures Trimmed([f]) == [(Strip(f.0), Strip(f.1))] && Trimmed([]) == []
  {
  }

  lemma TrimmedConcat(a: seq<Field>, b: seq<Field>)
    ensures Trimmed(a + b) == Trimmed(a) + Trimmed(b)
  {
  }

  /** Every field that an application may set goes out, in order and trimmed, and no
      other does. */
  lemma NormaliseKeepsFields(headers: seq<Field>) returns (kept: seq<Field>)
    ensures Selects(headers, kept, MaySet) && Normalise(headers) == Trimmed(kept)
  {
    kept := Filtered(headers, MaySet);
    FilteredSelects(headers, MaySet);
    NormaliseFilters(headers);
  }

  // ----- The head that goes out --------------------------------------------------------------

  /** An answer that ends with its head, whatever its fields say: section 6.3 of RFC 9112. */
  predicate EndsWithHead(verb: bytes, status: nat) {
    verb == Text("HEAD") || status / 100 == 1 || status in {204, 304}
  }

  /** Whether a length the application gave is repeated: of a body that is sent as it is,
      and of one that is not sent but would have been. */
  predicate RepeatsLength(ex: Exchange, m: Message)
    requires m.Start?
  {
    if EndsWithHead(ex.verb, m.status) then ex.verb == Text("HEAD") || m.status == 304
    else ex.encoding(m.status, Normalise(m.headers)).None?
  }

  /** The fields that the server adds: the coding of the content, and of the transfer of a
      body of unknown length. */
  function Added(ex: Exchange, m: Message): seq<Field>
    requires m.Start?
  {
    var coding := ex.encoding(m.status, Normalise(m.headers));
    if EndsWithHead(ex.verb, m.status) then []
    else
      (if coding.Some? then [(Text("content-encoding"), coding.value)] else [])
      + (if ex.http11 && (coding.Some? || First(Normalise(m.headers), Length).None?)
         then [(Text("transfer-encoding"), Text("chunked"))] else [])
  }

  /** The head carries the status, and the fields that may be set and are true of what
      follows, in order, and then what the server adds. */
  ghost predicate Carries(ex: Exchange, m: Message, head: FinalHead)
    requires m.Start?
  {
    && head.status == m.status
    && exists kept :: Selects(Normalise(m.headers), kept, f => RepeatsLength(ex, m) || !IsKind(f, Length))
                      && head.headers == kept + Added(ex, m)
  }

  lemma {:induction false} WithoutFilters(headers: seq<Field>, kind: Special)
    ensures Without(headers, kind) == Filtered(headers, f => !IsKind(f, kind))
  {
    var keep := f => !IsKind(f, kind);
    if headers != [] {
      WithoutFilters(headers[1..], kind);
      assert headers == [headers[0]] + headers[1..];
      FilteredConcat([headers[0]], headers[1..], keep);
      FilteredOne(headers[0], keep);
    }
  }

  lemma {:induction false} FilteredAll(headers: seq<Field>, keep: Field -> bool)
    requires forall f :: f in headers ==> keep(f)
    ensures Filtered(headers, keep) == headers
  {
    if headers != [] {
      FilteredAll(headers[..|headers| - 1], keep);
      assert headers == headers[..|headers| - 1] + [headers[|headers| - 1]];
    }
  }

  lemma {:induction false} FilteredAlike(headers: seq<Field>, keep: Field -> bool, same: Field -> bool)
    requires forall f :: keep(f) == same(f)
    ensures Filtered(headers, keep) == Filtered(headers, same)
  {
    if headers != [] {
      FilteredAlike(headers[..|headers| - 1], keep, same);
    }
  }

  /** The fields of the start that are repeated. */
  lemma Repeated(ex: Exchange, m: Message, kept: seq<Field>)
    requires m.Start?
    requires kept == if RepeatsLength(ex, m) then Normalise(m.headers) else Without(Normalise(m.headers), Length)
    ensures Selects(Normalise(m.headers), kept, f => RepeatsLength(ex, m) || !IsKind(f, Length))
  {
    hide Normalise, RepeatsLength, IsKind;
    var h := Normalise(m.headers);
    var keep := f => RepeatsLength(ex, m) || !IsKind(f, Length);
    FilteredSelects(h, keep);
    if RepeatsLength(ex, m) {
      FilteredAll(h, keep);
    } else {
      WithoutFilters(h, Length);
      FilteredAlike(h, keep, f => !IsKind(f, Length));
    }
  }

  lemma BodylessFields(ex: Exchange, w: Writer, m: Message)
    requires m.Start? && EndsWithHead(ex.verb, m.status)
    ensures var h := Normalise(m.headers);
            var v := StartBodyless(w, m, BodylessHeaders(ex.verb, m.status, h));
            v.head == Some(FinalHead(m.status, (if RepeatsLength(ex, m) then h else Without(h, Length)) + Added(ex, m)))
  {
    hide Normalise, Without, Text;
    var h := Normalise(m.headers);
    assert h + [] == h && Without(h, Length) + [] == Without(h, Length);
  }

  lemma UnsizedFields(ex: Exchange, w: Writer, m: Message, h: seq<Field>, encoded: bool)
    requires m.Start?
    ensures var coding := if ex.http11 then [(Text("transfer-encoding"), Text("chunked"))] else [];
            StartUnsized(ex, w, m, h, encoded).head == Some(FinalHead(m.status, h + coding))
  {
    hide Text;
    assert h + [] == h;
    if ex.http11 {
    } else {
    }
  }

  lemma BodyFields(ex: Exchange, w: Writer, m: Message)
    requires m.Start? && m.status >= 200 && !EndsWithHead(ex.verb, m.status) && !w.encoded
    ensures var h := Normalise(m.headers);
            OnStart(ex, w, m).head
            == Some(FinalHead(m.status, (if RepeatsLength(ex, m) then h else Without(h, Length)) + Added(ex, m)))
  {
    hide Normalise, Without, First, StartUnsized, Text;
    var h := Normalise(m.headers);
    var coding := ex.encoding(m.status, h);
    var chunked := if ex.http11 then [(Text("transfer-encoding"), Text("chunked"))] else [];
    if coding.Some? {
      var content := [(Text("content-encoding"), coding.value)];
      UnsizedFields(ex, w, m, Without(h, Length) + content, true);
      ConcatAssoc(Without(h, Length), content, chunked);
    } else if First(h, Length).None? {
      UnsizedFields(ex, w, m, h, w.encoded);
      assert [] + chunked == chunked;
    } else {
      assert h + ([] + []) == h;
    }
  }

  lemma StartGivesHead(ex: Exchange, w: Writer, m: Message)
    requires m.Start? && m.status >= 200 && !w.encoded
    ensures var h := Normalise(m.headers);
            OnStart(ex, w, m).head
            == Some(FinalHead(m.status, (if RepeatsLength(ex, m) then h else Without(h, Length)) + Added(ex, m)))
  {
    if EndsWithHead(ex.verb, m.status) {
      BodylessFields(ex, w, m);
      hide Normalise, Without, First, Text, RepeatsLength, Added, StartBodyless;
      assert OnStart(ex, w, m) == StartBodyless(w, m, BodylessHeaders(ex.verb, m.status, Normalise(m.headers)));
    } else {
      BodyFields(ex, w, m);
    }
  }

  /** The head of a start. */
  lemma StartCarries(ex: Exchange, w: Writer, m: Message)
    requires m.Start? && m.status >= 200 && !w.encoded
    ensures var v := OnStart(ex, w, m); v.head.Some? && Carries(ex, m, v.head.value)
  {
    hide Normalise, Selects, Without, OnStart, RepeatsLength, Added;
    StartGivesHead(ex, w, m);
    var h := Normalise(m.headers);
    Repeated(ex, m, if RepeatsLength(ex, m) then h else Without(h, Length));
  }

  /** Whatever is sent, and wherever it stops: a head that goes out is that of the start. */
  lemma {:induction false} HeadGoesOut(ex: Exchange, w: Writer, msgs: seq<Message>)
    requires w.head.None? && !w.encoded && StartsOnce(msgs, false)
    ensures var r := Run(ex, w, msgs);
            r.head.Some? ==> FinalStart(msgs).Some? && Carries(ex, FinalStart(msgs).value, r.head.value)
    decreases |msgs|
  {
    hide OnStart, Carries;
    if msgs != [] && !w.ended {
      var m := msgs[0];
      var v := Taken(ex, w, m);
      if m.Start? && m.status >= 200 {
        StartCarries(ex, w, m);
        StartKeeps(ex, w, m);
        RunKeepsHead(ex, v, msgs[1..]);
      } else {
        if m.Start? {
          InterimKeepsHead(ex, w, m);
        }
        HeadGoesOut(ex, v, msgs[1..]);
      }
    }
  }

  // ----- An answer that ends with its head ---------------------------------------------------

  lemma {:induction false} FilteredHas(headers: seq<Field>, keep: Field -> bool, f: Field)
    requires f in Filtered(headers, keep)
    ensures f in headers && keep(f)
  {
    var front, last := headers[..|headers| - 1], headers[|headers| - 1];
    if f in Filtered(front, keep) {
      FilteredHas(front, keep, f);
    }
  }

  /** No octet follows such a head, unless it is of an interim head that came late; it
      announces no coding, and no length that would not be true: what is sent with a status
      of 1xx or 204 has none. */
  lemma NothingFollowsTheHead(ex: Exchange, keepAlive: bool, msgs: seq<Message>)
    requires StartsOnce(msgs, false)
    ensures var w := Run(ex, Begin(keepAlive), msgs);
            w.head.Some? && EndsWithHead(ex.verb, w.head.value.status) ==>
              && |w.octets| == w.late && (InOrder(ex, msgs) ==> w.octets == [])
              && First(w.head.value.headers, Coding).None?
              && (ex.verb != Text("HEAD") && w.head.value.status != 304 ==> First(w.head.value.headers, Length).None?)
  {
    var w := Run(ex, Begin(keepAlive), msgs);
    if w.head.Some? && EndsWithHead(ex.verb, w.head.value.status) {
      NeverMoreThanDeclared(ex, keepAlive, msgs);
      HeadGoesOut(ex, Begin(keepAlive), msgs);
      AnswerOk(ex, keepAlive, msgs);
      EndedIsNotChunked(ex, keepAlive, msgs);
      BodylessSaysNothing(ex, FinalStart(msgs).value, w.head.value);
    }
  }

  lemma EndedIsNotChunked(ex: Exchange, keepAlive: bool, msgs: seq<Message>)
    requires StartsOnce(msgs, false)
    requires var w := Run(ex, Begin(keepAlive), msgs); w.head.Some? && EndsWithHead(ex.verb, w.head.value.status)
    ensures !Run(ex, Begin(keepAlive), msgs).chunked
  {
    hide Orderly, ContentOf, ContentFor, BodyOf, Chunked.Feed, Normalise;
    AnswerOk(ex, keepAlive, msgs);
  }

  lemma BodylessSaysNothing(ex: Exchange, m: Message, head: FinalHead)
    requires m.Start? && Carries(ex, m, head) && EndsWithHead(ex.verb, head.status)
    ensures First(head.headers, Coding).None?
    ensures ex.verb != Text("HEAD") && head.status != 304 ==> First(head.headers, Length).None?
  {
    var h := Normalise(m.headers);
    forall f | f in head.headers
      ensures f in h && (ex.verb != Text("HEAD") && head.status != 304 ==> !IsKind(f, Length))
    {
      SelectedIs(h, head.headers, f => RepeatsLength(ex, m) || !IsKind(f, Length), f, Added(ex, m));
    }
    forall f | f in h ensures !IsKind(f, Coding) {
      var i :| 0 <= i < |h| && h[i] == f;
    }
  }

  /** A field of the head is one of the start, and one that is repeated. */
  lemma SelectedIs(h: seq<Field>, headers: seq<Field>, keep: Field -> bool, f: Field, added: seq<Field>)
    requires exists kept :: Selects(h, kept, keep) && headers == kept + added
    requires added == [] && f in headers
    ensures f in h && keep(f)
  {
    var kept :| Selects(h, kept, keep) && headers == kept + added;
    var at: seq<nat> :| Increasing(at) && Sound(h, at, keep) && Exhaustive(h, at, keep) && PickedAt(h, at, kept);
    var i :| 0 <= i < |kept| && kept[i] == f;
  }

  // ----- When the connection is kept ---------------------------------------------------------

  /** The writer, with `rest` to come of messages whose body is `total` long: it keeps what
      it was told about the connection, unless the body is longer than its length or
      delimited by the close. */
  ghost predicate Reckoned(w: Writer, rest: seq<Message>, keep: bool, total: nat) {
    && (w.declared.Some? ==>
          && !w.discard && !w.chunked && !w.encoded && w.bodyBytes <= w.declared.value
          && if w.bodyBytes + |BodyOf(rest, true)| == total then w.keepAlive == keep
             else !w.keepAlive && w.bodyBytes == w.declared.value && w.bodyBytes + |BodyOf(rest, true)| < total)
    && (w.discard || w.chunked ==> w.keepAlive == keep)
    && (w.declared.None? && !w.discard && !w.chunked ==> !w.keepAlive)
  }

  /** Data that is sent as it is. */
  lemma PlainReckons(w: Writer, data: bytes)
    requires w.declared.Some? && w.bodyBytes <= w.declared.value
    ensures var v, n := WritePlain(w, data), w.declared.value;
            if w.bodyBytes + |data| <= n then v.bodyBytes == w.bodyBytes + |data| && v.keepAlive == w.keepAlive
            else v.bodyBytes == n && !v.keepAlive
  {
    hide WriteData;
    DataStaysAlive(w, data);
  }

  lemma DataStaysAlive(w: Writer, data: bytes)
    ensures WriteData(w, data).keepAlive == w.keepAlive
  {
    hide WriteChunk;
  }

  /** What a message leaves of what the writer was told, and what it adds to the count. */
  ghost predicate Passes(v: Writer, w: Writer) {
    SameHead(v, w) && v.chunked == w.chunked && v.keepAlive == w.keepAlive && v.bodyBytes == w.bodyBytes
  }

  lemma OthersPass(ex: Exchange, w: Writer, m: Message)
    requires w.head.Some? && (m.Start? ==> m.status < 200)
    requires m.Body? ==> w.discard || (!m.more && m.aborted)
    ensures Passes(Taken(ex, w, m), w)
  {
    hide InterimText, TrailerText, Normalise, StartFinal, WriteEncoded, WritePlain;
    match m
    case Start(_, _, _, _) =>
    case Body(_, _, _) =>
    case Trailers(_, _) =>
  }

  /** Data in the chunked coding, or encoded, changes nothing of what is kept. */
  lemma ChunkedPasses(ex: Exchange, w: Writer, m: Message)
    requires w.head.Some? && m.Body? && w.declared.None? && !w.discard && !(!m.more && m.aborted)
    ensures var v := Taken(ex, w, m); SameHead(v, w) && v.chunked == w.chunked && v.keepAlive == w.keepAlive
  {
    BodyKeepsHead(ex, w, m);
    WrittenKeeps(ex, w, m);
    StaysAlive(ex, w, m);
    hide WriteEncoded, WritePlain;
  }

  lemma StaysAlive(ex: Exchange, w: Writer, m: Message)
    requires m.Body? && w.declared.None?
    ensures Written(ex, w, m).keepAlive == w.keepAlive
  {
    hide WriteChunk;
    if w.encoded {
      assert WriteCoded(ex, w, m.data).keepAlive == w.keepAlive;
    }
  }

  lemma BodyReckons(ex: Exchange, w: Writer, msgs: seq<Message>, keep: bool, total: nat)
    requires w.head.Some? && !w.ended && msgs != [] && msgs[0].Body? && w.declared.Some?
    requires Reckoned(w, msgs, keep, total) && !(!msgs[0].more && msgs[0].aborted)
    ensures var v := Taken(ex, w, msgs[0]);
            SameHead(v, w) && Reckoned(v, if v.ended then [] else msgs[1..], keep, total)
  {
    var m := msgs[0];
    PlainReckons(w, m.data);
    PlainKeeps(w, m.data);
    hide WritePlain;
    var v := Taken(ex, w, m);
    assert m.more ==> v == WritePlain(w, m.data);
    assert !m.more ==> v == EndBody(WritePlain(w, m.data));
  }

  lemma {:induction false} RunReckons(ex: Exchange, w: Writer, msgs: seq<Message>, keep: bool, total: nat)
    requires w.head.Some? && StartsOnce(msgs, true) && (w.ended ==> msgs == []) && Reckoned(w, msgs, keep, total)
    ensures var r := Run(ex, w, msgs);
            SameHead(r, w) && (r.ended && !r.aborted ==> Reckoned(r, [], keep, total))
    decreases |msgs|
  {
    hide Taken;
    if msgs != [] {
      var m := msgs[0];
      var v := Taken(ex, w, m);
      StepReckons(ex, w, msgs, keep, total);
      if v.ended {
        assert Run(ex, v, msgs[1..]) == v;
      } else {
        RunReckons(ex, v, msgs[1..], keep, total);
      }
    }
  }

  lemma StepReckons(ex: Exchange, w: Writer, msgs: seq<Message>, keep: bool, total: nat)
    requires w.head.Some? && !w.ended && msgs != [] && StartsOnce(msgs, true) && Reckoned(w, msgs, keep, total)
    ensures var v := Taken(ex, w, msgs[0]);
            && SameHead(v, w)
            && (v.ended && !v.aborted ==> Reckoned(v, [], keep, total))
            && (!v.ended ==> Reckoned(v, msgs[1..], keep, total))
  {
    var m := msgs[0];
    TakenKeepsHead(ex, w, m);
    if m.Body? && !w.discard && !(!m.more && m.aborted) {
      if w.declared.Some? {
        BodyReckons(ex, w, msgs, keep, total);
      } else {
        ChunkedPasses(ex, w, m);
      }
    } else {
      OthersPass(ex, w, m);
      OthersEnd(ex, w, m);
    }
  }

  /** An abort ends the answer as one, and trailers end it where it stands. */
  lemma OthersEnd(ex: Exchange, w: Writer, m: Message)
    requires w.head.Some? && !w.ended && (m.Start? ==> m.status < 200)
    ensures var v := Taken(ex, w, m);
            && (m.Start? ==> !v.ended) && (m.Trailers? ==> v.ended == !m.moreTrailers && v.aborted == w.aborted)
            && (m.Body? && !w.discard && !m.more && m.aborted ==> v.aborted && v.ended)
  {
    hide InterimText, TrailerText, Normalise, StartFinal, WriteEncoded, WritePlain;
  }

  lemma StartReckons(ex: Exchange, keep: bool, w: Writer, msgs: seq<Message>)
    requires msgs != [] && msgs[0].Start? && msgs[0].status >= 200 && w == Begin(keep).(interim := w.interim)
    ensures var v := Taken(ex, w, msgs[0]);
            v.head.Some? && !v.aborted && (v.ended ==> v.discard) && Reckoned(v, msgs[1..], keep, |BodyOf(msgs, false)|)
  {
    hide Normalise, Without, BodylessHeaders, Decimal, Text;
    var m := msgs[0];
    var h := Normalise(m.headers);
    if !ResponseHasBody(ex.verb, m.status) {
    } else if ex.encoding(m.status, h).Some? || First(h, Length).None? {
      if ex.http11 {
      } else {
      }
    } else {
      assert Taken(ex, w, m) == StartSized(w, m, h, Decimal(First(h, Length).value));
    }
  }

  lemma {:induction false} KeepsReckoning(ex: Exchange, keep: bool, w: Writer, msgs: seq<Message>)
    requires StartsOnce(msgs, false) && w == Begin(keep).(interim := w.interim)
    ensures var r := Run(ex, w, msgs);
            r.ended && !r.aborted && r.head.Some? ==> Reckoned(r, [], keep, |BodyOf(msgs, false)|)
    decreases |msgs|
  {
    hide OnStart;
    if msgs != [] {
      var m := msgs[0];
      var v := Taken(ex, w, m);
      if m.Start? && m.status >= 200 {
        StartReckons(ex, keep, w, msgs);
        StartsRun(ex, keep, w, msgs);
      } else if m.Start? {
        InterimStays(ex, keep, w, m);
        KeepsReckoning(ex, keep, v, msgs[1..]);
      } else if m.Body? {
        KeepsReckoning(ex, keep, v, msgs[1..]);
      } else {
        if v.ended {
          assert Run(ex, v, msgs[1..]) == v;
        } else {
          KeepsReckoning(ex, keep, v, msgs[1..]);
        }
      }
    }
  }

  lemma InterimStays(ex: Exchange, keep: bool, w: Writer, m: Message)
    requires m.Start? && m.status < 200 && w == Begin(keep).(interim := w.interim)
    ensures var v := Taken(ex, w, m); v == Begin(keep).(interim := v.interim)
  {
  }

  /** The run from the start on, which may end the answer at once. */
  lemma StartsRun(ex: Exchange, keep: bool, w: Writer, msgs: seq<Message>)
    requires msgs != [] && msgs[0].Start? && msgs[0].status >= 200 && StartsOnce(msgs, false) && !w.ended
    requires var v := Taken(ex, w, msgs[0]); v.head.Some? && !v.aborted && Reckoned(v, msgs[1..], keep, |BodyOf(msgs, false)|)
    requires var v := Taken(ex, w, msgs[0]); v.ended ==> v.discard
    ensures var r := Run(ex, w, msgs); r.ended && !r.aborted ==> Reckoned(r, [], keep, |BodyOf(msgs, false)|)
  {
    hide Taken;
    var v := Taken(ex, w, msgs[0]);
    if v.ended {
      assert Run(ex, v, msgs[1..]) == v;
    } else {
      RunReckons(ex, v, msgs[1..], keep, |BodyOf(msgs, false)|);
    }
  }

  /** When the answer has ended, the connection is kept exactly if it was to be kept, the
      answer was not given up, and the client can tell its end: there is no body, or it
      is chunked, or the application's body is as long as it was to be. */
  lemma KeptExactly(ex: Exchange, keepAlive: bool, msgs: seq<Message>)
    requires StartsOnce(msgs, false)
    ensures var r := Run(ex, Begin(keepAlive), msgs);
            r.ended && r.head.Some? ==>
              (Conclude(r).keepAlive <==>
                 && keepAlive && !r.aborted
                 && match FramingOf(ex.verb, r.head.value)
                    case NoBody => true
                    case ChunkedCoding => true
                    case UntilClose => false
                    case _ => r.declared == Some(|BodyOf(msgs, false)|))
  {
    var r := Run(ex, Begin(keepAlive), msgs);
    if r.ended && r.head.Some? {
      KeepsReckoning(ex, keepAlive, Begin(keepAlive), msgs);
      AnswerOk(ex, keepAlive, msgs);
      hide BodyOf, Run, Orderly, ContentOf, ContentFor, Chunked.Feed, Normalise;
      ShapeSays(SettingOf(ex, msgs), r);
    }
  }

  /** What the framing of a finished answer says of the writer. */
  lemma ShapeSays(t: Setting, w: Writer)
    requires Finished(t, w) && w.head.Some?
    ensures match t.frame(w.head.value)
            case NoBody => w.discard
            case ChunkedCoding => w.chunked && w.declared.None?
            case UntilClose => !w.discard && !w.chunked && w.declared.None?
            case _ => w.declared.Some?
  {
  }
}

/** What goes out after the head of a chunked answer, octet by octet, and what a client
    reads out of it. */
module WrittenBody {
  import opened Wrappers
  import opened Bytes
  import opened Head
  import opened Response
  import opened ResponseFraming
  import opened ChunkedRoundTrip
  import Chunked

  /** The trailer fields the application sends after its body has ended, up to the message
      that ends them; none if the start did not announce them. */
  function TrailersOf(msgs: seq<Message>, started: bool, announced: bool, ended: bool): seq<Field> {
    if msgs == [] then []
    else
      match msgs[0]
      case Start(status, _, trailers, _) =>
        if status >= 200 then TrailersOf(msgs[1..], true, trailers, ended) else TrailersOf(msgs[1..], started, announced, ended)
      case Body(_, more, _) =>
        if !started || more then TrailersOf(msgs[1..], started, announced, ended)
        else if announced then TrailersOf(msgs[1..], started, announced, true)
        else []
      case Trailers(fields, more) =>
        (if ended then Normalise(fields) else [])
        + if more then TrailersOf(msgs[1..], started, announced, ended) else []
  }

  /** The octets are the chunks of the data, and the trailer section as far as it goes. */
  ghost predicate Literal(w: Writer) {
    && w.octets == WriteBody(w.pieces) + (if w.awaitingTrailers then [48] + CRLF + TrailerText(w.trailers) else [])
    && (!w.awaitingTrailers ==> w.trailers == [])
    && (w.awaitingTrailers ==> w.trailersExpected)
  }

  /** A whole chunked body, as the grammar of section 7.1 of RFC 9112 has it. */
  ghost predicate Terminated(w: Writer) {
    w.octets == WriteBody(w.pieces) + WriteEnd(w.trailers)
  }

  lemma {:induction false} WriteBodyConcat(a: seq<bytes>, b: seq<bytes>)
    ensures WriteBody(a + b) == WriteBody(a) + WriteBody(b)
  {
    if a == [] {
      assert a + b == b && [] + WriteBody(b) == WriteBody(b);
    } else {
      assert (a + b)[0] == a[0] && (a + b)[1..] == a[1..] + b;
      WriteBodyConcat(a[1..], b);
      ConcatAssoc(WriteChunk(a[0]), WriteBody(a[1..]), WriteBody(b));
    }
  }

  lemma WriteBodyAppend(pieces: seq<bytes>, data: bytes)
    ensures WriteBody(pieces + [data]) == WriteBody(pieces) + WriteChunk(data)
  {
    WriteBodyConcat(pieces, [data]);
    assert [data][1..] == [] && WriteChunk(data) + [] == WriteChunk(data);
  }

  lemma {:induction false} TrailerTextConcat(a: seq<Field>, b: seq<Field>)
    ensures TrailerText(a + b) == TrailerText(a) + TrailerText(b)
  {
    if a == [] {
      assert a + b == b && [] + TrailerText(b) == TrailerText(b);
    } else {
      assert (a + b)[0] == a[0] && (a + b)[1..] == a[1..] + b;
      TrailerTextConcat(a[1..], b);
      ConcatAssoc(FieldLine(a[0]) + CRLF, TrailerText(a[1..]), TrailerText(b));
    }
  }

  lemma {:induction false} TrailersWritten(fields: seq<Field>)
    ensures WriteTrailers(fields) == TrailerText(fields) + CRLF
  {
    if fields == [] {
      assert [] + CRLF == CRLF;
    } else {
      TrailersWritten(fields[1..]);
      ConcatAssoc(FieldLine(fields[0]) + CRLF, TrailerText(fields[1..]), CRLF);
    }
  }

  // ----- One message ---------------------------------------------------------------------------

  lemma DataIsLiteral(w: Writer, data: bytes)
    requires Literal(w) && w.chunked && (w.awaitingTrailers ==> data == [])
    ensures Literal(WriteData(w, data)) && WriteData(w, data).trailers == w.trailers
  {
    hide WriteChunk;
    if data != [] {
      WriteBodyAppend(w.pieces, data);
      assert WriteBody(w.pieces) + [] == WriteBody(w.pieces);
      assert WriteBody(w.pieces + [data]) + [] == WriteBody(w.pieces + [data]);
    }
  }

  lemma WrittenIsLiteral(ex: Exchange, w: Writer, m: Message)
    requires m.Body? && Literal(w) && w.chunked && w.declared.None?
    requires w.awaitingTrailers ==> m.more && Silent(ex, CourseNow(w), m.data)
    ensures Literal(Written(ex, w, m)) && Written(ex, w, m).trailers == w.trailers
  {
    if !w.encoded {
      DataIsLiteral(w, m.data);
    } else {
      CodedIsLiteral(ex, w, m.data);
      var v := WriteCoded(ex, w, m.data);
      CodedKeeps(ex, w, m.data);
      if !m.more {
        DataIsLiteral(v, ex.flush(v.given));
      }
    }
  }

  lemma CodedIsLiteral(ex: Exchange, w: Writer, data: bytes)
    requires Literal(w) && w.chunked && (w.awaitingTrailers ==> data == [] || ex.compress(w.given + [data]) == [])
    ensures Literal(WriteCoded(ex, w, data)) && WriteCoded(ex, w, data).trailers == w.trailers
  {
    hide WriteData;
    if data != [] {
      DataIsLiteral(w, ex.compress(w.given + [data]));
    }
  }

  lemma EndIsLiteral(w: Writer)
    requires Literal(w) && w.chunked && !w.awaitingTrailers && !w.ended
    ensures var v := EndBody(w);
            if w.trailersExpected then Literal(v) && !v.ended && v.awaitingTrailers && v.trailers == w.trailers
            else Terminated(v) && v.ended && v.trailers == []
  {
    assert WriteBody(w.pieces) + [] == WriteBody(w.pieces);
    assert [48] + CRLF + [] == [48] + CRLF;
    ConcatAssoc(w.octets, [48] + CRLF, CRLF);
  }

  lemma TrailersAreLiteral(w: Writer, m: Message)
    requires m.Trailers? && Literal(w) && w.awaitingTrailers && !w.ended
    ensures var v := OnTrailers(w, m);
            && v.trailers == w.trailers + Normalise(m.fields)
            && if m.moreTrailers then Literal(v) && !v.ended else Terminated(v) && v.ended
  {
    hide Normalise, WriteBody;
    var fields := Normalise(m.fields);
    TrailerTextConcat(w.trailers, fields);
    TrailersWritten(w.trailers + fields);
    var start := WriteBody(w.pieces);
    var section := [48] + CRLF + TrailerText(w.trailers);
    ConcatAssoc([48] + CRLF, TrailerText(w.trailers), TrailerText(fields));
    ConcatAssoc(start, section, TrailerText(fields));
    ConcatAssoc([48] + CRLF, TrailerText(w.trailers + fields), CRLF);
    ConcatAssoc(start, section + TrailerText(fields), CRLF);
    assert w.octets + TrailerText(fields) + [] == w.octets + TrailerText(fields);
  }

  // ----- The whole answer ------------------------------------------------------------------------

  /** A chunked answer under way, with `msgs` to come in order. */
  ghost predicate UnderWay(ex: Exchange, w: Writer, msgs: seq<Message>) {
    && w.head.Some? && w.chunked && w.declared.None? && !w.discard && !w.ended && !w.aborted
    && Literal(w) && AllValid(w.trailers) && StartsOnce(msgs, true) && Orderly(ex, msgs, CourseNow(w))
  }

  /** How it goes on after one message: it is under way still, or given up, or complete. */
  ghost predicate GoesOn(ex: Exchange, w: Writer, v: Writer, msgs: seq<Message>)
    requires msgs != []
  {
    var announced, ended := w.trailersExpected, w.awaitingTrailers;
    if v.ended then
      v.aborted || (Terminated(v) && AllValid(v.trailers) && v.trailers == w.trailers + TrailersOf(msgs, true, announced, ended))
    else
      && UnderWay(ex, v, msgs[1..]) && v.trailersExpected == w.trailersExpected
      && v.trailers + TrailersOf(msgs[1..], true, announced, v.awaitingTrailers)
         == w.trailers + TrailersOf(msgs, true, announced, ended)
  }

  lemma BodyGoesOn(ex: Exchange, w: Writer, msgs: seq<Message>)
    requires msgs != [] && msgs[0].Body? && UnderWay(ex, w, msgs)
    ensures GoesOn(ex, w, OnBody(ex, w, msgs[0]), msgs)
  {
    hide Literal, Terminated;
    var m := msgs[0];
    if !(!m.more && m.aborted) {
      var v := Written(ex, w, m);
      WrittenIsLiteral(ex, w, m);
      WrittenKeeps(ex, w, m);
      assert OnBody(ex, w, m) == if m.more then v else EndBody(v);
      if !m.more {
        EndIsLiteral(v);
        if v.trailersExpected {
          EndCourse(v);
        }
        assert w.trailers + [] == w.trailers;
      }
    }
  }

  lemma EndCourse(v: Writer)
    requires v.chunked && v.trailersExpected && !v.ended
    ensures var e := EndBody(v);
            && CourseNow(e) == CourseNow(v).(stage := InTrailers) && Kept(e, v.(awaitingTrailers := true)) && e.aborted == v.aborted
  {
  }

  lemma FitIsValid(fields: seq<Field>)
    requires Fit(Normalise(fields))
    ensures AllValid(Normalise(fields))
  {
  }

  lemma SectionGoesOn(ex: Exchange, w: Writer, msgs: seq<Message>)
    requires msgs != [] && msgs[0].Trailers? && UnderWay(ex, w, msgs) && w.awaitingTrailers
    ensures GoesOn(ex, w, OnTrailers(w, msgs[0]), msgs)
  {
    hide Normalise, TrailerText, Literal, Terminated, OnTrailers;
    var m := msgs[0];
    TrailersAreLiteral(w, m);
    FitIsValid(m.fields);
    SectionKeeps(w, m);
    ConcatAssoc(w.trailers, Normalise(m.fields), TrailersOf(msgs[1..], true, w.trailersExpected, true));
    assert Normalise(m.fields) + [] == Normalise(m.fields);
  }

  lemma TrailersGoOn(ex: Exchange, w: Writer, msgs: seq<Message>)
    requires msgs != [] && msgs[0].Trailers? && UnderWay(ex, w, msgs)
    ensures GoesOn(ex, w, OnTrailers(w, msgs[0]), msgs)
  {
    hide Normalise, TrailerText, Literal, Terminated;
    if w.awaitingTrailers {
      SectionGoesOn(ex, w, msgs);
    } else {
      var rest := TrailersOf(msgs[1..], true, w.trailersExpected, w.awaitingTrailers);
      assert OnTrailers(w, msgs[0]) == w && [] + rest == rest;
    }
  }

  lemma {:induction false} RunIsLiteral(ex: Exchange, w: Writer, msgs: seq<Message>)
    requires UnderWay(ex, w, msgs)
    ensures var r := Run(ex, w, msgs);
            r.ended && !r.aborted ==>
              Terminated(r) && AllValid(r.trailers)
              && r.trailers == w.trailers + TrailersOf(msgs, true, w.trailersExpected, w.awaitingTrailers)
    decreases |msgs|
  {
    hide Terminated, Literal, OnBody, OnTrailers;
    if msgs != [] {
      var v := Taken(ex, w, msgs[0]);
      if msgs[0].Body? {
        BodyGoesOn(ex, w, msgs);
      } else {
        TrailersGoOn(ex, w, msgs);
      }
      if v.ended {
        assert Run(ex, v, msgs[1..]) == v;
      } else {
        RunIsLiteral(ex, v, msgs[1..]);
      }
    }
  }

  /** A start that begins a chunked answer. */
  lemma StartIsUnderWay(t: Setting, w: Writer, msgs: seq<Message>)
    requires Fair(t) && t.good && WriterOk(t, w, msgs) && w.head.None? && msgs != [] && msgs[0].Start? && msgs[0].status >= 200
    requires OnStart(t.ex, w, msgs[0]).chunked
    ensures var v := OnStart(t.ex, w, msgs[0]);
            UnderWay(t.ex, v, msgs[1..]) && v.trailers == [] && !v.awaitingTrailers && v.trailersExpected == msgs[0].trailers
  {
    hide Orderly, ContentOf, ContentFor, BodyOf, Normalise, StartFinal, Chunked.Feed;
    StartOk(t, w, msgs);
    StartKeeps(t.ex, w, msgs[0]);
    StartHasNoTrailers(t.ex, w, msgs[0]);
  }

  lemma StartHasNoTrailers(ex: Exchange, w: Writer, m: Message)
    requires m.Start? && m.status >= 200
    ensures StartFinal(ex, w, m).trailers == w.trailers
  {
    hide Normalise, Without, First, Decimal, Text, BodylessHeaders, StartUnsized;
    var h := Normalise(m.headers);
    var coding := ex.encoding(m.status, h);
    if ResponseHasBody(ex.verb, m.status) {
      if coding.Some? {
        UnsizedHasNoTrailers(ex, w, m, Without(h, Length) + [(Text("content-encoding"), coding.value)], true);
      } else {
        UnsizedHasNoTrailers(ex, w, m, h, w.encoded);
      }
    }
  }

  lemma UnsizedHasNoTrailers(ex: Exchange, w: Writer, m: Message, headers: seq<Field>, encoded: bool)
    requires m.Start?
    ensures StartUnsized(ex, w, m, headers, encoded).trailers == w.trailers
  {
    if ex.http11 {
    } else {
    }
  }

  /** Whether an answer is chunked is settled by its head. */
  lemma RunKeepsChunked(t: Setting, v: Writer, rest: seq<Message>)
    requires Fair(t) && v.head.Some? && StepOk(t, v, rest) && StartsOnce(rest, true)
    ensures Run(t.ex, v, rest).chunked == v.chunked
  {
    RunKeepsHead(t.ex, v, rest);
    if v.ended {
      assert Run(t.ex, v, rest) == v;
    } else {
      RunOk(t, v, rest);
    }
    hide Run, Orderly, ContentOf, ContentFor, BodyOf, Chunked.Feed;
  }

  lemma {:induction false} FromTheStart(t: Setting, w: Writer, msgs: seq<Message>)
    requires Fair(t) && t.good && WriterOk(t, w, msgs) && w.head.None?
    ensures var r := Run(t.ex, w, msgs);
            r.head.Some? && r.chunked && r.ended && !r.aborted ==>
              Terminated(r) && AllValid(r.trailers) && r.trailers == TrailersOf(msgs, false, false, false)
    decreases |msgs|
  {
    hide Orderly, ContentOf, ContentFor, BodyOf, Chunked.Feed, Terminated, StartFinal, WriteEncoded, WritePlain, Finished;
    if msgs != [] {
      var m := msgs[0];
      var v := Taken(t.ex, w, m);
      TakenOk(t, w, msgs);
      if m.Start? && m.status >= 200 {
        RunKeepsChunked(t, v, msgs[1..]);
        if v.chunked {
          StartIsUnderWay(t, w, msgs);
          RunIsLiteral(t.ex, v, msgs[1..]);
          assert [] + TrailersOf(msgs[1..], true, m.trailers, false) == TrailersOf(msgs[1..], true, m.trailers, false);
        }
      } else if !v.ended {
        FromTheStart(t, v, msgs[1..]);
      } else {
        assert Run(t.ex, v, msgs[1..]) == v;
      }
    }
  }

  /** A chunked answer whose messages came in order, octet by octet: the chunks of the data,
      the last chunk, and the trailer fields that the application sent after its body; and
      that is what a client reads out of it. */
  lemma ChunkedAnswer(ex: Exchange, keepAlive: bool, msgs: seq<Message>)
    requires StartsOnce(msgs, false) && InOrder(ex, msgs)
    ensures var r := Run(ex, Begin(keepAlive), msgs);
            r.head.Some? && r.chunked && r.ended && !r.aborted ==>
              && r.octets == WriteBody(r.pieces) + WriteEnd(r.trailers)
              && r.trailers == TrailersOf(msgs, false, false, false)
              && var f := Chunked.Feed(Chunked.INITIAL, r.octets, 0);
                 f.error.None? && f.next.done && f.rest == [] && Flat(f.chunks) == Flat(r.pieces)
                 && f.next.trailers == Capped(LowerNames(r.trailers))
  {
    AnswerOk(ex, keepAlive, msgs);
    var t, r := SettingOf(ex, msgs), Run(ex, Begin(keepAlive), msgs);
    if r.head.Some? && r.chunked && r.ended && !r.aborted {
      FromTheStart(t, Begin(keepAlive), msgs);
      ChunkedRoundTrip.ChunkedRoundTrip(r.pieces, r.trailers, [], 0);
      assert WriteEnd(r.trailers) + [] == WriteEnd(r.trailers);
    }
  }
}
