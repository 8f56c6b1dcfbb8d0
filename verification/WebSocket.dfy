/** Messages out of frames, sections 5.4 and 5.5 of RFC 6455. */
module WebSocket {
  import opened Wrappers
  import opened Bytes
  import opened Frames

  /** The cap on a message, whether the peer has to mask, and which bytes are UTF-8. */
  datatype Settings = Settings(max: nat, masked: bool, utf8: bytes -> bool)

  /** A message that has begun, if any, and the payload gathered for it. */
  datatype Parser = Parser(opcode: Option<nat>, payload: bytes)

  datatype Event =
    | TextMessage(data: bytes)
    | BinaryMessage(data: bytes)
    | Pinged(data: bytes)
    | Ponged(data: bytes)
    | Closed(code: nat, reason: bytes)

  predicate AcceptedCode(code: nat) {
    code in {1000, 1001, 1002, 1003, 1007, 1008, 1009, 1010, 1011, 1012, 1013, 1014} || 3000 <= code <= 4999
  }

  function ParseClose(payload: bytes, utf8: bytes -> bool): Result<Event, nat> {
    if payload == [] then Ok(Closed(1005, []))
    else if |payload| == 1 then Err(PROTOCOL_ERROR)
    else
      var code := BigEndian(payload[..2]);
      if !AcceptedCode(code) then Err(PROTOCOL_ERROR)
      else if !utf8(payload[2..]) then Err(INVALID_PAYLOAD)
      else Ok(Closed(code, payload[2..]))
  }

  /** The parser after a frame, the event it makes, or the close code it raises. */
  datatype Reaction = Reaction(next: Parser, events: seq<Event>, error: Option<nat>)

  function OnData(cfg: Settings, p: Parser, f: Frame): (r: Reaction)
    ensures r.error.Some? ==> r.events == []
    ensures |p.payload| <= cfg.max ==> |r.next.payload| <= cfg.max
  {
    if (f.opcode == CONTINUATION) != p.opcode.Some? then Reaction(p, [], Some(PROTOCOL_ERROR))
    else
      var q := if f.opcode == CONTINUATION then p else Parser(Some(f.opcode), []);
      if |q.payload| + |f.payload| > cfg.max then Reaction(q, [], Some(TOO_BIG))
      else
        var r := q.(payload := q.payload + f.payload);
        if !f.fin then Reaction(r, [], None)
        else if r.opcode != Some(TEXT) then Reaction(r.(opcode := None), [BinaryMessage(r.payload)], None)
        else if cfg.utf8(r.payload) then Reaction(r.(opcode := None), [TextMessage(r.payload)], None)
        else Reaction(r.(opcode := None), [], Some(INVALID_PAYLOAD))
  }

  function OnFrame(cfg: Settings, p: Parser, f: Frame): (r: Reaction)
    ensures r.error.Some? ==> r.events == []
    ensures |p.payload| <= cfg.max ==> |r.next.payload| <= cfg.max
  {
    if f.opcode == CLOSE then
      match ParseClose(f.payload, cfg.utf8)
      case Err(code) => Reaction(p, [], Some(code))
      case Ok(event) => Reaction(p, [event], None)
    else if f.opcode == PING then Reaction(p, [Pinged(f.payload)], None)
    else if f.opcode == PONG then Reaction(p, [Ponged(f.payload)], None)
    else OnData(cfg, p, f)
  }

  /** The parser and the buffer after feeding, the events decoded on the way, and the
      close code raised, if one was. */
  datatype Fed = Fed(next: Parser, rest: bytes, events: seq<Event>, error: Option<nat>)

  function Feed(cfg: Settings, p: Parser, buffer: bytes): Fed
    decreases |buffer|
  {
    match ParseFrame(buffer, cfg.max, cfg.masked)
    case Incomplete => Fed(p, buffer, [], None)
    case Violation(code) => Fed(p, buffer, [], Some(code))
    case Parsed(f, n) =>
      var r := OnFrame(cfg, p, f);
      if r.error.Some? then Fed(r.next, buffer[n..], [], r.error)
      else
        var g := Feed(cfg, r.next, buffer[n..]);
        g.(events := r.events + g.events)
  }

  /** The payload that is held never exceeds the cap, whether feeding raises or not. */
  lemma {:induction false} NeverHoldsTooMuch(cfg: Settings, p: Parser, buffer: bytes)
    requires |p.payload| <= cfg.max
    ensures |Feed(cfg, p, buffer).next.payload| <= cfg.max
    decreases |buffer|
  {
    var r := ParseFrame(buffer, cfg.max, cfg.masked);
    if r.Parsed? {
      NeverHoldsTooMuch(cfg, OnFrame(cfg, p, r.frame).next, buffer[r.n..]);
    }
  }

  // ----- Cutting the input -----------------------------------------------------------

  /** Feeding in two goes is feeding at once; what raises, raises at the same frame. */
  lemma {:induction false} FeedTwice(cfg: Settings, p: Parser, a: bytes, b: bytes)
    ensures var first := Feed(cfg, p, a);
            var second := Feed(cfg, first.next, first.rest + b);
            Feed(cfg, p, a + b) == if first.error.Some? then first.(rest := first.rest + b)
                                   else second.(events := first.events + second.events)
    decreases |a|
  {
    var r := ParseFrame(a, cfg.max, cfg.masked);
    if r.Incomplete? {
      assert [] + Feed(cfg, p, a + b).events == Feed(cfg, p, a + b).events;
    } else {
      ParseStays(a, b, cfg.max, cfg.masked);
      if r.Parsed? {
        assert (a + b)[r.n..] == a[r.n..] + b;
        var v := OnFrame(cfg, p, r.frame);
        if v.error.None? {
          FeedTwice(cfg, v.next, a[r.n..], b);
          var first := Feed(cfg, v.next, a[r.n..]);
          ConcatAssoc(v.events, first.events, Feed(cfg, first.next, first.rest + b).events);
        }
      }
    }
  }

  /** The parser as the session drives it: the buffer is extended piece by piece and
      fed each time.  The events of the call that raises are lost. */
  function FeedPieces(cfg: Settings, p: Parser, buffer: bytes, pieces: seq<bytes>): Fed
    decreases |pieces|
  {
    if pieces == [] then Fed(p, buffer, [], None)
    else
      var first := Feed(cfg, p, buffer + pieces[0]);
      if first.error.Some? then Fed(first.next, first.rest + Flat(pieces[1..]), [], first.error)
      else
        var f := FeedPieces(cfg, first.next, first.rest, pieces[1..]);
        f.(events := first.events + f.events)
  }

  /** Segmentation independence: any cutting of the input ends in the same state and
      raises the same code at the same frame; as long as nothing is raised the events
      are the same, and in any case none is made up or out of order. */
  lemma {:induction false} PiecesParseAlike(cfg: Settings, p: Parser, buffer: bytes, pieces: seq<bytes>)
    requires pieces != []
    ensures var cut, whole := FeedPieces(cfg, p, buffer, pieces), Feed(cfg, p, buffer + Flat(pieces));
            && cut.next == whole.next && cut.rest == whole.rest && cut.error == whole.error
            && cut.events <= whole.events && (whole.error.None? ==> cut.events == whole.events)
    decreases |pieces|
  {
    var a, rest := buffer + pieces[0], Flat(pieces[1..]);
    var first := Feed(cfg, p, a);
    ConcatAssoc(buffer, pieces[0], rest);
    FeedTwice(cfg, p, a, rest);
    if first.error.None? {
      if pieces[1..] == [] {
        assert a + rest == a && first.rest + rest == first.rest && first.events + [] == first.events;
      } else {
        PiecesParseAlike(cfg, first.next, first.rest, pieces[1..]);
      }
    }
  }

  /** Cutting does decide which events are delivered before a violation: those of the
      earlier calls are, those of the call that raises are not. */
  lemma RaisingCallLosesEvents(cfg: Settings, p: Parser, a: bytes, b: bytes)
    requires Feed(cfg, p, a).error.None? && Feed(cfg, p, a + b).error.Some?
    ensures FeedPieces(cfg, p, [], [a + b]).events == []
    ensures FeedPieces(cfg, p, [], [a, b]).events == Feed(cfg, p, a).events
  {
    assert [] + a == a && [] + (a + b) == a + b && [a, b][1..] == [b];
    FeedTwice(cfg, p, a, b);
    var first := Feed(cfg, p, a);
    assert FeedPieces(cfg, first.next, first.rest, [b]).events == [];
    assert first.events + [] == first.events;
  }
}
