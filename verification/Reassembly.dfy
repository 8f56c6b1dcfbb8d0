/** What a peer sends as fragments with control frames in between arrives as one message. */
module Reassembly {
  import opened Wrappers
  import opened Bytes
  import opened Frames
  import opened WebSocket

  // ----- Frames on the wire ----------------------------------------------------------

  datatype Sent = Sent(frame: Frame, mask: bytes)

  predicate Control(opcode: nat) {
    opcode >= 8
  }

  /** A frame that its sender was allowed to build; data frames may still be too long
      for this receiver. */
  predicate Sound(cfg: Settings, s: Sent) {
    && Known(s.frame.opcode) && |s.frame.payload| <= MAX_LENGTH
    && (if cfg.masked then |s.mask| == 4 else s.mask == [])
    && (Control(s.frame.opcode) ==> s.frame.fin && |s.frame.payload| <= MAX_CONTROL)
  }

  predicate AllSound(cfg: Settings, sents: seq<Sent>) {
    forall i :: 0 <= i < |sents| ==> Sound(cfg, sents[i])
  }

  function Wire(cfg: Settings, sents: seq<Sent>): bytes
    requires AllSound(cfg, sents)
  {
    if sents == [] then [] else BuildFrame(sents[0].frame, sents[0].mask) + Wire(cfg, sents[1..])
  }

  /** What one of these frames does to the receiver. */
  function Receive(cfg: Settings, p: Parser, f: Frame): (r: Reaction)
    ensures r.error.Some? ==> r.events == []
  {
    if !Control(f.opcode) && |f.payload| > cfg.max then Reaction(p, [], Some(TOO_BIG)) else OnFrame(cfg, p, f)
  }

  function ReceiveAll(cfg: Settings, p: Parser, sents: seq<Sent>): Reaction
    decreases |sents|
  {
    if sents == [] then Reaction(p, [], None)
    else
      var r := Receive(cfg, p, sents[0].frame);
      if r.error.Some? then r
      else
        var t := ReceiveAll(cfg, r.next, sents[1..]);
        t.(events := r.events + t.events)
  }

  lemma FeedOne(cfg: Settings, p: Parser, s: Sent, rest: bytes)
    requires Sound(cfg, s)
    ensures var r, f := Receive(cfg, p, s.frame), Feed(cfg, p, BuildFrame(s.frame, s.mask) + rest);
            if r.error.Some? then f.next == r.next && f.events == r.events && f.error == r.error
            else var g := Feed(cfg, r.next, rest); f == g.(events := r.events + g.events)
  {
    FrameRoundTrip(s.frame, s.mask, rest, cfg.max, cfg.masked);
  }

  /** Feeding the bytes of the frames is receiving the frames, one by one. */
  lemma {:induction false} FeedWire(cfg: Settings, p: Parser, sents: seq<Sent>, rest: bytes)
    requires AllSound(cfg, sents)
    ensures var t, f := ReceiveAll(cfg, p, sents), Feed(cfg, p, Wire(cfg, sents) + rest);
            if t.error.Some? then f.next == t.next && f.events == t.events && f.error == t.error
            else var g := Feed(cfg, t.next, rest); f == g.(events := t.events + g.events)
    decreases |sents|
  {
    if sents == [] {
      assert [] + rest == rest;
      assert [] + Feed(cfg, p, rest).events == Feed(cfg, p, rest).events;
    } else {
      var b, more := BuildFrame(sents[0].frame, sents[0].mask), Wire(cfg, sents[1..]);
      assert Sound(cfg, sents[0]);
      ConcatAssoc(b, more, rest);
      FeedOne(cfg, p, sents[0], more + rest);
      var r := Receive(cfg, p, sents[0].frame);
      if r.error.None? {
        FeedWire(cfg, r.next, sents[1..], rest);
        var t := ReceiveAll(cfg, r.next, sents[1..]);
        ConcatAssoc(r.events, t.events, Feed(cfg, t.next, rest).events);
      }
    }
  }

  lemma {:induction false} ReceiveConcat(cfg: Settings, p: Parser, a: seq<Sent>, b: seq<Sent>)
    ensures var first := ReceiveAll(cfg, p, a);
            var second := ReceiveAll(cfg, first.next, b);
            ReceiveAll(cfg, p, a + b) == if first.error.Some? then first else second.(events := first.events + second.events)
    decreases |a|
  {
    if a == [] {
      assert a + b == b;
      assert [] + ReceiveAll(cfg, p, b).events == ReceiveAll(cfg, p, b).events;
    } else {
      assert (a + b)[0] == a[0] && (a + b)[1..] == a[1..] + b;
      var r := Receive(cfg, p, a[0].frame);
      if r.error.None? {
        ReceiveConcat(cfg, r.next, a[1..], b);
        var first := ReceiveAll(cfg, r.next, a[1..]);
        ConcatAssoc(r.events, first.events, ReceiveAll(cfg, first.next, b).events);
      }
    }
  }

  // ----- A fragmented message ----------------------------------------------------------

  /** A fragment, and the pings and pongs that go out in front of it. */
  datatype Part = Part(before: seq<Sent>, data: bytes, mask: bytes)

  predicate Heartbeats(cfg: Settings, sents: seq<Sent>) {
    AllSound(cfg, sents) && forall i :: 0 <= i < |sents| ==> sents[i].frame.opcode in {PING, PONG}
  }

  predicate SoundParts(cfg: Settings, parts: seq<Part>) {
    forall i :: 0 <= i < |parts| ==>
      && Heartbeats(cfg, parts[i].before) && |parts[i].data| <= MAX_LENGTH
      && (if cfg.masked then |parts[i].mask| == 4 else parts[i].mask == [])
  }

  /** The frames of a message that is cut into these parts. */
  function Train(parts: seq<Part>, opcode: nat): seq<Sent> {
    if parts == [] then []
    else parts[0].before + [Sent(Frame(|parts| == 1, opcode, parts[0].data), parts[0].mask)] + Train(parts[1..], CONTINUATION)
  }

  function Whole(parts: seq<Part>): bytes {
    if parts == [] then [] else parts[0].data + Whole(parts[1..])
  }

  function HeartbeatEvents(sents: seq<Sent>): seq<Event> {
    if sents == [] then []
    else [if sents[0].frame.opcode == PING then Pinged(sents[0].frame.payload) else Ponged(sents[0].frame.payload)]
         + HeartbeatEvents(sents[1..])
  }

  function Beats(parts: seq<Part>): seq<Event> {
    if parts == [] then [] else HeartbeatEvents(parts[0].before) + Beats(parts[1..])
  }

  lemma {:induction false} SoundTrain(cfg: Settings, parts: seq<Part>, opcode: nat)
    requires SoundParts(cfg, parts) && opcode in {CONTINUATION, TEXT, BINARY}
    ensures AllSound(cfg, Train(parts, opcode))
    decreases |parts|
  {
    if parts != [] {
      assert Heartbeats(cfg, parts[0].before);
      SoundTrain(cfg, parts[1..], CONTINUATION);
    }
  }

  lemma {:induction false} HeartbeatsPass(cfg: Settings, p: Parser, sents: seq<Sent>)
    requires Heartbeats(cfg, sents)
    ensures ReceiveAll(cfg, p, sents) == Reaction(p, HeartbeatEvents(sents), None)
    decreases |sents|
  {
    if sents != [] {
      assert sents[0].frame.opcode in {PING, PONG};
      HeartbeatsPass(cfg, p, sents[1..]);
    }
  }

  function MessageOf(kind: nat, data: bytes): Event {
    if kind == TEXT then TextMessage(data) else BinaryMessage(data)
  }

  /** The outcome of a message of some kind: the control events in order and then the
      message, once; unless it is too long, or a text that is not UTF-8. */
  ghost predicate Arrives(cfg: Settings, kind: nat, total: bytes, beats: seq<Event>, events: seq<Event>, error: Option<nat>) {
    if |total| > cfg.max then error == Some(TOO_BIG) && events <= beats
    else if kind == TEXT && !cfg.utf8(total) then error == Some(INVALID_PAYLOAD) && events <= beats
    else error == None && events == beats + [MessageOf(kind, total)]
  }

  /** Where a message stands when the frame of this opcode comes next. */
  ghost predicate Expects(cfg: Settings, p: Parser, opcode: nat, kind: nat) {
    && kind in {TEXT, BINARY} && |p.payload| <= cfg.max
    && (if opcode == CONTINUATION then p.opcode == Some(kind) else opcode == kind && p.opcode.None?)
  }

  /** One fragment that fits. */
  lemma PartTaken(cfg: Settings, p: Parser, opcode: nat, kind: nat, part: Part, last: bool) returns (r: Reaction)
    requires Expects(cfg, p, opcode, kind)
    ensures r == Receive(cfg, p, Frame(last, opcode, part.data))
    ensures var so := (if opcode == CONTINUATION then p.payload else []) + part.data;
            if |so| > cfg.max then r.error == Some(TOO_BIG) && r.events == []
            else if !last then r == Reaction(Parser(Some(kind), so), [], None)
            else if kind == TEXT && !cfg.utf8(so) then r.error == Some(INVALID_PAYLOAD) && r.events == []
            else r == Reaction(Parser(None, so), [MessageOf(kind, so)], None)
  {
    r := Receive(cfg, p, Frame(last, opcode, part.data));
    assert [] + part.data == part.data;
  }

  /** The train of `parts` begins with its heartbeats and its first fragment. */
  lemma TrainBegins(cfg: Settings, p: Parser, parts: seq<Part>, opcode: nat, kind: nat) returns (r: Reaction)
    requires parts != [] && SoundParts(cfg, parts) && Expects(cfg, p, opcode, kind)
    ensures r == Receive(cfg, p, Frame(|parts| == 1, opcode, parts[0].data))
    ensures var t := ReceiveAll(cfg, p, Train(parts, opcode));
            var more := ReceiveAll(cfg, r.next, Train(parts[1..], CONTINUATION));
            t == if r.error.Some? then Reaction(r.next, HeartbeatEvents(parts[0].before), r.error)
                 else more.(events := HeartbeatEvents(parts[0].before) + (r.events + more.events))
  {
    var part, last := parts[0], |parts| == 1;
    var sent := [Sent(Frame(last, opcode, part.data), part.mask)];
    var more := Train(parts[1..], CONTINUATION);
    r := Receive(cfg, p, Frame(last, opcode, part.data));
    assert Heartbeats(cfg, part.before);
    HeartbeatsPass(cfg, p, part.before);
    ConcatAssoc(part.before, sent, more);
    ReceiveConcat(cfg, p, part.before, sent + more);
    assert (sent + more)[0] == sent[0] && (sent + more)[1..] == more;
    assert HeartbeatEvents(part.before) + [] == HeartbeatEvents(part.before);
  }

  /** What has been gathered when a frame of this opcode comes. */
  function Gathered(p: Parser, opcode: nat): bytes {
    if opcode == CONTINUATION then p.payload else []
  }

  ghost predicate TrainOk(cfg: Settings, p: Parser, parts: seq<Part>, opcode: nat, kind: nat) {
    var t := ReceiveAll(cfg, p, Train(parts, opcode));
    var total := Gathered(p, opcode) + Whole(parts);
    Arrives(cfg, kind, total, Beats(parts), t.events, t.error) && (t.error.None? ==> t.next == Parser(None, total))
  }

  lemma LastPartArrives(cfg: Settings, p: Parser, parts: seq<Part>, opcode: nat, kind: nat)
    requires |parts| == 1 && SoundParts(cfg, parts) && Expects(cfg, p, opcode, kind)
    ensures TrainOk(cfg, p, parts, opcode, kind)
  {
    var beats := HeartbeatEvents(parts[0].before);
    var r := TrainBegins(cfg, p, parts, opcode, kind);
    var s := PartTaken(cfg, p, opcode, kind, parts[0], true);
    assert parts[1..] == [] && parts[0].data + [] == parts[0].data;
    assert beats + [] == beats && r.events + [] == r.events;
  }

  /** Control frames in front of a message change nothing about how it arrives. */
  lemma BeatsInFront(cfg: Settings, kind: nat, total: bytes, before: seq<Event>, beats: seq<Event>, events: seq<Event>,
                     error: Option<nat>)
    requires Arrives(cfg, kind, total, beats, events, error)
    ensures Arrives(cfg, kind, total, before + beats, before + events, error)
  {
    ConcatAssoc(before, beats, [MessageOf(kind, total)]);
  }

  lemma PartAndTrainArrive(cfg: Settings, p: Parser, parts: seq<Part>, opcode: nat, kind: nat)
    requires |parts| > 1 && SoundParts(cfg, parts) && Expects(cfg, p, opcode, kind)
    requires var r := Receive(cfg, p, Frame(false, opcode, parts[0].data));
             r.error.None? ==> TrainOk(cfg, r.next, parts[1..], CONTINUATION, kind)
    ensures TrainOk(cfg, p, parts, opcode, kind)
  {
    hide Receive, ReceiveAll, Train;
    var beats := HeartbeatEvents(parts[0].before);
    var r := TrainBegins(cfg, p, parts, opcode, kind);
    var s := PartTaken(cfg, p, opcode, kind, parts[0], false);
    ConcatAssoc(Gathered(p, opcode), parts[0].data, Whole(parts[1..]));
    if r.error.None? {
      var t := ReceiveAll(cfg, r.next, Train(parts[1..], CONTINUATION));
      assert [] + t.events == t.events;
      BeatsInFront(cfg, kind, Gathered(p, opcode) + Whole(parts), beats, Beats(parts[1..]), t.events, t.error);
    }
  }

  lemma {:induction false} TrainArrives(cfg: Settings, p: Parser, parts: seq<Part>, opcode: nat, kind: nat)
    requires parts != [] && SoundParts(cfg, parts) && Expects(cfg, p, opcode, kind)
    ensures TrainOk(cfg, p, parts, opcode, kind)
    decreases |parts|
  {
    if |parts| == 1 {
      LastPartArrives(cfg, p, parts, opcode, kind);
    } else {
      var r := PartTaken(cfg, p, opcode, kind, parts[0], false);
      if r.error.None? {
        TrainArrives(cfg, r.next, parts[1..], CONTINUATION, kind);
      }
      PartAndTrainArrive(cfg, p, parts, opcode, kind);
    }
  }

  /** The bytes of nothing but these frames. */
  lemma FeedNothingElse(cfg: Settings, p: Parser, sents: seq<Sent>)
    requires AllSound(cfg, sents)
    ensures var t, f := ReceiveAll(cfg, p, sents), Feed(cfg, p, Wire(cfg, sents));
            f.events == t.events && f.error == t.error && (t.error.None? ==> f.next == t.next && f.rest == [])
  {
    var t := ReceiveAll(cfg, p, sents);
    FeedWire(cfg, p, sents, []);
    assert Wire(cfg, sents) + [] == Wire(cfg, sents);
    assert Feed(cfg, t.next, []) == Fed(t.next, [], [], None);
    assert t.events + [] == t.events;
  }

  /** Reassembly: a message cut into any number of fragments, with pings and pongs in
      between, and delivered in any segmentation, makes the control events in order and
      then exactly one message with the whole payload; a message over the cap and a
      text that is not UTF-8 are refused with their close codes. */
  lemma MessageArrives(cfg: Settings, p: Parser, parts: seq<Part>, kind: nat, pieces: seq<bytes>)
    requires parts != [] && SoundParts(cfg, parts) && Expects(cfg, p, kind, kind) && kind != CONTINUATION
    requires pieces != [] && (SoundTrain(cfg, parts, kind); Flat(pieces) == Wire(cfg, Train(parts, kind)))
    ensures var s := FeedPieces(cfg, p, [], pieces);
            && Arrives(cfg, kind, Whole(parts), Beats(parts), s.events, s.error)
            && (s.error.None? ==> s.next.opcode.None? && s.rest == [])
  {
    SoundTrain(cfg, parts, kind);
    PiecesParseAlike(cfg, p, [], pieces);
    assert [] + Flat(pieces) == Flat(pieces);
    FeedNothingElse(cfg, p, Train(parts, kind));
    TrainArrives(cfg, p, parts, kind, kind);
    assert [] + Whole(parts) == Whole(parts);
  }

  // ----- Close frames ------------------------------------------------------------------

  const MAX_REASON := 123

  /** The longest beginning of a reason that fits and is UTF-8. */
  function Clip(raw: bytes, utf8: bytes -> bool): (r: bytes)
    ensures r <= raw && (r == [] || utf8(r))
    ensures forall k :: |r| < k <= |raw| ==> !utf8(raw[..k])
  {
    if raw == [] || utf8(raw) then (assert raw[..|raw|] == raw; raw)
    else
      var r := Clip(raw[..|raw| - 1], utf8);
      assert raw[..|raw|] == raw;
      assert forall k :: 0 <= k < |raw| ==> raw[..|raw| - 1][..k] == raw[..k];
      r
  }

  /** The codes that may not go out are sent as a normal closure. */
  function CodeSent(code: nat): nat {
    if code in {1005, 1006, 1015} then 1000 else code
  }

  function ReasonSent(raw: bytes, utf8: bytes -> bool): (r: bytes)
    ensures |r| <= MAX_REASON && r <= raw && (utf8([]) && utf8(raw) ==> utf8(r))
  {
    if |raw| > MAX_REASON then Clip(raw[..MAX_REASON], utf8) else raw
  }

  /** The payload of a close frame; a reason that is cut stays UTF-8. */
  method ClosePayload(code: nat, raw: bytes, utf8: bytes -> bool) returns (payload: bytes)
    requires code < 65536
    ensures payload == ToBytes(code, 2) + ReasonSent(raw, utf8)
  {
    var reason := raw;
    if |reason| > MAX_REASON {
      reason := reason[..MAX_REASON];
      while reason != []
        invariant Clip(reason, utf8) == Clip(raw[..MAX_REASON], utf8)
        decreases |reason|
      {
        if utf8(reason) {
          break;
        }
        reason := reason[..|reason| - 1];
      }
    }
    payload := ToBytes(code, 2) + reason;
  }

  lemma CloseReadBack(code: nat, reason: bytes, utf8: bytes -> bool)
    requires code < 65536 && utf8(reason)
    ensures ParseClose(ToBytes(code, 2) + reason, utf8) == if AcceptedCode(code) then Ok(Closed(code, reason)) else Err(PROTOCOL_ERROR)
  {
    var payload := ToBytes(code, 2) + reason;
    assert Pow256(2) == 65536;
    BigEndianRoundTrip(code, 2);
    assert payload[..2] == ToBytes(code, 2) && payload[2..] == reason;
  }

  /** A close frame arrives with its code and its reason, cut to what fits; the codes
      that a peer may not use are refused by it. */
  lemma CloseArrives(cfg: Settings, p: Parser, code: nat, raw: bytes, mask: bytes, rest: bytes)
    requires 1000 <= CodeSent(code) <= 4999 && cfg.utf8([]) && cfg.utf8(raw)
    requires if cfg.masked then |mask| == 4 else mask == []
    ensures var frame := Frame(true, CLOSE, ToBytes(CodeSent(code), 2) + ReasonSent(raw, cfg.utf8));
            var f := Feed(cfg, p, BuildFrame(frame, mask) + rest);
            if AcceptedCode(CodeSent(code)) then
              var g := Feed(cfg, p, rest); f == g.(events := [Closed(CodeSent(code), ReasonSent(raw, cfg.utf8))] + g.events)
            else f.error == Some(PROTOCOL_ERROR) && f.events == [] && f.rest == rest
  {
    hide ParseFrame, BuildFrame;
    var frame := Frame(true, CLOSE, ToBytes(CodeSent(code), 2) + ReasonSent(raw, cfg.utf8));
    CloseReadBack(CodeSent(code), ReasonSent(raw, cfg.utf8), cfg.utf8);
    FeedOne(cfg, p, Sent(frame, mask), rest);
    FrameRoundTrip(frame, mask, rest, cfg.max, cfg.masked);
  }
}
