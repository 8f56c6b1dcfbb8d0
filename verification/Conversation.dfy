/** What a WebSocket peer is told, and when it is refused, by all the frames it has sent. */
module Conversation {
  import opened Wrappers
  import opened Bytes
  import opened Frames
  import opened WebSocket
  import opened Reassembly

  // ----- Close codes --------------------------------------------------------------------------

  /** The codes that a close frame may carry: those of section 7.4.1 of RFC 6455 and its registry,
      but not those reserved for what was never sent; and those left to libraries,
      frameworks and applications. */
  lemma CodeRefusedIff(code: nat)
    ensures !AcceptedCode(code) <==> code < 1000 || code in {1004, 1005, 1006} || 1015 <= code < 3000 || code >= 5000
  {
    if 1000 <= code < 1015 {
      assert code in {1000, 1001, 1002, 1003, 1004, 1005, 1006, 1007, 1008, 1009, 1010, 1011, 1012, 1013, 1014};
    }
  }

  /** What a close frame means: its code in two bytes, and a reason that is UTF-8. */
  ghost predicate Means(payload: bytes, code: nat, reason: bytes, utf8: bytes -> bool) {
    if payload == [] then code == 1005 && reason == []
    else code < 65536 && payload == ToBytes(code, 2) + reason && AcceptedCode(code) && utf8(reason)
  }

  lemma CloseMeans(payload: bytes, code: nat, reason: bytes, utf8: bytes -> bool)
    ensures ParseClose(payload, utf8) == Ok(Closed(code, reason)) <==> Means(payload, code, reason, utf8)
  {
    assert Pow256(2) == 65536;
    if payload != [] && code < 65536 && payload == ToBytes(code, 2) + reason {
      BigEndianRoundTrip(code, 2);
      assert payload[..2] == ToBytes(code, 2) && payload[2..] == reason;
    }
    if |payload| >= 2 {
      var sent := BigEndian(payload[..2]);
      TwoBytes(payload[..2]);
      assert payload == payload[..2] + payload[2..];
    }
  }

  lemma TwoBytes(b: bytes)
    requires |b| == 2
    ensures BigEndian(b) < 65536 && ToBytes(BigEndian(b), 2) == b
  {
    assert BigEndian(b) == BigEndian(b[..1]) * 256 + b[1];
    assert BigEndian(b[..1]) == BigEndian(b[..1][..0]) * 256 + b[0];
  }

  // ----- What has been sent so far ---------------------------------------------------------------

  /** A message has begun and not ended: the last data frame was not its last. */
  predicate Unfinished(frames: seq<Frame>) {
    frames != [] &&
    var f := frames[|frames| - 1];
    if Control(f.opcode) then Unfinished(frames[..|frames| - 1]) else !f.fin
  }

  /** The payloads of the data frames since the last message began. */
  function SoFar(frames: seq<Frame>): bytes {
    if frames == [] then []
    else
      var before, f := frames[..|frames| - 1], frames[|frames| - 1];
      if Control(f.opcode) then SoFar(before)
      else (if f.opcode == CONTINUATION then SoFar(before) else []) + f.payload
  }

  /** The opcode of the frame that began the last message. */
  function KindOf(frames: seq<Frame>): nat {
    if frames == [] then CONTINUATION
    else
      var before, f := frames[..|frames| - 1], frames[|frames| - 1];
      if Control(f.opcode) || f.opcode == CONTINUATION then KindOf(before) else f.opcode
  }

  /** What is wrong with `f` after `before`, if anything: a message that begins inside
      another or goes on without one, one that is too long, a text that is not UTF-8, or a
      close frame that means nothing. */
  ghost function Fault(cfg: Settings, before: seq<Frame>, f: Frame): Option<nat> {
    var all := before + [f];
    if f.opcode == CLOSE then
      if exists code, reason :: Means(f.payload, code, reason, cfg.utf8) then None
      else if |f.payload| < 2 || !AcceptedCode(BigEndian(f.payload[..2])) then Some(PROTOCOL_ERROR)
      else Some(INVALID_PAYLOAD)
    else if Control(f.opcode) then None
    else if |f.payload| > cfg.max then Some(TOO_BIG)
    else if f.opcode == CONTINUATION && !Unfinished(before) then Some(PROTOCOL_ERROR)
    else if f.opcode != CONTINUATION && Unfinished(before) then Some(PROTOCOL_ERROR)
    else if |SoFar(all)| > cfg.max then Some(TOO_BIG)
    else if !Unfinished(all) && KindOf(all) == TEXT && !cfg.utf8(SoFar(all)) then Some(INVALID_PAYLOAD)
    else None
  }

  /** What the application is told of a frame that nothing is wrong with. */
  ghost predicate Tells(cfg: Settings, before: seq<Frame>, f: Frame, events: seq<Event>) {
    var all := before + [f];
    if f.opcode == CLOSE then
      exists code, reason :: Means(f.payload, code, reason, cfg.utf8) && events == [Closed(code, reason)]
    else if f.opcode == PING then events == [Pinged(f.payload)]
    else if f.opcode == PONG then events == [Ponged(f.payload)]
    else if Unfinished(all) then events == []
    else events == [if KindOf(all) == TEXT then TextMessage(SoFar(all)) else BinaryMessage(SoFar(all))]
  }

  /** The parser stands where the frames have brought it. */
  ghost predicate Stands(p: Parser, frames: seq<Frame>) {
    && p.opcode == (if Unfinished(frames) then Some(KindOf(frames)) else None)
    && (Unfinished(frames) ==> p.payload == SoFar(frames))
  }

  lemma CloseTells(cfg: Settings, p: Parser, before: seq<Frame>, f: Frame)
    requires f.opcode == CLOSE
    ensures var r := Receive(cfg, p, f);
            match Fault(cfg, before, f)
            case Some(code) => r.error == Some(code)
            case None => r.error.None? && r.next == p && Tells(cfg, before, f, r.events)
  {
    forall code, reason | Means(f.payload, code, reason, cfg.utf8)
      ensures ParseClose(f.payload, cfg.utf8) == Ok(Closed(code, reason))
    {
      CloseMeans(f.payload, code, reason, cfg.utf8);
    }
    match ParseClose(f.payload, cfg.utf8) {
      case Ok(Closed(code, reason)) => CloseMeans(f.payload, code, reason, cfg.utf8);
      case _ =>
    }
  }

  lemma OneMoreFrame(before: seq<Frame>, f: Frame)
    ensures var all := before + [f];
            && Unfinished(all) == (if Control(f.opcode) then Unfinished(before) else !f.fin)
            && SoFar(all) == (if Control(f.opcode) then SoFar(before)
                              else (if f.opcode == CONTINUATION then SoFar(before) else []) + f.payload)
            && KindOf(all) == (if Control(f.opcode) || f.opcode == CONTINUATION then KindOf(before) else f.opcode)
  {
    assert (before + [f])[..|before|] == before;
  }

  /** One more frame. */
  lemma FrameTells(cfg: Settings, p: Parser, before: seq<Frame>, f: Frame)
    requires Known(f.opcode) && Stands(p, before)
    ensures var r := Receive(cfg, p, f);
            match Fault(cfg, before, f)
            case Some(code) => r.error == Some(code)
            case None => r.error.None? && Stands(r.next, before + [f]) && Tells(cfg, before, f, r.events)
  {
    OneMoreFrame(before, f);
    if f.opcode == CLOSE {
      CloseTells(cfg, p, before, f);
    } else {
      hide ParseClose;
    }
  }

  // ----- Whole conversations ------------------------------------------------------------------------

  function FramesOf(sents: seq<Sent>): (frames: seq<Frame>)
    ensures |frames| == |sents| && forall i :: 0 <= i < |sents| ==> frames[i] == sents[i].frame
  {
    seq(|sents|, i requires 0 <= i < |sents| => sents[i].frame)
  }

  /** The events that are told of these frames, none of which is at fault. */
  ghost predicate AllTold(cfg: Settings, frames: seq<Frame>, events: seq<Event>)
    decreases |frames|
  {
    if frames == [] then events == []
    else
      var before, f := frames[..|frames| - 1], frames[|frames| - 1];
      Fault(cfg, before, f).None? &&
      exists k :: 0 <= k <= |events| && AllTold(cfg, before, events[..k]) && Tells(cfg, before, f, events[k..])
  }

  /** The frames are received up to the first one at fault, whose code is raised; what is
      told is told of those before it. */
  ghost predicate Understood(cfg: Settings, frames: seq<Frame>, events: seq<Event>, error: Option<nat>) {
    exists n: nat :: StopsAt(cfg, frames, n, events, error)
  }

  ghost predicate StopsAt(cfg: Settings, frames: seq<Frame>, n: nat, events: seq<Event>, error: Option<nat>) {
    && n <= |frames| && AllTold(cfg, frames[..n], events)
    && (if n == |frames| then error.None? else error.Some? && error == Fault(cfg, frames[..n], frames[n]))
  }

  lemma {:induction false} FramesAreUnderstood(cfg: Settings, sents: seq<Sent>)
    requires AllSound(cfg, sents)
    ensures var t := ReceiveAll(cfg, Parser(None, []), sents);
            && Understood(cfg, FramesOf(sents), t.events, t.error)
            && (t.error.None? ==> Stands(t.next, FramesOf(sents)) && AllTold(cfg, FramesOf(sents), t.events))
  {
    hide Fault, Tells, Receive, OnFrame, Stands, AllTold;
    var frames := FramesOf(sents);
    if sents == [] {
      NothingYet(cfg, frames);
    } else {
      var front, last := sents[..|sents| - 1], sents[|sents| - 1];
      var before, f := FramesOf(front), last.frame;
      assert sents == front + [last] && frames == before + [f] && frames[..|before|] == before;
      FramesAreUnderstood(cfg, front);
      ReceiveConcat(cfg, Parser(None, []), front, [last]);
      var t := ReceiveAll(cfg, Parser(None, []), front);
      OneReceived(cfg, t.next, last);
      if t.error.Some? {
        UnderstoodAlready(cfg, before, f, t.events, t.error);
      } else {
        assert Sound(cfg, last);
        FrameTells(cfg, t.next, before, f);
        var r := Receive(cfg, t.next, f);
        OneMoreUnderstood(cfg, before, f, t.events, r);
      }
    }
  }

  lemma NothingYet(cfg: Settings, frames: seq<Frame>)
    requires frames == []
    ensures AllTold(cfg, frames, []) && Understood(cfg, frames, [], None) && Stands(Parser(None, []), frames)
  {
    assert frames[..0] == [] && StopsAt(cfg, frames, 0, [], None);
  }

  lemma OneReceived(cfg: Settings, p: Parser, s: Sent)
    ensures ReceiveAll(cfg, p, [s]) == Receive(cfg, p, s.frame)
  {
    hide OnFrame;
    var r := Receive(cfg, p, s.frame);
    assert [s][1..] == [] && ReceiveAll(cfg, r.next, []) == Reaction(r.next, [], None);
    assert r.events + [] == r.events;
  }

  lemma UnderstoodAlready(cfg: Settings, before: seq<Frame>, f: Frame, events: seq<Event>, error: Option<nat>)
    requires Understood(cfg, before, events, error) && error.Some?
    ensures Understood(cfg, before + [f], events, error)
  {
    hide Fault, AllTold;
    var n: nat :| StopsAt(cfg, before, n, events, error);
    assert (before + [f])[..n] == before[..n] && (before + [f])[n] == before[n];
    assert StopsAt(cfg, before + [f], n, events, error);
  }

  lemma OneMoreUnderstood(cfg: Settings, before: seq<Frame>, f: Frame, events: seq<Event>, r: Reaction)
    requires AllTold(cfg, before, events) && (r.error.Some? ==> r.events == [])
    requires match Fault(cfg, before, f)
             case Some(code) => r.error == Some(code)
             case None => r.error.None? && Tells(cfg, before, f, r.events)
    ensures Understood(cfg, before + [f], events + r.events, r.error)
    ensures r.error.None? ==> AllTold(cfg, before + [f], events + r.events)
  {
    hide Fault, Tells;
    var all, told := before + [f], events + r.events;
    assert all[..|before|] == before && all[..|all|] == all;
    if r.error.None? {
      assert told[..|events|] == events && told[|events|..] == r.events;
      assert AllTold(cfg, all, told);
      assert StopsAt(cfg, all, |all|, told, None);
    } else {
      assert events + [] == events;
      assert StopsAt(cfg, all, |before|, events, r.error);
    }
  }

  /** Whatever frames a peer has sent, in whatever pieces their bytes arrive: it is refused
      exactly for the first frame that is at fault after those before it, with the code for
      that; and what the application is told is, frame by frame, what they say. */
  lemma WireIsUnderstood(cfg: Settings, sents: seq<Sent>, pieces: seq<bytes>)
    requires AllSound(cfg, sents) && pieces != [] && Flat(pieces) == Wire(cfg, sents)
    ensures var s := FeedPieces(cfg, Parser(None, []), [], pieces);
            && (exists all :: s.events <= all && Understood(cfg, FramesOf(sents), all, s.error))
            && (s.error.None? ==> s.rest == [] && AllTold(cfg, FramesOf(sents), s.events))
  {
    hide AllTold, Understood;
    var p := Parser(None, []);
    PiecesParseAlike(cfg, p, [], pieces);
    assert [] + Flat(pieces) == Flat(pieces);
    FeedNothingElse(cfg, p, sents);
    FramesAreUnderstood(cfg, sents);
  }
}
