/** The frame parser as an object that consumes a shared buffer in place. */
module FrameParsing {
  import opened Wrappers
  import opened Bytes
  import opened Frames
  import opened WebSocket

  class FrameParser {
    const cfg: Settings
    var opcode: Option<nat>
    var payload: bytes

    constructor (cfg: Settings)
      ensures this.cfg == cfg && State() == Parser(None, [])
    {
      this.cfg, opcode, payload := cfg, None, [];
    }

    function State(): Parser
      reads this
    {
      Parser(opcode, payload)
    }

    /** Acts on one frame. */
    method Take(f: Frame) returns (events: seq<Event>, error: Option<nat>)
      modifies this
      ensures Reaction(State(), events, error) == OnFrame(cfg, old(State()), f)
    {
      events, error := [], None;
      if f.opcode == CLOSE {
        match ParseClose(f.payload, cfg.utf8) {
          case Err(code) => error := Some(code);
          case Ok(event) => events := [event];
        }
        return;
      }
      if f.opcode == PING {
        return [Pinged(f.payload)], None;
      }
      if f.opcode == PONG {
        return [Ponged(f.payload)], None;
      }
      if f.opcode == CONTINUATION {
        if opcode.None? {
          return [], Some(PROTOCOL_ERROR);
        }
      } else {
        if opcode.Some? {
          return [], Some(PROTOCOL_ERROR);
        }
        opcode, payload := Some(f.opcode), [];
      }
      if |payload| + |f.payload| > cfg.max {
        return [], Some(TOO_BIG);
      }
      payload := payload + f.payload;
      if !f.fin {
        return;
      }
      var text := opcode == Some(TEXT);
      opcode := None;
      if !text {
        events := [BinaryMessage(payload)];
      } else if cfg.utf8(payload) {
        events := [TextMessage(payload)];
      } else {
        error := Some(INVALID_PAYLOAD);
      }
    }

    /** Consumes every complete frame in the buffer and returns their events, or the
        close code of the first violation. */
    method Feed(buffer: Buffer) returns (events: seq<Event>, error: Option<nat>)
      modifies this, buffer
      ensures var f := WebSocket.Feed(cfg, old(State()), old(buffer.data));
              && State() == f.next && buffer.data == f.rest && error == f.error
              && (error.None? ==> events == f.events)
    {
      events := [];
      ghost var whole := WebSocket.Feed(cfg, State(), buffer.data);
      assert [] + whole.events == whole.events;
      while true
        invariant var f := WebSocket.Feed(cfg, State(), buffer.data); f.(events := events + f.events) == whole
        decreases |buffer.data|
      {
        ghost var p, data := State(), buffer.data;
        var r := TakeFrame(buffer, cfg.max, cfg.masked);
        if r.Incomplete? {
          assert events + [] == events;
          return events, None;
        }
        if r.Violation? {
          return [], Some(r.code);
        }
        var more;
        more, error := Take(r.frame);
        if error.Some? {
          return [], error;
        }
        ConcatAssoc(events, more, WebSocket.Feed(cfg, State(), buffer.data).events);
        events := events + more;
      }
    }
  }
}
