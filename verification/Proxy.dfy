/** One proxied request: what the application behind the proxy gets to say. */
module Proxy {
  import opened Wrappers
  import opened Bytes
  import opened Response
  import opened Upstream
  import opened Relay
  import Chunked
  import Head

  /** Reads the head of an answer, up to and with its empty line. */
  type HeadParser = bytes -> Option<Answer>

  /** The final answer and the bytes after its head; interim answers are skipped, and a
      head that is too large, malformed, unfinished or an upgrade is none. */
  function HeadOf(parse: HeadParser, limit: nat, s: bytes): Option<(Answer, bytes)>
    decreases |s|
  {
    match Head.FindEnd(s)
    case None => None
    case Some(i) =>
      if i + 4 > limit then None
      else
        match parse(s[..i + 4])
        case None => None
        case Some(a) =>
          if a.status >= 200 then Some((a, s[i + 4..]))
          else if a.status == 101 then None
          else HeadOf(parse, limit, s[i + 4..])
  }

  method ReadHead(connection: UpstreamConnection, parse: HeadParser, limit: nat) returns (a: Option<Answer>)
    requires connection.Valid()
    modifies connection
    ensures connection.Valid()
    ensures match HeadOf(parse, limit, old(connection.Stream()))
            case None => a.None?
            case Some(found) => a == Some(found.0) && connection.Stream() == found.1
  {
    while true
      invariant connection.Valid()
      invariant HeadOf(parse, limit, connection.Stream()) == HeadOf(parse, limit, old(connection.Stream()))
      decreases |connection.Stream()|
    {
      var block := connection.ReadLineBlock(limit);
      if block.None? {
        return None;
      }
      a := parse(block.value);
      if a.None? || a.value.status >= 200 {
        return;
      }
      if a.value.status == 101 {
        return None;
      }
    }
  }

  /** Nothing was sent, a whole answer was, or the beginning of one. */
  datatype Verdict = Refused | Whole | Cut

  /** Why an answer may have been cut short: its upstream broke off, or it is longer than
      the limit; or, in the chunked coding, its framing is broken or its lines are long. */
  ghost predicate CutShort(delimiter: Delimiter, s: bytes, limit: nat) {
    match delimiter
    case Nothing => false
    case Length(n) => |s| < n
    case Coding => Excused(s, limit)
    case UntilEof => !WithinLimit(limit, |s|)
  }

  predicate Startable(a: Answer, limit: nat) {
    a.delimiter.Length? ==> WithinLimit(limit, a.delimiter.n)
  }

  /** The messages of an answer to which the bytes `s` belong. */
  ghost predicate Faithful(a: Answer, s: bytes, limit: nat, verdict: Verdict, bodies: seq<bytes>, sent: seq<Message>) {
    match verdict
    case Refused => sent == [] && !Startable(a, limit)
    case Whole =>
      && Startable(a, limit) && Completed(a.delimiter, s) && WithinLimit(limit, |Decoded(a.delimiter, s)|)
      && Flat(bodies) == Decoded(a.delimiter, s)
      && sent == [StartOf(a)] + Pieces(bodies) + EndOf(a, s)
    case Cut =>
      && Startable(a, limit) && CutShort(a.delimiter, s, limit) && Flat(bodies) <= Decoded(a.delimiter, s)
      && sent == [StartOf(a)] + Pieces(bodies)
  }

  method StreamBody(connection: UpstreamConnection, a: Answer, limit: nat)
    returns (bodies: seq<bytes>, trailers: seq<Field>, ok: bool)
    requires connection.Valid() && Startable(a, limit)
    modifies connection
    ensures Flat(bodies) <= Decoded(a.delimiter, old(connection.Stream()))
    ensures ok ==> Completed(a.delimiter, old(connection.Stream())) && Flat(bodies) == Decoded(a.delimiter, old(connection.Stream()))
    ensures ok ==> WithinLimit(limit, |Flat(bodies)|)
    ensures ok && a.delimiter.Coding? ==> trailers == Chunked.Feed(Chunked.INITIAL, old(connection.Stream()), 0).next.trailers
    ensures !ok ==> CutShort(a.delimiter, old(connection.Stream()), limit)
  {
    trailers := [];
    match a.delimiter {
      case Nothing => bodies, ok := [], true;
      case Length(n) => bodies, ok := StreamLength(connection, n, limit);
      case Coding => bodies, trailers, ok := StreamChunked(connection, limit);
      case UntilEof => bodies, ok := StreamUntilEof(connection, limit);
    }
  }

  /** Relays the answer, body and trailers.  How the upstream went is never looked at, so
      a close-delimited body that a reset cuts is relayed as a whole one. */
  method RelayAnswer(connection: UpstreamConnection, a: Answer, limit: nat)
    returns (sent: seq<Message>, bodies: seq<bytes>, verdict: Verdict)
    requires connection.Valid()
    modifies connection
    ensures Faithful(a, old(connection.Stream()), limit, verdict, bodies, sent)
    ensures a.delimiter.UntilEof? ==> (verdict.Whole? <==> WithinLimit(limit, |old(connection.Stream())|))
    ensures verdict.Whole? ==>
              (Intact(a.delimiter, old(connection.Stream()), connection.reset) <==> !(a.delimiter.UntilEof? && connection.reset))
  {
    sent, bodies := [], [];
    if a.delimiter.Length? && limit > 0 && a.delimiter.n > limit {
      return sent, bodies, Refused;
    }
    sent := [StartOf(a)];
    var trailers, ok;
    bodies, trailers, ok := StreamBody(connection, a, limit);
    sent := sent + Pieces(bodies);
    if !ok {
      return sent, bodies, Cut;
    }
    var ending := [Body([], false, false)];
    if a.trailers && a.delimiter.Coding? {
      ending := ending + [Trailers(Forwarded(trailers), false)];
    }
    assert [Body([], false, false)] + [] == [Body([], false, false)];
    return sent + ending, bodies, Whole;
  }

  // ----- Attempts ---------------------------------------------------------------------------

  /** How an attempt goes before there is an answer: no connection; or one, fresh or out
      of the pool, over which the request gets through or not, what then arrives, and how
      the connection is lost after that. */
  datatype Try = Unreachable | Reached(coming: seq<bytes>, reset: bool, reused: bool, delivered: bool)

  datatype Failure = CannotReach | RequestFailed | NoAnswer | TooLong

  function HeadOfTry(t: Try, parse: HeadParser, headLimit: nat): Option<(Answer, bytes)> {
    if t.Reached? && t.delivered then HeadOf(parse, headLimit, Flat(t.coming)) else None
  }

  /** The attempt yields an answer that can be started. */
  predicate Answers(t: Try, parse: HeadParser, headLimit: nat, limit: nat) {
    var found := HeadOfTry(t, parse, headLimit);
    found.Some? && Startable(found.value.0, limit)
  }

  /** What the client is told about an attempt that yields no answer. */
  function WhyNot(t: Try, parse: HeadParser, headLimit: nat): Failure {
    if t.Unreachable? then CannotReach
    else if !t.delivered then RequestFailed
    else if HeadOfTry(t, parse, headLimit).None? then NoAnswer
    else TooLong
  }

  function BadGateway(reason: bytes): seq<Message> {
    [Start(502, [(Head.Text("content-type"), Head.Text("text/plain; charset=utf-8")),
                 (Head.Text("content-length"), Head.Ascii(|reason|))], false, true),
     Body(reason, false, false)]
  }

  datatype Outcome = Failed(why: Failure) | Relayed(verdict: Verdict, bodies: seq<bytes>)

  /** One attempt: a connection, the request, and its answer relayed, or the reason why
      nothing was. */
  method Attempt(t: Try, parse: HeadParser, headLimit: nat, limit: nat) returns (sent: seq<Message>, outcome: Outcome)
    ensures match outcome
            case Failed(why) => !Answers(t, parse, headLimit, limit) && why == WhyNot(t, parse, headLimit) && sent == []
            case Relayed(verdict, bodies) =>
              && Answers(t, parse, headLimit, limit) && !verdict.Refused?
              && var found := HeadOfTry(t, parse, headLimit).value;
                 Faithful(found.0, found.1, limit, verdict, bodies, sent)
  {
    hide HeadOf, Faithful;
    match t {
      case Unreachable => return [], Failed(CannotReach);
      case Reached(coming, reset, reused, delivered) =>
        if !delivered {
          return [], Failed(RequestFailed);
        }
        var connection := new UpstreamConnection(coming, reset);
        var a := ReadHead(connection, parse, headLimit);
        if a.None? {
          return [], Failed(NoAnswer);
        }
        var bodies, verdict;
        sent, bodies, verdict := RelayAnswer(connection, a.value, limit);
        RefusedExactly(a.value, HeadOfTry(t, parse, headLimit).value.1, limit, verdict, bodies, sent);
        outcome := if verdict.Refused? then Failed(TooLong) else Relayed(verdict, bodies);
    }
  }

  /** Nothing is sent of an answer exactly if it cannot be started: if its length is announced,
      and beyond the limit. */
  lemma RefusedExactly(a: Answer, s: bytes, limit: nat, verdict: Verdict, bodies: seq<bytes>, sent: seq<Message>)
    requires Faithful(a, s, limit, verdict, bodies, sent)
    ensures verdict.Refused? <==> !Startable(a, limit)
    ensures verdict.Refused? <==> a.delimiter.Length? && limit > 0 && a.delimiter.n > limit
    ensures verdict.Refused? ==> sent == []
  {
  }

  /** Relay fidelity: for all upstream bytes, cuts and closing points the application is
      sent exactly one of a 502 and nothing before it; a start, the whole decoded body
      and the end, only if the upstream's framing was complete; or a start and a prefix
      of the body, and the abort.  A failed attempt that is retried leaves nothing. */
  method Http(tries: seq<Try>, retryable: bool, parse: HeadParser, headLimit: nat, limit: nat, say: Failure -> bytes)
    returns (sent: seq<Message>, outcome: Outcome, used: nat)
    requires |tries| == 2 && (tries[1].Reached? ==> !tries[1].reused)
    ensures used < 2
    ensures match outcome
            case Failed(why) =>
              && !Answers(tries[used], parse, headLimit, limit)
              && why == WhyNot(tries[used], parse, headLimit) && sent == BadGateway(say(why))
            case Relayed(verdict, bodies) =>
              && Answers(tries[used], parse, headLimit, limit) && !verdict.Refused?
              && var found := HeadOfTry(tries[used], parse, headLimit).value;
                 Faithful(found.0, found.1, limit, verdict, bodies, sent)
    ensures var again := retryable && tries[0].Reached? && tries[0].reused && !Answers(tries[0], parse, headLimit, limit);
            used == if again then 1 else 0
  {
    hide Answers, WhyNot, HeadOfTry, Faithful;
    var attempts := if retryable then 2 else 1;
    used := 0;
    outcome := Failed(CannotReach);
    while used < attempts
      invariant used < attempts
      invariant used == 1 ==> tries[0].Reached? && tries[0].reused && !Answers(tries[0], parse, headLimit, limit)
      decreases attempts - used
    {
      sent, outcome := Attempt(tries[used], parse, headLimit, limit);
      if outcome.Relayed? {
        return;
      }
      if used + 1 < attempts && tries[used].Reached? && tries[used].reused {
        used := used + 1;
        continue;
      }
      break;
    }
    sent := BadGateway(say(outcome.why));
  }
}
