/** Running an application: the server completes the answers that applications leave open. */
module AppRun {
  import opened Wrappers
  import opened Bytes
  import opened Head
  import opened Response
  import opened ResponseFraming
  import Chunked

  // ----- Abandoned answers --------------------------------------------------------------------

  /** The message that ends an answer its application cannot finish. */
  const ABANDONED := Body([], false, true)

  /** An answer that is abandoned before its end closes the connection, and with the
      chunked coding, encoded or not, what went out is not a whole message. */
  lemma AbandonedNeverLooksWhole(ex: Exchange, keepAlive: bool, msgs: seq<Message>)
    requires StartsOnce(msgs, false)
    requires var r := Run(ex, Begin(keepAlive), msgs); !r.ended && r.head.Some? && !r.discard
    ensures var r := Run(ex, Begin(keepAlive), msgs);
            var w := Conclude(Taken(ex, r, ABANDONED));
            && w.ended && !w.keepAlive && w.head == r.head && w.octets == r.octets && w.chunked == r.chunked
            && (w.chunked ==> !Chunked.WholeChunked(w.octets))
  {
    AnswerOk(ex, keepAlive, msgs);
    var r := Run(ex, Begin(keepAlive), msgs);
    if r.chunked {
      UnfinishedIsNotWhole(r);
    }
  }

  // ----- The application and what is sent on its behalf ------------------------------------------

  /** How the application left: by returning, by an exception, or by giving its answer up. */
  datatype Ending = Returned | Raised | GaveUp

  /** What the request has noted about the messages that were sent. */
  datatype Notes = Notes(started: bool, announced: bool, trailersSent: bool, bodyEnded: bool)

  const NOTHING := Notes(false, false, false, false)

  function Note(n: Notes, m: Message): Notes {
    match m
    case Start(status, _, trailers, _) => if status >= 200 then n.(started := true, announced := trailers) else n
    case Body(_, more, aborted) => if !more && !aborted then n.(bodyEnded := true) else n
    case Trailers(_, more) => n.(trailersSent := true, bodyEnded := n.bodyEnded || !more)
  }

  function NoteAll(n: Notes, msgs: seq<Message>): Notes
    decreases |msgs|
  {
    if msgs == [] then n else NoteAll(Note(n, msgs[0]), msgs[1..])
  }

  /** The messages that sending does not refuse: one start, and nothing else before it. */
  predicate Allowed(n: Notes, msgs: seq<Message>)
    decreases |msgs|
  {
    msgs == [] ||
    (var m := msgs[0];
     && (if m.Start? then m.status >= 200 ==> !n.started else n.started)
     && Allowed(Note(n, m), msgs[1..]))
  }

  lemma {:induction false} AllowedStartsOnce(n: Notes, msgs: seq<Message>)
    requires Allowed(n, msgs)
    ensures StartsOnce(msgs, n.started)
    decreases |msgs|
  {
    if msgs != [] {
      AllowedStartsOnce(Note(n, msgs[0]), msgs[1..]);
    }
  }

  /** Terminates an answer, with an empty trailer section where one was announced. */
  function Finishing(n: Notes): seq<Message> {
    if n.announced && !n.trailersSent then [Trailers([], false)]
    else if n.bodyEnded then []
    else [Body([], false, false)]
  }

  /** What the server sends after the application has left. */
  function Epilogue(n: Notes, ending: Ending): seq<Message> {
    match ending
    case GaveUp =>
      if !n.started then [Start(502, [], false, true), Body(Text("Bad Gateway"), false, false)]
      else if n.bodyEnded then [] else [ABANDONED]
    case Raised =>
      if !n.started then [Start(500, [], false, true), Body(Text("Internal Server Error"), false, false)]
      else if !n.bodyEnded then [ABANDONED]
      else if n.announced && !n.trailersSent then Finishing(n)
      else []
    case Returned => if n.started then Finishing(n) else [Start(204, [], false, true), Body([], false, false)]
  }

  /** How the notes and the writer agree once the writer has caught up. */
  ghost predicate Agrees(n: Notes, w: Writer) {
    && (n.started <==> w.head.Some?)
    && (!n.started ==> n == NOTHING && w == Begin(w.keepAlive).(interim := w.interim))
    && (n.started && !w.ended ==>
          && (w.discard ==> !w.awaitingTrailers && !w.chunked)
          && (!w.discard ==> w.trailersExpected == n.announced)
          && (w.awaitingTrailers <==> n.bodyEnded)
          && (w.awaitingTrailers ==> w.chunked && w.trailersExpected))
  }

  lemma TakenAgrees(ex: Exchange, n: Notes, w: Writer, m: Message)
    requires Agrees(n, w) && !w.ended && (if m.Start? then m.status >= 200 ==> !n.started else n.started)
    ensures Agrees(Note(n, m), Taken(ex, w, m))
  {
    match m
    case Start(status, _, _, _) =>
      if status >= 200 {
        StartKeeps(ex, w, m);
      }
    case Body(_, _, _) => WrittenKeeps(ex, w, m);
    case Trailers(_, _) =>
  }

  lemma {:induction false} RunAgrees(ex: Exchange, n: Notes, w: Writer, msgs: seq<Message>)
    requires Agrees(n, w) && !w.ended && Allowed(n, msgs)
    ensures var v := Run(ex, w, msgs); !v.ended ==> Agrees(NoteAll(n, msgs), v)
    decreases |msgs|
  {
    if msgs != [] {
      TakenAgrees(ex, n, w, msgs[0]);
      if !Taken(ex, w, msgs[0]).ended {
        RunAgrees(ex, Note(n, msgs[0]), Taken(ex, w, msgs[0]), msgs[1..]);
      }
    }
  }

  /** The writer is left waiting: it will open, or has opened, a trailer section that
      nobody closes.  Trailers have been sent but none of them was the last, and the
      application returned, or left after its body had ended; or the body had ended and
      the application gave up before its trailers. */
  predicate LeftWaiting(n: Notes, w: Writer, ending: Ending) {
    && !w.ended && w.chunked && n.announced
    && match ending
       case Returned => n.trailersSent
       case Raised => n.bodyEnded && n.trailersSent
       case GaveUp => n.bodyEnded
  }

  lemma EndingBody(ex: Exchange, w: Writer, m: Message)
    requires m.Body? && !m.more && w.head.Some? && !w.ended
    ensures OnBody(ex, w, m).ended <==> !(w.chunked && w.trailersExpected && !w.discard && !m.aborted)
  {
    WrittenKeeps(ex, w, m);
  }

  lemma EpilogueEnds(ex: Exchange, n: Notes, w: Writer, ending: Ending)
    requires Agrees(n, w) && !w.ended && n.started
    ensures Run(ex, w, Epilogue(n, ending)).ended <==> !LeftWaiting(n, w, ending)
  {
    var e := Epilogue(n, ending);
    if e != [] {
      assert e == [e[0]];
      RunOne(ex, w, e[0]);
      if e[0].Body? {
        EndingBody(ex, w, e[0]);
      }
    }
  }

  lemma PlainAnswerEnds(ex: Exchange, w: Writer, start: Message, body: Message)
    requires !w.ended && !w.trailersExpected
    requires start.Start? && start.status >= 200 && !start.trailers && start.moreBody
    requires body.Body? && !body.more && !body.aborted
    ensures Run(ex, w, [start, body]).ended
  {
    StartKeeps(ex, w, start);
    assert [start, body] == [start] + [body];
    RunFirst(ex, w, start, [body]);
    RunOne(ex, OnStart(ex, w, start), body);
    EndingBody(ex, OnStart(ex, w, start), body);
  }

  /** The server does see to it that every answer ends, whatever messages the application
      sent and however it left, except in the cases above, where the writer is left
      waiting for trailers that nobody will send. */
  lemma AnswersEndUnlessLeftWaiting(ex: Exchange, keepAlive: bool, msgs: seq<Message>, ending: Ending)
    requires Allowed(NOTHING, msgs)
    ensures var n, w := NoteAll(NOTHING, msgs), Run(ex, Begin(keepAlive), msgs);
            Run(ex, Begin(keepAlive), msgs + Epilogue(n, ending)).ended <==> !LeftWaiting(n, w, ending)
  {
    var n, w := NoteAll(NOTHING, msgs), Run(ex, Begin(keepAlive), msgs);
    RunConcat(ex, Begin(keepAlive), msgs, Epilogue(n, ending));
    if !w.ended {
      RunAgrees(ex, NOTHING, Begin(keepAlive), msgs);
      if n.started {
        EpilogueEnds(ex, n, w, ending);
      } else {
        PlainAnswerEnds(ex, w, Epilogue(n, ending)[0], Epilogue(n, ending)[1]);
      }
    }
  }

  /** An application that announces trailers and returns in the middle of its body makes
      the server send the trailer section first: the chunked answer goes out without its
      last chunk, and the connection is kept as it was. */
  lemma FinishingCutsTheBody(ex: Exchange, keepAlive: bool, msgs: seq<Message>)
    requires Allowed(NOTHING, msgs)
    requires var n := NoteAll(NOTHING, msgs); n.started && n.announced && !n.trailersSent && !n.bodyEnded
    requires var w := Run(ex, Begin(keepAlive), msgs); !w.ended && w.chunked
    ensures var w := Run(ex, Begin(keepAlive), msgs);
            var v := Conclude(Run(ex, Begin(keepAlive), msgs + Epilogue(NoteAll(NOTHING, msgs), Returned)));
            v.ended && v.octets == w.octets && v.keepAlive == Conclude(w).keepAlive && !Chunked.WholeChunked(v.octets)
  {
    hide Run, NoteAll, Allowed, Chunked.WholeChunked;
    AllowedStartsOnce(NOTHING, msgs);
    AnswerOk(ex, keepAlive, msgs);
    var n, w := NoteAll(NOTHING, msgs), Run(ex, Begin(keepAlive), msgs);
    RunAgrees(ex, NOTHING, Begin(keepAlive), msgs);
    UnfinishedIsNotWhole(w);
    RunConcat(ex, Begin(keepAlive), msgs, Epilogue(n, Returned));
    RunOne(ex, w, Trailers([], false));
  }

  /** When the application has ended its body, and its trailers if it announced some, the
      server adds nothing. */
  lemma NothingIsAddedAfterTheEnd(ex: Exchange, keepAlive: bool, msgs: seq<Message>, ending: Ending)
    requires var n := NoteAll(NOTHING, msgs); n.started && n.bodyEnded && (n.announced ==> n.trailersSent)
    ensures var w := Run(ex, Begin(keepAlive), msgs);
            Run(ex, Begin(keepAlive), msgs + Epilogue(NoteAll(NOTHING, msgs), ending)) == w
  {
    RunConcat(ex, Begin(keepAlive), msgs, Epilogue(NoteAll(NOTHING, msgs), ending));
  }
}
