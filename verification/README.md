# Verification of the echocorn server core

Echocorn is an ASGI server for HTTP/1.1, HTTP/2 and WebSocket with a rate limiter and
a reverse proxy. This project models the parts of it that keep state between bytes,
requests and tasks, and proves what each of them promises. `dafny verify dfyconfig.toml`
checks everything.

Code that changes things in place is modelled in place: the limiter dictionaries, the
packed ring buffers of the shared table, the decoders that eat a shared receive buffer,
the response writer, the HTTP/2 stream books, the upstream connection. Every such method
is proved equal to a function on values, and the results below are proved about those
functions for all inputs and all runs.

- **Rate limiting** (`Window`, `History`, `LocalCounters`, `SharedCounters`, `ProbeTable`,
  `ProbeProgress`, `TableSweeps`, `Promises`, `Agreement`). The rule for one client is a function on its
  remembered requests, and answers as the rule that remembers all of them: a client that is
  told to wait is refused until then and told exactly what is left, and one that does not
  come too early is served within its allowance. The dictionaries and the packed slots both
  follow it; any number of workers that probe the shared table one locked slot at a time
  answer like one limiter, with the sweeps between them that strand nobody. Of the requests
  that the dictionaries or the table answer, nobody is served more than the allowance, plus
  one burst, in any window, however the clocks of different workers compare; a sweep that
  does strand a client can break this, and the requests that a worker counts on its own
  after a time-out come on top.
- **HTTP/1.1 requests** (`Head`, `HeadText`, `RequestText`, `HeadGrammar`, `HeadRefusals`, `Chunked`, `ChunkedDecoder`,
  `ChunkedRoundTrip`, `ChunkedGrammar`, `Connection`, `MessageBoundary`, `Progress`,
  `KeptConnection`, `PrintedRequests`, `Reuse`, `BodyLimit`). The head parser and the chunked
  decoder do not depend on how the input is cut; a head that was printed is accepted exactly
  if it is acceptable and says what was printed; parser and decoder accept their grammars
  and nothing else. In every interleaving of reader, writer, application and arriving
  bytes, what is taken off the buffer before the connection is reused is a whole number of
  complete messages, one for each exchange, and there is only one way to cut the input like
  that. A client that sends requests which allow it has all of them read, one after the
  other, on a connection that stays open; a request that does not allow it is the last one.
- **HTTP/1.1 responses** (`Response`, `Selection`, `ResponseFraming`, `WrittenAnswer`,
  `ResponseWriter`, `AppRun`, `ServerAnswers`). When a connection is kept after an answer,
  exactly one complete answer went out if and only if the messages came in an order that its
  framing can carry and the lengths in the start agree, where one delimits the body; for
  plain, chunked and encoded answers alike. What goes out is the head of the start, the
  application's fields that may, and the octets of its body. What the server adds for
  applications that leave early is part of the model.
- **WebSocket** (`Frames`, `WebSocket`, `FrameParser`, `Reassembly`, `Conversation`). Printer
  and parser of frames are inverse and mask bit by bit, and a fragmented message arrives as
  one. A peer is refused exactly for the first frame that is at fault after all those before.
- **HTTP/2 flow control** (`Credit`, `Http2Handler`, `SendData`). Credit is handed back
  exactly once, the application is given everything that arrives until the request is over;
  what is sent fits the windows.
- **The proxy** (`Upstream`, `AnswerHead`, `AnswerText`, `AnswerGrammar`, `Relay`, `Proxy`, `RelayedAnswer`,
  `ProxiedResponse`). An answer is relayed whole, or cut, or replaced by a 502; every field
  passes that no rule drops, and what an upstream prints is what the client gets. Composed
  with the reader of the upstream's head, the loop that picks the fields to forward, and the
  response writer: as far as the framing goes, a cut answer looks complete to the client if
  and only if nothing but the close of the connection delimits it, which takes a client of
  HTTP/1.0. Whether the cut shows inside the body, as it may in a compressed one, is another
  matter.
- **Content codings** (`Negotiation`). The choice is the best acceptable coding and does
  not depend on the order of the entries.

## What turned out not to hold

Where the obvious claim fails, the project has a concrete run that breaks it and the exact
condition under which it holds.

- Clearing a slot of the shared table leaves no tombstone (`echocorn/ratelimit.py:601`), and
  a request takes the first free slot. The table keeps its shape after a sweep if and only
  if no client sits behind the cleared slot (`ClearingKeepsShape`), and the workers in flight
  keep their ground if and only if none has come past it (`ClearingKeepsWorkers`); otherwise
  that client is served from an empty window (`ClearingStrandsClient`), and
  `HarmfulSweepServesTwice` is a whole run in which a client limited to one request in ten
  seconds is served twice in four.
- The length limit on a chunk size line or trailer line is looked at only while the line is
  unfinished (`echocorn/http1.py:132-136`, `echocorn/http1.py:175-179`), so a long line is
  accepted whole and refused when cut. Of input that is accepted whole, no cutting is refused
  if and only if its lines are short (`CuttingIsHarmlessIffShort`); `LongLineMessage` is a
  whole message that every limit accepts in one piece and refuses in two.
- A size of more than eight digits is refused as too large when the smallest number of that
  many digits is (`echocorn/http1.py:144-147`), which is meant for sizes that exceed the limit
  and forgets leading zeros: one octet announced as 000000001 is refused under a limit of a
  thousand (`LeadingZerosRefused`). `SizeLineWithLimit` has the exact condition.
- A client that hammers through its lockout is said to start from a clean window once it is
  over (`echocorn/ratelimit.py:234-237`). The requests before the lockout still count:
  with one request in ten seconds and a lockout of one second it is refused again as soon as
  the lockout is over (`RefusedAgainAfterLockout`). Its window is clean if and only if the last
  request that counted is a window old by then (`CleanAfterLockoutIffAged`).
- An interim head is written whenever it comes, even in the middle of the answer
  (`echocorn/http1.py:1068-1083`); sending refuses only a second final start
  (`echocorn/utils.py:837-841`). Early hints after the start stand between two chunks
  (`LateInterimBreaksChunks`), or are taken for octets of a body of declared length, which is
  overrun although the count agrees (`LateInterimOverrunsLength`); the connection is kept.
- A trailer message in front of the final body message ends a chunked answer without its
  last chunk and leaves the connection in use (`EarlyTrailersLeaveItOpen`). The server sends
  that message itself for an application that announced trailers and returned in the middle
  of its body (`FinishingCutsTheBody`). Data after the end of a body that announced trailers,
  a second end, and trailer values longer than a decoder takes spoil the framing as well.
- Two content-length fields of an application that differ both go out, and the connection is
  kept (`DifferingLengthsGoOut`). This is all: what `InOrder` excludes, together with lengths
  that do not agree where one delimits the body, are exactly the answers that
  `ReusedOnlyWhenComplete` finds incomplete on a connection that is kept.
- The server says that it terminates every answer so that the writer cannot hang
  (`echocorn/utils.py:952-958`). It can: when trailers were sent but never the last of them,
  or when an application gives up after its body has ended and before its trailers.
  `AnswersEndUnlessLeftWaiting` has the exact condition.
- A cut answer is meant to be visible as one (`echocorn/proxy.py:982-989`). In its framing,
  to a client of HTTP/1.0 without a length to go by, it is not: the connection closes in the
  same way after a whole answer (`CutCannotBeTold`, `CutAfterOneByte`). `CutAnswerNeverLooksWhole` has the
  exact condition.
- How an upstream connection was lost is recorded and never looked at
  (`echocorn/proxy.py:222-226`). A body that its upstream delimits by closing, and that a
  reset cuts, is relayed as a whole answer; a client of HTTP/1.1 gets it complete on a
  connection that is kept (`ResetArrivesWhole`; `ResetAfterOneByte` is such an answer of one
  byte). Every other answer relayed as whole was
  intact (`RelayAnswer`).
- Once an HTTP/2 answer is over, the credit of queued data has been handed back
  (`echocorn/http2.py:945-954`); an application that takes the data all the same hands it
  back again (`LateReceiveReturnsTwice`). Credit is conserved if and only if it does not.
- The frame parser loses the events of the call that raises, so how the input is cut decides
  which events are delivered before a violation (`RaisingCallLosesEvents`).
- Eviction looks at the first 256 clients only (`echocorn/ratelimit.py:292-295`); its own
  description says that a client under a lockout is skipped as long as there is anything
  else to drop. When all of those are locked out nobody is dropped: `Outgrow` is a run after
  which the dictionary holds as many clients more than its capacity as one likes, and
  `Consume` states that a request keeps it within its capacity if and only if the client is
  locked out, known or has room after the sweep, or one of those 256 is not locked out.

## Model

| member | source | states |
|---|---|---|
| Window.Normalise | echocorn/ratelimit.py:214-218 | Whatever is configured, the limits in force are valid: at least one request, a peak no lower than that, a positive window. |
| Window.DecideKeepsSane | echocorn/ratelimit.py:228-273 | Every request keeps a client's record in order, no longer than the peak plus one, and its burst no later than its newest request. |
| Window.AlikeDecideAlike | echocorn/ratelimit.py:228-282 | Records that differ only in what has aged out are answered alike and stay alike: forgetting is a bisimulation. |
| Window.SweptAlike | echocorn/ratelimit.py:302-320 | What a sweep leaves of a client cannot be told from the client. |
| Window.ClearingIsInvisible | echocorn/ratelimit.py:566-604 | Dropping a client whose newest request has aged out and whose lockout is over changes no later answer, for every continuation. |
| Window.SlidingWindowBound | echocorn/ratelimit.py:239-273 | Among the requests of a client between two times less than a window apart, in any order, at most its allowance is served, plus one if the peak is higher, as long as none before them came from later. |
| Window.BurstIsReached | echocorn/ratelimit.py:261-271 | The bound is tight: one request more than the allowance, all at once, is served when there is a burst to spend. |
| History.AnswersFollowHistory | echocorn/ratelimit.py:228-282 | The rule, which remembers a bounded number of requests, answers exactly as one written over the whole list of times: lockouts, the requests that count, the burst and the waits. |
| History.WaitsAreKept | echocorn/ratelimit.py:232-237 | A client that is told to wait is refused at every time before that, with a wait of exactly what is left, with and without lockouts. |
| History.LockoutLasts | echocorn/ratelimit.py:277-279 | After a refusal that begins a lockout every request before its end is refused, with a wait of exactly what is left. |
| History.LockoutTellsWhatIsLeft | echocorn/ratelimit.py:239-242 | The refusal that begins a lockout names its whole length, every other one under it what is left. |
| History.LockedOutIffEarly | echocorn/ratelimit.py:239-243 | With lockouts a client is locked out exactly if it comes before a time it was told to wait for. |
| History.AllowanceIsGranted | echocorn/ratelimit.py:262-263 | A client that does not come too early and has sent fewer requests than its allowance within the window is served. |
| History.AllowanceIsReached | echocorn/ratelimit.py:262-263 | Any number of requests at once, up to the allowance, is served in full, whether or not there is a burst on top. |
| History.CleanAfterLockoutIffAged | echocorn/ratelimit.py:234-243 | The first request after a lockout finds an empty window if and only if the newest request that counted is a window old by then; with a lockout no shorter than the window it is served. |
| History.RefusedAgainAfterLockout | echocorn/ratelimit.py:234-237 | A client that is refused again as soon as its lockout is over. |
| Local.LocalCounters.constructor | echocorn/ratelimit.py:214-226 | A new limiter knows nobody and has the normalised limits and capacity. |
| Local.LocalCounters.Consume | echocorn/ratelimit.py:228-273 | The answer is that of the rule for this client; every other client, save at most one evicted for want of room, is indistinguishable from before; books within their capacity stay so if and only if the client is locked out, fits, or somebody can be evicted. |
| Local.LocalCounters.CountWindow | echocorn/ratelimit.py:252-259 | The loop over the front of the deque counts this request as the rule does. |
| Local.LocalCounters.MaybeSweep | echocorn/ratelimit.py:302-320 | Once its time has come, exactly the expired windows, bursts and lockouts go, and the next time is a window away. |
| Local.LocalCounters.EnsureKnown | echocorn/ratelimit.py:246-250 | A new client enters the books, and a client goes for it only when they are full. |
| Local.LocalCounters.EvictOldest | echocorn/ratelimit.py:284-300 | The client that goes, with all that is known of it, is the one known for longest that is not locked out, among the first 256; if all of those are locked out, nobody goes. |
| Local.RequestedMakesRoom | echocorn/ratelimit.py:245-250 | Nobody is evicted while there is room for every known client and this one, and the capacity is exceeded exactly when the tidied books are full, the client is new and every client looked at is locked out. |
| Local.Outgrow | echocorn/ratelimit.py:292-297 | A run that leaves the dictionary with any number of clients more than its capacity. |
| Local.SweepAlike | echocorn/ratelimit.py:302-320 | A sweep of the dictionaries is invisible to every later request of every client. |
| Local.SweepLeavesWhatCounts | echocorn/ratelimit.py:302-320 | A sweep keeps exactly the windows, bursts and lockouts of which a later request can see something. |
| ProbeTable.TakeSlot | echocorn/ratelimit.py:486-501 | Deciding a client where its probes end leaves every client where its probes find it and changes what is known of no other. |
| TableRuns.RunsKeepInv | echocorn/ratelimit.py:470-513 | After any interleaving of locked probes and time-outs every client is in place, every worker in flight was rightly turned away, and the table knows of each client what one limiter would. |
| TableRuns.TableIsOneLimiter | echocorn/ratelimit.py:470-513 | For any number of workers and any interleaving: a client is in one slot at most, all slots before it are held by others, and every answer is that of one limiter in lock order. |
| ProbeProgress.AnsweredUnlessFull | echocorn/ratelimit.py:470-513 | In every reachable state without sweeps, a worker that goes on probing has its request answered and logged as one limiter would answer it, unless all four slots of its client are held by others, and only then is it turned away. |
| ProbeProgress.HomesDiffer | echocorn/ratelimit.py:486-487 | The probes of a client look at four different slots. |
| TableRuns.TableSlidingWindow | echocorn/ratelimit.py:535-564 | The sliding window bound over the table's log, for every interleaving without sweeps: only the client's own requests matter, and of those only that none came from later before. |
| Promises.TableKeepsPromises | echocorn/ratelimit.py:470-564 | For any number of workers and any interleaving, every entry of the table's log keeps what the client was told before: waits to the second, the configured lockout, and the allowance; for clients whose own times do not go back. |
| TableSweeps.ClearingKeepsShape | echocorn/ratelimit.py:566-604 | Clearing a slot keeps the table's shape if and only if no client sits behind that slot. |
| TableSweeps.ClearingKeepsWorkers | echocorn/ratelimit.py:481-501 | Every worker in flight has still been turned away rightly if and only if none of them has come past the cleared slot. |
| TableSweeps.ClearingStrandsClient | echocorn/ratelimit.py:495-498 | A client behind a cleared slot is served from an empty window and then holds two slots. |
| TableSweeps.SweptTableIsOneLimiter | echocorn/ratelimit.py:566-604 | Runs of any interleaving, with sweeps that strand nobody, answer as one limiter that never forgets, as long as no client's own requests and sweeps go back in time. |
| TableSweeps.SweptSlidingWindow | echocorn/ratelimit.py:535-604 | The same bound for every interleaving with any number of sweeps that strand nobody, as long as no client's own requests and sweeps go back in time. |
| Promises.SweptTableKeepsPromises | echocorn/ratelimit.py:566-604 | The same with any number of sweeps that strand nobody. |
| TableSweeps.StaleIffInvisible | echocorn/ratelimit.py:581-599 | A slot counts as stale if and only if no later request can see anything of what is in it. |
| TableSweeps.HarmfulSweepServesTwice | echocorn/ratelimit.py:600-602 | A run of eight steps in which a sweep makes the table serve what one limiter refuses. |
| Shared.TurnIsModulo | echocorn/ratelimit.py:542-547 | The wrap-around used in the ring is the remainder. |
| Shared.SharedCounters.CountInPlace | echocorn/ratelimit.py:537-548 | Moving the two ends of the ring counts the request exactly as the deque does, and touches no other slot. |
| Shared.SharedCounters.DecideAt | echocorn/ratelimit.py:515-564 | The packed slot decides as the rule does, and afterwards holds the record the rule leaves. |
| Shared.SharedCounters.Probe | echocorn/ratelimit.py:486-504 | One locked look at a slot is one step of the probe protocol. |
| Shared.SharedCounters.Consume | echocorn/ratelimit.py:470-513 | Alone at the table, whatever its state, a request is answered by the rule from what its probes find of its client, or turned away exactly when four others hold its slots; in a table of the right shape nothing known of anybody else changes, and the shape is kept. |
| Shared.SharedCounters.SweepStep | echocorn/ratelimit.py:581-602 | A sweep step clears the next slot exactly if everything in it has aged out and its lock is free. |
| Agreement.DriveBoth | echocorn/ratelimit.py:526-528 | Driven with the same requests, any number of them from no more clients than there is room for, dictionaries and table give the same decisions and waits, those of a limiter that forgets nothing; and every promise to a client is kept: waits, lockouts and the allowance. |
| Head.PiecesParseAlike | echocorn/http1.py:218-224 | The outcome of parsing a head depends on the bytes and not on how they were cut. |
| Head.OutcomeStays | echocorn/http1.py:218-224 | Once there is an outcome, more input does not change it. |
| Head.AcceptTakesHead | echocorn/http1.py:218-224 | An accepted head ends with the first empty line and fits the limit. |
| Head.AcceptedHeadHasOneFraming | echocorn/http1.py:339-363 | Every accepted head has one chunked coding and no length, or lengths that all agree and respect the limit, or neither field; counted over the fields as the application sees them. |
| Head.TakeHead | echocorn/http1.py:204-370 | The parser in place gives the outcome of the specification and takes the head off the buffer only when it accepts. |
| Head.ReadFields | echocorn/http1.py:249-290 | The loop over the header lines collects and refuses as specified. |
| HeadText.TextOfLines | echocorn/http1.py:226 | Cutting a head into lines loses nothing and leaves no line end inside a line. |
| HeadText.MembersAreListed | echocorn/http1.py:280-283 | Splitting a list at its commas finds exactly its members, in lower case and without white space. |
| RequestText.RequestRoundTrip | echocorn/http1.py:204-370 | Any request head that is printed, followed by anything, is accepted if and only if it fits the limit and is acceptable, and then says what was printed: method, target, version, fields, host, framing, whether the connection may be kept, and the expectation. |
| HeadGrammar.AcceptedIsHead | echocorn/http1.py:204-370 | Every head that is accepted is one: its first empty line comes within the limit, its lines are a request line and one line for each field, and it is acceptable. |
| HeadGrammar.HeadIsAccepted | echocorn/http1.py:204-370 | And every head that is one is accepted, up to that empty line, and understood as what its lines say. |
| HeadGrammar.RequestLineIff | echocorn/http1.py:228-238 | A line is read as method, target and version exactly if it is those three words with one blank between them, a known method, and a target within the limit and without control bytes; a final line feed may follow, as the pattern allows. |
| HeadGrammar.WordsMean | echocorn/http1.py:228-238 | Which status refuses three such words: 414 for the length, then 400 for an illegal byte, then 405 for the method. |
| HeadGrammar.FieldLineIff | echocorn/http1.py:253-264 | A line is read as a field exactly if it is a name, a colon, and a legal value with blanks around it; the name may end with a line feed, as the pattern allows. |
| HeadRefusals.TextRefused | echocorn/http1.py:253-363 | A head whose lines can all be read and that is not acceptable is refused with the status of the first thing wrong: the first field too many (431) or not taken (400, 413, 417), then the host (400), then the framing (400, 413, 501). |
| Chunked.FeedTwice | echocorn/http1.py:127-201 | Feeding in two goes is feeding at once: same body, trailers, state, leftover and refusal. |
| Chunked.PiecesDecodeAlike | echocorn/http1.py:127-201 | Any cutting that is not refused decodes as one feed of everything. |
| Chunked.ShortLinesDecodeAlike | echocorn/http1.py:132-136 | With lines under the limit no cutting makes any difference, refusals and their status included. |
| Chunked.CuttingIsHarmlessIffShort | echocorn/http1.py:132-136 | Of input that is accepted whole, no cutting is refused if and only if all its lines are shorter than the limit. |
| Chunked.LongLineRefusedWhenCut | echocorn/http1.py:175-179 | A line of the limit's length or more is refused when it is cut in front of its last byte, and read when it comes whole. |
| Chunked.LongLineMessage | echocorn/http1.py:132-141 | A whole message that every size limit accepts in one piece and that is refused in two. |
| Chunked.FeedGrows | echocorn/http1.py:156-168 | What has been decoded stays a prefix of what more input decodes to, even if that is refused. |
| Chunked.WholeChunkedIsPrefixFree | echocorn/http1.py:182-184 | No complete chunked body is the beginning of another. |
| ChunkedGrammar.SizeLineIff | echocorn/http1.py:139-151 | A size line is read as n if and only if it says n: hexadecimal digits of either case, white space around them, extensions behind them. |
| ChunkedGrammar.SizeLineWithLimit | echocorn/http1.py:144-153 | With a limit a size is refused with 413 exactly if it exceeds the limit or has too many digits, and read otherwise. |
| ChunkedGrammar.LeadingZerosRefused | echocorn/http1.py:144-147 | A chunk of one octet that is refused as too large. |
| ChunkedGrammar.WholeChunkedIsGrammar | echocorn/http1.py:127-201 | The decoder finishes with the buffer empty if and only if the bytes are a chunked body of the grammar, and decodes its content. |
| ChunkedGrammar.StepRefuses | echocorn/http1.py:127-201 | A refusal is a 413 exactly if the line at hand is a size line, which is then too large, and a 400 otherwise. |
| ChunkedGrammar.RefusedAsMalformed | echocorn/http1.py:127-201 | Without a limit every refusal of a chunked body is a 400. |
| ChunkedGrammar.HexBytesAre | echocorn/http1.py:142-149 | Hexadecimal digits are 0 to 9, a to f and A to F, each with its value. |
| Decoding.ChunkedDecoder.Advance | echocorn/http1.py:130-201 | One turn of the loop, on the decoder's fields and the shared buffer, is one step of the specification. |
| Decoding.ChunkedDecoder.Feed | echocorn/http1.py:127-201 | The decoder in place leaves the state, buffer, chunks or refusal of the specification. |
| ChunkedRoundTrip.ChunkedRoundTrip | echocorn/http1.py:1007-1013 | What is written in chunks, with any trailer section, decodes to the same body and the lower-cased trailers, up to the cap of 64, and leaves what follows. |
| ChunkedRoundTrip.ChunkedRoundTripInPieces | echocorn/http1.py:1184-1208 | The same through any cutting, when the lines are short. |
| ChunkedRoundTrip.ParseTrailerLine | echocorn/http1.py:1202-1208 | A trailer line that was written is read back, unless its value is longer than a decoder takes. |
| MessageBoundary.RunsKeepInv | echocorn/http1.py:673-753 | In every interleaving the handler is where it believes to be: head and body taken, remaining count, decoder state and queue agree with the bytes. |
| MessageBoundary.EmitKeepsInv | echocorn/http1.py:788-867 | Handing chunks over, with room, without room, and after the application has gone, keeps that. |
| MessageBoundary.DrainChunkedDrains | echocorn/http1.py:924-954 | Discarding the rest of a chunked body takes body bytes only and reports completion rightly. |
| MessageBoundary.EndResponseKeepsInv | echocorn/http1.py:887-905 | The writer ending in the middle of a body keeps it too, or gives the connection up. |
| MessageBoundary.MessageBoundaries | echocorn/http1.py:967-986 | At every moment what has arrived is complete messages, one per exchange, then what was taken for the request in flight, then the buffer; back at idle nothing but complete messages was taken. |
| MessageBoundary.BodyIsDelivered | echocorn/http1.py:788-867 | The application gets exactly the content taken of its body, in order, and the end only after all of it. |
| MessageBoundary.MessagesArePrefixFree | echocorn/http1.py:204-370 | No complete message is the beginning of a longer one. |
| MessageBoundary.CutsAreForced | echocorn/http1.py:673-753 | Two ways to cut the same input into complete messages agree on every cut. |
| MessageBoundary.InputIsArrived | echocorn/http1.py:673-753 | While the connection is open nothing that arrives is forgotten. |
| KeptConnection.KeptConnectionGoesOn | echocorn/http1.py:967-986 | Of whole requests that allow reuse, fewer than a connection takes, in any cuts and any interleaving of a reader that runs and an application that receives and answers: the connection stays open, the requests are read in order, and once everything has arrived and nobody can change anything more, exactly they are past and the rest is in the buffer. |
| KeptConnection.KeptConnectionFinishes | echocorn/http1.py:673-753 | From wherever such a run has got to, every sequence of steps that change something is bounded, and one of them ends open and idle with all the requests past. |
| KeptConnection.EarlyAnswerKeepsIffDropped | echocorn/http1.py:907-954 | An answer in the middle of a body, at any point of such a run: if and only if the rest of the message is at hand and no longer than 65536 bytes, it is dropped, exactly the message is past and the connection goes on; otherwise it closes. |
| KeptConnection.SteadyIff | echocorn/http1.py:127-201 | The chunked bodies that the decoder reads through from every cut are those with short lines and a content within the limit. |
| PrintedRequests.PrintedIsGood | echocorn/http1.py:204-370 | A printed request with the body it announces is one of these if and only if its head fits, is acceptable and does not ask for the connection to be closed. |
| PrintedRequests.WrittenIsReadable | echocorn/http1.py:127-201 | So is a body written in chunks with short lines, within the limit. |
| Reuse.OnlyReusableAreFollowed | echocorn/http1.py:978-985 | In every run, only messages whose heads allow it are followed by another exchange, and fewer of them than a connection takes. |
| Reuse.NothingFollows | echocorn/http1.py:982-984 | Once the connection is not to be kept, no continuation finishes another message or begins another request. |
| Reuse.LastWhenToldSo | echocorn/http1.py:967-986 | That is so when the head says so, when anybody decides so, and when the answer is not to keep the connection. |
| Reuse.ClosesAfterLast | echocorn/http1.py:982-984 | Once such an exchange is answered and the reader is back, the connection closes. |
| Reuse.RefusalIsFinal | echocorn/http1.py:673-753 | After a head that is refused nothing more is taken off the buffer and no request is begun, in any continuation. |
| BodyLimit.NeverGivenTooMuch | echocorn/http1.py:788-867 | In every run the application has been given no more of a body than the configured size, whatever its framing, and its queue holds no more messages than it takes; a request refused in its body gets nothing more and is the last one. |
| Response.Normalise | echocorn/utils.py:539-592 | What is left of an application's fields is well formed, names no transfer coding, and has only digits as lengths. |
| WrittenHead.NormaliseKeepsFields | echocorn/utils.py:539-592 | The fields that an application may set all go out, in order and trimmed, and no others. |
| WrittenHead.HeadGoesOut | echocorn/http1.py:1085-1139 | Whatever is sent and wherever it stops, a head that goes out is that of the start: its status, its fields but for a length that does not apply, and what the framing adds. |
| WrittenHead.NothingFollowsTheHead | echocorn/utils.py:424-426 | An answer to HEAD, and one with a status of 1xx, 204 or 304, has no octets after its head and no transfer coding, and but for HEAD and 304 no length. |
| WrittenHead.KeptExactly | echocorn/http1.py:1211-1225 | After an answer that ended the connection is kept exactly if it was to be, the answer was not given up, and it has no body, is chunked, or is as long as declared. |
| WrittenBody.ChunkedAnswer | echocorn/http1.py:1007-1013 | A chunked answer in order is, octet by octet, the chunks of its data, the last chunk and the trailers sent after the body, and a client reads them out of it. |
| ResponseFraming.ReusedOnlyWhenComplete | echocorn/http1.py:1044-1225 | If the connection is kept after an answer, what went out is exactly one complete answer if and only if the messages were in order and the lengths in the start, where one delimits the body, agree; it carries the application's body, or exactly what the encoder emits for it piece by piece and at its end. |
| ResponseFraming.NeverMoreThanDeclared | echocorn/http1.py:1164-1180 | At every point body octets do not exceed the declared length and none follow a head without a body, but for those of interim heads that came late; on a kept connection they are exactly that many; without chunking, none came late if and only if the messages were in order. |
| ResponseFraming.RunOk | echocorn/http1.py:1065-1209 | The loop invariant of the writer, over every sequence of messages. |
| ResponseFraming.EarlyTrailersLeaveItOpen | echocorn/http1.py:1193-1201 | Trailers in the middle of a body leave a chunked answer without its end on a connection that is kept. |
| ResponseFraming.LateInterimBreaksChunks | echocorn/http1.py:1068-1083 | An interim head after the start goes out between two chunks, and the connection is kept. |
| ResponseFraming.LateInterimOverrunsLength | echocorn/http1.py:1068-1083 | In a body of declared length it is counted by the client, not by the server: the length is overrun and the connection is kept. |
| ResponseFraming.DifferingLengthsGoOut | echocorn/http1.py:1127-1129 | Two lengths that are different numbers are both sent and the connection is kept. |
| ResponseWriting.ResponseWriter.TakeBody | echocorn/http1.py:1141-1191 | A body message changes the writer's fields as specified: cut at the declared length, framed, compressed, or dropped. |
| ResponseWriting.ResponseWriter.TakeStart | echocorn/http1.py:1068-1139 | A start settles the framing as specified; an interim one writes its head where the writer stands. |
| ResponseWriting.ResponseWriter.WriteResponse | echocorn/http1.py:1044-1225 | The loop over the messages and what follows it ends in the specified state. |
| AppRun.AnswersEndUnlessLeftWaiting | echocorn/utils.py:909-979 | For every sequence of messages an application may send and every way to leave, the answer ends if and only if the writer is not left waiting for trailers. |
| AppRun.FinishingCutsTheBody | echocorn/utils.py:963-975 | Finishing for an application that announced trailers and stopped in its body leaves the chunked coding open. |
| AppRun.AbandonedNeverLooksWhole | echocorn/http1.py:1154-1162 | An answer given up before its end closes the connection, and a chunked one, encoded or not, is not a whole message. |
| AppRun.NothingIsAddedAfterTheEnd | echocorn/utils.py:909-979 | When the application has ended its body, and its trailers if it announced some, the server adds nothing, however it leaves. |
| ServerAnswers.SilenceIsAnswered | echocorn/http1.py:1249-1259 | An application that never starts an answer is answered for with a 500 and the connection closes; that answer is complete except in reply to HEAD, where a body follows all the same. |
| ServerAnswers.InterimIsPrinted | echocorn/http1.py:1068-1083 | An interim head has the form in which an answer's head is read back: status line, the fields that may be set, empty line. |
| ServerAnswers.InterimsGoOut | echocorn/http1.py:1068-1083 | Every interim head that is sent in front of the answer goes out, in order. |
| Frames.MaskedTwice | echocorn/websocket.py:142-160 | Masking is its own inverse. |
| Frames.MaskInPlace | echocorn/websocket.py:147-159 | The masking loop over the buffer. |
| Frames.MaskedFlips | echocorn/websocket.py:151-159 | Every bit of a masked octet differs from the payload's exactly where the mask octet of its position modulo 4 has a one. |
| Frames.MaskedOnTheWire | echocorn/websocket.py:122-139 | The octets of a masked frame on the wire: header, mask, and the payload flipped bit by bit. |
| Frames.HelloFrame | echocorn/websocket.py:219-279 | The masked example of section 5.7 of RFC 6455 says Hello. |
| Frames.LongFrames | echocorn/websocket.py:127-135 | The two longer forms of the length, as in the examples of that section. |
| Frames.ZeroMask | echocorn/websocket.py:142-160 | A mask of zeros changes nothing. |
| Frames.ParseStays | echocorn/websocket.py:219-279 | More input changes neither a frame nor a violation that was found. |
| Frames.ObjectionIff | echocorn/websocket.py:253-269 | A frame passes exactly if it is a data frame within the cap or a whole control frame of up to 125 bytes, of a known kind, and masked as required. |
| Frames.Refused | echocorn/websocket.py:230-250 | Reserved bits, lengths in a longer form than they need and lengths of more than 63 bits are refused. |
| Frames.BeginningIsIncomplete | echocorn/websocket.py:271-274 | No proper beginning of a frame that is in order is taken for one. |
| Frames.FrameRoundTrip | echocorn/websocket.py:122-139 | Any frame, masked or not, in the three length forms and followed by anything, is read back exactly, unless one of the rules objects, and then with that rule's close code. |
| Frames.WriteFrame | echocorn/websocket.py:122-139 | The header, built byte by byte, and the payload are the specified frame. |
| Frames.TakeFrame | echocorn/websocket.py:219-279 | The parser in place takes exactly one frame, or leaves the buffer as it is. |
| WebSocket.FeedTwice | echocorn/websocket.py:293-340 | Feeding in two goes is feeding at once, and what raises, raises at the same frame. |
| WebSocket.PiecesParseAlike | echocorn/websocket.py:293-340 | Any cutting ends in the same state, leftover and close code, with the same events unless something was raised. |
| WebSocket.RaisingCallLosesEvents | echocorn/websocket.py:300-305 | Events of earlier calls are delivered before a violation, those of the call that raises are not. |
| WebSocket.NeverHoldsTooMuch | echocorn/websocket.py:325-327 | The payload that is gathered never exceeds the cap, whether feeding raises or not. |
| FrameParsing.FrameParser.Take | echocorn/websocket.py:308-340 | One frame acts on the parser's fields as specified, violations included. |
| FrameParsing.FrameParser.Feed | echocorn/websocket.py:293-340 | The parser in place consumes the buffer as specified. |
| Reassembly.MessageArrives | echocorn/websocket.py:293-340 | A message in any fragments, with pings and pongs anywhere and in any segmentation, makes those events in order and then exactly one message; over the cap it is refused with 1009, an invalid text with 1007. |
| Reassembly.FeedWire | echocorn/websocket.py:293-340 | Feeding the bytes of frames is receiving the frames one by one. |
| Reassembly.CloseArrives | echocorn/websocket.py:113-119 | A close frame arrives with its code and the longest reason that fits and is UTF-8; codes a peer may not use are refused by it. |
| Reassembly.ClosePayload | echocorn/websocket.py:191-201 | The loop that shortens a reason finds the longest prefix that is UTF-8. |
| Conversation.WireIsUnderstood | echocorn/websocket.py:293-340 | Whatever frames a peer has sent, in whatever pieces: it is refused exactly for the first that is at fault after those before it, with the code for that, and what is told is what the frames before say, said over the list of frames alone. |
| Conversation.CloseMeans | echocorn/websocket.py:204-216 | A close frame is read as a code and a reason if and only if it says them: empty, or an accepted code in two bytes and a reason that is UTF-8. |
| Conversation.CodeRefusedIff | echocorn/websocket.py:210-211 | The codes that are refused are those below 1000, those that are reserved, those not assigned up to 2999, and those from 5000 on. |
| Credit.CreditIsConserved | echocorn/http2.py:558-656 | For every run of a stream: credit handed back and held is credit spent, held is queued until the request is over, then nothing is held; if and only if the application took nothing after that. |
| Credit.RunKeepsInv | echocorn/http2.py:931-954 | The balance of credit with what was taken late, in every reachable state. |
| Credit.EverythingIsGiven | echocorn/http2.py:558-609 | Over every run of a stream: the request is over exactly when it was reset, answered or too large, and the stream is dropped exactly when it was reset or too large, or request and answer have both ended; what the application has taken and what is queued for it are, in order, every frame with data and the end that arrived until then, followed only by the news that it is over; and never more than the limit. |
| Credit.LateReceiveReturnsTwice | echocorn/utils.py:815-827 | Data taken after the answer is over is handed back twice. |
| Credit.StreamsAreIndependent | echocorn/http2.py:635-645 | Under any interleaving every stream keeps the books of its own steps. |
| Http2.HTTP2Handler.OnData | echocorn/http2.py:558-598 | A DATA frame changes stream, queue and credit as specified: unknown stream, finished request, too much data, or queued. |
| Http2.HTTP2Handler.OnStreamEnded | echocorn/http2.py:600-609 | The end of a request. |
| Http2.HTTP2Handler.Ack | echocorn/http2.py:635-645 | Credit handed back reduces what the stream holds, if it is still listed. |
| Http2.HTTP2Handler.Finalize | echocorn/http2.py:647-656 | A stream goes with all of its credit handed back. |
| Http2.HTTP2Handler.ResetStream | echocorn/http2.py:298-315 | A reset tells the application and hands all credit back. |
| Http2.HTTP2Handler.Receive | echocorn/utils.py:815-827 | Taking a message hands its credit back. |
| Http2.HTTP2Handler.FinishResponse | echocorn/http2.py:931-954 | The end of the writer, with the request ended or not. |
| SendData.SendAll | echocorn/http2.py:703-740 | For every schedule of windows the frames are a prefix of the data, each as long as the room at its instant, and the verdict says whether they are all of it; the stream is lost exactly when data is left at the first instant that breaks it, with no granting instant before it wasted; the writer waits only when nothing broke and nothing was wasted. |
| SendData.FramesAreWorthSending | echocorn/http2.py:703-740 | No frame is empty or overruns the stream window, the connection window or the frame limit, and only the last of the data ends the stream. |
| SendData.WaitForWindow | echocorn/http2.py:688-701 | Waiting ends at the first instant that grants credit or at which the stream is gone. |
| Upstream.UpstreamConnection.Read | echocorn/proxy.py:323-332 | Reading takes a prefix of what is still to come and is empty only once the upstream has closed. |
| Upstream.UpstreamConnection.ConnectionLost | echocorn/proxy.py:215-228 | An orderly close and a reset both end the stream; which it was is noted. |
| Upstream.UpstreamConnection.ReadLineBlock | echocorn/proxy.py:298-321 | The block ends with the first empty line of the stream, if that is within the limit, however the bytes arrive; every turn of the loop follows an arrival. |
| Relay.StreamLength | echocorn/proxy.py:1060-1070 | The pieces are a prefix of the body, and all of it if and only if the upstream sends that much within the limit. |
| Relay.StreamChunked | echocorn/proxy.py:1072-1101 | The pieces are a prefix of what the upstream's bytes decode to, all of it when the framing completed, and with short lines only a broken upstream or the limit stops them; the loop never goes round without having consumed or read. |
| Relay.StreamUntilEof | echocorn/proxy.py:1103-1112 | Everything until the connection is lost, in whatever way, if and only if the limit allows it. |
| AnswerHead.ReadHeaders | echocorn/proxy.py:926-940 | The loop over the header lines of an answer collects the fields as specified, tidied, or refuses the first that is malformed. |
| AnswerHead.CollapsedLength | echocorn/proxy.py:942-948 | Unless the head is refused, every length it has left is one value. |
| AnswerHead.ForwardHeaders | echocorn/proxy.py:1009-1018 | The forwarding loop passes on the specified fields: none of this hop, none that the connection field names, no length for a body that is delimited in another way. |
| AnswerHead.AnswerForwards | echocorn/proxy.py:898-1020 | For every head an upstream may send, what is started for the client has lengths that agree, and a length in front of a body only if that length is what delimits the upstream's body. |
| AnswerText.ForwardsExactly | echocorn/proxy.py:1009-1018 | What is started for the client has exactly the fields of the answer that no rule drops, in order, and the announcement of trailers if there will be some. |
| AnswerText.DelimiterIsRight | echocorn/proxy.py:960-974 | How a body is delimited, section 6.3 of RFC 9112: by nothing, the chunked coding, its length or the close. |
| AnswerText.ForwardedTrailers | echocorn/proxy.py:1101 | All trailer fields are forwarded but those that have no place there. |
| AnswerText.JoinedAreListed | echocorn/proxy.py:1019-1021 | The announcement that is sent lists exactly the trailer names announced, in order. |
| AnswerText.AnswerRoundTrip | echocorn/proxy.py:898-957 | Whatever an upstream prints is read as that status and those fields, equal lengths made one, if and only if its status is in range, its fields are not too many, and its lengths are one number. |
| AnswerGrammar.AnswerIff | echocorn/proxy.py:914-948 | A head of an answer is read if and only if its lines are a status line and one line for each field, not too many of them, with lengths that are the same; and then as those, with one of the lengths. |
| AnswerGrammar.StatusLineIff | echocorn/proxy.py:917-922 | A line is read as a status exactly if it is a version of HTTP/1, a blank, digits from 100 to 599, and perhaps a blank and a phrase. |
| RelayedAnswer.FinalHeadIsFound | echocorn/proxy.py:898-924 | Behind any number of interim answers the final head is found as printed, and nothing after it is lost. |
| Proxy.ReadHead | echocorn/proxy.py:898-957 | Interim answers are skipped; the final head and the bytes after it are found, or there is none. |
| Proxy.RelayAnswer | echocorn/proxy.py:982-1058 | Nothing, or a start with the whole body, its end and its trailers, or a start with a prefix of the body; what is relayed as whole was intact unless it was delimited by closing and the connection was reset. |
| Proxy.Http | echocorn/proxy.py:702-769 | For all upstreams and attempts, exactly one of a 502, a whole answer, or a start with a prefix and the abort; a retried attempt leaves nothing, and a retry happens exactly when a pooled connection failed before an answer. |
| ServerAnswers.BadGatewayIsWhole | echocorn/proxy.py:1114-1119 | The 502 is a complete answer that carries the reason, and leaves the connection as it would have been. |
| RelayedAnswer.WholeBodyIsRelayed | echocorn/proxy.py:982-1058 | A body that is sent whole and within the limit is relayed whole, with its end and the trailers that may be forwarded. |
| RelayedAnswer.AnswerIsDelivered | echocorn/proxy.py:702-769 | From the wire to the client: an answer that is printed behind any interim ones reaches it as a start with its status and the fields that may pass, the body, and the end. |
| ProxiedResponse.CutAnswerNeverLooksWhole | echocorn/proxy.py:1044-1051 | What the client sees of a cut answer: the connection closes, a chunked body, encoded or not, has no end, and a declared length is missed; as far as the framing goes it looks whole if and only if only the close delimits it. |
| ProxiedResponse.CutCannotBeTold | echocorn/http1.py:1211-1216 | Then an upstream that sent no more than the pieces and closed would have made the same head and octets go out. |
| ProxiedResponse.CutAfterOneByte | echocorn/proxy.py:1109-1111 | An answer of two bytes cut after one by the limit, which a client of HTTP/1.0 takes for whole. |
| ProxiedResponse.WholeAnswerArrivesWhole | echocorn/proxy.py:1053-1058 | A relayed answer whose upstream framing completed ends and looks whole, carries the decoded body or what the encoder makes of it, and leaves the connection in use unless its close delimits the body. |
| ProxiedResponse.ResetArrivesWhole | echocorn/proxy.py:222-226 | A close-delimited body cut by a reset reaches a client of HTTP/1.1 as a complete answer on a kept connection. |
| ProxiedResponse.ResetAfterOneByte | echocorn/proxy.py:1103-1112 | An answer of one byte and a reset, which a client of HTTP/1.1 gets as a complete message on a connection that is kept. |
| Negotiation.OrderDoesNotMatter | echocorn/utils.py:394-417 | The choice depends only on which entries there are. |
| Negotiation.PermutationsChooseAlike | echocorn/utils.py:394-417 | Permuted entries choose alike. |
| Negotiation.Gather | echocorn/utils.py:397-405 | The pass over the entries finds the greatest weight of every supported token and of the wildcard. |
| Negotiation.FillIn | echocorn/utils.py:407-409 | The wildcard counts for the codings without a weight of their own. |
| Negotiation.Negotiate | echocorn/utils.py:394-417 | The choice has positive weight, the greatest there is, and comes first in the server's order among those; there is none only if no supported coding has positive weight; said both through the weights that are gathered and from the entries alone. |

## Left out

- Connection.Exec: the handler of one connection is modelled on values, as a state machine whose steps are the stretches between two awaits; update in place and aliasing of the handler's fields are not captured.
- Connection.StartRequest: a request that is refused after its head was parsed (rate limit, wrong authority, WebSocket upgrade) is one nondeterministic choice, after which the reader stops.
- Decoding.ChunkedDecoder.Feed: is not called on a decoder that is done; the callers do not do so either.
- KeptConnection.KeptConnectionGoesOn: in these runs the application answers once it has received the end of the body; an answer that comes earlier is `KeptConnection.EarlyAnswerKeepsIffDropped`, from any state that they reach.
- Agreement.DriveBoth: covers runs from at most as many clients as the dictionaries have room for, without sweeps of the table; the table with sweeps is in `TableSweeps`.
- TableRuns.TableSlidingWindow: is stated without sweeps; the statement with them, and what they need for it, is `TableSweeps.SweptSlidingWindow`.
- TableRuns.TableIsOneLimiter: requests that time out on a lock or find no slot are counted by the worker on its own and are not part of the table's log; such local counts are not combined with the table.
- Credit.CreditIsConserved: an open connection; once the connection is closed nothing is handed back any more.
- Proxy.Http: how a head is read is a parameter, for which `ProxiedResponse` puts in `AnswerHead.ParseAnswer`; sending the request and its body upstream either succeeds or fails.
- Keys, times and weights: a client is a number, of which only equality and an arbitrary hash matter; times and weights are real numbers, and the sentinel 0.0 of the packed slots is kept, so the clock has to be positive there.
- The limit of Python on the length of decimal strings is not modelled; the server stays below it by refusing lengths of more than ten digits.
- The h2 library, TLS, sockets, the event loop, shared memory, process start-up, configuration and the command line.
- Deadlines, watchdogs, keep-alive timeouts and rapid-reset protection: a step of the environment may close a connection or reset a stream at any time.
- The 100 responses that the server sends of its own accord, dates, the server and security fields, access logs and the Vary field; reason phrases are any text.
- The WebSocket session around the parser, the handshake, and the tunnel of the proxy.
- The pool of idle upstream connections: an attempt is given a fresh or a reused connection. What follows a chunked body on an upstream connection is dropped by the relay, and nothing is claimed about it.
- The HTTP/2 response writer apart from its data frames and its end.
- Splitting Accept-Encoding into entries and reading their weights; zlib, base64, SHA-1, percent-decoding and the pattern of an authority. UTF-8 is an arbitrary predicate that holds of the empty string where that matters.
