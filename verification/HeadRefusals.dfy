/** With which status a request head is refused: the first thing wrong with it decides. */
module HeadRefusals {
  import opened Wrappers
  import opened Bytes
  import opened Head
  import opened RequestText
  import opened HeadGrammar

  // ----- Fields ------------------------------------------------------------------------------------

  /** The field at `i` is not one too many, and one that the server takes. */
  predicate Right(cfg: Config, h: seq<Field>, i: nat)
    requires i < |h|
  {
    i < cfg.maxHeaderCount && Takes(h[i])
  }

  /** The field at `i` is the first that is not right. */
  predicate StopsAt(cfg: Config, h: seq<Field>, i: nat) {
    i < |h| && !Right(cfg, h, i) && forall j :: 0 <= j < i ==> Right(cfg, h, j)
  }

  /** Too many fields, an expectation the server does not know, a length of too many digits,
      or one that is no number. */
  function FieldStatus(cfg: Config, h: seq<Field>, i: nat): nat
    requires i < |h|
  {
    if i >= cfg.maxHeaderCount then 431
    else if SpecialOf(h[i].0).Expectation? then 417
    else if Digits(h[i].1) then 413
    else 400
  }

  lemma AddRefuses(cfg: Config, h: seq<Field>, f: Field)
    requires AllTaken(h) && !Takes(f) && |h| < cfg.maxHeaderCount
    ensures AddField(Gathered(h), f) == Err(FieldStatus(cfg, h + [f], |h|))
  {
    hide Digits, Lower, Text, SpecialOf;
    assert (h + [f])[|h|] == f;
  }

  lemma {:induction false} FieldsStop(cfg: Config, lines: seq<bytes>, h: seq<Field>, more: seq<Field>, i: nat)
    requires ReadAs(lines, more) && AllTaken(h) && StopsAt(cfg, h + more, |h| + i)
    ensures i < |more| && ParseFields(cfg, lines, |h| + 1, Gathered(h)) == Err(FieldStatus(cfg, h + more, |h| + i))
    decreases |lines|
  {
    hide Gathered, Takes, ParseField, AddField, ReadAs, ParseFields, AllTaken;
    SameNumber(lines, more);
    OthersAreRead(lines, more);
    var f := more[0];
    assert (h + more)[|h|] == f;
    ParseFieldsOnce(cfg, lines, |h| + 1, Gathered(h), f);
    if |h| < cfg.maxHeaderCount {
      if Takes(f) {
        assert i > 0 && h + more == (h + [f]) + more[1..];
        TakenIsGathered(h, f);
        FieldsStop(cfg, lines[1..], h + [f], more[1..], i - 1);
      } else {
        NothingStopsBefore(cfg, h + more, |h|, |h| + i);
        AddRefuses(cfg, h, f);
        assert (h + [f])[|h|] == f;
      }
    } else {
      NothingStopsBefore(cfg, h + more, |h|, |h| + i);
    }
  }

  lemma NothingStopsBefore(cfg: Config, h: seq<Field>, j: nat, i: nat)
    requires StopsAt(cfg, h, i) && j <= i && !Right(cfg, h, j)
    ensures i == j
  {
    hide Right;
  }

  /** If anything is wrong with the fields, something is wrong first. */
  lemma {:induction false} SomethingStops(cfg: Config, h: seq<Field>, n: nat) returns (i: nat)
    requires n <= |h| && !(AllTaken(h) && |h| <= cfg.maxHeaderCount)
    requires forall j :: 0 <= j < n ==> Right(cfg, h, j)
    ensures StopsAt(cfg, h, i)
    decreases |h| - n
  {
    hide Right, AllTaken;
    i := n;
    if n == |h| {
      NothingWrong(cfg, h);
      assert false;
    } else if Right(cfg, h, n) {
      i := SomethingStops(cfg, h, n + 1);
    }
  }

  lemma NothingWrong(cfg: Config, h: seq<Field>)
    requires forall j :: 0 <= j < |h| ==> Right(cfg, h, j)
    ensures AllTaken(h) && |h| <= cfg.maxHeaderCount
  {
    hide Takes;
    forall i | 0 <= i < |h| ensures Takes(h[i]) {
      assert Right(cfg, h, i);
    }
    if h != [] {
      assert Right(cfg, h, |h| - 1);
    }
  }

  // ----- Framing -------------------------------------------------------------------------------------

  /** The chunked coding is applied once, and last. */
  ghost predicate ChunkedLast(codings: seq<bytes>) {
    exists front :: codings == front + [Text("chunked")] && Text("chunked") !in front
  }

  /** A body that is framed in more than one way, or badly; one in a coding that the server
      does not know; or one that is too large. */
  ghost function FramingStatus(http11: bool, h: seq<Field>): nat {
    var codings, lengths := Codings(Values(h, Coding)), Values(h, Length);
    if codings != [] then (if http11 && lengths == [] && ChunkedLast(codings) then 501 else 400)
    else if forall i :: 0 <= i < |lengths| ==> SameNumberAs(lengths[i], lengths[0]) then 413
    else 400
  }

  predicate SameNumberAs(a: bytes, b: bytes) {
    Digits(a) && Digits(b) && Decimal(a) == Decimal(b)
  }

  lemma {:induction false} NoOccurrence(tokens: seq<bytes>, token: bytes)
    ensures Occurrences(tokens, token) == 0 <==> token !in tokens
  {
    if tokens != [] {
      NoOccurrence(tokens[1..], token);
      assert tokens == [tokens[0]] + tokens[1..];
    }
  }

  lemma {:induction false} OccurrencesLast(tokens: seq<bytes>, last: bytes, token: bytes)
    ensures Occurrences(tokens + [last], token) == Occurrences(tokens, token) + if last == token then 1 else 0
  {
    if tokens == [] {
      assert [] + [last] == [last] && [last][1..] == [];
    } else {
      assert (tokens + [last])[0] == tokens[0] && (tokens + [last])[1..] == tokens[1..] + [last];
      OccurrencesLast(tokens[1..], last, token);
    }
  }

  lemma ChunkedLastIff(codings: seq<bytes>)
    requires codings != []
    ensures ChunkedLast(codings) <==>
              codings[|codings| - 1] == Text("chunked") && Occurrences(codings, Text("chunked")) <= 1
  {
    hide Text;
    var front, last := codings[..|codings| - 1], codings[|codings| - 1];
    assert codings == front + [last];
    OccurrencesLast(front, last, Text("chunked"));
    NoOccurrence(front, Text("chunked"));
    if ChunkedLast(codings) {
      var other :| codings == other + [Text("chunked")] && Text("chunked") !in other;
      assert codings[|codings| - 1] == Text("chunked") && other == codings[..|codings| - 1];
    }
  }

  lemma FramingRefused(cfg: Config, http11: bool, h: seq<Field>)
    requires AllTaken(h) && !SaysLength(cfg, http11, h)
    ensures ResolveFraming(cfg, http11, Gathered(h)) == Err(FramingStatus(http11, h))
  {
    var codings, lengths := Codings(Values(h, Coding)), Values(h, Length);
    TakenHasNumbers(h);
    NumbersAre(lengths);
    if codings != [] {
      ChunkedLastIff(codings);
      OneCoding(codings);
      hide Values, Codings, Text, Decimal, Digits, ChunkedLast, Occurrences;
      if !(exists i :: 0 <= i < |codings| && codings[i] != Text("chunked")) {
        assert forall i :: 0 <= i < |codings| ==> codings[i] == Text("chunked");
      }
    } else {
      hide Values, Codings, Text, Decimal, Digits;
      LengthsRefused(cfg, http11, h);
    }
  }

  lemma LengthsRefused(cfg: Config, http11: bool, h: seq<Field>)
    requires AllTaken(h) && !SaysLength(cfg, http11, h) && Codings(Values(h, Coding)) == []
    ensures ResolveFraming(cfg, http11, Gathered(h)) == Err(FramingStatus(http11, h))
  {
    hide Values, Codings, Text, Decimal, Digits;
    var lengths := Values(h, Length);
    TakenHasNumbers(h);
    NumbersAre(lengths);
    var numbers := Numbers(lengths).value;
    if forall i :: 0 <= i < |lengths| ==> SameNumberAs(lengths[i], lengths[0]) {
      assert forall i :: 0 <= i < |numbers| ==> numbers[i] == numbers[0];
    } else {
      var i :| 0 <= i < |lengths| && !SameNumberAs(lengths[i], lengths[0]);
      assert numbers[i] != numbers[0];
    }
  }

  // ----- Whole heads -----------------------------------------------------------------------------------

  /** The status for a head whose lines can all be read: fields come first, in their order, then
      the host, then the framing. */
  ghost predicate RefusedWith(cfg: Config, target: bytes, http11: bool, h: seq<Field>, status: nat) {
    if AllTaken(h) && |h| <= cfg.maxHeaderCount then
      status == if SaysHost(cfg, target, http11, h) then FramingStatus(http11, h) else 400
    else exists i :: StopsAt(cfg, h, i) && status == FieldStatus(cfg, h, i)
  }

  lemma HostRefused(cfg: Config, target: bytes, http11: bool, f: Fields)
    ensures ResolveHost(cfg, target, http11, f).Err? ==> ResolveHost(cfg, target, http11, f) == Err(400)
  {
  }

  /** A head whose lines say something, and that is not acceptable, is refused with this status. */
  lemma TextRefused(cfg: Config, text: bytes, verb: bytes, target: bytes, http11: bool, h: seq<Field>)
    requires TextSays(text, verb, target, http11, h) && !Acceptable(cfg, target, http11, h)
    ensures ParseText(cfg, text).Err? && RefusedWith(cfg, target, http11, h, ParseText(cfg, text).error)
  {
    hide Lines, ParseRequestLine, ParseFields, ResolveHost, ResolveFraming, SaysHost, SaysLength, AllTaken, ReadAs, TextSays, StopsAt,
         FieldStatus, FramingStatus;
    SaidIsRead(text, verb, target, http11, h);
    var lines := Lines(text);
    NothingGathered();
    assert [] + h == h;
    if AllTaken(h) && |h| <= cfg.maxHeaderCount {
      LinesParse(cfg, lines, h);
      HostResolves(cfg, target, http11, h);
      HostRefused(cfg, target, http11, Gathered(h));
      FramingResolves(cfg, http11, h);
      if SaysHost(cfg, target, http11, h) {
        FramingRefused(cfg, http11, h);
      }
    } else {
      var i := SomethingStops(cfg, h, 0);
      FieldsStop(cfg, lines[1..], [], h, i);
    }
  }
}
