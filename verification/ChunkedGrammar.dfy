/** The decoder takes exactly the chunked bodies of section 7.1 of RFC 9112, with the white
    space it tolerates around a size. */
module ChunkedGrammar {
  import opened Wrappers
  import opened Bytes
  import opened Chunked
  import HeadText

  // ----- Hexadecimal digits -------------------------------------------------------------------

  /** A digit means the same in either case. */
  lemma HexDigitMeans(d: nat)
    requires d < 16
    ensures d < 10 ==> HexByte(48 + d) && HexDigit(48 + d) == d
    ensures d >= 10 ==> HexByte(55 + d) && HexDigit(55 + d) == d && HexByte(87 + d) && HexDigit(87 + d) == d
  {
  }

  /** And nothing else is one. */
  lemma HexBytesAre(b: byte)
    ensures HexByte(b) <==> exists d :: 0 <= d < 16 && IsDigit(b, d)
  {
    if HexByte(b) {
      assert IsDigit(b, HexDigit(b));
    }
  }

  predicate IsDigit(b: byte, d: nat) {
    (d < 10 && b == 48 + d) || (10 <= d < 16 && (b == 55 + d || b == 87 + d))
  }

  lemma Times16(digit: nat, weight: nat)
    ensures 16 * (digit * weight) == digit * (16 * weight)
  {
  }

  /** The first digit of a size is its most significant one. */
  lemma {:induction false} HexFromTheLeft(s: bytes)
    requires AllHex(s) && s != []
    ensures HexValue(s) == HexDigit(s[0]) * Pow16(|s| - 1) + HexValue(s[1..])
  {
    if |s| > 1 {
      var front := s[..|s| - 1];
      HexFromTheLeft(front);
      assert front[1..] == s[1..][..|s| - 2];
      Times16(HexDigit(s[0]), Pow16(|s| - 2));
      assert HexValue(s[1..]) == 16 * HexValue(front[1..]) + HexDigit(s[|s| - 1]);
    } else {
      assert s[..0] == [] && s[1..] == [];
    }
  }

  // ----- Size lines -----------------------------------------------------------------------------

  ghost predicate AllWhite(b: bytes) {
    forall i :: 0 <= i < |b| ==> White(b[i])
  }

  /** Digits with white space around them, and any extensions behind a semicolon. */
  ghost predicate SizeLineOf(line: bytes, left: bytes, digits: bytes, right: bytes, extensions: bytes) {
    && line == left + digits + right + extensions
    && AllWhite(left) && AllWhite(right) && digits != [] && AllHex(digits)
    && (extensions == [] || extensions[0] == SEMICOLON)
  }

  /** The line announces a chunk of `n` octets. */
  ghost predicate IsSizeLine(line: bytes, n: nat) {
    exists left, digits, right, extensions ::
      SizeLineOf(line, left, digits, right, extensions) && HexValue(digits) == n
  }

  lemma {:induction false} StripLeftDrops(left: bytes, b: bytes)
    requires AllWhite(left) && b != [] && !White(b[0])
    ensures StripLeft(left + b) == b
  {
    if left == [] {
      assert left + b == b;
    } else {
      assert (left + b)[0] == left[0] && (left + b)[1..] == left[1..] + b;
      StripLeftDrops(left[1..], b);
    }
  }

  lemma {:induction false} StripRightDrops(b: bytes, right: bytes)
    requires AllWhite(right) && b != [] && !White(b[|b| - 1])
    ensures StripRight(b + right) == b
  {
    if right == [] {
      assert b + right == b;
    } else {
      var n := |b + right| - 1;
      assert (b + right)[n] == right[|right| - 1] && (b + right)[..n] == b + right[..|right| - 1];
      StripRightDrops(b, right[..|right| - 1]);
    }
  }

  lemma HexIsNotWhite(b: byte)
    requires HexByte(b)
    ensures !White(b) && b != SEMICOLON
  {
  }

  /** What is read of such a line. */
  lemma SizeLineDigits(line: bytes, left: bytes, digits: bytes, right: bytes, extensions: bytes)
    requires SizeLineOf(line, left, digits, right, extensions)
    ensures Strip(Before(line, SEMICOLON)) == digits
  {
    HexIsNotWhite(digits[0]);
    HexIsNotWhite(digits[|digits| - 1]);
    var front := left + digits + right;
    forall i | 0 <= i < |front| ensures front[i] != SEMICOLON {
      if |left| <= i < |left| + |digits| {
        HexIsNotWhite(digits[i - |left|]);
      } else if i < |left| {
        assert White(left[i]);
      } else {
        assert White(right[i - |left| - |digits|]);
      }
    }
    if extensions != [] {
      BeforeMark(front, SEMICOLON, extensions[1..]);
      assert line == front + [SEMICOLON] + extensions[1..];
    } else {
      assert line == front;
    }
    assert front == left + (digits + right);
    assert (digits + right)[0] == digits[0];
    StripLeftDrops(left, digits + right);
    StripRightDrops(digits, right);
  }

  lemma CutsMakeLine(line: bytes, front: bytes, from: nat, to: nat)
    requires front == Before(line, SEMICOLON) && from <= to <= |front|
    requires forall i :: 0 <= i < from || to <= i < |front| ==> White(front[i])
    requires front[from..to] != [] && AllHex(front[from..to])
    ensures IsSizeLine(line, HexValue(front[from..to]))
  {
    hide HexValue, White;
    var left, digits, right, extensions := front[..from], front[from..to], front[to..], line[|front|..];
    assert line == front + extensions && front == left + digits + right;
    assert SizeLineOf(line, left, digits, right, extensions) && HexValue(digits) == HexValue(front[from..to]);
  }

  /** Any line that is read has that form. */
  lemma DigitsHaveLine(line: bytes)
    requires var digits := Strip(Before(line, SEMICOLON)); digits != [] && AllHex(digits)
    ensures IsSizeLine(line, HexValue(Strip(Before(line, SEMICOLON))))
  {
    hide HexValue, White, Strip, IsSizeLine, AllHex;
    var front := Before(line, SEMICOLON);
    HeadText.StripTakesWhite(front);
    var from: nat, to: nat :| from <= to <= |front| && Strip(front) == front[from..to]
                              && (forall i :: 0 <= i < from || to <= i < |front| ==> White(front[i]));
    CutsMakeLine(line, front, from, to);
  }

  /** A size line is read as the number it stands for, in digits of either case, with white
      space around them and extensions behind them; and no other line is read. */
  lemma SizeLineIff(line: bytes, n: nat)
    ensures ParseSize(line, 0) == Ok(n) <==> IsSizeLine(line, n)
    ensures ParseSize(line, 0).Err? <==> !(exists m :: IsSizeLine(line, m))
    ensures ParseSize(line, 0).Err? ==> ParseSize(line, 0) == Err(400)
  {
    hide Strip, Before, HexValue;
    var digits := Strip(Before(line, SEMICOLON));
    if digits != [] && AllHex(digits) {
      DigitsHaveLine(line);
    }
    forall m | IsSizeLine(line, m) ensures ParseSize(line, 0) == Ok(m) {
      var left, ds, right, extensions :| SizeLineOf(line, left, ds, right, extensions) && HexValue(ds) == m;
      SizeLineDigits(line, left, ds, right, extensions);
    }
  }

  /** With a limit, a size beyond it is refused as too large, and so is one of more than
      eight digits that could be: only then. */
  lemma SizeLineWithLimit(line: bytes, n: nat, max: nat)
    requires IsSizeLine(line, n) && max > 0
    ensures ParseSize(line, max) == if n > max || TooManyDigits(line, max) then Err(413) else Ok(n)
  {
    hide Strip, Before, HexValue;
    SizeLineIff(line, n);
  }

  /** The smallest number of so many digits without a leading zero is beyond the limit. */
  predicate TooManyDigits(line: bytes, max: nat) {
    var digits := Strip(Before(line, SEMICOLON));
    |digits| > 8 && Pow16(|digits| - 1) > max
  }

  /** Such a size need not be too large: one octet, announced with leading zeros, is refused
      under a limit of a thousand. */
  lemma LeadingZerosRefused()
    ensures var line: bytes := [48, 48, 48, 48, 48, 48, 48, 48, 49];
            IsSizeLine(line, 1) && ParseSize(line, 1000) == Err(413)
  {
    var line: bytes := [48, 48, 48, 48, 48, 48, 48, 48, 49];
    var zeros := line[..8];
    assert zeros == [48, 48, 48, 48, 48, 48, 48, 48];
    Zeros(zeros);
    assert HexValue(line) == 1;
    assert [] + line + [] + [] == line;
    assert SizeLineOf(line, [], line, [], []);
    SizeLineDigits(line, [], line, [], []);
    assert Pow16(4) == 65536 && Pow16(8) >= Pow16(4);
    SizeLineWithLimit(line, 1, 1000);
  }

  lemma {:induction false} Zeros(s: bytes)
    requires AllHex(s) && forall i :: 0 <= i < |s| ==> s[i] == 48
    ensures HexValue(s) == 0
  {
    if s != [] {
      Zeros(s[..|s| - 1]);
    }
  }

  // ----- Whole bodies --------------------------------------------------------------------------

  /** A trailer field: a name of token characters, whatever stands around it, a colon, and
      a legal value that is not too long; not folded. */
  ghost predicate IsTrailerLine(line: bytes) {
    exists k: nat :: k < |line| && CutsField(line, k)
  }

  predicate CutsField(line: bytes, k: nat)
    requires k < |line|
  {
    && line[k] == COLON && COLON !in line[..k] && line[0] !in {SPACE, TAB}
    && Token(Lower(Strip(line[..k]))) && LegalValue(Strip(line[k + 1..])) && |Strip(line[k + 1..])| <= MAX_TRAILER_VALUE
  }

  /** Trailer fields and an empty line, and nothing else. */
  ghost predicate IsSection(b: bytes)
    decreases |b|
  {
    match FindCrlf(b)
    case None => false
    case Some(i) => if i == 0 then |b| == 2 else IsTrailerLine(b[..i]) && IsSection(b[i + 2..])
  }

  /** Chunks that carry `content`, each with its size in front of it and an end of line behind
      it; a last chunk of size zero; a trailer section; and nothing else. */
  ghost predicate IsChunked(b: bytes, content: bytes)
    decreases |b|, 1
  {
    exists n: nat :: BeginsWith(b, n, content)
  }

  /** The first chunk has `n` octets. */
  ghost predicate BeginsWith(b: bytes, n: nat, content: bytes)
    decreases |b|, 0
  {
    match FindCrlf(b)
    case None => false
    case Some(i) =>
      var rest := b[i + 2..];
      && IsSizeLine(b[..i], n)
      && if n == 0 then content == [] && IsSection(rest)
         else
           && n + 2 <= |rest| && rest[n..n + 2] == CRLF
           && n <= |content| && content[..n] == rest[..n] && IsChunked(rest[n + 2..], content[n..])
  }

  lemma TrailerLineIff(line: bytes)
    requires line != []
    ensures ParseTrailer(line).Ok? <==> IsTrailerLine(line)
    ensures ParseTrailer(line).Err? ==> ParseTrailer(line) == Err(400)
  {
    hide Strip, Lower, Token, LegalValue;
    var raw := Before(line, COLON);
    if ParseTrailer(line).Ok? {
      assert |raw| < |line| && line[..|raw|] == raw;
      assert CutsField(line, |raw|);
    }
    forall k: nat | k < |line| && CutsField(line, k) ensures ParseTrailer(line).Ok? {
      assert line == line[..k] + [COLON] + line[k + 1..];
      BeforeMark(line[..k], COLON, line[k + 1..]);
    }
  }

  /** The decoder in the trailer section. */
  lemma {:induction false} SectionIff(d: Decoder, b: bytes)
    requires d.mode.Trailer? && !d.done
    ensures var f := Feed(d, b, 0); f.error.None? && f.next.done && f.rest == [] <==> IsSection(b)
    decreases |b|
  {
    hide ParseTrailer, IsTrailerLine, Feed;
    if FindCrlf(b).None? {
      Unfinished(d, b);
    } else {
      var i := FindCrlf(b).value;
      var line, rest := b[..i], b[i + 2..];
      if line == [] {
        SectionEnds(d, b);
      } else {
        TrailerLineIff(line);
        SectionStep(d, b);
        if ParseTrailer(line).Ok? {
          SectionIff(Step(d, b, 0).next, rest);
        }
      }
    }
  }

  lemma Unfinished(d: Decoder, b: bytes)
    requires d.mode.Trailer? && !d.done && FindCrlf(b).None?
    ensures var f := Feed(d, b, 0); !(f.error.None? && f.next.done)
  {
  }

  lemma SectionEnds(d: Decoder, b: bytes)
    requires d.mode.Trailer? && FindCrlf(b) == Some(0)
    ensures Feed(d, b, 0) == Fed(d.(done := true), b[2..], [], None)
  {
    assert b[..0] == [];
  }

  /** One more line of the section. */
  lemma SectionStep(d: Decoder, b: bytes)
    requires d.mode.Trailer? && !d.done && FindCrlf(b).Some? && FindCrlf(b).value > 0
    ensures var i := FindCrlf(b).value;
            var m := Step(d, b, 0);
            if ParseTrailer(b[..i]).Err? then Feed(d, b, 0).error.Some?
            else m.Take? && m.next.mode.Trailer? && !m.next.done && Feed(d, b, 0) == Feed(m.next, b[i + 2..], 0)
  {
    hide ParseTrailer;
    var i := FindCrlf(b).value;
    if ParseTrailer(b[..i]).Ok? {
      FeedTakeNothing(d, b, 0);
    }
  }

  /** Everything in the buffer is one whole body that decodes to `content`. */
  ghost predicate Decodes(d: Decoder, b: bytes, content: bytes) {
    var f := Feed(d, b, 0);
    f.error.None? && f.next.done && f.rest == [] && Flat(f.chunks) == content
  }

  /** The decoder behind a size line of `n > 0`. */
  lemma ChunkIff(d: Decoder, rest: bytes, n: nat, content: bytes)
    requires d.mode.Size? && d.remaining == 0 && !d.done && n > 0
    ensures Decodes(d.(mode := Data, remaining := n), rest, content) <==>
              && n + 2 <= |rest| && rest[n..n + 2] == CRLF
              && n <= |content| && content[..n] == rest[..n] && Decodes(d, rest[n + 2..], content[n..])
  {
    var inData := d.(mode := Data, remaining := n);
    if |rest| < n {
      if rest != [] {
        FeedPartOfChunk(inData, rest, 0);
      }
    } else {
      var after, tail := d.(mode := Data), rest[n..];
      FeedTake(inData, rest, 0);
      assert Continues(Feed(inData, rest, 0), rest[..n], Feed(after, tail, 0));
      if |tail| >= 2 && tail[..2] == CRLF {
        FeedTake(after, tail, 0);
        assert tail[2..] == rest[n + 2..] && after.(mode := Size) == d;
        ContinuesTrans(Feed(inData, rest, 0), rest[..n], Feed(after, tail, 0), [], Feed(d, tail[2..], 0));
        assert rest[..n] + [] == rest[..n];
        SplitContent(rest[..n], Flat(Feed(d, tail[2..], 0).chunks), content);
      }
      assert |tail| >= 2 ==> tail[..2] == rest[n..n + 2];
    }
  }

  lemma SplitContent(a: bytes, b: bytes, content: bytes)
    ensures a + b == content <==> |a| <= |content| && content[..|a|] == a && content[|a|..] == b
  {
  }

  /** The decoder in front of a size line. */
  lemma LastChunkIff(d: Decoder, rest: bytes, content: bytes)
    requires d.mode.Size? && !d.done
    ensures Decodes(d.(mode := Trailer), rest, content) <==> content == [] && IsSection(rest)
  {
    SectionIff(d.(mode := Trailer), rest);
    NoChunksInSection(d.(mode := Trailer), rest);
  }

  lemma {:induction false} NoChunksInSection(d: Decoder, b: bytes)
    requires d.mode.Trailer?
    ensures Feed(d, b, 0).chunks == []
    decreases |b|
  {
    hide ParseTrailer;
    var m := Step(d, b, 0);
    if m.Take? && !m.last {
      NoChunksInSection(m.next, b[m.n..]);
    }
  }

  lemma SizeStep(d: Decoder, b: bytes, n: nat, content: bytes)
    requires d.mode.Size? && d.remaining == 0 && !d.done && FindCrlf(b).Some?
    requires ParseSize(b[..FindCrlf(b).value], 0) == Ok(n)
    ensures var rest := b[FindCrlf(b).value + 2..];
            Decodes(d, b, content) <==> Decodes(if n == 0 then d.(mode := Trailer) else d.(mode := Data, remaining := n), rest, content)
  {
    hide ParseSize;
    FeedTake(d, b, 0);
    var rest := b[FindCrlf(b).value + 2..];
    var next := if n == 0 then d.(mode := Trailer) else d.(mode := Data, remaining := n);
    assert [] + Flat(Feed(next, rest, 0).chunks) == Flat(Feed(next, rest, 0).chunks);
  }

  /** The decoder takes exactly the bodies of the grammar, and decodes their content. */
  lemma {:induction false} DecodesIffChunked(d: Decoder, b: bytes, content: bytes)
    requires d.mode.Size? && d.remaining == 0 && !d.done
    ensures Decodes(d, b, content) <==> IsChunked(b, content)
    decreases |b|
  {
    hide ParseSize, IsSizeLine, IsSection, Decodes;
    if FindCrlf(b).None? {
      NoLine(d, b, content);
    } else {
      var i := FindCrlf(b).value;
      var line, rest := b[..i], b[i + 2..];
      if ParseSize(line, 0).Err? {
        BadSize(d, b, content);
        SizeLineIff(line, 0);
      } else {
        var n := ParseSize(line, 0).value;
        SizeStep(d, b, n, content);
        OnlySize(line, n);
        if n == 0 {
          LastChunkIff(d, rest, content);
        } else {
          ChunkIff(d, rest, n, content);
          if n + 2 <= |rest| && n <= |content| {
            DecodesIffChunked(d, rest[n + 2..], content[n..]);
          }
        }
        assert BeginsWith(b, n, content) ==> IsChunked(b, content);
        assert Decodes(d, b, content) <==> BeginsWith(b, n, content);
      }
    }
  }

  lemma OnlySize(line: bytes, n: nat)
    requires ParseSize(line, 0) == Ok(n)
    ensures forall m :: IsSizeLine(line, m) <==> m == n
  {
    hide ParseSize, IsSizeLine;
    forall m ensures IsSizeLine(line, m) <==> m == n {
      SizeLineIff(line, n);
      SizeLineIff(line, m);
    }
  }

  lemma NoLine(d: Decoder, b: bytes, content: bytes)
    requires d.mode.Size? && !d.done && FindCrlf(b).None?
    ensures !Decodes(d, b, content)
  {
  }

  lemma BadSize(d: Decoder, b: bytes, content: bytes)
    requires d.mode.Size? && !d.done && FindCrlf(b).Some? && ParseSize(b[..FindCrlf(b).value], 0).Err?
    ensures !Decodes(d, b, content)
  {
    hide ParseSize;
  }

  /** A whole message in the chunked coding, with its payload, is one of the grammar. */
  lemma WholeChunkedIsGrammar(b: bytes, content: bytes)
    ensures WholeChunked(b) && Payload(b) == content <==> IsChunked(b, content)
  {
    DecodesIffChunked(INITIAL, b, content);
  }

  // ----- What a message is refused with ----------------------------------------------------------

  /** Too large is only said of a size line that is; everything else that is refused is
      malformed. */
  lemma StepRefuses(d: Decoder, buffer: bytes, max: nat)
    requires Step(d, buffer, max).Refuse?
    ensures var status := Step(d, buffer, max).status;
            && status in {400, 413}
            && (status == 413 <==> d.mode.Size? && FindCrlf(buffer).Some?
                                   && exists n :: IsSizeLine(buffer[..FindCrlf(buffer).value], n))
            && (status == 413 ==> max > 0)
  {
    if d.mode.Size? && FindCrlf(buffer).Some? {
      var line := buffer[..FindCrlf(buffer).value];
      SizeRefuses(line, max);
    } else if d.mode.Trailer? && FindCrlf(buffer).Some? && FindCrlf(buffer).value > 0 {
      TrailerLineIff(buffer[..FindCrlf(buffer).value]);
    }
  }

  lemma SizeRefuses(line: bytes, max: nat)
    requires ParseSize(line, max).Err?
    ensures ParseSize(line, max).error in {400, 413}
    ensures ParseSize(line, max).error == 413 <==> exists n :: IsSizeLine(line, n)
    ensures ParseSize(line, max).error == 413 ==> max > 0
  {
    SizeLineIff(line, 0);
    if exists n :: IsSizeLine(line, n) {
      var n :| IsSizeLine(line, n);
      SizeLineIff(line, n);
      if max > 0 {
        SizeLineWithLimit(line, n, max);
      }
    } else {
      hide IsSizeLine;
    }
  }

  /** So without a limit every refusal is for malformed input. */
  lemma {:induction false} RefusedAsMalformed(d: Decoder, buffer: bytes, max: nat)
    ensures var f := Feed(d, buffer, max); f.error.Some? ==> f.error.value in {400, 413} && (max == 0 ==> f.error.value == 400)
    decreases |buffer|
  {
    hide Step;
    var m := Step(d, buffer, max);
    if m.Refuse? {
      StepRefuses(d, buffer, max);
    } else if m.Take? && !m.last {
      RefusedAsMalformed(m.next, buffer[m.n..], max);
    }
  }
}
