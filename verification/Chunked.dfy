/** The incremental decoder of the chunked transfer coding, section 7.1 of RFC 9112. */
module Chunked {
  import opened Wrappers
  import opened Bytes

  const MAX_CHUNK_LINE := 1024
  const MAX_TRAILER_FIELDS := 64
  const MAX_TRAILER_VALUE := 8192

  datatype Mode = Size | Data | Trailer

  datatype Decoder = Decoder(mode: Mode, remaining: nat, done: bool, trailers: seq<Field>)

  const INITIAL := Decoder(Size, 0, false, [])

  /** What one look at the buffer does: nothing until more arrives, refuse the
      message with a status after taking `n` bytes, or take `n` bytes. */
  datatype Move =
    | Wait
    | Refuse(status: nat, n: nat)
    | Take(next: Decoder, n: nat, out: bytes, last: bool)

  /** The number on a chunk size line, without its extensions. */
  function ParseSize(line: bytes, max: nat): Result<nat, nat> {
    var digits := Strip(Before(line, SEMICOLON));
    if digits == [] || !AllHex(digits) then Err(400)
    else if max > 0 && |digits| > 8 && Pow16(|digits| - 1) > max then Err(413)
    else if max > 0 && HexValue(digits) > max then Err(413)
    else Ok(HexValue(digits))
  }

  function ParseTrailer(line: bytes): Result<Field, nat>
    requires line != []
  {
    if line[0] == SPACE || line[0] == TAB || COLON !in line then Err(400)
    else
      var raw := Before(line, COLON);
      var name, value := Lower(Strip(raw)), Strip(line[|raw| + 1..]);
      if !Token(name) || !LegalValue(value) || |value| > MAX_TRAILER_VALUE then Err(400)
      else Ok((name, value))
  }

  /** A line of the size or trailer section, taken off the buffer with its CRLF. */
  function LineMove(d: Decoder, line: bytes, max: nat): (m: Move)
    requires !d.mode.Data?
    ensures !m.Wait? && m.n == |line| + 2
  {
    var n := |line| + 2;
    if d.mode.Size? then
      match ParseSize(line, max)
      case Err(status) => Refuse(status, n)
      case Ok(size) => Take(if size == 0 then d.(mode := Trailer) else d.(mode := Data, remaining := size), n, [], false)
    else if line == [] then Take(d.(done := true), n, [], true)
    else
      match ParseTrailer(line)
      case Err(status) => Refuse(status, n)
      case Ok(field) =>
        var kept := if |d.trailers| < MAX_TRAILER_FIELDS then d.trailers + [field] else d.trailers;
        Take(d.(trailers := kept), n, [], false)
  }

  function Step(d: Decoder, buffer: bytes, max: nat): (m: Move)
    ensures !m.Wait? ==> m.n <= |buffer|
    ensures m.Take? ==> m.n > 0
  {
    if d.mode.Data? then
      if d.remaining > 0 then
        var take := if |buffer| < d.remaining then |buffer| else d.remaining;
        if take == 0 then Wait else Take(d.(remaining := d.remaining - take), take, buffer[..take], false)
      else if |buffer| < 2 then Wait
      else if buffer[..2] != CRLF then Refuse(400, 0)
      else Take(d.(mode := Size), 2, [], false)
    else
      match FindCrlf(buffer)
      case None => if |buffer| > MAX_CHUNK_LINE then Refuse(400, 0) else Wait
      case Some(i) => LineMove(d, buffer[..i], max)
  }

  /** The decoder and the buffer after feeding, the chunks decoded on the way, and
      the status the message was refused with, if it was. */
  datatype Fed = Fed(next: Decoder, rest: bytes, chunks: seq<bytes>, error: Option<nat>)

  function Feed(d: Decoder, buffer: bytes, max: nat): (f: Fed)
    ensures |f.rest| <= |buffer|
    decreases |buffer|
  {
    match Step(d, buffer, max)
    case Wait => Fed(d, buffer, [], None)
    case Refuse(status, n) => Fed(d, buffer[n..], [], Some(status))
    case Take(next, n, out, last) =>
      if last then Fed(next, buffer[n..], [], None)
      else
        var f := Feed(next, buffer[n..], max);
        f.(chunks := (if out == [] then [] else [out]) + f.chunks)
  }

  lemma {:induction false} DoneTakesBytes(d: Decoder, buffer: bytes, max: nat)
    requires !d.done
    ensures Feed(d, buffer, max).next.done ==> |Feed(d, buffer, max).rest| < |buffer|
    decreases |buffer|
  {
    var m := Step(d, buffer, max);
    if m.Take? && !m.last {
      DoneTakesBytes(m.next, buffer[m.n..], max);
    }
  }

  // ----- Cutting the input -------------------------------------------------------

  /** `g` is what feeding in one go gives where feeding in two gave `first`, then `f`. */
  ghost predicate Joins(first: seq<bytes>, f: Fed, g: Fed) {
    && g.error == f.error
    && (g.error.None? ==> g.next == f.next && g.rest == f.rest && Flat(g.chunks) == Flat(first) + Flat(f.chunks))
  }

  /** `f` is `g` with `out` decoded first. */
  ghost predicate Continues(f: Fed, out: bytes, g: Fed) {
    f.next == g.next && f.rest == g.rest && f.error == g.error && Flat(f.chunks) == out + Flat(g.chunks)
  }

  lemma ContinuesTrans(f: Fed, a: bytes, g: Fed, b: bytes, h: Fed)
    requires Continues(f, a, g) && Continues(g, b, h)
    ensures Continues(f, a + b, h)
  {
    assert a + (b + Flat(h.chunks)) == a + b + Flat(h.chunks);
  }

  /** One step of feeding, seen from the body it decodes. */
  lemma FeedTake(d: Decoder, buffer: bytes, max: nat)
    requires Step(d, buffer, max).Take? && !Step(d, buffer, max).last
    ensures var m := Step(d, buffer, max);
            Continues(Feed(d, buffer, max), m.out, Feed(m.next, buffer[m.n..], max))
  {
    var m := Step(d, buffer, max);
    var g := Feed(m.next, buffer[m.n..], max);
    var c := if m.out == [] then [] else [m.out];
    FlatConcat(c, g.chunks);
    assert c != [] ==> c[1..] == [];
  }

  lemma DataStepStays(d: Decoder, a: bytes, b: bytes, max: nat)
    requires !Step(d, a, max).Wait? && d.mode.Data? && d.remaining <= |a|
    ensures Step(d, a + b, max) == Step(d, a, max)
  {
    if d.remaining > 0 {
      TakeStays(a, b, d.remaining);
    } else {
      TakeStays(a, b, 2);
    }
  }

  lemma LineStepStays(d: Decoder, a: bytes, b: bytes, max: nat)
    requires !d.mode.Data? && FindCrlf(a).Some?
    ensures Step(d, a + b, max) == Step(d, a, max)
  {
    FindCrlfStays(a, b);
    TakeStays(a, b, FindCrlf(a).value);
  }

  /** More input changes no step that takes a line, a terminator or a whole chunk. */
  lemma StepStays(d: Decoder, a: bytes, b: bytes, max: nat)
    requires !Step(d, a, max).Wait?
    requires d.mode.Data? ==> d.remaining <= |a|
    requires !d.mode.Data? ==> FindCrlf(a).Some?
    ensures Step(d, a + b, max) == Step(d, a, max)
    ensures var n := Step(d, a, max).n; (a + b)[n..] == a[n..] + b
  {
    if d.mode.Data? {
      DataStepStays(d, a, b, max);
    } else {
      LineStepStays(d, a, b, max);
    }
    DropStays(a, b, Step(d, a, max).n);
  }

  /** The first part of a chunk of which more is to come. */
  lemma FeedPartOfChunk(d: Decoder, a: bytes, max: nat)
    requires d.mode.Data? && a != [] && |a| < d.remaining
    ensures Feed(d, a, max) == Fed(d.(remaining := d.remaining - |a|), [], [a], None)
  {
    assert a[..|a|] == a && a[|a|..] == [];
    assert Feed(d.(remaining := d.remaining - |a|), [], max) == Fed(d.(remaining := d.remaining - |a|), [], [], None);
  }

  /** The step that takes both parts of a chunk at once. */
  lemma StepBothParts(d: Decoder, a: bytes, b: bytes, max: nat)
    requires d.mode.Data? && a != [] && b != [] && |a| < d.remaining
    ensures var m := Step(d.(remaining := d.remaining - |a|), b, max);
            && m.Take? && !m.last
            && Step(d, a + b, max) == m.(n := |a| + m.n, out := a + m.out)
            && (a + b)[|a| + m.n..] == b[m.n..]
  {
    var m := Step(d.(remaining := d.remaining - |a|), b, max);
    assert (a + b)[..|a| + m.n] == a + b[..m.n];
  }

  /** A chunk that arrives in two parts. */
  lemma FeedRestOfChunk(d: Decoder, a: bytes, b: bytes, max: nat)
    requires d.mode.Data? && a != [] && |a| < d.remaining
    ensures Joins([a], Feed(d.(remaining := d.remaining - |a|), b, max), Feed(d, a + b, max))
  {
    if b == [] {
      assert a + b == a;
      FeedPartOfChunk(d, a, max);
      FlatOne(a);
    } else {
      StepBothParts(d, a, b, max);
      FeedTake(d, a + b, max);
      FeedTake(d.(remaining := d.remaining - |a|), b, max);
      var m := Step(d.(remaining := d.remaining - |a|), b, max);
      PrefixJoins(a, m.out, Feed(m.next, b[m.n..], max), Feed(d.(remaining := d.remaining - |a|), b, max), Feed(d, a + b, max));
    }
  }

  lemma PrefixJoins(a: bytes, out: bytes, h: Fed, f: Fed, g: Fed)
    requires Continues(f, out, h) && Continues(g, a + out, h)
    ensures Joins([a], f, g)
  {
    FlatOne(a);
    assert a + out + Flat(h.chunks) == a + (out + Flat(h.chunks));
  }

  lemma TakeJoins(out: bytes, first: seq<bytes>, whole: seq<bytes>, f: Fed, g: Fed, h: Fed)
    requires Joins(first, f, g) && Flat(whole) == out + Flat(first)
    requires Continues(h, out, g)
    ensures Joins(whole, f, h)
  {
    assert out + (Flat(first) + Flat(f.chunks)) == out + Flat(first) + Flat(f.chunks);
  }

  /** Feeding `a` and later `b` is feeding both at once; after the end of the
      message, what follows is left alone. */
  ghost predicate FedTwice(d: Decoder, a: bytes, b: bytes, max: nat) {
    var first := Feed(d, a, max);
    if first.next.done then Feed(d, a + b, max) == first.(rest := first.rest + b)
    else Joins(first.chunks, Feed(first.next, first.rest + b, max), Feed(d, a + b, max))
  }

  lemma FeedTwiceStep(d: Decoder, a: bytes, b: bytes, max: nat)
    requires var m := Step(d, a, max);
             m.Take? && !m.last && Step(d, a + b, max) == m && FedTwice(m.next, a[m.n..], b, max)
    ensures FedTwice(d, a, b, max)
  {
    var m := Step(d, a, max);
    DropStays(a, b, m.n);
    FeedTake(d, a, max);
    FeedTake(d, a + b, max);
    var first := Feed(m.next, a[m.n..], max);
    if first.next.done {
      assert Feed(d, a, max).chunks == (if m.out == [] then [] else [m.out]) + first.chunks;
    } else {
      TakeJoins(m.out, first.chunks, Feed(d, a, max).chunks, Feed(first.next, first.rest + b, max),
                Feed(m.next, a[m.n..] + b, max), Feed(d, a + b, max));
    }
  }

  lemma {:induction false} FeedTwice(d: Decoder, a: bytes, b: bytes, max: nat)
    requires !d.done && Feed(d, a, max).error.None?
    ensures FedTwice(d, a, b, max)
    decreases |a|
  {
    var m := Step(d, a, max);
    if m.Take? {
      if d.mode.Data? && |a| < d.remaining {
        FeedPartOfChunk(d, a, max);
        FeedRestOfChunk(d, a, b, max);
        assert [] + b == b;
      } else {
        StepStays(d, a, b, max);
        if !m.last {
          FeedTwice(m.next, a[m.n..], b, max);
          FeedTwiceStep(d, a, b, max);
        }
      }
    }
  }

  /** The decoder as its callers drive it: the buffer is extended piece by piece,
      and fed each time, until the message is done or refused. */
  function FeedPieces(d: Decoder, buffer: bytes, pieces: seq<bytes>, max: nat): (f: Fed)
    decreases |pieces|
  {
    if pieces == [] then Fed(d, buffer, [], None)
    else if d.done then Fed(d, buffer + Flat(pieces), [], None)
    else
      var first := Feed(d, buffer + pieces[0], max);
      if first.error.Some? then first
      else
        var f := FeedPieces(first.next, first.rest, pieces[1..], max);
        f.(chunks := first.chunks + f.chunks)
  }

  /** `f` is what the later pieces give after `first`, `g` what feeding the rest of the
      input at once gives there. */
  lemma PiecesJoin(first: Fed, f: Fed, g: Fed, whole: Fed)
    requires Joins([], f, g) && Joins(first.chunks, g, whole)
    ensures Joins([], f.(chunks := first.chunks + f.chunks), whole)
  {
    FlatConcat(first.chunks, f.chunks);
    assert Flat([]) + Flat(f.chunks) == Flat(f.chunks);
    assert Flat([]) + Flat(first.chunks + f.chunks) == Flat(first.chunks + f.chunks);
  }

  /** The last piece of all, and the pieces after the end of the message. */
  lemma PiecesStop(d: Decoder, buffer: bytes, pieces: seq<bytes>, max: nat)
    requires pieces == [] || d.done
    ensures FeedPieces(d, buffer, pieces, max) == Fed(d, buffer + Flat(pieces), [], None)
  {
    assert pieces == [] ==> buffer + Flat(pieces) == buffer;
  }

  lemma JoinsItself(f: Fed)
    requires f.error.None?
    ensures Joins([], f, f) && f.chunks + [] == f.chunks
  {
    assert Flat([]) + Flat(f.chunks) == Flat(f.chunks);
  }

  /** Segmentation independence: if the piecewise run is not refused, it decodes
      the same body, trailers, state and leftover as one feed of everything. */
  lemma {:induction false} PiecesDecodeAlike(d: Decoder, buffer: bytes, pieces: seq<bytes>, max: nat)
    requires !d.done && pieces != [] && FeedPieces(d, buffer, pieces, max).error.None?
    ensures Joins([], FeedPieces(d, buffer, pieces, max), Feed(d, buffer + Flat(pieces), max))
    decreases |pieces|
  {
    var a, rest := buffer + pieces[0], Flat(pieces[1..]);
    var first := Feed(d, a, max);
    ConcatAssoc(buffer, pieces[0], rest);
    FeedTwice(d, a, rest, max);
    if pieces[1..] == [] || first.next.done {
      LastPieces(d, buffer, pieces, max);
    } else {
      PiecesDecodeAlike(first.next, first.rest, pieces[1..], max);
      PiecesJoin(first, FeedPieces(first.next, first.rest, pieces[1..], max), Feed(first.next, first.rest + rest, max),
                 Feed(d, a + rest, max));
    }
  }

  lemma LastPieces(d: Decoder, buffer: bytes, pieces: seq<bytes>, max: nat)
    requires !d.done && pieces != [] && Feed(d, buffer + pieces[0], max).error.None?
    requires pieces[1..] == [] || Feed(d, buffer + pieces[0], max).next.done
    ensures Joins([], FeedPieces(d, buffer, pieces, max), Feed(d, buffer + Flat(pieces), max))
  {
    var a, rest := buffer + pieces[0], Flat(pieces[1..]);
    var first := Feed(d, a, max);
    ConcatAssoc(buffer, pieces[0], rest);
    FeedTwice(d, a, rest, max);
    PiecesStop(first.next, first.rest, pieces[1..], max);
    assert a + [] == a && first.rest + [] == first.rest;
    JoinsItself(first);
  }

  // ----- When cutting can make a difference ------------------------------------------

  /** Every line of the message in the buffer is shorter than `MAX_CHUNK_LINE`. */
  ghost predicate ShortLines(d: Decoder, buffer: bytes, max: nat)
    decreases |buffer|
  {
    && (!d.mode.Data? ==> match FindCrlf(buffer)
                          case Some(i) => i < MAX_CHUNK_LINE
                          case None => |buffer| <= MAX_CHUNK_LINE)
    && var m := Step(d, buffer, max);
       (m.Take? && !m.last ==> ShortLines(m.next, buffer[m.n..], max))
  }

  /** A short line that is not waited for is there. */
  lemma LineIsThere(d: Decoder, a: bytes, b: bytes, max: nat)
    requires !d.mode.Data? && ShortLines(d, a + b, max) && !Step(d, a, max).Wait?
    ensures FindCrlf(a).Some?
  {
    hide LineMove;
    if FindCrlf(a).None? && FindCrlf(a + b).Some? {
      FindCrlfLater(a, b);
    }
  }

  /** What holds of feeding a part of input with short lines. */
  ghost predicate PrefixFeeds(d: Decoder, a: bytes, b: bytes, max: nat) {
    var first := Feed(d, a, max);
    && (first.error.Some? ==> Feed(d, a + b, max).error == first.error)
    && (first.error.None? && !first.next.done ==> ShortLines(first.next, first.rest + b, max))
  }

  lemma PrefixAfterStep(d: Decoder, a: bytes, b: bytes, max: nat)
    requires var m := Step(d, a, max);
             && !m.Wait? && Step(d, a + b, max) == m && m.n <= |a| && (a + b)[m.n..] == a[m.n..] + b
             && (m.Take? && m.last ==> m.next.done)
             && (m.Take? && !m.last ==> PrefixFeeds(m.next, a[m.n..], b, max))
    ensures PrefixFeeds(d, a, b, max)
  {
    hide Step, ShortLines;
  }

  /** With short lines a prefix is refused only for what refuses the whole. */
  lemma {:induction false} FeedPrefix(d: Decoder, a: bytes, b: bytes, max: nat)
    requires !d.done && ShortLines(d, a + b, max)
    ensures PrefixFeeds(d, a, b, max)
    decreases |a|
  {
    var m := Step(d, a, max);
    if !m.Wait? {
      if d.mode.Data? && d.remaining > |a| {
        FeedPartOfChunk(d, a, max);
        ShortRestOfChunk(d, a, b, max);
        assert [] + b == b;
      } else {
        if !d.mode.Data? {
          LineIsThere(d, a, b, max);
        }
        StepStays(d, a, b, max);
        if m.Take? && !m.last {
          FeedPrefix(m.next, a[m.n..], b, max);
        }
        PrefixAfterStep(d, a, b, max);
      }
    }
  }

  lemma ShortInData(d: Decoder, buffer: bytes, max: nat)
    requires d.mode.Data? && Step(d, buffer, max).Take?
    ensures var m := Step(d, buffer, max); ShortLines(d, buffer, max) <==> (m.last || ShortLines(m.next, buffer[m.n..], max))
  {
  }

  lemma ShortRestOfChunk(d: Decoder, a: bytes, b: bytes, max: nat)
    requires d.mode.Data? && a != [] && |a| < d.remaining && ShortLines(d, a + b, max)
    ensures ShortLines(d.(remaining := d.remaining - |a|), b, max)
  {
    var e := d.(remaining := d.remaining - |a|);
    if b != [] {
      StepBothParts(d, a, b, max);
      ShortInData(d, a + b, max);
      ShortInData(e, b, max);
      var m, w := Step(e, b, max), Step(d, a + b, max);
      assert w.next == m.next && !w.last && (a + b)[w.n..] == b[m.n..];
      assert ShortLines(m.next, b[m.n..], max);
      return;
    }
    assert Step(e, b, max).Wait?;
  }

  /** With short lines no cutting makes any difference at all: the same messages
      are refused, with the same status, and the others decode alike. */
  lemma {:induction false} ShortLinesDecodeAlike(d: Decoder, buffer: bytes, pieces: seq<bytes>, max: nat)
    requires !d.done && pieces != [] && ShortLines(d, buffer + Flat(pieces), max)
    ensures Joins([], FeedPieces(d, buffer, pieces, max), Feed(d, buffer + Flat(pieces), max))
    decreases |pieces|
  {
    var a, rest := buffer + pieces[0], Flat(pieces[1..]);
    var first := Feed(d, a, max);
    ConcatAssoc(buffer, pieces[0], rest);
    FeedPrefix(d, a, rest, max);
    if first.error.None? {
      FeedTwice(d, a, rest, max);
      if pieces[1..] == [] || first.next.done {
        LastPieces(d, buffer, pieces, max);
      } else {
        ShortLinesDecodeAlike(first.next, first.rest, pieces[1..], max);
        PiecesJoin(first, FeedPieces(first.next, first.rest, pieces[1..], max), Feed(first.next, first.rest + rest, max),
                   Feed(d, a + rest, max));
      }
    }
  }

  lemma {:induction false} NoCrlfThenCr(line: bytes)
    requires FindCrlf(line).None?
    ensures FindCrlf(line + [CR]).None?
  {
    if line != [] {
      assert (line + [CR])[1..] == line[1..] + [CR];
      NoCrlfThenCr(line[1..]);
    }
  }

  lemma LongLineRefused(d: Decoder, line: bytes, max: nat)
    requires !d.mode.Data? && FindCrlf(line).None? && |line| >= MAX_CHUNK_LINE
    ensures Feed(d, line + [CR], max).error == Some(400)
  {
    NoCrlfThenCr(line);
  }

  /** The limit is real: a line of `MAX_CHUNK_LINE` bytes or more is refused when it is
      cut in front of its last byte, though it is read when it comes whole. */
  lemma LongLineRefusedWhenCut(d: Decoder, line: bytes, rest: bytes, max: nat)
    requires !d.mode.Data? && FindCrlf(line).None? && |line| >= MAX_CHUNK_LINE
    ensures FeedPieces(d.(done := false), [], [line + [CR], [LF] + rest], max).error == Some(400)
    ensures Step(d, line + [CR] + ([LF] + rest), max) == LineMove(d, line, max)
  {
    hide Feed, LineMove;
    LongLineRefused(d.(done := false), line, max);
    assert [] + (line + [CR]) == line + [CR];
    assert line + [CR] + ([LF] + rest) == line + CRLF + rest;
    FindCrlfAfter(line, rest);
    assert (line + CRLF + rest)[..|line|] == line;
  }

  /** The bytes a step takes are all it looks at. */
  lemma StepExact(d: Decoder, buffer: bytes, k: nat, max: nat)
    requires Step(d, buffer, max).Take? && Step(d, buffer, max).n <= k <= |buffer|
    ensures Step(d, buffer[..k], max) == Step(d, buffer, max)
  {
    var m := Step(d, buffer, max);
    if d.mode.Data? {
      assert d.remaining > 0 ==> buffer[..k][..m.n] == buffer[..m.n];
      assert d.remaining == 0 ==> buffer[..k][..2] == buffer[..2];
    } else {
      FindCrlfExact(buffer, k);
      assert buffer[..k][..m.n - 2] == buffer[..m.n - 2];
    }
  }

  /** Input with a long line has a place where cutting it gets it refused. */
  lemma {:induction false} FindCut(d: Decoder, b: bytes, max: nat) returns (k: nat)
    requires Feed(d, b, max).error.None? && !ShortLines(d, b, max)
    ensures k <= |b| && Feed(d, b[..k], max).error.Some?
    decreases |b|
  {
    var m := Step(d, b, max);
    if !d.mode.Data? && FindCrlf(b).Some? && FindCrlf(b).value >= MAX_CHUNK_LINE {
      k := CutLine(d, b, FindCrlf(b).value, max);
    } else {
      assert m.Take? && !m.last && !ShortLines(m.next, b[m.n..], max);
      FeedTake(d, b, max);
      var j := FindCut(m.next, b[m.n..], max);
      k := m.n + j;
      StepExact(d, b, k, max);
      FeedTake(d, b[..k], max);
      assert b[..k][m.n..] == b[m.n..][..j];
    }
  }

  lemma CutLine(d: Decoder, b: bytes, i: nat, max: nat) returns (k: nat)
    requires !d.mode.Data? && FindCrlf(b) == Some(i) && i >= MAX_CHUNK_LINE
    ensures k <= |b| && Feed(d, b[..k], max).error.Some?
  {
    k := i + 1;
    CutAtCrlf(b, i);
    NoCrlfThenCr(b[..i]);
    assert b[..k] == b[..i] + [CR];
  }

  /** Fed piece by piece from here, the input is refused. */
  predicate Refused(d: Decoder, pieces: seq<bytes>, max: nat) {
    FeedPieces(d, [], pieces, max).error.Some?
  }

  lemma ShortLinesNeverRefused(d: Decoder, pieces: seq<bytes>, max: nat)
    requires !d.done && pieces != [] && Feed(d, Flat(pieces), max).error.None? && ShortLines(d, Flat(pieces), max)
    ensures !Refused(d, pieces, max)
  {
    assert [] + Flat(pieces) == Flat(pieces);
    ShortLinesDecodeAlike(d, [], pieces, max);
  }

  lemma RefusedSomewhere(d: Decoder, b: bytes, max: nat) returns (pieces: seq<bytes>)
    requires !d.done && Feed(d, b, max).error.None? && !ShortLines(d, b, max)
    ensures pieces != [] && Flat(pieces) == b && Refused(d, pieces, max)
  {
    hide Feed, ShortLines, Step;
    var k := FindCut(d, b, max);
    pieces := [b[..k]] + [b[k..]];
    FlatConcat([b[..k]], [b[k..]]);
    FlatOne(b[..k]);
    FlatOne(b[k..]);
    assert b[..k] + b[k..] == b;
    assert pieces[0] == b[..k] && [] + b[..k] == b[..k];
  }

  /** Segmentation independence, exactly: no cutting of input that is accepted whole gets
      it refused if and only if its lines are short. */
  lemma CuttingIsHarmlessIffShort(d: Decoder, b: bytes, max: nat)
    requires !d.done && Feed(d, b, max).error.None?
    ensures ShortLines(d, b, max) <==> forall pieces :: pieces != [] && Flat(pieces) == b ==> !Refused(d, pieces, max)
  {
    if ShortLines(d, b, max) {
      forall pieces | pieces != [] && Flat(pieces) == b ensures !Refused(d, pieces, max) {
        ShortLinesNeverRefused(d, pieces, max);
      }
    } else {
      var pieces := RefusedSomewhere(d, b, max);
    }
  }

  /** A last chunk whose line is as long as the limit, because of its extension. */
  function LongLastChunk(): bytes {
    [48, SEMICOLON] + seq(MAX_CHUNK_LINE - 2, _ => 97)
  }

  lemma LongLastChunkIsZero(max: nat)
    ensures ParseSize(LongLastChunk(), max) == Ok(0) && FindCrlf(LongLastChunk()).None?
  {
    var filler: bytes := seq(MAX_CHUNK_LINE - 2, _ => 97);
    NoCrlf(LongLastChunk());
    BeforeMark([48], SEMICOLON, filler);
    assert [48] + [SEMICOLON] == [48, SEMICOLON];
    assert Strip([48]) == [48];
    assert [48][..0] == [] && HexValue([48]) == 0;
  }

  lemma LongLastChunkStep(max: nat)
    ensures var line := LongLastChunk();
            && FindCrlf(line).None? && FindCrlf(line + CRLF + CRLF) == Some(MAX_CHUNK_LINE)
            && Step(INITIAL, line + CRLF + CRLF, max) == Take(INITIAL.(mode := Trailer), MAX_CHUNK_LINE + 2, [], false)
            && (line + CRLF + CRLF)[MAX_CHUNK_LINE + 2..] == CRLF
  {
    var line := LongLastChunk();
    LongLastChunkIsZero(max);
    FindCrlfAfter(line, CRLF);
    assert (line + CRLF + CRLF)[..|line|] == line;
  }

  /** The step that takes one whole line off the buffer. */
  lemma StepLine(d: Decoder, line: bytes, rest: bytes, max: nat)
    requires !d.mode.Data? && FindCrlf(line).None?
    ensures var buffer := line + CRLF + rest;
            && FindCrlf(buffer) == Some(|line|)
            && Step(d, buffer, max) == LineMove(d, line, max)
            && buffer[|line| + 2..] == rest
  {
    FindCrlfAfter(line, rest);
    assert (line + CRLF + rest)[..|line|] == line;
  }

  lemma FeedTakeNothing(d: Decoder, buffer: bytes, max: nat)
    requires Step(d, buffer, max).Take? && !Step(d, buffer, max).last && Step(d, buffer, max).out == []
    ensures var m := Step(d, buffer, max);
            Feed(d, buffer, max) == Feed(m.next, buffer[m.n..], max)
  {
    var m := Step(d, buffer, max);
    assert [] + Feed(m.next, buffer[m.n..], max).chunks == Feed(m.next, buffer[m.n..], max).chunks;
  }

  lemma FeedEmptyLine(d: Decoder, rest: bytes, max: nat)
    requires d.mode.Trailer?
    ensures Feed(d, CRLF + rest, max) == Fed(d.(done := true), rest, [], None)
    ensures ShortLines(d, CRLF + rest, max)
  {
    assert [] + CRLF + rest == CRLF + rest;
    StepLine(d, [], rest, max);
  }

  /** A whole message in the chunked coding that every limit lets through, and that is
      refused when it is cut in the wrong place. */
  lemma LongLineMessage(max: nat)
    ensures var b := LongLastChunk() + CRLF + CRLF;
            && Feed(INITIAL, b, max) == Fed(INITIAL.(mode := Trailer, done := true), [], [], None)
            && !ShortLines(INITIAL, b, max)
            && Refused(INITIAL, [LongLastChunk() + [CR], [LF] + CRLF], max)
  {
    LongLastChunkStep(max);
    FeedTakeNothing(INITIAL, LongLastChunk() + CRLF + CRLF, max);
    FeedEmptyLine(INITIAL.(mode := Trailer), [], max);
    assert CRLF + [] == CRLF;
    LongLineRefusedWhenCut(INITIAL, LongLastChunk(), CRLF, max);
  }

  // ----- What a decoder has eaten ------------------------------------------------

  /** Starting from `d`, exactly `body` is consumed and `e` is reached. */
  predicate Eats(d: Decoder, body: bytes, e: Decoder) {
    var f := Feed(d, body, 0);
    f.error.None? && f.next == e && f.rest == []
  }

  /** A whole message in the chunked coding, with nothing after it. */
  predicate WholeChunked(body: bytes) {
    Feed(INITIAL, body, 0).next.done && Eats(INITIAL, body, Feed(INITIAL, body, 0).next)
  }

  lemma StepWithoutLimit(d: Decoder, buffer: bytes, max: nat)
    requires !Step(d, buffer, max).Refuse?
    ensures Step(d, buffer, 0) == Step(d, buffer, max)
  {
  }

  /** A limit only ever refuses: what it lets through decodes as without it. */
  lemma {:induction false} FeedWithoutLimit(d: Decoder, buffer: bytes, max: nat)
    requires Feed(d, buffer, max).error.None?
    ensures Feed(d, buffer, 0) == Feed(d, buffer, max)
    decreases |buffer|
  {
    StepWithoutLimit(d, buffer, max);
    var m := Step(d, buffer, max);
    if m.Take? && !m.last {
      FeedWithoutLimit(m.next, buffer[m.n..], max);
    }
  }

  /** What a feed leaves is what the rest of it leaves. */
  lemma TakeLeaves(d: Decoder, buffer: bytes)
    requires Step(d, buffer, 0).Take?
    ensures var m := Step(d, buffer, 0);
            Feed(d, buffer, 0).rest == if m.last then buffer[m.n..] else Feed(m.next, buffer[m.n..], 0).rest
  {
  }

  lemma ExactStep(d: Decoder, buffer: bytes, n: nat)
    requires Step(d, buffer, 0).Take? && n <= |buffer| - Step(d, buffer, 0).n
    ensures var m := Step(d, buffer, 0);
            Step(d, buffer[..m.n + n], 0) == m && buffer[..m.n + n][m.n..] == buffer[m.n..][..n]
  {
    hide Step;
    var m := Step(d, buffer, 0);
    StepExact(d, buffer, m.n + n, 0);
    DropOfTake(buffer, m.n, n);
  }

  /** `short` decodes as the buffer does, and nothing of it is left. */
  ghost predicate Trimmed(d: Decoder, buffer: bytes, short: bytes) {
    Feed(d, short, 0) == Feed(d, buffer, 0).(rest := [])
  }

  /** The part of a buffer that is taken off decodes alike on its own. */
  ghost predicate Exact(d: Decoder, buffer: bytes) {
    Trimmed(d, buffer, buffer[..|buffer| - |Feed(d, buffer, 0).rest|])
  }

  /** One step in front of feeds that differ in what they leave only. */
  lemma SameStepInFront(d: Decoder, buffer: bytes, short: bytes, tail: bytes)
    requires var m := Step(d, buffer, 0);
             m.Take? && !m.last && Step(d, short, 0) == m && short[m.n..] == tail
             && Trimmed(m.next, buffer[m.n..], tail)
    ensures Trimmed(d, buffer, short)
  {
  }

  lemma TrimmedAfterStep(d: Decoder, buffer: bytes, n: nat)
    requires Step(d, buffer, 0).Take? && !Step(d, buffer, 0).last
    requires var m := Step(d, buffer, 0);
             n <= |buffer| - m.n && Trimmed(m.next, buffer[m.n..], buffer[m.n..][..n])
    ensures Trimmed(d, buffer, buffer[..Step(d, buffer, 0).n + n])
  {
    hide Step, Feed;
    var m := Step(d, buffer, 0);
    ExactStep(d, buffer, n);
    SameStepInFront(d, buffer, buffer[..m.n + n], buffer[m.n..][..n]);
  }

  lemma ExactAfterStep(d: Decoder, buffer: bytes)
    requires Step(d, buffer, 0).Take? && !Step(d, buffer, 0).last
    requires var m := Step(d, buffer, 0); Exact(m.next, buffer[m.n..])
    ensures Exact(d, buffer)
  {
    hide Step, Feed;
    var m := Step(d, buffer, 0);
    var left := |Feed(m.next, buffer[m.n..], 0).rest|;
    TakeLeaves(d, buffer);
    TrimmedAfterStep(d, buffer, |buffer[m.n..]| - left);
  }

  lemma ExactAfterLast(d: Decoder, buffer: bytes)
    requires Step(d, buffer, 0).Take? && Step(d, buffer, 0).last
    ensures Exact(d, buffer)
  {
    var m := Step(d, buffer, 0);
    TakeLeaves(d, buffer);
    ExactStep(d, buffer, 0);
    assert buffer[..m.n][m.n..] == [];
  }

  lemma {:induction false} FeedExact(d: Decoder, buffer: bytes)
    requires Feed(d, buffer, 0).error.None?
    ensures Exact(d, buffer)
    decreases |buffer|
  {
    var m := Step(d, buffer, 0);
    if m.Take? {
      if m.last {
        ExactAfterLast(d, buffer);
      } else {
        FeedExact(m.next, buffer[m.n..]);
        ExactAfterStep(d, buffer);
      }
    } else {
      assert buffer[..0] == [];
    }
  }

  /** What has been decoded stays decoded when more arrives, even if the rest is refused. */
  ghost predicate Grows(d: Decoder, a: bytes, b: bytes, max: nat) {
    Flat(Feed(d, a, max).chunks) <= Flat(Feed(d, a + b, max).chunks)
  }

  lemma PartGrows(d: Decoder, a: bytes, b: bytes, max: nat)
    requires d.mode.Data? && a != [] && |a| < d.remaining
    ensures Grows(d, a, b, max)
  {
    FeedPartOfChunk(d, a, max);
    FlatOne(a);
    if b == [] {
      assert a + b == a;
    } else {
      StepBothParts(d, a, b, max);
      FeedTake(d, a + b, max);
      var m := Step(d.(remaining := d.remaining - |a|), b, max);
      ConcatAssoc(a, m.out, Flat(Feed(m.next, b[m.n..], max).chunks));
    }
  }

  lemma StepGrows(d: Decoder, a: bytes, b: bytes, max: nat)
    requires var m := Step(d, a, max);
             m.Take? && !m.last && Step(d, a + b, max) == m && Grows(m.next, a[m.n..], b, max)
    ensures Grows(d, a, b, max)
  {
    var m := Step(d, a, max);
    DropStays(a, b, m.n);
    FeedTake(d, a, max);
    FeedTake(d, a + b, max);
    PrefixAfter(m.out, Flat(Feed(m.next, a[m.n..], max).chunks), Flat(Feed(m.next, a[m.n..] + b, max).chunks));
  }

  lemma PrefixAfter(out: bytes, p: bytes, q: bytes)
    requires p <= q
    ensures out + p <= out + q
  {
    assert out + q == out + p + q[|p|..];
  }

  lemma {:induction false} FeedGrows(d: Decoder, a: bytes, b: bytes, max: nat)
    requires !d.done && Feed(d, a, max).error.None?
    ensures Grows(d, a, b, max)
    decreases |a|
  {
    var m := Step(d, a, max);
    if m.Take? {
      if d.mode.Data? && |a| < d.remaining {
        PartGrows(d, a, b, max);
      } else {
        StepStays(d, a, b, max);
        if !m.last {
          FeedGrows(m.next, a[m.n..], b, max);
          StepGrows(d, a, b, max);
        }
      }
    }
  }

  /** The body decoded from the bytes eaten so far. */
  function Payload(body: bytes): bytes {
    Flat(Feed(INITIAL, body, 0).chunks)
  }

  lemma FeedTaken(e: Decoder, buffer: bytes, max: nat)
    requires Feed(e, buffer, max).error.None?
    ensures var f := Feed(e, buffer, max);
            Feed(e, buffer[..|buffer| - |f.rest|], 0) == f.(rest := [])
  {
    hide Feed;
    FeedWithoutLimit(e, buffer, max);
    FeedExact(e, buffer);
  }

  /** Feeding on eats all of what is left nothing of. */
  lemma FeedEatsAll(body: bytes, e: Decoder, more: bytes)
    requires Eats(INITIAL, body, e) && !e.done
    requires Feed(e, more, 0).error.None? && Feed(e, more, 0).rest == []
    ensures Eats(INITIAL, body + more, Feed(e, more, 0).next)
    ensures Payload(body + more) == Payload(body) + Flat(Feed(e, more, 0).chunks)
  {
    hide Feed;
    FeedTwice(INITIAL, body, more, 0);
    assert [] + more == more;
  }

  /** Feeding a buffer eats the part of it that is taken off. */
  lemma FeedEats(body: bytes, e: Decoder, buffer: bytes, max: nat)
    requires Eats(INITIAL, body, e) && !e.done && Feed(e, buffer, max).error.None?
    ensures var f := Feed(e, buffer, max);
            var taken := buffer[..|buffer| - |f.rest|];
            Eats(INITIAL, body + taken, f.next) && Payload(body + taken) == Payload(body) + Flat(f.chunks)
  {
    hide Feed, Eats, Payload;
    FeedTaken(e, buffer, max);
    FeedEatsAll(body, e, buffer[..|buffer| - |Feed(e, buffer, max).rest|]);
  }

  /** No whole message is the beginning of another. */
  lemma WholeChunkedIsPrefixFree(a: bytes, b: bytes)
    requires WholeChunked(a) && WholeChunked(a + b)
    ensures b == []
  {
    FeedTwice(INITIAL, a, b, 0);
  }
}
