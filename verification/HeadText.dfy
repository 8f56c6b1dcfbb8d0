/** Heads as text: lines, lists of tokens, and what the parsers make of them. */
module HeadText {
  import opened Wrappers
  import opened Bytes
  import opened Head

  // ----- Lines -------------------------------------------------------------------------------

  /** The lines of a head, without the empty one that ends it. */
  function WriteLines(lines: seq<bytes>): (b: bytes)
    ensures lines != [] ==> |b| >= 2
  {
    if lines == [] then [] else lines[0] + CRLF + WriteLines(lines[1..])
  }

  /** A line that cannot be mistaken for the end of a head, or of itself. */
  predicate IsLine(line: bytes) {
    line != [] && CR !in line
  }

  predicate AreLines(lines: seq<bytes>) {
    forall i :: 0 <= i < |lines| ==> IsLine(lines[i])
  }

  lemma {:induction false} NoCrNoCrlf(line: bytes)
    requires CR !in line
    ensures FindCrlf(line).None?
  {
    if |line| >= 2 {
      NoCrNoCrlf(line[1..]);
    }
  }

  /** The lines are cut apart again. */
  lemma {:induction false} LinesOfText(lines: seq<bytes>)
    requires lines != [] && AreLines(lines)
    ensures Lines(WriteLines(lines)[..|WriteLines(lines)| - 2]) == lines
  {
    var line, rest := lines[0], WriteLines(lines[1..]);
    NoCrNoCrlf(line);
    if lines[1..] == [] {
      assert WriteLines(lines)[..|WriteLines(lines)| - 2] == line;
    } else {
      LinesOfText(lines[1..]);
      var cut := rest[..|rest| - 2];
      assert WriteLines(lines)[..|WriteLines(lines)| - 2] == line + CRLF + cut;
      LinesAfter(line, cut);
    }
  }

  lemma LinesAfter(line: bytes, more: bytes)
    requires FindCrlf(line).None?
    ensures Lines(line + CRLF + more) == [line] + Lines(more)
  {
    FindCrlfAfter(line, more);
    assert (line + CRLF + more)[..|line|] == line && (line + CRLF + more)[|line| + 2..] == more;
  }

  /** Cutting into lines loses nothing, and no line holds the end of another. */
  lemma {:induction false} TextOfLines(b: bytes)
    ensures WriteLines(Lines(b)) == b + CRLF
    ensures forall i :: 0 <= i < |Lines(b)| ==> FindCrlf(Lines(b)[i]).None?
    decreases |b|
  {
    match FindCrlf(b)
    case None => assert [b][1..] == [] && b + CRLF + [] == b + CRLF;
    case Some(i) =>
      CutAtCrlf(b, i);
      TextOfLines(b[i + 2..]);
      assert Lines(b)[1..] == Lines(b[i + 2..]);
      ConcatAssoc(b[..i] + CRLF, b[i + 2..], CRLF);
  }

  /** The end of a head is not in a line. */
  lemma {:induction false} EndAfterLine(line: bytes, more: bytes)
    requires CR !in line && |more| >= 2 && more[..2] != CRLF
    ensures FindEnd(line + CRLF + more) == match FindEnd(more) case None => None case Some(i) => Some(|line| + 2 + i)
  {
    var b := line + CRLF + more;
    if line == [] {
      assert b == CRLF + more && b[..4] == CRLF + more[..2];
      assert b[..4][2..] == more[..2] && (CRLF + CRLF)[2..] == CRLF;
      var tail := b[1..];
      assert tail == [LF] + more && tail[1..] == more;
      assert |tail| >= 4 ==> tail[..4][0] == LF && (CRLF + CRLF)[0] == CR;
    } else {
      assert b[0] == line[0] && b[..4][0] == b[0];
      assert b[1..] == line[1..] + CRLF + more;
      EndAfterLine(line[1..], more);
    }
  }

  lemma {:induction false} EndAtLine(line: bytes, more: bytes)
    requires CR !in line && |more| >= 2 && more[..2] == CRLF
    ensures FindEnd(line + CRLF + more) == Some(|line|)
  {
    var b := line + CRLF + more;
    if line == [] {
      assert b == CRLF + more && b[..4] == CRLF + more[..2];
    } else {
      assert b[0] == line[0] && b[..4][0] == b[0];
      assert b[1..] == line[1..] + CRLF + more;
      EndAtLine(line[1..], more);
    }
  }

  /** The end of a head is found where it was written. */
  lemma {:induction false} EndOfText(lines: seq<bytes>, rest: bytes)
    requires lines != [] && AreLines(lines)
    ensures FindEnd(WriteLines(lines) + CRLF + rest) == Some(|WriteLines(lines)| - 2)
  {
    var line, more := lines[0], WriteLines(lines[1..]) + CRLF + rest;
    assert WriteLines(lines) + CRLF + rest == line + CRLF + more;
    if lines[1..] == [] {
      assert more == CRLF + rest && more[..2] == CRLF;
      EndAtLine(line, more);
    } else {
      assert more[0] == lines[1][0];
      assert more[..2][0] == more[0];
      EndOfText(lines[1..], rest);
      EndAfterLine(line, more);
    }
  }

  // ----- Lists of tokens -----------------------------------------------------------------------

  /** A comma separated list has the token among its members, in any case and with white
      space around it. */
  ghost predicate Lists(value: bytes, token: bytes) {
    token != [] && exists from: nat, to: nat :: MemberAt(value, from, to) && Lower(Strip(value[from..to])) == token
  }

  /** A stretch between two commas, or a comma and an end. */
  predicate MemberAt(value: bytes, from: nat, to: nat) {
    && from <= to <= |value| && COMMA !in value[from..to]
    && (from == 0 || value[from - 1] == COMMA) && (to == |value| || value[to] == COMMA)
  }

  lemma MemberShifts(value: bytes, n: nat, from: nat, to: nat)
    requires 0 < n <= |value| && value[n - 1] == COMMA && from <= to <= |value| - n
    ensures value[n..][from..to] == value[from + n..to + n]
    ensures MemberAt(value[n..], from, to) <==> MemberAt(value, from + n, to + n)
  {
    assert from > 0 ==> value[n..][from - 1] == value[from + n - 1];
    assert to < |value| - n ==> value[n..][to] == value[to + n];
  }

  lemma FirstMember(value: bytes)
    ensures var first := Before(value, COMMA); value[0..|first|] == first && MemberAt(value, 0, |first|)
    ensures var first := Before(value, COMMA); |first| < |value| ==> value[|first|] == COMMA
  {
  }

  lemma MemberFits(value: bytes, from: nat, to: nat)
    requires MemberAt(value, from, to)
    ensures from <= to <= |value|
  {
  }

  lemma SplitFirst(value: bytes)
    ensures var first, parts := Before(value, COMMA), Split(value, COMMA);
            if |first| == |value| then parts == [first] else parts == [first] + Split(value[|first| + 1..], COMMA)
  {
  }

  /** Every stretch is among the parts. */
  lemma {:induction false} MemberIsSplit(value: bytes, from: nat, to: nat)
    requires MemberAt(value, from, to)
    ensures value[from..to] in Split(value, COMMA)
    decreases |value|
  {
    hide MemberAt, Split;
    var first := Before(value, COMMA);
    FirstMember(value);
    SplitFirst(value);
    MemberIsFirstOrLater(value, from, to);
    if from > |first| {
      MemberFits(value, from, to);
      var n := |first| + 1;
      MemberShifts(value, n, from - n, to - n);
      MemberIsSplit(value[n..], from - n, to - n);
    }
  }

  /** Every part is such a stretch. */
  lemma {:induction false} SplitIsMember(value: bytes, part: bytes) returns (from: nat, to: nat)
    requires part in Split(value, COMMA)
    ensures MemberAt(value, from, to) && value[from..to] == part
    decreases |value|
  {
    hide MemberAt, Split;
    var first := Before(value, COMMA);
    FirstMember(value);
    SplitFirst(value);
    if part == first {
      from, to := 0, |first|;
    } else {
      var n := |first| + 1;
      from, to := SplitIsMember(value[n..], part);
      MemberFits(value[n..], from, to);
      MemberShifts(value, n, from, to);
      from, to := from + n, to + n;
    }
  }

  lemma MemberIsFirstOrLater(value: bytes, from: nat, to: nat)
    requires MemberAt(value, from, to)
    ensures var first := Before(value, COMMA); (from == 0 && to == |first|) || from > |first|
  {
    var first := Before(value, COMMA);
    assert forall i :: 0 <= i < |first| ==> value[i] != COMMA by {
      forall i | 0 <= i < |first| ensures value[i] != COMMA {
        assert value[i] == first[i];
      }
    }
    assert forall i :: from <= i < to ==> value[i] != COMMA by {
      forall i | from <= i < to ensures value[i] != COMMA {
        assert value[i] == value[from..to][i - from];
      }
    }
  }

  lemma {:induction false} MembersAre(parts: seq<bytes>, token: bytes)
    ensures token in Members(parts) <==> token != [] && exists i :: 0 <= i < |parts| && Lower(Strip(parts[i])) == token
  {
    if parts != [] {
      MembersAre(parts[1..], token);
      if exists i :: 0 <= i < |parts| && Lower(Strip(parts[i])) == token {
        var i :| 0 <= i < |parts| && Lower(Strip(parts[i])) == token;
        assert i > 0 ==> parts[1..][i - 1] == parts[i];
      }
      if exists i :: 0 <= i < |parts[1..]| && Lower(Strip(parts[1..][i])) == token {
        var i :| 0 <= i < |parts[1..]| && Lower(Strip(parts[1..][i])) == token;
        assert parts[i + 1] == parts[1..][i];
      }
    }
  }

  /** Splitting a list at its commas finds its members. */
  lemma MembersAreListed(value: bytes, token: bytes)
    ensures token in Members(Split(value, COMMA)) <==> Lists(value, token)
  {
    var parts := Split(value, COMMA);
    MembersAre(parts, token);
    if token in Members(parts) {
      var i :| 0 <= i < |parts| && Lower(Strip(parts[i])) == token;
      var from, to := SplitIsMember(value, parts[i]);
    }
    if Lists(value, token) {
      var from: nat, to: nat :| MemberAt(value, from, to) && Lower(Strip(value[from..to])) == token;
      MemberIsSplit(value, from, to);
      var i :| 0 <= i < |parts| && parts[i] == value[from..to];
    }
  }

  // ----- White space, cases and numbers ----------------------------------------------------------

  /** Stripping takes white space off both ends, and all of it. */
  lemma StripTakesWhite(b: bytes)
    ensures exists from: nat, to: nat :: from <= to <= |b| && Strip(b) == b[from..to]
              && (forall i :: 0 <= i < from || to <= i < |b| ==> White(b[i]))
    ensures Stripped(Strip(b))
  {
    var from := LeftTakesWhite(b);
    var to := RightTakesWhite(b[from..]);
    StripStrips(b);
    assert Strip(b) == b[from..from + to];
    forall i | 0 <= i < from || from + to <= i < |b| ensures White(b[i]) {
      assert i >= from ==> b[from..][i - from] == b[i];
    }
  }

  lemma {:induction false} LeftTakesWhite(b: bytes) returns (from: nat)
    ensures from <= |b| && StripLeft(b) == b[from..] && forall i :: 0 <= i < from ==> White(b[i])
  {
    if b != [] && White(b[0]) {
      var n := LeftTakesWhite(b[1..]);
      from := n + 1;
      assert b[1..][n..] == b[from..];
      forall i | 0 <= i < from ensures White(b[i]) {
        assert i > 0 ==> b[i] == b[1..][i - 1];
      }
    } else {
      from := 0;
    }
  }

  lemma {:induction false} RightTakesWhite(b: bytes) returns (to: nat)
    ensures to <= |b| && StripRight(b) == b[..to] && forall i :: to <= i < |b| ==> White(b[i])
  {
    if b != [] && White(b[|b| - 1]) {
      to := RightTakesWhite(b[..|b| - 1]);
      forall i | to <= i < |b| ensures White(b[i]) {
        assert i < |b| - 1 ==> b[i] == b[..|b| - 1][i];
      }
    } else {
      to := |b|;
    }
  }

  /** Letters become lower case, one by one, and everything else stays. */
  lemma LowerAt(b: bytes, i: nat)
    requires i < |b|
    ensures Lower(b)[i] == if 65 <= b[i] <= 90 then b[i] + 32 else b[i]
  {
  }

  function Pow10(n: nat): nat {
    if n == 0 then 1 else 10 * Pow10(n - 1)
  }

  lemma TimesTen(digit: nat, weight: nat)
    ensures 10 * (digit * weight) == digit * (10 * weight)
  {
  }

  /** The first digit of a number is its most significant one. */
  lemma {:induction false} DecimalFromTheLeft(b: bytes)
    requires Digits(b)
    ensures b[1..] == [] || Digits(b[1..])
    ensures Decimal(b) == (b[0] - 48) * Pow10(|b| - 1) + Decimal(b[1..])
  {
    if |b| > 1 {
      var front := b[..|b| - 1];
      DecimalFromTheLeft(front);
      assert front[1..] == b[1..][..|b| - 2];
      TimesTen(b[0] - 48, Pow10(|b| - 2));
      assert Decimal(b[1..]) == 10 * Decimal(front[1..]) + (b[|b| - 1] - 48);
    } else {
      assert b[..0] == [] && b[1..] == [];
    }
  }
}
