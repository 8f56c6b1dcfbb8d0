/** Byte strings, and the few operations on them that the parsers share. */
module Bytes {
  import opened Wrappers

  type byte = b: int | 0 <= b < 256
  type bytes = seq<byte>

  /** A header or trailer field: its name and its value. */
  type Field = (bytes, bytes)

  const CR: byte := 13
  const LF: byte := 10
  const TAB: byte := 9
  const SPACE: byte := 32
  const COLON: byte := 58
  const SEMICOLON: byte := 59
  const CRLF: bytes := [CR, LF]

  /** The position of the first CRLF. */
  function FindCrlf(b: bytes): (r: Option<nat>)
    ensures r.Some? ==> r.value + 2 <= |b| && b[r.value] == CR && b[r.value + 1] == LF
  {
    if |b| < 2 then None
    else if b[0] == CR && b[1] == LF then Some(0)
    else
      var r := FindCrlf(b[1..]);
      if r.None? then None else Some(r.value + 1)
  }

  /** More input does not move a CRLF that has been found. */
  lemma {:induction false} FindCrlfStays(a: bytes, b: bytes)
    requires FindCrlf(a).Some?
    ensures FindCrlf(a + b) == FindCrlf(a)
  {
    assert (a + b)[0] == a[0] && (a + b)[1] == a[1];
    if !(a[0] == CR && a[1] == LF) {
      assert (a + b)[1..] == a[1..] + b;
      FindCrlfStays(a[1..], b);
    }
  }

  /** A CRLF that only more input completes ends beyond what there was. */
  lemma {:induction false} FindCrlfLater(a: bytes, b: bytes)
    requires FindCrlf(a).None? && FindCrlf(a + b).Some?
    ensures FindCrlf(a + b).value + 1 >= |a|
  {
    if |a| >= 2 {
      assert (a + b)[0] == a[0] && (a + b)[1] == a[1];
      assert (a + b)[1..] == a[1..] + b;
      FindCrlfLater(a[1..], b);
    }
  }

  /** Nothing after a CRLF plays a part in finding it. */
  lemma {:induction false} FindCrlfExact(b: bytes, k: nat)
    requires FindCrlf(b).Some? && FindCrlf(b).value + 2 <= k <= |b|
    ensures FindCrlf(b[..k]) == FindCrlf(b)
  {
    if !(b[0] == CR && b[1] == LF) {
      assert b[..k][1..] == b[1..][..k - 1];
      FindCrlfExact(b[1..], k - 1);
    }
  }

  /** A line without a CRLF of its own ends at the CRLF after it. */
  lemma {:induction false} FindCrlfAfter(line: bytes, rest: bytes)
    requires FindCrlf(line).None?
    ensures FindCrlf(line + CRLF + rest) == Some(|line|)
  {
    var all := line + CRLF + rest;
    if line != [] {
      assert all[1..] == line[1..] + CRLF + rest;
      FindCrlfAfter(line[1..], rest);
      assert all[0] == line[0] && all[1] == (if |line| > 1 then line[1] else CR);
    }
  }

  /** The line in front of the first CRLF, and what follows it. */
  lemma {:induction false} CutAtCrlf(b: bytes, i: nat)
    requires FindCrlf(b) == Some(i)
    ensures b == b[..i] + CRLF + b[i + 2..] && FindCrlf(b[..i]).None?
  {
    assert b[i..i + 2] == CRLF;
    if i > 0 {
      CutAtCrlf(b[1..], i - 1);
      assert b[..i][1..] == b[1..][..i - 1];
      assert b[1..][i + 1..] == b[i + 2..];
      assert i >= 2 ==> b[..i][0] == b[0] && b[..i][1] == b[1];
    }
  }

  lemma {:induction false} NoCrlf(b: bytes)
    requires forall i :: 0 <= i < |b| ==> b[i] != LF
    ensures FindCrlf(b).None?
  {
    if |b| >= 2 {
      NoCrlf(b[1..]);
    }
  }

  predicate White(b: byte) {
    9 <= b <= 13 || b == SPACE
  }

  function StripLeft(b: bytes): bytes {
    if b != [] && White(b[0]) then StripLeft(b[1..]) else b
  }

  function StripRight(b: bytes): bytes {
    if b != [] && White(b[|b| - 1]) then StripRight(b[..|b| - 1]) else b
  }

  function Strip(b: bytes): bytes {
    StripRight(StripLeft(b))
  }

  predicate Stripped(b: bytes) {
    b != [] ==> !White(b[0]) && !White(b[|b| - 1])
  }

  lemma {:induction false} StripLeftEnds(b: bytes)
    ensures var r := StripLeft(b); r != [] ==> !White(r[0])
  {
    if b != [] && White(b[0]) {
      StripLeftEnds(b[1..]);
    }
  }

  lemma {:induction false} StripRightEnds(b: bytes)
    ensures var r := StripRight(b); r <= b && (r != [] ==> !White(r[|r| - 1]))
  {
    if b != [] && White(b[|b| - 1]) {
      StripRightEnds(b[..|b| - 1]);
    }
  }

  lemma StripStrips(b: bytes)
    ensures Stripped(Strip(b))
  {
    StripLeftEnds(b);
    StripRightEnds(StripLeft(b));
  }

  /** What comes before the first `mark`, or everything. */
  function Before(b: bytes, mark: byte): (r: bytes)
    ensures |r| <= |b| && r == b[..|r|] && mark !in r
    ensures |r| < |b| ==> b[|r|] == mark
    ensures mark !in b ==> r == b
  {
    if b == [] || b[0] == mark then [] else [b[0]] + Before(b[1..], mark)
  }

  lemma {:induction false} BeforeMark(a: bytes, mark: byte, rest: bytes)
    requires mark !in a
    ensures Before(a + [mark] + rest, mark) == a
  {
    if a != [] {
      assert (a + [mark] + rest)[1..] == a[1..] + [mark] + rest;
      BeforeMark(a[1..], mark, rest);
    }
  }

  function Lower(b: bytes): (r: bytes)
    ensures |r| == |b|
  {
    seq(|b|, i requires 0 <= i < |b| => if 65 <= b[i] <= 90 then b[i] + 32 else b[i])
  }

  /** Fields as they are handed on: with their names in lower case. */
  function LowerNames(fields: seq<Field>): (r: seq<Field>)
    ensures |r| == |fields| && forall i :: 0 <= i < |fields| ==> r[i] == (Lower(fields[i].0), fields[i].1)
  {
    if fields == [] then [] else [(Lower(fields[0].0), fields[0].1)] + LowerNames(fields[1..])
  }

  /** A field on a line of its own. */
  function FieldLine(f: Field): bytes {
    f.0 + [COLON, SPACE] + f.1
  }

  /** A character of a token, section 5.6.2 of RFC 9110. */
  predicate TokenByte(b: byte) {
    || 48 <= b <= 57 || 65 <= b <= 90 || 97 <= b <= 122
    || b in {33, 35, 36, 37, 38, 39, 42, 43, 45, 46, 94, 95, 96, 124, 126}
  }

  predicate Token(b: bytes) {
    b != [] && forall i :: 0 <= i < |b| ==> TokenByte(b[i])
  }

  /** A field value free of control bytes other than a tab. */
  predicate LegalValue(b: bytes) {
    forall i :: 0 <= i < |b| ==> (b[i] >= 32 && b[i] != 127) || b[i] == TAB
  }

  /** Concatenation of a list of pieces. */
  function Flat(pieces: seq<bytes>): bytes {
    if pieces == [] then [] else pieces[0] + Flat(pieces[1..])
  }

  lemma FlatOne(piece: bytes)
    ensures Flat([piece]) == piece
  {
    assert Flat([piece][1..]) == [] && piece + [] == piece;
  }

  lemma {:induction false} FlatConcat(a: seq<bytes>, b: seq<bytes>)
    ensures Flat(a + b) == Flat(a) + Flat(b)
  {
    if a == [] {
      assert a + b == b;
    } else {
      assert (a + b)[1..] == a[1..] + b;
      FlatConcat(a[1..], b);
    }
  }

  lemma ConcatAssoc<T>(a: seq<T>, b: seq<T>, c: seq<T>)
    ensures a + b + c == a + (b + c)
  {
  }

  lemma TakeStays<T>(a: seq<T>, b: seq<T>, n: nat)
    requires n <= |a|
    ensures (a + b)[..n] == a[..n]
  {
  }

  lemma DropStays<T>(a: seq<T>, b: seq<T>, n: nat)
    requires n <= |a|
    ensures (a + b)[n..] == a[n..] + b
  {
  }

  lemma SliceStays<T>(a: seq<T>, b: seq<T>, from: nat, to: nat)
    requires from <= to <= |a|
    ensures (a + b)[from..to] == a[from..to]
  {
  }

  lemma DropOfTake(b: bytes, k: nat, n: nat)
    requires k + n <= |b|
    ensures b[..k + n][k..] == b[k..][..n]
  {
  }

  // ----- Hexadecimal -----------------------------------------------------------

  predicate HexByte(b: byte) {
    48 <= b <= 57 || 65 <= b <= 70 || 97 <= b <= 102
  }

  function HexDigit(b: byte): (d: nat)
    requires HexByte(b)
    ensures d < 16
  {
    if b <= 57 then b - 48 else if b <= 70 then b - 55 else b - 87
  }

  function HexChar(d: nat): (b: byte)
    requires d < 16
    ensures HexByte(b) && HexDigit(b) == d
  {
    if d < 10 then 48 + d else 87 + d
  }

  predicate AllHex(s: bytes) {
    forall i :: 0 <= i < |s| ==> HexByte(s[i])
  }

  /** The number a string of hexadecimal digits stands for. */
  function HexValue(s: bytes): nat
    requires AllHex(s)
  {
    if s == [] then 0 else 16 * HexValue(s[..|s| - 1]) + HexDigit(s[|s| - 1])
  }

  /** A number as the shortest string of lower-case hexadecimal digits. */
  function Hex(n: nat): (s: bytes)
    ensures s != [] && AllHex(s)
  {
    if n < 16 then [HexChar(n)] else Hex(n / 16) + [HexChar(n % 16)]
  }

  function Pow16(n: nat): nat {
    if n == 0 then 1 else 16 * Pow16(n - 1)
  }

  lemma {:induction false} HexRoundTrip(n: nat)
    ensures HexValue(Hex(n)) == n
    ensures n > 0 ==> Pow16(|Hex(n)| - 1) <= n
  {
    if n < 16 {
      assert [HexChar(n)][..0] == [];
    } else {
      HexRoundTrip(n / 16);
      var s := Hex(n);
      assert s[..|s| - 1] == Hex(n / 16);
    }
  }

  // ----- The receive buffer -----------------------------------------------------

  /** Bytes that arrive at the back and are taken off at the front. */
  class Buffer {
    var data: bytes

    constructor (data: bytes)
      ensures this.data == data
    {
      this.data := data;
    }
  }
}
