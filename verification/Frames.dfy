/** WebSocket frames, section 5.2 of RFC 6455: printing and parsing. */
module Frames {
  import opened Wrappers
  import opened Bytes

  const CONTINUATION := 0
  const TEXT := 1
  const BINARY := 2
  const CLOSE := 8
  const PING := 9
  const PONG := 10

  const PROTOCOL_ERROR := 1002
  const INVALID_PAYLOAD := 1007
  const TOO_BIG := 1009

  const MAX_CONTROL := 125
  const MAX_LENGTH := 0x7FFF_FFFF_FFFF_FFFF

  datatype Frame = Frame(fin: bool, opcode: nat, payload: bytes)

  /** One look at the buffer: nothing yet, a violation with its close code, or a
      frame that takes `n` bytes. */
  datatype Outcome = Incomplete | Violation(code: nat) | Parsed(frame: Frame, n: nat)

  // ----- Numbers and masks ---------------------------------------------------------

  function BigEndian(b: bytes): nat {
    if b == [] then 0 else 256 * BigEndian(b[..|b| - 1]) + b[|b| - 1]
  }

  function ToBytes(n: nat, width: nat): (b: bytes)
    ensures |b| == width
  {
    if width == 0 then [] else ToBytes(n / 256, width - 1) + [n % 256]
  }

  function Pow256(n: nat): nat {
    if n == 0 then 1 else 256 * Pow256(n - 1)
  }

  lemma {:induction false} BigEndianRoundTrip(n: nat, width: nat)
    requires n < Pow256(width)
    ensures BigEndian(ToBytes(n, width)) == n
  {
    if width > 0 {
      BigEndianRoundTrip(n / 256, width - 1);
      var b := ToBytes(n, width);
      assert b[..|b| - 1] == ToBytes(n / 256, width - 1);
    }
  }

  function Pow2(n: nat): nat {
    if n == 0 then 1 else 2 * Pow2(n - 1)
  }

  /** Exclusive or of the lowest `width` bits. */
  function XorBits(a: nat, b: nat, width: nat): (r: nat)
    ensures r < Pow2(width)
    decreases width
  {
    if width == 0 then 0 else (if a % 2 == b % 2 then 0 else 1) + 2 * XorBits(a / 2, b / 2, width - 1)
  }

  lemma {:induction false} XorBitsTwice(a: nat, b: nat, width: nat)
    requires a < Pow2(width)
    ensures XorBits(XorBits(a, b, width), b, width) == a
    decreases width
  {
    if width > 0 {
      var r := XorBits(a / 2, b / 2, width - 1);
      XorBitsTwice(a / 2, b / 2, width - 1);
      var x := XorBits(a, b, width);
      assert x / 2 == r;
      assert x % 2 == if a % 2 == b % 2 then 0 else 1;
    }
  }

  /** The bit with the weight of two to the `i`. */
  predicate Bit(n: nat, i: nat) {
    if i == 0 then n % 2 == 1 else Bit(n / 2, i - 1)
  }

  /** Exclusive or, bit by bit: a one exactly where the bits differ. */
  lemma {:induction false} XorBitsDiffer(a: nat, b: nat, width: nat, i: nat)
    requires i < width
    ensures Bit(XorBits(a, b, width), i) <==> Bit(a, i) != Bit(b, i)
    decreases width
  {
    var r := XorBits(a / 2, b / 2, width - 1);
    var x := XorBits(a, b, width);
    assert x == (if a % 2 == b % 2 then 0 else 1) + 2 * r;
    assert x / 2 == r && x % 2 == if a % 2 == b % 2 then 0 else 1;
    if i > 0 {
      XorBitsDiffer(a / 2, b / 2, width - 1, i - 1);
    }
  }

  lemma {:induction false} XorBitsZero(a: nat, width: nat)
    requires a < Pow2(width)
    ensures XorBits(a, 0, width) == a
    decreases width
  {
    if width > 0 {
      XorBitsZero(a / 2, width - 1);
    }
  }

  const BYTE_WIDTH: nat := 8

  lemma ByteWidth()
    ensures Pow2(BYTE_WIDTH) == 256
  {
    assert Pow2(4) == 16;
  }

  function Xor(a: byte, b: byte): byte {
    ByteWidth();
    XorBits(a, b, BYTE_WIDTH)
  }

  lemma XorTwice(a: byte, b: byte)
    ensures Xor(Xor(a, b), b) == a
  {
    ByteWidth();
    XorBitsTwice(a, b, BYTE_WIDTH);
  }

  /** The payload under the repeated four bytes of the mask. */
  function Masked(payload: bytes, mask: bytes): (r: bytes)
    requires |mask| == 4
    ensures |r| == |payload|
  {
    seq(|payload|, i requires 0 <= i < |payload| => Xor(payload[i], mask[i % 4]))
  }

  lemma MaskedTwice(payload: bytes, mask: bytes)
    requires |mask| == 4
    ensures Masked(Masked(payload, mask), mask) == payload
  {
    forall i | 0 <= i < |payload| ensures Masked(Masked(payload, mask), mask)[i] == payload[i] {
      XorTwice(payload[i], mask[i % 4]);
    }
  }

  lemma XorDiffers(a: byte, b: byte, i: nat)
    requires i < 8
    ensures Bit(Xor(a, b), i) <==> Bit(a, i) != Bit(b, i)
  {
    ByteWidth();
    XorBitsDiffer(a, b, BYTE_WIDTH, i);
  }

  /** Masking, section 5.3 of RFC 6455: every bit of an octet is flipped exactly where the
      octet of the mask, taken modulo 4, has a one. */
  lemma MaskedFlips(payload: bytes, mask: bytes, k: nat, i: nat)
    requires |mask| == 4 && k < |payload| && i < 8
    ensures Bit(Masked(payload, mask)[k], i) <==> Bit(payload[k], i) != Bit(mask[k % 4], i)
  {
    XorDiffers(payload[k], mask[k % 4], i);
  }

  /** A mask of zeros changes nothing. */
  lemma ZeroMask(payload: bytes)
    ensures Masked(payload, [0, 0, 0, 0]) == payload
  {
    forall k | 0 <= k < |payload| ensures Masked(payload, [0, 0, 0, 0])[k] == payload[k] {
      ByteWidth();
      XorBitsZero(payload[k], BYTE_WIDTH);
    }
  }

  lemma MaskedAt(payload: bytes, mask: bytes, i: nat)
    requires |mask| == 4 && i < |payload|
    ensures var turn := i % 4;
            Masked(payload, mask)[i] == Xor(payload[i], if turn == 0 then mask[0] else if turn == 1 then mask[1]
                                                        else if turn == 2 then mask[2] else mask[3])
  {
  }

  method MaskInPlace(data: array<byte>, mask: bytes)
    requires |mask| == 4
    modifies data
    ensures data[..] == Masked(old(data[..]), mask)
  {
    hide Xor;
    ghost var was := data[..];
    ghost var goal := Masked(was, mask);
    for i := 0 to data.Length
      invariant forall k :: 0 <= k < i ==> data[k] == goal[k]
      invariant forall k :: i <= k < data.Length ==> data[k] == was[k]
    {
      var turn := i % 4;
      var key := if turn == 0 then mask[0] else if turn == 1 then mask[1] else if turn == 2 then mask[2] else mask[3];
      MaskedAt(was, mask, i);
      data[i] := Xor(data[i], key);
    }
  }

  // ----- Printing --------------------------------------------------------------------

  function LengthField(length: nat): (b: bytes) {
    if length < 126 then [] else ToBytes(length, if length < 65536 then 2 else 8)
  }

  function LengthCode(length: nat): (code: nat)
    ensures code < 128
  {
    if length < 126 then length else if length < 65536 then 126 else 127
  }

  function FrameHead(f: Frame, mask: bytes): (b: bytes)
    requires f.opcode < 16
    ensures |b| == 2 + |LengthField(|f.payload|)|
  {
    [(if f.fin then 128 else 0) + f.opcode, (if mask == [] then 0 else 128) + LengthCode(|f.payload|)]
    + LengthField(|f.payload|)
  }

  /** A frame on the wire; an empty mask stands for none. */
  function BuildFrame(f: Frame, mask: bytes): (b: bytes)
    requires f.opcode < 16 && (mask == [] || |mask| == 4)
  {
    FrameHead(f, mask) + mask + if mask == [] then f.payload else Masked(f.payload, mask)
  }

  // ----- Parsing ---------------------------------------------------------------------

  predicate Known(opcode: nat) {
    opcode in {CONTINUATION, TEXT, BINARY, CLOSE, PING, PONG}
  }

  /** The rules a frame has to keep once its length is known. */
  function Objection(fin: bool, opcode: nat, masked: bool, length: nat, max: nat, requireMask: bool): Option<nat> {
    if opcode >= 8 then
      if !fin || length > MAX_CONTROL || masked != requireMask || !Known(opcode) then Some(PROTOCOL_ERROR) else None
    else if length > max then Some(TOO_BIG)
    else if masked != requireMask || !Known(opcode) then Some(PROTOCOL_ERROR)
    else None
  }

  /** The length of the payload and where the length field ends, or why not. */
  datatype Sizing = Short | Wrong | Sized(length: nat, offset: nat)

  function SizeOf(buffer: bytes): (s: Sizing)
    requires |buffer| >= 2
    ensures s.Sized? ==> 2 <= s.offset <= 10 && s.offset <= |buffer|
  {
    var code := buffer[1] % 128;
    if code == 126 then
      if |buffer| < 4 then Short
      else
        var length := BigEndian(buffer[2..4]);
        if length < 126 then Wrong else Sized(length, 4)
    else if code == 127 then
      if |buffer| < 10 then Short
      else
        var length := BigEndian(buffer[2..10]);
        if length < 65536 || length > MAX_LENGTH then Wrong else Sized(length, 10)
    else Sized(code, 2)
  }

  /** The payload, once the frame is known to be in order. */
  function TakePayload(buffer: bytes, fin: bool, opcode: nat, masked: bool, length: nat, offset: nat): (r: Outcome)
    requires offset <= |buffer|
    ensures r.Incomplete? || (r.Parsed? && offset <= r.n <= |buffer|)
  {
    var start := offset + if masked then 4 else 0;
    if |buffer| < start + length then Incomplete
    else
      var data := buffer[start..start + length];
      Parsed(Frame(fin, opcode, if masked then Masked(data, buffer[offset..start]) else data), start + length)
  }

  function ParseFrame(buffer: bytes, max: nat, requireMask: bool): (r: Outcome)
    ensures r.Parsed? ==> 2 <= r.n <= |buffer|
  {
    if |buffer| < 2 then Incomplete
    else if (buffer[0] / 16) % 8 != 0 then Violation(PROTOCOL_ERROR)
    else
      match SizeOf(buffer)
      case Short => Incomplete
      case Wrong => Violation(PROTOCOL_ERROR)
      case Sized(length, offset) =>
        var fin, opcode, masked := buffer[0] >= 128, buffer[0] % 16, buffer[1] >= 128;
        match Objection(fin, opcode, masked, length, max, requireMask)
        case Some(code) => Violation(code)
        case None => TakePayload(buffer, fin, opcode, masked, length, offset)
  }

  /** A length that can be read stays readable, and a wrong one wrong. */
  lemma SizeStays(a: bytes, b: bytes)
    requires |a| >= 2 && !SizeOf(a).Short?
    ensures SizeOf(a + b) == SizeOf(a)
  {
    assert (a + b)[1] == a[1];
    assert |a| >= 4 ==> (a + b)[2..4] == a[2..4];
    assert |a| >= 10 ==> (a + b)[2..10] == a[2..10];
  }

  lemma PayloadStays(a: bytes, b: bytes, fin: bool, opcode: nat, masked: bool, length: nat, offset: nat)
    requires offset <= |a| && TakePayload(a, fin, opcode, masked, length, offset).Parsed?
    ensures TakePayload(a + b, fin, opcode, masked, length, offset) == TakePayload(a, fin, opcode, masked, length, offset)
  {
    hide Masked;
    var start := offset + if masked then 4 else 0;
    SliceStays(a, b, start, start + length);
    SliceStays(a, b, offset, start);
  }

  /** More input changes neither a frame nor a violation that has been found. */
  lemma ParseStays(a: bytes, b: bytes, max: nat, requireMask: bool)
    requires !ParseFrame(a, max, requireMask).Incomplete?
    ensures ParseFrame(a + b, max, requireMask) == ParseFrame(a, max, requireMask)
  {
    assert (a + b)[0] == a[0] && (a + b)[1] == a[1];
    if (a[0] / 16) % 8 == 0 {
      SizeStays(a, b);
      var s := SizeOf(a);
      if ParseFrame(a, max, requireMask).Parsed? {
        PayloadStays(a, b, a[0] >= 128, a[0] % 16, a[1] >= 128, s.length, s.offset);
      }
    }
  }

  // ----- Round trip --------------------------------------------------------------------

  lemma Slices(a: bytes, b: bytes, c: bytes, d: bytes)
    ensures var w := a + b + c + d;
            && w[|a|..|a| + |b|] == b && w[|a| + |b|..|a| + |b| + |c|] == c && w[|a| + |b| + |c|..] == d
  {
  }

  lemma ReadLength(b: bytes, length: nat)
    requires length <= MAX_LENGTH && |b| >= 2 + |LengthField(length)| && b[1] % 128 == LengthCode(length)
    requires b[2..2 + |LengthField(length)|] == LengthField(length)
    ensures SizeOf(b) == Sized(length, 2 + |LengthField(length)|)
  {
    if 126 <= length < 65536 {
      assert Pow256(2) == 65536;
      BigEndianRoundTrip(length, 2);
    } else if length >= 65536 {
      assert Pow256(4) == 0x1_0000_0000;
      assert Pow256(8) == 0x1_0000_0000_0000_0000;
      BigEndianRoundTrip(length, 8);
    }
  }

  lemma TakeBuilt(head: bytes, f: Frame, mask: bytes)
    requires mask == [] || |mask| == 4
    ensures var b := head + mask + if mask == [] then f.payload else Masked(f.payload, mask);
            TakePayload(b, f.fin, f.opcode, mask != [], |f.payload|, |head|) == Parsed(f, |b|)
  {
    var data := if mask == [] then f.payload else Masked(f.payload, mask);
    Slices(head, mask, data, []);
    var b, start := head + mask + data, |head| + |mask|;
    assert b + [] == b;
    assert b[start..start + |data|] == data;
    if mask != [] {
      MaskedTwice(f.payload, mask);
    }
  }

  /** What the first two bytes of a frame say. */
  lemma ReadFixed(f: Frame, mask: bytes)
    requires f.opcode < 16
    ensures var head := FrameHead(f, mask);
            && head[0] % 16 == f.opcode && (head[0] / 16) % 8 == 0 && (head[0] >= 128) == f.fin
            && head[1] % 128 == LengthCode(|f.payload|) && (head[1] >= 128) == (mask != [])
  {
  }

  lemma ParseSized(b: bytes, f: Frame, masked: bool, offset: nat, max: nat, requireMask: bool)
    requires |b| >= 2 && b[0] % 16 == f.opcode && (b[0] / 16) % 8 == 0 && (b[0] >= 128) == f.fin
    requires (b[1] >= 128) == masked && SizeOf(b) == Sized(|f.payload|, offset)
    requires TakePayload(b, f.fin, f.opcode, masked, |f.payload|, offset) == Parsed(f, |b|)
    ensures ParseFrame(b, max, requireMask) ==
            match Objection(f.fin, f.opcode, masked, |f.payload|, max, requireMask)
            case Some(code) => Violation(code)
            case None => Parsed(f, |b|)
  {
  }

  lemma ParseBuilt(f: Frame, mask: bytes, max: nat, requireMask: bool)
    requires f.opcode < 16 && (mask == [] || |mask| == 4) && |f.payload| <= MAX_LENGTH
    ensures var b := BuildFrame(f, mask);
            ParseFrame(b, max, requireMask) ==
            match Objection(f.fin, f.opcode, mask != [], |f.payload|, max, requireMask)
            case Some(code) => Violation(code)
            case None => Parsed(f, |b|)
  {
    hide ParseFrame, SizeOf, TakePayload, Objection, Masked, LengthCode;
    var b, head := BuildFrame(f, mask), FrameHead(f, mask);
    TakeBuilt(head, f, mask);
    assert b[0] == head[0] && b[1] == head[1];
    assert b[2..|head|] == LengthField(|f.payload|);
    ReadFixed(f, mask);
    ReadLength(b, |f.payload|);
    ParseSized(b, f, mask != [], |head|, max, requireMask);
  }

  /** What a receiver makes of a frame that was built, whatever follows it: the frame
      itself, unless a rule objects to it. */
  lemma FrameRoundTrip(f: Frame, mask: bytes, rest: bytes, max: nat, requireMask: bool)
    requires f.opcode < 16 && (mask == [] || |mask| == 4) && |f.payload| <= MAX_LENGTH
    ensures var b := BuildFrame(f, mask);
            && (b + rest)[|b|..] == rest
            && ParseFrame(b + rest, max, requireMask) ==
               match Objection(f.fin, f.opcode, mask != [], |f.payload|, max, requireMask)
               case Some(code) => Violation(code)
               case None => Parsed(f, |b|)
  {
    ParseBuilt(f, mask, max, requireMask);
    ParseStays(BuildFrame(f, mask), rest, max, requireMask);
  }

  /** The wire octets of a masked payload, bit by bit. */
  lemma MaskedOnTheWire(f: Frame, mask: bytes, k: nat, i: nat)
    requires f.opcode < 16 && |mask| == 4 && k < |f.payload| && i < 8
    ensures var b, start := BuildFrame(f, mask), |FrameHead(f, mask)| + 4;
            && |b| == start + |f.payload| && b[start - 4..start] == mask
            && (Bit(b[start + k], i) <==> Bit(f.payload[k], i) != Bit(mask[k % 4], i))
  {
    MaskedFlips(f.payload, mask, k, i);
    Slices(FrameHead(f, mask), mask, Masked(f.payload, mask), []);
    var b, start := BuildFrame(f, mask), |FrameHead(f, mask)| + 4;
    assert b + [] == b;
    assert b[start + k] == Masked(f.payload, mask)[k];
  }

  /** Which frames are refused: those that are no text, binary or continuation frame within
      the cap, and no whole, short control frame; and those not masked as required. */
  lemma ObjectionIff(fin: bool, opcode: nat, masked: bool, length: nat, max: nat, requireMask: bool)
    requires opcode < 16
    ensures Objection(fin, opcode, masked, length, max, requireMask).None? <==>
              masked == requireMask && ((opcode in {0, 1, 2} && length <= max) || (opcode in {8, 9, 10} && fin && length <= 125))
    ensures Objection(fin, opcode, masked, length, max, requireMask) in {None, Some(1002), Some(1009)}
    ensures Objection(fin, opcode, masked, length, max, requireMask) == Some(1009) <==> opcode < 8 && length > max
  {
  }

  /** A reserved bit is refused, and so is a length that would have fitted a shorter form. */
  lemma Refused(b: bytes, max: nat, requireMask: bool)
    requires |b| >= 10
    ensures (b[0] / 16) % 8 != 0 ==> ParseFrame(b, max, requireMask) == Violation(1002)
    ensures b[1] % 128 == 126 && BigEndian(b[2..4]) < 126 ==> ParseFrame(b, max, requireMask) == Violation(1002)
    ensures b[1] % 128 == 127 && BigEndian(b[2..10]) < 65536 ==> ParseFrame(b, max, requireMask) == Violation(1002)
    ensures b[1] % 128 == 127 && b[2] >= 128 ==> ParseFrame(b, max, requireMask) == Violation(1002)
  {
    if b[1] % 128 == 127 && b[2] >= 128 {
      TopBit(b[2..10]);
    }
  }

  lemma TopBit(b: bytes)
    requires |b| == 8 && b[0] >= 128
    ensures BigEndian(b) > MAX_LENGTH
  {
    FirstWeighsMost(b);
    assert Pow256(3) == 0x100_0000 && Pow256(7) == Pow256(3) * 0x1_0000_0000;
  }

  /** The first octet of a number is its most significant one. */
  lemma {:induction false} FirstWeighsMost(b: bytes)
    requires b != []
    ensures BigEndian(b) == b[0] * Pow256(|b| - 1) + BigEndian(b[1..])
  {
    if |b| > 1 {
      var front := b[..|b| - 1];
      FirstWeighsMost(front);
      assert front[1..] == b[1..][..|b| - 2];
      assert BigEndian(b[1..]) == 256 * BigEndian(front[1..]) + b[|b| - 1];
      assert 256 * (b[0] * Pow256(|b| - 2)) == b[0] * Pow256(|b| - 1);
    } else {
      assert b[..0] == [] && b[1..] == [];
    }
  }

  /** No proper beginning of a frame that is in order is taken for one. */
  lemma BeginningIsIncomplete(f: Frame, mask: bytes, n: nat, max: nat, requireMask: bool)
    requires f.opcode < 16 && (mask == [] || |mask| == 4) && |f.payload| <= MAX_LENGTH
    requires n < |BuildFrame(f, mask)| && Objection(f.fin, f.opcode, mask != [], |f.payload|, max, requireMask).None?
    ensures ParseFrame(BuildFrame(f, mask)[..n], max, requireMask).Incomplete?
  {
    var b := BuildFrame(f, mask);
    ParseBuilt(f, mask, max, requireMask);
    assert b[..n] + b[n..] == b;
    if !ParseFrame(b[..n], max, requireMask).Incomplete? {
      ParseStays(b[..n], b[n..], max, requireMask);
    }
  }

  /** The masked text frame that RFC 6455 gives as an example in section 5.7. */
  lemma HelloFrame()
    ensures var b: bytes := [0x81, 0x85, 0x37, 0xfa, 0x21, 0x3d, 0x7f, 0x9f, 0x4d, 0x51, 0x58];
            ParseFrame(b, 125, true) == Parsed(Frame(true, TEXT, [0x48, 0x65, 0x6c, 0x6c, 0x6f]), 11)
  {
    hide Masked, SizeOf, Objection;
    var b: bytes := [0x81, 0x85, 0x37, 0xfa, 0x21, 0x3d, 0x7f, 0x9f, 0x4d, 0x51, 0x58];
    assert b[6..11] == [0x7f, 0x9f, 0x4d, 0x51, 0x58] && b[2..6] == [0x37, 0xfa, 0x21, 0x3d];
    HelloMasked();
    ObjectionIff(true, TEXT, true, 5, 125, true);
    ShortLength(b, 5);
    assert TakePayload(b, true, TEXT, true, 5, 2) == Parsed(Frame(true, TEXT, [0x48, 0x65, 0x6c, 0x6c, 0x6f]), 11);
  }

  lemma ShortLength(b: bytes, length: nat)
    requires |b| >= 2 && b[1] % 128 == length < 126
    ensures SizeOf(b) == Sized(length, 2)
  {
  }

  lemma HelloMasked()
    ensures Masked([0x7f, 0x9f, 0x4d, 0x51, 0x58], [0x37, 0xfa, 0x21, 0x3d]) == [0x48, 0x65, 0x6c, 0x6c, 0x6f]
  {
    HelloXor();
    hide Xor;
  }

  lemma HelloXor()
    ensures Xor(0x7f, 0x37) == 0x48 && Xor(0x9f, 0xfa) == 0x65 && Xor(0x4d, 0x21) == 0x6c
    ensures Xor(0x51, 0x3d) == 0x6c && Xor(0x58, 0x37) == 0x6f
  {
  }

  /** The two longer forms of the length, as in the examples of section 5.7. */
  lemma LongFrames(f: Frame)
    requires f.opcode == BINARY && f.fin
    ensures |f.payload| == 256 ==> FrameHead(f, []) == [0x82, 0x7e, 0x01, 0x00]
    ensures |f.payload| == 65536 ==> FrameHead(f, []) == [0x82, 0x7f, 0, 0, 0, 0, 0, 1, 0, 0]
  {
    LongLengths();
    hide ToBytes;
  }

  lemma LongLengths()
    ensures ToBytes(256, 2) == [1, 0] && ToBytes(65536, 8) == [0, 0, 0, 0, 0, 1, 0, 0]
  {
    assert ToBytes(1, 1) == [1] && ToBytes(0, 4) == [0, 0, 0, 0];
    assert ToBytes(1, 6) == ToBytes(0, 5) + [1] && ToBytes(0, 5) == [0, 0, 0, 0, 0];
    assert ToBytes(65536, 8) == ToBytes(256, 7) + [0] && ToBytes(256, 7) == ToBytes(1, 6) + [0];
  }

  // ----- In place ------------------------------------------------------------------------

  method MaskPayload(payload: bytes, mask: bytes) returns (r: bytes)
    requires |mask| == 4
    ensures r == Masked(payload, mask)
  {
    if payload == [] {
      return payload;
    }
    var out := new byte[|payload|](i requires 0 <= i < |payload| => payload[i]);
    assert out[..] == payload;
    MaskInPlace(out, mask);
    r := out[..];
  }

  /** A frame, header byte by header byte. */
  method WriteFrame(opcode: nat, payload: bytes, fin: bool, mask: bytes) returns (frame: bytes)
    requires opcode < 16 && (mask == [] || |mask| == 4)
    ensures frame == BuildFrame(Frame(fin, opcode, payload), mask)
  {
    frame := [(if fin then 128 else 0) + opcode];
    var maskBit := if mask == [] then 0 else 128;
    if |payload| < 126 {
      frame := frame + [maskBit + |payload|];
    } else if |payload| < 65536 {
      frame := frame + [maskBit + 126];
      frame := frame + ToBytes(|payload|, 2);
    } else {
      frame := frame + [maskBit + 127];
      frame := frame + ToBytes(|payload|, 8);
    }
    assert frame == FrameHead(Frame(fin, opcode, payload), mask);
    var data := payload;
    if mask != [] {
      frame := frame + mask;
      data := MaskPayload(payload, mask);
    }
    frame := frame + data;
  }

  /** The length field in its three forms. */
  method ReadSize(data: bytes) returns (size: Sizing)
    requires |data| >= 2
    ensures size == SizeOf(data)
  {
    var length: nat := data[1] % 128;
    if length == 126 {
      if |data| < 4 {
        return Short;
      }
      length := BigEndian(data[2..4]);
      return if length < 126 then Wrong else Sized(length, 4);
    } else if length == 127 {
      if |data| < 10 {
        return Short;
      }
      length := BigEndian(data[2..10]);
      return if length < 65536 || length > MAX_LENGTH then Wrong else Sized(length, 10);
    }
    return Sized(length, 2);
  }

  /** Takes one frame off the front of the buffer; without a whole frame, or on a
      violation, the buffer is left as it is. */
  method TakeFrame(buffer: Buffer, max: nat, requireMask: bool) returns (r: Outcome)
    modifies buffer
    ensures r == ParseFrame(old(buffer.data), max, requireMask)
    ensures buffer.data == if r.Parsed? then old(buffer.data)[r.n..] else old(buffer.data)
  {
    hide SizeOf, Masked;
    var data := buffer.data;
    if |data| < 2 {
      return Incomplete;
    }
    if (data[0] / 16) % 8 != 0 {
      return Violation(PROTOCOL_ERROR);
    }
    var size := ReadSize(data);
    if size.Short? {
      return Incomplete;
    }
    if size.Wrong? {
      return Violation(PROTOCOL_ERROR);
    }
    var fin, opcode, masked := data[0] >= 128, data[0] % 16, data[1] >= 128;
    var length, offset := size.length, size.offset;
    if opcode >= 8 {
      if !fin || length > MAX_CONTROL {
        return Violation(PROTOCOL_ERROR);
      }
    } else if length > max {
      return Violation(TOO_BIG);
    }
    if masked != requireMask || !Known(opcode) {
      return Violation(PROTOCOL_ERROR);
    }
    var start := offset + if masked then 4 else 0;
    if |data| < start + length {
      return Incomplete;
    }
    var payload := data[start..start + length];
    if masked {
      payload := MaskPayload(payload, data[offset..start]);
    }
    buffer.data := data[start + length..];
    return Parsed(Frame(fin, opcode, payload), start + length);
  }
}
