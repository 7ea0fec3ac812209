/** The converters between UTF-32 and UTF-8 of thirdparty/linenoise-ng/src/ConvertUTF.cpp. */
module Unicode {

  const SUR_HIGH_START: bv32 := 0xD800
  const SUR_LOW_END: bv32 := 0xDFFF
  const MAX_LEGAL: bv32 := 0x10FFFF
  const REPLACEMENT: bv32 := 0xFFFD

  predicate IsSurrogate(ch: bv32) { SUR_HIGH_START <= ch <= SUR_LOW_END }

  /** A Unicode scalar value. */
  predicate IsScalar(ch: bv32) { ch <= MAX_LEGAL && !IsSurrogate(ch) }

  // ---------------------------------------------------------------- one character

  function BytesToWrite(ch: bv32): (n: nat)
    ensures 1 <= n <= 4
  {
    if ch < 0x80 then 1 else if ch < 0x800 then 2 else if ch < 0x10000 then 3 else if ch <= MAX_LEGAL then 4 else 3
  }

  function FirstByteMark(n: nat): bv32 {
    if n == 2 then 0xC0 else if n == 3 then 0xE0 else if n == 4 then 0xF0 else 0
  }

  function Trail(ch: bv32): bv8 { ((ch | 0x80) & 0xBF) as bv8 }

  function Shift6(ch: bv32): bv32 { ch >> 6 }

  function Lead(ch: bv32, n: nat): bv8 { ((ch | FirstByteMark(n)) & 0xFF) as bv8 }

  /** What the switch writes for a character of n bytes. */
  function Written(ch: bv32, n: nat): (s: seq<bv8>)
    requires 1 <= n <= 4
    ensures |s| == n
  {
    if n == 1 then [Lead(ch, 1)]
    else if n == 2 then [Lead(Shift6(ch), 2), Trail(ch)]
    else if n == 3 then [Lead(Shift6(Shift6(ch)), 3), Trail(Shift6(ch)), Trail(ch)]
    else [Lead(Shift6(Shift6(Shift6(ch))), 4), Trail(Shift6(Shift6(ch))), Trail(Shift6(ch)), Trail(ch)]
  }

  /** The bytes of a character; a value beyond the last plane becomes the replacement character. */
  function Encode(ch: bv32): seq<bv8> {
    if ch > MAX_LEGAL then Written(REPLACEMENT, 3) else Written(ch, BytesToWrite(ch))
  }

  function TrailingBytes(b: bv8): nat {
    if b < 0xC0 then 0 else if b < 0xE0 then 1 else if b < 0xF0 then 2
    else if b < 0xF8 then 3 else if b < 0xFC then 4 else 5
  }

  function Offset(n: nat): bv32 {
    if n == 1 then 0x3080 else if n == 2 then 0xE2080 else if n == 3 then 0x3C82080 else if n == 4 then 0xFA082080
    else if n == 5 then 0x82082080 else 0
  }

  predicate SecondByteFits(first: bv8, a: bv8) {
    if first == 0xE0 then a >= 0xA0
    else if first == 0xED then a <= 0x9F
    else if first == 0xF0 then a >= 0x90
    else if first == 0xF4 then a <= 0x8F
    else a >= 0x80
  }

  /** isLegalUTF8, on a sequence whose length its first byte gives. */
  predicate IsLegalUTF8(s: seq<bv8>) {
    && 1 <= |s| <= 4
    && (|s| >= 4 ==> 0x80 <= s[3] <= 0xBF)
    && (|s| >= 3 ==> 0x80 <= s[2] <= 0xBF)
    && (|s| >= 2 ==> s[1] <= 0xBF && SecondByteFits(s[0], s[1]))
    && !(0x80 <= s[0] < 0xC2)
    && s[0] <= 0xF4
  }

  function Widened(b: bv8): bv32 { b as bv32 }

  function ShiftIn(acc: bv32, b: bv8): bv32 { (acc << 6) + (b as bv32) }

  function LessOffset(acc: bv32, n: nat): bv32 { acc - Offset(n) }

  /** Adding byte after byte with a shift of six between. */
  function Assembled(s: seq<bv8>): bv32
    requires s != []
  {
    if |s| == 1 then Widened(s[0]) else ShiftIn(Assembled(s[..|s| - 1]), s[|s| - 1])
  }

  function Decode(s: seq<bv8>): bv32
    requires s != []
  {
    LessOffset(Assembled(s), |s| - 1)
  }

  // ---------------------------------------------------------------- RFC 3629

  predicate IsTail(b: bv8) { 0x80 <= b <= 0xBF }

  /** UTF8-char of section 4 of RFC 3629. */
  predicate IsUtf8Char(s: seq<bv8>) {
    || (|s| == 1 && s[0] <= 0x7F)
    || (|s| == 2 && 0xC2 <= s[0] <= 0xDF && IsTail(s[1]))
    || (|s| == 3 && s[0] == 0xE0 && 0xA0 <= s[1] <= 0xBF && IsTail(s[2]))
    || (|s| == 3 && 0xE1 <= s[0] <= 0xEC && IsTail(s[1]) && IsTail(s[2]))
    || (|s| == 3 && s[0] == 0xED && 0x80 <= s[1] <= 0x9F && IsTail(s[2]))
    || (|s| == 3 && 0xEE <= s[0] <= 0xEF && IsTail(s[1]) && IsTail(s[2]))
    || (|s| == 4 && s[0] == 0xF0 && 0x90 <= s[1] <= 0xBF && IsTail(s[2]) && IsTail(s[3]))
    || (|s| == 4 && 0xF1 <= s[0] <= 0xF3 && IsTail(s[1]) && IsTail(s[2]) && IsTail(s[3]))
    || (|s| == 4 && s[0] == 0xF4 && 0x80 <= s[1] <= 0x8F && IsTail(s[2]) && IsTail(s[3]))
  }

  /** The check accepts the sequences of RFC 3629, and besides them those that begin with ED or F4 and
      go on with a byte below 80, for which it has no lower bound. */
  lemma LegalIsRfc3629(s: seq<bv8>)
    requires s != [] && |s| == TrailingBytes(s[0]) + 1
    ensures IsUtf8Char(s) ==> IsLegalUTF8(s)
    ensures IsLegalUTF8(s) ==> (IsUtf8Char(s) <==> !(|s| >= 2 && (s[0] == 0xED || s[0] == 0xF4) && s[1] < 0x80))
    ensures IsLegalUTF8(s) <==>
      || IsUtf8Char(s)
      || (|s| == 3 && s[0] == 0xED && s[1] < 0x80 && 0x80 <= s[2] <= 0xBF)
      || (|s| == 4 && s[0] == 0xF4 && s[1] < 0x80 && 0x80 <= s[2] <= 0xBF && 0x80 <= s[3] <= 0xBF)
  {
  }

  /** The length that a first byte announces is the number of its leading ones, one beyond ASCII and up to six;
      a byte that cannot come first announces no more bytes. */
  lemma TrailingBytesAre(b: bv8)
    ensures b & 0xC0 == 0x80 || b & 0x80 == 0 ==> TrailingBytes(b) == 0
    ensures b & 0xE0 == 0xC0 ==> TrailingBytes(b) == 1
    ensures b & 0xF0 == 0xE0 ==> TrailingBytes(b) == 2
    ensures b & 0xF8 == 0xF0 ==> TrailingBytes(b) == 3
    ensures b & 0xFC == 0xF8 ==> TrailingBytes(b) == 4
    ensures b & 0xFC == 0xFC ==> TrailingBytes(b) == 5
  {
  }

  function Value2(a: bv8, b: bv8): bv32 { LessOffset(ShiftIn(Widened(a), b), 1) }

  function Value3(a: bv8, b: bv8, c: bv8): bv32 { LessOffset(ShiftIn(ShiftIn(Widened(a), b), c), 2) }

  function Value4(a: bv8, b: bv8, c: bv8, d: bv8): bv32 {
    LessOffset(ShiftIn(ShiftIn(ShiftIn(Widened(a), b), c), d), 3)
  }

  lemma DecodeByBytes(s: seq<bv8>)
    requires 1 <= |s| <= 4
    ensures |s| == 1 ==> Decode(s) == LessOffset(Widened(s[0]), 0)
    ensures |s| == 2 ==> Decode(s) == Value2(s[0], s[1])
    ensures |s| == 3 ==> Decode(s) == Value3(s[0], s[1], s[2])
    ensures |s| == 4 ==> Decode(s) == Value4(s[0], s[1], s[2], s[3])
  {
    hide Widened, ShiftIn, LessOffset;
    if |s| > 1 {
      assert s[..|s| - 1][..1] == s[..1] && s[..1][0] == s[0];
      assert |s| > 2 ==> s[..|s| - 1][..2] == s[..2] && s[..2][..1] == s[..1];
      assert |s| > 3 ==> s[..3][..2] == s[..2];
      assert Assembled(s[..1]) == Widened(s[0]);
      assert Assembled(s[..2]) == ShiftIn(Widened(s[0]), s[1]);
      assert |s| > 2 ==> Assembled(s[..3]) == ShiftIn(Assembled(s[..2]), s[2]);
      assert s[..|s|] == s;
    }
  }

  /** Such a sequence: it is accepted as the character U+C040. */
  lemma AcceptedOutsideRfc3629()
    ensures var s: seq<bv8> := [0xED, 0x41, 0x80]; IsLegalUTF8(s) && !IsUtf8Char(s) && Decode(s) == 0xC040
  {
    DecodeByBytes([0xED, 0x41, 0x80]);
  }

  // ---------------------------------------------------------------- the arithmetic of UTF-8

  /** A byte without its mark. */
  ghost function Bits(b: bv8, mark: bv32): bv32 { (b as bv32) - mark }

  ghost function TwoBytes(a: bv8, b: bv8): bv32 { Bits(a, 0xC0) * 64 + Bits(b, 0x80) }

  ghost function ThreeBytes(a: bv8, b: bv8, c: bv8): bv32 {
    Bits(a, 0xE0) * 4096 + Bits(b, 0x80) * 64 + Bits(c, 0x80)
  }

  ghost function FourBytes(a: bv8, b: bv8, c: bv8, d: bv8): bv32 {
    Bits(a, 0xF0) * 262144 + Bits(b, 0x80) * 4096 + Bits(c, 0x80) * 64 + Bits(d, 0x80)
  }

  /** The number that a sequence of bytes stands for: six bits for each byte that follows the first. */
  ghost function Utf8Value(s: seq<bv8>): bv32
    requires 1 <= |s| <= 4
  {
    if |s| == 1 then Bits(s[0], 0) else if |s| == 2 then TwoBytes(s[0], s[1])
    else if |s| == 3 then ThreeBytes(s[0], s[1], s[2]) else FourBytes(s[0], s[1], s[2], s[3])
  }

  lemma Value1Is(a: bv8)
    ensures LessOffset(Widened(a), 0) == Bits(a, 0)
  {
  }

  lemma Value2Is(a: bv8, b: bv8)
    requires 0xC2 <= a <= 0xDF && 0x80 <= b <= 0xBF
    ensures Value2(a, b) == TwoBytes(a, b)
  {
  }

  lemma Value3Is(a: bv8, b: bv8, c: bv8)
    requires 0xE0 <= a <= 0xEF && 0x80 <= c <= 0xBF
    ensures Value3(a, b, c) == ThreeBytes(a, b, c)
  {
  }

  lemma Value4Is(a: bv8, b: bv8, c: bv8, d: bv8)
    requires 0xF0 <= a <= 0xF4 && 0x80 <= c <= 0xBF && 0x80 <= d <= 0xBF
    ensures Value4(a, b, c, d) == FourBytes(a, b, c, d)
  {
  }

  /** Which character an accepted sequence means. */
  lemma DecodeIs(s: seq<bv8>)
    requires s != [] && |s| == TrailingBytes(s[0]) + 1 && IsLegalUTF8(s)
    ensures 1 <= |s| <= 4 && Decode(s) == Utf8Value(s)
  {
    hide Value2, Value3, Value4, Decode, Bits, TwoBytes, ThreeBytes, FourBytes, Widened, LessOffset;
    DecodeByBytes(s);
    if |s| == 1 {
      Value1Is(s[0]);
    } else if |s| == 2 {
      Value2Is(s[0], s[1]);
    } else if |s| == 3 {
      Value3Is(s[0], s[1], s[2]);
    } else {
      Value4Is(s[0], s[1], s[2], s[3]);
    }
  }

  /** The first byte of a character of n bytes: its bits above those of the other bytes, and the mark. */
  ghost function FirstByte(ch: bv32, n: nat): bv32 {
    if n == 1 then ch else if n == 2 then 0xC0 + ch / 64 else if n == 3 then 0xE0 + ch / 4096 else 0xF0 + ch / 262144
  }

  /** Another byte: six bits, and the mark; k bytes come after it. */
  ghost function NextByte(ch: bv32, k: nat): bv32 {
    0x80 + (if k == 0 then ch else if k == 1 then ch / 64 else ch / 4096) % 64
  }

  /** The bytes of a character as numbers; a value beyond the last plane is written as U+FFFD. */
  ghost function Utf8Bytes(ch: bv32): seq<bv32> {
    if ch < 0x80 then [FirstByte(ch, 1)]
    else if ch < 0x800 then [FirstByte(ch, 2), NextByte(ch, 0)]
    else if ch < 0x10000 then [FirstByte(ch, 3), NextByte(ch, 1), NextByte(ch, 0)]
    else if ch <= 0x10FFFF then [FirstByte(ch, 4), NextByte(ch, 2), NextByte(ch, 1), NextByte(ch, 0)]
    else [0xEF, 0xBF, 0xBD]
  }

  lemma Shifts(ch: bv32)
    ensures Shift6(ch) == ch >> 6 && Shift6(Shift6(ch)) == ch >> 12 && Shift6(Shift6(Shift6(ch))) == ch >> 18
  {
  }

  ghost function Number(b: bv8): bv32 { b as bv32 }

  lemma TrailIs(ch: bv32)
    ensures Number(Trail(ch)) == NextByte(ch, 0)
    ensures Number(Trail(ch >> 6)) == NextByte(ch, 1)
    ensures Number(Trail(ch >> 12)) == NextByte(ch, 2)
  {
  }

  lemma LeadIs(ch: bv32)
    ensures ch < 0x80 ==> Number(Lead(ch, 1)) == FirstByte(ch, 1)
    ensures ch < 0x800 ==> Number(Lead(ch >> 6, 2)) == FirstByte(ch, 2)
    ensures ch < 0x10000 ==> Number(Lead(ch >> 12, 3)) == FirstByte(ch, 3)
    ensures ch <= 0x10FFFF ==> Number(Lead(ch >> 18, 4)) == FirstByte(ch, 4)
  {
  }

  lemma ReplacementIs()
    ensures Written(REPLACEMENT, 3) == [0xEF, 0xBF, 0xBD]
    ensures Number(0xEF) == 0xEF && Number(0xBF) == 0xBF && Number(0xBD) == 0xBD
  {
    assert Lead(Shift6(Shift6(0xFFFD)), 3) == 0xEF && Trail(Shift6(0xFFFD)) == 0xBF && Trail(0xFFFD) == 0xBD;
  }

  /** Which bytes are written for a character, surrogates included. */
  lemma EncodeIsUtf8(ch: bv32)
    ensures |Encode(ch)| == |Utf8Bytes(ch)|
    ensures forall i :: 0 <= i < |Encode(ch)| ==> Number(Encode(ch)[i]) == Utf8Bytes(ch)[i]
  {
    hide Lead, Trail, Shift6, FirstByte, NextByte, Number;
    ReplacementIs();
    Shifts(ch);
    TrailIs(ch);
    LeadIs(ch);
  }

  // ---------------------------------------------------------------- encoding and decoding one character

  lemma Bits1(ch: bv32)
    requires ch < 0x80
    ensures Lead(ch, 1) < 0x80 && LessOffset(Widened(Lead(ch, 1)), 0) == ch
  {
  }

  lemma Bits2(ch: bv32)
    requires 0x80 <= ch < 0x800
    ensures 0xC2 <= Lead(ch >> 6, 2) <= 0xDF && IsTail(Trail(ch)) && Value2(Lead(ch >> 6, 2), Trail(ch)) == ch
  {
  }

  lemma Bits3(ch: bv32)
    requires 0x800 <= ch < 0x10000 && !IsSurrogate(ch)
    ensures var a, b, c := Lead(ch >> 12, 3), Trail(ch >> 6), Trail(ch);
            0xE0 <= a <= 0xEF && IsTail(b) && IsTail(c) && (a == 0xE0 ==> b >= 0xA0) && (a == 0xED ==> b <= 0x9F)
  {
  }

  lemma Bits3Value(ch: bv32)
    requires 0x800 <= ch < 0x10000
    ensures Value3(Lead(ch >> 12, 3), Trail(ch >> 6), Trail(ch)) == ch
  {
  }

  lemma Bits4(ch: bv32)
    requires 0x10000 <= ch <= MAX_LEGAL
    ensures var a, b, c, d := Lead(ch >> 18, 4), Trail(ch >> 12), Trail(ch >> 6), Trail(ch);
            && 0xF0 <= a <= 0xF4 && IsTail(b) && IsTail(c) && IsTail(d) && (a == 0xF0 ==> b >= 0x90)
            && (a == 0xF4 ==> b <= 0x8F)
  {
  }

  lemma Bits4Value(ch: bv32)
    requires 0x10000 <= ch <= MAX_LEGAL
    ensures Value4(Lead(ch >> 18, 4), Trail(ch >> 12), Trail(ch >> 6), Trail(ch)) == ch
  {
  }

  lemma Bytes1(a: bv8)
    requires a < 0x80
    ensures (a as bv32) < 0x80 && Lead(a as bv32, 1) == a
  {
  }

  lemma Bytes2(a: bv8, b: bv8)
    requires 0xC2 <= a <= 0xDF && IsTail(b)
    ensures var ch := Value2(a, b); 0x80 <= ch < 0x800 && Lead(ch >> 6, 2) == a && Trail(ch) == b
  {
  }

  lemma Bytes3(a: bv8, b: bv8, c: bv8)
    requires 0xE0 <= a <= 0xEF && IsTail(b) && IsTail(c) && (a == 0xE0 ==> b >= 0xA0) && (a == 0xED ==> b <= 0x9F)
    ensures var ch := Value3(a, b, c); 0x800 <= ch < 0x10000 && !IsSurrogate(ch)
    ensures var ch := Value3(a, b, c); Lead(ch >> 12, 3) == a && Trail(ch >> 6) == b && Trail(ch) == c
  {
  }

  lemma Range4(a: bv8, b: bv8, c: bv8, d: bv8)
    requires 0xF0 <= a <= 0xF4 && IsTail(b) && IsTail(c) && IsTail(d) && (a == 0xF0 ==> b >= 0x90)
    requires a == 0xF4 ==> b <= 0x8F
    ensures 0x10000 <= Value4(a, b, c, d) <= MAX_LEGAL
  {
  }

  lemma Bytes4(a: bv8, b: bv8, c: bv8, d: bv8)
    requires 0xF0 <= a <= 0xF4 && IsTail(b) && IsTail(c) && IsTail(d)
    ensures var ch := Value4(a, b, c, d);
            Lead(ch >> 18, 4) == a && Trail(ch >> 12) == b && Trail(ch >> 6) == c && Trail(ch) == d
  {
  }

  /** Three- and four-byte sequences that are accepted without a lower bound on the second byte. */
  lemma LooseBytes3(b: bv8, c: bv8)
    requires b < 0x80 && IsTail(c)
    ensures IsScalar(Value3(0xED, b, c))
  {
  }

  lemma LooseBytes4(b: bv8, c: bv8, d: bv8)
    requires b < 0x80 && IsTail(c) && IsTail(d)
    ensures IsScalar(Value4(0xF4, b, c, d))
  {
  }

  /** Decoding undoes encoding, and an encoded scalar value is legal and tells its own length. */
  lemma EncodeOne(ch: bv32)
    requires IsScalar(ch)
    ensures var s := Encode(ch); IsUtf8Char(s) && |s| == TrailingBytes(s[0]) + 1 && Decode(s) == ch
  {
    hide Lead, Trail, Shift6, Value2, Value3, Value4, IsTail, Widened, ShiftIn, LessOffset, Decode;
    var s := Encode(ch);
    DecodeByBytes(s);
    Shifts(ch);
    if |s| == 1 {
      Bits1(ch);
    } else if |s| == 2 {
      Bits2(ch);
    } else if |s| == 3 {
      Bits3(ch);
      Bits3Value(ch);
    } else {
      Bits4(ch);
      Bits4Value(ch);
    }
  }

  lemma BytesInRange(s: seq<bv8>)
    requires IsUtf8Char(s)
    ensures 1 <= |s| <= 4 && (|s| == 1 ==> s[0] < 0x80)
    ensures |s| == 2 ==> 0xC2 <= s[0] <= 0xDF && IsTail(s[1])
    ensures |s| == 3 ==>
      && 0xE0 <= s[0] <= 0xEF && IsTail(s[1]) && IsTail(s[2]) && (s[0] == 0xE0 ==> s[1] >= 0xA0)
      && (s[0] == 0xED ==> s[1] <= 0x9F)
    ensures |s| == 4 ==> 0xF0 <= s[0] <= 0xF4 && IsTail(s[1]) && IsTail(s[2]) && IsTail(s[3])
                         && (s[0] == 0xF0 ==> s[1] >= 0x90) && (s[0] == 0xF4 ==> s[1] <= 0x8F)
  {
  }

  lemma Decode1(a: bv8)
    requires a < 0x80
    ensures IsScalar(LessOffset(Widened(a), 0)) && Encode(LessOffset(Widened(a), 0)) == [a]
  {
    Bytes1(a);
    assert LessOffset(Widened(a), 0) == a as bv32;
    hide Lead, Trail, Shift6, Widened, LessOffset;
  }

  lemma Decode2(a: bv8, b: bv8)
    requires 0xC2 <= a <= 0xDF && IsTail(b)
    ensures IsScalar(Value2(a, b)) && Encode(Value2(a, b)) == [a, b]
  {
    hide Lead, Trail, Shift6, Value2;
    Shifts(Value2(a, b));
    Bytes2(a, b);
  }

  lemma Decode3(a: bv8, b: bv8, c: bv8)
    requires 0xE0 <= a <= 0xEF && IsTail(b) && IsTail(c) && (a == 0xE0 ==> b >= 0xA0) && (a == 0xED ==> b <= 0x9F)
    ensures IsScalar(Value3(a, b, c)) && Encode(Value3(a, b, c)) == [a, b, c]
  {
    hide Lead, Trail, Shift6, Value3;
    Shifts(Value3(a, b, c));
    Bytes3(a, b, c);
  }

  lemma Decode4(a: bv8, b: bv8, c: bv8, d: bv8)
    requires 0xF0 <= a <= 0xF4 && IsTail(b) && IsTail(c) && IsTail(d) && (a == 0xF0 ==> b >= 0x90)
    requires a == 0xF4 ==> b <= 0x8F
    ensures IsScalar(Value4(a, b, c, d)) && Encode(Value4(a, b, c, d)) == [a, b, c, d]
  {
    hide Lead, Trail, Shift6, Value4;
    Shifts(Value4(a, b, c, d));
    Range4(a, b, c, d);
    Bytes4(a, b, c, d);
  }

  /** Encoding undoes decoding on the sequences of RFC 3629. */
  lemma DecodeOne(s: seq<bv8>)
    requires IsUtf8Char(s)
    ensures IsScalar(Decode(s)) && Encode(Decode(s)) == s
  {
    hide Lead, Trail, Shift6, Value2, Value3, Value4, IsTail, Widened, ShiftIn, LessOffset, Decode, Encode, IsScalar;
    DecodeByBytes(s);
    BytesInRange(s);
    if |s| == 1 {
      Decode1(s[0]);
    } else if |s| == 2 {
      Decode2(s[0], s[1]);
    } else if |s| == 3 {
      Decode3(s[0], s[1], s[2]);
    } else {
      Decode4(s[0], s[1], s[2], s[3]);
    }
  }

  /** Everything that is accepted decodes to a scalar value. */
  lemma LegalIsScalar(s: seq<bv8>)
    requires s != [] && |s| == TrailingBytes(s[0]) + 1 && IsLegalUTF8(s)
    ensures IsScalar(Decode(s))
  {
    hide Lead, Trail, Shift6, Value3, Value4, Widened, ShiftIn, LessOffset, Decode, IsScalar;
    LegalIsRfc3629(s);
    if IsUtf8Char(s) {
      DecodeOne(s);
    } else {
      DecodeByBytes(s);
      if |s| == 3 {
        LooseBytes3(s[1], s[2]);
      } else {
        LooseBytes4(s[1], s[2], s[3]);
      }
    }
  }

  // ---------------------------------------------------------------- whole texts

  datatype ConversionResult = ConversionOK | SourceExhausted | TargetExhausted | SourceIllegal

  function EncodeAll(chars: seq<bv32>): seq<bv8> {
    if chars == [] then [] else EncodeAll(chars[..|chars| - 1]) + Encode(chars[|chars| - 1])
  }

  /** The switch that writes the bytes of one character from the last to the first. */
  method WriteBytes(target: array<bv8>, at: nat, ch: bv32, n: nat)
    requires 1 <= n <= 4 && at + n <= target.Length
    modifies target
    ensures forall k :: 0 <= k < n ==> target[at + k] == Written(ch, n)[k]
    ensures forall k :: 0 <= k < target.Length && !(at <= k < at + n) ==> target[k] == old(target[k])
  {
    hide Lead, Trail, Shift6;
    var c, t := ch, at + n;
    if n >= 4 {
      t := t - 1;
      target[t] := Trail(c);
      c := Shift6(c);
    }
    if n >= 3 {
      t := t - 1;
      target[t] := Trail(c);
      c := Shift6(c);
    }
    if n >= 2 {
      t := t - 1;
      target[t] := Trail(c);
      c := Shift6(c);
    }
    t := t - 1;
    target[t] := Lead(c, n);
  }

  lemma EncodeIs(ch: bv32)
    ensures Encode(ch) == Written(if ch > MAX_LEGAL then REPLACEMENT else ch, BytesToWrite(ch))
  {
  }

  lemma Appended(before: seq<bv8>, now: seq<bv8>, written: nat, w: seq<bv8>)
    requires |now| == |before| && written + |w| <= |now|
    requires (forall k :: 0 <= k < written ==> now[k] == before[k])
    requires forall k :: 0 <= k < |w| ==> now[written + k] == w[k]
    ensures now[..written + |w|] == before[..written] + w
  {
  }

  ghost predicate Halts(source: seq<bv32>, read: nat, strict: bool) {
    strict && read < |source| && IsSurrogate(source[read])
  }

  /** ConvertUTF32toUTF8. Whatever the result, the bytes written are exactly those of the characters read. */
  method ConvertUTF32toUTF8(source: seq<bv32>, target: array<bv8>, strict: bool)
    returns (result: ConversionResult, read: nat, written: nat)
    modifies target
    ensures read <= |source| && written <= target.Length && target[..written] == EncodeAll(source[..read])
    ensures forall k :: written <= k < target.Length ==> target[k] == old(target[k])
    ensures read < |source| <==> result == TargetExhausted || (result == SourceIllegal && Halts(source, read, strict))
    ensures result == TargetExhausted ==> read < |source| && written + |Encode(source[read])| > target.Length
    ensures result == ConversionOK ==> forall i :: 0 <= i < |source| ==>
      source[i] <= MAX_LEGAL && !(strict && IsSurrogate(source[i]))
    ensures result == SourceIllegal && !Halts(source, read, strict) ==>
      exists i :: 0 <= i < |source| && source[i] > MAX_LEGAL
  {
    hide Lead, Trail, Shift6, IsSurrogate, Written, Encode, BytesToWrite;
    result, read, written := ConversionOK, 0, 0;
    while read < |source|
      invariant read <= |source| && written <= target.Length && target[..written] == EncodeAll(source[..read])
      invariant forall k :: written <= k < target.Length ==> target[k] == old(target[k])
      invariant result == ConversionOK || result == SourceIllegal
      invariant result == ConversionOK ==> forall i :: 0 <= i < read ==>
        source[i] <= MAX_LEGAL && !(strict && IsSurrogate(source[i]))
      invariant result == SourceIllegal ==> exists i :: 0 <= i < read && source[i] > MAX_LEGAL
      invariant forall i :: 0 <= i < read ==> !(strict && IsSurrogate(source[i]))
    {
      var ch := source[read];
      if strict && IsSurrogate(ch) {
        return SourceIllegal, read, written;
      }
      var bytesToWrite := BytesToWrite(ch);
      if ch > MAX_LEGAL {
        ch := REPLACEMENT;
        result := SourceIllegal;
      }
      EncodeIs(source[read]);
      if written + bytesToWrite > target.Length {
        return TargetExhausted, read, written;
      }
      ghost var before := target[..];
      WriteBytes(target, written, ch, bytesToWrite);
      Appended(before, target[..], written, Written(ch, bytesToWrite));
      assert source[..read + 1][..read] == source[..read];
      read, written := read + 1, written + bytesToWrite;
    }
    assert source[..|source|] == source;
  }

  // ---------------------------------------------------------------- decoding

  ghost predicate Accepted(s: seq<bv8>) {
    s != [] && |s| == TrailingBytes(s[0]) + 1 && IsLegalUTF8(s)
  }

  ghost predicate LastPiece(bytes: seq<bv8>, q: nat, ch: bv32)
    requires q < |bytes|
  {
    Accepted(bytes[q..]) && Decode(bytes[q..]) == ch
  }

  /** The bytes are accepted sequences one after the other, and chars are their values. */
  ghost predicate Splits(bytes: seq<bv8>, chars: seq<bv32>) {
    if chars == [] then bytes == []
    else exists q: nat ::
      q < |bytes| && LastPiece(bytes, q, chars[|chars| - 1]) && Splits(bytes[..q], chars[..|chars| - 1])
  }

  lemma NotEmpty(piece: seq<bv8>)
    requires Accepted(piece)
    ensures 1 <= |piece| <= 4
  {
  }

  lemma SplitsMore(bytes: seq<bv8>, chars: seq<bv32>, piece: seq<bv8>)
    requires Splits(bytes, chars) && Accepted(piece)
    ensures Splits(bytes + piece, chars + [Decode(piece)])
  {
    hide Accepted, Decode;
    NotEmpty(piece);
    var b, c, q := bytes + piece, chars + [Decode(piece)], |bytes|;
    assert b[q..] == piece && b[..q] == bytes && c[..|c| - 1] == chars;
    assert LastPiece(b, q, c[|c| - 1]);
  }

  /** Reads the bytes of one sequence. */
  method ReadBytes(source: seq<bv8>, at: nat, n: nat) returns (ch: bv32)
    requires 1 <= n && at + n <= |source|
    ensures ch == Decode(source[at..at + n])
  {
    hide Widened, ShiftIn, LessOffset;
    ch := Widened(source[at]);
    assert source[at..at + 1] == [source[at]];
    for k := 1 to n
      invariant ch == Assembled(source[at..at + k])
    {
      assert source[at..at + k + 1][..k] == source[at..at + k];
      ch := ShiftIn(ch, source[at + k]);
    }
    ch := LessOffset(ch, n - 1);
  }

  lemma NothingSplits(source: seq<bv8>, target: seq<bv32>)
    ensures Splits(source[..0], target[..0])
  {
  }

  /** Why the bytes at a position cannot be converted. */
  ghost function Reason(source: seq<bv8>, read: nat, written: nat, capacity: nat): ConversionResult {
    if read >= |source| then ConversionOK
    else if read + TrailingBytes(source[read]) >= |source| then SourceExhausted
    else if !IsLegalUTF8(source[read..read + TrailingBytes(source[read]) + 1]) then SourceIllegal
    else if written >= capacity then TargetExhausted
    else ConversionOK
  }

  /** ConvertUTF8toUTF32. Whatever the result, the characters written are exactly those of the bytes read,
      and they are scalar values; the result tells why the rest was not read. */
  method ConvertUTF8toUTF32(source: seq<bv8>, target: array<bv32>)
    returns (result: ConversionResult, read: nat, written: nat)
    modifies target
    ensures read <= |source| && written <= target.Length && Splits(source[..read], target[..written])
    ensures forall i :: 0 <= i < written ==> IsScalar(target[i])
    ensures result == ConversionOK <==> read == |source|
    ensures result != ConversionOK ==> Reason(source, read, written, target.Length) == result
  {
    hide IsLegalUTF8, IsScalar, Decode, TrailingBytes, Splits;
    result, read, written := ConversionOK, 0, 0;
    assert Splits(source[..0], target[..0]) by { NothingSplits(source, target[..]); }
    while read < |source|
      invariant read <= |source| && written <= target.Length && Splits(source[..read], target[..written])
      invariant forall i :: 0 <= i < written ==> IsScalar(target[i])
    {
      var extraBytesToRead := TrailingBytes(source[read]);
      if read + extraBytesToRead >= |source| {
        return SourceExhausted, read, written;
      }
      ghost var piece := source[read..read + extraBytesToRead + 1];
      if !IsLegalUTF8(source[read..read + extraBytesToRead + 1]) {
        return SourceIllegal, read, written;
      }
      var ch := ReadBytes(source, read, extraBytesToRead + 1);
      if written >= target.Length {
        return TargetExhausted, read, written;
      }
      // neither a surrogate nor a value beyond the last plane comes out of an accepted sequence
      LegalIsScalar(piece);
      SplitsMore(source[..read], target[..written], piece);
      assert source[..read] + piece == source[..read + extraBytesToRead + 1];
      target[written] := ch;
      assert target[..written + 1] == target[..written] + [ch];
      read, written := read + extraBytesToRead + 1, written + 1;
    }
  }

  // ---------------------------------------------------------------- the round trip

  ghost predicate AllScalar(chars: seq<bv32>) {
    forall i :: 0 <= i < |chars| ==> IsScalar(chars[i])
  }

  /** Behind the encoding of the first k characters comes the encoding of the next one. */
  lemma {:induction false} EncodingAt(chars: seq<bv32>, k: nat)
    requires k < |chars|
    ensures var p := |EncodeAll(chars[..k])|;
            && p + |Encode(chars[k])| <= |EncodeAll(chars)|
            && EncodeAll(chars)[..p] == EncodeAll(chars[..k])
            && EncodeAll(chars)[p..p + |Encode(chars[k])|] == Encode(chars[k])
  {
    hide Encode;
    var l, p := chars[..|chars| - 1], |EncodeAll(chars[..k])|;
    if k == |chars| - 1 {
      assert l == chars[..k];
    } else {
      EncodingAt(l, k);
      assert l[..k] == chars[..k] && l[k] == chars[k];
      assert EncodeAll(chars)[..|EncodeAll(l)|] == EncodeAll(l);
      assert EncodeAll(chars)[..p] == EncodeAll(l)[..p];
      assert EncodeAll(chars)[p..p + |Encode(chars[k])|] == EncodeAll(l)[p..p + |Encode(chars[k])|];
    }
  }

  /** What is accepted at the position of an encoded scalar value is that encoding. */
  lemma PieceIsEncoding(bytes: seq<bv8>, q: nat, n: nat, ch: bv32)
    requires IsScalar(ch) && q < q + n <= |bytes| && Accepted(bytes[q..q + n])
    requires q + |Encode(ch)| <= |bytes| && bytes[q..q + |Encode(ch)|] == Encode(ch)
    ensures n == |Encode(ch)| && Decode(bytes[q..q + n]) == ch
  {
    hide Encode, Decode, IsLegalUTF8, IsUtf8Char, IsScalar, TrailingBytes;
    EncodeOne(ch);
    assert bytes[q..q + n][0] == bytes[q] == bytes[q..q + |Encode(ch)|][0];
  }

  /** The accepted sequence behind the encodings of m characters is the encoding of the next one. */
  lemma LastOfEncoding(source: seq<bv32>, read: nat, q: nat, m: nat, ch: bv32)
    requires AllScalar(source) && q < read <= |EncodeAll(source)| && m <= |source| && q == |EncodeAll(source[..m])|
    requires LastPiece(EncodeAll(source)[..read], q, ch)
    ensures m < |source| && ch == source[m] && read == |EncodeAll(source[..m + 1])|
  {
    hide Encode, Decode, IsScalar, Accepted;
    var bytes := EncodeAll(source);
    assert bytes[..read][q..] == bytes[q..read];
    assert source[..|source|] == source;
    EncodingAt(source, m);
    PieceIsEncoding(bytes, q, read - q, source[m]);
    assert source[..m + 1][..m] == source[..m];
  }

  /** Accepted sequences that begin an encoded text are the encodings of its first characters. */
  lemma {:induction false} SplitsOfEncoding(source: seq<bv32>, read: nat, chars: seq<bv32>)
    requires AllScalar(source) && read <= |EncodeAll(source)| && Splits(EncodeAll(source)[..read], chars)
    ensures |chars| <= |source| && chars == source[..|chars|] && read == |EncodeAll(chars)|
    decreases |chars|
  {
    hide Encode, Decode, IsScalar, Accepted;
    var bytes := EncodeAll(source);
    if chars != [] {
      var l, m := chars[..|chars| - 1], |chars| - 1;
      var q: nat :| q < read && LastPiece(bytes[..read], q, chars[m]) && Splits(bytes[..read][..q], l);
      assert bytes[..read][..q] == bytes[..q];
      SplitsOfEncoding(source, q, l);
      hide Splits;
      LastOfEncoding(source, read, q, m, chars[m]);
      assert source[..m + 1] == source[..m] + [source[m]];
      assert chars == l + [chars[m]];
    }
  }

  lemma EncodeNotEmpty(ch: bv32)
    ensures |Encode(ch)| >= 1
  {
  }

  lemma NextIsLegal(bytes: seq<bv8>, read: nat, ch: bv32)
    requires IsScalar(ch) && read + |Encode(ch)| <= |bytes| && bytes[read..read + |Encode(ch)|] == Encode(ch)
    ensures read < |bytes| && read + TrailingBytes(bytes[read]) + 1 == read + |Encode(ch)| <= |bytes|
    ensures IsLegalUTF8(bytes[read..read + TrailingBytes(bytes[read]) + 1])
  {
    hide Encode, Decode, IsScalar, IsUtf8Char, IsLegalUTF8, TrailingBytes;
    EncodeNotEmpty(ch);
    EncodeOne(ch);
    assert bytes[read..read + |Encode(ch)|][0] == bytes[read];
    LegalIsRfc3629(Encode(ch));
  }

  /** An encoded text is read to its end if there is room for its characters. */
  lemma EncodingIsRead(source: seq<bv32>, read: nat, chars: seq<bv32>, capacity: nat)
    requires AllScalar(source) && read <= |EncodeAll(source)| && Splits(EncodeAll(source)[..read], chars)
    requires capacity >= |source| && read < |EncodeAll(source)|
    ensures Reason(EncodeAll(source), read, |chars|, capacity) == ConversionOK
  {
    hide Encode, EncodeAll, Splits, Decode, IsScalar, IsUtf8Char, IsLegalUTF8, TrailingBytes;
    var bytes, k := EncodeAll(source), |chars|;
    SplitsOfEncoding(source, read, chars);
    assert k < |source| by { assert source[..|source|] == source; }
    assert IsScalar(source[k]);
    EncodingAt(source, k);
    NextIsLegal(bytes, read, source[k]);
  }

  lemma EncodesFully(source: seq<bv32>, read: nat, written: nat, capacity: nat, result: ConversionResult)
    requires AllScalar(source) && read <= |source| && written == |EncodeAll(source[..read])|
    requires capacity >= |EncodeAll(source)|
    requires read < |source| ==> result == TargetExhausted || (result == SourceIllegal && Halts(source, read, true))
    requires result == TargetExhausted ==> read < |source| && written + |Encode(source[read])| > capacity
    ensures read == |source| && source[..read] == source
  {
    hide Encode;
    assert forall i :: 0 <= i < |source| ==> IsScalar(source[i]);
    if read < |source| {
      EncodingAt(source, read);
    }
  }

  lemma AllRead(source: seq<bv32>, chars: seq<bv32>)
    requires |chars| <= |source| && chars == source[..|chars|] && |EncodeAll(chars)| == |EncodeAll(source)|
    ensures chars == source
  {
    hide Encode;
    if |chars| < |source| {
      EncodeNotEmpty(source[|chars|]);
      EncodingAt(source, |chars|);
    }
  }

  /** ConvertUTF8toUTF32 undoes ConvertUTF32toUTF8 on every text of scalar values. */
  method RoundTrip(source: seq<bv32>, bytes: array<bv8>, chars: array<bv32>)
    requires AllScalar(source) && bytes.Length >= |EncodeAll(source)| && chars.Length >= |source|
    modifies bytes, chars
    ensures chars[..|source|] == source
  {
    hide Encode, Decode, IsScalar, IsLegalUTF8, TrailingBytes, Splits;
    var encoded, read, n := ConvertUTF32toUTF8(source, bytes, true);
    EncodesFully(source, read, n, bytes.Length, encoded);
    assert bytes[..n] == EncodeAll(source);
    var decoded, consumed, m := ConvertUTF8toUTF32(bytes[..n], chars);
    if consumed < n {
      EncodingIsRead(source, consumed, chars[..m], chars.Length);
    }
    SplitsOfEncoding(source, consumed, chars[..m]);
    AllRead(source, chars[..m]);
  }
}
