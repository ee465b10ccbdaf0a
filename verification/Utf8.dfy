/** Encoding text in UTF-8 and checking it (gtest.cc, gtest-printers.cc), against the
    definition of UTF-8 in RFC 3629. */
module Utf8 {
  import opened Terminated

  type Byte = bv8
  type CodePoint = bv32

  const MAX_CODE_POINT_1: CodePoint := (1 << 7) - 1
  const MAX_CODE_POINT_2: CodePoint := (1 << (5 + 6)) - 1
  const MAX_CODE_POINT_3: CodePoint := (1 << (4 + 2 * 6)) - 1
  const MAX_CODE_POINT_4: CodePoint := (1 << (3 + 3 * 6)) - 1

  // ----- the standard

  /** What UTF-8 can encode: everything up to 10FFFF but the surrogates. */
  predicate IsScalar(c: CodePoint) {
    c <= 0xD7FF || 0xE000 <= c <= 0x10FFFF
  }

  predicate IsUTF8TrailByte(t: Byte) { 0x80 <= t <= 0xBF }

  /** UTF8-char, section 4 of RFC 3629. */
  ghost predicate IsChar(s: seq<Byte>) {
    || (|s| == 1 && s[0] <= 0x7F)
    || (|s| == 2 && 0xC2 <= s[0] <= 0xDF && IsUTF8TrailByte(s[1]))
    || (|s| == 3 && s[0] == 0xE0 && 0xA0 <= s[1] <= 0xBF && IsUTF8TrailByte(s[2]))
    || (|s| == 3 && 0xE1 <= s[0] <= 0xEC && IsUTF8TrailByte(s[1]) && IsUTF8TrailByte(s[2]))
    || (|s| == 3 && s[0] == 0xED && 0x80 <= s[1] <= 0x9F && IsUTF8TrailByte(s[2]))
    || (|s| == 3 && 0xEE <= s[0] <= 0xEF && IsUTF8TrailByte(s[1]) && IsUTF8TrailByte(s[2]))
    || (|s| == 4 && s[0] == 0xF0 && 0x90 <= s[1] <= 0xBF && IsUTF8TrailByte(s[2]) && IsUTF8TrailByte(s[3]))
    || (|s| == 4 && 0xF1 <= s[0] <= 0xF3 && IsUTF8TrailByte(s[1]) && IsUTF8TrailByte(s[2]) && IsUTF8TrailByte(s[3]))
    || (|s| == 4 && s[0] == 0xF4 && 0x80 <= s[1] <= 0x8F && IsUTF8TrailByte(s[2]) && IsUTF8TrailByte(s[3]))
  }

  /** UTF8-octets: any number of characters. */
  ghost predicate IsOctets(s: seq<Byte>)
    decreases |s|
  {
    s == [] || exists k :: 1 <= k <= |s| && IsChar(s[..k]) && IsOctets(s[k..])
  }

  ghost function Bits2(b0: Byte, b1: Byte): CodePoint {
    ((b0 & 0x1F) as CodePoint << 6) | (b1 & 0x3F) as CodePoint
  }

  ghost function Bits3(b0: Byte, b1: Byte, b2: Byte): CodePoint {
    ((b0 & 0x0F) as CodePoint << 12) | ((b1 & 0x3F) as CodePoint << 6) | (b2 & 0x3F) as CodePoint
  }

  ghost function Bits4(b0: Byte, b1: Byte, b2: Byte, b3: Byte): CodePoint {
    ((b0 & 0x07) as CodePoint << 18) | ((b1 & 0x3F) as CodePoint << 12)
    | ((b2 & 0x3F) as CodePoint << 6) | (b3 & 0x3F) as CodePoint
  }

  /** The bits of a character, section 3 of RFC 3629. */
  ghost function DecodeChar(s: seq<Byte>): CodePoint
    requires 1 <= |s| <= 4
  {
    if |s| == 1 then s[0] as CodePoint
    else if |s| == 2 then Bits2(s[0], s[1])
    else if |s| == 3 then Bits3(s[0], s[1], s[2])
    else Bits4(s[0], s[1], s[2], s[3])
  }

  /** How long a character with this first byte is; 0 if none starts with it. */
  ghost function CharLength(lead: Byte): nat {
    if lead <= 0x7F then 1
    else if 0xC2 <= lead <= 0xDF then 2
    else if 0xE0 <= lead <= 0xEF then 3
    else if 0xF0 <= lead <= 0xF4 then 4
    else 0
  }

  /** The first byte decides where the first character ends. */
  lemma OctetsStep(s: seq<Byte>)
    requires s != []
    ensures var k := CharLength(s[0]);
      IsOctets(s) <==> 1 <= k <= |s| && IsChar(s[..k]) && IsOctets(s[k..])
  {
    var k := CharLength(s[0]);
    if IsOctets(s) {
      var j :| 1 <= j <= |s| && IsChar(s[..j]) && IsOctets(s[j..]);
      assert s[..j][0] == s[0];
      assert j == k;
    }
  }

  ghost function Decoded(s: seq<Byte>): seq<CodePoint>
    requires IsOctets(s)
    decreases |s|
  {
    if s == [] then []
    else
      OctetsStep(s);
      var k := CharLength(s[0]);
      [DecodeChar(s[..k])] + Decoded(s[k..])
  }

  // ----- the validator

  /** IsValidUTF8 accepts exactly the UTF8-octets. */
  method IsValidUTF8(s: seq<Byte>) returns (valid: bool)
    ensures valid <==> IsOctets(s)
  {
    var length, i := |s|, 0;
    assert s[0..] == s;
    while i < length
      invariant 0 <= i <= length
      invariant IsOctets(s) <==> IsOctets(s[i..])
    {
      ghost var rest := s[i..];
      OctetsStep(rest);
      var lead := s[i];
      i := i + 1;
      if lead <= 0x7F {
        assert s[i..] == rest[1..];
        continue;
      }
      if lead < 0xC2 {
        return false;
      } else if lead <= 0xDF && i + 1 <= length && IsUTF8TrailByte(s[i]) {
        i := i + 1;
        assert s[i..] == rest[2..];
      } else if 0xE0 <= lead && lead <= 0xEF && i + 2 <= length
             && IsUTF8TrailByte(s[i]) && IsUTF8TrailByte(s[i + 1])
             && (lead != 0xE0 || s[i] >= 0xA0)
             && (lead != 0xED || s[i] < 0xA0) {
        i := i + 2;
        assert s[i..] == rest[3..];
      } else if 0xF0 <= lead && lead <= 0xF4 && i + 3 <= length
             && IsUTF8TrailByte(s[i]) && IsUTF8TrailByte(s[i + 1]) && IsUTF8TrailByte(s[i + 2])
             && (lead != 0xF0 || s[i] >= 0x90)
             && (lead != 0xF4 || s[i] < 0x90) {
        i := i + 3;
        assert s[i..] == rest[4..];
      } else {
        return false;
      }
    }
    return true;
  }

  // ----- one code point

  /** The bit patterns of section 3 of RFC 3629, in the shortest form, for anything up to
      21 bits. */
  ghost predicate Spells(s: seq<Byte>, c: CodePoint) {
    || (|s| == 1 && s[0] <= 0x7F && DecodeChar(s) == c)
    || (|s| == 2 && s[0] & 0xE0 == 0xC0 && IsUTF8TrailByte(s[1]) && DecodeChar(s) == c > MAX_CODE_POINT_1)
    || (|s| == 3 && s[0] & 0xF0 == 0xE0 && IsUTF8TrailByte(s[1]) && IsUTF8TrailByte(s[2]) &&
        DecodeChar(s) == c > MAX_CODE_POINT_2)
    || (|s| == 4 && s[0] & 0xF8 == 0xF0 && IsUTF8TrailByte(s[1]) && IsUTF8TrailByte(s[2]) && IsUTF8TrailByte(s[3]) &&
        DecodeChar(s) == c > MAX_CODE_POINT_3)
  }

  /** The bytes 10xxxxxx with the lowest six bits. */
  function TailByte(bits: CodePoint): Byte { (0x80 | (bits & 0x3F)) as Byte }

  /** The first byte 1110xxxx or 11110xxx, with the bits above the tails'. */
  function LeadByte3(c: CodePoint): Byte
    requires c <= MAX_CODE_POINT_3
  {
    (0xE0 | (c >> 6 >> 6)) as Byte
  }

  function LeadByte4(c: CodePoint): Byte
    requires c <= MAX_CODE_POINT_4
  {
    (0xF0 | (c >> 6 >> 6 >> 6)) as Byte
  }

  /** What the encoder writes for a code point of at most 21 bits. */
  ghost function Spelling(c: CodePoint): seq<Byte>
    requires c <= MAX_CODE_POINT_4
  {
    if c <= MAX_CODE_POINT_1 then [c as Byte]
    else if c <= MAX_CODE_POINT_2 then [(0xC0 | (c >> 6)) as Byte, TailByte(c)]
    else if c <= MAX_CODE_POINT_3 then [LeadByte3(c), TailByte(c >> 6), TailByte(c)]
    else [LeadByte4(c), TailByte(c >> 6 >> 6), TailByte(c >> 6), TailByte(c)]
  }

  /** A letter, an accented letter, the Euro sign and a smiling face. */
  lemma KnownSpellings()
    ensures Spelling(0x41) == [0x41]
    ensures Spelling(0xE9) == [0xC3, 0xA9]
    ensures Spelling(0x20AC) == [0xE2, 0x82, 0xAC]
    ensures Spelling(0x1F600) == [0xF0, 0x9F, 0x98, 0x80]
  {
  }

  lemma Encode2(c: CodePoint)
    requires MAX_CODE_POINT_1 < c <= MAX_CODE_POINT_2
    ensures var b0, b1 := (0xC0 | (c >> 6)) as Byte, TailByte(c);
      b0 & 0xE0 == 0xC0 && IsUTF8TrailByte(b1) && Bits2(b0, b1) == c
  {
  }

  lemma Encode3(c: CodePoint)
    requires MAX_CODE_POINT_2 < c <= MAX_CODE_POINT_3
    ensures var b0, b1, b2 := LeadByte3(c), TailByte(c >> 6), TailByte(c);
      b0 & 0xF0 == 0xE0 && IsUTF8TrailByte(b1) && IsUTF8TrailByte(b2) && Bits3(b0, b1, b2) == c
  {
  }

  lemma Encode4(c: CodePoint)
    requires MAX_CODE_POINT_3 < c <= MAX_CODE_POINT_4
    ensures var b0, b1, b2, b3 := LeadByte4(c), TailByte(c >> 6 >> 6), TailByte(c >> 6), TailByte(c);
      b0 & 0xF8 == 0xF0 && IsUTF8TrailByte(b1) && IsUTF8TrailByte(b2) && IsUTF8TrailByte(b3) &&
        Bits4(b0, b1, b2, b3) == c
  {
  }

  lemma Decode1(b0: Byte)
    requires b0 <= 0x7F
    ensures var c := b0 as CodePoint;
      c <= MAX_CODE_POINT_1 && Spelling(c) == [b0]
  {
  }

  lemma Decode2(b0: Byte, b1: Byte)
    requires b0 & 0xE0 == 0xC0 && IsUTF8TrailByte(b1)
    ensures var c := Bits2(b0, b1);
      c <= MAX_CODE_POINT_2 && (c > MAX_CODE_POINT_1 ==> Spelling(c) == [b0, b1])
  {
  }

  /** b is the tail byte with the lowest six bits of c, with the next six, and so on. */
  ghost predicate IsLast(b: Byte, c: CodePoint) { b == TailByte(c) }
  ghost predicate IsSecondLast(b: Byte, c: CodePoint) { b == TailByte(c >> 6) }
  ghost predicate IsThirdLast(b: Byte, c: CodePoint) { b == TailByte(c >> 6 >> 6) }
  ghost predicate IsLead3(b: Byte, c: CodePoint) { c <= MAX_CODE_POINT_3 && b == LeadByte3(c) }
  ghost predicate IsLead4(b: Byte, c: CodePoint) { c <= MAX_CODE_POINT_4 && b == LeadByte4(c) }

  /** The three bytes with the bits of c. */
  ghost predicate ThreeBytes(c: CodePoint, b0: Byte, b1: Byte, b2: Byte) {
    IsLead3(b0, c) && IsSecondLast(b1, c) && IsLast(b2, c)
  }

  lemma Decode3(b0: Byte, b1: Byte, b2: Byte)
    requires b0 & 0xF0 == 0xE0 && IsUTF8TrailByte(b1) && IsUTF8TrailByte(b2)
    ensures var c := Bits3(b0, b1, b2);
      c <= MAX_CODE_POINT_3 && (c > MAX_CODE_POINT_2 ==> Spelling(c) == [b0, b1, b2])
  {
    hide Spelling, Bits3, ThreeBytes;
    ThreeBytesOf(b0, b1, b2, Bits3(b0, b1, b2));
    SpellingThree(Bits3(b0, b1, b2), b0, b1, b2);
  }

  lemma ThreeBytesOf(b0: Byte, b1: Byte, b2: Byte, c: CodePoint)
    requires b0 & 0xF0 == 0xE0 && IsUTF8TrailByte(b1) && IsUTF8TrailByte(b2) && c == Bits3(b0, b1, b2)
    ensures ThreeBytes(c, b0, b1, b2)
  {
    hide Bits3, IsLead3, IsSecondLast, IsLast;
    LeadOfThree(b0, b1, b2);
    MiddleOfThree(b0, b1, b2);
    LastOfThree(b0, b1, b2);
  }

  lemma LeadOfThree(b0: Byte, b1: Byte, b2: Byte)
    requires b0 & 0xF0 == 0xE0
    ensures IsLead3(b0, Bits3(b0, b1, b2))
  {
  }

  lemma MiddleOfThree(b0: Byte, b1: Byte, b2: Byte)
    requires IsUTF8TrailByte(b1)
    ensures IsSecondLast(b1, Bits3(b0, b1, b2))
  {
  }

  lemma LastOfThree(b0: Byte, b1: Byte, b2: Byte)
    requires IsUTF8TrailByte(b2)
    ensures IsLast(b2, Bits3(b0, b1, b2))
  {
  }

  lemma SpellingThree(c: CodePoint, b0: Byte, b1: Byte, b2: Byte)
    requires ThreeBytes(c, b0, b1, b2)
    ensures c <= MAX_CODE_POINT_3 && (c > MAX_CODE_POINT_2 ==> Spelling(c) == [b0, b1, b2])
  {
    hide TailByte, LeadByte3, LeadByte4;
  }

  /** The four bytes with the bits of c. */
  ghost predicate FourBytes(c: CodePoint, b0: Byte, b1: Byte, b2: Byte, b3: Byte) {
    IsLead4(b0, c) && IsThirdLast(b1, c) && IsSecondLast(b2, c) && IsLast(b3, c)
  }

  lemma Decode4(b0: Byte, b1: Byte, b2: Byte, b3: Byte)
    requires b0 & 0xF8 == 0xF0 && IsUTF8TrailByte(b1) && IsUTF8TrailByte(b2) && IsUTF8TrailByte(b3)
    ensures var c := Bits4(b0, b1, b2, b3);
      c <= MAX_CODE_POINT_4 && (c > MAX_CODE_POINT_3 ==> Spelling(c) == [b0, b1, b2, b3])
  {
    hide Spelling, Bits4, FourBytes;
    FourBytesOf(b0, b1, b2, b3, Bits4(b0, b1, b2, b3));
    SpellingFour(Bits4(b0, b1, b2, b3), b0, b1, b2, b3);
  }

  lemma FourBytesOf(b0: Byte, b1: Byte, b2: Byte, b3: Byte, c: CodePoint)
    requires b0 & 0xF8 == 0xF0 && IsUTF8TrailByte(b1) && IsUTF8TrailByte(b2) && IsUTF8TrailByte(b3) &&
      c == Bits4(b0, b1, b2, b3)
    ensures FourBytes(c, b0, b1, b2, b3)
  {
    hide Bits4, IsLead4, IsThirdLast, IsSecondLast, IsLast;
    LeadOfFour(b0, b1, b2, b3);
    SecondOfFour(b0, b1, b2, b3);
    ThirdOfFour(b0, b1, b2, b3);
    LastOfFour(b0, b1, b2, b3);
  }

  lemma LeadOfFour(b0: Byte, b1: Byte, b2: Byte, b3: Byte)
    requires b0 & 0xF8 == 0xF0
    ensures IsLead4(b0, Bits4(b0, b1, b2, b3))
  {
  }

  lemma SecondOfFour(b0: Byte, b1: Byte, b2: Byte, b3: Byte)
    requires IsUTF8TrailByte(b1)
    ensures IsThirdLast(b1, Bits4(b0, b1, b2, b3))
  {
  }

  lemma ThirdOfFour(b0: Byte, b1: Byte, b2: Byte, b3: Byte)
    requires IsUTF8TrailByte(b2)
    ensures IsSecondLast(b2, Bits4(b0, b1, b2, b3))
  {
  }

  lemma LastOfFour(b0: Byte, b1: Byte, b2: Byte, b3: Byte)
    requires IsUTF8TrailByte(b3)
    ensures IsLast(b3, Bits4(b0, b1, b2, b3))
  {
  }

  lemma SpellingFour(c: CodePoint, b0: Byte, b1: Byte, b2: Byte, b3: Byte)
    requires FourBytes(c, b0, b1, b2, b3)
    ensures c <= MAX_CODE_POINT_4 && (c > MAX_CODE_POINT_3 ==> Spelling(c) == [b0, b1, b2, b3])
  {
    hide TailByte, LeadByte3, LeadByte4;
  }

  /** The encoder's spelling is one. */
  lemma SpellingSpells(c: CodePoint)
    requires c <= MAX_CODE_POINT_4
    ensures Spells(Spelling(c), c)
  {
    if c <= MAX_CODE_POINT_1 {
    } else if c <= MAX_CODE_POINT_2 {
      Encode2(c);
    } else if c <= MAX_CODE_POINT_3 {
      Encode3(c);
    } else {
      Encode4(c);
    }
  }

  /** And the only one. */
  lemma SpelledOnce(s: seq<Byte>, c: CodePoint)
    requires Spells(s, c)
    ensures c <= MAX_CODE_POINT_4 && s == Spelling(c)
  {
    hide Bits2, Bits3, Bits4, TailByte, Spelling;
    if |s| == 1 {
      Decode1(s[0]);
      assert s == [s[0]];
    } else if |s| == 2 {
      Decode2(s[0], s[1]);
      assert s == [s[0], s[1]];
    } else if |s| == 3 {
      Decode3(s[0], s[1], s[2]);
      assert s == [s[0], s[1], s[2]];
    } else {
      Decode4(s[0], s[1], s[2], s[3]);
      assert s == [s[0], s[1], s[2], s[3]];
    }
  }

  /** Among the spellings, the characters of the standard are those of scalar values. */
  lemma CharsSpellScalars(s: seq<Byte>, c: CodePoint)
    ensures Spells(s, c) ==> (IsChar(s) <==> IsScalar(c))
    ensures IsChar(s) ==> Spells(s, DecodeChar(s))
  {
  }

  /** ChopLowBits. */
  method ChopLowBits(bits: CodePoint, n: nat) returns (lowBits: CodePoint, rest: CodePoint)
    requires n < 32
    ensures lowBits == bits & ((1 << n) - 1) && rest == bits >> n
  {
    lowBits := bits & ((1 << n) - 1);
    rest := bits >> n;
  }

  /** The byte 10xxxxxx with the lowest six bits, and the bits that are left. */
  method ChopTailByte(bits: CodePoint) returns (b: Byte, rest: CodePoint)
    ensures b == TailByte(bits) && rest == bits >> 6
  {
    var lowBits;
    lowBits, rest := ChopLowBits(bits, 6);
    b := (0x80 | lowBits) as Byte;
  }

  /** Together they make up all the bits. */
  lemma ChoppedBitsJoin(bits: CodePoint)
    ensures IsUTF8TrailByte(TailByte(bits)) && ((bits >> 6) << 6) | (TailByte(bits) & 0x3F) as CodePoint == bits
  {
  }

  function HexDigit(d: CodePoint): Byte
    requires d < 16
  {
    if d < 10 then 0x30 + d as Byte else 0x37 + d as Byte
  }

  /** String::FormatHexUInt32. */
  function FormatHexUInt32(value: CodePoint): (digits: seq<Byte>)
    ensures digits != [] && forall k :: 0 <= k < |digits| ==> 0x30 <= digits[k] <= 0x39 || 0x41 <= digits[k] <= 0x46
  {
    if value < 16 then [HexDigit(value)] else FormatHexUInt32(value >> 4) + [HexDigit(value & 0xF)]
  }

  /** Reading hexadecimal digits. */
  ghost function HexValue(digits: seq<Byte>): CodePoint {
    if digits == [] then 0
    else
      (HexValue(digits[..|digits| - 1]) << 4) | HexDigitValue(digits[|digits| - 1])
  }

  ghost function HexDigitValue(b: Byte): CodePoint {
    (if b <= 0x39 then b - 0x30 else b - 0x37) as CodePoint
  }

  /** The digits read back as the value. */
  lemma {:induction false} HexReadsBack(value: CodePoint)
    ensures HexValue(FormatHexUInt32(value)) == value
  {
    hide HexDigit, HexDigitValue, HexValue, FormatHexUInt32;
    if value < 16 {
      HexSmall(value);
    } else {
      Nibbles(value);
      HexReadsBack(value >> 4);
      HexLarge(value);
    }
  }

  lemma HexSmall(value: CodePoint)
    requires value < 16
    ensures HexValue(FormatHexUInt32(value)) == value
  {
    hide HexDigit, HexDigitValue;
    HexDigitReadsBack(value);
    assert FormatHexUInt32(value) == [HexDigit(value)] && [HexDigit(value)][..0] == [];
  }

  lemma HexLarge(value: CodePoint)
    requires value >= 16 && HexValue(FormatHexUInt32(value >> 4)) == value >> 4
    ensures HexValue(FormatHexUInt32(value)) == value
  {
    hide HexDigit, HexDigitValue, HexValue;
    Nibbles(value);
    HexDigitReadsBack(value & 0xF);
    FormatHexStep(value);
    hide FormatHexUInt32;
    HexJoins(FormatHexUInt32(value >> 4), HexDigit(value & 0xF), value >> 4, value & 0xF, value);
  }

  lemma HexJoins(init: seq<Byte>, b: Byte, high: CodePoint, low: CodePoint, value: CodePoint)
    requires HexValue(init) == high && HexDigitValue(b) == low && (high << 4) | low == value
    ensures HexValue(init + [b]) == value
  {
    hide HexDigitValue;
    assert (init + [b])[..|init|] == init;
  }

  lemma FormatHexStep(value: CodePoint)
    requires value >= 16
    ensures FormatHexUInt32(value) == FormatHexUInt32(value >> 4) + [HexDigit(value & 0xF)]
  {
    hide HexDigit;
  }

  lemma Nibbles(value: CodePoint)
    ensures ((value >> 4) << 4) | (value & 0xF) == value && (0 << 4) | value == value
    ensures value & 0xF < 16 && (value >= 16 ==> value >> 4 < value)
  {
  }

  lemma HexDigitReadsBack(d: CodePoint)
    requires d < 16
    ensures HexDigitValue(HexDigit(d)) == d
  {
  }

  /** The text "(Invalid Unicode 0x". */
  const INVALID_UNICODE: seq<Byte> := [
    0x28, 0x49, 0x6E, 0x76, 0x61, 0x6C, 0x69, 0x64, 0x20, 0x55, 0x6E, 0x69, 0x63, 0x6F, 0x64, 0x65, 0x20, 0x30, 0x78]

  /** A byte is the character at that place of a text. */
  ghost predicate Types(bytes: seq<Byte>, text: string) {
    |bytes| == |text| && forall i :: 0 <= i < |bytes| ==> bytes[i] as int == text[i] as int
  }

  lemma TypesConcat(a: seq<Byte>, b: seq<Byte>, s: string, t: string)
    requires Types(a, s) && Types(b, t)
    ensures Types(a + b, s + t)
  {
  }

  /** The text in front of the hexadecimal digits, and some digits. */
  lemma InvalidText()
    ensures Types(INVALID_UNICODE, "(Invalid" + " Unicode" + " 0x")
    ensures HexDigit(0) as int == '0' as int && HexDigit(9) as int == '9' as int
    ensures HexDigit(10) as int == 'A' as int && HexDigit(15) as int == 'F' as int
  {
    var a, b, c := [0x28, 0x49, 0x6E, 0x76, 0x61, 0x6C, 0x69, 0x64],
      [0x20, 0x55, 0x6E, 0x69, 0x63, 0x6F, 0x64, 0x65], [0x20, 0x30, 0x78];
    assert INVALID_UNICODE == a + b + c;
    assert Types(a, "(Invalid") && Types(b, " Unicode") && Types(c, " 0x");
    TypesConcat(a, b, "(Invalid", " Unicode");
    TypesConcat(a + b, c, "(Invalid" + " Unicode", " 0x");
  }

  /** What is written for a code point: its spelling, nothing for the null character,
      a readable text beyond 21 bits. */
  ghost predicate Writes(str: seq<Byte>, c: CodePoint) {
    if c == 0 then str == []
    else if c <= MAX_CODE_POINT_4 then str == Spelling(c)
    else str == INVALID_UNICODE + FormatHexUInt32(c) + [0x29]
  }

  /** The buffer holds the string and its terminator. */
  ghost predicate Holds(buffer: seq<Byte>, str: seq<Byte>) {
    |str| < |buffer| && buffer[|str|] == 0 && buffer[..|str|] == str
  }

  lemma Holds1(s: seq<Byte>, c: CodePoint)
    requires c <= MAX_CODE_POINT_1 && |s| == 5 && s[0] == c as Byte && s[1] == 0
    ensures Holds(s, Spelling(c))
  {
  }

  lemma Holds2(s: seq<Byte>, c: CodePoint)
    requires MAX_CODE_POINT_1 < c <= MAX_CODE_POINT_2
    requires |s| == 5 && s[0] == (0xC0 | (c >> 6)) as Byte && s[1] == TailByte(c) && s[2] == 0
    ensures Holds(s, Spelling(c))
  {
    hide TailByte, LeadByte3, LeadByte4;
  }

  lemma Holds3(s: seq<Byte>, c: CodePoint)
    requires MAX_CODE_POINT_2 < c <= MAX_CODE_POINT_3
    requires |s| == 5 && s[0] == LeadByte3(c) && s[1] == TailByte(c >> 6) && s[2] == TailByte(c) && s[3] == 0
    ensures Holds(s, Spelling(c))
  {
    hide TailByte, LeadByte3, LeadByte4;
  }

  lemma Holds4(s: seq<Byte>, c: CodePoint)
    requires MAX_CODE_POINT_3 < c <= MAX_CODE_POINT_4
    requires |s| == 5 && s[0] == LeadByte4(c)
    requires s[1] == TailByte(c >> 6 >> 6) && s[2] == TailByte(c >> 6) && s[3] == TailByte(c) && s[4] == 0
    ensures Holds(s, Spelling(c))
  {
    hide TailByte, LeadByte3, LeadByte4;
  }

  /** The first byte of a longer string has room for the bits that are left. */
  lemma LeadFits(c: CodePoint)
    ensures MAX_CODE_POINT_1 < c <= MAX_CODE_POINT_2 ==> 0xC0 | (c >> 6) <= 0xFF
    ensures MAX_CODE_POINT_2 < c <= MAX_CODE_POINT_3 ==> 0xE0 | (c >> 6 >> 6) <= 0xFF
    ensures MAX_CODE_POINT_3 < c <= MAX_CODE_POINT_4 ==> 0xF0 | (c >> 6 >> 6 >> 6) <= 0xFF
  {
  }

  /** The string, written from its end, and the terminator. */
  method FillBuffer(c: CodePoint, buffer: array<Byte>)
    requires c <= MAX_CODE_POINT_4 && buffer.Length == 5
    modifies buffer
    ensures Holds(buffer[..], Spelling(c))
  {
    hide UpTo, Holds, Spelling, TailByte;
    LeadFits(c);
    if c <= MAX_CODE_POINT_1 {
      buffer[1] := 0;
      buffer[0] := c as Byte;
      Holds1(buffer[..], c);
    } else if c <= MAX_CODE_POINT_2 {
      buffer[2] := 0;
      var b1, rest := ChopTailByte(c);
      buffer[1] := b1;
      buffer[0] := (0xC0 | rest) as Byte;
      Holds2(buffer[..], c);
    } else if c <= MAX_CODE_POINT_3 {
      buffer[3] := 0;
      var b2, rest2 := ChopTailByte(c);
      var b1, rest := ChopTailByte(rest2);
      buffer[2] := b2;
      buffer[1] := b1;
      buffer[0] := (0xE0 | rest) as Byte;
      Holds3(buffer[..], c);
    } else {
      FillFour(c, buffer);
    }
  }

  method FillFour(c: CodePoint, buffer: array<Byte>)
    requires MAX_CODE_POINT_3 < c <= MAX_CODE_POINT_4 && buffer.Length == 5
    modifies buffer
    ensures Holds(buffer[..], Spelling(c))
  {
    hide UpTo, Holds, Spelling, TailByte;
    LeadFits(c);
    buffer[4] := 0;
    var b3, rest3 := ChopTailByte(c);
    var b2, rest2 := ChopTailByte(rest3);
    var b1, rest := ChopTailByte(rest2);
    buffer[3] := b3;
    buffer[2] := b2;
    buffer[1] := b1;
    buffer[0] := (0xF0 | rest) as Byte;
    Holds4(buffer[..], c);
  }

  method CodePointToUtf8(c: CodePoint) returns (str: seq<Byte>)
    ensures Writes(str, c)
  {
    if c > MAX_CODE_POINT_4 {
      return INVALID_UNICODE + FormatHexUInt32(c) + [0x29];
    }
    var buffer := new Byte[5];
    FillBuffer(c, buffer);
    NullOnlyForNull(c);
    hide Spelling;
    UpToFirst(buffer[..], 0, if c == 0 then 0 else |Spelling(c)|);
    str := UpTo(buffer[..], 0);
  }

  lemma NullOnlyForNull(c: CodePoint)
    requires c <= MAX_CODE_POINT_4
    ensures if c == 0 then Spelling(c) == [0] else 0 !in Spelling(c)
  {
  }

  // ----- wide strings

  /** The encoding of wide characters: two bytes or four. */
  datatype Wide = Utf16 | Utf32

  predicate IsUtf16SurrogatePair(wide: Wide, first: CodePoint, second: CodePoint) {
    wide.Utf16? && first & 0xFC00 == 0xD800 && second & 0xFC00 == 0xDC00
  }

  function CreateCodePointFromUtf16SurrogatePair(wide: Wide, first: CodePoint, second: CodePoint): CodePoint {
    var mask: CodePoint := (1 << 10) - 1;
    if wide.Utf16? then (((first & mask) << 10) | (second & mask)) + 0x10000 else first
  }

  /** The pair of a smiling face; nothing is a pair in UTF-32. */
  lemma KnownPair(first: CodePoint, second: CodePoint)
    ensures IsUtf16SurrogatePair(Utf16, 0xD83D, 0xDE00)
    ensures CreateCodePointFromUtf16SurrogatePair(Utf16, 0xD83D, 0xDE00) == 0x1F600
    ensures !IsUtf16SurrogatePair(Utf32, first, second)
  {
  }

  /** The code points that wide characters stand for; unpaired surrogates stand for
      themselves. */
  ghost function Points(wide: Wide, units: seq<CodePoint>): seq<CodePoint> {
    if units == [] then []
    else if |units| > 1 && IsUtf16SurrogatePair(wide, units[0], units[1]) then
      [CreateCodePointFromUtf16SurrogatePair(wide, units[0], units[1])] + Points(wide, units[2..])
    else [units[0]] + Points(wide, units[1..])
  }

  /** One code point in UTF-16 (section 2.1 of RFC 2781) or UTF-32. */
  ghost function UnitsOf(wide: Wide, c: CodePoint): seq<CodePoint> {
    if wide.Utf32? || c < 0x10000 then [c]
    else [0xD800 + ((c - 0x10000) >> 10), 0xDC00 + ((c - 0x10000) & 0x3FF)]
  }

  ghost function Units(wide: Wide, points: seq<CodePoint>): seq<CodePoint> {
    if points == [] then [] else UnitsOf(wide, points[0]) + Units(wide, points[1..])
  }

  ghost predicate IsText(points: seq<CodePoint>) {
    forall k :: 0 <= k < |points| ==> IsScalar(points[k]) && points[k] != 0
  }

  /** Surrogate pairs are put together again, and nothing else is. */
  lemma {:induction false} PointsOfUnits(wide: Wide, points: seq<CodePoint>)
    requires forall k :: 0 <= k < |points| ==> IsScalar(points[k])
    ensures Points(wide, Units(wide, points)) == points
  {
    hide IsScalar, UnitsOf, IsUtf16SurrogatePair, CreateCodePointFromUtf16SurrogatePair;
    if points != [] {
      var c, units, rest := points[0], Units(wide, points), Units(wide, points[1..]);
      PointsOfUnits(wide, points[1..]);
      UnitsOfScalar(wide, c);
      assert units == UnitsOf(wide, c) + rest;
      if |UnitsOf(wide, c)| == 1 {
        assert units[0] == c && units[1..] == rest;
      } else {
        assert units[0] == UnitsOf(wide, c)[0] && units[1] == UnitsOf(wide, c)[1] && units[2..] == rest;
      }
      assert points == [c] + points[1..];
    }
  }

  /** A scalar value is one unit that starts no pair, or a pair. */
  lemma UnitsOfScalar(wide: Wide, c: CodePoint)
    requires IsScalar(c)
    ensures var u := UnitsOf(wide, c);
      || (u == [c] && forall next :: !IsUtf16SurrogatePair(wide, c, next))
      || (|u| == 2 && IsUtf16SurrogatePair(wide, u[0], u[1]) &&
        CreateCodePointFromUtf16SurrogatePair(wide, u[0], u[1]) == c)
  {
    if wide.Utf16? && c >= 0x10000 {
      PairsJoin(c, UnitsOf(wide, c)[0], UnitsOf(wide, c)[1]);
    }
  }

  lemma PairsJoin(c: CodePoint, first: CodePoint, second: CodePoint)
    requires 0x10000 <= c <= 0x10FFFF
    requires first == 0xD800 + ((c - 0x10000) >> 10) && second == 0xDC00 + ((c - 0x10000) & 0x3FF)
    ensures IsUtf16SurrogatePair(Utf16, first, second) &&
      CreateCodePointFromUtf16SurrogatePair(Utf16, first, second) == c
  {
    var d := c - 0x10000;
    hide IsUtf16SurrogatePair, CreateCodePointFromUtf16SurrogatePair;
    TenBits(c, d);
    HalvesJoin(c, d, d >> 10, d & 0x3FF, first, second);
  }

  lemma HalvesJoin(c: CodePoint, d: CodePoint, hi: CodePoint, lo: CodePoint, first: CodePoint, second: CodePoint)
    requires c >= 0x10000 && d == c - 0x10000 && hi == d >> 10 && lo == d & 0x3FF && hi < 0x400 && lo < 0x400
    requires first == 0xD800 + hi && second == 0xDC00 + lo
    ensures IsUtf16SurrogatePair(Utf16, first, second) &&
      CreateCodePointFromUtf16SurrogatePair(Utf16, first, second) == c
  {
    HalfOfPair(hi);
    HalfOfPair(lo);
    JoinHalves(d, hi, lo);
  }

  /** Both halves of an offset of twenty bits have ten. */
  lemma TenBits(c: CodePoint, d: CodePoint)
    requires 0x10000 <= c <= 0x10FFFF && d == c - 0x10000
    ensures d >> 10 < 0x400 && d & 0x3FF < 0x400
  {
  }

  lemma JoinHalves(d: CodePoint, hi: CodePoint, lo: CodePoint)
    requires hi == d >> 10 && lo == d & 0x3FF
    ensures (hi << 10) | lo == d
  {
  }

  lemma HalfOfPair(h: CodePoint)
    requires h < 0x400
    ensures (0xD800 + h) & 0xFC00 == 0xD800 && (0xD800 + h) & 0x3FF == h
    ensures (0xDC00 + h) & 0xFC00 == 0xDC00 && (0xDC00 + h) & 0x3FF == h
  {
  }

  /** The bytes are what is written for the code points, one after the other. */
  ghost predicate WritesAll(str: seq<Byte>, points: seq<CodePoint>)
    decreases |points|
  {
    if points == [] then str == []
    else exists k :: 0 <= k <= |str| && Writes(str[..k], points[0]) && WritesAll(str[k..], points[1..])
  }

  lemma {:induction false} WritesOneMore(str: seq<Byte>, points: seq<CodePoint>, more: seq<Byte>, c: CodePoint)
    requires WritesAll(str, points) && Writes(more, c)
    ensures WritesAll(str + more, points + [c])
    decreases |points|
  {
    hide Writes;
    if points == [] {
      assert str + more == more && (points + [c])[1..] == [];
      assert more[..|more|] == more && more[|more|..] == [];
    } else {
      var k :| 0 <= k <= |str| && Writes(str[..k], points[0]) && WritesAll(str[k..], points[1..]);
      WritesOneMore(str[k..], points[1..], more, c);
      assert (str + more)[..k] == str[..k] && (str + more)[k..] == str[k..] + more;
      assert (points + [c])[1..] == points[1..] + [c];
    }
  }

  // ----- encoder and validator together

  /** The code points whose encoding the validator takes: the scalar values, and those
      beyond 21 bits, for which a readable text stands. */
  ghost predicate Encodable(c: CodePoint) { IsScalar(c) || c > MAX_CODE_POINT_4 }

  lemma LeadOfSpelling(s: seq<Byte>, c: CodePoint)
    requires Spells(s, c)
    ensures CharLength(s[0]) == |s| || (CharLength(s[0]) == 0 && !IsScalar(c))
  {
  }

  lemma SpellingThen(s: seq<Byte>, c: CodePoint, rest: seq<Byte>)
    requires Spells(s, c)
    ensures IsOctets(s + rest) <==> IsScalar(c) && IsOctets(rest)
    ensures IsOctets(s + rest) ==> Decoded(s + rest) == [c] + Decoded(rest)
  {
    CharsSpellScalars(s, c);
    LeadOfSpelling(s, c);
    OctetsStep(s + rest);
    assert Spells(s, c) ==> |s| > 0 && DecodeChar(s) == c;
    hide Spells, IsChar, IsScalar, CharLength, DecodeChar;
    assert (s + rest)[..|s|] == s && (s + rest)[|s|..] == rest;
  }

  lemma {:induction false} AsciiThen(t: seq<Byte>, rest: seq<Byte>)
    requires forall k :: 0 <= k < |t| ==> t[k] <= 0x7F
    ensures IsOctets(t + rest) <==> IsOctets(rest)
  {
    if t == [] {
      assert t + rest == rest;
    } else {
      var s := t + rest;
      assert s[1..] == t[1..] + rest;
      OctetsStep(s);
      AsciiThen(t[1..], rest);
    }
  }

  /** What is written for one code point is accepted exactly if that is encodable, whatever
      follows. */
  lemma WritesThen(str: seq<Byte>, c: CodePoint, rest: seq<Byte>)
    requires Writes(str, c) && c != 0
    ensures IsOctets(str + rest) <==> Encodable(c) && IsOctets(rest)
    ensures IsScalar(c) && IsOctets(str + rest) ==> Decoded(str + rest) == [c] + Decoded(rest)
  {
    if c <= MAX_CODE_POINT_4 {
      SpellingSpells(c);
      SpellingThen(str, c, rest);
    } else {
      AsciiThen(str, rest);
    }
  }

  /** So the validator rejects the encodings of surrogates and of the values from 110000
      to 1FFFFF, and takes all others. */
  lemma OneCodePointValid(str: seq<Byte>, c: CodePoint)
    requires Writes(str, c)
    ensures IsOctets(str) <==> Encodable(c)
  {
    if c != 0 {
      WritesThen(str, c, []);
      assert str + [] == str;
    }
  }

  lemma {:induction false} TextValid(str: seq<Byte>, points: seq<CodePoint>)
    requires WritesAll(str, points) && 0 !in points
    ensures IsOctets(str) <==> forall k :: 0 <= k < |points| ==> Encodable(points[k])
    decreases |points|
  {
    hide Writes, Encodable, IsOctets, Decoded;
    if points == [] {
      NoOctets();
    } else {
      var k :| 0 <= k <= |str| && Writes(str[..k], points[0]) && WritesAll(str[k..], points[1..]);
      WritesThen(str[..k], points[0], str[k..]);
      assert str[..k] + str[k..] == str;
      TextValid(str[k..], points[1..]);
      assert points == [points[0]] + points[1..];
    }
  }

  lemma NoOctets()
    ensures IsOctets([]) && Decoded([]) == []
  {
  }

  lemma {:induction false} TextDecodes(str: seq<Byte>, points: seq<CodePoint>)
    requires WritesAll(str, points) && IsText(points)
    ensures IsOctets(str) && Decoded(str) == points
    decreases |points|
  {
    hide Writes, IsScalar, IsOctets, Decoded;
    if points == [] {
      NoOctets();
    } else {
      var k :| 0 <= k <= |str| && Writes(str[..k], points[0]) && WritesAll(str[k..], points[1..]);
      WritesThen(str[..k], points[0], str[k..]);
      assert str[..k] + str[k..] == str;
      TextDecodes(str[k..], points[1..]);
      assert points == [points[0]] + points[1..];
    }
  }

  /** Conversely every valid byte string without nulls is what is written for its
      code points: no two strings stand for the same text. */
  lemma {:induction false} ValidIsWritten(s: seq<Byte>)
    requires IsOctets(s) && 0 !in s
    ensures IsText(Decoded(s)) && WritesAll(s, Decoded(s))
    decreases |s|
  {
    if s != [] {
      OctetsStep(s);
      var k := CharLength(s[0]);
      var c, first, rest := DecodeChar(s[..k]), s[..k], s[k..];
      assert Decoded(s) == [c] + Decoded(rest) && Decoded(s)[1..] == Decoded(rest);
      assert first[0] == s[0] && s[0] in s;
      CharIsWritten(first);
      hide IsChar, DecodeChar, CharLength, IsOctets, Decoded, IsScalar, Writes;
      ValidIsWritten(rest);
    }
  }

  lemma CharIsWritten(s: seq<Byte>)
    requires IsChar(s) && s[0] != 0
    ensures var c := DecodeChar(s);
      IsScalar(c) && c != 0 && Writes(s, c)
  {
    var c := DecodeChar(s);
    CharsSpellScalars(s, c);
    SpelledOnce(s, c);
    assert c == 0 ==> Spells(s, 0);
    hide Spells, IsChar, DecodeChar, Spelling;
    if c == 0 {
      OnlyNullIsNull(s);
    }
  }

  lemma OnlyNullIsNull(s: seq<Byte>)
    requires Spells(s, 0)
    ensures s[0] == 0
  {
  }

  /** The units before the first null, of all or of the first numChars. */
  ghost function Considered(str: seq<CodePoint>, numChars: int): seq<CodePoint>
  {
    UpTo(if numChars == -1 || numChars > |str| then str else if numChars < 0 then [] else str[..numChars], 0)
  }

  /** As many units as given, or all of them for -1, but none from the first null on. */
  lemma ConsideredIs(str: seq<CodePoint>, numChars: int)
    ensures var u := Considered(str, numChars);
      && u <= str && 0 !in u
      && (numChars == -1 && |u| < |str| ==> str[|u|] == 0)
      && (numChars >= 0 ==> |u| <= numChars)
      && (|u| < numChars && |u| < |str| ==> str[|u|] == 0)
      && (numChars < -1 ==> u == [])
  {
  }

  lemma {:induction false} PointsAreNotNull(wide: Wide, units: seq<CodePoint>)
    requires 0 !in units && (wide.Utf16? ==> forall k :: 0 <= k < |units| ==> units[k] <= 0xFFFF)
    ensures 0 !in Points(wide, units)
  {
    if units != [] {
      hide IsUtf16SurrogatePair, CreateCodePointFromUtf16SurrogatePair;
      PointsAreNotNull(wide, units[1..]);
      if |units| > 1 && IsUtf16SurrogatePair(wide, units[0], units[1]) {
        PointsAreNotNull(wide, units[2..]);
        PairIsNotNull(wide, units[0], units[1]);
      }
    }
  }

  lemma PairIsNotNull(wide: Wide, first: CodePoint, second: CodePoint)
    requires IsUtf16SurrogatePair(wide, first, second)
    ensures CreateCodePointFromUtf16SurrogatePair(wide, first, second) != 0
  {
  }

  lemma NullIsNoSurrogate(wide: Wide, first: CodePoint)
    ensures !IsUtf16SurrogatePair(wide, first, 0)
  {
  }

  /** A decoded text is what its own units stand for. */
  lemma TextComesThrough(wide: Wide, stream: seq<Byte>, units: seq<CodePoint>, points: seq<CodePoint>)
    requires WritesAll(stream, Points(wide, units)) && IsText(points) && units == Units(wide, points)
    ensures IsOctets(stream) && Decoded(stream) == points
  {
    hide WritesAll, Points, Units, IsOctets, Decoded;
    PointsOfUnits(wide, points);
    TextDecodes(stream, points);
  }

  /** WideStringToUtf8: the considered units' code points are written. The result is
      UTF-8 exactly if they are encodable, and a proper text comes through unchanged. */
  method WideStringToUtf8(wide: Wide, str: seq<CodePoint>, numChars: int) returns (stream: seq<Byte>)
    requires wide.Utf16? ==> forall k :: 0 <= k < |str| ==> str[k] <= 0xFFFF
    requires numChars == -1 ==> 0 in str
    requires numChars <= |str| || 0 in str
    ensures var points := Points(wide, Considered(str, numChars));
      && WritesAll(stream, points)
      && (IsOctets(stream) <==> forall k :: 0 <= k < |points| ==> Encodable(points[k]))
    ensures forall points :: IsText(points) && Considered(str, numChars) == Units(wide, points) ==>
      IsOctets(stream) && Decoded(stream) == points
  {
    ghost var units := Considered(str, numChars);
    stream := EncodeUnits(wide, str, if numChars == -1 then |UpTo(str, 0)| else numChars, units);
    hide IsOctets, Decoded, Encodable, Points, WritesAll, Units, IsText;
    PointsAreNotNull(wide, units);
    TextValid(stream, Points(wide, units));
    forall points | IsText(points) && units == Units(wide, points)
      ensures IsOctets(stream) && Decoded(stream) == points
    {
      TextComesThrough(wide, stream, units, points);
    }
  }

  /** What is done, and what the units from i on stand for, is all they stand for. */
  ghost predicate Pending(wide: Wide, units: seq<CodePoint>, i: nat, done: seq<CodePoint>) {
    i <= |units| && done + Points(wide, units[i..]) == Points(wide, units)
  }

  /** The units are what the loop may read before a null stops it. */
  ghost predicate Readable(str: seq<CodePoint>, length: int, units: seq<CodePoint>) {
    && |units| <= |str| && units == str[..|units|] && (forall k :: 0 <= k < |units| ==> str[k] != 0)
    && (|units| == length || (length < 0 && units == []) ||
        (|units| < length && |units| < |str| && str[|units|] == 0))
  }

  /** The loop over the first length units, up to a null. */
  method EncodeUnits(wide: Wide, str: seq<CodePoint>, length: int, ghost units: seq<CodePoint>)
    returns (stream: seq<Byte>)
    requires Readable(str, length, units)
    ensures WritesAll(stream, Points(wide, units))
  {
    hide *;
    stream := [];
    ghost var done: seq<CodePoint> := [];
    NothingWritten(wide, units);
    var i := 0;
    while i < length
      invariant 0 <= i <= |units|
      invariant WritesAll(stream, done) && Pending(wide, units, i, done)
    {
      UnitAt(str, length, units, i);
      if str[i] == 0 {
        break;
      }
      NullIsNoSurrogate(wide, str[i]);
      ghost var before := i;
      var c;
      if i + 1 < length && IsUtf16SurrogatePair(wide, str[i], str[i + 1]) {
        c := CreateCodePointFromUtf16SurrogatePair(wide, str[i], str[i + 1]);
        i := i + 1;
      } else {
        c := str[i];
      }
      var more := CodePointToUtf8(c);
      i := i + 1;
      NextPoint(wide, units, before, done, c, i);
      WritesOneMore(stream, done, more, c);
      stream, done := stream + more, done + [c];
    }
    AllRead(str, length, units, i);
    NothingLeft(wide, units, done);
  }

  lemma UnitAt(str: seq<CodePoint>, length: int, units: seq<CodePoint>, i: nat)
    requires Readable(str, length, units) && i < length && i <= |units|
    ensures i < |str| && (str[i] == 0 ==> i == |units|)
    ensures str[i] != 0 ==> i < |units| && units[i] == str[i]
    ensures str[i] != 0 && i + 1 < |units| ==> i + 1 < length && units[i + 1] == str[i + 1]
    ensures str[i] != 0 && i + 1 < length && i + 1 >= |units| ==> i + 1 < |str| && str[i + 1] == 0
    ensures i + 1 < length && str[i] != 0 ==> i + 1 < |str|
  {
    assert i < |units| ==> units[i] == str[i];
  }

  lemma AllRead(str: seq<CodePoint>, length: int, units: seq<CodePoint>, i: nat)
    requires Readable(str, length, units) && i <= |units|
    requires i >= length || (i < |str| && str[i] == 0)
    ensures i == |units|
  {
  }

  /** A pair is taken together, any other unit alone. */
  lemma NextPoint(wide: Wide, units: seq<CodePoint>, i: nat, done: seq<CodePoint>, c: CodePoint, next: nat)
    requires i < |units| && Pending(wide, units, i, done)
    requires if i + 1 < |units| && IsUtf16SurrogatePair(wide, units[i], units[i + 1])
             then c == CreateCodePointFromUtf16SurrogatePair(wide, units[i], units[i + 1]) && next == i + 2
             else c == units[i] && next == i + 1
    ensures next <= |units| && Pending(wide, units, next, done + [c])
  {
    PointsStep(wide, units, i);
    hide Points, IsUtf16SurrogatePair, CreateCodePointFromUtf16SurrogatePair;
    assert (done + [c]) + Points(wide, units[next..]) == done + ([c] + Points(wide, units[next..]));
  }

  lemma NothingLeft(wide: Wide, units: seq<CodePoint>, done: seq<CodePoint>)
    requires Pending(wide, units, |units|, done)
    ensures done == Points(wide, units)
  {
    assert Points(wide, units[|units|..]) == [];
  }

  lemma NothingWritten(wide: Wide, units: seq<CodePoint>)
    ensures WritesAll([], []) && Pending(wide, units, 0, [])
  {
    assert units[0..] == units;
  }

  lemma PointsStep(wide: Wide, units: seq<CodePoint>, i: nat)
    requires i < |units|
    ensures Points(wide, units[i..]) ==
      if i + 1 < |units| && IsUtf16SurrogatePair(wide, units[i], units[i + 1])
      then [CreateCodePointFromUtf16SurrogatePair(wide, units[i], units[i + 1])] + Points(wide, units[i + 2..])
      else [units[i]] + Points(wide, units[i + 1..])
  {
    hide IsUtf16SurrogatePair, CreateCodePointFromUtf16SurrogatePair;
    var rest := units[i..];
    assert rest[1..] == units[i + 1..];
    if i + 1 < |units| {
      assert rest[2..] == units[i + 2..];
    }
  }
}
