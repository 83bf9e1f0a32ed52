/** Single characters in UTF-8 and UTF-16, and the byte sequences that the legality test lets through. */
module UtfCodec {

  type UTF32 = x: int | 0 <= x < 0x1_0000_0000
  type UTF16 = x: int | 0 <= x < 0x1_0000
  type UTF8 = x: int | 0 <= x < 0x100

  const UNI_REPLACEMENT_CHAR: UTF16 := 0xFFFD
  const UNI_MAX_BMP: UTF32 := 0xFFFF
  const UNI_MAX_LEGAL_UTF32: UTF32 := 0x10FFFF
  const UNI_SUR_HIGH_START: UTF16 := 0xD800
  const UNI_SUR_HIGH_END: UTF16 := 0xDBFF
  const UNI_SUR_LOW_START: UTF16 := 0xDC00
  const UNI_SUR_LOW_END: UTF16 := 0xDFFF
  const HALF_BASE: UTF32 := 0x1_0000

  predicate IsSurrogate(ch: UTF32) { UNI_SUR_HIGH_START <= ch <= UNI_SUR_LOW_END }
  predicate IsHigh(ch: UTF32) { UNI_SUR_HIGH_START <= ch <= UNI_SUR_HIGH_END }
  predicate IsLow(ch: UTF32) { UNI_SUR_LOW_START <= ch <= UNI_SUR_LOW_END }

  /** A Unicode scalar value. */
  predicate IsScalar(ch: UTF32) { ch <= UNI_MAX_LEGAL_UTF32 && !IsSurrogate(ch) }

  // ----- the bit operations of the code, as arithmetic -----

  /** `(UTF8)((ch | byteMark) & byteMask)` */
  function TailByte(ch: UTF32): UTF8 { 0x80 + ch % 0x40 }

  /** `ch >> 6` */
  function Shift6(ch: UTF32): UTF32 { ch / 0x40 }

  /** `(UTF8)(ch | firstByteMark[n])`, when the low bits have been shifted out. */
  function FirstByte(ch: UTF32, n: nat): UTF8
    requires n == 1 ==> ch < 0x80
    requires n == 2 ==> ch < 0x20
    requires n == 3 ==> ch < 0x10
    requires n == 4 ==> ch < 0x08
    requires 1 <= n <= 4
  {
    ch + if n == 1 then 0 else if n == 2 then 0xC0 else if n == 3 then 0xE0 else 0xF0
  }

  lemma TailByteBits(ch: bv32)
    ensures (ch | 0x80) & 0xBF == 0x80 + ch % 0x40
  {
  }

  lemma ShiftBits(ch: bv32)
    ensures ch >> 6 == ch / 0x40 && ch >> 10 == ch / 0x400 && ch & 0x3FF == ch % 0x400
    ensures ch < 0x0400_0000 ==> ch << 6 == ch * 0x40
    ensures ch < 0x0040_0000 ==> ch << 10 == ch * 0x400
  {
  }

  /** The marks of `FirstByte` are free bits, so that setting them is adding them. */
  lemma FirstByteBits2(ch: bv32)
    requires ch < 0x20
    ensures ch | 0xC0 == ch + 0xC0
  {
  }

  lemma FirstByteBits3(ch: bv32)
    requires ch < 0x10
    ensures ch | 0xE0 == ch + 0xE0
  {
  }

  lemma FirstByteBits4(ch: bv32)
    requires ch < 0x08
    ensures ch | 0xF0 == ch + 0xF0
  {
  }

  // ----- UTF-16 -----

  function HighHalf(ch: UTF32): UTF16
    requires UNI_MAX_BMP < ch <= UNI_MAX_LEGAL_UTF32
  {
    (ch - HALF_BASE) / 0x400 + UNI_SUR_HIGH_START
  }

  function LowHalf(ch: UTF32): UTF16
    requires UNI_MAX_BMP < ch <= UNI_MAX_LEGAL_UTF32
  {
    (ch - HALF_BASE) % 0x400 + UNI_SUR_LOW_START
  }

  /** A character of the basic plane, or the two halves of one behind it. */
  function Encode16(ch: UTF32): (s: seq<UTF16>)
    requires ch <= UNI_MAX_LEGAL_UTF32
    ensures |s| == if ch <= UNI_MAX_BMP then 1 else 2
  {
    if ch <= UNI_MAX_BMP then [ch] else [HighHalf(ch), LowHalf(ch)]
  }

  function JoinHalves(high: UTF32, low: UTF32): UTF32
    requires IsHigh(high) && IsLow(low)
  {
    (high - UNI_SUR_HIGH_START) * 0x400 + (low - UNI_SUR_LOW_START) + HALF_BASE
  }

  /** RFC 2781, sections 2.1 and 2.2: the halves of a character are joined to it again. */
  lemma SplitJoin(ch: UTF32)
    requires UNI_MAX_BMP < ch <= UNI_MAX_LEGAL_UTF32
    ensures IsHigh(HighHalf(ch)) && IsLow(LowHalf(ch)) && JoinHalves(HighHalf(ch), LowHalf(ch)) == ch
  {
  }

  /** And halves that are joined are split again. */
  lemma JoinSplit(high: UTF32, low: UTF32)
    requires IsHigh(high) && IsLow(low)
    ensures UNI_MAX_BMP < JoinHalves(high, low) <= UNI_MAX_LEGAL_UTF32
    ensures HighHalf(JoinHalves(high, low)) == high && LowHalf(JoinHalves(high, low)) == low
  {
  }

  // ----- UTF-8 -----

  /** `trailingBytesForUTF8` */
  function Trailing(b: UTF8): nat {
    if b < 0xC0 then 0 else if b < 0xE0 then 1 else if b < 0xF0 then 2
    else if b < 0xF8 then 3 else if b < 0xFC then 4 else 5
  }

  /** `offsetsFromUTF8`, as far as it is used. */
  function Offset(extra: nat): UTF32 {
    if extra == 0 then 0 else if extra == 1 then 0x3080 else if extra == 2 then 0xE2080 else 0x3C8_2080
  }

  function BytesToWrite(ch: UTF32): (n: nat)
    ensures 1 <= n <= 4
  {
    if ch < 0x80 then 1 else if ch < 0x800 then 2 else if ch < 0x1_0000 then 3 else 4
  }

  function Encode8(ch: UTF32): (s: seq<UTF8>)
    requires ch <= UNI_MAX_LEGAL_UTF32
    ensures |s| == BytesToWrite(ch)
  {
    if ch < 0x80 then [FirstByte(ch, 1)]
    else if ch < 0x800 then [FirstByte(ch / 0x40, 2), TailByte(ch)]
    else if ch < 0x1_0000 then [FirstByte(ch / 0x1000, 3), TailByte(ch / 0x40), TailByte(ch)]
    else [FirstByte(ch / 0x4_0000, 4), TailByte(ch / 0x1000), TailByte(ch / 0x40), TailByte(ch)]
  }

  /** The bytes shifted into each other. */
  function Gather(s: seq<UTF8>): nat {
    if |s| == 0 then 0 else Gather(s[..|s| - 1]) * 0x40 + s[|s| - 1]
  }

  predicate IsTail(b: UTF8) { 0x80 <= b <= 0xBF }

  /** The grammar of RFC 3629, section 4: one character. */
  predicate IsChar(s: seq<UTF8>) {
    || (|s| == 1 && s[0] <= 0x7F)
    || (|s| == 2 && 0xC2 <= s[0] <= 0xDF && IsTail(s[1]))
    || (|s| == 3 && IsTail(s[2]) &&
          ((s[0] == 0xE0 && 0xA0 <= s[1] <= 0xBF) || (0xE1 <= s[0] <= 0xEC && IsTail(s[1])) ||
           (s[0] == 0xED && 0x80 <= s[1] <= 0x9F) || (0xEE <= s[0] <= 0xEF && IsTail(s[1]))))
    || (|s| == 4 && IsTail(s[2]) && IsTail(s[3]) &&
          ((s[0] == 0xF0 && 0x90 <= s[1] <= 0xBF) || (0xF1 <= s[0] <= 0xF3 && IsTail(s[1])) ||
           (s[0] == 0xF4 && 0x80 <= s[1] <= 0x8F)))
  }

  /** The sequences outside of the grammar that the legality test lets through. */
  predicate IsSlip(s: seq<UTF8>) {
    || (|s| == 3 && s[0] == 0xED && s[1] < 0x80 && IsTail(s[2]))
    || (|s| == 4 && s[0] == 0xF4 && s[1] < 0x80 && IsTail(s[2]) && IsTail(s[3]))
  }

  predicate IsAccepted(s: seq<UTF8>) { IsChar(s) || IsSlip(s) }

  /** `isLegalUTF8`, for the length that the first byte announces. */
  method IsLegalUTF8(source: seq<UTF8>, at: nat, length: nat) returns (r: bool)
    requires at + length <= |source| && 1 <= length == Trailing(source[at]) + 1
    ensures r <==> IsAccepted(source[at..at + length])
  {
    var srcptr := at + length;
    if length > 4 {
      return false;
    }
    if length == 4 {
      srcptr := srcptr - 1;
      if source[srcptr] < 0x80 || source[srcptr] > 0xBF {
        return false;
      }
    }
    if length >= 3 {
      srcptr := srcptr - 1;
      if source[srcptr] < 0x80 || source[srcptr] > 0xBF {
        return false;
      }
    }
    if length >= 2 {
      srcptr := srcptr - 1;
      var a := source[srcptr];
      if a > 0xBF {
        return false;
      }
      if source[at] == 0xE0 {
        if a < 0xA0 { return false; }
      } else if source[at] == 0xED {
        if a > 0x9F { return false; }
      } else if source[at] == 0xF0 {
        if a < 0x90 { return false; }
      } else if source[at] == 0xF4 {
        if a > 0x8F { return false; }
      } else if a < 0x80 {
        return false;
      }
    }
    if 0x80 <= source[at] < 0xC2 {
      return false;
    }
    return source[at] <= 0xF4;
  }

  /** `isLegalUTF8Sequence` */
  method IsLegalUTF8Sequence(source: seq<UTF8>, sourceEnd: nat) returns (r: bool)
    requires 0 < |source| && sourceEnd <= |source|
    ensures r <==> Trailing(source[0]) < sourceEnd && IsAccepted(source[..Trailing(source[0]) + 1])
  {
    var length := Trailing(source[0]) + 1;
    if length > sourceEnd {
      return false;
    }
    r := IsLegalUTF8(source, 0, length);
  }

  lemma GatherFew(s: seq<UTF8>)
    requires 1 <= |s| <= 4
    ensures |s| == 1 ==> Gather(s) as int == s[0]
    ensures |s| == 2 ==> Gather(s) == (s[0] as int) * 0x40 + s[1]
    ensures |s| == 3 ==> Gather(s) == (s[0] as int) * 0x1000 + (s[1] as int) * 0x40 + s[2]
    ensures |s| == 4 ==> Gather(s) == (s[0] as int) * 0x4_0000 + (s[1] as int) * 0x1000 + (s[2] as int) * 0x40 + s[3]
  {
    assert Gather(s[..0]) == 0;
    assert s[..1][..0] == s[..0];
    assert Gather(s[..1]) == s[0] as int;
    if |s| >= 2 {
      assert s[..2][..1] == s[..1];
      assert Gather(s[..2]) == (s[0] as int) * 0x40 + s[1];
    }
    if |s| >= 3 {
      assert s[..3][..2] == s[..2];
      assert Gather(s[..3]) == (s[0] as int) * 0x1000 + (s[1] as int) * 0x40 + s[2];
    }
    assert s[..|s|] == s;
  }

  /** What a sequence is read as, when the offset for its length is taken away. */
  function Decode8(s: seq<UTF8>): int
    requires 1 <= |s| <= 4
  {
    Gather(s) - Offset(|s| - 1)
  }

  lemma DivDiv(ch: nat)
    ensures ch / 0x1000 == ch / 0x40 / 0x40 && ch / 0x4_0000 == ch / 0x1000 / 0x40
  {
  }

  lemma Digits(ch: nat)
    ensures ch == ch / 0x40 * 0x40 + ch % 0x40
    ensures ch == ch / 0x1000 * 0x1000 + ch / 0x40 % 0x40 * 0x40 + ch % 0x40
    ensures ch == ch / 0x4_0000 * 0x4_0000 + ch / 0x1000 % 0x40 * 0x1000 + ch / 0x40 % 0x40 * 0x40 + ch % 0x40
  {
    DivDiv(ch);
    var q := ch / 0x40;
    var r := q / 0x40;
    assert ch == q * 0x40 + ch % 0x40;
    assert q == r * 0x40 + q % 0x40;
    assert r == r / 0x40 * 0x40 + r % 0x40;
  }

  /** Six-bit digits determine a number, and are determined by it. */
  lemma FromDigits(ch: nat, a: nat, b: nat, c: nat, d: nat)
    requires b < 0x40 && c < 0x40 && d < 0x40 && ch == a * 0x4_0000 + b * 0x1000 + c * 0x40 + d
    ensures ch / 0x4_0000 == a && ch / 0x1000 == a * 0x40 + b && ch / 0x1000 % 0x40 == b
    ensures ch / 0x40 == a * 0x1000 + b * 0x40 + c && ch / 0x40 % 0x40 == c && ch % 0x40 == d
  {
    assert ch / 0x40 == a * 0x1000 + b * 0x40 + c;
  }

  /** RFC 3629, section 3: what is written for a scalar value is one character of the grammar, and is read back. */
  lemma EncodeDecode(ch: UTF32)
    requires IsScalar(ch)
    ensures IsChar(Encode8(ch)) && Trailing(Encode8(ch)[0]) + 1 == |Encode8(ch)|
    ensures Decode8(Encode8(ch)) == ch
  {
    hide Gather;
    Digits(ch);
    GatherFew(Encode8(ch));
  }

  lemma CharDecodes3(s: seq<UTF8>)
    requires IsChar(s) && |s| == 3
    ensures Trailing(s[0]) == 2 && 0x800 <= Decode8(s) < 0x1_0000 && IsScalar(Decode8(s)) && Encode8(Decode8(s)) == s
  {
    hide Gather;
    GatherFew(s);
    FromDigits(Decode8(s), 0, s[0] - 0xE0, s[1] - 0x80, s[2] - 0x80);
  }

  lemma CharDecodes4(s: seq<UTF8>)
    requires IsChar(s) && |s| == 4
    ensures Trailing(s[0]) == 3 && 0x1_0000 <= Decode8(s) <= UNI_MAX_LEGAL_UTF32 && Encode8(Decode8(s)) == s
  {
    hide Gather;
    GatherFew(s);
    FromDigits(Decode8(s), s[0] - 0xF0, s[1] - 0x80, s[2] - 0x80, s[3] - 0x80);
  }

  /** Conversely, a character of the grammar is what is written for the scalar value that it is read as. */
  lemma CharDecodes(s: seq<UTF8>)
    requires IsChar(s)
    ensures Trailing(s[0]) + 1 == |s| && 0 <= Decode8(s) <= UNI_MAX_LEGAL_UTF32 && IsScalar(Decode8(s))
    ensures Encode8(Decode8(s)) == s
  {
    hide Gather;
    if |s| == 3 {
      CharDecodes3(s);
    } else if |s| == 4 {
      CharDecodes4(s);
    } else {
      GatherFew(s);
      if |s| == 2 {
        FromDigits(Decode8(s), 0, 0, s[0] - 0xC0, s[1] - 0x80);
      }
    }
  }

  /** A slip is read as a scalar value too. */
  lemma SlipDecodes(s: seq<UTF8>)
    requires IsSlip(s)
    ensures Trailing(s[0]) + 1 == |s| && 0 <= Decode8(s) <= UNI_MAX_LEGAL_UTF32 && IsScalar(Decode8(s)) && !IsChar(s)
  {
    hide Gather;
    GatherFew(s);
  }

  /**
   * Every accepted sequence is read as a scalar value, so that the branches for surrogates and for
   * too large values are dead. It is a character of the grammar exactly when it is what would be written.
   */
  lemma AcceptedDecodes(s: seq<UTF8>)
    requires IsAccepted(s)
    ensures Trailing(s[0]) + 1 == |s| && 0 <= Decode8(s) <= UNI_MAX_LEGAL_UTF32 && IsScalar(Decode8(s))
    ensures IsChar(s) <==> Encode8(Decode8(s)) == s
  {
    hide Gather, Decode8, Encode8;
    if IsChar(s) {
      CharDecodes(s);
    } else {
      SlipDecodes(s);
      EncodeDecode(Decode8(s));
    }
  }
}
