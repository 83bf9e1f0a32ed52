/** The two conversions from UTF-32, which go on behind values that are too large. */
module ConvertUTF32 {
  import opened UtfCodec
  import opened UtfStream
  import opened ConvertUTF

  /** How a conversion treats a value: it stops there, or writes `enc` for it; `bad` values spoil the result all the same. */
  datatype Rules<!T> = Rules(stops: UTF32 -> bool, bad: UTF32 -> bool, enc: UTF32 -> seq<T>, early: bool)

  ghost function Rules16(flags: ConversionFlags): Rules<UTF16> {
    var strict := flags == StrictConversion;
    Rules(
      (ch: UTF32) => strict && IsSurrogate(ch),
      (ch: UTF32) => strict && ch > UNI_MAX_LEGAL_UTF32,
      (ch: UTF32) => if IsSurrogate(ch) then [UNI_REPLACEMENT_CHAR]
            else if ch > UNI_MAX_LEGAL_UTF32 && strict then []
            else Enc16(ch),
      true)
  }

  ghost function Rules8(flags: ConversionFlags): Rules<UTF8> {
    Rules(
      (ch: UTF32) => flags == StrictConversion && IsSurrogate(ch),
      (ch: UTF32) => ch > UNI_MAX_LEGAL_UTF32,
      Enc8,
      false)
  }

  /** A call with `room` elements of target, whose result is `carry` so far. */
  ghost function Run32<T>(rules: Rules<T>, src: seq<UTF32>, room: nat, carry: ConversionResult): (r: Outcome<T>)
    ensures r.used <= |src| && |r.out| <= room
  {
    if src == [] then Outcome(carry, 0, [])
    else
      var ch := src[0];
      var out := (rules.enc)(ch);
      if rules.early && room == 0 then Outcome(TargetExhausted, 0, [])
      else if (rules.stops)(ch) then Outcome(SourceIllegal, 0, [])
      else if room < |out| then Outcome(TargetExhausted, 0, [])
      else Run32(rules, src[1..], room - |out|, if (rules.bad)(ch) then SourceIllegal else carry).After(1, out)
  }

  ghost predicate SomeBad<T>(rules: Rules<T>, src: seq<UTF32>) {
    exists i :: 0 <= i < |src| && (rules.bad)(src[i])
  }

  /**
   * What the result says. A call that uses all of its source is `SourceIllegal` exactly when there was a bad
   * value in it, wherever that was; only when it leaves source behind does the source begin with the value at fault.
   */
  lemma {:induction false} ResultMeans<T>(rules: Rules<T>, src: seq<UTF32>, room: nat, carry: ConversionResult)
    requires carry == ConversionOK || carry == SourceIllegal
    ensures var r := Run32(rules, src, room, carry);
      && (r.used == |src| ==> r.result == if SomeBad(rules, src) then SourceIllegal else carry)
      && (r.used < |src| ==> r.result == TargetExhausted || (r.result == SourceIllegal && (rules.stops)(src[r.used])))
  {
    if src != [] && !(rules.early && room == 0) && !(rules.stops)(src[0]) && |(rules.enc)(src[0])| <= room {
      var carry' := if (rules.bad)(src[0]) then SourceIllegal else carry;
      var rest := src[1..];
      ResultMeans(rules, rest, room - |(rules.enc)(src[0])|, carry');
      assert SomeBad(rules, src) <==> (rules.bad)(src[0]) || SomeBad(rules, rest) by {
        if i :| 0 <= i < |src| && (rules.bad)(src[i]) {
          assert i > 0 ==> (rules.bad)(rest[i - 1]);
        }
        if i :| 0 <= i < |rest| && (rules.bad)(rest[i]) {
          assert src[i + 1] == rest[i];
        }
      }
    }
  }

  /** Scalar values are all converted, if there is room, in strict and in lenient conversions. */
  lemma {:induction false} ScalarsConvert<T>(rules: Rules<T>, enc: UTF32 -> seq<T>, chars: seq<UTF32>, room: nat, carry: ConversionResult)
    requires AllScalar(chars) && |Flat(enc, chars)| <= room
    requires forall ch | IsScalar(ch) :: !(rules.stops)(ch) && !(rules.bad)(ch) && (rules.enc)(ch) == enc(ch) && enc(ch) != []
    ensures Run32(rules, chars, room, carry) == Outcome(carry, |chars|, Flat(enc, chars))
  {
    if chars != [] {
      assert IsScalar(chars[0]);
      ScalarsConvert(rules, enc, chars[1..], room - |enc(chars[0])|, carry);
    }
  }

  /** A conversion that reports illegal source may have passed the value at fault, and converted all that follows it. */
  lemma GoesOnBehindTooLarge<T>(rules: Rules<T>, enc: UTF32 -> seq<T>, v: UTF32, chars: seq<UTF32>, room: nat)
    requires AllScalar(chars) && |(rules.enc)(v)| + |Flat(enc, chars)| <= room && room > 0
    requires !(rules.stops)(v) && (rules.bad)(v)
    requires forall ch | IsScalar(ch) :: !(rules.stops)(ch) && !(rules.bad)(ch) && (rules.enc)(ch) == enc(ch) && enc(ch) != []
    ensures Run32(rules, [v] + chars, room, ConversionOK) == Outcome(SourceIllegal, 1 + |chars|, (rules.enc)(v) + Flat(enc, chars))
  {
    assert ([v] + chars)[1..] == chars;
    ScalarsConvert(rules, enc, chars, room - |(rules.enc)(v)|, SourceIllegal);
  }

  /** Both strict conversions do so. */
  lemma StrictGoesOn(v: UTF32, chars: seq<UTF32>, room: nat)
    requires AllScalar(chars) && v > UNI_MAX_LEGAL_UTF32 && 3 + |Flat(Enc8, chars)| <= room && |Flat(Enc16, chars)| <= room
    ensures Run32(Rules16(StrictConversion), [v] + chars, room, ConversionOK) == Outcome(SourceIllegal, 1 + |chars|, Flat(Enc16, chars))
    ensures Run32(Rules8(StrictConversion), [v] + chars, room, ConversionOK) ==
      Outcome(SourceIllegal, 1 + |chars|, Encode8(UNI_REPLACEMENT_CHAR) + Flat(Enc8, chars))
  {
    GoesOnBehindTooLarge(Rules16(StrictConversion), Enc16, v, chars, room);
    assert [] + Flat(Enc16, chars) == Flat(Enc16, chars);
    assert Encode8(UNI_REPLACEMENT_CHAR) == Enc8(v) && |Enc8(v)| == 3;
    GoesOnBehindTooLarge(Rules8(StrictConversion), Enc8, v, chars, room);
  }

  /** UTF-32 to UTF-8 and back is the identity on scalar values (RFC 3629, section 3). */
  lemma ThereAndBack8(chars: seq<UTF32>, flags: ConversionFlags, room: nat)
    requires AllScalar(chars) && |Flat(Enc8, chars)| <= room
    ensures Sound(Read8to32())
    ensures var there := Run32(Rules8(flags), chars, room, ConversionOK);
      && there.result == ConversionOK && there.used == |chars|
      && Whole(Read8to32(), there.out) == Outcome(ConversionOK, |there.out|, chars)
  {
    AllSound(flags);
    ScalarsConvert(Rules8(flags), Enc8, chars, room, ConversionOK);
    RoundTrip8(chars);
  }

  /** UTF-32 to UTF-16 and back is the identity on scalar values (RFC 2781, section 2). */
  lemma ThereAndBack16(chars: seq<UTF32>, flags: ConversionFlags, back: ConversionFlags, room: nat)
    requires AllScalar(chars) && |Flat(Enc16, chars)| <= room
    ensures Sound(Read16to32(back))
    ensures var there := Run32(Rules16(flags), chars, room, ConversionOK);
      && there.result == ConversionOK && there.used == |chars|
      && Whole(Read16to32(back), there.out) == Outcome(ConversionOK, |there.out|, chars)
  {
    AllSound(back);
    ScalarsConvert(Rules16(flags), Enc16, chars, room, ConversionOK);
    RoundTrip16(chars, back);
  }

  // ----- the conversions -----

  ghost predicate InCall32<T>(rules: Rules<T>, call: Outcome<T>, source: seq<UTF32>, sourceStart: nat, sourcePos: nat, sourceEnd: nat,
                              now: seq<T>, before: seq<T>, targetStart: nat, targetPos: nat, targetEnd: nat, written: seq<T>, result: ConversionResult) {
    && sourceStart <= sourcePos <= sourceEnd <= |source| && targetStart <= targetPos <= targetEnd
    && call == Run32(rules, source[sourcePos..sourceEnd], targetEnd - targetPos, result).After(sourcePos - sourceStart, written)
    && Holds(now, before, targetStart, targetPos, written)
  }

  lemma Begin32<T>(rules: Rules<T>, source: seq<UTF32>, sourceStart: nat, sourceEnd: nat, now: seq<T>, targetStart: nat, targetEnd: nat)
    returns (call: Outcome<T>)
    requires sourceStart <= sourceEnd <= |source| && targetStart <= targetEnd <= |now|
    ensures call == Run32(rules, source[sourceStart..sourceEnd], targetEnd - targetStart, ConversionOK)
    ensures InCall32(rules, call, source, sourceStart, sourceStart, sourceEnd, now, now, targetStart, targetStart, targetEnd, [], ConversionOK)
  {
    call := Run32(rules, source[sourceStart..sourceEnd], targetEnd - targetStart, ConversionOK);
    assert [] + call.out == call.out;
  }

  /** The value at the source position has been written as `out`. */
  lemma Next32<T>(rules: Rules<T>, call: Outcome<T>, source: seq<UTF32>, sourceStart: nat, sourcePos: nat, sourceEnd: nat,
                  was: seq<T>, now: seq<T>, before: seq<T>, targetStart: nat, targetPos: nat, targetEnd: nat, written: seq<T>,
                  result: ConversionResult, result': ConversionResult, out: seq<T>)
    requires InCall32(rules, call, source, sourceStart, sourcePos, sourceEnd, was, before, targetStart, targetPos, targetEnd, written, result)
    requires sourcePos < sourceEnd && targetEnd <= |was| == |now|
    requires !(rules.stops)(source[sourcePos]) && out == (rules.enc)(source[sourcePos]) && |out| <= targetEnd - targetPos
    requires rules.early ==> targetPos < targetEnd
    requires result' == if (rules.bad)(source[sourcePos]) then SourceIllegal else result
    requires now[..targetPos] == was[..targetPos] && now[targetPos + |out|..] == was[targetPos + |out|..] && now[targetPos..targetPos + |out|] == out
    ensures InCall32(rules, call, source, sourceStart, sourcePos + 1, sourceEnd, now, before, targetStart, targetPos + |out|, targetEnd, written + out, result')
  {
    hide Holds;
    HoldsMore(was, now, before, targetStart, targetPos, written, out);
    var src := source[sourcePos..sourceEnd];
    assert src[1..] == source[sourcePos + 1..sourceEnd];
    AfterAfter(Run32(rules, src[1..], targetEnd - targetPos - |out|, result'), sourcePos - sourceStart, written, 1, out);
  }

  /** The call ends here, with `final`. */
  lemma End32<T>(rules: Rules<T>, call: Outcome<T>, source: seq<UTF32>, sourceStart: nat, sourcePos: nat, sourceEnd: nat,
                 now: seq<T>, before: seq<T>, targetStart: nat, targetPos: nat, targetEnd: nat, written: seq<T>,
                 result: ConversionResult, final: ConversionResult)
    requires InCall32(rules, call, source, sourceStart, sourcePos, sourceEnd, now, before, targetStart, targetPos, targetEnd, written, result)
    requires final == Run32(rules, source[sourcePos..sourceEnd], targetEnd - targetPos, result).result
    requires Run32(rules, source[sourcePos..sourceEnd], targetEnd - targetPos, result).used == 0
    requires Run32(rules, source[sourcePos..sourceEnd], targetEnd - targetPos, result).out == []
    ensures final == call.result && sourcePos == sourceStart + call.used && Holds(now, before, targetStart, targetPos, call.out)
  {
    assert written + [] == written;
  }

  /** One round of `ConvertUTF32toUTF16`; `stop` says that the loop is left. */
  method Step32to16(source: seq<UTF32>, sourcePos: nat, target: array<UTF16>, targetPos: nat, targetEnd: nat, flags: ConversionFlags,
                    carry: ConversionResult) returns (stop: bool, result: ConversionResult, num: nat)
    requires sourcePos < |source| && targetPos <= targetEnd <= target.Length
    modifies target
    ensures var rules, ch, room := Rules16(flags), source[sourcePos], targetEnd - targetPos;
      && (stop <==> room == 0 || (rules.stops)(ch) || room < |(rules.enc)(ch)|)
      && (stop ==> target[..] == old(target[..]) && result == if room > 0 && (rules.stops)(ch) then SourceIllegal else TargetExhausted)
      && (!stop ==> num == |(rules.enc)(ch)| && result == if (rules.bad)(ch) then SourceIllegal else carry)
      && (!stop ==> target[..targetPos] == old(target[..targetPos]) && target[targetPos + num..] == old(target[targetPos + num..]))
      && (!stop ==> target[targetPos..targetPos + num] == (rules.enc)(ch))
  {
    stop, result, num := false, carry, 0;
    if targetPos >= targetEnd {
      return true, TargetExhausted, 0;
    }
    var ch := source[sourcePos];
    if ch <= UNI_MAX_BMP {
      if UNI_SUR_HIGH_START <= ch <= UNI_SUR_LOW_END {
        if flags == StrictConversion {
          return true, SourceIllegal, 0;
        }
        target[targetPos] := UNI_REPLACEMENT_CHAR;
      } else {
        target[targetPos] := ch;
      }
      num := 1;
    } else if ch > UNI_MAX_LEGAL_UTF32 {
      if flags == StrictConversion {
        result := SourceIllegal;
      } else {
        target[targetPos] := UNI_REPLACEMENT_CHAR;
        num := 1;
      }
    } else {
      if targetPos + 1 >= targetEnd {
        return true, TargetExhausted, 0;
      }
      target[targetPos] := (ch - HALF_BASE) / 0x400 + UNI_SUR_HIGH_START;
      target[targetPos + 1] := (ch - HALF_BASE) % 0x400 + UNI_SUR_LOW_START;
      num := 2;
    }
  }

  /** One round of `ConvertUTF32toUTF8`. */
  method Step32to8(source: seq<UTF32>, sourcePos: nat, target: array<UTF8>, targetPos: nat, targetEnd: nat, flags: ConversionFlags,
                   carry: ConversionResult) returns (stop: bool, result: ConversionResult, num: nat)
    requires sourcePos < |source| && targetPos <= targetEnd <= target.Length
    modifies target
    ensures var rules, ch, room := Rules8(flags), source[sourcePos], targetEnd - targetPos;
      && (stop <==> (rules.stops)(ch) || room < |(rules.enc)(ch)|)
      && (stop ==> target[..] == old(target[..]) && result == if (rules.stops)(ch) then SourceIllegal else TargetExhausted)
      && (!stop ==> num == |(rules.enc)(ch)| && result == if (rules.bad)(ch) then SourceIllegal else carry)
      && (!stop ==> target[..targetPos] == old(target[..targetPos]) && target[targetPos + num..] == old(target[targetPos + num..]))
      && (!stop ==> target[targetPos..targetPos + num] == (rules.enc)(ch))
  {
    stop, result, num := false, carry, 0;
    var ch := source[sourcePos];
    if flags == StrictConversion {
      if UNI_SUR_HIGH_START <= ch <= UNI_SUR_LOW_END {
        return true, SourceIllegal, 0;
      }
    }
    if ch > UNI_MAX_LEGAL_UTF32 {
      ch := UNI_REPLACEMENT_CHAR;
      result := SourceIllegal;
    }
    var bytesToWrite := BytesToWrite(ch);
    if targetPos + bytesToWrite > targetEnd {
      return true, TargetExhausted, 0;
    }
    PutBytes(ch, bytesToWrite, target, targetPos);
    num := bytesToWrite;
  }

  /** `ConvertUTF32toUTF16` */
  method ConvertUTF32toUTF16(source: seq<UTF32>, sourceStart: nat, sourceEnd: nat, target: array<UTF16>, targetStart: nat, targetEnd: nat, flags: ConversionFlags)
    returns (result: ConversionResult, sourcePos: nat, targetPos: nat)
    requires sourceStart <= sourceEnd <= |source| && targetStart <= targetEnd <= target.Length
    modifies target
    ensures var call := Run32(Rules16(flags), source[sourceStart..sourceEnd], targetEnd - targetStart, ConversionOK);
      && result == call.result && sourcePos == sourceStart + call.used
      && Holds(target[..], old(target[..]), targetStart, targetPos, call.out)
  {
    hide InCall32, Holds;
    ghost var rules, before := Rules16(flags), target[..];
    ghost var call := Begin32(rules, source, sourceStart, sourceEnd, before, targetStart, targetEnd);
    result, sourcePos, targetPos := ConversionOK, sourceStart, targetStart;
    ghost var written: seq<UTF16> := [];
    while sourcePos < sourceEnd
      invariant sourceStart <= sourcePos <= sourceEnd && targetStart <= targetPos <= targetEnd
      invariant InCall32(rules, call, source, sourceStart, sourcePos, sourceEnd, target[..], before, targetStart, targetPos, targetEnd, written, result)
    {
      ghost var was, carry := target[..], result;
      var stop, num;
      stop, result, num := Step32to16(source, sourcePos, target, targetPos, targetEnd, flags, result);
      if stop {
        End32(rules, call, source, sourceStart, sourcePos, sourceEnd, target[..], before, targetStart, targetPos, targetEnd, written, carry, result);
        return;
      }
      ghost var out := target[targetPos..targetPos + num];
      Next32(rules, call, source, sourceStart, sourcePos, sourceEnd, was, target[..], before, targetStart, targetPos, targetEnd, written, carry, result, out);
      sourcePos, targetPos, written := sourcePos + 1, targetPos + num, written + out;
    }
    End32(rules, call, source, sourceStart, sourcePos, sourceEnd, target[..], before, targetStart, targetPos, targetEnd, written, result, result);
  }

  /** `ConvertUTF32toUTF8` */
  method ConvertUTF32toUTF8(source: seq<UTF32>, sourceStart: nat, sourceEnd: nat, target: array<UTF8>, targetStart: nat, targetEnd: nat, flags: ConversionFlags)
    returns (result: ConversionResult, sourcePos: nat, targetPos: nat)
    requires sourceStart <= sourceEnd <= |source| && targetStart <= targetEnd <= target.Length
    modifies target
    ensures var call := Run32(Rules8(flags), source[sourceStart..sourceEnd], targetEnd - targetStart, ConversionOK);
      && result == call.result && sourcePos == sourceStart + call.used
      && Holds(target[..], old(target[..]), targetStart, targetPos, call.out)
  {
    hide InCall32, Holds;
    ghost var rules, before := Rules8(flags), target[..];
    ghost var call := Begin32(rules, source, sourceStart, sourceEnd, before, targetStart, targetEnd);
    result, sourcePos, targetPos := ConversionOK, sourceStart, targetStart;
    ghost var written: seq<UTF8> := [];
    while sourcePos < sourceEnd
      invariant sourceStart <= sourcePos <= sourceEnd && targetStart <= targetPos <= targetEnd
      invariant InCall32(rules, call, source, sourceStart, sourcePos, sourceEnd, target[..], before, targetStart, targetPos, targetEnd, written, result)
    {
      ghost var was, carry := target[..], result;
      var stop, num;
      stop, result, num := Step32to8(source, sourcePos, target, targetPos, targetEnd, flags, result);
      if stop {
        End32(rules, call, source, sourceStart, sourcePos, sourceEnd, target[..], before, targetStart, targetPos, targetEnd, written, carry, result);
        return;
      }
      ghost var out := target[targetPos..targetPos + num];
      Next32(rules, call, source, sourceStart, sourcePos, sourceEnd, was, target[..], before, targetStart, targetPos, targetEnd, written, carry, result, out);
      sourcePos, targetPos, written := sourcePos + 1, targetPos + num, written + out;
    }
    End32(rules, call, source, sourceStart, sourcePos, sourceEnd, target[..], before, targetStart, targetPos, targetEnd, written, result, result);
  }
}
