/** The six conversions, what they do to whole texts, and how they agree with each other. */
module ConvertUTF {
  import opened UtfCodec
  import opened UtfStream

  datatype ConversionFlags = StrictConversion | LenientConversion

  // ----- what is read -----

  /** The character at the beginning of UTF-8 text; it is a scalar value. */
  ghost function Char8(s: seq<UTF8>): (r: Reading<UTF32>)
    ensures r.Unit? ==> |r.out| == 1 && IsScalar(r.out[0])
  {
    if s == [] || Trailing(s[0]) >= |s| then Partial
    else
      var c := s[..Trailing(s[0]) + 1];
      if !IsAccepted(c) then Malformed
      else
        AcceptedDecodes(c);
        Unit(|c|, [Decode8(c)])
  }

  /** The character at the beginning of UTF-16 text; a lenient reader takes an unpaired surrogate for one. */
  ghost function Char16(s: seq<UTF16>, flags: ConversionFlags): Reading<UTF32> {
    if s == [] then Partial
    else if IsHigh(s[0]) then
      if |s| == 1 then Partial
      else if IsLow(s[1]) then
        var ch: UTF32 := JoinHalves(s[0], s[1]);
        Unit(2, [ch])
      else if flags == StrictConversion then Malformed
      else Unit(1, [s[0] as UTF32])
    else if flags == StrictConversion && IsLow(s[0]) then Malformed
    else Unit(1, [s[0] as UTF32])
  }

  /** What is written for a character. */
  ghost function Enc8(ch: UTF32): (s: seq<UTF8>)
    ensures 1 <= |s| <= 4
  {
    Encode8(if ch <= UNI_MAX_LEGAL_UTF32 then ch else UNI_REPLACEMENT_CHAR)
  }

  ghost function Enc16(ch: UTF32): (s: seq<UTF16>)
    ensures 1 <= |s| <= 2
  {
    Encode16(if ch <= UNI_MAX_LEGAL_UTF32 then ch else UNI_REPLACEMENT_CHAR)
  }

  /** A reading of one character, written in another form. */
  ghost function Rewrite<T>(r: Reading<UTF32>, enc: UTF32 -> seq<T>): Reading<T> {
    match r
    case Partial => Partial
    case Malformed => Malformed
    case Unit(used, out) => Unit(used, Flat(enc, out))
  }

  /** The forms of all characters, one behind the other. */
  ghost function Flat<T>(enc: UTF32 -> seq<T>, chars: seq<UTF32>): seq<T> {
    if chars == [] then [] else enc(chars[0]) + Flat(enc, chars[1..])
  }

  ghost function Mapped<S(!new), T>(read: Reader<S, UTF32>, enc: UTF32 -> seq<T>): Reader<S, T> {
    (s: seq<S>) => Rewrite(read(s), enc)
  }

  ghost function Read8to32(): Reader<UTF8, UTF32> { Char8 }
  ghost function Read16to32(flags: ConversionFlags): Reader<UTF16, UTF32> { (s: seq<UTF16>) => Char16(s, flags) }
  ghost function Read8to16(): Reader<UTF8, UTF16> { Mapped(Read8to32(), Enc16) }
  ghost function Read16to8(flags: ConversionFlags): Reader<UTF16, UTF8> { Mapped(Read16to32(flags), Enc8) }

  lemma ReadersAt8(s: seq<UTF8>)
    ensures Read8to32()(s) == Char8(s) && Read8to16()(s) == Rewrite(Char8(s), Enc16)
  {
  }

  lemma ReadersAt16(s: seq<UTF16>, flags: ConversionFlags)
    ensures Read16to32(flags)(s) == Char16(s, flags) && Read16to8(flags)(s) == Rewrite(Char16(s, flags), Enc8)
  {
  }

  // ----- the readers are sound -----

  lemma Sound8()
    ensures Sound(Read8to32())
  {
    forall s: seq<UTF8>, more | s != [] ensures StableAt(Read8to32(), s, more) {
      if Trailing(s[0]) < |s| {
        assert (s + more)[..Trailing(s[0]) + 1] == s[..Trailing(s[0]) + 1];
      }
    }
  }

  lemma Sound16(flags: ConversionFlags)
    ensures Sound(Read16to32(flags))
  {
  }

  lemma {:induction false} FlatConcat<T>(enc: UTF32 -> seq<T>, a: seq<UTF32>, b: seq<UTF32>)
    ensures Flat(enc, a + b) == Flat(enc, a) + Flat(enc, b)
  {
    if a == [] {
      assert a + b == b;
    } else {
      assert (a + b)[1..] == a[1..] + b;
      FlatConcat(enc, a[1..], b);
    }
  }

  lemma FlatOne<T>(enc: UTF32 -> seq<T>, ch: UTF32)
    ensures Flat(enc, [ch]) == enc(ch)
  {
    assert Flat(enc, [ch][1..]) == [];
  }

  lemma SoundMapped<S(!new), T>(read: Reader<S, UTF32>, enc: UTF32 -> seq<T>)
    requires Sound(read) && forall ch :: enc(ch) != []
    ensures Sound(Mapped(read, enc))
  {
    forall s: seq<S> | s != [] ensures SoundAt(Mapped(read, enc), s) {
      assert SoundAt(read, s);
    }
    forall s: seq<S>, more | s != [] ensures StableAt(Mapped(read, enc), s, more) {
      assert StableAt(read, s, more);
    }
  }

  lemma AllSound(flags: ConversionFlags)
    ensures Sound(Read8to32()) && Sound(Read16to32(flags)) && Sound(Read8to16()) && Sound(Read16to8(flags))
  {
    Sound8();
    Sound16(flags);
    SoundMapped(Read8to32(), Enc16);
    SoundMapped(Read16to32(flags), Enc8);
  }

  // ----- how the conversions agree -----

  /**
   * On every text, well-formed or not: converting into another form gives what converting to
   * UTF-32 gives, written in that form; both use the same source and end with the same result.
   */
  lemma {:induction false} Agree<S(!new), T>(read: Reader<S, UTF32>, enc: UTF32 -> seq<T>, s: seq<S>)
    requires Sound(read) && Sound(Mapped(read, enc))
    ensures var w := Whole(read, s);
      Whole(Mapped(read, enc), s) == Outcome(w.result, w.used, Flat(enc, w.out))
    decreases |s|
  {
    if s != [] && read(s).Unit? {
      var used, out := read(s).used, read(s).out;
      WholeStep(read, s, used, out);
      WholeStep(Mapped(read, enc), s, used, Flat(enc, out));
      Agree(read, enc, s[used..]);
      FlatConcat(enc, out, Whole(read, s[used..]).out);
    }
  }

  lemma ConversionsAgree(bytes: seq<UTF8>, halves: seq<UTF16>, flags: ConversionFlags)
    ensures Sound(Read8to32()) && Sound(Read16to32(flags)) && Sound(Read8to16()) && Sound(Read16to8(flags))
    ensures var w := Whole(Read8to32(), bytes); Whole(Read8to16(), bytes) == Outcome(w.result, w.used, Flat(Enc16, w.out))
    ensures var w := Whole(Read16to32(flags), halves); Whole(Read16to8(flags), halves) == Outcome(w.result, w.used, Flat(Enc8, w.out))
  {
    AllSound(flags);
    Agree(Read8to32(), Enc16, bytes);
    Agree(Read16to32(flags), Enc8, halves);
  }

  ghost predicate AllScalar(chars: seq<UTF32>) {
    forall i | 0 <= i < |chars| :: IsScalar(chars[i])
  }

  lemma Reads8(ch: UTF32, rest: seq<UTF8>)
    requires IsScalar(ch)
    ensures Char8(Enc8(ch) + rest) == Unit(|Enc8(ch)|, [ch])
  {
    EncodeDecode(ch);
    var s := Enc8(ch) + rest;
    assert s[..|Enc8(ch)|] == Enc8(ch);
  }

  lemma Reads16(ch: UTF32, rest: seq<UTF16>, flags: ConversionFlags)
    requires IsScalar(ch)
    ensures Char16(Enc16(ch) + rest, flags) == Unit(|Enc16(ch)|, [ch])
  {
    if ch > UNI_MAX_BMP {
      SplitJoin(ch);
    }
  }

  /** RFC 3629, section 3: UTF-8 text written for scalar values is read back as these. */
  lemma {:induction false} RoundTrip8(chars: seq<UTF32>)
    requires AllScalar(chars) && Sound(Read8to32())
    ensures Whole(Read8to32(), Flat(Enc8, chars)) == Outcome(ConversionOK, |Flat(Enc8, chars)|, chars)
  {
    if chars != [] {
      var ch, rest := chars[0], Flat(Enc8, chars[1..]);
      RoundTrip8(chars[1..]);
      Reads8(ch, rest);
      var s := Enc8(ch) + rest;
      assert s[|Enc8(ch)|..] == rest;
      WholeStep(Read8to32(), s, |Enc8(ch)|, [ch]);
      assert [ch] + chars[1..] == chars;
    }
  }

  /** RFC 2781, section 2: so is UTF-16 text, whether reading is strict or lenient. */
  lemma {:induction false} RoundTrip16(chars: seq<UTF32>, flags: ConversionFlags)
    requires AllScalar(chars) && Sound(Read16to32(flags))
    ensures Whole(Read16to32(flags), Flat(Enc16, chars)) == Outcome(ConversionOK, |Flat(Enc16, chars)|, chars)
  {
    if chars != [] {
      var ch, rest := chars[0], Flat(Enc16, chars[1..]);
      RoundTrip16(chars[1..], flags);
      Reads16(ch, rest, flags);
      var s := Enc16(ch) + rest;
      assert s[|Enc16(ch)|..] == rest;
      WholeStep(Read16to32(flags), s, |Enc16(ch)|, [ch]);
      assert [ch] + chars[1..] == chars;
    }
  }

  /** The triangle: well-formed text of one form becomes the text for the same characters in the other form. */
  lemma Triangle(chars: seq<UTF32>, flags: ConversionFlags)
    requires AllScalar(chars)
    ensures Sound(Read8to16()) && Sound(Read16to8(flags))
    ensures Whole(Read8to16(), Flat(Enc8, chars)) == Outcome(ConversionOK, |Flat(Enc8, chars)|, Flat(Enc16, chars))
    ensures Whole(Read16to8(flags), Flat(Enc16, chars)) == Outcome(ConversionOK, |Flat(Enc16, chars)|, Flat(Enc8, chars))
  {
    AllSound(flags);
    RoundTrip8(chars);
    RoundTrip16(chars, flags);
    Agree(Read8to32(), Enc16, Flat(Enc8, chars));
    Agree(Read16to32(flags), Enc8, Flat(Enc16, chars));
  }

  /** Strict conversions only ever yield scalar values. */
  lemma {:induction false} StrictYieldsScalars(halves: seq<UTF16>)
    requires Sound(Read16to32(StrictConversion))
    ensures AllScalar(Whole(Read16to32(StrictConversion), halves).out)
    decreases |halves|
  {
    var read := Read16to32(StrictConversion);
    if halves != [] && read(halves).Unit? {
      var used, out := read(halves).used, read(halves).out;
      WholeStep(read, halves, used, out);
      StrictYieldsScalars(halves[used..]);
    }
  }

  lemma {:induction false} Utf8YieldsScalars(bytes: seq<UTF8>)
    requires Sound(Read8to32())
    ensures AllScalar(Whole(Read8to32(), bytes).out)
    decreases |bytes|
  {
    var read := Read8to32();
    if bytes != [] && read(bytes).Unit? {
      var used, out := read(bytes).used, read(bytes).out;
      WholeStep(read, bytes, used, out);
      Utf8YieldsScalars(bytes[used..]);
    }
  }

  // ----- the conversions -----

  /** All of a call: what is still to come follows what has been written for the used source. */
  ghost predicate Going<S(!new), T>(read: Reader<S, T>, call: Outcome<T>, src: seq<S>, room: nat, used: nat, written: seq<T>) {
    Sound(read) && call == Run(read, src, room).After(used, written)
  }

  lemma Begin<S(!new), T>(read: Reader<S, T>, src: seq<S>, room: nat)
    requires Sound(read)
    ensures Going(read, Run(read, src, room), src, room, 0, [])
  {
    assert [] + Run(read, src, room).out == Run(read, src, room).out;
  }

  lemma GoOn<S(!new), T>(read: Reader<S, T>, call: Outcome<T>, src: seq<S>, room: nat, used: nat, written: seq<T>, n: nat, out: seq<T>)
    requires Going(read, call, src, room, used, written) && src != [] && read(src) == Unit(n, out) && |out| <= room
    ensures 0 < n <= |src| && Going(read, call, src[n..], room - |out|, used + n, written + out)
  {
    RunStep(read, src, room, n, out);
    AfterAfter(Run(read, src[n..], room - |out|), used, written, n, out);
  }

  lemma End<S(!new), T>(read: Reader<S, T>, call: Outcome<T>, src: seq<S>, room: nat, used: nat, written: seq<T>, result: ConversionResult)
    requires Going(read, call, src, room, used, written)
    requires src == [] ==> result == ConversionOK
    requires src != [] ==> match read(src)
      case Partial => result == SourceExhausted
      case Malformed => result == SourceIllegal
      case Unit(n, out) => room < |out| && result == TargetExhausted
    ensures call == Outcome(result, used, written)
  {
    assert written + [] == written;
  }

  /** The backward writing switch: the bytes of `ch`, the last one first. */
  method PutBytes(ch: UTF32, bytesToWrite: nat, target: array<UTF8>, at: nat)
    requires ch <= UNI_MAX_LEGAL_UTF32 && bytesToWrite == BytesToWrite(ch) && at + bytesToWrite <= target.Length
    modifies target
    ensures target[at..at + bytesToWrite] == Encode8(ch)
    ensures target[..at] == old(target[..at]) && target[at + bytesToWrite..] == old(target[at + bytesToWrite..])
  {
    DivDiv(ch);
    var c, p := ch, at + bytesToWrite;
    if bytesToWrite == 4 {
      p := p - 1;
      target[p] := TailByte(c);
      c := Shift6(c);
    }
    if bytesToWrite >= 3 {
      p := p - 1;
      target[p] := TailByte(c);
      c := Shift6(c);
    }
    if bytesToWrite >= 2 {
      p := p - 1;
      target[p] := TailByte(c);
      c := Shift6(c);
    }
    p := p - 1;
    target[p] := FirstByte(c, bytesToWrite);
  }

  /** The reading switch: the bytes shifted into each other. */
  method GatherBytes(source: seq<UTF8>, at: nat, extraBytesToRead: nat) returns (ch: UTF32)
    requires at + extraBytesToRead < |source| && extraBytesToRead <= 3
    ensures ch == Gather(source[at..at + extraBytesToRead + 1])
  {
    var s := source[at..at + extraBytesToRead + 1];
    var c: nat, p := 0, at;
    if extraBytesToRead == 3 {
      c, p := (c + source[p]) * 0x40, p + 1;
    }
    if extraBytesToRead >= 2 {
      c, p := (c + source[p]) * 0x40, p + 1;
    }
    if extraBytesToRead >= 1 {
      c, p := (c + source[p]) * 0x40, p + 1;
    }
    ch := c + source[p];
    GatherFew(s);
  }

  /** Reads the character at a position of the source; a position at its end is not asked for. */
  method NextChar8(source: seq<UTF8>, at: nat, sourceEnd: nat) returns (reading: ConversionResult, ch: UTF32, size: nat)
    requires at < sourceEnd <= |source|
    ensures match Char8(source[at..sourceEnd])
      case Partial => reading == SourceExhausted
      case Malformed => reading == SourceIllegal
      case Unit(n, out) => reading == ConversionOK && size == n && out == [ch] && IsScalar(ch)
  {
    var extraBytesToRead := Trailing(source[at]);
    ch, size := 0, extraBytesToRead + 1;
    if at + extraBytesToRead >= sourceEnd {
      return SourceExhausted, ch, size;
    }
    assert source[at..sourceEnd][..size] == source[at..at + size];
    var legal := IsLegalUTF8(source, at, size);
    if !legal {
      return SourceIllegal, ch, size;
    }
    AcceptedDecodes(source[at..at + size]);
    var gathered := GatherBytes(source, at, extraBytesToRead);
    return ConversionOK, gathered - Offset(extraBytesToRead), size;
  }

  method NextChar16(source: seq<UTF16>, at: nat, sourceEnd: nat, flags: ConversionFlags)
    returns (reading: ConversionResult, ch: UTF32, size: nat)
    requires at < sourceEnd <= |source|
    ensures match Char16(source[at..sourceEnd], flags)
      case Partial => reading == SourceExhausted
      case Malformed => reading == SourceIllegal
      case Unit(n, out) => reading == ConversionOK && size == n && out == [ch] && ch <= UNI_MAX_LEGAL_UTF32
  {
    ch, size := source[at], 1;
    if UNI_SUR_HIGH_START <= ch <= UNI_SUR_HIGH_END {
      if at + 1 < sourceEnd {
        var ch2: UTF32 := source[at + 1];
        if UNI_SUR_LOW_START <= ch2 <= UNI_SUR_LOW_END {
          JoinSplit(ch, ch2);
          ch := (ch - UNI_SUR_HIGH_START) * 0x400 + (ch2 - UNI_SUR_LOW_START) + HALF_BASE;
          size := 2;
        } else if flags == StrictConversion {
          return SourceIllegal, ch, size;
        }
      } else {
        return SourceExhausted, ch, size;
      }
    } else if flags == StrictConversion {
      if UNI_SUR_LOW_START <= ch <= UNI_SUR_LOW_END {
        return SourceIllegal, ch, size;
      }
    }
    return ConversionOK, ch, size;
  }

  /** The target holds what has been written from `start` to `at`, and is otherwise what it was. */
  ghost predicate Holds<T>(now: seq<T>, before: seq<T>, start: nat, at: nat, written: seq<T>) {
    && start <= at <= |now| == |before|
    && now[..start] == before[..start] && now[start..at] == written && now[at..] == before[at..]
  }

  lemma HoldsMore<T>(was: seq<T>, now: seq<T>, before: seq<T>, start: nat, at: nat, written: seq<T>, out: seq<T>)
    requires Holds(was, before, start, at, written) && |now| == |was| && at + |out| <= |now|
    requires now[..at] == was[..at] && now[at..at + |out|] == out && now[at + |out|..] == was[at + |out|..]
    ensures Holds(now, before, start, at + |out|, written + out)
  {
    assert now[..start] == now[..at][..start] == was[..at][..start] == was[..start];
    assert now[start..at] == now[..at][start..] == was[..at][start..] == was[start..at];
    assert was[at + |out|..] == was[at..][|out|..] == before[at..][|out|..];
  }

  /** One round of a conversion: it stops, or it reads `size` elements and writes `out`. */
  ghost predicate Stepped<T>(r: Reading<T>, room: nat, result: ConversionResult, size: nat, out: seq<T>) {
    match r
    case Partial => result == SourceExhausted
    case Malformed => result == SourceIllegal
    case Unit(n, o) => if |o| <= room then result == ConversionOK && size == n && out == o else result == TargetExhausted
  }

  /** The call is what the rounds so far and the rounds to come make of it. */
  ghost predicate InCall<S(!new), T>(read: Reader<S, T>, call: Outcome<T>, source: seq<S>, sourceStart: nat, sourcePos: nat, sourceEnd: nat,
                                     now: seq<T>, before: seq<T>, targetStart: nat, targetPos: nat, targetEnd: nat, written: seq<T>) {
    && sourceStart <= sourcePos <= sourceEnd <= |source| && targetStart <= targetPos <= targetEnd
    && Going(read, call, source[sourcePos..sourceEnd], targetEnd - targetPos, sourcePos - sourceStart, written)
    && Holds(now, before, targetStart, targetPos, written)
  }

  lemma BeginCall<S(!new), T>(read: Reader<S, T>, source: seq<S>, sourceStart: nat, sourceEnd: nat, now: seq<T>, targetStart: nat, targetEnd: nat)
    returns (call: Outcome<T>)
    requires Sound(read) && sourceStart <= sourceEnd <= |source| && targetStart <= targetEnd <= |now|
    ensures call == Run(read, source[sourceStart..sourceEnd], targetEnd - targetStart)
    ensures InCall(read, call, source, sourceStart, sourceStart, sourceEnd, now, now, targetStart, targetStart, targetEnd, [])
  {
    call := Run(read, source[sourceStart..sourceEnd], targetEnd - targetStart);
    Begin(read, source[sourceStart..sourceEnd], targetEnd - targetStart);
  }

  lemma NextInCall<S(!new), T>(read: Reader<S, T>, call: Outcome<T>, source: seq<S>, sourceStart: nat, sourcePos: nat, sourceEnd: nat,
                               was: seq<T>, now: seq<T>, before: seq<T>, targetStart: nat, targetPos: nat, targetEnd: nat, written: seq<T>,
                               size: nat, out: seq<T>)
    requires InCall(read, call, source, sourceStart, sourcePos, sourceEnd, was, before, targetStart, targetPos, targetEnd, written)
    requires sourcePos < sourceEnd && targetEnd <= |was| == |now|
    requires Stepped(read(source[sourcePos..sourceEnd]), targetEnd - targetPos, ConversionOK, size, out)
    requires now[..targetPos] == was[..targetPos] && now[targetPos + |out|..] == was[targetPos + |out|..] && now[targetPos..targetPos + |out|] == out
    ensures InCall(read, call, source, sourceStart, sourcePos + size, sourceEnd, now, before, targetStart, targetPos + |out|, targetEnd, written + out)
    ensures 0 < size && sourcePos + size <= sourceEnd && targetPos + |out| <= targetEnd
  {
    hide Holds, Going;
    var src := source[sourcePos..sourceEnd];
    GoOn(read, call, src, targetEnd - targetPos, sourcePos - sourceStart, written, size, out);
    HoldsMore(was, now, before, targetStart, targetPos, written, out);
    assert src[size..] == source[sourcePos + size..sourceEnd];
  }

  lemma EndInCall<S(!new), T>(read: Reader<S, T>, call: Outcome<T>, source: seq<S>, sourceStart: nat, sourcePos: nat, sourceEnd: nat,
                              now: seq<T>, before: seq<T>, targetStart: nat, targetPos: nat, targetEnd: nat, written: seq<T>,
                              result: ConversionResult, size: nat, out: seq<T>)
    requires InCall(read, call, source, sourceStart, sourcePos, sourceEnd, now, before, targetStart, targetPos, targetEnd, written)
    requires sourcePos == sourceEnd ==> result == ConversionOK
    requires sourcePos < sourceEnd ==> result != ConversionOK && Stepped(read(source[sourcePos..sourceEnd]), targetEnd - targetPos, result, size, out)
    ensures call == Outcome(result, sourcePos - sourceStart, written) && Holds(now, before, targetStart, targetPos, call.out)
  {
    End(read, call, source[sourcePos..sourceEnd], targetEnd - targetPos, sourcePos - sourceStart, written, result);
  }

  /** One round of `ConvertUTF8toUTF32`. */
  method Step8to32(source: seq<UTF8>, sourcePos: nat, sourceEnd: nat, target: array<UTF32>, targetPos: nat, targetEnd: nat, flags: ConversionFlags)
    returns (result: ConversionResult, size: nat, num: nat, ghost out: seq<UTF32>)
    requires sourcePos < sourceEnd <= |source| && targetPos <= targetEnd <= target.Length
    modifies target
    ensures Stepped(Read8to32()(source[sourcePos..sourceEnd]), targetEnd - targetPos, result, size, out)
    ensures result != ConversionOK ==> target[..] == old(target[..])
    ensures result == ConversionOK ==>
      && num == |out| <= targetEnd - targetPos && target[targetPos..targetPos + num] == out
      && target[..targetPos] == old(target[..targetPos]) && target[targetPos + num..] == old(target[targetPos + num..])
  {
    ReadersAt8(source[sourcePos..sourceEnd]);
    num, out := 0, [];
    var ch;
    result, ch, size := NextChar8(source, sourcePos, sourceEnd);
    if result != ConversionOK {
      return;
    }
    if targetPos >= targetEnd {
      result := TargetExhausted;
      return;
    }
    if ch <= UNI_MAX_LEGAL_UTF32 {
      if UNI_SUR_HIGH_START <= ch <= UNI_SUR_LOW_END {
        assert false; // no accepted sequence is read as a surrogate
      } else {
        target[targetPos] := ch;
      }
    } else {
      assert false; // nor as anything behind the last plane
    }
    num, out := 1, [ch];
  }

  /** `ConvertUTF8toUTF32` */
  method ConvertUTF8toUTF32(source: seq<UTF8>, sourceStart: nat, sourceEnd: nat, target: array<UTF32>, targetStart: nat, targetEnd: nat, flags: ConversionFlags)
    returns (result: ConversionResult, sourcePos: nat, targetPos: nat)
    requires sourceStart <= sourceEnd <= |source| && targetStart <= targetEnd <= target.Length
    modifies target
    ensures Sound(Read8to32())
    ensures var call := Run(Read8to32(), source[sourceStart..sourceEnd], targetEnd - targetStart);
      && result == call.result && sourcePos == sourceStart + call.used
      && Holds(target[..], old(target[..]), targetStart, targetPos, call.out)
  {
    hide Run, Sound, InCall, Holds, Stepped;
    AllSound(flags);
    ghost var read, before := Read8to32(), target[..];
    ghost var call := BeginCall(read, source, sourceStart, sourceEnd, before, targetStart, targetEnd);
    result, sourcePos, targetPos := ConversionOK, sourceStart, targetStart;
    ghost var written: seq<UTF32> := [];
    while sourcePos < sourceEnd
      invariant sourceStart <= sourcePos <= sourceEnd && targetStart <= targetPos <= targetEnd && result == ConversionOK
      invariant InCall(read, call, source, sourceStart, sourcePos, sourceEnd, target[..], before, targetStart, targetPos, targetEnd, written)
      decreases sourceEnd - sourcePos
    {
      ghost var was := target[..];
      var size, num;
      ghost var out;
      result, size, num, out := Step8to32(source, sourcePos, sourceEnd, target, targetPos, targetEnd, flags);
      if result != ConversionOK {
        EndInCall(read, call, source, sourceStart, sourcePos, sourceEnd, target[..], before, targetStart, targetPos, targetEnd, written, result, size, out);
        return;
      }
      NextInCall(read, call, source, sourceStart, sourcePos, sourceEnd, was, target[..], before, targetStart, targetPos, targetEnd, written, size, out);
      sourcePos, targetPos, written := sourcePos + size, targetPos + num, written + out;
    }
    EndInCall(read, call, source, sourceStart, sourcePos, sourceEnd, target[..], before, targetStart, targetPos, targetEnd, written, result, 0, []);
  }

  /** One round of `ConvertUTF8toUTF16`. */
  method Step8to16(source: seq<UTF8>, sourcePos: nat, sourceEnd: nat, target: array<UTF16>, targetPos: nat, targetEnd: nat, flags: ConversionFlags)
    returns (result: ConversionResult, size: nat, num: nat, ghost out: seq<UTF16>)
    requires sourcePos < sourceEnd <= |source| && targetPos <= targetEnd <= target.Length
    modifies target
    ensures Stepped(Read8to16()(source[sourcePos..sourceEnd]), targetEnd - targetPos, result, size, out)
    ensures result != ConversionOK ==> target[..] == old(target[..])
    ensures result == ConversionOK ==>
      && num == |out| <= targetEnd - targetPos && target[targetPos..targetPos + num] == out
      && target[..targetPos] == old(target[..targetPos]) && target[targetPos + num..] == old(target[targetPos + num..])
  {
    ReadersAt8(source[sourcePos..sourceEnd]);
    num, out := 0, [];
    var ch;
    result, ch, size := NextChar8(source, sourcePos, sourceEnd);
    if result != ConversionOK {
      return;
    }
    FlatOne(Enc16, ch);
    if targetPos >= targetEnd {
      result := TargetExhausted;
      return;
    }
    if ch <= UNI_MAX_BMP {
      if UNI_SUR_HIGH_START <= ch <= UNI_SUR_LOW_END {
        assert false; // no accepted sequence is read as a surrogate
      } else {
        target[targetPos] := ch;
        num := 1;
      }
    } else if ch > UNI_MAX_LEGAL_UTF32 {
      assert false; // nor as anything behind the last plane
    } else {
      if targetPos + 1 >= targetEnd {
        result := TargetExhausted;
        return;
      }
      target[targetPos] := (ch - HALF_BASE) / 0x400 + UNI_SUR_HIGH_START;
      target[targetPos + 1] := (ch - HALF_BASE) % 0x400 + UNI_SUR_LOW_START;
      num := 2;
    }
    out := Enc16(ch);
  }

  /** `ConvertUTF8toUTF16` */
  method ConvertUTF8toUTF16(source: seq<UTF8>, sourceStart: nat, sourceEnd: nat, target: array<UTF16>, targetStart: nat, targetEnd: nat, flags: ConversionFlags)
    returns (result: ConversionResult, sourcePos: nat, targetPos: nat)
    requires sourceStart <= sourceEnd <= |source| && targetStart <= targetEnd <= target.Length
    modifies target
    ensures Sound(Read8to16())
    ensures var call := Run(Read8to16(), source[sourceStart..sourceEnd], targetEnd - targetStart);
      && result == call.result && sourcePos == sourceStart + call.used
      && Holds(target[..], old(target[..]), targetStart, targetPos, call.out)
  {
    hide Run, Sound, InCall, Holds, Stepped;
    AllSound(flags);
    ghost var read, before := Read8to16(), target[..];
    ghost var call := BeginCall(read, source, sourceStart, sourceEnd, before, targetStart, targetEnd);
    result, sourcePos, targetPos := ConversionOK, sourceStart, targetStart;
    ghost var written: seq<UTF16> := [];
    while sourcePos < sourceEnd
      invariant sourceStart <= sourcePos <= sourceEnd && targetStart <= targetPos <= targetEnd && result == ConversionOK
      invariant InCall(read, call, source, sourceStart, sourcePos, sourceEnd, target[..], before, targetStart, targetPos, targetEnd, written)
      decreases sourceEnd - sourcePos
    {
      ghost var was := target[..];
      var size, num;
      ghost var out;
      result, size, num, out := Step8to16(source, sourcePos, sourceEnd, target, targetPos, targetEnd, flags);
      if result != ConversionOK {
        EndInCall(read, call, source, sourceStart, sourcePos, sourceEnd, target[..], before, targetStart, targetPos, targetEnd, written, result, size, out);
        return;
      }
      NextInCall(read, call, source, sourceStart, sourcePos, sourceEnd, was, target[..], before, targetStart, targetPos, targetEnd, written, size, out);
      sourcePos, targetPos, written := sourcePos + size, targetPos + num, written + out;
    }
    EndInCall(read, call, source, sourceStart, sourcePos, sourceEnd, target[..], before, targetStart, targetPos, targetEnd, written, result, 0, []);
  }

  /** One round of `ConvertUTF16toUTF32`. */
  method Step16to32(source: seq<UTF16>, sourcePos: nat, sourceEnd: nat, target: array<UTF32>, targetPos: nat, targetEnd: nat, flags: ConversionFlags)
    returns (result: ConversionResult, size: nat, num: nat, ghost out: seq<UTF32>)
    requires sourcePos < sourceEnd <= |source| && targetPos <= targetEnd <= target.Length
    modifies target
    ensures Stepped(Read16to32(flags)(source[sourcePos..sourceEnd]), targetEnd - targetPos, result, size, out)
    ensures result != ConversionOK ==> target[..] == old(target[..])
    ensures result == ConversionOK ==>
      && num == |out| <= targetEnd - targetPos && target[targetPos..targetPos + num] == out
      && target[..targetPos] == old(target[..targetPos]) && target[targetPos + num..] == old(target[targetPos + num..])
  {
    ReadersAt16(source[sourcePos..sourceEnd], flags);
    num, out := 0, [];
    var ch;
    result, ch, size := NextChar16(source, sourcePos, sourceEnd, flags);
    if result != ConversionOK {
      return;
    }
    if targetPos >= targetEnd {
      result := TargetExhausted;
      return;
    }
    target[targetPos] := ch;
    num, out := 1, [ch];
  }

  /** `ConvertUTF16toUTF32` */
  method ConvertUTF16toUTF32(source: seq<UTF16>, sourceStart: nat, sourceEnd: nat, target: array<UTF32>, targetStart: nat, targetEnd: nat, flags: ConversionFlags)
    returns (result: ConversionResult, sourcePos: nat, targetPos: nat)
    requires sourceStart <= sourceEnd <= |source| && targetStart <= targetEnd <= target.Length
    modifies target
    ensures Sound(Read16to32(flags))
    ensures var call := Run(Read16to32(flags), source[sourceStart..sourceEnd], targetEnd - targetStart);
      && result == call.result && sourcePos == sourceStart + call.used
      && Holds(target[..], old(target[..]), targetStart, targetPos, call.out)
  {
    hide Run, Sound, InCall, Holds, Stepped;
    AllSound(flags);
    ghost var read, before := Read16to32(flags), target[..];
    ghost var call := BeginCall(read, source, sourceStart, sourceEnd, before, targetStart, targetEnd);
    result, sourcePos, targetPos := ConversionOK, sourceStart, targetStart;
    ghost var written: seq<UTF32> := [];
    while sourcePos < sourceEnd
      invariant sourceStart <= sourcePos <= sourceEnd && targetStart <= targetPos <= targetEnd && result == ConversionOK
      invariant InCall(read, call, source, sourceStart, sourcePos, sourceEnd, target[..], before, targetStart, targetPos, targetEnd, written)
      decreases sourceEnd - sourcePos
    {
      ghost var was := target[..];
      var size, num;
      ghost var out;
      result, size, num, out := Step16to32(source, sourcePos, sourceEnd, target, targetPos, targetEnd, flags);
      if result != ConversionOK {
        EndInCall(read, call, source, sourceStart, sourcePos, sourceEnd, target[..], before, targetStart, targetPos, targetEnd, written, result, size, out);
        return;
      }
      NextInCall(read, call, source, sourceStart, sourcePos, sourceEnd, was, target[..], before, targetStart, targetPos, targetEnd, written, size, out);
      sourcePos, targetPos, written := sourcePos + size, targetPos + num, written + out;
    }
    EndInCall(read, call, source, sourceStart, sourcePos, sourceEnd, target[..], before, targetStart, targetPos, targetEnd, written, result, 0, []);
  }

  /** One round of `ConvertUTF16toUTF8`. */
  method Step16to8(source: seq<UTF16>, sourcePos: nat, sourceEnd: nat, target: array<UTF8>, targetPos: nat, targetEnd: nat, flags: ConversionFlags)
    returns (result: ConversionResult, size: nat, num: nat, ghost out: seq<UTF8>)
    requires sourcePos < sourceEnd <= |source| && targetPos <= targetEnd <= target.Length
    modifies target
    ensures Stepped(Read16to8(flags)(source[sourcePos..sourceEnd]), targetEnd - targetPos, result, size, out)
    ensures result != ConversionOK ==> target[..] == old(target[..])
    ensures result == ConversionOK ==>
      && num == |out| <= targetEnd - targetPos && target[targetPos..targetPos + num] == out
      && target[..targetPos] == old(target[..targetPos]) && target[targetPos + num..] == old(target[targetPos + num..])
  {
    ReadersAt16(source[sourcePos..sourceEnd], flags);
    num, out := 0, [];
    var ch;
    result, ch, size := NextChar16(source, sourcePos, sourceEnd, flags);
    if result != ConversionOK {
      return;
    }
    FlatOne(Enc8, ch);
    var bytesToWrite := BytesToWrite(ch);
    if targetPos + bytesToWrite > targetEnd {
      result := TargetExhausted;
      return;
    }
    PutBytes(ch, bytesToWrite, target, targetPos);
    num, out := bytesToWrite, Enc8(ch);
  }

  /** `ConvertUTF16toUTF8` */
  method ConvertUTF16toUTF8(source: seq<UTF16>, sourceStart: nat, sourceEnd: nat, target: array<UTF8>, targetStart: nat, targetEnd: nat, flags: ConversionFlags)
    returns (result: ConversionResult, sourcePos: nat, targetPos: nat)
    requires sourceStart <= sourceEnd <= |source| && targetStart <= targetEnd <= target.Length
    modifies target
    ensures Sound(Read16to8(flags))
    ensures var call := Run(Read16to8(flags), source[sourceStart..sourceEnd], targetEnd - targetStart);
      && result == call.result && sourcePos == sourceStart + call.used
      && Holds(target[..], old(target[..]), targetStart, targetPos, call.out)
  {
    hide Run, Sound, InCall, Holds, Stepped;
    AllSound(flags);
    ghost var read, before := Read16to8(flags), target[..];
    ghost var call := BeginCall(read, source, sourceStart, sourceEnd, before, targetStart, targetEnd);
    result, sourcePos, targetPos := ConversionOK, sourceStart, targetStart;
    ghost var written: seq<UTF8> := [];
    while sourcePos < sourceEnd
      invariant sourceStart <= sourcePos <= sourceEnd && targetStart <= targetPos <= targetEnd && result == ConversionOK
      invariant InCall(read, call, source, sourceStart, sourcePos, sourceEnd, target[..], before, targetStart, targetPos, targetEnd, written)
      decreases sourceEnd - sourcePos
    {
      ghost var was := target[..];
      var size, num;
      ghost var out;
      result, size, num, out := Step16to8(source, sourcePos, sourceEnd, target, targetPos, targetEnd, flags);
      if result != ConversionOK {
        EndInCall(read, call, source, sourceStart, sourcePos, sourceEnd, target[..], before, targetStart, targetPos, targetEnd, written, result, size, out);
        return;
      }
      NextInCall(read, call, source, sourceStart, sourcePos, sourceEnd, was, target[..], before, targetStart, targetPos, targetEnd, written, size, out);
      sourcePos, targetPos, written := sourcePos + size, targetPos + num, written + out;
    }
    EndInCall(read, call, source, sourceStart, sourcePos, sourceEnd, target[..], before, targetStart, targetPos, targetEnd, written, result, 0, []);
  }
}
