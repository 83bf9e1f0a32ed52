/**
 * What the readers take the beginning of a text for, and what a result says of the text: told from the forms of the
 * scalar values alone.
 */
module UtfMeaning {
  import opened UtfCodec
  import opened UtfStream
  import opened ConvertUTF
  import opened ConvertUTF32
  import opened UtfReverse

  // ----- the forms of a value -----

  lemma ScalarIff(ch: UTF32)
    ensures IsScalar(ch) <==> ch < 0xD800 || 0xDFFF < ch <= 0x10FFFF
  {
  }

  /** The value of two halves. */
  ghost function OfHalves(high: int, low: int): int { 0x1_0000 + (high - 0xD800) * 0x400 + (low - 0xDC00) }

  /** The values of two, three and four bytes: six bits from each but the first. */
  ghost function Of2(a: int, b: int): int { (a - 0xC0) * 0x40 + (b - 0x80) }
  ghost function Of3(a: int, b: int, c: int): int { (a - 0xE0) * 0x1000 + (b - 0x80) * 0x40 + (c - 0x80) }
  ghost function Of4(a: int, b: int, c: int, d: int): int { (a - 0xF0) * 0x4_0000 + (b - 0x80) * 0x1000 + (c - 0x80) * 0x40 + (d - 0x80) }

  /** RFC 2781, section 2.1: the one or two halves of a value; the replacement character for a value that is too large. */
  lemma Form16(ch: UTF32)
    ensures ch <= 0xFFFF ==> Enc16(ch) == [ch]
    ensures 0xFFFF < ch <= 0x10FFFF ==>
      var s := Enc16(ch);
      && |s| == 2 && 0xD800 <= s[0] <= 0xDBFF && 0xDC00 <= s[1] <= 0xDFFF
      && ch == OfHalves(s[0], s[1])
    ensures 0x10FFFF < ch ==> Enc16(ch) == [0xFFFD]
  {
  }

  ghost predicate Tail(b: UTF8) { 0x80 <= b <= 0xBF }

  /** RFC 3629, section 3: the one to four bytes of a value; those of the replacement character for a value that is too large. */
  lemma Form8(ch: UTF32)
    ensures ch <= 0x7F ==> Enc8(ch) == [ch]
    ensures 0x7F < ch <= 0x7FF ==>
      var s := Enc8(ch); |s| == 2 && 0xC2 <= s[0] <= 0xDF && Tail(s[1]) && ch == Of2(s[0], s[1])
    ensures 0x7FF < ch <= 0xFFFF ==>
      var s := Enc8(ch);
      && |s| == 3 && 0xE0 <= s[0] <= 0xEF && Tail(s[1]) && Tail(s[2])
      && ch == Of3(s[0], s[1], s[2])
    ensures 0xFFFF < ch <= 0x10FFFF ==>
      var s := Enc8(ch);
      && |s| == 4 && 0xF0 <= s[0] <= 0xF4 && Tail(s[1]) && Tail(s[2]) && Tail(s[3])
      && ch == Of4(s[0], s[1], s[2], s[3])
    ensures 0x10FFFF < ch ==> Enc8(ch) == [0xEF, 0xBF, 0xBD]
  {
    Digits(ch);
    DivDiv(ch);
  }

  // ----- UTF-16 -----

  /** The text begins with the form of a scalar value. */
  ghost predicate BeginsScalar16(s: seq<UTF16>) {
    exists ch: UTF32 :: IsScalar(ch) && Enc16(ch) <= s
  }

  /** The text is the beginning of such a form, and not all of it. */
  ghost predicate CutScalar16(s: seq<UTF16>) {
    exists ch: UTF32 :: IsScalar(ch) && s < Enc16(ch)
  }

  /**
   * A strict reader takes the scalar value whose form the text begins with; it is exhausted exactly if the text
   * breaks off in a form; in all other cases, and in no others, the text is malformed.
   */
  lemma StrictReads16(s: seq<UTF16>)
    requires s != []
    ensures var r := Char16(s, StrictConversion);
      && (r.Unit? <==> BeginsScalar16(s))
      && (forall ch: UTF32 | IsScalar(ch) && Enc16(ch) <= s :: r == Unit(|Enc16(ch)|, [ch]))
      && (r.Partial? <==> CutScalar16(s))
  {
    var r := Char16(s, StrictConversion);
    forall ch: UTF32 | IsScalar(ch) && Enc16(ch) <= s ensures r == Unit(|Enc16(ch)|, [ch]) {
      assert s == Enc16(ch) + s[|Enc16(ch)|..];
      Reads16(ch, s[|Enc16(ch)|..], StrictConversion);
    }
    if r.Unit? {
      UnitIsForm16(s);
    }
    if IsHigh(s[0]) && |s| == 1 {
      var ch := JoinHalves(s[0], 0xDC00);
      JoinSplit(s[0], 0xDC00);
      assert s < Enc16(ch) == [s[0], 0xDC00];
    }
    forall ch: UTF32 | IsScalar(ch) && s < Enc16(ch) ensures r.Partial? {
      Form16(ch);
      assert |s| == 1 && s[0] == Enc16(ch)[0];
    }
  }

  lemma UnitIsForm16(s: seq<UTF16>)
    requires s != [] && Char16(s, StrictConversion).Unit?
    ensures BeginsScalar16(s)
  {
    var ch := Char16(s, StrictConversion).out[0];
    if IsHigh(s[0]) {
      JoinSplit(s[0], s[1]);
      assert Enc16(ch) == [s[0], s[1]] == s[..2];
    } else {
      assert Enc16(ch) == [s[0]] == s[..1];
    }
    assert IsScalar(ch) && Enc16(ch) <= s;
  }

  /** A lenient reader differs where a strict one stops for malformed text only: it takes the unpaired half for a value. */
  lemma LenientReads16(s: seq<UTF16>)
    requires s != []
    ensures var strict := Char16(s, StrictConversion);
      Char16(s, LenientConversion) == if strict.Malformed? then Unit(1, [s[0]]) else strict
  {
  }

  // ----- UTF-8 -----

  /** The bytes that the first byte of the text announces, itself included. */
  ghost function Announced(b: UTF8): nat {
    if b < 0xC0 then 1 else if b < 0xE0 then 2 else if b < 0xF0 then 3 else if b < 0xF8 then 4 else if b < 0xFC then 5 else 6
  }

  ghost predicate BeginsScalar8(s: seq<UTF8>) {
    exists ch: UTF32 :: IsScalar(ch) && Enc8(ch) <= s
  }

  /** The text begins with ED or F4 and a byte below 80, which no form does, followed by the tails that are missing. */
  ghost predicate BeginsSlip3(s: seq<UTF8>) {
    |s| >= 3 && s[0] == 0xED && s[1] < 0x80 && Tail(s[2])
  }

  ghost predicate BeginsSlip4(s: seq<UTF8>) {
    |s| >= 4 && s[0] == 0xF4 && s[1] < 0x80 && Tail(s[2]) && Tail(s[3])
  }

  /**
   * A reader of UTF-8 is exhausted exactly if the text is shorter than its first byte announces. Otherwise it takes
   * the scalar value whose form the text begins with, or the value of one of the two slips; all other text is malformed.
   */
  lemma Reads8AsForm(s: seq<UTF8>)
    requires s != []
    ensures Char8(s).Partial? <==> |s| < Announced(s[0])
    ensures Char8(s).Unit? <==> BeginsScalar8(s) || BeginsSlip3(s) || BeginsSlip4(s)
    ensures forall ch: UTF32 | IsScalar(ch) && Enc8(ch) <= s :: Char8(s) == Unit(|Enc8(ch)|, [ch])
    ensures BeginsSlip3(s) ==> IsRead(Char8(s), 3, Of3(s[0], s[1], s[2]))
    ensures BeginsSlip4(s) ==> IsRead(Char8(s), 4, Of4(s[0], s[1], s[2], s[3]))
  {
    hide Char8, BeginsSlip3, BeginsSlip4, Encode8;
    forall ch: UTF32 | IsScalar(ch) && Enc8(ch) <= s ensures Char8(s) == Unit(|Enc8(ch)|, [ch]) {
      FormIsRead(s, ch);
    }
    ReadIsForm(s);
    SlipIsRead(s);
  }

  ghost predicate IsRead(r: Reading<UTF32>, used: nat, ch: int) {
    r.Unit? && r.used == used && |r.out| == 1 && r.out[0] == ch
  }

  lemma FormIsRead(s: seq<UTF8>, ch: UTF32)
    requires IsScalar(ch) && Enc8(ch) <= s
    ensures Char8(s) == Unit(|Enc8(ch)|, [ch])
  {
    assert s == Enc8(ch) + s[|Enc8(ch)|..];
    Reads8(ch, s[|Enc8(ch)|..]);
  }

  lemma ReadIsForm(s: seq<UTF8>)
    requires s != []
    ensures Char8(s).Partial? <==> |s| < Announced(s[0])
    ensures Char8(s).Unit? ==> BeginsScalar8(s) || BeginsSlip3(s) || BeginsSlip4(s)
  {
    hide Decode8, Encode8, IsChar, IsSlip;
    if Trailing(s[0]) < |s| {
      var c := s[..Trailing(s[0]) + 1];
      if IsChar(c) {
        CharDecodes(c);
        assert Enc8(Decode8(c)) == c <= s;
      } else {
        SlipIff(s, c);
      }
    }
  }

  lemma SlipIsRead(s: seq<UTF8>)
    ensures BeginsSlip3(s) ==> IsRead(Char8(s), 3, Of3(s[0], s[1], s[2]))
    ensures BeginsSlip4(s) ==> IsRead(Char8(s), 4, Of4(s[0], s[1], s[2], s[3]))
  {
    hide Decode8, IsChar, IsSlip;
    if BeginsSlip3(s) || BeginsSlip4(s) {
      var c := s[..Trailing(s[0]) + 1];
      SlipIff(s, c);
      SlipValue(c);
      assert IsAccepted(c);
    }
  }

  lemma SlipIff(s: seq<UTF8>, c: seq<UTF8>)
    requires s != [] && Trailing(s[0]) < |s| && c == s[..Trailing(s[0]) + 1]
    ensures IsSlip(c) <==> BeginsSlip3(s) || BeginsSlip4(s)
    ensures BeginsSlip3(s) ==> |c| == 3
    ensures BeginsSlip4(s) ==> |c| == 4
  {
  }

  lemma SlipValue(c: seq<UTF8>)
    requires IsSlip(c)
    ensures Decode8(c) == if |c| == 3 then Of3(c[0], c[1], c[2]) else Of4(c[0], c[1], c[2], c[3])
  {
    hide Gather;
    GatherFew(c);
  }

  /** No byte that is there rules out that the text goes on to a character. */
  ghost predicate Hopeful(s: seq<UTF8>)
    requires s != []
  {
    && 0xC2 <= s[0] <= 0xF4
    && (|s| >= 2 ==> (if s[0] == 0xE0 then 0xA0 else if s[0] == 0xF0 then 0x90 else if s[0] == 0xED || s[0] == 0xF4 then 0 else 0x80) <= s[1])
    && (|s| >= 2 ==> s[1] <= (if s[0] == 0xED then 0x9F else if s[0] == 0xF4 then 0x8F else 0xBF))
    && (|s| >= 3 ==> Tail(s[2]))
  }

  /** Bytes behind which the text has all that its first byte announces, and a character if that is possible. */
  ghost function Filling(s: seq<UTF8>): seq<UTF8>
    requires s != []
  {
    var second: UTF8 := if s[0] == 0xE0 then 0xA0 else if s[0] == 0xF0 then 0x90 else 0x80;
    (if |s| == 1 then [second] else []) + [0x80, 0x80]
  }

  /** Text that breaks off can go on to a character exactly if none of its bytes rules that out: exhausted text may be beyond help. */
  lemma PartialGoesOnIff(s: seq<UTF8>)
    requires s != [] && Char8(s).Partial?
    ensures (exists more :: Char8(s + more).Unit?) <==> Hopeful(s)
  {
    hide Decode8;
    if Hopeful(s) {
      FillingCompletes(s);
    }
    forall more | Char8(s + more).Unit? ensures Hopeful(s) {
      GoesOnHopeful(s, more);
    }
  }

  lemma FillingCompletes(s: seq<UTF8>)
    requires s != [] && Char8(s).Partial? && Hopeful(s)
    ensures Char8(s + Filling(s)).Unit?
  {
    hide Decode8;
    var t := s + Filling(s);
    var c := t[..Trailing(s[0]) + 1];
    assert IsAccepted(c);
  }

  lemma GoesOnHopeful(s: seq<UTF8>, more: seq<UTF8>)
    requires s != [] && Char8(s).Partial? && Char8(s + more).Unit?
    ensures Hopeful(s)
  {
    hide Decode8;
    var t := s + more;
    var c := t[..Trailing(s[0]) + 1];
    assert IsAccepted(c);
    assert s == c[..|s|];
  }

  lemma BeyondHelp()
    ensures Char8([0xC0]).Partial? && Char8([0xE0, 0x41]).Partial?
    ensures forall more :: !Char8([0xC0] + more).Unit? && !Char8([0xE0, 0x41] + more).Unit?
  {
    PartialGoesOnIff([0xC0]);
    PartialGoesOnIff([0xE0, 0x41]);
  }

  // ----- what the result of a call says -----

  /** A call ends at the end of the source, or in front of text that is no whole unit, or of a unit that does not fit. */
  lemma {:induction false} CallEnds<S(!new), T>(read: Reader<S, T>, src: seq<S>, room: nat)
    requires Sound(read)
    ensures var r := Run(read, src, room);
      && (r.result == ConversionOK <==> r.used == |src|)
      && (r.used < |src| ==>
            var next := read(src[r.used..]);
            && (r.result == SourceExhausted <==> next.Partial?)
            && (r.result == SourceIllegal <==> next.Malformed?)
            && (r.result == TargetExhausted <==> next.Unit?)
            && (next.Unit? ==> |r.out| + |next.out| > room))
    decreases |src|
  {
    hide Sound;
    if src != [] && read(src).Unit? && |read(src).out| <= room {
      var used, out := read(src).used, read(src).out;
      RunStep(read, src, room, used, out);
      CallEnds(read, src[used..], room - |out|);
      var rest := Run(read, src[used..], room - |out|);
      if rest.used < |src[used..]| {
        assert src[used..][rest.used..] == src[used + rest.used..];
      }
    } else if src != [] {
      assert src[0..] == src;
    }
  }

  /**
   * A strict conversion from UTF-16, whatever it converts to: it has read the forms of scalar values, and its result says
   * what is behind them: nothing, a form that breaks off, or text that neither is a form nor can become one.
   */
  lemma StrictResult16(halves: seq<UTF16>)
    ensures Sound(Read16to32(StrictConversion))
    ensures var w := Whole(Read16to32(StrictConversion), halves);
      && AllScalar(w.out) && halves[..w.used] == Flat(Written16(), w.out)
      && (w.result == ConversionOK <==> w.used == |halves|)
      && (w.result == SourceExhausted <==> w.used < |halves| && CutScalar16(halves[w.used..]))
      && (w.result == SourceIllegal <==>
            w.used < |halves| && !BeginsScalar16(halves[w.used..]) && !CutScalar16(halves[w.used..]))
  {
    Reverse16(halves);
    StrictYieldsScalars(halves);
    WholeEnds(Read16to32(StrictConversion), halves);
    var w := Whole(Read16to32(StrictConversion), halves);
    if w.used < |halves| {
      StrictReads16(halves[w.used..]);
      ReadersAt16(halves[w.used..], StrictConversion);
    }
  }

  /** The half at `i` has its other half beside it, the high one in front of the low one. */
  ghost predicate Paired(s: seq<UTF16>, i: nat)
    requires i < |s|
  {
    || (0xD800 <= s[i] <= 0xDBFF && i + 1 < |s| && 0xDC00 <= s[i + 1] <= 0xDFFF)
    || (0xDC00 <= s[i] <= 0xDFFF && i > 0 && 0xD800 <= s[i - 1] <= 0xDBFF)
  }

  ghost predicate AllPaired(s: seq<UTF16>, n: nat)
    requires n <= |s|
  {
    forall i | 0 <= i < n && 0xD800 <= s[i] <= 0xDFFF :: Paired(s, i)
  }

  /** What a lenient conversion has used has no unpaired surrogate exactly if every surrogate in it has its other half beside it. */
  lemma {:induction false} NoneUnpairedIff(s: seq<UTF16>)
    requires Sound(Read16to32(LenientConversion))
    ensures NoneUnpaired(s) <==> AllPaired(s, Whole(Read16to32(LenientConversion), s).used)
    decreases |s|
  {
    var read := Read16to32(LenientConversion);
    if s != [] && Char16(s, LenientConversion).Unit? {
      var used, out := read(s).used, read(s).out;
      WholeStep(read, s, used, out);
      NoneUnpairedIff(s[used..]);
      if used == 2 || !(0xD800 <= s[0] <= 0xDFFF) {
        PairedBehind(s, used, Whole(read, s).used);
      } else {
        assert !Paired(s, 0);
      }
    }
  }

  lemma PairedBehind(s: seq<UTF16>, k: nat, n: nat)
    requires 1 <= k <= n <= |s| && (k == 1 || k == 2)
    requires if k == 1 then !(0xD800 <= s[0] <= 0xDFFF) else 0xD800 <= s[0] <= 0xDBFF && 0xDC00 <= s[1] <= 0xDFFF
    ensures AllPaired(s, n) <==> AllPaired(s[k..], n - k)
  {
    forall j | 0 <= j < n - k ensures Paired(s[k..], j) <==> Paired(s, k + j) {
    }
    if AllPaired(s[k..], n - k) {
      forall i | 0 <= i < n && 0xD800 <= s[i] <= 0xDFFF ensures Paired(s, i) {
        if i >= k {
          assert s[i] == s[k..][i - k];
          assert Paired(s[k..], i - k);
        }
      }
    }
    if AllPaired(s, n) {
      forall j | 0 <= j < n - k && 0xD800 <= s[k..][j] <= 0xDFFF ensures Paired(s[k..], j) {
        assert Paired(s, k + j);
      }
    }
  }

  /** A conversion from UTF-8: its result says that nothing is left, that bytes are missing, or that the bytes are no character. */
  lemma Result8(bytes: seq<UTF8>)
    ensures Sound(Read8to32())
    ensures var w := Whole(Read8to32(), bytes);
      && (w.result == ConversionOK <==> w.used == |bytes|)
      && (w.result == SourceExhausted <==> w.used < |bytes| && |bytes| - w.used < Announced(bytes[w.used]))
      && (w.result == SourceIllegal <==>
            var rest := bytes[w.used..];
            rest != [] && Announced(rest[0]) <= |rest| && !BeginsScalar8(rest) && !BeginsSlip3(rest) && !BeginsSlip4(rest))
  {
    AllSound(StrictConversion);
    WholeEnds(Read8to32(), bytes);
    var w := Whole(Read8to32(), bytes);
    if w.used < |bytes| {
      Reads8AsForm(bytes[w.used..]);
      ReadersAt8(bytes[w.used..]);
    }
  }

  lemma {:induction false} WholeEnds<S(!new), T>(read: Reader<S, T>, src: seq<S>)
    requires Sound(read)
    ensures var w := Whole(read, src);
      && (w.result == ConversionOK <==> w.used == |src|)
      && (w.used < |src| ==>
            && (w.result == SourceExhausted <==> read(src[w.used..]).Partial?)
            && (w.result == SourceIllegal <==> read(src[w.used..]).Malformed?)
            && !read(src[w.used..]).Unit?)
    decreases |src|
  {
    hide Sound;
    if src != [] && read(src).Unit? {
      var used, out := read(src).used, read(src).out;
      WholeStep(read, src, used, out);
      WholeEnds(read, src[used..]);
      var rest := Whole(read, src[used..]);
      if rest.used < |src[used..]| {
        assert src[used..][rest.used..] == src[used + rest.used..];
      }
    } else if src != [] {
      assert src[0..] == src;
    }
  }

  // ----- UTF-32 -----

  /** Which values the conversions stop at, which spoil the result, and what they write for the others. */
  lemma Rules16Say(ch: UTF32, flags: ConversionFlags)
    ensures var rules, strict := Rules16(flags), flags == StrictConversion;
      && ((rules.stops)(ch) <==> strict && 0xD800 <= ch <= 0xDFFF)
      && ((rules.bad)(ch) <==> strict && 0x10FFFF < ch)
      && (0xD800 <= ch <= 0xDFFF ==> (rules.enc)(ch) == [0xFFFD])
      && (0x10FFFF < ch ==> (rules.enc)(ch) == if strict then [] else [0xFFFD])
      && (IsScalar(ch) ==> (rules.enc)(ch) == Enc16(ch))
  {
  }

  lemma Rules8Say(ch: UTF32, flags: ConversionFlags)
    ensures var rules := Rules8(flags);
      && ((rules.stops)(ch) <==> flags == StrictConversion && 0xD800 <= ch <= 0xDFFF)
      && ((rules.bad)(ch) <==> 0x10FFFF < ch)
      && (0x10FFFF < ch ==> (rules.enc)(ch) == [0xEF, 0xBF, 0xBD])
      && (ch <= 0x10FFFF ==> (rules.enc)(ch) == Enc8(ch))
  {
    Form8(ch);
  }

  /** Without room the conversion to UTF-16 looks at no value; the one to UTF-8 still stops at a surrogate. */
  lemma NoRoom(src: seq<UTF32>, flags: ConversionFlags, carry: ConversionResult)
    requires src != []
    ensures Run32(Rules16(flags), src, 0, carry) == Outcome(TargetExhausted, 0, [])
    ensures Run32(Rules8(flags), src, 0, carry) ==
      Outcome(if flags == StrictConversion && 0xD800 <= src[0] <= 0xDFFF then SourceIllegal else TargetExhausted, 0, [])
  {
    assert (Rules8(flags).enc)(src[0]) == Enc8(src[0]);
  }
}
