/** Text that is read and written again: when it comes out as it was. */
module UtfReverse {
  import opened UtfCodec
  import opened UtfStream
  import opened ConvertUTF
  import opened ConvertUTF32

  /** Every unit at the beginning of the source is what is written for its characters. */
  ghost predicate Kept<T(!new)>(read: Reader<T, UTF32>, enc: UTF32 -> seq<T>, s: seq<T>)
    requires Sound(read)
    decreases |s|
  {
    s != [] && read(s).Unit? ==>
      assert SoundAt(read, s);
      Flat(enc, read(s).out) == s[..read(s).used] && Kept(read, enc, s[read(s).used..])
  }

  /** What is written for a unit is as long as the unit. */
  ghost predicate SameLength<T(!new)>(read: Reader<T, UTF32>, enc: UTF32 -> seq<T>) {
    forall s | s != [] && read(s).Unit? :: |Flat(enc, read(s).out)| == read(s).used
  }

  lemma Aligned<T>(a: seq<T>, b: seq<T>, x: seq<T>, y: seq<T>)
    requires |a| == |x|
    ensures a + b == x + y <==> a == x && b == y
  {
    if a + b == x + y {
      assert a == (a + b)[..|a|] && x == (x + y)[..|x|];
      assert b == (a + b)[|a|..] && y == (x + y)[|x|..];
    }
  }

  /** The used part of a text comes out as it was if and only if each of its units does. */
  lemma {:induction false} ReverseIff<T(!new)>(read: Reader<T, UTF32>, enc: UTF32 -> seq<T>, s: seq<T>)
    requires Sound(read) && SameLength(read, enc)
    ensures Flat(enc, Whole(read, s).out) == s[..Whole(read, s).used] <==> Kept(read, enc, s)
    decreases |s|
  {
    hide SameLength;
    if s != [] && read(s).Unit? {
      var used, out := read(s).used, read(s).out;
      WholeStep(read, s, used, out);
      var rest := Whole(read, s[used..]);
      ReverseIff(read, enc, s[used..]);
      FlatConcat(enc, out, rest.out);
      assert s[..used + rest.used] == s[..used] + s[used..][..rest.used];
      UnitLength(read, enc, s);
      Aligned(Flat(enc, out), Flat(enc, rest.out), s[..used], s[used..][..rest.used]);
    }
  }

  lemma UnitLength<T(!new)>(read: Reader<T, UTF32>, enc: UTF32 -> seq<T>, s: seq<T>)
    requires SameLength(read, enc) && s != [] && read(s).Unit?
    ensures |Flat(enc, read(s).out)| == read(s).used
  {
  }

  // ----- UTF-8 -----

  /** No character of the text is one of the sequences outside of the grammar that are accepted. */
  ghost predicate NoSlips(s: seq<UTF8>)
    decreases |s|
  {
    s != [] && Char8(s).Unit? ==> !IsSlip(s[..Char8(s).used]) && NoSlips(s[Char8(s).used..])
  }

  /** What is written for an accepted sequence is as long, and is the sequence unless that is a slip. */
  lemma UnitRewritten8(s: seq<UTF8>)
    requires s != [] && Char8(s).Unit?
    ensures var c := s[..Char8(s).used];
      |Flat(Enc8, Char8(s).out)| == |c| && (Flat(Enc8, Char8(s).out) == c <==> !IsSlip(c))
  {
    hide Gather, Decode8, Encode8;
    var c := s[..Trailing(s[0]) + 1];
    AcceptedDecodes(c);
    FlatOne(Enc8, Decode8(c));
    SlipNoChar(c);
    if IsChar(c) {
      CharDecodes(c);
    } else {
      SlipLength(c);
    }
  }

  lemma SlipNoChar(c: seq<UTF8>)
    requires IsAccepted(c)
    ensures IsChar(c) <==> !IsSlip(c)
  {
  }

  lemma SlipLength(c: seq<UTF8>)
    requires IsSlip(c)
    ensures 0 <= Decode8(c) <= UNI_MAX_LEGAL_UTF32 && BytesToWrite(Decode8(c)) == |c|
  {
    GatherFew(c);
  }

  /** UTF-8 text, read and written again, is what it was if and only if no sequence outside of the grammar was accepted in it. */
  lemma Reverse8(bytes: seq<UTF8>)
    ensures Sound(Read8to32())
    ensures var w := Whole(Read8to32(), bytes); Flat(Enc8, w.out) == bytes[..w.used] <==> NoSlips(bytes)
  {
    AllSound(StrictConversion);
    forall s | s != [] && Read8to32()(s).Unit? ensures |Flat(Enc8, Read8to32()(s).out)| == Read8to32()(s).used {
      UnitRewritten8(s);
    }
    ReverseIff(Read8to32(), Enc8, bytes);
    KeptNoSlips(bytes);
  }

  lemma {:induction false} KeptNoSlips(s: seq<UTF8>)
    requires Sound(Read8to32())
    ensures Kept(Read8to32(), Enc8, s) <==> NoSlips(s)
    decreases |s|
  {
    if s != [] && Char8(s).Unit? {
      UnitRewritten8(s);
      KeptNoSlips(s[Char8(s).used..]);
    }
  }

  // ----- UTF-16 -----

  /** No character of the text is a surrogate that is not paired. */
  ghost predicate NoneUnpaired(s: seq<UTF16>)
    decreases |s|
  {
    s != [] && Char16(s, LenientConversion).Unit? ==>
      (Char16(s, LenientConversion).used == 1 ==> !IsSurrogate(s[0])) && NoneUnpaired(s[Char16(s, LenientConversion).used..])
  }

  /** What the conversions from UTF-32 write, as long as they do not stop. */
  ghost function Written16(): UTF32 -> seq<UTF16> { Rules16(LenientConversion).enc }

  lemma UnitRewritten16(s: seq<UTF16>, flags: ConversionFlags)
    requires s != [] && Char16(s, flags).Unit?
    ensures var r := Char16(s, flags);
      && |Flat(Written16(), r.out)| == r.used
      && (Flat(Written16(), r.out) == s[..r.used] <==> r.used == 2 || !IsSurrogate(s[0]))
  {
    var r := Char16(s, flags);
    FlatOne(Written16(), r.out[0]);
    if r.used == 2 {
      JoinSplit(s[0], s[1]);
    }
  }

  lemma {:induction false} KeptNoneUnpaired(s: seq<UTF16>)
    requires Sound(Read16to32(LenientConversion))
    ensures Kept(Read16to32(LenientConversion), Written16(), s) <==> NoneUnpaired(s)
    decreases |s|
  {
    if s != [] && Char16(s, LenientConversion).Unit? {
      UnitRewritten16(s, LenientConversion);
      KeptNoneUnpaired(s[Char16(s, LenientConversion).used..]);
    }
  }

  lemma {:induction false} StrictKept(s: seq<UTF16>)
    requires Sound(Read16to32(StrictConversion))
    ensures Kept(Read16to32(StrictConversion), Written16(), s)
    decreases |s|
  {
    if s != [] && Char16(s, StrictConversion).Unit? {
      UnitRewritten16(s, StrictConversion);
      StrictKept(s[Char16(s, StrictConversion).used..]);
    }
  }

  /** UTF-16 text, read strictly and written again, is always what it was; read leniently, if and only if no surrogate in it is unpaired. */
  lemma Reverse16(halves: seq<UTF16>)
    ensures Sound(Read16to32(StrictConversion)) && Sound(Read16to32(LenientConversion))
    ensures var w := Whole(Read16to32(StrictConversion), halves); Flat(Written16(), w.out) == halves[..w.used]
    ensures var w := Whole(Read16to32(LenientConversion), halves); Flat(Written16(), w.out) == halves[..w.used] <==> NoneUnpaired(halves)
  {
    AllSound(StrictConversion);
    AllSound(LenientConversion);
    Lengths16(StrictConversion);
    Lengths16(LenientConversion);
    ReverseIff(Read16to32(StrictConversion), Written16(), halves);
    ReverseIff(Read16to32(LenientConversion), Written16(), halves);
    StrictKept(halves);
    KeptNoneUnpaired(halves);
  }

  lemma Lengths16(flags: ConversionFlags)
    ensures SameLength(Read16to32(flags), Written16())
  {
    forall s | s != [] && Read16to32(flags)(s).Unit? ensures |Flat(Written16(), Read16to32(flags)(s).out)| == Read16to32(flags)(s).used {
      UnitRewritten16(s, flags);
    }
  }
}
