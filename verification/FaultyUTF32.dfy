/** Where a conversion from UTF-32 stands when its source is faulty, and what resuming it adds up to. */
module FaultyUTF32 {
  import opened UtfCodec
  import opened UtfStream
  import opened ConvertUTF
  import opened ConvertUTF32

  /** The position of the first value of a kind, or the end. */
  ghost function First(p: UTF32 -> bool, src: seq<UTF32>): (k: nat)
    ensures k <= |src| && (forall i | 0 <= i < k :: !p(src[i])) && (k < |src| ==> p(src[k]))
  {
    if src == [] || p(src[0]) then 0 else 1 + First(p, src[1..])
  }

  /** The conversion to UTF-16 asks for room before it looks at a value. */
  ghost function LeastRoom<T>(rules: Rules<T>): nat { if rules.early then 1 else 0 }

  /** The room that a call needs in order not to be exhausted. */
  ghost function RoomNeeded<T>(rules: Rules<T>, src: seq<UTF32>): nat {
    if src == [] then 0
    else if (rules.stops)(src[0]) then LeastRoom(rules)
    else
      var own := |(rules.enc)(src[0])| + RoomNeeded(rules, src[1..]);
      if own < LeastRoom(rules) then LeastRoom(rules) else own
  }

  lemma {:induction false} ExhaustedIff<T>(rules: Rules<T>, src: seq<UTF32>, room: nat, carry: ConversionResult)
    requires carry != TargetExhausted
    ensures Run32(rules, src, room, carry).result == TargetExhausted <==> room < RoomNeeded(rules, src)
  {
    if src != [] && !(rules.stops)(src[0]) && |(rules.enc)(src[0])| <= room {
      var carry' := if (rules.bad)(src[0]) then SourceIllegal else carry;
      ExhaustedIff(rules, src[1..], room - |(rules.enc)(src[0])|, carry');
    }
  }

  /** That is the length of what it writes, and for the conversion to UTF-16 one more at most. */
  lemma {:induction false} RoomNeededIs<T>(rules: Rules<T>, src: seq<UTF32>)
    ensures var least := |Flat(rules.enc, src[..First(rules.stops, src)])|;
      least <= RoomNeeded(rules, src) <= least + LeastRoom(rules)
  {
    if src != [] && !(rules.stops)(src[0]) {
      RoomNeededIs(rules, src[1..]);
      Cut(rules, src);
    }
  }

  lemma Cut<T>(rules: Rules<T>, src: seq<UTF32>)
    requires src != [] && !(rules.stops)(src[0])
    ensures var at, at' := First(rules.stops, src), First(rules.stops, src[1..]);
      && at == 1 + at' && src[..at][0] == src[0] && src[..at][1..] == src[1..][..at']
      && (SomeBad(rules, src[..at]) <==> (rules.bad)(src[0]) || SomeBad(rules, src[1..][..at']))
  {
    var at, at' := First(rules.stops, src), First(rules.stops, src[1..]);
    var all, rest := src[..at], src[1..][..at'];
    assert all == [src[0]] + rest;
    assert (rules.bad)(src[0]) ==> (rules.bad)(all[0]);
    assert forall i | 0 <= i < |rest| :: rest[i] == all[i + 1];
    if i :| 0 <= i < |all| && (rules.bad)(all[i]) {
      assert i > 0 ==> (rules.bad)(rest[i - 1]);
    }
  }

  /** A call with enough room ends at the first value that stops it, and has converted all that is before it. */
  lemma {:induction false} EnoughRoom32<T>(rules: Rules<T>, src: seq<UTF32>, room: nat, carry: ConversionResult)
    requires RoomNeeded(rules, src) <= room
    ensures var at := First(rules.stops, src);
      Run32(rules, src, room, carry) ==
        Outcome(if at < |src| || SomeBad(rules, src[..at]) then SourceIllegal else carry, at, Flat(rules.enc, src[..at]))
  {
    hide SomeBad, First, Flat;
    if src != [] && !(rules.stops)(src[0]) {
      var carry' := if (rules.bad)(src[0]) then SourceIllegal else carry;
      EnoughRoom32(rules, src[1..], room - |(rules.enc)(src[0])|, carry');
      Cut(rules, src);
      FlatStep(rules, src[..First(rules.stops, src)]);
    } else {
      NothingBefore(rules, src);
    }
  }

  lemma FlatStep<T>(rules: Rules<T>, s: seq<UTF32>)
    requires s != []
    ensures Flat(rules.enc, s) == (rules.enc)(s[0]) + Flat(rules.enc, s[1..])
  {
  }

  lemma NothingBefore<T>(rules: Rules<T>, src: seq<UTF32>)
    requires src == [] || (rules.stops)(src[0])
    ensures First(rules.stops, src) == 0 && Flat(rules.enc, src[..0]) == [] && !SomeBad(rules, src[..0])
  {
  }

  ghost predicate Faulty(ch: UTF32) { !IsScalar(ch) }

  /** Strict rules of either kind: surrogates stop, values that are too large spoil the result. */
  ghost predicate StrictRules<T>(rules: Rules<T>) {
    forall ch: UTF32 :: ((rules.stops)(ch) <==> IsSurrogate(ch)) && ((rules.bad)(ch) <==> ch > UNI_MAX_LEGAL_UTF32)
  }

  /**
   * "Source points at the value at fault": for a strict call with enough room on a source with any number of faults
   * that holds exactly if the first of them is a surrogate. The call reports every fault; behind a first value that
   * is too large it goes on to the next surrogate, or to the end.
   */
  lemma StandsAtFaultIff<T>(rules: Rules<T>, src: seq<UTF32>, room: nat)
    requires StrictRules(rules) && RoomNeeded(rules, src) <= room
    ensures var r, fault := Run32(rules, src, room, ConversionOK), First(Faulty, src);
      && r.result == (if fault < |src| then SourceIllegal else ConversionOK)
      && (fault < |src| ==> (r.used == fault <==> IsSurrogate(src[fault])))
      && r.used == First(IsSurrogate, src)
  {
    var fault, at := First(Faulty, src), First(rules.stops, src);
    EnoughRoom32(rules, src, room, ConversionOK);
    assert at == First(IsSurrogate, src);
    assert fault <= at by {
      assert at < |src| ==> Faulty(src[at]);
    }
    if fault < at {
      assert Faulty(src[fault]) && !IsSurrogate(src[fault]);
      assert (rules.bad)(src[..at][fault]);
    }
    if SomeBad(rules, src[..at]) {
      var i :| 0 <= i < at && (rules.bad)(src[..at][i]);
      assert Faulty(src[i]);
    }
  }

  lemma BothStrict()
    ensures StrictRules(Rules16(StrictConversion)) && StrictRules(Rules8(StrictConversion))
  {
  }

  /** The lenient conversions use all of their source; the one to UTF-8 reports values that are too large all the same, and never stands at one. */
  lemma LenientStandsAtEnd(src: seq<UTF32>, room: nat)
    ensures RoomNeeded(Rules8(LenientConversion), src) <= room ==>
      var r := Run32(Rules8(LenientConversion), src, room, ConversionOK);
      && r.used == |src| && r.out == Flat(Enc8, src)
      && (r.result == SourceIllegal <==> exists i :: 0 <= i < |src| && src[i] > UNI_MAX_LEGAL_UTF32)
    ensures RoomNeeded(Rules16(LenientConversion), src) <= room ==>
      var r := Run32(Rules16(LenientConversion), src, room, ConversionOK);
      r.used == |src| && r.result == ConversionOK
  {
    var rules8, rules16 := Rules8(LenientConversion), Rules16(LenientConversion);
    assert src[..|src|] == src;
    if RoomNeeded(rules8, src) <= room {
      EnoughRoom32(rules8, src, room, ConversionOK);
      if i :| 0 <= i < |src| && src[i] > UNI_MAX_LEGAL_UTF32 {
        assert (rules8.bad)(src[i]);
      }
    }
    if RoomNeeded(rules16, src) <= room {
      EnoughRoom32(rules16, src, room, ConversionOK);
    }
  }

  // ----- resuming -----

  /** The result so far is all that a call brings with it, and it is lost unless nothing else goes wrong. */
  lemma {:induction false} CarryIsResult<T>(rules: Rules<T>, src: seq<UTF32>, room: nat)
    ensures var r := Run32(rules, src, room, ConversionOK);
      Run32(rules, src, room, SourceIllegal) == r.(result := if r.result == ConversionOK then SourceIllegal else r.result)
  {
    if src != [] && !(rules.stops)(src[0]) && |(rules.enc)(src[0])| <= room {
      CarryIsResult(rules, src[1..], room - |(rules.enc)(src[0])|);
    }
  }

  /** The call converts the first value. */
  ghost predicate Goes<T>(rules: Rules<T>, src: seq<UTF32>, room: nat) {
    src != [] && LeastRoom(rules) <= room && !(rules.stops)(src[0]) && |(rules.enc)(src[0])| <= room
  }

  ghost function Carried<T>(rules: Rules<T>, ch: UTF32, carry: ConversionResult): ConversionResult {
    if (rules.bad)(ch) then SourceIllegal else carry
  }

  lemma FirstStep<T>(rules: Rules<T>, src: seq<UTF32>, room: nat, carry: ConversionResult)
    ensures var r := Run32(rules, src, room, carry);
      && (Goes(rules, src, room) <==> r.used > 0) && (r.used == 0 ==> r.out == [])
      && (Goes(rules, src, room) ==>
            r == Run32(rules, src[1..], room - |(rules.enc)(src[0])|, Carried(rules, src[0], carry)).After(1, (rules.enc)(src[0])))
  {
  }

  /** What a call has used, a call on that alone uses as well, with all the room that was written or more. */
  lemma {:induction false} UsedPart<T>(rules: Rules<T>, src: seq<UTF32>, room: nat, carry: ConversionResult, more: nat)
    requires LeastRoom(rules) <= more
    ensures var r := Run32(rules, src, room, carry);
      Run32(rules, src[..r.used], |r.out| + more, carry) ==
        Outcome(if SomeBad(rules, src[..r.used]) then SourceIllegal else carry, r.used, r.out)
  {
    hide SomeBad, Run32;
    var r := Run32(rules, src, room, carry);
    FirstStep(rules, src, room, carry);
    FirstStep(rules, src[..r.used], |r.out| + more, carry);
    if r.used == 0 {
      NoneBad(rules, src[..0]);
      NothingToDo(rules, src[..0], |r.out| + more, carry);
    } else {
      var enc, carry' := (rules.enc)(src[0]), Carried(rules, src[0], carry);
      var rest := Run32(rules, src[1..], room - |enc|, carry');
      UsedPart(rules, src[1..], room - |enc|, carry', more);
      assert src[..r.used] == [src[0]] + src[1..][..rest.used];
      BadFirst(rules, src[..r.used]);
    }
  }

  lemma NothingToDo<T>(rules: Rules<T>, s: seq<UTF32>, room: nat, carry: ConversionResult)
    requires s == []
    ensures Run32(rules, s, room, carry) == Outcome(carry, 0, [])
  {
  }

  lemma NoneBad<T>(rules: Rules<T>, s: seq<UTF32>)
    requires s == []
    ensures !SomeBad(rules, s)
  {
  }

  lemma BadFirst<T>(rules: Rules<T>, s: seq<UTF32>)
    requires s != []
    ensures SomeBad(rules, s) <==> (rules.bad)(s[0]) || SomeBad(rules, s[1..])
  {
    if i :| 0 <= i < |s| && (rules.bad)(s[i]) {
      assert i > 0 ==> (rules.bad)(s[1..][i - 1]);
    }
    assert forall i | 0 <= i < |s| - 1 :: s[1..][i] == s[i + 1];
  }

  /** A source that is used up, and more source behind it. */
  lemma {:induction false} Continued<T>(rules: Rules<T>, a: seq<UTF32>, b: seq<UTF32>, room: nat, carry: ConversionResult)
    requires Run32(rules, a, room, carry).used == |a|
    ensures var r := Run32(rules, a, room, carry);
      Run32(rules, a + b, room, carry) == Run32(rules, b, room - |r.out|, r.result).After(|a|, r.out)
  {
    hide Run32;
    FirstStep(rules, a, room, carry);
    FirstStep(rules, a + b, room, carry);
    if a == [] {
      NothingToDo(rules, a, room, carry);
      assert a + b == b;
      assert [] + Run32(rules, b, room, carry).out == Run32(rules, b, room, carry).out;
    } else {
      var enc, carry' := (rules.enc)(a[0]), Carried(rules, a[0], carry);
      var rest := Run32(rules, a[1..], room - |enc|, carry');
      Continued(rules, a[1..], b, room - |enc|, carry');
      assert (a + b)[1..] == a[1..] + b;
      AfterAfter(Run32(rules, b, room - |enc| - |rest.out|, rest.result), 1, enc, |a| - 1, rest.out);
    }
  }

  /** The source needs no more than the room, nothing in it stops the call, and nothing in it is bad. */
  ghost predicate Well<T>(rules: Rules<T>, src: seq<UTF32>, room: nat) {
    RoomNeeded(rules, src) <= room && First(rules.stops, src) == |src| && !SomeBad(rules, src)
  }

  lemma WellIsOK<T>(rules: Rules<T>, src: seq<UTF32>, room: nat)
    ensures Run32(rules, src, room, ConversionOK).result == ConversionOK <==> Well(rules, src, room)
  {
    hide SomeBad, Run32, First, RoomNeeded;
    ExhaustedIff(rules, src, room, ConversionOK);
    if RoomNeeded(rules, src) <= room {
      EnoughRoom32(rules, src, room, ConversionOK);
      assert src[..|src|] == src;
    }
  }

  /**
   * Calls in pieces, however source and target are cut: positions and output always add up to those of one call.
   * The result does exactly unless a value that was too large was passed over before the cut and there is nothing
   * wrong with the rest, because the second call has forgotten it.
   */
  lemma Resumed32<T>(rules: Rules<T>, src: seq<UTF32>, room: nat, more: seq<UTF32>, room': nat)
    requires LeastRoom(rules) <= room'
    ensures
      var r := Run32(rules, src, room, ConversionOK);
      var rest := src[r.used..] + more;
      var r' := Run32(rules, rest, room', ConversionOK);
      var whole := Run32(rules, src + more, |r.out| + room', ConversionOK);
      && whole.used == r.used + r'.used && whole.out == r.out + r'.out
      && (whole.result == r'.result <==> !(SomeBad(rules, src[..r.used]) && Well(rules, rest, room')))
      && (whole.result != r'.result ==> whole.result == SourceIllegal && r'.result == ConversionOK)
  {
    hide SomeBad, Run32, Well;
    var r := Run32(rules, src, room, ConversionOK);
    var rest := src[r.used..] + more;
    UsedPart(rules, src, room, ConversionOK, room');
    Continued(rules, src[..r.used], rest, |r.out| + room', ConversionOK);
    assert src + more == src[..r.used] + rest;
    CarryIsResult(rules, rest, room');
    WellIsOK(rules, rest, room');
  }
}
