/**
 * Conversions as they all are: units are read one by one from a source, and what each of them becomes
 * is appended to a target. What calls with arbitrary pieces of source and target add up to.
 */
module UtfStream {

  datatype ConversionResult = ConversionOK | SourceExhausted | TargetExhausted | SourceIllegal

  /** What is at the beginning of a source: part of a unit, none at all, or one of `used` elements that becomes `out`. */
  datatype Reading<T> = Partial | Malformed | Unit(used: nat, out: seq<T>)

  /** The result of a call, how much of the source it has used, and what it has appended to the target. */
  datatype Outcome<T> = Outcome(result: ConversionResult, used: nat, out: seq<T>) {
    ghost function After(used': nat, out': seq<T>): Outcome<T> { Outcome(result, used' + used, out' + out) }
  }

  type Reader<!S, !T> = seq<S> -> Reading<T>

  /** A unit is not empty, it lies inside of the source, and more source behind it does not change it. */
  ghost predicate Sound<S(!new), T>(read: Reader<S, T>) {
    && (forall s | s != [] :: SoundAt(read, s))
    && (forall s, more | s != [] :: StableAt(read, s, more))
  }

  ghost predicate SoundAt<S, T>(read: Reader<S, T>, s: seq<S>) {
    read(s).Unit? ==> 1 <= read(s).used <= |s| && read(s).out != []
  }

  ghost predicate StableAt<S, T>(read: Reader<S, T>, s: seq<S>, more: seq<S>) {
    !read(s).Partial? ==> read(s + more) == read(s)
  }

  /** A call with `room` elements of target; a unit that does not fit is left in the source. */
  ghost function Run<S(!new), T>(read: Reader<S, T>, src: seq<S>, room: nat): (r: Outcome<T>)
    requires Sound(read)
    ensures r.used <= |src| && |r.out| <= room
    decreases |src|
  {
    if src == [] then Outcome(ConversionOK, 0, [])
    else
      assert SoundAt(read, src);
      match read(src)
      case Partial => Outcome(SourceExhausted, 0, [])
      case Malformed => Outcome(SourceIllegal, 0, [])
      case Unit(used, out) =>
        if room < |out| then Outcome(TargetExhausted, 0, [])
        else Run(read, src[used..], room - |out|).After(used, out)
  }

  /** A call with as much target as it needs. */
  ghost function Whole<S(!new), T>(read: Reader<S, T>, src: seq<S>): (r: Outcome<T>)
    requires Sound(read)
    ensures r.used <= |src| && r.result != TargetExhausted
    decreases |src|
  {
    if src == [] then Outcome(ConversionOK, 0, [])
    else
      assert SoundAt(read, src);
      match read(src)
      case Partial => Outcome(SourceExhausted, 0, [])
      case Malformed => Outcome(SourceIllegal, 0, [])
      case Unit(used, out) => Whole(read, src[used..]).After(used, out)
  }

  lemma AfterAfter<T>(o: Outcome<T>, a: nat, x: seq<T>, b: nat, y: seq<T>)
    ensures o.After(b, y).After(a, x) == o.After(a + b, x + y)
  {
    assert x + (y + o.out) == (x + y) + o.out;
  }

  lemma RunStep<S(!new), T>(read: Reader<S, T>, src: seq<S>, room: nat, used: nat, out: seq<T>)
    requires Sound(read) && src != [] && read(src) == Unit(used, out) && |out| <= room
    ensures 1 <= used <= |src| && Run(read, src, room) == Run(read, src[used..], room - |out|).After(used, out)
  {
    assert SoundAt(read, src);
  }

  lemma WholeStep<S(!new), T>(read: Reader<S, T>, src: seq<S>, used: nat, out: seq<T>)
    requires Sound(read) && src != [] && read(src) == Unit(used, out)
    ensures 1 <= used <= |src| && Whole(read, src) == Whole(read, src[used..]).After(used, out)
  {
    assert SoundAt(read, src);
  }

  /** More source behind a unit does not change it. */
  lemma StillUnit<S(!new), T>(read: Reader<S, T>, src: seq<S>, more: seq<S>, used: nat, out: seq<T>)
    requires Sound(read) && src != [] && read(src) == Unit(used, out)
    ensures read(src + more) == Unit(used, out) && used <= |src| && (src + more)[used..] == src[used..] + more
  {
    assert SoundAt(read, src) && StableAt(read, src, more);
  }

  /** A call that has used something has read a unit first. */
  lemma FirstUnit<S(!new), T>(read: Reader<S, T>, src: seq<S>, room: nat) returns (used: nat, out: seq<T>)
    requires Sound(read) && Run(read, src, room).used > 0
    ensures src != [] && read(src) == Unit(used, out) && |out| <= room
  {
    used, out := read(src).used, read(src).out;
  }

  /** Whatever target a first call had, and whatever source comes later, resuming behind it completes the whole. */
  lemma {:induction false} Resume<S(!new), T>(read: Reader<S, T>, src: seq<S>, room: nat, more: seq<S>)
    requires Sound(read)
    ensures var r := Run(read, src, room);
      Whole(read, src + more) == Whole(read, src[r.used..] + more).After(r.used, r.out)
    decreases |src|
  {
    hide Run, Whole, Sound;
    var r := Run(read, src, room);
    if r.used == 0 {
      assert src[0..] == src;
      NothingUsed(read, src, room);
      assert r.out + Whole(read, src + more).out == Whole(read, src + more).out;
    } else {
      var used, out := FirstUnit(read, src, room);
      RunStep(read, src, room, used, out);
      StillUnit(read, src, more, used, out);
      WholeStep(read, src + more, used, out);
      var rest := src[used..];
      Resume(read, rest, room - |out|, more);
      var r' := Run(read, rest, room - |out|);
      assert src[r.used..] == rest[r'.used..];
      AfterAfter(Whole(read, rest[r'.used..] + more), used, out, r'.used, r'.out);
    }
  }

  lemma NothingUsed<S(!new), T>(read: Reader<S, T>, src: seq<S>, room: nat)
    requires Sound(read) && Run(read, src, room).used == 0
    ensures Run(read, src, room).out == []
  {
    if src != [] {
      assert SoundAt(read, src);
    }
  }

  /** A call that did not run out of target has done all there was to do, and says so. */
  lemma {:induction false} EnoughRoom<S(!new), T>(read: Reader<S, T>, src: seq<S>, room: nat)
    requires Sound(read)
    ensures Run(read, src, room).result != TargetExhausted ==> Run(read, src, room) == Whole(read, src)
    ensures Run(read, src, room).result == TargetExhausted <==> room < |Whole(read, src).out|
    decreases |src|
  {
    if src != [] && read(src).Unit? && |read(src).out| <= room {
      assert SoundAt(read, src);
      EnoughRoom(read, src[read(src).used..], room - |read(src).out|);
    } else if src != [] {
      assert SoundAt(read, src);
    }
  }

  lemma OutOfTarget<S(!new), T>(read: Reader<S, T>, src: seq<S>, room: nat) returns (used: nat, out: seq<T>)
    requires Sound(read) && Run(read, src, room).result == TargetExhausted
    ensures src != [] && read(src) == Unit(used, out) && 1 <= used <= |src|
    ensures room < |out| ==> Run(read, src, room) == Outcome(TargetExhausted, 0, [])
  {
    assert SoundAt(read, src);
    used, out := read(src).used, read(src).out;
  }

  /** A call for target of its own continues a call that ran out of it as if the two targets were one. */
  lemma {:induction false} SplitTarget<S(!new), T>(read: Reader<S, T>, src: seq<S>, room: nat, room': nat)
    requires Sound(read) && Run(read, src, room).result == TargetExhausted
    ensures var r := Run(read, src, room);
      Run(read, src, |r.out| + room') == Run(read, src[r.used..], room').After(r.used, r.out)
    decreases |src|
  {
    hide Run, Sound;
    var r := Run(read, src, room);
    var used, out := OutOfTarget(read, src, room);
    if room < |out| {
      assert src[0..] == src;
      assert [] + Run(read, src, room').out == Run(read, src, room').out;
    } else {
      var rest := src[used..];
      var r' := Run(read, rest, room - |out|);
      RunStep(read, src, room, used, out);
      SplitTarget(read, rest, room - |out|, room');
      assert src[r.used..] == rest[r'.used..];
      RunStep(read, src, |r.out| + room', used, out);
      assert |r.out| + room' - |out| == |r'.out| + room';
      AfterAfter(Run(read, rest[r'.used..], room'), r'.used, r'.out, used, out);
      AfterAfter(Run(read, rest[r'.used..], room'), used, out, r'.used, r'.out);
    }
  }

  /** A call of a session: source that arrives in front of it, and the target it is given. */
  datatype Call<S> = Call(arrives: seq<S>, room: nat)

  /** All source that arrives. */
  ghost function Arrived<S>(calls: seq<Call<S>>): seq<S> {
    if calls == [] then [] else calls[0].arrives + Arrived(calls[1..])
  }

  /** What is left of the source behind all calls; what a call leaves is where the next one resumes. */
  ghost function Left<S(!new), T>(read: Reader<S, T>, left: seq<S>, calls: seq<Call<S>>): seq<S>
    requires Sound(read)
    decreases |calls|
  {
    if calls == [] then left
    else
      var src := left + calls[0].arrives;
      Left(read, src[Run(read, src, calls[0].room).used..], calls[1..])
  }

  /** What all calls have appended to their targets. */
  ghost function Written<S(!new), T>(read: Reader<S, T>, left: seq<S>, calls: seq<Call<S>>): seq<T>
    requires Sound(read)
    decreases |calls|
  {
    if calls == [] then []
    else
      var src := left + calls[0].arrives;
      var r := Run(read, src, calls[0].room);
      r.out + Written(read, src[r.used..], calls[1..])
  }

  /**
   * Any session, however source and target are cut into pieces, amounts to the one conversion of all
   * source: what has been written, followed by what is left.
   */
  lemma {:induction false} SessionIsWhole<S(!new), T>(read: Reader<S, T>, left: seq<S>, calls: seq<Call<S>>)
    requires Sound(read)
    ensures |Left(read, left, calls)| <= |left + Arrived(calls)|
    ensures
      var rest := Left(read, left, calls);
      Whole(read, left + Arrived(calls)) ==
        Whole(read, rest).After(|left + Arrived(calls)| - |rest|, Written(read, left, calls))
    decreases |calls|
  {
    hide Run, Whole, Sound;
    if calls == [] {
      assert left + Arrived(calls) == left;
      assert [] + Whole(read, left).out == Whole(read, left).out;
    } else {
      var src, rest := left + calls[0].arrives, Arrived(calls[1..]);
      var r := Run(read, src, calls[0].room);
      var left' := src[r.used..];
      assert left + Arrived(calls) == src + rest;
      Resume(read, src, calls[0].room, rest);
      SessionIsWhole(read, left', calls[1..]);
      var end, written := Left(read, left', calls[1..]), Written(read, left', calls[1..]);
      assert Left(read, left, calls) == end && Written(read, left, calls) == r.out + written;
      AfterAfter(Whole(read, end), r.used, r.out, |left' + rest| - |end|, written);
    }
  }

  /** So a session that leaves nothing has written exactly what one call would have written. */
  lemma SessionCompletes<S(!new), T>(read: Reader<S, T>, calls: seq<Call<S>>)
    requires Sound(read) && Left(read, [], calls) == []
    ensures Whole(read, Arrived(calls)) == Outcome(ConversionOK, |Arrived(calls)|, Written(read, [], calls))
  {
    SessionIsWhole(read, [], calls);
    assert [] + Arrived(calls) == Arrived(calls);
    assert Written(read, [], calls) + [] == Written(read, [], calls);
  }

  /** With room for one unit a call makes progress, unless what is left cannot be converted yet. */
  lemma Progress<S(!new), T>(read: Reader<S, T>, src: seq<S>, room: nat)
    requires Sound(read) && src != [] && read(src).Unit?
    ensures Run(read, src, room).used > 0 <==> |read(src).out| <= room
  {
    assert SoundAt(read, src);
  }
}
