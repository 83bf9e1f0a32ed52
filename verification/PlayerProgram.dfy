/**
 * The main thread of the media player: the state changes of the elements, the program that starts and stops
 * them, and its runs under every schedule of the four threads.
 */
module PlayerProgram {
  import opened Pipeline
  import opened Wrappers

  // ----- state changes -----

  function StateOf(w: World, e: Element): State {
    match e case Dem => w.dem.state case Vid => w.vid.state case Aud => w.aud.state case Ren => w.ren.state
  }

  function WithState(w: World, e: Element, s: State): World {
    match e
    case Dem => w.(dem := w.dem.(state := s))
    case Vid => w.(vid := w.vid.(state := s))
    case Aud => w.(aud := w.aud.(state := s))
    case Ren => w.(ren := w.ren.(state := s))
  }

  /** A new thread at the top of its loop. */
  function WithThread(w: World, e: Element): World {
    match e
    case Dem => w.(dem := w.dem.(thread := DemTop(None)))
    case Vid => w.(vid := w.vid.(thread := DecTop(None)))
    case Aud => w.(aud := w.aud.(thread := DecTop(None)))
    case Ren => w.(ren := w.ren.(thread := RenTop))
  }

  /** `sendEvent` of the stop event in the state PAUSED. */
  function Sent(stops: nat): nat { if stops < MAX_SIZE then stops + 1 else stops }

  function WithStop(w: World, e: Element): World {
    match e
    case Dem => w.(dem := w.dem.(stops := Sent(w.dem.stops)))
    case Vid => w.(vid := w.vid.(stops := Sent(w.vid.stops)))
    case Aud => w.(aud := w.aud.(stops := Sent(w.aud.stops)))
    case Ren => w.(ren := w.ren.(stops := Sent(w.ren.stops)))
  }

  predicate Ended(w: World, e: Element) {
    match e
    case Dem => w.dem.thread.DemStopped?
    case Vid => w.vid.thread.DecStopped?
    case Aud => w.aud.thread.DecStopped?
    case Ren => w.ren.thread.RenStopped?
  }

  /** `setState` up to its first wait; `opens` tells whether the demuxer can open its file. */
  function SetState(w: World, e: Element, to: State, opens: bool): World
    requires w.main.Calling?
  {
    var current := StateOf(w, e);
    match to
    case IDLE => if current == READY then WithState(w, e, IDLE) else w
    case READY =>
      if current == IDLE then (if e.Dem? && !opens then w else WithState(w, e, READY))
      else if current == PAUSED then WithStop(w, e).(main := Joining(e))
      else w
    case PAUSED =>
      if current == READY then WithThread(w, e).(main := Starting(e))
      else if current == PLAYING then WithState(w, e, PAUSED)
      else w
    case PLAYING => if current == PAUSED then WithState(w, e, PLAYING) else w
  }

  /** The rest of `setState`: behind the start of a thread, or behind its end. */
  function GoOn(w: World): World
    requires !w.main.Calling?
  {
    if w.main.Starting? then WithState(w, w.main.e, PAUSED).(main := Calling)
    else if Ended(w, w.main.e) then WithState(w, w.main.e, READY).(main := Calling)
    else w
  }

  lemma SetStateKeepsPlaces(w: World, e: Element, to: State, opens: bool)
    requires w.main.Calling? && Inv(w)
    ensures PacketsConserved(SetState(w, e, to, opens)) && FramesConserved(SetState(w, e, to, opens))
  {
    hide PacketsConserved, FramesConserved, Quiet;
    var v := SetState(w, e, to, opens);
    PlacesStay(w, v);
  }

  lemma PlacesStay(w: World, v: World)
    requires PacketsConserved(w) && FramesConserved(w) && v.l == w.l
    requires v.dem.thread == w.dem.thread || (w.dem.thread.DemStopped? && v.dem.thread == DemTop(None))
    requires SamePlaces(w.vid, v.vid) && SamePlaces(w.aud, v.aud)
    requires v.ren.queue == w.ren.queue && (v.ren.thread == w.ren.thread || (w.ren.thread.RenStopped? && v.ren.thread == RenTop))
    ensures PacketsConserved(v) && FramesConserved(v)
  {
    forall p: Packet ensures PacketOk(v, p) { assert PacketOk(w, p); }
    forall f: nat ensures FrameOk(v, f) { assert FrameOk(w, f); }
  }

  lemma GoOnKeepsPlaces(w: World)
    requires !w.main.Calling? && Inv(w)
    ensures PacketsConserved(GoOn(w)) && FramesConserved(GoOn(w))
  {
    hide PacketsConserved, FramesConserved, Quiet, AllLive;
    PlacesStay(w, GoOn(w));
  }

  predicate SamePlaces(d: Decoder, d': Decoder) {
    d'.queue == d.queue && (d'.thread == d.thread || (d.thread.DecStopped? && d'.thread == DecTop(None)))
  }

  lemma SetStateInOrder(w: World, e: Element, to: State, opens: bool)
    requires w.main.Calling? && InOrder(w)
    requires to == READY && StateOf(w, e) == PAUSED ==> MayStop(w, e)
    ensures InOrder(SetState(w, e, to, opens))
  {
  }

  lemma StartedInOrder(w: World)
    requires w.main.Starting? && InOrder(w)
    ensures InOrder(GoOn(w))
  {
  }

  lemma JoinedInOrder(w: World)
    requires w.main.Joining? && InOrder(w) && Ended(w, w.main.e)
    ensures InOrder(GoOn(w))
  {
    match w.main.e
    case Dem =>
    case Vid =>
    case Aud =>
    case Ren =>
  }

  // ----- the program -----

  /** The steps of the program: the elements in this order, once for each of these states. */
  function ElementOf(k: nat): Element {
    if k == 0 then Dem else if k == 1 then Vid else if k == 2 then Aud else Ren
  }

  function Place(e: Element): nat { match e case Dem => 0 case Vid => 1 case Aud => 2 case Ren => 3 }

  function Target(r: nat): State {
    if r == 0 || r == 4 then READY else if r == 1 || r == 3 then PAUSED else if r == 2 then PLAYING else IDLE
  }

  /** The state of an element when the program is in front of call `k` of round `r`. */
  function Due(e: Element, r: nat, k: nat): State {
    var done := if Place(e) < k then r + 1 else r;
    if done == 0 then IDLE else Target(done - 1)
  }

  /**
   * Every element is in the state that it was last set to; only the demuxer may have remained idle, if it could
   * not open its file.
   */
  ghost predicate Scripted(w: World, r: nat, k: nat) {
    && r <= 6 && k < 4 && (r == 6 ==> k == 0)
    && (w.dem.state == Due(Dem, r, k) || (w.dem.state == IDLE && w.main != Starting(Dem) && w.main != Joining(Dem)))
    && w.vid.state == Due(Vid, r, k) && w.aud.state == Due(Aud, r, k) && w.ren.state == Due(Ren, r, k)
    && (w.main.Starting? ==> r == 1 && w.main.e == ElementOf(k))
    && (w.main.Joining? ==> r == 4 && w.main.e == ElementOf(k))
  }

  /** Behind each of the six rounds the decoders and the render are in the next state of the program, and the demuxer is, or is idle. */
  lemma StatesBetweenRounds(w: World, r: nat)
    requires Scripted(w, r, 0) && w.main.Calling?
    ensures w.vid.state == w.aud.state == w.ren.state == [IDLE, READY, PAUSED, PLAYING, PAUSED, READY, IDLE][r]
    ensures w.dem.state == w.vid.state || w.dem.state == IDLE
  {
  }

  lemma StatesStay(w: World, v: World, r: nat, k: nat)
    requires Scripted(w, r, k)
    requires v.main == w.main && v.dem.state == w.dem.state && v.vid.state == w.vid.state && v.aud.state == w.aud.state && v.ren.state == w.ren.state
    ensures Scripted(v, r, k)
  {
  }

  /** A step of the thread of a decoder, if it has one. */
  function DecoderStep(w: World, audio: bool, o: Option<Packet>, decodes: bool): World
    requires Popped(Dec(w, audio).queue, o)
  {
    match Dec(w, audio).thread
    case DecStopped => w
    case DecTop(_) => DecoderTop(w, audio, o)
    case DecPacket(_) => DecoderDecode(w, audio, decodes)
    case DecFrame(_) => DecoderGive(w, audio)
    case DecDrain => DecoderDrain(w, audio, o)
  }

  lemma DecoderStepKeeps(w: World, audio: bool, o: Option<Packet>, decodes: bool, r: nat, k: nat)
    requires Inv(w) && Scripted(w, r, k) && Popped(Dec(w, audio).queue, o)
    ensures Inv(DecoderStep(w, audio, o, decodes)) && Scripted(DecoderStep(w, audio, o, decodes), r, k)
  {
    hide Inv, Scripted;
    match Dec(w, audio).thread {
      case DecStopped =>
      case DecTop(_) => DecoderTopKeeps(w, audio, o);
      case DecPacket(_) => DecoderDecodeKeeps(w, audio, decodes);
      case DecFrame(_) => DecoderGiveKeeps(w, audio);
      case DecDrain => DecoderDrainKeeps(w, audio, o);
    }
    StatesStay(w, DecoderStep(w, audio, o, decodes), r, k);
  }

  /** The program stops every thread when it may be stopped. */
  lemma StopsInOrder(w: World, r: nat, k: nat)
    requires InOrder(w) && Scripted(w, r, k) && r < 6 && w.main.Calling?
    ensures Target(r) == READY && StateOf(w, ElementOf(k)) == PAUSED ==> MayStop(w, ElementOf(k))
  {
  }

  /** The program is in front of the next call, or still in this one. */
  ghost predicate GoesOn(v: World, r: nat, k: nat) {
    if !v.main.Calling? then Scripted(v, r, k) else if k < 3 then Scripted(v, r, k + 1) else Scripted(v, r + 1, 0)
  }

  lemma SetStateScripted(w: World, r: nat, k: nat, opens: bool)
    requires Scripted(w, r, k) && r < 6 && w.main.Calling?
    ensures GoesOn(SetState(w, ElementOf(k), Target(r), opens), r, k)
  {
    if k == 0 {
    } else if k == 1 {
    } else if k == 2 {
    } else {
    }
  }

  lemma GoOnScripted(w: World, r: nat, k: nat)
    requires Scripted(w, r, k) && !w.main.Calling?
    ensures GoesOn(GoOn(w), r, k)
  {
  }

  lemma CallKeeps(w: World, r: nat, k: nat, opens: bool)
    requires Inv(w) && Scripted(w, r, k) && r < 6 && w.main.Calling?
    ensures Inv(SetState(w, ElementOf(k), Target(r), opens)) && GoesOn(SetState(w, ElementOf(k), Target(r), opens), r, k)
  {
    hide PacketsConserved, FramesConserved, InOrder, Scripted, SetState, GoesOn;
    StopsInOrder(w, r, k);
    SetStateInOrder(w, ElementOf(k), Target(r), opens);
    SetStateKeepsPlaces(w, ElementOf(k), Target(r), opens);
    SetStateScripted(w, r, k, opens);
  }

  lemma ResumeKeeps(w: World, r: nat, k: nat)
    requires Inv(w) && Scripted(w, r, k) && !w.main.Calling?
    ensures Inv(GoOn(w)) && GoesOn(GoOn(w), r, k) && r < 6
  {
    hide PacketsConserved, FramesConserved, InOrder, GoesOn, WithState;
    GoOnScripted(w, r, k);
    GoOnKeepsPlaces(w);
    if w.main.Starting? {
      StartedInOrder(w);
    } else if Ended(w, w.main.e) {
      JoinedInOrder(w);
    }
  }

  /** Behind the fifth round all threads have ended. */
  lemma AllEnded(w: World, r: nat, k: nat)
    requires InOrder(w) && Scripted(w, r, k) && r >= 5
    ensures w.dem.thread.DemStopped? && w.vid.thread.DecStopped? && w.aud.thread.DecStopped? && w.ren.thread.RenStopped?
  {
  }

  lemma Finished(w: World, r: nat, k: nat)
    requires Inv(w) && Scripted(w, r, k) && r >= 5
    ensures w.vid.queue == w.aud.queue == multiset{} && w.ren.queue == multiset{}
    ensures w.l.freedPackets == w.l.read && w.l.freedFrames == w.l.decoded
  {
    hide PacketsConserved, FramesConserved, Scripted, AllLive, Quiet;
    AllEnded(w, r, k);
    EverythingFreed(w);
  }

  // ----- why the order matters -----

  /**
   * If a program stops the video decoder before the demuxer, a packet that the demuxer has in hand at that time
   * goes to a queue that nobody empties, and is never freed.
   */
  lemma LeftBehind(w: World)
    requires InOrder(w) && PacketsConserved(w) && w.main.Calling?
    requires w.dem.state == PAUSED && w.dem.thread.DemHand? && w.dem.thread.packet.kind == Video
    requires w.vid.state == PAUSED && w.vid.thread == DecTop(None) && w.vid.queue == multiset{}
    ensures
      var stopVideo := GoOn(DecoderDrain(DecoderTop(SetState(w, Vid, READY, true), false, None), false, None));
      var stopDemuxer := GoOn(DemuxerTop(SetState(DemuxerGive(stopVideo), Dem, READY, true), None));
      && stopDemuxer.dem.thread.DemStopped? && stopDemuxer.vid.thread.DecStopped? && stopDemuxer.main.Calling?
      && stopDemuxer.vid.queue == multiset{w.dem.thread.packet} && w.dem.thread.packet !in stopDemuxer.l.freedPackets
  {
    assert PacketOk(w, w.dem.thread.packet);
  }
}
