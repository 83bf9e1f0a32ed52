/**
 * The media player as it changes in place: one object that all threads work on, one step of one thread at a time.
 */
module Players {
  import opened Pipeline
  import opened PipelineFlow
  import opened PlayerProgram
  import opened Wrappers

  /** Whose turn it is, and what the libraries answer to that thread: what can be read, what can be decoded, whether the file opens. */
  datatype Turn = DemuxerTurn(read: Option<Kind>) | DecoderTurn(audio: bool, decodes: bool) | RenderTurn | MainTurn(opens: bool)

  // ----- turns, and schedules of them -----

  ghost function DemuxerStep(w: World, read: Option<Kind>): World {
    match w.dem.thread case DemStopped => w case DemTop(_) => DemuxerTop(w, read) case DemHand(_) => DemuxerGive(w)
  }

  ghost function RenderStep(w: World, o: Option<nat>): World
    requires Popped(w.ren.queue, o)
  {
    match w.ren.thread case RenStopped => w case RenTop => RenderTop(w, o) case RenFrame(_) => RenderWrite(w) case RenDrain => RenderDrain(w, o)
  }

  /** The next step of the program, when it has made `pos` of its 24 calls. */
  ghost function MainStep(w: World, pos: nat, opens: bool): World {
    if !w.main.Calling? then GoOn(w) else if pos < 24 then SetState(w, ElementOf(pos % 4), Target(pos / 4), opens) else w
  }

  ghost predicate DecoderMoves(w: World, v: World, audio: bool, decodes: bool, o: Option<Packet>) {
    Popped(Dec(w, audio).queue, o) && v == DecoderStep(w, audio, o, decodes)
  }

  ghost predicate RenderMoves(w: World, v: World, o: Option<nat>) {
    Popped(w.ren.queue, o) && v == RenderStep(w, o)
  }

  /** What a turn may do: the step of the thread whose turn it is, and nothing else; a queue yields any of its elements. */
  ghost predicate IsTurn(w: World, pos: nat, v: World, pos': nat, turn: Turn) {
    match turn
    case DemuxerTurn(read) => pos' == pos && v == DemuxerStep(w, read)
    case DecoderTurn(audio, decodes) => pos' == pos && exists o :: DecoderMoves(w, v, audio, decodes, o)
    case RenderTurn => pos' == pos && exists o :: RenderMoves(w, v, o)
    case MainTurn(opens) =>
      && v == MainStep(w, pos, opens)
      && pos' == pos + if v.main.Calling? && (w.main.Calling? ==> pos < 24) then 1 else 0
  }

  /** The turns, one after the other, lead from the first state to the last one. */
  ghost predicate Leads(turns: seq<Turn>, w0: World, pos0: nat, w: World, pos: nat)
    decreases |turns|
  {
    if turns == [] then w == w0 && pos == pos0
    else
      var front, last := turns[..|turns| - 1], turns[|turns| - 1];
      exists mid: World, at: nat :: Leads(front, w0, pos0, mid, at) && IsTurn(mid, at, w, pos, last)
  }

  lemma LeadsNowhere(w: World, pos: nat)
    ensures Leads([], w, pos, w, pos)
  {
  }

  lemma {:induction false} LeadsOneMore(turns: seq<Turn>, turn: Turn, w0: World, pos0: nat, mid: World, at: nat, w: World, pos: nat)
    requires Leads(turns, w0, pos0, mid, at) && IsTurn(mid, at, w, pos, turn)
    ensures Leads(turns + [turn], w0, pos0, w, pos)
  {
    hide IsTurn;
    assert (turns + [turn])[..|turns|] == turns;
  }

  lemma {:induction false} LeadsOn(a: seq<Turn>, b: seq<Turn>, w0: World, pos0: nat, mid: World, at: nat, w: World, pos: nat)
    requires Leads(a, w0, pos0, mid, at) && Leads(b, mid, at, w, pos)
    ensures Leads(a + b, w0, pos0, w, pos)
    decreases |b|
  {
    hide IsTurn;
    if b == [] {
      assert a + b == a;
    } else {
      var n := |b| - 1;
      var x: World, k: nat :| Leads(b[..n], mid, at, x, k) && IsTurn(x, k, w, pos, b[n]);
      LeadsOn(a, b[..n], w0, pos0, mid, at, x, k);
      LeadsOneMore(a + b[..n], b[n], w0, pos0, x, k, w, pos);
      assert a + b == a + b[..n] + [b[n]];
    }
  }

  class Player {
    var dem: Demuxer
    var vid: Decoder
    var aud: Decoder
    var ren: Render
    var main: Main
    /** the call of the program that comes next or goes on: the round and the number of the element */
    var round: nat
    var call: nat
    var nextPacket: nat
    var nextFrame: nat
    ghost var ledger: Ledger

    ghost function View(): World
      reads this
    {
      World(dem, vid, aud, ren, main, ledger)
    }

    ghost predicate Valid()
      reads this
    {
      && Inv(View()) && KindsApart(View()) && Scripted(View(), round, call) && round <= 6 && call < 4
      && ledger.nextPacket == nextPacket && ledger.nextFrame == nextFrame
    }

    constructor ()
      ensures Valid() && View() == START && round == call == 0
    {
      dem := Demuxer(IDLE, DemStopped, 0);
      vid, aud := Decoder(IDLE, DecStopped, 0, multiset{}), Decoder(IDLE, DecStopped, 0, multiset{});
      ren := Render(IDLE, RenStopped, 0, multiset{});
      main, round, call, nextPacket, nextFrame := Calling, 0, 0, 0, 0;
      ledger := NOTHING;
    }

    /** The next step of the thread of the demuxer. */
    method StepDemuxer(read: Option<Kind>)
      requires Valid()
      modifies this`dem, this`vid, this`aud, this`ledger, this`nextPacket
      ensures old(dem.thread.DemTop?) ==> View() == DemuxerTop(old(View()), read)
      ensures old(dem.thread.DemHand?) ==> View() == DemuxerGive(old(View()))
      ensures old(dem.thread.DemStopped?) ==> View() == old(View())
      ensures Valid()
    {
      hide Inv, Scripted, KindsApart;
      ghost var w := View();
      DemuxerKeeps(w, read);
      DemuxerKeepsKinds(w, read);
      match dem.thread {
      case DemStopped =>
      case DemTop(pending) =>
        if dem.stops > 0 {
          if pending.Some? {
            ledger := ledger.(freedPackets := Add(ledger.freedPackets, pending.value));
          }
          dem := dem.(thread := DemStopped, stops := dem.stops - 1);
        } else if pending.Some? {
          dem := dem.(thread := DemHand(pending.value));
        } else if read.Some? {
          var p := Packet(nextPacket, read.value);
          nextPacket := nextPacket + 1;
          ledger := ledger.(read := Add(ledger.read, p), nextPacket := nextPacket);
          dem := dem.(thread := DemHand(p));
        }
      case DemHand(p) =>
        var pending := None;
        if p.kind == Neither {
          ledger := ledger.(freedPackets := Add(ledger.freedPackets, p));
        } else {
          var ok := PushPacket(p.kind == Audio, p);
          if !ok {
            pending := Some(p);
          }
        }
        dem := dem.(thread := DemTop(pending));
      }
      StatesStay(w, View(), round, call);
    }

    /** `pushBuffer` of a decoder. */
    method PushPacket(audio: bool, p: Packet) returns (ok: bool)
      modifies this`vid, this`aud
      ensures ok == Accepts(Dec(old(View()), audio))
      ensures View() == if ok then WithDec(old(View()), audio, Dec(old(View()), audio).(queue := Add(Dec(old(View()), audio).queue, p))) else old(View())
    {
      var d := if audio then aud else vid;
      if d.state == IDLE || |d.queue| >= MAX_SIZE {
        return false;
      }
      PutDecoder(audio, d.(queue := Add(d.queue, p)));
      ok := true;
    }

    method PutDecoder(audio: bool, d: Decoder)
      modifies this`vid, this`aud
      ensures View() == WithDec(old(View()), audio, d)
    {
      if audio {
        aud := d;
      } else {
        vid := d;
      }
    }

    /** The top of `decoding`. */
    method BeginDecoding(audio: bool, o: Option<Packet>)
      requires Dec(View(), audio).thread.DecTop? && Popped(Dec(View(), audio).queue, o)
      modifies this`vid, this`aud, this`ledger
      ensures View() == DecoderTop(old(View()), audio, o) && ledger.nextPacket == old(ledger.nextPacket) && ledger.nextFrame == old(ledger.nextFrame)
    {
      var d := if audio then aud else vid;
      var pending := d.thread.pending;
      if d.stops > 0 {
        if pending.Some? {
          ledger := ledger.(freedFrames := Add(ledger.freedFrames, pending.value));
        }
        PutDecoder(audio, d.(thread := DecDrain, stops := d.stops - 1));
      } else if pending.Some? {
        PutDecoder(audio, d.(thread := DecFrame(pending.value)));
      } else if o.Some? {
        PutDecoder(audio, d.(thread := DecPacket(o.value), queue := Drop(d.queue, o.value)));
      }
    }

    method Decode(audio: bool, decodes: bool)
      requires Dec(View(), audio).thread.DecPacket? && ledger.nextFrame == nextFrame
      modifies this`vid, this`aud, this`ledger, this`nextFrame
      ensures View() == DecoderDecode(old(View()), audio, decodes)
      ensures ledger.nextPacket == old(ledger.nextPacket) && ledger.nextFrame == nextFrame
    {
      var d := if audio then aud else vid;
      ledger := ledger.(freedPackets := Add(ledger.freedPackets, d.thread.packet));
      if decodes {
        var f := nextFrame;
        nextFrame := nextFrame + 1;
        ledger := ledger.(decoded := Add(ledger.decoded, f), nextFrame := nextFrame, frameOf := ledger.frameOf[f := d.thread.packet]);
        PutDecoder(audio, d.(thread := DecFrame(f)));
      } else {
        PutDecoder(audio, d.(thread := DecTop(None)));
      }
    }

    /** The end of a round of `decoding`. */
    method GiveFrame(audio: bool)
      requires Dec(View(), audio).thread.DecFrame?
      modifies this`vid, this`aud, this`ren, this`ledger
      ensures View() == DecoderGive(old(View()), audio) && ledger.nextPacket == old(ledger.nextPacket) && ledger.nextFrame == old(ledger.nextFrame)
    {
      var d := if audio then aud else vid;
      var f := d.thread.frame;
      var pending := None;
      if !audio {
        ledger := ledger.(freedFrames := Add(ledger.freedFrames, f), shown := ledger.shown + {f});
      } else {
        var ok := PushFrame(f);
        if !ok {
          pending := Some(f);
        }
      }
      PutDecoder(audio, d.(thread := DecTop(pending)));
    }

    /** A round of the loop that empties the queue of a decoder. */
    method DrainDecoder(audio: bool, o: Option<Packet>)
      requires Dec(View(), audio).thread.DecDrain? && Popped(Dec(View(), audio).queue, o)
      modifies this`vid, this`aud, this`ledger
      ensures View() == DecoderDrain(old(View()), audio, o) && ledger.nextPacket == old(ledger.nextPacket) && ledger.nextFrame == old(ledger.nextFrame)
    {
      var d := if audio then aud else vid;
      if o.Some? {
        ledger := ledger.(freedPackets := Add(ledger.freedPackets, o.value));
        PutDecoder(audio, d.(queue := Drop(d.queue, o.value)));
      } else {
        PutDecoder(audio, d.(thread := DecStopped));
      }
    }

    /** The next step of the thread of a decoder; a queue yields any of its packets. */
    method StepDecoder(audio: bool, decodes: bool) returns (o: Option<Packet>)
      requires Valid()
      modifies this`vid, this`aud, this`ren, this`ledger, this`nextFrame
      ensures Popped(old(Dec(View(), audio).queue), o)
      ensures View() == DecoderStep(old(View()), audio, o, decodes)
      ensures Valid()
    {
      hide Inv, Scripted, KindsApart, DecoderTop, DecoderDecode, DecoderGive, DecoderDrain;
      ghost var w := View();
      var d := if audio then aud else vid;
      o := None;
      if d.queue != multiset{} {
        var p :| p in d.queue;
        o := Some(p);
      }
      match d.thread {
        case DecStopped =>
        case DecTop(_) => BeginDecoding(audio, o);
        case DecPacket(_) => Decode(audio, decodes);
        case DecFrame(_) => GiveFrame(audio);
        case DecDrain => DrainDecoder(audio, o);
      }
      DecoderStepKeeps(w, audio, o, decodes, round, call);
      InvParts(w);
      DecoderStepKeepsKinds(w, audio, o, decodes);
    }

    /** `pushBuffer` of the render. */
    method PushFrame(f: nat) returns (ok: bool)
      modifies this`ren
      ensures ok == (Runs(old(ren.state)) && |old(ren.queue)| < MAX_SIZE)
      ensures ren == if ok then old(ren).(queue := Add(old(ren.queue), f)) else old(ren)
    {
      if ren.state == IDLE || ren.state == READY || |ren.queue| >= MAX_SIZE {
        return false;
      }
      ren := ren.(queue := Add(ren.queue, f));
      ok := true;
    }

    /** The next step of the thread of the render. */
    method StepRender() returns (o: Option<nat>)
      requires Valid()
      modifies this`ren, this`ledger
      ensures Popped(old(ren.queue), o)
      ensures var w := old(View()); match w.ren.thread
        case RenStopped => View() == w
        case RenTop => View() == RenderTop(w, o)
        case RenFrame(_) => View() == RenderWrite(w)
        case RenDrain => View() == RenderDrain(w, o)
      ensures Valid()
    {
      hide Inv, Scripted, KindsApart;
      ghost var w := View();
      o := None;
      if ren.queue != multiset{} {
        var f :| f in ren.queue;
        o := Some(f);
      }
      RenderKeeps(w, o);
      RenderKeepsKinds(w, o);
      match ren.thread {
      case RenStopped =>
      case RenTop =>
        if ren.stops > 0 {
          ren := ren.(thread := RenDrain, stops := ren.stops - 1);
        } else if ren.state != PAUSED && o.Some? {
          ren := ren.(thread := RenFrame(o.value), queue := Drop(ren.queue, o.value));
        }
      case RenFrame(f) =>
        ledger := ledger.(freedFrames := Add(ledger.freedFrames, f), played := ledger.played + {f});
        ren := ren.(thread := RenTop);
      case RenDrain =>
        if o.Some? {
          ledger := ledger.(freedFrames := Add(ledger.freedFrames, o.value));
          ren := ren.(queue := Drop(ren.queue, o.value));
        } else {
          ren := ren.(thread := RenStopped);
        }
      }
      StatesStay(w, View(), round, call);
    }

    method PutState(e: Element, s: State)
      modifies this`dem, this`vid, this`aud, this`ren
      ensures View() == WithState(old(View()), e, s)
    {
      match e
      case Dem => dem := dem.(state := s);
      case Vid => vid := vid.(state := s);
      case Aud => aud := aud.(state := s);
      case Ren => ren := ren.(state := s);
    }

    method StartThread(e: Element)
      modifies this`dem, this`vid, this`aud, this`ren
      ensures View() == WithThread(old(View()), e)
    {
      match e
      case Dem => dem := dem.(thread := DemTop(None));
      case Vid => vid := vid.(thread := DecTop(None));
      case Aud => aud := aud.(thread := DecTop(None));
      case Ren => ren := ren.(thread := RenTop);
    }

    /** `sendEvent` of a stop event to an element that is PAUSED. */
    method SendStop(e: Element)
      modifies this`dem, this`vid, this`aud, this`ren
      ensures View() == WithStop(old(View()), e)
    {
      match e
      case Dem => dem := dem.(stops := Sent(dem.stops));
      case Vid => vid := vid.(stops := Sent(vid.stops));
      case Aud => aud := aud.(stops := Sent(aud.stops));
      case Ren => ren := ren.(stops := Sent(ren.stops));
    }

    /** `setState` of an element, up to where it waits for a thread. */
    method SetElement(e: Element, to: State, opens: bool)
      requires main.Calling?
      modifies this`dem, this`vid, this`aud, this`ren, this`main
      ensures View() == SetState(old(View()), e, to, opens)
    {
      var current := match e case Dem => dem.state case Vid => vid.state case Aud => aud.state case Ren => ren.state;
      match to
      case IDLE =>
        if current == READY {
          PutState(e, IDLE);
        }
      case READY =>
        if current == IDLE {
          if e != Dem || opens {
            PutState(e, READY);
          }
        } else if current == PAUSED {
          SendStop(e);
          main := Joining(e);
        }
      case PAUSED =>
        if current == READY {
          StartThread(e);
          main := Starting(e);
        } else if current == PLAYING {
          PutState(e, PAUSED);
        }
      case PLAYING =>
        if current == PAUSED {
          PutState(e, PLAYING);
        }
    }

    /** The next step of the main thread. */
    method StepMain(opens: bool)
      requires Valid()
      modifies this`dem, this`vid, this`aud, this`ren, this`main, this`round, this`call
      ensures Valid()
      ensures old(main.Calling? && round < 6) ==> View() == SetState(old(View()), ElementOf(old(call)), Target(old(round)), opens)
      ensures old(!main.Calling?) ==> View() == GoOn(old(View()))
      ensures old(main.Calling? && round == 6) ==> View() == old(View())
      ensures 4 * round + call == 4 * old(round) + old(call) + if main.Calling? && !(old(main.Calling?) && old(round) == 6) then 1 else 0
    {
      hide Inv, Scripted, KindsApart, SetState;
      ghost var w := View();
      if main.Calling? {
        if round == 6 {
          return;
        }
        CallKeeps(w, round, call, opens);
        MainKeepsKinds(w, ElementOf(call), Target(round), opens);
        SetElement(ElementOf(call), Target(round), opens);
      } else {
        ResumeKeeps(w, round, call);
        MainKeepsKinds(w, Dem, IDLE, opens);
        var e := main.e;
        if main.Starting? {
          PutState(e, PAUSED);
          main := Calling;
        } else {
          var ended := match e case Dem => dem.thread.DemStopped? case Vid => vid.thread.DecStopped?
            case Aud => aud.thread.DecStopped? case Ren => ren.thread.RenStopped?;
          if !ended {
            return;
          }
          PutState(e, READY);
          main := Calling;
        }
      }
      if main.Calling? {
        if call < 3 {
          call := call + 1;
        } else {
          round, call := round + 1, 0;
        }
      }
    }

    /** How many calls the program has made. */
    ghost function Pos(): nat
      reads this`round, this`call
    {
      4 * round + call
    }

    /** The turn of one thread. */
    method TakeTurn(turn: Turn)
      requires Valid()
      modifies this
      ensures Valid() && IsTurn(old(View()), old(Pos()), View(), Pos(), turn)
    {
      hide Inv, KindsApart, Scripted, DemuxerTop, DemuxerGive, DecoderStep, RenderTop, RenderWrite, RenderDrain, SetState, GoOn;
      ghost var w := View();
      match turn
      case DemuxerTurn(read) => StepDemuxer(read);
      case DecoderTurn(audio, decodes) =>
        var o := StepDecoder(audio, decodes);
        assert DecoderMoves(w, View(), audio, decodes, o);
      case RenderTurn =>
        var o := StepRender();
        assert RenderMoves(w, View(), o);
      case MainTurn(opens) => StepMain(opens);
    }

    /**
     * The threads take turns in any order for any time; every turn is one step of its thread. Whenever the program has stopped all
     * of them, whatever was read is freed, whatever was decoded is freed, each once, and no queue holds anything.
     */
    method Run(turns: seq<Turn>)
      requires Valid()
      modifies this
      ensures Valid() && Leads(turns, old(View()), old(Pos()), View(), Pos())
      ensures round >= 5 ==> vid.queue == aud.queue == multiset{} && ren.queue == multiset{}
      ensures round >= 5 ==> ledger.freedPackets == ledger.read && ledger.freedFrames == ledger.decoded
      ensures forall p | p in vid.queue || vid.thread == DecPacket(p) :: p.kind == Video
      ensures forall p | p in aud.queue || aud.thread == DecPacket(p) :: p.kind == Audio
      ensures WrittenOnce(ledger)
    {
      hide Inv, Scripted, KindsApart, IsTurn, Leads, WrittenOnce;
      ghost var w0, pos0 := View(), Pos();
      LeadsNowhere(w0, pos0);
      for i := 0 to |turns|
        invariant Valid() && Leads(turns[..i], w0, pos0, View(), Pos())
      {
        ghost var mid, at := View(), Pos();
        TakeTurn(turns[i]);
        LeadsOneMore(turns[..i], turns[i], w0, pos0, mid, at, View(), Pos());
        assert turns[..i + 1] == turns[..i] + [turns[i]];
      }
      assert turns[..|turns|] == turns;
      if round >= 5 {
        Finished(View(), round, call);
      }
      InvParts(View());
      OfItsKind(View());
    }
  }
}
