/** Every wait of the program can end: from each state that a run can come to, some schedule ends the program. */
module PlayerEnds {
  import opened Pipeline
  import opened PipelineFlow
  import opened PlayerProgram
  import opened Players
  import opened Wrappers

  function DemLeft(t: DemThread): nat {
    match t case DemStopped => 0 case DemTop(_) => 1 case DemHand(_) => 2
  }

  function DecLeft(t: DecThread): nat {
    match t case DecStopped => 0 case DecDrain => 1 case DecTop(_) => 2 case DecFrame(_) => 3 case DecPacket(_) => 4
  }

  function RenLeft(t: RenThread): nat {
    match t case RenStopped => 0 case RenDrain => 1 case RenTop => 2 case RenFrame(_) => 3
  }

  /** The stop event that a thread was sent is still there as long as it loops. */
  lemma StopWaits(w: World)
    requires Inv(w) && w.main.Joining?
    ensures w.main.e.Dem? && !w.dem.thread.DemStopped? ==> w.dem.stops > 0
    ensures w.main.e.Vid? && Looping(w.vid) ==> w.vid.stops > 0
    ensures w.main.e.Aud? && Looping(w.aud) ==> w.aud.stops > 0
    ensures w.main.e.Ren? && RenLooping(w.ren) ==> w.ren.stops > 0
  {
    hide PacketsConserved, FramesConserved, Quiet;
  }

  lemma DemuxerComesNearer(w: World)
    requires w.dem.stops > 0
    ensures w.dem.thread.DemTop? ==> DemLeft(DemuxerTop(w, None).dem.thread) < DemLeft(w.dem.thread)
    ensures w.dem.thread.DemHand? ==> DemLeft(DemuxerGive(w).dem.thread) < DemLeft(w.dem.thread)
  {
  }

  /** A decoder that was sent a stop event comes nearer to its end with every step of its own. */
  lemma DecoderComesNearer(w: World, audio: bool, o: Option<Packet>, decodes: bool)
    requires Popped(Dec(w, audio).queue, o) && !Dec(w, audio).thread.DecStopped?
    requires Looping(Dec(w, audio)) ==> Dec(w, audio).stops > 0
    ensures var d, d' := Dec(w, audio), Dec(DecoderStep(w, audio, o, decodes), audio);
      DecLeft(d'.thread) < DecLeft(d.thread) || (d'.thread == d.thread && |d'.queue| < |d.queue|)
  {
  }

  lemma RenderComesNearer(w: World, o: Option<nat>)
    requires Popped(w.ren.queue, o) && (RenLooping(w.ren) ==> w.ren.stops > 0)
    ensures w.ren.thread.RenTop? ==> RenLeft(RenderTop(w, o).ren.thread) < RenLeft(w.ren.thread)
    ensures w.ren.thread.RenFrame? ==> RenLeft(RenderWrite(w).ren.thread) < RenLeft(w.ren.thread)
    ensures w.ren.thread.RenDrain? ==>
      var r := RenderDrain(w, o).ren; r.thread.RenStopped? || (r.thread.RenDrain? && |r.queue| < |w.ren.queue|)
  {
  }

  method EndDemuxer(p: Player) returns (ghost turns: seq<Turn>)
    requires p.Valid() && p.main == Joining(Dem)
    modifies p`dem, p`vid, p`aud, p`ledger, p`nextPacket
    ensures p.Valid() && p.dem.thread.DemStopped?
    ensures Leads(turns, old(p.View()), p.Pos(), p.View(), p.Pos()) && forall k | 0 <= k < |turns| :: IsOf(turns[k], Dem)
  {
    hide Inv, KindsApart, Scripted, Leads;
    ghost var w0 := p.View();
    turns := [];
    LeadsNowhere(w0, p.Pos());
    while !p.dem.thread.DemStopped?
      invariant p.Valid() && Leads(turns, w0, p.Pos(), p.View(), p.Pos()) && forall k | 0 <= k < |turns| :: IsOf(turns[k], Dem)
      decreases DemLeft(p.dem.thread)
    {
      ghost var w := p.View();
      StopWaits(w);
      DemuxerComesNearer(w);
      p.StepDemuxer(None);
      LeadsOneMore(turns, DemuxerTurn(None), w0, p.Pos(), w, p.Pos(), p.View(), p.Pos());
      turns := turns + [DemuxerTurn(None)];
    }
  }

  method EndDecoder(p: Player, audio: bool) returns (ghost turns: seq<Turn>)
    requires p.Valid() && p.main == Joining(if audio then Aud else Vid)
    modifies p`vid, p`aud, p`ren, p`ledger, p`nextFrame
    ensures p.Valid() && Dec(p.View(), audio).thread.DecStopped?
    ensures Leads(turns, old(p.View()), p.Pos(), p.View(), p.Pos()) && forall k | 0 <= k < |turns| :: IsOf(turns[k], p.main.e)
  {
    hide Inv, KindsApart, Scripted, Leads, DecoderStep;
    ghost var w0 := p.View();
    turns := [];
    LeadsNowhere(w0, p.Pos());
    while !(if audio then p.aud else p.vid).thread.DecStopped?
      invariant p.Valid() && Leads(turns, w0, p.Pos(), p.View(), p.Pos()) && forall k | 0 <= k < |turns| :: IsOf(turns[k], p.main.e)
      decreases DecLeft(Dec(p.View(), audio).thread), |Dec(p.View(), audio).queue|
    {
      ghost var w := p.View();
      StopWaits(w);
      var o := p.StepDecoder(audio, true);
      DecoderComesNearer(w, audio, o, true);
      assert DecoderMoves(w, p.View(), audio, true, o);
      LeadsOneMore(turns, DecoderTurn(audio, true), w0, p.Pos(), w, p.Pos(), p.View(), p.Pos());
      turns := turns + [DecoderTurn(audio, true)];
    }
  }

  method EndRender(p: Player) returns (ghost turns: seq<Turn>)
    requires p.Valid() && p.main == Joining(Ren)
    modifies p`ren, p`ledger
    ensures p.Valid() && p.ren.thread.RenStopped?
    ensures Leads(turns, old(p.View()), p.Pos(), p.View(), p.Pos()) && forall k | 0 <= k < |turns| :: IsOf(turns[k], Ren)
  {
    hide Inv, KindsApart, Scripted, Leads;
    ghost var w0 := p.View();
    turns := [];
    LeadsNowhere(w0, p.Pos());
    while !p.ren.thread.RenStopped?
      invariant p.Valid() && Leads(turns, w0, p.Pos(), p.View(), p.Pos()) && forall k | 0 <= k < |turns| :: IsOf(turns[k], Ren)
      decreases RenLeft(p.ren.thread), |p.ren.queue|
    {
      ghost var w := p.View();
      StopWaits(w);
      var o := p.StepRender();
      RenderComesNearer(w, o);
      assert RenderMoves(w, p.View(), o);
      LeadsOneMore(turns, RenderTurn, w0, p.Pos(), w, p.Pos(), p.View(), p.Pos());
      turns := turns + [RenderTurn];
    }
  }

  /** The thread that the program waits for ends when it gets its turns, whatever the others have done before. */
  method EndJoined(p: Player) returns (ghost turns: seq<Turn>)
    requires p.Valid() && p.main.Joining?
    modifies p`dem, p`vid, p`aud, p`ren, p`ledger, p`nextPacket, p`nextFrame
    ensures p.Valid() && Ended(p.View(), p.main.e)
    ensures Leads(turns, old(p.View()), p.Pos(), p.View(), p.Pos()) && forall k | 0 <= k < |turns| :: IsOf(turns[k], p.main.e)
  {
    hide Inv, KindsApart, Scripted, Leads;
    match p.main.e
    case Dem => turns := EndDemuxer(p);
    case Vid => turns := EndDecoder(p, false);
    case Aud => turns := EndDecoder(p, true);
    case Ren => turns := EndRender(p);
  }

  /**
   * From every state of a run the program can be brought to its end, by turns of the main thread and of the
   * threads that it waits for alone; then everything is freed.
   */
  method RunToEnd(p: Player) returns (ghost turns: seq<Turn>)
    requires p.Valid()
    modifies p
    ensures p.Valid() && p.round == 6 && Leads(turns, old(p.View()), old(p.Pos()), p.View(), p.Pos())
    ensures p.vid.queue == p.aud.queue == multiset{} && p.ren.queue == multiset{}
    ensures p.ledger.freedPackets == p.ledger.read && p.ledger.freedFrames == p.ledger.decoded
  {
    hide Inv, KindsApart, Scripted, Leads, IsTurn;
    ghost var w0, pos0 := p.View(), p.Pos();
    turns := [];
    LeadsNowhere(w0, pos0);
    while p.round < 6
      invariant p.Valid() && Leads(turns, w0, pos0, p.View(), p.Pos())
      decreases 24 - p.Pos(), if p.main.Calling? then 1 else 0
    {
      if p.main.Joining? {
        ghost var mid, at := p.View(), p.Pos();
        ghost var more := EndJoined(p);
        LeadsOn(turns, more, w0, pos0, mid, at, p.View(), p.Pos());
        turns := turns + more;
      }
      ghost var mid, at := p.View(), p.Pos();
      MainOn(p);
      LeadsOneMore(turns, MainTurn(true), w0, pos0, mid, at, p.View(), p.Pos());
      turns := turns + [MainTurn(true)];
    }
    Finished(p.View(), p.round, p.call);
  }

  /** A step of the program that need not wait. */
  method MainOn(p: Player)
    requires p.Valid() && p.round < 6 && (p.main.Joining? ==> Ended(p.View(), p.main.e))
    modifies p`dem, p`vid, p`aud, p`ren, p`main, p`round, p`call
    ensures p.Valid() && IsTurn(old(p.View()), old(p.Pos()), p.View(), p.Pos(), MainTurn(true))
    ensures p.Pos() > old(p.Pos()) || (p.Pos() == old(p.Pos()) && old(p.main.Calling?) && !p.main.Calling?)
  {
    hide Inv, KindsApart, Scripted, SetState;
    p.StepMain(true);
  }

  // ----- every fair schedule -----

  /** The queues are never longer than what a push accepts. */
  ghost predicate Bounded(w: World) {
    |w.vid.queue| <= MAX_SIZE && |w.aud.queue| <= MAX_SIZE && |w.ren.queue| <= MAX_SIZE
  }

  /** The turns that the thread the program waits for still needs; 0 when it has ended. */
  ghost function Left(w: World): nat {
    if !w.main.Joining? then 0
    else match w.main.e
      case Dem => DemLeft(w.dem.thread)
      case Vid => if w.vid.thread.DecStopped? then 0 else DecLeft(w.vid.thread) + |w.vid.queue|
      case Aud => if w.aud.thread.DecStopped? then 0 else DecLeft(w.aud.thread) + |w.aud.queue|
      case Ren => if w.ren.thread.RenStopped? then 0 else RenLeft(w.ren.thread) + |w.ren.queue|
  }

  const ENOUGH: nat := MAX_SIZE + 4

  lemma LeftBounded(w: World)
    requires Bounded(w)
    ensures Left(w) <= ENOUGH
    ensures w.main.Joining? ==> (Left(w) == 0 <==> Ended(w, w.main.e))
  {
  }

  /** A turn of the thread of an element. */
  predicate IsOf(turn: Turn, e: Element) {
    match e
    case Dem => turn.DemuxerTurn?
    case Vid => turn.DecoderTurn? && !turn.audio
    case Aud => turn.DecoderTurn? && turn.audio
    case Ren => turn.RenderTurn?
  }

  /** What a turn of another thread than the main one does to the thread that is waited for. */
  ghost predicate Nearer(w: World, v: World, turn: Turn) {
    && v.main == w.main && Bounded(v)
    && (w.main.Joining? ==> if IsOf(turn, w.main.e) && Left(w) > 0 then Left(v) < Left(w) else Left(v) == Left(w))
  }

  lemma DemuxerTurnNearer(w: World, read: Option<Kind>)
    requires Inv(w) && Bounded(w)
    ensures w.dem.thread.DemTop? ==> Nearer(w, DemuxerTop(w, read), DemuxerTurn(read))
    ensures w.dem.thread.DemHand? ==> Nearer(w, DemuxerGive(w), DemuxerTurn(read))
    ensures w.dem.thread.DemStopped? ==> Nearer(w, w, DemuxerTurn(read))
  {
    hide PacketsConserved, FramesConserved;
    if w.main.Joining? {
      StopWaits(w);
    }
  }

  /** Nobody fills the queue of an element that is waited for. */
  lemma NobodyFills(w: World)
    requires Inv(w) && w.main.Joining?
    ensures !w.main.e.Dem? && !w.main.e.Ren? ==> w.dem.thread.DemStopped?
    ensures w.main.e.Ren? ==> w.aud.thread.DecStopped?
  {
    hide PacketsConserved, FramesConserved, AllLive;
  }

  lemma DecoderTurnNearer(w: World, audio: bool, o: Option<Packet>, decodes: bool)
    requires Inv(w) && Bounded(w) && Popped(Dec(w, audio).queue, o)
    ensures Nearer(w, DecoderStep(w, audio, o, decodes), DecoderTurn(audio, decodes))
  {
    hide PacketsConserved, FramesConserved, AllLive, Quiet;
    if w.main.Joining? {
      StopWaits(w);
      NobodyFills(w);
    }
    DecoderTurnCases(w, audio, o, decodes);
  }

  lemma DecoderTurnCases(w: World, audio: bool, o: Option<Packet>, decodes: bool)
    requires Bounded(w) && Popped(Dec(w, audio).queue, o)
    requires w.main == Joining(if audio then Aud else Vid) && Looping(Dec(w, audio)) ==> Dec(w, audio).stops > 0
    requires w.main == Joining(Ren) ==> w.aud.thread.DecStopped?
    ensures Nearer(w, DecoderStep(w, audio, o, decodes), DecoderTurn(audio, decodes))
  {
    hide DecoderStep;
    var v := DecoderStep(w, audio, o, decodes);
    DecoderTurnElsewhere(w, audio, o, decodes);
    if w.main == Joining(if audio then Aud else Vid) && !Dec(w, audio).thread.DecStopped? {
      DecoderTurnOwn(w, audio, o, decodes);
    }
  }

  /** A step of a decoder changes nothing but itself, the ledger and, when the audio decoder gives a frame, the queue of the render. */
  lemma DecoderTurnElsewhere(w: World, audio: bool, o: Option<Packet>, decodes: bool)
    requires Bounded(w) && Popped(Dec(w, audio).queue, o)
    ensures var v := DecoderStep(w, audio, o, decodes);
      && v.main == w.main && v.dem == w.dem && Dec(v, !audio) == Dec(w, !audio) && v.ren.thread == w.ren.thread && Bounded(v)
      && (w.aud.thread.DecStopped? ==> v.ren.queue == w.ren.queue)
      && (Dec(w, audio).thread.DecStopped? ==> Dec(v, audio) == Dec(w, audio))
  {
    var v := DecoderStep(w, audio, o, decodes);
    match Dec(w, audio).thread {
      case DecFrame(_) => GiveElsewhere(w, audio);
      case _ =>
        hide DecoderGive;
        assert v == WithDec(w, audio, Dec(v, audio)).(l := v.l);
        assert |Dec(v, audio).queue| <= |Dec(w, audio).queue|;
    }
  }

  lemma GiveElsewhere(w: World, audio: bool)
    requires Bounded(w) && Dec(w, audio).thread.DecFrame?
    ensures var v := DecoderGive(w, audio);
      v.main == w.main && v.dem == w.dem && Dec(v, !audio) == Dec(w, !audio) && v.ren.thread == w.ren.thread && Bounded(v)
      && (w.aud.thread.DecStopped? ==> v.ren.queue == w.ren.queue)
  {
  }

  lemma DecoderTurnOwn(w: World, audio: bool, o: Option<Packet>, decodes: bool)
    requires Popped(Dec(w, audio).queue, o) && !Dec(w, audio).thread.DecStopped? && (Looping(Dec(w, audio)) ==> Dec(w, audio).stops > 0)
    ensures var d, d' := Dec(w, audio), Dec(DecoderStep(w, audio, o, decodes), audio);
      d'.thread.DecStopped? || DecLeft(d'.thread) + |d'.queue| < DecLeft(d.thread) + |d.queue|
  {
  }

  lemma RenderTurnNearer(w: World, o: Option<nat>)
    requires Inv(w) && Bounded(w) && Popped(w.ren.queue, o)
    ensures w.ren.thread.RenStopped? ==> Nearer(w, w, RenderTurn)
    ensures w.ren.thread.RenTop? ==> Nearer(w, RenderTop(w, o), RenderTurn)
    ensures w.ren.thread.RenFrame? ==> Nearer(w, RenderWrite(w), RenderTurn)
    ensures w.ren.thread.RenDrain? ==> Nearer(w, RenderDrain(w, o), RenderTurn)
  {
    hide PacketsConserved, FramesConserved, Quiet;
    if w.main.Joining? {
      StopWaits(w);
    }
  }

  lemma MainTurnBounded(w: World, e: Element, to: State, opens: bool)
    requires Bounded(w)
    ensures w.main.Calling? ==> Bounded(SetState(w, e, to, opens))
    ensures !w.main.Calling? ==> Bounded(GoOn(w))
  {
  }

  /** How far the program is from its end: three steps for a call at most, one of them for the end of a thread. */
  ghost function Rank(w: World, pos: nat): nat {
    if pos >= 24 then 0
    else 3 * (24 - pos) - if w.main.Calling? then 0 else if w.main.Joining? && Ended(w, w.main.e) then 2 else 1
  }

  /** One turn. The main thread gets on unless it waits for a thread that has not ended; nothing else throws it back. */
  method Step(p: Player, turn: Turn)
    requires p.Valid() && Bounded(p.View())
    modifies p
    ensures p.Valid() && Bounded(p.View())
    ensures !turn.MainTurn? ==> 4 * p.round + p.call == 4 * old(p.round) + old(p.call) && Nearer(old(p.View()), p.View(), turn)
    ensures turn.MainTurn? && old(Left(p.View())) > 0 ==> 4 * p.round + p.call == 4 * old(p.round) + old(p.call) && p.View() == old(p.View())
    ensures turn.MainTurn? && old(Left(p.View())) == 0 && old(p.round) < 6 ==>
      Rank(p.View(), 4 * p.round + p.call) < Rank(old(p.View()), 4 * old(p.round) + old(p.call))
    ensures turn.MainTurn? && old(p.round) == 6 ==> p.round == 6
    ensures IsTurn(old(p.View()), old(p.Pos()), p.View(), p.Pos(), turn)
  {
    hide Inv, KindsApart, Scripted, Nearer, Rank, Left, Bounded;
    if turn.MainTurn? {
      StepMainOn(p, turn.opens);
    } else {
      StepThread(p, turn);
    }
  }

  method StepThread(p: Player, turn: Turn)
    requires p.Valid() && Bounded(p.View()) && !turn.MainTurn?
    modifies p`dem, p`vid, p`aud, p`ren, p`ledger, p`nextPacket, p`nextFrame
    ensures p.Valid() && Bounded(p.View()) && Nearer(old(p.View()), p.View(), turn)
    ensures IsTurn(old(p.View()), p.Pos(), p.View(), p.Pos(), turn)
  {
    hide Inv, KindsApart, Scripted, Left, DecoderStep, DemuxerTop, DemuxerGive, RenderTop, RenderWrite, RenderDrain;
    ghost var w := p.View();
    match turn
    case DemuxerTurn(read) =>
      DemuxerTurnNearer(w, read);
      p.StepDemuxer(read);
    case DecoderTurn(audio, decodes) =>
      var o := p.StepDecoder(audio, decodes);
      DecoderTurnNearer(w, audio, o, decodes);
      assert DecoderMoves(w, p.View(), audio, decodes, o);
    case RenderTurn =>
      var o := p.StepRender();
      RenderTurnNearer(w, o);
      assert RenderMoves(w, p.View(), o);
  }

  method StepMainOn(p: Player, opens: bool)
    requires p.Valid() && Bounded(p.View())
    modifies p`dem, p`vid, p`aud, p`ren, p`main, p`round, p`call
    ensures p.Valid() && Bounded(p.View())
    ensures old(Left(p.View())) > 0 ==> 4 * p.round + p.call == 4 * old(p.round) + old(p.call) && p.View() == old(p.View())
    ensures old(Left(p.View())) == 0 && old(p.round) < 6 ==>
      Rank(p.View(), 4 * p.round + p.call) < Rank(old(p.View()), 4 * old(p.round) + old(p.call))
    ensures old(p.round) == 6 ==> p.round == 6
    ensures IsTurn(old(p.View()), old(p.Pos()), p.View(), p.Pos(), MainTurn(opens))
  {
    hide Inv, KindsApart, Scripted, SetState;
    ghost var w := p.View();
    LeftBounded(w);
    MainTurnBounded(w, ElementOf(p.call), Target(p.round), opens);
    p.StepMain(opens);
  }

  /** How many turns the thread of an element gets. */
  ghost function TurnsOf(turns: seq<Turn>, e: Element): nat {
    if turns == [] then 0 else TurnsOf(turns[..|turns| - 1], e) + if IsOf(turns[|turns| - 1], e) then 1 else 0
  }

  ghost predicate HasMain(turns: seq<Turn>) {
    exists i :: 0 <= i < |turns| && turns[i].MainTurn?
  }

  /** Every thread gets as many turns as it may need to come to its end, and the main one gets a turn; in any order. */
  ghost predicate Fair(turns: seq<Turn>) {
    HasMain(turns) && forall e: Element :: TurnsOf(turns, e) >= ENOUGH
  }

  lemma OneMoreTurn(turns: seq<Turn>, turn: Turn, e: Element)
    ensures TurnsOf(turns + [turn], e) == TurnsOf(turns, e) + if IsOf(turn, e) then 1 else 0
    ensures HasMain(turns + [turn]) <==> HasMain(turns) || turn.MainTurn?
  {
    assert (turns + [turn])[..|turns|] == turns;
    if i :| 0 <= i < |turns| && turns[i].MainTurn? {
      assert (turns + [turn])[i].MainTurn?;
    }
    if turn.MainTurn? {
      assert (turns + [turn])[|turns|].MainTurn?;
    }
  }

  /** Behind the turns the program has got on; or it still waits, for a thread that has come nearer to its end with each turn of its own, or had no turn. */
  ghost predicate Progress(w0: World, pos0: nat, w: World, pos: nat, turns: seq<Turn>) {
    || Rank(w, pos) < Rank(w0, pos0)
    || (&& pos == pos0 && w.main == w0.main && Rank(w, pos) == Rank(w0, pos0)
        && if Left(w0) > 0 then Left(w) > 0 && w0.main.Joining? && Left(w) + TurnsOf(turns, w0.main.e) <= Left(w0)
           else Left(w) == 0 && !HasMain(turns))
  }

  lemma ThreadTurnRank(w: World, v: World, turn: Turn, pos: nat)
    requires Bounded(w) && Nearer(w, v, turn)
    ensures Rank(v, pos) <= Rank(w, pos)
    ensures pos < 24 && Left(w) > 0 && Left(v) == 0 ==> Rank(v, pos) < Rank(w, pos)
  {
    LeftBounded(w);
    LeftBounded(v);
  }

  lemma ProgressThread(w0: World, pos0: nat, w: World, pos: nat, turns: seq<Turn>, v: World, turn: Turn)
    requires Progress(w0, pos0, w, pos, turns) && pos0 < 24 && !turn.MainTurn? && Bounded(w) && Nearer(w, v, turn)
    ensures Progress(w0, pos0, v, pos, turns + [turn])
  {
    ThreadTurnRank(w, v, turn, pos);
    hide Rank, Left, TurnsOf, HasMain;
    NotJoining(w);
    NotJoining(v);
    if w0.main.Joining? {
      OneMoreTurn(turns, turn, w0.main.e);
    } else {
      OneMoreTurn(turns, turn, Dem);
    }
  }

  lemma NotJoining(w: World)
    ensures !w.main.Joining? ==> Left(w) == 0
  {
  }

  lemma ProgressMain(w0: World, pos0: nat, w: World, pos: nat, turns: seq<Turn>, v: World, pos': nat, turn: Turn)
    requires Progress(w0, pos0, w, pos, turns) && pos0 < 24 && turn.MainTurn?
    requires Left(w) > 0 ==> pos' == pos && v == w
    requires Left(w) == 0 && pos < 24 ==> Rank(v, pos') < Rank(w, pos)
    requires pos >= 24 ==> pos' >= 24
    ensures Progress(w0, pos0, v, pos', turns + [turn])
  {
    hide Left, TurnsOf, HasMain;
    if w0.main.Joining? {
      OneMoreTurn(turns, turn, w0.main.e);
    }
  }

  /** So a fair piece of a schedule always brings the program on. */
  method RunPiece(p: Player, turns: seq<Turn>)
    requires p.Valid() && Bounded(p.View()) && p.round < 6 && Fair(turns)
    modifies p
    ensures p.Valid() && Bounded(p.View())
    ensures Rank(p.View(), 4 * p.round + p.call) < Rank(old(p.View()), 4 * old(p.round) + old(p.call))
    ensures Leads(turns, old(p.View()), old(p.Pos()), p.View(), p.Pos())
  {
    hide Inv, KindsApart, Scripted, Nearer, Rank, Left, Bounded, TurnsOf, Progress, Fair, Leads, IsTurn;
    ghost var w0, pos0 := p.View(), 4 * p.round + p.call;
    ProgressBegins(w0, pos0);
    LeadsNowhere(w0, pos0);
    for i := 0 to |turns|
      invariant p.Valid() && Bounded(p.View()) && Leads(turns[..i], w0, pos0, p.View(), p.Pos())
      invariant Progress(w0, pos0, p.View(), 4 * p.round + p.call, turns[..i])
    {
      ghost var w, pos := p.View(), 4 * p.round + p.call;
      Step(p, turns[i]);
      LeadsOneMore(turns[..i], turns[i], w0, pos0, w, pos, p.View(), p.Pos());
      assert turns[..i + 1] == turns[..i] + [turns[i]];
      if turns[i].MainTurn? {
        ProgressMain(w0, pos0, w, pos, turns[..i], p.View(), 4 * p.round + p.call, turns[i]);
      } else {
        ProgressThread(w0, pos0, w, pos, turns[..i], p.View(), turns[i]);
      }
    }
    assert turns[..|turns|] == turns;
    ProgressEnds(w0, pos0, p.View(), 4 * p.round + p.call, turns);
  }

  lemma ProgressBegins(w: World, pos: nat)
    ensures Progress(w, pos, w, pos, [])
  {
  }

  lemma ProgressEnds(w0: World, pos0: nat, w: World, pos: nat, turns: seq<Turn>)
    requires Progress(w0, pos0, w, pos, turns) && Bounded(w0) && Fair(turns)
    ensures Rank(w, pos) < Rank(w0, pos0)
  {
    hide Rank, TurnsOf, HasMain;
    LeftBounded(w0);
    if w0.main.Joining? {
      assert TurnsOf(turns, w0.main.e) >= ENOUGH;
    }
  }

  /** The turns of several pieces, one piece behind the other. */
  ghost function Joined(pieces: seq<seq<Turn>>): seq<Turn> {
    if pieces == [] then [] else Joined(pieces[..|pieces| - 1]) + pieces[|pieces| - 1]
  }

  /**
   * No wait is for ever: every schedule that is made of enough fair pieces, 72 from the start, ends the
   * program, whatever the order of the turns in them; then everything is freed.
   */
  method RunFair(p: Player, pieces: seq<seq<Turn>>) returns (n: nat)
    requires p.Valid() && Bounded(p.View()) && Rank(p.View(), 4 * p.round + p.call) <= |pieces|
    requires forall k | 0 <= k < |pieces| :: Fair(pieces[k])
    modifies p
    ensures n <= |pieces| && p.Valid() && p.round == 6 && Leads(Joined(pieces[..n]), old(p.View()), old(p.Pos()), p.View(), p.Pos())
    ensures p.vid.queue == p.aud.queue == multiset{} && p.ren.queue == multiset{}
    ensures p.ledger.freedPackets == p.ledger.read && p.ledger.freedFrames == p.ledger.decoded
  {
    hide Inv, KindsApart, Scripted, Bounded, Fair, Leads;
    n := 0;
    ghost var w0, pos0 := p.View(), p.Pos();
    LeadsNowhere(w0, pos0);
    while p.round < 6
      invariant p.Valid() && Bounded(p.View()) && n + Rank(p.View(), 4 * p.round + p.call) <= |pieces|
      invariant Leads(Joined(pieces[..n]), w0, pos0, p.View(), p.Pos())
      decreases |pieces| - n
    {
      ghost var mid, at := p.View(), p.Pos();
      RunPiece(p, pieces[n]);
      LeadsOn(Joined(pieces[..n]), pieces[n], w0, pos0, mid, at, p.View(), p.Pos());
      assert pieces[..n + 1][..n] == pieces[..n];
      n := n + 1;
    }
    Finished(p.View(), p.round, p.call);
  }

  lemma StartRank()
    ensures Bounded(START) && Rank(START, 0) == 72
  {
  }

  /**
   * If a program stops the render before the audio decoder, a frame may come to the render's queue when that has
   * been emptied for the last time but the render still counts as PAUSED; it is never freed.
   */
  lemma FrameLeftBehind(w: World)
    requires InOrder(w) && FramesConserved(w) && w.main.Calling?
    requires w.aud.state == PAUSED && w.aud.thread.DecFrame? && w.aud.queue == multiset{}
    requires w.ren.state == PAUSED && w.ren.thread == RenTop && w.ren.queue == multiset{}
    ensures
      var f := w.aud.thread.frame;
      var stopRender := GoOn(DecoderGive(RenderDrain(RenderTop(SetState(w, Ren, READY, true), None), None), true));
      var stopAudio := GoOn(DecoderDrain(DecoderTop(SetState(stopRender, Aud, READY, true), true, None), true, None));
      && stopAudio.ren.thread.RenStopped? && stopAudio.aud.thread.DecStopped? && stopAudio.main.Calling?
      && stopAudio.ren.queue == multiset{f} && f !in stopAudio.l.freedFrames
  {
    assert FrameOk(w, w.aud.thread.frame);
  }
}
