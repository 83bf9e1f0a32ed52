/**
 * What flows through the media pipeline: which packets come to which decoder, from which packet a frame was decoded
 * before a device writes it, and what the steps of the threads do together.
 */
module PipelineFlow {
  import opened Pipeline
  import opened PlayerProgram
  import opened Wrappers

  // ----- every run keeps video and audio apart -----

  type Sources = map<nat, Packet>

  /** The frame was decoded from a packet of this kind. */
  ghost predicate From(sources: Sources, f: nat, kind: Kind) {
    f in sources && sources[f].kind == kind
  }

  ghost predicate PacketsOf(queue: multiset<Packet>, kind: Kind) {
    forall p | p in queue :: p.kind == kind
  }

  ghost predicate FramesFrom(queue: multiset<nat>, sources: Sources, kind: Kind) {
    forall f | f in queue :: From(sources, f, kind)
  }

  ghost predicate HandOf(t: DecThread, sources: Sources, kind: Kind) {
    match t
    case DecPacket(p) => p.kind == kind
    case DecFrame(f) => From(sources, f, kind)
    case DecTop(pending) => pending.Some? ==> From(sources, pending.value, kind)
    case _ => true
  }

  /** All that a decoder has, in its queue or in its hand, is of its own kind. */
  ghost predicate DecoderHas(d: Decoder, sources: Sources, kind: Kind) {
    PacketsOf(d.queue, kind) && HandOf(d.thread, sources, kind)
  }

  ghost predicate RenderHas(r: Render, sources: Sources) {
    FramesFrom(r.queue, sources, Audio) && (r.thread.RenFrame? ==> From(sources, r.thread.frame, Audio))
  }

  /** No two frames were decoded from one packet, and a packet is freed when it has been decoded. */
  ghost predicate FramesHaveSources(l: Ledger) {
    && (forall f: nat :: f in l.decoded <==> f in l.frameOf)
    && (forall f | f in l.frameOf :: f < l.nextFrame && l.frameOf[f] in l.freedPackets)
    && (forall f, g | f in l.frameOf && g in l.frameOf && l.frameOf[f] == l.frameOf[g] :: f == g)
  }

  /** What a device has written was decoded from a packet of the device's kind, and is freed. */
  ghost predicate DevicesWrote(l: Ledger) {
    && (forall f | f in l.shown :: From(l.frameOf, f, Video) && f in l.freedFrames)
    && (forall f | f in l.played :: From(l.frameOf, f, Audio) && f in l.freedFrames)
  }

  ghost predicate KindsApart(w: World) {
    && DecoderHas(w.vid, w.l.frameOf, Video) && DecoderHas(w.aud, w.l.frameOf, Audio) && RenderHas(w.ren, w.l.frameOf)
    && FramesHaveSources(w.l) && DevicesWrote(w.l)
  }

  lemma QueueChanges(queue: multiset<Packet>, p: Packet, kind: Kind)
    requires PacketsOf(queue, kind)
    ensures p.kind == kind ==> PacketsOf(Add(queue, p), kind)
    ensures p in queue ==> p.kind == kind && PacketsOf(Drop(queue, p), kind)
  {
  }

  lemma FrameQueueChanges(queue: multiset<nat>, sources: Sources, f: nat, kind: Kind)
    requires FramesFrom(queue, sources, kind)
    ensures From(sources, f, kind) ==> FramesFrom(Add(queue, f), sources, kind)
    ensures f in queue ==> From(sources, f, kind) && FramesFrom(Drop(queue, f), sources, kind)
  {
  }

  /** Reading and freeing packets, and freeing frames, changes nothing about sources. */
  lemma LedgerStays(l: Ledger, l': Ledger)
    requires FramesHaveSources(l) && DevicesWrote(l)
    requires l'.frameOf == l.frameOf && l'.decoded == l.decoded && l'.nextFrame == l.nextFrame && l'.shown == l.shown && l'.played == l.played
    requires l.freedPackets <= l'.freedPackets && l.freedFrames <= l'.freedFrames
    ensures FramesHaveSources(l') && DevicesWrote(l')
  {
  }

  lemma FreedMore(l: Ledger, o: Option<Packet>, f: Option<nat>)
    ensures l.freedPackets <= FreePackets(l, o).freedPackets && l.freedFrames <= FreeFrames(l, f).freedFrames
  {
  }

  lemma DemuxerTopKeepsKinds(w: World, read: Option<Kind>)
    requires KindsApart(w) && w.dem.thread.DemTop?
    ensures KindsApart(DemuxerTop(w, read))
  {
    hide DecoderHas, RenderHas, FramesHaveSources, DevicesWrote;
    FreedMore(w.l, w.dem.thread.pending, None);
    LedgerStays(w.l, DemuxerTop(w, read).l);
  }

  lemma DemuxerGiveKeepsKinds(w: World)
    requires KindsApart(w) && w.dem.thread.DemHand?
    ensures KindsApart(DemuxerGive(w))
  {
    hide PacketsOf, RenderHas, HandOf, FramesHaveSources, DevicesWrote, Add, Accepts;
    var p := w.dem.thread.packet;
    QueueChanges(w.vid.queue, p, Video);
    QueueChanges(w.aud.queue, p, Audio);
    FreedMore(w.l, Some(p), None);
    LedgerStays(w.l, DemuxerGive(w).l);
  }

  lemma DecoderKeepsKinds(w: World, audio: bool, d: Decoder, l: Ledger)
    requires KindsApart(w) && l.frameOf == w.l.frameOf && DecoderHas(d, w.l.frameOf, if audio then Audio else Video)
    requires FramesHaveSources(l) && DevicesWrote(l)
    ensures KindsApart(WithDec(w, audio, d).(l := l))
  {
    hide DecoderHas, RenderHas, FramesHaveSources, DevicesWrote;
  }

  lemma DecoderTopKeepsKinds(w: World, audio: bool, o: Option<Packet>)
    requires KindsApart(w) && Dec(w, audio).thread.DecTop? && Popped(Dec(w, audio).queue, o)
    ensures KindsApart(DecoderTop(w, audio, o))
  {
    hide DecoderHas, FramesHaveSources, DevicesWrote, KindsApart, Drop;
    var v := DecoderTop(w, audio, o);
    KindsParts(w, audio);
    DecoderTopHas(w, audio, o, if audio then Audio else Video);
    FreedMore(w.l, None, Dec(w, audio).thread.pending);
    LedgerStays(w.l, v.l);
    assert v == WithDec(w, audio, Dec(v, audio)).(l := v.l);
    DecoderKeepsKinds(w, audio, Dec(v, audio), v.l);
  }

  lemma DecoderTopHas(w: World, audio: bool, o: Option<Packet>, kind: Kind)
    requires DecoderHas(Dec(w, audio), w.l.frameOf, kind) && Dec(w, audio).thread.DecTop? && Popped(Dec(w, audio).queue, o)
    ensures DecoderHas(Dec(DecoderTop(w, audio, o), audio), w.l.frameOf, kind)
  {
    hide PacketsOf, From, Drop;
    if o.Some? {
      QueueChanges(Dec(w, audio).queue, o.value, kind);
    }
  }

  lemma KindsParts(w: World, audio: bool)
    requires KindsApart(w)
    ensures DecoderHas(Dec(w, audio), w.l.frameOf, if audio then Audio else Video)
    ensures FramesHaveSources(w.l) && DevicesWrote(w.l) && RenderHas(w.ren, w.l.frameOf)
  {
    hide DecoderHas, RenderHas, FramesHaveSources, DevicesWrote;
  }

  lemma DecoderDecodeKeepsKinds(w: World, audio: bool, decodes: bool)
    requires KindsApart(w) && PacketsConserved(w) && Dec(w, audio).thread.DecPacket?
    ensures KindsApart(DecoderDecode(w, audio, decodes))
  {
    hide KindsApart, DecoderHas, RenderHas, FramesHaveSources, DevicesWrote, PacketsConserved;
    var d, v, kind := Dec(w, audio), DecoderDecode(w, audio, decodes), if audio then Audio else Video;
    var p := d.thread.packet;
    KindsParts(w, audio);
    FreedMore(w.l, Some(p), None);
    var l := FreePackets(w.l, Some(p));
    LedgerStays(w.l, l);
    InHandIsOf(d, w.l.frameOf, p, kind);
    if decodes {
      NotFreed(w, audio, p);
      NewFrame(w.l, p, kind);
      var sources := v.l.frameOf;
      SourcesGrow(w, p);
      NewFrameKeepsKinds(w, audio, v);
    } else {
      DecoderKeepsKinds(w, audio, Dec(v, audio), v.l);
    }
  }

  lemma InHandIsOf(d: Decoder, sources: Sources, p: Packet, kind: Kind)
    requires DecoderHas(d, sources, kind) && d.thread == DecPacket(p)
    ensures p.kind == kind && DecoderHas(d.(thread := DecTop(None)), sources, kind)
  {
    hide PacketsOf;
  }

  lemma NotFreed(w: World, audio: bool, p: Packet)
    requires PacketsConserved(w) && Dec(w, audio).thread == DecPacket(p)
    ensures p !in w.l.freedPackets
  {
    assert PacketOk(w, p);
  }

  /** The books behind a decoded packet. */
  ghost function Decoded(l: Ledger, p: Packet): Ledger {
    l.(freedPackets := Add(l.freedPackets, p), decoded := Add(l.decoded, l.nextFrame), nextFrame := l.nextFrame + 1,
       frameOf := l.frameOf[l.nextFrame := p])
  }

  lemma NewFrame(l: Ledger, p: Packet, kind: Kind)
    requires FramesHaveSources(l) && DevicesWrote(l) && p !in l.freedPackets && p.kind == kind
    ensures FramesHaveSources(Decoded(l, p)) && DevicesWrote(Decoded(l, p)) && From(Decoded(l, p).frameOf, l.nextFrame, kind)
  {
    var l' := Decoded(l, p);
    assert l.nextFrame !in l.frameOf;
    forall f | f in l'.frameOf ensures f < l'.nextFrame && l'.frameOf[f] in l'.freedPackets {
      assert f != l.nextFrame ==> l.frameOf[f] in l.freedPackets;
    }
    forall f, g | f in l'.frameOf && g in l'.frameOf && l'.frameOf[f] == l'.frameOf[g] ensures f == g {
      assert f in l.frameOf ==> l.frameOf[f] in l.freedPackets;
      assert g in l.frameOf ==> l.frameOf[g] in l.freedPackets;
    }
  }

  /** Whoever has frames with sources still has, when there is one more source. */
  lemma SourcesGrow(w: World, p: Packet)
    requires KindsApart(w)
    ensures var sources := w.l.frameOf[w.l.nextFrame := p];
      DecoderHas(w.vid, sources, Video) && DecoderHas(w.aud, sources, Audio) && RenderHas(w.ren, sources)
  {
    assert w.l.nextFrame !in w.l.frameOf;
  }

  lemma NewFrameKeepsKinds(w: World, audio: bool, v: World)
    requires KindsApart(w) && Dec(w, audio).thread.DecPacket? && v == DecoderDecode(w, audio, true)
    requires v.l == Decoded(w.l, Dec(w, audio).thread.packet) && From(v.l.frameOf, w.l.nextFrame, if audio then Audio else Video)
    requires FramesHaveSources(v.l) && DevicesWrote(v.l)
    requires DecoderHas(w.vid, v.l.frameOf, Video) && DecoderHas(w.aud, v.l.frameOf, Audio) && RenderHas(w.ren, v.l.frameOf)
    ensures KindsApart(v)
  {
    hide PacketsOf, FramesFrom, FramesHaveSources, DevicesWrote;
  }

  lemma DecoderGiveKeepsKinds(w: World, audio: bool)
    requires KindsApart(w) && Dec(w, audio).thread.DecFrame?
    ensures KindsApart(DecoderGive(w, audio))
  {
    hide PacketsOf, FramesFrom, FramesHaveSources, DevicesWrote, Add;
    var f := Dec(w, audio).thread.frame;
    if audio {
      FrameQueueChanges(w.ren.queue, w.l.frameOf, f, Audio);
    } else {
      Written(w.l, f);
    }
  }

  lemma Written(l: Ledger, f: nat)
    requires FramesHaveSources(l) && DevicesWrote(l)
    ensures From(l.frameOf, f, Video) ==>
      var l' := FreeFrames(l, Some(f)).(shown := l.shown + {f}); FramesHaveSources(l') && DevicesWrote(l')
    ensures From(l.frameOf, f, Audio) ==>
      var l' := FreeFrames(l, Some(f)).(played := l.played + {f}); FramesHaveSources(l') && DevicesWrote(l')
  {
  }

  lemma DecoderDrainKeepsKinds(w: World, audio: bool, o: Option<Packet>)
    requires KindsApart(w) && Dec(w, audio).thread.DecDrain? && Popped(Dec(w, audio).queue, o)
    ensures KindsApart(DecoderDrain(w, audio, o))
  {
    hide PacketsOf, RenderHas, FramesHaveSources, DevicesWrote, KindsApart, Drop;
    var d, v, kind := Dec(w, audio), DecoderDrain(w, audio, o), if audio then Audio else Video;
    KindsParts(w, audio);
    if o.Some? {
      QueueChanges(d.queue, o.value, kind);
    }
    FreedMore(w.l, o, None);
    LedgerStays(w.l, v.l);
    assert v == WithDec(w, audio, Dec(v, audio)).(l := v.l);
    DecoderKeepsKinds(w, audio, Dec(v, audio), v.l);
  }

  lemma DecoderStepKeepsKinds(w: World, audio: bool, o: Option<Packet>, decodes: bool)
    requires KindsApart(w) && PacketsConserved(w) && Popped(Dec(w, audio).queue, o)
    ensures KindsApart(DecoderStep(w, audio, o, decodes))
  {
    hide KindsApart, PacketsConserved, DecoderTop, DecoderDecode, DecoderGive, DecoderDrain;
    match Dec(w, audio).thread {
      case DecStopped =>
      case DecTop(_) => DecoderTopKeepsKinds(w, audio, o);
      case DecPacket(_) => DecoderDecodeKeepsKinds(w, audio, decodes);
      case DecFrame(_) => DecoderGiveKeepsKinds(w, audio);
      case DecDrain => DecoderDrainKeepsKinds(w, audio, o);
    }
  }

  lemma RenderKeepsKinds(w: World, o: Option<nat>)
    requires KindsApart(w)
    ensures w.ren.thread.RenTop? && Popped(w.ren.queue, o) ==> KindsApart(RenderTop(w, o))
    ensures w.ren.thread.RenFrame? ==> KindsApart(RenderWrite(w))
    ensures w.ren.thread.RenDrain? && Popped(w.ren.queue, o) ==> KindsApart(RenderDrain(w, o))
  {
    hide DecoderHas, FramesFrom, FramesHaveSources, DevicesWrote, Drop;
    if Popped(w.ren.queue, o) && o.Some? {
      FrameQueueChanges(w.ren.queue, w.l.frameOf, o.value, Audio);
      FreedMore(w.l, None, o);
      LedgerStays(w.l, FreeFrames(w.l, o));
    }
    if w.ren.thread.RenFrame? {
      Written(w.l, w.ren.thread.frame);
    }
  }

  lemma MainKeepsKinds(w: World, e: Element, to: State, opens: bool)
    requires KindsApart(w)
    ensures w.main.Calling? ==> KindsApart(SetState(w, e, to, opens))
    ensures !w.main.Calling? ==> KindsApart(GoOn(w))
  {
    hide PacketsOf, FramesFrom, FramesHaveSources, DevicesWrote;
  }

  lemma DemuxerKeepsKinds(w: World, read: Option<Kind>)
    requires KindsApart(w)
    ensures w.dem.thread.DemTop? ==> KindsApart(DemuxerTop(w, read))
    ensures w.dem.thread.DemHand? ==> KindsApart(DemuxerGive(w))
  {
    hide KindsApart;
    if w.dem.thread.DemTop? {
      DemuxerTopKeepsKinds(w, read);
    } else if w.dem.thread.DemHand? {
      DemuxerGiveKeepsKinds(w);
    }
  }

  lemma InvParts(w: World)
    requires Inv(w)
    ensures PacketsConserved(w) && FramesConserved(w)
  {
  }

  /**
   * Every frame that was written to the video device was decoded from a video packet that was read, and every one that was
   * written to the audio device from an audio packet; different frames from different packets, and each is freed once.
   */
  ghost predicate WrittenOnce(l: Ledger) {
    && (forall f | f in l.shown :: f in l.frameOf && l.frameOf[f].kind == Video && l.frameOf[f] in l.read)
    && (forall f | f in l.played :: f in l.frameOf && l.frameOf[f].kind == Audio && l.frameOf[f] in l.read)
    && (forall f | f in l.shown || f in l.played :: l.freedFrames[f] == 1)
    && (forall f, g | f in l.frameOf && g in l.frameOf && f != g :: l.frameOf[f] != l.frameOf[g])
  }

  lemma OfItsKind(w: World)
    requires KindsApart(w) && PacketsConserved(w) && FramesConserved(w)
    ensures forall p | p in w.vid.queue || w.vid.thread == DecPacket(p) :: p.kind == Video
    ensures forall p | p in w.aud.queue || w.aud.thread == DecPacket(p) :: p.kind == Audio
    ensures WrittenOnce(w.l)
  {
    forall f | f in w.l.frameOf ensures w.l.frameOf[f] in w.l.read {
      assert w.l.frameOf[f] in w.l.freedPackets;
      assert PacketOk(w, w.l.frameOf[f]);
    }
    forall f: nat | f in w.l.freedFrames ensures w.l.freedFrames[f] == 1 {
      assert FrameOk(w, f);
    }
  }

  // ----- what the steps do together -----

  /** A decoder between two rounds, with room in its queue and nothing that would hold it up. */
  predicate Free(d: Decoder) {
    d.thread == DecTop(None) && d.stops == 0 && d.state != IDLE && |d.queue| < 256
  }

  /** The books when one packet more has been read and freed. */
  ghost function OnePacketMore(l: Ledger, p: Packet): Ledger {
    l.(read := l.read + multiset{p}, freedPackets := l.freedPackets + multiset{p}, nextPacket := p.id + 1)
  }

  /** And when one frame more has been decoded from it and freed. */
  ghost function OneFrameMore(l: Ledger, p: Packet, f: nat): Ledger {
    l.(decoded := l.decoded + multiset{f}, freedFrames := l.freedFrames + multiset{f}, nextFrame := f + 1, frameOf := l.frameOf[f := p])
  }

  /** What is left of the way of a packet behind the demuxer: to the decoder, through it, and out of it as a frame. */
  ghost function Through(w: World, audio: bool, p: Packet): World
    requires w.dem.thread.DemTop? && w.dem.thread.pending.None? && w.dem.stops == 0 && p == Packet(w.l.nextPacket, if audio then Audio else Video)
    requires Free(Dec(w, audio))
  {
    var taken := DecoderTop(DemuxerGive(DemuxerTop(w, Some(p.kind))), audio, Some(p));
    DecoderGive(DecoderDecode(taken, audio, true), audio)
  }

  /** A video packet that is read comes to the video device: it is decoded, shown and freed, and nothing else changes. */
  lemma VideoIsShown(w: World)
    requires w.dem.thread == DemTop(None) && w.dem.stops == 0 && Free(w.vid)
    ensures var p, f := Packet(w.l.nextPacket, Video), w.l.nextFrame;
      Through(w, false, p) == w.(l := OneFrameMore(OnePacketMore(w.l, p), p, f).(shown := w.l.shown + {f}))
  {
    var p := Packet(w.l.nextPacket, Video);
    AddDrop(w.vid.queue, p);
    AddsOne(w.l.read, p);
    AddsOne(w.l.freedPackets, p);
    AddsOne(w.l.decoded, w.l.nextFrame);
    AddsOne(w.l.freedFrames, w.l.nextFrame);
  }

  /** An audio packet that is read comes to the audio device, if the render is playing and has room. */
  lemma AudioIsPlayed(w: World)
    requires w.dem.thread == DemTop(None) && w.dem.stops == 0 && Free(w.aud)
    requires w.ren.thread.RenTop? && w.ren.stops == 0 && w.ren.state == PLAYING && |w.ren.queue| < 256
    ensures var p, f := Packet(w.l.nextPacket, Audio), w.l.nextFrame;
      var heard := RenderWrite(RenderTop(Through(w, true, p), Some(f)));
      heard == w.(l := OneFrameMore(OnePacketMore(w.l, p), p, f).(played := w.l.played + {f}))
  {
    var p, f := Packet(w.l.nextPacket, Audio), w.l.nextFrame;
    AddDrop(w.aud.queue, p);
    AddDrop(w.ren.queue, f);
    AddsOne(w.l.read, p);
    AddsOne(w.l.freedPackets, p);
    AddsOne(w.l.decoded, f);
    AddsOne(w.l.freedFrames, f);
  }

  lemma AddDrop<T>(m: multiset<T>, x: T)
    ensures x in Add(m, x) && Drop(Add(m, x), x) == m
  {
  }

  lemma AddsOne<T>(m: multiset<T>, x: T)
    ensures Add(m, x) == m + multiset{x}
  {
  }

  /** A packet that is neither is freed at once. */
  lemma NeitherIsFreed(w: World)
    requires w.dem.thread == DemTop(None) && w.dem.stops == 0
    ensures var p := Packet(w.l.nextPacket, Neither);
      DemuxerGive(DemuxerTop(w, Some(Neither))) == w.(l := OnePacketMore(w.l, p))
  {
    AddsOne(w.l.read, Packet(w.l.nextPacket, Neither));
    AddsOne(w.l.freedPackets, Packet(w.l.nextPacket, Neither));
  }

  /** A packet that cannot be decoded is freed, and the decoder is where it was. */
  lemma UndecodedIsFreed(w: World, audio: bool, p: Packet)
    requires Dec(w, audio).thread == DecTop(None) && Dec(w, audio).stops == 0 && p in Dec(w, audio).queue
    ensures var v := DecoderDecode(DecoderTop(w, audio, Some(p)), audio, false);
      v == WithDec(w, audio, Dec(w, audio).(queue := Dec(w, audio).queue - multiset{p})).(l := w.l.(freedPackets := w.l.freedPackets + multiset{p}))
  {
    AddsOne(w.l.freedPackets, p);
    DropsOne(Dec(w, audio).queue, p);
  }

  lemma DropsOne<T>(m: multiset<T>, x: T)
    requires x in m
    ensures Drop(m, x) == m - multiset{x}
  {
  }

  /**
   * The demuxer hands a packet to the decoder of its kind, which takes it unless it is idle or has 256 of them. A refused
   * packet is kept, and tried again before anything else is read. Only packets that are neither are freed.
   */
  lemma PacketIsGiven(w: World, read: Option<Kind>)
    requires w.dem.thread.DemHand? && w.dem.thread.packet.kind != Neither
    ensures var p, v := w.dem.thread.packet, DemuxerGive(w);
      var audio := p.kind == Audio;
      if Dec(w, audio).state != IDLE && |Dec(w, audio).queue| < 256 then
        && v == WithDec(w, audio, Dec(w, audio).(queue := Dec(w, audio).queue + multiset{p})).(dem := w.dem.(thread := DemTop(None)))
      else
        && v == w.(dem := w.dem.(thread := DemTop(Some(p)))) && (w.dem.stops == 0 ==> DemuxerTop(v, read) == w)
  {
    AddsOne(w.vid.queue, w.dem.thread.packet);
    AddsOne(w.aud.queue, w.dem.thread.packet);
  }

  /**
   * The audio decoder hands a frame to the render, which takes it unless it does not run or has 256 of them. A refused frame is
   * kept, and tried again before another packet is taken.
   */
  lemma FrameIsGiven(w: World, o: Option<Packet>)
    requires w.aud.thread.DecFrame? && Popped(w.aud.queue, o)
    ensures var f, v := w.aud.thread.frame, DecoderGive(w, true);
      if (w.ren.state == PAUSED || w.ren.state == PLAYING) && |w.ren.queue| < 256 then
        v == w.(aud := w.aud.(thread := DecTop(None)), ren := w.ren.(queue := w.ren.queue + multiset{f}))
      else
        && v == w.(aud := w.aud.(thread := DecTop(Some(f)))) && (w.aud.stops == 0 ==> DecoderTop(v, true, o) == w)
  {
    AddsOne(w.ren.queue, w.aud.thread.frame);
  }

  /** A paused render takes no frame; and a thread that finds nothing to do changes nothing. */
  lemma NothingToDo(w: World, o: Option<nat>)
    ensures w.ren.thread.RenTop? && w.ren.stops == 0 && Popped(w.ren.queue, o) ==>
      (RenderTop(w, o) == w <==> w.ren.state == PAUSED || w.ren.queue == multiset{})
    ensures w.dem.thread == DemTop(None) && w.dem.stops == 0 ==> DemuxerTop(w, None) == w
    ensures w.vid.thread == DecTop(None) && w.vid.stops == 0 && w.vid.queue == multiset{} ==> DecoderTop(w, false, None) == w
    ensures w.aud.thread == DecTop(None) && w.aud.stops == 0 && w.aud.queue == multiset{} ==> DecoderTop(w, true, None) == w
  {
  }

  // ----- state changes -----

  ghost function StateRank(s: State): int {
    match s case IDLE => 0 case READY => 1 case PAUSED => 2 case PLAYING => 3
  }

  /** Everything but the state and the thread of one element, the stop events it was sent, and the main thread. */
  ghost predicate OthersStay(w: World, v: World, e: Element) {
    && v.l == w.l && (e != Dem ==> v.dem == w.dem) && (e != Vid ==> v.vid == w.vid) && (e != Aud ==> v.aud == w.aud) && (e != Ren ==> v.ren == w.ren)
    && v.vid.queue == w.vid.queue && v.aud.queue == w.aud.queue && v.ren.queue == w.ren.queue
  }

  /**
   * `setState` changes the state by one step of the order idle, ready, paused, playing, or not at all; a demuxer that cannot
   * open its file stays idle. On the way to PAUSED from below it starts the thread, on the way back it waits for its end.
   */
  lemma StatesChangeByOne(w: World, e: Element, to: State, opens: bool)
    requires w.main.Calling?
    ensures var v, from := SetState(w, e, to, opens), StateOf(w, e);
      var oneStep := StateRank(to) == StateRank(from) + 1 || StateRank(to) == StateRank(from) - 1;
      && OthersStay(w, v, e)
      && (!oneStep || (e == Dem && from == IDLE && !opens) ==> v == w)
      && (oneStep && !(e == Dem && from == IDLE && !opens) ==>
            if StateRank(from) + StateRank(to) == 3 then
              && StateOf(v, e) == from
              && (from == READY ==> v.main == Starting(e) && StateOf(GoOn(v), e) == PAUSED && GoOn(v).main == Calling)
              && (from == PAUSED ==> v.main == Joining(e))
              && (from == PAUSED && Ended(v, e) ==> StateOf(GoOn(v), e) == READY && GoOn(v).main == Calling)
              && (from == PAUSED && !Ended(v, e) ==> GoOn(v) == v)
            else StateOf(v, e) == to && v.main == Calling)
  {
  }

  /** A thread is started at the top of its loop with nothing in hand; a stop event goes to the element alone. */
  lemma ThreadsStartEmpty(w: World, e: Element)
    requires w.main.Calling?
    ensures StateOf(w, e) == READY ==>
      var v := SetState(w, e, PAUSED, true);
      match e
      case Dem => v.dem == w.dem.(thread := DemTop(None))
      case Vid => v.vid == w.vid.(thread := DecTop(None))
      case Aud => v.aud == w.aud.(thread := DecTop(None))
      case Ren => v.ren == w.ren.(thread := RenTop)
    ensures StateOf(w, e) == PAUSED ==>
      var v := SetState(w, e, READY, true);
      match e
      case Dem => w.dem.stops < 256 ==> v.dem == w.dem.(stops := w.dem.stops + 1)
      case Vid => w.vid.stops < 256 ==> v.vid == w.vid.(stops := w.vid.stops + 1)
      case Aud => w.aud.stops < 256 ==> v.aud == w.aud.(stops := w.aud.stops + 1)
      case Ren => w.ren.stops < 256 ==> v.ren == w.ren.(stops := w.ren.stops + 1)
  {
  }
}
