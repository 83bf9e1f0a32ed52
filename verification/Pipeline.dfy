/**
 * The threads of the media pipeline as interleaved steps: a demuxer feeds two decoders, the audio decoder
 * feeds a render, and the main thread starts and stops them. Who holds which packet and which frame.
 */
module Pipeline {
  import opened Wrappers

  datatype State = IDLE | READY | PAUSED | PLAYING
  datatype Kind = Video | Audio | Neither
  datatype Packet = Packet(id: nat, kind: Kind)
  datatype Element = Dem | Vid | Aud | Ren

  /** Where a thread is: at the top of its loop, in a round with something in hand, or emptying its queue at the end. */
  datatype DemThread = DemStopped | DemTop(pending: Option<Packet>) | DemHand(packet: Packet)
  datatype DecThread = DecStopped | DecTop(pending: Option<nat>) | DecPacket(packet: Packet) | DecFrame(frame: nat) | DecDrain
  datatype RenThread = RenStopped | RenTop | RenFrame(frame: nat) | RenDrain

  /** The number of stop events that wait, and the packets or frames that wait, in no particular order. */
  datatype Demuxer = Demuxer(state: State, thread: DemThread, stops: nat)
  datatype Decoder = Decoder(state: State, thread: DecThread, stops: nat, queue: multiset<Packet>)
  datatype Render = Render(state: State, thread: RenThread, stops: nat, queue: multiset<nat>)

  /** The main thread: between two calls, or in `toPaused` behind the start of a thread, or in `toReady` waiting for its end. */
  datatype Main = Calling | Starting(e: Element) | Joining(e: Element)

  /**
   * All packets read and frames decoded, and what was freed; ids are handed out in order. And the packet that each
   * frame was decoded from, and the frames that were written to the video device and to the audio device.
   */
  datatype Ledger = Ledger(read: multiset<Packet>, freedPackets: multiset<Packet>, nextPacket: nat,
                           decoded: multiset<nat>, freedFrames: multiset<nat>, nextFrame: nat,
                           frameOf: map<nat, Packet>, shown: set<nat>, played: set<nat>)

  const NOTHING: Ledger := Ledger(multiset{}, multiset{}, 0, multiset{}, multiset{}, 0, map[], {}, {})

  datatype World = World(dem: Demuxer, vid: Decoder, aud: Decoder, ren: Render, main: Main, l: Ledger)

  /** The length at which `Queue` and `PriorityQueue` refuse a push. */
  const MAX_SIZE: nat := 256

  function Add<T>(m: multiset<T>, x: T): multiset<T> { m[x := m[x] + 1] }

  function Drop<T>(m: multiset<T>, x: T): multiset<T>
    requires x in m
  {
    m[x := m[x] - 1]
  }

  // ----- who holds what -----

  function One<T(==)>(o: Option<T>, x: T): nat { if o == Some(x) then 1 else 0 }

  function InDemuxer(t: DemThread, p: Packet): nat {
    match t case DemStopped => 0 case DemTop(o) => One(o, p) case DemHand(q) => if p == q then 1 else 0
  }

  function InDecoder(d: Decoder, p: Packet): nat {
    d.queue[p] + if d.thread == DecPacket(p) then 1 else 0
  }

  function FrameInDecoder(t: DecThread, f: nat): nat {
    match t case DecTop(o) => One(o, f) case DecFrame(g) => if f == g then 1 else 0 case _ => 0
  }

  function InRender(r: Render, f: nat): nat {
    r.queue[f] + if r.thread == RenFrame(f) then 1 else 0
  }

  /** In how many places a packet is: in a hand, pending, in a queue, or freed. */
  function PacketPlaces(w: World, p: Packet): nat {
    InDemuxer(w.dem.thread, p) + InDecoder(w.vid, p) + InDecoder(w.aud, p) + w.l.freedPackets[p]
  }

  function FramePlaces(w: World, f: nat): nat {
    FrameInDecoder(w.vid.thread, f) + FrameInDecoder(w.aud.thread, f) + InRender(w.ren, f) + w.l.freedFrames[f]
  }

  ghost predicate PacketOk(w: World, p: Packet) {
    PacketPlaces(w, p) == w.l.read[p] <= 1 && (p.id >= w.l.nextPacket ==> w.l.read[p] == 0)
  }

  ghost predicate FrameOk(w: World, f: nat) {
    FramePlaces(w, f) == w.l.decoded[f] <= 1 && (f >= w.l.nextFrame ==> w.l.decoded[f] == 0)
  }

  /** Every packet that was read is in exactly one place, no other one is anywhere, and so with the frames. */
  ghost predicate PacketsConserved(w: World) {
    forall p: Packet :: PacketOk(w, p)
  }

  ghost predicate FramesConserved(w: World) {
    forall f: nat :: FrameOk(w, f)
  }

  // ----- who runs -----

  predicate Runs(s: State) { s == PAUSED || s == PLAYING }

  /** A thread runs from its start to the stop event that its element is sent on the way from PAUSED to READY. */
  ghost predicate Lives(e: Element, main: Main, state: State, looping: bool, stopped: bool, stops: nat) {
    if main == Joining(e) then
      state == PAUSED && stops == (if looping then 1 else 0) && !(looping && stopped)
    else
      && stops == 0 && (stopped <==> !looping)
      && (looping <==> Runs(state) || main == Starting(e)) && (main == Starting(e) ==> state == READY)
  }

  predicate Looping(d: Decoder) { !d.thread.DecStopped? && !d.thread.DecDrain? }
  predicate RenLooping(r: Render) { !r.thread.RenStopped? && !r.thread.RenDrain? }

  ghost predicate AllLive(w: World) {
    && Lives(Dem, w.main, w.dem.state, !w.dem.thread.DemStopped?, w.dem.thread.DemStopped?, w.dem.stops)
    && Lives(Vid, w.main, w.vid.state, Looping(w.vid), w.vid.thread.DecStopped?, w.vid.stops)
    && Lives(Aud, w.main, w.aud.state, Looping(w.aud), w.aud.thread.DecStopped?, w.aud.stops)
    && Lives(Ren, w.main, w.ren.state, RenLooping(w.ren), w.ren.thread.RenStopped?, w.ren.stops)
  }

  /** A thread is stopped behind the one that feeds it, and while the ones that it feeds still run. */
  predicate MayStop(w: World, e: Element) {
    match e
    case Dem => Looping(w.vid) && Looping(w.aud)
    case Vid => w.dem.thread.DemStopped?
    case Aud => w.dem.thread.DemStopped? && RenLooping(w.ren)
    case Ren => w.aud.thread.DecStopped?
  }

  /** So nothing is left in a queue that nobody empties and nobody fills any more. */
  ghost predicate Quiet(w: World) {
    && (w.main.Joining? ==> MayStop(w, w.main.e))
    && (w.dem.thread.DemStopped? && w.vid.thread.DecStopped? ==> w.vid.queue == multiset{})
    && (w.dem.thread.DemStopped? && w.aud.thread.DecStopped? ==> w.aud.queue == multiset{})
    && (w.aud.thread.DecStopped? && w.ren.thread.RenStopped? ==> w.ren.queue == multiset{})
  }

  ghost predicate InOrder(w: World) { AllLive(w) && Quiet(w) }

  ghost predicate Inv(w: World) {
    PacketsConserved(w) && FramesConserved(w) && InOrder(w)
  }

  const START: World := World(Demuxer(IDLE, DemStopped, 0), Decoder(IDLE, DecStopped, 0, multiset{}), Decoder(IDLE, DecStopped, 0, multiset{}),
                              Render(IDLE, RenStopped, 0, multiset{}), Calling,
                              NOTHING)

  // ----- steps of the demuxer -----

  function FreePackets(l: Ledger, o: Option<Packet>): Ledger {
    if o.Some? then l.(freedPackets := Add(l.freedPackets, o.value)) else l
  }

  function FreeFrames(l: Ledger, o: Option<nat>): Ledger {
    if o.Some? then l.(freedFrames := Add(l.freedFrames, o.value)) else l
  }

  /** The top of `Demuxer::demuxing`; `read` is what reading yields, if anything. */
  function DemuxerTop(w: World, read: Option<Kind>): World
    requires w.dem.thread.DemTop?
  {
    var pending := w.dem.thread.pending;
    if w.dem.stops > 0 then
      w.(dem := w.dem.(thread := DemStopped, stops := w.dem.stops - 1), l := FreePackets(w.l, pending))
    else if pending.Some? then
      w.(dem := w.dem.(thread := DemHand(pending.value)))
    else if read.Some? then
      var p := Packet(w.l.nextPacket, read.value);
      w.(dem := w.dem.(thread := DemHand(p)), l := w.l.(read := Add(w.l.read, p), nextPacket := w.l.nextPacket + 1))
    else
      w
  }

  /** `pushBuffer` of a decoder. */
  predicate Accepts(d: Decoder) { d.state != IDLE && |d.queue| < MAX_SIZE }

  /** The end of a round of `Demuxer::demuxing`. */
  function DemuxerGive(w: World): World
    requires w.dem.thread.DemHand?
  {
    var p := w.dem.thread.packet;
    if p.kind == Video && Accepts(w.vid) then
      w.(dem := w.dem.(thread := DemTop(None)), vid := w.vid.(queue := Add(w.vid.queue, p)))
    else if p.kind == Audio && Accepts(w.aud) then
      w.(dem := w.dem.(thread := DemTop(None)), aud := w.aud.(queue := Add(w.aud.queue, p)))
    else if p.kind == Neither then
      w.(dem := w.dem.(thread := DemTop(None)), l := FreePackets(w.l, Some(p)))
    else
      w.(dem := w.dem.(thread := DemTop(Some(p))))
  }

  // ----- steps of a decoder -----

  function Dec(w: World, audio: bool): Decoder { if audio then w.aud else w.vid }

  function WithDec(w: World, audio: bool, d: Decoder): World { if audio then w.(aud := d) else w.(vid := d) }

  /** What `pop` of a queue may yield. */
  predicate Popped<T(==)>(queue: multiset<T>, o: Option<T>) {
    if o.Some? then o.value in queue else queue == multiset{}
  }

  /** The top of `decoding`; `o` is what the queue yields. */
  function DecoderTop(w: World, audio: bool, o: Option<Packet>): World
    requires Dec(w, audio).thread.DecTop? && Popped(Dec(w, audio).queue, o)
  {
    var d := Dec(w, audio);
    if d.stops > 0 then
      WithDec(w, audio, d.(thread := DecDrain, stops := d.stops - 1)).(l := FreeFrames(w.l, d.thread.pending))
    else if d.thread.pending.Some? then
      WithDec(w, audio, d.(thread := DecFrame(d.thread.pending.value)))
    else if o.Some? then
      WithDec(w, audio, d.(thread := DecPacket(o.value), queue := Drop(d.queue, o.value)))
    else
      w
  }

  /** Decoding a packet, which is freed whether it succeeds or not. */
  function DecoderDecode(w: World, audio: bool, decodes: bool): World
    requires Dec(w, audio).thread.DecPacket?
  {
    var d := Dec(w, audio);
    var l := FreePackets(w.l, Some(d.thread.packet));
    if decodes then
      WithDec(w, audio, d.(thread := DecFrame(l.nextFrame)))
        .(l := l.(decoded := Add(l.decoded, l.nextFrame), nextFrame := l.nextFrame + 1, frameOf := l.frameOf[l.nextFrame := d.thread.packet]))
    else
      WithDec(w, audio, d.(thread := DecTop(None))).(l := l)
  }

  /** The end of a round of `decoding`: the sink of the video decoder writes and frees a frame at once, the audio render queues it. */
  function DecoderGive(w: World, audio: bool): World
    requires Dec(w, audio).thread.DecFrame?
  {
    var d := Dec(w, audio);
    var f := d.thread.frame;
    if !audio then
      WithDec(w, audio, d.(thread := DecTop(None))).(l := FreeFrames(w.l, Some(f)).(shown := w.l.shown + {f}))
    else if Runs(w.ren.state) && |w.ren.queue| < MAX_SIZE then
      WithDec(w, audio, d.(thread := DecTop(None))).(ren := w.ren.(queue := Add(w.ren.queue, f)))
    else
      WithDec(w, audio, d.(thread := DecTop(Some(f))))
  }

  /** The loop that empties the queue behind a stop event. */
  function DecoderDrain(w: World, audio: bool, o: Option<Packet>): World
    requires Dec(w, audio).thread.DecDrain? && Popped(Dec(w, audio).queue, o)
  {
    var d := Dec(w, audio);
    if o.Some? then
      WithDec(w, audio, d.(queue := Drop(d.queue, o.value))).(l := FreePackets(w.l, o))
    else
      WithDec(w, audio, d.(thread := DecStopped))
  }

  // ----- steps of the render -----

  /** The top of `rendering`. */
  function RenderTop(w: World, o: Option<nat>): World
    requires w.ren.thread.RenTop? && Popped(w.ren.queue, o)
  {
    if w.ren.stops > 0 then
      w.(ren := w.ren.(thread := RenDrain, stops := w.ren.stops - 1))
    else if w.ren.state == PAUSED || o.None? then
      w
    else
      w.(ren := w.ren.(thread := RenFrame(o.value), queue := Drop(w.ren.queue, o.value)))
  }

  /** The audio device writes and frees a frame. */
  function RenderWrite(w: World): World
    requires w.ren.thread.RenFrame?
  {
    var f := w.ren.thread.frame;
    w.(ren := w.ren.(thread := RenTop), l := FreeFrames(w.l, Some(f)).(played := w.l.played + {f}))
  }

  function RenderDrain(w: World, o: Option<nat>): World
    requires w.ren.thread.RenDrain? && Popped(w.ren.queue, o)
  {
    if o.Some? then
      w.(ren := w.ren.(queue := Drop(w.ren.queue, o.value)), l := FreeFrames(w.l, o))
    else
      w.(ren := w.ren.(thread := RenStopped))
  }

  // ----- what the steps do to packets and frames -----

  lemma PacketsStay(w: World, v: World)
    requires PacketsConserved(w)
    requires v.dem.thread == w.dem.thread && v.l.read == w.l.read && v.l.freedPackets == w.l.freedPackets && v.l.nextPacket == w.l.nextPacket
    requires forall p :: InDecoder(v.vid, p) == InDecoder(w.vid, p) && InDecoder(v.aud, p) == InDecoder(w.aud, p)
    ensures PacketsConserved(v)
  {
    hide InDecoder;
    forall p ensures PacketOk(v, p) {
      assert PacketOk(w, p);
    }
  }

  lemma FramesStay(w: World, v: World)
    requires FramesConserved(w)
    requires v.l.decoded == w.l.decoded && v.l.freedFrames == w.l.freedFrames && v.l.nextFrame == w.l.nextFrame
    requires forall f :: FrameInDecoder(v.vid.thread, f) == FrameInDecoder(w.vid.thread, f)
    requires forall f :: FrameInDecoder(v.aud.thread, f) == FrameInDecoder(w.aud.thread, f)
    requires forall f :: InRender(v.ren, f) == InRender(w.ren, f)
    ensures FramesConserved(v)
  {
    hide FrameInDecoder, InRender;
    forall f: nat ensures FrameOk(v, f) {
      assert FrameOk(w, f);
    }
  }

  lemma DemuxerTopPackets(w: World, read: Option<Kind>, p: Packet)
    requires w.dem.thread.DemTop? && PacketOk(w, p)
    requires read.Some? ==> PacketOk(w, Packet(w.l.nextPacket, read.value))
    ensures PacketOk(DemuxerTop(w, read), p)
  {
    hide InDecoder;
  }

  lemma DemuxerGivePackets(w: World, p: Packet)
    requires w.dem.thread.DemHand? && PacketOk(w, p)
    ensures PacketOk(DemuxerGive(w), p)
  {
    hide Accepts;
  }

  lemma DecoderTopPackets(w: World, audio: bool, o: Option<Packet>, p: Packet)
    requires Dec(w, audio).thread.DecTop? && Popped(Dec(w, audio).queue, o) && PacketOk(w, p)
    ensures PacketOk(DecoderTop(w, audio, o), p)
  {
    hide InDemuxer;
  }

  lemma DecoderTopFrames(w: World, audio: bool, o: Option<Packet>, f: nat)
    requires Dec(w, audio).thread.DecTop? && Popped(Dec(w, audio).queue, o) && FrameOk(w, f)
    ensures FrameOk(DecoderTop(w, audio, o), f)
  {
    hide InRender;
  }

  lemma DecoderDecodePackets(w: World, audio: bool, decodes: bool, p: Packet)
    requires Dec(w, audio).thread.DecPacket? && PacketOk(w, p)
    ensures PacketOk(DecoderDecode(w, audio, decodes), p)
  {
    hide InDemuxer;
  }

  lemma DecoderDecodeFrames(w: World, audio: bool, decodes: bool, f: nat)
    requires Dec(w, audio).thread.DecPacket? && FrameOk(w, f) && FrameOk(w, w.l.nextFrame)
    ensures FrameOk(DecoderDecode(w, audio, decodes), f)
  {
    hide InRender;
  }

  lemma DecoderGiveFrames(w: World, audio: bool, f: nat)
    requires Dec(w, audio).thread.DecFrame? && FrameOk(w, f)
    ensures FrameOk(DecoderGive(w, audio), f)
  {
  }

  lemma DecoderDrainPackets(w: World, audio: bool, o: Option<Packet>, p: Packet)
    requires Dec(w, audio).thread.DecDrain? && Popped(Dec(w, audio).queue, o) && PacketOk(w, p)
    ensures PacketOk(DecoderDrain(w, audio, o), p)
  {
    hide InDemuxer;
  }

  lemma RenderFrames(w: World, o: Option<nat>, f: nat)
    requires FrameOk(w, f)
    ensures w.ren.thread.RenTop? && Popped(w.ren.queue, o) ==> FrameOk(RenderTop(w, o), f)
    ensures w.ren.thread.RenFrame? ==> FrameOk(RenderWrite(w), f)
    ensures w.ren.thread.RenDrain? && Popped(w.ren.queue, o) ==> FrameOk(RenderDrain(w, o), f)
  {
    hide FrameInDecoder;
  }

  // ----- what the steps do to the threads -----

  lemma DemuxerTopInOrder(w: World, read: Option<Kind>)
    requires InOrder(w) && w.dem.thread.DemTop?
    ensures InOrder(DemuxerTop(w, read))
  {
  }

  lemma DemuxerGiveInOrder(w: World)
    requires InOrder(w) && w.dem.thread.DemHand?
    ensures InOrder(DemuxerGive(w))
  {
    hide Accepts;
  }

  /** A decoder goes on looping, or leaves its loop for a stop event. */
  lemma DecoderChanges(w: World, audio: bool, d: Decoder, l: Ledger)
    requires InOrder(w) && Looping(Dec(w, audio)) && d.state == Dec(w, audio).state
    requires if d.thread.DecDrain? then d.stops == Dec(w, audio).stops - 1 else Looping(d) && d.stops == Dec(w, audio).stops
    ensures InOrder(WithDec(w, audio, d).(l := l))
  {
  }

  lemma DecoderTopInOrder(w: World, audio: bool, o: Option<Packet>)
    requires InOrder(w) && Dec(w, audio).thread.DecTop? && Popped(Dec(w, audio).queue, o)
    ensures InOrder(DecoderTop(w, audio, o))
  {
    hide InOrder;
    var v := DecoderTop(w, audio, o);
    assert v == WithDec(w, audio, Dec(v, audio)).(l := v.l);
    if v != w {
      DecoderChanges(w, audio, Dec(v, audio), v.l);
    }
  }

  lemma DecoderDecodeInOrder(w: World, audio: bool, decodes: bool)
    requires InOrder(w) && Dec(w, audio).thread.DecPacket?
    ensures InOrder(DecoderDecode(w, audio, decodes))
  {
    hide InOrder;
    var v := DecoderDecode(w, audio, decodes);
    assert v == WithDec(w, audio, Dec(v, audio)).(l := v.l);
    DecoderChanges(w, audio, Dec(v, audio), v.l);
  }

  lemma DecoderGiveInOrder(w: World, audio: bool)
    requires InOrder(w) && Dec(w, audio).thread.DecFrame?
    ensures InOrder(DecoderGive(w, audio))
  {
  }

  lemma DecoderDrainInOrder(w: World, audio: bool, o: Option<Packet>)
    requires InOrder(w) && Dec(w, audio).thread.DecDrain? && Popped(Dec(w, audio).queue, o)
    ensures InOrder(DecoderDrain(w, audio, o))
  {
  }

  lemma RenderInOrder(w: World, o: Option<nat>)
    requires InOrder(w)
    ensures w.ren.thread.RenTop? && Popped(w.ren.queue, o) ==> InOrder(RenderTop(w, o))
    ensures w.ren.thread.RenFrame? ==> InOrder(RenderWrite(w))
    ensures w.ren.thread.RenDrain? && Popped(w.ren.queue, o) ==> InOrder(RenderDrain(w, o))
  {
  }

  // ----- every step of a thread keeps the invariant -----

  lemma DemuxerKeeps(w: World, read: Option<Kind>)
    requires Inv(w)
    ensures w.dem.thread.DemTop? ==> Inv(DemuxerTop(w, read))
    ensures w.dem.thread.DemHand? ==> Inv(DemuxerGive(w))
  {
    hide PacketOk, FrameOk, InOrder, Accepts;
    if w.dem.thread.DemTop? {
      DemuxerTopInOrder(w, read);
      forall p ensures PacketOk(DemuxerTop(w, read), p) { DemuxerTopPackets(w, read, p); }
      FramesStay(w, DemuxerTop(w, read));
    } else if w.dem.thread.DemHand? {
      DemuxerGiveInOrder(w);
      forall p ensures PacketOk(DemuxerGive(w), p) { DemuxerGivePackets(w, p); }
      FramesStay(w, DemuxerGive(w));
    }
  }

  lemma DecoderTopKeeps(w: World, audio: bool, o: Option<Packet>)
    requires Inv(w) && Dec(w, audio).thread.DecTop? && Popped(Dec(w, audio).queue, o)
    ensures Inv(DecoderTop(w, audio, o))
  {
    hide PacketOk, FrameOk, InOrder, DecoderTop;
    DecoderTopInOrder(w, audio, o);
    forall p ensures PacketOk(DecoderTop(w, audio, o), p) { DecoderTopPackets(w, audio, o, p); }
    forall f: nat ensures FrameOk(DecoderTop(w, audio, o), f) { DecoderTopFrames(w, audio, o, f); }
  }

  lemma DecoderDecodeKeeps(w: World, audio: bool, decodes: bool)
    requires Inv(w) && Dec(w, audio).thread.DecPacket?
    ensures Inv(DecoderDecode(w, audio, decodes))
  {
    hide PacketOk, FrameOk, InOrder, DecoderDecode;
    DecoderDecodeInOrder(w, audio, decodes);
    forall p ensures PacketOk(DecoderDecode(w, audio, decodes), p) { DecoderDecodePackets(w, audio, decodes, p); }
    forall f: nat ensures FrameOk(DecoderDecode(w, audio, decodes), f) { DecoderDecodeFrames(w, audio, decodes, f); }
  }

  lemma DecoderGiveKeeps(w: World, audio: bool)
    requires Inv(w) && Dec(w, audio).thread.DecFrame?
    ensures Inv(DecoderGive(w, audio))
  {
    hide PacketOk, FrameOk, InOrder;
    DecoderGiveInOrder(w, audio);
    PacketsStay(w, DecoderGive(w, audio));
    forall f: nat ensures FrameOk(DecoderGive(w, audio), f) { DecoderGiveFrames(w, audio, f); }
  }

  lemma DecoderDrainKeeps(w: World, audio: bool, o: Option<Packet>)
    requires Inv(w) && Dec(w, audio).thread.DecDrain? && Popped(Dec(w, audio).queue, o)
    ensures Inv(DecoderDrain(w, audio, o))
  {
    hide PacketOk, FrameOk, InOrder;
    DecoderDrainInOrder(w, audio, o);
    forall p ensures PacketOk(DecoderDrain(w, audio, o), p) { DecoderDrainPackets(w, audio, o, p); }
    FramesStay(w, DecoderDrain(w, audio, o));
  }

  lemma RenderKeeps(w: World, o: Option<nat>)
    requires Inv(w)
    ensures w.ren.thread.RenTop? && Popped(w.ren.queue, o) ==> Inv(RenderTop(w, o))
    ensures w.ren.thread.RenFrame? ==> Inv(RenderWrite(w))
    ensures w.ren.thread.RenDrain? && Popped(w.ren.queue, o) ==> Inv(RenderDrain(w, o))
  {
    hide PacketOk, FrameOk, InOrder;
    RenderInOrder(w, o);
    forall f: nat
      ensures w.ren.thread.RenTop? && Popped(w.ren.queue, o) ==> FrameOk(RenderTop(w, o), f)
      ensures w.ren.thread.RenFrame? ==> FrameOk(RenderWrite(w), f)
      ensures w.ren.thread.RenDrain? && Popped(w.ren.queue, o) ==> FrameOk(RenderDrain(w, o), f)
    {
      RenderFrames(w, o, f);
    }
    if w.ren.thread.RenTop? && Popped(w.ren.queue, o) {
      PacketsStay(w, RenderTop(w, o));
    } else if w.ren.thread.RenFrame? {
      PacketsStay(w, RenderWrite(w));
    } else if w.ren.thread.RenDrain? && Popped(w.ren.queue, o) {
      PacketsStay(w, RenderDrain(w, o));
    }
  }

  /** Once all four threads have ended nothing is queued, and all that was read or decoded is freed, each once. */
  lemma EverythingFreed(w: World)
    requires Inv(w)
    requires w.dem.thread.DemStopped? && w.vid.thread.DecStopped? && w.aud.thread.DecStopped? && w.ren.thread.RenStopped?
    ensures w.vid.queue == w.aud.queue == multiset{} && w.ren.queue == multiset{}
    ensures w.l.freedPackets == w.l.read && w.l.freedFrames == w.l.decoded
    ensures forall p :: w.l.freedPackets[p] <= 1
    ensures forall f :: w.l.freedFrames[f] <= 1
  {
    forall p: Packet ensures w.l.freedPackets[p] == w.l.read[p] <= 1 { assert PacketOk(w, p); }
    forall f: nat ensures w.l.freedFrames[f] == w.l.decoded[f] <= 1 { assert FrameOk(w, f); }
  }
}
