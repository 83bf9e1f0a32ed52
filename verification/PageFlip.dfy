/**
 * Page flips of a double-buffered mode-setting client, together with the part of the kernel that
 * they depend on: which buffer a CRTC shows, which flip is scheduled, which events are not yet read.
 */
module PageFlip {
  import opened FiniteSets
  import opened Wrappers

  /** What a CRTC shows: a buffer of a device of ours, or something else. */
  datatype Shown = Foreign | Ours(dev: nat, buf: nat)
  /** A scheduled flip: the buffer to be shown, and the data pointer for the event. */
  datatype Flip = Flip(dev: nat, buf: nat)
  datatype CrtcState = CrtcState(shown: Shown, queued: Option<Flip>)

  /** A device of the client; a pointer to it is its position. */
  datatype Dev = Dev(crtc: nat, frontBuf: nat, pflipPending: bool, cleanup: bool, freed: bool)

  /** `b ^ 1` */
  function Other(b: nat): nat { if b == 0 then 1 else 0 }

  /** How often a device occurs among the events. */
  ghost function Times(events: seq<nat>, d: nat): nat {
    if events == [] then 0 else (if events[0] == d then 1 else 0) + Times(events[1..], d)
  }

  lemma {:induction false} TimesAppend(a: seq<nat>, e: nat, d: nat)
    ensures Times(a + [e], d) == Times(a, d) + if e == d then 1 else 0
  {
    if a == [] {
      assert a + [e] == [e];
    } else {
      assert (a + [e])[1..] == a[1..] + [e];
      TimesAppend(a[1..], e, d);
    }
  }

  lemma {:induction false} TimesIn(events: seq<nat>, d: nat)
    ensures Times(events, d) > 0 <==> d in events
  {
    if events != [] {
      TimesIn(events[1..], d);
      assert d in events <==> d == events[0] || d in events[1..];
    }
  }

  function At(crtcs: map<nat, CrtcState>, c: nat): CrtcState {
    if c in crtcs then crtcs[c] else CrtcState(Foreign, None)
  }

  /**
   * The kernel owes a live device one event exactly when the device waits for one, and never more. The
   * CRTC shows the front buffer, or, as long as the flip to it is scheduled, the other one.
   */
  ghost predicate DevOk(devs: seq<Dev>, crtcs: map<nat, CrtcState>, events: seq<nat>, d: nat)
    requires d < |devs|
  {
    var dev, k := devs[d], At(crtcs, devs[d].crtc);
    && dev.frontBuf < 2
    && Times(events, d) + (if k.queued.Some? then 1 else 0) == (if dev.pflipPending then 1 else 0)
    && (k.queued.Some? ==> k.queued == Some(Flip(d, dev.frontBuf)) && (k.shown == Foreign || k.shown == Ours(d, Other(dev.frontBuf))))
    && (k.queued.None? ==> k.shown == Foreign || k.shown == Ours(d, dev.frontBuf))
  }

  /** What a CRTC shows or is to show of ours belongs to the live device that has it. */
  ghost predicate CrtcOk(devs: seq<Dev>, crtcs: map<nat, CrtcState>, c: nat) {
    var k := At(crtcs, c);
    && (k.queued.Some? ==> Owns(devs, k.queued.value.dev, c))
    && (k.shown.Ours? ==> Owns(devs, k.shown.dev, c))
  }

  ghost predicate Owns(devs: seq<Dev>, d: nat, c: nat) {
    d < |devs| && !devs[d].freed && devs[d].crtc == c
  }

  ghost predicate Apart(devs: seq<Dev>, d: nat, e: nat)
    requires d < |devs| && e < |devs|
  {
    devs[d].crtc != devs[e].crtc
  }

  /** Live devices have CRTCs of their own, and events are for live devices only. */
  ghost predicate AllOk(devs: seq<Dev>, crtcs: map<nat, CrtcState>, events: seq<nat>) {
    && (forall d | 0 <= d < |devs| && !devs[d].freed :: DevOk(devs, crtcs, events, d))
    && (forall d, e | 0 <= d < e < |devs| && !devs[d].freed && !devs[e].freed :: Apart(devs, d, e))
    && (forall c: nat :: CrtcOk(devs, crtcs, c))
    && (forall d | d in events :: d < |devs| && !devs[d].freed)
  }

  /** The list holds the devices that are not done with, each once; but for those that clean-up has come to. */
  ghost predicate Listed(devs: seq<Dev>, list: seq<nat>, outs: set<nat>) {
    && (forall k | 0 <= k < |list| :: list[k] < |devs| && !devs[list[k]].freed && !devs[list[k]].cleanup && list[k] !in outs)
    && (forall k, l | 0 <= k < l < |list| :: list[k] != list[l])
    && (forall d | 0 <= d < |devs| && !devs[d].freed && d !in outs :: d in list)
    && (forall d | d in outs :: d < |devs| && !devs[d].freed && devs[d].cleanup)
  }

  /** Nothing but the flip has moved on. */
  ghost predicate SameDevice(x: Dev, y: Dev) {
    x.crtc == y.crtc && x.cleanup == y.cleanup && x.freed == y.freed
  }

  /** A device that waits for nothing may be freed: its CRTC shows nothing of ours any more. */
  lemma FreeKeeps(devs: seq<Dev>, devs': seq<Dev>, crtcs: map<nat, CrtcState>, crtcs': map<nat, CrtcState>, events: seq<nat>, list: seq<nat>, outs: set<nat>, d: nat)
    requires AllOk(devs, crtcs, events) && Listed(devs, list, outs) && d in outs && !devs[d].pflipPending
    requires devs' == devs[d := devs[d].(freed := true)]
    requires crtcs' == crtcs[devs[d].crtc := CrtcState(Foreign, None)]
    ensures AllOk(devs', crtcs', events) && Listed(devs', list, outs - {d})
  {
    assert DevOk(devs, crtcs, events, d);
    TimesIn(events, d);
    forall e | 0 <= e < |devs'| && !devs'[e].freed ensures DevOk(devs', crtcs', events, e) {
      assert DevOk(devs, crtcs, events, e);
      assert e < d ==> Apart(devs, e, d);
      assert d < e ==> Apart(devs, d, e);
    }
    forall x, y | 0 <= x < y < |devs'| && !devs'[x].freed && !devs'[y].freed ensures Apart(devs', x, y) {
      assert Apart(devs, x, y);
    }
    forall c: nat ensures CrtcOk(devs', crtcs', c) {
      assert CrtcOk(devs, crtcs, c);
    }
  }

  /** The kernel still owes an event to a device that has been freed; `left` are those that were freed too early. */
  ghost predicate Dangling(devs: seq<Dev>, crtcs: map<nat, CrtcState>, events: seq<nat>, left: set<nat>) {
    exists d :: 0 <= d < |devs| && Dangles(devs, crtcs, events, left, d)
  }

  ghost predicate Dangles(devs: seq<Dev>, crtcs: map<nat, CrtcState>, events: seq<nat>, left: set<nat>, d: nat)
    requires d < |devs|
  {
    (devs[d].freed || d in left) && (d in events || exists c: nat :: ToBeShown(crtcs, c, d))
  }

  /** A flip with the device for its data is scheduled on the CRTC. */
  ghost predicate ToBeShown(crtcs: map<nat, CrtcState>, c: nat, d: nat) {
    At(crtcs, c).queued.Some? && At(crtcs, c).queued.value.dev == d
  }

  /** In a good state events are on their way only to devices that wait for one; to freed ones only if they were freed too early. */
  lemma NothingDangles(devs: seq<Dev>, crtcs: map<nat, CrtcState>, events: seq<nat>, left: set<nat>)
    requires AllOk(devs, crtcs, events) && forall d | d in left :: d < |devs| && !devs[d].freed
    ensures Dangling(devs, crtcs, events, left) <==> exists d :: d in left && devs[d].pflipPending
  {
    forall d | 0 <= d < |devs| ensures Dangles(devs, crtcs, events, left, d) <==> d in left && devs[d].pflipPending {
      DanglesIff(devs, crtcs, events, left, d);
    }
  }

  lemma DanglesIff(devs: seq<Dev>, crtcs: map<nat, CrtcState>, events: seq<nat>, left: set<nat>, d: nat)
    requires AllOk(devs, crtcs, events) && d < |devs| && (d in left ==> !devs[d].freed)
    ensures Dangles(devs, crtcs, events, left, d) <==> d in left && devs[d].pflipPending
  {
    TimesIn(events, d);
    if c: nat :| ToBeShown(crtcs, c, d) {
      assert CrtcOk(devs, crtcs, c);
    }
    if d in left {
      assert DevOk(devs, crtcs, events, d);
      assert At(crtcs, devs[d].crtc).queued.Some? ==> ToBeShown(crtcs, devs[d].crtc, d);
    }
  }

  /** A change of one live device, of its CRTC and of its events only. */
  lemma OneChanged(devs: seq<Dev>, devs': seq<Dev>, crtcs: map<nat, CrtcState>, crtcs': map<nat, CrtcState>,
                   events: seq<nat>, events': seq<nat>, d: nat, dev: Dev)
    requires AllOk(devs, crtcs, events) && d < |devs| && !devs[d].freed
    requires devs' == devs[d := dev] && dev.crtc == devs[d].crtc && !dev.freed
    requires forall c | c != devs[d].crtc :: At(crtcs', c) == At(crtcs, c)
    requires forall e | e != d :: Times(events', e) == Times(events, e)
    requires forall e | e in events' :: e == d || e in events
    requires DevOk(devs', crtcs', events', d) && CrtcOk(devs', crtcs', dev.crtc)
    ensures AllOk(devs', crtcs', events')
  {
    forall e | 0 <= e < |devs'| && !devs'[e].freed ensures DevOk(devs', crtcs', events', e) {
      if e != d {
        assert DevOk(devs, crtcs, events, e);
        assert e < d ==> Apart(devs, e, d);
        assert d < e ==> Apart(devs, d, e);
      }
    }
    forall x, y | 0 <= x < y < |devs'| && !devs'[x].freed && !devs'[y].freed ensures Apart(devs', x, y) {
      assert Apart(devs, x, y);
    }
    forall c: nat ensures CrtcOk(devs', crtcs', c) {
      assert CrtcOk(devs, crtcs, c);
    }
  }

  lemma ListedKept(devs: seq<Dev>, list: seq<nat>, outs: set<nat>, d: nat, dev: Dev)
    requires Listed(devs, list, outs) && d < |devs| && dev.freed == devs[d].freed && dev.cleanup == devs[d].cleanup
    ensures Listed(devs[d := dev], list, outs)
  {
  }

  /** A new device on a CRTC that no live device has. */
  lemma AddKeeps(devs: seq<Dev>, crtcs: map<nat, CrtcState>, events: seq<nat>, list: seq<nat>, crtc: nat)
    requires AllOk(devs, crtcs, events) && Listed(devs, list, {}) && forall d | d in list :: d < |devs| && devs[d].crtc != crtc
    ensures AllOk(devs + [Dev(crtc, 0, false, false, false)], crtcs, events)
    ensures Listed(devs + [Dev(crtc, 0, false, false, false)], [|devs|] + list, {})
  {
    var n := |devs|;
    var more := devs + [Dev(crtc, 0, false, false, false)];
    TimesIn(events, n);
    assert CrtcOk(devs, crtcs, crtc);
    assert forall d | 0 <= d < n && !devs[d].freed :: devs[d].crtc != crtc;
    forall d | 0 <= d < |more| && !more[d].freed ensures DevOk(more, crtcs, events, d) {
      assert d < n ==> DevOk(devs, crtcs, events, d);
    }
    forall x, y | 0 <= x < y < |more| && !more[x].freed && !more[y].freed ensures Apart(more, x, y) {
      assert y < n ==> Apart(devs, x, y);
    }
    forall c: nat ensures CrtcOk(more, crtcs, c) {
      assert CrtcOk(devs, crtcs, c);
    }
  }

  /** What one call of `drmHandleEvent` meets: vertical blanks before it, the events it reads, and the answers to new flips. */
  datatype Round = Round(vblanks: seq<nat>, deliver: nat, flips: seq<bool>)

  // ----- what a call of `drmHandleEvent` does, as a function of the state before it -----

  datatype Screen = Screen(devs: seq<Dev>, crtcs: map<nat, CrtcState>, events: seq<nat>)

  /** A vertical blank: the scheduled flip happens, and its event comes up. */
  function Blanked(s: Screen, c: nat): Screen {
    match At(s.crtcs, c).queued
    case None => s
    case Some(f) => Screen(s.devs, s.crtcs[c := CrtcState(Ours(f.dev, f.buf), None)], s.events + [f.dev])
  }

  function BlankedAll(s: Screen, cs: seq<nat>): Screen
    decreases |cs|
  {
    if cs == [] then s else BlankedAll(Blanked(s, cs[0]), cs[1..])
  }

  /** A flip of a device to its other buffer is scheduled, if the kernel says so. */
  function Drawn(s: Screen, d: nat, ok: bool): Screen
    requires d < |s.devs|
  {
    var dev := s.devs[d];
    if ok then
      Screen(s.devs[d := dev.(frontBuf := Other(dev.frontBuf), pflipPending := true)],
             s.crtcs[dev.crtc := At(s.crtcs, dev.crtc).(queued := Some(Flip(d, Other(dev.frontBuf))))], s.events)
    else s
  }

  /** The first event is handed on: its device waits no more, and draws again unless clean-up has come to it. */
  function HandedOn(s: Screen, ok: bool): Screen
    requires s.events != [] && s.events[0] < |s.devs|
  {
    var d := s.events[0];
    var s' := Screen(s.devs[d := s.devs[d].(pflipPending := false)], s.crtcs, s.events[1..]);
    if s.devs[d].cleanup then s' else Drawn(s', d, ok)
  }

  /** Up to `n` events are handed on; flip `i` is answered next. */
  function HandedOnAll(s: Screen, n: nat, flips: seq<bool>, i: nat): Screen
    decreases n
  {
    if n == 0 || s.events == [] || s.events[0] >= |s.devs| then s
    else HandedOnAll(HandedOn(s, i < |flips| && flips[i]), n - 1, flips, i + 1)
  }

  function Handled(s: Screen, round: Round): Screen {
    HandedOnAll(BlankedAll(s, round.vblanks), round.deliver, round.flips, 0)
  }

  /** And what several calls do. */
  function HandledAll(s: Screen, rounds: seq<Round>): Screen
    decreases |rounds|
  {
    if rounds == [] then s else HandledAll(Handled(s, rounds[0]), rounds[1..])
  }

  /** The event for the device is among those that the call hands on: it is, or comes up by a vertical blank, early enough in the queue. */
  ghost predicate Delivers(s: Screen, round: Round, d: nat) {
    var events := BlankedAll(s, round.vblanks).events;
    exists k :: 0 <= k < |events| && k < round.deliver && events[k] == d
  }

  /** One of the calls hands the event for the device on. */
  ghost predicate SomeDelivers(s: Screen, rounds: seq<Round>, d: nat) {
    exists i :: 0 <= i < |rounds| && Delivers(HandledAll(s, rounds[..i]), rounds[i], d)
  }

  ghost predicate Waiting(s: Screen, d: nat) {
    d < |s.devs| && s.devs[d].pflipPending
  }

  /** A state that the class keeps: the devices, CRTCs and events fit together. */
  ghost predicate Fits(s: Screen) {
    AllOk(s.devs, s.crtcs, s.events)
  }

  lemma BlankedFits(s: Screen, c: nat)
    requires Fits(s)
    ensures Fits(Blanked(s, c)) && Blanked(s, c).devs == s.devs && s.events <= Blanked(s, c).events
  {
    var k := At(s.crtcs, c);
    if k.queued.Some? {
      var f, v := k.queued.value, Blanked(s, c);
      assert CrtcOk(s.devs, s.crtcs, c) && DevOk(s.devs, s.crtcs, s.events, f.dev);
      forall e ensures Times(v.events, e) == Times(s.events, e) + if e == f.dev then 1 else 0 {
        TimesAppend(s.events, f.dev, e);
      }
      OneChanged(s.devs, s.devs, s.crtcs, v.crtcs, s.events, v.events, f.dev, s.devs[f.dev]);
    }
  }

  lemma {:induction false} BlankedAllFits(s: Screen, cs: seq<nat>)
    requires Fits(s)
    ensures var v := BlankedAll(s, cs); Fits(v) && v.devs == s.devs && s.events <= v.events
    decreases |cs|
  {
    hide Fits, Blanked;
    if cs != [] {
      BlankedFits(s, cs[0]);
      BlankedAllFits(Blanked(s, cs[0]), cs[1..]);
    }
  }

  lemma DrawnFits(s: Screen, d: nat, ok: bool)
    requires Fits(s) && d < |s.devs| && !s.devs[d].freed && !s.devs[d].pflipPending
    ensures Fits(Drawn(s, d, ok))
  {
    if ok {
      var v := Drawn(s, d, ok);
      assert DevOk(s.devs, s.crtcs, s.events, d) && CrtcOk(s.devs, s.crtcs, s.devs[d].crtc);
      OneChanged(s.devs, v.devs, s.crtcs, v.crtcs, s.events, v.events, d, v.devs[d]);
    }
  }

  /** The first event is for a live device that waits, and is the only one for it. */
  lemma FirstEvent(s: Screen)
    requires Fits(s) && s.events != []
    ensures var d := s.events[0]; d < |s.devs| && !s.devs[d].freed && s.devs[d].pflipPending && d !in s.events[1..]
  {
    var d := s.events[0];
    assert d in s.events;
    assert DevOk(s.devs, s.crtcs, s.events, d);
    TimesIn(s.events[1..], d);
  }

  /** The first event is taken, and its device waits no more. */
  lemma EventTaken(devs: seq<Dev>, crtcs: map<nat, CrtcState>, events: seq<nat>, d: nat)
    requires AllOk(devs, crtcs, events) && events != [] && d == events[0]
    ensures d < |devs| && !devs[d].freed && devs[d].pflipPending
    ensures AllOk(devs[d := devs[d].(pflipPending := false)], crtcs, events[1..])
  {
    assert d in events;
    TimesIn(events, d);
    assert DevOk(devs, crtcs, events, d) && CrtcOk(devs, crtcs, devs[d].crtc);
    forall e ensures Times(events, e) == (if e == d then 1 else 0) + Times(events[1..], e) {
    }
    OneChanged(devs, devs[d := devs[d].(pflipPending := false)], crtcs, crtcs, events, events[1..], d, devs[d].(pflipPending := false));
  }

  lemma HandedOnFits(s: Screen, ok: bool)
    requires Fits(s) && s.events != []
    ensures var d := s.events[0];
      && d < |s.devs| && Fits(HandedOn(s, ok)) && HandedOn(s, ok).events == s.events[1..]
      && |HandedOn(s, ok).devs| == |s.devs| && forall e | 0 <= e < |s.devs| && e != d :: HandedOn(s, ok).devs[e] == s.devs[e]
  {
    hide AllOk;
    var d := s.events[0];
    EventTaken(s.devs, s.crtcs, s.events, d);
    if !s.devs[d].cleanup {
      DrawnFits(Screen(s.devs[d := s.devs[d].(pflipPending := false)], s.crtcs, s.events[1..]), d, ok);
    }
  }

  ghost predicate AmongFirst(events: seq<nat>, n: nat, d: nat) {
    exists k :: 0 <= k < |events| && k < n && events[k] == d
  }

  lemma AmongFirstStep(events: seq<nat>, n: nat, d: nat)
    requires events != [] && n > 0
    ensures AmongFirst(events, n, d) <==> events[0] == d || AmongFirst(events[1..], n - 1, d)
  {
    if k :| 0 <= k < |events| && k < n && events[k] == d {
      assert k > 0 ==> events[1..][k - 1] == d;
    }
    if k :| 0 <= k < |events[1..]| && k < n - 1 && events[1..][k] == d {
      assert events[k + 1] == d;
    }
  }

  /** Clean-up has come to the device, which is not freed yet. */
  ghost predicate InCleanup(s: Screen, d: nat) {
    d < |s.devs| && s.devs[d].cleanup && !s.devs[d].freed
  }

  ghost predicate SameDevices(s: Screen, v: Screen) {
    |v.devs| == |s.devs| && forall e | 0 <= e < |s.devs| :: SameDevice(s.devs[e], v.devs[e])
  }

  /** Such a device waits on exactly if its event is not among those that are handed on. */
  lemma {:induction false} HandedOnAllWaits(s: Screen, n: nat, flips: seq<bool>, i: nat, d: nat)
    requires Fits(s) && InCleanup(s, d)
    ensures var v := HandedOnAll(s, n, flips, i);
      && Fits(v) && SameDevices(s, v)
      && (Waiting(v, d) <==> Waiting(s, d) && !AmongFirst(s.events, n, d))
    decreases n
  {
    hide Fits;
    if n > 0 && s.events != [] {
      FirstEvent(s);
      var ok := i < |flips| && flips[i];
      HandedOnFits(s, ok);
      AmongFirstStep(s.events, n, d);
      HandedOnAllWaits(HandedOn(s, ok), n - 1, flips, i + 1, d);
    }
  }

  lemma HandledWaits(s: Screen, round: Round, d: nat)
    requires Fits(s) && InCleanup(s, d)
    ensures Fits(Handled(s, round)) && SameDevices(s, Handled(s, round))
    ensures Waiting(Handled(s, round), d) <==> Waiting(s, d) && !Delivers(s, round, d)
  {
    hide Fits;
    BlankedAllFits(s, round.vblanks);
    HandedOnAllWaits(BlankedAll(s, round.vblanks), round.deliver, round.flips, 0, d);
  }

  lemma NoneDelivers(s: Screen, d: nat)
    ensures !SomeDelivers(s, [], d)
  {
  }

  lemma SomeDeliversStep(s: Screen, rounds: seq<Round>, d: nat)
    requires rounds != []
    ensures SomeDelivers(s, rounds, d) <==> Delivers(s, rounds[0], d) || SomeDelivers(Handled(s, rounds[0]), rounds[1..], d)
  {
    hide Delivers, Handled;
    var rest := rounds[1..];
    forall i | 1 <= i < |rounds| ensures HandledAll(s, rounds[..i]) == HandledAll(Handled(s, rounds[0]), rest[..i - 1]) {
      assert rounds[..i][1..] == rest[..i - 1];
    }
    if Delivers(s, rounds[0], d) {
      assert Delivers(HandledAll(s, rounds[..0]), rounds[0], d);
    }
    if i :| 0 <= i < |rounds| && Delivers(HandledAll(s, rounds[..i]), rounds[i], d) {
      if i > 0 {
        assert Delivers(HandledAll(Handled(s, rounds[0]), rest[..i - 1]), rest[i - 1], d);
      }
    }
    if j :| 0 <= j < |rest| && Delivers(HandledAll(Handled(s, rounds[0]), rest[..j]), rest[j], d) {
      assert Delivers(HandledAll(s, rounds[..j + 1]), rounds[j + 1], d);
    }
  }

  /** The state when the wait for a device is over: it waits no more, or the calls are used up. */
  function AfterWait(s: Screen, rounds: seq<Round>, d: nat): Screen
    requires d < |s.devs|
    decreases |rounds|
  {
    if !s.devs[d].pflipPending || rounds == [] || d >= |Handled(s, rounds[0]).devs| then s
    else AfterWait(Handled(s, rounds[0]), rounds[1..], d)
  }

  /** The wait ends well exactly if there is nothing to wait for, or one of the calls hands the device's event on. */
  lemma {:induction false} WaitEndsIff(s: Screen, rounds: seq<Round>, d: nat)
    requires Fits(s) && InCleanup(s, d)
    ensures var v := AfterWait(s, rounds, d);
      && Fits(v) && SameDevices(s, v)
      && (Waiting(v, d) <==> Waiting(s, d) && !SomeDelivers(s, rounds, d))
    decreases |rounds|
  {
    hide Fits, Handled, Delivers, SomeDelivers;
    if rounds == [] {
      NoneDelivers(s, d);
    } else {
      HandledWaits(s, rounds[0], d);
      SomeDeliversStep(s, rounds, d);
      if Waiting(s, d) {
        WaitEndsIff(Handled(s, rounds[0]), rounds[1..], d);
      }
    }
  }

  /** The device is marked, so that its event does not make it draw again. */
  function Marked(s: Screen, d: nat): Screen
    requires d < |s.devs|
  {
    s.(devs := s.devs[d := s.devs[d].(cleanup := true)])
  }

  /** The saved configuration is restored, and the device is freed. */
  function Gone(s: Screen, d: nat): Screen
    requires d < |s.devs|
  {
    Screen(s.devs[d := s.devs[d].(freed := true)], s.crtcs[s.devs[d].crtc := CrtcState(Foreign, None)], s.events)
  }

  /** The framebuffers are removed all the same, and with them the picture; the flip stays scheduled, and its event on its way. */
  function Torn(s: Screen, d: nat): Screen
    requires d < |s.devs|
  {
    var c := s.devs[d].crtc;
    s.(crtcs := s.crtcs[c := At(s.crtcs, c).(shown := Foreign)])
  }

  /** One device behind the other, the wait for each ends well: device by device, from the state that the ones before it leave. */
  ghost predicate EveryWaitEnds(s: Screen, list: seq<nat>, rounds: nat -> seq<Round>, k: nat)
    decreases |list|
  {
    list != [] ==>
      && list[0] < |s.devs|
      && (Waiting(s, list[0]) ==> SomeDelivers(Marked(s, list[0]), rounds(k), list[0]))
      && list[0] < |AfterWait(Marked(s, list[0]), rounds(k), list[0]).devs|
      && EveryWaitEnds(Gone(AfterWait(Marked(s, list[0]), rounds(k), list[0]), list[0]), list[1..], rounds, k + 1)
  }

  // ----- calls that are sure to end a wait -----

  lemma {:induction false} BlankedNone(s: Screen, cs: seq<nat>, c: nat)
    requires At(s.crtcs, c).queued.None? || c in cs
    ensures At(BlankedAll(s, cs).crtcs, c).queued.None?
    decreases |cs|
  {
    if cs != [] {
      BlankedNone(Blanked(s, cs[0]), cs[1..], c);
    }
  }

  ghost function Elements(events: seq<nat>): set<nat> {
    set d | d in events
  }

  lemma FewEvents(events: seq<nat>, n: nat)
    requires forall d | d in events :: d < n
    requires forall d :: Times(events, d) <= 1
    ensures |events| <= n
  {
    DistinctEvents(events);
    assert Elements(events) <= UpTo(n);
    SubsetSize(Elements(events), UpTo(n));
  }

  lemma {:induction false} DistinctEvents(events: seq<nat>)
    requires forall d :: Times(events, d) <= 1
    ensures |Elements(events)| == |events|
  {
    if events == [] {
      assert Elements(events) == {};
    } else {
      var rest := events[1..];
      forall d ensures Times(rest, d) <= 1 {
        assert Times(events, d) <= 1;
      }
      DistinctEvents(rest);
      TimesIn(rest, events[0]);
      assert Times(events, events[0]) <= 1;
      assert Elements(events) == Elements(rest) + {events[0]};
    }
  }

  /** No event is on its way twice, so there are never more of them than devices. */
  lemma EventsAreFew(s: Screen)
    requires Fits(s)
    ensures |s.events| <= |s.devs|
  {
    forall d ensures Times(s.events, d) <= 1 {
      TimesIn(s.events, d);
      if d in s.events {
        assert DevOk(s.devs, s.crtcs, s.events, d);
      }
    }
    FewEvents(s.events, |s.devs|);
  }

  /** A call behind a vertical blank of the device's CRTC that reads as many events as there are devices hands its event on. */
  lemma AmpleDelivers(s: Screen, round: Round, d: nat)
    requires Fits(s) && InCleanup(s, d) && Waiting(s, d)
    requires s.devs[d].crtc in round.vblanks && round.deliver >= |s.devs|
    ensures Delivers(s, round, d)
  {
    var v := BlankedAll(s, round.vblanks);
    BlankedAllFits(s, round.vblanks);
    BlankedNone(s, round.vblanks, s.devs[d].crtc);
    EventsAreFew(v);
    assert DevOk(v.devs, v.crtcs, v.events, d);
    TimesIn(v.events, d);
    var k :| 0 <= k < |v.events| && v.events[k] == d;
  }

  lemma {:induction false} HandledAllWaits(s: Screen, rounds: seq<Round>, d: nat)
    requires Fits(s) && InCleanup(s, d)
    ensures Fits(HandledAll(s, rounds)) && SameDevices(s, HandledAll(s, rounds))
    ensures Waiting(HandledAll(s, rounds), d) <==> Waiting(s, d) && !SomeDelivers(s, rounds, d)
    decreases |rounds|
  {
    hide Fits, Handled, Delivers, SomeDelivers;
    if rounds == [] {
      NoneDelivers(s, d);
    } else {
      HandledWaits(s, rounds[0], d);
      SomeDeliversStep(s, rounds, d);
      HandledAllWaits(Handled(s, rounds[0]), rounds[1..], d);
    }
  }

  /** Among the calls is one behind a vertical blank of the CRTC, that reads `n` events or more. */
  ghost predicate Ample(rounds: seq<Round>, c: nat, n: nat) {
    exists i :: 0 <= i < |rounds| && c in rounds[i].vblanks && rounds[i].deliver >= n
  }

  lemma AmpleEndsWait(s: Screen, rounds: seq<Round>, d: nat)
    requires Fits(s) && InCleanup(s, d) && Waiting(s, d) && Ample(rounds, s.devs[d].crtc, |s.devs|)
    ensures SomeDelivers(s, rounds, d)
  {
    hide Fits, Delivers, HandledAll;
    var i :| 0 <= i < |rounds| && s.devs[d].crtc in rounds[i].vblanks && rounds[i].deliver >= |s.devs|;
    HandledAllWaits(s, rounds[..i], d);
    if SomeDelivers(s, rounds[..i], d) {
      var j :| 0 <= j < i && Delivers(HandledAll(s, rounds[..i][..j]), rounds[..i][j], d);
      assert rounds[..i][..j] == rounds[..j];
      assert Delivers(HandledAll(s, rounds[..j]), rounds[j], d);
    } else {
      AmpleDelivers(HandledAll(s, rounds[..i]), rounds[i], d);
    }
  }

  /** When the wait for the first device ends well, what is left behind it fits again. */
  lemma FirstGone(s: Screen, list: seq<nat>, calls: seq<Round>, d: nat)
    requires Fits(s) && Listed(s.devs, list, {}) && list != [] && d == list[0]
    requires Waiting(s, d) ==> SomeDelivers(Marked(s, d), calls, d)
    ensures d < |AfterWait(Marked(s, d), calls, d).devs|
    ensures var g := Gone(AfterWait(Marked(s, d), calls, d), d);
      && Fits(g) && Listed(g.devs, list[1..], {}) && |g.devs| == |s.devs|
      && forall e | 0 <= e < |s.devs| :: g.devs[e].crtc == s.devs[e].crtc
  {
    hide AllOk, SomeDelivers, AfterWait;
    var m := Marked(s, d);
    TakeOut(s.devs, s.crtcs, s.events, list, {});
    assert {} + {d} == {d} && {d} - {d} == {};
    WaitEndsIff(m, calls, d);
    var v := AfterWait(m, calls, d);
    var g := Gone(v, d);
    ListedStill(m.devs, v.devs, list[1..], {d});
    FreeKeeps(v.devs, g.devs, v.crtcs, g.crtcs, v.events, list[1..], {d}, d);
  }

  lemma ListedStill(devs: seq<Dev>, devs': seq<Dev>, list: seq<nat>, outs: set<nat>)
    requires Listed(devs, list, outs) && |devs'| == |devs| && forall d | 0 <= d < |devs| :: SameDevice(devs[d], devs'[d])
    ensures Listed(devs', list, outs)
  {
  }

  /**
   * Clean-up ends well, in whatever state it begins, if in the wait for each device some call comes behind a vertical blank
   * of its CRTC and reads as many events as there are devices.
   */
  lemma {:induction false} AmpleIsClean(s: Screen, list: seq<nat>, rounds: nat -> seq<Round>, k: nat)
    requires Fits(s) && Listed(s.devs, list, {})
    requires forall j | 0 <= j < |list| :: Ample(rounds(k + j), s.devs[list[j]].crtc, |s.devs|)
    ensures EveryWaitEnds(s, list, rounds, k)
    decreases |list|
  {
    hide Fits, Ample, AfterWait, SomeDelivers, Listed, Gone;
    if list != [] {
      InRange(s.devs, list);
      var d, calls, rest := list[0], rounds(k), list[1..];
      assert Ample(rounds(k + 0), s.devs[list[0]].crtc, |s.devs|);
      FirstEnds(s, list, calls, d);
      FirstGone(s, list, calls, d);
      var g := Gone(AfterWait(Marked(s, d), calls, d), d);
      forall j | 0 <= j < |rest| ensures Ample(rounds(k + 1 + j), g.devs[rest[j]].crtc, |g.devs|) {
        assert Ample(rounds(k + (j + 1)), s.devs[list[j + 1]].crtc, |s.devs|);
        assert k + 1 + j == k + (j + 1);
      }
      AmpleIsClean(g, rest, rounds, k + 1);
    }
  }

  lemma InRange(devs: seq<Dev>, list: seq<nat>)
    requires Listed(devs, list, {})
    ensures forall k | 0 <= k < |list| :: list[k] < |devs|
  {
  }

  lemma FirstEnds(s: Screen, list: seq<nat>, calls: seq<Round>, d: nat)
    requires Fits(s) && Listed(s.devs, list, {}) && list != [] && d == list[0] && Ample(calls, s.devs[d].crtc, |s.devs|)
    ensures Waiting(s, d) ==> SomeDelivers(Marked(s, d), calls, d)
  {
    hide AllOk, Ample, SomeDelivers;
    if Waiting(s, d) {
      FirstMarked(s, list, d);
      AmpleEndsWait(Marked(s, d), calls, d);
    }
  }

  lemma FirstMarked(s: Screen, list: seq<nat>, d: nat)
    requires Fits(s) && Listed(s.devs, list, {}) && list != [] && d == list[0]
    ensures Fits(Marked(s, d)) && InCleanup(Marked(s, d), d)
  {
    hide AllOk;
    TakeOut(s.devs, s.crtcs, s.events, list, {});
  }

  class Modeset {
    var devs: seq<Dev>
    /** `modeset_list`, the first device first */
    var list: seq<nat>
    var crtcs: map<nat, CrtcState>
    var events: seq<nat>
    /** the devices that were freed although they were waiting: the kernel still refers to them, or has done so once more */
    ghost var left: set<nat>
    /** an event has been handed to one of them */
    ghost var touched: bool
    /** the pictures that were drawn, each into a buffer of a device */
    ghost var drawn: seq<(nat, nat)>

    ghost predicate Valid()
      reads this
    {
      ValidBut({}) && left == {}
    }

    ghost function View(): Screen
      reads this
    {
      Screen(devs, crtcs, events)
    }

    ghost predicate ValidBut(outs: set<nat>)
      reads this
    {
      && AllOk(devs, crtcs, events) && Listed(devs, list, outs)
      && left <= outs && (touched <==> exists d :: d in left && !devs[d].pflipPending)
    }

    constructor ()
      ensures Valid() && list == [] && devs == [] && events == []
    {
      devs, list, crtcs, events, left, touched, drawn := [], [], map[], [], {}, false, [];
    }

    // ----- preparing -----

    /** No device of the list uses the CRTC. */
    method Unused(crtc: nat) returns (r: bool)
      requires Valid()
      ensures r <==> forall d | d in list :: devs[d].crtc != crtc
    {
      for k := 0 to |list|
        invariant forall l | 0 <= l < k :: devs[list[l]].crtc != crtc
      {
        if devs[list[k]].crtc == crtc {
          return false;
        }
      }
      return true;
    }

    /** A CRTC that the connector can be driven by: the current one, or one that some encoder works with. */
    ghost predicate Usable(current: Option<nat>, encoders: seq<Option<set<nat>>>, res: seq<nat>, crtc: nat) {
      || current == Some(crtc)
      || exists i, j :: 0 <= i < |encoders| && 0 <= j < |res| && encoders[i].Some? && Works(encoders[i].value, res, j, crtc)
    }

    ghost predicate Works(possible: set<nat>, res: seq<nat>, j: nat, crtc: nat)
      requires j < |res|
    {
      j in possible && res[j] == crtc
    }

    /** The CRTC is the one at place `j` of the resources, encoder `i` works with it, and all CRTCs that encoders name before it are used. */
    ghost predicate FirstFree(encoders: seq<Option<set<nat>>>, res: seq<nat>, used: set<nat>, crtc: nat, i: nat, j: nat) {
      && i < |encoders| && j < |res| && encoders[i].Some? && Works(encoders[i].value, res, j, crtc) && crtc !in used
      && forall l, k, c: nat | 0 <= l <= i && 0 <= k < |res| && (l < i || k < j) && encoders[l].Some? && Works(encoders[l].value, res, k, c) :: c in used
    }

    /** The CRTCs of the listed devices. */
    ghost function Used(): (used: set<nat>)
      requires Valid()
      reads this
      ensures forall c: nat :: c in used <==> exists d :: d in list && devs[d].crtc == c
    {
      set k | 0 <= k < |list| :: devs[list[k]].crtc
    }

    /**
     * `modeset_find_crtc`: the current CRTC if no listed device uses it, else the first one that an encoder works with and no
     * device uses, encoder by encoder in the order of the resources; none if all of them are used.
     */
    method FindCrtc(current: Option<nat>, encoders: seq<Option<set<nat>>>, res: seq<nat>) returns (r: Option<nat>)
      requires Valid()
      ensures r.Some? ==> Usable(current, encoders, res, r.value) && forall d | d in list :: devs[d].crtc != r.value
      ensures r.None? ==> forall c: nat | Usable(current, encoders, res, c) :: exists d :: d in list && devs[d].crtc == c
      ensures current.Some? && current.value !in Used() ==> r == current
      ensures !(current.Some? && current.value !in Used()) && r.Some? ==> exists i: nat, j: nat :: FirstFree(encoders, res, Used(), r.value, i, j)
    {
      if current.Some? {
        var free := Unused(current.value);
        if free {
          return current;
        }
      }
      ghost var used := Used();
      for i := 0 to |encoders|
        invariant current.Some? ==> current.value in used
        invariant forall l, j, c: nat | 0 <= l < i && 0 <= j < |res| && encoders[l].Some? && Works(encoders[l].value, res, j, c) :: c in used
      {
        if encoders[i].None? {
          continue;
        }
        for j := 0 to |res|
          invariant forall k, c: nat | 0 <= k < j && Works(encoders[i].value, res, k, c) :: c in used
        {
          if j !in encoders[i].value {
            continue;
          }
          var free := Unused(res[j]);
          if free {
            assert Works(encoders[i].value, res, j, res[j]);
            assert used == Used();
            assert FirstFree(encoders, res, Used(), res[j], i, j);
            return Some(res[j]);
          }
        }
      }
      return None;
    }

    /** The end of `modeset_prepare`: a device with a CRTC of its own is put in front of the list. */
    method AddDevice(crtc: nat) returns (d: nat)
      requires Valid() && forall d | d in list :: devs[d].crtc != crtc
      modifies this`devs, this`list
      ensures Valid() && d == |old(devs)| && devs == old(devs) + [Dev(crtc, 0, false, false, false)] && list == [d] + old(list)
    {
      d := |devs|;
      AddKeeps(devs, crtcs, events, list, crtc);
      devs := devs + [Dev(crtc, 0, false, false, false)];
      list := [d] + list;
    }

    /** `drmModeSetCrtc` for a device that has no flip scheduled; it may fail. */
    method SetCrtc(d: nat, ok: bool)
      requires Valid() && d in list && !devs[d].pflipPending
      modifies this`crtcs
      ensures Valid()
      ensures var k := At(old(crtcs), devs[d].crtc); At(crtcs, devs[d].crtc) == if ok then k.(shown := Ours(d, devs[d].frontBuf)) else k
      ensures forall c | c != devs[d].crtc :: At(crtcs, c) == At(old(crtcs), c)
    {
      if ok {
        var k := At(crtcs, devs[d].crtc);
        ghost var was := crtcs;
        assert DevOk(devs, crtcs, events, d);
        crtcs := crtcs[devs[d].crtc := k.(shown := Ours(d, devs[d].frontBuf))];
        OneChanged(devs, devs, was, crtcs, events, events, d, devs[d]);
      }
    }

    // ----- drawing -----

    /** Drawing into a buffer, which must not be shown. */
    method Fill(d: nat, buf: nat)
      requires d < |devs| && At(crtcs, devs[d].crtc).shown != Ours(d, buf)
      modifies this`drawn
      ensures drawn == old(drawn) + [(d, buf)]
    {
      drawn := drawn + [(d, buf)];
    }

    /** `modeset_draw_dev`: draws into the buffer that is not shown and schedules the flip to it; `ok` is the answer of the kernel. */
    method DrawDev(d: nat, ok: bool, ghost outs: set<nat>)
      requires ValidBut(outs) && d < |devs| && !devs[d].freed && !devs[d].pflipPending && d !in outs
      modifies this`devs, this`crtcs, this`drawn
      ensures ValidBut(outs)
      ensures |devs| == |old(devs)| && forall e | 0 <= e < |devs| && e != d :: devs[e] == old(devs)[e]
      ensures devs[d] == old(devs)[d].(frontBuf := if ok then Other(old(devs)[d].frontBuf) else old(devs)[d].frontBuf, pflipPending := ok)
      ensures var k := At(old(crtcs), devs[d].crtc); At(crtcs, devs[d].crtc) == if ok then k.(queued := Some(Flip(d, devs[d].frontBuf))) else k
      ensures forall c | c != devs[d].crtc :: At(crtcs, c) == At(old(crtcs), c)
      ensures View() == Drawn(old(View()), d, ok)
      ensures drawn == old(drawn) + [(d, Other(old(devs)[d].frontBuf))]
    {
      assert DevOk(devs, crtcs, events, d);
      var buf := Other(devs[d].frontBuf);
      Fill(d, buf);
      var k := At(crtcs, devs[d].crtc);
      if ok && k.queued.None? {
        ghost var was, ks := devs, crtcs;
        ListedKept(devs, list, outs, d, devs[d].(frontBuf := buf, pflipPending := true));
        crtcs := crtcs[devs[d].crtc := k.(queued := Some(Flip(d, buf)))];
        devs := devs[d := devs[d].(frontBuf := buf, pflipPending := true)];
        assert CrtcOk(was, ks, devs[d].crtc);
        OneChanged(was, devs, ks, crtcs, events, events, d, devs[d]);
      }
    }

    /** A vertical blank of a CRTC: the scheduled flip happens, and its event can be read. */
    method VBlank(c: nat, ghost outs: set<nat>)
      requires ValidBut(outs)
      modifies this`crtcs, this`events
      ensures ValidBut(outs) && events == old(events) + (if At(old(crtcs), c).queued.Some? then [At(old(crtcs), c).queued.value.dev] else [])
      ensures var k := At(old(crtcs), c); At(crtcs, c) == match k.queued case None => k case Some(f) => CrtcState(Ours(f.dev, f.buf), None)
      ensures forall x | x != c :: At(crtcs, x) == At(old(crtcs), x)
      ensures View() == Blanked(old(View()), c)
    {
      var k := At(crtcs, c);
      if k.queued.Some? {
        var f := k.queued.value;
        assert CrtcOk(devs, crtcs, c) && DevOk(devs, crtcs, events, f.dev);
        ghost var ks, es := crtcs, events;
        crtcs := crtcs[c := CrtcState(Ours(f.dev, f.buf), None)];
        events := events + [f.dev];
        forall e ensures Times(events, e) == Times(es, e) + if e == f.dev then 1 else 0 {
          TimesAppend(es, f.dev, e);
        }
        OneChanged(devs, devs, ks, crtcs, es, events, f.dev, devs[f.dev]);
      }
    }

    /** `modeset_page_flip_event` for the first event: only a device that waits for it gets one, and, unless some were freed too early, a live one. */
    method PageFlipEvent(ok: bool, ghost outs: set<nat>)
      requires ValidBut(outs) && events != []
      modifies this`devs, this`crtcs, this`events, this`touched, this`drawn
      ensures ValidBut(outs) && events == old(events)[1..] && |devs| == |old(devs)|
      ensures touched <==> old(touched) || old(events)[0] in left
      ensures var d := old(events)[0]; d < |devs| && !old(devs)[d].freed && old(devs)[d].pflipPending
      ensures forall e | 0 <= e < |devs| && e != old(events)[0] :: devs[e] == old(devs)[e]
      ensures var d := old(events)[0]; SameDevice(old(devs)[d], devs[d]) && (devs[d].cleanup ==> !devs[d].pflipPending)
      ensures View() == HandedOn(old(View()), ok)
      ensures var d := old(events)[0]; drawn == old(drawn) + if old(devs)[d].cleanup then [] else [(d, Other(old(devs)[d].frontBuf))]
    {
      hide AllOk, Listed;
      var d := events[0];
      EventTaken(devs, crtcs, events, d);
      touched := touched || d in left;
      ghost var was := devs;
      events := events[1..];
      devs := devs[d := devs[d].(pflipPending := false)];
      ListedKept(was, list, outs, d, devs[d]);
      OutsKnown(was, list, outs);
      TouchedStep(was, devs, left, d);
      if !devs[d].cleanup {
        ListedOuts(was, list, outs, d);
        DrawDev(d, ok, outs);
      }
    }

    lemma OutsKnown(devs: seq<Dev>, list: seq<nat>, outs: set<nat>)
      requires Listed(devs, list, outs)
      ensures forall e | e in outs :: e < |devs|
    {
    }

    lemma TouchedStep(was: seq<Dev>, now: seq<Dev>, left: set<nat>, d: nat)
      requires d < |was| && now == was[d := was[d].(pflipPending := false)] && forall e | e in left :: e < |was|
      ensures (exists e :: e in left && !now[e].pflipPending) <==> (exists e :: e in left && !was[e].pflipPending) || d in left
    {
      if e :| e in left && !was[e].pflipPending {
        assert !now[e].pflipPending;
      }
    }

    lemma ListedOuts(devs: seq<Dev>, list: seq<nat>, outs: set<nat>, d: nat)
      requires Listed(devs, list, outs) && d < |devs| && !devs[d].cleanup
      ensures d !in outs
    {
    }

    /** `drmHandleEvent`, when it succeeds: behind the vertical blanks it hands on the first of the events that have come up. */
    method HandleEvent(round: Round, ghost outs: set<nat>)
      requires ValidBut(outs)
      modifies this`devs, this`crtcs, this`events, this`touched, this`drawn
      ensures ValidBut(outs) && |devs| == |old(devs)|
      ensures forall d | 0 <= d < |devs| :: SameDevice(old(devs)[d], devs[d])
      ensures View() == Handled(old(View()), round)
    {
      hide AllOk, Listed;
      for i := 0 to |round.vblanks|
        invariant ValidBut(outs) && devs == old(devs)
        invariant BlankedAll(old(View()), round.vblanks) == BlankedAll(View(), round.vblanks[i..])
      {
        VBlank(round.vblanks[i], outs);
        assert round.vblanks[i..][1..] == round.vblanks[i + 1..];
      }
      ghost var s := View();
      var n := 0;
      while n < round.deliver && events != []
        invariant 0 <= n <= round.deliver
        invariant ValidBut(outs) && |devs| == |old(devs)|
        invariant forall d | 0 <= d < |devs| :: SameDevice(old(devs)[d], devs[d])
        invariant HandedOnAll(s, round.deliver, round.flips, 0) == HandedOnAll(View(), round.deliver - n, round.flips, n)
        decreases round.deliver - n
      {
        PageFlipEvent(n < |round.flips| && round.flips[n], outs);
        n := n + 1;
      }
    }

    // ----- cleaning up -----

    /**
     * One round of `modeset_cleanup`: the first device is taken from the list, its flip is waited for, and it
     * is freed. `rounds` are what the calls of `drmHandleEvent` meet; when they are used up the next call fails
     * and the wait is broken off. The wait ends well exactly if the device waits for nothing, or one of the calls hands its
     * event on; if not, and then only, an event is left on its way to the freed device.
     */
    method CleanupNext(rounds: seq<Round>) returns (waited: bool)
      requires ValidBut(left) && list != []
      modifies this
      ensures ValidBut(left) && |devs| == |old(devs)| && list == old(list)[1..]
      ensures waited ==> devs[old(list)[0]].freed && left == old(left)
      ensures !waited ==> left == old(left) + {old(list)[0]} && Dangles(devs, crtcs, events, left, old(list)[0])
      ensures var d, s := old(list)[0], old(View());
        && d < |s.devs|
        && (waited <==> !s.devs[d].pflipPending || SomeDelivers(Marked(s, d), rounds, d))
        && d < |AfterWait(Marked(s, d), rounds, d).devs|
        && (waited ==> View() == Gone(AfterWait(Marked(s, d), rounds, d), d))
        && (!waited ==> View() == Torn(AfterWait(Marked(s, d), rounds, d), d))
    {
      hide AllOk, Listed, AfterWait, SomeDelivers, Handled;
      var iter := list[0];
      ghost var outs := left + {iter};
      FirstIsLive(devs, list, left);
      TakeOut(devs, crtcs, events, list, left);
      list := list[1..];
      devs := devs[iter := devs[iter].(cleanup := true)];
      ghost var s := View();
      WaitEndsIff(s, rounds, iter);
      WaitFor(iter, rounds, outs);
      waited := FreeDev(iter, outs);
    }

    /** Handles events until the device waits no more. */
    method WaitFor(iter: nat, rounds: seq<Round>, ghost outs: set<nat>)
      requires ValidBut(outs) && InCleanup(View(), iter)
      modifies this`devs, this`crtcs, this`events, this`touched, this`drawn
      ensures ValidBut(outs) && |devs| == |old(devs)|
      ensures View() == AfterWait(old(View()), rounds, iter)
    {
      hide AllOk, Listed, Handled;
      var i := 0;
      while devs[iter].pflipPending && i < |rounds|
        invariant ValidBut(outs) && |devs| == |old(devs)| && iter < |devs|
        invariant 0 <= i <= |rounds|
        invariant AfterWait(old(View()), rounds, iter) == AfterWait(View(), rounds[i..], iter)
      {
        HandleEvent(rounds[i], outs);
        assert rounds[i..][1..] == rounds[i + 1..];
        i := i + 1;
      }
    }

    /** The end of a round: the device is freed, whether its wait has ended well or not. */
    method FreeDev(iter: nat, ghost outs: set<nat>) returns (waited: bool)
      requires ValidBut(outs) && iter !in left && outs == left + {iter} && iter < |devs|
      modifies this`devs, this`crtcs, this`left
      ensures ValidBut(left) && |devs| == |old(devs)|
      ensures waited <==> !old(devs[iter].pflipPending)
      ensures waited ==> devs[iter].freed && left == old(left) && View() == Gone(old(View()), iter)
      ensures !waited ==> left == outs && Dangles(devs, crtcs, events, left, iter) && View() == Torn(old(View()), iter)
    {
      hide AllOk;
      waited := !devs[iter].pflipPending;
      var c := devs[iter].crtc;
      if waited {
        FreeKeeps(devs, devs[iter := devs[iter].(freed := true)], crtcs, crtcs[c := CrtcState(Foreign, None)], events, list, outs, iter);
        // the saved configuration is restored, which takes our buffer off the CRTC
        crtcs := crtcs[c := CrtcState(Foreign, None)];
        devs := devs[iter := devs[iter].(freed := true)];
        assert outs - {iter} == left;
      } else {
        DestroyKeeps(devs, crtcs, events, iter);
        // removing the framebuffers takes them off the CRTC, but does not cancel the flip
        crtcs := crtcs[c := At(crtcs, c).(shown := Foreign)];
        left := outs;
        DanglesIff(devs, crtcs, events, left, iter);
      }
    }

    /**
     * `modeset_cleanup`. `rounds` says what the wait for each device meets. If no wait is broken off, everything is
     * freed and no event is owed to anybody. With each wait that is broken off a device is freed too early: either an
     * event is still on its way to it at the end, or, in the wait for a later device, one was handed to it.
     */
    method Cleanup(rounds: nat -> seq<Round>) returns (clean: bool)
      requires Valid()
      modifies this
      ensures list == [] && ValidBut(left) && forall d | 0 <= d < |devs| :: devs[d].freed || d in left
      ensures clean <==> EveryWaitEnds(old(View()), old(list), rounds, 0)
      ensures clean <==> !touched && !Dangling(devs, crtcs, events, left)
      ensures clean ==> events == [] && (forall d | 0 <= d < |devs| :: devs[d].freed) && forall c: nat :: At(crtcs, c) == CrtcState(Foreign, None)
      ensures touched <==> exists d :: d in left && !Dangles(devs, crtcs, events, left, d)
    {
      hide AfterWait, SomeDelivers, AllOk;
      var k: nat := 0;
      clean := true;
      while list != []
        invariant ValidBut(left) && (clean <==> left == {})
        invariant EveryWaitEnds(old(View()), old(list), rounds, 0) <==> clean && EveryWaitEnds(View(), list, rounds, k)
        decreases |list|
      {
        var waited := CleanupNext(rounds(k));
        clean := clean && waited;
        k := k + 1;
      }
      LeftOrTouched();
      if clean {
        NobodyLeft(devs, crtcs, events, list);
      }
    }

    /** Each device that was freed too early is still owed its event, or has been handed it. */
    lemma LeftOrTouched()
      requires ValidBut(left)
      ensures touched <==> exists d :: d in left && !Dangles(devs, crtcs, events, left, d)
      ensures left == {} <==> !touched && !Dangling(devs, crtcs, events, left)
    {
      NothingDangles(devs, crtcs, events, left);
      forall d | d in left ensures Dangles(devs, crtcs, events, left, d) <==> devs[d].pflipPending {
        DanglesIff(devs, crtcs, events, left, d);
      }
    }

    // ----- a whole run -----

    /**
     * The devices stand for some of the wanted ones, in their order: `owners[d]` is the place of the one of device `d`. Each has a
     * CRTC that it can be driven by; one without a device found all of these in use.
     */
    ghost predicate Serves(wanted: seq<(Option<nat>, seq<Option<set<nat>>>)>, n: nat, res: seq<nat>, devs: seq<Dev>, owners: seq<nat>)
      requires n <= |wanted|
    {
      && |owners| == |devs| && (forall d, e | 0 <= d < e < |owners| :: owners[d] < owners[e])
      && (forall d | 0 <= d < |owners| :: owners[d] < n && Usable(wanted[owners[d]].0, wanted[owners[d]].1, res, devs[d].crtc))
      && (forall d, e | 0 <= d < e < |devs| :: devs[d].crtc != devs[e].crtc)
      && (forall i: nat | i < n && i !in owners :: AllUsed(wanted[i].0, wanted[i].1, res, devs, owners, i))
    }

    ghost predicate AllUsed(current: Option<nat>, encoders: seq<Option<set<nat>>>, res: seq<nat>, devs: seq<Dev>, owners: seq<nat>, i: nat)
      requires |owners| == |devs|
    {
      forall c: nat | Usable(current, encoders, res, c) :: exists d :: 0 <= d < |devs| && owners[d] < i && devs[d].crtc == c
    }

    /** Answer `k` of the kernel. */
    static predicate Yes(answers: seq<bool>, k: nat) { k < |answers| && answers[k] }

    /** The first picture of a device: `setOk` tells whether its CRTC could be set, `flipOk` whether the first flip could be scheduled. */
    static ghost predicate Begun(dev: Dev, k: CrtcState, d: nat, setOk: bool, flipOk: bool) {
      && dev == Dev(dev.crtc, if flipOk then 1 else 0, flipOk, false, false)
      && k.shown == (if setOk then Ours(d, 0) else Foreign)
      && k.queued == (if flipOk then Some(Flip(d, 1)) else None)
    }

    /** The devices that can be driven, the last one first in the list, each with a CRTC of its own; then the first pictures. */
    method Start(wanted: seq<(Option<nat>, seq<Option<set<nat>>>)>, res: seq<nat>, set': seq<bool>, flips: seq<bool>) returns (ghost owners: seq<nat>)
      requires Valid() && list == [] && devs == [] && events == []
      modifies this
      ensures Valid() && events == []
      ensures Serves(wanted, |wanted|, res, devs, owners)
      ensures |list| == |devs| && forall k | 0 <= k < |list| :: list[k] == |list| - 1 - k
      ensures forall k | 0 <= k < |list| :: Begun(devs[list[k]], At(crtcs, devs[list[k]].crtc), list[k], Yes(set', k), Yes(flips, k))
      ensures drawn == old(drawn) + FirstDrawn(list, |list|)
    {
      forall c: nat ensures At(crtcs, c) == CrtcState(Foreign, None) {
        assert CrtcOk(devs, crtcs, c);
      }
      owners := AddAll(wanted, res);
      FirstPictures(wanted, res, set', flips, owners);
    }

    /** `modeset_prepare` */
    method AddAll(wanted: seq<(Option<nat>, seq<Option<set<nat>>>)>, res: seq<nat>) returns (ghost owners: seq<nat>)
      requires Valid() && list == [] && devs == []
      modifies this`devs, this`list
      ensures Valid() && Serves(wanted, |wanted|, res, devs, owners)
      ensures |list| == |devs| && forall k | 0 <= k < |list| :: list[k] == |list| - 1 - k
      ensures forall d | 0 <= d < |devs| :: devs[d] == Dev(devs[d].crtc, 0, false, false, false)
    {
      hide AllOk, Listed;
      owners := [];
      for i := 0 to |wanted|
        invariant Valid() && Serves(wanted, i, res, devs, owners)
        invariant |list| == |devs| && forall k | 0 <= k < |list| :: list[k] == |list| - 1 - k
        invariant forall d | 0 <= d < |devs| :: devs[d] == Dev(devs[d].crtc, 0, false, false, false)
      {
        var crtc := FindCrtc(wanted[i].0, wanted[i].1, res);
        AllListed(list, devs);
        if crtc.Some? {
          ghost var was, before := devs, owners;
          var d := AddDevice(crtc.value);
          owners := owners + [i];
          ServesMore(wanted, i, res, was, before, crtc.value);
        } else {
          NotServed(wanted, i, res, devs, owners);
        }
      }
    }

    lemma AllListed(list: seq<nat>, devs: seq<Dev>)
      requires |list| == |devs| && forall k | 0 <= k < |list| :: list[k] == |list| - 1 - k
      ensures forall d: nat :: d in list <==> d < |devs|
    {
      forall d: nat | d < |devs| ensures d in list {
        assert list[|list| - 1 - d] == d;
      }
    }

    lemma ServesMore(wanted: seq<(Option<nat>, seq<Option<set<nat>>>)>, i: nat, res: seq<nat>, devs: seq<Dev>, owners: seq<nat>, crtc: nat)
      requires i < |wanted| && Serves(wanted, i, res, devs, owners) && Usable(wanted[i].0, wanted[i].1, res, crtc)
      requires forall d | 0 <= d < |devs| :: devs[d].crtc != crtc
      ensures Serves(wanted, i + 1, res, devs + [Dev(crtc, 0, false, false, false)], owners + [i])
    {
      hide Usable;
      var more, owners' := devs + [Dev(crtc, 0, false, false, false)], owners + [i];
      assert owners'[|owners|] == i;
      forall j: nat | j < i + 1 && j !in owners' ensures AllUsed(wanted[j].0, wanted[j].1, res, more, owners', j) {
        StillUsed(wanted[j].0, wanted[j].1, res, devs, owners, more, owners', j);
      }
    }

    lemma StillUsed(current: Option<nat>, encoders: seq<Option<set<nat>>>, res: seq<nat>, devs: seq<Dev>, owners: seq<nat>,
                    devs': seq<Dev>, owners': seq<nat>, i: nat)
      requires |owners| == |devs| && |owners'| == |devs'| && devs <= devs' && owners <= owners' && AllUsed(current, encoders, res, devs, owners, i)
      ensures AllUsed(current, encoders, res, devs', owners', i)
    {
      hide Usable;
      forall c: nat | Usable(current, encoders, res, c) ensures exists d :: 0 <= d < |devs'| && owners'[d] < i && devs'[d].crtc == c {
        var d :| 0 <= d < |devs| && owners[d] < i && devs[d].crtc == c;
        assert devs'[d] == devs[d] && owners'[d] == owners[d];
      }
    }

    lemma NotServed(wanted: seq<(Option<nat>, seq<Option<set<nat>>>)>, i: nat, res: seq<nat>, devs: seq<Dev>, owners: seq<nat>)
      requires i < |wanted| && Serves(wanted, i, res, devs, owners)
      requires forall c: nat | Usable(wanted[i].0, wanted[i].1, res, c) :: exists d :: 0 <= d < |devs| && devs[d].crtc == c
      ensures Serves(wanted, i + 1, res, devs, owners)
    {
      hide Usable;
    }

    /** The CRTCs are set, and the first flips are asked for. */
    method FirstPictures(ghost wanted: seq<(Option<nat>, seq<Option<set<nat>>>)>, ghost res: seq<nat>, set': seq<bool>, flips: seq<bool>, ghost owners: seq<nat>)
      requires Valid() && events == [] && Serves(wanted, |wanted|, res, devs, owners)
      requires |list| == |devs| && forall k | 0 <= k < |list| :: list[k] == |list| - 1 - k
      requires forall d | 0 <= d < |devs| :: devs[d] == Dev(devs[d].crtc, 0, false, false, false)
      requires forall c: nat :: At(crtcs, c) == CrtcState(Foreign, None)
      modifies this`devs, this`crtcs, this`drawn
      ensures Valid() && events == [] && Serves(wanted, |wanted|, res, devs, owners)
      ensures |list| == |devs| && forall k | 0 <= k < |list| :: list[k] == |list| - 1 - k
      ensures forall k | 0 <= k < |list| :: Begun(devs[list[k]], At(crtcs, devs[list[k]].crtc), list[k], Yes(set', k), Yes(flips, k))
      ensures drawn == old(drawn) + FirstDrawn(list, |list|)
    {
      hide AllOk, Listed, Serves, Begun, Pictures, Drawn;
      SortedList(list, devs, wanted, res, owners);
      SetAll(set');
      ghost var was := devs;
      PicturesStart(View(), list, set', flips);
      for k := 0 to |list|
        invariant Valid() && list == old(list) && events == []
        invariant Pictures(View(), was, list, set', flips, k)
        invariant drawn == old(drawn) + FirstDrawn(list, k)
      {
        PicturesNext(View(), was, list, set', flips, k);
        LiveAt(devs, list, list[k]);
        ghost var before := View();
        DrawDev(list[k], k < |flips| && flips[k], {});
        PicturesStep(before, View(), was, list, set', flips, k);
      }
      PicturesEnd(View(), was, list, set', flips);
      SameServes(wanted, res, was, devs, owners);
    }

    lemma SortedList(list: seq<nat>, devs: seq<Dev>, wanted: seq<(Option<nat>, seq<Option<set<nat>>>)>, res: seq<nat>, owners: seq<nat>)
      requires |list| == |devs| && (forall k | 0 <= k < |list| :: list[k] == |list| - 1 - k) && Serves(wanted, |wanted|, res, devs, owners)
      ensures (forall k | 0 <= k < |list| :: list[k] < |devs|) && (forall k, l | 0 <= k < l < |list| :: list[k] != list[l])
      ensures forall d, e | 0 <= d < e < |devs| :: devs[d].crtc != devs[e].crtc
    {
      hide Usable;
    }

    /** The first `k` devices of the list have their first pictures, the others are as they were. */
    static ghost predicate Pictures(s: Screen, was: seq<Dev>, list: seq<nat>, set': seq<bool>, flips: seq<bool>, k: nat) {
      && k <= |list| == |was| == |s.devs| && (forall d | 0 <= d < |was| :: s.devs[d].crtc == was[d].crtc)
      && (forall l | 0 <= l < |list| :: list[l] < |was|) && (forall l, m | 0 <= l < m < |list| :: list[l] != list[m])
      && (forall d, e | 0 <= d < e < |was| :: was[d].crtc != was[e].crtc)
      && (forall l | k <= l < |list| :: s.devs[list[l]] == Dev(was[list[l]].crtc, 0, false, false, false))
      && (forall l | k <= l < |list| :: At(s.crtcs, was[list[l]].crtc) == FirstShown(list, set', l))
      && (forall l | 0 <= l < k :: Begun(s.devs[list[l]], At(s.crtcs, was[list[l]].crtc), list[l], Yes(set', l), Yes(flips, l)))
    }

    lemma PicturesStart(s: Screen, list: seq<nat>, set': seq<bool>, flips: seq<bool>)
      requires |list| == |s.devs| && (forall k | 0 <= k < |list| :: list[k] < |s.devs|) && (forall k, l | 0 <= k < l < |list| :: list[k] != list[l])
      requires forall d, e | 0 <= d < e < |s.devs| :: s.devs[d].crtc != s.devs[e].crtc
      requires forall d | 0 <= d < |s.devs| :: s.devs[d] == Dev(s.devs[d].crtc, 0, false, false, false)
      requires forall l | 0 <= l < |list| :: At(s.crtcs, s.devs[list[l]].crtc) == FirstShown(list, set', l)
      ensures Pictures(s, s.devs, list, set', flips, 0)
    {
    }

    lemma PicturesNext(s: Screen, was: seq<Dev>, list: seq<nat>, set': seq<bool>, flips: seq<bool>, k: nat)
      requires Pictures(s, was, list, set', flips, k) && k < |list|
      ensures list[k] < |s.devs| && !s.devs[list[k]].pflipPending && s.devs[list[k]].frontBuf == 0
    {
    }

    lemma PicturesStep(s: Screen, v: Screen, was: seq<Dev>, list: seq<nat>, set': seq<bool>, flips: seq<bool>, k: nat)
      requires Pictures(s, was, list, set', flips, k) && k < |list| && list[k] < |s.devs| && v == Drawn(s, list[k], k < |flips| && flips[k])
      ensures Pictures(v, was, list, set', flips, k + 1)
    {
      hide Begun;
      DrawnBegins(s, v, list, set', flips, k);
    }

    lemma PicturesEnd(s: Screen, was: seq<Dev>, list: seq<nat>, set': seq<bool>, flips: seq<bool>)
      requires Pictures(s, was, list, set', flips, |list|)
      ensures |s.devs| == |was| && forall d | 0 <= d < |was| :: s.devs[d].crtc == was[d].crtc
      ensures forall k | 0 <= k < |list| :: list[k] < |s.devs| && Begun(s.devs[list[k]], At(s.crtcs, s.devs[list[k]].crtc), list[k], Yes(set', k), Yes(flips, k))
    {
    }

    /** The first pictures of the first `k` devices of the list, each in the buffer that is not shown. */
    static ghost function FirstDrawn(list: seq<nat>, k: nat): seq<(nat, nat)>
      requires k <= |list|
    {
      if k == 0 then [] else FirstDrawn(list, k - 1) + [(list[k - 1], 1)]
    }

    static ghost function FirstShown(list: seq<nat>, set': seq<bool>, l: nat): CrtcState
      requires l < |list|
    {
      CrtcState(if l < |set'| && set'[l] then Ours(list[l], 0) else Foreign, None)
    }

    /** The CRTC of every listed device is set, so far as the kernel lets it. */
    method SetAll(set': seq<bool>)
      requires Valid() && |list| == |devs| && (forall k | 0 <= k < |list| :: list[k] < |devs|) && (forall k, l | 0 <= k < l < |list| :: list[k] != list[l])
      requires forall d, e | 0 <= d < e < |devs| :: devs[d].crtc != devs[e].crtc
      requires forall d | 0 <= d < |devs| :: devs[d] == Dev(devs[d].crtc, 0, false, false, false)
      requires forall c: nat :: At(crtcs, c) == CrtcState(Foreign, None)
      modifies this`crtcs
      ensures Valid() && forall l | 0 <= l < |list| :: At(crtcs, devs[list[l]].crtc) == FirstShown(list, set', l)
    {
      hide AllOk, Listed;
      for k := 0 to |list|
        invariant Valid()
        invariant forall l | 0 <= l < k :: At(crtcs, devs[list[l]].crtc) == FirstShown(list, set', l)
        invariant forall l | k <= l < |list| :: At(crtcs, devs[list[l]].crtc) == CrtcState(Foreign, None)
      {
        SetCrtc(list[k], k < |set'| && set'[k]);
      }
    }

    lemma DrawnBegins(s: Screen, v: Screen, list: seq<nat>, set': seq<bool>, flips: seq<bool>, k: nat)
      requires k < |list| && list[k] < |s.devs| && v == Drawn(s, list[k], k < |flips| && flips[k])
      requires s.devs[list[k]] == Dev(s.devs[list[k]].crtc, 0, false, false, false) && At(s.crtcs, s.devs[list[k]].crtc) == FirstShown(list, set', k)
      ensures Begun(v.devs[list[k]], At(v.crtcs, v.devs[list[k]].crtc), list[k], Yes(set', k), Yes(flips, k))
    {
    }

    lemma LiveAt(devs: seq<Dev>, list: seq<nat>, d: nat)
      requires Listed(devs, list, {}) && d in list
      ensures d < |devs| && !devs[d].freed
    {
    }

    lemma SameServes(wanted: seq<(Option<nat>, seq<Option<set<nat>>>)>, res: seq<nat>, devs: seq<Dev>, devs': seq<Dev>, owners: seq<nat>)
      requires Serves(wanted, |wanted|, res, devs, owners)
      requires |devs'| == |devs| && forall d | 0 <= d < |devs| :: devs'[d].crtc == devs[d].crtc
      ensures Serves(wanted, |wanted|, res, devs', owners)
    {
      hide Usable;
      forall i: nat | i < |wanted| && i !in owners ensures AllUsed(wanted[i].0, wanted[i].1, res, devs', owners, i) {
        assert AllUsed(wanted[i].0, wanted[i].1, res, devs, owners, i);
        forall c: nat | Usable(wanted[i].0, wanted[i].1, res, c) ensures exists d :: 0 <= d < |devs'| && owners[d] < i && devs'[d].crtc == c {
          var d :| 0 <= d < |devs| && owners[d] < i && devs[d].crtc == c;
          assert devs'[d].crtc == c;
        }
      }
    }

    /**
     * `main`: start, handle events, clean up. It ends clean if and only if, from the state behind the start and the drawing,
     * every wait of the clean-up ends well; then nothing is left behind.
     */
    method Session(wanted: seq<(Option<nat>, seq<Option<set<nat>>>)>, res: seq<nat>, set': seq<bool>, flips: seq<bool>,
                   drawing: seq<Round>, cleaning: nat -> seq<Round>)
      returns (clean: bool, ghost started: Screen, ghost order: seq<nat>, ghost owners: seq<nat>)
      requires Valid() && list == [] && devs == [] && events == []
      modifies this
      ensures Serves(wanted, |wanted|, res, started.devs, owners) && started.events == []
      ensures |order| == |started.devs| && forall k | 0 <= k < |order| ::
        order[k] == |order| - 1 - k && Begun(started.devs[order[k]], At(started.crtcs, started.devs[order[k]].crtc), order[k], Yes(set', k), Yes(flips, k))
      ensures clean <==> EveryWaitEnds(HandledAll(started, drawing), order, cleaning, 0)
      ensures list == [] && forall d | 0 <= d < |devs| :: devs[d].freed || d in left
      ensures clean <==> !touched && !Dangling(devs, crtcs, events, left)
      ensures clean ==> events == [] && (forall d | 0 <= d < |devs| :: devs[d].freed) && forall c: nat :: At(crtcs, c) == CrtcState(Foreign, None)
    {
      hide AllOk, Listed, Serves, Begun, EveryWaitEnds, Handled;
      owners := Start(wanted, res, set', flips);
      started, order := View(), list;
      for i := 0 to |drawing|
        invariant Valid() && list == order
        invariant HandledAll(started, drawing) == HandledAll(View(), drawing[i..])
      {
        HandleEvent(drawing[i], {});
        assert drawing[i..][1..] == drawing[i + 1..];
      }
      clean := Cleanup(cleaning);
    }
  }

  lemma FirstIsLive(devs: seq<Dev>, list: seq<nat>, outs: set<nat>)
    requires Listed(devs, list, outs) && list != []
    ensures list[0] < |devs| && !devs[list[0]].freed && list[0] !in outs
  {
  }

  /** Taking the first device out of the list and marking it. */
  lemma TakeOut(devs: seq<Dev>, crtcs: map<nat, CrtcState>, events: seq<nat>, list: seq<nat>, outs: set<nat>)
    requires AllOk(devs, crtcs, events) && Listed(devs, list, outs) && list != []
    ensures var d := list[0]; var devs' := devs[d := devs[d].(cleanup := true)];
      AllOk(devs', crtcs, events) && Listed(devs', list[1..], outs + {d})
  {
    var d := list[0];
    var dev := devs[d].(cleanup := true);
    assert DevOk(devs, crtcs, events, d) && CrtcOk(devs, crtcs, dev.crtc);
    OneChanged(devs, devs[d := dev], crtcs, crtcs, events, events, d, dev);
  }

  /** The framebuffers of a device that waits are removed; what the kernel owes it stays. */
  lemma DestroyKeeps(devs: seq<Dev>, crtcs: map<nat, CrtcState>, events: seq<nat>, d: nat)
    requires AllOk(devs, crtcs, events) && d < |devs| && !devs[d].freed && devs[d].pflipPending
    ensures var c := devs[d].crtc; AllOk(devs, crtcs[c := At(crtcs, c).(shown := Foreign)], events)
  {
    var c := devs[d].crtc;
    assert DevOk(devs, crtcs, events, d) && CrtcOk(devs, crtcs, c);
    OneChanged(devs, devs, crtcs, crtcs[c := At(crtcs, c).(shown := Foreign)], events, events, d, devs[d]);
  }

  /** Without live devices there are no events, and no CRTC has anything of ours. */
  lemma NobodyLeft(devs: seq<Dev>, crtcs: map<nat, CrtcState>, events: seq<nat>, list: seq<nat>)
    requires AllOk(devs, crtcs, events) && Listed(devs, list, {}) && list == []
    ensures events == [] && (forall d | 0 <= d < |devs| :: devs[d].freed) && forall c: nat :: At(crtcs, c) == CrtcState(Foreign, None)
  {
    if events != [] {
      assert events[0] in events;
    }
    assert forall d | 0 <= d < |devs| :: devs[d].freed;
    forall c: nat ensures At(crtcs, c) == CrtcState(Foreign, None) {
      assert CrtcOk(devs, crtcs, c);
      assert At(crtcs, c).queued.None? && At(crtcs, c).shown.Foreign?;
    }
  }
}
