/** The worker: the session state shared by the command and refresh
    threads, the input and output event queues, the refresh countdown, the
    tap-tempo engine and the light bank, with the transitions the real-time
    callback and the background threads apply to them.

    Threads and locks are not modelled: each transition is one atomic step.
    Everything the unit answers over the network arrives as a parameter
    (a `Remote`), so every transition is a pure function. */
module Worker {
  import opened Machine
  import opened Midi
  import opened Json
  import opened FcbLights
  import opened Utilities
  import T = TapTempo

  /** Pedalboards shown per page of the controller. */
  const PAGE_SIZE: nat := 5
  /** CC data1 of every footswitch of the controller. */
  const BUTTON_CC: nat := 104
  const BANK_UP_BUTTON: nat := 10
  const TAP_BUTTON: nat := 11

  /** The state guarded by the status lock. */
  datatype Session = Session(
    pedalboards: seq<Pedalboard>,
    presets: seq<string>,
    currentPedalboard: int,  // -1 when unknown
    currentPreset: int,      // -1 when unknown
    offset: nat              // first pedalboard of the page shown
  )

  datatype WorkerState = WorkerState(
    session: Session,
    tap: T.TapTempo,
    lights: Bank,
    input: seq<MidiEvent>,
    output: seq<MidiEvent>,
    nextStatusUpdate: nat,  // frames until the next periodic refresh
    sampleRate: T.SampleRate
  )

  predicate Valid(w: WorkerState)
  {
    w.lights.Valid()
  }

  /** The state right after construction. */
  function NewWorker(sampleRate: T.SampleRate): (w: WorkerState)
    ensures Valid(w) && Invariant(w)
    ensures w.session.currentPedalboard == -1 && w.session.currentPreset == -1 && w.session.offset == 0
    ensures w.tap.paused && w.tap.lastTime == -1 && w.tap.length == 0
    ensures w.nextStatusUpdate == 0 && w.input == [] && w.output == []
    ensures w.lights == NewBank() && w.tap == T.Initial
    ensures w.session.pedalboards == [] && w.session.presets == []
  {
    WorkerState(Session([], [], -1, -1, 0), T.Initial, NewBank(), [], [], 0, sampleRate)
  }

  /** With tap tempo paused and its light off a block sends only the
      light bank's events. */
  lemma QuietBlock(w: WorkerState, nframes: nat)
    requires Valid(w) && w.tap.paused && !w.tap.lightOn
    ensures JackProcess(w, nframes).output == w.output + CopyAll(GetMidiEvents(w.lights).0)
  {
    assert T.Process(w.tap, w.sampleRate, nframes).1 == [];
    assert [] + GetMidiEvents(w.lights).0 == GetMidiEvents(w.lights).0;
  }

  /** The first block after construction sends no blink and announces
      every light of the controller: twenty events at frame 0, each a
      light-off or the digits showing 0. */
  lemma NewWorkerFirstBlock(sampleRate: T.SampleRate, nframes: nat)
    ensures var out := JackProcess(NewWorker(sampleRate), nframes).output;
      && |out| == 20
      && forall k | 0 <= k < |out| ::
           && out[k].time == 0
           && (out[k].data1 == LIGHT_OFF || (out[k].data1 == DIGITS_COMMAND && out[k].data2 == 0))
  {
    var w := NewWorker(sampleRate);
    var events := GetMidiEvents(NewBank()).0;
    FirstDrainAfterConstruction();
    QuietBlock(w, nframes);
    var out := CopyAll(events);
    assert JackProcess(w, nframes).output == out;
    forall k | 0 <= k < |out|
      ensures out[k].data1 == LIGHT_OFF || (out[k].data1 == DIGITS_COMMAND && out[k].data2 == 0)
    {
      assert events[k] in events;
    }
  }

  /** What every transition preserves: a fixed-size light bank, at most
      four remembered tempos, and a page offset on a page boundary. */
  predicate Invariant(w: WorkerState)
  {
    Valid(w) && |w.tap.bpms| <= T.MAX_HISTORY && w.session.offset % PAGE_SIZE == 0
  }

  // ---------------------------------------------------------------------
  // Real-time side: input filtering and the per-block step

  predicate IsTapButton(e: MidiEvent)
  {
    e.eventType == ControlChange && e.data1 == BUTTON_CC && e.data2 == TAP_BUTTON
  }

  /** The frames at which the tap button was pressed, in arrival order. */
  function TapFrames(raw: seq<RawEvent>): (r: seq<nat>)
    requires forall k | 0 <= k < |raw| :: Complete(raw[k].buffer)
    ensures |r| <= |raw|
  {
    if raw == [] then []
    else
      var e := Decode(raw[0].buffer, raw[0].time);
      (if IsTapButton(e) then [e.time] else []) + TapFrames(raw[1..])
  }

  /** Every tap of a sequence, applied in turn, is one the engine accepts. */
  predicate TapsReady(t: T.TapTempo, sampleRate: T.SampleRate, frames: seq<nat>, nframes: nat)
    decreases |frames|
  {
    frames == [] ||
    (T.TapReady(t, frames[0], nframes) && TapsReady(T.Tap(t, sampleRate, frames[0], nframes), sampleRate, frames[1..], nframes))
  }

  /** The engine after a sequence of taps within one block. */
  function TapAll(t: T.TapTempo, sampleRate: T.SampleRate, frames: seq<nat>, nframes: nat): (r: T.TapTempo)
    requires TapsReady(t, sampleRate, frames, nframes)
    ensures t.paused ==> r == t
    ensures r.paused == t.paused && r.lightOn == t.lightOn
    ensures |t.bpms| <= T.MAX_HISTORY ==> |r.bpms| <= T.MAX_HISTORY
    decreases |frames|
  {
    if frames == [] then t
    else TapAll(T.Tap(t, sampleRate, frames[0], nframes), sampleRate, frames[1..], nframes)
  }

  /** The transport delivers complete events inside the block, and a tap
      that measures an interval measures a positive one. */
  predicate InputReady(t: T.TapTempo, sampleRate: T.SampleRate, raw: seq<RawEvent>, nframes: nat)
  {
    && (forall k | 0 <= k < |raw| :: Complete(raw[k].buffer) && raw[k].time < nframes)
    && TapsReady(t, sampleRate, TapFrames(raw), nframes)
  }

  /** The events that join the input queue: copies of the decoded events
      that are not taps, in arrival order. The copy keeps everything but
      the frame, which becomes 0. */
  function Queued(raw: seq<RawEvent>): (r: seq<MidiEvent>)
    requires forall k | 0 <= k < |raw| :: Complete(raw[k].buffer)
    ensures |r| <= |raw|
    ensures forall k | 0 <= k < |r| :: !IsTapButton(r[k]) && r[k].time == 0
  {
    if raw == [] then []
    else
      var e := Decode(raw[0].buffer, raw[0].time);
      (if IsTapButton(e) then [] else [Copy(e)]) + Queued(raw[1..])
  }

  predicate NoTaps(raw: seq<RawEvent>)
    requires forall k | 0 <= k < |raw| :: Complete(raw[k].buffer)
  {
    forall k | 0 <= k < |raw| :: !IsTapButton(Decode(raw[k].buffer, raw[k].time))
  }

  /** Queueing keeps arrival order: the events of a block split in two
      are those of the first part followed by those of the second. */
  lemma {:induction false} QueuedAppend(a: seq<RawEvent>, b: seq<RawEvent>)
    requires forall k | 0 <= k < |a| :: Complete(a[k].buffer)
    requires forall k | 0 <= k < |b| :: Complete(b[k].buffer)
    ensures forall k | 0 <= k < |a + b| :: Complete((a + b)[k].buffer)
    ensures Queued(a + b) == Queued(a) + Queued(b)
    decreases |a|
  {
    assert forall k | 0 <= k < |a + b| :: (a + b)[k] == if k < |a| then a[k] else b[k - |a|];
    if a != [] {
      assert (a + b)[0] == a[0] && (a + b)[1..] == a[1..] + b;
      assert forall k | 0 <= k < |a[1..]| :: a[1..][k] == a[k + 1];
      QueuedAppend(a[1..], b);
      var e := Decode(a[0].buffer, a[0].time);
      var head := if IsTapButton(e) then [] else [Copy(e)];
      assert Queued(a + b) == head + Queued(a[1..] + b);
      assert Queued(a) == head + Queued(a[1..]);
    } else {
      assert a + b == b;
    }
  }

  /** Every non-tap event of the block is queued, as its copy. */
  lemma {:induction false} QueuedComplete(raw: seq<RawEvent>)
    requires forall k | 0 <= k < |raw| :: Complete(raw[k].buffer)
    ensures forall k | 0 <= k < |raw| && !IsTapButton(Decode(raw[k].buffer, raw[k].time)) ::
              Copy(Decode(raw[k].buffer, raw[k].time)) in Queued(raw)
    decreases |raw|
  {
    if raw != [] {
      assert forall k | 0 <= k < |raw[1..]| :: raw[1..][k] == raw[k + 1];
      QueuedComplete(raw[1..]);
    }
  }

  /** Every queued event is the copy of a non-tap event of the block. */
  lemma {:induction false} QueuedSound(raw: seq<RawEvent>)
    requires forall k | 0 <= k < |raw| :: Complete(raw[k].buffer)
    ensures forall e | e in Queued(raw) :: exists j | 0 <= j < |raw| ::
              !IsTapButton(Decode(raw[j].buffer, raw[j].time)) && e == Copy(Decode(raw[j].buffer, raw[j].time))
    decreases |raw|
  {
    if raw != [] {
      assert forall k | 0 <= k < |raw[1..]| :: raw[1..][k] == raw[k + 1];
      QueuedSound(raw[1..]);
    }
  }

  /** Every incoming event is either queued or taken as a tap, never both. */
  lemma {:induction false} QueuedOrTapped(raw: seq<RawEvent>)
    requires forall k | 0 <= k < |raw| :: Complete(raw[k].buffer)
    ensures |Queued(raw)| + |TapFrames(raw)| == |raw|
  {
    if raw != [] {
      assert forall k | 0 <= k < |raw[1..]| :: raw[1..][k] == raw[k + 1];
      QueuedOrTapped(raw[1..]);
    }
  }

  /** The readiness of a block carries over to the rest of the block
      after its first event. */
  lemma InputReadyTail(t: T.TapTempo, sampleRate: T.SampleRate, raw: seq<RawEvent>, nframes: nat)
    requires raw != [] && InputReady(t, sampleRate, raw, nframes)
    ensures var e := Decode(raw[0].buffer, raw[0].time);
      && (IsTapButton(e) ==>
            && TapFrames(raw) == [e.time] + TapFrames(raw[1..])
            && T.TapReady(t, e.time, nframes)
            && InputReady(T.Tap(t, sampleRate, e.time, nframes), sampleRate, raw[1..], nframes))
      && (!IsTapButton(e) ==>
            && TapFrames(raw) == TapFrames(raw[1..])
            && InputReady(t, sampleRate, raw[1..], nframes))
  {
    assert forall k | 0 <= k < |raw[1..]| :: raw[1..][k] == raw[k + 1];
  }

  /** midiInput: taps go straight to the tap-tempo engine, in arrival
      order; everything else joins the input queue in arrival order. */
  function MidiInput(w: WorkerState, raw: seq<RawEvent>, nframes: nat): (r: WorkerState)
    requires InputReady(w.tap, w.sampleRate, raw, nframes)
    ensures r.input == w.input + Queued(raw)
    ensures r == w.(input := r.input, tap := r.tap)
    ensures NoTaps(raw) ==> r.tap == w.tap
    ensures |w.tap.bpms| <= T.MAX_HISTORY ==> |r.tap.bpms| <= T.MAX_HISTORY
    decreases |raw|
  {
    if raw == [] then w
    else
      var e := Decode(raw[0].buffer, raw[0].time);
      NoTapsTail(raw);
      InputReadyTail(w.tap, w.sampleRate, raw, nframes);
      if IsTapButton(e) then
        MidiInput(w.(tap := T.Tap(w.tap, w.sampleRate, e.time, nframes)), raw[1..], nframes)
      else
        assert w.input + Queued(raw) == (w.input + [Copy(e)]) + Queued(raw[1..]);
        MidiInput(w.(input := w.input + [Copy(e)]), raw[1..], nframes)
  }

  /** The taps of a block reach the tap-tempo engine one after the other,
      in arrival order: the engine ends as the taps folded over it. */
  lemma {:induction false} MidiInputTaps(w: WorkerState, raw: seq<RawEvent>, nframes: nat)
    requires InputReady(w.tap, w.sampleRate, raw, nframes)
    ensures MidiInput(w, raw, nframes).tap == TapAll(w.tap, w.sampleRate, TapFrames(raw), nframes)
    decreases |raw|
  {
    if raw != [] {
      var e := Decode(raw[0].buffer, raw[0].time);
      InputReadyTail(w.tap, w.sampleRate, raw, nframes);
      if IsTapButton(e) {
        MidiInputTaps(w.(tap := T.Tap(w.tap, w.sampleRate, e.time, nframes)), raw[1..], nframes);
      } else {
        MidiInputTaps(w.(input := w.input + [Copy(e)]), raw[1..], nframes);
      }
    }
  }

  lemma NoTapsTail(raw: seq<RawEvent>)
    requires raw != [] && forall k | 0 <= k < |raw| :: Complete(raw[k].buffer)
    ensures NoTaps(raw) ==> NoTaps(raw[1..]) && !IsTapButton(Decode(raw[0].buffer, raw[0].time))
  {
    if NoTaps(raw) {
      forall k | 0 <= k < |raw[1..]|
        ensures !IsTapButton(Decode(raw[1..][k].buffer, raw[1..][k].time))
      {
        assert raw[1..][k] == raw[k + 1];
      }
    }
  }

  /** The refresh countdown: decreased by the block size, clamped at 0. */
  function Countdown(n: nat, nframes: nat): (r: nat)
    ensures r <= n
    ensures r == 0 <==> n <= nframes
    ensures r > 0 ==> r + nframes == n
  {
    if n < nframes then 0 else n - nframes
  }

  /** Two blocks count down as one block of their combined size. */
  lemma CountdownCompose(n: nat, a: nat, b: nat)
    ensures Countdown(Countdown(n, a), b) == Countdown(n, a + b)
  {
  }

  /** jackProcess: run the blink tick, drain the light bank into the
      output queue after the blink events, and count down to the next
      refresh. Every event reaches the queue as a copy, and the copy
      resets its frame, so the whole block is sent at frame 0. */
  function JackProcess(w: WorkerState, nframes: nat): (r: WorkerState)
    requires Valid(w)
    ensures Valid(r) && SameValues(w.lights, r.lights)
    ensures forall c | ValidCell(c) :: !IsDirty(r.lights, c)
    ensures r.tap == T.Process(w.tap, w.sampleRate, nframes).0
    ensures r.nextStatusUpdate == Countdown(w.nextStatusUpdate, nframes)
    ensures |r.output| >= |w.output| && r.output[..|w.output|] == w.output
    ensures r.output[|w.output|..] ==
              CopyAll(T.Process(w.tap, w.sampleRate, nframes).1 + GetMidiEvents(w.lights).0)
    ensures forall k | |w.output| <= k < |r.output| :: r.output[k].time == 0
    ensures r.session == w.session && r.input == w.input && r.sampleRate == w.sampleRate
    ensures Invariant(w) ==> Invariant(r)
  {
    var step := T.Process(w.tap, w.sampleRate, nframes);
    var drained := GetMidiEvents(w.lights);
    var tap, blink := step.0, step.1;
    var events, lights := drained.0, drained.1;
    var queued := CopyAll(blink + events);
    var r := w.(tap := tap, lights := lights, output := w.output + queued,
                nextStatusUpdate := Countdown(w.nextStatusUpdate, nframes));
    assert r.output[|w.output|..] == queued;
    r
  }

  /** At most two events in frame order; events at the same frame keep
      their order. */
  function ByFrame(s: seq<MidiEvent>): (r: seq<MidiEvent>)
    requires |s| <= 2
    ensures multiset(r) == multiset(s) && |r| == |s|
    ensures forall i, j | 0 <= i < j < |r| :: r[i].time <= r[j].time
  {
    if |s| == 2 && s[1].time < s[0].time then
      assert s == [s[0], s[1]];
      [s[1], s[0]]
    else s
  }

  /** What one block queues when frames are kept: the frame-0 light events
      first, then the blink in frame order. */
  function IntendedBlock(blink: seq<MidiEvent>, events: seq<MidiEvent>, nframes: nat): (r: seq<MidiEvent>)
    requires |blink| <= 2
    requires forall k | 0 <= k < |events| :: events[k].time == 0
    requires forall k | 0 <= k < |blink| :: blink[k].time < nframes || blink[k].time == 0
    ensures multiset(r) == multiset(blink + events)
    ensures forall i, j | 0 <= i < j < |r| :: r[i].time <= r[j].time
    ensures forall k | 0 <= k < |r| :: r[k].time < nframes || r[k].time == 0
  {
    var ordered := ByFrame(blink);
    var r := events + ordered;
    assert forall k | 0 <= k < |ordered| :: ordered[k].time < nframes || ordered[k].time == 0 by {
      assert forall k | 0 <= k < |ordered| :: ordered[k] in multiset(blink);
    }
    assert forall k | 0 <= k < |r| :: r[k] == if k < |events| then events[k] else ordered[k - |events|];
    assert multiset(r) == multiset(blink + events);
    r
  }

  /** Appending a frame-ordered block to a queue keeps the block, in
      order, behind the queue. */
  lemma AppendInFrameOrder(prefix: seq<MidiEvent>, block: seq<MidiEvent>, nframes: nat)
    requires forall i, j | 0 <= i < j < |block| :: block[i].time <= block[j].time
    requires forall k | 0 <= k < |block| :: block[k].time < nframes || block[k].time == 0
    ensures var out := prefix + block;
      && out[..|prefix|] == prefix && out[|prefix|..] == block
      && (forall i, j | |prefix| <= i < j < |out| :: out[i].time <= out[j].time)
      && (forall k | |prefix| <= k < |out| :: out[k].time < nframes || out[k].time == 0)
  {
    var out := prefix + block;
    assert forall k | |prefix| <= k < |out| :: out[k] == block[k - |prefix|];
  }

  /** The block step as its blink scheduling intends it: the blink keeps
      its period and its events keep the frames the tick computed for them.
      A JACK output buffer takes events only in non-decreasing frame order,
      so the frame-0 light events go first and the blink follows in frame
      order. */
  function JackProcessIntended(w: WorkerState, nframes: nat): (r: WorkerState)
    requires Valid(w)
    ensures Valid(r) && SameValues(w.lights, r.lights)
    ensures forall c | ValidCell(c) :: !IsDirty(r.lights, c)
    ensures r.tap == T.ProcessIntended(w.tap, w.sampleRate, nframes).0
    ensures r.nextStatusUpdate == Countdown(w.nextStatusUpdate, nframes)
    ensures |r.output| >= |w.output| && r.output[..|w.output|] == w.output
    ensures multiset(r.output[|w.output|..]) ==
              multiset(T.ProcessIntended(w.tap, w.sampleRate, nframes).1 + GetMidiEvents(w.lights).0)
    ensures forall i, j | |w.output| <= i < j < |r.output| :: r.output[i].time <= r.output[j].time
    ensures forall k | |w.output| <= k < |r.output| :: r.output[k].time < nframes || r.output[k].time == 0
    ensures r.session == w.session && r.input == w.input && r.sampleRate == w.sampleRate
    ensures Invariant(w) ==> Invariant(r)
  {
    var step := T.ProcessIntended(w.tap, w.sampleRate, nframes);
    var drained := GetMidiEvents(w.lights);
    var tap, blink := step.0, step.1;
    var events, lights := drained.0, drained.1;
    var block := IntendedBlock(blink, events, nframes);
    AppendInFrameOrder(w.output, block, nframes);
    w.(tap := tap, lights := lights, output := w.output + block,
       nextStatusUpdate := Countdown(w.nextStatusUpdate, nframes))
  }

  /** As written, an "on" edge due inside the block at a frame after 0 is
      sent at frame 0: the event the tick built for that frame never
      reaches the output. */
  lemma BlinkSentAtFrameZero(w: WorkerState, nframes: nat)
    requires Valid(w) && !w.tap.paused && w.tap.length > 0
    requires 0 < w.tap.nextOn < nframes
    ensures var out := JackProcess(w, nframes).output[|w.output|..];
      && T.LightEvent(true, w.tap.nextOn) in T.Process(w.tap, w.sampleRate, nframes).1
      && T.LightEvent(true, 0) in out
      && T.LightEvent(true, w.tap.nextOn) !in out
  {
    var out := JackProcess(w, nframes).output[|w.output|..];
    var blink := T.Process(w.tap, w.sampleRate, nframes).1;
    assert blink[0] == T.LightEvent(true, w.tap.nextOn);
    assert out[0] == Copy(blink[0]);
  }

  /** With the frames kept, each edge that falls in the block is sent at
      the frame it is due. */
  lemma BlinkSentAtFrame(w: WorkerState, nframes: nat)
    requires Valid(w) && !w.tap.paused && w.tap.length > 0
    ensures var out := JackProcessIntended(w, nframes).output[|w.output|..];
      && (w.tap.nextOn < nframes ==> T.LightEvent(true, w.tap.nextOn) in out)
      && (w.tap.nextOff < nframes ==> T.LightEvent(false, w.tap.nextOff) in out)
  {
    var out := JackProcessIntended(w, nframes).output[|w.output|..];
    var blink := T.Process(w.tap, w.sampleRate, nframes).1;
    assert forall e | e in blink :: e in multiset(out);
  }

  // ---------------------------------------------------------------------
  // Light recomputation from the session

  /** The current pedalboard lies on the page shown. */
  predicate OnPage(s: Session)
  {
    s.offset <= s.currentPedalboard < s.offset + PAGE_SIZE
  }

  /** Which pedal lights are on: pedal k < 5 iff preset k is current,
      pedal 5 + k iff pedalboard `offset + k` is current. */
  predicate PedalLit(s: Session, k: int)
  {
    if k < PAGE_SIZE then k == s.currentPreset else k - PAGE_SIZE + s.offset == s.currentPedalboard
  }

  /** Every pedal is written with whether it is lit. */
  function PageLights(b: Bank, s: Session): (r: Bank)
    requires b.Valid()
    ensures r.Valid() && r.misc == b.misc && r.digits == b.digits
    ensures forall k | 0 <= k < PEDAL_COUNT :: r.pedals[k] == b.pedals[k].SetValue(PedalLit(s, k))
  {
    b.(pedals := seq(PEDAL_COUNT, k requires 0 <= k < PEDAL_COUNT => b.pedals[k].SetValue(PedalLit(s, k))))
  }

  /** Every misc light is switched off. */
  function ClearMisc(b: Bank): (r: Bank)
    requires b.Valid()
    ensures r.Valid() && r.pedals == b.pedals && r.digits == b.digits
    ensures forall j | 0 <= j < MISC_COUNT :: r.misc[j] == b.misc[j].SetValue(false)
  {
    b.(misc := seq(MISC_COUNT, j requires 0 <= j < MISC_COUNT => b.misc[j].SetValue(false)))
  }

  /** fcbUpdate: recompute the lights from the session, in the order the
      controller expects the writes. */
  function FcbUpdate(s: Session, b: Bank): (r: Bank)
    requires b.Valid()
    ensures r.Valid()
    ensures forall k | 0 <= k < PEDAL_COUNT :: r.pedals[k].value == PedalLit(s, k)
    ensures forall j | 0 <= j < MISC_COUNT - 1 :: !r.misc[j].value
    ensures r.misc[12].value == !OnPage(s)
    ensures r.digits.value == if OnPage(s) then s.currentPedalboard + 1 else s.offset + 1
  {
    var b1 := PageLights(b, s);
    var b2 := ClearMisc(b1);
    if OnPage(s) then SetDigits(SetMiscLight(b2, 12, false), s.currentPedalboard + 1)
    else SetDigits(SetMiscLight(b2, 12, true), s.offset + 1)
  }

  /** Pedal i is on iff preset i is current, pedal 5 + i iff the page's
      pedalboard i is current; a pedal is marked for sending only when it
      was pending already or its value changed. */
  lemma FcbUpdatePedals(s: Session, b: Bank)
    requires b.Valid()
    ensures var r := FcbUpdate(s, b);
      forall k | 0 <= k < PEDAL_COUNT ::
        && r.pedals[k].value == PedalLit(s, k)
        && (r.pedals[k].dirty <==> b.pedals[k].dirty || b.pedals[k].value != PedalLit(s, k))
  {
  }

  /** Misc lights 0-11 end off, misc 12 ("off the page") ends on iff the
      current pedalboard is not on the page. Misc 12 is written off and then
      on in that case, so it is always marked for sending then. */
  lemma FcbUpdateMisc(s: Session, b: Bank)
    requires b.Valid()
    ensures var r := FcbUpdate(s, b);
      forall j | 0 <= j < MISC_COUNT - 1 ::
        !r.misc[j].value && (r.misc[j].dirty <==> b.misc[j].dirty || b.misc[j].value)
    ensures var r := FcbUpdate(s, b);
      && r.misc[12].value == !OnPage(s)
      && (OnPage(s) ==> (r.misc[12].dirty <==> b.misc[12].dirty || b.misc[12].value))
      && (!OnPage(s) ==> r.misc[12].dirty)
  {
  }

  /** The digits show the current pedalboard's number (counted from 1) when
      it is on the page, and the page's first number otherwise. */
  lemma FcbUpdateDigits(s: Session, b: Bank)
    requires b.Valid()
    ensures var r := FcbUpdate(s, b);
      && r.digits.value == (if OnPage(s) then s.currentPedalboard + 1 else s.offset + 1)
      && (r.digits.dirty <==> b.digits.dirty || b.digits.value != r.digits.value)
  {
  }

  /** What the controller receives after a recomputation: every pedal whose
      light was pending or changed is announced with its new state, the
      "off the page" indicator (misc 12, address 23) is announced on when
      the current pedalboard is off the page, and changed digits are
      announced with their new number. */
  lemma FcbUpdateReachesController(s: Session, b: Bank)
    requires b.Valid()
    ensures var events := GetMidiEvents(FcbUpdate(s, b)).0;
      && (forall k | 0 <= k < PEDAL_COUNT && (b.pedals[k].dirty || b.pedals[k].value != PedalLit(s, k)) ::
            ControlChange0(if PedalLit(s, k) then LIGHT_ON else LIGHT_OFF, if k == 9 then 0 else k + 1) in events)
      && (!OnPage(s) ==> ControlChange0(LIGHT_ON, 23) in events)
      && (b.digits.dirty || b.digits.value != FcbUpdate(s, b).digits.value ==>
            ControlChange0(DIGITS_COMMAND, ToByte(FcbUpdate(s, b).digits.value)) in events)
  {
    var r := FcbUpdate(s, b);
    FcbUpdatePedals(s, b);
    FcbUpdateMisc(s, b);
    FcbUpdateDigits(s, b);
    DrainSpec(r);
    forall k | 0 <= k < PEDAL_COUNT && (b.pedals[k].dirty || b.pedals[k].value != PedalLit(s, k))
      ensures ControlChange0(if PedalLit(s, k) then LIGHT_ON else LIGHT_OFF, if k == 9 then 0 else k + 1)
              in GetMidiEvents(r).0
    {
      assert Emits(r, PedalCell(k));
    }
    if !OnPage(s) {
      assert Emits(r, MiscCell(12));
    }
    if b.digits.dirty || b.digits.value != r.digits.value {
      assert Emits(r, DigitCell);
    }
  }

  function UpdateLights(w: WorkerState): (r: WorkerState)
    requires Valid(w)
    ensures Valid(r) && r == w.(lights := r.lights)
  {
    w.(lights := FcbUpdate(w.session, w.lights))
  }

  // ---------------------------------------------------------------------
  // Background side: commands and the status refresh

  /** Answers of the unit, as the network would give them. */
  datatype StatusReplies = StatusReplies(bank: Option<Json>, presets: Option<Json>, current: Option<Json>, bpm: Option<Json>)

  /** The unit for one command: whether loading preset / pedalboard i
      succeeds, and its answers to a status refresh. */
  datatype Remote = Remote(presetLoads: int -> bool, pedalboardLoads: int -> bool, status: StatusReplies)

  /** loadPreset: rejected when the index is not in the preset list;
      `currentPreset` changes only when the unit accepted the load. */
  function LoadPreset(w: WorkerState, preset: int, accepted: bool): (r: (WorkerState, bool))
    ensures r.1 <==> 0 <= preset < |w.session.presets| && accepted
    ensures r.0 == w.(session := w.session.(currentPreset := r.0.session.currentPreset))
    ensures r.0.session.currentPreset == if r.1 then preset else w.session.currentPreset
  {
    if preset < 0 || preset >= |w.session.presets| then (w, false)
    else if !accepted then (w, false)
    else (w.(session := w.session.(currentPreset := preset)), true)
  }

  /** loadPedalboard: tap tempo is paused first, whatever happens next;
      an index outside the list is rejected. */
  function LoadPedalboard(w: WorkerState, pedalboard: int, accepted: bool): (r: (WorkerState, bool))
    ensures r.0 == w.(tap := T.Pause(w.tap))
    ensures r.1 <==> 0 <= pedalboard < |w.session.pedalboards| && accepted
  {
    var w1 := w.(tap := T.Pause(w.tap));
    if pedalboard < 0 || pedalboard >= |w.session.pedalboards| then (w1, false)
    else (w1, accepted)
  }

  /** The pedalboard a pedalboard footswitch selects: buttons 6-9 are the
      first four of the page, button 0 the fifth. */
  function PedalboardButtonIndex(data2: byte, offset: nat): (r: int)
    requires data2 == 0 || 6 <= data2 <= 9
    ensures offset <= r < offset + PAGE_SIZE
    ensures data2 == 0 ==> r == offset + 4
    ensures data2 != 0 ==> r - offset == data2 - 6
  {
    (if data2 > 0 then data2 - 6 else 4) + offset
  }

  /** Bank up: the next page, or the first when the next starts past the
      end of the list. */
  function BankUp(offset: nat, size: nat): (r: nat)
    ensures r == 0 || r == offset + PAGE_SIZE
    ensures r < size || r == 0
    ensures offset + PAGE_SIZE < size ==> r == offset + PAGE_SIZE
    ensures offset % PAGE_SIZE == 0 ==> r % PAGE_SIZE == 0
  {
    if offset + PAGE_SIZE >= size then 0 else offset + PAGE_SIZE
  }

  /** The effect of a footswitch, with the refresh it asks for: a full
      status refresh, or only a light update. */
  function HandleButton(w: WorkerState, e: MidiEvent, remote: Remote): (r: (WorkerState, bool, bool))
    ensures r.0.lights == w.lights && r.0.input == w.input && r.0.output == w.output
    ensures r.0.sampleRate == w.sampleRate && r.0.nextStatusUpdate == w.nextStatusUpdate
    ensures e.eventType != ControlChange || e.data1 != BUTTON_CC ==> r == (w, false, false)
    ensures r.1 ==> e.data2 == BANK_UP_BUTTON || 1 <= e.data2 <= 5
    ensures r.2 ==> e.data2 == 0 || 6 <= e.data2 <= 9
    ensures !(e.data2 == 0 || 6 <= e.data2 <= 9) ==> r.0.tap == w.tap
    ensures e.data2 != BANK_UP_BUTTON ==> r.0.session.offset == w.session.offset
    ensures Invariant(w) ==> Invariant(r.0)
  {
    if e.eventType != ControlChange || e.data1 != BUTTON_CC then (w, false, false)
    else if e.data2 == BANK_UP_BUTTON then
      (w.(session := w.session.(offset := BankUp(w.session.offset, |w.session.pedalboards|))), true, false)
    else if 1 <= e.data2 <= 5 then
      var loaded := LoadPreset(w, e.data2 - 1, remote.presetLoads(e.data2 - 1));
      (loaded.0, loaded.1, false)
    else if e.data2 == 0 || 6 <= e.data2 <= 9 then
      var pedalboard := PedalboardButtonIndex(e.data2, w.session.offset);
      var loaded := LoadPedalboard(w, pedalboard, remote.pedalboardLoads(pedalboard));
      (loaded.0, false, loaded.1)
    else (w, false, false)
  }

  /** One queued event: a requested status refresh takes precedence over
      a light update. */
  function ProcessEvent(w: WorkerState, e: MidiEvent, remote: Remote): (r: WorkerState)
    requires Valid(w)
    ensures Valid(r) && r.input == w.input && r.output == w.output && r.sampleRate == w.sampleRate
    ensures Invariant(w) ==> Invariant(r)
  {
    var handled := HandleButton(w, e, remote);
    var w1, updateLights, updateStatus := handled.0, handled.1, handled.2;
    if updateStatus then StatusUpdate(w1, remote.status)
    else if updateLights then UpdateLights(w1)
    else w1
  }

  /** processMidi: the whole input queue, first in first out, one unit
      answer per event. */
  function ProcessMidi(w: WorkerState, remotes: seq<Remote>): (r: WorkerState)
    requires Valid(w) && |remotes| == |w.input|
    ensures Valid(r) && r.input == [] && r.output == w.output && r.sampleRate == w.sampleRate
    decreases |w.input|
  {
    if w.input == [] then w
    else
      var e := w.input[0];
      var w1 := ProcessEvent(w.(input := w.input[1..]), e, remotes[0]);
      ProcessMidi(w1, remotes[1..])
  }

  /** statusUpdate: fetch the bank, the presets, the current pedalboard and
      preset, and the tempo, stopping at the first failure; on success
      restart the countdown, recompute the lights and resume tap tempo.
      The offset is bounded twice, by the client and by the worker, with
      the same rule. */
  function StatusUpdate(w: WorkerState, replies: StatusReplies): (r: WorkerState)
    requires Valid(w)
    ensures Valid(r) && r.input == w.input && r.output == w.output && r.sampleRate == w.sampleRate
    ensures r.session.pedalboards == GetPedalboardList(replies.bank).1
    ensures GetPedalboardList(replies.bank).0 ==> r.session.presets == GetPresetList(replies.presets).1
    ensures !RefreshSucceeds(replies) ==>
              r.tap == w.tap && r.lights == w.lights && r.nextStatusUpdate == w.nextStatusUpdate
    ensures RefreshSucceeds(replies) ==>
              && r.session.presets == GetPresetList(replies.presets).1
              && r.tap == T.Play(T.SetBpm(w.tap, w.sampleRate, GetCurrentBpm(replies.bpm).value))
              && r.nextStatusUpdate == w.sampleRate * 10
              && r.lights == FcbUpdate(r.session, w.lights)
    ensures Invariant(w) ==> Invariant(r)
  {
    var bank := GetPedalboardList(replies.bank);
    var bankOk, pedalboards := bank.0, bank.1;
    var w1 := w.(session := w.session.(pedalboards := pedalboards));
    if !bankOk then w1
    else
      var presetList := GetPresetList(replies.presets);
      var presetsOk, presets := presetList.0, presetList.1;
      var w2 := w1.(session := w1.session.(presets := presets));
      if !presetsOk then w2
      else
        var current := GetCurrentPedalboardAndPreset(replies.current, pedalboards, w2.session.offset);
        var w3 := w2.(session := w2.session.(currentPedalboard := current.pedalboard, currentPreset := current.preset));
        if !current.ok then w3
        else
          var w4 := w3.(session := w3.session.(offset := BoundOffset(current.offset, |pedalboards|, current.pedalboard)));
          var bpm := GetCurrentBpm(replies.bpm);
          if bpm.None? then w4
          else
            var w5 := w4.(tap := T.SetBpm(w4.tap, w4.sampleRate, bpm.value), nextStatusUpdate := w4.sampleRate * 10);
            var w6 := UpdateLights(w5);
            w6.(tap := T.Play(w6.tap))
  }

  /** Whether every fetch of a status refresh succeeds. */
  predicate RefreshSucceeds(replies: StatusReplies)
  {
    && GetPedalboardList(replies.bank).0
    && GetPresetList(replies.presets).0
    && GetCurrentPedalboardAndPreset(replies.current, GetPedalboardList(replies.bank).1, 0).ok
    && GetCurrentBpm(replies.bpm).Some?
  }

  /** The command loop's tempo push: a pending update is taken (and
      cleared) together with the tempo to send. */
  function TakeTempoUpdate(w: WorkerState): (r: (WorkerState, Option<real>))
    ensures r.1.Some? <==> w.tap.sendUpdate
    ensures r.1.Some? ==> r.1.value == w.tap.bpm
    ensures !r.0.tap.sendUpdate && r.0 == w.(tap := w.tap.(sendUpdate := false))
  {
    (w.(tap := w.tap.(sendUpdate := false)), if w.tap.sendUpdate then Some(w.tap.bpm) else None)
  }

  // ---------------------------------------------------------------------
  // Properties of the transitions

  /** A failed bank fetch clears the pedalboard list and changes nothing
      else. */
  lemma StatusUpdateBankFailure(w: WorkerState, replies: StatusReplies)
    requires Valid(w) && !GetPedalboardList(replies.bank).0
    ensures StatusUpdate(w, replies) == w.(session := w.session.(pedalboards := []))
  {
  }

  /** A refresh that fails before the current pedalboard is fetched keeps
      the current pedalboard, the current preset and the page; a failed
      preset fetch empties the preset list. */
  lemma StatusUpdateEarlyFailure(w: WorkerState, replies: StatusReplies)
    requires Valid(w) && !(GetPedalboardList(replies.bank).0 && GetPresetList(replies.presets).0)
    ensures var r := StatusUpdate(w, replies);
      && r.session.currentPedalboard == w.session.currentPedalboard
      && r.session.currentPreset == w.session.currentPreset
      && r.session.offset == w.session.offset
      && r.tap == w.tap && r.lights == w.lights && r.nextStatusUpdate == w.nextStatusUpdate
      && (GetPedalboardList(replies.bank).0 ==> r.session.presets == [])
  {
  }

  /** A failed current-pedalboard fetch forgets the current pedalboard and
      preset and keeps the page. */
  lemma StatusUpdateCurrentFailure(w: WorkerState, replies: StatusReplies)
    requires Valid(w) && GetPedalboardList(replies.bank).0 && GetPresetList(replies.presets).0
    requires !GetCurrentPedalboardAndPreset(replies.current, [], 0).ok
    ensures var r := StatusUpdate(w, replies);
      && r.session.currentPedalboard == -1 && r.session.currentPreset == -1
      && r.session.offset == w.session.offset
      && r.tap == w.tap && r.lights == w.lights
  {
  }

  /** After a successful current-pedalboard fetch the session holds the
      matched pedalboard and the reported preset, and the page offset is
      the offset bounded once: the worker's second bounding is harmless. */
  lemma StatusUpdateSession(w: WorkerState, replies: StatusReplies)
    requires Valid(w) && GetPedalboardList(replies.bank).0 && GetPresetList(replies.presets).0
    requires GetCurrentPedalboardAndPreset(replies.current, [], 0).ok
    ensures var r := StatusUpdate(w, replies);
      var list := GetPedalboardList(replies.bank).1;
      var c := GetCurrentPedalboardAndPreset(replies.current, list, w.session.offset);
      && r.session.currentPedalboard == c.pedalboard
      && r.session.currentPreset == c.preset
      && r.session.offset == BoundOffset(w.session.offset, |list|, c.pedalboard)
  {
    var list := GetPedalboardList(replies.bank).1;
    var c := GetCurrentPedalboardAndPreset(replies.current, list, w.session.offset);
    BoundOffsetProperties(w.session.offset, |list|, c.pedalboard);
  }

  /** A footswitch press of the controller: a control change on the
      footswitch controller number, on any channel and at any frame. */
  predicate Footswitch(e: MidiEvent)
  {
    e.eventType == ControlChange && e.data1 == BUTTON_CC
  }

  /** Bank up moves to the next page (wrapping to the first) and only
      recomputes the lights. */
  lemma BankUpButton(w: WorkerState, e: MidiEvent, remote: Remote)
    requires Valid(w) && Footswitch(e) && e.data2 == BANK_UP_BUTTON
    ensures var r := ProcessEvent(w, e, remote);
      var s := w.session.(offset := BankUp(w.session.offset, |w.session.pedalboards|));
      && r.session == s
      && r.lights == FcbUpdate(s, w.lights)
      && r.tap == w.tap && r.nextStatusUpdate == w.nextStatusUpdate
  {
  }

  /** Pressing bank up on a list of 12 pedalboards visits pages 0, 5, 10
      and returns to 0. */
  lemma BankUpCycle()
    ensures BankUp(0, 12) == 5 && BankUp(5, 12) == 10 && BankUp(10, 12) == 0
  {
  }

  /** Preset buttons 1-5 select presets 0-4; the lights are recomputed only
      when the unit accepted the load, and nothing else changes. */
  lemma PresetButton(w: WorkerState, e: MidiEvent, remote: Remote)
    requires Valid(w) && Footswitch(e) && 1 <= e.data2 <= 5
    ensures var r := ProcessEvent(w, e, remote);
      var preset := e.data2 - 1;
      var loaded := 0 <= preset < |w.session.presets| && remote.presetLoads(preset);
      && (loaded ==> r == w.(session := w.session.(currentPreset := preset),
                             lights := FcbUpdate(w.session.(currentPreset := preset), w.lights)))
      && (!loaded ==> r == w)
  {
  }

  /** Pedalboard buttons pause tap tempo and, when the unit loaded the
      pedalboard of the page they stand for, run a full status refresh. */
  lemma PedalboardButton(w: WorkerState, e: MidiEvent, remote: Remote)
    requires Valid(w) && Footswitch(e) && (e.data2 == 0 || 6 <= e.data2 <= 9)
    ensures var r := ProcessEvent(w, e, remote);
      var pedalboard := PedalboardButtonIndex(e.data2, w.session.offset);
      var paused := w.(tap := T.Pause(w.tap));
      var loaded := pedalboard < |w.session.pedalboards| && remote.pedalboardLoads(pedalboard);
      && (loaded ==> r == StatusUpdate(paused, remote.status))
      && (!loaded ==> r == paused)
  {
  }

  /** Events that are not footswitches of the controller, and footswitch
      numbers above the bank-up button, change nothing. */
  lemma OtherEventsIgnored(w: WorkerState, e: MidiEvent, remote: Remote)
    requires Valid(w)
    requires e.eventType != ControlChange || e.data1 != BUTTON_CC || e.data2 > BANK_UP_BUTTON
    ensures ProcessEvent(w, e, remote) == w
  {
  }

  /** Handling an event neither reads nor writes the input queue. */
  lemma ProcessEventIgnoresInput(w: WorkerState, input: seq<MidiEvent>, e: MidiEvent, remote: Remote)
    requires Valid(w)
    ensures ProcessEvent(w.(input := input), e, remote) == ProcessEvent(w, e, remote).(input := input)
  {
  }

  /** A queue of one event is that event handled with its answer. */
  lemma ProcessMidiSingle(w: WorkerState, e: MidiEvent, remote: Remote)
    requires Valid(w)
    ensures ProcessMidi(w.(input := [e]), [remote]) == ProcessEvent(w.(input := []), e, remote)
  {
  }

  /** First in, first out: the queue `a + b` is `a` handled in full and
      then `b` handled from the state `a` left. */
  lemma {:induction false} ProcessMidiAppend(w: WorkerState, a: seq<MidiEvent>, b: seq<MidiEvent>,
                                             ra: seq<Remote>, rb: seq<Remote>)
    requires Valid(w) && |ra| == |a| && |rb| == |b|
    ensures ProcessMidi(w.(input := a + b), ra + rb)
         == ProcessMidi(ProcessMidi(w.(input := a), ra).(input := b), rb)
    decreases |a|
  {
    if a == [] {
      assert a + b == b && ra + rb == rb;
    } else {
      var v := ProcessEvent(w.(input := []), a[0], ra[0]);
      assert (a + b)[0] == a[0] && (a + b)[1..] == a[1..] + b;
      assert (ra + rb)[0] == ra[0] && (ra + rb)[1..] == ra[1..] + rb;
      ProcessEventIgnoresInput(w.(input := []), a[1..] + b, a[0], ra[0]);
      ProcessEventIgnoresInput(w.(input := []), a[1..], a[0], ra[0]);
      assert w.(input := a[1..] + b) == w.(input := []).(input := a[1..] + b);
      assert w.(input := a[1..]) == w.(input := []).(input := a[1..]);
      ProcessMidiAppend(v, a[1..], b, ra[1..], rb);
    }
  }

  /** The invariant holds from construction on, across every transition. */
  lemma {:induction false} ProcessMidiKeepsInvariant(w: WorkerState, remotes: seq<Remote>)
    requires Invariant(w) && |remotes| == |w.input|
    ensures Invariant(ProcessMidi(w, remotes))
    decreases |w.input|
  {
    if w.input != [] {
      var w1 := ProcessEvent(w.(input := w.input[1..]), w.input[0], remotes[0]);
      ProcessMidiKeepsInvariant(w1, remotes[1..]);
    }
  }
}
