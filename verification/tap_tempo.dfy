/** The tap-tempo engine: it measures the interval between taps of the
    tap footswitch, keeps a short history of the resulting tempos, and
    schedules the blink of the tempo light with two frame countdowns.

    Tempos are Dafny reals: the source computes them in IEEE doubles, and
    rounding is not modelled. The period in frames is the floor of
    `sampleRate * 60 / bpm`, which the source obtains by converting a double
    to an unsigned frame count. */
module TapTempo {
  import opened Midi

  /** Taps kept for the running average. */
  const MAX_HISTORY: nat := 4
  /** A change of the average beyond this is pushed to the unit. */
  const UPDATE_THRESHOLD: real := 0.01
  /** CC address of the tempo light (misc light 5 of the controller). */
  const TEMPO_LIGHT: nat := 16

  type SampleRate = x: int | x > 0 witness 48000

  datatype TapTempo = TapTempo(
    paused: bool,
    lightOn: bool,
    sendUpdate: bool,
    bpm: real,
    length: nat,      // blink period in frames; 0 disables the blink
    nextOn: nat,      // frames until the light turns on
    nextOff: nat,     // frames until the light turns off
    bpms: seq<real>,  // recent tempos, oldest first
    lastTime: int     // frames since the last tap, -1 when there is none
  )

  /** The initial state: paused until the first status refresh. */
  const Initial: TapTempo := TapTempo(true, false, false, 0.0, 0, 0, 0, [], -1)

  /** Frames per beat at a tempo. A non-positive tempo gives no period;
      in the source that conversion is undefined. */
  function PeriodFrames(sampleRate: SampleRate, bpm: real): (r: nat)
    ensures bpm <= 0.0 ==> r == 0
    ensures bpm > 0.0 ==> r as real <= (sampleRate * 60) as real / bpm < r as real + 1.0
  {
    if bpm > 0.0 then ((sampleRate * 60) as real / bpm).Floor else 0
  }

  /** The tempo measured from an interval between two taps. */
  function IntervalBpm(sampleRate: SampleRate, interval: int): (r: real)
    requires interval > 0
    ensures r > 0.0
  {
    (sampleRate * 60) as real / interval as real
  }

  function Sum(h: seq<real>): real
  {
    if h == [] then 0.0 else Sum(h[..|h| - 1]) + h[|h| - 1]
  }

  function Mean(h: seq<real>): real
    requires |h| > 0
  {
    Sum(h) / |h| as real
  }

  function Abs(x: real): real
  {
    if x < 0.0 then -x else x
  }

  /** The history after a push: the oldest entries are dropped until at
      most four remain. */
  function Window(h: seq<real>): (r: seq<real>)
    ensures |r| <= MAX_HISTORY
    ensures |h| <= MAX_HISTORY ==> r == h
    ensures |h| > MAX_HISTORY ==> r == h[|h| - MAX_HISTORY..]
  {
    if |h| > MAX_HISTORY then h[|h| - MAX_HISTORY..] else h
  }

  /** Pausing (before a pedalboard change) and resuming (after a refresh)
      both forget the taps measured so far. */
  function Pause(t: TapTempo): (r: TapTempo)
    ensures r.paused && r.lastTime == -1 && r.bpms == []
    ensures r.(paused := t.paused, lastTime := t.lastTime, bpms := t.bpms) == t
  {
    t.(paused := true, lastTime := -1, bpms := [])
  }

  function Play(t: TapTempo): (r: TapTempo)
    ensures !r.paused && r.lastTime == -1 && r.bpms == []
    ensures r.(paused := t.paused, lastTime := t.lastTime, bpms := t.bpms) == t
  {
    t.(paused := false, lastTime := -1, bpms := [])
  }

  /** A tempo from the unit replaces the current one and restarts the
      blink, leaving the history and the pause state alone. */
  function SetBpm(t: TapTempo, sampleRate: SampleRate, bpm: real): (r: TapTempo)
    ensures r.bpm == bpm && r.length == PeriodFrames(sampleRate, bpm)
    ensures r.nextOn == 0 && r.nextOff == r.length / 4
    ensures r.paused == t.paused && r.bpms == t.bpms && r.lastTime == t.lastTime
    ensures r.lightOn == t.lightOn && r.sendUpdate == t.sendUpdate
  {
    var length := PeriodFrames(sampleRate, bpm);
    t.(bpm := bpm, length := length, nextOn := 0, nextOff := length / 4)
  }

  /** A tap with a previous tap on record measures an interval; the source
      divides by it without a check, so it must be positive. */
  predicate TapReady(t: TapTempo, frame: nat, nframes: nat)
  {
    frame < nframes && (t.paused || t.lastTime < 0 || t.lastTime - (nframes - frame) > 0)
  }

  /** A tap at `frame` of a block of `nframes` frames. */
  function Tap(t: TapTempo, sampleRate: SampleRate, frame: nat, nframes: nat): (r: TapTempo)
    requires TapReady(t, frame, nframes)
    ensures t.paused ==> r == t
    ensures !t.paused ==> r.lastTime == nframes - frame && r.nextOn == 0 && r.nextOff == r.length / 4
    ensures !t.paused && t.lastTime < 0 ==>
              r.bpms == t.bpms && r.bpm == t.bpm && r.length == t.length && r.sendUpdate == t.sendUpdate
    ensures !t.paused && t.lastTime >= 0 ==>
              var interval := t.lastTime - (nframes - frame);
              && r.bpms == Window(t.bpms + [IntervalBpm(sampleRate, interval)])
              && r.bpm == Mean(r.bpms)
              && r.length == PeriodFrames(sampleRate, r.bpm)
              && (r.sendUpdate <==> t.sendUpdate || Abs(r.bpm - t.bpm) > UPDATE_THRESHOLD)
    ensures |t.bpms| <= MAX_HISTORY ==> |r.bpms| <= MAX_HISTORY
    ensures r.paused == t.paused && r.lightOn == t.lightOn
  {
    if t.paused then t
    else
      var sinceTap := nframes - frame;
      var t1 :=
        if t.lastTime >= 0 then
          var history := Window(t.bpms + [IntervalBpm(sampleRate, t.lastTime - sinceTap)]);
          var average := Mean(history);
          t.(sendUpdate := t.sendUpdate || Abs(average - t.bpm) > UPDATE_THRESHOLD,
             bpm := average,
             length := PeriodFrames(sampleRate, average),
             bpms := history)
        else t;
      t1.(lastTime := sinceTap, nextOn := 0, nextOff := t1.length / 4)
  }

  function LightEvent(on: bool, time: nat): MidiEvent
  {
    MidiEvent(0, ControlChange, if on then 106 else 107, TEMPO_LIGHT, time)
  }

  /** The per-block tick: blink events for this block and the advanced
      countdowns. While paused or without a period only a pending "off"
      is sent, and the tap timer does not advance. */
  function Process(t: TapTempo, sampleRate: SampleRate, nframes: nat): (r: (TapTempo, seq<MidiEvent>))
    ensures |t.bpms| <= MAX_HISTORY ==> |r.0.bpms| <= MAX_HISTORY
    ensures r.0.paused == t.paused && r.0.bpm == t.bpm && r.0.length == t.length
    ensures r.0.sendUpdate == t.sendUpdate
    ensures forall k | 0 <= k < |r.1| :: r.1[k].time < nframes || r.1[k].time == 0
    ensures t.paused || t.length == 0 ==>
              && r.0 == t.(lightOn := false)
              && r.1 == (if t.lightOn then [LightEvent(false, 0)] else [])
    ensures !t.paused && t.length > 0 ==>
              && (t.nextOn < nframes ==> r.0.nextOn == t.nextOn + t.length && LightEvent(true, t.nextOn) in r.1)
              && (t.nextOn >= nframes ==> r.0.nextOn == t.nextOn - nframes)
              && (t.nextOff < nframes ==> r.0.nextOff == t.nextOff + t.length && LightEvent(false, t.nextOff) in r.1)
              && (t.nextOff >= nframes ==> r.0.nextOff == t.nextOff - nframes)
              && |r.1| == (if t.nextOn < nframes then 1 else 0) + (if t.nextOff < nframes then 1 else 0)
              && (t.nextOn < nframes && t.nextOff < nframes ==>
                    r.1 == [LightEvent(true, t.nextOn), LightEvent(false, t.nextOff)])
              && (t.nextOff < nframes ==> !r.0.lightOn)
              && (t.nextOn < nframes && t.nextOff >= nframes ==> r.0.lightOn)
              && (t.nextOn >= nframes && t.nextOff >= nframes ==> r.0.lightOn == t.lightOn)
              && (forall k | 0 <= k < |r.1| :: r.1[k].time < nframes)
  {
    Tick(t, sampleRate, nframes, 0)
  }

  /** The countdown to an edge that fired at `next`, rescheduled one period
      later and counted from the start of the next block: `carry` is how
      much of the block the countdown is taken back by (clamped at 0). */
  function Reschedule(next: nat, length: nat, carry: nat): (r: nat)
    ensures next + length >= carry ==> r + carry == next + length
    ensures next + length < carry ==> r == 0
  {
    if next + length >= carry then next + length - carry else 0
  }

  /** The blink tick, with a fired edge rescheduled through `Reschedule`. */
  function Tick(t: TapTempo, sampleRate: SampleRate, nframes: nat, carry: nat): (r: (TapTempo, seq<MidiEvent>))
  {
    if t.paused || t.length == 0 then
      (t.(lightOn := false), if t.lightOn then [LightEvent(false, 0)] else [])
    else
      var onFires := t.nextOn < nframes;
      var offFires := t.nextOff < nframes;
      var onEvents := if onFires then [LightEvent(true, t.nextOn)] else [];
      var offEvents := if offFires then [LightEvent(false, t.nextOff)] else [];
      var lightOn := if offFires then false else if onFires then true else t.lightOn;
      var nextOn := if onFires then Reschedule(t.nextOn, t.length, carry) else t.nextOn - nframes;
      var nextOff := if offFires then Reschedule(t.nextOff, t.length, carry) else t.nextOff - nframes;
      var lastTime := if t.lastTime >= 0 then t.lastTime + nframes else t.lastTime;
      var expired := lastTime > sampleRate * 2;
      (t.(lightOn := lightOn, nextOn := nextOn, nextOff := nextOff,
          lastTime := if expired then -1 else lastTime,
          bpms := if expired then [] else t.bpms),
       onEvents + offEvents)
  }

  /** A tempo from the unit restarts the blink: unless paused, the next
      block turns the light on at its first frame, and when the quarter
      period is longer than the block the light stays on through it. */
  lemma SetBpmRestartsBlink(t: TapTempo, sampleRate: SampleRate, bpm: real, nframes: nat)
    requires !t.paused && PeriodFrames(sampleRate, bpm) > 0 && nframes > 0
    ensures var r := Process(SetBpm(t, sampleRate, bpm), sampleRate, nframes);
      && LightEvent(true, 0) in r.1
      && (PeriodFrames(sampleRate, bpm) / 4 >= nframes ==> r.0.lightOn && r.1 == [LightEvent(true, 0)])
  {
  }

  /** As written, a fired edge is rescheduled one period after its frame but
      counted from the start of the next block, so the next edge of the
      same kind comes a period plus a block later. */
  lemma ProcessBlinksSlow(t: TapTempo, sampleRate: SampleRate, nframes: nat)
    requires !t.paused && t.length > 0
    ensures var r := Process(t, sampleRate, nframes).0;
      && (t.nextOn < nframes ==> nframes + r.nextOn == t.nextOn + t.length + nframes)
      && (t.nextOff < nframes ==> nframes + r.nextOff == t.nextOff + t.length + nframes)
  {
  }

  /** The blink tick with the period kept: a fired edge's countdown is
      taken back by the block it fired in. Events, light state and tap
      timer are those of `Process`. */
  function ProcessIntended(t: TapTempo, sampleRate: SampleRate, nframes: nat): (r: (TapTempo, seq<MidiEvent>))
    ensures r.1 == Process(t, sampleRate, nframes).1
    ensures r.0.(nextOn := 0, nextOff := 0) == Process(t, sampleRate, nframes).0.(nextOn := 0, nextOff := 0)
    ensures t.paused || t.length == 0 ==> r == Process(t, sampleRate, nframes)
    ensures !t.paused && t.length > 0 ==>
              && (t.nextOn >= nframes ==> r.0.nextOn == t.nextOn - nframes)
              && (t.nextOff >= nframes ==> r.0.nextOff == t.nextOff - nframes)
  {
    Tick(t, sampleRate, nframes, nframes)
  }

  /** With the period kept, the next edge of each kind comes exactly one
      period after the edge that fired, whenever the period is at least a
      block long. */
  lemma ProcessIntendedKeepsPeriod(t: TapTempo, sampleRate: SampleRate, nframes: nat)
    requires !t.paused && t.length >= nframes
    ensures var r := ProcessIntended(t, sampleRate, nframes).0;
      && (t.nextOn < nframes ==> nframes + r.nextOn == t.nextOn + t.length)
      && (t.nextOff < nframes ==> nframes + r.nextOff == t.nextOff + t.length)
  {
  }

  /** The tap timer: while the blink runs, the time since the last tap
      grows by the block size, and more than two seconds without a tap
      forgets the tap and the history. */
  lemma ProcessTapTimer(t: TapTempo, sampleRate: SampleRate, nframes: nat)
    requires !t.paused && t.length > 0
    ensures var r := Process(t, sampleRate, nframes).0;
      var advanced := if t.lastTime >= 0 then t.lastTime + nframes else t.lastTime;
      && (advanced > sampleRate * 2 ==> r.lastTime == -1 && r.bpms == [])
      && (advanced <= sampleRate * 2 ==> r.lastTime == advanced && r.bpms == t.bpms)
  {
  }

  /** After a timeout the next tap starts a fresh measurement: it computes
      no interval and leaves the tempo and the update flag alone. */
  lemma TimeoutMakesFreshTap(t: TapTempo, sampleRate: SampleRate, nframes: nat, frame: nat, nframes': nat)
    requires !t.paused && t.length > 0 && t.lastTime >= 0
    requires t.lastTime + nframes > sampleRate * 2
    requires frame < nframes'
    ensures var t' := Process(t, sampleRate, nframes).0;
      && TapReady(t', frame, nframes')
      && Tap(t', sampleRate, frame, nframes').bpm == t.bpm
      && Tap(t', sampleRate, frame, nframes').bpms == []
      && Tap(t', sampleRate, frame, nframes').sendUpdate == t.sendUpdate
  {
  }

  /** A paused engine ignores taps; pausing or playing forgets the taps. */
  lemma PausedIgnoresTaps(t: TapTempo, sampleRate: SampleRate, frame: nat, nframes: nat)
    requires frame < nframes
    ensures Tap(Pause(t), sampleRate, frame, nframes) == Pause(t)
    ensures Tap(Play(t), sampleRate, frame, nframes).bpms == []
    ensures Tap(Play(t), sampleRate, frame, nframes).bpm == t.bpm
  {
  }

  lemma {:induction false} SumConstant(h: seq<real>, v: real)
    requires forall k | 0 <= k < |h| :: h[k] == v
    ensures Sum(h) == |h| as real * v
  {
    if h != [] {
      SumConstant(h[..|h| - 1], v);
    }
  }

  /** Steady taps keep a steady tempo: when every remembered tempo and the
      new interval agree on `v`, the average is exactly `v`, and no update
      is requested when the engine already runs at `v`. */
  lemma SteadyTapsKeepTempo(t: TapTempo, sampleRate: SampleRate, frame: nat, nframes: nat, v: real)
    requires TapReady(t, frame, nframes) && !t.paused && t.lastTime >= 0
    requires forall k | 0 <= k < |t.bpms| :: t.bpms[k] == v
    requires IntervalBpm(sampleRate, t.lastTime - (nframes - frame)) == v
    ensures Tap(t, sampleRate, frame, nframes).bpm == v
    ensures t.bpm == v ==> Tap(t, sampleRate, frame, nframes).sendUpdate == t.sendUpdate
  {
    var h := t.bpms + [v];
    var w := Window(h);
    assert forall k | 0 <= k < |w| :: w[k] == v;
    SumConstant(w, v);
    assert Mean(w) == v;
  }
}
