# ModMidi control logic in Dafny

ModMidi bridges a Behringer FCB1010 foot controller and a MOD Duo effects
unit over JACK MIDI. The footswitches send Control-Change events; the bridge
turns them into pedalboard loads, preset loads, page changes and tap-tempo
taps, keeps a local copy of the unit's state (bank, presets, current
pedalboard and preset, tempo), and lights the controller's LEDs and digit
display to match.

This project models the control logic of the bridge as pure functions over
immutable datatypes and proves properties of it:

- `Machine` (machine.dfy): bytes, an `Option` type, and the explicit
  conversions the source performs by assignment (to `unsigned char`, to
  32-bit `int`).
- `Midi` (midi.dfy): the MIDI 1.0 channel-voice codec of `MidiEvent` —
  decoding a raw event, encoding it back with `getBuffer()`, the copy
  constructor, the default event.
- `FcbLights` (fcb_lights.dfy): the dirty-tracked `Light<T>` cell and the
  controller's light bank — 10 pedal lights, 13 misc lights, the digits —
  with the drain that turns dirty cells into Control-Change events through
  a fixed address map, and the controller's side of that map (`CellOf`).
- `Json` (json.dfy): the JSON values the unit answers with, as an abstract
  datatype.
- `Utilities` (utilities.dfy): `urlEncode` with a decoder as its partner,
  and the decision logic of the three status fetches (pedalboard list,
  preset list, current pedalboard and preset) plus the tempo fetch.
- `TapTempo` (tap_tempo.dfy): the tap-tempo engine — taps, the four-entry
  tempo history, the blink countdowns, pause and play, tempo from the unit.
- `Worker` (worker.dfy): the worker's session state, input filtering, the
  per-block step of the real-time callback (blink, light drain, refresh
  countdown), footswitch handling, loads, the status refresh and the light
  recomputation.

The network is an oracle: every fetch arrives as an already parsed
`Option<Json>` (`None` for a transport or parse failure), and every load
command as the boolean the unit would answer, carried in a `Remote` value.
Threads and locks are not modelled; each transition is one atomic step.
The tempo light always flashes (the source's `flashTempo` switch is a
constant `true`) and the simulated branches are off (its `debug` switch is
a constant `false`).

Three behaviours of the code are easy to overlook, and the model keeps
them:

- `statusUpdate` does not pause tap tempo when it starts; it only resumes it
  (and clears the history) at the end of a fully successful refresh.
- While tap tempo is paused or has no period, the blink tick returns early,
  so the time since the last tap does not advance.
- `Worker.cpp` calls `getCurrentPedalboardAndPreset` with five arguments,
  while the body in `Utilities.cpp` takes the page offset as a sixth. The
  model passes the session offset to the body and then applies the
  worker's own bounding, and proves that the second bounding changes
  nothing (`Worker.StatusUpdateSession`).

## Model

| member | source | states |
|---|---|---|
| Machine.ToByte | src/FCBLights.cpp:119 | storing an `int` into an `unsigned char` keeps the value modulo 256, and keeps byte values unchanged |
| Machine.ToI32 | src/Utilities.cpp:308 | storing a JSON integer into an `int` keeps it modulo 2^32 inside the 32-bit range, and keeps in-range values unchanged |
| Midi.Decode | src/MidiEvent.cpp:26-69 | the channel is the low nibble of the status byte (so below 16); the type is channel-voice exactly for status 0x80-0xEF and its base plus the channel is the status byte; one-byte types read only `buffer[1]` and leave data2 at 0; two-byte types read both data bytes unmasked; OTHER has data 0 |
| Midi.Encode | src/MidiEvent.cpp:72-113 | three bytes for two-data types, two for program change and channel aftertouch, none for OTHER; the status byte carries the type's high nibble and the channel's low nibble; the data bytes follow verbatim |
| Midi.Copy | src/MidiEvent.cpp:16-21 | a copy has the channel, type and data of the original and the default frame offset 0 |
| Midi.CopyAll | src/MidiEvent.cpp:16-21 | pushing a run of events onto a queue stores copies that equal the originals except that every frame is 0 |
| Midi.CopyLosesTime | src/MidiEvent.cpp:16-21 | a copy equals its original exactly when the original sat at frame 0; copying twice equals copying once |
| Midi.DefaultEncodesEmpty | src/MidiEvent.h:26-43 | the default event is OTHER on channel 0 with zero data and time, and encodes to nothing |
| Midi.DecodeEncode | src/MidiEvent.cpp:26-113 | for a channel-voice status byte, encoding the decoded event gives back exactly the bytes the decoder consumed, and the type nibble is preserved |
| Midi.NonChannelVoiceDropped | src/MidiEvent.cpp:32-69 | status bytes outside 0x80-0xEF decode to OTHER and are encoded to nothing |
| Midi.EncodeDecode | src/MidiEvent.cpp:26-113 | an event with a channel below 16 (and data2 0 for one-byte types) survives encoding then decoding unchanged |
| Midi.ChannelBleedsIntoType | src/MidiEvent.cpp:84-85 | for every channel-voice event, a channel of 16 or more carries into the type nibble, so the status byte names a different message type |
| FcbLights.Light.SetValue | src/FCBLights.cpp:27-32 | a write stores the value; writing the value already held changes nothing; writing a different value marks the cell pending |
| FcbLights.SetValueCoalesces | src/FCBLights.cpp:27-32 | writing a value twice is writing it once; rewriting a cell's own value changes nothing; a write leaves the cell pending iff it was pending or the value changed |
| FcbLights.NewLight | src/FCBLights.h:22-34 | a new cell holds its initial value and is pending |
| FcbLights.NewBank | src/FCBLights.cpp:44-52 | the bank starts with every light off, digits 0, every cell pending |
| FcbLights.SetPedal | src/FCBLights.cpp:57-61 | a pedal index outside 0-9 changes nothing; otherwise only that pedal is written |
| FcbLights.SetMiscLight | src/FCBLights.cpp:63-67 | a misc index outside 0-12 changes nothing; otherwise only that light is written |
| FcbLights.SetDigits | src/FCBLights.cpp:69-72 | only the digits change; they are pending iff they were or the value changed |
| FcbLights.MarkAllDirty | src/FCBLights.cpp:74-83 | every cell is pending afterwards and no value changes |
| FcbLights.CellOf | src/FCBLights.cpp:85-123 | the controller's reading of a light event names a valid cell and comes from a channel-0 Control-Change |
| FcbLights.AddressMapExact | src/FCBLights.cpp:88-121 | every cell the bank may send is recovered from its event, so no two cells share an address |
| FcbLights.DrainCells | src/FCBLights.cpp:85-123 | a run of cells yields at most one event per cell, each a channel-0 Control-Change at frame 0 |
| FcbLights.GetMidiEvents | src/FCBLights.cpp:85-123 | after a drain no cell is pending and no value has changed |
| FcbLights.DrainSpec | src/FCBLights.cpp:85-123 | every drained event announces the current value of a pending, unsuppressed cell; every such cell is announced; events go pedals, misc, digits, each ascending |
| FcbLights.DrainCellsOrdered | src/FCBLights.cpp:85-123 | events drained from cells in increasing drain order address cells in increasing drain order |
| FcbLights.SecondDrainEmpty | src/FCBLights.cpp:85-123 | a second drain with no write in between sends nothing |
| FcbLights.AllDirtyDrainsTwenty | src/FCBLights.cpp:99-113 | with every cell pending a drain sends 20 events: 10 pedals, 9 unsuppressed misc lights (0, 1, 2 and 5 are held back) and the digits |
| FcbLights.FirstDrainAfterConstruction | src/FCBLights.cpp:44-52 | the first drain of a new bank sends 20 events, each a light-off or the digits showing 0 |
| FcbLights.MarkAllDirtyResendsAll | src/FCBLights.cpp:74-83 | after marking everything pending a drain resends all 20 cells |
| Utilities.HexValue | src/Utilities.cpp:30-33 | reading an uppercase hex digit gives the value whose digit it is |
| Utilities.UrlRoundTrip | src/Utilities.cpp:19-37 | percent-decoding the encoding of any byte string gives the byte string back |
| Utilities.UrlEncode | src/Utilities.cpp:19-37 | the encoding is empty iff the input is, and is as long as the input plus two characters per escaped byte |
| Utilities.UrlEncodeAlphabet | src/Utilities.cpp:19-37 | the encoding holds only unreserved characters, `%` and uppercase hex digits |
| Utilities.UrlEncodeKeepsUnreserved | src/Utilities.cpp:24-29 | letters, digits and `- _ . ~` pass through unchanged |
| Utilities.ParsePedalboards | src/Utilities.cpp:180-213 | the list is built exactly when every element is an object with string title and bundle, and then holds those elements in order |
| Utilities.GetPedalboardList | src/Utilities.cpp:129-216 | a null reply is an empty bank and success; any other reply succeeds iff it is an object with a well-formed pedalboards array; every failure empties the list |
| Utilities.BankRoundTrip | src/Utilities.cpp:151-215 | the reply the unit sends for a bank reads back as that bank |
| Utilities.DecimalRoundTrip | src/Utilities.cpp:252 | the preset keys (decimal numerals as written by `std::to_string`) read back as their numbers |
| Utilities.ScanPresets | src/Utilities.cpp:249-256 | the scan yields the string values under consecutive keys up to the first missing or non-string key, and stops at 999 |
| Utilities.GetPresetList | src/Utilities.cpp:218-259 | success iff the reply is an object; then preset j is the string under key "j" for every j below the count, and the key after the last is missing or not a string; failure empties the list |
| Utilities.PresetRoundTrip | src/Utilities.cpp:249-256 | the reply the unit sends for up to 999 preset names reads back as those names |
| Utilities.FirstMatch | src/Utilities.cpp:300-307 | -1 iff no bundle equals the path; otherwise the first index whose bundle equals it |
| Utilities.BoundOffset | src/Utilities.cpp:309-316 | an in-range offset is kept; otherwise 0 without a current pedalboard, else the start of the current pedalboard's page |
| Utilities.BoundOffsetProperties | src/Worker.cpp:307-313 | bounding keeps page boundaries, lands inside the list (or at 0 when nothing is current), and bounding twice equals bounding once |
| Utilities.GetCurrentPedalboardAndPreset | src/Utilities.cpp:261-319 | every failure reports pedalboard and preset -1 and keeps the offset; success gives the first matching pedalboard, the preset as a 32-bit int and the bounded offset |
| Utilities.GetCurrentBpm | src/Utilities.cpp:321-348 | a number reply (integers read as reals) is the tempo; anything else is a failure |
| TapTempo.Pause | src/Worker.cpp:371-376 | pausing forgets the last tap and the history and changes nothing else |
| TapTempo.Play | src/Worker.cpp:378-384 | resuming forgets the last tap and the history and changes nothing else |
| TapTempo.SetBpm | src/Worker.cpp:438-444 | the tempo and period are replaced, the light turns on now and off a quarter period later; history and pause state are kept |
| TapTempo.SetBpmRestartsBlink | src/Worker.cpp:403-444 | after a tempo from the unit, a running engine turns the light on at frame 0 of the next block, and keeps it on through a block shorter than a quarter period |
| TapTempo.PeriodFrames | src/Worker.cpp:441 | the period is the whole number of frames in one beat, rounded down (0 for a non-positive tempo) |
| TapTempo.Window | src/Worker.cpp:454-456 | the history keeps at most the four most recent tempos |
| TapTempo.Tap | src/Worker.cpp:447-473 | a paused engine ignores the tap; otherwise the tap restarts the blink and records its time; a first tap keeps tempo, period, history and update flag; with a previous tap it adds the interval's tempo to the history, takes the average as tempo and requests an update iff one was pending or the tempo moved by more than 0.01 |
| TapTempo.Process | src/Worker.cpp:387-436 | paused or without a period only a pending off is built (at frame 0) and nothing else changes; otherwise each edge that falls in the block is built at its own frame and advanced by one period, the others count down by the block size; an off edge leaves the light off, an on edge alone leaves it on, no edge keeps it; when both fall in the block the on event precedes the off event. The worker queues copies of these events, at frame 0 (see `Worker.JackProcess`) |
| TapTempo.ProcessBlinksSlow | src/Worker.cpp:403-430 | as written, a fired edge's next occurrence falls a period plus a block after it |
| TapTempo.ProcessIntended | src/Worker.cpp:387-436 | the tick with the period kept: the same events, light state and tap timer as `Process`, edges that do not fire count down by the block |
| TapTempo.ProcessIntendedKeepsPeriod | src/Worker.cpp:403-430 | with the period kept, a fired edge's next occurrence falls exactly a period after it, for periods of at least a block |
| TapTempo.ProcessTapTimer | src/Worker.cpp:431-435 | while blinking, the time since the last tap grows by the block size and more than two seconds forget the tap and the history |
| TapTempo.TimeoutMakesFreshTap | src/Worker.cpp:431-456 | after a timeout the next tap measures nothing: tempo and update flag stay, the history stays empty |
| TapTempo.PausedIgnoresTaps | src/Worker.cpp:371-384 | a paused engine ignores taps; after play the first tap measures nothing |
| TapTempo.SteadyTapsKeepTempo | src/Worker.cpp:453-467 | taps at a steady interval matching the history keep that tempo and request no update when the engine already runs at it |
| Worker.NewWorker | src/Worker.h:37-77 | the worker starts with a fresh light bank (every light off and pending), tap tempo in its initial paused state, empty pedalboard and preset lists, nothing current, offset 0, an immediate refresh due and empty queues |
| Worker.NewWorkerFirstBlock | src/FCBLights.cpp:44-52 | the first block after construction sends no blink and exactly twenty light events at frame 0, each a light-off or the digits showing 0 |
| Worker.Queued | src/Worker.cpp:56-65 | a block queues at most one event per incoming event, never a tap, each at frame 0 |
| Worker.QueuedComplete | src/Worker.cpp:59-64 | every non-tap event of the block is queued, as its frame-0 copy |
| Worker.QueuedSound | src/Worker.cpp:59-64 | every queued event is the copy of a non-tap event of the block |
| Worker.QueuedAppend | src/Worker.cpp:56-65 | queueing keeps arrival order: a block split in two queues the events of the first part before those of the second |
| Worker.QueuedOrTapped | src/Worker.cpp:56-65 | every incoming event is either queued or taken as a tap |
| Worker.TapAll | src/Worker.cpp:447-449 | a run of taps leaves a paused engine alone, keeps the pause and light state and the history bound |
| Worker.MidiInput | src/Worker.cpp:49-67 | tap-button events are never queued; every other event is queued, as a frame-0 copy, in arrival order; without taps tap tempo is untouched; only the input queue and tap tempo change |
| Worker.MidiInputTaps | src/Worker.cpp:56-62 | the tap-button events reach tap tempo one after the other in arrival order: the engine ends as those taps folded over it |
| Worker.Countdown | src/Worker.cpp:177-183 | the countdown never grows, reaches 0 exactly when the block covers it, and otherwise drops by the block size |
| Worker.CountdownCompose | src/Worker.cpp:177-183 | two blocks count the refresh down exactly as one block of their combined size |
| Worker.JackProcess | src/Worker.cpp:171-184 | one block advances tap tempo by the tick, appends copies of the blink events and then of the light events to the output queue, all at frame 0, leaves no light pending, keeps the light values and the invariant, and counts the refresh down |
| Worker.BlinkSentAtFrameZero | src/Worker.cpp:403-411 | an on edge due at a frame after 0 inside the block reaches the output at frame 0, and never at its own frame |
| Worker.JackProcessIntended | src/Worker.cpp:171-184 | the block step with the blink kept at its period and its events kept at the frames the tick computed; the appended events are the blink and light events, in non-decreasing frame order (light events at frame 0 first); everything else as in `JackProcess` |
| Worker.BlinkSentAtFrame | src/Worker.cpp:403-425 | with the frames kept, every on and off edge that falls in the block is sent at the frame it is due |
| Worker.FcbUpdate | src/Worker.cpp:352-369 | the recomputed bank lights pedal i iff preset i is current and pedal 5+i iff pedalboard offset+i is current, switches misc lights 0-11 off, lights misc 12 iff the current pedalboard is off the page, and shows the current pedalboard's number (or the page's first) |
| Worker.FcbUpdatePedals | src/Worker.cpp:355-358 | pedal i is on iff preset i is current and pedal 5+i iff pedalboard offset+i is current; a pedal is pending iff it was or its value changed |
| Worker.FcbUpdateMisc | src/Worker.cpp:359-368 | misc lights 0-11 end off; misc 12 ends on iff the current pedalboard is off the page, and is then always pending because it was first written off |
| Worker.FcbUpdateDigits | src/Worker.cpp:362-368 | the digits show the current pedalboard's number when it is on the page, otherwise the page's first number |
| Worker.FcbUpdateReachesController | src/Worker.cpp:352-369 | after a recomputation the next drain announces every pedal that was pending or changed with its new state, the off-the-page indicator when the current pedalboard is off the page, and changed digits with their new number |
| Worker.LoadPreset | src/Worker.cpp:209-226 | a load succeeds iff the index is in the preset list and the unit accepts it; only then does the current preset change |
| Worker.LoadPedalboard | src/Worker.cpp:190-207 | tap tempo is paused whatever happens; a load succeeds iff the index is in the list and the unit accepts it |
| Worker.PedalboardButtonIndex | src/Worker.cpp:153-159 | buttons 6-9 select the first four pedalboards of the page and button 0 the fifth |
| Worker.BankUp | src/Worker.cpp:142-147 | bank up moves to the next page, or to 0 when that page starts at or past the end of the list; page boundaries are kept |
| Worker.BankUpCycle | src/Worker.cpp:142-147 | with 12 pedalboards bank up visits offsets 0, 5, 10 and back to 0 |
| Worker.BankUpButton | src/Worker.cpp:140-147 | the bank-up footswitch, on any channel and at any frame, only moves the page and recomputes the lights |
| Worker.PresetButton | src/Worker.cpp:140-151 | preset footswitches 1-5, on any channel, select presets 0-4; a refused load changes nothing, an accepted one sets the preset and recomputes the lights |
| Worker.PedalboardButton | src/Worker.cpp:140-166 | pedalboard footswitches, on any channel, pause tap tempo; an accepted load runs a full status refresh instead of a light update |
| Worker.OtherEventsIgnored | src/Worker.cpp:139-166 | events that are not controller footswitches, and footswitch numbers above 10, change nothing |
| Worker.HandleButton | src/Worker.cpp:139-160 | only footswitch events of the controller act; a light update is asked only by bank up or a preset button, a status refresh only by a pedalboard button; only pedalboard buttons touch tap tempo and only bank up moves the page; lights, queues and countdown are untouched |
| Worker.ProcessEvent | src/Worker.cpp:128-168 | handling an event keeps the queues, the bank size and the invariant |
| Worker.ProcessMidi | src/Worker.cpp:128-168 | the whole input queue is consumed and the output queue is untouched |
| Worker.ProcessEventIgnoresInput | src/Worker.cpp:136-166 | handling an event neither reads nor changes the input queue |
| Worker.ProcessMidiSingle | src/Worker.cpp:128-168 | a queue of one event is that event handled with its answer |
| Worker.ProcessMidiAppend | src/Worker.cpp:128-168 | first in, first out: the queue `a + b` is `a` handled in full, then `b` handled from the state `a` left |
| Worker.ProcessMidiKeepsInvariant | src/Worker.cpp:128-168 | consuming the queue keeps the history bound, the bank size and page boundaries |
| Worker.StatusUpdate | src/Worker.cpp:228-350 | the pedalboard list is replaced by the fetched one; after a successful bank fetch the preset list is replaced by the fetched one (emptied on failure); any failed fetch leaves tap tempo, lights and countdown alone; a full success stores the presets, sets the unit's tempo and resumes tap tempo, restarts the ten-second countdown and recomputes the lights |
| Worker.StatusUpdateBankFailure | src/Worker.cpp:248-253 | a failed bank fetch empties the pedalboard list and changes nothing else |
| Worker.StatusUpdateEarlyFailure | src/Worker.cpp:248-279 | a refresh that fails at the bank or preset fetch keeps the current pedalboard, current preset, page, tap tempo, lights and countdown; a failed preset fetch empties the preset list |
| Worker.StatusUpdateCurrentFailure | src/Worker.cpp:298-303 | a failed current fetch forgets the current pedalboard and preset and keeps the page |
| Worker.StatusUpdateSession | src/Worker.cpp:298-313 | a successful current fetch stores the matched pedalboard and the reported preset, and the page offset is the offset bounded once |
| Worker.TakeTempoUpdate | src/Worker.cpp:104-113 | a pending tempo update is taken together with the tempo and cleared |

## Left out

- HTTP transport (`httpGet`, `httpPost`), the commands `modReset`, `setBPM`, `loadPreset`, `loadPedalboard` of `Utilities.cpp`, and JSON parsing: replies arrive as parsed values or as failures, commands as the unit's boolean answer.
- JACK plumbing: `main.cpp`, buffer access in `midiInput`, `midiOutput` and `jack_midi_event_reserve`; the transport is assumed to deliver events with a frame inside the block.
- Threads, mutexes, sleeps and the polling loop of `process()`; only its tempo hand-off is modelled (`Worker.TakeTempoUpdate`). Draining the output queue into the JACK buffer (`midiOutput`) is transport work.
- The simulated (`debug`) branches and all console output. The printout in `statusUpdate` looks up the current preset's name with `at()`, which throws when the unit reports a preset outside the list; that failure is not modelled.
- TapTempo.Tap: tempos are Dafny reals, not IEEE doubles, so rounding of the average and of the 0.01 threshold is not modelled.
- TapTempo.PeriodFrames: the period is an unbounded natural. A non-positive tempo gives period 0, and a tempo so slow that a beat lasts 2^32 frames or more gives that many frames; the source converts both quotients to the 32-bit `jack_nframes_t`, which is undefined for them. The 32-bit wrap-around of `nextOn`/`nextOff` when a period is added (src/Worker.cpp:413, 427) is not modelled either: it needs a period close to 2^32 frames, more than a day at common sample rates.
- TapTempo.TapReady: a tap that measures an interval must measure a positive one; the source divides by the interval unchecked.
- Midi.Decode: requires the buffer to hold the data bytes its type reads; the source reads them unchecked.
- Worker.BankUp: the page offset is an unbounded natural; the source's `unsigned int` would wrap only after 2^32 pedalboards, and the mixed signed/unsigned comparisons of `fcbUpdate` are read mathematically, which agrees with the source for any realistic list.
- Worker.StatusUpdate: the refresh countdown `sampleRate * 10` is not reduced to 32 bits.
- The header/body mismatches (`start()`'s return type, `loadPedalboard(unsigned)` versus `(int)`, the arity of `getCurrentPedalboardAndPreset`): the bodies are modelled.

## Findings

| source | as written | input that shows it | evidently intended | confidence | as-written member | corrected member |
|---|---|---|---|---|---|---|
| src/Worker.cpp:403-424 | the tempo-light events are given the frame of their edge (`e.time = tapTempoNextOn`, `tapTempoNextOff`) and then pushed onto the output queue, whose `push_back` stores a copy; the copy constructor (src/MidiEvent.cpp:16-21) does not copy `time`, so `midiOutput` reserves every blink at frame 0 | running engine, period 48000, `nextOn` 100, a block of 256 frames: the on edge is built for frame 100 and sent at frame 0 | the blink is sent at the frame its edge is due, as the explicit frame assignments intend | not executed; high | Worker.JackProcess, Worker.BlinkSentAtFrameZero | Worker.JackProcessIntended, Worker.BlinkSentAtFrame |
| src/Worker.cpp:413 | when an edge fires at frame `nextOn` of a block, its countdown becomes `nextOn + length`, but the countdown is next read at the start of the following block, so the next edge comes `length + nframes` frames after this one (the same for the off edge at line 427) | running engine, period 24000, `nextOn` 100, a block of 256 frames: the next on edge is due 24256 frames after this one instead of 24000; the blink runs slow by one block per beat | the edge is rescheduled one period after the frame it fired at, `nextOn + length - nframes` | not executed; high | TapTempo.Process, TapTempo.ProcessBlinksSlow | TapTempo.ProcessIntended, TapTempo.ProcessIntendedKeepsPeriod |
