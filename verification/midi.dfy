/** The MIDI 1.0 channel-voice codec of the bridge: a raw JACK event
    (status byte, data bytes, frame offset) decoded into a typed event, and
    a typed event encoded back into wire bytes. The high nibble of the
    status byte is the message type, the low nibble the channel. */
module Midi {
  import opened Machine

  datatype EventType =
    | NoteOff
    | NoteOn
    | PolyAftertouch
    | ControlChange
    | ProgramChange
    | ChannelAftertouch
    | PitchWheel
    | Other

  /** A decoded or synthesised event. `time` is the frame offset inside
      the current audio block. */
  datatype MidiEvent = MidiEvent(channel: byte, eventType: EventType, data1: byte, data2: byte, time: nat)

  /** The default-constructed event: OTHER on channel 0, all fields 0. */
  const DefaultEvent: MidiEvent := MidiEvent(0, Other, 0, 0, 0)

  /** A raw event as the transport delivers it. */
  datatype RawEvent = RawEvent(time: nat, buffer: seq<byte>)

  /** The status byte of a channel-voice type on channel 0 (0 for Other). */
  function StatusBase(t: EventType): byte
  {
    match t
    case NoteOff => 0x80
    case NoteOn => 0x90
    case PolyAftertouch => 0xA0
    case ControlChange => 0xB0
    case ProgramChange => 0xC0
    case ChannelAftertouch => 0xD0
    case PitchWheel => 0xE0
    case Other => 0
  }

  /** Number of data bytes a type carries on the wire. */
  function DataLength(t: EventType): nat
  {
    match t
    case ProgramChange => 1
    case ChannelAftertouch => 1
    case Other => 0
    case _ => 2
  }

  /** The type selected by the high nibble of a status byte. */
  function TypeOfStatus(status: byte): EventType
  {
    var nibble := status / 16 * 16;
    if nibble == 0x80 then NoteOff
    else if nibble == 0x90 then NoteOn
    else if nibble == 0xA0 then PolyAftertouch
    else if nibble == 0xB0 then ControlChange
    else if nibble == 0xC0 then ProgramChange
    else if nibble == 0xD0 then ChannelAftertouch
    else if nibble == 0xE0 then PitchWheel
    else Other
  }

  /** The decoder reads the data bytes its type needs without checking the
      buffer size, so a buffer must hold at least that many bytes. */
  predicate Complete(buffer: seq<byte>)
  {
    |buffer| >= 1 && |buffer| >= 1 + DataLength(TypeOfStatus(buffer[0]))
  }

  /** The decoding constructor. */
  function Decode(buffer: seq<byte>, time: nat): (e: MidiEvent)
    requires Complete(buffer)
    ensures e.channel < 16 && e.channel == buffer[0] % 16
    ensures e.time == time
    ensures e.eventType != Other <==> 0x80 <= buffer[0] < 0xF0
    ensures e.eventType != Other ==> StatusBase(e.eventType) == buffer[0] - e.channel
    ensures DataLength(e.eventType) == 0 ==> e.data1 == 0 && e.data2 == 0
    ensures DataLength(e.eventType) >= 1 ==> e.data1 == buffer[1]
    ensures DataLength(e.eventType) == 2 ==> e.data2 == buffer[2]
    ensures DataLength(e.eventType) < 2 ==> e.data2 == 0
  {
    var channel := buffer[0] % 16;
    var t := TypeOfStatus(buffer[0]);
    match t
    case ProgramChange => MidiEvent(channel, t, buffer[1], 0, time)
    case ChannelAftertouch => MidiEvent(channel, t, buffer[1], 0, time)
    case Other => MidiEvent(channel, Other, 0, 0, time)
    case _ => MidiEvent(channel, t, buffer[1], buffer[2], time)
  }

  /** getBuffer(): the status byte is the type's base plus the channel,
      stored into an `unsigned char`; OTHER encodes to nothing. */
  function Encode(e: MidiEvent): (r: seq<byte>)
    ensures |r| == if e.eventType == Other then 0 else 1 + DataLength(e.eventType)
    ensures e.eventType != Other && e.channel < 16 ==>
              r[0] / 16 * 16 == StatusBase(e.eventType) && r[0] % 16 == e.channel
    ensures |r| >= 2 ==> r[1] == e.data1
    ensures |r| == 3 ==> r[2] == e.data2
  {
    var status := ToByte(StatusBase(e.eventType) + e.channel);
    match e.eventType
    case Other => []
    case ProgramChange => [status, e.data1]
    case ChannelAftertouch => [status, e.data1]
    case _ => [status, e.data1, e.data2]
  }

  /** The copy constructor copies everything except the frame offset,
      which keeps its default of 0. */
  function Copy(e: MidiEvent): (r: MidiEvent)
    ensures r.time == 0
    ensures r.channel == e.channel && r.eventType == e.eventType
    ensures r.data1 == e.data1 && r.data2 == e.data2
  {
    MidiEvent(e.channel, e.eventType, e.data1, e.data2, 0)
  }

  /** What a queue holds after each event of `s` is pushed onto it: the
      copies, all at frame 0, otherwise equal to their originals. */
  function CopyAll(s: seq<MidiEvent>): (r: seq<MidiEvent>)
    ensures |r| == |s|
    ensures forall k | 0 <= k < |r| :: r[k].time == 0 && r[k].(time := s[k].time) == s[k]
  {
    seq(|s|, k requires 0 <= k < |s| => Copy(s[k]))
  }

  /** A copy equals its original exactly when the original sat at frame 0. */
  lemma CopyLosesTime(e: MidiEvent)
    ensures Copy(e) == e <==> e.time == 0
    ensures Copy(Copy(e)) == Copy(e)
  {
  }

  /** The default event is OTHER and is dropped on output. */
  lemma DefaultEncodesEmpty()
    ensures DefaultEvent.eventType == Other && DefaultEvent.channel == 0
    ensures DefaultEvent.data1 == 0 && DefaultEvent.data2 == 0 && DefaultEvent.time == 0
    ensures Encode(DefaultEvent) == []
  {
  }

  /** Round trip from the wire: for a channel-voice status byte, encoding
      the decoded event gives back exactly the bytes the decoder consumed. */
  lemma DecodeEncode(buffer: seq<byte>, time: nat)
    requires Complete(buffer) && 0x80 <= buffer[0] < 0xF0
    ensures Encode(Decode(buffer, time)) == buffer[..1 + DataLength(TypeOfStatus(buffer[0]))]
    ensures Encode(Decode(buffer, time))[0] / 16 == buffer[0] / 16
  {
    var e := Decode(buffer, time);
    var r := Encode(e);
    assert r[0] == buffer[0];
  }

  /** Status bytes 0xF0 and above (and stray data bytes) decode to OTHER
      and therefore encode to nothing. */
  lemma NonChannelVoiceDropped(buffer: seq<byte>, time: nat)
    requires Complete(buffer) && !(0x80 <= buffer[0] < 0xF0)
    ensures Decode(buffer, time).eventType == Other
    ensures Encode(Decode(buffer, time)) == []
  {
  }

  /** Round trip from the event: a channel-voice event with a channel below
      16 (and no second data byte where its type has none) survives
      encoding followed by decoding. */
  lemma EncodeDecode(e: MidiEvent)
    requires e.eventType != Other && e.channel < 16
    requires DataLength(e.eventType) == 1 ==> e.data2 == 0
    ensures Complete(Encode(e))
    ensures Decode(Encode(e), e.time) == e
  {
    var r := Encode(e);
    assert r[0] == StatusBase(e.eventType) + e.channel;
    assert TypeOfStatus(r[0]) == e.eventType;
  }

  /** A channel of 16 or more bleeds into the type nibble: the encoded
      status byte then names a different message type (NOTE OFF on
      channel 16, for one, goes out as a NOTE ON status). */
  lemma ChannelBleedsIntoType(e: MidiEvent)
    requires e.eventType != Other && 16 <= e.channel
    ensures TypeOfStatus(Encode(e)[0]) != e.eventType
  {
  }
}
