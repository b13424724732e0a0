/** The light bank of the foot controller: a dirty-tracked cell per LED
    (10 pedal lights, 13 miscellaneous lights) and one for the numeric
    digit display. Draining the bank turns every dirty cell into one
    Control-Change event through a fixed address map. */
module FcbLights {
  import opened Machine
  import opened Midi

  /** A value plus a flag saying it changed since it was last sent. */
  datatype Light<T(==)> = Light(value: T, dirty: bool)
  {
    /** Writing a value marks the cell dirty only when the value changes. */
    function SetValue(v: T): (r: Light<T>)
      ensures r.value == v
      ensures v == value ==> r == this
      ensures v != value ==> r.dirty
    {
      if v != value then Light(v, true) else this
    }

    function SetDirty(d: bool): (r: Light<T>)
      ensures r.value == value && r.dirty == d
    {
      this.(dirty := d)
    }
  }

  /** A new cell is dirty, so its initial value is sent once. */
  function NewLight<T(==)>(v: T): (r: Light<T>)
    ensures r.value == v && r.dirty
  {
    Light(v, true)
  }

  /** Writing the same value twice is the same as writing it once, and a
      clean cell stays clean when rewritten with its own value. */
  lemma SetValueCoalesces<T>(l: Light<T>, v: T)
    ensures l.SetValue(v).SetValue(v) == l.SetValue(v)
    ensures l.SetValue(l.value) == l
    ensures l.SetValue(v).dirty <==> l.dirty || v != l.value
  {
  }

  const PEDAL_COUNT: nat := 10
  const MISC_COUNT: nat := 13

  /** CC data1 values of the controller's light protocol. */
  const LIGHT_ON: byte := 106
  const LIGHT_OFF: byte := 107
  const DIGITS_COMMAND: byte := 108

  datatype Bank = Bank(pedals: seq<Light<bool>>, misc: seq<Light<bool>>, digits: Light<int>)
  {
    /** The bank never changes size after construction. */
    predicate Valid()
    {
      |pedals| == PEDAL_COUNT && |misc| == MISC_COUNT
    }
  }

  /** A cell of the bank, named as the drain loop visits it. */
  datatype Cell = PedalCell(i: int) | MiscCell(i: int) | DigitCell

  predicate ValidCell(c: Cell)
  {
    match c
    case PedalCell(i) => 0 <= i < PEDAL_COUNT
    case MiscCell(i) => 0 <= i < MISC_COUNT
    case DigitCell => true
  }

  /** Position of a cell in drain order: pedals, then misc lights, then
      the digits. */
  function Rank(c: Cell): int
  {
    match c
    case PedalCell(i) => i
    case MiscCell(i) => PEDAL_COUNT + i
    case DigitCell => PEDAL_COUNT + MISC_COUNT
  }

  /** Misc lights 0-2 are driven by the controller itself and misc light 5
      is the tap-tempo indicator: the bank never sends them. */
  predicate Suppressed(c: Cell)
  {
    c.MiscCell? && (c.i <= 2 || c.i == 5)
  }

  predicate IsDirty(b: Bank, c: Cell)
    requires b.Valid() && ValidCell(c)
  {
    match c
    case PedalCell(i) => b.pedals[i].dirty
    case MiscCell(i) => b.misc[i].dirty
    case DigitCell => b.digits.dirty
  }

  /** Whether draining the bank produces an event for the cell. */
  predicate Emits(b: Bank, c: Cell)
    requires b.Valid() && ValidCell(c)
  {
    IsDirty(b, c) && !Suppressed(c)
  }

  function ControlChange0(data1: byte, data2: byte): MidiEvent
  {
    MidiEvent(0, ControlChange, data1, data2, 0)
  }

  /** The event announcing a cell's current value. */
  function CellEvent(b: Bank, c: Cell): MidiEvent
    requires b.Valid() && ValidCell(c)
  {
    match c
    case PedalCell(i) =>
      ControlChange0(if b.pedals[i].value then LIGHT_ON else LIGHT_OFF, if i == 9 then 0 else i + 1)
    case MiscCell(i) =>
      ControlChange0(if b.misc[i].value then LIGHT_ON else LIGHT_OFF, i + 11)
    case DigitCell =>
      ControlChange0(DIGITS_COMMAND, ToByte(b.digits.value))
  }

  /** The controller's side of the address map: which cell a received
      light event addresses. Address 16 is misc light 5, the tap-tempo
      indicator. */
  function CellOf(e: MidiEvent): (r: Option<Cell>)
    ensures r.Some? ==> ValidCell(r.value) && e.eventType == ControlChange && e.channel == 0
  {
    if e.eventType != ControlChange || e.channel != 0 then None
    else if e.data1 == DIGITS_COMMAND then Some(DigitCell)
    else if e.data1 != LIGHT_ON && e.data1 != LIGHT_OFF then None
    else if e.data2 == 0 then Some(PedalCell(9))
    else if 1 <= e.data2 <= 9 then Some(PedalCell(e.data2 - 1))
    else if 14 <= e.data2 <= 23 then Some(MiscCell(e.data2 - 11))
    else None
  }

  /** The address map is exact: every cell the bank may send is recovered
      from its event, so no two cells share an address. */
  lemma AddressMapExact(b: Bank, c: Cell)
    requires b.Valid() && ValidCell(c) && !Suppressed(c)
    ensures CellOf(CellEvent(b, c)) == Some(c)
  {
  }

  /** The cells in the order the drain visits them. */
  function DrainOrder(): (r: seq<Cell>)
    ensures |r| == PEDAL_COUNT + MISC_COUNT + 1
    ensures forall k | 0 <= k < |r| :: ValidCell(r[k]) && Rank(r[k]) == k
  {
    seq(PEDAL_COUNT, i => PedalCell(i)) + seq(MISC_COUNT, i => MiscCell(i)) + [DigitCell]
  }

  /** The events emitted for a run of cells, in order: at most one per
      cell, each a channel-0 control change at frame 0. */
  function DrainCells(b: Bank, cs: seq<Cell>): (r: seq<MidiEvent>)
    requires b.Valid() && forall k | 0 <= k < |cs| :: ValidCell(cs[k])
    ensures |r| <= |cs|
    ensures forall k | 0 <= k < |r| :: r[k].channel == 0 && r[k].eventType == ControlChange && r[k].time == 0
  {
    if cs == [] then []
    else (if Emits(b, cs[0]) then [CellEvent(b, cs[0])] else []) + DrainCells(b, cs[1..])
  }

  /** The constructor: every light off, digits 0, every cell dirty. */
  function NewBank(): (b: Bank)
    ensures b.Valid()
    ensures forall i | 0 <= i < PEDAL_COUNT :: b.pedals[i] == NewLight(false)
    ensures forall i | 0 <= i < MISC_COUNT :: b.misc[i] == NewLight(false)
    ensures b.digits == NewLight(0)
  {
    Bank(seq(PEDAL_COUNT, _ => NewLight(false)), seq(MISC_COUNT, _ => NewLight(false)), NewLight(0))
  }

  /** An index outside the pedal range is ignored. */
  function SetPedal(b: Bank, i: int, on: bool): (r: Bank)
    requires b.Valid()
    ensures r.Valid() && r.misc == b.misc && r.digits == b.digits
    ensures !(0 <= i < PEDAL_COUNT) ==> r == b
    ensures 0 <= i < PEDAL_COUNT ==> r.pedals == b.pedals[i := b.pedals[i].SetValue(on)]
  {
    if i < 0 || i >= PEDAL_COUNT then b
    else b.(pedals := b.pedals[i := b.pedals[i].SetValue(on)])
  }

  /** An index outside the misc range is ignored. */
  function SetMiscLight(b: Bank, i: int, on: bool): (r: Bank)
    requires b.Valid()
    ensures r.Valid() && r.pedals == b.pedals && r.digits == b.digits
    ensures !(0 <= i < MISC_COUNT) ==> r == b
    ensures 0 <= i < MISC_COUNT ==> r.misc == b.misc[i := b.misc[i].SetValue(on)]
  {
    if i < 0 || i >= MISC_COUNT then b
    else b.(misc := b.misc[i := b.misc[i].SetValue(on)])
  }

  function SetDigits(b: Bank, v: int): (r: Bank)
    requires b.Valid()
    ensures r.Valid() && r.pedals == b.pedals && r.misc == b.misc
    ensures r.digits.value == v
    ensures r.digits.dirty <==> b.digits.dirty || v != b.digits.value
  {
    b.(digits := b.digits.SetValue(v))
  }

  /** Every cell dirty, no value changed. */
  function MarkAllDirty(b: Bank): (r: Bank)
    requires b.Valid()
    ensures r.Valid() && SameValues(b, r)
    ensures forall c | ValidCell(c) :: IsDirty(r, c)
  {
    Bank(seq(PEDAL_COUNT, i requires 0 <= i < PEDAL_COUNT => b.pedals[i].SetDirty(true)),
         seq(MISC_COUNT, i requires 0 <= i < MISC_COUNT => b.misc[i].SetDirty(true)),
         b.digits.SetDirty(true))
  }

  /** Two banks hold the same values (dirty flags may differ). */
  predicate SameValues(b: Bank, b': Bank)
    requires b.Valid() && b'.Valid()
  {
    && (forall i | 0 <= i < PEDAL_COUNT :: b'.pedals[i].value == b.pedals[i].value)
    && (forall i | 0 <= i < MISC_COUNT :: b'.misc[i].value == b.misc[i].value)
    && b'.digits.value == b.digits.value
  }

  /** getMidiEvents(): the events of the dirty cells in drain order, and
      the bank with every flag cleared (suppressed cells included). */
  function GetMidiEvents(b: Bank): (r: (seq<MidiEvent>, Bank))
    requires b.Valid()
    ensures r.1.Valid() && SameValues(b, r.1)
    ensures forall c | ValidCell(c) :: !IsDirty(r.1, c)
  {
    (DrainCells(b, DrainOrder()),
     Bank(seq(PEDAL_COUNT, i requires 0 <= i < PEDAL_COUNT => b.pedals[i].SetDirty(false)),
          seq(MISC_COUNT, i requires 0 <= i < MISC_COUNT => b.misc[i].SetDirty(false)),
          b.digits.SetDirty(false)))
  }

  /** Every drained event announces a dirty, unsuppressed cell of the run
      with that cell's current value. */
  lemma {:induction false} DrainCellsSound(b: Bank, cs: seq<Cell>)
    requires b.Valid() && forall k | 0 <= k < |cs| :: ValidCell(cs[k])
    ensures forall k | 0 <= k < |DrainCells(b, cs)| ::
              var e := DrainCells(b, cs)[k];
              CellOf(e).Some? && CellOf(e).value in cs && Emits(b, CellOf(e).value)
              && e == CellEvent(b, CellOf(e).value)
  {
    if cs != [] {
      DrainCellsSound(b, cs[1..]);
      if Emits(b, cs[0]) {
        AddressMapExact(b, cs[0]);
      }
      var head := if Emits(b, cs[0]) then [CellEvent(b, cs[0])] else [];
      var out := DrainCells(b, cs);
      assert out == head + DrainCells(b, cs[1..]);
      forall k | 0 <= k < |out|
        ensures CellOf(out[k]).Some? && CellOf(out[k]).value in cs && Emits(b, CellOf(out[k]).value)
                && out[k] == CellEvent(b, CellOf(out[k]).value)
      {
        if k >= |head| {
          var e := DrainCells(b, cs[1..])[k - |head|];
          assert out[k] == e;
          assert CellOf(e).value in cs[1..];
        }
      }
    }
  }

  /** Every dirty, unsuppressed cell of the run is announced. */
  lemma {:induction false} DrainCellsComplete(b: Bank, cs: seq<Cell>, c: Cell)
    requires b.Valid() && forall k | 0 <= k < |cs| :: ValidCell(cs[k])
    requires c in cs && Emits(b, c)
    ensures CellEvent(b, c) in DrainCells(b, cs)
  {
    if cs[0] != c {
      DrainCellsComplete(b, cs[1..], c);
    }
  }

  /** Events of a run whose cells all rank above r address cells ranked
      above r. */
  lemma DrainCellsAbove(b: Bank, cs: seq<Cell>, r: int)
    requires b.Valid() && forall k | 0 <= k < |cs| :: ValidCell(cs[k])
    requires forall k | 0 <= k < |cs| :: Rank(cs[k]) > r
    ensures forall k | 0 <= k < |DrainCells(b, cs)| ::
              CellOf(DrainCells(b, cs)[k]).Some? && Rank(CellOf(DrainCells(b, cs)[k]).value) > r
  {
    DrainCellsSound(b, cs);
    var out := DrainCells(b, cs);
    forall k | 0 <= k < |out|
      ensures CellOf(out[k]).Some? && Rank(CellOf(out[k]).value) > r
    {
      var c := CellOf(out[k]).value;
      var m :| 0 <= m < |cs| && cs[m] == c;
    }
  }

  /** Every event addresses a cell, in strictly increasing drain order. */
  predicate AddressesAscending(out: seq<MidiEvent>)
  {
    && (forall k | 0 <= k < |out| :: CellOf(out[k]).Some?)
    && (forall j, k | 0 <= j < k < |out| :: Rank(CellOf(out[j]).value) < Rank(CellOf(out[k]).value))
  }

  lemma PrependAscending(e: MidiEvent, tail: seq<MidiEvent>)
    requires AddressesAscending(tail) && CellOf(e).Some?
    requires forall k | 0 <= k < |tail| :: Rank(CellOf(tail[k]).value) > Rank(CellOf(e).value)
    ensures AddressesAscending([e] + tail)
  {
    var out := [e] + tail;
    forall k | 0 < k < |out|
      ensures out[k] == tail[k - 1]
    {
    }
  }

  /** Drained events come out in strictly increasing drain order. */
  lemma {:induction false} DrainCellsOrdered(b: Bank, cs: seq<Cell>)
    requires b.Valid() && forall k | 0 <= k < |cs| :: ValidCell(cs[k])
    requires forall j, k | 0 <= j < k < |cs| :: Rank(cs[j]) < Rank(cs[k])
    ensures AddressesAscending(DrainCells(b, cs))
  {
    if cs != [] {
      var tail := DrainCells(b, cs[1..]);
      DrainCellsOrdered(b, cs[1..]);
      DrainCellsAbove(b, cs[1..], Rank(cs[0]));
      if Emits(b, cs[0]) {
        AddressMapExact(b, cs[0]);
        PrependAscending(CellEvent(b, cs[0]), tail);
        assert DrainCells(b, cs) == [CellEvent(b, cs[0])] + tail;
      } else {
        assert DrainCells(b, cs) == tail;
      }
    }
  }

  /** The drain, stated against the address map: each event is the event
      of a dirty, unsuppressed cell; every such cell is announced; events
      are ordered pedals ascending, then misc ascending, then digits. */
  lemma DrainSpec(b: Bank)
    requires b.Valid()
    ensures var ev := GetMidiEvents(b).0;
      && (forall k | 0 <= k < |ev| ::
            CellOf(ev[k]).Some? && Emits(b, CellOf(ev[k]).value) && ev[k] == CellEvent(b, CellOf(ev[k]).value))
      && (forall c | ValidCell(c) && Emits(b, c) :: CellEvent(b, c) in ev)
      && AddressesAscending(ev)
  {
    var order := DrainOrder();
    DrainCellsSound(b, order);
    assert forall j, k | 0 <= j < k < |order| :: Rank(order[j]) < Rank(order[k]);
    DrainCellsOrdered(b, order);
    forall c | ValidCell(c) && Emits(b, c)
      ensures CellEvent(b, c) in GetMidiEvents(b).0
    {
      assert order[Rank(c)] == c;
      DrainCellsComplete(b, order, c);
    }
  }

  /** A bank with no dirty cell drains to nothing. */
  lemma {:induction false} CleanDrainsEmpty(b: Bank, cs: seq<Cell>)
    requires b.Valid() && forall k | 0 <= k < |cs| :: ValidCell(cs[k])
    requires forall c | ValidCell(c) :: !IsDirty(b, c)
    ensures DrainCells(b, cs) == []
  {
    if cs != [] {
      CleanDrainsEmpty(b, cs[1..]);
    }
  }

  /** Draining twice without a change in between sends nothing the
      second time. */
  lemma SecondDrainEmpty(b: Bank)
    requires b.Valid()
    ensures GetMidiEvents(GetMidiEvents(b).1).0 == []
  {
    CleanDrainsEmpty(GetMidiEvents(b).1, DrainOrder());
  }

  lemma {:induction false} DrainCellsAppend(b: Bank, cs: seq<Cell>, ds: seq<Cell>)
    requires b.Valid() && forall k | 0 <= k < |cs| :: ValidCell(cs[k])
    requires forall k | 0 <= k < |ds| :: ValidCell(ds[k])
    ensures DrainCells(b, cs + ds) == DrainCells(b, cs) + DrainCells(b, ds)
  {
    if cs != [] {
      assert (cs + ds)[0] == cs[0];
      assert (cs + ds)[1..] == cs[1..] + ds;
      DrainCellsAppend(b, cs[1..], ds);
    } else {
      assert cs + ds == ds;
    }
  }

  /** In a bank whose cells are all dirty, a run of cells drains to one
      event per unsuppressed cell. */
  lemma {:induction false} AllDirtyDrainCount(b: Bank, cs: seq<Cell>)
    requires b.Valid() && forall k | 0 <= k < |cs| :: ValidCell(cs[k])
    requires forall c | ValidCell(c) :: IsDirty(b, c)
    ensures |DrainCells(b, cs)| == |UnsuppressedOf(cs)|
  {
    if cs != [] {
      AllDirtyDrainCount(b, cs[1..]);
    }
  }

  function UnsuppressedOf(cs: seq<Cell>): seq<Cell>
  {
    if cs == [] then [] else (if Suppressed(cs[0]) then [] else [cs[0]]) + UnsuppressedOf(cs[1..])
  }

  lemma {:induction false} UnsuppressedAppend(cs: seq<Cell>, ds: seq<Cell>)
    ensures UnsuppressedOf(cs + ds) == UnsuppressedOf(cs) + UnsuppressedOf(ds)
  {
    if cs != [] {
      assert (cs + ds)[0] == cs[0];
      assert (cs + ds)[1..] == cs[1..] + ds;
      UnsuppressedAppend(cs[1..], ds);
    } else {
      assert cs + ds == ds;
    }
  }

  lemma {:induction false} NoSuppressedPedals(n: nat)
    requires n <= PEDAL_COUNT
    ensures UnsuppressedOf(seq(n, i => PedalCell(i))) == seq(n, i => PedalCell(i))
  {
    if n > 0 {
      NoSuppressedPedals(n - 1);
      assert seq(n, i => PedalCell(i)) == seq(n - 1, i => PedalCell(i)) + [PedalCell(n - 1)];
      UnsuppressedAppend(seq(n - 1, i => PedalCell(i)), [PedalCell(n - 1)]);
    }
  }

  /** Nine of the thirteen misc lights are ever sent. */
  lemma MiscUnsuppressedCount()
    ensures |UnsuppressedOf(seq(MISC_COUNT, i => MiscCell(i)))| == 9
  {
    var m := seq(MISC_COUNT, i => MiscCell(i));
    assert m == m[..3] + m[3..5] + [m[5]] + m[6..];
    UnsuppressedAppend(m[..3] + m[3..5] + [m[5]], m[6..]);
    UnsuppressedAppend(m[..3] + m[3..5], [m[5]]);
    UnsuppressedAppend(m[..3], m[3..5]);
    assert UnsuppressedOf(m[..3]) == [] by {
      assert m[..3] == [MiscCell(0)] + [MiscCell(1)] + [MiscCell(2)];
      UnsuppressedAppend([MiscCell(0)] + [MiscCell(1)], [MiscCell(2)]);
      UnsuppressedAppend([MiscCell(0)], [MiscCell(1)]);
    }
    assert UnsuppressedOf(m[3..5]) == m[3..5] by {
      assert m[3..5] == [MiscCell(3)] + [MiscCell(4)];
      UnsuppressedAppend([MiscCell(3)], [MiscCell(4)]);
    }
    assert UnsuppressedOf([m[5]]) == [];
    assert |UnsuppressedOf(m[6..])| == 7 by {
      MiscTailUnsuppressed(m[6..]);
    }
  }

  lemma {:induction false} MiscTailUnsuppressed(cs: seq<Cell>)
    requires forall k | 0 <= k < |cs| :: cs[k].MiscCell? && cs[k].i > 5
    ensures UnsuppressedOf(cs) == cs
  {
    if cs != [] {
      MiscTailUnsuppressed(cs[1..]);
    }
  }

  /** A bank with every cell dirty (after construction, or after
      markAllDirty()) drains to exactly 20 events: 10 pedals, 9 misc
      lights, the digits. */
  lemma AllDirtyDrainsTwenty(b: Bank)
    requires b.Valid()
    requires forall c | ValidCell(c) :: IsDirty(b, c)
    ensures |GetMidiEvents(b).0| == 20
  {
    var p := seq(PEDAL_COUNT, i => PedalCell(i));
    var m := seq(MISC_COUNT, i => MiscCell(i));
    assert DrainOrder() == p + m + [DigitCell];
    AllDirtyDrainCount(b, DrainOrder());
    UnsuppressedAppend(p + m, [DigitCell]);
    UnsuppressedAppend(p, m);
    NoSuppressedPedals(PEDAL_COUNT);
    MiscUnsuppressedCount();
    assert UnsuppressedOf([DigitCell]) == [DigitCell];
  }

  /** The first drain after construction sends 20 events, each an "off"
      light or the digit value 0. */
  lemma FirstDrainAfterConstruction()
    ensures |GetMidiEvents(NewBank()).0| == 20
    ensures forall e | e in GetMidiEvents(NewBank()).0 ::
              e.data1 == LIGHT_OFF || (e.data1 == DIGITS_COMMAND && e.data2 == 0)
  {
    var b := NewBank();
    AllDirtyDrainsTwenty(b);
    DrainSpec(b);
  }

  /** markAllDirty() makes the next drain resend every unsuppressed cell. */
  lemma MarkAllDirtyResendsAll(b: Bank)
    requires b.Valid()
    ensures |GetMidiEvents(MarkAllDirty(b)).0| == 20
  {
    AllDirtyDrainsTwenty(MarkAllDirty(b));
  }
}
