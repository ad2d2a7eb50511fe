/**
 * The MIDI decoder of simple_synth.c: `midi_read_thread` (lines 94-149)
 * together with `midi_notes_off` (lines 85-92), written as a pure fold over
 * a finite byte sequence.
 *
 * The thread reads one byte at a time. A byte in status position is acted
 * on only when bit 7 is set and its low nibble is the base channel; the
 * data bytes of a message are then read without any check of bit 7 and
 * masked to 7 bits. The state it changes is the table `amplitude_curr` and
 * the sustain pedal `pedal_on`, both `uint8_t`.
 *
 * `midi_read_byte` blocks until the device delivers a byte. On a finite
 * input, a message cut short therefore never completes: the model stops
 * there and hands back the unfinished bytes.
 */
module Midi {

  /** A `uint8_t`. */
  type UInt8 = v: int | 0 <= v < 0x100

  /** A value masked with `& 0x7F`. */
  type Data7 = v: int | 0 <= v < 0x80

  /** One entry per MIDI key: `amplitude_curr` (and, elsewhere, `amplitude_last`). */
  type Table = t: seq<UInt8> | |t| == 128 witness seq(128, _ => 0)

  /** The state the decoder writes. */
  datatype Synth = Synth(curr: Table, pedal: UInt8)

  /** Every amplitude and the pedal hold a 7-bit value. */
  predicate InRange(s: Synth)
  {
    s.pedal < 0x80 && forall k :: 0 <= k < 128 ==> s.curr[k] < 0x80
  }

  // ---------------------------------------------------------------------
  // Status bytes (simple_synth.c:104-113)
  // ---------------------------------------------------------------------

  /** `temp & 0x80`. */
  predicate IsStatus(b: UInt8)
  {
    b >= 0x80
  }

  /** `temp & 0x0F`. */
  function Channel(b: UInt8): int
  {
    b % 0x10
  }

  /** `temp & 0x70`, shifted down: 0 for note-off, 1 for note-on, 3 for a controller. */
  function Class(b: UInt8): int
  {
    (b / 0x10) % 8
  }

  /** `& 0x7F`. */
  function Mask7(b: UInt8): (v: Data7)
    ensures b < 0x80 ==> v == b
    ensures b == v || b == v + 0x80
  {
    b % 0x80
  }

  const NoteOffClass: int := 0
  const NoteOnClass: int := 1
  const ControllerClass: int := 3

  const PedalController: Data7 := 0x40

  /** Controllers 0x78 (all sound off), 0x79 (reset controllers) and 0x7A (local control). */
  predicate IsNotesOffController(num: Data7)
  {
    num == 0x78 || num == 0x79 || num == 0x7A
  }

  /** The status byte of class `cls` on channel `chan`, as a sender writes it. */
  function Status(cls: int, chan: UInt8): (b: UInt8)
    requires 0 <= cls < 8 && chan < 0x10
    ensures IsStatus(b) && Channel(b) == chan && Class(b) == cls
  {
    0x80 + 0x10 * cls + chan
  }

  // ---------------------------------------------------------------------
  // Messages
  // ---------------------------------------------------------------------

  /**
   * What one pass of the reader loop does. `Skip` covers a byte with bit 7
   * clear, a status byte of another channel and a status byte of a class the
   * switch does not handle; `AllOff` is the byte 0xFF.
   */
  datatype Message =
    | Skip
    | NoteOff(key: Data7)
    | NoteOn(key: Data7, vel: Data7)
    | Controller(num: Data7, val: Data7)
    | AllOff

  /** A message and the number of bytes the reader consumed for it. */
  datatype Parsed = Parsed(msg: Message, used: nat)

  datatype Option<T> = None | Some(value: T)

  /** The number of data bytes the reader takes after a status byte it acts on. */
  function DataLength(status: UInt8): (n: nat)
    ensures n <= 2
  {
    var c := Class(status);
    if c == NoteOffClass then 1
    else if c == NoteOnClass || c == ControllerClass then 2
    else 0
  }

  /**
   * One pass of the reader loop over the front of `input`, or `None` when
   * the input ends inside a message, where the reader would block.
   */
  function Parse(baseChan: UInt8, input: seq<UInt8>): (r: Option<Parsed>)
    requires |input| > 0
    ensures r.None? <==>
              IsStatus(input[0]) && Channel(input[0]) == baseChan &&
              |input| < 1 + DataLength(input[0])
    ensures r.Some? ==> 1 <= r.value.used <= |input| && r.value.used <= 3
    ensures r.Some? && r.value.used == 1 ==> r.value.msg.Skip? || r.value.msg.AllOff?
    ensures r.Some? && r.value.msg.AllOff? <==> r.Some? && input[0] == 0xFF && baseChan == 15
    ensures !IsStatus(input[0]) || Channel(input[0]) != baseChan ==> r == Some(Parsed(Skip, 1))
  {
    var b := input[0];
    if !IsStatus(b) || Channel(b) != baseChan then Some(Parsed(Skip, 1))
    else if |input| < 1 + DataLength(b) then None
    else if b == 0xFF then Some(Parsed(AllOff, 1))
    else if Class(b) == NoteOffClass then Some(Parsed(NoteOff(Mask7(input[1])), 2))
    else if Class(b) == NoteOnClass then Some(Parsed(NoteOn(Mask7(input[1]), Mask7(input[2])), 3))
    else if Class(b) == ControllerClass then Some(Parsed(Controller(Mask7(input[1]), Mask7(input[2])), 3))
    else Some(Parsed(Skip, 1))
  }

  // ---------------------------------------------------------------------
  // Effects (simple_synth.c:85-92, 115-146)
  // ---------------------------------------------------------------------

  /** `midi_notes_off`: every amplitude and the pedal back to 0. */
  function NotesOff(s: Synth): (r: Synth)
    ensures r.pedal == 0 && forall k :: 0 <= k < 128 ==> r.curr[k] == 0
  {
    Synth(seq(128, _ => 0), 0)
  }

  /** The effect of one message on the state. */
  function Apply(s: Synth, m: Message): (r: Synth)
    ensures m.Skip? ==> r == s
    ensures m.NoteOff? ==>
              (r.pedal == s.pedal && r.curr[m.key] == 0 &&
               forall k :: 0 <= k < 128 && k != m.key ==> r.curr[k] == s.curr[k])
    ensures m.NoteOn? ==>
              (r.pedal == s.pedal && r.curr[m.key] == m.vel &&
               forall k :: 0 <= k < 128 && k != m.key ==> r.curr[k] == s.curr[k])
    ensures m.Controller? && m.num == PedalController ==> r == s.(pedal := m.val)
    ensures m.Controller? && m.num != PedalController && !IsNotesOffController(m.num) ==> r == s
    ensures (m.Controller? && IsNotesOffController(m.num)) || m.AllOff? ==> r == NotesOff(s)
  {
    match m
    case Skip => s
    case NoteOff(key) => s.(curr := s.curr[key := 0])
    case NoteOn(key, vel) => s.(curr := s.curr[key := vel])
    case Controller(num, val) =>
      if num == PedalController then s.(pedal := val)
      else if IsNotesOffController(num) then NotesOff(s)
      else s
    case AllOff => NotesOff(s)
  }

  /** Every message writes a masked value or zero, so the 7-bit range is kept. */
  lemma ApplyInRange(s: Synth, m: Message)
    ensures InRange(s) ==> InRange(Apply(s, m))
  {
  }

  // ---------------------------------------------------------------------
  // The reader loop over a finite input
  // ---------------------------------------------------------------------

  /** The state after the input, and the bytes of a message left unfinished. */
  datatype Decoded = Decoded(state: Synth, pending: seq<UInt8>)

  function Decode(baseChan: UInt8, s: Synth, input: seq<UInt8>): (r: Decoded)
    ensures |r.pending| <= 2
    ensures |r.pending| <= |input| && r.pending == input[|input| - |r.pending|..]
    ensures r.pending != [] ==> IsStatus(r.pending[0]) && Channel(r.pending[0]) == baseChan
    ensures InRange(s) ==> InRange(r.state)
    decreases |input|
  {
    if |input| == 0 then Decoded(s, [])
    else match Parse(baseChan, input)
      case None => Decoded(s, input)
      case Some(p) =>
        ApplyInRange(s, p.msg);
        var rest := input[p.used..];
        var r := Decode(baseChan, Apply(s, p.msg), rest);
        SuffixOfDrop(input, p.used, |r.pending|);
        r
  }

  /** The last `m` elements of `a[k..]` are the last `m` elements of `a`. */
  lemma SuffixOfDrop<T>(a: seq<T>, k: nat, m: nat)
    requires k <= |a| && m <= |a| - k
    ensures a[k..][|a| - k - m..] == a[|a| - m..]
  {
  }

  // ---------------------------------------------------------------------
  // Encoding, the partner of Parse
  // ---------------------------------------------------------------------

  /** Messages that have a byte form on channel `baseChan`. */
  predicate Encodable(baseChan: UInt8, m: Message)
  {
    baseChan < 0x10 && !m.Skip? && (m.AllOff? ==> baseChan == 15)
  }

  /** The bytes of a message on channel `baseChan`, as a sender would write them. */
  function Encode(baseChan: UInt8, m: Message): (bytes: seq<UInt8>)
    requires Encodable(baseChan, m)
    ensures 1 <= |bytes| <= 3
    ensures IsStatus(bytes[0]) && Channel(bytes[0]) == baseChan
    ensures forall i :: 1 <= i < |bytes| ==> !IsStatus(bytes[i])
  {
    match m
    case NoteOff(key) => [Status(NoteOffClass, baseChan), key]
    case NoteOn(key, vel) => [Status(NoteOnClass, baseChan), key, vel]
    case Controller(num, val) => [Status(ControllerClass, baseChan), num, val]
    case AllOff => [0xFF]
  }

  /** Parsing the encoding of a message, whatever follows, gives back the message. */
  lemma ParseEncode(baseChan: UInt8, m: Message, rest: seq<UInt8>)
    requires Encodable(baseChan, m)
    ensures Parse(baseChan, Encode(baseChan, m) + rest) == Some(Parsed(m, |Encode(baseChan, m)|))
  {
    var bytes := Encode(baseChan, m) + rest;
    assert bytes[0] == Encode(baseChan, m)[0];
  }

  /** A message encoded at the front of the input is applied, and decoding goes on after it. */
  lemma DecodeMessage(baseChan: UInt8, s: Synth, m: Message, rest: seq<UInt8>)
    requires Encodable(baseChan, m)
    ensures Decode(baseChan, s, Encode(baseChan, m) + rest) == Decode(baseChan, Apply(s, m), rest)
  {
    var head := Encode(baseChan, m);
    ParseEncode(baseChan, m, rest);
    assert (head + rest)[|head|..] == rest;
  }

  function EncodeAll(baseChan: UInt8, ms: seq<Message>): (bytes: seq<UInt8>)
    requires forall i :: 0 <= i < |ms| ==> Encodable(baseChan, ms[i])
    ensures |ms| <= |bytes| <= 3 * |ms|
  {
    if |ms| == 0 then [] else Encode(baseChan, ms[0]) + EncodeAll(baseChan, ms[1..])
  }

  /** The messages applied in order. */
  function ApplyAll(s: Synth, ms: seq<Message>): Synth
    decreases |ms|
  {
    if |ms| == 0 then s else ApplyAll(Apply(s, ms[0]), ms[1..])
  }

  /** Decoding a stream of encoded messages applies them in order and leaves nothing pending. */
  lemma {:induction false} DecodeEncodeAll(baseChan: UInt8, s: Synth, ms: seq<Message>)
    requires forall i :: 0 <= i < |ms| ==> Encodable(baseChan, ms[i])
    ensures Decode(baseChan, s, EncodeAll(baseChan, ms)) == Decoded(ApplyAll(s, ms), [])
    decreases |ms|
  {
    if |ms| > 0 {
      DecodeMessage(baseChan, s, ms[0], EncodeAll(baseChan, ms[1..]));
      DecodeEncodeAll(baseChan, Apply(s, ms[0]), ms[1..]);
    }
  }

  // ---------------------------------------------------------------------
  // Streaming
  // ---------------------------------------------------------------------

  /**
   * The reader takes one byte at a time, so how the input is cut into
   * pieces does not matter: decoding `a + b` is decoding `a`, then decoding
   * what it left pending followed by `b`.
   */
  lemma {:induction false} DecodeConcat(baseChan: UInt8, s: Synth, a: seq<UInt8>, b: seq<UInt8>)
    ensures var first := Decode(baseChan, s, a);
            Decode(baseChan, s, a + b) == Decode(baseChan, first.state, first.pending + b)
    decreases |a|
  {
    if |a| > 0 {
      var ab := a + b;
      assert ab[0] == a[0];
      match Parse(baseChan, a)
      case None =>
        assert Decode(baseChan, s, a) == Decoded(s, a);
      case Some(p) =>
        assert Parse(baseChan, ab) == Some(p) by {
          assert forall i :: 0 <= i < p.used ==> ab[i] == a[i];
        }
        assert ab[p.used..] == a[p.used..] + b;
        DecodeConcat(baseChan, Apply(s, p.msg), a[p.used..], b);
    } else {
      assert a + b == b;
    }
  }

  // ---------------------------------------------------------------------
  // Channel filtering and the quirks of the reader
  // ---------------------------------------------------------------------

  /** A byte with bit 7 clear in status position, or a status byte of another channel, is dropped alone. */
  lemma ForeignByteDropped(baseChan: UInt8, s: Synth, b: UInt8, rest: seq<UInt8>)
    requires !IsStatus(b) || Channel(b) != baseChan
    ensures Decode(baseChan, s, [b] + rest) == Decode(baseChan, s, rest)
  {
    assert ([b] + rest)[1..] == rest;
  }

  /**
   * `base_chan` is a `uint8_t` compared with a 4-bit nibble: above 15 no
   * status byte matches and every input leaves the state alone.
   */
  lemma {:induction false} NoChannelAbove15(baseChan: UInt8, s: Synth, input: seq<UInt8>)
    requires baseChan > 15
    ensures Decode(baseChan, s, input) == Decoded(s, [])
    decreases |input|
  {
    if |input| > 0 {
      NoChannelAbove15(baseChan, s, input[1..]);
    }
  }

  /** The byte 0xFF clears every note only when the base channel is 15; otherwise it is dropped. */
  lemma ResetByte(baseChan: UInt8, s: Synth, rest: seq<UInt8>)
    ensures Decode(baseChan, s, [0xFF] + rest) ==
            Decode(baseChan, if baseChan == 15 then NotesOff(s) else s, rest)
  {
    var input := [0xFF] + rest;
    assert input[0] == 0xFF && input[1..] == rest;
    assert Class(0xFF) == 7 && Channel(0xFF) == 15 && DataLength(0xFF) == 0;
    if baseChan == 15 {
      assert Parse(baseChan, input) == Some(Parsed(AllOff, 1));
    } else {
      assert Parse(baseChan, input) == Some(Parsed(Skip, 1));
    }
  }

  /**
   * A status byte in data position is taken as data and masked: after a
   * note-on status byte, any status byte in the key position sets the key
   * given by its low seven bits.
   */
  lemma StatusTakenAsData(baseChan: UInt8, s: Synth, key: UInt8, vel: Data7)
    requires baseChan < 0x10 && IsStatus(key)
    ensures Decode(baseChan, s, [Status(NoteOnClass, baseChan), key, vel]).state ==
            s.(curr := s.curr[key - 0x80 := vel])
  {
    var status := Status(NoteOnClass, baseChan);
    var input := [status, key, vel];
    assert input[0] == status && input[1] == key && input[2] == vel;
    assert Mask7(key) == key - 0x80 && Mask7(vel) == vel;
    var p := Parsed(NoteOn(key - 0x80, vel), 3);
    assert Parse(baseChan, input) == Some(p);
    DecodeStep(baseChan, s, input, p);
    assert input[3..] == [];
  }

  /**
   * A status byte of the base channel whose class the switch does not
   * handle (0x20, 0x40, 0x50, 0x60 and 0x70 other than 0xFF) is consumed
   * alone and changes nothing.
   */
  lemma OtherClassDropped(baseChan: UInt8, s: Synth, b: UInt8, rest: seq<UInt8>)
    requires IsStatus(b) && Channel(b) == baseChan && b != 0xFF
    requires Class(b) != NoteOffClass && Class(b) != NoteOnClass && Class(b) != ControllerClass
    ensures Decode(baseChan, s, [b] + rest) == Decode(baseChan, s, rest)
  {
    var input := [b] + rest;
    assert input[0] == b && input[1..] == rest;
    assert Parse(baseChan, input) == Some(Parsed(Skip, 1));
  }

  /** The data byte of a note-off is masked to 7 bits, whatever its bit 7. */
  lemma NoteOffMasked(baseChan: UInt8, s: Synth, k: UInt8, rest: seq<UInt8>)
    requires baseChan < 0x10
    ensures Decode(baseChan, s, [Status(NoteOffClass, baseChan), k] + rest) ==
            Decode(baseChan, Apply(s, NoteOff(Mask7(k))), rest)
  {
    var input := [Status(NoteOffClass, baseChan), k] + rest;
    assert input[0] == Status(NoteOffClass, baseChan) && input[1] == k;
    assert Parse(baseChan, input) == Some(Parsed(NoteOff(Mask7(k)), 2));
    assert input[2..] == rest;
  }

  /** Both data bytes of a note-on are masked to 7 bits, whatever their bit 7. */
  lemma NoteOnMasked(baseChan: UInt8, s: Synth, k: UInt8, v: UInt8, rest: seq<UInt8>)
    requires baseChan < 0x10
    ensures Decode(baseChan, s, [Status(NoteOnClass, baseChan), k, v] + rest) ==
            Decode(baseChan, Apply(s, NoteOn(Mask7(k), Mask7(v))), rest)
  {
    var input := [Status(NoteOnClass, baseChan), k, v] + rest;
    assert input[0] == Status(NoteOnClass, baseChan) && input[1] == k && input[2] == v;
    assert Parse(baseChan, input) == Some(Parsed(NoteOn(Mask7(k), Mask7(v)), 3));
    assert input[3..] == rest;
  }

  /** Both data bytes of a controller message are masked to 7 bits, whatever their bit 7. */
  lemma ControllerMasked(baseChan: UInt8, s: Synth, n: UInt8, v: UInt8, rest: seq<UInt8>)
    requires baseChan < 0x10
    ensures Decode(baseChan, s, [Status(ControllerClass, baseChan), n, v] + rest) ==
            Decode(baseChan, Apply(s, Controller(Mask7(n), Mask7(v))), rest)
  {
    var input := [Status(ControllerClass, baseChan), n, v] + rest;
    assert input[0] == Status(ControllerClass, baseChan) && input[1] == n && input[2] == v;
    assert Parse(baseChan, input) == Some(Parsed(Controller(Mask7(n), Mask7(v)), 3));
    assert input[3..] == rest;
  }

  /** Bytes with bit 7 clear in status position are dropped one by one. */
  lemma {:induction false} DataBytesDropped(baseChan: UInt8, s: Synth, data: seq<UInt8>, rest: seq<UInt8>)
    requires forall i :: 0 <= i < |data| ==> !IsStatus(data[i])
    ensures Decode(baseChan, s, data + rest) == Decode(baseChan, s, rest)
    decreases |data|
  {
    if |data| > 0 {
      assert data + rest == [data[0]] + (data[1..] + rest);
      ForeignByteDropped(baseChan, s, data[0], data[1..] + rest);
      DataBytesDropped(baseChan, s, data[1..], rest);
    } else {
      assert data + rest == rest;
    }
  }

  /** One complete message at the front of the input is applied, and decoding goes on after it. */
  lemma DecodeStep(baseChan: UInt8, s: Synth, input: seq<UInt8>, p: Parsed)
    requires |input| > 0 && Parse(baseChan, input) == Some(p)
    ensures Decode(baseChan, s, input) == Decode(baseChan, Apply(s, p.msg), input[p.used..])
  {
  }

  /**
   * The standard three-byte note-off works, although the reader takes only
   * the key: the velocity that follows is dropped as a byte with bit 7 clear.
   */
  lemma ThreeByteNoteOff(baseChan: UInt8, s: Synth, key: Data7, vel: Data7)
    requires baseChan < 0x10
    ensures Decode(baseChan, s, Encode(baseChan, NoteOff(key)) + [vel]) ==
            Decoded(s.(curr := s.curr[key := 0]), [])
  {
    DecodeMessage(baseChan, s, NoteOff(key), [vel]);
    assert [vel] == [vel] + [];
    DataBytesDropped(baseChan, Apply(s, NoteOff(key)), [vel], []);
  }

  /**
   * There is no running status: further key/velocity pairs after a note-on
   * are dropped byte by byte, and only the first key changes.
   */
  lemma NoRunningStatus(baseChan: UInt8, s: Synth, key: Data7, vel: Data7, more: seq<UInt8>)
    requires baseChan < 0x10
    requires forall i :: 0 <= i < |more| ==> !IsStatus(more[i])
    ensures Decode(baseChan, s, Encode(baseChan, NoteOn(key, vel)) + more) ==
            Decoded(s.(curr := s.curr[key := vel]), [])
  {
    DecodeMessage(baseChan, s, NoteOn(key, vel), more);
    assert more == more + [];
    DataBytesDropped(baseChan, Apply(s, NoteOn(key, vel)), more, []);
  }

  /** Velocity 0 on a note-on has the effect of a note-off for that key. */
  lemma ZeroVelocityIsNoteOff(s: Synth, key: Data7)
    ensures Apply(s, NoteOn(key, 0)) == Apply(s, NoteOff(key))
  {
  }

  /** A message cut short changes nothing: the reader is still waiting for its data bytes. */
  lemma TruncatedMessageWaits(baseChan: UInt8, s: Synth, input: seq<UInt8>)
    requires |input| > 0 && Parse(baseChan, input).None?
    ensures Decode(baseChan, s, input) == Decoded(s, input)
  {
  }
}
