# simple_synth: a Dafny model of the decoder, the waveform, the envelope and the writer loop

`simple_synth.c` is a small MIDI synthesizer. A reader thread decodes MIDI bytes
from a device into a table of 128 key amplitudes and a sustain pedal. A writer
thread repeatedly fills a block of 32-bit samples by mixing one self-similar
waveform per sounding key, and hands the block to an OSS audio device. This
project models the four pieces of sequential logic at the heart of that program
and proves what they promise.

- **`Midi`** (`midi.dfy`) models `midi_read_thread` and `midi_notes_off` as a
  pure fold `Decode` over a finite byte sequence. The fold runs over the state
  `Synth(curr, pedal)` and takes the base channel as a parameter. `Parse` is
  one pass of the reader loop and `Apply` is the effect of one message.
  `Encode` is an independent sender, and it gives the round trip
  `Decode(EncodeAll(ms)) == ApplyAll(ms)`. The reader's quirks are stated as
  lemmas:
  - a status byte in a data position is taken as data;
  - 0xFF clears notes only on channel 15;
  - there is no running status;
  - a message cut short waits for its data.
- **`Wave`** (`wave.dfy`) models the integer part of `wave_function_16` on the
  16 binary digits of the quantised phase. That covers the special-case table,
  the "grey" loop, the first-set-bit search and the power series. `powf` is
  an arbitrary function parameter that is assumed only to map
  [0,1] × (0,∞) into [0,1]. The proofs show four things:
  - the loop is exactly the reflected binary Gray code;
  - the special phases are exactly those where the series runs no step;
  - the wave lies in [-1,1];
  - the wave is even (`0xFFFF - x`) and changes sign half a cycle on.
- **`Envelope`** (`envelope.dfy`) models the per-key bookkeeping of
  `generate_audio`, using exact reals in place of `float`. It covers:
  - the silent-key fast path;
  - the fade and its pedal clamp;
  - the Nyquist clamp of the frequency;
  - the phase advance and wrap;
  - the final clamp;
  - the write to `amplitude_last`.

  The committed value is proved equal to a closed form (`Committed`), and the
  phase after a block to a single wrapped advance.
- **`Writer`** (`writer.dfy`) models the `rem` loop of `oss_write_thread` as a
  step function over device replies, which are a queue depth, a write result
  and the `errno` test. It proves conservation: `rem` equals the start value,
  plus a block per refill, minus the samples accepted. It also proves that
  `rem` stays in `[0, buf_size]` when the device is honest.

Four behaviours of the reader and the renderer are easy to miss:

- 0xFF clears every note only when the base channel is 15. The channel test
  (simple_synth.c:108-110) comes before the 0xFF test (112-113), so on any
  other base channel the byte is dropped (`Midi.ResetByte`). Nothing assigns
  `base_chan` after its initialiser (simple_synth.c:40), and the option string
  at 379 has no channel option, so as built the base channel is 0 and 0xFF is
  always dropped; `Midi.NoChannelAbove15` covers values the program cannot reach.
- The reader has no running status: data bytes after a complete message are
  dropped one by one (`Midi.NoRunningStatus`).
- A note-off reads a single data byte (117). The standard third byte, the
  velocity, is then dropped as a stray data byte, so standard note-offs still
  work (`Midi.ThreeByteNoteOff`).
- With the pedal up, `amplitude_curr` is written to `amplitude_last`, not the
  faded level; the faded and clamped level is written only with the pedal
  down (268-271, `Envelope.RenderKey`).

## Model

| member | source | states |
|---|---|---|
| Midi.Status | simple_synth.c:104-115 | a status byte built from a class and a channel has bit 7 set and reads back that channel and that class |
| Midi.Mask7 | simple_synth.c:117 | the 7-bit mask keeps a data byte unchanged and drops only bit 7 of a status byte |
| Midi.DataLength | simple_synth.c:115-147 | a message acted on takes at most two data bytes |
| Midi.Parse | simple_synth.c:102-147 | one pass of the reader: bytes with bit 7 clear and status bytes of another channel are consumed alone as `Skip`; 0xFF yields all-notes-off exactly when the base channel is 15; the pass waits (`None`) exactly when a base-channel status byte lacks its data bytes; a pass consumes 1 to 3 bytes |
| Midi.NotesOff | simple_synth.c:85-92 | `midi_notes_off` zeroes all 128 amplitudes and the pedal |
| Midi.Apply | simple_synth.c:115-146 | note-off zeroes only its key; note-on sets only its key to the velocity; controller 0x40 sets only the pedal; controllers 0x78-0x7A clear every note and the pedal; other controllers and classes change nothing |
| Midi.ApplyInRange | simple_synth.c:89-90 | every message keeps all amplitudes and the pedal within 7 bits |
| Midi.Decode | simple_synth.c:94-149 | the reader over a finite input keeps the 7-bit range of the state; the bytes it leaves unread are at most two, a suffix of the input, and start with a base-channel status byte |
| Midi.Encode | simple_synth.c:115-144 | a sender's byte form of a message: a base-channel status byte followed by data bytes with bit 7 clear |
| Midi.DecodeMessage | simple_synth.c:102-148 | a message encoded at the front of the input is applied and the reader goes on right after its bytes |
| Midi.EncodeAll | simple_synth.c:102-148 | a stream of messages takes one to three bytes per message |
| Midi.ParseEncode | simple_synth.c:102-147 | the reader parses back the message that a sender encoded, whatever bytes follow it |
| Midi.DecodeEncodeAll | simple_synth.c:94-149 | decoding an encoded message stream applies the messages in order and leaves nothing pending |
| Midi.DecodeConcat | simple_synth.c:102-104 | bytes are read one at a time: decoding `a + b` equals decoding `a` and then its pending bytes followed by `b` |
| Midi.ForeignByteDropped | simple_synth.c:104-110 | a byte with bit 7 clear in status position, or a status byte of another channel, is dropped and changes nothing |
| Midi.NoChannelAbove15 | simple_synth.c:108-110 | with a base channel above 15 no byte is ever acted on |
| Midi.ResetByte | simple_synth.c:108-113 | 0xFF clears every note and the pedal when the base channel is 15 and is dropped otherwise |
| Midi.StatusTakenAsData | simple_synth.c:122-128 | after a note-on status byte, a status byte in the key position is taken as the key, masked to its low 7 bits |
| Midi.DataBytesDropped | simple_synth.c:104-106 | any run of bytes with bit 7 clear in status position is dropped without effect |
| Midi.OtherClassDropped | simple_synth.c:115-146 | a base-channel status byte of a class other than note-off, note-on and controller, 0xFF aside, is consumed alone and changes nothing |
| Midi.NoteOffMasked | simple_synth.c:116-121 | the key byte of a note-off is masked to 7 bits whatever its bit 7, and the key is zeroed |
| Midi.NoteOnMasked | simple_synth.c:122-128 | the key and velocity bytes of a note-on are masked to 7 bits whatever their bit 7 |
| Midi.ControllerMasked | simple_synth.c:129-144 | the controller number and value bytes are masked to 7 bits whatever their bit 7 |
| Midi.ThreeByteNoteOff | simple_synth.c:116-121 | a standard three-byte note-off zeroes its key; the velocity byte is dropped |
| Midi.NoRunningStatus | simple_synth.c:122-128 | data bytes after a note-on are not taken as further note-ons |
| Midi.ZeroVelocityIsNoteOff | simple_synth.c:116-128 | note-on with velocity 0 has the effect of note-off |
| Midi.TruncatedMessageWaits | simple_synth.c:117-131 | a message cut short changes nothing and is kept pending |
| Wave.SpecialValue | simple_synth.c:158-173 | the table answers 1 exactly at 0x0000 and 0xFFFF, 0 exactly at 0x3FFF, 0x4000, 0xBFFF and 0xC000, and -1 exactly at 0x7FFF and 0x8000 |
| Wave.GrayLoopFromState | simple_synth.c:175-179 | from any state the loop invariant allows, the remaining passes of the "grey" loop finish the Gray code |
| Wave.GrayIsGrayCode | simple_synth.c:175-179 | the "grey" loop computes exactly the reflected binary Gray code `x ^ (x >> 1)` |
| Wave.FirstSetNum | simple_synth.c:181-187 | the search ends with `num` in [1, 14]: one past the lowest set bit below bit 14, or 14 when there is none |
| Wave.SeriesDigits | simple_synth.c:189-201 | the series visits bits `num` to 13 of the transformed phase, that is, `14 - num` steps |
| Wave.Quantise | simple_synth.c:154 | the quantised phase is the fractional part of the phase scaled by 2^16 and rounded down |
| Wave.WaveValue | simple_synth.c:151-208 | the exact special values, whatever the power |
| Wave.TopDigits | simple_synth.c:203-205 | bits 15 and 14 of the phase give its quarter of the cycle |
| Wave.GraySignDigit | simple_synth.c:175-205 | bit 14 of the transformed phase is set exactly on the middle half of the cycle [0x4000, 0xC000) |
| Wave.SearchDependsOnLowDigits | simple_synth.c:181-187 | the search reads only bits 0 to 13 |
| Wave.SeriesDependsOnLowDigits | simple_synth.c:189-201 | the series reads only bits 0 to 13 |
| Wave.GrayClearBelow | simple_synth.c:175-179 | the low Gray bits vanish exactly when the corresponding phase bits are all equal |
| Wave.UniformBelowIff | simple_synth.c:154-179 | the low `k` phase bits are all equal exactly when the phase is 0 or -1 modulo 2^k |
| Wave.SpecialIsQuarterEdge | simple_synth.c:158-173 | the special phases are exactly those that are 0 or -1 modulo 0x4000 |
| Wave.NoStepIffClear | simple_synth.c:181-201 | the series runs no step exactly when Gray bits 0 to 12 are clear |
| Wave.SpecialIffNoSeriesStep | simple_synth.c:158-201 | the table covers exactly the phases where the series would run no step |
| Wave.GeneralValueAtSpecial | simple_synth.c:158-207 | without the table the general path gives 0 at every special phase, which is right only at the four quarter points |
| Wave.SeriesInUnit | simple_synth.c:189-201 | with `powf` mapping [0,1] into itself and a positive power, every step keeps `retval` in [0, 1] |
| Wave.WaveBounded | simple_synth.c:151-208 | with `powf` mapping [0,1] into itself and a positive power, the result lies in [-1, 1] |
| Wave.WaveSign | simple_synth.c:203-205 | off the table, the result is the series magnitude, negated exactly on the middle half of the cycle |
| Wave.SeriesStartsAtLowestSetDigit | simple_synth.c:181-201 | off the table, the search ends with `num` in [1, 13] at the lowest set Gray bit, so the series runs at least one step |
| Wave.QuantisePeriodic | simple_synth.c:154 | whole turns of the phase give the same quantised phase |
| Wave.SameGeneralValue | simple_synth.c:175-207 | the general path reads only Gray bits 0 to 14 |
| Wave.WaveReflection | simple_synth.c:151-208 | the waveform is even: `0xFFFF - x` gives the same value |
| Wave.HalfTurnDigits | simple_synth.c:154 | half a cycle on, the 16-bit phase differs only in bit 15 |
| Wave.GeneralHalfTurn | simple_synth.c:175-207 | half a cycle on, the general path changes sign |
| Wave.WaveHalfTurn | simple_synth.c:151-208 | half a cycle on, the waveform changes sign |
| Wave.SearchPastDigitEleven | simple_synth.c:181-201 | when Gray bits 11 and 12 are the only ones set, the search stops at bit 12 and the series visits bits 12 (set) and 13 (clear) |
| Wave.WaveOfSetThenClear | simple_synth.c:189-207 | a series over a set bit then a clear one, off the table and outside the middle half, gives `powf((1 + powf(1/2, p)) / 2, p)`: the set bit folds `1 - retval` and the clear bit folds `1 + retval` |
| Wave.WaveAtSixteenthTurn | simple_synth.c:151-208 | at phase 0x1000, a sixteenth of a cycle, the result is `powf((1 + powf(1/2, p)) / 2, p)`, the half-angle step from cos(pi/4) to cos(pi/8) when `powf` is the real power function and the power is 1/2, so that each step is a square root |
| Envelope.Frac | simple_synth.c:255-258 | the wrapped phase lies in [0, 1) |
| Envelope.FracShift | simple_synth.c:255-258 | wrapping after every advance is the same as wrapping once at the end |
| Envelope.FracOfUnit | simple_synth.c:258 | a phase already in [0, 1) is unchanged by the wrap |
| Envelope.Increment | simple_synth.c:244-247 | the per-sample increment is the pitch over the sample rate, capped at 1/2 from the Nyquist frequency on |
| Envelope.Fade | simple_synth.c:231-239 | the fade rises exactly when the amplitude rises, falls exactly when it falls with the pedal up, and otherwise is 0; a nonzero fade covers the whole difference in `n` steps |
| Envelope.FadeBetween | simple_synth.c:229-260 | every level during a block lies between the old and the new amplitude |
| Envelope.FadeEnd | simple_synth.c:229-260 | after the block the level reaches the new amplitude, or stays at the old one when the pedal holds a falling note |
| Envelope.Exponent | simple_synth.c:252 | the power handed to the wave lies in (0, 1], is below 1 for any sounding level, is 1 for a silent level and 1/2 at level 64 |
| Envelope.ExponentDecreasing | simple_synth.c:252 | a louder level gives a smaller power |
| Envelope.Clamp | simple_synth.c:263-266 | a level below 1 becomes 0, a level above 126 becomes 127, and a level in [1, 126] is kept, so the result lies in [0, 127] |
| Envelope.Committed | simple_synth.c:229-271 | the committed amplitude equals `amplitude_curr` with the pedal up; with the pedal down it is at most 127 and never below a 7-bit previous value |
| Envelope.Advance | simple_synth.c:255-258 | the phase stays in [0, 1) through a block |
| Envelope.AdvanceByOffset | simple_synth.c:255-258 | the phase after `i` samples is the start phase plus `i` increments, wrapped once |
| Envelope.AdvanceClosedForm | simple_synth.c:255-258 | the phase after `i` samples is `frac(phase0 + i * freq)` |
| Envelope.Samples | simple_synth.c:249-261 | the sample loop ends with the level advanced by `n` fade steps and the phase advanced and wrapped `n` times |
| Envelope.RenderKey | simple_synth.c:225-271 | a key silent before and after is left untouched; otherwise its phase advances by the block and its committed amplitude is `Committed` |
| Envelope.SampleLevels | simple_synth.c:249-253 | every sample is mixed at a level between the two amplitudes, with a power in (0, 1] |
| Envelope.RenderBlock | simple_synth.c:223-272 | every key of the block is committed as `Committed`; silent keys are untouched; phases stay in [0, 1) |
| Envelope.CommittedInRange | simple_synth.c:263-271 | with `amplitude_curr` in range, `amplitude_last` stays below 0x80 |
| Envelope.PedalHolds | simple_synth.c:236-271 | with the pedal down the committed amplitude never falls, and after a nonempty block it is the larger of the two |
| Writer.Step | simple_synth.c:329-355 | a block is generated exactly when `rem` is 0; a write is attempted exactly when the queue holds less than one block; with a full queue nothing but the refill happens; the loop closes exactly on a failed write without `EWOULDBLOCK`; `rem` goes down by the whole samples accepted |
| Writer.StepInRange | simple_synth.c:329-355 | with an honest device one pass keeps `rem` in [0, buf_size] |
| Writer.ShortWrite | simple_synth.c:346-352 | a write of 1 to 3 bytes falls into the error branch: it retries with `EWOULDBLOCK` and closes otherwise, and `rem` does not move |
| Writer.PartialSample | simple_synth.c:353-354 | a write that ends inside a sample moves `rem` by the whole samples only |
| Writer.OverlongWrite | simple_synth.c:331-354 | a device that reports more bytes than requested drives `rem` below 0 |
| Writer.Loop | simple_synth.c:329-356 | the loop over a reply sequence closes only after a reply, and with no replies nothing changes |
| Writer.LoopConcat | simple_synth.c:329-356 | the loop takes one reply per pass: a run over `a + b` is the run over `a` followed, unless it closed, by the run over `b` from where `a` left `rem`; after a close no further reply is used |
| Writer.LoopConservation | simple_synth.c:329-356 | over any run, `rem` is the start value plus a block per refill minus the samples accepted |
| Writer.LoopInRange | simple_synth.c:329-356 | with an honest device `rem` stays in [0, buf_size] over any run |
| Writer.FullQueueWaits | simple_synth.c:339-348 | with a block pending (`rem != 0`), while the queue is full nothing is written, refilled or closed |

## Left out

- Device I/O is replaced by abstract inputs. This covers the opening and reopening of the MIDI device and the blocking reads of `midi_read_byte` (simple_synth.c:56-83). It also covers the open, the configuration ioctls and the sleeps of `oss_write_thread` (289-326, 348). The MIDI input is a finite byte sequence. Each pass of the writer is a `Reply`, and the replies are arbitrary.
- Threads and the `Giant` mutex are left out; the model is sequential. The pedal is written without the lock (134), which is a concurrency matter outside this model.
- The sample mixing into the buffer (251-252) is not modelled, and neither is the float-to-`int32_t` conversion it involves. `Envelope.SampleLevels` states the level and the power each sample would use.
- The pitch `base_hz * powf(2, (j - base_key) / octave_size)` (241-242) is an input, `pitch[j] >= 0`. The CLI parsing, `usage`, `octave_size != 0` and `buf_size = sample_rate / 50` (360-414) are not modelled. `Increment` requires a positive sample rate.
- Float rounding is not modelled. `curr_fact`, `fade_fact`, `freq` and the phase are exact reals. `powf` is a parameter, and `floorf` and `(int)` of a non-negative value are the exact floor. The conversion at 154 is taken in exact arithmetic, where the fraction is below 1. For a negative `_x` just below an integer, `_x - floorf(_x)` rounds to 1.0f, so `x` would be 65536, out of range for `uint16_t`; `generate_audio` never passes a negative phase. That case is not modelled.
- Envelope.Fade: requires `n > 0`. With `nsamples == 0` the source divides by zero in `float`, but the result is never used because the sample loop runs no pass; `BlockFade` takes 0 there.
- Wave.WaveBounded: the bound holds given `PowMapsUnitInterval` and a positive power, not for `powf` itself.
- The `rem` counter is an unbounded integer. Its `int` width only matters for a device that reports more bytes than it was asked for, which `Writer.OverlongWrite` shows leaves the intended range anyway.
