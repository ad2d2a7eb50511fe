/**
 * The per-key bookkeeping of `generate_audio` (simple_synth.c:210-275):
 * the silent-key fast path, the fade from `amplitude_last` towards
 * `amplitude_curr` over one block, the pedal clamp on falling fades, the
 * phase advance with its wrap into [0, 1), the final clamp of the level and
 * the write back to `amplitude_last`.
 *
 * `curr_fact`, `fade_fact`, `freq` and `wave_offset` are `float` in the
 * source; here they are exact reals. The pitch of a key, computed with
 * `powf`, is an input, and the mixing of samples into the buffer is not
 * modelled: each key hands back, per sample, the level and the phase it
 * would pass to `wave_function_16`.
 */
module Envelope {
  import opened Midi

  function Min(a: int, b: int): int { if a <= b then a else b }
  function Max(a: int, b: int): int { if a <= b then b else a }

  // ---------------------------------------------------------------------
  // Phase wrap (simple_synth.c:254-258)
  // ---------------------------------------------------------------------

  /** `x - floorf(x)`: the fractional part. */
  function Frac(a: real): (f: real)
    ensures 0.0 <= f < 1.0
  {
    a - a.Floor as real
  }

  /** Wrapping after every step is the same as wrapping once at the end. */
  lemma FracShift(a: real, d: real)
    ensures Frac(Frac(a) + d) == Frac(a + d)
  {
    var k := a.Floor;
    assert (Frac(a) + d).Floor == (a + d).Floor - k by {
      assert Frac(a) + d == (a + d) - k as real;
    }
  }

  /** A phase already in [0, 1) is its own fractional part. */
  lemma FracOfUnit(a: real)
    requires 0.0 <= a < 1.0
    ensures Frac(a) == a
  {
  }

  // ---------------------------------------------------------------------
  // Frequency (simple_synth.c:241-247)
  // ---------------------------------------------------------------------

  /**
   * The phase increment per sample: the pitch `raw` in Hz, limited to the
   * Nyquist frequency, divided by the sample rate.
   */
  function Increment(raw: real, sampleRate: nat): (f: real)
    requires sampleRate > 0 && raw >= 0.0
    ensures 0.0 <= f <= 0.5
    ensures raw < sampleRate as real / 2.0 ==> f * sampleRate as real == raw
    ensures raw >= sampleRate as real / 2.0 ==> f == 0.5
  {
    var nyquist := sampleRate as real / 2.0;
    var clamped := if raw >= nyquist then nyquist else raw;
    assert nyquist / sampleRate as real == 0.5;
    clamped / sampleRate as real
  }

  // ---------------------------------------------------------------------
  // Fade (simple_synth.c:229-239)
  // ---------------------------------------------------------------------

  /**
   * `fade_fact`: the step per sample that takes the level from `last` to
   * `curr` over `n` samples, held at 0 while the pedal is down and the
   * level would fall.
   */
  function Fade(curr: UInt8, last: UInt8, pedal: UInt8, n: nat): (f: real)
    requires n > 0
    ensures f > 0.0 <==> curr > last
    ensures f < 0.0 <==> curr < last && pedal == 0
    ensures f != 0.0 ==> f * n as real == (curr - last) as real
  {
    var f := if curr != last then (curr - last) as real / n as real else 0.0;
    if pedal != 0 && f < 0.0 then 0.0 else f
  }

  /** A fraction `t` in [0, 1] of a difference `d` lies between 0 and `d`. */
  lemma ScaledBetween(d: real, t: real)
    requires 0.0 <= t <= 1.0
    ensures d >= 0.0 ==> 0.0 <= d * t <= d
    ensures d < 0.0 ==> d <= d * t <= 0.0
  {
  }

  lemma StepsAsFraction(i: nat, n: nat, d: real)
    requires 0 < n && i <= n
    ensures i as real * (d / n as real) == d * (i as real / n as real)
    ensures 0.0 <= i as real / n as real <= 1.0
  {
  }

  /**
   * The level after `i` of the `n` steps lies between the old and the new
   * amplitude.
   */
  lemma FadeBetween(curr: UInt8, last: UInt8, pedal: UInt8, n: nat, i: nat)
    requires 0 < n && i <= n
    ensures var level := last as real + Offset(Fade(curr, last, pedal, n), i);
            Min(curr, last) as real <= level <= Max(curr, last) as real
  {
    var f := Fade(curr, last, pedal, n);
    var d := (curr - last) as real;
    OffsetIsProduct(f, i);
    if f != 0.0 {
      assert f == d / n as real;
      StepsAsFraction(i, n, d);
      ScaledBetween(d, i as real / n as real);
    }
  }

  /** After all `n` steps a fade ends on the new amplitude, or stays put when held by the pedal. */
  lemma FadeEnd(curr: UInt8, last: UInt8, pedal: UInt8, n: nat)
    requires 0 < n
    ensures last as real + Offset(Fade(curr, last, pedal, n), n) ==
            if pedal != 0 && curr < last then last as real else curr as real
  {
    OffsetIsProduct(Fade(curr, last, pedal, n), n);
  }

  // ---------------------------------------------------------------------
  // Exponent and final clamp (simple_synth.c:250-266)
  // ---------------------------------------------------------------------

  /** The power handed to `wave_function_16`: `1 / (1 + curr_fact / 64)`. */
  function Exponent(level: real): (p: real)
    requires level >= 0.0
    ensures 0.0 < p <= 1.0
    ensures level > 0.0 ==> p < 1.0
    ensures level == 0.0 ==> p == 1.0
    ensures level == 64.0 ==> p == 0.5
  {
    var d := 1.0 + level / 64.0;
    assert d >= 1.0 && (level > 0.0 ==> d > 1.0);
    1.0 / d
  }

  /** A louder level gives a smaller power. */
  lemma ExponentDecreasing(a: real, b: real)
    requires 0.0 <= a <= b
    ensures Exponent(b) <= Exponent(a)
  {
    var ea, eb := 1.0 + a / 64.0, 1.0 + b / 64.0;
    assert 1.0 / eb <= 1.0 / ea by {
      assert 1.0 / eb * eb == 1.0 && 1.0 / ea * ea == 1.0;
    }
  }

  /** The level clamp after the block: below 1 becomes 0, above 126 becomes 127. */
  function Clamp(level: real): (c: real)
    ensures 0.0 <= c <= 127.0
    ensures 1.0 <= level <= 126.0 ==> c == level
    ensures level < 1.0 ==> c == 0.0
    ensures level > 126.0 ==> c == 127.0
  {
    if level < 1.0 then 0.0
    else if level > 126.0 then 127.0
    else level
  }

  // ---------------------------------------------------------------------
  // One key over one block
  // ---------------------------------------------------------------------

  /** `amplitude_last[j]` and `wave_offset[j]` of one key. */
  datatype KeyState = KeyState(last: UInt8, phase: real)

  /** The phase stays in [0, 1): it starts at 0 and is written only through `Frac`. */
  predicate ValidKey(k: KeyState)
  {
    0.0 <= k.phase < 1.0
  }

  /**
   * The value written to `amplitude_last` after a block of `n` samples,
   * stated without the sample loop: the new amplitude with the pedal up;
   * with the pedal down, the larger of the two capped at 127, since a
   * held fade never falls.
   */
  function Committed(curr: UInt8, last: UInt8, pedal: UInt8, n: nat): (v: UInt8)
    ensures pedal == 0 ==> v == curr
    ensures pedal != 0 ==> v <= 127
    ensures pedal != 0 && last <= 127 ==> last <= v
  {
    if pedal == 0 then curr
    else if n == 0 then Min(last, 127)
    else Min(Max(curr, last), 127)
  }

  /** The phase after `i` samples, advanced and wrapped one sample at a time. */
  function Advance(phase0: real, freq: real, i: nat): (p: real)
    ensures 0.0 <= phase0 < 1.0 ==> 0.0 <= p < 1.0
  {
    if i == 0 then phase0 else Frac(Advance(phase0, freq, i - 1) + freq)
  }

  /** `i` increments added one at a time. */
  function Offset(freq: real, i: nat): real
  {
    if i == 0 then 0.0 else Offset(freq, i - 1) + freq
  }

  lemma {:induction false} OffsetIsProduct(freq: real, i: nat)
    ensures Offset(freq, i) == i as real * freq
  {
    if i > 0 {
      OffsetIsProduct(freq, i - 1);
    }
  }

  lemma {:induction false} AdvanceByOffset(phase0: real, freq: real, i: nat)
    requires 0.0 <= phase0 < 1.0
    ensures Advance(phase0, freq, i) == Frac(phase0 + Offset(freq, i))
  {
    if i == 0 {
      FracOfUnit(phase0);
    } else {
      AdvanceByOffset(phase0, freq, i - 1);
      FracShift(phase0 + Offset(freq, i - 1), freq);
    }
  }

  /** Advancing and wrapping sample by sample is one advance by `i` increments, wrapped once. */
  lemma AdvanceClosedForm(phase0: real, freq: real, i: nat)
    requires 0.0 <= phase0 < 1.0
    ensures Advance(phase0, freq, i) == Frac(phase0 + i as real * freq)
  {
    AdvanceByOffset(phase0, freq, i);
    OffsetIsProduct(freq, i);
  }

  /**
   * The sample loop of one key (simple_synth.c:249-261). Sample `i` is
   * mixed with level `start + Offset(fade, i)` at phase
   * `Advance(phase0, freq, i)`; after each sample the phase is advanced and
   * wrapped and the level takes one step.
   */
  method Samples(start: real, fade: real, phase0: real, freq: real, n: nat)
    returns (level: real, phase: real)
    ensures level == start + Offset(fade, n)
    ensures phase == Advance(phase0, freq, n)
  {
    level, phase := start, phase0;
    var i := 0;
    while i != n
      invariant 0 <= i <= n
      invariant level == start + Offset(fade, i)
      invariant phase == Advance(phase0, freq, i)
    {
      phase := phase + freq;
      phase := phase - phase.Floor as real;
      level := level + fade;
      i := i + 1;
    }
  }

  /** The fade of a key over a block of `n` samples; there is none when `n` is 0. */
  function BlockFade(curr: UInt8, last: UInt8, pedal: UInt8, n: nat): real
  {
    if n > 0 then Fade(curr, last, pedal, n) else 0.0
  }

  /**
   * One pass of the key loop of `generate_audio`. A key silent before and
   * after is skipped whole: no phase advance and no write.
   */
  method RenderKey(k: KeyState, curr: UInt8, pedal: UInt8, freq: real, n: nat) returns (r: KeyState)
    requires ValidKey(k)
    ensures ValidKey(r)
    ensures curr == 0 && k.last == 0 ==> r == k
    ensures r.last == Committed(curr, k.last, pedal, n)
    ensures !(curr == 0 && k.last == 0) ==> r.phase == Advance(k.phase, freq, n)
  {
    if curr == 0 && k.last == 0 {
      return k;
    }
    var level, phase := Samples(k.last as real, BlockFade(curr, k.last, pedal, n), k.phase, freq, n);
    if n > 0 {
      FadeEnd(curr, k.last, pedal, n);
    }
    var clamped := Clamp(level);
    var last: UInt8 := if pedal != 0 then clamped.Floor else curr;
    r := KeyState(last, phase);
  }

  /**
   * Every sample of a block is mixed with a level between the old and the
   * new amplitude, so the power it hands to `wave_function_16` lies in (0, 1].
   */
  lemma SampleLevels(curr: UInt8, last: UInt8, pedal: UInt8, n: nat, i: nat)
    requires i < n
    ensures var level := last as real + Offset(BlockFade(curr, last, pedal, n), i);
            && Min(curr, last) as real <= level <= Max(curr, last) as real
            && 0.0 < Exponent(level) <= 1.0
  {
    FadeBetween(curr, last, pedal, n, i);
  }

  // ---------------------------------------------------------------------
  // All keys over one block (simple_synth.c:223-272)
  // ---------------------------------------------------------------------

  /**
   * The key loop of `generate_audio` over the 128 keys, with `pitch[j]`
   * the frequency of key `j` in Hz.
   */
  method RenderBlock(keys: seq<KeyState>, curr: Table, pedal: UInt8, pitch: seq<real>,
                     sampleRate: nat, n: nat)
    returns (r: seq<KeyState>)
    requires |keys| == 128 && |pitch| == 128 && sampleRate > 0
    requires forall j :: 0 <= j < 128 ==> ValidKey(keys[j]) && pitch[j] >= 0.0
    ensures |r| == 128
    ensures forall j :: 0 <= j < 128 ==> ValidKey(r[j])
    ensures forall j :: 0 <= j < 128 ==> r[j].last == Committed(curr[j], keys[j].last, pedal, n)
    ensures forall j :: 0 <= j < 128 && curr[j] == 0 && keys[j].last == 0 ==> r[j] == keys[j]
    ensures forall j :: 0 <= j < 128 && !(curr[j] == 0 && keys[j].last == 0) ==>
              r[j].phase == Advance(keys[j].phase, Increment(pitch[j], sampleRate), n)
  {
    r := [];
    var j := 0;
    while j != 128
      invariant 0 <= j <= 128 && |r| == j
      invariant forall i :: 0 <= i < j ==> ValidKey(r[i])
      invariant forall i :: 0 <= i < j ==> r[i].last == Committed(curr[i], keys[i].last, pedal, n)
      invariant forall i :: 0 <= i < j && curr[i] == 0 && keys[i].last == 0 ==> r[i] == keys[i]
      invariant forall i :: 0 <= i < j && !(curr[i] == 0 && keys[i].last == 0) ==>
                  r[i].phase == Advance(keys[i].phase, Increment(pitch[i], sampleRate), n)
    {
      var key := RenderKey(keys[j], curr[j], pedal, Increment(pitch[j], sampleRate), n);
      r := r + [key];
      j := j + 1;
    }
  }

  /**
   * With the decoder's range invariant on `amplitude_curr`, every committed
   * `amplitude_last` is a 7-bit value.
   */
  lemma CommittedInRange(curr: UInt8, last: UInt8, pedal: UInt8, n: nat)
    requires curr < 0x80
    ensures Committed(curr, last, pedal, n) < 0x80
  {
  }

  /** With the pedal down, the committed amplitude never falls (below the 127 cap). */
  lemma PedalHolds(curr: UInt8, last: UInt8, pedal: UInt8, n: nat)
    requires pedal != 0 && last < 0x80
    ensures last <= Committed(curr, last, pedal, n)
    ensures n > 0 && curr < 0x80 ==> Committed(curr, last, pedal, n) == Max(curr, last)
  {
  }
}
