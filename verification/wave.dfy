/**
 * The integer part of `wave_function_16` (simple_synth.c:151-208): the phase,
 * already quantised to a 16-bit unsigned integer `x`, is mapped to a sample
 * in [-1, 1] through a table of exact special cases, a Gray-code transform,
 * a search for the lowest set bit and a bit-driven power recursion.
 *
 * The bit operations of the source act on the 16 binary digits of `x`; the
 * model writes them on `Word`, those digits least significant first, so that
 * `x & (1U << i)` is `Bits(x)[i]` and `x ^= (1U << k) - 1` complements the
 * digits below `k`.
 *
 * `powf` is not modelled: it is the parameter `pow`, and the lemmas that
 * need a fact about it assume only `PowMapsUnitInterval`.
 */
module Wave {

  /** The quantised phase `x` of the source (`uint16_t`). */
  type Phase16 = x: int | 0 <= x < 0x10000

  /** Sixteen binary digits, least significant first. */
  type Word = w: seq<bool> | |w| == 16 witness seq(16, i => false)

  /** A stand-in for `powf`: any function of two reals. */
  type PowFn = (real, real) -> real

  /** The one fact assumed about `powf`: it maps [0,1] x (0,inf) into [0,1]. */
  ghost predicate PowMapsUnitInterval(pow: PowFn)
  {
    forall r: real, p: real :: 0.0 <= r <= 1.0 && 0.0 < p ==> 0.0 <= pow(r, p) <= 1.0
  }

  function Pow2(n: nat): (p: nat)
    ensures p > 0
  {
    if n == 0 then 1 else 2 * Pow2(n - 1)
  }

  /** The low `n` binary digits of `v`, least significant first. */
  function BitsOf(v: nat, n: nat): (bits: seq<bool>)
    ensures |bits| == n
  {
    if n == 0 then [] else [v % 2 == 1] + BitsOf(v / 2, n - 1)
  }

  /** The digits of a phase. */
  function Bits(x: Phase16): Word
  {
    BitsOf(x, 16)
  }

  /** Splitting a number at digit `k` splits its digit sequence there. */
  lemma {:induction false} BitsOfSplit(lo: nat, hi: nat, k: nat, n: nat)
    requires lo < Pow2(k) && k <= n
    ensures BitsOf(lo + Pow2(k) * hi, n) == BitsOf(lo, k) + BitsOf(hi, n - k)
    decreases k
  {
    if k > 0 {
      var q := Pow2(k - 1) * hi;
      var x := lo + Pow2(k) * hi;
      assert x == lo + 2 * q by {
        DoubleTimes(k, hi);
      }
      assert x % 2 == lo % 2 && x / 2 == lo / 2 + q by {
        HalveSum(lo, q);
      }
      assert lo / 2 < Pow2(k - 1);
      BitsOfSplit(lo / 2, hi, k - 1, n - 1);
      var a, b, c := [lo % 2 == 1], BitsOf(lo / 2, k - 1), BitsOf(hi, n - k);
      assert BitsOf(lo / 2 + q, n - 1) == b + c;
      assert BitsOf(x, n) == a + (b + c);
      assert BitsOf(lo, k) == a + b;
      assert a + (b + c) == (a + b) + c;
    }
  }

  lemma DoubleTimes(k: nat, hi: nat)
    requires k > 0
    ensures Pow2(k) * hi == 2 * (Pow2(k - 1) * hi)
  {
  }

  lemma HalveSum(lo: nat, q: nat)
    ensures (lo + 2 * q) % 2 == lo % 2 && (lo + 2 * q) / 2 == lo / 2 + q
  {
  }

  /** Complementing the low `n` digits of `v` is subtracting it from `2^n - 1`. */
  lemma {:induction false} BitsOfComplement(v: nat, n: nat)
    requires v < Pow2(n)
    ensures forall i :: 0 <= i < n ==> BitsOf(Pow2(n) - 1 - v, n)[i] == !BitsOf(v, n)[i]
    decreases n
  {
    if n > 0 {
      var p := Pow2(n - 1);
      var h := v / 2;
      assert h < p;
      var c := Pow2(n) - 1 - v;
      assert c == 2 * (p - 1 - h) + (1 - v % 2);
      assert c % 2 == 1 - v % 2 && c / 2 == p - 1 - h;
      BitsOfComplement(h, n - 1);
      assert BitsOf(c, n) == [c % 2 == 1] + BitsOf(p - 1 - h, n - 1);
      assert BitsOf(v, n) == [v % 2 == 1] + BitsOf(h, n - 1);
    }
  }

  // ---------------------------------------------------------------------
  // Special cases (simple_synth.c:158-173)
  // ---------------------------------------------------------------------

  /** The phases the `switch` at the top of the function answers directly. */
  predicate IsSpecial(x: Phase16)
  {
    x == 0x0000 || x == 0xFFFF || x == 0x3FFF || x == 0x4000 ||
    x == 0xBFFF || x == 0xC000 || x == 0x7FFF || x == 0x8000
  }

  /** The value of a special case: 1 at the cycle ends, 0 at the quarter points, -1 at the half. */
  function SpecialValue(x: Phase16): (v: real)
    requires IsSpecial(x)
    ensures v == 1.0 <==> x == 0x0000 || x == 0xFFFF
    ensures v == -1.0 <==> x == 0x7FFF || x == 0x8000
    ensures v == 0.0 <==> x == 0x3FFF || x == 0x4000 || x == 0xBFFF || x == 0xC000
  {
    if x == 0x0000 || x == 0xFFFF then 1.0
    else if x == 0x7FFF || x == 0x8000 then -1.0
    else 0.0
  }

  // ---------------------------------------------------------------------
  // The "grey" encoding loop (simple_synth.c:175-179)
  // ---------------------------------------------------------------------

  /** `x ^= mask - 1` for `mask == 1U << k`: the digits below `k` are complemented. */
  function FlipBelow(w: Word, k: nat): Word
  {
    seq(16, i requires 0 <= i < 16 => if i < k then !w[i] else w[i])
  }

  /**
   * The loop from `mask == 1U << k` down to `mask == 2`: when the digit under
   * `mask` is set in the current word, every digit below it is complemented.
   */
  function GrayLoop(w: Word, k: nat): Word
    requires k <= 15
    decreases k
  {
    if k == 0 then w
    else GrayLoop(if w[k] then FlipBelow(w, k) else w, k - 1)
  }

  /** The transformed phase as the source computes it (`mask` starts at `1U << 15`). */
  function Gray(x: Phase16): Word
  {
    GrayLoop(Bits(x), 15)
  }

  /** The reflected binary Gray code `w ^ (w >> 1)`, written independently of the loop. */
  function GrayCode(w: Word): Word
  {
    seq(16, i requires 0 <= i < 16 => if i < 15 then w[i] != w[i + 1] else w[i])
  }

  /** Digit `j` of `w`, reading 0 above the top. */
  function DigitAt(w: Word, j: nat): bool
  {
    j < 16 && w[j]
  }

  /**
   * The state of the loop just before digit `k` is examined: the digits above
   * `k` already hold the Gray code of `w0`, and the digits at `k` and below
   * hold those of `w0`, complemented when the digit of `w0` just above `k` is set.
   */
  ghost predicate GrayLoopState(w0: Word, w: Word, k: nat)
  {
    && k <= 15
    && (forall i :: k < i < 16 ==> w[i] == GrayCode(w0)[i])
    && (forall i :: 0 <= i <= k ==> w[i] == (w0[i] != DigitAt(w0, k + 1)))
  }

  lemma {:induction false} GrayLoopFromState(w0: Word, w: Word, k: nat)
    requires GrayLoopState(w0, w, k)
    ensures GrayLoop(w, k) == GrayCode(w0)
    decreases k
  {
    if k == 0 {
      assert w[0] == GrayCode(w0)[0];
      assert forall i :: 0 <= i < 16 ==> w[i] == GrayCode(w0)[i];
    } else {
      var w' := if w[k] then FlipBelow(w, k) else w;
      assert GrayLoopState(w0, w', k - 1);
      GrayLoopFromState(w0, w', k - 1);
    }
  }

  /** The source's loop computes exactly the reflected binary Gray code of the phase. */
  lemma GrayIsGrayCode(x: Phase16)
    ensures Gray(x) == GrayCode(Bits(x))
  {
    GrayLoopFromState(Bits(x), Bits(x), 15);
  }

  // ---------------------------------------------------------------------
  // First set bit (simple_synth.c:181-187) and the power series (189-201)
  // ---------------------------------------------------------------------

  /**
   * The "find first set bit" loop, started at `num`: one past the index of
   * the lowest set digit of `g` in [num, 14), or 14 when there is none.
   */
  function FirstSetNum(g: Word, num: nat): (r: nat)
    requires num <= 14
    ensures num <= r <= 14
    ensures num < 14 ==> num < r
    ensures forall i :: num <= i < r - 1 ==> !g[i]
    ensures r < 14 ==> g[r - 1]
    ensures (exists i :: num <= i < 14 && g[i]) ==> g[r - 1]
    decreases 14 - num
  {
    if num == 14 then 14
    else if g[num] then num + 1
    else FirstSetNum(g, num + 1)
  }

  /** One pass of the power-series loop: a set digit folds `1 - r`, a clear one `1 + r`. */
  function SeriesStep(bit: bool, r: real, power: real, pow: PowFn): real
  {
    if bit then pow((1.0 - r) / 2.0, power) else pow((1.0 + r) / 2.0, power)
  }

  /** The power-series loop, run over the digits `bits` in order, starting from `r`. */
  function Series(bits: seq<bool>, r: real, power: real, pow: PowFn): real
    decreases |bits|
  {
    if |bits| == 0 then r
    else Series(bits[1..], SeriesStep(bits[0], r, power, pow), power, pow)
  }

  /** The digits the power-series loop visits: `num`, ..., 13 of the Gray word. */
  function SeriesDigits(g: Word): (bits: seq<bool>)
    ensures 0 <= |bits| <= 13
    ensures |bits| == 14 - FirstSetNum(g, 0)
    ensures forall i :: 0 <= i < |bits| ==> bits[i] == g[FirstSetNum(g, 0) + i]
  {
    g[FirstSetNum(g, 0)..14]
  }

  /** The value of the power series before the final sign (`retval` at line 203). */
  function Magnitude(x: Phase16, power: real, pow: PowFn): real
  {
    Series(SeriesDigits(Gray(x)), 0.0, power, pow)
  }

  /** The value the general path computes, the special-case table aside. */
  function GeneralValue(x: Phase16, power: real, pow: PowFn): real
  {
    var m := Magnitude(x, power, pow);
    if Gray(x)[14] then -m else m
  }

  /**
   * The conversion at the top of the function: the fractional part of the
   * phase, scaled by 2^16 and truncated. With exact reals the fraction is
   * below 1, so the result always fits in 16 bits.
   */
  function Quantise(phase: real): (x: Phase16)
    ensures x as real <= (phase - phase.Floor as real) * 65536.0 < x as real + 1.0
  {
    ((phase - phase.Floor as real) * 65536.0).Floor
  }

  /** `wave_function_16` on a quantised phase. */
  function WaveValue(x: Phase16, power: real, pow: PowFn): (v: real)
    ensures x == 0x0000 || x == 0xFFFF ==> v == 1.0
    ensures x == 0x3FFF || x == 0x4000 || x == 0xBFFF || x == 0xC000 ==> v == 0.0
    ensures x == 0x7FFF || x == 0x8000 ==> v == -1.0
  {
    if IsSpecial(x) then SpecialValue(x) else GeneralValue(x, power, pow)
  }

  // ---------------------------------------------------------------------
  // Properties
  // ---------------------------------------------------------------------

  lemma Pow2Values()
    ensures Pow2(14) == 0x4000 && Pow2(15) == 0x8000 && Pow2(16) == 0x10000
  {
  }

  /** Digits 14 and 15 of a phase give the quarter of the cycle it lies in. */
  lemma TopDigits(x: Phase16)
    ensures Bits(x)[15] <==> x >= 0x8000
    ensures Bits(x)[14] <==> (0x4000 <= x < 0x8000 || 0xC000 <= x)
  {
    var lo, q := x % 0x4000, x / 0x4000;
    assert x == lo + 0x4000 * q && lo < 0x4000 && 0 <= q < 4;
    Pow2Values();
    BitsOfSplit(lo, q, 14, 16);
    var top := BitsOf(q, 2);
    assert Bits(x) == BitsOf(lo, 14) + top;
    assert Bits(x)[14] == top[0] && Bits(x)[15] == top[1];
    assert top == [q % 2 == 1] + [(q / 2) % 2 == 1] + [];
    assert x >= 0x8000 <==> q >= 2;
    assert (0x4000 <= x < 0x8000 || 0xC000 <= x) <==> q == 1 || q == 3;
  }

  /**
   * The Gray digit that decides the sign is set exactly on the middle half
   * of the cycle, [0x4000, 0xC000), where a cosine is negative.
   */
  lemma GraySignDigit(x: Phase16)
    ensures Gray(x)[14] <==> 0x4000 <= x < 0xC000
  {
    GrayIsGrayCode(x);
    TopDigits(x);
  }

  /** Words that agree below digit `n` give the same search and the same series. */
  lemma {:induction false} SearchDependsOnLowDigits(g1: Word, g2: Word, num: nat)
    requires num <= 14
    requires forall i :: 0 <= i < 14 ==> g1[i] == g2[i]
    ensures FirstSetNum(g1, num) == FirstSetNum(g2, num)
    decreases 14 - num
  {
    if num < 14 && !g1[num] {
      SearchDependsOnLowDigits(g1, g2, num + 1);
    }
  }

  lemma SeriesDependsOnLowDigits(g1: Word, g2: Word)
    requires forall i :: 0 <= i < 14 ==> g1[i] == g2[i]
    ensures SeriesDigits(g1) == SeriesDigits(g2)
  {
    SearchDependsOnLowDigits(g1, g2, 0);
  }

  lemma {:induction false} ZeroDigits(n: nat)
    ensures forall i :: 0 <= i < n ==> !BitsOf(0, n)[i]
  {
    if n > 0 {
      ZeroDigits(n - 1);
    }
  }

  lemma {:induction false} OnesDigits(n: nat, m: nat)
    requires m == Pow2(n) - 1
    ensures forall i :: 0 <= i < n ==> BitsOf(m, n)[i]
  {
    if n > 0 {
      assert m % 2 == 1 && m / 2 == Pow2(n - 1) - 1;
      OnesDigits(n - 1, m / 2);
      assert BitsOf(m, n) == [true] + BitsOf(m / 2, n - 1);
    }
  }

  /** Below `2^n`, a number with no set digit is 0. */
  lemma {:induction false} NoSetDigit(v: nat, n: nat)
    requires v < Pow2(n)
    requires forall i :: 0 <= i < n ==> !BitsOf(v, n)[i]
    ensures v == 0
  {
    if n > 0 {
      var t := BitsOf(v / 2, n - 1);
      assert BitsOf(v, n) == [v % 2 == 1] + t;
      assert !BitsOf(v, n)[0];
      forall i | 0 <= i < n - 1
        ensures !t[i]
      {
        assert t[i] == BitsOf(v, n)[i + 1];
      }
      NoSetDigit(v / 2, n - 1);
    }
  }

  /** Below `2^n`, a number with no clear digit is `2^n - 1`. */
  lemma {:induction false} NoClearDigit(v: nat, n: nat)
    requires v < Pow2(n)
    requires forall i :: 0 <= i < n ==> BitsOf(v, n)[i]
    ensures v == Pow2(n) - 1
  {
    if n > 0 {
      var t := BitsOf(v / 2, n - 1);
      assert BitsOf(v, n) == [v % 2 == 1] + t;
      assert BitsOf(v, n)[0];
      forall i | 0 <= i < n - 1
        ensures t[i]
      {
        assert t[i] == BitsOf(v, n)[i + 1];
      }
      NoClearDigit(v / 2, n - 1);
    }
  }

  predicate AllClear(bits: seq<bool>)
  {
    forall i :: 0 <= i < |bits| ==> !bits[i]
  }

  predicate AllSet(bits: seq<bool>)
  {
    forall i :: 0 <= i < |bits| ==> bits[i]
  }

  /** Below `2^n`, only 0 has no set digit. */
  lemma ZeroIffNoSetDigit(v: nat, n: nat)
    requires v < Pow2(n)
    ensures AllClear(BitsOf(v, n)) <==> v == 0
  {
    if AllClear(BitsOf(v, n)) {
      NoSetDigit(v, n);
    }
    if v == 0 {
      ZeroDigits(n);
    }
  }

  /** Below `2^n`, only `2^n - 1` has no clear digit. */
  lemma OnesIffNoClearDigit(v: nat, n: nat)
    requires v < Pow2(n)
    ensures AllSet(BitsOf(v, n)) <==> v == Pow2(n) - 1
  {
    if AllSet(BitsOf(v, n)) {
      NoClearDigit(v, n);
    }
    if v == Pow2(n) - 1 {
      OnesDigits(n, v);
    }
  }

  /** Equal neighbours from digit 0 up to digit `n` make those digits all equal to digit 0. */
  lemma {:induction false} EqualNeighbours(b: Word, n: nat)
    requires n < 16
    requires forall i :: 0 <= i < n ==> b[i] == b[i + 1]
    ensures forall i :: 0 <= i <= n ==> b[i] == b[0]
  {
    if n > 0 {
      EqualNeighbours(b, n - 1);
      assert b[n] == b[n - 1];
    }
  }

  /** Digits 0..k-1 of `w` all agree with digit 0. */
  predicate UniformBelow(w: Word, k: nat)
    requires 0 < k <= 16
  {
    forall i :: 0 <= i < k ==> w[i] == w[0]
  }

  /** Gray digits 0..k-2 all vanish exactly when digits 0..k-1 agree. */
  lemma GrayClearBelow(b: Word, k: nat)
    requires 0 < k <= 16
    ensures AllClear(GrayCode(b)[..k - 1]) <==> UniformBelow(b, k)
  {
    var g := GrayCode(b)[..k - 1];
    if AllClear(g) {
      assert forall i :: 0 <= i < k - 1 ==> b[i] == b[i + 1] by {
        forall i | 0 <= i < k - 1 ensures b[i] == b[i + 1] {
          assert !g[i];
        }
      }
      EqualNeighbours(b, k - 1);
    }
  }

  /** Digits 0..k-1 of a phase are the digits of its remainder modulo `2^k`. */
  lemma LowDigits(x: Phase16, k: nat, lo: nat, hi: nat)
    requires k <= 16 && lo < Pow2(k) && x == lo + Pow2(k) * hi
    ensures Bits(x)[..k] == BitsOf(lo, k)
  {
    BitsOfSplit(lo, hi, k, 16);
    assert Bits(x) == BitsOf(lo, k) + BitsOf(hi, 16 - k);
  }

  /** Digits 0..k-1 of a phase agree exactly when its remainder modulo `2^k` is 0 or `2^k - 1`. */
  lemma UniformBelowIff(x: Phase16, k: nat, lo: nat, hi: nat)
    requires 0 < k <= 16 && lo < Pow2(k) && x == lo + Pow2(k) * hi
    ensures UniformBelow(Bits(x), k) <==> lo == 0 || lo == Pow2(k) - 1
  {
    var d := BitsOf(lo, k);
    LowDigits(x, k, lo, hi);
    assert forall i :: 0 <= i < k ==> Bits(x)[i] == d[i] by {
      forall i | 0 <= i < k ensures Bits(x)[i] == d[i] {
        assert Bits(x)[..k][i] == d[i];
      }
    }
    ZeroIffNoSetDigit(lo, k);
    OnesIffNoClearDigit(lo, k);
    if UniformBelow(Bits(x), k) {
      if d[0] {
        assert AllSet(d);
      } else {
        assert AllClear(d);
      }
    }
  }

  /** The eight special phases are those that are 0 or -1 modulo 0x4000. */
  lemma SpecialIsQuarterEdge(x: Phase16)
    ensures IsSpecial(x) <==> x % 0x4000 == 0 || x % 0x4000 == 0x3FFF
  {
    var q := x / 0x4000;
    assert x == 0x4000 * q + x % 0x4000;
    assert 0 <= q < 4;
  }

  /** The search ends at 14, so that the series runs no step, exactly when Gray digits 0..12 are clear. */
  lemma NoStepIffClear(g: Word)
    ensures FirstSetNum(g, 0) == 14 <==> AllClear(g[..13])
  {
    var r := FirstSetNum(g, 0);
    if !AllClear(g[..13]) {
      var i :| 0 <= i < 13 && g[..13][i];
      assert g[i];
      assert r - 1 <= i;
    } else {
      assert forall i :: 0 <= i < 13 ==> !g[i] by {
        forall i | 0 <= i < 13 ensures !g[i] {
          assert !g[..13][i];
        }
      }
    }
  }

  /**
   * The special-case table covers exactly the phases at which the general
   * path runs no step of the power series: the loop that finds the first
   * set digit reaches 14 there.
   */
  lemma SpecialIffNoSeriesStep(x: Phase16)
    ensures IsSpecial(x) <==> |SeriesDigits(Gray(x))| == 0
  {
    var b := Bits(x);
    GrayIsGrayCode(x);
    NoStepIffClear(Gray(x));
    assert Gray(x)[..13] == GrayCode(b)[..13];
    GrayClearBelow(b, 14);
    Pow2Values();
    UniformBelowIff(x, 14, x % 0x4000, x / 0x4000);
    SpecialIsQuarterEdge(x);
  }

  /**
   * Without the table the general path would answer 0 at every special
   * phase: right at the quarter points, wrong at the cycle ends and the half.
   */
  lemma GeneralValueAtSpecial(x: Phase16, power: real, pow: PowFn)
    requires IsSpecial(x)
    ensures GeneralValue(x, power, pow) == 0.0
    ensures WaveValue(x, power, pow) == GeneralValue(x, power, pow) <==>
            x == 0x3FFF || x == 0x4000 || x == 0xBFFF || x == 0xC000
  {
    SpecialIffNoSeriesStep(x);
  }

  // ---------------------------------------------------------------------
  // Range and sign
  // ---------------------------------------------------------------------

  /** Each step keeps the running value in [0, 1] when `powf` maps [0, 1] into itself. */
  lemma {:induction false} SeriesInUnit(bits: seq<bool>, r: real, power: real, pow: PowFn)
    requires PowMapsUnitInterval(pow) && 0.0 < power
    requires 0.0 <= r <= 1.0
    ensures 0.0 <= Series(bits, r, power, pow) <= 1.0
    decreases |bits|
  {
    if |bits| > 0 {
      var r' := SeriesStep(bits[0], r, power, pow);
      assert 0.0 <= r' <= 1.0;
      SeriesInUnit(bits[1..], r', power, pow);
    }
  }

  /** The waveform stays in [-1, 1]. */
  lemma WaveBounded(x: Phase16, power: real, pow: PowFn)
    requires PowMapsUnitInterval(pow) && 0.0 < power
    ensures -1.0 <= WaveValue(x, power, pow) <= 1.0
  {
    SeriesInUnit(SeriesDigits(Gray(x)), 0.0, power, pow);
  }

  /**
   * Off the table, the value is the magnitude of the series, negated on the
   * middle half of the cycle.
   */
  lemma WaveSign(x: Phase16, power: real, pow: PowFn)
    requires !IsSpecial(x)
    ensures WaveValue(x, power, pow) ==
            if 0x4000 <= x < 0xC000 then -Magnitude(x, power, pow) else Magnitude(x, power, pow)
  {
    GraySignDigit(x);
  }

  /** Off the table the series runs at least one step, from the lowest set Gray digit upward. */
  lemma SeriesStartsAtLowestSetDigit(x: Phase16)
    requires !IsSpecial(x)
    ensures var num := FirstSetNum(Gray(x), 0);
            && 1 <= num < 14
            && Gray(x)[num - 1]
            && (forall i :: 0 <= i < num - 1 ==> !Gray(x)[i])
  {
    SpecialIffNoSeriesStep(x);
  }

  /** Whole turns of the phase do not change the quantised phase. */
  lemma QuantisePeriodic(phase: real, k: int)
    ensures Quantise(phase + k as real) == Quantise(phase)
  {
    assert (phase + k as real).Floor == phase.Floor + k;
  }

  // ---------------------------------------------------------------------
  // Symmetries of the cycle
  // ---------------------------------------------------------------------

  /** Two words whose Gray codes agree on digits 0..14 give the same general value. */
  lemma SameGeneralValue(x: Phase16, y: Phase16, power: real, pow: PowFn)
    requires forall i :: 0 <= i < 15 ==> Gray(x)[i] == Gray(y)[i]
    ensures GeneralValue(x, power, pow) == GeneralValue(y, power, pow)
  {
    SeriesDependsOnLowDigits(Gray(x), Gray(y));
  }

  /** Mirroring the phase, `0xFFFF - x`, leaves the sample unchanged: the wave is even. */
  lemma WaveReflection(x: Phase16, power: real, pow: PowFn)
    ensures WaveValue(0xFFFF - x, power, pow) == WaveValue(x, power, pow)
  {
    var y: Phase16 := 0xFFFF - x;
    Pow2Values();
    BitsOfComplement(x, 16);
    GrayIsGrayCode(x);
    GrayIsGrayCode(y);
    assert forall i :: 0 <= i < 16 ==> Bits(y)[i] == !Bits(x)[i];
    SameGeneralValue(x, y, power, pow);
  }

  /** Half a cycle on, digits 0..14 are those of `x` and digit 15 is complemented. */
  lemma HalfTurnDigits(x: Phase16, y: Phase16)
    requires y == (x + 0x8000) % 0x10000
    ensures forall i :: 0 <= i < 15 ==> Bits(y)[i] == Bits(x)[i]
    ensures Bits(y)[15] != Bits(x)[15]
  {
    Pow2Values();
    var lo, top := x % 0x8000, x / 0x8000;
    var top' := 1 - top;
    assert x == lo + 0x8000 * top && (top == 0 || top == 1);
    assert y == lo + 0x8000 * top';
    BitsOfSplit(lo, top, 15, 16);
    BitsOfSplit(lo, top', 15, 16);
    assert Bits(x) == BitsOf(lo, 15) + [top == 1];
    assert Bits(y) == BitsOf(lo, 15) + [top' == 1];
  }

  /** The general path changes sign half a cycle on. */
  lemma GeneralHalfTurn(x: Phase16, y: Phase16, power: real, pow: PowFn)
    requires y == (x + 0x8000) % 0x10000
    ensures GeneralValue(y, power, pow) == -GeneralValue(x, power, pow)
  {
    HalfTurnDigits(x, y);
    GrayIsGrayCode(x);
    GrayIsGrayCode(y);
    assert forall i :: 0 <= i < 14 ==> Gray(y)[i] == Gray(x)[i];
    assert Gray(y)[14] != Gray(x)[14];
    SeriesDependsOnLowDigits(Gray(x), Gray(y));
  }

  /** Half a cycle on, `(x + 0x8000) mod 0x10000`, the sample changes sign. */
  lemma WaveHalfTurn(x: Phase16, power: real, pow: PowFn)
    ensures WaveValue((x + 0x8000) % 0x10000, power, pow) == -WaveValue(x, power, pow)
  {
    var y: Phase16 := (x + 0x8000) % 0x10000;
    assert y == if x < 0x8000 then x + 0x8000 else x - 0x8000;
    assert IsSpecial(y) <==> IsSpecial(x);
    if !IsSpecial(x) {
      GeneralHalfTurn(x, y, power, pow);
    }
  }

  /** The only digit of `2^k` that is set is digit `k`. */
  lemma {:induction false} PowerDigits(k: nat, n: nat)
    ensures forall i :: 0 <= i < n ==> (BitsOf(Pow2(k), n)[i] <==> i == k)
    decreases n
  {
    if n > 0 {
      var rest := BitsOf(Pow2(k) / 2, n - 1);
      assert BitsOf(Pow2(k), n) == [Pow2(k) % 2 == 1] + rest;
      if k == 0 {
        ZeroDigits(n - 1);
      } else {
        assert Pow2(k) / 2 == Pow2(k - 1);
        PowerDigits(k - 1, n - 1);
      }
    }
  }

  /** The only digit of phase 0x1000 that is set is digit 12. */
  lemma SixteenthTurnDigits(x: Phase16)
    requires x == 0x1000
    ensures forall i :: 0 <= i < 16 ==> (Bits(x)[i] <==> i == 12)
  {
    assert Pow2(12) == x;
    PowerDigits(12, 16);
  }

  /** The Gray digits of phase 0x1000 that are set are digits 11 and 12. */
  lemma SixteenthTurnGray(x: Phase16)
    requires x == 0x1000
    ensures forall i :: 0 <= i < 16 ==> (Gray(x)[i] <==> i == 11 || i == 12)
  {
    SixteenthTurnDigits(x);
    GrayIsGrayCode(x);
  }

  /** With Gray digits 11 and 12 set, the search stops at digit 12, so the series visits digits 12 and 13. */
  lemma SearchPastDigitEleven(g: Word)
    requires forall i :: 0 <= i < 16 ==> (g[i] <==> i == 11 || i == 12)
    ensures SeriesDigits(g) == [true, false]
  {
    var num := FirstSetNum(g, 0);
    assert g[11] && g[12] && !g[13];
    assert g[num - 1];
  }

  /** Off the table, a series over a set digit and then a clear one folds `1 - 0` and then `1 + r`. */
  lemma WaveOfSetThenClear(x: Phase16, power: real, pow: PowFn)
    requires !IsSpecial(x) && !Gray(x)[14]
    requires SeriesDigits(Gray(x)) == [true, false]
    ensures WaveValue(x, power, pow) == pow((1.0 + pow(0.5, power)) / 2.0, power)
  {
    var r1 := SeriesStep(true, 0.0, power, pow);
    assert r1 == pow(0.5, power);
    assert Series([true, false], 0.0, power, pow) == Series([false], r1, power, pow);
    assert Series([false], r1, power, pow) == SeriesStep(false, r1, power, pow);
  }

  /**
   * A sixteenth of a turn, phase 0x1000: the Gray digits set are 11 and 12,
   * so the series folds `1 - r` on digit 12 and then `1 + r` on digit 13.
   * With `pow` the real power function and power 1/2, so that each step is
   * a square root, this is the half-angle step from cos(pi/4) to cos(pi/8).
   */
  lemma WaveAtSixteenthTurn(x: Phase16, power: real, pow: PowFn)
    requires x == 0x1000
    ensures WaveValue(x, power, pow) == pow((1.0 + pow(0.5, power)) / 2.0, power)
  {
    SixteenthTurnGray(x);
    SearchPastDigitEleven(Gray(x));
    assert !Gray(x)[14];
    WaveOfSetThenClear(x, power, pow);
  }
}
