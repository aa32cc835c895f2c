/**
 * Blink timing arithmetic of the KTD202x driver: a requested on/off time in
 * milliseconds becomes a flash-period step count (each step is 128 ms above a
 * 256 ms floor) and a PWM1 duty byte (the on share of the period, in 1/256),
 * and the achievable on/off times are computed back from those two values.
 *
 * The delays are C `unsigned long` values (64 bits, as on a 64-bit kernel)
 * and the step count a C `int` (32 bits); the wrap-around of the unsigned subtraction and the
 * truncation to `int` are written out, since they decide the result for
 * periods shorter than 256 ms.
 */
module Quantizer {

  const TimeMin: nat := 256
  const TimeStep: nat := 128
  const OnMax: nat := 256
  const MaxSteps: int := 126

  /** 2^64: the range of an `unsigned long`. */
  const ULongModulus: nat := 0x1_0000_0000_0000_0000
  /** 2^32: the range of an `int`. */
  const IntModulus: nat := 0x1_0000_0000
  /**
   * The largest sum of the two delays up to which the step count, truncated
   * to `int`, follows the request. Beyond it the truncated count is negative
   * (first at 2^38 + 128, where `num_steps * 128` can also overflow `int`),
   * and it then wraps around every 2^39 ms, so the programmed period no
   * longer follows the request.
   */
  const MaxDelaySum: nat := 0x40_0000_007F

  function Min(a: int, b: int): int
  {
    if a <= b then a else b
  }

  /** Conversion of an unsigned value to a 32-bit `int`: keep the low 32 bits as two's complement. */
  function ToInt32(x: nat): (r: int)
    ensures -0x8000_0000 <= r < 0x8000_0000
    ensures (x - r) % IntModulus == 0
  {
    var low := x % IntModulus;
    if low < 0x8000_0000 then low else low - IntModulus
  }

  /** The inputs the blink arithmetic is applied to: the LED is not steadily on, and the sum is in range. */
  predicate Quantizable(delayOn: nat, delayOff: nat)
  {
    0 < delayOff && delayOn + delayOff <= MaxDelaySum
  }

  /**
   * The register values and the achieved timing: `steps` for the flash-period
   * register, `duty` for the PWM1 timer register, and the on/off times written
   * back to the caller.
   */
  datatype Timing = Timing(steps: int, duty: int, on: int, off: int)
  {
    /** The period the achieved times add up to. */
    function Total(): int
    {
      steps * TimeStep + TimeMin
    }
  }

  /** The driver's conversion, step by step as the C arithmetic evaluates it. */
  function Quantize(delayOn: nat, delayOff: nat): Timing
    requires Quantizable(delayOn, delayOff)
  {
    var sum := delayOn + delayOff;
    // unsigned long subtraction and division, then conversion to int, then the upper clamp
    var steps := Min(MaxSteps, ToInt32((sum - TimeMin) % ULongModulus / TimeStep + 1));
    var duty := delayOn * OnMax / sum;
    var total := steps * TimeStep + TimeMin;
    var on := total * duty / OnMax;
    Timing(steps, duty, on, total - on)
  }

  /** One past the largest covered sum, the step count the driver computes is a negative `int`. */
  lemma StepsOverflowBeyondBound()
    ensures ToInt32((MaxDelaySum + 1 - TimeMin) % ULongModulus / TimeStep + 1) < 0
  {
    assert (MaxDelaySum + 1 - TimeMin) % ULongModulus / TimeStep + 1 == 0x8000_0000;
  }

  /** The truncated step count wraps around: a sum of 2^39 + 256 ms gives the one step of a 256 ms period. */
  lemma StepsWrapAround()
    ensures ToInt32((0x80_0000_0100 - TimeMin) % ULongModulus / TimeStep + 1) == 1
    ensures ToInt32((TimeMin - TimeMin) % ULongModulus / TimeStep + 1) == 1
  {
    assert (0x80_0000_0100 - TimeMin) % ULongModulus / TimeStep + 1 == 0x1_0000_0001;
  }

  /** A period of at least 256 ms: no wrap-around, and the step count is the floor formula clamped to 1..126. */
  lemma StepsInWindow(delayOn: nat, delayOff: nat)
    requires Quantizable(delayOn, delayOff) && TimeMin <= delayOn + delayOff
    ensures Quantize(delayOn, delayOff).steps == Min(MaxSteps, (delayOn + delayOff - TimeMin) / TimeStep + 1)
    ensures 1 <= Quantize(delayOn, delayOff).steps <= MaxSteps
  {
    var sum := delayOn + delayOff;
    assert (sum - TimeMin) % ULongModulus == sum - TimeMin;
    var raw := (sum - TimeMin) / TimeStep + 1;
    assert 1 <= raw < 0x8000_0000;
    assert ToInt32(raw) == raw;
  }

  /**
   * A period shorter than 256 ms: the unsigned subtraction wraps and the
   * truncation to `int` leaves -1 (below 128 ms) or 0 (128..255 ms), both
   * outside the 1..126 range of the other periods.
   */
  lemma StepsOfShortPeriod(delayOn: nat, delayOff: nat)
    requires Quantizable(delayOn, delayOff) && delayOn + delayOff < TimeMin
    ensures Quantize(delayOn, delayOff).steps == if delayOn + delayOff < TimeStep then -1 else 0
  {
    var sum := delayOn + delayOff;
    var wrapped := ULongModulus - TimeMin + sum;
    assert (sum - TimeMin) % ULongModulus == wrapped;
    var k := 0x1FF_FFFF_FFFF_FFFE; // (2^64 - 256) / 128
    assert k * TimeStep == ULongModulus - TimeMin;
    DivAddMultiple(sum, k, TimeStep);
    var raw := wrapped / TimeStep + 1;
    assert raw == k + sum / TimeStep + 1;
    var q := 0x200_0000; // 2^57 / 2^32
    assert k + 2 == q * IntModulus;
    if sum < TimeStep {
      assert raw == (q - 1) * IntModulus + (IntModulus - 1);
      DivUnique(raw, IntModulus, q - 1, IntModulus - 1);
    } else {
      assert raw == q * IntModulus + 0;
      DivUnique(raw, IntModulus, q, 0);
    }
  }

  /** (k*m + a) / m == k + a / m for a non-negative a. */
  lemma DivAddMultiple(a: nat, k: nat, m: nat)
    requires 0 < m
    ensures (k * m + a) / m == k + a / m
  {
    var q, r := a / m, a % m;
    assert k * m + a == (k + q) * m + r;
    DivUnique(k * m + a, m, k + q, r);
  }

  /** Division is determined by quotient and remainder. */
  lemma DivUnique(x: int, m: int, q: int, r: int)
    requires 0 < m && 0 <= r < m && x == q * m + r
    ensures x / m == q && x % m == r
  {
    var q0, r0 := x / m, x % m;
    assert (q - q0) * m == r0 - r;
    if q0 < q {
      MulMono(1, q - q0, m);
      assert false;
    }
    if q < q0 {
      MulMono(1, q0 - q, m);
      assert false;
    }
  }

  /** The duty byte is the floor of the on share in 1/256 and never reaches 256. */
  lemma DutyFitsByte(delayOn: nat, delayOff: nat)
    requires Quantizable(delayOn, delayOff)
    ensures var t := Quantize(delayOn, delayOff);
      0 <= t.duty < OnMax &&
      t.duty * (delayOn + delayOff) <= delayOn * OnMax < (t.duty + 1) * (delayOn + delayOff)
  {
    ShareBelow(delayOn, delayOn + delayOff, OnMax);
  }

  /** For a < s, the floor of a * c / s lies in 0..c-1 and brackets a * c between multiples of s. */
  lemma ShareBelow(a: nat, s: nat, c: nat)
    requires a < s && 0 < c
    ensures 0 <= a * c / s < c
    ensures (a * c / s) * s <= a * c < (a * c / s + 1) * s
  {
    var q := a * c / s;
    FloorDiv(a * c, s);
    MulStrict(a, s, c);
    assert q * s < c * s;
    MulLessCancel(q, c, s);
  }

  /** The quotient and remainder of Euclidean division by a positive divisor. */
  lemma FloorDiv(x: nat, d: nat)
    requires 0 < d
    ensures 0 <= x / d && (x / d) * d <= x < (x / d + 1) * d
  {
    assert x == (x / d) * d + x % d;
  }

  /** a <= b ==> a * c <= b * c for non-negative c. */
  lemma MulMono(a: int, b: int, c: nat)
    requires a <= b
    ensures a * c <= b * c
  {
    assert b * c - a * c == (b - a) * c;
  }

  /** a < b ==> a * c < b * c for positive c. */
  lemma MulStrict(a: int, b: int, c: nat)
    requires a < b && 0 < c
    ensures a * c < b * c
  {
    assert b * c - a * c == (b - a) * c;
    MulMono(1, b - a, c);
  }

  /** a * c < b * c with c > 0 ==> a < b. */
  lemma MulLessCancel(a: int, b: int, c: nat)
    requires 0 < c && a * c < b * c
    ensures a < b
  {
    if b <= a {
      MulMono(b, a, c);
      assert false;
    }
  }

  /** Every period the driver reports is at least 128 ms. */
  lemma StepsAtLeastMinusOne(delayOn: nat, delayOff: nat)
    requires Quantizable(delayOn, delayOff)
    ensures Quantize(delayOn, delayOff).steps >= -1
  {
    if delayOn + delayOff < TimeMin {
      StepsOfShortPeriod(delayOn, delayOff);
    } else {
      StepsInWindow(delayOn, delayOff);
    }
  }

  /**
   * The achieved on/off times add up to the period the step count encodes;
   * the on time is the duty share of it, rounded down, and the off time is
   * never zero.
   */
  lemma AchievedTiming(delayOn: nat, delayOff: nat)
    requires Quantizable(delayOn, delayOff)
    ensures var t := Quantize(delayOn, delayOff);
      t.on + t.off == t.Total() && t.Total() >= TimeStep &&
      t.on == t.Total() * t.duty / OnMax &&
      0 <= t.on < t.Total() && 0 < t.off
  {
    var t := Quantize(delayOn, delayOff);
    StepsAtLeastMinusOne(delayOn, delayOff);
    DutyFitsByte(delayOn, delayOff);
    var total := t.Total();
    assert total >= TimeStep;
    MulMono(t.duty, OnMax - 1, total);
    assert total * t.duty <= total * (OnMax - 1);
    DivBelow(total * t.duty, total, OnMax);
  }

  /** 0 <= x <= n * (m - 1) and 0 < n ==> x / m < n. */
  lemma DivBelow(x: nat, n: nat, m: nat)
    requires 0 < n && 0 < m && x <= n * (m - 1)
    ensures x / m < n
  {
    var q := x / m;
    assert n * (m - 1) == n * m - n;
    if q >= n {
      MulMono(n, q, m);
      assert false;
    }
  }

  /** For periods of at least 256 ms, the achieved period is 384..16384 ms, 256 ms plus whole 128 ms steps. */
  lemma AchievedPeriodInWindow(delayOn: nat, delayOff: nat)
    requires Quantizable(delayOn, delayOff) && TimeMin <= delayOn + delayOff
    ensures var t := Quantize(delayOn, delayOff);
      TimeMin + TimeStep <= t.on + t.off <= TimeMin + MaxSteps * TimeStep &&
      (t.on + t.off - TimeMin) % TimeStep == 0
  {
    StepsInWindow(delayOn, delayOff);
    AchievedTiming(delayOn, delayOff);
  }

  /**
   * The achieved on share approximates the requested one: it never exceeds
   * it, and falls short by less than one millisecond of the period plus 1/256
   * of the period.
   */
  lemma AchievedRatio(delayOn: nat, delayOff: nat)
    requires Quantizable(delayOn, delayOff)
    ensures var t := Quantize(delayOn, delayOff); var sum := delayOn + delayOff;
      t.on * sum <= t.Total() * delayOn &&
      t.Total() * delayOn * OnMax < ((t.on + 1) * OnMax + t.Total()) * sum
  {
    var t := Quantize(delayOn, delayOff);
    AchievedTiming(delayOn, delayOff);
    DutyFitsByte(delayOn, delayOff);
    RatioBounds(delayOn, delayOn + delayOff, t.Total(), t.duty, t.on);
  }

  /**
   * The arithmetic behind AchievedRatio: with duty = a * 256 / s and
   * on = T * duty / 256, on / T lies within (1 + T/256) / T below a / s.
   */
  lemma RatioBounds(a: nat, s: nat, total: nat, duty: nat, on: nat)
    requires 0 < s && 0 < total
    requires duty * s <= a * OnMax < (duty + 1) * s
    requires on == total * duty / OnMax
    ensures on * s <= total * a
    ensures total * a * OnMax < ((on + 1) * OnMax + total) * s
  {
    FloorDiv(total * duty, OnMax);
    // lower side: on * 256 * s <= total * duty * s <= total * a * 256
    MulMono(on * OnMax, total * duty, s);
    MulMono(duty * s, a * OnMax, total);
    assert on * OnMax * s == (on * s) * OnMax;
    assert total * duty * s == duty * s * total;
    assert a * OnMax * total == (total * a) * OnMax;
    MulCancel(on * s, total * a, OnMax);
    // upper side: total * a * 256 < total * (duty + 1) * s <= ((on + 1) * 256 + total) * s
    MulStrict(a * OnMax, (duty + 1) * s, total);
    assert a * OnMax * total == total * a * OnMax;
    assert (duty + 1) * s * total == (total * duty) * s + total * s;
    MulMono(total * duty, (on + 1) * OnMax, s);
    assert ((on + 1) * OnMax + total) * s == (on + 1) * OnMax * s + total * s;
  }

  /** a * c <= b * c with c > 0 ==> a <= b. */
  lemma MulCancel(a: int, b: int, c: nat)
    requires 0 < c && a * c <= b * c
    ensures a <= b
  {
    assert (b + 1) * c == b * c + c;
    if a > b {
      MulMono(b + 1, a, c);
      assert false;
    }
  }

  /** A blinking request the chip can express: quantizable, with a period of at least 128 ms. */
  predicate Blinkable(delayOn: nat, delayOff: nat)
  {
    Quantizable(delayOn, delayOff) && TimeStep <= delayOn + delayOff
  }

  /** For such a request the step count (0..126) and the duty (0..255) fit the byte-wide registers. */
  lemma BlinkRegistersFit(delayOn: nat, delayOff: nat)
    requires Blinkable(delayOn, delayOff)
    ensures var t := Quantize(delayOn, delayOff); 0 <= t.steps <= MaxSteps && 0 <= t.duty < OnMax
  {
    if delayOn + delayOff < TimeMin {
      StepsOfShortPeriod(delayOn, delayOff);
    } else {
      StepsInWindow(delayOn, delayOff);
    }
    DutyFitsByte(delayOn, delayOff);
  }

  /** The default 1 Hz request (500 ms on, 500 ms off) becomes 6 steps at half duty: 512 ms on, 512 ms off. */
  lemma DefaultBlink()
    ensures Quantize(500, 500) == Timing(6, 128, 512, 512)
  {
    StepsInWindow(500, 500);
  }

  /**
   * Re-requesting the achieved timing does not reproduce it: below the clamp
   * the step count of the reported period is one higher than the one that
   * produced it.
   */
  lemma RequantizeAddsStep(delayOn: nat, delayOff: nat)
    requires Quantizable(delayOn, delayOff) && TimeMin <= delayOn + delayOff
    requires Quantize(delayOn, delayOff).steps < MaxSteps
    ensures var t := Quantize(delayOn, delayOff);
      t.on >= 0 && t.off >= 0 && Quantizable(t.on, t.off) && Quantize(t.on, t.off).steps == t.steps + 1
  {
    var t := Quantize(delayOn, delayOff);
    StepsInWindow(delayOn, delayOff);
    AchievedTiming(delayOn, delayOff);
    assert t.on + t.off == t.steps * TimeStep + TimeMin;
    StepsInWindow(t.on, t.off);
    assert (t.on + t.off - TimeMin) / TimeStep == t.steps;
  }
}
