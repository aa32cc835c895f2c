/**
 * Register map and channel-control encoding of the Kinetic KTD2026/KTD2027
 * LED driver chips: ten byte registers, a 2-bit mode field per channel in
 * the channel-control register, and the read-modify-write that the
 * register cache performs for `update_bits`.
 */
module Registers {

  /** The chips have at most four channels (KTD2027); the KTD2026 has three. */
  const MaxLeds: nat := 4

  /** Addresses 0x00..0x09 exist; 0x09 is the highest one. */
  const MaxRegister: nat := 0x09
  const NumRegs: nat := MaxRegister + 1

  const RegResetControl: nat := 0x00
  const RegFlashPeriod: nat := 0x01
  const RegPwm1Timer: nat := 0x02
  const RegPwm2Timer: nat := 0x03
  const RegChannelCtrl: nat := 0x04
  const RegTriseFall: nat := 0x05

  /** The brightness (output current) register of channel `x`. */
  function Iout(x: nat): (r: nat)
    requires x < MaxLeds
    ensures RegTriseFall < r <= MaxRegister
  {
    0x06 + x
  }

  /** Values written to the reset/control register. */
  const RstrReset: bv8 := 0x07
  const EnableCtrlWake: bv8 := 0x00
  const EnableCtrlSleep: bv8 := 0x08

  /** Register contents after power-on, as the register cache is seeded. */
  const Defaults: seq<bv8> := [0x00, 0x00, 0x01, 0x01, 0x00, 0x00, 0x4f, 0x4f, 0x4f, 0x4f]

  /** The 2-bit mode codes of a channel-control field. */
  const ModeOff: bv8 := 0
  const ModeOn: bv8 := 1
  const ModePwm1: bv8 := 2
  const ModePwm2: bv8 := 3

  /** The position of channel `x`'s low bit in the channel-control register: 2x. */
  function Shift(x: nat): bv8
    requires x < MaxLeds
  {
    if x == 0 then 0 else if x == 1 then 2 else if x == 2 then 4 else 6
  }

  /** Channel-control bit patterns: channel `x` owns bits 2x and 2x+1. */
  function CtrlMask(x: nat): bv8
    requires x < MaxLeds
  {
    (1 << Shift(x)) | (1 << (Shift(x) + 1))
  }

  const CtrlOff: bv8 := 0

  function CtrlOn(x: nat): bv8
    requires x < MaxLeds
  {
    1 << Shift(x)
  }

  function CtrlPwm1(x: nat): bv8
    requires x < MaxLeds
  {
    1 << (Shift(x) + 1)
  }

  function CtrlPwm2(x: nat): bv8
    requires x < MaxLeds
  {
    (1 << Shift(x)) | (1 << (Shift(x) + 1))
  }

  /** The mode field of channel `x` in a channel-control value. */
  function Field(r: bv8, x: nat): bv8
    requires x < MaxLeds
  {
    (r >> Shift(x)) & 3
  }

  /** The value a cached read-modify-write stores: the bits under `mask` come from `val`, the others stay. */
  function MaskedUpdate(prev: bv8, mask: bv8, val: bv8): bv8
  {
    (prev & !mask) | (val & mask)
  }

  /**
   * Each pattern of channel `x` lies inside the mask of `x`, PWM2 fills it,
   * OFF is OFF everywhere, and the masks of two channels do not overlap.
   * The fields of the mask, ON and PWM1 patterns are given by PatternFields.
   */
  lemma ControlPatterns(x: nat, y: nat)
    requires x < MaxLeds && y < MaxLeds
    ensures CtrlOn(x) & !CtrlMask(x) == 0 && CtrlPwm1(x) & !CtrlMask(x) == 0 && CtrlPwm2(x) == CtrlMask(x)
    ensures Field(CtrlOff, y) == ModeOff
    ensures Field(CtrlPwm2(x), y) == (if y == x then ModePwm2 else ModeOff)
    ensures x != y ==> CtrlMask(x) & CtrlMask(y) == 0
  {
  }

  /** The fields of channel `x`'s patterns, as seen from channel `y`. */
  lemma PatternFields(x: nat, y: nat)
    requires x < MaxLeds && y < MaxLeds
    ensures Field(CtrlMask(x), y) == (if y == x then 3 else 0)
    ensures Field(CtrlOn(x), y) == (if y == x then ModeOn else ModeOff)
    ensures Field(CtrlPwm1(x), y) == (if y == x then ModePwm1 else ModeOff)
  {
  }

  /** A byte is determined by its four 2-bit channel fields. */
  lemma FieldsDetermine(a: bv8, b: bv8)
    requires forall d :: 0 <= d < MaxLeds ==> Field(a, d) == Field(b, d)
    ensures a == b
  {
    assert Field(a, 0) == Field(b, 0) && Field(a, 1) == Field(b, 1);
    assert Field(a, 2) == Field(b, 2) && Field(a, 3) == Field(b, 3);
  }

  /**
   * A masked update whose mask covers a channel's field entirely takes that field
   * from the value, and one whose mask misses the field leaves it as it was.
   */
  lemma MaskedUpdateField(prev: bv8, mask: bv8, val: bv8, d: nat)
    requires d < MaxLeds
    ensures Field(mask, d) == 3 ==> Field(MaskedUpdate(prev, mask, val), d) == Field(val, d)
    ensures Field(mask, d) == 0 ==> Field(MaskedUpdate(prev, mask, val), d) == Field(prev, d)
  {
    if d == 0 {
    } else if d == 1 {
    } else if d == 2 {
    } else {
    }
  }

  /** Updating channel `c`'s field sets that field to `val`'s and no other. */
  lemma UpdateChannel(prev: bv8, c: nat, val: bv8, d: nat)
    requires c < MaxLeds && d < MaxLeds
    ensures Field(MaskedUpdate(prev, CtrlMask(c), val), d) == if d == c then Field(val, c) else Field(prev, d)
  {
    PatternFields(c, d);
    MaskedUpdateField(prev, CtrlMask(c), val, d);
  }

  /** Field `d` of `acc` holds `code` for every listed channel and OFF for every other. */
  ghost predicate Covers(channels: seq<nat>, acc: bv8, code: bv8)
  {
    forall d :: 0 <= d < MaxLeds ==> Field(acc, d) == if d in channels then code else ModeOff
  }

  /** The union of the channel patterns of `channels`, one field per listed channel. */
  ghost predicate Union(channels: seq<nat>, mask: bv8, on: bv8, pwm1: bv8)
  {
    Covers(channels, mask, 3) && Covers(channels, on, ModeOn) && Covers(channels, pwm1, ModePwm1)
  }

  /** OR-ing in a pattern that holds `code` at channel `index` only extends the cover by `index`. */
  lemma CoversStep(channels: seq<nat>, index: nat, acc: bv8, pattern: bv8, code: bv8)
    requires index < MaxLeds && Covers(channels, acc, code) && Covers([index], pattern, code)
    ensures Covers(channels + [index], acc | pattern, code)
  {
    forall d | 0 <= d < MaxLeds
      ensures Field(acc | pattern, d) == if d in channels + [index] then code else ModeOff
    {
      assert (d in [index]) == (d == index);
      CoversStepAt(channels, index, acc, pattern, code, d);
    }
  }

  /** CoversStep at one channel `d`. */
  lemma CoversStepAt(channels: seq<nat>, index: nat, acc: bv8, pattern: bv8, code: bv8, d: nat)
    requires d < MaxLeds
    requires Field(acc, d) == (if d in channels then code else ModeOff)
    requires Field(pattern, d) == (if d == index then code else ModeOff)
    ensures Field(acc | pattern, d) == if d in channels + [index] then code else ModeOff
  {
    OrField(acc, pattern, d);
    OrCode(Field(acc, d), Field(pattern, d), code, d in channels, d == index);
    assert (d in channels + [index]) == (d in channels || d == index);
  }

  /** Each pattern of channel `x` covers exactly channel `x`. */
  lemma PatternCovers(x: nat)
    requires x < MaxLeds
    ensures Covers([x], CtrlMask(x), 3) && Covers([x], CtrlOn(x), ModeOn) && Covers([x], CtrlPwm1(x), ModePwm1)
  {
    forall d | 0 <= d < MaxLeds ensures (d in [x]) == (d == x) && Field(CtrlMask(x), d) == if d == x then 3 else ModeOff {
      PatternFields(x, d);
    }
    forall d | 0 <= d < MaxLeds ensures Field(CtrlOn(x), d) == if d == x then ModeOn else ModeOff {
      PatternFields(x, d);
    }
    forall d | 0 <= d < MaxLeds ensures Field(CtrlPwm1(x), d) == if d == x then ModePwm1 else ModeOff {
      PatternFields(x, d);
    }
  }

  /** Two fields that are each either `code` or OFF combine to `code` when either is. */
  lemma OrCode(f: bv8, g: bv8, code: bv8, a: bool, b: bool)
    requires f == (if a then code else ModeOff) && g == (if b then code else ModeOff)
    ensures f | g == if a || b then code else ModeOff
  {
  }

  /** The fields of two disjoint-or-overlapping patterns combine bitwise. */
  lemma OrField(a: bv8, b: bv8, d: nat)
    requires d < MaxLeds
    ensures Field(a | b, d) == Field(a, d) | Field(b, d)
  {
    if d == 0 {
    } else if d == 1 {
    } else if d == 2 {
    } else {
    }
  }

  /** The channel-control patterns of a group of channels, as one mask and two mode values. */
  datatype Ctrl = Ctrl(mask: bv8, on: bv8, pwm1: bv8)

  /** The patterns of `channels` OR-ed together in order. */
  function Combined(channels: seq<nat>): Ctrl
    requires forall i :: 0 <= i < |channels| ==> channels[i] < MaxLeds
  {
    if channels == [] then Ctrl(0, 0, 0)
    else
      var c := Combined(channels[..|channels| - 1]);
      var index := channels[|channels| - 1];
      Ctrl(c.mask | CtrlMask(index), c.on | CtrlOn(index), c.pwm1 | CtrlPwm1(index))
  }

  /** The combined mask selects exactly the listed channels' fields. */
  lemma {:induction false} CombinedMask(channels: seq<nat>)
    requires forall i :: 0 <= i < |channels| ==> channels[i] < MaxLeds
    ensures Covers(channels, Combined(channels).mask, 3)
  {
    if channels != [] {
      var prefix, index := channels[..|channels| - 1], channels[|channels| - 1];
      assert channels == prefix + [index];
      CombinedMask(prefix);
      PatternCovers(index);
      CoversStep(prefix, index, Combined(prefix).mask, CtrlMask(index), 3);
    }
  }

  /** The combined ON value sets exactly the listed channels to ON. */
  lemma {:induction false} CombinedOn(channels: seq<nat>)
    requires forall i :: 0 <= i < |channels| ==> channels[i] < MaxLeds
    ensures Covers(channels, Combined(channels).on, ModeOn)
  {
    if channels != [] {
      var prefix, index := channels[..|channels| - 1], channels[|channels| - 1];
      assert channels == prefix + [index];
      CombinedOn(prefix);
      PatternCovers(index);
      CoversStep(prefix, index, Combined(prefix).on, CtrlOn(index), ModeOn);
    }
  }

  /** The combined PWM1 value sets exactly the listed channels to PWM1. */
  lemma {:induction false} CombinedPwm1(channels: seq<nat>)
    requires forall i :: 0 <= i < |channels| ==> channels[i] < MaxLeds
    ensures Covers(channels, Combined(channels).pwm1, ModePwm1)
  {
    if channels != [] {
      var prefix, index := channels[..|channels| - 1], channels[|channels| - 1];
      assert channels == prefix + [index];
      CombinedPwm1(prefix);
      PatternCovers(index);
      CoversStep(prefix, index, Combined(prefix).pwm1, CtrlPwm1(index), ModePwm1);
    }
  }

  /**
   * A masked update with a group's combined mask and value sets every listed
   * channel to the group's mode and leaves every other channel as it was.
   */
  lemma GroupUpdate(channels: seq<nat>, mask: bv8, val: bv8, code: bv8, prev: bv8, d: nat)
    requires d < MaxLeds && Covers(channels, mask, 3) && Covers(channels, val, code)
    ensures Field(MaskedUpdate(prev, mask, val), d) == if d in channels then code else Field(prev, d)
  {
    MaskedUpdateField(prev, mask, val, d);
    assert Field(mask, d) == if d in channels then 3 else 0;
    assert Field(val, d) == if d in channels then code else ModeOff;
  }

  /**
   * OR together the mask, ON and PWM1 patterns of every listed channel, as a
   * multicolour LED does before programming one blink for all its channels.
   */
  method CombineMasks(channels: seq<nat>) returns (mask: bv8, on: bv8, pwm1: bv8)
    requires forall i :: 0 <= i < |channels| ==> channels[i] < MaxLeds
    ensures Ctrl(mask, on, pwm1) == Combined(channels)
    ensures Union(channels, mask, on, pwm1)
  {
    mask, on, pwm1 := 0, 0, 0;
    var i := 0;
    while i < |channels|
      invariant 0 <= i <= |channels|
      invariant Ctrl(mask, on, pwm1) == Combined(channels[..i])
    {
      var index := channels[i];
      mask := mask | CtrlMask(index);
      on := on | CtrlOn(index);
      pwm1 := pwm1 | CtrlPwm1(index);
      assert channels[..i + 1][..i] == channels[..i];
      i := i + 1;
    }
    assert channels[..i] == channels;
    CombinedMask(channels);
    CombinedOn(channels);
    CombinedPwm1(channels);
  }
}
