/**
 * One KTD2026/KTD2027 chip as the driver sees it: the cached register file,
 * the `enabled` power flag, the driver's outstanding enables of the supply
 * regulator, and the brightness each registered LED device holds. Register
 * transfers and regulator calls may fail; each such outcome is chosen by the
 * environment (a nondeterministic negative error code or 0).
 */
module Ktd202x {
  import opened Registers
  import opened Quantizer
  import opened Config

  /** Brightness values of the LED class (LED_OFF, LED_FULL). */
  const LedOff: nat := 0
  const LedFull: nat := 255

  /** The blink delay used for both halves when a blink request gives neither. */
  const DefaultDelay: nat := 500

  /** One channel of a brightness request. */
  datatype Subled = Subled(channel: nat, brightness: nat)

  predicate SubledOk(s: Subled, numLeds: nat)
  {
    s.channel < numLeds && numLeds <= MaxLeds && s.brightness <= LedFull
  }

  predicate SubledsOk(ss: seq<Subled>, numLeds: nat)
  {
    forall i :: 0 <= i < |ss| ==> SubledOk(ss[i], numLeds)
  }

  /** The channels a request names, in order. */
  function Channels(ss: seq<Subled>): (cs: seq<nat>)
    ensures |cs| == |ss| && forall i :: 0 <= i < |ss| ==> cs[i] == ss[i].channel
  {
    seq(|ss|, i requires 0 <= i < |ss| => ss[i].channel)
  }

  /** The IOUT register value for a brightness: one less than it, and 0 when off. */
  function IoutLevel(b: nat): bv8
    requires b <= LedFull
  {
    if b == 0 then 0 else b as bv8 - 1
  }

  /** The channel-control pattern a brightness selects: ON when lit, OFF otherwise. */
  function CtrlFor(s: Subled): bv8
    requires s.channel < MaxLeds
  {
    if s.brightness > 0 then CtrlOn(s.channel) else CtrlOff
  }

  /** The registers after one sub-LED is applied: its IOUT, then its channel-control field. */
  function ApplySubled(r: seq<bv8>, s: Subled): (r': seq<bv8>)
    requires |r| == NumRegs && SubledOk(s, MaxLeds)
    ensures |r'| == NumRegs
  {
    var r1 := r[Iout(s.channel) := IoutLevel(s.brightness)];
    r1[RegChannelCtrl := MaskedUpdate(r1[RegChannelCtrl], CtrlMask(s.channel), CtrlFor(s))]
  }

  /** The registers after a sequence of sub-LEDs is applied in order. */
  function ApplySubleds(r: seq<bv8>, ss: seq<Subled>): (r': seq<bv8>)
    requires |r| == NumRegs && SubledsOk(ss, MaxLeds)
    ensures |r'| == NumRegs
  {
    if ss == [] then r else ApplySubled(ApplySubleds(r, ss[..|ss| - 1]), ss[|ss| - 1])
  }

  /** The brightness the last sub-LED on channel `c` asks for, if any does. */
  function LastBrightness(ss: seq<Subled>, c: nat): Option<nat>
  {
    if ss == [] then None
    else if ss[|ss| - 1].channel == c then Some(ss[|ss| - 1].brightness)
    else LastBrightness(ss[..|ss| - 1], c)
  }

  /**
   * Applying sub-LEDs leaves each channel's IOUT register and control field as
   * the last sub-LED on that channel sets them (brightness - 1 or 0, ON or
   * OFF), and untouched for a channel no sub-LED names.
   */
  lemma {:induction false} SubledsEffect(r: seq<bv8>, ss: seq<Subled>, c: nat)
    requires |r| == NumRegs && SubledsOk(ss, MaxLeds) && c < MaxLeds
    ensures var r' := ApplySubleds(r, ss);
      match LastBrightness(ss, c)
      case Some(b) =>
        b <= LedFull && r'[Iout(c)] == IoutLevel(b) &&
        Field(r'[RegChannelCtrl], c) == (if b > 0 then ModeOn else ModeOff)
      case None =>
        r'[Iout(c)] == r[Iout(c)] && Field(r'[RegChannelCtrl], c) == Field(r[RegChannelCtrl], c)
  {
    if ss != [] {
      var prefix, s := ss[..|ss| - 1], ss[|ss| - 1];
      assert SubledsOk(prefix, MaxLeds);
      SubledsEffect(r, prefix, c);
      var p := ApplySubleds(r, prefix);
      var p1 := p[Iout(s.channel) := IoutLevel(s.brightness)];
      assert p1[RegChannelCtrl] == p[RegChannelCtrl];
      UpdateChannel(p[RegChannelCtrl], s.channel, CtrlFor(s), c);
      PatternFields(s.channel, c);
    }
  }

  /** The brightness a channel's registers stand for: 0 while its field is OFF, its IOUT value + 1 while ON. */
  function ChannelBrightness(r: seq<bv8>, c: nat): bv8
    requires |r| == NumRegs && c < MaxLeds
  {
    if Field(r[RegChannelCtrl], c) == ModeOn then r[Iout(c)] + 1 else 0
  }

  /**
   * A brightness request is lossless per channel: every channel it names
   * ends up standing for the brightness last asked for it (IOUT alone could
   * not tell 0 from 1; the control field does).
   */
  lemma SubledsDecode(r: seq<bv8>, ss: seq<Subled>, c: nat)
    requires |r| == NumRegs && SubledsOk(ss, MaxLeds) && c < MaxLeds && LastBrightness(ss, c).Some?
    ensures LastBrightness(ss, c).value <= LedFull &&
      ChannelBrightness(ApplySubleds(r, ss), c) == LastBrightness(ss, c).value as bv8
  {
    SubledsEffect(r, ss, c);
  }

  /** Applying sub-LEDs never touches the registers below the channel-control register, nor the rise/fall register. */
  lemma {:induction false} SubledsFrame(r: seq<bv8>, ss: seq<Subled>)
    requires |r| == NumRegs && SubledsOk(ss, MaxLeds)
    ensures ApplySubleds(r, ss)[..RegChannelCtrl] == r[..RegChannelCtrl]
    ensures ApplySubleds(r, ss)[RegTriseFall] == r[RegTriseFall]
  {
    if ss != [] {
      SubledsFrame(r, ss[..|ss| - 1]);
    }
  }

  /** Applying sub-LEDs commutes with a change of the reset/control register. */
  lemma {:induction false} SubledsIgnoreReset(r: seq<bv8>, ss: seq<Subled>, v: bv8)
    requires |r| == NumRegs && SubledsOk(ss, MaxLeds)
    ensures ApplySubleds(r[RegResetControl := v], ss) == ApplySubleds(r, ss)[RegResetControl := v]
  {
    if ss != [] {
      SubledsIgnoreReset(r, ss[..|ss| - 1], v);
    }
  }

  /** Setting the same brightnesses twice leaves the registers as setting them once. */
  lemma SubledsIdempotent(r: seq<bv8>, ss: seq<Subled>)
    requires |r| == NumRegs && SubledsOk(ss, MaxLeds)
    ensures ApplySubleds(ApplySubleds(r, ss), ss) == ApplySubleds(r, ss)
  {
    var r1 := ApplySubleds(r, ss);
    var r2 := ApplySubleds(r1, ss);
    SubledsFrame(r1, ss);
    forall c | 0 <= c < MaxLeds
      ensures r2[Iout(c)] == r1[Iout(c)] && Field(r2[RegChannelCtrl], c) == Field(r1[RegChannelCtrl], c)
    {
      SubledsEffect(r, ss, c);
      SubledsEffect(r1, ss, c);
    }
    FieldsDetermine(r2[RegChannelCtrl], r1[RegChannelCtrl]);
    forall k | 0 <= k < NumRegs
      ensures r2[k] == r1[k]
    {
      if k > RegTriseFall {
        assert k == Iout(k - 6);
      } else if k != RegChannelCtrl && k != RegTriseFall {
        assert r2[..RegChannelCtrl][k] == r1[..RegChannelCtrl][k];
      }
    }
  }

  /** Channel `c`'s IOUT register and control field are the same in `r` and `r'`. */
  ghost predicate Untouched(r: seq<bv8>, r': seq<bv8>, c: nat)
    requires |r| == NumRegs && |r'| == NumRegs && c < MaxLeds
  {
    r'[Iout(c)] == r[Iout(c)] && Field(r'[RegChannelCtrl], c) == Field(r[RegChannelCtrl], c)
  }

  /** Two register changes that each leave channel `c` untouched leave it untouched together. */
  lemma UntouchedChain(r0: seq<bv8>, r1: seq<bv8>, r2: seq<bv8>, channels: seq<nat>)
    requires |r0| == NumRegs && |r1| == NumRegs && |r2| == NumRegs
    requires forall c :: 0 <= c < MaxLeds && c !in channels ==> Untouched(r0, r1, c)
    requires forall c :: 0 <= c < MaxLeds && c !in channels ==> Untouched(r1, r2, c)
    ensures forall c :: 0 <= c < MaxLeds && c !in channels ==> Untouched(r0, r2, c)
  {
    forall c | 0 <= c < MaxLeds && c !in channels
      ensures Untouched(r0, r2, c)
    {
      assert Untouched(r0, r1, c) && Untouched(r1, r2, c);
    }
  }

  /** No sub-LED names channel `c`, so none sets its brightness. */
  lemma {:induction false} LastBrightnessAbsent(ss: seq<Subled>, c: nat)
    requires forall i :: 0 <= i < |ss| ==> ss[i].channel != c
    ensures LastBrightness(ss, c) == None
  {
    if ss != [] {
      LastBrightnessAbsent(ss[..|ss| - 1], c);
    }
  }

  /** A brightness request, however far it got, leaves every channel it does not name untouched. */
  lemma ReachedUntouched(r: seq<bv8>, ss: seq<Subled>, done: nat, stage: Stage, c: nat)
    requires |r| == NumRegs && SubledsOk(ss, MaxLeds) && done <= |ss| && c < MaxLeds
    requires stage == CtrlFailed ==> done < |ss|
    requires c !in Channels(ss)
    ensures Untouched(r, Reached(r, ss, done, stage), c)
  {
    assert forall i :: 0 <= i < |ss| ==> Channels(ss)[i] == ss[i].channel;
    LastBrightnessAbsent(ss[..done], c);
    SubledsEffect(r, ss[..done], c);
  }

  /** Programming channel `index` with one of its patterns sets its field to that mode and leaves every other field. */
  lemma ChannelModeUpdate(prev: bv8, index: nat, pattern: bv8, mode: bv8)
    requires index < MaxLeds && Covers([index], CtrlMask(index), 3) && Covers([index], pattern, mode)
    ensures forall c :: 0 <= c < MaxLeds ==>
      Field(MaskedUpdate(prev, CtrlMask(index), pattern), c) == if c == index then mode else Field(prev, c)
  {
    forall c | 0 <= c < MaxLeds
      ensures Field(MaskedUpdate(prev, CtrlMask(index), pattern), c) == if c == index then mode else Field(prev, c)
    {
      GroupUpdate([index], CtrlMask(index), pattern, mode, prev, c);
    }
  }

  /** How far a brightness request got before it stopped. */
  datatype Stage = PowerFailed | IoutFailed | CtrlFailed | Completed

  /**
   * The channel registers a brightness request leaves: the first `done`
   * sub-LEDs applied, plus the IOUT write of the next one when its
   * control-register update is the write that failed.
   */
  ghost function Reached(r: seq<bv8>, ss: seq<Subled>, done: nat, stage: Stage): (r': seq<bv8>)
    requires |r| == NumRegs && SubledsOk(ss, MaxLeds) && done <= |ss|
    requires stage == CtrlFailed ==> done < |ss|
    ensures |r'| == NumRegs
  {
    var applied := ApplySubleds(r, ss[..done]);
    if stage == CtrlFailed then applied[Iout(ss[done].channel) := IoutLevel(ss[done].brightness)] else applied
  }

  /** A brightness request's reach commutes with a change of the reset/control register. */
  lemma ReachedIgnoreReset(r: seq<bv8>, ss: seq<Subled>, done: nat, stage: Stage, v: bv8)
    requires |r| == NumRegs && SubledsOk(ss, MaxLeds) && done <= |ss|
    requires stage == CtrlFailed ==> done < |ss|
    ensures Reached(r[RegResetControl := v], ss, done, stage) == Reached(r, ss, done, stage)[RegResetControl := v]
  {
    SubledsIgnoreReset(r, ss[..done], v);
  }

  /** How far one brightness request got: `done` sub-LEDs applied, then `stage`. */
  datatype Step = Step(done: nat, stage: Stage)

  predicate StepOk(ss: seq<Subled>, step: Step)
  {
    step.done <= |ss| && (step.stage == CtrlFailed ==> step.done < |ss|)
  }

  /** The registers after a brightness request that may not have been made (`None`). */
  ghost function Applied(r: seq<bv8>, ss: seq<Subled>, step: Option<Step>): (r': seq<bv8>)
    requires |r| == NumRegs && SubledsOk(ss, MaxLeds) && (step.Some? ==> StepOk(ss, step.value))
    ensures |r'| == NumRegs
  {
    match step
    case None => r
    case Some(st) => Reached(r, ss, st.done, st.stage)
  }

  /** The power state of a chip: its `enabled` flag and its reset/control register. */
  datatype Power = Power(enabled: bool, reset: bv8)

  /**
   * The power state `p1` a brightness request leaves from `p0`, given whether
   * some LED is in use and how far the request got. An LED in use leaves the
   * chip enabled and awake unless enabling it failed, which only happens to a
   * chip that was not enabled. An idle chip is powered down only after every
   * sub-LED was applied, and a chip that was not enabled is never woken for it.
   */
  predicate PowerStep(used: bool, stage: Stage, p0: Power, p1: Power)
  {
    (stage == PowerFailed ==> used && !p0.enabled && (p1.reset == p0.reset || p1.reset == EnableCtrlSleep)) &&
    (used && stage != PowerFailed ==> p1.enabled) &&
    (used && p0.enabled ==> p1.reset == p0.reset) &&
    (used && !p0.enabled && stage != PowerFailed ==> p1.reset == EnableCtrlWake) &&
    (!used && stage != Completed ==> p1 == p0) &&
    (!used && stage == Completed ==> (p1.enabled ==> p0.enabled) && (p1.reset == p0.reset || p1.reset == EnableCtrlSleep)) &&
    (!used && !p0.enabled ==> p1 == p0)
  }

  /** Every sub-LED of a request turns its channel off, so each channel it names ends off. */
  lemma {:induction false} LastBrightnessDark(ss: seq<Subled>, c: nat)
    requires forall i :: 0 <= i < |ss| ==> ss[i].brightness == LedOff
    requires exists i :: 0 <= i < |ss| && ss[i].channel == c
    ensures LastBrightness(ss, c) == Some(LedOff)
  {
    var n := |ss|;
    if ss[n - 1].channel != c {
      var i :| 0 <= i < n && ss[i].channel == c;
      assert i < n - 1 && ss[..n - 1][i].channel == c;
      LastBrightnessDark(ss[..n - 1], c);
    }
  }

  /** The delays a blink request uses: 500/500 when both are zero, else as given. */
  function WithDefault(delayOn: nat, delayOff: nat): (nat, nat)
  {
    if delayOn == 0 && delayOff == 0 then (DefaultDelay, DefaultDelay) else (delayOn, delayOff)
  }

  /**
   * Blink requests this model covers: a steady (never-off or never-on)
   * request, which involves no arithmetic, or a blinking one whose period is
   * at least 128 ms, so that its step count fits the register, and whose
   * delays sum to at most MaxDelaySum, so that the step count is an `int`.
   */
  predicate BlinkRequestOk(delayOn: nat, delayOff: nat)
  {
    delayOn == 0 || delayOff == 0 || (TimeStep <= delayOn + delayOff && delayOn + delayOff <= MaxDelaySum)
  }

  /** The flash-period step count and PWM1 duty of a blinking request, as the bytes written to the chip. */
  function TimingBytes(delayOn: nat, delayOff: nat): (bv8, bv8)
    requires Blinkable(delayOn, delayOff)
  {
    BlinkRegistersFit(delayOn, delayOff);
    var t := Quantize(delayOn, delayOff);
    (t.steps as bv8, t.duty as bv8)
  }

  /** The brightness a blink request leaves in the LED: off for a zero on time, else full if it was off. */
  function BlinkBrightness(prev: nat, delayOn: nat): nat
  {
    if delayOn == 0 then LedOff else if prev == LedOff then LedFull else prev
  }

  /**
   * The delays a blink callback reports back: unchanged for a steady request
   * (never on or never off), the achieved timing for a blinking one.
   */
  predicate BlinkDelays(delayOn: nat, delayOff: nat, newOn: nat, newOff: nat)
  {
    if delayOn == 0 || delayOff == 0 then newOn == delayOn && newOff == delayOff
    else Blinkable(delayOn, delayOff) && newOn == Quantize(delayOn, delayOff).on && newOff == Quantize(delayOn, delayOff).off
  }

  /** The sub-LEDs of a multicolour group: channel `channels[i]` at brightness `levels[i]`. */
  function Group(channels: seq<nat>, levels: seq<nat>): (ss: seq<Subled>)
    requires |levels| == |channels|
    ensures |ss| == |channels| && forall i :: 0 <= i < |ss| ==> ss[i] == Subled(channels[i], levels[i])
  {
    seq(|channels|, i requires 0 <= i < |channels| => Subled(channels[i], levels[i]))
  }

  /**
   * The register file after the writes of a blinking request, one state per
   * write: none, the flash period, the PWM1 duty, and the channels' mode.
   */
  function TimingWrites(r: seq<bv8>, delayOn: nat, delayOff: nat, mask: bv8, pwm1: bv8): (writes: seq<seq<bv8>>)
    requires |r| == NumRegs && Blinkable(delayOn, delayOff)
    ensures |writes| == 4
  {
    var bytes := TimingBytes(delayOn, delayOff);
    var r1 := r[RegFlashPeriod := bytes.0];
    var r2 := r1[RegPwm1Timer := bytes.1];
    [r, r1, r2, r2[RegChannelCtrl := MaskedUpdate(r2[RegChannelCtrl], mask, pwm1)]]
  }

  /**
   * The registers `r'` that programming a blink leaves from `r`, given its
   * outcome `err`. With no off time: the channels under `mask` set to
   * `ctrlOn` if that one update succeeded, else nothing. Otherwise: a prefix of
   * the timing writes, all of them exactly when every write succeeded.
   */
  ghost predicate BlinkWritten(r: seq<bv8>, delayOn: nat, delayOff: nat, mask: bv8, ctrlOn: bv8, ctrlPwm1: bv8,
                               err: int, r': seq<bv8>)
    requires |r| == NumRegs && (delayOff == 0 || Blinkable(delayOn, delayOff))
  {
    if delayOff == 0 then
      r' == if err == 0 then r[RegChannelCtrl := MaskedUpdate(r[RegChannelCtrl], mask, ctrlOn)] else r
    else
      var writes := TimingWrites(r, delayOn, delayOff, mask, ctrlPwm1);
      if err == 0 then r' == writes[3] else r' in writes[..3]
  }

  /** A brightness request, however far it got, never writes the blink timing registers. */
  lemma SubledsTimingFrame(r: seq<bv8>, ss: seq<Subled>, done: nat, stage: Stage)
    requires |r| == NumRegs && SubledsOk(ss, MaxLeds) && done <= |ss|
    requires stage == CtrlFailed ==> done < |ss|
    ensures var r' := Reached(r, ss, done, stage);
      r'[RegFlashPeriod] == r[RegFlashPeriod] && r'[RegPwm1Timer] == r[RegPwm1Timer]
  {
    SubledsFrame(r, ss[..done]);
    assert r[..RegChannelCtrl][RegFlashPeriod] == r[RegFlashPeriod];
    assert r[..RegChannelCtrl][RegPwm1Timer] == r[RegPwm1Timer];
  }

  /** The sub-LEDs of a multicolour group all turned off. */
  function Dark(channels: seq<nat>): (ss: seq<Subled>)
    ensures |ss| == |channels| && forall i :: 0 <= i < |ss| ==> ss[i] == Subled(channels[i], LedOff)
  {
    Group(channels, seq(|channels|, i => LedOff))
  }

  class Chip {
    /** The number of channels: 3 for the KTD2026, 4 for the KTD2027. */
    const numLeds: nat
    /** The registers 0x00..0x09 as the driver last wrote them successfully (the register cache while no transfer fails). */
    var regs: array<bv8>
    /** Whether the driver considers the chip powered and woken. */
    var enabled: bool
    /** The supply regulator enables this driver instance holds. */
    var supplyRefs: nat
    /** The brightness held by each LED device slot (unused slots stay 0). */
    var brightness: seq<nat>

    ghost predicate Valid()
      reads this
    {
      (numLeds == 3 || numLeds == 4) && regs.Length == NumRegs &&
      |brightness| == MaxLeds && (forall i :: 0 <= i < MaxLeds ==> brightness[i] <= LedFull) &&
      supplyRefs == (if enabled then 1 else 0)
    }

    /** Some LED device of the chip has a non-zero brightness. */
    ghost predicate InUse()
      reads this
      requires Valid()
    {
      exists i :: 0 <= i < numLeds && brightness[i] != 0
    }

    /** A chip as probing allocates it, before its reset write (HardReset): registers at their defaults, powered down, every LED off. */
    constructor (numLeds: nat)
      requires numLeds == 3 || numLeds == 4
      ensures Valid() && fresh(regs) && this.numLeds == numLeds
      ensures regs[..] == Defaults && !enabled && supplyRefs == 0
      ensures brightness == [LedOff, LedOff, LedOff, LedOff]
    {
      this.numLeds := numLeds;
      regs := new bv8[NumRegs](i requires 0 <= i < NumRegs => Defaults[i]);
      enabled := false;
      supplyRefs := 0;
      brightness := [LedOff, LedOff, LedOff, LedOff];
      new;
      assert regs[..] == Defaults;
    }

    /** A register write; the transfer may fail, and then the register keeps the value the chip has. */
    method Write(reg: nat, val: bv8) returns (err: int)
      requires Valid() && reg < NumRegs
      modifies regs
      ensures err <= 0
      ensures regs[..] == if err == 0 then old(regs[..])[reg := val] else old(regs[..])
    {
      err :| err <= 0;
      if err == 0 {
        regs[reg] := val;
      }
    }

    /**
     * A cached read-modify-write: the bits under `mask` become those of `val`.
     * When that changes nothing, no transfer happens and it cannot fail.
     */
    method UpdateBits(reg: nat, mask: bv8, val: bv8) returns (err: int)
      requires Valid() && reg < NumRegs
      modifies regs
      ensures err <= 0
      ensures regs[..] == if err == 0 then old(regs[..])[reg := MaskedUpdate(old(regs[reg]), mask, val)] else old(regs[..])
      ensures err != 0 ==> MaskedUpdate(old(regs[reg]), mask, val) != old(regs[reg])
    {
      var orig := regs[reg];
      var tmp := MaskedUpdate(orig, mask, val);
      if tmp != orig {
        err := Write(reg, tmp);
      } else {
        err := 0;
        assert old(regs[..])[reg := tmp] == old(regs[..]);
      }
    }

    /** Enable the supply regulator; on success the driver holds one more enable. */
    method RegulatorEnable() returns (err: int)
      modifies this`supplyRefs
      ensures err <= 0
      ensures supplyRefs == old(supplyRefs) + (if err == 0 then 1 else 0)
    {
      err :| err <= 0;
      if err == 0 {
        supplyRefs := supplyRefs + 1;
      }
    }

    /** Release one enable of the supply regulator; the call may fail and keep it. */
    method RegulatorDisable() returns (err: int)
      requires supplyRefs > 0
      modifies this`supplyRefs
      ensures err <= 0
      ensures supplyRefs == old(supplyRefs) - (if err == 0 then 1 else 0)
    {
      err :| err <= 0;
      if err == 0 {
        supplyRefs := supplyRefs - 1;
      }
    }

    /** Wake the chip by writing the wake value to the reset/control register. */
    method ChipInit() returns (err: int)
      requires Valid()
      modifies regs
      ensures err <= 0
      ensures regs[..] == if err == 0 then old(regs[..])[RegResetControl := EnableCtrlWake] else old(regs[..])
    {
      err := Write(RegResetControl, EnableCtrlWake);
    }

    /**
     * Power the chip down: a no-op when it is not enabled; otherwise a sleep
     * write whose outcome is ignored, then the regulator is released, and the
     * flag is cleared only if that release succeeded. `released` tells
     * whether the regulator was released.
     */
    method Disable() returns (ghost released: bool)
      requires Valid()
      modifies this`enabled, this`supplyRefs, regs
      ensures Valid()
      ensures !old(enabled) ==> !released && !enabled && regs[..] == old(regs[..])
      ensures old(enabled) ==> (enabled <==> !released)
      ensures old(enabled) ==> regs[..] == old(regs[..]) || regs[..] == old(regs[..])[RegResetControl := EnableCtrlSleep]
    {
      released := false;
      if !enabled {
        return;
      }
      var ignored := Write(RegResetControl, EnableCtrlSleep);
      var err := RegulatorDisable();
      if err != 0 {
        return;
      }
      enabled := false;
      released := true;
    }

    /**
     * Power the chip up: a no-op when it is enabled; otherwise enable the
     * regulator (on failure nothing else happens), set the flag, and wake
     * the chip, powering it down again if the wake write fails.
     * `supplyOk` tells whether the regulator enable succeeded.
     */
    method Enable() returns (err: int, ghost supplyOk: bool)
      requires Valid()
      modifies this`enabled, this`supplyRefs, regs
      ensures Valid() && err <= 0
      ensures old(enabled) ==> err == 0 && enabled && regs[..] == old(regs[..])
      ensures err == 0 ==> enabled
      ensures !old(enabled) && !supplyOk ==> err != 0 && !enabled && regs[..] == old(regs[..])
      ensures !old(enabled) && supplyOk && err == 0 ==> regs[..] == old(regs[..])[RegResetControl := EnableCtrlWake]
      ensures !old(enabled) && supplyOk && err != 0 ==>
        (regs[..] == old(regs[..]) || regs[..] == old(regs[..])[RegResetControl := EnableCtrlSleep])
    {
      supplyOk := true;
      if enabled {
        return 0, supplyOk;
      }
      err := RegulatorEnable();
      if err != 0 {
        supplyOk := false;
        return;
      }
      enabled := true;
      err := ChipInit();
      if err != 0 {
        ghost var released := Disable();
      }
    }

    /** Whether some LED device of the chip has a non-zero brightness. */
    method ChipInUse() returns (used: bool)
      requires Valid()
      ensures used == InUse()
    {
      var i := 0;
      while i < numLeds
        invariant 0 <= i <= numLeds
        invariant forall j :: 0 <= j < i ==> brightness[j] == 0
      {
        if brightness[i] != 0 {
          return true;
        }
        i := i + 1;
      }
      return false;
    }

    /** The power state: the `enabled` flag and the reset/control register. */
    ghost function PowerOf(): Power
      reads this, regs
      requires regs.Length == NumRegs
    {
      Power(enabled, regs[RegResetControl])
    }

    /**
     * Apply a brightness request to its sub-LEDs. If some LED is in use the
     * chip is enabled first, and a failure there ends the request. Then each
     * sub-LED gets its IOUT value and its control field (ON if lit, OFF if not);
     * the first failing write ends the request with the earlier sub-LEDs
     * applied. After all sub-LEDs, an idle chip is powered down.
     * `done` and `stage` say how far the request got.
     */
    method BrightnessSet(subleds: seq<Subled>) returns (ghost done: nat, ghost stage: Stage)
      requires Valid() && SubledsOk(subleds, numLeds)
      modifies this`enabled, this`supplyRefs, regs
      ensures Valid()
      ensures done <= |subleds| && (stage == CtrlFailed ==> done < |subleds|)
      ensures stage == PowerFailed ==> done == 0
      ensures stage == Completed ==> done == |subleds|
      ensures stage == IoutFailed ==> done < |subleds|
      // the channel registers
      ensures regs[..] == Reached(old(regs[..]), subleds, done, stage)[RegResetControl := regs[RegResetControl]]
      ensures PowerStep(InUse(), stage, old(PowerOf()), PowerOf())
    {
      ghost var r0 := old(regs[..]);
      var used := ChipInUse();
      if used {
        var err;
        ghost var supplyOk;
        err, supplyOk := Enable();
        if err != 0 {
          assert regs[..] == Reached(r0, subleds, 0, PowerFailed)[RegResetControl := regs[RegResetControl]];
          return 0, PowerFailed;
        }
      }
      ghost var power := regs[RegResetControl];
      ghost var base := regs[..];
      assert base == r0[RegResetControl := power];
      var err;
      err, done, stage := WriteSubleds(subleds);
      SubledsIgnoreReset(r0, subleds[..done], power);
      if err != 0 {
        return;
      }
      used := ChipInUse();
      if !used {
        ghost var released := Disable();
      }
    }

    /**
     * The per-sub-LED writes of a brightness request: IOUT, then the control
     * field, stopping at the first failing write.
     */
    method WriteSubleds(subleds: seq<Subled>) returns (err: int, ghost done: nat, ghost stage: Stage)
      requires Valid() && SubledsOk(subleds, numLeds)
      modifies regs
      ensures Valid() && stage != PowerFailed && err <= 0 && (err == 0 <==> stage == Completed)
      ensures done <= |subleds| && (stage == Completed <==> done == |subleds|)
      ensures regs[..] == Reached(old(regs[..]), subleds, done, stage)
    {
      assert SubledsOk(subleds, MaxLeds);
      ghost var base := regs[..];
      var i := 0;
      while i < |subleds|
        invariant 0 <= i <= |subleds|
        invariant Valid()
        invariant regs[..] == ApplySubleds(base, subleds[..i])
      {
        var idx := subleds[i].channel;
        var b := subleds[i].brightness;
        assert subleds[..i + 1][..i] == subleds[..i];
        err := Write(Iout(idx), IoutLevel(b));
        if err != 0 {
          return err, i, IoutFailed;
        }
        if b != 0 {
          err := UpdateBits(RegChannelCtrl, CtrlMask(idx), CtrlOn(idx));
        } else {
          err := UpdateBits(RegChannelCtrl, CtrlMask(idx), CtrlOff);
        }
        if err != 0 {
          return err, i, CtrlFailed;
        }
        i := i + 1;
      }
      assert subleds[..i] == subleds;
      return 0, |subleds|, Completed;
    }
    /**
     * The brightness callback of a single-channel LED: one sub-LED on the
     * LED's channel. The LED class stores the new brightness in the device
     * before calling it; failures are not reported.
     */
    method BrightnessSingleSet(index: nat, value: nat) returns (err: int, ghost done: nat, ghost stage: Stage)
      requires Valid() && index < numLeds && value <= LedFull
      modifies this`enabled, this`supplyRefs, regs
      ensures Valid() && err == 0 && PowerStep(InUse(), stage, old(PowerOf()), PowerOf())
      ensures done <= 1 && (stage == CtrlFailed ==> done == 0)
      ensures regs[..] == Reached(old(regs[..]), [Subled(index, value)], done, stage)[RegResetControl := regs[RegResetControl]]
      ensures stage == Completed ==>
        regs[..] == ApplySubled(old(regs[..]), Subled(index, value))[RegResetControl := regs[RegResetControl]]
      ensures stage == CtrlFailed ==>
        regs[..] == old(regs[..])[Iout(index) := IoutLevel(value)][RegResetControl := regs[RegResetControl]]
      ensures stage == PowerFailed || stage == IoutFailed ==>
        regs[..] == old(regs[..])[RegResetControl := regs[RegResetControl]]
      ensures regs[RegFlashPeriod] == old(regs[RegFlashPeriod]) && regs[RegPwm1Timer] == old(regs[RegPwm1Timer])
      ensures forall c :: 0 <= c < MaxLeds && c != index ==> Untouched(old(regs[..]), regs[..], c)
    {
      var request := [Subled(index, value)];
      ghost var r0 := regs[..];
      done, stage := BrightnessSet(request);
      assert request[..0] == [] && request[..1] == request;
      assert ApplySubleds(r0, request) == ApplySubled(r0, request[0]);
      SubledsTimingFrame(r0, request, done, stage);
      forall c | 0 <= c < MaxLeds && c != index
        ensures Untouched(r0, regs[..], c)
      {
        assert Channels(request) == [index];
        ReachedUntouched(r0, request, done, stage, c);
      }
      return 0, done, stage;
    }

    /**
     * The brightness callback of a multicolour LED: `subleds` holds each
     * channel with the brightness the multicolour class computed for it.
     * Failures are not reported.
     */
    method BrightnessMcSet(subleds: seq<Subled>) returns (err: int, ghost done: nat, ghost stage: Stage)
      requires Valid() && SubledsOk(subleds, numLeds)
      modifies this`enabled, this`supplyRefs, regs
      ensures Valid() && err == 0 && PowerStep(InUse(), stage, old(PowerOf()), PowerOf())
      ensures done <= |subleds| && (stage == CtrlFailed ==> done < |subleds|)
      ensures stage == Completed ==> done == |subleds|
      ensures regs[..] == Reached(old(regs[..]), subleds, done, stage)[RegResetControl := regs[RegResetControl]]
      ensures regs[RegFlashPeriod] == old(regs[RegFlashPeriod]) && regs[RegPwm1Timer] == old(regs[RegPwm1Timer])
      ensures forall c :: 0 <= c < MaxLeds && c !in Channels(subleds) ==> Untouched(old(regs[..]), regs[..], c)
    {
      ghost var r0 := regs[..];
      done, stage := BrightnessSet(subleds);
      assert SubledsOk(subleds, MaxLeds);
      SubledsTimingFrame(r0, subleds, done, stage);
      forall c | 0 <= c < MaxLeds && c !in Channels(subleds)
        ensures Untouched(r0, regs[..], c)
      {
        ReachedUntouched(r0, subleds, done, stage, c);
      }
      return 0, done, stage;
    }

    /**
     * Program a blink for the channels under `mask`. With no off time the
     * channels are set steadily on and nothing else is touched. Otherwise the
     * achieved on/off times are computed and returned whatever happens next,
     * then the flash period, the PWM1 duty and the channels' PWM1 mode are
     * written in that order, stopping at the first failing write.
     */
    method BlinkSet(delayOn: nat, delayOff: nat, mask: bv8, ctrlOn: bv8, ctrlPwm1: bv8)
      returns (err: int, newOn: nat, newOff: nat)
      requires Valid() && (delayOff == 0 || Blinkable(delayOn, delayOff))
      modifies regs
      ensures Valid() && err <= 0
      ensures delayOff == 0 ==> newOn == delayOn && newOff == 0
      ensures delayOff != 0 ==>
        newOn == Quantize(delayOn, delayOff).on && newOff == Quantize(delayOn, delayOff).off
      ensures BlinkWritten(old(regs[..]), delayOn, delayOff, mask, ctrlOn, ctrlPwm1, err, regs[..])
      ensures forall c :: 0 <= c < MaxLeds && Field(mask, c) == 0 ==> Untouched(old(regs[..]), regs[..], c)
      ensures forall k :: 0 <= k < NumRegs && k != RegChannelCtrl && k != RegFlashPeriod && k != RegPwm1Timer ==>
        regs[k] == old(regs[k])
    {
      ghost var r0 := regs[..];
      forall c, val | 0 <= c < MaxLeds && Field(mask, c) == 0
        ensures Field(MaskedUpdate(r0[RegChannelCtrl], mask, val), c) == Field(r0[RegChannelCtrl], c)
      {
        MaskedUpdateField(r0[RegChannelCtrl], mask, val, c);
      }
      if delayOff == 0 {
        err := UpdateBits(RegChannelCtrl, mask, ctrlOn);
        return err, delayOn, delayOff;
      }
      AchievedTiming(delayOn, delayOff);
      var timing := Quantize(delayOn, delayOff);
      var bytes := TimingBytes(delayOn, delayOff);
      newOn, newOff := timing.on, timing.off;
      ghost var writes := TimingWrites(old(regs[..]), delayOn, delayOff, mask, ctrlPwm1);
      err := Write(RegFlashPeriod, bytes.0);
      if err != 0 {
        assert regs[..] == writes[0];
        return;
      }
      err := Write(RegPwm1Timer, bytes.1);
      if err != 0 {
        assert regs[..] == writes[1];
        return;
      }
      err := UpdateBits(RegChannelCtrl, mask, ctrlPwm1);
      assert regs[..] == writes[2] || regs[..] == writes[3];
    }

    /**
     * The blink callback of a single-channel LED in slot `slot` driving
     * channel `index`: default an unspecified blink to 500/500 ms; light an
     * LED that is off at full brightness; turn the LED off for a zero on
     * time; otherwise program the blink on the channel. `lit` and `dark`
     * record how far those two brightness requests got (`None` when not
     * made), and `mid` is the power state between them.
     */
    method BlinkSingleSet(slot: nat, index: nat, delayOn: nat, delayOff: nat)
      returns (err: int, newOn: nat, newOff: nat, ghost lit: Option<Step>, ghost dark: Option<Step>, ghost mid: Power)
      requires Valid() && slot < numLeds && index < numLeds && BlinkRequestOk(delayOn, delayOff)
      modifies this`enabled, this`supplyRefs, this`brightness, regs
      ensures Valid() && err <= 0
      ensures var (on, off) := WithDefault(delayOn, delayOff);
        brightness == old(brightness)[slot := BlinkBrightness(old(brightness[slot]), on)] &&
        BlinkDelays(on, off, newOn, newOff) &&
        (on == 0 || off == 0 ==>
          regs[RegFlashPeriod] == old(regs[RegFlashPeriod]) && regs[RegPwm1Timer] == old(regs[RegPwm1Timer])) &&
        (on == 0 ==> err == 0) &&
        (on != 0 && err == 0 ==>
          Field(regs[RegChannelCtrl], index) == (if off == 0 then ModeOn else ModePwm1) &&
          (off != 0 ==> (regs[RegFlashPeriod], regs[RegPwm1Timer]) == TimingBytes(on, off)))
      ensures forall c :: 0 <= c < MaxLeds && c != index ==> Untouched(old(regs[..]), regs[..], c)
      // the implicit brightness requests: full brightness for an LED that is off, off for a zero on time
      ensures (lit.Some? <==> old(brightness[slot]) == LedOff) && (dark.Some? <==> WithDefault(delayOn, delayOff).0 == 0)
      ensures lit.Some? ==>
        StepOk([Subled(index, LedFull)], lit.value) && PowerStep(true, lit.value.stage, old(PowerOf()), mid)
      ensures lit.None? ==> mid == old(PowerOf())
      ensures dark.Some? ==>
        StepOk([Subled(index, LedOff)], dark.value) && PowerStep(InUse(), dark.value.stage, mid, PowerOf())
      ensures dark.None? ==> PowerOf() == mid
      ensures var lighted := Applied(old(regs[..]), [Subled(index, LedFull)], lit);
        if dark.Some? then regs[..] == Applied(lighted, [Subled(index, LedOff)], dark)[RegResetControl := regs[RegResetControl]]
        else forall c :: 0 <= c < MaxLeds ==> regs[Iout(c)] == lighted[Iout(c)]
      // a non-zero on time: the blink programming applied to the registers the lighting left
      ensures var (on, off) := WithDefault(delayOn, delayOff);
        var lighted := Applied(old(regs[..]), [Subled(index, LedFull)], lit);
        on != 0 ==>
          BlinkWritten(lighted[RegResetControl := regs[RegResetControl]], on, off,
                       CtrlMask(index), CtrlOn(index), CtrlPwm1(index), err, regs[..]) &&
          (err != 0 ==> regs[RegChannelCtrl] == lighted[RegChannelCtrl])
      ensures lit.Some? && lit.value.stage == Completed && dark.None? ==> regs[Iout(index)] == IoutLevel(LedFull)
      ensures dark.Some? && dark.value.stage == Completed ==>
        regs[Iout(index)] == IoutLevel(LedOff) && Field(regs[RegChannelCtrl], index) == ModeOff
    {
      var (on, off) := WithDefault(delayOn, delayOff);
      ghost var r0 := regs[..];
      lit := LightSingle(slot, index);
      ghost var lighted := Applied(r0, [Subled(index, LedFull)], lit);
      ghost var lit1 := regs[..];
      mid := PowerOf();
      err, newOn, newOff, dark := FinishSingle(slot, index, on, off, lighted);
      UntouchedChain(r0, lit1, regs[..], [index]);
    }

    /**
     * The blink callback of a single-channel LED once the LED is lit: turn it
     * off for a zero on time, else program the blink on channel `index`.
     * `lighted` is the register file the lighting left, up to register 0x00.
     */
    method FinishSingle(slot: nat, index: nat, on: nat, off: nat, ghost lighted: seq<bv8>)
      returns (err: int, newOn: nat, newOff: nat, ghost dark: Option<Step>)
      requires Valid() && slot < numLeds && index < numLeds && (on == 0 || off == 0 || Blinkable(on, off))
      requires |lighted| == NumRegs && regs[..] == lighted[RegResetControl := regs[RegResetControl]]
      modifies this`enabled, this`supplyRefs, this`brightness, regs
      ensures Valid() && err <= 0 && BlinkDelays(on, off, newOn, newOff)
      ensures brightness == if on == 0 then old(brightness)[slot := LedOff] else old(brightness)
      ensures on == 0 || off == 0 ==>
        regs[RegFlashPeriod] == old(regs[RegFlashPeriod]) && regs[RegPwm1Timer] == old(regs[RegPwm1Timer])
      ensures on == 0 ==> err == 0
      ensures on != 0 && err == 0 ==>
        Field(regs[RegChannelCtrl], index) == (if off == 0 then ModeOn else ModePwm1) &&
        (off != 0 ==> (regs[RegFlashPeriod], regs[RegPwm1Timer]) == TimingBytes(on, off))
      ensures forall c :: 0 <= c < MaxLeds && c != index ==> Untouched(old(regs[..]), regs[..], c)
      ensures dark.Some? <==> on == 0
      ensures dark.Some? ==>
        StepOk([Subled(index, LedOff)], dark.value) && PowerStep(InUse(), dark.value.stage, old(PowerOf()), PowerOf())
      ensures dark.None? ==> PowerOf() == old(PowerOf())
      ensures if dark.Some? then regs[..] == Applied(lighted, [Subled(index, LedOff)], dark)[RegResetControl := regs[RegResetControl]]
        else forall c :: 0 <= c < MaxLeds ==> regs[Iout(c)] == lighted[Iout(c)]
      ensures on != 0 ==>
        BlinkWritten(lighted[RegResetControl := regs[RegResetControl]], on, off,
                     CtrlMask(index), CtrlOn(index), CtrlPwm1(index), err, regs[..]) &&
        (err != 0 ==> regs[RegChannelCtrl] == lighted[RegChannelCtrl])
      ensures dark.Some? && dark.value.stage == Completed ==>
        regs[Iout(index)] == IoutLevel(LedOff) && Field(regs[RegChannelCtrl], index) == ModeOff
    {
      if on == 0 {
        ghost var reset := regs[RegResetControl];
        ghost var step := SetSingle(slot, index, LedOff);
        ReachedIgnoreReset(lighted, [Subled(index, LedOff)], step.done, step.stage, reset);
        return 0, on, off, Some(step);
      }
      err, newOn, newOff := BlinkChannel(index, on, off);
      dark := None;
    }

    /** Light the LED in slot `slot` (channel `index`) at full brightness if it is off; `lit` is `None` if it was on. */
    method LightSingle(slot: nat, index: nat) returns (ghost lit: Option<Step>)
      requires Valid() && slot < numLeds && index < numLeds
      modifies this`enabled, this`supplyRefs, this`brightness, regs
      ensures Valid() && (lit.Some? <==> old(brightness[slot]) == LedOff)
      ensures brightness == old(brightness)[slot := if old(brightness[slot]) == LedOff then LedFull else old(brightness[slot])]
      ensures lit.Some? ==>
        StepOk([Subled(index, LedFull)], lit.value) && PowerStep(true, lit.value.stage, old(PowerOf()), PowerOf())
      ensures lit.None? ==> PowerOf() == old(PowerOf())
      ensures regs[..] == Applied(old(regs[..]), [Subled(index, LedFull)], lit)[RegResetControl := regs[RegResetControl]]
      ensures lit.Some? && lit.value.stage == Completed ==> regs[Iout(index)] == IoutLevel(LedFull)
      ensures regs[RegFlashPeriod] == old(regs[RegFlashPeriod]) && regs[RegPwm1Timer] == old(regs[RegPwm1Timer])
      ensures forall c :: 0 <= c < MaxLeds && c != index ==> Untouched(old(regs[..]), regs[..], c)
    {
      if brightness[slot] == LedOff {
        ghost var step := SetSingle(slot, index, LedFull);
        return Some(step);
      }
      assert brightness == brightness[slot := brightness[slot]];
      assert regs[..] == regs[..][RegResetControl := regs[RegResetControl]];
      return None;
    }

    /**
     * Store `value` as the brightness of the LED in slot `slot` and pass it to
     * the brightness callback of its channel `index`, as the blink callback
     * does for its implicit requests. `step` says how far the request got.
     */
    method SetSingle(slot: nat, index: nat, value: nat) returns (ghost step: Step)
      requires Valid() && slot < numLeds && index < numLeds && value <= LedFull
      modifies this`enabled, this`supplyRefs, this`brightness, regs
      ensures Valid() && brightness == old(brightness)[slot := value]
      ensures StepOk([Subled(index, value)], step) && PowerStep(InUse(), step.stage, old(PowerOf()), PowerOf())
      ensures value != LedOff ==> InUse()
      ensures regs[..] == Reached(old(regs[..]), [Subled(index, value)], step.done, step.stage)[RegResetControl := regs[RegResetControl]]
      ensures regs[RegFlashPeriod] == old(regs[RegFlashPeriod]) && regs[RegPwm1Timer] == old(regs[RegPwm1Timer])
      ensures forall c :: 0 <= c < MaxLeds && c != index ==> Untouched(old(regs[..]), regs[..], c)
      ensures step.stage == Completed ==>
        regs[Iout(index)] == IoutLevel(value) && Field(regs[RegChannelCtrl], index) == (if value > 0 then ModeOn else ModeOff)
    {
      ghost var r0 := regs[..];
      brightness := brightness[slot := value];
      assert value != LedOff ==> brightness[slot] != 0 && InUse();
      var ignored;
      ghost var done, stage;
      ignored, done, stage := BrightnessSingleSet(index, value);
      step := Step(done, stage);
      if stage == Completed {
        assert [Subled(index, value)][..1] == [Subled(index, value)];
        SubledsEffect(r0, [Subled(index, value)], index);
      }
    }

    /** Program a blink (or a steady on, without off time) on channel `index` alone, with that channel's patterns. */
    method BlinkChannel(index: nat, on: nat, off: nat) returns (err: int, newOn: nat, newOff: nat)
      requires Valid() && index < MaxLeds && on != 0 && (off == 0 || Blinkable(on, off))
      modifies regs
      ensures Valid() && err <= 0 && BlinkDelays(on, off, newOn, newOff)
      ensures off == 0 ==> regs[RegFlashPeriod] == old(regs[RegFlashPeriod]) && regs[RegPwm1Timer] == old(regs[RegPwm1Timer])
      ensures err == 0 ==> Field(regs[RegChannelCtrl], index) == (if off == 0 then ModeOn else ModePwm1)
      ensures err == 0 && off != 0 ==> (regs[RegFlashPeriod], regs[RegPwm1Timer]) == TimingBytes(on, off)
      ensures err != 0 ==> regs[RegChannelCtrl] == old(regs[RegChannelCtrl])
      ensures forall c :: 0 <= c < MaxLeds && c != index ==> Untouched(old(regs[..]), regs[..], c)
      ensures forall k :: 0 <= k < NumRegs && k != RegChannelCtrl && k != RegFlashPeriod && k != RegPwm1Timer ==>
        regs[k] == old(regs[k])
      ensures BlinkWritten(old(regs[..]), on, off, CtrlMask(index), CtrlOn(index), CtrlPwm1(index), err, regs[..])
    {
      var pattern := if off == 0 then CtrlOn(index) else CtrlPwm1(index);
      PatternCovers(index);
      ChannelModeUpdate(regs[RegChannelCtrl], index, pattern, if off == 0 then ModeOn else ModePwm1);
      forall c | 0 <= c < MaxLeds && c != index
        ensures Field(CtrlMask(index), c) == 0
      {
        PatternFields(index, c);
      }
      err, newOn, newOff := BlinkSet(on, off, CtrlMask(index), CtrlOn(index), CtrlPwm1(index));
    }

    /**
     * The blink callback of a multicolour LED in slot `slot` whose sub-LEDs
     * drive `channels`; `fullLevels` are the per-channel brightnesses the
     * multicolour class computes for full brightness. As the single-channel
     * callback, but the blink is programmed on all the group's channels at
     * once, with their patterns OR-ed together.
     */
    method BlinkMcSet(slot: nat, channels: seq<nat>, fullLevels: seq<nat>, delayOn: nat, delayOff: nat)
      returns (err: int, newOn: nat, newOff: nat, ghost lit: Option<Step>, ghost dark: Option<Step>, ghost mid: Power)
      requires Valid() && slot < numLeds && BlinkRequestOk(delayOn, delayOff)
      requires |fullLevels| == |channels| && forall i :: 0 <= i < |channels| ==> channels[i] < numLeds
      requires forall i :: 0 <= i < |fullLevels| ==> fullLevels[i] <= LedFull
      modifies this`enabled, this`supplyRefs, this`brightness, regs
      ensures Valid() && err <= 0
      ensures var (on, off) := WithDefault(delayOn, delayOff);
        brightness == old(brightness)[slot := BlinkBrightness(old(brightness[slot]), on)] &&
        BlinkDelays(on, off, newOn, newOff) &&
        (on == 0 || off == 0 ==>
          regs[RegFlashPeriod] == old(regs[RegFlashPeriod]) && regs[RegPwm1Timer] == old(regs[RegPwm1Timer])) &&
        (on == 0 ==> err == 0) &&
        (on != 0 && err == 0 && off != 0 ==> (regs[RegFlashPeriod], regs[RegPwm1Timer]) == TimingBytes(on, off))
      ensures var (on, off) := WithDefault(delayOn, delayOff);
        on != 0 && err == 0 ==> forall c :: 0 <= c < MaxLeds && c in channels ==>
          Field(regs[RegChannelCtrl], c) == if off == 0 then ModeOn else ModePwm1
      ensures forall c :: 0 <= c < MaxLeds && c !in channels ==> Untouched(old(regs[..]), regs[..], c)
      // the implicit brightness requests: full brightness for an LED that is off, off for a zero on time
      ensures (lit.Some? <==> old(brightness[slot]) == LedOff) && (dark.Some? <==> WithDefault(delayOn, delayOff).0 == 0)
      ensures lit.Some? ==>
        StepOk(Group(channels, fullLevels), lit.value) && PowerStep(true, lit.value.stage, old(PowerOf()), mid)
      ensures lit.None? ==> mid == old(PowerOf())
      ensures dark.Some? ==>
        StepOk(Dark(channels), dark.value) && PowerStep(InUse(), dark.value.stage, mid, PowerOf())
      ensures dark.None? ==> PowerOf() == mid
      ensures var lighted := Applied(old(regs[..]), Group(channels, fullLevels), lit);
        if dark.Some? then regs[..] == Applied(lighted, Dark(channels), dark)[RegResetControl := regs[RegResetControl]]
        else forall c :: 0 <= c < MaxLeds ==> regs[Iout(c)] == lighted[Iout(c)]
      // a non-zero on time: the blink programming applied to the registers the lighting left
      ensures var (on, off) := WithDefault(delayOn, delayOff);
        var lighted := Applied(old(regs[..]), Group(channels, fullLevels), lit);
        var g := Combined(channels);
        on != 0 ==>
          BlinkWritten(lighted[RegResetControl := regs[RegResetControl]], on, off, g.mask, g.on, g.pwm1, err, regs[..]) &&
          (err != 0 ==> regs[RegChannelCtrl] == lighted[RegChannelCtrl])
      ensures dark.Some? && dark.value.stage == Completed ==> forall c :: 0 <= c < MaxLeds && c in channels ==>
        regs[Iout(c)] == IoutLevel(LedOff) && Field(regs[RegChannelCtrl], c) == ModeOff
    {
      var (on, off) := WithDefault(delayOn, delayOff);
      ghost var r0 := regs[..];
      lit := LightGroup(slot, channels, fullLevels);
      ghost var lighted := Applied(r0, Group(channels, fullLevels), lit);
      ghost var lit1 := regs[..];
      mid := PowerOf();
      err, newOn, newOff, dark := FinishGroup(slot, channels, on, off, lighted);
      UntouchedChain(r0, lit1, regs[..], channels);
    }

    /**
     * The blink callback of a multicolour LED once the LED is lit: turn all
     * its channels off for a zero on time, else program the blink on all of
     * them at once. `lighted` is the register file the lighting left, up to
     * register 0x00.
     */
    method FinishGroup(slot: nat, channels: seq<nat>, on: nat, off: nat, ghost lighted: seq<bv8>)
      returns (err: int, newOn: nat, newOff: nat, ghost dark: Option<Step>)
      requires Valid() && slot < numLeds && (on == 0 || off == 0 || Blinkable(on, off))
      requires forall i :: 0 <= i < |channels| ==> channels[i] < numLeds
      requires |lighted| == NumRegs && regs[..] == lighted[RegResetControl := regs[RegResetControl]]
      modifies this`enabled, this`supplyRefs, this`brightness, regs
      ensures Valid() && err <= 0 && BlinkDelays(on, off, newOn, newOff)
      ensures brightness == if on == 0 then old(brightness)[slot := LedOff] else old(brightness)
      ensures on == 0 || off == 0 ==>
        regs[RegFlashPeriod] == old(regs[RegFlashPeriod]) && regs[RegPwm1Timer] == old(regs[RegPwm1Timer])
      ensures on == 0 ==> err == 0
      ensures on != 0 && err == 0 && off != 0 ==> (regs[RegFlashPeriod], regs[RegPwm1Timer]) == TimingBytes(on, off)
      ensures on != 0 && err == 0 ==> forall c :: 0 <= c < MaxLeds && c in channels ==>
        Field(regs[RegChannelCtrl], c) == if off == 0 then ModeOn else ModePwm1
      ensures forall c :: 0 <= c < MaxLeds && c !in channels ==> Untouched(old(regs[..]), regs[..], c)
      ensures dark.Some? <==> on == 0
      ensures dark.Some? ==>
        StepOk(Dark(channels), dark.value) && PowerStep(InUse(), dark.value.stage, old(PowerOf()), PowerOf())
      ensures dark.None? ==> PowerOf() == old(PowerOf())
      ensures if dark.Some? then regs[..] == Applied(lighted, Dark(channels), dark)[RegResetControl := regs[RegResetControl]]
        else forall c :: 0 <= c < MaxLeds ==> regs[Iout(c)] == lighted[Iout(c)]
      ensures var g := Combined(channels);
        on != 0 ==>
          BlinkWritten(lighted[RegResetControl := regs[RegResetControl]], on, off, g.mask, g.on, g.pwm1, err, regs[..]) &&
          (err != 0 ==> regs[RegChannelCtrl] == lighted[RegChannelCtrl])
      ensures dark.Some? && dark.value.stage == Completed ==> forall c :: 0 <= c < MaxLeds && c in channels ==>
        regs[Iout(c)] == IoutLevel(LedOff) && Field(regs[RegChannelCtrl], c) == ModeOff
    {
      if on == 0 {
        ghost var reset := regs[RegResetControl];
        ghost var step := DarkGroup(slot, channels);
        ReachedIgnoreReset(lighted, Dark(channels), step.done, step.stage, reset);
        return 0, on, off, Some(step);
      }
      err, newOn, newOff := BlinkGroup(channels, on, off);
      dark := None;
    }

    /** Light the multicolour LED in slot `slot` at full brightness if it is off; `lit` is `None` if it was on. */
    method LightGroup(slot: nat, channels: seq<nat>, fullLevels: seq<nat>) returns (ghost lit: Option<Step>)
      requires Valid() && slot < numLeds
      requires |fullLevels| == |channels| && forall i :: 0 <= i < |channels| ==> channels[i] < numLeds
      requires forall i :: 0 <= i < |fullLevels| ==> fullLevels[i] <= LedFull
      modifies this`enabled, this`supplyRefs, this`brightness, regs
      ensures Valid() && (lit.Some? <==> old(brightness[slot]) == LedOff)
      ensures brightness == old(brightness)[slot := if old(brightness[slot]) == LedOff then LedFull else old(brightness[slot])]
      ensures lit.Some? ==>
        StepOk(Group(channels, fullLevels), lit.value) && PowerStep(true, lit.value.stage, old(PowerOf()), PowerOf())
      ensures lit.None? ==> PowerOf() == old(PowerOf())
      ensures regs[..] == Applied(old(regs[..]), Group(channels, fullLevels), lit)[RegResetControl := regs[RegResetControl]]
      ensures regs[RegFlashPeriod] == old(regs[RegFlashPeriod]) && regs[RegPwm1Timer] == old(regs[RegPwm1Timer])
      ensures forall c :: 0 <= c < MaxLeds && c !in channels ==> Untouched(old(regs[..]), regs[..], c)
    {
      if brightness[slot] == LedOff {
        var full := Group(channels, fullLevels);
        assert Channels(full) == channels;
        ghost var step := SetGroup(slot, LedFull, full);
        return Some(step);
      }
      assert brightness == brightness[slot := brightness[slot]];
      assert regs[..] == regs[..][RegResetControl := regs[RegResetControl]];
      return None;
    }

    /** Turn every channel of the multicolour LED in slot `slot` off, storing LED_OFF as its brightness. */
    method DarkGroup(slot: nat, channels: seq<nat>) returns (ghost step: Step)
      requires Valid() && slot < numLeds && forall i :: 0 <= i < |channels| ==> channels[i] < numLeds
      modifies this`enabled, this`supplyRefs, this`brightness, regs
      ensures Valid() && brightness == old(brightness)[slot := LedOff]
      ensures StepOk(Dark(channels), step) && PowerStep(InUse(), step.stage, old(PowerOf()), PowerOf())
      ensures regs[..] == Reached(old(regs[..]), Dark(channels), step.done, step.stage)[RegResetControl := regs[RegResetControl]]
      ensures regs[RegFlashPeriod] == old(regs[RegFlashPeriod]) && regs[RegPwm1Timer] == old(regs[RegPwm1Timer])
      ensures forall c :: 0 <= c < MaxLeds && c !in channels ==> Untouched(old(regs[..]), regs[..], c)
      ensures step.stage == Completed ==> forall c :: 0 <= c < MaxLeds && c in channels ==>
        regs[Iout(c)] == IoutLevel(LedOff) && Field(regs[RegChannelCtrl], c) == ModeOff
    {
      ghost var r0 := regs[..];
      var none := Dark(channels);
      assert Channels(none) == channels;
      step := SetGroup(slot, LedOff, none);
      if step.stage == Completed {
        forall c | 0 <= c < MaxLeds && c in channels
          ensures regs[Iout(c)] == IoutLevel(LedOff) && Field(regs[RegChannelCtrl], c) == ModeOff
        {
          var i :| 0 <= i < |channels| && channels[i] == c;
          assert none[i].channel == c;
          LastBrightnessDark(none, c);
          SubledsEffect(r0, none, c);
          assert none[..|none|] == none;
        }
      }
    }

    /**
     * Store `value` as the brightness of the multicolour LED in slot `slot`
     * and pass the sub-LEDs the multicolour class computes for it (`subleds`)
     * to the brightness callback, as the blink callback does for its implicit
     * requests. `step` says how far the request got.
     */
    method SetGroup(slot: nat, value: nat, subleds: seq<Subled>) returns (ghost step: Step)
      requires Valid() && slot < numLeds && value <= LedFull && SubledsOk(subleds, numLeds)
      modifies this`enabled, this`supplyRefs, this`brightness, regs
      ensures Valid() && brightness == old(brightness)[slot := value]
      ensures StepOk(subleds, step) && PowerStep(InUse(), step.stage, old(PowerOf()), PowerOf())
      ensures value != LedOff ==> InUse()
      ensures regs[..] == Reached(old(regs[..]), subleds, step.done, step.stage)[RegResetControl := regs[RegResetControl]]
      ensures step.stage == Completed ==> step.done == |subleds|
      ensures regs[RegFlashPeriod] == old(regs[RegFlashPeriod]) && regs[RegPwm1Timer] == old(regs[RegPwm1Timer])
      ensures forall c :: 0 <= c < MaxLeds && c !in Channels(subleds) ==> Untouched(old(regs[..]), regs[..], c)
    {
      brightness := brightness[slot := value];
      assert value != LedOff ==> brightness[slot] != 0 && InUse();
      var ignored;
      ghost var done, stage;
      ignored, done, stage := BrightnessMcSet(subleds);
      step := Step(done, stage);
    }

    /**
     * Program a blink (or a steady on, without off time) on all of a group's
     * channels at once: their patterns are OR-ed together, then written as one.
     */
    method BlinkGroup(channels: seq<nat>, on: nat, off: nat) returns (err: int, newOn: nat, newOff: nat)
      requires Valid() && on != 0 && (off == 0 || Blinkable(on, off))
      requires forall i :: 0 <= i < |channels| ==> channels[i] < MaxLeds
      modifies regs
      ensures Valid() && err <= 0 && BlinkDelays(on, off, newOn, newOff)
      ensures off == 0 ==> regs[RegFlashPeriod] == old(regs[RegFlashPeriod]) && regs[RegPwm1Timer] == old(regs[RegPwm1Timer])
      ensures err == 0 ==> forall c :: 0 <= c < MaxLeds && c in channels ==>
        Field(regs[RegChannelCtrl], c) == if off == 0 then ModeOn else ModePwm1
      ensures err == 0 && off != 0 ==> (regs[RegFlashPeriod], regs[RegPwm1Timer]) == TimingBytes(on, off)
      ensures err != 0 ==> regs[RegChannelCtrl] == old(regs[RegChannelCtrl])
      ensures forall c :: 0 <= c < MaxLeds && c !in channels ==> Untouched(old(regs[..]), regs[..], c)
      ensures forall k :: 0 <= k < NumRegs && k != RegChannelCtrl && k != RegFlashPeriod && k != RegPwm1Timer ==>
        regs[k] == old(regs[k])
      ensures var g := Combined(channels);
        BlinkWritten(old(regs[..]), on, off, g.mask, g.on, g.pwm1, err, regs[..])
    {
      var mask, ctrlOn, ctrlPwm1 := CombineMasks(channels);
      var pattern := if off == 0 then ctrlOn else ctrlPwm1;
      var mode := if off == 0 then ModeOn else ModePwm1;
      forall c | 0 <= c < MaxLeds
        ensures Field(MaskedUpdate(regs[RegChannelCtrl], mask, pattern), c) ==
          if c in channels then mode else Field(regs[RegChannelCtrl], c)
        ensures c !in channels ==> Field(mask, c) == 0
      {
        GroupUpdate(channels, mask, pattern, mode, regs[RegChannelCtrl], c);
      }
      err, newOn, newOff := BlinkSet(on, off, mask, ctrlOn, ctrlPwm1);
    }

    /** Reset every register of the chip, as probing does before adding LEDs and as shutdown does; the outcome is ignored. */
    method HardReset()
      requires Valid()
      modifies regs
      ensures Valid()
      ensures regs[..] == old(regs[..]) || regs[..] == old(regs[..])[RegResetControl := RstrReset]
    {
      var ignored := Write(RegResetControl, RstrReset);
    }
  }
}
