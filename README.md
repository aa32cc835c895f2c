# KTD2026/KTD2027 LED driver core in Dafny

This project models the register-control core of the Linux driver for the
Kinetic KTD2026 (three channels) and KTD2027 (four channels) LED chips, and
proves properties of it. The model covers:

- **The register file.** Ten byte registers, 0x00..0x09, seeded from the
  power-on defaults.
- **The channel-control encoding.** Register 0x04 holds one 2-bit field per
  channel, with the codes OFF, ON, PWM1 and PWM2.
- **The register cache's read-modify-write.** This is `update_bits`. It skips
  the bus transfer when the value would not change.
- **The blink quantizer.** It turns on/off milliseconds into a flash-period
  step count and a PWM1 duty byte.
- **The power state machine.** The `enabled` flag is driven by a supply
  regulator that may refuse.
- **The in-use check.**
- **The brightness request.** It loops over the sub-LEDs, with early exits.
- **The blink callbacks.** There is one for single-channel LEDs and one for
  multicolour LEDs, and both share one blink routine.
- **Probe-time checks.** These check the LED count and each channel index
  ("reg").

The files:

- `registers.dfy`, module `Registers`: the register map, the channel-control
  patterns and their fields, the masked update, and the OR-ing of a
  multicolour group's patterns (`CombineMasks`, a loop proved against the
  fold `Combined`).
- `quantizer.dfy`, module `Quantizer`: the blink arithmetic as the C
  expressions evaluate it. This includes the unsigned 64-bit wrap and the
  truncation to a 32-bit `int` when the period is shorter than 256 ms.
- `config.dfy`, module `Config`: the count and "reg" checks of adding LEDs at
  probe time, with their error codes.
- `chip.dfy`, module `Ktd202x`: the class `Chip`.
  - Its fields are the register file (`array<bv8>`), the `enabled` flag, the
    driver's outstanding regulator enables (`supplyRefs`), and the brightness
    held by each LED slot.
  - Its methods are the driver's functions, and they change that state in
    place.
  - Pure functions over register snapshots specify the brightness writes:
    `ApplySubleds`, `Reached` and `TimingWrites`.

Bus transfers and regulator calls are the environment. Each may return 0 or
any negative error code. The model chooses the code nondeterministically
inside `Chip.Write`, `Chip.RegulatorEnable` and `Chip.RegulatorDisable`, so
every contract holds whatever those calls return.

`Chip.Valid()` is the class invariant. Among other things, it states that the
driver holds exactly one regulator enable while `enabled` is set, and none
otherwise. Every method that requires it preserves it. The two regulator
primitives, `Chip.RegulatorEnable` and `Chip.RegulatorDisable`, neither
require nor ensure it: `Chip.Enable` and `Chip.Disable` call them between a
change of the held enables and the matching change of the flag.

The register array stands for the register values the driver has
successfully written: what the register cache holds as long as no transfer
fails (see "## Left out").

Behaviour the code has, which is modelled as written:

- **Step count.** It uses floor division and is clamped only from above, to
  126. It is not rounded, and there is no lower clamp. Below 256 ms the
  unsigned subtraction wraps, and the count becomes -1 (below 128 ms) or 0
  (128..255 ms) (`Quantizer.StepsOfShortPeriod`).
- **Achieved timing.** For periods from 256 ms up to the clamp, the reported
  period is one 128 ms step longer than the floor of the request, and
  requesting the reported timing again adds another step
  (`Quantizer.RequantizeAddsStep`). From 16256 ms on, the step count is
  clamped at 126 and the reported period is 16384 ms whatever was asked, so
  it is shorter than any request above 16384 ms. Below 256 ms the reported
  period is 128 ms (below 128 ms) or 256 ms.
- **Failed regulator disable.** When `regulator_disable` fails,
  `chip_disable` keeps `enabled` set, and the regulator is still held. The
  invariant above records exactly that.
- **Failed enable.** A failed wake write makes `chip_enable` call
  `chip_disable`, which writes the sleep value. So an enable failure can
  still leave one register write behind, to register 0x00. If the
  regulator then refuses to release, `enabled` stays set for a chip that was
  never woken, and the next `chip_enable` returns 0 without waking it.
- **Writes while powered down.** When no LED is in use, `brightness_set`
  writes the channel registers without enabling the chip first. Register
  writes are not confined to an enabled chip.
- **Stored brightness.** The in-use check reads the brightness the LED core
  has already stored for the LED being changed.
- **Dead error check.** The brightness callbacks always return 0. So the
  error check after the implicit full-brightness step of the blink
  callbacks never fires, and the model leaves it out.
- **Full brightness.** That implicit step uses the LED class's full
  brightness, 255, not the 192 `max_brightness` the driver registers.

## Model

| member | source | states |
|---|---|---|
| Registers.Iout | drivers/leds/rgb/leds-ktd202x.c:21 | a channel's IOUT register lies above the rise/fall register and within the ten registers |
| Registers.ControlPatterns | drivers/leds/rgb/leds-ktd202x.c:28-32 | ON and PWM1 of a channel lie inside its mask and PWM2 equals the mask; OFF is OFF in every field; PWM2 holds its code in its own channel's field and OFF in every other; masks of distinct channels are disjoint |
| Registers.PatternFields | drivers/leds/rgb/leds-ktd202x.c:28-31 | the field values of a channel's mask, ON and PWM1 patterns as seen from every channel |
| Registers.FieldsDetermine | drivers/leds/rgb/leds-ktd202x.c:28-32 | a channel-control byte is determined by its four 2-bit fields |
| Registers.MaskedUpdateField | drivers/leds/rgb/leds-ktd202x.c:176-186 | a cached read-modify-write takes a field from the new value where the mask covers it and keeps it where the mask misses it |
| Registers.UpdateChannel | drivers/leds/rgb/leds-ktd202x.c:176-186 | an update under one channel's mask sets only that channel's field |
| Registers.PatternCovers | drivers/leds/rgb/leds-ktd202x.c:28-31 | each single-channel pattern covers exactly its channel |
| Registers.CombinedMask | drivers/leds/rgb/leds-ktd202x.c:351-357 | the OR of a group's masks selects exactly the listed channels' fields |
| Registers.CombinedOn | drivers/leds/rgb/leds-ktd202x.c:351-357 | the OR of a group's ON patterns sets exactly the listed channels to ON and the others to OFF |
| Registers.CombinedPwm1 | drivers/leds/rgb/leds-ktd202x.c:351-357 | the OR of a group's PWM1 patterns sets exactly the listed channels to PWM1 and the others to OFF |
| Registers.GroupUpdate | drivers/leds/rgb/leds-ktd202x.c:265-267 | an update with a group's combined mask and value sets every listed channel to the group's mode and leaves every other channel's field as it was |
| Registers.CombineMasks | drivers/leds/rgb/leds-ktd202x.c:351-357 | the loop's three accumulators are the OR of the listed channels' mask, ON and PWM1 patterns, and cover exactly those channels, with codes 3, ON and PWM1 |
| Quantizer.ToInt32 | drivers/leds/rgb/leds-ktd202x.c:247-248 | the conversion to a 32-bit `int` yields a value in range that is congruent to its input modulo 2^32 |
| Quantizer.StepsOverflowBeyondBound | drivers/leds/rgb/leds-ktd202x.c:247-248 | one past the largest covered delay sum (2^38+127 ms), the step count truncated to `int` is negative |
| Quantizer.StepsWrapAround | drivers/leds/rgb/leds-ktd202x.c:247-248 | past the covered sums the truncated step count wraps around: 2^39+256 ms gives 1 step, as 256 ms does |
| Quantizer.StepsInWindow | drivers/leds/rgb/leds-ktd202x.c:247-249 | for periods of at least 256 ms the step count is min(126, (on+off-256) div 128 + 1) and lies in 1..126 |
| Quantizer.StepsOfShortPeriod | drivers/leds/rgb/leds-ktd202x.c:247-249 | for periods under 256 ms the wrapped subtraction yields -1 steps below 128 ms and 0 steps from 128 ms |
| Quantizer.DutyFitsByte | drivers/leds/rgb/leds-ktd202x.c:250 | the duty is the floor of the on share in 1/256, so it lies in 0..255 |
| Quantizer.StepsAtLeastMinusOne | drivers/leds/rgb/leds-ktd202x.c:247-249 | the step count is never below -1 |
| Quantizer.AchievedTiming | drivers/leds/rgb/leds-ktd202x.c:252-254 | the reported on and off times add up to steps*128+256 ms; the on time is the duty share of it, rounded down; the off time is never zero |
| Quantizer.AchievedPeriodInWindow | drivers/leds/rgb/leds-ktd202x.c:247-254 | for periods of at least 256 ms the reported period lies in 384..16384 ms and is 256 ms plus whole 128 ms steps |
| Quantizer.AchievedRatio | drivers/leds/rgb/leds-ktd202x.c:250-254 | the reported on share never exceeds the requested one, and falls short of it by less than the two floor divisions can lose |
| Quantizer.BlinkRegistersFit | drivers/leds/rgb/leds-ktd202x.c:257-263 | for a blink of at least 128 ms, the step count (0..126) and the duty (0..255) fit the byte registers they are written to |
| Quantizer.DefaultBlink | drivers/leds/rgb/leds-ktd202x.c:285-288 | the default 500/500 ms request becomes 6 steps at duty 128, reported as 512/512 ms |
| Quantizer.RequantizeAddsStep | drivers/leds/rgb/leds-ktd202x.c:247-254 | below the clamp, requesting the reported timing again yields one more step |
| Config.NumLeds | drivers/leds/rgb/leds-ktd202x.c:76-82 | the KTD2026 has 3 channels and the KTD2027 has 4 |
| Config.SubChannels | drivers/leds/rgb/leds-ktd202x.c:405-426 | a group's channel list succeeds exactly when every sub-node's "reg" is readable and below num_leds; the list is those regs in order; otherwise -EINVAL |
| Config.AddLed | drivers/leds/rgb/leds-ktd202x.c:389-442 | adding a node succeeds exactly when a group has 1..num_leds sub-nodes with valid regs, or a single LED has a valid reg; the result is a valid LED of the node's kind that drives the node's own reg, or the sub-nodes' regs in order; otherwise -EINVAL |
| Config.AddLeds | drivers/leds/rgb/leds-ktd202x.c:490-496 | adding the nodes succeeds exactly when every node does, yielding their LEDs in order; otherwise the first failing node's error is returned |
| Config.ProbeDt | drivers/leds/rgb/leds-ktd202x.c:475-498 | an unmatched chip gives -ENODEV; zero or more than num_leds nodes give -EINVAL; a matched chip with 1..num_leds nodes gives the result of adding them, which succeeds exactly when every node does; success means 1..num_leds valid LEDs |
| Ktd202x.SubledsEffect | drivers/leds/rgb/leds-ktd202x.c:168-190 | after the sub-LED writes, each named channel's IOUT is the last brightness minus 1 (0 when off), and its field is ON if that brightness is non-zero, else OFF; an unnamed channel keeps its IOUT and field |
| Ktd202x.SubledsDecode | drivers/leds/rgb/leds-ktd202x.c:171-186 | the IOUT value and the control field of a named channel together give back the brightness last asked for it |
| Ktd202x.SubledsFrame | drivers/leds/rgb/leds-ktd202x.c:168-190 | the sub-LED writes leave registers 0x00..0x03 and the rise/fall register unchanged |
| Ktd202x.SubledsIdempotent | drivers/leds/rgb/leds-ktd202x.c:168-190 | applying the same brightness request twice leaves the same registers as applying it once |
| Ktd202x.ReachedUntouched | drivers/leds/rgb/leds-ktd202x.c:168-190 | a brightness request, however far it got, leaves every channel it does not name untouched |
| Ktd202x.ChannelModeUpdate | drivers/leds/rgb/leds-ktd202x.c:303-313 | programming one channel with one of its patterns sets that channel's mode and keeps every other field |
| Ktd202x.SubledsTimingFrame | drivers/leds/rgb/leds-ktd202x.c:168-190 | a brightness request never writes the flash-period or PWM1 register |
| Ktd202x.Chip.constructor | drivers/leds/rgb/leds-ktd202x.c:38-49 | a new chip has the default registers, is not enabled, holds no regulator enable and has every LED off |
| Ktd202x.Chip.Write | drivers/leds/rgb/leds-ktd202x.c:88-89 | a register write stores the value on success and changes nothing on failure |
| Ktd202x.Chip.UpdateBits | drivers/leds/rgb/leds-ktd202x.c:176-186 | a cached read-modify-write stores the masked update on success and changes nothing on failure; it can fail only if the value would change |
| Ktd202x.Chip.RegulatorEnable | drivers/leds/rgb/leds-ktd202x.c:125 | a successful enable adds one held enable; a failed one changes nothing |
| Ktd202x.Chip.RegulatorDisable | drivers/leds/rgb/leds-ktd202x.c:109 | a successful disable releases one held enable; a failed one changes nothing |
| Ktd202x.Chip.ChipInit | drivers/leds/rgb/leds-ktd202x.c:84-97 | the wake value is written to the reset/control register, or nothing changes on failure |
| Ktd202x.Chip.Disable | drivers/leds/rgb/leds-ktd202x.c:99-116 | a no-op when not enabled, releasing nothing; otherwise at most the sleep write happens, whatever its outcome, and the flag is cleared exactly when the regulator is released (`released`) |
| Ktd202x.Chip.Enable | drivers/leds/rgb/leds-ktd202x.c:118-137 | a no-op returning 0 when enabled; a regulator failure returns an error with no write and the chip still disabled; success leaves the chip enabled and awake; a failed wake write goes through the disable path, leaving at most the sleep write, and leaves `enabled` set (by the invariant, with the enable still held) when the regulator refuses to release |
| Ktd202x.Chip.ChipInUse | drivers/leds/rgb/leds-ktd202x.c:139-152 | the result is true exactly when some LED of the chip has a non-zero brightness |
| Ktd202x.Chip.BrightnessSet | drivers/leds/rgb/leds-ktd202x.c:154-194 | if enabling fails for a chip in use, no channel register is written; otherwise the registers are the first `done` sub-LEDs applied, plus the failing sub-LED's IOUT write if its control update failed; the power outcome is `PowerStep`: awake while in use, powered down only after a complete loop when idle |
| Ktd202x.Chip.WriteSubleds | drivers/leds/rgb/leds-ktd202x.c:168-190 | the loop applies the sub-LEDs in order and stops at the first failing write; 0 is returned exactly when all were applied |
| Ktd202x.Chip.BrightnessSingleSet | drivers/leds/rgb/leds-ktd202x.c:196-212 | always returns 0; the LED's channel gets its IOUT and mode as far as the request got; the timing registers and every other channel are untouched |
| Ktd202x.Chip.BrightnessMcSet | drivers/leds/rgb/leds-ktd202x.c:214-228 | always returns 0; the group's sub-LEDs are applied as far as the request got; the timing registers and every channel outside the group are untouched |
| Ktd202x.Chip.BlinkSet | drivers/leds/rgb/leds-ktd202x.c:230-269 | with no off time, only the control register is updated to the ON pattern, if that write succeeds, and the delays are returned unchanged; otherwise the achieved timing is returned even on failure, and the registers are a prefix of the writes flash period, PWM1 duty, PWM1 pattern, all three exactly on success (`BlinkWritten`); channels outside the mask and registers other than 0x01, 0x02, 0x04 are untouched |
| Ktd202x.Chip.BlinkSingleSet | drivers/leds/rgb/leds-ktd202x.c:271-316 | defaults 0/0 to 500/500; the stored brightness becomes off for a zero on time and full if it was off; an LED that was off is first lit at full brightness through the brightness path (`lit`), with that request's power outcome for an LED in use, and its IOUT is 254 if that request completed; a zero on time then turns the channel off the same way (`dark`), returns 0, leaves the registers as the two requests left them with the off request's power outcome, and a completed off request leaves IOUT 0 and the channel OFF; otherwise power stays as the lighting left it and the registers are the blink programming of the channel applied to the lighted registers (`BlinkWritten`: the ON update, or a prefix of the three timing writes, all of them on success), so on failure the control register is as the lighting left it, and on success the channel's mode is ON (no off time) or PWM1 with the quantized timing registers; the delays reported are unchanged or the achieved timing; other channels are untouched |
| Ktd202x.Chip.LightSingle | drivers/leds/rgb/leds-ktd202x.c:290-295 | an LED that is off gets full brightness stored and requested, leaving the registers as that request got them and the chip powered as for an LED in use; an LED that is on changes nothing |
| Ktd202x.Chip.SetSingle | drivers/leds/rgb/leds-ktd202x.c:290-300 | the stored brightness becomes the value, and the registers and power are as the one-sub-LED request left them; a completed request leaves the channel's IOUT and mode decoding to the value |
| Ktd202x.Chip.FinishSingle | drivers/leds/rgb/leds-ktd202x.c:297-316 | after the lighting: a zero on time stores and requests off, returning 0, with the registers and power as that request left them; otherwise the registers are the channel's blink programming applied to the lighted registers, and power is unchanged |
| Ktd202x.Chip.BlinkChannel | drivers/leds/rgb/leds-ktd202x.c:303-313 | programs one channel with its own patterns: the registers are as `BlinkSet` leaves them for that channel's mask (`BlinkWritten`), its mode becomes ON or PWM1 on success, the control register is unchanged on failure; other channels are untouched |
| Ktd202x.Chip.BlinkMcSet | drivers/leds/rgb/leds-ktd202x.c:318-367 | as the single-channel callback, for every channel of the group at once: an LED that was off is lit with the group's full-brightness levels (`lit`), a zero on time turns every channel of the group off (`dark`) with the registers and power as those requests left them; otherwise the registers are the blink programming with the group's OR-ed patterns applied to the lighted registers (`BlinkWritten`), and on success every group channel is ON or PWM1; channels outside the group are untouched |
| Ktd202x.Chip.LightGroup | drivers/leds/rgb/leds-ktd202x.c:338-343 | a multicolour LED that is off gets full brightness stored and its full-brightness sub-LEDs requested; one that is on changes nothing |
| Ktd202x.Chip.DarkGroup | drivers/leds/rgb/leds-ktd202x.c:346-348 | LED_OFF is stored and every channel of the group is requested off; a completed request leaves each of them with IOUT 0 and mode OFF |
| Ktd202x.Chip.SetGroup | drivers/leds/rgb/leds-ktd202x.c:338-348 | the stored brightness becomes the value, and the registers and power are as the group's request left them; channels outside the group are untouched |
| Ktd202x.Chip.BlinkGroup | drivers/leds/rgb/leds-ktd202x.c:351-364 | programs a group with the OR of its channels' patterns: the registers are as `BlinkSet` leaves them for that combined mask (`BlinkWritten`), every listed channel's mode becomes ON or PWM1 on success, the control register is unchanged on failure; other channels are untouched |
| Ktd202x.Chip.FinishGroup | drivers/leds/rgb/leds-ktd202x.c:345-367 | after the lighting: a zero on time stores and requests off for every channel of the group, returning 0, with the registers and power as that request left them; otherwise the registers are the group's blink programming applied to the lighted registers, and power is unchanged |
| Ktd202x.Chip.HardReset | drivers/leds/rgb/leds-ktd202x.c:485-486 | the reset value is written to the reset/control register, and the outcome is ignored |

## Left out

- The I2C transport, regmap internals and the hardware's reaction to a write are not modelled. After the reset write, the array records register 0x00 as 0x07, as the cache does, while the chip itself returns to its defaults.
- Ktd202x.Chip.Write: regmap stores a value in its cache before the bus transfer and keeps it when the transfer fails. The model keeps one array, which holds the old value after a failed transfer, as the chip does, so the cache's divergence from the chip is not modelled.
- Ktd202x.Chip.UpdateBits: it reads the array, so after a failed transfer it compares against the old value. The driver compares against its cache, which already holds the new value, so an identical update repeated after a failure is skipped there and never reaches the chip; the model transfers it again.
- Quantizer.Quantize: `unsigned long` is taken as 64 bits, as on a 64-bit kernel. On a 32-bit kernel the wrapped subtraction for a 128..255 ms period gives 2^25 steps, clamped to 126 (16384 ms) instead of 0, and `delay_on * 256` wraps once `delay_on` reaches 2^24; neither is modelled.
- Bus and regulator outcomes are nondeterministic 0 or negative codes. The regulator's own reference counting beyond this driver's enables is not modelled.
- Mutexes and concurrency are not modelled. Each callback is one sequential step, although the blink callbacks take the lock in separate sections.
- `usleep_range` after the reset write is left out. It is a delay only.
- Device-tree parsing, the "color" property and its parse errors, devm allocation, LED class registration and logging are left out. Only the count and "reg" checks are modelled, in `Config`.
- `led_mc_calc_color_components` is not modelled. The per-channel brightnesses it computes are inputs to `Ktd202x.Chip.BrightnessMcSet` and `Ktd202x.Chip.BlinkMcSet`.
- The LED core's storing of the new brightness before it calls a brightness callback is not modelled. The caller does it. The blink callbacks store it themselves, as the driver does.
- The `num_leds == 1` branch of the in-use check is left out. It is unreachable, because num_leds is always 3 or 4.
- The regulator toggling around probing and the probe error paths are left out. `ktd202x_remove` only calls `chip_disable`, which is `Ktd202x.Chip.Disable`. `ktd202x_shutdown` only writes the reset value, which is `Ktd202x.Chip.HardReset`.
- Ktd202x.Chip.BlinkSingleSet: a blinking request (both delays non-zero) whose period is under 128 ms is excluded by precondition, because the driver would write its step count of -1 as 0xFF (the quantizer itself still models the wrap, `Quantizer.StepsOfShortPeriod`). So is a blinking request whose delays sum past 2^38+127 ms: beyond that the step count truncated to `int` is negative (first at 2^38+128 ms, `Quantizer.StepsOverflowBeyondBound`, where `num_steps * 128` can also overflow `int`), and it then wraps around every 2^39 ms (`Quantizer.StepsWrapAround`: 2^39+256 ms gives 1 step, as 256 ms does), so the programmed period no longer follows the request. Steady requests (a zero on or off time) are covered for every delay.
- Ktd202x.Chip.BlinkMcSet: the same delay preconditions as the single-channel callback.
