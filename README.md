# Rainbow LED colour conversion, in Dafny

This project models the one computational piece of the nRF52840 dongle demos.
That piece is the integer HSV-to-RGB conversion `HsvToRgb` behind the
"rainbow" RGB LED example, together with the `update_rainbow_effect` driver
that steps the hue and sends the result to the three PWM channels.

- `color.dfy`, module `Color`. It holds the value types `HsvColor` and `RgbColor`
  (three unsigned fields each, as in `color.h`) and the constants `MaxRgb = 100`,
  `MaxHue = 360` and `HueRegion = 60`.
  The conversion is the pure function `HsvToRgb`. It takes the zero-saturation
  shortcut to gray, or else calls `Interpolate`, the six-way switch on
  `Region(h) = h / 60`. That switch uses the three levels `Hdp` (the floor),
  `Dec` (the falling ramp) and `Inc` (the rising ramp), each of `Remainder(h) = h % 60`.
  The lemmas prove bounds and ordering of the levels, and that the brightest
  channel is `v` and the dimmest is the floor. They also prove monotone ramps,
  continuity at every region boundary and at the wrap 359 -> 0, and concrete colours.
- `rainbow.dfy`, module `Rainbow`. Its class `RainbowEffect` holds the
  persistent `static HsvColor`. `Step(delta)` is `update_rainbow_effect`: it
  adds `delta` to the hue, subtracts 360 once if needed, and returns the triple
  handed to the PWM setter. `Run(ticks)` is the main loop, which calls `Step(1)`
  once per tick. It is proved to send exactly `Sweep`, the pure function giving
  what the loop sends, and the lemmas about `Sweep` show that it repeats every
  360 ticks and never moves a duty by more than 2 between ticks.

The C code's unsigned `/` and `%` match Dafny's on `nat`.
`IntermediatesFitUint32` shows that within the modelled domain (`s <= 100`,
`v <= 100`) no intermediate value of the C code reaches 2^32. So unbounded
integers compute exactly what the device computes there.

Three facts about color.c that the lemmas make explicit:

- `HsvToRgb` does not reduce the hue modulo 360. Every hue from 300 on takes
  the `default` arm, so hue 360 is not hue 0 (`DefaultArm`, `HueNotNormalised`).
- Neighbouring hues can differ by two units in one channel (`AdjacentHuesNear`,
  `AdjacentStepOfTwo`). Across a region boundary they do not differ at all
  (`BoundaryContinuity`, `WrapContinuity`).
- `max(r, g, b) == v` for every input of the domain (`MaxChannelIsValue`).

## Model

| member | source | states |
|---|---|---|
| `Color.Region` | RGB_pwm_rainbow/color.c:22 | the region `k = h / 60` is the one with `60k <= h < 60(k + 1)` |
| `Color.Hdp` | RGB_pwm_rainbow/color.c:26 | the floor `v * (100 - s) / 100` is at most `v`, equals `v` at saturation 0 and 0 at saturation 100 |
| `Color.Dec` | RGB_pwm_rainbow/color.c:27 | the falling ramp lies in `[hdp, v]`; its shape is stated by `RampMonotone`, `RampEndpoints` and `RampStep` |
| `Color.Inc` | RGB_pwm_rainbow/color.c:28 | the rising ramp lies in `[hdp, v]`; its shape is stated by `IncMirrorsDec`, `RampMonotone`, `RampEndpoints` and `RampStep` |
| `Color.Interpolate` | RGB_pwm_rainbow/color.c:30-50 | every arm of the switch gives channels in `[hdp, v]` with largest `v` and smallest `hdp`; `DefaultArm` and `BoundaryContinuity` state which arm is taken and how neighbouring arms meet |
| `Color.HsvToRgb` | RGB_pwm_rainbow/color.c:8-53 | with or without the gray shortcut, every channel lies in `[hdp, v]`, the largest is `v` and the smallest is `hdp`; further properties are in `ChannelBounds`, `MaxChannelIsValue`, `MinChannelIsFloor`, `AdjacentHuesNear`, `WrapContinuity` and the concrete-colour lemmas |
| `Color.Remainder` | RGB_pwm_rainbow/color.c:23 | the position of the hue inside its region is below the region width 60 |
| `Color.IntermediatesFitUint32` | RGB_pwm_rainbow/color.c:26-28 | for `s, v <= 100` every product and quotient of the three level formulas is below 2^32, and the ramp shares are at most 100, so nothing underflows or wraps |
| `Color.DecBounds` | RGB_pwm_rainbow/color.c:26-27 | `hdp <= dec <= v` for every remainder |
| `Color.LevelOrdering` | RGB_pwm_rainbow/color.c:26-28 | `hdp <= dec <= v` and `hdp <= inc <= v` for every remainder |
| `Color.IncMirrorsDec` | RGB_pwm_rainbow/color.c:27-28 | the rising ramp at remainder `k` equals the falling ramp at `59 - k` |
| `Color.DecMonotone` | RGB_pwm_rainbow/color.c:27 | the falling ramp does not increase with the remainder |
| `Color.RampMonotone` | RGB_pwm_rainbow/color.c:22-28 | within a region `dec` is non-increasing and `inc` non-decreasing as the remainder grows |
| `Color.RampEndpoints` | RGB_pwm_rainbow/color.c:26-28 | at remainder 0, `dec == v` and `inc == hdp`; at remainder 59, `dec == hdp` and `inc == v` |
| `Color.RampStep` | RGB_pwm_rainbow/color.c:26-28 | one more degree of remainder moves `dec` and `inc` by at most 2 units |
| `Color.GrayWhenDesaturated` | RGB_pwm_rainbow/color.c:14-20 | saturation 0 gives `(v, v, v)` for any hue |
| `Color.ShortcutAgreesWithFormula` | RGB_pwm_rainbow/color.c:14-28 | at saturation 0 the general formula also gives `hdp == dec == inc == v` and the switch yields gray, so the shortcut changes no result |
| `Color.ChannelBounds` | RGB_pwm_rainbow/color.c:26-50 | every output channel lies in `[v * (100 - s) / 100, v]` |
| `Color.ChannelsAreDuties` | RGB_pwm_rainbow/color.c:8-53 | every output channel lies in `[0, v]`, hence in `[0, 100]` |
| `Color.MaxChannelIsValue` | RGB_pwm_rainbow/color.c:30-50 | the largest of the three channels is exactly `v` |
| `Color.MinChannelIsFloor` | RGB_pwm_rainbow/color.c:30-50 | the smallest channel is exactly `hdp`, and 0 at saturation 100 |
| `Color.BoundaryContinuity` | RGB_pwm_rainbow/color.c:22-50 | the colour at hue `60k + 59` equals the colour at `60(k + 1)` for `k = 0..4` |
| `Color.WrapContinuity` | RGB_pwm_rainbow/color.c:22-50 | the colour at hue 359 equals the colour at hue 0 |
| `Color.AdjacentHuesNear` | RGB_pwm_rainbow/color.c:22-50 | for neighbouring hues `h, h + 1` below 360 no channel differs by more than 2 |
| `Color.AdjacentStepOfTwo` | RGB_pwm_rainbow/color.c:26-33 | from hue 0 to hue 1 at `s = v = 100` the green channel goes from 0 to 2 |
| `Color.PrimaryColors` | RGB_pwm_rainbow/color.c:14-45 | `(0,100,100)` is `(100,0,0)`, `(120,100,100)` is `(0,100,0)`, `(240,100,100)` is `(0,0,100)`, `(40,0,50)` is `(50,50,50)` |
| `Color.BlackWhenValueZero` | RGB_pwm_rainbow/color.c:26-50 | value 0 gives `(0, 0, 0)` for every hue and saturation |
| `Color.DefaultArm` | RGB_pwm_rainbow/color.c:30-49 | with nonzero saturation, the default arm is reached exactly by the hues from 300 on (including 360 and more), and it yields `(v, hdp, dec)` |
| `Color.HueNotNormalised` | RGB_pwm_rainbow/color.c:22-49 | hue 360 gives `(100, 0, 100)`, which differs from hue 0 |
| `Rainbow.DutyAt` | RGB_pwm_rainbow/main.c:94-97 | the triple sent to the PWM setter has every duty in `[0, 100]` and its largest duty is 100 |
| `Rainbow.Advance` | RGB_pwm_rainbow/main.c:91-92 | for a hue below 360 and a step of at most 360, adding the step and subtracting 360 once gives `(h + delta) % 360`, again below 360 |
| `Rainbow.Sweep` | RGB_pwm_rainbow/main.c:46-50 | the duties sent over `n` ticks of the main loop form a sequence of length `n`, and every element has duties in `[0, 100]` with maximum 100 |
| `Rainbow.SweepAt` | RGB_pwm_rainbow/main.c:46-50 | tick `i` of the main loop started at hue `h` sends the colour of hue `(h + i + 1) % 360` |
| `Rainbow.SweepPeriodic` | RGB_pwm_rainbow/main.c:46-50 | the colours sent by the main loop repeat every 360 ticks |
| `Rainbow.DutyNear` | RGB_pwm_rainbow/color.c:22-50 | at full saturation and value, hues `a` and `a + 1` below 360 differ by at most 2 in every duty |
| `Rainbow.DutyWrap` | RGB_pwm_rainbow/color.c:22-50 | at full saturation and value, hue 359 and hue 0 give the same duties |
| `Rainbow.DutyStep` | RGB_pwm_rainbow/main.c:91-94 | one degree further round the circle, including the wrap from 359 to 0, moves no duty by more than 2 |
| `Rainbow.SweepSmooth` | RGB_pwm_rainbow/main.c:46-50 | between consecutive ticks of the main loop no duty changes by more than 2, the tick that wraps the hue included |
| `Rainbow.RainbowEffect.constructor` | RGB_pwm_rainbow/main.c:85-89 | the persistent state starts at `h = 0, s = 100, v = 100` |
| `Rainbow.RainbowEffect.Step` | RGB_pwm_rainbow/main.c:83-98 | the new hue is `Advance(old h, delta)`, that is `(old h + delta) % 360 < 360`, and `s` and `v` are unchanged. The returned duties are `HsvToRgb` of the new state, each in `[0, 100]` with maximum 100 |
| `Rainbow.RainbowEffect.Run` | RGB_pwm_rainbow/main.c:46-50 | after `ticks` calls of `Step(1)` the hue is `(h + ticks) % 360`, so 360 ticks restore the state, and the duties sent are exactly `Sweep(h, ticks)` |

## Left out

- PWM initialisation, `app_pwm_enable`, the busy-wait loops of `set_RGB_PWM`, the ready callback and the error-blink mode are SDK and hardware calls (main.c:34-76, 101-112). The PWM setter is modelled only as the triple that `Step` returns.
- `nrf_delay_ms(100)` in the main loop is timing only. That loop never ends, and `Run` models any finite number of its ticks.
- Color.HsvToRgb: requires `s <= 100` and `v <= 100`. A saturation above 100 makes `100 - s` at color.c:26-28 wrap below zero in `uint32_t`, and that wrap-around is not modelled. The bound on `v` is narrower than the code needs: the products overflow only for `v > 2^32 / 100`, and at `s == 0` color.c:14-20 returns `(v, v, v)` for any `v`. It is kept at 100 because a channel is a duty in percent and the only caller passes `v = 100`.
- Rainbow.RainbowEffect.Step: requires `delta <= 360`. The parameter is `uint32_t` and its doc comment allows -100..100. A "negative" delta `-d` is the unsigned value `2^32 - d`. When `h >= d` the sum at main.c:91 wraps to `h - d`, which is back on the circle. When `h < d` it becomes `2^32 - (d - h)`, and the single subtraction of 360 does not bring it back onto the circle. That unsigned overflow of `hsv.h += angle_delta` is not modelled.
- The other example programs (USB CDC-ACM echo, timer and RTOS blinkers, pin-change interrupts, the BLE scanner script) are I/O and scheduling plumbing with no logic to model. The printf sweep of color-test.c has no assertions. Its input ranges are covered by the lemmas above.
