# sdl2_template animation core in Dafny

A model of the per-frame animation state machine of the SDL2 starter template
(`src/lib.rs`): the `State` record and its defaults, the `ColorBase` palette and its
successor cycle, the `update` step that mixes a flash timer, the colour-base cycle and a
hue drift, the `input` phase that folds window events into the `done` flag, and the
`while !state.done` main loop that runs input, update and output in that order.

Files and modules:

- `color.dfy` (`Color`): `ColorBase`, HSV triples as exact reals, `ToHsv`, the successor
  `Next`, its iterates `NextN`, and the cycle facts.
- `flash_timing.dfy` (`FlashTiming`): counting the frames whose flash timer is zero, and the
  modular-arithmetic lemmas behind it.
- `animation.dfy` (`Animation`): `State`, `New` (`State::new`), `Configure` (what
  `rlib_run` does to the state before the loop), `Update` (`update`), `Steps` (iterated
  updates) and the properties of iterated updates.
- `input.dfy` (`Input`): events reduced to Quit / KeyDown(keycode) / MouseMotion / other,
  with the possibly absent key code as an `Option`, and `HandleEvents` (`input`).
- `driver.dfy` (`Driver`): `MainLoop`, the main loop over a sequence of event batches.

Modelling choices:

- HSV values are triples of `real`. The `to_hsv` constants are exact, and `Hsv + Hsv` is
  channel-wise addition with no hue wrap-around and no clamping, as in the program.
- `u32` and `u64` fields are bounded subsets of `int`. The frame counter's `wrapping_add`
  is written out as `(frame + 1) % 2^64`.
- `update` forms two `u32` products, `flash_interval * fps` (src/lib.rs:163) and
  `60 * fps` (src/lib.rs:182), and divides by each. `Update` therefore requires both
  products to fit in a `u32` and to be non-zero (`ValidTiming`; the second is non-zero
  whenever the first is).
- The main loop takes the event source as a parameter: `batches[i]` holds the events polled
  in iteration `i`. A finite sequence observes a finite prefix of a run. If no quit signal
  arrives, `MainLoop` stops when the batches run out, where the program would go on polling.

Two consequences of the order of statements in src/lib.rs:

- `State::new` computes `hsv_delta` as `60.0 / fps` with `DEFAULT_FPS` (src/lib.rs:48), and
  `rlib_run` overwrites `fps` with the parsed value only afterwards (src/lib.rs:96-97). The
  hue step is therefore 1 degree per frame at every frame rate, so a second of frames
  drifts the hue by `fps` degrees (`Configure`, `DriftPerSecond`).
- The offset is accumulated at src/lib.rs:174, before the colour is chosen at
  src/lib.rs:175-178. At frame 1 after start-up the offset is therefore already 2 degrees
  and the colour shown is HSV(122, 1, 1) (`StartupSecondFrame`).

## Model

| member | source | states |
|---|---|---|
| Color.ToHsv | src/lib.rs:67-75 | each base's HSV constant has a hue in [0, 360); it is fully saturated exactly for Red, Green and Blue, and has zero value exactly for Black |
| Color.Add | src/lib.rs:174 | channel-wise addition of HSV triples (palette's `Hsv +`, no hue wrap, no clamping); adding the zero triple on either side changes nothing |
| Color.ToHsvWellFormed | src/lib.rs:66-75 | every base's HSV constant has hue in [0, 360) and saturation and value in [0, 1]; two bases share a constant only if they are the same base |
| Color.Next | src/lib.rs:166-172 | the successor always differs from the base, and it stays chromatic (Red/Green/Blue) exactly when the base is chromatic |
| Color.CycleReturns | src/lib.rs:166-172 | three steps bring Red, Green or Blue back, two steps bring White or Black back, and no shorter positive number of steps does |
| Color.Orbits | src/lib.rs:166-172 | Red goes to Green, then Blue, then Red; White goes to Black, then White |
| Color.NextNStaysInCycle | src/lib.rs:166-172 | no number of successor steps crosses between the Red/Green/Blue cycle and the White/Black cycle |
| Color.NextNPeriodic | src/lib.rs:166-172 | iterating the successor depends only on the step count modulo the base's cycle length |
| Animation.New | src/lib.rs:40-54 | the initial state is not done, at frame 0, with base Red showing Red's constant, a zero offset, and a hue step of one degree with no saturation or value change |
| Animation.Configure | src/lib.rs:93-101 | the start-up state has the parsed rate, interval and duration, is not done, is at frame 0 with base Red and zero offset, and keeps a hue step of 1 degree whatever the rate |
| Animation.NewIsValid | src/lib.rs:40-54 | the defaults meet update's timing requirement with a 420-frame flash period; the initial colour is Red's constant |
| Animation.FlashPeriod | src/lib.rs:163 | under the timing requirement the flash divisor is never zero |
| Animation.FlashTimer | src/lib.rs:163 | the flash timer lies strictly inside the flash period |
| Animation.IsFlashing | src/lib.rs:164 | a zero duration never flashes, a duration covering the whole period always flashes, and on a frame whose timer is zero the frame flashes exactly when the duration is positive |
| Animation.WrappingInc | src/lib.rs:190 | the frame counter's increment is addition of one modulo 2^64 |
| Animation.Update | src/lib.rs:161-191 | one update: the base changes exactly when the frame is a multiple of the period, and never leaves its cycle; the offset gains one hue step; a flashing frame shows White and any other frame shows the new base plus the new offset; the frame advances by one and wraps from 2^64-1 to 0; done, rate, step, interval and duration are unchanged |
| Animation.UpdateIgnoresDone | src/lib.rs:161-191 | update neither reads nor writes done |
| Animation.FlashIgnoresBase | src/lib.rs:174-178 | on a flashing frame the colour is White's constant, whatever the base is |
| Animation.NoFlashWithoutDuration | src/lib.rs:164-178 | with a zero flash duration no frame ever flashes, and every colour is base plus offset |
| Animation.Steps | src/lib.rs:134-138 | any number of updates leaves done, the rate, the hue step, the interval and the duration as they were, so the timing requirement keeps holding |
| Animation.StepsFrame | src/lib.rs:190 | n updates advance the frame counter by n modulo 2^64 |
| Animation.StepsOffset | src/lib.rs:174 | n updates add exactly n hue steps to the offset, flash frames included |
| Animation.StepsBase | src/lib.rs:163-173 | until the counter wraps, the base after n updates is the start base advanced once per visited frame whose timer is zero |
| Animation.FullPeriod | src/lib.rs:163-173 | from a zero timer, one whole period of updates advances the base exactly once, on its first update, and brings the timer back to zero |
| Animation.ConfiguredColorAt | src/lib.rs:161-191 | from start-up, the update on frame n leaves the base n / period + 1 steps past Red (always chromatic) and the offset at n + 1 degrees; it shows White exactly when n mod period is below the duration |
| Animation.StartupFirstFrame | src/lib.rs:161-191 | with the defaults, frame 0 flashes White and already moves the base from Red to Green |
| Animation.StartupSecondFrame | src/lib.rs:161-191 | with the defaults, frame 1 keeps the base Green and shows HSV(122, 1, 1): Green plus the two hue steps accumulated so far |
| Animation.DriftPerSecond | src/lib.rs:174 | one second of updates from start-up drifts the hue by fps degrees |
| FlashTiming.TriggersFromAligned | src/lib.rs:163-165 | from a multiple of the period, n frames contain (n - 1) / period + 1 zeros of the timer |
| Input.IsQuitSignal | src/lib.rs:145-154 | Quit and a KeyDown carrying Escape are quit signals; mouse motion, other events, and KeyDown with any other or no key code are not |
| Input.HandleEvent | src/lib.rs:145-154 | one event changes nothing but done, never clears it, sets it on a quit signal, and leaves the state untouched otherwise |
| Input.HandleEvents | src/lib.rs:142-158 | input changes nothing but done; it never clears done; done ends up set exactly when it was already set or some event is Quit or KeyDown with Escape |
| Input.HandleEventsAppend | src/lib.rs:142-158 | folding two event batches in turn is folding their concatenation |
| Driver.MainLoop | src/lib.rs:134-138 | the loop runs exactly up to and including the first iteration that sees a quit signal (none if done at entry); each iteration does one update; the final state is that many updates with done set accordingly; iteration j shows the colour of j + 1 updates, whatever the events |

## Left out

- Floating point: HSV channels are `f32` in the program and exact reals here. With a step of
  1.0, the `f32` offset stops growing once it reaches 2^24 (16777216.0 + 1.0 rounds back to
  16777216.0), after 2^24 updates, about 77.7 hours at 60 fps. `StepsOffset`,
  `ConfiguredColorAt` (offset `n + 1`) and `DriftPerSecond` (when `fps` exceeds 2^24)
  describe the program only below that bound; rounding before it is not modelled either.
- `hsv_to_color` (src/lib.rs:201-208): the HSV to sRGB to linear conversion belongs to the
  `palette` library, and the truncation to 8-bit channels goes with it.
- `output` (src/lib.rs:193-198): canvas clear/present and the frame sleep are windowing I/O
  and timing. The model records only the colour handed to the canvas.
- SDL initialisation, window creation and its error propagation (src/lib.rs:119-131) are
  calls into the windowing library.
- The diagnostic `println!` output of `rlib_run`, `input` and `update` has no effect on
  state. Only the requirement that `60 * fps` fits in a `u32` is kept, in `ValidTiming`.
- `parse_args` and `match_value` (src/lib.rs:210-283) wrap the `clap` argument parser and
  the environment. `Configure` takes the already-parsed values.
- The `run` FFI entry point (src/lib.rs:78-91) and `src/main.rs` only marshal C argument
  vectors.
- Animation.Update: `ValidTiming` excludes timings whose `u32` products overflow. A debug
  build panics there. A release build wraps the product silently and runs on with the
  wrapped period, panicking only when it wraps to 0. That release behaviour is not modelled.
- Driver.MainLoop: models a finite prefix of the event stream. When no quit signal
  arrives, the endless loop of the program is cut off where the batches end.
