# Colour scanner: classifier and hold-to-confirm debouncer

A model of the logic of the Sweat-and-Stress colour scanner web page
(`src/main.js`). Each animation frame samples the centre pixel of the camera
image, converts it from RGB to hue, saturation and lightness (`rgbToHsl`),
maps it to one of four colour labels or to none (`detectColor`), and feeds
the label to a hold-to-confirm debouncer: a label must be read on every frame
for `HOLD_DURATION` (5000 ms) before it is confirmed, and confirming stops
the scan and opens the results screen.

- `wrappers.dfy` — `Option`, the model of JavaScript's `null`.
- `color.dfy` (module `ColorDetection`) — `rgbToHsl` and `detectColor` as
  functions over exact reals, the standard inverse conversion `HslToRgb`,
  and the lemmas that the conversion loses nothing and that each label names
  the pixel's dominant channel.
- `hold.dfy` (module `HoldConfirm`) — the hold state (`heldColor`,
  `holdStartTime`, `isScanning`) as a value, one frame as the transition
  `Tick`, a run of frames as `Run`, and the debouncing guarantees in both
  directions: nothing is confirmed without a steady hold of 5000 ms, and
  every such hold is confirmed.
- `scanner.dfy` (module `Scanner`) — class `HoldTracker`, whose fields are the
  three module-level variables and whose methods update them in place as
  `processScan`, `showScreen` and the button handlers do; each method's
  postcondition is the matching `HoldConfirm` transition.

Points where the page's behaviour is easy to misread:

- Frames are skipped while `isScanning` is false (`src/main.js:136`); the
  outcome `NotScanning` records that.
- The start buttons do not clear the hold (`showScreen('scanning')` keeps it);
  the hold is nevertheless empty whenever a scan starts, because every way of
  stopping a scan clears it. `HoldConfirm.Consistent` states this invariant
  and every transition keeps it.
- Channels are not clamped: the canvas delivers them as integers in
  [0, 255], which the `Channel` type states.
- The red band is written as (330, 360], but a hue of 360 never occurs, since
  `RgbToHsl` gives hues below 360.

## Model

| member | source | states |
|---|---|---|
| ColorDetection.Sextant | src/main.js:113-120 | the hue ratio chosen by the switch on the largest channel lies in [0, 6) |
| ColorDetection.UnitToHsl | src/main.js:106-122 | for channels scaled to [0, 1]: hue in [0, 360), saturation and lightness in [0, 100]; saturation 0 exactly when the channels are equal, and hue 0 then |
| ColorDetection.RgbToHsl | src/main.js:105-123 | for 8-bit channels: hue in [0, 360), saturation and lightness in [0, 100]; saturation 0 if and only if r = g = b, and hue 0 for grey |
| ColorDetection.RgbToHslRoundTrip | src/main.js:105-123 | converting the result back with the standard HSL-to-RGB formula gives the pixel's own three channels, so no colour information is lost |
| ColorDetection.HueBand | src/main.js:128-132 | each label is returned exactly on its own band (Red [0,15) and (330,360], Yellow [45,75), Green [90,160), Blue [180,260)), so the bands are disjoint and the gaps give no label |
| ColorDetection.DetectColor | src/main.js:125-133 | saturation below 20 or lightness outside [15, 90] gives no label whatever the hue, every grey pixel included; past those thresholds the label is the hue band alone |
| ColorDetection.LabelDominance | src/main.js:125-133 | Red only when red is the strictly largest channel, Green only when green is, Blue only when blue exceeds red and is at least green, Yellow only when blue is the strictly smallest channel |
| ColorDetection.RedBandEdges | src/main.js:128-132 | band edges are exact: 14.999 is red, 15 and 330 are not, 330.1 is; 45, 90, 180 open their bands and 75, 160, 260 close them |
| ColorDetection.DarkRedPixel | src/main.js:105-133 | the pixel (220, 30, 30) has hue 0, saturation 76, lightness 2500/51 and is labelled Red |
| HoldConfirm.CeilThousandths | src/main.js:159 | `Math.ceil(x / 1000)` for an integer x: the least q with x <= 1000q |
| HoldConfirm.Countdown | src/main.js:158-159 | the seconds shown are 0 exactly when the hold is complete, otherwise the ceiling of the remaining milliseconds over 1000, and at most 5 for a non-negative elapsed time |
| HoldConfirm.ShowScreen | src/main.js:35-45 | any screen but the scanning one clears the held label and its start time together; the scanning screen changes nothing; the state invariant is kept, and any other screen restores it |
| HoldConfirm.StartScan | src/main.js:206-211 | scanning starts, the hold is kept, and the state invariant is preserved |
| HoldConfirm.StopScan | src/main.js:213-217 | scanning stops and the hold is cleared: the state is the one of a freshly loaded page |
| HoldConfirm.Tick | src/main.js:135-181 | one frame: skipped while not scanning; preserves "label null iff start time null"; confirms exactly when the read label equals the held one and now minus its start time is at least 5000, then stops scanning and clears the hold; a new label restarts the hold at now with 5 s to go and is never confirmed on that frame; no label never confirms and drops the hold; a countdown lies in [1, 5] when the start time is not after now |
| HoldConfirm.Run | src/main.js:135-181 | running any sequence of frames keeps the state invariant |
| HoldConfirm.HoldWitness | src/main.js:150-156 | a held label was read on every frame from the reading whose time is the hold's start time |
| HoldConfirm.ConfirmedOnlyAfterSteadyHold | src/main.js:150-168 | a confirmation of label c on frame k implies c was read on every frame from some earlier frame j to k, with frame k at least 5000 ms after frame j |
| HoldConfirm.HoldNotInFuture | src/main.js:148-153 | with non-decreasing frame times, the hold's start time is never after the current frame |
| HoldConfirm.CountdownWithinFive | src/main.js:158-161 | with non-decreasing frame times, every countdown shown lies in [1, 5] |
| HoldConfirm.HoldOrConfirmed | src/main.js:147-169 | while one label is read on every frame of a running scan, it is either already confirmed or still held with a start time no later than the first of those frames |
| HoldConfirm.SteadyHoldConfirms | src/main.js:147-169 | if a running scan reads label c on every frame over 5000 ms, one of those frames confirms c |
| HoldConfirm.SteadyRedScenario | src/main.js:147-169 | Red read at 0, 1000, 2000, 3000, 4000, 4999 ms counts down 5, 4, 3, 2, 1, 1 and is confirmed at 5000 ms |
| HoldConfirm.InterruptedRedScenario | src/main.js:147-178 | Red at 0 and 2000, no label at 2001, Red at 2002: the hold restarts at 2002 and is confirmed at 7002 |
| HoldConfirm.SwitchedLabelScenario | src/main.js:150-156 | Red at 0 then Yellow at 3000 restarts the hold for Yellow at 3000 |
| Scanner.HoldTracker.constructor | src/main.js:30-33 | the page loads not scanning with nothing held |
| Scanner.HoldTracker.ShowScreen | src/main.js:35-45 | updates the fields as `HoldConfirm.ShowScreen`, keeps the invariant, and restores it when leaving the scanning screen |
| Scanner.HoldTracker.StartScan | src/main.js:206-211 | updates the fields as `HoldConfirm.StartScan` and keeps the invariant |
| Scanner.HoldTracker.StopScan | src/main.js:213-217 | updates the fields as `HoldConfirm.StopScan` |
| Scanner.HoldTracker.Observe | src/main.js:147-178 | the new fields and the outcome are those of `HoldConfirm.Tick` on the old fields, and the invariant is kept |
| Scanner.HoldTracker.ProcessScan | src/main.js:135-181 | classifies the pixel with `DetectColor`, then moves as `HoldConfirm.Tick` on that label |
| Scanner.RedHeldFiveSeconds | src/main.js:145-168 | a page that starts a scan and reads the pixel (220, 30, 30) at 1000 ms and 6000 ms confirms Red |

## Left out

- DOM access, screen switching through CSS classes, the countdown element's text and visibility, and the debug log: display only.
- Camera setup and teardown, canvas drawing and pixel extraction: browser I/O. The sampled pixel is an input of three `Channel` values.
- The `requestAnimationFrame` loop: one `Tick` (or one `Observe`) is one frame, and `Run` is a sequence of frames.
- `Date.now()`: the time is a parameter; properties that need it require non-decreasing frame times.
- The `await setupCamera()` before a scan starts: the start buttons are modelled from the moment the camera is ready.
- The result record table and `finalizeResults`' rendering: static text. The `stressData[colorName]` test on line 147 holds for every label and is not modelled.
- IEEE-754 rounding in `rgbToHsl` and `detectColor`: the model uses exact reals, so a pixel whose exact hue, saturation or lightness lies exactly on one of the thresholds of lines 127-131 may be labelled differently by the page (for example (54, 54, 81), whose exact saturation is 20).
- `vite.config.js`: build configuration, no logic.
