# Match Toss scratch-to-reveal, modelled in Dafny

Match Toss is a two-screen mobile flow. You flip a coin, scratch a card to reveal the
outcome, watch a short celebration, and then the screen resets. The only real logic is the
scratch coverage tracker and the stage machine around it. Both screens
(`app/index.tsx` and `app/reveal.tsx`) carry an almost identical copy of them.

- `grid.dfy`, module `Grid`: the 30 x 30 coverage grid (`GRID_STEPS`) and the stroke width
  (`SCRATCH_STROKE` = 34). Defines cells, `Math.ceil` on exact reals, and the brush footprint
  of one sample. That footprint is the in-grid part of the square of side `2r+1`. It is
  defined declaratively, and the source's nested marking loop (`MarkSquare`) is proved to
  compute exactly that set. It also proves the footprint's size (the product of the two
  clipped spans) and that in-grid cell sets hold at most 900 cells.
- `tracker.dfy`, module `Tracker`: `handleScratchPoint` without its call into the reveal
  handler (`ScratchPoint` returns a reveal request instead). It covers the zero-size
  surface guard, the radius `ceil(34*0.6 / min(cellW, cellH))`, the centre cell
  `(floor(y/cellH), floor(x/cellW))`, coverage `|cells| / 900`, the rule that publishes
  progress only on changes above 0.01, and the reveal threshold 0.5. The threshold is
  restated exactly as `2 * |cells| >= 900`.
- `toss_screen.dfy`, module `TossScreen`: the `app/index.tsx` stage machine
  idle → flipping → scratch → celebrate → idle. It is written as one pure `Step` function
  per event, folded over event sequences by `Run`. It includes the one-shot reveal latch,
  the `startToss` guard, flip completion, the 7-second reset timer and the modal's manual
  reset.
- `reveal_screen.dfy`, module `RevealScreen`: the `app/reveal.tsx` stage machine
  scratch → celebrate → scratch. It includes the latch, the 10-second countdown interval,
  the 10-second reset timer and the always-visible back button.

Outside influences become event parameters:
- the drag position (`Touch(x, y)`), and a drag sample that reaches the handler of an
  earlier render which still saw the scratch stage (`StaleTouch(x, y)`);
- the measured surface size (`Measure(w, h)`);
- the random draw (`StartToss(draw)`);
- the end of the flip animation (`FlipComplete`);
- a firing of the reset timer (`ResetTimerElapsed`) or of the countdown interval (`Tick`).

Cancelled timers are modelled as flags. An event from a timer that is not armed, or a flip
completion with no animation in flight, changes nothing.

The two screens differ where noted:
- A reset in `app/reveal.tsx` (lines 107 and 111) returns the stage to `scratch` and
  navigates home; `RevealScreen.ResetExperience` models the stage change.
- Both screens check the surface's `width` and `height` on every sample (`app/index.tsx`
  line 121, `app/reveal.tsx` line 154), so a surface measured again as zero makes samples
  be dropped again. `Tracker.ScratchPoint` models this per-sample check.
- The celebration's reset timer is 7000 ms in `app/index.tsx` (line 110). In
  `app/reveal.tsx` it is 10000 ms, next to a 10-step one-second countdown (lines 124-125
  and 129).

## Model

| member | source | states |
|---|---|---|
| `Grid.Ceil` | app/index.tsx:125 | the brush radius rounding returns the least integer n with x <= n < x + 1 |
| `Grid.MarkSquare` | app/index.tsx:129-134 | the nested loop over the (2r+1)x(2r+1) square, skipping out-of-grid cells, adds exactly the in-grid cells of the square to the set, so stored cells stay in the grid |
| `Grid.Footprint` | app/index.tsx:129-134 | the cells one sample marks around (row, col): a cell is in the set iff it is in the 30x30 grid and within the radius of the centre along both axes |
| `Grid.FootprintSize` | app/index.tsx:129-134 | the number of cells one sample marks is the product of the square's clipped row span and column span |
| `Grid.AllInGridBound` | app/index.tsx:131-136 | a set of cells that all pass the bounds check holds at most 30*30 = 900 cells |
| `Tracker.Publish` | app/index.tsx:137-140 | the published progress changes only when the new coverage differs from it by more than 0.01, then it equals the coverage, and it is always within 0.01 of the coverage |
| `Tracker.Radius` | app/index.tsx:123-125 | on a surface of positive size the brush radius is at least one cell and is the least number of cells whose smaller side covers the brush reach 34 * 0.6 |
| `Tracker.CentreCell` | app/index.tsx:123-127 | on a surface of positive size the sample's cell is the one whose row band contains y and whose column band contains x; a point on the surface falls in a grid cell |
| `Tracker.SampleCells` | app/index.tsx:123-134 | the cells one sample marks all lie in the grid, and a sample on the surface always marks the cell under it |
| `Tracker.ScratchPoint` | app/index.tsx:119-144 | a sample on a zero-width or zero-height surface changes nothing and does not reveal; otherwise exactly the footprint around the sample's cell (radius from the smaller cell side) is added, and the reveal is requested iff at least half the grid is then marked; after a measured sample the published value is within 0.01 of the coverage, and it changes only to the new coverage when that moved by more than 0.01 |
| `Tracker.CoverageBounds` | app/index.tsx:136 | coverage of in-grid cells lies in [0, 1] |
| `Tracker.CoverageMonotone` | app/index.tsx:132-136 | adding cells never lowers the coverage ratio |
| `Tracker.Mark` | app/index.tsx:129-142 | marking adds exactly the footprint's cells, publishes the new coverage only when it moved by more than 0.01 (and then exactly it), keeps the published value within 0.01 of the coverage, and requests the reveal iff 2 * cells >= 900, i.e. coverage >= 0.5 |
| `Tracker.MarkWellFormed` | app/index.tsx:129-140 | marking in-grid cells keeps every cell in the grid, coverage in [0, 1] and the published progress at most 0.01 below the coverage |
| `Tracker.ScratchPointWellFormed` | app/index.tsx:119-140 | every sample, measured or not, keeps the session well formed in that sense |
| `Tracker.MarkMonotone` | app/index.tsx:132-136 | marking never unmarks a cell, never lowers the number of marked cells and never lowers coverage |
| `Tracker.MarkPublishedMonotone` | app/index.tsx:135-139 | on a well-formed session the published progress never decreases when a footprint is marked |
| `Tracker.MarkIdempotent` | app/index.tsx:132-140 | marking the same footprint again (a repeated sample at the same point) leaves cells, published progress and the reveal request unchanged |
| `Tracker.CentreSampleMarks49` | app/index.tsx:123-140 | on a 300x300 surface the radius is 3 and a centre sample marks the 7x7 block of rows and columns 12..18 (49 cells), publishing 49/900 without revealing |
| `TossScreen.ResetExperience` | app/index.tsx:88-99 | reset cancels the timer, clears the latch, the cells and the progress, hides the celebration and returns to idle |
| `TossScreen.HandleReveal` | app/index.tsx:102-110 | the first reveal latches, moves to celebrate, shows the celebration, starts the celebration effects once and arms the reset timer; with the latch set it changes nothing |
| `TossScreen.Toss` | app/index.tsx:190 | the outcome is heads iff the draw exceeds one half, so a draw of exactly one half gives tails |
| `TossScreen.StartTossStep` | app/index.tsx:181-192 | outside idle a toss request changes nothing; from idle it starts flipping with the drawn outcome, an empty session, a clear latch and no reset timer |
| `TossScreen.FlipCompleteStep` | app/index.tsx:208-211 | the animation's completion moves to scratch and changes nothing else; with no animation in flight it changes nothing |
| `TossScreen.TouchStep` | app/index.tsx:151-168 | a touch outside scratch or on an unmeasured surface changes nothing; in scratch it adds exactly the sample's footprint and, before the reveal, moves to celebrate iff half the grid is then marked |
| `TossScreen.InitialInv` | app/index.tsx:41-53 | the screen starts idle with no cells, zero progress, no latch and no timer, which satisfies the screen invariant |
| `TossScreen.StepInv` | app/index.tsx:88-212 | every callback preserves the invariant: latch, celebration, armed timer and celebrate stage go together, the flip is in flight exactly while flipping, idle and flipping hold an empty card, scratch holds under half the grid and celebrate at least half |
| `TossScreen.RunInv` | app/index.tsx:88-212 | the invariant holds after any sequence of callbacks |
| `TossScreen.ReachableInv` | app/index.tsx:129-136 | in every reachable state the stored cells are in the grid and coverage lies in [0, 1] |
| `TossScreen.StartTossGuard` | app/index.tsx:181-211 | from any state, starting a toss is ignored unless idle; from idle it clears cells, progress and latch, takes the drawn outcome and goes to flipping, and flip completion then goes to scratch |
| `TossScreen.TouchIgnored` | app/index.tsx:151-160 | a touch outside the scratch stage, or on an unmeasured surface, changes nothing |
| `TossScreen.TouchInScratch` | app/index.tsx:119-157 | a touch in scratch adds exactly the sample's footprint and moves to celebrate iff at least half the grid is then marked |
| `TossScreen.StepGrows` | app/index.tsx:132-157 | a single callback other than a reset never unmarks a cell and never lowers the published progress |
| `TossScreen.SessionGrows` | app/index.tsx:129-139 | without a reset, no sequence of callbacks unmarks a cell, lowers coverage or lowers the published progress |
| `TossScreen.FiresIffThreshold` | app/index.tsx:140-142 | the reveal handler gets past its latch on a callback iff it is a sample, current or stale, taken in scratch that brings at least half the grid in |
| `TossScreen.LatchHolds` | app/index.tsx:102-106 | once latched, the latch stays set and, stale samples included, no callback before a reset gets past it |
| `TossScreen.RevealAtMostOnce` | app/index.tsx:102-143 | within a session the celebration is started at most once, however many samples, stale ones included, exceed the threshold |
| `TossScreen.ResetRearms` | app/index.tsx:88-110 | a manual reset from celebrate goes to idle with an empty card and cancels the timer, so the timer's expiry then changes nothing; after a new toss and flip, in every later scratch state (after any callbacks) the latch is clear and a touch fires the reveal iff the cells plus its footprint reach half the grid |
| `TossScreen.CelebrateFrozen` | app/index.tsx:151-182 | in celebrate, current touches and toss requests leave the card unchanged, and no callback short of a reset leaves the stage or starts the celebration again |
| `TossScreen.StaleTouchLatched` | app/index.tsx:102-110 | a stale sample in celebrate marks its footprint but meets the latch: the celebration is not started again, the timer is not re-armed and nothing but the session changes |
| `TossScreen.TouchTwice` | app/index.tsx:129-143 | touching the same point twice in a row gives the same state as touching it once |
| `RevealScreen.CountdownStep` | app/reveal.tsx:129-139 | one tick maps prev to prev - 1 when prev >= 1 and never produces a negative value |
| `RevealScreen.CountdownClosedForm` | app/reveal.tsx:129-139 | from a non-negative start, n ticks give max(start - n, 0) |
| `RevealScreen.ResetExperience` | app/reveal.tsx:91-108 | reset cancels both timers, clears the latch, the cells, the progress and the countdown, and returns to scratch |
| `RevealScreen.HandleReveal` | app/reveal.tsx:117-140 | the first reveal latches, moves to celebrate, starts the celebration effects once, sets the countdown to 10 and arms the reset timer and the interval; with the latch set it changes nothing |
| `RevealScreen.TickStep` | app/reveal.tsx:129-139 | a tick of a running interval applies the countdown step and leaves the interval running iff the value it leaves is positive, changing nothing else; a cancelled interval's tick changes nothing |
| `RevealScreen.TouchStep` | app/reveal.tsx:187-207 | a touch in celebrate or on an unmeasured surface changes nothing; in scratch it adds exactly the sample's footprint and, before the reveal, moves to celebrate with the countdown at 10 iff half the grid is then marked |
| `RevealScreen.InitialInv` | app/reveal.tsx:52-66 | the screen starts in scratch with no cells, zero progress, no latch and a zero countdown, which satisfies the screen invariant |
| `RevealScreen.StepInv` | app/reveal.tsx:91-196 | every callback preserves the invariant: latch, armed timer and celebrate go together, the countdown runs only in celebrate with a value in [1, 10] and is zero when stopped, scratch holds under half the grid and celebrate at least half |
| `RevealScreen.RunInv` | app/reveal.tsx:91-196 | the invariant holds after any sequence of callbacks |
| `RevealScreen.ReachableInv` | app/reveal.tsx:129-172 | in every reachable state the stored cells are in the grid, coverage lies in [0, 1] and the countdown in [0, 10] |
| `RevealScreen.TouchIgnored` | app/reveal.tsx:187-196 | after the reveal, or on an unmeasured surface, a touch changes nothing |
| `RevealScreen.TouchInScratch` | app/reveal.tsx:152-193 | a touch in scratch adds exactly the sample's footprint and moves to celebrate with a fresh 10-second countdown iff at least half the grid is then marked |
| `RevealScreen.CountdownTicks` | app/reveal.tsx:129-140 | while the countdown runs the shown value follows the tick function iterated n times, each tick subtracts exactly one, it never goes negative, it stops itself on reaching zero, and the card stays frozen |
| `RevealScreen.StoppedTicks` | app/reveal.tsx:131-137 | once the interval has cancelled itself, further ticks change nothing |
| `RevealScreen.RevealCountdown` | app/reveal.tsx:122-140 | after the threshold-crossing touch, k <= 10 ticks leave 10 - k seconds, and the countdown has stopped at zero after 10 ticks |
| `RevealScreen.StepGrows` | app/reveal.tsx:164-193 | a single callback other than a reset never unmarks a cell and never lowers the published progress |
| `RevealScreen.SessionGrows` | app/reveal.tsx:164-176 | without a reset, no sequence of callbacks unmarks a cell, lowers coverage or lowers the published progress |
| `RevealScreen.LatchHolds` | app/reveal.tsx:117-121 | once latched, the latch stays set and, stale samples included, no callback before a reset gets past it |
| `RevealScreen.RevealAtMostOnce` | app/reveal.tsx:117-179 | within a session the celebration is started at most once, stale samples included |
| `RevealScreen.ResetRearms` | app/reveal.tsx:91-112 | the back button resets from any stage to the state of a freshly mounted screen (keeping the measured size), with both timers cancelled, so later expiries or ticks change nothing; in every later scratch state (after any callbacks) the latch is clear and a touch fires the reveal iff the cells plus its footprint reach half the grid |
| `RevealScreen.FiresIffThreshold` | app/reveal.tsx:177-179 | the reveal handler gets past its latch on a callback iff it is a sample, current or stale, taken in scratch that brings at least half the grid in |
| `RevealScreen.StaleTouchLatched` | app/reveal.tsx:117-129 | a stale sample in celebrate marks its footprint but meets the latch: the countdown is not restarted at 10, no timer is re-armed and nothing but the session changes |
| `RevealScreen.TouchTwice` | app/reveal.tsx:164-179 | touching the same point twice in a row gives the same state as touching it once |

## Left out

- Rendering is not modelled: the SVG mask, the drawn `paths` and the `toPathD` path-string
  builder, styles, gradients, Lottie, the Modal's look, toasts and progress-bar
  percentages. None of it feeds back into the tracker or the stage.
- Audio, haptics and font loading are not modelled. They are foreign side effects whose
  failures are swallowed. Only how often the reveal handler starts the haptic pulse and
  the drum roll is kept, as the `celebrations` counter of each screen.
- Navigation is not modelled. `router.replace("/")` in `app/reveal.tsx`, the `goHome`
  parameter and the route parameter that selects that screen's outcome all leave the
  model's scope.
- Real time is not modelled. The flip animation, `setTimeout` and `setInterval` become the
  abstract events `FlipComplete`, `ResetTimerElapsed` and `Tick`. The model does not
  enforce the timing relation between the 10-second timer and the tenth tick, so the
  timer may fire at any point while it is armed.
- The random source is not modelled. `Math.random()` becomes the `draw` parameter of
  `StartToss`, and `Toss` keeps the source's `> 0.5` comparison.
- Floating point is not modelled. Pixel sizes, coordinates, `34 * 0.6`, the coverage ratio
  and the 0.01 comparison use exact reals, so rounding at the exact boundary of the
  publish rule is not modelled. A `NaN` layout dimension (falsy in the guard) is not
  modelled either; only zero is.
- React scheduling is modelled only for drag samples. The gesture handlers capture
  `stage` at render time (`app/index.tsx` lines 148-173, `app/reveal.tsx` lines 184-212),
  so a sample can pass the stage check after the stage has moved on; `StaleTouch` is that
  sample, and only the reveal latch then stops a second reveal. Batched state updates, a
  stale layout inside a sample, and a stale `stage` in `startToss` (a second tap before
  the re-render) are not modelled: each of these events sees the state left by the
  previous one.
- `TossScreen.StaleTouchStep`: a stale sample is admitted only in scratch and celebrate.
  The handler that lets it through captured the scratch stage, and celebrate is the only
  stage that follows scratch before the next render; a stale sample in idle would need
  the 7-second timer or the modal's button to act with no render in between.
- The effect clean-ups on unmount and the Android toast on entering scratch are left out.
  They change no modelled state.
- `TossScreen.FlipCompleteStep`: the source's completion callback sets `scratch`
  unconditionally. The model acts only while an animation is in flight, because the
  animation driver calls back once per `startToss`.
- `TossScreen` manual reset: `ResetPressed` is honoured only while the celebration modal
  is shown, because the modal's buttons are the only caller of `resetExperience` besides
  the timer.
- The Android activities (`MainActivity.java`, `MainActivity2.java`) are not part of this
  model. They are intent, dialog and media glue, and their scratch view is not part of
  this model either.
