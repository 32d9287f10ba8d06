# Mist: the clear-region animation engine

Mist lays a frosted-glass overlay over a page, whether an Obsidian workspace or a stand-alone demo page. Clicking, or typing in an input, "wipes" circular holes into the overlay's mask:

- a click opens a click area that grows, holds, then fades;
- focusing an input opens a pinned area that follows the caret until the input loses focus;
- a caret jump leaves a short-lived trail of small areas along the jump.

The engine lives in the `FrostedGlassEffect` class. It keeps two arrays of areas, `clearAreas` and `cursorPathAreas`. Once per animation frame it advances every area by one tick, splices the areas that faded out, and punches a radial gradient for each one that remains.

The same class exists twice: in the plugin (`src/FrostedGlassEffect.ts`) and in the demo (`script.js`). This project models both copies as one Dafny class, `Engine.FrostedGlassEffect`. Its `variant` (`Plugin` or `Demo`) selects the only behaviour in which they differ:

- the demo works in coordinates relative to its container;
- the demo ignores clicks outside the container (script.js:34-41);
- the demo treats only INPUT and TEXTAREA elements as editors; the plugin also counts content-editable elements (src/FrostedGlassEffect.ts:127-129, script.js:103, script.js:237).

Modules, in dependency order:

- `Common`: options, points, rectangles, the two variants, squared distance.
- `Regions`: the area record, the three kinds of area with their constants, and one tick of an area's state machine (`Step`, made of `Expand`, `StartFading` and `Fade`). Lemmas follow a click area through its whole life and chain into one: 48 ticks of growth to radius 120, a hold while at most 2500 ms old, then 125 fade ticks of 0.008 each before it is removed.
- `Sweep`: `updateAndDrawSingleArea` and one back-to-front loop of `drawClearAreas`. The loop is a method proved against the specification function `Survivors`. It shows that the loop keeps exactly the areas the tick does not expire, advanced and in their original order, and draws them back to front. Removing an area by `splice` while walking backwards never skips or revisits one.
- `PathSampler`: the caret-trail sampler. Its step count `ceil(d / 15)` is computed and proved without a square root, on squared distances. Lemmas show that the trail runs from the old caret point to the new one, and that consecutive samples are at most 15 units apart.
- `Caret`, `Clicks`: where a focused input's caret area, or a click's area, is placed, with the browser's measurements passed in as values.
- `Overlay`: the gradient stops, the blur clamp and the animation-continue test.
- `Engine`: the class itself. Its invariant `Valid()` holds before and after every method:
  - every area is well formed;
  - each array is in creation order;
  - every link from an input element to its area names a distinct area;
  - a linked area, wherever it is, is still pinned.

JavaScript object identity is modelled by a fresh `id` per area. The `_clearArea` property that an input element carries is the map `links` from an input's identity to the id of its area. The time stamp `Date.now()` is a parameter `now`. Radius, opacity and coordinates are exact reals.

The client method `Engine.CleanupThenStop` shows what a caller can rely on: a second `cleanup` leaves the state as the first left it, and the next frame after a cleanup requests no further frame.

## Model

| member | source | states |
|---|---|---|
| `Regions.ClickArea` | src/FrostedGlassEffect.ts:291-306 | a click area is well formed, at the click point, radius 0, opacity 1, expanding, maxRadius 120, speed 2.5, life 2500, fade rate 0.008, created now |
| `Regions.FocusArea` | src/FrostedGlassEffect.ts:144-155 | a focus area is well formed and pinned, radius 0, opacity 1, maxRadius 60, speed 3, with no life and no fade speed |
| `Regions.TrailArea` | src/FrostedGlassEffect.ts:229-241 | a trail area is well formed, radius 0, opacity 1, expanding, maxRadius 40, speed 4, fade rate 0.015, life 600 |
| `Regions.Retire` | src/FrostedGlassEffect.ts:166-170 | a blurred area is fading, no longer input-focused, has fadeSpeed 0.02 (its fade rate when it has no fadingSpeed), keeps its id, centre, radius, opacity and expansion, and stays well formed |
| `Regions.MoveTo` | src/FrostedGlassEffect.ts:201-203 | a caret move changes only the area's centre and keeps it well formed |
| `Regions.StepPhases` | src/FrostedGlassEffect.ts:337-358 | one tick changes only radius, expanding, fading and opacity; growth by expandingSpeed clamped to exactly maxRadius; fading starts iff the area is fully grown, not input-focused and past its life; a fading area loses exactly its fadingSpeed if nonzero, else its fadeSpeed if nonzero, else 0.008; a well-formed survivor stays well formed; a pinned area stays pinned and is not removed |
| `Regions.ClickGrowth` | src/FrostedGlassEffect.ts:338-344 | for k < 48 ticks a click area's radius is exactly 2.5 k and it changes in nothing else |
| `Regions.ClickReachesMaxRadius` | src/FrostedGlassEffect.ts:338-350 | after exactly 48 ticks a click area has radius 120 and has stopped expanding; if the 48th tick is within its life it is exactly the grown click area, not fading |
| `Regions.RunSplit` | src/FrostedGlassEffect.ts:383-392 | running ticks over two stretches of time is running over the first and then the second |
| `Regions.ClickHolds` | src/FrostedGlassEffect.ts:346-350 | a grown click area does not change at all on ticks at most 2500 ms after its creation |
| `Regions.ClickHoldEnds` | src/FrostedGlassEffect.ts:346-353 | the first tick more than 2500 ms after the click sets the grown area fading and takes the first 0.008 off its opacity |
| `Regions.ClickFadesOut` | src/FrostedGlassEffect.ts:352-357 | a fading click area has opacity 1 − 0.008 j after j decrements and is removed on the 125th |
| `Regions.ClickFadeStarts` | src/FrostedGlassEffect.ts:346-357 | from the grown area, the hold-ending tick followed by further ticks gives the fade state after 1 + that many decrements |
| `Regions.ClickAfterGrowth` | src/FrostedGlassEffect.ts:346-357 | from the grown area, a hold of ticks within the life, the hold-ending tick and the fade ticks give that fade state |
| `Regions.ClickLifecycle` | src/FrostedGlassEffect.ts:291-357 | a click area's whole life: 48 ticks of growth, an unchanged hold while at most 2500 ms old, then fading by 0.008 per tick; it is on the overlay iff fewer than 124 ticks followed the hold-ending one |
| `Regions.PinnedPersists` | src/FrostedGlassEffect.ts:346-350 | a pinned area survives any number of ticks, still pinned and well formed, with the same opacity, centre and id |
| `Regions.BlurredWhileExpandingGrowsAndFades` | src/FrostedGlassEffect.ts:338-353 | a focus area blurred while still growing both grows by 3 and loses 0.02 opacity on the next tick |
| `Sweep.Survivors` | src/FrostedGlassEffect.ts:320-335 | the tick never lengthens an array |
| `Sweep.UpdateAndDrawSingleArea` | src/FrostedGlassEffect.ts:337-361 | the advanced area is spliced out and not drawn exactly when the tick expires it; otherwise it replaces the old one in place and is drawn |
| `Sweep.SweepArray` | src/FrostedGlassEffect.ts:327-334 | the reverse loop leaves exactly `Survivors(areas, now)`, draws exactly those from the back, and paints one gradient per drawn area, in that order |
| `Sweep.Paints` | src/FrostedGlassEffect.ts:360 | one gradient is painted per drawn area |
| `Sweep.PaintsAppend` | src/FrostedGlassEffect.ts:327-334 | the gradients of two sweeps, one after the other, are the gradients of both sweeps' drawn areas in order |
| `Sweep.PaintedHoles` | src/FrostedGlassEffect.ts:363-367 | each gradient painted for a visible area is centred on it, no wider than its maximal radius, with alphas in [0, 1] falling from its opacity to 0 |
| `Sweep.FrameDrawn` | src/FrostedGlassEffect.ts:327-367 | what a frame draws, each array's survivors from the back, is what it paints: every drawn area is visible, and the gradients of the two sweeps one after the other are one per drawn area, each within its area |
| `Sweep.SweepStep` | src/FrostedGlassEffect.ts:327-329 | one iteration turns the survivors of the suffix after i into those of the suffix from i, by splice or by replacement |
| `Sweep.SurvivorsAppend` | src/FrostedGlassEffect.ts:327-334 | sweeping a concatenation is concatenating the sweeps: the sweep never reorders areas |
| `Sweep.SurvivorOrigin` | src/FrostedGlassEffect.ts:352-357 | every survivor is the one-tick successor of an area of the array that the tick did not expire |
| `Sweep.SurvivorKept` | src/FrostedGlassEffect.ts:352-360 | every area the tick does not expire survives |
| `Sweep.SurvivorsWellFormed` | src/FrostedGlassEffect.ts:338-360 | survivors are well formed: every drawn area has 0 < opacity ≤ 1 and 0 ≤ radius ≤ maxRadius |
| `Sweep.SurvivorIdBounds` | src/FrostedGlassEffect.ts:355 | a sweep keeps ids, so lower and upper bounds on them carry over |
| `Sweep.SurvivorsIncreasing` | src/FrostedGlassEffect.ts:355 | the sweep keeps the areas in creation order |
| `Sweep.SurvivorsKeepPinned` | src/FrostedGlassEffect.ts:346-350 | an area with a pinned id stays pinned, and if present it is still present after the sweep |
| `Sweep.AppendFresh` | src/FrostedGlassEffect.ts:305 | pushing well-formed areas with fresh increasing ids keeps an array well formed and in creation order |
| `Sweep.SweepKeepsInvariant` | src/FrostedGlassEffect.ts:320-335 | a sweep keeps the registry invariant of an array, keeps every linked area pinned and present, and leaves only visible areas |
| `Sweep.DrawnVisible` | src/FrostedGlassEffect.ts:360 | everything drawn in a frame is visible |
| `PathSampler.StepCount` | src/FrostedGlassEffect.ts:221-222 | the step count n of a move of squared length d2 > 0 satisfies 15(n−1) < d ≤ 15n, so it is `ceil(d / 15)`, and n ≥ 1 |
| `PathSampler.StepsFrom` | src/FrostedGlassEffect.ts:222 | the upward search returns a step count no lower than its start |
| `PathSampler.CeilStepsUnique` | src/FrostedGlassEffect.ts:222 | at most one n satisfies the ceiling condition |
| `PathSampler.MovedFarHasSteps` | src/FrostedGlassEffect.ts:210-213 | a move longer than 5 has positive length and at least one step, so the sampler never divides by zero |
| `PathSampler.TrailAreas` | src/FrostedGlassEffect.ts:224-244 | a move of n steps yields n + 1 trail areas |
| `PathSampler.TrailShape` | src/FrostedGlassEffect.ts:224-244 | the first trail area is at the start, the last at the end; every one is a fresh, well-formed, growing trail area with radius 0, opacity 1 and maxRadius 40, in id order |
| `PathSampler.TrailGap` | src/FrostedGlassEffect.ts:225-227 | consecutive samples are exactly 1/steps of the move apart |
| `PathSampler.TrailSpacing` | src/FrostedGlassEffect.ts:221-227 | with the move's step count, consecutive samples are at most 15 units apart |
| `PathSampler.ThirtyUnitMove` | src/FrostedGlassEffect.ts:220-245 | a 30-unit move takes 2 steps and lays areas at 0, 15 and 30 |
| `Caret.LineHeight` | src/FrostedGlassEffect.ts:259-260 | the line height is the parsed line height unless that is NaN or 0, and the font size otherwise; so with a positive font size and a non-negative parsed line height it is positive, never zero or NaN |
| `Caret.CursorPosition` | src/FrostedGlassEffect.ts:247-289 | in an editor the caret point is the probe's width right of the element's left edge and half a line above the probe's bottom, so with rendered metrics strictly above that bottom; elsewhere it is the element's centre |
| `Caret.Relative` | script.js:58-59 | the relative point plus the container's origin is the viewport point |
| `Caret.FocusPoint` | script.js:53-59 | the plugin uses the caret point as it is; the demo uses it relative to the container |
| `Clicks.ClickPoint` | script.js:234-246 | no area iff the target is an editor, or in the demo iff the click is outside the container; otherwise the plugin uses the client point and the demo the container-relative point, which lies inside the container |
| `Overlay.GradientStops` | src/FrostedGlassEffect.ts:365-367 | offsets 0, 0.7 and 1 increase; for opacity in [0, 1] the alphas opacity, opacity·0.5 and 0 stay in [0, 1] and never increase |
| `Overlay.DrawRadialGradient` | src/FrostedGlassEffect.ts:363-375 | the gradient is centred on the point, from radius 0 to the given radius, full opacity at the centre and none at the rim; for opacity in [0, 1] its alphas stay in [0, 1] and never increase |
| `Overlay.ClampBlur` | src/FrostedGlassEffect.ts:408 | the result is always in [0, 20], is the value itself when that is in range, and the nearer bound otherwise |
| `Engine.RetireId` | src/FrostedGlassEffect.ts:166-170 | only the area with the given id is retired; the rest are unchanged |
| `Engine.MoveId` | src/FrostedGlassEffect.ts:201-203 | only the area with the given id is moved; the rest are unchanged |
| `Engine.SweepFrame` | src/FrostedGlassEffect.ts:320-335 | the two sweeps of a frame, `clearAreas` first, leave each array's survivors, draw them from the back, paint one gradient within each drawn area, keep the registry invariant and keep every linked area present |
| `Engine.FrostedGlassEffect.constructor` | src/FrostedGlassEffect.ts:24-40 | a new engine has empty arrays, no caret position and no links, and its animation loop is running |
| `Engine.FrostedGlassEffect.CreateClearArea` | src/FrostedGlassEffect.ts:291-306 | exactly one click area with a fresh id is appended; the trail array, links and flags are unchanged |
| `Engine.FrostedGlassEffect.HandleClick` | src/FrostedGlassEffect.ts:125-137 | a click on an editor (or, in the demo, outside the container) creates nothing; any other click appends one click area at the click point |
| `Engine.FrostedGlassEffect.HandleInputFocus` | src/FrostedGlassEffect.ts:139-162 | one pinned focus area is appended and the input is linked to it; a previous link of the input is overwritten and its area left as it is |
| `Engine.FrostedGlassEffect.HandleInputBlur` | src/FrostedGlassEffect.ts:164-175 | for a linked input, its area is retired and the link dropped; for an unlinked one nothing changes |
| `Engine.FrostedGlassEffect.GenerateCursorPathAreas` | src/FrostedGlassEffect.ts:220-245 | the loop appends exactly the `ceil(d / 15) + 1` trail areas of the move, with fresh ids |
| `Engine.FrostedGlassEffect.UpdateClearAreaPosition` | src/FrostedGlassEffect.ts:193-218 | nothing happens for an unlinked input; otherwise the linked area moves to the caret, a trail is laid exactly when there was a previous caret point more than 5 units away, and the caret point is recorded |
| `Engine.FrostedGlassEffect.DrawClearAreas` | src/FrostedGlassEffect.ts:320-335 | both arrays become their survivors, `clearAreas` first; what is drawn is each array's survivors from the back; everything drawn is visible; the k-th gradient painted is that of the k-th drawn area and stays within it; a linked area stays present |
| `Engine.FrostedGlassEffect.Animate` | src/FrostedGlassEffect.ts:383-392 | one frame is swept, and another is requested iff an area remains or the loop has not been stopped |
| `Engine.FrostedGlassEffect.StartAnimation` | src/FrostedGlassEffect.ts:394-399 | a running loop is left alone; a stopped one is started and runs one frame |
| `Engine.FrostedGlassEffect.AdjustBlurStrength` | src/FrostedGlassEffect.ts:407-410 | the strength becomes the clamp of the old strength plus the amount, always within [0, 20] |
| `Engine.FrostedGlassEffect.Cleanup` | src/FrostedGlassEffect.ts:418-436 | the loop is stopped and both arrays are empty; the other fields are unchanged, so a second call changes nothing |
| `Engine.CleanupThenStop` | src/FrostedGlassEffect.ts:418-436 | a caller's view: after cleanup the engine is stopped and empty, a second cleanup changes no field, and the next frame requests no further frame |

Some definitions carry no contract of their own; the rows that state their facts are these:

- `Regions.Step`, the tick at src/FrostedGlassEffect.ts:337-358: `Regions.StepPhases`, and `Sweep.UpdateAndDrawSingleArea`, which performs it.
- `Regions.FadeRate`, the fallback chain at src/FrostedGlassEffect.ts:353: `Regions.StepPhases`, `Regions.ClickArea`, `Regions.TrailArea` and `Regions.Retire`.
- `Overlay.ShouldContinue`, the continue test at src/FrostedGlassEffect.ts:387: `Engine.FrostedGlassEffect.Animate`.
- `Clicks.InsideContainer`, the bounds check at script.js:37-38: `Clicks.ClickPoint`.
- `Caret.IsEditable`, the editor tests at src/FrostedGlassEffect.ts:127-129 and :250-252 and at script.js:103 and :237: `Clicks.ClickPoint` and `Caret.CursorPosition`.
- `Sweep.Paint`, the `drawRadialGradient` call at src/FrostedGlassEffect.ts:360: `Sweep.PaintedHoles`.
- `Regions.FadedClick`, the fade state of a click area: `Regions.ClickFadesOut` and `Regions.ClickLifecycle`.
- `Sweep.FramePainted`, what one frame paints: `Sweep.FrameDrawn`, `Engine.SweepFrame` and `Engine.FrostedGlassEffect.DrawClearAreas`.
- `Engine.Registry`, the engine's invariant on values, and `Engine.LinksKept`: `Engine.SweepFrame` and every method of the class through `Valid`.

## Left out

- DOM and canvas work is not modelled: overlay styles, the canvas and its resizing, the initial mask fill, `toDataURL`, mask updates and `destination-out` compositing. What the model keeps is which areas are drawn, in which order, and the gradient for each.
- Event wiring is not modelled: `addEventListener`, the `MutationObserver`, `setTimeout` and `requestAnimationFrame`. Events arrive as method calls, and a rescheduled frame is the result of `Animate`.
- The listener-removal helpers (src/FrostedGlassEffect.ts:185-191, script.js:162-168) are not modelled. They pass fresh closures and so never detach anything.
- Text measurement in `getCursorPosition` (computed style, the hidden probe element, bounding boxes) is not modelled. Its results are the fields of `CaretMeasure`.
- `toggleEffect` and `updateSettings` are not modelled. They only show or hide the overlay and store a blur strength from the settings. `src/settings.ts` and `src/main.ts` are not part of this model.
- IEEE-754 rounding is not modelled: numbers are exact reals. Repeated `+= 2.5` and `-= 0.008` are exact here, which is what the 48-tick and 125-tick lemmas rely on.
- The area's `target` property is not kept, because nothing reads it.
- `Date.now()` is sampled once per call, as the parameter `now`. Separate samples within one call, as in the trail loop, are taken to be equal.
- Blur strength is modelled for both copies, although the demo has none. The demo has no `adjustBlurStrength` or `cleanup`.
- Arrays of areas are sequence values in fields. Object identity, and the aliasing between `_clearArea` and the area in the array, are modelled by ids and the `links` map.
- `cleanup` does not clear the `_clearArea` links or `lastCursorPos`, and the model keeps them too.
- Engine.FrostedGlassEffect.GenerateCursorPathAreas: requires a positive distance. At distance 0 the source takes 0 steps, computes `0 / 0` and pushes one area at NaN, a path its only caller rules out with the 5-unit threshold.
- Sweep.Survivors: its own contract states only the length bound. What it keeps, in which order and in which state is stated by the `Survivor*` lemmas and by `SweepArray`.
