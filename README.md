# Hand-gesture navigation: the pinch state machine

This project models the gesture core of the hand-navigation React component
in `HandNavigation-React-Js.js`. A hand tracker reports 21 normalized landmarks
per camera frame. The component turns them into a cursor position, clicks and
scroll amounts:

- every frame mirrors the landmarks horizontally and projects the index tip to
  viewport pixels (the cursor);
- a pinch is a thumb-tip / index-tip distance strictly below 0.08;
- a pinch released within 300 ms that never scrolled is a click;
- a held pinch whose wrist moves more than 20 px scrolls, by
  `(reference Y - wrist Y) * 2500` clamped to [-2000, 2000], re-basing the
  reference Y on every increment;
- the scroll loop hands the accumulated amount to `scrollBy` and zeroes it;
- losing the hand is treated like a release for click purposes;
- teardown resets the pinch refs.

Modules:

- `Options` (options.dfy): the optional-value datatype.
- `Geometry` (geometry.dfy): landmarks, mirroring, projection to pixels, and
  the pinch test. The test compares squared distances, which is equivalent to
  comparing the square root, as `PinchMatchesDistance` proves.
- `GestureMachine` (gesture_machine.dfy): the shared refs as a value
  (`Snapshot`) and their invariant `Inv`. It gives one landmark frame as a
  function (`Step`), one scroll-loop tick (`TickStep`) and the teardown reset
  (`Reset`), with one lemma per transition.
- `HandNavigation` (hand_navigation.dfy): the refs as the object
  `GestureState`, updated in place by `OnFrame`, `Tick` and `Cleanup`. Each
  method is proved to produce exactly the state and output of the
  corresponding function.
- `GestureTrace` (gesture_trace.dfy): runs over any interleaving of frames and
  ticks. It proves:
  - the scroll accumulator's conservation law;
  - that any quick tap ended by an open hand clicks exactly once;
  - that the re-based scroll increments add up to the wrist's total movement
    x 2500 when no increment is clamped;
  - two concrete gestures: a quick tap and a scroll.

  A tap ended by losing the hand is covered, for that one frame, by
  `TrackingLossClicksIffQuick`.

## Behaviour of the code worth noting

- A release zeroes the pending scroll (line 222). Scroll deposited since the
  last tick is discarded rather than drained. `ScrollIsConserved` accounts for
  it as `Discarded`.
- The scroll increment is not scaled by the viewport height (line 204). Only
  the deadband test is (line 200), so whether a pinch starts scrolling depends
  on the height. Once a pinch is scrolling, a wrist move of 0.10 deposits 250
  pixels whatever the viewport height (line 204, `HeldPinchScrolls`).
- Teardown (lines 120-122) resets the pinch flags and the reference Y. It
  leaves the scroll accumulator, the onset time and the last cursor unchanged.
- A click on tracking loss uses the last recorded cursor (line 158). That
  global may never have been set, but it is always set whenever a pinch is
  active: a pinch can only start on a hand frame, and every hand frame records
  the cursor first (lines 175-176). This is part of `Inv`, so the click's
  position is always defined.

## Model

| member | source | states |
|---|---|---|
| `Geometry.MirrorHand` | HandNavigation-React-Js.js:168 | every landmark is mirrored (x becomes 1 - x, y and z kept), in order, none added or lost |
| `Geometry.Scale` | HandNavigation-React-Js.js:173-174 | a normalized coordinate inside the camera frame projects to a pixel inside the viewport |
| `Geometry.Project` | HandNavigation-React-Js.js:173-174 | the cursor of a landmark inside the camera frame lies inside the viewport, in pixels |
| `Geometry.IsPinch` | HandNavigation-React-Js.js:186-192 | a pinch implies the thumb and index tips are less than 0.08 apart on each axis |
| `Geometry.PinchMatchesDistance` | HandNavigation-React-Js.js:186-192 | the pinch test holds iff the Euclidean thumb-index distance is strictly below 0.08; exactly 0.08 is not a pinch |
| `Geometry.MirrorPreservesPinch` | HandNavigation-React-Js.js:186-190 | mirroring both fingertips leaves their distance and so the pinch decision unchanged |
| `GestureMachine.Clamp` | HandNavigation-React-Js.js:205 | the result lies in [lo, hi], equals the input when it already does, and is the nearer bound otherwise |
| `GestureMachine.ScrollIncrement` | HandNavigation-React-Js.js:204-205 | an increment never exceeds 2000 in size, has the sign of the wrist movement, and is exactly movement x 2500 when that is within the bound |
| `GestureMachine.PastDeadband` | HandNavigation-React-Js.js:200-201 | the wrist has left the deadband iff it moved more than 20 / viewport height in normalized units; in a viewport of height 0 it never does |
| `GestureMachine.Quick` | HandNavigation-React-Js.js:212-213 | a release under 300 ms after the onset is quick; one 300 ms or more after it is not |
| `GestureMachine.Step` | HandNavigation-React-Js.js:156-224 | every frame keeps the invariant: scrolling only inside a pinch, a reference Y exactly while pinching, a recorded cursor while pinching |
| `GestureMachine.StepReadsRawHand` | HandNavigation-React-Js.js:168-190 | the pinch decision, wrist Y and cursor read from the mirrored hand are those of the raw landmarks |
| `GestureMachine.OnsetStartsPinch` | HandNavigation-React-Js.js:193-198 | the first pinching frame sets pinchActive, the onset time and the reference Y, clears isScrolling, deposits nothing, emits no click |
| `GestureMachine.DeadbandHoldsStill` | HandNavigation-React-Js.js:199-201 | a held pinch within 20 px that is not scrolling changes nothing but the cursor |
| `GestureMachine.HeldPinchScrolls` | HandNavigation-React-Js.js:200-207 | past the deadband or while scrolling, the accumulator grows by exactly the clamped increment (at most 2000), isScrolling is set, the reference Y is re-based to the wrist, no click |
| `GestureMachine.ScrollingIsSticky` | HandNavigation-React-Js.js:200-202 | during a held pinch, isScrolling afterwards iff it was set before or the wrist left the deadband |
| `GestureMachine.ReleaseClicksIffQuick` | HandNavigation-React-Js.js:210-223 | a release clicks at the current cursor iff the pinch never scrolled and lasted under 300 ms; it then returns to idle and zeroes the accumulator |
| `GestureMachine.IdleFrameChangesNothing` | HandNavigation-React-Js.js:210-211 | a non-pinching frame while idle changes nothing but the cursor and emits no click |
| `GestureMachine.TrackingLossClicksIffQuick` | HandNavigation-React-Js.js:156-164 | losing the hand clicks at the last cursor iff a quick unscrolled pinch was active, then resets the pinch refs and leaves the accumulator alone |
| `GestureMachine.ClickOnlyEndsQuickTap` | HandNavigation-React-Js.js:156-223 | any frame that clicks ended an active, quick, unscrolled pinch, leaves the machine idle and deposits no scroll |
| `GestureMachine.StepAccumulates` | HandNavigation-React-Js.js:204-222 | every frame changes the accumulator by its scroll deposit minus what a release discards |
| `GestureMachine.TickStep` | HandNavigation-React-Js.js:78-81 | a tick scrolls iff the accumulator is nonzero, by exactly that amount, and leaves it zero with nothing else changed |
| `GestureMachine.TickTwiceAppliesOnce` | HandNavigation-React-Js.js:78-81 | a second tick right after a tick scrolls nothing |
| `GestureMachine.Reset` | HandNavigation-React-Js.js:120-122 | teardown leaves the machine idle (invariant holds) and keeps the accumulator, onset time and cursor |
| `GestureMachine.ResetIsIdempotent` | HandNavigation-React-Js.js:120-122 | resetting twice is resetting once |
| `HandNavigation.GestureState.constructor` | HandNavigation-React-Js.js:39-44 | the refs start idle: no pinch, time 0, no reference Y, not scrolling, nothing to scroll |
| `HandNavigation.GestureState.OnFrame` | HandNavigation-React-Js.js:156-224 | the handler updates the refs in place to exactly the state `Step` gives and returns its click; the invariant is kept |
| `HandNavigation.GestureState.Tick` | HandNavigation-React-Js.js:77-83 | the scroll loop body returns the amount for `scrollBy` and drains the accumulator exactly as `TickStep` says |
| `HandNavigation.GestureState.Cleanup` | HandNavigation-React-Js.js:120-122 | teardown resets the pinch refs in place exactly as `Reset` says |
| `GestureTrace.ScrollIsConserved` | HandNavigation-React-Js.js:78-81 | over any interleaving of frames and ticks: pending at start + deposited = scrolled + discarded by releases + pending at end (nothing lost, nothing applied twice) |
| `GestureTrace.NoOpenHandDiscardsNothing` | HandNavigation-React-Js.js:210-222 | a run in which no frame shows an open hand discards no pending scroll |
| `GestureTrace.NoReleaseScrollsAllDeposits` | HandNavigation-React-Js.js:78-81 | a run in which no frame shows an open hand scrolls exactly what was pending plus what was deposited, less what is still pending |
| `GestureTrace.HeldTapClicksOnce` | HandNavigation-React-Js.js:199-223 | from a held unscrolled pinch, any number of ticks and still pinching frames followed by a quick release emit exactly one click at the release cursor, deposit nothing and end idle with nothing pending |
| `GestureTrace.AnyQuickTapClicksOnce` | HandNavigation-React-Js.js:192-223 | from idle, any onset, any number of ticks and pinching frames inside the deadband of the onset wrist Y, then a release under 300 ms after the onset: exactly one click, at the release cursor, nothing deposited, idle afterwards |
| `GestureTrace.ScrollTelescopes` | HandNavigation-React-Js.js:199-207 | while scrolling, any run of ticks and pinching frames with no clamped increment deposits exactly (reference Y - last wrist Y) x 2500, and stays scrolling from the last wrist Y |
| `GestureTrace.AppliedNoTicks` | HandNavigation-React-Js.js:78-81 | a run of landmark frames without a scroll-loop tick hands nothing to `scrollBy` |
| `GestureTrace.QuickTapClicksOnce` | HandNavigation-React-Js.js:192-223 | pinch at 0 ms, hold at 50 ms, release at 80 ms: exactly one click at the viewport centre, no scroll, idle afterwards |
| `GestureTrace.ScrollGestureNeverClicks` | HandNavigation-React-Js.js:192-207 | wrist 0.50, 0.40, 0.35 at 0, 16, 33 ms: deposits 250 then 125, never clicks, and the next tick scrolls 375 |

## Left out

- The early return when the canvas, video or cursor element is not mounted
  (line 142). In the model, every frame reaches the gesture logic.
- Hand-tracker setup, its options and the registration of the handler (lines
  128-141). Frames are inputs: `None` when no hand was detected, otherwise the
  first hand's landmarks.
- The model requires a hand frame to contain the wrist, thumb-tip and index-tip
  landmarks (`WellFormed`). The tracker always reports 21; on a shorter list
  the source would throw.
- Camera acquisition and release, and the stopping of media tracks (lines
  111-118, 227-240). These are I/O and promise plumbing.
- Canvas drawing of the video and the hand skeleton (lines 143-154, 183-184).
- Click dispatch (lines 85-95): hiding the cursor, finding the element at a
  point, calling `click()`, and the timed "clicked" class. The model emits the
  click position instead.
- `requestAnimationFrame` / `cancelAnimationFrame` scheduling (lines 82, 110,
  126). A tick is an explicit call or trace event. The model does not capture
  that ticks stop after teardown.
- Cursor styling (colour, opacity, transform) and the React shell, toast
  toggle, JSX and CSS.
- `performance.now()`, `window.innerWidth` and `window.innerHeight` become
  parameters. The viewport size is a natural number.
- Floating-point rounding: coordinates, times and scroll amounts are exact
  reals. The square root is replaced by a comparison of squares.
- `window.lastCursorX/Y` is a page-wide global. The model folds it into the
  object, starting unset, so it does not capture sharing across component
  instances.
- The z coordinate is carried along but never used, as in the source.
