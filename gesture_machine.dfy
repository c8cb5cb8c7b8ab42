/** The pinch-gesture state machine of the hand-navigation component, as
    pure functions over a snapshot of its shared refs: one landmark frame
    (`Step`), one drain of the scroll accumulator (`TickStep`), and the
    teardown reset (`Reset`). The class in module HandNavigation runs these
    in place and is proved to agree with them. */
module GestureMachine {
  import opened Options
  import opened Geometry

  /** A pinch released sooner than this after its onset is a click (ms). */
  const ClickDurationThresholdMs: real := 300.0
  /** Scroll pixels per unit of normalized wrist movement. */
  const ScrollMultiplier: real := 2500.0
  /** Bound on the size of one scroll increment (pixels). */
  const MaxScroll: real := 2000.0
  /** Wrist movement, in viewport pixels, that turns a held pinch into a scroll. */
  const DeadbandPx: real := 20.0

  /** The shared refs: `pinchActiveRef`, `lastPinchTimeRef`, `pinchStartRef`
      (null is None), `isScrollingRef`, `scrollAmountRef`, and the last
      cursor position kept in `window.lastCursorX/Y` (None until a hand
      frame sets it). */
  datatype Snapshot = Snapshot(
    pinchActive: bool,
    lastPinchTime: real,
    pinchStart: Option<real>,
    isScrolling: bool,
    scrollAmount: real,
    lastCursor: Option<Point>)

  /** The refs' initial values. */
  const Initial: Snapshot := Snapshot(false, 0.0, None, false, 0.0, None)

  /** Scrolling only happens inside a pinch, the reference wrist Y is set
      exactly while a pinch is active, and an active pinch always has a
      recorded cursor (the onset frame recorded it). */
  ghost predicate Inv(s: Snapshot) {
    && (s.isScrolling ==> s.pinchActive)
    && (s.pinchStart.Some? <==> s.pinchActive)
    && (s.pinchActive ==> s.lastCursor.Some?)
  }

  /** A landmark frame: None when no hand was detected, otherwise the first
      hand, which must carry the wrist, thumb-tip and index-tip landmarks. */
  predicate WellFormed(frame: Option<Hand>) {
    frame.Some? ==> |frame.value| > IndexTip
  }

  function Min(a: real, b: real): real { if a <= b then a else b }
  function Max(a: real, b: real): real { if a >= b then a else b }

  /** `Math.max(Math.min(v, hi), lo)`. */
  function Clamp(v: real, lo: real, hi: real): (r: real)
    requires lo <= hi
    ensures lo <= r <= hi
    ensures lo <= v <= hi ==> r == v
    ensures v < lo ==> r == lo
    ensures hi < v ==> r == hi
  {
    Max(Min(v, hi), lo)
  }

  /** The scroll increment for a wrist that moved from `start` to `wristY`:
      proportional to the movement, in its direction, never larger than
      MaxScroll in size. */
  function ScrollIncrement(start: real, wristY: real): (r: real)
    ensures Abs(r) <= MaxScroll
    ensures Abs(start - wristY) * ScrollMultiplier <= MaxScroll ==> r == (start - wristY) * ScrollMultiplier
    ensures (r > 0.0 <==> start > wristY) && (r < 0.0 <==> start < wristY)
  {
    Clamp((start - wristY) * ScrollMultiplier, -MaxScroll, MaxScroll)
  }

  /** The deadband test: only this comparison is scaled by the viewport
      height, so the deadband is 20 / viewportHeight in normalized units,
      and in a viewport of height 0 a pinch never leaves it. */
  predicate PastDeadband(start: real, wristY: real, viewportHeight: nat)
    ensures viewportHeight > 0 ==>
              (PastDeadband(start, wristY, viewportHeight)
               <==> Abs(start - wristY) > DeadbandPx / viewportHeight as real)
    ensures viewportHeight == 0 ==> !PastDeadband(start, wristY, viewportHeight)
  {
    var moved := Abs(start - wristY) * viewportHeight as real;
    assert viewportHeight > 0 ==>
             (moved > DeadbandPx <==> Abs(start - wristY) > DeadbandPx / viewportHeight as real) by {
      if viewportHeight > 0 {
        DividedThreshold(Abs(start - wristY), viewportHeight as real, DeadbandPx);
      }
    }
    moved > DeadbandPx
  }

  /** For a positive scale h, a * h > c exactly when a > c / h. */
  lemma DividedThreshold(a: real, h: real, c: real)
    requires h > 0.0
    ensures a * h > c <==> a > c / h
  {
    var q := c / h;
    assert q * h == c;
    assert a * h - q * h == (a - q) * h;
    if a > q {
      assert (a - q) * h > 0.0;
    } else {
      assert (q - a) * h >= 0.0;
    }
  }

  /** A quick pinch: released (or lost) within the click window. A release
      less than 300 ms after the onset time is quick; one 300 ms or more
      after it is not. */
  predicate Quick(s: Snapshot, now: real)
    ensures now < s.lastPinchTime + ClickDurationThresholdMs ==> Quick(s, now)
    ensures now >= s.lastPinchTime + ClickDurationThresholdMs ==> !Quick(s, now)
  {
    now - s.lastPinchTime < ClickDurationThresholdMs
  }

  /** One landmark frame: the new refs and the click it emits, if any. */
  function Step(s: Snapshot, frame: Option<Hand>, now: real, viewportWidth: nat, viewportHeight: nat)
    : (r: (Snapshot, Option<Point>))
    requires Inv(s) && WellFormed(frame)
    ensures Inv(r.0)
  {
    match frame
    case None =>
      // Tracking loss: a pending quick pinch still clicks, at the last cursor.
      var click := if s.pinchActive && !s.isScrolling && Quick(s, now)
                   then Some(s.lastCursor.value) else None;
      (s.(pinchActive := false, isScrolling := false, pinchStart := None), click)
    case Some(hand) =>
      // The three landmarks read from the mirrored hand.
      var indexTip := Mirror(hand[IndexTip]);
      var cursor := Project(indexTip, viewportWidth, viewportHeight);
      var s := s.(lastCursor := Some(cursor));
      var thumbTip := Mirror(hand[ThumbTip]);
      var wrist := Mirror(hand[Wrist]);
      if IsPinch(thumbTip, indexTip) then
        if !s.pinchActive then
          (s.(pinchActive := true, lastPinchTime := now, pinchStart := Some(wrist.y), isScrolling := false), None)
        else
          var start := s.pinchStart.value;
          if PastDeadband(start, wrist.y, viewportHeight) || s.isScrolling then
            (s.(isScrolling := true,
                scrollAmount := s.scrollAmount + ScrollIncrement(start, wrist.y),
                pinchStart := Some(wrist.y)), None)
          else
            (s, None)
      else if s.pinchActive then
        var click := if !s.isScrolling && Quick(s, now) then Some(cursor) else None;
        (s.(pinchActive := false, isScrolling := false, pinchStart := None, scrollAmount := 0.0), click)
      else
        (s, None)
  }

  /** One tick of the scroll loop: the amount handed to `scrollBy`, if any,
      and the drained refs. */
  function TickStep(s: Snapshot): (r: (Snapshot, Option<real>))
    ensures r.1.Some? <==> s.scrollAmount != 0.0
    ensures r.1.Some? ==> r.1.value == s.scrollAmount
    ensures r.0.scrollAmount == 0.0
    ensures r.0.(scrollAmount := s.scrollAmount) == s
  {
    if s.scrollAmount != 0.0 then (s.(scrollAmount := 0.0), Some(s.scrollAmount)) else (s, None)
  }

  /** The teardown reset of the pinch refs. */
  function Reset(s: Snapshot): (r: Snapshot)
    ensures Inv(r) && !r.pinchActive
    ensures r.scrollAmount == s.scrollAmount && r.lastPinchTime == s.lastPinchTime
    ensures r.lastCursor == s.lastCursor
  {
    s.(pinchActive := false, isScrolling := false, pinchStart := None)
  }

  /** The cursor a hand frame records: the mirrored index tip in pixels. */
  function CursorOf(hand: Hand, viewportWidth: nat, viewportHeight: nat): Point
    requires |hand| > IndexTip
  {
    Point((1.0 - hand[IndexTip].x) * viewportWidth as real, hand[IndexTip].y * viewportHeight as real)
  }

  /** The pinch decision on the tracker's raw (unmirrored) landmarks. */
  predicate Pinched(hand: Hand)
    requires |hand| > IndexTip
  {
    IsPinch(hand[ThumbTip], hand[IndexTip])
  }

  /** The pinch decision, wrist Y and cursor read off the mirrored hand are
      those of the raw hand. */
  lemma StepReadsRawHand(hand: Hand, viewportWidth: nat, viewportHeight: nat)
    requires |hand| > IndexTip
    ensures && IsPinch(Mirror(hand[ThumbTip]), Mirror(hand[IndexTip])) == Pinched(hand)
            && Mirror(hand[Wrist]).y == hand[Wrist].y
            && Project(Mirror(hand[IndexTip]), viewportWidth, viewportHeight) == CursorOf(hand, viewportWidth, viewportHeight)
  {
    MirrorPreservesPinch(hand[ThumbTip], hand[IndexTip]);
  }

  /** Onset: the first pinching frame starts a pinch at `now`, anchored at
      the wrist Y, not scrolling; it deposits nothing and emits no click. */
  lemma OnsetStartsPinch(s: Snapshot, hand: Hand, now: real, viewportWidth: nat, viewportHeight: nat)
    requires Inv(s) && |hand| > IndexTip
    requires !s.pinchActive && Pinched(hand)
    ensures Step(s, Some(hand), now, viewportWidth, viewportHeight)
            == (Snapshot(true, now, Some(hand[Wrist].y), false, s.scrollAmount,
                         Some(CursorOf(hand, viewportWidth, viewportHeight))), None)
  {
    StepReadsRawHand(hand, viewportWidth, viewportHeight);
  }

  /** A held pinch inside the deadband, not yet scrolling, changes nothing
      but the recorded cursor. */
  lemma DeadbandHoldsStill(s: Snapshot, hand: Hand, now: real, viewportWidth: nat, viewportHeight: nat)
    requires Inv(s) && |hand| > IndexTip
    requires s.pinchActive && Pinched(hand) && !s.isScrolling
    requires !PastDeadband(s.pinchStart.value, hand[Wrist].y, viewportHeight)
    ensures Step(s, Some(hand), now, viewportWidth, viewportHeight)
            == (s.(lastCursor := Some(CursorOf(hand, viewportWidth, viewportHeight))), None)
  {
    StepReadsRawHand(hand, viewportWidth, viewportHeight);
  }

  /** A held pinch past the deadband, or already scrolling, deposits exactly
      the clamped increment, marks the pinch as scrolling and re-bases the
      reference Y to the current wrist; the onset time is kept and no click
      is emitted. */
  lemma HeldPinchScrolls(s: Snapshot, hand: Hand, now: real, viewportWidth: nat, viewportHeight: nat)
    requires Inv(s) && |hand| > IndexTip
    requires s.pinchActive && Pinched(hand)
    requires s.isScrolling || PastDeadband(s.pinchStart.value, hand[Wrist].y, viewportHeight)
    ensures var (t, click) := Step(s, Some(hand), now, viewportWidth, viewportHeight);
            && click.None?
            && t.pinchActive && t.isScrolling
            && t.pinchStart == Some(hand[Wrist].y)
            && t.scrollAmount == s.scrollAmount + ScrollIncrement(s.pinchStart.value, hand[Wrist].y)
            && Abs(t.scrollAmount - s.scrollAmount) <= MaxScroll
            && t.lastPinchTime == s.lastPinchTime
            && t.lastCursor == Some(CursorOf(hand, viewportWidth, viewportHeight))
  {
    StepReadsRawHand(hand, viewportWidth, viewportHeight);
  }

  /** While a pinch is held, it is scrolling afterwards exactly when it was
      scrolling before or the wrist left the deadband: once set, the flag
      stays set until the pinch ends. */
  lemma ScrollingIsSticky(s: Snapshot, hand: Hand, now: real, viewportWidth: nat, viewportHeight: nat)
    requires Inv(s) && |hand| > IndexTip
    requires s.pinchActive && Pinched(hand)
    ensures var t := Step(s, Some(hand), now, viewportWidth, viewportHeight).0;
            t.pinchActive
            && (t.isScrolling <==> s.isScrolling || PastDeadband(s.pinchStart.value, hand[Wrist].y, viewportHeight))
  {
    StepReadsRawHand(hand, viewportWidth, viewportHeight);
  }

  /** Release: one click at the current cursor exactly when the pinch never
      scrolled and was quick; either way the pinch ends and any pending
      scroll is discarded. */
  lemma ReleaseClicksIffQuick(s: Snapshot, hand: Hand, now: real, viewportWidth: nat, viewportHeight: nat)
    requires Inv(s) && |hand| > IndexTip
    requires s.pinchActive && !Pinched(hand)
    ensures var (t, click) := Step(s, Some(hand), now, viewportWidth, viewportHeight);
            && (click.Some? <==> !s.isScrolling && Quick(s, now))
            && (click.Some? ==> click.value == CursorOf(hand, viewportWidth, viewportHeight))
            && t == Snapshot(false, s.lastPinchTime, None, false, 0.0,
                             Some(CursorOf(hand, viewportWidth, viewportHeight)))
  {
    StepReadsRawHand(hand, viewportWidth, viewportHeight);
  }

  /** A non-pinching frame while idle changes nothing but the recorded cursor. */
  lemma IdleFrameChangesNothing(s: Snapshot, hand: Hand, now: real, viewportWidth: nat, viewportHeight: nat)
    requires Inv(s) && |hand| > IndexTip
    requires !s.pinchActive && !Pinched(hand)
    ensures Step(s, Some(hand), now, viewportWidth, viewportHeight)
            == (s.(lastCursor := Some(CursorOf(hand, viewportWidth, viewportHeight))), None)
  {
    StepReadsRawHand(hand, viewportWidth, viewportHeight);
  }

  /** Tracking loss: one click at the last recorded cursor exactly when a
      quick, unscrolled pinch was pending; the pinch refs return to idle and
      the scroll accumulator is left as it was. */
  lemma TrackingLossClicksIffQuick(s: Snapshot, now: real, viewportWidth: nat, viewportHeight: nat)
    requires Inv(s)
    ensures var (t, click) := Step(s, None, now, viewportWidth, viewportHeight);
            && (click.Some? <==> s.pinchActive && !s.isScrolling && Quick(s, now))
            && (click.Some? ==> s.lastCursor.Some? && click.value == s.lastCursor.value)
            && t == Reset(s)
  {
  }

  /** A frame that clicks ended a quick, unscrolled pinch, leaves the
      machine idle, and deposits no scroll: releasing while scrolling never
      clicks, whatever the duration. */
  lemma ClickOnlyEndsQuickTap(s: Snapshot, frame: Option<Hand>, now: real, viewportWidth: nat, viewportHeight: nat)
    requires Inv(s) && WellFormed(frame)
    requires Step(s, frame, now, viewportWidth, viewportHeight).1.Some?
    ensures s.pinchActive && !s.isScrolling && Quick(s, now)
    ensures var t := Step(s, frame, now, viewportWidth, viewportHeight).0;
            !t.pinchActive && Deposit(s, frame, viewportHeight) == 0.0
  {
    if frame.Some? {
      var hand := frame.value;
      StepReadsRawHand(hand, viewportWidth, viewportHeight);
      if Pinched(hand) {
        assert false;
      } else {
        ReleaseClicksIffQuick(s, hand, now, viewportWidth, viewportHeight);
      }
    }
  }

  /** The scroll deposited by a frame, classified on the raw landmarks: the
      clamped increment on a held pinch past the deadband or already
      scrolling, zero otherwise. */
  function Deposit(s: Snapshot, frame: Option<Hand>, viewportHeight: nat): real
    requires Inv(s) && WellFormed(frame)
  {
    match frame
    case None => 0.0
    case Some(hand) =>
      if s.pinchActive && Pinched(hand)
         && (s.isScrolling || PastDeadband(s.pinchStart.value, hand[Wrist].y, viewportHeight))
      then ScrollIncrement(s.pinchStart.value, hand[Wrist].y)
      else 0.0
  }

  /** The pending scroll a frame discards: all of it on a release, none otherwise. */
  function Dropped(s: Snapshot, frame: Option<Hand>): real
    requires WellFormed(frame)
  {
    match frame
    case None => 0.0
    case Some(hand) => if s.pinchActive && !Pinched(hand) then s.scrollAmount else 0.0
  }

  /** Every frame changes the accumulator by its deposit minus what it discards. */
  lemma StepAccumulates(s: Snapshot, frame: Option<Hand>, now: real, viewportWidth: nat, viewportHeight: nat)
    requires Inv(s) && WellFormed(frame)
    ensures Step(s, frame, now, viewportWidth, viewportHeight).0.scrollAmount
            == s.scrollAmount + Deposit(s, frame, viewportHeight) - Dropped(s, frame)
  {
    if frame.Some? {
      StepReadsRawHand(frame.value, viewportWidth, viewportHeight);
    }
  }

  /** A tick right after a tick applies nothing: no amount is applied twice. */
  lemma TickTwiceAppliesOnce(s: Snapshot)
    ensures TickStep(TickStep(s).0).1.None?
    ensures TickStep(TickStep(s).0).0 == TickStep(s).0
  {
  }

  /** The teardown reset is idempotent and keeps the invariant. */
  lemma ResetIsIdempotent(s: Snapshot)
    ensures Reset(Reset(s)) == Reset(s)
    ensures Inv(Reset(s))
  {
  }
}
