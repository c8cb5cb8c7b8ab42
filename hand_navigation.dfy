/** The hand-navigation component's shared refs as one object, updated in
    place by the landmark handler, the scroll loop and the teardown. Each
    method is proved to do exactly what the corresponding function of
    GestureMachine specifies. */
module HandNavigation {
  import opened Options
  import opened Geometry
  import opened GestureMachine

  class GestureState {
    var pinchActive: bool
    var lastPinchTime: real
    var pinchStart: Option<real>
    var isScrolling: bool
    var scrollAmount: real
    var lastCursor: Option<Point>

    /** The refs as a value. */
    function Model(): Snapshot
      reads this
    {
      Snapshot(pinchActive, lastPinchTime, pinchStart, isScrolling, scrollAmount, lastCursor)
    }

    ghost predicate Valid()
      reads this
    {
      Inv(Model())
    }

    /** The refs start idle, with nothing to scroll and no cursor yet. */
    constructor ()
      ensures Valid() && Model() == Initial
    {
      pinchActive := false;
      lastPinchTime := 0.0;
      pinchStart := None;
      isScrolling := false;
      scrollAmount := 0.0;
      lastCursor := None;
    }

    /** The landmark handler: one frame at time `now` (ms) in a viewport of
        the given size; returns the click to dispatch, if any. */
    method OnFrame(frame: Option<Hand>, now: real, viewportWidth: nat, viewportHeight: nat)
      returns (click: Option<Point>)
      requires Valid() && WellFormed(frame)
      modifies this
      ensures Valid()
      ensures (Model(), click) == Step(old(Model()), frame, now, viewportWidth, viewportHeight)
    {
      click := None;
      if frame.None? {
        if pinchActive && !isScrolling && now - lastPinchTime < ClickDurationThresholdMs {
          click := Some(lastCursor.value);
        }
        pinchActive := false;
        isScrolling := false;
        pinchStart := None;
        return;
      }

      var flipped := MirrorHand(frame.value);
      var indexTip := flipped[IndexTip];
      var cursor := Project(indexTip, viewportWidth, viewportHeight);
      lastCursor := Some(cursor);

      var thumbTip := flipped[ThumbTip];
      var wrist := flipped[Wrist];
      if IsPinch(thumbTip, indexTip) {
        if !pinchActive {
          pinchActive := true;
          lastPinchTime := now;
          pinchStart := Some(wrist.y);
          isScrolling := false;
        } else {
          var start := pinchStart.value;
          if PastDeadband(start, wrist.y, viewportHeight) || isScrolling {
            isScrolling := true;
            var amount := (start - wrist.y) * ScrollMultiplier;
            amount := Max(Min(amount, MaxScroll), -MaxScroll);
            scrollAmount := scrollAmount + amount;
            pinchStart := Some(wrist.y);
          }
        }
      } else if pinchActive {
        var pinchDuration := now - lastPinchTime;
        if !isScrolling && pinchDuration < ClickDurationThresholdMs {
          click := Some(cursor);
        }
        pinchActive := false;
        isScrolling := false;
        pinchStart := None;
        scrollAmount := 0.0;
      }
    }

    /** One tick of the scroll loop; returns the amount passed to `scrollBy`,
        if any. */
    method Tick() returns (scrolled: Option<real>)
      requires Valid()
      modifies this
      ensures Valid()
      ensures (Model(), scrolled) == TickStep(old(Model()))
    {
      scrolled := None;
      if scrollAmount != 0.0 {
        scrolled := Some(scrollAmount);
        scrollAmount := 0.0;
      }
    }

    /** The teardown reset of the pinch refs. */
    method Cleanup()
      modifies this
      ensures Valid()
      ensures Model() == Reset(old(Model()))
    {
      pinchActive := false;
      isScrolling := false;
      pinchStart := None;
    }
  }
}
