/** Runs of the gesture machine over an interleaving of landmark frames and
    scroll-loop ticks: what is clicked, what is scrolled, and the
    bookkeeping law of the scroll accumulator. */
module GestureTrace {
  import opened Options
  import opened Geometry
  import opened GestureMachine

  /** The two drivers of the component: the hand tracker delivering a frame,
      and the display refresh running the scroll loop once. */
  datatype Event =
    | Landmarks(frame: Option<Hand>, now: real, viewportWidth: nat, viewportHeight: nat)
    | ScrollTick

  predicate EventOk(e: Event) {
    e.Landmarks? ==> WellFormed(e.frame)
  }

  predicate TraceOk(es: seq<Event>) {
    forall i :: 0 <= i < |es| ==> EventOk(es[i])
  }

  /** The refs after one event. */
  function Next(s: Snapshot, e: Event): (r: Snapshot)
    requires Inv(s) && EventOk(e)
    ensures Inv(r)
  {
    match e
    case Landmarks(frame, now, w, h) => Step(s, frame, now, w, h).0
    case ScrollTick => TickStep(s).0
  }

  /** The refs after a whole run. */
  function Run(s: Snapshot, es: seq<Event>): (r: Snapshot)
    requires Inv(s) && TraceOk(es)
    ensures Inv(r)
    decreases |es|
  {
    if es == [] then s else Run(Next(s, es[0]), es[1..])
  }

  /** The click one event emits, as a sequence of zero or one points. */
  function ClickOf(s: Snapshot, e: Event): seq<Point>
    requires Inv(s) && EventOk(e)
  {
    match e
    case Landmarks(frame, now, w, h) =>
      (match Step(s, frame, now, w, h).1 case Some(p) => [p] case None => [])
    case ScrollTick => []
  }

  /** The amount one event hands to `scrollBy`. */
  function ScrolledBy(s: Snapshot, e: Event): real
    requires Inv(s) && EventOk(e)
  {
    match e
    case Landmarks(_, _, _, _) => 0.0
    case ScrollTick => (match TickStep(s).1 case Some(a) => a case None => 0.0)
  }

  /** The scroll one event deposits. */
  function DepositedBy(s: Snapshot, e: Event): real
    requires Inv(s) && EventOk(e)
  {
    if e.Landmarks? then Deposit(s, e.frame, e.viewportHeight) else 0.0
  }

  /** The pending scroll one event discards. */
  function DiscardedBy(s: Snapshot, e: Event): real
    requires EventOk(e)
  {
    if e.Landmarks? then Dropped(s, e.frame) else 0.0
  }

  /** The clicks a run emits, in order. */
  function Clicks(s: Snapshot, es: seq<Event>): seq<Point>
    requires Inv(s) && TraceOk(es)
    decreases |es|
  {
    if es == [] then [] else ClickOf(s, es[0]) + Clicks(Next(s, es[0]), es[1..])
  }

  /** The total a run hands to `scrollBy`. */
  function Applied(s: Snapshot, es: seq<Event>): real
    requires Inv(s) && TraceOk(es)
    decreases |es|
  {
    if es == [] then 0.0 else ScrolledBy(s, es[0]) + Applied(Next(s, es[0]), es[1..])
  }

  /** The total of the scroll increments a run's frames deposit. */
  function Deposited(s: Snapshot, es: seq<Event>): real
    requires Inv(s) && TraceOk(es)
    decreases |es|
  {
    if es == [] then 0.0 else DepositedBy(s, es[0]) + Deposited(Next(s, es[0]), es[1..])
  }

  /** The total of the pending scroll a run's releases discard. */
  function Discarded(s: Snapshot, es: seq<Event>): real
    requires Inv(s) && TraceOk(es)
    decreases |es|
  {
    if es == [] then 0.0 else DiscardedBy(s, es[0]) + Discarded(Next(s, es[0]), es[1..])
  }

  /** Nothing is lost or applied twice: what was pending at the start plus
      everything deposited equals everything scrolled, plus everything
      discarded by releases, plus what is still pending. */
  lemma {:induction false} ScrollIsConserved(s: Snapshot, es: seq<Event>)
    requires Inv(s) && TraceOk(es)
    ensures s.scrollAmount + Deposited(s, es)
            == Applied(s, es) + Discarded(s, es) + Run(s, es).scrollAmount
    decreases |es|
  {
    if es != [] {
      if es[0].Landmarks? {
        var e := es[0];
        StepAccumulates(s, e.frame, e.now, e.viewportWidth, e.viewportHeight);
      }
      ScrollIsConserved(Next(s, es[0]), es[1..]);
    }
  }

  /** A frame of a hand that is pinching. */
  predicate PinchFrame(e: Event) {
    e.Landmarks? && e.frame.Some? && |e.frame.value| > IndexTip && Pinched(e.frame.value)
  }

  /** An event that cannot release a pinch: a tick, a lost hand, or a
      pinching hand. */
  predicate NoOpenHand(e: Event) {
    e.Landmarks? && e.frame.Some? ==> PinchFrame(e)
  }

  /** Without an open hand no release happens, so nothing is discarded. */
  lemma {:induction false} NoOpenHandDiscardsNothing(s: Snapshot, es: seq<Event>)
    requires Inv(s) && TraceOk(es)
    requires forall i :: 0 <= i < |es| ==> NoOpenHand(es[i])
    ensures Discarded(s, es) == 0.0
    decreases |es|
  {
    if es != [] {
      assert NoOpenHand(es[0]);
      var rest := es[1..];
      assert forall i :: 0 <= i < |rest| ==> NoOpenHand(rest[i]) by {
        forall i | 0 <= i < |rest| ensures NoOpenHand(rest[i]) {
          assert rest[i] == es[i + 1];
        }
      }
      NoOpenHandDiscardsNothing(Next(s, es[0]), rest);
    }
  }

  /** A run in which no frame shows an open hand scrolls exactly what was
      pending plus what it deposited, less what is still pending at its
      end. */
  lemma NoReleaseScrollsAllDeposits(s: Snapshot, es: seq<Event>)
    requires Inv(s) && TraceOk(es)
    requires forall i :: 0 <= i < |es| ==> NoOpenHand(es[i])
    ensures Applied(s, es) == s.scrollAmount + Deposited(s, es) - Run(s, es).scrollAmount
  {
    NoOpenHandDiscardsNothing(s, es);
    ScrollIsConserved(s, es);
  }

  /** An event that keeps a pinch held still: a tick, or a pinching frame
      whose wrist is inside the deadband around `y0`. */
  predicate StillPinch(y0: real, e: Event) {
    e.ScrollTick? || (PinchFrame(e) && !PastDeadband(y0, e.frame.value[Wrist].y, e.viewportHeight))
  }

  /** From a held pinch that has not scrolled: any number of ticks and still
      pinching frames, then an open hand within the click window, emit one
      click at the cursor of that last frame, deposit nothing, and leave
      the machine idle with nothing pending. */
  lemma {:induction false} HeldTapClicksOnce(s: Snapshot, es: seq<Event>)
    requires Inv(s) && TraceOk(es) && |es| >= 1
    requires s.pinchActive && !s.isScrolling
    requires forall i :: 0 <= i < |es| - 1 ==> StillPinch(s.pinchStart.value, es[i])
    requires var r := es[|es| - 1];
             r.Landmarks? && r.frame.Some? && !Pinched(r.frame.value) && Quick(s, r.now)
    ensures var r := es[|es| - 1];
            var c := CursorOf(r.frame.value, r.viewportWidth, r.viewportHeight);
            && Clicks(s, es) == [c]
            && Deposited(s, es) == 0.0
            && Run(s, es) == Snapshot(false, s.lastPinchTime, None, false, 0.0, Some(c))
    decreases |es|
  {
    var e := es[0];
    if |es| == 1 {
      ReleaseClicksIffQuick(s, e.frame.value, e.now, e.viewportWidth, e.viewportHeight);
      assert es[1..] == [];
    } else {
      assert StillPinch(s.pinchStart.value, e);
      if e.Landmarks? {
        DeadbandHoldsStill(s, e.frame.value, e.now, e.viewportWidth, e.viewportHeight);
      }
      var t := Next(s, e);
      assert t.pinchActive && !t.isScrolling;
      assert t.pinchStart == s.pinchStart && t.lastPinchTime == s.lastPinchTime;
      assert ClickOf(s, e) == [] && DepositedBy(s, e) == 0.0;
      var rest := es[1..];
      assert forall i :: 0 <= i < |rest| - 1 ==> StillPinch(t.pinchStart.value, rest[i]) by {
        forall i | 0 <= i < |rest| - 1 ensures StillPinch(t.pinchStart.value, rest[i]) {
          assert rest[i] == es[i + 1];
        }
      }
      assert rest[|rest| - 1] == es[|es| - 1];
      HeldTapClicksOnce(t, rest);
    }
  }

  /** Any quick tap from idle: a pinching frame, any number of ticks and
      pinching frames inside the deadband around the onset wrist Y, then
      an open hand less than 300 ms after the onset, emits exactly one
      click, at the cursor of the open hand, deposits nothing and leaves
      the machine idle with nothing pending. */
  lemma AnyQuickTapClicksOnce(s: Snapshot, es: seq<Event>)
    requires Inv(s) && TraceOk(es) && |es| >= 2 && !s.pinchActive
    requires PinchFrame(es[0])
    requires forall i :: 1 <= i < |es| - 1 ==> StillPinch(es[0].frame.value[Wrist].y, es[i])
    requires var r := es[|es| - 1];
             && r.Landmarks? && r.frame.Some? && !Pinched(r.frame.value)
             && r.now - es[0].now < ClickDurationThresholdMs
    ensures var r := es[|es| - 1];
            var c := CursorOf(r.frame.value, r.viewportWidth, r.viewportHeight);
            && Clicks(s, es) == [c]
            && Deposited(s, es) == 0.0
            && Run(s, es) == Snapshot(false, es[0].now, None, false, 0.0, Some(c))
  {
    var e := es[0];
    OnsetStartsPinch(s, e.frame.value, e.now, e.viewportWidth, e.viewportHeight);
    var t := Next(s, e);
    assert ClickOf(s, e) == [] && DepositedBy(s, e) == 0.0;
    var rest := es[1..];
    assert forall i :: 0 <= i < |rest| - 1 ==> StillPinch(t.pinchStart.value, rest[i]) by {
      forall i | 0 <= i < |rest| - 1 ensures StillPinch(t.pinchStart.value, rest[i]) {
        assert rest[i] == es[i + 1];
      }
    }
    assert rest[|rest| - 1] == es[|es| - 1];
    HeldTapClicksOnce(t, rest);
  }

  /** The reference Y after a run of held frames: the wrist Y of its last
      pinching frame, or `y` if it has none. */
  function FinalRef(y: real, es: seq<Event>): real
    decreases |es|
  {
    if es == [] then y
    else if PinchFrame(es[0]) then FinalRef(es[0].frame.value[Wrist].y, es[1..])
    else FinalRef(y, es[1..])
  }

  /** No pinching frame of the run moves the wrist far enough from the
      reference before it for the increment to be clamped. */
  predicate Unsaturated(y: real, es: seq<Event>)
    decreases |es|
  {
    if es == [] then true
    else if PinchFrame(es[0]) then
      var wy := es[0].frame.value[Wrist].y;
      Abs(y - wy) * ScrollMultiplier <= MaxScroll && Unsaturated(wy, es[1..])
    else Unsaturated(y, es[1..])
  }

  /** While a pinch scrolls, every frame re-bases the reference to the
      current wrist, so the increments telescope: a run of ticks and
      pinching frames, none clamped, deposits exactly the wrist's total
      movement since the reference times the multiplier, and leaves the
      pinch scrolling from the last wrist Y with its onset time kept. */
  lemma {:induction false} ScrollTelescopes(s: Snapshot, es: seq<Event>)
    requires Inv(s) && TraceOk(es) && s.pinchActive && s.isScrolling
    requires forall i :: 0 <= i < |es| ==> es[i].ScrollTick? || PinchFrame(es[i])
    requires Unsaturated(s.pinchStart.value, es)
    ensures Deposited(s, es) == (s.pinchStart.value - FinalRef(s.pinchStart.value, es)) * ScrollMultiplier
    ensures var t := Run(s, es);
            && t.pinchActive && t.isScrolling && t.lastPinchTime == s.lastPinchTime
            && t.pinchStart == Some(FinalRef(s.pinchStart.value, es))
    decreases |es|
  {
    if es != [] {
      var y0, e, rest := s.pinchStart.value, es[0], es[1..];
      assert forall i :: 0 <= i < |rest| ==> rest[i].ScrollTick? || PinchFrame(rest[i]) by {
        forall i | 0 <= i < |rest| ensures rest[i].ScrollTick? || PinchFrame(rest[i]) {
          assert rest[i] == es[i + 1];
        }
      }
      var t := Next(s, e);
      if PinchFrame(e) {
        var wy := e.frame.value[Wrist].y;
        HeldPinchScrolls(s, e.frame.value, e.now, e.viewportWidth, e.viewportHeight);
        assert DepositedBy(s, e) == (y0 - wy) * ScrollMultiplier;
        assert t.pinchStart == Some(wy);
        ScrollTelescopes(t, rest);
      } else {
        assert t.pinchStart == s.pinchStart;
        ScrollTelescopes(t, rest);
      }
    }
  }

  /** A right hand whose index tip is at the centre of the frame, with the
      thumb tip at the given x and the wrist at the given y. */
  function SampleHand(thumbX: real, wristY: real): (h: Hand)
    ensures |h| == 21
  {
    seq(21, i => if i == Wrist as int then Landmark(0.5, wristY, 0.0)
                 else if i == ThumbTip as int then Landmark(thumbX, 0.5, 0.0)
                 else Landmark(0.5, 0.5, 0.0))
  }

  lemma SampleHandFacts(thumbX: real, wristY: real)
    ensures var h := SampleHand(thumbX, wristY);
            && h[Wrist].y == wristY
            && (Pinched(h) <==> (thumbX - 0.5) * (thumbX - 0.5) < 0.0064)
            && CursorOf(h, 1280, 720) == Point(640.0, 360.0)
  {
    var h := SampleHand(thumbX, wristY);
    assert h[ThumbTip] == Landmark(thumbX, 0.5, 0.0);
    assert h[IndexTip] == Landmark(0.5, 0.5, 0.0);
  }

  /** Pinch at t = 0 ms, hold without moving at 50 ms, release at 80 ms, in
      a 1280 x 720 viewport. */
  function TapTrace(): seq<Event> {
    [ Landmarks(Some(SampleHand(0.52, 0.5)), 0.0, 1280, 720),
      Landmarks(Some(SampleHand(0.52, 0.5)), 50.0, 1280, 720),
      Landmarks(Some(SampleHand(0.8, 0.5)), 80.0, 1280, 720) ]
  }

  /** A run without scroll ticks hands nothing to `scrollBy`. */
  lemma {:induction false} AppliedNoTicks(s: Snapshot, es: seq<Event>)
    requires Inv(s) && TraceOk(es)
    requires forall i :: 0 <= i < |es| ==> es[i].Landmarks?
    ensures Applied(s, es) == 0.0
    decreases |es|
  {
    if es != [] {
      assert es[0].Landmarks?;
      var rest := es[1..];
      assert forall i :: 0 <= i < |rest| ==> rest[i].Landmarks? by {
        forall i | 0 <= i < |rest| ensures rest[i].Landmarks? {
          assert rest[i] == es[i + 1];
        }
      }
      AppliedNoTicks(Next(s, es[0]), rest);
    }
  }

  /** The quick tap yields exactly one click, at the centre of the viewport,
      and no scroll. */
  lemma QuickTapClicksOnce()
    ensures TraceOk(TapTrace())
    ensures Clicks(Initial, TapTrace()) == [Point(640.0, 360.0)]
    ensures Deposited(Initial, TapTrace()) == 0.0 && Applied(Initial, TapTrace()) == 0.0
    ensures Run(Initial, TapTrace()) == Snapshot(false, 0.0, None, false, 0.0, Some(Point(640.0, 360.0)))
  {
    var es := TapTrace();
    assert TraceOk(es);
    SampleHandFacts(0.52, 0.5);
    SampleHandFacts(0.8, 0.5);
    assert PinchFrame(es[0]);
    assert StillPinch(es[0].frame.value[Wrist].y, es[1]);
    AnyQuickTapClicksOnce(Initial, es);
    AppliedNoTicks(Initial, es);
  }

  /** Pinch at t = 0 ms with the wrist at 0.50, move it to 0.40 at 16 ms
      and to 0.35 at 33 ms, in a 1280 x 720 viewport, then run one scroll
      tick: the frames deposit 250 and then 125 pixels (the increment is not
      scaled by the viewport height), no frame clicks, and the tick scrolls
      by their sum. */
  lemma ScrollGestureNeverClicks()
    ensures var (s1, k1) := Step(Initial, Some(SampleHand(0.52, 0.5)), 0.0, 1280, 720);
            var (s2, k2) := Step(s1, Some(SampleHand(0.52, 0.4)), 16.0, 1280, 720);
            var (s3, k3) := Step(s2, Some(SampleHand(0.52, 0.35)), 33.0, 1280, 720);
            && k1.None? && k2.None? && k3.None?
            && s1.scrollAmount == 0.0 && s2.scrollAmount == 250.0 && s3.scrollAmount == 375.0
            && s3.isScrolling && s3.pinchStart == Some(0.35)
            && TickStep(s3).1 == Some(375.0)
  {
    var c := Point(640.0, 360.0);
    var h0, h1, h2 := SampleHand(0.52, 0.5), SampleHand(0.52, 0.4), SampleHand(0.52, 0.35);
    var s1 := Snapshot(true, 0.0, Some(0.5), false, 0.0, Some(c));
    assert Step(Initial, Some(h0), 0.0, 1280, 720) == (s1, None) by {
      SampleHandFacts(0.52, 0.5);
      OnsetStartsPinch(Initial, h0, 0.0, 1280, 720);
    }
    // |0.5 - 0.4| * 720 = 72 > 20: the pinch becomes a scroll of 0.1 * 2500.
    var s2 := Snapshot(true, 0.0, Some(0.4), true, 250.0, Some(c));
    assert Step(s1, Some(h1), 16.0, 1280, 720) == (s2, None) by {
      SampleHandFacts(0.52, 0.4);
      assert PastDeadband(0.5, 0.4, 720);
      HeldPinchScrolls(s1, h1, 16.0, 1280, 720);
    }
    // Already scrolling: 0.05 * 2500 more, from the re-based reference.
    var s3 := Snapshot(true, 0.0, Some(0.35), true, 375.0, Some(c));
    assert Step(s2, Some(h2), 33.0, 1280, 720) == (s3, None) by {
      SampleHandFacts(0.52, 0.35);
      HeldPinchScrolls(s2, h2, 33.0, 1280, 720);
    }
  }
}
