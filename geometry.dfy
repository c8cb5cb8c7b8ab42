/** Pure geometry of one landmark frame: horizontal mirroring, projection of
    a normalized landmark to viewport pixels, and the pinch test on the
    thumb-tip / index-tip distance. */
module Geometry {

  /** A normalized hand landmark as reported by the hand tracker. */
  datatype Landmark = Landmark(x: real, y: real, z: real)

  /** A position in viewport pixels. */
  datatype Point = Point(x: real, y: real)

  /** The landmarks of the first detected hand. */
  type Hand = seq<Landmark>

  /** Landmark indices the gesture logic reads. */
  const Wrist: nat := 0
  const ThumbTip: nat := 4
  const IndexTip: nat := 8

  /** Pinch threshold on the thumb-tip / index-tip distance, normalized units. */
  const PinchDistanceThreshold: real := 0.08

  predicate InUnitSquare(l: Landmark) {
    0.0 <= l.x <= 1.0 && 0.0 <= l.y <= 1.0
  }

  /** Mirror a landmark horizontally, so that the control surface behaves
      like a mirror view of the user. */
  function Mirror(l: Landmark): (r: Landmark)
    ensures InUnitSquare(l) ==> InUnitSquare(r)
  {
    Landmark(1.0 - l.x, l.y, l.z)
  }

  /** Mirror every landmark of a hand. */
  function MirrorHand(h: Hand): (r: Hand)
    ensures |r| == |h|
    ensures forall i :: 0 <= i < |h| ==> r[i] == Mirror(h[i])
  {
    seq(|h|, i requires 0 <= i < |h| => Mirror(h[i]))
  }

  /** Project a normalized landmark to viewport pixels: a landmark inside
      the camera frame lands inside the viewport. */
  function Project(l: Landmark, viewportWidth: nat, viewportHeight: nat): (p: Point)
    ensures InUnitSquare(l) ==>
              && 0.0 <= p.x <= viewportWidth as real
              && 0.0 <= p.y <= viewportHeight as real
  {
    Point(Scale(l.x, viewportWidth), Scale(l.y, viewportHeight))
  }

  /** A normalized coordinate times a viewport dimension, in pixels; a
      coordinate inside the frame lands inside the viewport. */
  function Scale(a: real, n: nat): (r: real)
    ensures 0.0 <= a <= 1.0 ==> 0.0 <= r <= n as real
  {
    ScaleWithin(a, n as real);
    a * n as real
  }

  lemma ScaleWithin(a: real, n: real)
    ensures 0.0 <= a <= 1.0 && 0.0 <= n ==> 0.0 <= a * n <= n
  {
    if 0.0 <= a <= 1.0 && 0.0 <= n {
      ScaleIsMonotone(n, 0.0, a);
      ScaleIsMonotone(n, a, 1.0);
      assert n * a == a * n;
    }
  }

  function Abs(x: real): (r: real)
    ensures r >= 0.0 && (r == x || r == -x)
  {
    if x < 0.0 then -x else x
  }

  /** Square of the planar (x, y) distance between two landmarks. */
  function SquaredDistance(a: Landmark, b: Landmark): (d: real)
    ensures d >= 0.0
  {
    var dx := a.x - b.x;
    var dy := a.y - b.y;
    dx * dx + dy * dy
  }

  /** The pinch test, with the square root replaced by a comparison of
      squares (both sides are non-negative). Pinching fingertips are less
      than 0.08 apart along each axis. */
  predicate IsPinch(thumb: Landmark, index: Landmark)
    ensures IsPinch(thumb, index) ==>
              && Abs(thumb.x - index.x) < PinchDistanceThreshold
              && Abs(thumb.y - index.y) < PinchDistanceThreshold
  {
    var dx, dy := thumb.x - index.x, thumb.y - index.y;
    if SquaredDistance(thumb, index) < PinchDistanceThreshold * PinchDistanceThreshold then
      assert PinchDistanceThreshold * PinchDistanceThreshold == 0.0064;
      assert SquaredDistance(thumb, index) == dx * dx + dy * dy;
      assert dx * dx + dy * dy < 0.0064 && dy * dy + dx * dx < 0.0064;
      GapBelowThreshold(dx, dy);
      GapBelowThreshold(dy, dx);
      true
    else
      false
  }

  /** One coordinate gap of a pair whose squared distance is below the
      threshold's square is itself below the threshold. */
  lemma GapBelowThreshold(u: real, v: real)
    ensures u * u + v * v < 0.0064 ==> Abs(u) < PinchDistanceThreshold
  {
    var a, b := Abs(u), Abs(v);
    assert a * a == u * u by { assert (-u) * (-u) == u * u; }
    assert b * b == v * v by { assert (-v) * (-v) == v * v; }
    ScaleIsMonotone(b, 0.0, b);
    if a >= PinchDistanceThreshold {
      // a * a >= a * 0.08 >= 0.0064
      ScaleIsMonotone(a, PinchDistanceThreshold, a);
      assert a * PinchDistanceThreshold >= 0.0064;
    }
  }

  /** For any non-negative d whose square is the squared distance (that is,
      d is the Euclidean distance), the pinch test holds exactly when
      d < 0.08; a distance of exactly 0.08 is not a pinch. */
  lemma PinchMatchesDistance(thumb: Landmark, index: Landmark, d: real)
    requires 0.0 <= d && d * d == SquaredDistance(thumb, index)
    ensures IsPinch(thumb, index) <==> d < PinchDistanceThreshold
  {
    var t := PinchDistanceThreshold;
    assert t * t == 0.0064;
    if d < t {
      // d * d <= d * t < t * t
      ScaleIsMonotone(d, d, t);
      assert d * t < 0.0064;
    } else {
      // d * d >= d * t >= t * t
      ScaleIsMonotone(d, t, d);
      assert d * t >= 0.0064;
    }
  }

  lemma ScaleIsMonotone(c: real, x: real, y: real)
    requires 0.0 <= c && x <= y
    ensures c * x <= c * y
  {
    assert c * y - c * x == c * (y - x);
  }

  /** Mirroring both fingertips does not change whether they pinch, so the
      decision may be read off the tracker's raw landmarks. */
  lemma MirrorPreservesPinch(thumb: Landmark, index: Landmark)
    ensures IsPinch(Mirror(thumb), Mirror(index)) == IsPinch(thumb, index)
    ensures SquaredDistance(Mirror(thumb), Mirror(index)) == SquaredDistance(thumb, index)
  {
    var dx := thumb.x - index.x;
    var dy := thumb.y - index.y;
    assert Mirror(thumb).x - Mirror(index).x == -dx;
    assert Mirror(thumb).y - Mirror(index).y == dy;
    assert (-dx) * (-dx) == dx * dx;
    assert SquaredDistance(Mirror(thumb), Mirror(index)) == SquaredDistance(thumb, index);
  }
}
