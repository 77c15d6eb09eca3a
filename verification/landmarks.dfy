/** One hand as delivered by the pose estimator for one frame: normalised 3-D
    points, x and y relative to the image, z relative to depth. */
module Landmarks {

  datatype Point = Point(x: real, y: real, z: real)

  /** The landmarks of the 21-point hand model that the gesture code reads,
      named after their MediaPipe indices (WRIST = 0, THUMB_MCP = 2,
      THUMB_IP = 3, THUMB_TIP = 4, INDEX_FINGER_MCP = 5, INDEX_FINGER_PIP = 6,
      INDEX_FINGER_TIP = 8, MIDDLE_FINGER_PIP = 10, MIDDLE_FINGER_TIP = 12,
      RING_FINGER_PIP = 14, RING_FINGER_TIP = 16, PINKY_PIP = 18,
      PINKY_TIP = 20). The remaining eight points are never read. */
  datatype Hand = Hand(
    wrist: Point,
    thumbMcp: Point, thumbIp: Point, thumbTip: Point,
    indexMcp: Point, indexPip: Point, indexTip: Point,
    middlePip: Point, middleTip: Point,
    ringPip: Point, ringTip: Point,
    pinkyPip: Point, pinkyTip: Point)

  function Sq(d: real): (r: real)
    ensures r >= 0.0
  {
    d * d
  }

  /** Squared distance in the image plane. Every distance test of the source
      compares `sqrt` values, so comparing squares decides the same question. */
  function Dist2(a: Point, b: Point): (r: real)
    ensures r >= 0.0
  {
    Sq(a.x - b.x) + Sq(a.y - b.y)
  }

  /** Squared distance in space, used by the pinch tests. */
  function Dist3(a: Point, b: Point): (r: real)
    ensures r >= 0.0
  {
    Sq(a.x - b.x) + Sq(a.y - b.y) + Sq(a.z - b.z)
  }

  /** `sqrt(a) > k * sqrt(b)` for non-negative `a`, `b`, `k` is `a > k^2 * b`;
      this is how the relaxed "0.9 of the distance" tests are stated. */
  lemma SqrtComparison(sa: real, sb: real, k: real)
    requires sa >= 0.0 && sb >= 0.0 && k >= 0.0
    ensures sa > k * sb <==> sa * sa > (k * k) * (sb * sb)
  {
    var t := k * sb;
    assert t >= 0.0;
    assert t * t == (k * k) * (sb * sb);
    if sa > t {
      SquareMonotone(t, sa);
    } else {
      SquareMonotone(sa, t);
    }
  }

  /** Squaring is monotone on the non-negative reals, strictly so where the
      arguments differ. */
  lemma SquareMonotone(a: real, b: real)
    requires 0.0 <= a <= b
    ensures a * a <= b * b
    ensures a < b ==> a * a < b * b
  {
    var d := b - a;
    assert b * b == a * a + d * (a + b);
    assert d * (a + b) >= 0.0;
    if a < b {
      assert d * (a + b) > 0.0;
    }
  }
}
