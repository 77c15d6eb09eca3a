/** The landmark classifiers of gestures/base.py: pure predicates over one
    hand. Every `sqrt` comparison of the source is stated on squared
    distances (see `Landmarks.SqrtComparison`); thresholds are squared
    accordingly (0.05 becomes 0.0025, 0.1 becomes 0.01, a factor 0.9 on a
    distance becomes 0.81 on its square). Image y grows downward, so "tip
    above joint" is `tip.y < joint.y`. */
module Classifiers {
  import opened Landmarks

  predicate TipAbove(tip: Point, joint: Point) {
    tip.y < joint.y
  }

  predicate TipBelow(tip: Point, joint: Point) {
    tip.y > joint.y
  }

  /** Extension by distance: the tip is farther from the wrist than the joint. */
  predicate FartherFromWrist(h: Hand, tip: Point, joint: Point) {
    Dist2(tip, h.wrist) > Dist2(joint, h.wrist)
  }

  /** Bending by distance: the tip is closer to the wrist than the joint. */
  predicate CloserToWrist(h: Hand, tip: Point, joint: Point) {
    Dist2(tip, h.wrist) < Dist2(joint, h.wrist)
  }

  /** The relaxed extension test `dist(tip) > 0.9 * dist(joint)`. */
  predicate RelaxedFartherFromWrist(h: Hand, tip: Point, joint: Point) {
    Dist2(tip, h.wrist) > 0.81 * Dist2(joint, h.wrist)
  }

  /** Index and middle raised, ring and pinky folded, by y alone. */
  predicate IsNavigationGesture(h: Hand): (r: bool)
    ensures r ==> !IsOpenHand(h) && !IsOpenHandAsWritten(h)
    ensures r ==> !IsScrollGesture(h, true) && !IsScrollGesture(h, false)
  {
    && TipAbove(h.indexTip, h.indexPip)
    && TipAbove(h.middleTip, h.middlePip)
    && TipBelow(h.ringTip, h.ringPip)
    && TipBelow(h.pinkyTip, h.pinkyPip)
  }

  /** The V/L shape of thumb and index. The source's angle band (an `arccos`
      of the normalised wrist-to-tip vectors, strictly between 20 and 120
      degrees) is not modelled: its verdict is the parameter `vShape`. */
  predicate IsScrollGesture(h: Hand, vShape: bool): (r: bool)
    ensures r ==> !IsOkGesture(h) && !IsOpenHand(h) && !IsOpenHandAsWritten(h)
  {
    && h.thumbTip.x < h.thumbMcp.x
    && FartherFromWrist(h, h.thumbTip, h.thumbIp)
    && FartherFromWrist(h, h.indexTip, h.indexPip)
    && TipBelow(h.middleTip, h.middlePip)
    && TipBelow(h.ringTip, h.ringPip)
    && TipBelow(h.pinkyTip, h.pinkyPip)
    && vShape
    && Dist2(h.thumbTip, h.indexTip) > 0.0025
  }

  /** The thumb half of the open-hand test, as the distance-from-wrist test
      is meant to read: thumb tip farther from the wrist than the thumb IP
      joint. */
  predicate ThumbExtended(h: Hand) {
    FartherFromWrist(h, h.thumbTip, h.thumbIp)
  }

  /** The thumb half of the open-hand test as gestures/base.py writes it:
      the "distance" of the IP joint pairs the joint's x with the TIP's y, so
      the y terms cancel and only the horizontal offsets are compared. */
  predicate ThumbExtendedAsWritten(h: Hand) {
    Sq(h.thumbTip.x - h.wrist.x) + Sq(h.thumbTip.y - h.wrist.y)
      > Sq(h.thumbIp.x - h.wrist.x) + Sq(h.thumbTip.y - h.wrist.y)
  }

  /** A non-thumb finger counts as extended in the open-hand test when it
      passes both the distance test and the y test. */
  predicate FingerOpen(h: Hand, tip: Point, pip: Point) {
    FartherFromWrist(h, tip, pip) && TipAbove(tip, pip)
  }

  /** All five fingers extended, with the thumb test corrected. */
  predicate IsOpenHand(h: Hand) {
    && ThumbExtended(h)
    && FingerOpen(h, h.indexTip, h.indexPip)
    && FingerOpen(h, h.middleTip, h.middlePip)
    && FingerOpen(h, h.ringTip, h.ringPip)
    && FingerOpen(h, h.pinkyTip, h.pinkyPip)
  }

  /** All five fingers extended, with the thumb test exactly as written. */
  predicate IsOpenHandAsWritten(h: Hand) {
    && ThumbExtendedAsWritten(h)
    && FingerOpen(h, h.indexTip, h.indexPip)
    && FingerOpen(h, h.middleTip, h.middlePip)
    && FingerOpen(h, h.ringTip, h.ringPip)
    && FingerOpen(h, h.pinkyTip, h.pinkyPip)
  }

  /** The closed-fist test is disabled in gestures/base.py: it returns False
      before reading any landmark. */
  predicate IsClosedHand(h: Hand) {
    false
  }

  /** Index finger pointing, the others folded, thumb tucked in. */
  predicate IsIndexFingerOnly(h: Hand): (r: bool)
    ensures r ==> !IsOpenHand(h) && !IsOpenHandAsWritten(h) && !IsOkGesture(h)
  {
    && RelaxedFartherFromWrist(h, h.indexTip, h.indexPip)
    && CloserToWrist(h, h.middleTip, h.middlePip)
    && CloserToWrist(h, h.ringTip, h.ringPip)
    && CloserToWrist(h, h.pinkyTip, h.pinkyPip)
    && (|| Dist2(h.thumbTip, h.middleTip) < 0.0025
        || Dist2(h.thumbTip, h.ringTip) < 0.0025
        || Dist2(h.thumbTip, h.pinkyTip) < 0.0025
        || h.thumbTip.x > h.indexMcp.x - 0.05)
    && h.middleTip.y > h.middlePip.y * 0.95
    && h.indexTip.y < h.middleTip.y - 0.05
    && h.indexTip.y < h.ringTip.y - 0.05
    && h.indexTip.y < h.pinkyTip.y - 0.05
  }

  /** The click pinch: thumb and index tips within 0.05 in space, the other
      three fingers extended by both tests. */
  predicate IsOkGesture(h: Hand): (r: bool)
    ensures r ==> IsAltTabOkGesture(h)
  {
    && Dist3(h.thumbTip, h.indexTip) < 0.0025
    && FingerOpen(h, h.middleTip, h.middlePip)
    && FingerOpen(h, h.ringTip, h.ringPip)
    && FingerOpen(h, h.pinkyTip, h.pinkyPip)
  }

  /** The relaxed per-finger test of the Alt+Tab pinch: either a y test with
      5% slack or the 0.9 distance test suffices. */
  predicate RelaxedExtended(h: Hand, tip: Point, pip: Point) {
    tip.y < pip.y * 1.05 || RelaxedFartherFromWrist(h, tip, pip)
  }

  function Count(b: bool): nat {
    if b then 1 else 0
  }

  /** The Alt+Tab release pinch: thumb and index within 0.1 in space and at
      least two of middle, ring and pinky extended by the relaxed test. */
  predicate IsAltTabOkGesture(h: Hand) {
    && Dist3(h.thumbTip, h.indexTip) < 0.01
    && Count(RelaxedExtended(h, h.middleTip, h.middlePip))
       + Count(RelaxedExtended(h, h.ringTip, h.ringPip))
       + Count(RelaxedExtended(h, h.pinkyTip, h.pinkyPip)) >= 2
  }

  /** Rotation of the image plane by a quarter turn about the wrist. */
  function RotatePoint(c: Point, p: Point): Point {
    Point(c.x - (p.y - c.y), c.y + (p.x - c.x), p.z)
  }

  function RotateQuarter(h: Hand): Hand {
    var c := h.wrist;
    Hand(c,
      RotatePoint(c, h.thumbMcp), RotatePoint(c, h.thumbIp), RotatePoint(c, h.thumbTip),
      RotatePoint(c, h.indexMcp), RotatePoint(c, h.indexPip), RotatePoint(c, h.indexTip),
      RotatePoint(c, h.middlePip), RotatePoint(c, h.middleTip),
      RotatePoint(c, h.ringPip), RotatePoint(c, h.ringTip),
      RotatePoint(c, h.pinkyPip), RotatePoint(c, h.pinkyTip))
  }

  lemma RotationKeepsWristDistance(c: Point, p: Point)
    ensures Dist2(RotatePoint(c, p), c) == Dist2(p, c)
  {
    var dx, dy := p.x - c.x, p.y - c.y;
    assert Sq(-dy) == Sq(dy);
  }

  /** The corrected thumb test depends only on distances from the wrist, so
      turning the hand does not change its verdict. */
  lemma ThumbExtendedRotationInvariant(h: Hand)
    ensures ThumbExtended(RotateQuarter(h)) <==> ThumbExtended(h)
  {
    RotationKeepsWristDistance(h.wrist, h.thumbTip);
    RotationKeepsWristDistance(h.wrist, h.thumbIp);
  }

  /** An open hand with the thumb pointing straight up: the true distance
      test passes, the as-written test compares two equal horizontal offsets
      and fails, and a quarter turn of the same hand passes it. */
  function ThumbUpHand(): Hand {
    Hand(Point(0.5, 0.9, 0.0),
      Point(0.5, 0.7, 0.0), Point(0.5, 0.6, 0.0), Point(0.5, 0.5, 0.0),
      Point(0.45, 0.7, 0.0), Point(0.45, 0.5, 0.0), Point(0.45, 0.3, 0.0),
      Point(0.5, 0.45, 0.0), Point(0.5, 0.25, 0.0),
      Point(0.55, 0.5, 0.0), Point(0.55, 0.3, 0.0),
      Point(0.6, 0.55, 0.0), Point(0.6, 0.4, 0.0))
  }

  lemma ThumbTestAsWrittenRejectsOpenHand()
    ensures IsOpenHand(ThumbUpHand())
    ensures !IsOpenHandAsWritten(ThumbUpHand())
    ensures ThumbExtendedAsWritten(RotateQuarter(ThumbUpHand()))
  {
    var h := ThumbUpHand();
    assert Dist2(h.thumbTip, h.wrist) == 0.16;
    assert Dist2(h.thumbIp, h.wrist) == 0.09;
    assert Dist2(h.indexTip, h.wrist) == 0.3625;
    assert Dist2(h.indexPip, h.wrist) == 0.1625;
    assert Dist2(h.middleTip, h.wrist) == 0.4225;
    assert Dist2(h.middlePip, h.wrist) == 0.2025;
    assert Dist2(h.ringTip, h.wrist) == 0.3625;
    assert Dist2(h.ringPip, h.wrist) == 0.1625;
    assert Dist2(h.pinkyTip, h.wrist) == 0.26;
    assert Dist2(h.pinkyPip, h.wrist) == 0.1325;
    var g := RotateQuarter(h);
    assert g.thumbTip == Point(0.9, 0.9, 0.0);
    assert g.thumbIp == Point(0.8, 0.9, 0.0);
  }
}
