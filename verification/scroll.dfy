/** The scroll gesture of gestures/scroll.py: thumb and index in a V or L
    shape; the vertical displacement of their midpoint from an anchor fixed at
    confirmation drives the wheel. */
module ScrollGesture {
  import opened Wrappers
  import opened Numeric
  import opened Landmarks
  import opened Classifiers
  import opened GestureStates

  /** Midpoint of the thumb and index fingertips, in image pixels. */
  function TrackedX(h: Hand, imageWidth: real): real {
    (h.indexTip.x + h.thumbTip.x) / 2.0 * imageWidth
  }

  function TrackedY(h: Hand, imageHeight: real): real {
    (h.indexTip.y + h.thumbTip.y) / 2.0 * imageHeight
  }

  /** Wheel steps for a displacement of `d` pixels below the anchor:
      `int(d / 20)`, truncated toward zero, so nothing under 20 pixels either
      way, one step per full 20 pixels, and the sign of the displacement. */
  function ScrollAmount(d: real): (r: int)
    ensures r == 0 <==> -20.0 < d < 20.0
    ensures r > 0 <==> d >= 20.0
    ensures r < 0 <==> d <= -20.0
    ensures d >= 0.0 ==> r as real * 20.0 <= d < (r + 1) as real * 20.0
    ensures d < 0.0 ==> (r - 1) as real * 20.0 < d <= r as real * 20.0
  {
    Trunc(d / 20.0)
  }

  /** A displacement and its mirror image scroll by opposite amounts. */
  lemma ScrollAmountSymmetric(d: real)
    ensures ScrollAmount(-d) == -ScrollAmount(d)
  {
    assert -d / 20.0 == -(d / 20.0);
    TruncOdd(d / 20.0);
  }

  predicate Tracking(s: GestureState, valid: bool) {
    s.gestureCooldownCounter == 0 && s.confirmedGesture && valid
  }

  /** One call of `process_scroll_gesture`. `valid` is the verdict of
      `is_scroll_gesture`, (`currentX`, `currentY`) the tracked midpoint and
      `pauseFrames` is `int(0.02 * fps)`. The gesture's own
      `cooldown_frames` is computed by the source but never used, and no
      branch ever sets `gestureCooldownCounter`. */
  function ScrollStep(s: GestureState, valid: bool, currentX: real, currentY: real,
                      confirmationFrames: nat, pauseFrames: nat): (r: Step)
    requires confirmationFrames > 0
    ensures s.gestureCooldownCounter > 0 ==> r == Step(s, [])
    ensures r.state.gestureCooldownCounter == s.gestureCooldownCounter
    // one wheel command at most, vertical only, scrolling against the displacement
    ensures |r.cmds| <= 1
    ensures r.cmds != [] <==>
      && Tracking(s, valid) && s.prevX.Some? && s.prevY.Some? && s.cooldownCounter == 0
      && (currentY - s.prevY.value <= -20.0 || currentY - s.prevY.value >= 20.0)
    ensures r.cmds != [] ==>
      && r.cmds[0] == Scroll(0, -ScrollAmount(currentY - s.prevY.value))
      && r.cmds[0].dy != 0
      && r.state.cooldownCounter >= 1
    // the anchor never moves while the gesture stays confirmed and valid
    ensures Tracking(s, valid) ==>
      r.state.confirmedGesture && r.state.prevX == s.prevX && r.state.prevY == s.prevY
      && r.state.gestureActive
    ensures Tracking(s, valid) && r.cmds == [] ==> r.state == s.(gestureActive := true)
    // losing the pose cancels the gesture and forgets the anchor
    ensures s.gestureCooldownCounter == 0 && s.confirmedGesture && !valid ==>
      r == Step(s.(confirmedGesture := false, gestureConfirmationCounter := 0,
                   prevX := None, prevY := None), [])
    // confirmation sets the anchor at the current midpoint
    ensures s.gestureCooldownCounter == 0 && !s.confirmedGesture && valid ==>
      var c := s.gestureConfirmationCounter + 1;
      var done := c >= confirmationFrames;
      r == Step(s.(gestureConfirmationCounter := c, confirmedGesture := done,
                   prevX := if done then Some(currentX) else s.prevX,
                   prevY := if done then Some(currentY) else s.prevY), [])
    ensures s.gestureCooldownCounter == 0 && !s.confirmedGesture && !valid ==>
      r == Step(s.(gestureConfirmationCounter := 0), [])
  {
    if s.gestureCooldownCounter > 0 then
      Step(s, [])
    else if s.confirmedGesture && !valid then
      Step(s.(confirmedGesture := false, gestureConfirmationCounter := 0,
              prevX := None, prevY := None), [])
    else if s.confirmedGesture then
      var scrolled :=
        if s.prevX.Some? && s.prevY.Some? && s.cooldownCounter == 0 then
          var amount := ScrollAmount(currentY - s.prevY.value);
          if amount != 0 then
            Step(s.(cooldownCounter := if pauseFrames > 1 then pauseFrames else 1),
                 [Scroll(0, -amount)])
          else Step(s, [])
        else Step(s, []);
      Step(scrolled.state.(gestureActive := true), scrolled.cmds)
    else if valid then
      var c := s.gestureConfirmationCounter + 1;
      if c >= confirmationFrames then
        Step(s.(gestureConfirmationCounter := c, confirmedGesture := true,
                prevX := Some(currentX), prevY := Some(currentY)), [])
      else
        Step(s.(gestureConfirmationCounter := c), [])
    else
      Step(s.(gestureConfirmationCounter := 0), [])
  }

  /** `process_scroll_gesture` on a hand; `vShape` is the verdict of the
      angle band. */
  function ProcessScroll(s: GestureState, h: Hand, vShape: bool, imageWidth: real,
                         imageHeight: real, confirmationFrames: nat, pauseFrames: nat): (r: Step)
    requires confirmationFrames > 0
    // a wheel step needs the V shape, and outside the cooldown another pose leaves nothing confirmed
    ensures r.cmds != [] ==> IsScrollGesture(h, vShape)
    ensures s.gestureCooldownCounter == 0 && !IsScrollGesture(h, vShape) ==>
              r.cmds == [] && !r.state.confirmedGesture
  {
    ScrollStep(s, IsScrollGesture(h, vShape), TrackedX(h, imageWidth), TrackedY(h, imageHeight),
               confirmationFrames, pauseFrames)
  }

  /** `reset_scroll_orientation`: clears the orientation only while
      confirmed. */
  function ResetScrollOrientation(s: GestureState): (r: GestureState)
    ensures s.confirmedGesture ==> r == s.(scrollOrientation := None)
    ensures !s.confirmedGesture ==> r == s
  {
    if s.confirmedGesture then s.(scrollOrientation := None) else s
  }

  datatype Event = CooldownTick | Frame(valid: bool, x: real, y: real)

  function Run(s: GestureState, evs: seq<Event>, confirmationFrames: nat, pauseFrames: nat): Step
    requires confirmationFrames > 0
    decreases |evs|
  {
    if evs == [] then Step(s, [])
    else
      var first := match evs[0]
        case CooldownTick => Step(UpdateCooldown(s), [])
        case Frame(v, x, y) => ScrollStep(s, v, x, y, confirmationFrames, pauseFrames);
      var rest := Run(first.state, evs[1..], confirmationFrames, pauseFrames);
      Step(rest.state, first.cmds + rest.cmds)
  }

  predicate AllValid(evs: seq<Event>) {
    forall i :: 0 <= i < |evs| && evs[i].Frame? ==> evs[i].valid
  }

  /** Displacement from a fixed anchor: as long as every frame keeps the pose,
      the gesture stays confirmed, the anchor set at confirmation never moves,
      and every wheel command is the amount for one frame's displacement from
      that same anchor, whatever path the hand took in between. */
  lemma {:induction false} AnchorIsFixed(s: GestureState, evs: seq<Event>,
                                         confirmationFrames: nat, pauseFrames: nat)
    requires confirmationFrames > 0
    requires s.confirmedGesture && s.prevX.Some? && s.prevY.Some?
    requires AllValid(evs)
    ensures var r := Run(s, evs, confirmationFrames, pauseFrames);
      && r.state.confirmedGesture && r.state.prevX == s.prevX && r.state.prevY == s.prevY
      && forall c :: c in r.cmds ==>
           exists e :: e in evs && e.Frame? && c == Scroll(0, -ScrollAmount(e.y - s.prevY.value))
    decreases |evs|
  {
    if evs != [] {
      var first := match evs[0]
        case CooldownTick => Step(UpdateCooldown(s), [])
        case Frame(v, x, y) => ScrollStep(s, v, x, y, confirmationFrames, pauseFrames);
      assert first.state.confirmedGesture && first.state.prevX == s.prevX && first.state.prevY == s.prevY;
      assert AllValid(evs[1..]) by {
        forall i | 0 <= i < |evs[1..]| && evs[1..][i].Frame?
          ensures evs[1..][i].valid
        {
          assert evs[1..][i] == evs[i + 1];
        }
      }
      AnchorIsFixed(first.state, evs[1..], confirmationFrames, pauseFrames);
      var rest := Run(first.state, evs[1..], confirmationFrames, pauseFrames);
      forall c | c in first.cmds + rest.cmds
        ensures exists e :: e in evs && e.Frame? && c == Scroll(0, -ScrollAmount(e.y - s.prevY.value))
      {
        if c in first.cmds {
          assert evs[0] in evs;
        } else {
          var e :| e in evs[1..] && e.Frame? && c == Scroll(0, -ScrollAmount(e.y - s.prevY.value));
          assert e in evs;
        }
      }
    }
  }
}
