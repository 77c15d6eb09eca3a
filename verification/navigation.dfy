/** The navigation gesture of gestures/navigation.py: index and middle
    raised, a horizontal swipe taps the left or right arrow key. */
module NavigationGesture {
  import opened Wrappers
  import opened Landmarks
  import opened Classifiers
  import opened GestureStates

  /** `DEFAULT_MOVEMENT_THRESHOLD`, in pixels. */
  const DefaultMovementThreshold: real := 20.0

  /** The tracked position: midpoint of the index and middle fingertips, in
      image pixels. */
  function TrackedX(h: Hand, imageWidth: real): real {
    (h.indexTip.x + h.middleTip.x) / 2.0 * imageWidth
  }

  /** The confirmed gesture is tracked this call: no gesture cooldown and the
      pose still holds. */
  predicate Tracking(s: GestureState, valid: bool) {
    s.gestureCooldownCounter == 0 && s.confirmedGesture && valid
  }

  /** A key is armed: tracking, a previous position to compare with, and the
      short key cooldown over. */
  predicate Armed(s: GestureState, valid: bool) {
    Tracking(s, valid) && s.prevX.Some? && s.cooldownCounter == 0
  }

  /** One call of `process_navigation_gesture`. `valid` is the verdict of
      `is_navigation_gesture` on the hand, `currentX` its `TrackedX`; the
      frame counts are `int(confirmation_time * fps)`,
      `int(cooldown_time * fps)` and `int(0.2 * fps)`. The progress display
      divides by `confirmationFrames`, hence the precondition. */
  function NavigationStep(s: GestureState, valid: bool, currentX: real,
                          confirmationFrames: nat, cooldownFrames: nat,
                          keyCooldownFrames: nat, movementThreshold: real): (r: Step)
    requires confirmationFrames > 0
    // nothing at all happens during the gesture cooldown
    ensures s.gestureCooldownCounter > 0 ==> r == Step(s, [])
    // at most one arrow key per call; right for a leftward swipe, left for a rightward one
    ensures r.cmds == [] || r.cmds == Tap(Left) || r.cmds == Tap(Right)
    ensures r.cmds == Tap(Right) <==>
      Armed(s, valid) && s.prevX.value - currentX > movementThreshold && s.prevX.value - currentX > 0.0
    ensures r.cmds == Tap(Left) <==>
      Armed(s, valid) && currentX - s.prevX.value > movementThreshold && s.prevX.value - currentX < 0.0
    // a key arms both cooldowns and drops the confirmation, yet the position is still overwritten
    ensures r.cmds != [] ==>
      r.state == s.(cooldownCounter := keyCooldownFrames, gestureCooldownCounter := cooldownFrames,
                    confirmedGesture := false, gestureConfirmationCounter := 0,
                    prevX := Some(currentX), gestureActive := true)
    // losing the pose while confirmed cancels the gesture
    ensures s.gestureCooldownCounter == 0 && s.confirmedGesture && !valid ==>
      r == Step(s.(confirmedGesture := false, gestureConfirmationCounter := 0, prevX := None), [])
    // tracking measures movement frame to frame
    ensures Tracking(s, valid) ==> r.state.prevX == Some(currentX) && r.state.gestureActive
    ensures Tracking(s, valid) && r.cmds == [] ==>
      r.state == s.(prevX := Some(currentX), gestureActive := true)
    // confirmation: one more frame of progress, confirmed exactly on reaching the target
    ensures s.gestureCooldownCounter == 0 && !s.confirmedGesture && valid ==>
      var c := s.gestureConfirmationCounter + 1;
      var done := c >= confirmationFrames;
      r == Step(s.(gestureConfirmationCounter := c, confirmedGesture := done,
                   prevX := if done then Some(currentX) else s.prevX), [])
    // any invalid frame before confirmation discards the progress
    ensures s.gestureCooldownCounter == 0 && !s.confirmedGesture && !valid ==>
      r == Step(s.(gestureConfirmationCounter := 0), [])
  {
    if s.gestureCooldownCounter > 0 then
      Step(s, [])
    else if s.confirmedGesture && !valid then
      Step(s.(confirmedGesture := false, gestureConfirmationCounter := 0, prevX := None), [])
    else if s.confirmedGesture then
      var fired :=
        if s.prevX.Some? && s.cooldownCounter == 0 then
          var movement := s.prevX.value - currentX;
          var magnitude := if movement < 0.0 then -movement else movement;
          if magnitude > movementThreshold && movement != 0.0 then
            var key := if movement > 0.0 then Right else Left;
            Step(s.(cooldownCounter := keyCooldownFrames, gestureCooldownCounter := cooldownFrames,
                    confirmedGesture := false, gestureConfirmationCounter := 0, prevX := None),
                 Tap(key))
          else Step(s, [])
        else Step(s, []);
      Step(fired.state.(prevX := Some(currentX), gestureActive := true), fired.cmds)
    else if valid then
      var c := s.gestureConfirmationCounter + 1;
      if c >= confirmationFrames then
        Step(s.(gestureConfirmationCounter := c, confirmedGesture := true, prevX := Some(currentX)), [])
      else
        Step(s.(gestureConfirmationCounter := c), [])
    else
      Step(s.(gestureConfirmationCounter := 0), [])
  }

  /** `process_navigation_gesture` on a hand: the classifier, then the step. */
  function ProcessNavigation(s: GestureState, h: Hand, imageWidth: real,
                             confirmationFrames: nat, cooldownFrames: nat,
                             keyCooldownFrames: nat): (r: Step)
    requires confirmationFrames > 0
    // an arrow key needs the swipe pose, and outside the cooldown another pose leaves nothing confirmed
    ensures r.cmds != [] ==> IsNavigationGesture(h)
    ensures s.gestureCooldownCounter == 0 && !IsNavigationGesture(h) ==>
              r.cmds == [] && !r.state.confirmedGesture
  {
    NavigationStep(s, IsNavigationGesture(h), TrackedX(h, imageWidth),
                   confirmationFrames, cooldownFrames, keyCooldownFrames,
                   DefaultMovementThreshold)
  }

  /** What happens to the navigation state between two keys: a frame with
      its verdict and tracked position, or a cooldown update. */
  datatype Event = CooldownTick | Frame(valid: bool, x: real)

  function FrameCount(evs: seq<Event>): nat {
    if evs == [] then 0 else (if evs[0].Frame? then 1 else 0) + FrameCount(evs[1..])
  }

  function TickCount(evs: seq<Event>): nat {
    if evs == [] then 0 else (if evs[0].CooldownTick? then 1 else 0) + TickCount(evs[1..])
  }

  /** The state and commands after a sequence of events. */
  function Run(s: GestureState, evs: seq<Event>, confirmationFrames: nat, cooldownFrames: nat,
               keyCooldownFrames: nat, movementThreshold: real): Step
    requires confirmationFrames > 0
    decreases |evs|
  {
    if evs == [] then Step(s, [])
    else
      var first := match evs[0]
        case CooldownTick => Step(UpdateCooldown(s), [])
        case Frame(v, x) =>
          NavigationStep(s, v, x, confirmationFrames, cooldownFrames, keyCooldownFrames, movementThreshold);
      var rest := Run(first.state, evs[1..], confirmationFrames, cooldownFrames,
                      keyCooldownFrames, movementThreshold);
      Step(rest.state, first.cmds + rest.cmds)
  }

  /** While the gesture cooldown has not been drained by enough updates,
      no frame changes anything and no key is emitted. */
  lemma {:induction false} NoKeyDuringCooldown(s: GestureState, evs: seq<Event>,
      confirmationFrames: nat, cooldownFrames: nat, keyCooldownFrames: nat, movementThreshold: real)
    requires confirmationFrames > 0
    requires TickCount(evs) < s.gestureCooldownCounter
    ensures Run(s, evs, confirmationFrames, cooldownFrames, keyCooldownFrames, movementThreshold).cmds == []
    ensures !Run(s, evs, confirmationFrames, cooldownFrames, keyCooldownFrames, movementThreshold).state.confirmedGesture
            || s.confirmedGesture
    decreases |evs|
  {
    if evs != [] {
      var first := match evs[0]
        case CooldownTick => Step(UpdateCooldown(s), [])
        case Frame(v, x) =>
          NavigationStep(s, v, x, confirmationFrames, cooldownFrames, keyCooldownFrames, movementThreshold);
      assert first.cmds == [];
      assert first.state.confirmedGesture == s.confirmedGesture;
      NoKeyDuringCooldown(first.state, evs[1..], confirmationFrames, cooldownFrames,
                          keyCooldownFrames, movementThreshold);
    }
  }

  /** From an unconfirmed state with progress `c`, a key needs at least
      `confirmationFrames - c` confirming frames and then one tracking frame:
      with no more frames than `confirmationFrames - c`, nothing is emitted.
      After a key (progress 0) the next key therefore needs
      `confirmationFrames + 1` frames. */
  lemma {:induction false} KeyNeedsReconfirmation(s: GestureState, evs: seq<Event>,
      confirmationFrames: nat, cooldownFrames: nat, keyCooldownFrames: nat, movementThreshold: real)
    requires confirmationFrames > 0
    requires || (!s.confirmedGesture && s.gestureConfirmationCounter + FrameCount(evs) <= confirmationFrames)
             || (s.confirmedGesture && FrameCount(evs) == 0)
    ensures Run(s, evs, confirmationFrames, cooldownFrames, keyCooldownFrames, movementThreshold).cmds == []
    decreases |evs|
  {
    if evs != [] {
      var first := match evs[0]
        case CooldownTick => Step(UpdateCooldown(s), [])
        case Frame(v, x) =>
          NavigationStep(s, v, x, confirmationFrames, cooldownFrames, keyCooldownFrames, movementThreshold);
      assert first.cmds == [];
      KeyNeedsReconfirmation(first.state, evs[1..], confirmationFrames, cooldownFrames,
                             keyCooldownFrames, movementThreshold);
    }
  }
}
