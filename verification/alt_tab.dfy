/** The Alt+Tab gesture of gestures/alt_tab.py: an open hand moved upward
    presses Alt+Tab and keeps Alt held; the relaxed OK pinch releases Alt and
    taps Space. */
module AltTabGesture {
  import opened Wrappers
  import opened Landmarks
  import opened Classifiers
  import opened GestureStates

  /** `DEFAULT_Y_MOVEMENT_THRESHOLD`, in pixels. */
  const DefaultYMovementThreshold: real := 20.0

  /** Alt pressed and held, Tab tapped. */
  const PressAltTab: seq<Command> := [Press(Alt), Press(Tab), Release(Tab)]

  /** Alt released, Space tapped. */
  const ReleaseAltSpace: seq<Command> := [Release(Alt), Press(Space), Release(Space)]

  /** The two Alt flags are set together and cleared together. */
  predicate AltFlagsAgree(s: GestureState) {
    s.isAltPressed == s.altTabActivated
  }

  /** Past both early exits: Alt is not held and the cooldown is over. */
  predicate Open(s: GestureState) {
    !s.isAltPressed && s.cooldownCounter == 0
  }

  /** One call of `process_alt_tab_gesture`. `openHand` and `ok` are the
      verdicts of `is_open_hand` and `is_alt_tab_ok_gesture` (the source
      evaluates the latter twice on the same hand, which gives the same
      answer), `wristY` the wrist's y in pixels and `releaseCooldownFrames`
      is `int(0.5 * fps)`. */
  function AltTabStep(s: GestureState, openHand: bool, ok: bool, wristY: real,
                      confirmationFrames: nat, releaseCooldownFrames: nat,
                      yMovementThreshold: real): (r: Step)
    requires confirmationFrames > 0
    ensures AltFlagsAgree(s) ==> AltFlagsAgree(r.state)
    ensures r.cmds == [] || r.cmds == PressAltTab || r.cmds == ReleaseAltSpace
    ensures r.state.gestureCooldownCounter == s.gestureCooldownCounter && r.state.prevX == s.prevX
    // the pinch releases a held Alt and re-arms the gesture behind a cooldown
    ensures r.cmds == ReleaseAltSpace <==> s.isAltPressed && ok
    ensures s.isAltPressed && ok ==>
      r.state == s.(isAltPressed := false, altTabActivated := false, confirmedGesture := false,
                    gestureConfirmationCounter := 0, prevY := None,
                    cooldownCounter := releaseCooldownFrames)
    // while Alt is held and there is no pinch, or during the cooldown, nothing happens
    ensures s.isAltPressed && !ok ==> r == Step(s, [])
    ensures !s.isAltPressed && s.cooldownCounter > 0 ==> r == Step(s, [])
    // Alt+Tab needs a confirmed open hand moved up by more than the threshold, once
    ensures r.cmds == PressAltTab <==>
      && Open(s) && s.confirmedGesture && openHand && s.prevY.Some?
      && s.prevY.value - wristY > yMovementThreshold && !s.altTabActivated
    ensures r.cmds == PressAltTab ==>
      r.state == s.(isAltPressed := true, altTabActivated := true, confirmedGesture := false,
                    gestureConfirmationCounter := 0, prevY := Some(wristY), gestureActive := true)
    // losing the open hand cancels the gesture
    ensures Open(s) && s.confirmedGesture && !openHand ==>
      r == Step(s.(confirmedGesture := false, gestureConfirmationCounter := 0, prevY := None), [])
    // tracking overwrites the reference y every call
    ensures Open(s) && s.confirmedGesture && openHand && r.cmds == [] ==>
      r.state == s.(prevY := Some(wristY), gestureActive := true)
    ensures Open(s) && !s.confirmedGesture && openHand ==>
      var c := s.gestureConfirmationCounter + 1;
      var done := c >= confirmationFrames;
      r == Step(s.(gestureConfirmationCounter := c, confirmedGesture := done,
                   prevY := if done then Some(wristY) else s.prevY), [])
    ensures Open(s) && !s.confirmedGesture && !openHand ==>
      r == Step(s.(gestureConfirmationCounter := 0), [])
  {
    if s.isAltPressed && ok then
      Step(s.(isAltPressed := false, altTabActivated := false, confirmedGesture := false,
              gestureConfirmationCounter := 0, prevY := None,
              cooldownCounter := releaseCooldownFrames),
           ReleaseAltSpace)
    else if s.isAltPressed then
      Step(s, [])
    else if s.cooldownCounter > 0 then
      Step(s, [])
    else if s.confirmedGesture && !openHand then
      Step(s.(confirmedGesture := false, gestureConfirmationCounter := 0, prevY := None), [])
    else if s.confirmedGesture then
      var pressed :=
        if s.prevY.Some? && s.prevY.value - wristY > yMovementThreshold && !s.altTabActivated then
          Step(s.(isAltPressed := true, altTabActivated := true, confirmedGesture := false,
                  gestureConfirmationCounter := 0, prevY := None),
               PressAltTab)
        else Step(s, []);
      Step(pressed.state.(prevY := Some(wristY), gestureActive := true), pressed.cmds)
    else if openHand then
      var c := s.gestureConfirmationCounter + 1;
      if c >= confirmationFrames then
        Step(s.(gestureConfirmationCounter := c, confirmedGesture := true, prevY := Some(wristY)), [])
      else
        Step(s.(gestureConfirmationCounter := c), [])
    else
      Step(s.(gestureConfirmationCounter := 0), [])
  }

  /** `process_alt_tab_gesture` on a hand, with the open-hand test exactly as
      gestures/base.py writes it. */
  function ProcessAltTab(s: GestureState, h: Hand, imageHeight: real,
                         confirmationFrames: nat, releaseCooldownFrames: nat): (r: Step)
    requires confirmationFrames > 0
    // Alt+Tab needs an open hand, the release needs the pinch
    ensures r.cmds == PressAltTab ==> IsOpenHandAsWritten(h)
    ensures r.cmds == ReleaseAltSpace ==> IsAltTabOkGesture(h)
    // past the early exits, a hand that fails the open-hand test confirms nothing
    ensures Open(s) && !IsOpenHandAsWritten(h) ==> r.cmds == [] && !r.state.confirmedGesture
  {
    AltTabStep(s, IsOpenHandAsWritten(h), IsAltTabOkGesture(h), h.wrist.y * imageHeight,
               confirmationFrames, releaseCooldownFrames, DefaultYMovementThreshold)
  }

  /** The same gesture with the thumb test corrected (see
      `Classifiers.IsOpenHand`). */
  function ProcessAltTabCorrected(s: GestureState, h: Hand, imageHeight: real,
                                  confirmationFrames: nat, releaseCooldownFrames: nat): (r: Step)
    requires confirmationFrames > 0
    ensures r.cmds == PressAltTab ==> IsOpenHand(h)
    ensures r.cmds == ReleaseAltSpace ==> IsAltTabOkGesture(h)
    ensures Open(s) && !IsOpenHand(h) ==> r.cmds == [] && !r.state.confirmedGesture
  {
    AltTabStep(s, IsOpenHand(h), IsAltTabOkGesture(h), h.wrist.y * imageHeight,
               confirmationFrames, releaseCooldownFrames, DefaultYMovementThreshold)
  }

  /** The thumb typo reaches the gesture: an open hand with the thumb pointing
      up never starts Alt+Tab's confirmation, while the corrected test
      confirms it at once. */
  lemma ThumbUpHandNeverConfirmsAltTab(imageHeight: real, releaseCooldownFrames: nat)
    ensures !ProcessAltTab(Initial, ThumbUpHand(), imageHeight, 1, releaseCooldownFrames)
               .state.confirmedGesture
    ensures ProcessAltTabCorrected(Initial, ThumbUpHand(), imageHeight, 1, releaseCooldownFrames)
              .state.confirmedGesture
  {
    var h := ThumbUpHand();
    ThumbTestAsWrittenRejectsOpenHand();
    assert Open(Initial) && !Initial.confirmedGesture && Initial.gestureConfirmationCounter == 0;
    var corrected := AltTabStep(Initial, true, IsAltTabOkGesture(h), h.wrist.y * imageHeight,
                                1, releaseCooldownFrames, DefaultYMovementThreshold);
    assert corrected.state.confirmedGesture;
    assert ProcessAltTabCorrected(Initial, h, imageHeight, 1, releaseCooldownFrames) == corrected;
  }

  /** Whether Alt is held after the commands `cmds`, starting from `held`. */
  function AltHeldAfter(held: bool, cmds: seq<Command>): bool
    decreases |cmds|
  {
    if cmds == [] then held
    else if cmds[0] == Press(Alt) then AltHeldAfter(true, cmds[1..])
    else if cmds[0] == Release(Alt) then AltHeldAfter(false, cmds[1..])
    else AltHeldAfter(held, cmds[1..])
  }

  /** Presses and releases of Alt alternate: never a press while held, never
      a release while not held. */
  predicate AltAlternates(held: bool, cmds: seq<Command>)
    decreases |cmds|
  {
    if cmds == [] then true
    else if cmds[0] == Press(Alt) then !held && AltAlternates(true, cmds[1..])
    else if cmds[0] == Release(Alt) then held && AltAlternates(false, cmds[1..])
    else AltAlternates(held, cmds[1..])
  }

  lemma {:induction false} AltAlternatesAppend(held: bool, a: seq<Command>, b: seq<Command>)
    ensures AltAlternates(held, a + b) <==>
            AltAlternates(held, a) && AltAlternates(AltHeldAfter(held, a), b)
    ensures AltHeldAfter(held, a + b) == AltHeldAfter(AltHeldAfter(held, a), b)
    decreases |a|
  {
    if a != [] {
      assert (a + b)[1..] == a[1..] + b;
      var next := if a[0] == Press(Alt) then true else if a[0] == Release(Alt) then false else held;
      AltAlternatesAppend(next, a[1..], b);
    } else {
      assert a + b == b;
    }
  }

  /** What happens to the Alt+Tab state: a frame, a cooldown update, or the
      reset applied when no hand is seen. */
  datatype Event = CooldownTick | HandLost | Frame(openHand: bool, ok: bool, y: real)

  function Run(s: GestureState, evs: seq<Event>, confirmationFrames: nat,
               releaseCooldownFrames: nat, yMovementThreshold: real): Step
    requires confirmationFrames > 0
    decreases |evs|
  {
    if evs == [] then Step(s, [])
    else
      var first := match evs[0]
        case CooldownTick => Step(UpdateCooldown(s), [])
        case HandLost => Step(Reset(s), [])
        case Frame(o, k, y) =>
          AltTabStep(s, o, k, y, confirmationFrames, releaseCooldownFrames, yMovementThreshold);
      var rest := Run(first.state, evs[1..], confirmationFrames, releaseCooldownFrames,
                      yMovementThreshold);
      Step(rest.state, first.cmds + rest.cmds)
  }

  /** Over any run of frames, cooldown updates and resets, Alt is never
      pressed twice without a release in between nor released when not held,
      and the state's flag always says whether Alt is down. A reset does not
      release Alt. */
  lemma {:induction false} AltNeverPressedTwice(s: GestureState, evs: seq<Event>,
      confirmationFrames: nat, releaseCooldownFrames: nat, yMovementThreshold: real)
    requires confirmationFrames > 0
    requires AltFlagsAgree(s)
    ensures var r := Run(s, evs, confirmationFrames, releaseCooldownFrames, yMovementThreshold);
      && AltAlternates(s.isAltPressed, r.cmds)
      && AltHeldAfter(s.isAltPressed, r.cmds) == r.state.isAltPressed
      && AltFlagsAgree(r.state)
    decreases |evs|
  {
    if evs != [] {
      var first := match evs[0]
        case CooldownTick => Step(UpdateCooldown(s), [])
        case HandLost => Step(Reset(s), [])
        case Frame(o, k, y) =>
          AltTabStep(s, o, k, y, confirmationFrames, releaseCooldownFrames, yMovementThreshold);
      assert AltAlternates(s.isAltPressed, first.cmds)
          && AltHeldAfter(s.isAltPressed, first.cmds) == first.state.isAltPressed by {
        if first.cmds == PressAltTab {
          assert first.cmds[1..] == [Press(Tab), Release(Tab)];
          assert first.cmds[1..][1..] == [Release(Tab)];
          assert first.cmds[1..][1..][1..] == [];
        } else if first.cmds == ReleaseAltSpace {
          assert first.cmds[1..] == [Press(Space), Release(Space)];
          assert first.cmds[1..][1..] == [Release(Space)];
          assert first.cmds[1..][1..][1..] == [];
        }
      }
      AltNeverPressedTwice(first.state, evs[1..], confirmationFrames, releaseCooldownFrames,
                           yMovementThreshold);
      var rest := Run(first.state, evs[1..], confirmationFrames, releaseCooldownFrames,
                      yMovementThreshold);
      AltAlternatesAppend(s.isAltPressed, first.cmds, rest.cmds);
    }
  }
}
