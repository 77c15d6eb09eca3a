/** The click gesture of gestures/mouse_click.py: holding the OK pinch
    clicks the left button, at most once per click cooldown. */
module MouseClickGesture {
  import opened Landmarks
  import opened Classifiers
  import opened GestureStates

  /** One call of `process_mouse_click_gesture`. `valid` is the verdict of
      `is_ok_gesture`; `clickCooldownFrames` is `int(0.5 * fps)`. The gesture
      cooldown counter is never consulted or changed. */
  function ClickStep(s: GestureState, valid: bool, confirmationFrames: nat,
                     clickCooldownFrames: nat): (r: Step)
    requires confirmationFrames > 0
    ensures r.state.gestureCooldownCounter == s.gestureCooldownCounter
    ensures r.state.prevX == s.prevX && r.state.prevY == s.prevY
    // a click exactly when the held, confirmed pinch finds the click cooldown over
    ensures r.cmds == [] || r.cmds == [Click(LeftButton)]
    ensures r.cmds == [Click(LeftButton)] <==> s.confirmedGesture && valid && s.cooldownCounter == 0
    // a click re-arms the cooldown but keeps the gesture confirmed, so holding it clicks again later
    ensures r.cmds != [] ==> r.state.cooldownCounter == clickCooldownFrames && r.state.confirmedGesture
    ensures r.cmds == [] ==> r.state.cooldownCounter == s.cooldownCounter
    ensures s.confirmedGesture && valid ==> r.state.confirmedGesture && r.state.gestureActive
    ensures s.confirmedGesture && !valid ==>
      r == Step(s.(confirmedGesture := false, gestureConfirmationCounter := 0), [])
    // the call that confirms does not click
    ensures !s.confirmedGesture ==> r.cmds == []
    ensures !s.confirmedGesture && valid ==>
      r.state == s.(gestureConfirmationCounter := s.gestureConfirmationCounter + 1,
                    confirmedGesture := s.gestureConfirmationCounter + 1 >= confirmationFrames)
    ensures !s.confirmedGesture && !valid ==> r == Step(s.(gestureConfirmationCounter := 0), [])
  {
    if s.confirmedGesture && !valid then
      Step(s.(confirmedGesture := false, gestureConfirmationCounter := 0), [])
    else if s.confirmedGesture then
      if s.cooldownCounter == 0 then
        Step(s.(cooldownCounter := clickCooldownFrames, gestureActive := true), [Click(LeftButton)])
      else
        Step(s.(gestureActive := true), [])
    else if valid then
      var c := s.gestureConfirmationCounter + 1;
      Step(s.(gestureConfirmationCounter := c, confirmedGesture := c >= confirmationFrames), [])
    else
      Step(s.(gestureConfirmationCounter := 0), [])
  }

  /** `process_mouse_click_gesture` on a hand. */
  function ProcessMouseClick(s: GestureState, h: Hand, confirmationFrames: nat,
                             clickCooldownFrames: nat): (r: Step)
    requires confirmationFrames > 0
    // a click needs the pinch; any other pose leaves nothing confirmed
    ensures r.cmds != [] ==> IsOkGesture(h)
    ensures !IsOkGesture(h) ==> r.cmds == [] && !r.state.confirmedGesture
  {
    ClickStep(s, IsOkGesture(h), confirmationFrames, clickCooldownFrames)
  }

  /** A frame with its verdict, or a cooldown update. */
  datatype Event = CooldownTick | Frame(valid: bool)

  function TickCount(evs: seq<Event>): nat {
    if evs == [] then 0 else (if evs[0].CooldownTick? then 1 else 0) + TickCount(evs[1..])
  }

  function Run(s: GestureState, evs: seq<Event>, confirmationFrames: nat,
               clickCooldownFrames: nat): Step
    requires confirmationFrames > 0
    decreases |evs|
  {
    if evs == [] then Step(s, [])
    else
      var first := match evs[0]
        case CooldownTick => Step(UpdateCooldown(s), [])
        case Frame(v) => ClickStep(s, v, confirmationFrames, clickCooldownFrames);
      var rest := Run(first.state, evs[1..], confirmationFrames, clickCooldownFrames);
      Step(rest.state, first.cmds + rest.cmds)
  }

  /** While the click cooldown still has more frames to run than there are
      cooldown updates, no click happens, whatever the frames show; and the
      cooldown has gone down by exactly the number of updates. */
  lemma {:induction false} NoClickDuringCooldown(s: GestureState, evs: seq<Event>,
                                                 confirmationFrames: nat, clickCooldownFrames: nat)
    requires confirmationFrames > 0
    requires TickCount(evs) < s.cooldownCounter
    ensures Run(s, evs, confirmationFrames, clickCooldownFrames).cmds == []
    ensures Run(s, evs, confirmationFrames, clickCooldownFrames).state.cooldownCounter
            == s.cooldownCounter - TickCount(evs)
    decreases |evs|
  {
    if evs != [] {
      var first := match evs[0]
        case CooldownTick => Step(UpdateCooldown(s), [])
        case Frame(v) => ClickStep(s, v, confirmationFrames, clickCooldownFrames);
      NoClickDuringCooldown(first.state, evs[1..], confirmationFrames, clickCooldownFrames);
    }
  }

  /** A held, confirmed pinch with the cooldown over clicks once; after that
      click nothing clicks again until `clickCooldownFrames` cooldown updates
      have passed, whatever the frames show. */
  lemma ClickSpacing(s: GestureState, evs: seq<Event>, confirmationFrames: nat,
                     clickCooldownFrames: nat)
    requires confirmationFrames > 0
    requires s.confirmedGesture && s.cooldownCounter == 0
    requires TickCount(evs) < clickCooldownFrames
    ensures var r := Run(s, [Frame(true)] + evs, confirmationFrames, clickCooldownFrames);
      r.cmds == [Click(LeftButton)]
  {
    var first := ClickStep(s, true, confirmationFrames, clickCooldownFrames);
    assert ([Frame(true)] + evs)[1..] == evs;
    NoClickDuringCooldown(first.state, evs, confirmationFrames, clickCooldownFrames);
  }
}
