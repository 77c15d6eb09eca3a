/** The older single-file gesture engine of gestures.py: its own state
    record, open and closed hand tests, a navigation gesture with no pose
    check, and the open-then-closed Alt+F4 sequence. */
module LegacyGestures {
  import opened Wrappers
  import opened Landmarks
  import opened Classifiers
  import opened GestureStates

  /** The `GestureState` class of gestures.py. Its `cooldown_frames`,
      `hand_open` and `hand_closed` fields are never read and are left out;
      `movement_threshold` (30 pixels), the confirmation time (0.1 s) and the
      gesture cooldown time (0.15 s) become parameters. */
  datatype LegacyState = LegacyState(
    prevX: Option<real>,
    gestureActive: bool,
    cooldownCounter: nat,
    gestureConfirmationCounter: nat,
    gestureCooldownCounter: nat,
    confirmedGesture: bool,
    openHandConfirmed: bool,
    lastHandStateChangeTime: real)

  const LegacyInitial: LegacyState :=
    LegacyState(None, false, 0, 0, 0, false, false, 0.0)

  /** `movement_threshold` of the legacy state, in pixels. */
  const LegacyMovementThreshold: real := 30.0

  /** Seconds allowed between confirming the open hand and closing it. */
  const AltF4Timeout: real := 3.0

  datatype LegacyStep = LegacyStep(state: LegacyState, cmds: seq<Command>)

  /** Alt held while F4 is tapped. */
  const AltF4Keys: seq<Command> := [Press(Alt), Press(F4), Release(F4), Release(Alt)]

  /** The legacy open hand: thumb tip left of the thumb MCP (a right hand
      facing the camera) and the four other tips above their PIP joints. */
  predicate IsOpenHandLegacy(h: Hand) {
    && h.thumbTip.x < h.thumbMcp.x
    && TipAbove(h.indexTip, h.indexPip)
    && TipAbove(h.middleTip, h.middlePip)
    && TipAbove(h.ringTip, h.ringPip)
    && TipAbove(h.pinkyTip, h.pinkyPip)
  }

  /** The legacy fist: all four finger tips below their PIP joints. It can
      never hold together with the open hand, nor with the navigation pose. */
  predicate IsClosedHandLegacy(h: Hand): (r: bool)
    ensures r ==> !IsOpenHandLegacy(h) && !IsNavigationGesture(h)
  {
    && TipBelow(h.indexTip, h.indexPip)
    && TipBelow(h.middleTip, h.middlePip)
    && TipBelow(h.ringTip, h.ringPip)
    && TipBelow(h.pinkyTip, h.pinkyPip)
  }

  /** The legacy `process_navigation_gesture`. There is no pose check: every
      unconfirmed call counts toward confirmation, whatever the hand shows,
      and no cooldown is checked before confirming. `keyCooldownFrames` is
      `int(0.2 * fps)`, `cooldownFrames` is `int(0.15 * fps)`. */
  function LegacyNavigationStep(s: LegacyState, currentX: real, confirmationFrames: nat,
                                cooldownFrames: nat, keyCooldownFrames: nat,
                                movementThreshold: real): (r: LegacyStep)
    requires confirmationFrames > 0
    ensures r.state.lastHandStateChangeTime == s.lastHandStateChangeTime
    ensures r.state.openHandConfirmed == s.openHandConfirmed
    ensures r.cmds == [] || r.cmds == Tap(Left) || r.cmds == Tap(Right)
    // the gesture cooldown counter plays no part in whether a key fires
    ensures r.cmds == Tap(Right) <==>
      && s.confirmedGesture && s.prevX.Some? && s.cooldownCounter == 0
      && s.prevX.value - currentX > movementThreshold && s.prevX.value - currentX > 0.0
    ensures r.cmds == Tap(Left) <==>
      && s.confirmedGesture && s.prevX.Some? && s.cooldownCounter == 0
      && currentX - s.prevX.value > movementThreshold && s.prevX.value - currentX < 0.0
    ensures r.cmds != [] ==>
      r.state == s.(cooldownCounter := keyCooldownFrames, gestureCooldownCounter := cooldownFrames,
                    confirmedGesture := false, gestureConfirmationCounter := 0,
                    prevX := Some(currentX), gestureActive := true)
    ensures s.confirmedGesture && r.cmds == [] ==>
      r.state == s.(prevX := Some(currentX), gestureActive := true)
    ensures !s.confirmedGesture ==>
      var c := s.gestureConfirmationCounter + 1;
      var done := c >= confirmationFrames;
      r == LegacyStep(s.(gestureConfirmationCounter := c, confirmedGesture := done,
                         prevX := if done then Some(currentX) else s.prevX), [])
  {
    if s.confirmedGesture then
      var fired :=
        if s.prevX.Some? && s.cooldownCounter == 0 then
          var movement := s.prevX.value - currentX;
          var magnitude := if movement < 0.0 then -movement else movement;
          if magnitude > movementThreshold && movement != 0.0 then
            var key := if movement > 0.0 then Right else Left;
            LegacyStep(s.(cooldownCounter := keyCooldownFrames, confirmedGesture := false,
                          gestureConfirmationCounter := 0, gestureCooldownCounter := cooldownFrames,
                          prevX := None),
                       Tap(key))
          else LegacyStep(s, [])
        else LegacyStep(s, []);
      LegacyStep(fired.state.(prevX := Some(currentX), gestureActive := true), fired.cmds)
    else
      var c := s.gestureConfirmationCounter + 1;
      if c >= confirmationFrames then
        LegacyStep(s.(gestureConfirmationCounter := c, confirmedGesture := true,
                      prevX := Some(currentX)), [])
      else
        LegacyStep(s.(gestureConfirmationCounter := c), [])
  }

  /** `process_alt_f4_gesture`. `isOpen` and `isClosed` are the legacy
      classifier verdicts, `now` the value of `time.time()` for this call and
      `cooldownFrames` is `int(gesture_cooldown_time * fps)`. The gesture
      cooldown counter is decremented at the end of every call and never
      stops the sequence. */
  function AltF4Step(s: LegacyState, isOpen: bool, isClosed: bool, now: real,
                     confirmationFrames: nat, cooldownFrames: nat): (r: LegacyStep)
    requires confirmationFrames > 0
    ensures r.state.prevX == s.prevX && r.state.confirmedGesture == s.confirmedGesture
    ensures r.state.cooldownCounter == s.cooldownCounter
    // Alt+F4 needs an already confirmed open hand and a closed hand held long enough
    ensures r.cmds == [] || r.cmds == AltF4Keys
    ensures r.cmds == AltF4Keys <==>
      && s.openHandConfirmed && isClosed && !(isOpen && !s.openHandConfirmed)
      && s.gestureConfirmationCounter + 1 >= confirmationFrames
    ensures r.cmds != [] ==>
      && !r.state.openHandConfirmed && r.state.gestureConfirmationCounter == 0
      && r.state.gestureCooldownCounter == Decrement(cooldownFrames)
    ensures r.cmds == [] ==> r.state.gestureCooldownCounter == Decrement(s.gestureCooldownCounter)
    // confirming the open hand records the time and restarts the counter for the fist
    ensures isOpen && !s.openHandConfirmed ==>
      var c := s.gestureConfirmationCounter + 1;
      && r.state.openHandConfirmed == (c >= confirmationFrames)
      && r.state.gestureConfirmationCounter == (if c >= confirmationFrames then 0 else c)
      && r.state.lastHandStateChangeTime
         == (if c >= confirmationFrames then now else s.lastHandStateChangeTime)
    // a fist short of the count: one more frame, whatever the time, with nothing else changed
    ensures s.openHandConfirmed && isClosed && s.gestureConfirmationCounter + 1 < confirmationFrames ==>
      r.state == s.(gestureConfirmationCounter := s.gestureConfirmationCounter + 1,
                    gestureCooldownCounter := Decrement(s.gestureCooldownCounter))
    // waiting for the fist: more than three seconds cancels, otherwise the counter restarts
    ensures s.openHandConfirmed && !isClosed ==>
      && r.state.gestureConfirmationCounter == 0
      && r.state.lastHandStateChangeTime == s.lastHandStateChangeTime
      && r.state.openHandConfirmed == (now - s.lastHandStateChangeTime <= AltF4Timeout)
    ensures !s.openHandConfirmed && !isOpen ==>
      r.state == s.(gestureConfirmationCounter := 0,
                    gestureCooldownCounter := Decrement(s.gestureCooldownCounter))
  {
    var mid :=
      if isOpen && !s.openHandConfirmed then
        var c := s.gestureConfirmationCounter + 1;
        if c >= confirmationFrames then
          LegacyStep(s.(openHandConfirmed := true, lastHandStateChangeTime := now,
                        gestureConfirmationCounter := 0), [])
        else
          LegacyStep(s.(gestureConfirmationCounter := c), [])
      else if s.openHandConfirmed && isClosed then
        var c := s.gestureConfirmationCounter + 1;
        if c >= confirmationFrames then
          LegacyStep(s.(openHandConfirmed := false, gestureConfirmationCounter := 0,
                        gestureCooldownCounter := cooldownFrames), AltF4Keys)
        else
          LegacyStep(s.(gestureConfirmationCounter := c), [])
      else if s.openHandConfirmed then
        if now - s.lastHandStateChangeTime > AltF4Timeout then
          LegacyStep(s.(openHandConfirmed := false, gestureConfirmationCounter := 0), [])
        else
          LegacyStep(s.(gestureConfirmationCounter := 0), [])
      else
        LegacyStep(s.(gestureConfirmationCounter := 0), []);
    LegacyStep(mid.state.(gestureCooldownCounter := Decrement(mid.state.gestureCooldownCounter)),
               mid.cmds)
  }

  /** `process_alt_f4_gesture` on a hand. */
  function ProcessAltF4(s: LegacyState, h: Hand, now: real, confirmationFrames: nat,
                        cooldownFrames: nat): (r: LegacyStep)
    requires confirmationFrames > 0
    // Alt+F4 needs a fist, and the open hand is confirmed only by an open hand
    ensures r.cmds != [] ==> IsClosedHandLegacy(h)
    ensures r.state.openHandConfirmed && !s.openHandConfirmed ==> IsOpenHandLegacy(h)
  {
    AltF4Step(s, IsOpenHandLegacy(h), IsClosedHandLegacy(h), now, confirmationFrames, cooldownFrames)
  }

  /** `reset_gesture_states`, called when no hand is seen: the navigation
      state loses its confirmation (and its position only if it was
      confirmed), the Alt+F4 state its open-hand confirmation; both
      counters restart. Cooldowns are kept. */
  function ResetGestureStates(nav: LegacyState, altF4: LegacyState): (r: (LegacyState, LegacyState))
    ensures !r.0.confirmedGesture && r.0.gestureConfirmationCounter == 0 && !r.0.gestureActive
    ensures r.0.prevX == (if nav.confirmedGesture then None else nav.prevX)
    ensures r.0 == nav.(confirmedGesture := false, gestureConfirmationCounter := 0,
                        gestureActive := false, prevX := r.0.prevX)
    ensures !r.1.openHandConfirmed && r.1.gestureConfirmationCounter == 0
    ensures r.1 == altF4.(openHandConfirmed := false, gestureConfirmationCounter := 0)
  {
    var n := if nav.confirmedGesture then nav.(confirmedGesture := false, prevX := None) else nav;
    var a := if altF4.openHandConfirmed then altF4.(openHandConfirmed := false) else altF4;
    (n.(gestureConfirmationCounter := 0, gestureActive := false),
     a.(gestureConfirmationCounter := 0))
  }

  /** One state's share of `update_cooldowns`. */
  function Cool(s: LegacyState): (r: LegacyState)
    ensures r.cooldownCounter == Decrement(s.cooldownCounter)
    ensures r.gestureCooldownCounter == Decrement(s.gestureCooldownCounter)
    ensures r.(cooldownCounter := s.cooldownCounter, gestureCooldownCounter := s.gestureCooldownCounter) == s
  {
    s.(cooldownCounter := Decrement(s.cooldownCounter),
       gestureCooldownCounter := Decrement(s.gestureCooldownCounter))
  }

  /** `update_cooldowns`: the four counters of both states count down by one
      when positive; nothing else changes. */
  function UpdateCooldowns(nav: LegacyState, altF4: LegacyState): (r: (LegacyState, LegacyState))
    ensures r.0.cooldownCounter == Decrement(nav.cooldownCounter)
    ensures r.0.gestureCooldownCounter == Decrement(nav.gestureCooldownCounter)
    ensures r.1.cooldownCounter == Decrement(altF4.cooldownCounter)
    ensures r.1.gestureCooldownCounter == Decrement(altF4.gestureCooldownCounter)
    ensures r.0.(cooldownCounter := nav.cooldownCounter,
                 gestureCooldownCounter := nav.gestureCooldownCounter) == nav
    ensures r.1.(cooldownCounter := altF4.cooldownCounter,
                 gestureCooldownCounter := altF4.gestureCooldownCounter) == altF4
  {
    (Cool(nav), Cool(altF4))
  }

  /** Events seen by the legacy navigation state: a frame with its tracked
      position, or a cooldown update. */
  datatype NavEvent = NavTick | NavFrame(x: real)

  function NavFrameCount(evs: seq<NavEvent>): nat {
    if evs == [] then 0 else (if evs[0].NavFrame? then 1 else 0) + NavFrameCount(evs[1..])
  }

  function RunNavigation(s: LegacyState, evs: seq<NavEvent>, confirmationFrames: nat,
                         cooldownFrames: nat, keyCooldownFrames: nat,
                         movementThreshold: real): LegacyStep
    requires confirmationFrames > 0
    decreases |evs|
  {
    if evs == [] then LegacyStep(s, [])
    else
      var first := match evs[0]
        case NavTick => LegacyStep(Cool(s), [])
        case NavFrame(x) =>
          LegacyNavigationStep(s, x, confirmationFrames, cooldownFrames, keyCooldownFrames,
                               movementThreshold);
      var rest := RunNavigation(first.state, evs[1..], confirmationFrames, cooldownFrames,
                                keyCooldownFrames, movementThreshold);
      LegacyStep(rest.state, first.cmds + rest.cmds)
  }

  /** After a key the legacy gesture must confirm again: from an unconfirmed
      state, no key fires until more frames have passed than the
      confirmation still needs, however the hand moves. */
  lemma {:induction false} LegacyKeyNeedsReconfirmation(s: LegacyState, evs: seq<NavEvent>,
                                                        confirmationFrames: nat, cooldownFrames: nat,
                                                        keyCooldownFrames: nat,
                                                        movementThreshold: real)
    requires confirmationFrames > 0
    requires !s.confirmedGesture
    requires s.gestureConfirmationCounter + NavFrameCount(evs) <= confirmationFrames
    ensures RunNavigation(s, evs, confirmationFrames, cooldownFrames, keyCooldownFrames,
                          movementThreshold).cmds == []
    decreases |evs|
  {
    if evs != [] {
      var first := match evs[0]
        case NavTick => LegacyStep(Cool(s), [])
        case NavFrame(x) =>
          LegacyNavigationStep(s, x, confirmationFrames, cooldownFrames, keyCooldownFrames,
                               movementThreshold);
      if first.state.confirmedGesture {
        // the confirming frame used up the whole budget: nothing is left to fire on
        assert NavFrameCount(evs[1..]) == 0;
        NoFramesNoKey(first.state, evs[1..], confirmationFrames, cooldownFrames,
                      keyCooldownFrames, movementThreshold);
      } else {
        LegacyKeyNeedsReconfirmation(first.state, evs[1..], confirmationFrames, cooldownFrames,
                                     keyCooldownFrames, movementThreshold);
      }
    }
  }

  /** Cooldown updates alone never press a key. */
  lemma {:induction false} NoFramesNoKey(s: LegacyState, evs: seq<NavEvent>,
                                         confirmationFrames: nat, cooldownFrames: nat,
                                         keyCooldownFrames: nat, movementThreshold: real)
    requires confirmationFrames > 0
    requires NavFrameCount(evs) == 0
    ensures RunNavigation(s, evs, confirmationFrames, cooldownFrames, keyCooldownFrames,
                          movementThreshold).cmds == []
    decreases |evs|
  {
    if evs != [] {
      NoFramesNoKey(Cool(s), evs[1..], confirmationFrames, cooldownFrames,
                    keyCooldownFrames, movementThreshold);
    }
  }

  /** Events seen by the Alt+F4 state: a frame with both verdicts and the
      clock reading. */
  datatype AltF4Frame = AltF4Frame(isOpen: bool, isClosed: bool, now: real)

  function RunAltF4(s: LegacyState, frames: seq<AltF4Frame>, confirmationFrames: nat,
                    cooldownFrames: nat): LegacyStep
    requires confirmationFrames > 0
    decreases |frames|
  {
    if frames == [] then LegacyStep(s, [])
    else
      var f := frames[0];
      var first := AltF4Step(s, f.isOpen, f.isClosed, f.now, confirmationFrames, cooldownFrames);
      var rest := RunAltF4(first.state, frames[1..], confirmationFrames, cooldownFrames);
      LegacyStep(rest.state, first.cmds + rest.cmds)
  }

  /** Without an open hand first, no sequence of frames closes the window:
      if the open hand is not confirmed and no frame shows an open hand,
      Alt+F4 is never sent. */
  lemma {:induction false} NoAltF4WithoutOpenHand(s: LegacyState, frames: seq<AltF4Frame>,
                                                  confirmationFrames: nat, cooldownFrames: nat)
    requires confirmationFrames > 0
    requires !s.openHandConfirmed
    requires forall i :: 0 <= i < |frames| ==> !frames[i].isOpen
    ensures RunAltF4(s, frames, confirmationFrames, cooldownFrames).cmds == []
    ensures !RunAltF4(s, frames, confirmationFrames, cooldownFrames).state.openHandConfirmed
    decreases |frames|
  {
    if frames != [] {
      var f := frames[0];
      var first := AltF4Step(s, f.isOpen, f.isClosed, f.now, confirmationFrames, cooldownFrames);
      assert forall i :: 0 <= i < |frames[1..]| ==> !frames[1..][i].isOpen by {
        forall i | 0 <= i < |frames[1..]| ensures !frames[1..][i].isOpen {
          assert frames[1..][i] == frames[i + 1];
        }
      }
      NoAltF4WithoutOpenHand(first.state, frames[1..], confirmationFrames, cooldownFrames);
    }
  }

  /** The other direction: once the open hand is confirmed, a fist held for
      the frames the count still lacks sends Alt+F4, whatever the clock
      says, since the timeout is only checked on frames without a fist. */
  lemma {:induction false} FistHeldSendsAltF4(s: LegacyState, frames: seq<AltF4Frame>,
                                              confirmationFrames: nat, cooldownFrames: nat)
    requires confirmationFrames > 0
    requires s.openHandConfirmed && |frames| > 0
    requires s.gestureConfirmationCounter + |frames| == confirmationFrames
    requires forall i :: 0 <= i < |frames| ==> frames[i].isClosed
    ensures RunAltF4(s, frames, confirmationFrames, cooldownFrames).cmds == AltF4Keys
    decreases |frames|
  {
    var f := frames[0];
    var first := AltF4Step(s, f.isOpen, f.isClosed, f.now, confirmationFrames, cooldownFrames);
    if |frames| == 1 {
      assert first.cmds == AltF4Keys;
      assert RunAltF4(first.state, frames[1..], confirmationFrames, cooldownFrames).cmds == [];
    } else {
      assert first.cmds == [];
      assert forall i :: 0 <= i < |frames[1..]| ==> frames[1..][i].isClosed by {
        forall i | 0 <= i < |frames[1..]| ensures frames[1..][i].isClosed {
          assert frames[1..][i] == frames[i + 1];
        }
      }
      FistHeldSendsAltF4(first.state, frames[1..], confirmationFrames, cooldownFrames);
    }
  }
}
