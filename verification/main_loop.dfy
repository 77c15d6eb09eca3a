/** The stand-alone controller loop of main.py: module-level variables
    hold one navigation state, and each camera frame runs one tick of
    cooldown update, first-match detection over the hands seen, and the
    confirm/track/key logic. */
module MainLoop {
  import opened Wrappers
  import opened Numeric
  import opened Landmarks
  import opened Classifiers
  import opened GestureStates
  import NavigationGesture

  /** The loop's global variables that carry state from frame to frame. */
  datatype LoopState = LoopState(
    prevX: Option<real>,
    gestureActive: bool,
    cooldownCounter: nat,
    gestureCooldownCounter: nat,
    gestureConfirmationCounter: nat,
    confirmedGesture: bool)

  const LoopInitial: LoopState := LoopState(None, false, 0, 0, 0, false)

  /** `movement_threshold`, in pixels. */
  const LoopMovementThreshold: real := 30.0

  datatype Tick = Tick(state: LoopState, cmds: seq<Command>)

  /** `is_correct_gesture`, written out again in main.py; it is the very
      navigation pose of gestures/base.py. */
  predicate IsCorrectGesture(h: Hand): (r: bool)
    ensures r <==> IsNavigationGesture(h)
  {
    h.indexTip.y < h.indexPip.y && h.middleTip.y < h.middlePip.y
    && h.ringTip.y > h.ringPip.y && h.pinkyTip.y > h.pinkyPip.y
  }

  /** The hand the loop picks: the first one, in the detector's order, that
      makes the pose. */
  function FirstMatch(hands: seq<Hand>): (r: Option<nat>)
    ensures r.Some? ==> r.value < |hands| && IsCorrectGesture(hands[r.value])
    ensures r.Some? ==> forall j :: 0 <= j < r.value ==> !IsCorrectGesture(hands[j])
    ensures r.None? <==> forall j :: 0 <= j < |hands| ==> !IsCorrectGesture(hands[j])
  {
    if hands == [] then None
    else if IsCorrectGesture(hands[0]) then Some(0)
    else
      match FirstMatch(hands[1..])
      case None => None
      case Some(i) => Some(i + 1)
  }

  /** `int(seconds * actual_fps)` for the camera's integer frame rate; the
      confirmation count (0.1 s) is positive exactly from 10 frames per
      second up. */
  function ConfirmationFrames(actualFps: int): (r: int)
    ensures r > 0 <==> actualFps >= 10
    ensures actualFps >= 0 ==> r <= actualFps
  {
    var x := 0.1 * actualFps as real;
    assert actualFps >= 10 ==> x >= 1.0;
    assert actualFps < 10 ==> x < 1.0;
    Trunc(x)
  }

  /** The frame's cooldown update, done first in every tick. */
  function CoolDown(s: LoopState): (r: LoopState)
    ensures r.cooldownCounter == Decrement(s.cooldownCounter)
    ensures r.gestureCooldownCounter == Decrement(s.gestureCooldownCounter)
    ensures r.(cooldownCounter := s.cooldownCounter,
               gestureCooldownCounter := s.gestureCooldownCounter) == s
  {
    s.(cooldownCounter := Decrement(s.cooldownCounter),
       gestureCooldownCounter := Decrement(s.gestureCooldownCounter))
  }

  /** The hand chosen this frame: hands are examined only once the gesture
      cooldown, already updated, is over. */
  function Detected(c: LoopState, hands: seq<Hand>): (r: Option<nat>)
    ensures r.Some? ==> c.gestureCooldownCounter == 0 && r == FirstMatch(hands)
    ensures c.gestureCooldownCounter == 0 ==> r == FirstMatch(hands)
  {
    if hands != [] && c.gestureCooldownCounter == 0 then FirstMatch(hands) else None
  }

  /** One pass of the loop body (main.py lines 250-421) for the hands the
      detector returned, with the frame counts fixed before the loop. */
  function LoopTick(s: LoopState, hands: seq<Hand>, imageWidth: real, confirmationFrames: nat,
                    cooldownFrames: nat, keyCooldownFrames: nat): (r: Tick)
    requires confirmationFrames > 0
    // a key needs a detected pose, a confirmed gesture and the key cooldown over
    ensures r.cmds == [] || r.cmds == Tap(Left) || r.cmds == Tap(Right)
    ensures r.cmds != [] ==>
      var c := CoolDown(s);
      var i := Detected(c, hands);
      && i.Some? && s.confirmedGesture && s.prevX.Some? && c.cooldownCounter == 0
      && var mv := s.prevX.value - NavigationGesture.TrackedX(hands[i.value], imageWidth);
         (r.cmds == Tap(Right) ==> mv > LoopMovementThreshold)
         && (r.cmds == Tap(Left) ==> -mv > LoopMovementThreshold)
    ensures var c := CoolDown(s);
      var i := Detected(c, hands);
      (&& i.Some? && s.confirmedGesture && s.prevX.Some? && c.cooldownCounter == 0
       && var mv := s.prevX.value - NavigationGesture.TrackedX(hands[i.value], imageWidth);
          (mv > LoopMovementThreshold || -mv > LoopMovementThreshold))
      ==> r.cmds != []
    // after a key: unconfirmed, counter restarted, both cooldowns armed, position still overwritten
    ensures r.cmds != [] ==>
      var i := Detected(CoolDown(s), hands);
      && i.Some?
      && r.state == LoopState(Some(NavigationGesture.TrackedX(hands[i.value], imageWidth)), true,
                              keyCooldownFrames, cooldownFrames, 0, false)
    // no pose: progress is lost unless confirmed; the confirmation is dropped once the cooldown is over
    ensures Detected(CoolDown(s), hands).None? ==>
      var c := CoolDown(s);
      && r.cmds == []
      && r.state.gestureConfirmationCounter
         == (if s.confirmedGesture then s.gestureConfirmationCounter else 0)
      && r.state.confirmedGesture == (s.confirmedGesture && c.gestureCooldownCounter > 0)
      && (s.confirmedGesture && !r.state.confirmedGesture ==> r.state.prevX == None)
      && !r.state.gestureActive
    // a pose before confirmation: one more frame, confirmed on reaching the target
    ensures Detected(CoolDown(s), hands).Some? && !s.confirmedGesture ==>
      var c := s.gestureConfirmationCounter + 1;
      var i := Detected(CoolDown(s), hands).value;
      && r.cmds == []
      && r.state.gestureConfirmationCounter == c
      && r.state.confirmedGesture == (c >= confirmationFrames)
      && r.state.prevX == (if c >= confirmationFrames
                           then Some(NavigationGesture.TrackedX(hands[i], imageWidth))
                           else s.prevX)
    // a confirmed pose without a key: the position moves on to this frame's, so
    // movement is measured frame to frame, and nothing else changes
    ensures Detected(CoolDown(s), hands).Some? && s.confirmedGesture && r.cmds == [] ==>
      var i := Detected(CoolDown(s), hands).value;
      r.state == CoolDown(s).(prevX := Some(NavigationGesture.TrackedX(hands[i], imageWidth)),
                              gestureActive := true)
    // without a key both counters only count down by one, so an armed
    // gesture cooldown keeps detection off for its full length
    ensures r.cmds == [] ==>
      && r.state.cooldownCounter == CoolDown(s).cooldownCounter
      && r.state.gestureCooldownCounter == CoolDown(s).gestureCooldownCounter
    // the confirmation only ever lives outside the gesture cooldown
    ensures (s.confirmedGesture ==> s.gestureCooldownCounter == 0) ==>
            (r.state.confirmedGesture ==> r.state.gestureCooldownCounter == 0)
  {
    var c := CoolDown(s);
    match Detected(c, hands)
    case None =>
      var k := if !c.confirmedGesture then c.(gestureConfirmationCounter := 0) else c;
      var d := if k.confirmedGesture && k.gestureCooldownCounter == 0
               then k.(confirmedGesture := false, prevX := None) else k;
      Tick(d.(gestureActive := false), [])
    case Some(i) =>
      var x := NavigationGesture.TrackedX(hands[i], imageWidth);
      if !c.confirmedGesture then
        var n := c.gestureConfirmationCounter + 1;
        if n >= confirmationFrames then
          Tick(c.(gestureConfirmationCounter := n, confirmedGesture := true, prevX := Some(x)), [])
        else
          Tick(c.(gestureConfirmationCounter := n), [])
      else
        var fired :=
          if c.prevX.Some? && c.cooldownCounter == 0 then
            var movement := c.prevX.value - x;
            var magnitude := if movement < 0.0 then -movement else movement;
            if magnitude > LoopMovementThreshold && movement != 0.0 then
              var key := if movement > 0.0 then Right else Left;
              Tick(c.(cooldownCounter := keyCooldownFrames, confirmedGesture := false,
                      gestureConfirmationCounter := 0, gestureCooldownCounter := cooldownFrames,
                      prevX := None),
                   Tap(key))
            else Tick(c, [])
          else Tick(c, []);
        Tick(fired.state.(prevX := Some(x), gestureActive := true), fired.cmds)
  }

  /** The loop's invariant: the gesture is confirmed only outside the
      gesture cooldown. */
  predicate Valid(s: LoopState) {
    s.confirmedGesture ==> s.gestureCooldownCounter == 0
  }

  /** Under the invariant the "brief delay" before dropping a lost gesture
      never happens: a frame without the pose always drops the confirmation
      at once. */
  lemma LostPoseDropsAtOnce(s: LoopState, hands: seq<Hand>, imageWidth: real,
                            confirmationFrames: nat, cooldownFrames: nat, keyCooldownFrames: nat)
    requires confirmationFrames > 0
    requires Valid(s)
    requires forall j :: 0 <= j < |hands| ==> !IsCorrectGesture(hands[j])
    ensures var r := LoopTick(s, hands, imageWidth, confirmationFrames, cooldownFrames,
                              keyCooldownFrames);
      !r.state.confirmedGesture && (s.confirmedGesture ==> r.state.prevX == None)
  {
    assert FirstMatch(hands).None?;
    assert Detected(CoolDown(s), hands).None?;
  }

  /** A run of frames, each with the hands seen. */
  function Run(s: LoopState, frames: seq<seq<Hand>>, imageWidth: real, confirmationFrames: nat,
               cooldownFrames: nat, keyCooldownFrames: nat): Tick
    requires confirmationFrames > 0
    decreases |frames|
  {
    if frames == [] then Tick(s, [])
    else
      var first := LoopTick(s, frames[0], imageWidth, confirmationFrames, cooldownFrames,
                            keyCooldownFrames);
      var rest := Run(first.state, frames[1..], imageWidth, confirmationFrames, cooldownFrames,
                      keyCooldownFrames);
      Tick(rest.state, first.cmds + rest.cmds)
  }

  /** The invariant holds from the initial globals over every run. */
  lemma {:induction false} RunKeepsValid(s: LoopState, frames: seq<seq<Hand>>, imageWidth: real,
                                         confirmationFrames: nat, cooldownFrames: nat,
                                         keyCooldownFrames: nat)
    requires confirmationFrames > 0
    requires Valid(s)
    ensures Valid(Run(s, frames, imageWidth, confirmationFrames, cooldownFrames,
                      keyCooldownFrames).state)
    decreases |frames|
  {
    if frames != [] {
      var first := LoopTick(s, frames[0], imageWidth, confirmationFrames, cooldownFrames,
                            keyCooldownFrames);
      RunKeepsValid(first.state, frames[1..], imageWidth, confirmationFrames, cooldownFrames,
                    keyCooldownFrames);
    }
  }
}
