/** The voice trigger of gestures/voice_command.py: holding a closed fist
    starts a voice recording. The fist classifier is disabled, so the trigger
    is unreachable from a real hand; the step is modelled on the verdict so
    that its own logic can be stated. */
module VoiceGesture {
  import opened Wrappers
  import opened Landmarks
  import opened Classifiers
  import opened GestureStates

  /** `trigger_voice_recording`: `ready` is the answer of
      `is_voice_system_ready`, or `Raised` when importing or asking the voice
      package fails, which the routine catches. Recording starts only on a
      ready system. */
  function TriggerVoiceRecording(ready: Outcome<bool>): (r: seq<Command>)
    ensures r == [] || r == [StartRecording]
    ensures r == [StartRecording] <==> ready == Returned(true)
  {
    match ready
    case Returned(true) => [StartRecording]
    case _ => []
  }

  /** One call of `process_voice_command_gesture`. `closed` is the verdict of
      `is_closed_hand`; `cooldownFrames` is `int(gesture_cooldown_time * fps)`.
      Unlike the other gestures, an open frame before confirmation keeps the
      progress made so far, and a confirmed fist that stays closed does
      nothing more. */
  function VoiceStep(s: GestureState, closed: bool, confirmationFrames: nat,
                     cooldownFrames: nat, ready: Outcome<bool>): (r: Step)
    requires confirmationFrames > 0
    ensures s.gestureCooldownCounter > 0 ==> r == Step(s, [])
    ensures r.state.cooldownCounter == s.cooldownCounter
    ensures r.state.prevX == s.prevX && r.state.prevY == s.prevY
    // recording is asked for only when the fist completes its confirmation on a ready system
    ensures r.cmds == [] || r.cmds == [StartRecording]
    ensures r.cmds == [StartRecording] <==>
      && s.gestureCooldownCounter == 0 && closed && !s.confirmedGesture
      && s.gestureConfirmationCounter + 1 >= confirmationFrames
      && ready == Returned(true)
    // completing the confirmation starts the cooldown and restarts the counter, ready or not
    ensures s.gestureCooldownCounter == 0 && closed && !s.confirmedGesture
            && s.gestureConfirmationCounter + 1 >= confirmationFrames ==>
      r.state == s.(confirmedGesture := true, gestureConfirmationCounter := 0,
                    gestureCooldownCounter := cooldownFrames)
    ensures s.gestureCooldownCounter == 0 && closed && !s.confirmedGesture
            && s.gestureConfirmationCounter + 1 < confirmationFrames ==>
      r.state == s.(gestureConfirmationCounter := s.gestureConfirmationCounter + 1)
    // an open hand keeps partial progress, but undoes a confirmation
    ensures s.gestureCooldownCounter == 0 && !closed && !s.confirmedGesture ==> r == Step(s, [])
    ensures s.gestureCooldownCounter == 0 && !closed && s.confirmedGesture ==>
      r == Step(s.(confirmedGesture := false, gestureConfirmationCounter := 0), [])
    // a confirmed fist that stays closed does nothing more
    ensures s.confirmedGesture && closed ==> r == Step(s, [])
  {
    if s.gestureCooldownCounter > 0 then
      Step(s, [])
    else if !closed then
      if s.confirmedGesture then
        Step(s.(confirmedGesture := false, gestureConfirmationCounter := 0), [])
      else
        Step(s, [])
    else if !s.confirmedGesture then
      var c := s.gestureConfirmationCounter + 1;
      if c >= confirmationFrames then
        Step(s.(confirmedGesture := true, gestureConfirmationCounter := 0,
                gestureCooldownCounter := cooldownFrames),
             TriggerVoiceRecording(ready))
      else
        Step(s.(gestureConfirmationCounter := c), [])
    else
      Step(s, [])
  }

  /** `process_voice_command_gesture` on a hand. */
  function ProcessVoice(s: GestureState, h: Hand, confirmationFrames: nat,
                        cooldownFrames: nat, ready: Outcome<bool>): (r: Step)
    requires confirmationFrames > 0
    // the fist test always fails: no recording, and no confirmation is ever gained
    ensures r.cmds == []
    ensures r.state.confirmedGesture ==> s.confirmedGesture
    ensures r.state.gestureConfirmationCounter <= s.gestureConfirmationCounter
  {
    VoiceStep(s, IsClosedHand(h), confirmationFrames, cooldownFrames, ready)
  }

  /** A frame with the fist verdict, or a cooldown update. */
  datatype Event = CooldownTick | Frame(closed: bool)

  function Run(s: GestureState, evs: seq<Event>, confirmationFrames: nat,
               cooldownFrames: nat, ready: Outcome<bool>): Step
    requires confirmationFrames > 0
    decreases |evs|
  {
    if evs == [] then Step(s, [])
    else
      var first := match evs[0]
        case CooldownTick => Step(UpdateCooldown(s), [])
        case Frame(c) => VoiceStep(s, c, confirmationFrames, cooldownFrames, ready);
      var rest := Run(first.state, evs[1..], confirmationFrames, cooldownFrames, ready);
      Step(rest.state, first.cmds + rest.cmds)
  }

  /** Every frame is a closed fist. */
  predicate AllClosed(evs: seq<Event>) {
    forall i :: 0 <= i < |evs| && evs[i].Frame? ==> evs[i].closed
  }

  /** One trigger per fist: once confirmed, a fist held closed never asks for
      another recording, however long the cooldown runs; the hand has to
      open first. */
  lemma {:induction false} OneTriggerPerFist(s: GestureState, evs: seq<Event>,
                                             confirmationFrames: nat, cooldownFrames: nat,
                                             ready: Outcome<bool>)
    requires confirmationFrames > 0
    requires s.confirmedGesture && AllClosed(evs)
    ensures Run(s, evs, confirmationFrames, cooldownFrames, ready).cmds == []
    ensures Run(s, evs, confirmationFrames, cooldownFrames, ready).state.confirmedGesture
    decreases |evs|
  {
    if evs != [] {
      var first := match evs[0]
        case CooldownTick => Step(UpdateCooldown(s), [])
        case Frame(c) => VoiceStep(s, c, confirmationFrames, cooldownFrames, ready);
      assert AllClosed(evs[1..]) by {
        forall i | 0 <= i < |evs[1..]| && evs[1..][i].Frame?
          ensures evs[1..][i].closed
        {
          assert evs[1..][i] == evs[i + 1];
        }
      }
      OneTriggerPerFist(first.state, evs[1..], confirmationFrames, cooldownFrames, ready);
    }
  }

  /** The state and commands after a sequence of real hands, each followed
      by nothing else. */
  function RunHands(s: GestureState, hands: seq<Hand>, confirmationFrames: nat,
                    cooldownFrames: nat, ready: Outcome<bool>): Step
    requires confirmationFrames > 0
    decreases |hands|
  {
    if hands == [] then Step(s, [])
    else
      var first := ProcessVoice(s, hands[0], confirmationFrames, cooldownFrames, ready);
      var rest := RunHands(first.state, hands[1..], confirmationFrames, cooldownFrames, ready);
      Step(rest.state, first.cmds + rest.cmds)
  }

  /** With the fist classifier disabled, no sequence of hands ever starts a
      recording, and the gesture never confirms from an unconfirmed start. */
  lemma {:induction false} VoiceNeverTriggers(s: GestureState, hands: seq<Hand>,
                                              confirmationFrames: nat, cooldownFrames: nat,
                                              ready: Outcome<bool>)
    requires confirmationFrames > 0
    ensures RunHands(s, hands, confirmationFrames, cooldownFrames, ready).cmds == []
    ensures !s.confirmedGesture ==>
      RunHands(s, hands, confirmationFrames, cooldownFrames, ready).state == s
    decreases |hands|
  {
    if hands != [] {
      var first := ProcessVoice(s, hands[0], confirmationFrames, cooldownFrames, ready);
      VoiceNeverTriggers(first.state, hands[1..], confirmationFrames, cooldownFrames, ready);
    }
  }
}
