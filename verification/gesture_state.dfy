/** The per-gesture state record of gestures/base.py, the commands a gesture
    step may emit, and the cooldown and reset helpers applied to every
    gesture's state. */
module GestureStates {
  import opened Wrappers

  datatype Key = Left | Right | Alt | Tab | Space | F4

  datatype Button = LeftButton

  /** What a step asks of the keyboard, the mouse or the voice recorder. */
  datatype Command =
    | Press(key: Key)
    | Release(key: Key)
    | Click(button: Button)
    | Scroll(dx: int, dy: int)
    | MoveTo(x: int, y: int)
    | StartRecording

  /** A key pressed and released at once. */
  function Tap(k: Key): seq<Command> {
    [Press(k), Release(k)]
  }

  /** The gesture kinds keyed in the package's `gesture_states` table. */
  datatype GestureKind = Navigation | AltF4 | Mouse | MouseClick | ScrollKind | AltTab

  /** The mutable fields of `GestureState`. Fields that only hold
      configuration (thresholds, confirmation and cooldown times, smoothing
      factor, sensitivity) become parameters of the steps; `hand_open`,
      `hand_closed`, `open_hand_confirmed` and `last_hand_state_change_time`
      are never read by the gesture modules and are left out. Counters are
      frame counts. */
  datatype GestureState = GestureState(
    prevX: Option<real>,
    prevY: Option<real>,
    gestureActive: bool,
    cooldownCounter: nat,
    gestureConfirmationCounter: nat,
    gestureCooldownCounter: nat,
    confirmedGesture: bool,
    screenWidth: int,
    screenHeight: int,
    scrollOrientation: Option<string>,
    isAltPressed: bool,
    altTabActivated: bool)

  const DefaultScreenWidth: int := 1920
  const DefaultScreenHeight: int := 1080

  /** A freshly constructed state. */
  const Initial: GestureState :=
    GestureState(None, None, false, 0, 0, 0, false,
                 DefaultScreenWidth, DefaultScreenHeight, None, false, false)

  /** The result of one call of a gesture step: the next state and the
      commands emitted, in order. */
  datatype Step = Step(state: GestureState, cmds: seq<Command>)

  /** `GestureState.reset`: forgets confirmation progress and the reference
      coordinates, but keeps both cooldowns and the Alt+Tab flags, so a held
      Alt stays held. */
  function Reset(s: GestureState): (r: GestureState)
    ensures !r.gestureActive && !r.confirmedGesture
    ensures r.gestureConfirmationCounter == 0
    ensures r.prevX == None && r.prevY == None && r.scrollOrientation == None
    ensures r.cooldownCounter == s.cooldownCounter
    ensures r.gestureCooldownCounter == s.gestureCooldownCounter
    ensures r.isAltPressed == s.isAltPressed && r.altTabActivated == s.altTabActivated
    ensures r.screenWidth == s.screenWidth && r.screenHeight == s.screenHeight
  {
    s.(gestureActive := false, confirmedGesture := false,
       gestureConfirmationCounter := 0, prevX := None, prevY := None,
       scrollOrientation := None)
  }

  /** Resetting twice is resetting once. */
  lemma ResetIdempotent(s: GestureState)
    ensures Reset(Reset(s)) == Reset(s)
  {
  }

  /** One frame less of each cooldown. */
  function Decrement(n: nat): (r: nat)
    ensures n > 0 ==> r == n - 1
    ensures n == 0 ==> r == 0
  {
    if n > 0 then n - 1 else 0
  }

  /** `GestureState.update_cooldown`: each of the two counters drops by one
      when positive and stays at zero otherwise; nothing else changes. */
  function UpdateCooldown(s: GestureState): (r: GestureState)
    ensures s.cooldownCounter > 0 ==> r.cooldownCounter == s.cooldownCounter - 1
    ensures s.cooldownCounter == 0 ==> r.cooldownCounter == 0
    ensures s.gestureCooldownCounter > 0 ==> r.gestureCooldownCounter == s.gestureCooldownCounter - 1
    ensures s.gestureCooldownCounter == 0 ==> r.gestureCooldownCounter == 0
    ensures r.(cooldownCounter := s.cooldownCounter,
               gestureCooldownCounter := s.gestureCooldownCounter) == s
  {
    s.(cooldownCounter := Decrement(s.cooldownCounter),
       gestureCooldownCounter := Decrement(s.gestureCooldownCounter))
  }

  /** `n` consecutive cooldown updates. */
  function UpdateCooldownTimes(s: GestureState, n: nat): GestureState
    decreases n
  {
    if n == 0 then s else UpdateCooldownTimes(UpdateCooldown(s), n - 1)
  }

  /** A cooldown of `c` frames is over after exactly `c` updates: after `n`
      updates each counter stands at `c - n`, or at zero once `n >= c`. */
  lemma {:induction false} CooldownDrains(s: GestureState, n: nat)
    ensures UpdateCooldownTimes(s, n).cooldownCounter
            == if n <= s.cooldownCounter then s.cooldownCounter - n else 0
    ensures UpdateCooldownTimes(s, n).gestureCooldownCounter
            == if n <= s.gestureCooldownCounter then s.gestureCooldownCounter - n else 0
    ensures UpdateCooldownTimes(s, n).(cooldownCounter := s.cooldownCounter,
              gestureCooldownCounter := s.gestureCooldownCounter) == s
    decreases n
  {
    if n > 0 {
      CooldownDrains(UpdateCooldown(s), n - 1);
    }
  }

  /** `update_all_cooldowns`: the per-state update applied to every entry;
      the frame rate argument plays no part. */
  function UpdateAllCooldowns(states: map<GestureKind, GestureState>, fps: real)
    : (r: map<GestureKind, GestureState>)
    ensures r.Keys == states.Keys
    ensures forall k :: k in r ==> r[k] == UpdateCooldown(states[k])
  {
    map k | k in states :: UpdateCooldown(states[k])
  }

  /** `reset_all_gesture_states`: the per-state reset applied to every entry. */
  function ResetAllGestureStates(states: map<GestureKind, GestureState>)
    : (r: map<GestureKind, GestureState>)
    ensures r.Keys == states.Keys
    ensures forall k :: k in r ==> r[k] == Reset(states[k])
  {
    map k | k in states :: Reset(states[k])
  }

  /** After a reset of every state, no gesture is confirmed or carries a
      reference point, while every cooldown and every held Alt survives. */
  lemma ResetAllClearsProgress(states: map<GestureKind, GestureState>, k: GestureKind)
    requires k in states
    ensures var r := ResetAllGestureStates(states);
      && !r[k].confirmedGesture && r[k].gestureConfirmationCounter == 0
      && r[k].prevX == None && r[k].prevY == None
      && r[k].cooldownCounter == states[k].cooldownCounter
      && r[k].isAltPressed == states[k].isAltPressed
  {
  }
}
