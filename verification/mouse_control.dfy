/** The cursor gesture of gestures/mouse_control.py: the index fingertip,
    clamped to the central 60% of the image, is mapped onto the screen and
    the cursor is moved part of the way toward it each frame. */
module MouseControlGesture {
  import opened Wrappers
  import opened Numeric
  import opened Landmarks
  import opened Classifiers
  import opened GestureStates

  /** `DEFAULT_SMOOTHING_FACTOR` and `DEFAULT_SENSITIVITY_MULTIPLIER`. */
  const DefaultSmoothing: real := 0.7
  const DefaultSensitivity: real := 1.1

  /** The fingertip coordinate clamped into the band from 20% to 80% of the
      image dimension `dim`. */
  function Constrain(v: real, dim: real): (r: real)
    requires dim > 0.0
    ensures 0.2 * dim <= r <= 0.8 * dim
    ensures 0.2 * dim <= v <= 0.8 * dim ==> r == v
  {
    Clamp(0.2 * dim, 0.8 * dim, v)
  }

  /** Position within that band, from 0 at its low edge to 1 at its high
      edge. */
  function Normalize(v: real, dim: real): (r: real)
    requires dim > 0.0
    ensures 0.0 <= r <= 1.0
    ensures v <= 0.2 * dim ==> r == 0.0
    ensures v >= 0.8 * dim ==> r == 1.0
  {
    var c := Constrain(v, dim);
    var n := (c - 0.2 * dim) / (0.6 * dim);
    assert 0.0 <= n <= 1.0 by {
      assert 0.6 * dim > 0.0;
      assert c - 0.2 * dim <= 0.6 * dim;
    }
    n
  }

  /** The screen coordinate aimed at: `int(normalized * screen * sensitivity)`,
      which lies between 0 and `screen * sensitivity`. */
  function Target(v: real, dim: real, screen: int, sensitivity: real): (r: int)
    requires dim > 0.0
    ensures screen >= 0 && sensitivity >= 0.0 ==>
              0 <= r && r as real <= screen as real * sensitivity
  {
    var n := Normalize(v, dim);
    var span := screen as real * sensitivity;
    if span >= 0.0 then
      ScaleWithin(span, n);
      Trunc(n * span)
    else
      Trunc(n * span)
  }

  /** Scaling a non-negative amount by a factor in [0, 1] stays within it. */
  lemma ScaleWithin(d: real, f: real)
    requires d >= 0.0 && 0.0 <= f <= 1.0
    ensures 0.0 <= d * f <= d
  {
    assert d - d * f == d * (1.0 - f);
  }

  /** The smoothed cursor coordinate,
      `int(current + (target - current) * (1 - smoothing))`. For a smoothing
      factor in [0, 1] it lies between the current position and the target;
      once the cursor is on the target it stays there. */
  function Smooth(current: int, target: int, smoothing: real): (r: int)
    ensures 0.0 <= smoothing <= 1.0 ==> Between(current, r, target)
    ensures current == target ==> r == target
  {
    var f := 1.0 - smoothing;
    var d := (target - current) as real;
    var p := d * f;
    var x := current as real + p;
    if 0.0 <= smoothing <= 1.0 then
      SmoothBetween(current, target, f, p, x);
      Trunc(x)
    else
      assert current == target ==> d == 0.0 && p == 0.0;
      Trunc(x)
  }

  lemma SmoothBetween(current: int, target: int, f: real, p: real, x: real)
    requires 0.0 <= f <= 1.0
    requires p == (target - current) as real * f
    requires x == current as real + p
    ensures Between(current, Trunc(x), target)
  {
    var d := (target - current) as real;
    if current <= target {
      ScaleWithin(d, f);
      TruncBetween(current, target, x);
    } else {
      ScaleWithin(-d, f);
      assert p == -((-d) * f);
      TruncBetween(target, current, x);
    }
  }

  /** `m` lies between `a` and `b`, in either order. */
  predicate Between(a: int, m: int, b: int)
  {
    (a <= m <= b) || (b <= m <= a)
  }

  /** Truncation can stall the cursor short of its target: three pixels away
      with the default smoothing, the step computes 0.9 pixels, truncated to
      none, so under constant input the cursor never gets closer. */
  lemma SmoothingStallsShortOfTarget()
    ensures Smooth(0, 3, DefaultSmoothing) == 0
  {
    assert 0.0 + 3.0 * (1.0 - 0.7) == 0.9;
  }

  /** In general: a cursor left of or above its target stays put once the
      smoothed step is under a pixel, while one right of or below it still
      moves a pixel, because `int()` truncates toward zero. */
  lemma SmoothingStalls(current: int, target: int, smoothing: real)
    requires 0.0 <= smoothing <= 1.0
    requires 0 <= current
    ensures current <= target && (target - current) as real * (1.0 - smoothing) < 1.0 ==>
              Smooth(current, target, smoothing) == current
    ensures 1 <= current && -1.0 < (target - current) as real * (1.0 - smoothing) < 0.0 ==>
              Smooth(current, target, smoothing) == current - 1
  {
    var f := 1.0 - smoothing;
    var d := (target - current) as real;
    var p := d * f;
    assert Smooth(current, target, smoothing) == Trunc(current as real + p);
    if current <= target && p < 1.0 {
      NonNegativeProduct(d, f);
      TruncStays(current, p);
    }
    if 1 <= current && -1.0 < p < 0.0 {
      TruncStepsDown(current, p);
    }
  }

  lemma NonNegativeProduct(a: real, b: real)
    requires 0.0 <= a && 0.0 <= b
    ensures 0.0 <= a * b
  {
  }

  /** Less than a pixel added to a non-negative position truncates back to it. */
  lemma TruncStays(n: int, p: real)
    requires 0 <= n && 0.0 <= p < 1.0
    ensures Trunc(n as real + p) == n
  {
  }

  /** Less than a pixel taken from a positive position truncates one below it. */
  lemma TruncStepsDown(n: int, p: real)
    requires 1 <= n && -1.0 < p < 0.0
    ensures Trunc(n as real + p) == n - 1
  {
  }

  /** One call of `process_mouse_control_gesture`. `valid` is the verdict of
      `is_index_finger_only`, (`tipX`, `tipY`) the fingertip in image pixels,
      (`cursorX`, `cursorY`) the current cursor position, and `monitor` the
      first monitor's size as the screen query returns it (or `Raised`, in
      which case the source falls back to 1920 x 1080). No cooldown counter is
      read or written. */
  function MouseStep(s: GestureState, valid: bool, tipX: real, tipY: real,
                     imageWidth: real, imageHeight: real, cursorX: int, cursorY: int,
                     monitor: Outcome<(int, int)>, confirmationFrames: nat,
                     smoothing: real, sensitivity: real): (r: Step)
    requires confirmationFrames > 0
    requires imageWidth > 0.0 && imageHeight > 0.0
    ensures r.state.cooldownCounter == s.cooldownCounter
    ensures r.state.gestureCooldownCounter == s.gestureCooldownCounter
    // the cursor moves only while confirmed, valid and with a previous position; never on confirmation
    ensures |r.cmds| <= 1
    ensures r.cmds != [] <==> s.confirmedGesture && valid && s.prevX.Some? && s.prevY.Some?
    ensures r.cmds != [] ==>
      var tx := Target(tipX, imageWidth, s.screenWidth, sensitivity);
      var ty := Target(tipY, imageHeight, s.screenHeight, sensitivity);
      && r.cmds[0].MoveTo?
      && (0.0 <= smoothing <= 1.0 ==>
            Between(cursorX, r.cmds[0].x, tx) && Between(cursorY, r.cmds[0].y, ty))
      && (cursorX == tx ==> r.cmds[0].x == tx)
      && (cursorY == ty ==> r.cmds[0].y == ty)
    ensures s.confirmedGesture && !valid ==>
      r == Step(s.(confirmedGesture := false, gestureConfirmationCounter := 0,
                   prevX := None, prevY := None), [])
    ensures s.confirmedGesture && valid ==>
      r.state == s.(prevX := Some(tipX), prevY := Some(tipY), gestureActive := true)
    ensures !s.confirmedGesture && valid ==>
      var c := s.gestureConfirmationCounter + 1;
      var done := c >= confirmationFrames;
      && r.cmds == []
      && r.state.gestureConfirmationCounter == c
      && r.state.confirmedGesture == done
      && (done ==> r.state.prevX == Some(tipX) && r.state.prevY == Some(tipY))
      && (done && monitor.Returned? ==>
            r.state.screenWidth == monitor.value.0 && r.state.screenHeight == monitor.value.1)
      && (done && monitor.Raised? ==> r.state.screenWidth == 1920 && r.state.screenHeight == 1080)
    ensures !s.confirmedGesture && valid ==>
      var c := s.gestureConfirmationCounter + 1;
      if c >= confirmationFrames then
        r.state == s.(gestureConfirmationCounter := c, confirmedGesture := true,
                      prevX := Some(tipX), prevY := Some(tipY),
                      screenWidth := r.state.screenWidth, screenHeight := r.state.screenHeight)
      else r.state == s.(gestureConfirmationCounter := c)
    ensures !s.confirmedGesture && !valid ==> r == Step(s.(gestureConfirmationCounter := 0), [])
  {
    if s.confirmedGesture && !valid then
      Step(s.(confirmedGesture := false, gestureConfirmationCounter := 0,
              prevX := None, prevY := None), [])
    else if s.confirmedGesture then
      var cmds :=
        if s.prevX.Some? && s.prevY.Some? then
          var tx := Target(tipX, imageWidth, s.screenWidth, sensitivity);
          var ty := Target(tipY, imageHeight, s.screenHeight, sensitivity);
          [MoveTo(Smooth(cursorX, tx, smoothing), Smooth(cursorY, ty, smoothing))]
        else [];
      Step(s.(prevX := Some(tipX), prevY := Some(tipY), gestureActive := true), cmds)
    else if valid then
      var c := s.gestureConfirmationCounter + 1;
      if c >= confirmationFrames then
        var (w, h) := match monitor
          case Returned(size) => size
          case Raised => (1920, 1080);
        Step(s.(gestureConfirmationCounter := c, confirmedGesture := true,
                prevX := Some(tipX), prevY := Some(tipY),
                screenWidth := w, screenHeight := h), [])
      else
        Step(s.(gestureConfirmationCounter := c), [])
    else
      Step(s.(gestureConfirmationCounter := 0), [])
  }

  /** Neither cooldown counter has any influence on the cursor gesture. */
  lemma CooldownsIgnored(s: GestureState, a: nat, b: nat, valid: bool, tipX: real, tipY: real,
                         imageWidth: real, imageHeight: real, cursorX: int, cursorY: int,
                         monitor: Outcome<(int, int)>, confirmationFrames: nat,
                         smoothing: real, sensitivity: real)
    requires confirmationFrames > 0
    requires imageWidth > 0.0 && imageHeight > 0.0
    ensures var t := s.(cooldownCounter := a, gestureCooldownCounter := b);
      var r := MouseStep(s, valid, tipX, tipY, imageWidth, imageHeight, cursorX, cursorY,
                         monitor, confirmationFrames, smoothing, sensitivity);
      var q := MouseStep(t, valid, tipX, tipY, imageWidth, imageHeight, cursorX, cursorY,
                         monitor, confirmationFrames, smoothing, sensitivity);
      q.cmds == r.cmds && q.state == r.state.(cooldownCounter := a, gestureCooldownCounter := b)
  {
  }

  /** `process_mouse_control_gesture` on a hand. */
  function ProcessMouseControl(s: GestureState, h: Hand, imageWidth: real, imageHeight: real,
                               cursorX: int, cursorY: int, monitor: Outcome<(int, int)>,
                               confirmationFrames: nat): (r: Step)
    requires confirmationFrames > 0
    requires imageWidth > 0.0 && imageHeight > 0.0
    // the cursor follows only the pointing pose; any other pose leaves nothing confirmed
    ensures r.cmds != [] ==> IsIndexFingerOnly(h)
    ensures !IsIndexFingerOnly(h) ==> r.cmds == [] && !r.state.confirmedGesture
  {
    MouseStep(s, IsIndexFingerOnly(h), h.indexTip.x * imageWidth, h.indexTip.y * imageHeight,
              imageWidth, imageHeight, cursorX, cursorY, monitor, confirmationFrames,
              DefaultSmoothing, DefaultSensitivity)
  }
}
