# Gesture PC Controller — a verified model of the gesture and voice engine

Gesture PC Controller watches a camera and turns hand poses into input for
the computer: a two-finger swipe presses the arrow keys, the index finger
moves the cursor, a pinch clicks it, a V shape scrolls, and an open hand
followed by a pinch switches windows with Alt+Tab. A fist was meant to start
a voice recording, whose Japanese transcription is matched against a small
phrase registry and run as a browser command.

This project models that engine in Dafny and proves properties about the
model. Each gesture is a timing-aware state machine. It confirms a pose
over several frames, acts, and then cools down. The model has these parts:

- `Wrappers`: the shared helper types. `Option` stands for Python's `None`
  or a value. `Outcome` is `Returned(v)` or `Raised`, the result of a call
  into code outside the model.
- `Numeric`: Python's `int()` truncation and the `max(lo, min(hi, v))`
  clamp.
- `Landmarks`: a hand as the 13 landmarks the code reads. Distances are
  squared, and `SqrtComparison` justifies comparing squares instead of
  square roots.
- `Classifiers`: the pose predicates of `gestures/base.py`.
- `GestureStates`: the shared `GestureState` and the keyboard, mouse and
  recorder commands a step can emit. It also holds reset, cooldown and the
  table-wide operations of `gestures/base.py`.
- One module per gesture step:
  - `NavigationGesture` — arrow keys;
  - `ScrollGesture`;
  - `AltTabGesture`;
  - `MouseControlGesture` — cursor;
  - `MouseClickGesture`;
  - `VoiceGesture` — recording trigger.
- `LegacyGestures`: the older `gestures.py`, with swipe navigation and
  open-hand-then-fist Alt+F4.
- `MainLoop`: the swipe loop that `main.py` runs on its own globals.
- `Registry`, `Matcher` and `VoicePipeline`: the voice commands, the fuzzy
  matcher and the transcribe–match–execute pipeline.

Every step is a pure function. It maps a state, the classifier's verdict for
the frame, the coordinates it needs and the frame counts it uses to a
`Step(state, cmds)`. Here `cmds` is the list of key presses, clicks, cursor
moves, scroll wheel steps or recording requests the Python code would issue.
A `Process…` wrapper joins each step to its classifier on a `Hand`. The
multi-frame properties are stated over event sequences: frames, cooldown
updates and, where the code has one, a reset. Each step has a `Run` function
and lemmas proved by induction.

Where the code departs from the behaviour the project describes for itself,
the model follows the code:

- Scrolling pauses for a fixed `max(1, int(0.02 * fps))` frames after each
  wheel step, not for a time inversely proportional to the intensity.
- The voice gesture does not poll a busy flag. A confirmed fist does nothing
  until the hand opens, and the fist classifier is switched off, so the
  trigger never fires (`VoiceGesture.VoiceNeverTriggers`).
- No dispatcher with priorities or exclusivity appears in the code.
  `gestures/__init__.py` only lists the states, checks and step functions,
  and `main.py` drives its own copy of the swipe gesture.
- The thumb test of the open hand mixes coordinates of two landmarks (see
  Findings). `AltTabGesture.ProcessAltTab` uses the test as written, so the
  typo reaches the gesture (`AltTabGesture.ThumbUpHandNeverConfirmsAltTab`).
  `AltTabGesture.ProcessAltTabCorrected` is the same gesture with the
  corrected test.

## Model

| member | source | states |
|---|---|---|
| Numeric.Trunc | gestures/scroll.py:129 | Python `int()` on a float truncates toward zero. The result is the integer on the zero side within one unit, so it is never farther from zero than the value. |
| Numeric.Clamp | gestures/mouse_control.py:91-92 | `max(lo, min(hi, v))` lies in `[lo, hi]` when the bounds are ordered, and it is `v` itself when `v` already lies in `[lo, hi]`. |
| Landmarks.SqrtComparison | gestures/base.py:194-195 | For non-negative values, comparing a distance with a multiple of another is the same as comparing their squares with the squared multiple. This is why the classifiers can use squared distances. |
| Classifiers.IsNavigationGesture | gestures/base.py:72-97 | A two-finger swipe pose is never an open hand, under either thumb test, and never the scroll V shape. |
| Classifiers.IsScrollGesture | gestures/base.py:98-168 | The scroll V shape is never the click pinch and never an open hand. |
| Classifiers.IsIndexFingerOnly | gestures/base.py:244-329 | The pointing pose excludes the open hand and the click pinch. |
| Classifiers.IsOkGesture | gestures/base.py:330-387 | Every click pinch also passes the looser Alt+Tab release pinch of lines 388-449. |
| Classifiers.ThumbExtendedRotationInvariant | gestures/base.py:194-195 | The corrected thumb test, which compares true distances from the wrist, gives the same answer after the hand turns a quarter turn in the image plane. |
| Classifiers.ThumbTestAsWrittenRejectsOpenHand | gestures/base.py:195 | A concrete hand is open with the thumb pointing straight up, yet the thumb test as written rejects it. The same test accepts the hand once it is turned a quarter turn. |
| GestureStates.Reset | gestures/base.py:57-63 | A reset clears confirmation, progress, activity, the reference point and the scroll orientation. Cooldowns, the Alt flags and the screen size are kept. |
| GestureStates.ResetIdempotent | gestures/base.py:57-63 | Resetting twice is the same as resetting once. |
| GestureStates.UpdateCooldown | gestures/base.py:65-70 | Each of the two counters drops by one down to zero, and nothing else changes. |
| GestureStates.CooldownDrains | gestures/base.py:65-70 | After `n` updates each counter is `max(0, c - n)`, and every other field is unchanged. |
| GestureStates.UpdateAllCooldowns | gestures/base.py:450-453 | Every entry of the table receives exactly one per-state update. The frame rate plays no part. |
| GestureStates.ResetAllGestureStates | gestures/base.py:455-457 | Every entry of the table is reset, and the set of keys is kept. |
| GestureStates.ResetAllClearsProgress | gestures/base.py:455-457 | After the table-wide reset, no gesture is confirmed, has progress or holds a reference point. |
| NavigationGesture.NavigationStep | gestures/navigation.py:16-187 | The step is silent during the gesture cooldown. RIGHT fires exactly when the confirmed, valid pose with a previous position and no key cooldown has moved left by more than the threshold, and LEFT fires for the mirror case. A key restarts confirmation and arms both cooldowns. The contract also covers losing the pose, tracking, and confirming. |
| NavigationGesture.ProcessNavigation | gestures/navigation.py:16-187 | On a real hand, an arrow key needs the swipe pose. Outside the gesture cooldown, any other pose yields no key and leaves nothing confirmed. |
| NavigationGesture.NoKeyDuringCooldown | gestures/navigation.py:26-40 | Fewer cooldown updates than the gesture cooldown yield no key and no confirmation, whatever the frames show. |
| NavigationGesture.KeyNeedsReconfirmation | gestures/navigation.py:112-172 | From an unconfirmed state, no key comes before enough valid frames complete a new confirmation. |
| ScrollGesture.ScrollAmount | gestures/scroll.py:129 | The number of wheel steps is zero exactly within 20 px of the anchor, and its sign follows the displacement. It counts the whole 20 px intervals covered, truncated toward zero. |
| ScrollGesture.ScrollAmountSymmetric | gestures/scroll.py:129 | Mirrored displacements scroll by opposite amounts. |
| ScrollGesture.ScrollStep | gestures/scroll.py:18-219 | The step is silent during the gesture cooldown. It emits one wheel command exactly when the confirmed, valid pose has an anchor, the pause is over and the hand is at least 20 px above or below the anchor. The amount is the negated `ScrollAmount` of the displacement from the anchor. It leaves the gesture cooldown alone. The contract also covers cancelling, confirming and setting the anchor. |
| ScrollGesture.ProcessScroll | gestures/scroll.py:18-219 | On a real hand, a wheel step needs the V shape. Outside the gesture cooldown, any other pose yields nothing and leaves nothing confirmed. |
| ScrollGesture.ResetScrollOrientation | gestures/scroll.py:221-225 | The orientation is cleared only while the gesture is confirmed, and otherwise the state is unchanged. |
| ScrollGesture.AnchorIsFixed | gestures/scroll.py:113-193 | While every frame keeps the pose, the anchor never moves. Every wheel command measures its frame against the original anchor, not against the previous frame. |
| AltTabGesture.AltTabStep | gestures/alt_tab.py:21-226 | The two Alt flags stay in agreement. Alt is released with a Space tap exactly when it is held and the release pinch is seen. Alt+Tab is pressed exactly when an open, confirmed hand has moved up by more than the threshold while Alt is not held and the cooldown is over. The contract also covers confirming and cancelling. |
| AltTabGesture.ProcessAltTab | gestures/alt_tab.py:21-226 | On a real hand, with the open-hand test exactly as written, Alt+Tab needs an open hand and the release needs the pinch. Past the early exits, a hand failing the open-hand test yields nothing and leaves nothing confirmed. |
| AltTabGesture.ProcessAltTabCorrected | gestures/alt_tab.py:21-226 | The same gesture with the corrected thumb test: Alt+Tab needs a truly open hand, and past the early exits any other hand confirms nothing. |
| AltTabGesture.ThumbUpHandNeverConfirmsAltTab | gestures/base.py:195 | The thumb typo reaches the gesture: from a fresh state with one confirmation frame, an open hand with the thumb pointing up confirms nothing, while the corrected test confirms it. |
| AltTabGesture.AltAlternatesAppend | gestures/alt_tab.py:29-38 | Alt presses and releases alternate in a concatenation exactly when they alternate in each part, taken from the state the first part leaves. |
| AltTabGesture.AltNeverPressedTwice | gestures/alt_tab.py:21-226 | Over any run of frames, cooldown updates and resets, Alt is never pressed while held and never released while up. |
| MouseControlGesture.Constrain | gestures/mouse_control.py:85-92 | The fingertip is clamped into the band from 20% to 80% of the image, and a tip already inside the band is kept. |
| MouseControlGesture.Normalize | gestures/mouse_control.py:94-96 | The normalised position lies in [0, 1]. It is 0 at or before the band's low edge and 1 at or beyond its high edge. |
| MouseControlGesture.Target | gestures/mouse_control.py:98-100 | The target coordinate lies between 0 and screen size × sensitivity. |
| MouseControlGesture.Smooth | gestures/mouse_control.py:102-104 | With a smoothing factor in [0, 1], the new cursor coordinate lies between the current one and the target. A cursor already on target stays there. |
| MouseControlGesture.SmoothingStallsShortOfTarget | gestures/mouse_control.py:103 | With the default factor 0.7, a cursor three pixels from its target does not move, because truncation eats the step. |
| MouseControlGesture.SmoothingStalls | gestures/mouse_control.py:103-104 | For any smoothing factor in [0, 1], a cursor at or before its target stays put once the smoothed step is under a pixel. A cursor past its target still moves back one pixel, because `int()` truncates toward zero. |
| MouseControlGesture.MouseStep | gestures/mouse_control.py:15-175 | The cursor moves exactly when the gesture is confirmed, still valid and has a previous position, and never on the confirming frame. The move lies between the current cursor and the target. Confirming reads the monitor size, or falls back to 1920×1080 when the query raises. Each path states the whole resulting state. Neither cooldown is touched. |
| MouseControlGesture.ProcessMouseControl | gestures/mouse_control.py:15-175 | On a real hand, the cursor moves only for the pointing pose, and any other pose yields nothing and leaves nothing confirmed. |
| MouseControlGesture.CooldownsIgnored | gestures/mouse_control.py:15-175 | The cursor gesture behaves the same whatever the two cooldown counters hold. |
| MouseClickGesture.ClickStep | gestures/mouse_click.py:16-127 | It clicks exactly when the pinch is confirmed, still held and the click cooldown is over. A click re-arms that cooldown and keeps the confirmation. The confirming frame never clicks. Losing the pinch cancels. |
| MouseClickGesture.ProcessMouseClick | gestures/mouse_click.py:16-127 | On a real hand, a click needs the pinch, and any other pose yields nothing and leaves nothing confirmed. |
| MouseClickGesture.NoClickDuringCooldown | gestures/mouse_click.py:48-66 | While fewer cooldown updates have run than the click cooldown holds, there is no click, and the cooldown shrinks by exactly the updates. |
| MouseClickGesture.ClickSpacing | gestures/mouse_click.py:48-66 | After a click, holding the pinch gives no second click until the full click cooldown has been counted down. |
| VoiceGesture.TriggerVoiceRecording | gestures/voice_command.py:97-127 | A recording starts exactly when the readiness check returns true. A false answer or an exception starts nothing. |
| VoiceGesture.VoiceStep | gestures/voice_command.py:15-95 | Recording is requested only when a fist completes its confirmation on a ready system. Completion starts the gesture cooldown and restarts the counter either way. An open hand keeps partial progress but undoes a confirmation, and a confirmed fist held closed does nothing. |
| VoiceGesture.ProcessVoice | gestures/voice_command.py:15-95 | On a real hand the disabled fist test always fails: no recording is requested, no confirmation is gained and the progress never grows. |
| VoiceGesture.OneTriggerPerFist | gestures/voice_command.py:15-95 | Once confirmed, a fist held closed over any frames and cooldown updates never asks for a second recording. |
| VoiceGesture.VoiceNeverTriggers | gestures/base.py:231-242 | The fist classifier always answers no, so no sequence of real hands ever starts a recording. |
| LegacyGestures.IsClosedHandLegacy | gestures.py:110-131 | The legacy fist is never the legacy open hand and never the swipe pose. |
| LegacyGestures.LegacyNavigationStep | gestures.py:132-256 | There is no pose test and no gesture cooldown check. A key fires exactly when the confirmed gesture with a previous position and no key cooldown has moved by more than the threshold, RIGHT for a move to the left and LEFT for one to the right. The Alt+F4 fields are untouched. |
| LegacyGestures.AltF4Step | gestures.py:257-394 | Alt+F4 is sent exactly when an already confirmed open hand is followed by a fist held for the confirmation frames. Each fist frame short of the count adds one to the counter and changes nothing else. Confirming the open hand records the time. More than three seconds cancels the wait, but only on a frame without a fist, so a fist count that has started is never timed out. The gesture cooldown drops by one at the end of a silent call. |
| LegacyGestures.ProcessAltF4 | gestures.py:257-394 | On a real hand, Alt+F4 needs the legacy fist, and the open hand is confirmed only while the hand is open. |
| LegacyGestures.ResetGestureStates | gestures.py:395-412 | With no hand, the navigation state loses confirmation and progress, and its reference point too if it was confirmed. The Alt+F4 state loses its open-hand confirmation and progress. Nothing else changes. |
| LegacyGestures.Cool | gestures.py:413-428 | One state's two counters drop by one down to zero, and nothing else changes. |
| LegacyGestures.UpdateCooldowns | gestures.py:413-428 | Both states' counters drop by one down to zero, and nothing else changes. |
| LegacyGestures.LegacyKeyNeedsReconfirmation | gestures.py:132-256 | From an unconfirmed state, no key comes before enough frames complete a confirmation. |
| LegacyGestures.NoFramesNoKey | gestures.py:413-428 | Cooldown updates alone never press a key. |
| LegacyGestures.FistHeldSendsAltF4 | gestures.py:300-335 | Once the open hand is confirmed, a fist held for the frames the count still lacks sends Alt+F4, whatever the clock reads. |
| LegacyGestures.NoAltF4WithoutOpenHand | gestures.py:257-394 | Without an open hand first, no sequence of frames sends Alt+F4 or confirms the open hand. |
| MainLoop.IsCorrectGesture | main.py:138-162 | The loop's pose test is exactly the package's swipe pose test. |
| MainLoop.FirstMatch | main.py:271-287 | The loop drives the first hand showing the pose, none earlier shows it, and there is no hand only when no hand shows it. |
| MainLoop.ConfirmationFrames | main.py:204-206 | `int(0.1 * fps)` frames are positive exactly when the camera runs at 10 frames per second or more, and never exceed the frame rate. |
| MainLoop.CoolDown | main.py:250-255 | The frame's first action counts both counters down by one to zero, and nothing else changes. |
| MainLoop.Detected | main.py:271-287 | Hands are examined only once the gesture cooldown is over, and then the first matching one is taken. |
| MainLoop.LoopTick | main.py:250-421 | A key needs a detected pose, a confirmed gesture, a previous position, no key cooldown and more than 30 px of movement. After a key the gesture is unconfirmed, both cooldowns are armed and the position is still overwritten. A confirmed pose without a key moves the previous position on to this frame's, so movement is measured frame to frame. With no pose, progress is lost and the confirmation drops once the cooldown is over. On every tick without a key, both counters count down by exactly one. The tick keeps the invariant that a confirmation lives only outside the gesture cooldown. |
| MainLoop.LostPoseDropsAtOnce | main.py:400-407 | Under that invariant, the "brief delay" before dropping a lost confirmation is zero frames: it is dropped on the first frame without the pose. |
| MainLoop.RunKeepsValid | main.py:250-421 | The invariant holds over every run of frames. |
| Registry.Lookup | voice/commands/__init__.py:19-23 | A key is absent exactly when no entry carries it, and a found value is the value stored with that key. |
| Registry.Update | voice/commands/__init__.py:13-15 | `dict.update`: a key of the update takes the update's value, and every other key keeps its old lookup. |
| Registry.UpdateFresh | voice/commands/__init__.py:13-15 | Updating with fresh keys appends them after the old ones, in order. |
| Registry.AllCommands | voice/commands/__init__.py:12-15 | The merged registry answers a tab phrase with the tab table and any other phrase with the YouTube table. |
| Registry.TablesDisjoint | voice/commands/youtube.py:14-39 | No tab phrase is a YouTube phrase. |
| Registry.MergeKeys | voice/commands/__init__.py:12-15 | Merging two tables with disjoint keys lists the first table's keys, then the second's. |
| Registry.AllCommandsKeys | voice/commands/__init__.py:42-44 | The registry lists the four YouTube phrases, then the four tab phrases. |
| Registry.TableActions | voice/commands/tab_control.py:14-39 | Every YouTube phrase has action `open_youtube`, and every tab phrase has action `close_tab`. |
| Registry.GetAllCommands | voice/commands/__init__.py:42-44 | The listed phrases are exactly the registered keys, one per entry. |
| Registry.GetCommandInfo | voice/commands/__init__.py:46-48 | Information exists exactly for listed phrases, and it is the entry stored with the phrase. |
| Registry.ExecuteCommand | voice/commands/__init__.py:17-40 | An unknown phrase fails and runs nothing. A phrase runs the routine its action names, and that routine's answer is the result, with an exception counting as failure. Any other action counts as done. |
| Registry.RegisteredPhrasesRunARoutine | voice/commands/__init__.py:17-40 | Every phrase of the shipped registry runs one of the two browser routines. |
| Matcher.Strip | voice/matcher.py:33-44 | The cleaned text is the input with only whitespace cut from its two ends, and it has no whitespace at either end. It is empty exactly when the input is all whitespace. |
| Matcher.ArgMax | voice/matcher.py:64-70 | Python's `max` with a key picks an index whose value is at least every other value and greater than every earlier one, so ties go to the first. |
| Matcher.SetConfidenceThreshold | voice/matcher.py:133-135 | The stored minimum lies in [0, 1] and equals the request when the request already does. |
| Matcher.Threshold | voice/matcher.py:78-82 | A registered phrase's own threshold applies when it has one. Otherwise the matcher's minimum applies. |
| Matcher.Best | voice/matcher.py:48-72 | The chosen scorer and phrase give a score no other scorer and phrase exceed. |
| Matcher.BestBreaksTies | voice/matcher.py:64-70 | Ties go to the first phrase under the chosen scorer, and every scorer listed before the chosen one scores strictly lower on every phrase, as Python's `max` keeps the first of equal maxima. |
| Matcher.Decide | voice/matcher.py:72-88 | The winning phrase is a match exactly when its score, scaled to [0, 1], reaches the phrase's threshold. The match carries the phrase and that scaled score. |
| Matcher.FindBestMatch | voice/matcher.py:23-92 | Blank text, an empty registry or any scorer exception gives no match. A match always reaches its phrase's threshold. |
| Matcher.BestMatchIsBest | voice/matcher.py:48-88 | A match is a registered phrase whose scaled score is the best of all scorers and phrases. No match, with every score obtained, means a best-scoring phrase fell short of its threshold. |
| Matcher.KeepConfident | voice/matcher.py:120-127 | The kept pairs are no more than the extracted ones, and each reaches the minimum. |
| Matcher.KeepConfidentAppend | voice/matcher.py:120-127 | Filtering a concatenation filters each part, so the kept pairs stay in the extraction's order. |
| Matcher.KeepConfidentMembers | voice/matcher.py:120-127 | A pair is kept exactly when some extracted match, scaled to [0, 1], gives it and reaches the minimum. |
| Matcher.GetAllMatches | voice/matcher.py:94-131 | Blank text and a failing extraction give nothing. Otherwise the result is the extraction's confident matches, each reaching the minimum. |
| VoicePipeline.ProcessVoiceCommand | voice/__init__.py:34-88 | A call while busy is turned away untouched, and otherwise the busy flag is clear afterwards. Success holds exactly when the transcription had text, it matched and the command ran well. A success records the matched, registered phrase and its confidence, which reach the threshold. A failure leaves the state as it was. |
| VoicePipeline.IsVoiceSystemReady | voice/__init__.py:90-98 | It is ready only with a loaded model and some registered phrase, and always when both hold. |
| VoicePipeline.ShippedSystemReadyIffModelLoaded | gestures/voice_command.py:103-108 | With the shipped registry, the voice gesture starts a recording exactly when the speech model is loaded. |
| VoicePipeline.ShippedSuccessRanARoutine | voice/__init__.py:74-81 | With the shipped registry, a success comes from a browser routine that reported success. |
| VoicePipeline.SequentialRequestsNeverBlocked | voice/__init__.py:45-88 | Requests handled one after another never find the pipeline busy. The remembered command stays the initial one or becomes a registered phrase. |

## Left out

- Camera capture, MediaPipe landmark detection and all drawing on the
  image (`camera.py`, the `cv2` calls) are display and I/O. A hand enters
  the model as landmark coordinates.
- Keyboard and mouse output through `pynput` is outside the model. Each step
  returns the commands it would send.
- Recording and transcription (`voice/recorder.py`,
  `voice/transcriber.py`) are outside the model. Their results enter as
  `Outcome` parameters. The background recording thread and its callback
  are not modelled; `VoicePipeline.Run` handles requests one after another.
- The bodies of `execute_open_youtube` and `execute_close_tab` are key
  sequences with sleeps. Only their boolean answer enters, as a parameter.
- The rapidfuzz scorers (`ratio`, `partial_ratio`, `token_ratio`) and
  `process.extract` are library code. They are parameters of the matcher.
- `match_command` and the thin `record_voice_command` and
  `transcribe_audio` wrappers of `voice/__init__.py` are not modelled.
  `match_command` calls a matcher method that does not exist, and the
  other two only forward their arguments. `get_voice_state` returns a copy
  of the state, which is the state itself in a value model.
- `utils.py`, `config.py` and the `gestures/alt_f4.py` stub are not part
  of this model. Of the package tables in `gestures/__init__.py`, only the
  key set of `gesture_states` is used, as the kinds of `GestureKind`. The
  `gesture_checks` and `gesture_processes` tables are left out.
- `Classifiers.IsScrollGesture` takes the arccos angle band as a boolean
  verdict, `vShape`, because its floating-point trigonometry has no exact
  counterpart. The other scroll conditions are modelled.
- Frame counts derived from the camera rate (`int(t * fps)`) are
  parameters of each step. `MainLoop.ConfirmationFrames` models main.py's
  computation. A zero confirmation count is excluded by a `requires`,
  because the progress display divides by it and would raise.
- `MouseControlGesture.MouseStep` requires positive image dimensions. With a
  zero dimension the normalisation divides by zero and raises.
- The wall clock (`time.time()`) of the legacy Alt+F4 gesture is an input,
  `now`.
- `GestureState` fields that are only ever read as constants (times,
  thresholds, smoothing, sensitivity, `hand_open` and `hand_closed`) are
  parameters or constants, not fields.
- The `screeninfo` import in `process_mouse_control_gesture` sits outside
  its `try`. An import failure would raise instead of falling back to
  1920×1080. The model treats any failure of the monitor query as the
  fallback.
- `CommandInfo` leaves out the registry's unused `keys` field.
- Floating-point rounding is not modelled; coordinates are reals.
- Matcher.KeepConfident: its own contract only bounds the result. Which
  pairs are kept, in both directions, is `Matcher.KeepConfidentMembers`.
- Matcher.FindBestMatch: its own contract covers the refusals and the
  threshold. Optimality of the match is `Matcher.BestMatchIsBest`.

## Findings

| source | as written | input that shows it | evidently intended | confidence | as-written member | corrected member |
|---|---|---|---|---|---|---|
| gestures/base.py:195 | `dist_thumb_ip_to_wrist` takes the thumb IP joint's x but the thumb tip's y, so it is not a distance from the wrist to either landmark | an open hand with the thumb pointing straight up from the wrist: the tip and the IP joint share their x, so the mixed "IP distance" equals the tip distance and the strict `>` test fails | the IP joint's own y, making the thumb test a comparison of true distances from the wrist that does not depend on the hand's rotation | not executed | Classifiers.ThumbTestAsWrittenRejectsOpenHand | Classifiers.ThumbExtendedRotationInvariant |
