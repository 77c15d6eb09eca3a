/** The voice pipeline of `voice/__init__.py`: transcribe, match, execute,
    remembering the last command that ran successfully. */
module VoicePipeline {
  import opened Wrappers
  import opened GestureStates
  import opened Registry
  import opened Matcher
  import VoiceGesture

  /** The module-level `voice_state` dictionary. */
  datatype VoiceState = VoiceState(isProcessing: bool, lastCommand: Option<string>, lastConfidence: real)

  /** `voice_state` as the module starts. */
  const InitialVoiceState := VoiceState(false, None, 0.0)

  /** What `process_voice_command` returns (`success`), the state it leaves
      behind, and the browser routine it started, if any. */
  datatype Processed = Processed(state: VoiceState, success: bool, ran: Option<Routine>)

  /** The text a transcription outcome hands on to matching: present exactly
      when the transcriber returned a non-empty string. */
  predicate HasText(transcription: Outcome<Option<string>>) {
    transcription.Returned? && transcription.value.Some? && transcription.value.value != []
  }

  /** `process_voice_command`. The transcriber's result is `transcription`
      (`Returned(None)` for Python's `None`, `Raised` when it throws); the
      matcher is `m` over the registry `d` with scorer `score`; `youtube` and
      `closeTab` are what the browser routines return. */
  function ProcessVoiceCommand(vs: VoiceState, transcription: Outcome<Option<string>>, d: Dict,
                               m: CommandMatcher, score: (Scorer, string, string) -> Outcome<real>,
                               youtube: Outcome<bool>, closeTab: Outcome<bool>): (r: Processed)
    // a request that arrives while another is in progress is turned away untouched
    ensures vs.isProcessing ==> r == Processed(vs, false, None)
    // otherwise the `finally` clause always clears the flag
    ensures r.state.isProcessing == vs.isProcessing
    // success exactly when there was text, it matched, and the command ran well
    ensures r.success <==>
      && !vs.isProcessing
      && HasText(transcription)
      && FindBestMatch(m, transcription.value.value, d, score).Some?
      && var (key, _) := FindBestMatch(m, transcription.value.value, d, score).value;
         ExecuteCommand(d, key, youtube, closeTab).success
    // a success records the matched phrase and its confidence
    ensures r.success ==>
      && r.state.lastCommand == Some(FindBestMatch(m, transcription.value.value, d, score).value.0)
      && r.state.lastConfidence == FindBestMatch(m, transcription.value.value, d, score).value.1
      && r.state.lastCommand.value in GetAllCommands(d)
      && r.state.lastConfidence >= Threshold(d, r.state.lastCommand.value, m.minConfidence)
    // a failure leaves the remembered command alone
    ensures !r.success ==> r.state == vs
    // a routine is started only for matched text
    ensures r.ran.Some? ==>
      && HasText(transcription)
      && FindBestMatch(m, transcription.value.value, d, score).Some?
      && r.ran == ExecuteCommand(d, FindBestMatch(m, transcription.value.value, d, score).value.0,
                                 youtube, closeTab).ran
  {
    if vs.isProcessing then Processed(vs, false, None)
    else if !HasText(transcription) then Processed(vs, false, None)
    else
      match FindBestMatch(m, transcription.value.value, d, score)
      case None => Processed(vs, false, None)
      case Some((key, confidence)) =>
        var x := ExecuteCommand(d, key, youtube, closeTab);
        assert key in GetAllCommands(d) by {
          BestMatchIsBest(m, transcription.value.value, d, score);
        }
        if x.success then Processed(VoiceState(false, Some(key), confidence), true, x.ran)
        else Processed(vs, false, x.ran)
  }

  /** `is_voice_system_ready`: the speech model reports itself loaded
      (`Raised` when asking throws) and the registry is not empty. */
  function IsVoiceSystemReady(modelLoaded: Outcome<bool>, d: Dict): (r: bool)
    ensures r ==> modelLoaded == Returned(true)
    ensures r ==> exists k :: GetCommandInfo(d, k).Some?
    ensures modelLoaded == Returned(true) && d != [] ==> r
  {
    if modelLoaded == Returned(true) && |GetAllCommands(d)| > 0 then
      assert GetCommandInfo(d, GetAllCommands(d)[0]).Some?;
      true
    else false
  }

  /** With the shipped registry, the voice gesture starts a recording exactly
      when the speech model is loaded. */
  lemma ShippedSystemReadyIffModelLoaded(modelLoaded: Outcome<bool>)
    ensures VoiceGesture.TriggerVoiceRecording(Returned(IsVoiceSystemReady(modelLoaded, AllCommands())))
              == [StartRecording]
            <==> modelLoaded == Returned(true)
  {
    AllCommandsKeys();
    assert |GetAllCommands(AllCommands())| == 8;
  }

  /** A shipped-registry success always comes from a browser routine that
      reported success. */
  lemma ShippedSuccessRanARoutine(vs: VoiceState, transcription: Outcome<Option<string>>,
                                  m: CommandMatcher, score: (Scorer, string, string) -> Outcome<real>,
                                  youtube: Outcome<bool>, closeTab: Outcome<bool>)
    ensures var r := ProcessVoiceCommand(vs, transcription, AllCommands(), m, score, youtube, closeTab);
      r.success ==>
        || (r.ran == Some(OpenYoutube) && youtube == Returned(true))
        || (r.ran == Some(CloseTab) && closeTab == Returned(true))
  {
    var r := ProcessVoiceCommand(vs, transcription, AllCommands(), m, score, youtube, closeTab);
    if r.success {
      var key := FindBestMatch(m, transcription.value.value, AllCommands(), score).value.0;
      RegisteredPhrasesRunARoutine(key, youtube, closeTab);
    }
  }

  /** One recorded utterance and what the outside world does with it. */
  datatype Request = Request(transcription: Outcome<Option<string>>, youtube: Outcome<bool>,
                             closeTab: Outcome<bool>)

  /** The voice state after handling `requests` one after another. */
  function Run(vs: VoiceState, requests: seq<Request>, d: Dict, m: CommandMatcher,
               score: (Scorer, string, string) -> Outcome<real>): (r: VoiceState)
    decreases |requests|
  {
    if requests == [] then vs
    else
      var q := requests[0];
      Run(ProcessVoiceCommand(vs, q.transcription, d, m, score, q.youtube, q.closeTab).state,
          requests[1..], d, m, score)
  }

  /** Handled one after another, requests never find the pipeline busy, and
      the remembered command is always the starting one or a registered
      phrase. */
  lemma {:induction false} SequentialRequestsNeverBlocked(vs: VoiceState, requests: seq<Request>, d: Dict,
                                                          m: CommandMatcher,
                                                          score: (Scorer, string, string) -> Outcome<real>)
    requires !vs.isProcessing
    ensures !Run(vs, requests, d, m, score).isProcessing
    ensures var last := Run(vs, requests, d, m, score).lastCommand;
      last == vs.lastCommand || (last.Some? && last.value in GetAllCommands(d))
    decreases |requests|
  {
    if requests != [] {
      var q := requests[0];
      var next := ProcessVoiceCommand(vs, q.transcription, d, m, score, q.youtube, q.closeTab).state;
      SequentialRequestsNeverBlocked(next, requests[1..], d, m, score);
    }
  }
}
