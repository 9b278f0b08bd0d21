/** The interaction flags of the `Input` component (components/Input.tsx) and the
    events that drive them.

    The component keeps its state in React state variables and changes it from six
    places: the form handler, the mode selector, two effects (one runs
    `transcribeAudio` whenever `audioFile` changes, the other runs `generateRoadman`
    whenever `transcription` changes), the "again" button, and the response view it
    hands `setAudioPlaying`. Each remote call suspends the async function that made
    it; the model keeps every such call that has been sent and not yet answered in
    `inFlight`, and an answer is an event naming the call it settles. No handler
    checks for a running cycle, so several calls can be pending at once. */
module InputFlow {
  import opened JsBuiltins
  import opened AudioHex

  datatype Option<T> = None | Some(value: T)

  /** The selector's two options. */
  datatype Mode = Translate | Ask

  /** A recorded clip, kept as its bytes; the component only passes it on. */
  type Blob = seq<uint8>

  /** A remote call that has been sent and not yet answered, with what it carries. */
  datatype Call =
    | Transcribe(audio: Blob)                  // POST /api/transcribe
    | Complete(transcript: string, kind: Mode) // POST /api/completions
    | Speak(speech: string)                    // POST api/eleven

  /** How a remote call ends, as the code awaiting it sees it. `Failure` stands for
      every path into a `catch` before the first setter after the `await`: a non-2xx
      status, a body that is not JSON. */
  datatype Outcome =
    | TranscriptionOk(text: string)
    | CompletionOk(translation: string, phonetic: string)
    | SpeechOk(hex: string)
    | Failure

  /** Which outcomes can settle which call. */
  predicate Answers(c: Call, o: Outcome) {
    match o
    case TranscriptionOk(_) => c.Transcribe?
    case CompletionOk(_, _) => c.Complete?
    case SpeechOk(_) => c.Speak?
    case Failure => true
  }

  /** The component's state. `responseAudio` is `Some(bytes)` once an audio element
      has been built from the decoded speech, `None` while it is null. */
  datatype Flags = Flags(
    audioFile: Option<Blob>,
    responseAudio: Option<seq<uint8>>,
    translateType: Mode,
    transcription: string,
    translation: string,
    audioPlaying: bool,
    translating: bool,
    response: bool,
    inFlight: seq<Call>)

  /** The initial values given to `useState`. */
  function Initial(): Flags {
    Flags(None, None, Translate, "", "", false, false, false, [])
  }

  /** `xs` without its element at `k`. */
  function Without<T>(xs: seq<T>, k: nat): (ys: seq<T>)
    requires k < |xs|
    ensures |ys| == |xs| - 1
    ensures forall i :: 0 <= i < k ==> ys[i] == xs[i]
    ensures forall i :: k <= i < |ys| ==> ys[i] == xs[i + 1]
  {
    xs[..k] + xs[k + 1..]
  }

  // ---------------------------------------------------------------------------
  // Transitions, one function per event
  // ---------------------------------------------------------------------------

  /** The part of `generateRoadman` that runs before its first `await`: nothing when
      the transcription is empty, otherwise raise `translating`, clear the previous
      answer and its audio, show the response view, and send the completion request
      with the transcription's trailing white space trimmed and the current mode. */
  function CycleStarted(s: Flags): Flags {
    if s.transcription == "" then s
    else s.(translating := true, translation := "", responseAudio := None, response := true,
            inFlight := s.inFlight + [Complete(TrimEnd(s.transcription), s.translateType)])
  }

  /** `setTranscription(text)`: React keeps the old state when the value is the same,
      and then the effect that depends on it does not run again; a different value
      re-runs `generateRoadman`. */
  function TranscriptionSet(s: Flags, text: string): Flags {
    if text == s.transcription then s
    else CycleStarted(s.(transcription := text))
  }

  /** `handleFormSubmit`: empty text is ignored, anything else becomes the transcription. */
  function FormSubmitted(s: Flags, text: string): Flags {
    if text == "" then s else TranscriptionSet(s, text)
  }

  /** The selector's `onChange`. */
  function ModeSelected(s: Flags, mode: Mode): Flags {
    s.(translateType := mode)
  }

  /** `setAudioFile` from the recorder: a new clip is a new object, so the effect
      always re-runs `transcribeAudio`, which sends the clip. */
  function AudioRecorded(s: Flags, audio: Blob): Flags {
    s.(audioFile := Some(audio), inFlight := s.inFlight + [Transcribe(audio)])
  }

  /** The call at `k` is answered with `o`, and the code after its `await` runs.
      A failed transcription is only logged; a failure anywhere in the generation
      cycle resets `audioPlaying` and nothing else. */
  function Settled(s: Flags, k: nat, o: Outcome): Flags
    requires k < |s.inFlight| && Answers(s.inFlight[k], o)
  {
    var call := s.inFlight[k];
    var s' := s.(inFlight := Without(s.inFlight, k));
    match o
    case TranscriptionOk(text) => TranscriptionSet(s', text)
    case CompletionOk(translation, phonetic) =>
      s'.(translating := false, translation := translation, audioPlaying := true,
          inFlight := s'.inFlight + [Speak(phonetic)])
    case SpeechOk(hex) => s'.(audioPlaying := false, responseAudio := Some(DecodeHex(hex)))
    case Failure => if call.Transcribe? then s' else s'.(audioPlaying := false)
  }

  /** `setAudioPlaying`, handed to the response view, which may call it with any
      value at any time. */
  function PlaybackSet(s: Flags, playing: bool): Flags {
    s.(audioPlaying := playing)
  }

  /** `handleAgainClick`: ignored while audio is being made or a completion is awaited,
      otherwise toggles the response view. */
  function AgainClicked(s: Flags): Flags {
    if s.audioPlaying || s.translating then s else s.(response := !s.response)
  }

  /** Everything that can happen to the component, one event at a time. */
  datatype Event =
    | Submit(text: string)
    | Select(mode: Mode)
    | Record(audio: Blob)
    | Settle(k: nat, outcome: Outcome)
    | Playback(playing: bool)
    | Again

  /** One event. An answer that fits no pending call cannot be delivered; it leaves
      the state as it is. */
  function Step(s: Flags, e: Event): Flags {
    match e
    case Submit(text) => FormSubmitted(s, text)
    case Select(mode) => ModeSelected(s, mode)
    case Record(audio) => AudioRecorded(s, audio)
    case Settle(k, o) => if k < |s.inFlight| && Answers(s.inFlight[k], o) then Settled(s, k, o) else s
    case Playback(playing) => PlaybackSet(s, playing)
    case Again => AgainClicked(s)
  }

  /** A sequence of events, in order. */
  function Run(s: Flags, es: seq<Event>): Flags
    decreases |es|
  {
    if es == [] then s else Run(Step(s, es[0]), es[1..])
  }

  // ---------------------------------------------------------------------------
  // What each handler promises
  // ---------------------------------------------------------------------------

  /** Submitting empty text changes nothing; other text becomes the transcription,
      and a cycle starts exactly when that text differs from the current one. */
  lemma FormSubmitEffect(s: Flags, text: string)
    ensures text == "" ==> FormSubmitted(s, text) == s
    ensures text != "" ==> FormSubmitted(s, text).transcription == text
    ensures text != "" ==> (FormSubmitted(s, text).inFlight != s.inFlight <==> text != s.transcription)
  {
    if text != "" && text != s.transcription {
      assert |FormSubmitted(s, text).inFlight| == |s.inFlight| + 1;
    }
  }

  /** Starting a cycle raises `translating`, clears `translation` and `responseAudio`,
      shows the response view and sends `transcription.trimEnd()` with the current
      mode; `audioPlaying` and the other flags are left as they were. */
  lemma CycleStartEffect(s: Flags, text: string)
    requires text != "" && text != s.transcription
    ensures var r := FormSubmitted(s, text);
      && r.translating && r.response && r.translation == "" && r.responseAudio == None
      && r.inFlight == s.inFlight + [Complete(TrimEnd(text), s.translateType)]
      && r.audioPlaying == s.audioPlaying && r.audioFile == s.audioFile
      && r.translateType == s.translateType
  {
  }

  /** Recording a clip stores it and sends it to be transcribed; nothing else changes. */
  lemma AudioRecordedEffect(s: Flags, audio: Blob)
    ensures var r := AudioRecorded(s, audio);
      && r.audioFile == Some(audio) && r.inFlight == s.inFlight + [Transcribe(audio)]
      && r.(audioFile := s.audioFile, inFlight := s.inFlight) == s
  {
  }

  /** The response view sets `audioPlaying` and nothing else; with `translating` down
      its value alone decides whether the "again" button works. */
  lemma PlaybackEffect(s: Flags, playing: bool)
    ensures var r := PlaybackSet(s, playing);
      && r.audioPlaying == playing && r.(audioPlaying := s.audioPlaying) == s
      && (!s.translating ==> (AgainClicked(r) == r <==> playing))
  {
  }

  /** A successful transcription becomes `transcription`. Non-empty text then goes
      the way of a form submission; an empty transcript, unlike an empty submission,
      does clear `transcription`, and sends nothing. */
  lemma TranscriptionOkEffect(s: Flags, k: nat, text: string)
    requires k < |s.inFlight| && s.inFlight[k].Transcribe?
    ensures var s' := s.(inFlight := Without(s.inFlight, k));
      var r := Settled(s, k, TranscriptionOk(text));
      && r.transcription == text
      && (text != "" ==> r == FormSubmitted(s', text))
      && (text == "" ==> r == s'.(transcription := ""))
  {
  }

  /** A successful completion lowers `translating`, shows the returned text, raises
      `audioPlaying` and sends the phonetic text to the speech service; nothing else
      changes. */
  lemma CompletionOkEffect(s: Flags, k: nat, translation: string, phonetic: string)
    requires k < |s.inFlight| && s.inFlight[k].Complete?
    ensures var r := Settled(s, k, CompletionOk(translation, phonetic));
      && !r.translating && r.translation == translation && r.audioPlaying
      && r.inFlight == Without(s.inFlight, k) + [Speak(phonetic)]
      && r.(translating := s.translating, translation := s.translation,
            audioPlaying := s.audioPlaying, inFlight := s.inFlight) == s
  {
  }

  /** Successful speech lowers `audioPlaying` and sets `responseAudio` to the bytes
      the hex payload decodes to; nothing else changes. */
  lemma SpeechOkEffect(s: Flags, k: nat, hex: string)
    requires k < |s.inFlight| && s.inFlight[k].Speak?
    ensures var r := Settled(s, k, SpeechOk(hex));
      && !r.audioPlaying && r.responseAudio == Some(DecodeHex(hex))
      && r.inFlight == Without(s.inFlight, k)
      && r.(audioPlaying := s.audioPlaying, responseAudio := s.responseAudio, inFlight := s.inFlight) == s
  {
  }

  /** On a failure the only flag that changes is `audioPlaying`, and only for a call
      of the generation cycle; a failed transcription changes no flag at all. */
  lemma FailureEffect(s: Flags, k: nat)
    requires k < |s.inFlight|
    ensures var r := Settled(s, k, Failure);
      && r.inFlight == Without(s.inFlight, k)
      && r.(inFlight := s.inFlight) == s.(audioPlaying := if s.inFlight[k].Transcribe? then s.audioPlaying else false)
  {
  }

  /** While audio is being made or a completion is awaited the button does nothing;
      otherwise it toggles the response view and nothing else, so two clicks cancel. */
  lemma AgainClickEffect(s: Flags)
    ensures s.audioPlaying || s.translating ==> AgainClicked(s) == s
    ensures !s.audioPlaying && !s.translating ==>
      AgainClicked(s).response == !s.response && AgainClicked(s).(response := s.response) == s
    ensures AgainClicked(AgainClicked(s)) == s
  {
  }

  // ---------------------------------------------------------------------------
  // Invariants and consequences over whole runs
  // ---------------------------------------------------------------------------

  /** `translating` is only ever raised together with `response`, and the response
      view cannot be left while it is up; a transcription request exists only for a
      recorded clip. */
  ghost predicate Inv(s: Flags) {
    && (s.translating ==> s.response)
    && (s.audioFile.None? ==> forall i :: 0 <= i < |s.inFlight| ==> !s.inFlight[i].Transcribe?)
  }

  lemma InitialInv()
    ensures Inv(Initial())
  {
  }

  lemma CycleStartedKeepsInv(s: Flags)
    requires Inv(s)
    ensures Inv(CycleStarted(s))
  {
    if s.transcription != "" {
      var c := Complete(TrimEnd(s.transcription), s.translateType);
      assert forall i :: 0 <= i < |s.inFlight| ==> (s.inFlight + [c])[i] == s.inFlight[i];
    }
  }

  lemma SettledKeepsInv(s: Flags, k: nat, o: Outcome)
    requires Inv(s) && k < |s.inFlight| && Answers(s.inFlight[k], o)
    ensures Inv(Settled(s, k, o))
  {
    var s' := s.(inFlight := Without(s.inFlight, k));
    assert Inv(s');
    match o
    case TranscriptionOk(text) =>
      if text != s'.transcription {
        CycleStartedKeepsInv(s'.(transcription := text));
      }
    case CompletionOk(_, phonetic) =>
      var rest := s'.inFlight;
      assert forall i :: 0 <= i < |rest| ==> (rest + [Speak(phonetic)])[i] == rest[i];
    case SpeechOk(_) =>
    case Failure =>
  }

  lemma StepKeepsInv(s: Flags, e: Event)
    requires Inv(s)
    ensures Inv(Step(s, e))
  {
    match e
    case Submit(text) =>
      if text != "" && text != s.transcription {
        CycleStartedKeepsInv(s.(transcription := text));
      }
    case Settle(k, o) =>
      if k < |s.inFlight| && Answers(s.inFlight[k], o) {
        SettledKeepsInv(s, k, o);
      }
    case _ =>
  }

  lemma {:induction false} RunKeepsInv(s: Flags, es: seq<Event>)
    requires Inv(s)
    ensures Inv(Run(s, es))
    decreases |es|
  {
    if es != [] {
      StepKeepsInv(s, es[0]);
      RunKeepsInv(Step(s, es[0]), es[1..]);
    }
  }

  /** Every state the component can reach keeps the invariant. */
  lemma ReachableInv(es: seq<Event>)
    ensures Inv(Run(Initial(), es))
  {
    InitialInv();
    RunKeepsInv(Initial(), es);
  }

  predicate CompletesGeneration(e: Event) {
    e.Settle? && e.outcome.CompletionOk?
  }

  /** Only a successful completion lowers `translating`: once it is up, every run
      without one leaves it up, so the "again" button stays a no-op. */
  lemma {:induction false} TranslatingSticks(s: Flags, es: seq<Event>)
    requires s.translating
    requires forall i :: 0 <= i < |es| ==> !CompletesGeneration(es[i])
    ensures Run(s, es).translating
    ensures AgainClicked(Run(s, es)) == Run(s, es)
    decreases |es|
  {
    if es != [] {
      var s1 := Step(s, es[0]);
      assert !CompletesGeneration(es[0]);
      assert s1.translating;
      assert forall i :: 0 <= i < |es[1..]| ==> es[1..][i] == es[i + 1];
      TranslatingSticks(s1, es[1..]);
    }
  }

  /** A cycle whose completion request fails leaves `translating` and the response
      view up, with no audio: unless another completion succeeds later, the "again"
      button never works again. */
  lemma StuckAfterFailedCompletion(s: Flags, text: string, es: seq<Event>)
    requires text != "" && text != s.transcription
    requires forall i :: 0 <= i < |es| ==> !CompletesGeneration(es[i])
    ensures var started := FormSubmitted(s, text);
      var failed := Settled(started, |started.inFlight| - 1, Failure);
      && failed.translating && failed.response && failed.responseAudio == None && !failed.audioPlaying
      && Run(failed, es).translating
      && AgainClicked(Run(failed, es)) == Run(failed, es)
  {
    var started := FormSubmitted(s, text);
    CycleStartEffect(s, text);
    var failed := Settled(started, |started.inFlight| - 1, Failure);
    assert failed.translating;
    TranslatingSticks(failed, es);
  }

  /** How many of `calls` satisfy `kind`. */
  function Count(calls: seq<Call>, kind: Call -> bool): nat {
    if calls == [] then 0 else (if kind(calls[0]) then 1 else 0) + Count(calls[1..], kind)
  }

  lemma {:induction false} CountAppend(a: seq<Call>, b: seq<Call>, kind: Call -> bool)
    ensures Count(a + b, kind) == Count(a, kind) + Count(b, kind)
    decreases |a|
  {
    if a == [] {
      assert a + b == b;
    } else {
      assert (a + b)[0] == a[0];
      assert (a + b)[1..] == a[1..] + b;
      CountAppend(a[1..], b, kind);
    }
  }

  lemma CountSingle(c: Call, kind: Call -> bool)
    ensures Count([c], kind) == if kind(c) then 1 else 0
  {
    assert [c][1..] == [];
  }

  lemma CountWithout(calls: seq<Call>, k: nat, kind: Call -> bool)
    requires k < |calls|
    ensures Count(Without(calls, k), kind) + (if kind(calls[k]) then 1 else 0) == Count(calls, kind)
  {
    var before, after := calls[..k], calls[k + 1..];
    var one := [calls[k]];
    assert calls == before + (one + after);
    assert Without(calls, k) == before + after;
    CountAppend(before, one + after, kind);
    CountAppend(one, after, kind);
    CountAppend(before, after, kind);
    CountSingle(calls[k], kind);
  }

  /** `RequestsFollowTheirTrigger` for an answer to a pending call. */
  lemma SettledFollowsTrigger(s: Flags, k: nat, o: Outcome)
    requires k < |s.inFlight| && Answers(s.inFlight[k], o)
    ensures Count(Settled(s, k, o).inFlight, (c: Call) => c.Speak?) > Count(s.inFlight, (c: Call) => c.Speak?) ==>
      && o.CompletionOk?
      && Settled(s, k, o).inFlight[|Settled(s, k, o).inFlight| - 1] == Speak(o.phonetic)
    ensures Count(Settled(s, k, o).inFlight, (c: Call) => c.Complete?) > Count(s.inFlight, (c: Call) => c.Complete?) ==>
      && o.TranscriptionOk?
      && Settled(s, k, o).transcription != s.transcription && Settled(s, k, o).transcription != ""
  {
    var speak := (c: Call) => c.Speak?;
    var complete := (c: Call) => c.Complete?;
    var rest := Without(s.inFlight, k);
    CountWithout(s.inFlight, k, speak);
    CountWithout(s.inFlight, k, complete);
    match o
    case TranscriptionOk(text) =>
      if text != s.transcription && text != "" {
        CountAppend(rest, [Complete(TrimEnd(text), s.translateType)], speak);
      }
    case CompletionOk(_, phonetic) =>
      CountAppend(rest, [Speak(phonetic)], complete);
    case SpeechOk(_) =>
    case Failure =>
  }

  /** The order of the three calls: a speech request is only ever sent by a
      successful completion, and carries its phonetic text; a completion request is
      only ever sent when the transcription has just changed to non-empty text. */
  lemma RequestsFollowTheirTrigger(s: Flags, e: Event)
    ensures Count(Step(s, e).inFlight, (c: Call) => c.Speak?) > Count(s.inFlight, (c: Call) => c.Speak?) ==>
      && CompletesGeneration(e)
      && Step(s, e).inFlight[|Step(s, e).inFlight| - 1] == Speak(e.outcome.phonetic)
    ensures Count(Step(s, e).inFlight, (c: Call) => c.Complete?) > Count(s.inFlight, (c: Call) => c.Complete?) ==>
      && (e.Submit? || (e.Settle? && e.outcome.TranscriptionOk?))
      && Step(s, e).transcription != s.transcription && Step(s, e).transcription != ""
  {
    var speak := (c: Call) => c.Speak?;
    var complete := (c: Call) => c.Complete?;
    var r := Step(s, e);
    match e
    case Submit(text) =>
      if text != "" && text != s.transcription {
        CountAppend(s.inFlight, [Complete(TrimEnd(text), s.translateType)], speak);
      }
    case Select(_) =>
    case Record(audio) =>
      CountAppend(s.inFlight, [Transcribe(audio)], speak);
      CountAppend(s.inFlight, [Transcribe(audio)], complete);
    case Settle(k, o) =>
      if k < |s.inFlight| && Answers(s.inFlight[k], o) {
        SettledFollowsTrigger(s, k, o);
      }
    case Playback(_) =>
    case Again =>
  }

  /** Nothing prevents overlap: a clip is recorded and typed text submitted while
      its transcription is pending; when the transcription arrives, a second
      completion request is sent while the first is still unanswered. */
  lemma SecondCycleOverlaps()
    ensures Run(Initial(), [Record([1]), Submit("a"), Settle(0, TranscriptionOk("b"))]).inFlight
      == [Complete("a", Translate), Complete("b", Translate)]
  {
    assert TrimEnd("a") == "a" && TrimEnd("b") == "b";
    var s1 := Step(Initial(), Record([1]));
    var s2 := Step(s1, Submit("a"));
    var s3 := Step(s2, Settle(0, TranscriptionOk("b")));
    assert s3.inFlight == [Complete("a", Translate), Complete("b", Translate)];
    assert Run(Initial(), [Record([1]), Submit("a"), Settle(0, TranscriptionOk("b"))]) == s3;
  }

  /** The completion request carries the transcription without trailing white space. */
  lemma RequestIsTrimmed()
    ensures FormSubmitted(ModeSelected(Initial(), Ask), "hello \n").inFlight == [Complete("hello", Ask)]
  {
    assert TrimEnd("hello \n") == TrimEnd("hello ") == TrimEnd("hello") == "hello";
  }

  /** Submit "how far" to translate, the completion answers "wagwan" / "wag-one",
      and the speech service answers "4f4b". */
  lemma EndToEnd()
    ensures var s1 := Run(Initial(), [Submit("how far")]);
      s1.inFlight == [Complete("how far", Translate)] && s1.translating && s1.response
    ensures var s2 := Run(Initial(), [Submit("how far"), Settle(0, CompletionOk("wagwan", "wag-one"))]);
      s2.translation == "wagwan" && s2.inFlight == [Speak("wag-one")] && s2.audioPlaying && !s2.translating
    ensures var s3 := Run(Initial(), [Submit("how far"), Settle(0, CompletionOk("wagwan", "wag-one")), Settle(0, SpeechOk("4f4b"))]);
      s3.responseAudio == Some([0x4F, 0x4B]) && !s3.audioPlaying && s3.inFlight == [] && s3.response
  {
    assert TrimEnd("how far") == "how far";
    var s1 := Step(Initial(), Submit("how far"));
    var s2 := Step(s1, Settle(0, CompletionOk("wagwan", "wag-one")));
    var s3 := Step(s2, Settle(0, SpeechOk("4f4b")));
    assert Run(Initial(), [Submit("how far")]) == s1;
    assert Run(Initial(), [Submit("how far"), Settle(0, CompletionOk("wagwan", "wag-one"))]) == s2;
    assert Run(Initial(), [Submit("how far"), Settle(0, CompletionOk("wagwan", "wag-one")), Settle(0, SpeechOk("4f4b"))]) == s3;
    ExampleOk();
  }

  // ---------------------------------------------------------------------------
  // The component itself
  // ---------------------------------------------------------------------------

  /** The component's state variables as fields; each handler and each resumed
      `await` is a method that changes them in the order the source does. */
  class Input {
    var audioFile: Option<Blob>
    var responseAudio: Option<seq<uint8>>
    var translateType: Mode
    var transcription: string
    var translation: string
    var audioPlaying: bool
    var translating: bool
    var response: bool
    var inFlight: seq<Call>

    function Snapshot(): Flags
      reads this
    {
      Flags(audioFile, responseAudio, translateType, transcription, translation,
            audioPlaying, translating, response, inFlight)
    }

    ghost predicate Valid()
      reads this
    {
      Inv(Snapshot())
    }

    constructor ()
      ensures Snapshot() == Initial() && Valid()
    {
      audioFile := None;
      responseAudio := None;
      translateType := Translate;
      transcription := "";
      translation := "";
      audioPlaying := false;
      translating := false;
      response := false;
      inFlight := [];
      new;
      InitialInv();
    }

    method GenerateRoadman()
      modifies this
      ensures Snapshot() == CycleStarted(old(Snapshot()))
    {
      if transcription == "" {
        return;
      }
      // order matters: `translating` first, so the view cannot be left mid-cycle
      translating := true;
      translation := "";
      responseAudio := None;
      response := true;
      inFlight := inFlight + [Complete(TrimEnd(transcription), translateType)];
    }

    method SetTranscription(text: string)
      modifies this
      ensures Snapshot() == TranscriptionSet(old(Snapshot()), text)
    {
      if text == transcription {
        return;
      }
      transcription := text;
      GenerateRoadman();
    }

    method HandleFormSubmit(text: string)
      requires Valid()
      modifies this
      ensures Valid()
      ensures Snapshot() == Step(old(Snapshot()), Submit(text))
    {
      StepKeepsInv(Snapshot(), Submit(text));
      if text == "" {
        return;
      }
      SetTranscription(text);
    }

    method SetTranslateType(mode: Mode)
      requires Valid()
      modifies this
      ensures Valid()
      ensures Snapshot() == Step(old(Snapshot()), Select(mode))
    {
      translateType := mode;
    }

    method SetAudioFile(audio: Blob)
      requires Valid()
      modifies this
      ensures Valid()
      ensures Snapshot() == Step(old(Snapshot()), Record(audio))
    {
      StepKeepsInv(Snapshot(), Record(audio));
      audioFile := Some(audio);
      inFlight := inFlight + [Transcribe(audio)];
    }

    method OnTranscriptionOk(k: nat, text: string)
      requires Valid()
      requires k < |inFlight| && inFlight[k].Transcribe?
      modifies this
      ensures Valid()
      ensures Snapshot() == Step(old(Snapshot()), Settle(k, TranscriptionOk(text)))
    {
      StepKeepsInv(Snapshot(), Settle(k, TranscriptionOk(text)));
      inFlight := Without(inFlight, k);
      SetTranscription(text);
    }

    method OnCompletionOk(k: nat, display: string, phonetic: string)
      requires Valid()
      requires k < |inFlight| && inFlight[k].Complete?
      modifies this
      ensures Valid()
      ensures Snapshot() == Step(old(Snapshot()), Settle(k, CompletionOk(display, phonetic)))
    {
      StepKeepsInv(Snapshot(), Settle(k, CompletionOk(display, phonetic)));
      inFlight := Without(inFlight, k);
      translating := false;
      translation := display;
      audioPlaying := true;
      inFlight := inFlight + [Speak(phonetic)];
    }

    method ConvertResponseAudio(hex: string)
      modifies this
      ensures Snapshot() == old(Snapshot()).(responseAudio := Some(DecodeHex(hex)))
    {
      var bytes := DecodeHex(hex);
      // a `Uint8Array` is always truthy, so the 'Invalid byte array' branch is dead
      responseAudio := Some(bytes);
    }

    method OnSpeechOk(k: nat, hex: string)
      requires Valid()
      requires k < |inFlight| && inFlight[k].Speak?
      modifies this
      ensures Valid()
      ensures Snapshot() == Step(old(Snapshot()), Settle(k, SpeechOk(hex)))
    {
      StepKeepsInv(Snapshot(), Settle(k, SpeechOk(hex)));
      inFlight := Without(inFlight, k);
      audioPlaying := false;
      ConvertResponseAudio(hex);
    }

    method OnFailure(k: nat)
      requires Valid()
      requires k < |inFlight|
      modifies this
      ensures Valid()
      ensures Snapshot() == Step(old(Snapshot()), Settle(k, Failure))
    {
      StepKeepsInv(Snapshot(), Settle(k, Failure));
      var call := inFlight[k];
      inFlight := Without(inFlight, k);
      if !call.Transcribe? {
        audioPlaying := false;
      }
    }

    method SetAudioPlaying(playing: bool)
      requires Valid()
      modifies this
      ensures Valid()
      ensures Snapshot() == Step(old(Snapshot()), Playback(playing))
    {
      audioPlaying := playing;
    }

    method HandleAgainClick()
      requires Valid()
      modifies this
      ensures Valid()
      ensures Snapshot() == Step(old(Snapshot()), Again)
    {
      if audioPlaying || translating {
        return;
      }
      response := !response;
    }
  }
}
