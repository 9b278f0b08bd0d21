# roadman-talk: the input component, in Dafny

This project models the logic in `components/Input.tsx` of roadman-talk. That component is a small
browser widget. It takes typed text or a recorded clip, has the clip transcribed, sends the text
to a completion service for a "roadman" rendering, has that rendering spoken, and plays the result.
It has two pieces of logic worth modelling.

1. **The hex audio-payload decoder**, the byte-building half of `convertResponseAudio`. The speech
   service answers with a hex string. `match(/.{1,2}/g)` cuts it into groups of two characters,
   and `parseInt(group, 16)` reads each group into a `Uint8Array`. This is base-16 decoding in the
   sense of section 8 of RFC 4648, but lenient: letters of either case are read, a lone trailing
   character becomes a byte of its own, and no input is ever rejected.
2. **The interaction flags**: `transcription`, `translation`, `translateType`, `translating`,
   `audioPlaying`, `response`, `audioFile` and whether `responseAudio` is set. Six things drive
   them: the form handler, the mode selector, the effect that transcribes a new clip, the effect
   that runs the generation/speech cycle when `transcription` changes, the guarded "again" button,
   and the response view, which is handed `setAudioPlaying`.

Files:

- `js_builtins.dfy` (module `JsBuiltins`) models the JavaScript primitives the component relies
  on. It covers white space and line terminators, `trimEnd`, and `parseInt` with radix 16: leading
  white space, a sign, a `0x` prefix, the longest run of hex digits, and NaN. It also covers how a
  `Uint8Array` stores a number: NaN becomes 0, and any other integer is taken modulo 256.
- `audio_hex.dfy` (module `AudioHex`) holds the regex chunking (`Groups`) and the decoder
  (`DecodeHex`). It adds an independent case-by-case reading of one group (`GroupByte`) and the
  lowercase encoder (`EncodeLowerHex`) as the decoder's partner, with the round trips between them.
- `input_flow.dfy` (module `InputFlow`) models the component's state twice:
  - the pure value `Flags`, with one transition function per event (`FormSubmitted`,
    `ModeSelected`, `AudioRecorded`, `Settled`, `PlaybackSet`, `AgainClicked`, and the helpers `TranscriptionSet`
    and `CycleStarted`), plus `Step` and `Run` over event sequences;
  - the class `Input`, whose fields are the state variables. Its methods change them in the
    source's order, one method per handler or resumed `await`. Each event handler is proved to
    produce exactly the new state that `Step` gives, and to keep the invariant `Inv`. The helpers
    `GenerateRoadman`, `SetTranscription` and `ConvertResponseAudio` are proved to reach
    `CycleStarted`, `TranscriptionSet` and a change of `responseAudio` alone.

Every remote call that has been sent and not yet answered sits in `inFlight`. An answer is an
event that names the call it settles: `TranscriptionOk(text)`, `CompletionOk(translation,
phonetic)`, `SpeechOk(hex)` or `Failure`. The code has no guard against a second cycle starting
while the first is in flight, so the model allows several pending calls. `SecondCycleOverlaps`
shows such an overlap.

`setTranscription` is modelled with React's bail-out. Setting the value it already has changes
nothing and does not re-run the generation effect. So submitting the same text twice does not
start a second cycle.

Three behaviours of the code are worth stating outright, because a reader might expect otherwise:

- The decoder has no error result. The `'Invalid byte array'` check at `components/Input.tsx:70`
  can never fire, because a `Uint8Array` is always truthy. A group with no hex digit after
  optional leading white space and one sign is stored as 0 (`NoLeadingDigitIsZero`).
- No handler checks for a running cycle. The form and the recorder are hidden while `response` is
  up, and every cycle raises it. But a transcription still pending when a cycle starts will, if
  its text is new and non-empty, start a second cycle when it arrives (`SecondCycleOverlaps`).
- When a completion or speech call fails before the first setter after its `await`, only
  `audioPlaying` is reset (`components/Input.tsx:137`). A failed transcription resets nothing
  (`FailureEffect`). A completion that fails that way leaves `translating` raised, so the "again"
  button stays a no-op (`StuckAfterFailedCompletion`).

## Model

| member | source | states |
|---|---|---|
| `JsBuiltins.TrimEnd` | components/Input.tsx:96 | `trimEnd` gives a prefix of the input that is empty or ends in a non-white-space character, and everything it removed is white space or a line terminator |
| `JsBuiltins.TrimStart` | components/Input.tsx:67 | the leading strip of `parseInt` gives a suffix that is empty or starts with a non-white-space character, and everything removed before it is white space |
| `JsBuiltins.DigitValue` | components/Input.tsx:67 | a hex digit of either case has a value below 16, and the value is below 10 exactly for the decimal digits |
| `JsBuiltins.LeadingHexDigits` | components/Input.tsx:67 | `parseInt` reads the longest prefix made only of hex digits, stopping at the first non-digit |
| `JsBuiltins.HexValue` | components/Input.tsx:67 | one digit denotes its own value; two digits denote 16 times the first plus the second |
| `JsBuiltins.ToUint8` | components/Input.tsx:66-67 | storing into a `Uint8Array` turns NaN into 0 and any integer into the byte congruent to it modulo 256, keeping values in 0..255 unchanged |
| `JsBuiltins.ParseInt16` | components/Input.tsx:67 | `parseInt(group, 16)`: its reading of every group of one or two characters is stated case by case by `ParseDigit`, `ParseDigitPair`, `ParseSigned`, `ParsePadded`, `ParseOther` and `ParseLone`, and summed up by `GroupByteIsParse` |
| `AudioHex.Groups` | components/Input.tsx:65 | `match(/.{1,2}/g)` yields at most as many groups as the input has characters, each one or two characters long |
| `AudioHex.GroupsCoverInput` | components/Input.tsx:65 | concatenated, the groups are exactly the input with its line terminators removed; nothing else is lost or added |
| `AudioHex.GroupsAreUnbroken` | components/Input.tsx:65 | no group contains a line terminator |
| `AudioHex.GroupsOfUnbroken` | components/Input.tsx:65 | without line terminators, the groups are the consecutive pairs s[2i..2i+2] from the left, plus a lone last character when the length is odd; an input of n characters gives ceil(n/2) groups |
| `AudioHex.DecodeHex` | components/Input.tsx:64-68 | decoding never fails; it gives one byte per group, no more bytes than input characters, and the empty array for the empty string (a null match becomes `[]`) |
| `AudioHex.ParseDigitPair` | components/Input.tsx:67 | `parseInt` of two hex digits is 16·d0 + d1; a digit followed by a non-digit reads the digit alone, except that "0x" and "0X" are a stripped prefix and read NaN |
| `AudioHex.ParseSigned` | components/Input.tsx:67 | a sign before a hex digit gives the digit's value, negated for '-'; a sign before anything else gives NaN |
| `AudioHex.ParseDigit` | components/Input.tsx:67 | a single hex digit reads as its value |
| `AudioHex.ParseLone` | components/Input.tsx:67 | a single character that is not a hex digit reads NaN |
| `AudioHex.ParsePadded` | components/Input.tsx:67 | leading white space in a group is skipped |
| `AudioHex.ParseOther` | components/Input.tsx:67 | a group starting with a character that is not a digit, white space or a sign reads NaN |
| `AudioHex.GroupByteIsParse` | components/Input.tsx:66-67 | `parseInt(group, 16)` stored into a `Uint8Array` equals the independent case-by-case reading `GroupByte`, for every group of one or two characters |
| `AudioHex.GroupByte` | components/Input.tsx:66-67 | the independent case table for one group: two digits; a digit followed by a non-digit, read alone; white space or '+' before a digit; '-' before a digit, wrapped modulo 256; anything else reads 0; `GroupByteIsParse` proves it equal to `parseInt` then the `Uint8Array` store |
| `AudioHex.DecodeHexAt` | components/Input.tsx:65-67 | byte i of the output is group i read by `GroupByte` |
| `AudioHex.DecodeHexLength` | components/Input.tsx:65-68 | without line terminators an input of n characters gives ceil(n/2) bytes |
| `AudioHex.DecodeHexDigits` | components/Input.tsx:65-67 | for hex digits of either case, byte i = 16·digit(s[2i]) + digit(s[2i+1]), and an odd length leaves the last digit as the last byte |
| `AudioHex.NonNumericGroupIsZero` | components/Input.tsx:66-70 | a group that starts with neither a digit, white space nor a sign reads NaN, which is stored as 0; no error is raised |
| `AudioHex.NoLeadingDigitIsZero` | components/Input.tsx:66-70 | a group in which no hex digit follows the optional leading white space and one sign is stored as 0; no error is raised |
| `AudioHex.LowerHexDigit` | components/Input.tsx:65-67 | the encoder's digit for a value below 16 is a non-capital hex digit with exactly that value |
| `AudioHex.EncodeLowerHex` | components/Input.tsx:65-67 | the partner encoder writes byte i as two lowercase digits at positions 2i and 2i+1, the high nibble first |
| `AudioHex.EncodeLowerHexDigits` | components/Input.tsx:65-67 | the encoder writes only hex digits |
| `AudioHex.DecodeEncodeLowerHex` | components/Input.tsx:65-67 | decoding the lowercase hex encoding of any byte sequence gives back that sequence |
| `AudioHex.LowerHexChar` | components/Input.tsx:67 | folding a hex digit to lower case keeps its value |
| `AudioHex.DigitFold` | components/Input.tsx:67 | re-encoding a digit's value gives the digit folded to lower case |
| `AudioHex.ByteOfDigits` | components/Input.tsx:65-67 | the byte that two digits denote re-encodes as those two digits in lower case |
| `AudioHex.EncodeOfPairs` | components/Input.tsx:65-67 | bytes read pairwise off a string of hex digits encode back to that string in lower case |
| `AudioHex.EncodeDecodeHex` | components/Input.tsx:65-67 | for an even-length string of hex digits, re-encoding what it decodes to gives the string folded to lower case: only the letter case is lost |
| `AudioHex.ExampleEmpty` | components/Input.tsx:65-68 | "" decodes to the empty array |
| `AudioHex.ExampleOk` | components/Input.tsx:65-67 | "4f4b" decodes to [0x4F, 0x4B] |
| `AudioHex.ExampleMixedCase` | components/Input.tsx:65-67 | "4F4b" decodes to [0x4F, 0x4B] |
| `AudioHex.ExampleLeadingZero` | components/Input.tsx:65-67 | "0aff" decodes to [0x0A, 0xFF] |
| `AudioHex.ExampleOdd` | components/Input.tsx:65-67 | "abc" decodes to [0xAB, 0x0C] |
| `InputFlow.CycleStarted` | components/Input.tsx:80-98 | the start of `generateRoadman`; `CycleStartEffect` states each flag it sets and the request it sends, and `CycleStartedKeepsInv` that it keeps the invariant |
| `InputFlow.TranscriptionSet` | components/Input.tsx:31 | `setTranscription` with React's same-value bail-out, followed by the effect at :78-142; `FormSubmitEffect` states when it starts a cycle |
| `InputFlow.FormSubmitted` | components/Input.tsx:27-32 | `handleFormSubmit`; `FormSubmitEffect` and `CycleStartEffect` state its effect |
| `InputFlow.ModeSelected` | components/Input.tsx:190-192 | the selector's `onChange`; `Input.SetTranslateType` reaches it and keeps the invariant |
| `InputFlow.AudioRecorded` | components/Input.tsx:34-45 | a new clip and the transcription request the effect sends; `AudioRecordedEffect` states its effect |
| `InputFlow.PlaybackSet` | components/Input.tsx:162 | the response view's call of `setAudioPlaying`; `PlaybackEffect` states its effect |
| `InputFlow.Settled` | components/Input.tsx:53-57 | the code after each `await` (:53-57, :105-124, :130-138); `TranscriptionOkEffect`, `CompletionOkEffect`, `SpeechOkEffect` and `FailureEffect` state its effect per outcome, and `SettledKeepsInv` that it keeps the invariant |
| `InputFlow.AgainClicked` | components/Input.tsx:144-150 | `handleAgainClick`; `AgainClickEffect` states its effect |
| `InputFlow.Step` | components/Input.tsx:27-192 | one event of any kind; `StepKeepsInv` and `RequestsFollowTheirTrigger` hold for every event |
| `InputFlow.Run` | components/Input.tsx:27-192 | a sequence of events; `RunKeepsInv`, `ReachableInv` and `TranslatingSticks` hold over every run |
| `InputFlow.FormSubmitEffect` | components/Input.tsx:27-32 | empty text changes nothing; other text becomes `transcription`, and requests are sent exactly when it differs from the current transcription |
| `InputFlow.CycleStartEffect` | components/Input.tsx:80-98 | a new non-empty transcription raises `translating` and `response`, clears `translation` and `responseAudio`, and sends `transcription.trimEnd()` with the current mode; `audioPlaying` and the mode are untouched |
| `InputFlow.TranscriptionOkEffect` | components/Input.tsx:53-55 | a successful transcript becomes `transcription`; non-empty text then acts exactly as a form submission of it, while an empty transcript clears `transcription` and sends nothing |
| `InputFlow.CompletionOkEffect` | components/Input.tsx:105-124 | a successful completion lowers `translating`, shows the returned text, raises `audioPlaying`, and sends the returned phonetic text to speech; nothing else changes |
| `InputFlow.SpeechOkEffect` | components/Input.tsx:130-134 | successful speech lowers `audioPlaying` and sets `responseAudio` to the decoded payload; nothing else changes |
| `InputFlow.FailureEffect` | components/Input.tsx:101-138 | on any failure the settled call is removed and only `audioPlaying` changes, to false, and only for a call of the generation cycle; a failed transcription changes no flag |
| `InputFlow.AudioRecordedEffect` | components/Input.tsx:34-45 | a new clip is stored and its transcription request is sent; nothing else changes |
| `InputFlow.PlaybackEffect` | components/Input.tsx:144-162 | the response view changes `audioPlaying` and nothing else; with `translating` down, the "again" click is a no-op exactly while `audioPlaying` is up |
| `InputFlow.AgainClickEffect` | components/Input.tsx:144-150 | while `audioPlaying` or `translating` the click changes nothing; otherwise it negates `response` and nothing else, so two clicks cancel |
| `InputFlow.InitialInv` | components/Input.tsx:13-25 | the initial state satisfies the invariant |
| `InputFlow.CycleStartedKeepsInv` | components/Input.tsx:84-98 | the cycle's start raises `translating` only together with `response`, and sends no transcription request |
| `InputFlow.SettledKeepsInv` | components/Input.tsx:53-138 | settling any call keeps the invariant |
| `InputFlow.StepKeepsInv` | components/Input.tsx:84-149 | every event keeps the invariant: `translating` implies `response`, and a transcription request exists only once a clip was recorded |
| `InputFlow.RunKeepsInv` | components/Input.tsx:84-149 | every sequence of events keeps the invariant |
| `InputFlow.ReachableInv` | components/Input.tsx:13-149 | every state reachable from the initial one satisfies the invariant |
| `InputFlow.TranslatingSticks` | components/Input.tsx:101-148 | once `translating` is up, any run without a successful completion leaves it up, and the "again" click stays a no-op |
| `InputFlow.StuckAfterFailedCompletion` | components/Input.tsx:84-103 | a cycle whose completion request fails leaves `translating` and `response` up with no audio, and from then on, until some completion succeeds, the "again" click never does anything |
| `InputFlow.SecondCycleOverlaps` | components/Input.tsx:34-99 | nothing guards a running cycle: after recording a clip and submitting "a", a transcript "b" sends a second completion request while the first is still pending |
| `InputFlow.RequestIsTrimmed` | components/Input.tsx:95-98 | submitting "hello \n" in Ask mode sends exactly the request ("hello", Ask) |
| `InputFlow.EndToEnd` | components/Input.tsx:78-142 | "how far" in Translate mode sends ("how far", Translate); answering "wagwan"/"wag-one" shows "wagwan" and sends "wag-one" for speech; answering "4f4b" sets the audio to [0x4F, 0x4B] |
| `InputFlow.RequestsFollowTheirTrigger` | components/Input.tsx:78-134 | a speech request is sent only by a successful completion and carries its phonetic text; a completion request is sent only by a submission or transcription that has just changed `transcription` to non-empty text |
| `InputFlow.Input.constructor` | components/Input.tsx:13-25 | the component starts in the `useState` initial values, which satisfy the invariant |
| `InputFlow.Input.GenerateRoadman` | components/Input.tsx:79-99 | the part of `generateRoadman` before its first `await` sets the fields in the source's order and reaches `CycleStarted` |
| `InputFlow.Input.SetTranscription` | components/Input.tsx:31 | setting a different transcription re-runs `generateRoadman`; setting the same one changes nothing |
| `InputFlow.Input.HandleFormSubmit` | components/Input.tsx:27-32 | the handler reaches exactly `Step` on `Submit(text)` and keeps the invariant |
| `InputFlow.Input.SetTranslateType` | components/Input.tsx:190-192 | choosing a mode changes only `translateType` |
| `InputFlow.Input.SetAudioFile` | components/Input.tsx:34-45 | a new clip is stored and its transcription request is sent |
| `InputFlow.Input.OnTranscriptionOk` | components/Input.tsx:53-55 | the transcript becomes `transcription`, through `SetTranscription` |
| `InputFlow.Input.OnCompletionOk` | components/Input.tsx:105-124 | the fields change in the source's order and reach `Step` on `CompletionOk` |
| `InputFlow.Input.ConvertResponseAudio` | components/Input.tsx:64-75 | `responseAudio` becomes the decoded bytes and nothing else changes |
| `InputFlow.Input.OnSpeechOk` | components/Input.tsx:130-134 | `audioPlaying` is lowered, then the payload is converted |
| `InputFlow.Input.OnFailure` | components/Input.tsx:135-138 | the `catch` blocks: only `audioPlaying` is reset, and only in the generation cycle |
| `InputFlow.Input.SetAudioPlaying` | components/Input.tsx:162 | the setter handed to the response view reaches exactly `Step` on `Playback` and keeps the invariant |
| `InputFlow.Input.HandleAgainClick` | components/Input.tsx:144-150 | the guard and the toggle reach exactly `Step` on `Again` |

## Left out

- The `fetch` calls, `FormData`, JSON parsing and HTTP status checks are network I/O. Their
  results are the `Outcome` events. `Failure` stands for every path into a `catch` before the
  first setter after the `await`.
- A completion answer whose body is JSON `null` lowers `translating` at
  `components/Input.tsx:107` and then throws at :109. The `catch` then lowers `audioPlaying`, so
  both flags end down and the "again" button works again. The model has no outcome for this case;
  `TranslatingSticks` and `StuckAfterFailedCompletion` speak only of failures before :107.
- A speech answer whose `responseAudio` is not a string makes `match` throw inside the `try`. The
  model does not have that case. Its end state is the same as `Failure`: `audioPlaying` is already
  false, and `responseAudio` keeps its value.
- `Blob`, `URL.createObjectURL` and `new Audio` are browser media APIs. `responseAudio` holds the
  decoded bytes, which stand for the audio element built from them.
- JSX rendering, the icons and the `selectFocused` chevron toggle are UI only. For the same reason,
  the handlers carry no precondition for when the UI shows them. The form and the selector are
  shown only while `response` is false. The "again" button is shown only while `response` is true
  and `responseAudio` is set.
- React scheduling is simplified. An effect is modelled as running straight after the setter that
  changed its dependency. Each answer to a remote call is one atomic event.
- `console.error` and `console.log` output is left out.
- Strings are sequences of Unicode characters. JavaScript strings and the `.` of a regex without
  the `u` flag work on UTF-16 code units, so a character outside the Basic Multilingual Plane would
  be split there. The model does not split it.
- JsBuiltins.ParseInt16: numbers are exact integers, not IEEE doubles. Rounding only starts beyond
  2^53, which a group of one or two characters never reaches.
- The `ResponseBox` component (imported at `components/Input.tsx:5`) is not part of this model.
  When it calls `setAudioPlaying` is not known here, so the `Playback` event may set either
  value at any time.
- `components/Description.tsx` is left out. It plays a fixed sample clip behind a single re-entry
  flag, so it is UI and media code.
