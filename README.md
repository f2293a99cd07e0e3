# Exam session model

A Dafny model of the student side of the exam page (`src/app/exam/page.tsx`):
the wizard that takes a student from sign-in through a simulated identity
check and exam selection to answering questions by voice or keyboard under a
countdown, submitting the answers, and downloading a plain-text copy.

The session is the class `ExamSessions.ExamSession`. Its fields are the page's
state variables: the step, the student held, the verification flags, the
selected exam, the answers, the compose text (`currentAnswer`), the
countdown, and the recording flags. It also tracks the recorder and the
records the store has accepted. Each handler is one method that runs
atomically on the current state. Its `modifies` clause names the fields the
handler sets, so the frames show that no other handler touches those fields.
For example, only `StartExam` and `Tick` may change the countdown. The page
memoises the question list on the selected exam; the model keeps it in the
field `questions`, which only `StartExam` sets, together with the exam. The session
invariant `Valid` is kept by every handler. It says the following:

- no question is blank;
- there is one answer per question and the question index stays inside the question list, or, for an exam with no questions, the index is 0 and there is at most one answer (the Next button writes index 0 of the empty list, lines 315-316);
- a student is held after sign-in;
- the exam-selection and later steps are reached only when verified;
- the finished step holds exactly one accepted record, and that record matches the answers.

Collaborators are parameters. The document store is a `Store`: missing,
failing, or working over a list of student records. Microphone access is a
`bool`. A transcription result is an `Option<string>`. The answer-editing
service is a function returning `Option<string>`. The clock's text is a
`string`.

The pure parts are separate modules:

- `JsStrings`: the JavaScript string operations the page relies on. These are `trim` with its whitespace set, `split`, `String(n)` and `padStart`. `IsBlank` (every character is whitespace) is proved to be exactly the test `s.trim() === ''`.
- `QuestionText`: the question list taken from an exam's text.
- `Clock`: `formatTime`.
- `Transcript`: the download text.

Four behaviours of the code are easy to overlook, and the model keeps them:

- the simulated verification succeeds whenever a student is held. The student's photo and voice flags are never read (lines 164-174).
- the finish commits the compose text only when it is non-empty; an empty compose text leaves the answer at the index as it was (lines 336-338).
- the forced finish at zero stops the countdown only when a store is configured. Without one the finish returns early and `examStarted` stays set (lines 329-332).
- an exam whose text has no non-blank line starts with no questions and no answers. Pressing Next then writes index 0 of the empty answers array, which grows it to one entry (lines 315-316), and the finish submits that one answer.

## Model

| member | source | states |
|---|---|---|
| JsStrings.TrimStartSpec | src/app/exam/page.tsx:77 | trimming the front keeps a suffix that does not start with whitespace and drops only whitespace |
| JsStrings.TrimEndSpec | src/app/exam/page.tsx:77 | trimming the end keeps a prefix that does not end with whitespace and drops only whitespace |
| JsStrings.TrimEmptyIffBlank | src/app/exam/page.tsx:77 | a string trims to nothing exactly when every character of it is JavaScript whitespace |
| JsStrings.Split | src/app/exam/page.tsx:77 | `split` yields at least one piece, even for empty text |
| JsStrings.SplitPiecesFree | src/app/exam/page.tsx:77 | no piece of a split contains the separator |
| JsStrings.JoinSplit | src/app/exam/page.tsx:77 | joining the pieces of a split with the separator gives the text back |
| JsStrings.SplitJoin | src/app/exam/page.tsx:77 | splitting a join of separator-free pieces gives the pieces back |
| JsStrings.NatToDecimal | src/app/exam/page.tsx:385 | `String(n)` of a natural number is all digits, with no leading zero except for 0 itself, and is one digit below 10 and at most two below 100 |
| JsStrings.DecimalRoundTrip | src/app/exam/page.tsx:385 | reading back the decimal text of `n` gives `n` |
| JsStrings.IntToString | src/app/exam/page.tsx:385 | `String(n)` reads back as `n`: digits denoting `n` when it is not negative, one digit exactly below 10, and otherwise a minus sign before digits denoting `-n` |
| JsStrings.PadStart | src/app/exam/page.tsx:385 | `padStart` reaches the width, keeps the string as its suffix and fills only the front |
| QuestionText.FilterNonBlankSpec | src/app/exam/page.tsx:77 | the filter keeps no more lines than it is given, every line kept is non-blank and taken from the input |
| QuestionText.QuestionListLines | src/app/exam/page.tsx:75-77 | every question is non-blank and holds no `'\n'` (a `\r` before a line break stays in the question, as in the page) |
| QuestionText.FilterLength | src/app/exam/page.tsx:77 | the question count is exactly the number of non-blank lines, which sizes the answers at exam start |
| QuestionText.FilterKeepsNonBlank | src/app/exam/page.tsx:77 | every non-blank line is kept, at the position given by the non-blank lines before it |
| QuestionText.QuestionOrder | src/app/exam/page.tsx:77 | a non-blank line earlier in the text comes earlier in the question list |
| QuestionText.QuestionListOfLines | src/app/exam/page.tsx:75-77 | non-blank, newline-free questions written one per line are read back unchanged |
| QuestionText.FilterAllNonBlank | src/app/exam/page.tsx:77 | lines that are all non-blank pass the filter unchanged |
| Clock.JsRem60 | src/app/exam/page.tsx:384 | JavaScript's `%` by 60 has the dividend's sign, is below 60 in magnitude and differs from the dividend by a multiple of 60 |
| Clock.FormatTimeFields | src/app/exam/page.tsx:382-386 | for a non-negative count the clock is two or more minute digits, a colon and two second digits, and the fields read back as `s div 60` and `s mod 60`, the seconds below 60 |
| Clock.FormatTimeRoundTrip | src/app/exam/page.tsx:382-386 | reading the clock text back gives the number of seconds shown |
| Clock.FormatTimeWidth | src/app/exam/page.tsx:382-386 | below 100 minutes the display is exactly five characters, `MM:SS` |
| Clock.FormatTimeNegative | src/app/exam/page.tsx:382-386 | for every negative count the minutes field is the signed floor of the division, never padded, and the seconds field is the signed remainder, unpadded unless zero |
| Clock.FormatTimeLastMinute | src/app/exam/page.tsx:382-386 | a count between -59 and -1 shows "-1:" followed by the count itself, so -5 seconds shows "-1:-5" |
| Transcript.ShownAnswer | src/app/exam/page.tsx:370 | a missing or empty answer shows the placeholder and a non-empty one is shown as given |
| Transcript.BodyPrefix | src/app/exam/page.tsx:366-371 | the blocks of fewer questions are a prefix of the blocks of more |
| Transcript.BlockAt | src/app/exam/page.tsx:366-371 | the block of each question, with its answer, sits right after the blocks of the questions before it |
| Transcript.BlockNumber | src/app/exam/page.tsx:367 | each block's heading carries the question's position counted from one |
| ExamSessions.SetAt | src/app/exam/page.tsx:315-316 | writing index `i` of a copied array sets that entry, keeps every other one, and appends when `i` is the length |
| ExamSessions.AppendTranscript | src/app/exam/page.tsx:246 | the old compose text is a prefix of the new one, with a space after it when it was not empty, and the transcription ends it |
| ExamSessions.FindByRegNumber | src/app/exam/page.tsx:137-146 | the lookup is empty exactly when no record has the number, and otherwise yields the first record that has it |
| ExamSessions.Blanks | src/app/exam/page.tsx:196 | `Array(n).fill('')` is `n` entries, all empty |
| ExamSessions.ExamSession.constructor | src/app/exam/page.tsx:43-67 | the page starts on sign-in with nothing held, nothing answered, the countdown at zero and no recording |
| ExamSessions.ExamSession.SignIn | src/app/exam/page.tsx:129-156 | a blank number, a missing store or a failing query changes nothing; otherwise the student found is held and the step moves to verification, or none is held and the step stays on sign-in |
| ExamSessions.ExamSession.StartVerification | src/app/exam/page.tsx:158-176 | verified and 'success' exactly when a student is held, otherwise not verified and 'error'; processing ends |
| ExamSessions.ExamSession.SimulateMismatch | src/app/exam/page.tsx:178-191 | the mismatch path leaves the student unverified with status 'error' and processing over |
| ExamSessions.ExamSession.ProceedToExamSelection | src/app/exam/page.tsx:473-476 | exam selection is reached only from verification once verified |
| ExamSessions.ExamSession.BackToLogin | src/app/exam/page.tsx:470 | going back drops the student and resets verification |
| ExamSessions.ExamSession.StartExam | src/app/exam/page.tsx:193-199 | the exam is selected together with its question list, the countdown is its duration in seconds, there is one empty answer per question, and the exam is running |
| ExamSessions.ExamSession.QuestionToRead | src/app/exam/page.tsx:201-214 | what is read aloud is the current question of the selected exam, and in a valid session a question is always read while the index is inside the list |
| ExamSessions.ExamSession.StartRecording | src/app/exam/page.tsx:216-277 | corrected start: a running recorder or a refused microphone changes nothing; otherwise the recorder runs and the current step's flag is raised |
| ExamSessions.ExamSession.StartRecordingAsWritten | src/app/exam/page.tsx:216-277 | start as written: the recorder runs but neither recording flag is raised |
| ExamSessions.ExamSession.StopRecording | src/app/exam/page.tsx:279-288 | with no running recorder nothing changes; otherwise the recorder stops, the current step's flag drops and the clip goes to processing |
| ExamSessions.ExamSession.PressMicrophone | src/app/exam/page.tsx:569 | the microphone buttons (also line 460) stop a running recording while their flag is up, keeping the step that decides who consumes the clip, and otherwise start one through the corrected `StartRecording` (as written no flag is raised; see Findings); every other press changes nothing, and the other step's flag is never touched |
| ExamSessions.ExamSession.ReceiveClip | src/app/exam/page.tsx:230-261 | a verification clip runs the simulated check; any other clip appends its transcription to the compose text and a failed one leaves it alone; processing ends |
| ExamSessions.ExamSession.VoiceEdit | src/app/exam/page.tsx:290-312 | the service is called exactly when the compose text is not blank; its text replaces the compose text, and a failure leaves the compose text unchanged |
| ExamSessions.ExamSession.EditText | src/app/exam/page.tsx:547 | typing replaces the compose text and keeps the session invariant |
| ExamSessions.ExamSession.FinishExam | src/app/exam/page.tsx:328-358 | a missing store changes nothing; otherwise a non-empty compose text is written at the index, the length is kept, the exam stops and the record is sent; the step becomes finished only when the store accepts it |
| ExamSessions.ExamSession.NextQuestion | src/app/exam/page.tsx:314-326 | corrected: the compose text is written at the index and nowhere else; before the last question the index moves up by one and the next committed answer is loaded; on the last one the answers are submitted and the compose text equals the committed final answer |
| ExamSessions.ExamSession.NextQuestionAsWritten | src/app/exam/page.tsx:314-326 | as written: the same, except that on the last question the compose text is left empty |
| ExamSessions.ExamSession.Tick | src/app/exam/page.tsx:116-126 | a running exam with time left loses exactly one second; at zero the exam is finished with the composed text; at any other time nothing changes |
| ExamSessions.ExamSession.DownloadAnswers | src/app/exam/page.tsx:360-371 | nothing without an exam and a student; otherwise the header followed by one block per question, in order |
| ExamSessions.FinishAtMostOnce | src/app/exam/page.tsx:116-126 | with a store present, the tick at zero finishes once and the next tick neither finishes again nor counts down |
| SessionFindings.RecorderNeverStops | src/app/exam/page.tsx:264 | as written, pressing the voice-check button a second time leaves the recorder running; as intended it stops the recorder and sends the clip |
| SessionFindings.RetryAfterFailedWrite | src/app/exam/page.tsx:319 | as written, a retry after a failed final write submits an empty answer; as intended it submits the answer given |

## Left out

- The admin pages, the landing page and the layout are not part of this model. They are static markup over mock data.
- The hosted-model flows for transcription and answer editing are opaque results (`Option<string>`). The strike and start-over commands exist only as prompt text, so the model does not give them a meaning.
- Store queries and writes are the `Store` parameter. Timestamps, the exam list query and duplicate submissions are not modelled.
- Device plumbing (camera stream, `MediaRecorder` chunks, `FileReader` data URIs, speech synthesis, the download anchor, toasts) is left out. Microphone access is a `bool` parameter.
- `setTimeout` delays, `setInterval` scheduling and React's deferred state updates are not modelled. Each handler is one atomic step, and a clip's round trip is split into `StopRecording` and `ReceiveClip`. The pending status between a verification request and its result is not observable.
- ExamSessions.ExamSession.Tick: the page reruns its timer effect only when the exam flag, the step or the countdown changes. The model lets a caller tick again, so with no store a repeated zero tick retries the finish where the page would not.
- ExamSessions.ExamSession.ReceiveClip: the check scheduled by a verification clip reads the student as of the recording's start. The model reads the student at the time the result arrives. The two differ only when the student goes back to sign-in while the clip is processed.
- `isLoggingIn`, the camera permission effect and the camera gate on the voice-check button are not modelled. The gate only disables the button.
- `progressValue` is floating point and used only for rendering.
- `new Date().toLocaleString()` depends on the clock and the locale, so the download takes the date text as a parameter.
- Exam durations are integers, and below 2^53. A fractional duration would give a fractional countdown; JavaScript numbers lose integer precision above 2^53 and `String(n)` switches to exponent form from 1e21, which `NatToDecimal` and the unbounded countdown do not model.
- Strings are sequences of characters, not UTF-16 code units.
- `questionText` is read by the page but absent from the `Exam` type in `src/lib/types.ts`. It is a field of `Exam` here, always present; a record without it would make `handleStartExam` throw.
- ExamSessions.ExamSession.StartVerification: requires no clip in processing, as the page disables the button while processing.
- ExamSessions.ExamSession.VoiceEdit and ExamSessions.ExamSession.StopRecording: require no clip in processing, as the page disables those controls while processing.

## Findings

| source | as written | input that shows it | evidently intended | confidence | as-written member | corrected member |
|---|---|---|---|---|---|---|
| src/app/exam/page.tsx:264 | `startRecording` reads `isVerificationStep`, which is declared only inside the `onstop` callback (line 231). The read throws after the recorder has started, so no recording flag is raised. | microphone granted, voice-check button pressed twice: the second press calls `startRecording` again, the guard returns, and the recorder never stops | raise `isVoiceRecording` in verification and `isRecording` otherwise, so the next press stops | not executed | SessionFindings.RecorderNeverStops (using ExamSessions.ExamSession.StartRecordingAsWritten) | ExamSessions.ExamSession.StartRecording |
| src/app/exam/page.tsx:319 | on the last question `handleNextQuestion` clears the compose text before finishing | one question answered "x"; the store fails on the first press of Next and accepts the second: the record holds "" | the retry submits "x" | not executed | SessionFindings.RetryAfterFailedWrite (using ExamSessions.ExamSession.NextQuestionAsWritten) | ExamSessions.ExamSession.NextQuestion |
