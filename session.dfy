/** The student's exam session on the exam page (src/app/exam/page.tsx): the
    steps login, verification, exam selection, taking the exam and finished;
    the answers and the compose text; the countdown; the recorder. Each
    handler of the page is one method, run as one atomic update of the
    session. The collaborators (document store, microphone, transcription and
    edit services) are parameters. */
module ExamSessions {
  import opened Optional
  import opened JsStrings
  import QuestionText
  import Transcript

  /** `ExamStep` (line 40). */
  datatype Step = Login | Verification | SelectExam | TakingExam | Finished

  /** `verificationStatus`: 'pending', 'success' or 'error'. */
  datatype VerificationStatus = Pending | Succeeded | Failed

  /** A student record as the store returns it. */
  datatype Student = Student(id: string, regNumber: string, name: string, hasImage: bool, hasVoice: bool)

  /** An exam record. `questionText` is read by the page (lines 76 and 196)
      although the declared `Exam` type does not list it. */
  datatype Exam = Exam(id: string, title: string, duration: int, questionText: string)

  /** The record written to the 'responses' collection; the timestamp is left out. */
  datatype Submission = Submission(studentId: string, examId: string, answers: seq<string>)

  /** The document store as one call sees it: not configured (`firestore` is
      null), failing (the request throws), or working, holding these student records. */
  datatype Store = Missing | Failing | Working(students: seq<Student>)

  /** The three edit buttons and the command each sends (lines 554-562). */
  datatype EditCommand = StrikeLastWord | StrikeLastSentence | StartOver {
    function Phrase(): string {
      match this
      case StrikeLastWord => "Strike last word"
      case StrikeLastSentence => "Strike last sentence"
      case StartOver => "Start over"
    }
  }

  predicate BeforeExam(step: Step) {
    step == Login || step == Verification || step == SelectExam
  }

  /** `copy[i] = x` on a copy of a JavaScript array: index `i` becomes `x` and
      every other entry stays; writing one past the end appends. */
  function SetAt(s: seq<string>, i: nat, x: string): (r: seq<string>)
    requires i <= |s|
    ensures |r| == if i < |s| then |s| else |s| + 1
    ensures r[i] == x
    ensures forall j :: 0 <= j < |s| && j != i ==> r[j] == s[j]
  {
    if i < |s| then s[i := x] else s + [x]
  }

  /** `Array(n).fill('')`: `n` empty strings. */
  function Blanks(n: nat): (r: seq<string>)
    ensures |r| == n && forall i :: 0 <= i < n ==> r[i] == []
  {
    if n == 0 then [] else Blanks(n - 1) + [[]]
  }

  /** `(prev ? prev + ' ' : '') + transcription` (line 246): the old text is
      kept as a prefix, a space separates it from the new text when it was not
      empty, and the transcription ends the result. */
  function AppendTranscript(prev: string, transcription: string): (r: string)
    ensures |prev| <= |r| && r[..|prev|] == prev
    ensures prev != [] ==> |prev| < |r| && r[|prev|] == ' '
    ensures |transcription| <= |r| && r[|r| - |transcription|..] == transcription
    ensures |r| == |prev| + |transcription| + (if prev == [] then 0 else 1)
  {
    (if prev == [] then [] else prev + " ") + transcription
  }

  /** The first record of the query `regNumber == key` (lines 137-146):
      none exactly when no record carries the key, otherwise the earliest one. */
  function FindByRegNumber(students: seq<Student>, key: string): (r: Option<Student>)
    ensures r.None? <==> forall i :: 0 <= i < |students| ==> students[i].regNumber != key
    ensures r.Some? ==> (r.value.regNumber == key
      && exists i :: (0 <= i < |students| && students[i] == r.value
           && forall j :: 0 <= j < i ==> students[j].regNumber != key))
  {
    if students == [] then None
    else if students[0].regNumber == key then
      Some(students[0])
    else
      FindByRegNumber(students[1..], key)
  }

  /** No line of `lines` trims to nothing. */
  predicate NoneBlank(lines: seq<string>) {
    forall i :: 0 <= i < |lines| ==> !IsBlank(lines[i])
  }

  class ExamSession {
    var step: Step
    var student: Option<Student>
    var isVerified: bool
    var verificationStatus: VerificationStatus
    var isProcessing: bool
    var isVoiceRecording: bool
    var selectedExam: Option<Exam>
    /** `questions` (lines 75-77), memoised on the selected exam: only
        `StartExam` changes the exam, and it sets this list with it. */
    var questions: seq<string>
    var currentQuestionIndex: nat
    var answers: seq<string>
    /** The compose text: what the answer box shows, not yet committed. */
    var currentAnswer: string
    var timeLeft: int
    var examStarted: bool
    var isRecording: bool
    /** The recorder held by the page is in its 'recording' state. */
    var recorderActive: bool
    /** The step the recorder's `onstop` callback captured when it was set up. */
    var recordingStep: Step
    /** `onstop` has run and the clip's transcription (or check) has not come back. */
    var clipPending: bool
    /** The records the store has accepted from this session. */
    ghost var submitted: seq<Submission>

    /** An answers list fits the questions: one answer per question and the
        index inside the list, or, for an exam without questions, index 0 and
        at most the one answer a write at index 0 adds. */
    ghost predicate AnswersFit(a: seq<string>)
      reads this
    {
      var n := |questions|;
      && (n > 0 ==> |a| == n && currentQuestionIndex < n)
      && (n == 0 ==> currentQuestionIndex == 0 && |a| <= 1)
    }

    /** The session invariant: what the page's steps and enabled controls keep true. */
    ghost predicate Valid()
      reads this
    {
      && NoneBlank(questions)
      && (examStarted ==> step == TakingExam)
      && (step != Login ==> student.Some?)
      && (step != Login && step != Verification ==> isVerified)
      && (BeforeExam(step) ==>
            && selectedExam.None? && questions == [] && answers == []
            && currentQuestionIndex == 0 && currentAnswer == [])
      && (!BeforeExam(step) ==> selectedExam.Some? && AnswersFit(answers))
      && (clipPending ==> isProcessing && !recorderActive)
      && ((recorderActive || clipPending) && recordingStep != Verification ==> !BeforeExam(step))
      && (step == Finished <==> submitted != [])
      && (step == Finished ==>
            submitted == [Submission(student.value.id, selectedExam.value.id, answers)])
    }

    /** What a submission leaves behind, given the store, the request sent,
        and the exam flag and the accepted records before it. With no store
        nothing is sent and the exam runs on. Otherwise the exam stops and the
        record of the current answers is sent, and the session finishes
        exactly when the store accepts it. */
    ghost predicate SubmitOutcome(store: Store, request: Option<Submission>, wasStarted: bool, before: seq<Submission>)
      reads this
    {
      && (store.Missing? ==>
            request == None && examStarted == wasStarted && step == TakingExam && submitted == before)
      && (!store.Missing? ==>
            && !examStarted && student.Some? && selectedExam.Some?
            && request == Some(Submission(student.value.id, selectedExam.value.id, answers)))
      && (store.Failing? ==> step == TakingExam && submitted == before)
      && (store.Working? ==> step == Finished && submitted == [request.value])
    }

    /** The page as first rendered. */
    constructor ()
      ensures Valid()
      ensures step == Login && student == None && !isVerified && verificationStatus == Pending
      ensures selectedExam == None && questions == [] && answers == [] && currentQuestionIndex == 0 && currentAnswer == []
      ensures timeLeft == 0 && !examStarted
      ensures !isProcessing && !isRecording && !isVoiceRecording && !recorderActive && !clipPending
      ensures submitted == []
    {
      step := Login;
      student := None;
      isVerified := false;
      verificationStatus := Pending;
      isProcessing := false;
      isVoiceRecording := false;
      selectedExam := None;
      questions := [];
      currentQuestionIndex := 0;
      answers := [];
      currentAnswer := [];
      timeLeft := 0;
      examStarted := false;
      isRecording := false;
      recorderActive := false;
      recordingStep := Login;
      clipPending := false;
      submitted := [];
    }

    /** `handleLogin` (lines 129-156) with the registration number typed in.
        A blank number or a missing store changes nothing, nor does a failing
        query; otherwise the student found is held and the session moves to
        verification, or no student is held and the session stays on login. */
    method SignIn(regNumber: string, store: Store)
      requires Valid() && step == Login
      modifies this`student, this`step
      ensures Valid()
      ensures IsBlank(regNumber) || !store.Working? ==> student == old(student) && step == Login
      ensures !IsBlank(regNumber) && store.Working? ==>
        && student == FindByRegNumber(store.students, Trim(regNumber))
        && step == (if student.Some? then Verification else Login)
    {
      TrimEmptyIffBlank(regNumber);
      var key := Trim(regNumber);
      if key == [] || store.Missing? {
        return;
      }
      if store.Failing? {
        return;
      }
      var found := FindByRegNumber(store.students, key);
      if found.None? {
        student := None;
      } else {
        student := found;
        step := Verification;
      }
    }

    /** `handleStartVerification` (lines 158-176) once its simulated delay has
        passed: verified exactly when a student is held, and otherwise the
        mismatch path. */
    method StartVerification()
      requires Valid() && !isProcessing
      modifies this`isVerified, this`isProcessing, this`verificationStatus
      ensures Valid() && !isProcessing
      ensures isVerified <==> student.Some?
      ensures verificationStatus == if student.Some? then Succeeded else Failed
    {
      if student.Some? {
        isVerified := true;
        isProcessing := false;
        verificationStatus := Succeeded;
      } else {
        SimulateMismatch();
      }
    }

    /** `handleSimulateMismatch` (lines 178-191) once its delay has passed. */
    method SimulateMismatch()
      requires Valid() && !isProcessing && (step == Login || step == Verification)
      modifies this`isVerified, this`isProcessing, this`verificationStatus
      ensures Valid() && !isVerified && !isProcessing && verificationStatus == Failed
    {
      isVerified := false;
      isProcessing := false;
      verificationStatus := Failed;
    }

    /** The "Proceed to Exam Selection" button, shown only once verified (lines 473-476). */
    method ProceedToExamSelection()
      requires Valid() && step == Verification && isVerified
      modifies this`step
      ensures Valid() && step == SelectExam
    {
      step := SelectExam;
    }

    /** The "Back to Login" button of the verification step (line 470). */
    method BackToLogin()
      requires Valid() && step == Verification
      modifies this`step, this`student, this`isVerified, this`verificationStatus
      ensures Valid()
      ensures step == Login && student == None && !isVerified && verificationStatus == Pending
    {
      step := Login;
      student := None;
      isVerified := false;
      verificationStatus := Pending;
    }

    /** `handleStartExam` (lines 193-199): selects the exam, starts the
        countdown at its duration in seconds and sizes the answers to its
        question count, all empty. */
    method StartExam(exam: Exam)
      requires Valid() && step == SelectExam
      modifies this`selectedExam, this`questions, this`timeLeft, this`answers, this`step, this`examStarted
      ensures Valid()
      ensures selectedExam == Some(exam)
      ensures questions == QuestionText.QuestionList(exam.questionText)
      ensures step == TakingExam && examStarted
      ensures timeLeft == exam.duration * 60
      ensures |answers| == |questions| && forall i :: 0 <= i < |answers| ==> answers[i] == []
      ensures currentQuestionIndex == 0 && currentAnswer == []
    {
      ghost var text := exam.questionText;
      var list := QuestionText.QuestionList(exam.questionText);
      var blank := Blanks(|list|);
      QuestionText.QuestionListLines(exam.questionText);
      selectedExam := Some(exam);
      questions := list;
      assert questions == QuestionText.QuestionList(text);
      timeLeft := exam.duration * 60;
      answers := blank;
      step := TakingExam;
      examStarted := true;
      assert Valid();
    }

    /** The text `handleReadQuestion` (lines 201-214) speaks: the current
        question when an exam is selected and the question is not empty. In a
        valid session a question is always read while the index is inside the
        list, since no question is blank. */
    function QuestionToRead(): (r: Option<string>)
      reads this
      ensures r.Some? ==>
        selectedExam.Some? && currentQuestionIndex < |questions| && r.value == questions[currentQuestionIndex]
      ensures Valid() && selectedExam.Some? && currentQuestionIndex < |questions| ==> r.Some?
    {
      if selectedExam.None? then None
      else if currentQuestionIndex < |questions| && questions[currentQuestionIndex] != [] then
        Some(questions[currentQuestionIndex])
      else None
    }

    /** `startRecording` (lines 216-277) as evidently intended: a no-op while
        the recorder records or when the microphone is refused; otherwise the
        recorder starts and the flag of the current step is raised. */
    method StartRecording(micGranted: bool)
      requires Valid() && !isProcessing && (step == Verification || step == TakingExam)
      modifies this`recorderActive, this`recordingStep, this`isVoiceRecording, this`isRecording
      ensures Valid()
      ensures old(recorderActive) || !micGranted ==>
        && recorderActive == old(recorderActive) && recordingStep == old(recordingStep)
        && isVoiceRecording == old(isVoiceRecording) && isRecording == old(isRecording)
      ensures !old(recorderActive) && micGranted ==>
        && recorderActive && recordingStep == step
        && isVoiceRecording == (step == Verification || old(isVoiceRecording))
        && isRecording == (step != Verification || old(isRecording))
    {
      if recorderActive {
        return;
      }
      if !micGranted {
        return;
      }
      recorderActive := true;
      recordingStep := step;
      if step == Verification {
        isVoiceRecording := true;
      } else {
        isRecording := true;
      }
    }

    /** `startRecording` as written: after the recorder has started, line 264
        reads `isVerificationStep`, which is declared only inside the `onstop`
        callback (line 231); the reference throws, the catch reports a
        microphone error, and neither recording flag is raised. */
    method StartRecordingAsWritten(micGranted: bool)
      requires Valid() && !isProcessing && (step == Verification || step == TakingExam)
      modifies this`recorderActive, this`recordingStep
      ensures Valid()
      ensures recorderActive == (old(recorderActive) || micGranted)
      ensures !old(recorderActive) && micGranted ==> recordingStep == step
      ensures old(recorderActive) || !micGranted ==> recordingStep == old(recordingStep)
    {
      if recorderActive {
        return;
      }
      if !micGranted {
        return;
      }
      recorderActive := true;
      recordingStep := step;
    }

    /** `stopRecording` (lines 279-288) followed by the start of the recorder's
        `onstop` callback: with no active recorder nothing changes; otherwise
        the recorder stops, the current step's flag drops, and the clip goes
        to processing. */
    method StopRecording()
      requires Valid() && !isProcessing
      modifies this`recorderActive, this`isVoiceRecording, this`isRecording, this`isProcessing, this`clipPending
      ensures Valid()
      ensures !old(recorderActive) ==> unchanged(this)
      ensures old(recorderActive) ==>
        && !recorderActive && isProcessing && clipPending
        && isVoiceRecording == (old(isVoiceRecording) && step != Verification)
        && isRecording == (old(isRecording) && step == Verification)
    {
      if !recorderActive {
        return;
      }
      recorderActive := false;
      if step == Verification {
        isVoiceRecording := false;
      } else {
        isRecording := false;
      }
      isProcessing := true;
      clipPending := true;
    }

    /** The flag the microphone button of the current step shows: the voice
        check's in verification (line 460), the answer's otherwise (line 569). */
    function RecordingShown(): bool
      reads this
    {
      if step == Verification then isVoiceRecording else isRecording
    }

    /** A press of the microphone button (lines 460 and 569): stop while its
        flag is up, start otherwise, through the corrected `StartRecording`.
        A stop on a running recorder sends the clip off to the consumer chosen
        when recording began; a start on an idle recorder with the microphone
        granted raises the flag; every other press changes nothing. The flag
        of the other step is never touched. */
    method PressMicrophone(micGranted: bool)
      requires Valid() && !isProcessing && (step == Verification || step == TakingExam)
      modifies this`recorderActive, this`recordingStep, this`isVoiceRecording, this`isRecording,
        this`isProcessing, this`clipPending
      ensures Valid()
      ensures old(RecordingShown()) && old(recorderActive) ==>
        !recorderActive && clipPending && !RecordingShown() && recordingStep == old(recordingStep)
      ensures !old(RecordingShown()) && !old(recorderActive) && micGranted ==>
        recorderActive && RecordingShown() && recordingStep == step && !isProcessing && !clipPending
      ensures step == Verification ==> isRecording == old(isRecording)
      ensures step != Verification ==> isVoiceRecording == old(isVoiceRecording)
      ensures old(RecordingShown()) && !old(recorderActive) ==> unchanged(this)
      ensures !old(RecordingShown()) && (old(recorderActive) || !micGranted) ==> unchanged(this)
    {
      if RecordingShown() {
        StopRecording();
      } else {
        StartRecording(micGranted);
      }
    }

    /** The rest of the `onstop` callback (lines 230-261), once the clip's
        result is back: a clip recorded during verification runs the simulated
        check; any other clip appends its transcription, when there is one, to
        the compose text, and a failed transcription leaves the text as it was.
        Either way processing ends. */
    method ReceiveClip(transcription: Option<string>)
      requires Valid() && clipPending
      modifies this`currentAnswer, this`isProcessing, this`clipPending, this`isVerified, this`verificationStatus
      ensures Valid() && !isProcessing && !clipPending
      ensures recordingStep == Verification ==>
        && currentAnswer == old(currentAnswer)
        && (isVerified <==> student.Some?)
        && verificationStatus == (if student.Some? then Succeeded else Failed)
      ensures recordingStep != Verification ==>
        && currentAnswer == (if transcription.Some? then AppendTranscript(old(currentAnswer), transcription.value)
                             else old(currentAnswer))
        && isVerified == old(isVerified) && verificationStatus == old(verificationStatus)
    {
      if recordingStep == Verification {
        isProcessing := false;
        clipPending := false;
        StartVerification();
      } else {
        if transcription.Some? {
          currentAnswer := AppendTranscript(currentAnswer, transcription.value);
        }
        isProcessing := false;
        clipPending := false;
      }
    }

    /** `handleVoiceEdit` (lines 290-312), with the edit service as a
        function: a compose text that trims to nothing is left alone and the
        service is not called; otherwise the service's text replaces the
        compose text, and a failed call leaves it as it was. */
    method VoiceEdit(command: EditCommand, edit: (string, string) -> Option<string>) returns (called: bool)
      requires Valid() && !isProcessing
      modifies this`currentAnswer, this`isProcessing
      ensures Valid() && !isProcessing
      ensures called <==> !IsBlank(old(currentAnswer))
      ensures currentAnswer ==
        if called then edit(old(currentAnswer), command.Phrase()).GetOr(old(currentAnswer))
        else old(currentAnswer)
    {
      TrimEmptyIffBlank(currentAnswer);
      if Trim(currentAnswer) == [] {
        return false;
      }
      isProcessing := true;
      var result := edit(currentAnswer, command.Phrase());
      if result.Some? {
        currentAnswer := result.value;
      }
      isProcessing := false;
      called := true;
    }

    /** Typing in the answer box (line 547). */
    method EditText(text: string)
      requires Valid() && step == TakingExam
      modifies this`currentAnswer
      ensures Valid() && currentAnswer == text
    {
      currentAnswer := text;
    }

    /** `handleFinishExam(finalAnswers)` (lines 328-358), run from a render
        whose compose text was `composed`. A missing store, student or exam
        changes nothing. Otherwise a non-empty compose text is written at the
        current index, the countdown stops, and the record is sent; the
        session finishes only when the store accepts it. */
    method FinishExam(finalAnswers: seq<string>, composed: string, store: Store) returns (request: Option<Submission>)
      requires Valid() && step == TakingExam && AnswersFit(finalAnswers)
      modifies this`answers, this`examStarted, this`step, this`submitted
      ensures Valid()
      ensures SubmitOutcome(store, request, old(examStarted), old(submitted))
      ensures store.Missing? ==> answers == old(answers)
      ensures !store.Missing? ==>
        answers == if composed != [] then SetAt(finalAnswers, currentQuestionIndex, composed) else finalAnswers
      ensures !store.Missing? && currentQuestionIndex < |finalAnswers| ==> |answers| == |finalAnswers|
    {
      if store.Missing? || student.None? || selectedExam.None? {
        return None;
      }
      var newAnswers := finalAnswers;
      if composed != [] {
        newAnswers := SetAt(finalAnswers, currentQuestionIndex, composed);
      }
      answers := newAnswers;
      examStarted := false;
      request := Some(Submission(student.value.id, selectedExam.value.id, newAnswers));
      if store.Working? {
        submitted := submitted + [request.value];
        step := Finished;
      }
    }

    /** `handleNextQuestion` (lines 314-326) as evidently intended: the
        compose text is committed at the current index and only there; before
        the last question the index moves on by one and the next question's
        committed answer is loaded; on the last question the answers are
        submitted, and the compose text stays so that a retry after a failed
        write commits it again. */
    method NextQuestion(store: Store) returns (request: Option<Submission>)
      requires Valid() && step == TakingExam
      modifies this`answers, this`currentAnswer, this`currentQuestionIndex, this`examStarted, this`step, this`submitted
      ensures Valid()
      ensures old(currentQuestionIndex) + 1 < |questions| ==>
        && answers == SetAt(old(answers), old(currentQuestionIndex), old(currentAnswer))
        && currentQuestionIndex == old(currentQuestionIndex) + 1
        && currentAnswer == old(answers)[currentQuestionIndex]
        && request == None && step == TakingExam && examStarted == old(examStarted)
        && submitted == old(submitted)
      ensures old(currentQuestionIndex) + 1 >= |questions| ==>
        && answers == SetAt(old(answers), old(currentQuestionIndex), old(currentAnswer))
        && currentQuestionIndex == old(currentQuestionIndex)
        && currentAnswer == old(currentAnswer) == answers[currentQuestionIndex]
        && SubmitOutcome(store, request, old(examStarted), old(submitted))
    {
      var i := currentQuestionIndex;
      var composed := currentAnswer;
      var newAnswers := SetAt(answers, i, composed);
      var previous := answers;
      answers := newAnswers;
      if i < |questions| - 1 {
        currentQuestionIndex := i + 1;
        currentAnswer := if i + 1 < |previous| then previous[i + 1] else [];
        request := None;
      } else {
        request := FinishExam(newAnswers, composed, store);
      }
    }

    /** `handleNextQuestion` as written: line 319 clears the compose text
        before the last question is submitted, so after a failed write the
        next press commits the empty text over the final answer (line 316). */
    method NextQuestionAsWritten(store: Store) returns (request: Option<Submission>)
      requires Valid() && step == TakingExam
      modifies this`answers, this`currentAnswer, this`currentQuestionIndex, this`examStarted, this`step, this`submitted
      ensures Valid()
      ensures old(currentQuestionIndex) + 1 < |questions| ==>
        && answers == SetAt(old(answers), old(currentQuestionIndex), old(currentAnswer))
        && currentQuestionIndex == old(currentQuestionIndex) + 1
        && currentAnswer == old(answers)[currentQuestionIndex]
        && request == None && step == TakingExam && examStarted == old(examStarted)
        && submitted == old(submitted)
      ensures old(currentQuestionIndex) + 1 >= |questions| ==>
        && answers == SetAt(old(answers), old(currentQuestionIndex), old(currentAnswer))
        && currentQuestionIndex == old(currentQuestionIndex)
        && currentAnswer == []
        && SubmitOutcome(store, request, old(examStarted), old(submitted))
    {
      var i := currentQuestionIndex;
      var composed := currentAnswer;
      var newAnswers := SetAt(answers, i, composed);
      var previous := answers;
      answers := newAnswers;
      currentAnswer := [];
      if i < |questions| - 1 {
        currentQuestionIndex := i + 1;
        currentAnswer := if i + 1 < |previous| then previous[i + 1] else [];
        request := None;
      } else {
        request := FinishExam(newAnswers, composed, store);
      }
    }

    /** One run of the timer effect (lines 116-126): while the exam runs with
        time left the countdown drops by exactly one second; at zero it forces
        the finish; at any other time nothing changes. Since a finish with a
        store stops the exam, a later tick neither counts down nor finishes again. */
    method Tick(store: Store) returns (request: Option<Submission>)
      requires Valid()
      modifies this`timeLeft, this`answers, this`examStarted, this`step, this`submitted
      ensures Valid()
      ensures old(examStarted) && old(timeLeft) > 0 ==>
        && timeLeft == old(timeLeft) - 1 && request == None
        && answers == old(answers) && examStarted && step == old(step) && submitted == old(submitted)
      ensures old(examStarted) && old(timeLeft) == 0 ==>
        && timeLeft == 0
        && (store.Missing? ==> request == None && unchanged(this))
        && (!store.Missing? ==>
              answers == if currentAnswer != [] then SetAt(old(answers), currentQuestionIndex, currentAnswer)
                         else old(answers))
        && SubmitOutcome(store, request, old(examStarted), old(submitted))
      ensures !old(examStarted) || old(timeLeft) < 0 ==> request == None && unchanged(this)
    {
      if examStarted && step == TakingExam && timeLeft > 0 {
        timeLeft := timeLeft - 1;
        request := None;
      } else if timeLeft == 0 && examStarted {
        request := FinishExam(answers, currentAnswer, store);
      } else {
        request := None;
      }
    }

    /** `handleDownloadAnswers` (lines 360-371), with the clock's reading as
        `date`: without an exam or a student there is nothing to download;
        otherwise the header followed by one block per question, in order. */
    method DownloadAnswers(date: string) returns (content: Option<string>)
      ensures content.None? <==> selectedExam.None? || student.None?
      ensures content.Some? ==>
        content.value
        == Transcript.Header(selectedExam.value.title, student.value.name, student.value.regNumber, date)
           + Transcript.Body(questions, answers, |questions|)
    {
      if selectedExam.None? || student.None? {
        return None;
      }
      var body: string := [];
      var index := 0;
      while index < |questions|
        invariant 0 <= index <= |questions|
        invariant body == Transcript.Body(questions, answers, index)
      {
        body := body + Transcript.Block(questions[index], index, answers);
        index := index + 1;
      }
      var text := Transcript.Header(selectedExam.value.title, student.value.name, student.value.regNumber, date) + body;
      content := Some(text);
    }
  }

  /** The countdown at zero with a store present: the first tick finishes the
      exam and stops it, so a second tick sends nothing and leaves the
      countdown at zero. */
  method FinishAtMostOnce(s: ExamSession, store: Store) returns (first: Option<Submission>, second: Option<Submission>)
    requires s.Valid() && s.examStarted && s.timeLeft == 0 && !store.Missing?
    modifies s
    ensures s.Valid() && first.Some? && second == None
    ensures s.timeLeft == 0 && !s.examStarted
  {
    first := s.Tick(store);
    second := s.Tick(store);
  }
}
