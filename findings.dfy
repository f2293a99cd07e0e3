/** Two sessions, driven through the page's handlers, that show where the
    exam page as written departs from what it evidently intends. */
module SessionFindings {
  import opened Optional
  import opened JsStrings
  import QuestionText
  import opened ExamSessions

  const Ada: Student := Student("st-1", "S1", "Ada", true, true)
  const Quiz: Exam := Exam("ex-1", "Quiz", 10, "Q1")

  lemma QuizHasOneQuestion()
    ensures QuestionText.QuestionList(Quiz.questionText) == ["Q1"]
  {
    assert "Q1"[0] == 'Q' && !IsJsWhitespace('Q');
    assert !IsBlank("Q1");
    QuestionText.QuestionListOfLines(["Q1"]);
  }

  lemma TrimAdaNumber()
    ensures Trim("S1") == "S1"
  {
    assert !IsJsWhitespace('S') && !IsJsWhitespace('1');
  }

  /** A session signed in as Ada, at the verification step, idle. */
  method AtVerification() returns (s: ExamSession)
    ensures fresh(s) && s.Valid() && s.step == Verification && s.student == Some(Ada)
    ensures !s.isProcessing && !s.recorderActive && !s.clipPending
    ensures !s.isVoiceRecording && !s.isRecording
  {
    s := new ExamSession();
    TrimAdaNumber();
    s.SignIn("S1", Working([Ada]));
  }

  /** A session taking the one-question quiz, nothing answered yet. */
  method InQuiz() returns (s: ExamSession)
    ensures fresh(s) && s.Valid() && s.step == TakingExam && s.examStarted
    ensures s.questions == ["Q1"] && s.answers == [""] && s.currentQuestionIndex == 0
  {
    s := AtVerification();
    s.StartVerification();
    s.ProceedToExamSelection();
    QuizHasOneQuestion();
    s.StartExam(Quiz);
    assert s.answers == [""];
  }

  /** Two presses of the voice-check microphone, the microphone granted. As
      written the first press starts the recorder but leaves the button's flag
      down, so the second press is another start, which the running recorder
      turns into nothing: the recorder is never stopped. As intended the
      second press stops it and the clip goes to the check. */
  method RecorderNeverStops() returns (stuckAsWritten: bool, stopsWhenCorrected: bool)
    ensures stuckAsWritten && stopsWhenCorrected
  {
    var a := AtVerification();
    a.StartRecordingAsWritten(true);
    var flagDown := !a.RecordingShown();
    a.StartRecordingAsWritten(true);
    stuckAsWritten := flagDown && a.recorderActive && !a.RecordingShown() && !a.clipPending;

    var b := AtVerification();
    b.PressMicrophone(true);
    b.PressMicrophone(true);
    stopsWhenCorrected := !b.recorderActive && b.clipPending;
  }

  /** The record accepted when the quiz's one answer "x" is submitted
      through the page's Next button as written, the store failing on the
      first press and accepting on the second. */
  method SubmittedOnRetryAsWritten() returns (answers: seq<string>)
    ensures answers == [""]
  {
    var s := InQuiz();
    s.EditText("x");
    var first := s.NextQuestionAsWritten(Failing);
    var retry := s.NextQuestionAsWritten(Working([]));
    answers := retry.value.answers;
    assert answers == [""];
  }

  /** The same presses with the corrected Next button. */
  method SubmittedOnRetry() returns (answers: seq<string>)
    ensures answers == ["x"]
  {
    var s := InQuiz();
    s.EditText("x");
    var first := s.NextQuestion(Failing);
    var retry := s.NextQuestion(Working([]));
    answers := retry.value.answers;
    assert answers == ["x"];
  }

  /** The last question answered "x", the store failing on the first press of
      Next and accepting on the second. As written the record accepted holds
      an empty answer; as intended it holds "x". */
  method RetryAfterFailedWrite() returns (asWritten: seq<string>, corrected: seq<string>)
    ensures asWritten == [""] && corrected == ["x"]
  {
    asWritten := SubmittedOnRetryAsWritten();
    corrected := SubmittedOnRetry();
  }
}
