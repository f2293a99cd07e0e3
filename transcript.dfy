/** The plain-text copy a student downloads after the exam
    (src/app/exam/page.tsx, lines 360-371): a header, then one block per
    question with the question and the answer given to it. */
module Transcript {
  import opened JsStrings

  const NoAnswer: string := "No answer provided."

  /** `answers[index] || 'No answer provided.'`: a missing or empty answer
      shows the placeholder. */
  function ShownAnswer(answers: seq<string>, index: nat): (r: string)
    ensures r != []
    ensures index < |answers| && answers[index] != [] ==> r == answers[index]
    ensures !(index < |answers| && answers[index] != []) ==> r == NoAnswer
  {
    if index < |answers| && answers[index] != [] then answers[index] else NoAnswer
  }

  /** The three header lines and the blank line after them. */
  function Header(title: string, name: string, regNumber: string, date: string): string {
    "Exam: " + title + "\n"
    + "Student: " + name + " (" + regNumber + ")\n"
    + "Date: " + date + "\n\n"
  }

  /** The block for question number `index + 1`: its heading, then the
      question and the answer shown for it. */
  function Block(question: string, index: nat, answers: seq<string>): string {
    Heading(index) + Entry(question, index, answers)
  }

  /** The heading line of question number `index + 1`. */
  function Heading(index: nat): string {
    "--- Question " + NatToDecimal(index + 1) + " ---\n"
  }

  function Entry(question: string, index: nat, answers: seq<string>): string {
    question + "\n\n"
    + "--- Answer ---\n"
    + ShownAnswer(answers, index) + "\n\n"
  }

  /** The blocks of the first `n` questions, in order. */
  function Body(questions: seq<string>, answers: seq<string>, n: nat): string
    requires n <= |questions|
  {
    if n == 0 then []
    else Body(questions, answers, n - 1) + Block(questions[n - 1], n - 1, answers)
  }

  /** The blocks of fewer questions are a prefix of the blocks of more. */
  lemma {:induction false} BodyPrefix(questions: seq<string>, answers: seq<string>, k: nat, n: nat)
    requires k <= n <= |questions|
    ensures |Body(questions, answers, k)| <= |Body(questions, answers, n)|
    ensures Body(questions, answers, n)[..|Body(questions, answers, k)|] == Body(questions, answers, k)
  {
    if k < n {
      BodyPrefix(questions, answers, k, n - 1);
      var b := Body(questions, answers, n - 1);
      assert Body(questions, answers, n) == b + Block(questions[n - 1], n - 1, answers);
    }
  }

  /** The block of question `k` follows the blocks of the questions before it:
      every question appears, numbered and in order, with its answer. */
  lemma BlockAt(questions: seq<string>, answers: seq<string>, k: nat, n: nat)
    requires k < n <= |questions|
    ensures var lo, hi := |Body(questions, answers, k)|, |Body(questions, answers, k + 1)|;
      lo <= hi <= |Body(questions, answers, n)|
      && Body(questions, answers, n)[lo..hi] == Block(questions[k], k, answers)
  {
    BodyPrefix(questions, answers, k + 1, n);
    var whole := Body(questions, answers, n);
    var upTo := Body(questions, answers, k + 1);
    assert upTo == Body(questions, answers, k) + Block(questions[k], k, answers);
    assert whole[..|upTo|] == upTo;
    assert whole[|Body(questions, answers, k)|..|upTo|] == upTo[|Body(questions, answers, k)|..];
  }

  /** The heading carries the decimal number right after its 13-character opening. */
  lemma HeadingDigits(index: nat)
    ensures var digits := NatToDecimal(index + 1);
      |Heading(index)| >= 13 + |digits| && Heading(index)[13..13 + |digits|] == digits
  {
    assert |"--- Question "| == 13;
  }

  /** The number written in a block's heading reads back as the question's
      position counted from one. */
  lemma BlockNumber(question: string, index: nat, answers: seq<string>)
    ensures var b := Block(question, index, answers);
      var digits := NatToDecimal(index + 1);
      |b| >= 13 + |digits|
      && b[13..13 + |digits|] == digits
      && DecimalValue(b[13..13 + |digits|]) == index + 1
  {
    DecimalRoundTrip(index + 1);
    HeadingDigits(index);
    var digits := NatToDecimal(index + 1);
    var h := Heading(index);
    var b := Block(question, index, answers);
    assert b[..|h|] == h;
    assert b[13..13 + |digits|] == h[13..13 + |digits|];
  }
}
