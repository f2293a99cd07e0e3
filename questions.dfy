/** The exam's question list: its `questionText` split into lines, with the
    lines that trim to nothing dropped (src/app/exam/page.tsx, lines 75-77 and 196). */
module QuestionText {
  import opened JsStrings

  /** `lines.filter(q => q.trim() !== '')` */
  function FilterNonBlank(lines: seq<string>): seq<string> {
    if lines == [] then []
    else
      var rest := FilterNonBlank(lines[1..]);
      if IsBlank(lines[0]) then rest else [lines[0]] + rest
  }

  /** The filter keeps no more lines than it is given, and keeps only
      non-blank lines taken from its input. */
  lemma {:induction false} FilterNonBlankSpec(lines: seq<string>)
    ensures var qs := FilterNonBlank(lines);
      && |qs| <= |lines|
      && (forall i :: 0 <= i < |qs| ==> !IsBlank(qs[i]))
      && (forall i :: 0 <= i < |qs| ==> qs[i] in lines)
  {
    if lines != [] {
      FilterNonBlankSpec(lines[1..]);
    }
  }

  /** How many of the lines hold something other than whitespace. */
  function CountNonBlank(lines: seq<string>): nat {
    if lines == [] then 0
    else CountNonBlank(lines[1..]) + (if IsBlank(lines[0]) then 0 else 1)
  }

  /** The questions of an exam whose question text is `text`. */
  function QuestionList(text: string): seq<string> {
    FilterNonBlank(Split(text, '\n'))
  }

  /** Every question is a non-blank line. */
  lemma QuestionListLines(text: string)
    ensures var qs := QuestionList(text);
      forall i :: 0 <= i < |qs| ==> !IsBlank(qs[i]) && '\n' !in qs[i]
  {
    var lines := Split(text, '\n');
    SplitPiecesFree(text, '\n');
    FilterNonBlankSpec(lines);
  }

  /** The filter keeps one entry per non-blank line and nothing else. */
  lemma {:induction false} FilterLength(lines: seq<string>)
    ensures |FilterNonBlank(lines)| == CountNonBlank(lines)
  {
    if lines != [] {
      FilterLength(lines[1..]);
    }
  }

  /** Counting over a longer prefix never counts fewer lines, and a non-blank
      line between the two prefixes counts one more. */
  lemma {:induction false} CountPrefixGrows(lines: seq<string>, i: nat, j: nat)
    requires i < j <= |lines|
    ensures CountNonBlank(lines[..i]) + (if IsBlank(lines[i]) then 0 else 1) <= CountNonBlank(lines[..j])
  {
    if i == 0 {
      assert lines[..j][1..] == lines[1..j];
      assert lines[..0] == [];
    } else {
      CountPrefixGrows(lines[1..], i - 1, j - 1);
      assert lines[..i][1..] == lines[1..][..i - 1];
      assert lines[..j][1..] == lines[1..][..j - 1];
    }
  }

  /** Each non-blank line lands in the filtered list at its rank among the
      non-blank lines, so the filter keeps every such line, in order. */
  lemma {:induction false} FilterKeepsNonBlank(lines: seq<string>, i: nat)
    requires i < |lines| && !IsBlank(lines[i])
    ensures CountNonBlank(lines[..i]) < |FilterNonBlank(lines)|
    ensures FilterNonBlank(lines)[CountNonBlank(lines[..i])] == lines[i]
  {
    if i == 0 {
      assert lines[..0] == [];
    } else {
      var tail := lines[1..];
      FilterKeepsNonBlank(tail, i - 1);
      var k := CountNonBlank(tail[..i - 1]);
      var extra := if IsBlank(lines[0]) then 0 else 1;
      assert lines[..i][1..] == tail[..i - 1];
      assert CountNonBlank(lines[..i]) == k + extra;
      assert FilterNonBlank(lines) == (if IsBlank(lines[0]) then [] else [lines[0]]) + FilterNonBlank(tail);
    }
  }

  /** Questions keep the order of their lines: a non-blank line above another
      gets the smaller question number. */
  lemma QuestionOrder(lines: seq<string>, i: nat, j: nat)
    requires i < j < |lines| && !IsBlank(lines[i])
    ensures CountNonBlank(lines[..i]) < CountNonBlank(lines[..j])
  {
    CountPrefixGrows(lines, i, j);
  }

  /** Question text written as one non-blank line per question yields exactly
      those questions. */
  lemma {:induction false} QuestionListOfLines(qs: seq<string>)
    requires forall i :: 0 <= i < |qs| ==> !IsBlank(qs[i]) && '\n' !in qs[i]
    ensures QuestionList(Join(qs, '\n')) == qs
  {
    if qs == [] {
      assert Split([], '\n') == [[]];
    } else {
      SplitJoin(qs, '\n');
      FilterAllNonBlank(qs);
    }
  }

  /** The filter leaves a list of non-blank lines as it is. */
  lemma {:induction false} FilterAllNonBlank(lines: seq<string>)
    requires forall i :: 0 <= i < |lines| ==> !IsBlank(lines[i])
    ensures FilterNonBlank(lines) == lines
  {
    if lines != [] {
      FilterAllNonBlank(lines[1..]);
    }
  }
}
