/** The JavaScript string operations the exam page relies on: `trim`,
    `split` on one character, `join`, `String(n)` and `padStart`.
    Strings are Dafny strings (sequences of characters). */
module JsStrings {

  /** The characters `String.prototype.trim` removes: ECMAScript WhiteSpace
      (tab, vertical tab, form feed, space, no-break space, byte-order mark and
      the Unicode space separators) and LineTerminator (LF, CR, LS, PS). */
  predicate IsJsWhitespace(c: char) {
    var k := c as int;
    || k == 0x09 || k == 0x0A || k == 0x0B || k == 0x0C || k == 0x0D
    || k == 0x20 || k == 0xA0 || k == 0x1680
    || (0x2000 <= k && k <= 0x200A)
    || k == 0x2028 || k == 0x2029 || k == 0x202F || k == 0x205F
    || k == 0x3000 || k == 0xFEFF
  }

  /** Nothing but whitespace: what `s.trim() === ''` tests (`TrimEmptyIffBlank`). */
  predicate IsBlank(s: string) {
    forall i :: 0 <= i < |s| ==> IsJsWhitespace(s[i])
  }

  /** `s.trimStart()`: drops the leading whitespace. */
  function TrimStart(s: string): string {
    if s != [] && IsJsWhitespace(s[0]) then TrimStart(s[1..]) else s
  }

  /** `s.trimEnd()`: drops the trailing whitespace. */
  function TrimEnd(s: string): string {
    if s != [] && IsJsWhitespace(s[|s| - 1]) then TrimEnd(s[..|s| - 1]) else s
  }

  /** What `TrimStart` keeps is a suffix of `s` that does not start with
      whitespace, and everything it drops is whitespace. */
  lemma {:induction false} TrimStartSpec(s: string)
    ensures var r := TrimStart(s);
      && |r| <= |s| && r == s[|s| - |r|..]
      && IsBlank(s[..|s| - |r|])
      && (r == [] || !IsJsWhitespace(r[0]))
  {
    if s != [] && IsJsWhitespace(s[0]) {
      TrimStartSpec(s[1..]);
      var r := TrimStart(s[1..]);
      assert s[1..][..|s| - 1 - |r|] == s[1..|s| - |r|];
      assert s[..|s| - |r|] == [s[0]] + s[1..|s| - |r|];
    }
  }

  /** What `TrimEnd` keeps is a prefix of `s` that does not end with
      whitespace, and everything it drops is whitespace. */
  lemma {:induction false} TrimEndSpec(s: string)
    ensures var r := TrimEnd(s);
      && |r| <= |s| && r == s[..|r|]
      && IsBlank(s[|r|..])
      && (r == [] || !IsJsWhitespace(r[|r| - 1]))
  {
    if s != [] && IsJsWhitespace(s[|s| - 1]) {
      TrimEndSpec(s[..|s| - 1]);
      var r := TrimEnd(s[..|s| - 1]);
      assert s[..|s| - 1][|r|..] + [s[|s| - 1]] == s[|r|..];
    }
  }

  /** `s.trim()` */
  function Trim(s: string): string {
    TrimEnd(TrimStart(s))
  }

  /** A string of whitespace only trims to nothing from the start. */
  lemma {:induction false} TrimStartBlank(s: string)
    requires IsBlank(s)
    ensures TrimStart(s) == []
  {
    if s != [] {
      TrimStartBlank(s[1..]);
    }
  }

  /** A string trims to nothing exactly when every character of it is whitespace. */
  lemma TrimEmptyIffBlank(s: string)
    ensures Trim(s) == [] <==> IsBlank(s)
  {
    TrimStartSpec(s);
    var t := TrimStart(s);
    assert s == s[..|s| - |t|] + t;
    if Trim(s) == [] {
      TrimEndSpec(t);
      assert IsBlank(t[|TrimEnd(t)|..]);
    }
    if IsBlank(s) {
      TrimStartBlank(s);
    }
  }

  /** `s.split(sep)` for a one-character separator: the pieces between the
      separators, in order, with an empty piece where two separators touch or
      where `s` starts or ends with one. */
  function Split(s: string, sep: char): (r: seq<string>)
    ensures |r| >= 1
  {
    if s == [] then [[]]
    else
      var rest := Split(s[1..], sep);
      if s[0] == sep then [[]] + rest
      else [[s[0]] + rest[0]] + rest[1..]
  }

  /** No piece of a split holds the separator. */
  lemma {:induction false} SplitPiecesFree(s: string, sep: char)
    ensures forall i :: 0 <= i < |Split(s, sep)| ==> sep !in Split(s, sep)[i]
  {
    if s != [] {
      SplitPiecesFree(s[1..], sep);
    }
  }

  /** `pieces.join(sep)` */
  function Join(pieces: seq<string>, sep: char): string {
    if |pieces| == 0 then []
    else if |pieces| == 1 then pieces[0]
    else pieces[0] + [sep] + Join(pieces[1..], sep)
  }

  /** Joining the pieces of a split with the same separator gives the string back. */
  lemma {:induction false} JoinSplit(s: string, sep: char)
    ensures Join(Split(s, sep), sep) == s
  {
    if s != [] {
      JoinSplit(s[1..], sep);
      var rest := Split(s[1..], sep);
      if s[0] == sep {
        assert Split(s, sep) == [[]] + rest;
        assert Join([[]] + rest, sep) == [] + [sep] + Join(rest, sep);
      } else if |rest| == 1 {
        assert Split(s, sep) == [[s[0]] + rest[0]];
      } else {
        var r := Split(s, sep);
        assert r == [[s[0]] + rest[0]] + rest[1..];
        assert r[1..] == rest[1..];
        assert Join(rest, sep) == rest[0] + [sep] + Join(rest[1..], sep);
      }
    }
  }

  /** A string free of the separator splits into itself alone. */
  lemma {:induction false} SplitWithoutSeparator(p: string, sep: char)
    requires sep !in p
    ensures Split(p, sep) == [p]
  {
    if p != [] {
      SplitWithoutSeparator(p[1..], sep);
      assert [p[0]] + p[1..] == p;
    }
  }

  /** A separator-free piece followed by the separator splits off as one piece. */
  lemma {:induction false} SplitAfterPiece(p: string, sep: char, t: string)
    requires sep !in p
    ensures Split(p + [sep] + t, sep) == [p] + Split(t, sep)
  {
    var s := p + [sep] + t;
    if p == [] {
      assert s[1..] == t;
    } else {
      assert s[1..] == p[1..] + [sep] + t;
      SplitAfterPiece(p[1..], sep, t);
      assert [p[0]] + p[1..] == p;
    }
  }

  /** Splitting undoes joining when no piece holds the separator: `split` is
      the one decomposition of a string into separator-free pieces. */
  lemma {:induction false} SplitJoin(pieces: seq<string>, sep: char)
    requires |pieces| >= 1
    requires forall i :: 0 <= i < |pieces| ==> sep !in pieces[i]
    ensures Split(Join(pieces, sep), sep) == pieces
  {
    if |pieces| == 1 {
      SplitWithoutSeparator(pieces[0], sep);
    } else {
      SplitJoin(pieces[1..], sep);
      SplitAfterPiece(pieces[0], sep, Join(pieces[1..], sep));
    }
  }

  predicate IsDigit(c: char) {
    '0' <= c <= '9'
  }

  predicate AllDigits(s: string) {
    forall i :: 0 <= i < |s| ==> IsDigit(s[i])
  }

  function DigitChar(d: nat): (c: char)
    requires d < 10
    ensures IsDigit(c)
  {
    (48 + d) as char
  }

  function DigitValue(c: char): nat
    requires IsDigit(c)
  {
    c as int - 48
  }

  /** `String(n)` for a non-negative integer: its decimal digits, most
      significant first, with no leading zero unless `n` is zero. */
  function NatToDecimal(n: nat): (r: string)
    ensures |r| >= 1 && AllDigits(r)
    ensures r[0] == '0' <==> n == 0
    ensures n < 10 <==> |r| == 1
    ensures n < 100 ==> |r| <= 2
  {
    if n < 10 then [DigitChar(n)]
    else NatToDecimal(n / 10) + [DigitChar(n % 10)]
  }

  /** The number a string of decimal digits denotes. */
  function DecimalValue(s: string): nat
    requires AllDigits(s)
  {
    if s == [] then 0
    else 10 * DecimalValue(s[..|s| - 1]) + DigitValue(s[|s| - 1])
  }

  /** Reading back the decimal form of `n` gives `n`. */
  lemma {:induction false} DecimalRoundTrip(n: nat)
    ensures DecimalValue(NatToDecimal(n)) == n
  {
    if n >= 10 {
      DecimalRoundTrip(n / 10);
      var r := NatToDecimal(n);
      assert r[..|r| - 1] == NatToDecimal(n / 10);
    }
  }

  /** A leading zero does not change the number a digit string denotes. */
  lemma {:induction false} LeadingZero(s: string)
    requires AllDigits(s)
    ensures AllDigits("0" + s) && DecimalValue("0" + s) == DecimalValue(s)
  {
    if s != [] {
      var z := "0" + s;
      assert z[..|z| - 1] == "0" + s[..|s| - 1];
      LeadingZero(s[..|s| - 1]);
    }
  }

  /** `String(n)` for any integer: a minus sign before the digits of `-n` when
      negative. Either way the digits read back as the magnitude of `n`. */
  function IntToString(n: int): (r: string)
    ensures n >= 0 ==> AllDigits(r) && DecimalValue(r) == n && (|r| == 1 <==> n < 10)
    ensures n < 0 ==> |r| >= 2 && r[0] == '-' && AllDigits(r[1..]) && DecimalValue(r[1..]) == -n
  {
    if n < 0 then
      DecimalRoundTrip(-n);
      "-" + NatToDecimal(-n)
    else
      DecimalRoundTrip(n);
      NatToDecimal(n)
  }

  /** `s.padStart(width, fill)`: `s` itself when already that wide, otherwise
      `s` preceded by as many `fill` characters as bring it to `width`. */
  function PadStart(s: string, width: nat, fill: char): (r: string)
    ensures |r| == if |s| >= width then |s| else width
    ensures r[|r| - |s|..] == s
    ensures forall i :: 0 <= i < |r| - |s| ==> r[i] == fill
  {
    if |s| >= width then s else seq(width - |s|, _ => fill) + s
  }
}
