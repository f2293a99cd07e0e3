/** The countdown display: `formatTime` renders a number of seconds as
    minutes and seconds, each padded to two digits (src/app/exam/page.tsx,
    lines 382-386). */
module Clock {
  import opened Optional
  import opened JsStrings

  /** JavaScript's `a % 60`: the remainder takes the sign of `a` (Dafny's own
      `%` never returns a negative number). */
  function JsRem60(a: int): (r: int)
    ensures a >= 0 ==> 0 <= r < 60
    ensures a < 0 ==> -60 < r <= 0
    ensures (a - r) % 60 == 0
  {
    if a >= 0 then a % 60 else -((-a) % 60)
  }

  /** `formatTime(seconds)`. `Math.floor(seconds / 60)` is Dafny's `seconds / 60`:
      for a positive divisor Dafny's division rounds down, as `floor` does. */
  function FormatTime(seconds: int): string {
    ClockText(seconds / 60, JsRem60(seconds))
  }

  /** The template literal of `formatTime`: both fields padded to two characters. */
  function ClockText(mins: int, secs: int): string {
    PadStart(IntToString(mins), 2, '0') + ":" + PadStart(IntToString(secs), 2, '0')
  }

  /** Reads a clock display `mm:ss` (any number of minute digits, exactly two
      second digits) back into seconds. */
  function ParseClock(t: string): Option<int> {
    if |t| >= 4 && t[|t| - 3] == ':' && AllDigits(t[..|t| - 3]) && AllDigits(t[|t| - 2..])
    then Some(DecimalValue(t[..|t| - 3]) * 60 + DecimalValue(t[|t| - 2..]))
    else None
  }

  /** Two-digit padding of a decimal keeps the number it denotes. */
  lemma PadKeepsValue(n: nat)
    ensures var p := PadStart(NatToDecimal(n), 2, '0');
      AllDigits(p) && DecimalValue(p) == n && |p| >= 2 && (n < 100 ==> |p| == 2)
  {
    var d := NatToDecimal(n);
    DecimalRoundTrip(n);
    if |d| < 2 {
      assert PadStart(d, 2, '0') == "0" + d;
      LeadingZero(d);
    }
  }

  /** `t` is a clock display of `m` minutes and `sc` seconds: a minutes
      field of at least two digits denoting `m`, a colon, and a seconds field
      of exactly two digits denoting `sc`. */
  predicate ShowsClock(t: string, m: nat, sc: nat) {
    && |t| >= 5 && t[|t| - 3] == ':'
    && AllDigits(t[..|t| - 3]) && DecimalValue(t[..|t| - 3]) == m
    && AllDigits(t[|t| - 2..]) && DecimalValue(t[|t| - 2..]) == sc
  }

  /** Two digit strings joined by a colon show the numbers they denote. */
  lemma ColonFields(t: string, mm: string, ss: string, m: nat, sc: nat)
    requires t == mm + ":" + ss
    requires |mm| >= 2 && |ss| == 2 && AllDigits(mm) && AllDigits(ss)
    requires DecimalValue(mm) == m && DecimalValue(ss) == sc
    ensures ShowsClock(t, m, sc)
  {
    assert t[..|t| - 3] == mm;
    assert t[|t| - 2..] == ss;
  }

  /** For non-negative fields `String(n)` is the decimal of `n`. */
  lemma ClockTextNat(m: nat, sc: nat)
    ensures ClockText(m, sc)
      == PadStart(NatToDecimal(m), 2, '0') + ":" + PadStart(NatToDecimal(sc), 2, '0')
  {
    assert IntToString(m) == NatToDecimal(m);
    assert IntToString(sc) == NatToDecimal(sc);
  }

  /** The template of `formatTime` shows non-negative fields, the seconds below 100. */
  lemma ClockTextFields(m: nat, sc: nat)
    requires sc < 100
    ensures ShowsClock(ClockText(m, sc), m, sc)
  {
    var mm := PadStart(NatToDecimal(m), 2, '0');
    var ss := PadStart(NatToDecimal(sc), 2, '0');
    var t := ClockText(m, sc);
    ClockTextNat(m, sc);
    PadKeepsValue(m);
    PadKeepsValue(sc);
    ColonFields(t, mm, ss, m, sc);
  }

  /** For a non-negative count the display shows `seconds / 60` minutes and
      `seconds % 60` seconds, the seconds below 60. */
  lemma FormatTimeFields(seconds: int)
    requires seconds >= 0
    ensures ShowsClock(FormatTime(seconds), seconds / 60, seconds % 60)
    ensures seconds % 60 < 60 && (seconds / 60) * 60 + seconds % 60 == seconds
  {
    var m: nat, sc: nat := seconds / 60, seconds % 60;
    assert FormatTime(seconds) == ClockText(m, sc);
    ClockTextFields(m, sc);
  }

  /** Reading the display back gives the number of seconds displayed. */
  lemma FormatTimeRoundTrip(seconds: int)
    requires seconds >= 0
    ensures ParseClock(FormatTime(seconds)) == Some(seconds)
  {
    var m: nat, sc: nat := seconds / 60, seconds % 60;
    FormatTimeFields(seconds);
    ParseShown(FormatTime(seconds), m, sc);
    assert m * 60 + sc == seconds;
  }

  /** A clock display parses back to the seconds it shows. */
  lemma ParseShown(t: string, m: nat, sc: nat)
    requires ShowsClock(t, m, sc)
    ensures ParseClock(t) == Some(m * 60 + sc)
  {
  }

  /** Below 100 minutes the display is exactly `MM:SS`, five characters. */
  lemma FormatTimeWidth(seconds: int)
    requires 0 <= seconds < 6000
    ensures |FormatTime(seconds)| == 5
  {
    var m: nat, sc: nat := seconds / 60, seconds % 60;
    assert m < 100 && sc < 100;
    assert FormatTime(seconds) == ClockText(m, sc);
    ClockTextNat(m, sc);
    PadKeepsValue(m);
    PadKeepsValue(sc);
  }

  /** For a negative count the display follows JavaScript: the minutes field
      is `Math.floor` of the division, written with its minus sign and never
      padded, and the seconds field is the remainder with the dividend's sign,
      unpadded unless it is zero. */
  lemma FormatTimeNegative(seconds: int)
    requires seconds < 0
    ensures seconds / 60 <= -1
    ensures FormatTime(seconds) == IntToString(seconds / 60) + ":"
      + (if seconds % 60 == 0 then "00" else IntToString(JsRem60(seconds)))
    ensures seconds % 60 != 0 ==> -60 < JsRem60(seconds) < 0
  {
    var m := IntToString(seconds / 60);
    assert PadStart(m, 2, '0') == m;
    var r := JsRem60(seconds);
    if seconds % 60 == 0 {
      assert r == 0;
      assert IntToString(r) == "0";
    } else {
      assert r != 0;
      assert PadStart(IntToString(r), 2, '0') == IntToString(r);
    }
  }

  /** Within the first minute below zero the minutes show "-1" and the
      seconds show the count itself: -5 seconds shows "-1:-5". */
  lemma FormatTimeLastMinute(seconds: int)
    requires -60 < seconds < 0
    ensures FormatTime(seconds) == "-1:" + IntToString(seconds)
  {
    assert seconds / 60 == -1;
    assert seconds % 60 != 0;
    assert JsRem60(seconds) == seconds;
    FormatTimeNegative(seconds);
    assert NatToDecimal(1) == "1";
    assert IntToString(-1) == "-1";
  }
}
