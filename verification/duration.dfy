/** `secondsToMinutesAndSeconds` (recent.js lines 394-398): a game length in
    seconds rendered as `m:ss`. */
module Duration {
  import opened Wrappers
  import opened Text

  /** The two numbers the formatter prints: `Math.floor(sec / 60)` and `sec % 60`.
      For a non-negative length they are the quotient and remainder of sec by 60;
      for a negative length that is not a whole number of minutes the floored
      minutes and the truncated seconds no longer add up to `sec`, they fall a
      minute short. JavaScript's `%` truncates, so the seconds take the sign
      of `sec`, while the minutes are floored. */
  function MinutesAndSeconds(sec: int): (r: (int, int))
    ensures sec >= 0 ==> r.0 >= 0 && r.0 * 60 + r.1 == sec && 0 <= r.1 < 60
    ensures sec < 0 ==> -60 < r.1 <= 0
    ensures sec < 0 && r.1 == 0 ==> r.0 * 60 == sec
    ensures sec < 0 && r.1 != 0 ==> r.0 * 60 + r.1 == sec - 60
  {
    (sec / 60, if sec >= 0 then sec % 60 else -((-sec) % 60))
  }

  /** The template of line 397: minutes, a colon, a `0` when the seconds are
      below ten, then the seconds. */
  function Render(minutes: int, seconds: int): string {
    IntToString(minutes) + ":" + (if seconds < 10 then "0" else "") + IntToString(seconds)
  }

  /** The rendered length. For a non-negative length the seconds are zero-padded
      to exactly two digits, and reading the text back gives the length. */
  function SecondsToMinutesAndSeconds(sec: int): (s: string)
    ensures sec >= 0 ==> s == NatToString(sec / 60) + ":" + [Digit(sec % 60 / 10), Digit(sec % 60 % 10)]
    ensures sec >= 0 ==> ParseDuration(s) == Some(sec)
  {
    var (minutes, seconds) := MinutesAndSeconds(sec);
    if sec >= 0 then
      FormatShape(sec);
      FormatRoundTrip(sec);
      Render(minutes, seconds)
    else Render(minutes, seconds)
  }

  /** An independent reader of the `m:ss` shape: decimal minutes, a colon, then
      exactly two digits below 60. */
  function ParseDuration(s: string): Option<nat> {
    if |s| >= 4 && s[|s| - 3] == ':' && AllDigits(s[..|s| - 3])
       && IsDigit(s[|s| - 2]) && IsDigit(s[|s| - 1])
    then
      var seconds := 10 * DigitValue(s[|s| - 2]) + DigitValue(s[|s| - 1]);
      if seconds < 60 then Some(60 * ParseNat(s[..|s| - 3]) + seconds) else None
    else None
  }

  /** For a non-negative length the seconds are zero-padded to exactly two digits. */
  lemma {:induction false} FormatShape(sec: int)
    requires sec >= 0
    ensures Render(sec / 60, sec % 60)
         == NatToString(sec / 60) + ":" + [Digit(sec % 60 / 10), Digit(sec % 60 % 10)]
  {
    var seconds := sec % 60;
    if seconds < 10 {
      assert IntToString(seconds) == [Digit(seconds)];
      assert seconds / 10 == 0;
      assert "0" == [Digit(0)];
    } else {
      assert NatToString(seconds) == NatToString(seconds / 10) + [Digit(seconds % 10)];
      assert NatToString(seconds / 10) == [Digit(seconds / 10)];
    }
  }

  /** Reading a formatted non-negative length back gives the length: the
      formatter loses nothing. */
  lemma {:induction false} FormatRoundTrip(sec: int)
    requires sec >= 0
    ensures ParseDuration(Render(sec / 60, sec % 60)) == Some(sec)
  {
    FormatShape(sec);
    var m := NatToString(sec / 60);
    var s := Render(sec / 60, sec % 60);
    assert s[..|s| - 3] == m;
    ParseNatToString(sec / 60);
    assert DigitValue(Digit(sec % 60 / 10)) == sec % 60 / 10;
    assert DigitValue(Digit(sec % 60 % 10)) == sec % 60 % 10;
  }

  /** 754 seconds is `12:34`, 65 is `1:05`. */
  lemma FormatExamples()
    ensures SecondsToMinutesAndSeconds(754) == "12:34"
    ensures SecondsToMinutesAndSeconds(65) == "1:05"
  {
    FormatShape(754);
    FormatShape(65);
    assert NatToString(12) == "12";
  }
}
