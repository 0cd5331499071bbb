/**
 * The time of day a date picker returns, as far as the schedule editor uses
 * it: `moment(date).format("HH:mm")` keeps only the hour and the minute and
 * prints each as two zero-padded digits.
 */
module TimeOfDay {
  import opened JsStrings
  import Validators

  type Hour = h: int | 0 <= h < 24
  type Minute = m: int | 0 <= m < 60

  /** The hour and minute of a picked `Date` in local time. */
  datatype Clock = Clock(hour: Hour, minute: Minute)

  /** `n` zero-padded to two digits, as moment prints `HH` and `mm`. */
  function TwoDigits(n: int): (s: string)
    requires 0 <= n < 100
    ensures |s| == 2 && IsAsciiDigit(s[0]) && IsAsciiDigit(s[1])
    ensures DecimalValue(s) == n
    ensures 10 * DigitValue(s[0]) + DigitValue(s[1]) == n
  {
    var s := [DigitChar(n / 10), DigitChar(n % 10)];
    var p := s[..1];
    assert p[..0] == [];
    assert DecimalValue(p) == DigitValue(s[0]) == n / 10;
    assert DecimalValue(s) == 10 * DecimalValue(p) + DigitValue(s[1]);
    s
  }

  /** `moment(t).format("HH:mm")` */
  function FormatHHmm(c: Clock): (r: string)
    ensures |r| == 5 && r[2] == ':'
    ensures IsAsciiDigit(r[0]) && IsAsciiDigit(r[1]) && IsAsciiDigit(r[3]) && IsAsciiDigit(r[4])
    ensures 10 * DigitValue(r[0]) + DigitValue(r[1]) == c.hour
    ensures 10 * DigitValue(r[3]) + DigitValue(r[4]) == c.minute
  {
    TwoDigits(c.hour) + ":" + TwoDigits(c.minute)
  }

  /** The `H:mm` spelling a one-digit hour may also have in stored text. */
  function FormatHmm(c: Clock): string
    requires c.hour < 10
  {
    [DigitChar(c.hour)] + ":" + TwoDigits(c.minute)
  }

  /** The clock a text accepted by validateTime names. */
  function ClockOf(s: string): Clock
    requires Validators.ValidateTime(s)
  {
    if |s| == 4 then
      Clock(DigitValue(s[0]), 10 * DigitValue(s[2]) + DigitValue(s[3]))
    else
      Clock(10 * DigitValue(s[0]) + DigitValue(s[1]), 10 * DigitValue(s[3]) + DigitValue(s[4]))
  }

  /** Every time the editor writes is accepted by validateTime. */
  lemma FormattedTimeIsValid(c: Clock)
    ensures Validators.ValidateTime(FormatHHmm(c))
  {
    var s := FormatHHmm(c);
    assert s[0] == DigitChar(c.hour / 10) && s[1] == DigitChar(c.hour % 10);
    assert s[3] == DigitChar(c.minute / 10);
    assert c.hour / 10 == 2 ==> c.hour % 10 <= 3;
  }

  /** Reading a formatted time back gives the clock it was formatted from. */
  lemma ClockOfFormat(c: Clock)
    ensures Validators.ValidateTime(FormatHHmm(c))
    ensures ClockOf(FormatHHmm(c)) == c
  {
    FormattedTimeIsValid(c);
    var s := FormatHHmm(c);
    assert DigitValue(s[0]) == c.hour / 10 && DigitValue(s[1]) == c.hour % 10;
    assert DigitValue(s[3]) == c.minute / 10 && DigitValue(s[4]) == c.minute % 10;
  }

  /** Two different clocks never format to the same text. */
  lemma FormatInjective(c: Clock, d: Clock)
    requires FormatHHmm(c) == FormatHHmm(d)
    ensures c == d
  {
    ClockOfFormat(c);
    ClockOfFormat(d);
  }

  lemma LongTimeIsFormatted(s: string)
    requires Validators.ValidateTime(s) && |s| == 5
    ensures s == FormatHHmm(ClockOf(s))
  {
    assert s == [s[0], s[1]] + ":" + [s[3], s[4]];
  }

  lemma ShortTimeIsFormatted(s: string)
    requires Validators.ValidateTime(s) && |s| == 4
    ensures ClockOf(s).hour < 10 && s == FormatHmm(ClockOf(s))
  {
    assert s == [s[0]] + ":" + [s[2], s[3]];
  }

  /** A text validateTime accepts is the `HH:mm` or the `H:mm` spelling of the clock it names. */
  lemma ValidTimeIsFormatted(s: string)
    requires Validators.ValidateTime(s)
    ensures |s| == 5 ==> s == FormatHHmm(ClockOf(s))
    ensures |s| == 4 ==> ClockOf(s).hour < 10 && s == FormatHmm(ClockOf(s))
  {
    if |s| == 4 {
      ShortTimeIsFormatted(s);
    } else {
      LongTimeIsFormatted(s);
    }
  }

  /** The `H:mm` spelling of a morning time passes validateTime too. */
  lemma ShortFormIsValid(c: Clock)
    requires c.hour < 10
    ensures Validators.ValidateTime(FormatHmm(c))
  {
    var s := FormatHmm(c);
    assert s[2] == DigitChar(c.minute / 10);
  }

  /**
   * validateTime accepts exactly the texts that are the `HH:mm` or, for an
   * hour below ten, the `H:mm` spelling of some time of day.
   */
  lemma ValidTimeIffFormatted(s: string)
    ensures Validators.ValidateTime(s) <==>
              || (exists c: Clock :: s == FormatHHmm(c))
              || (exists c: Clock :: c.hour < 10 && s == FormatHmm(c))
  {
    if Validators.ValidateTime(s) {
      ValidTimeIsFormatted(s);
    }
    if exists c: Clock :: s == FormatHHmm(c) {
      var c: Clock :| s == FormatHHmm(c);
      FormattedTimeIsValid(c);
    }
    if exists c: Clock :: c.hour < 10 && s == FormatHmm(c) {
      var c: Clock :| c.hour < 10 && s == FormatHmm(c);
      ShortFormIsValid(c);
    }
  }
}
