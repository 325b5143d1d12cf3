/**
 * The timestamp text format `%Y-%m-%d %H:%M:%S`, read as `strptime` reads
 * it and written as `strftime` writes it, restricted to the strict
 * zero-padded form: four year digits, two digits for every other field,
 * '-' and ':' separators and one space between date and time.
 */
module Timestamps {
  import opened Options
  import opened Calendar

  predicate IsDigit(c: char) {
    '0' <= c <= '9'
  }

  predicate AllDigits(s: string) {
    forall i | 0 <= i < |s| :: IsDigit(s[i])
  }

  function Pow10(w: nat): (p: nat)
    ensures p >= 1
  {
    if w == 0 then 1 else 10 * Pow10(w - 1)
  }

  /** The decimal value of a string of ASCII digits, most significant first. */
  function DigitsValue(s: string): (v: nat)
    requires AllDigits(s)
    ensures v < Pow10(|s|)
  {
    if s == [] then 0
    else DigitsValue(s[..|s| - 1]) * 10 + (s[|s| - 1] as int - '0' as int)
  }

  /** `n` written with exactly `width` digits, zero-padded on the left (as `%04d`, `%02d`). */
  function Padded(n: nat, width: nat): (s: string)
    ensures |s| == width && AllDigits(s)
  {
    if width == 0 then []
    else Padded(n / 10, width - 1) + [('0' as int + n % 10) as char]
  }

  /** Reading back a padded number gives the number, when it fits the width. */
  lemma {:induction false} PaddedValue(n: nat, width: nat)
    requires n < Pow10(width)
    ensures DigitsValue(Padded(n, width)) == n
  {
    if width > 0 {
      var s := Padded(n, width);
      assert s[..|s| - 1] == Padded(n / 10, width - 1);
      PaddedValue(n / 10, width - 1);
    }
  }

  /** Every digit string is the padded form of its own value. */
  lemma {:induction false} ValuePadded(s: string)
    requires AllDigits(s)
    ensures Padded(DigitsValue(s), |s|) == s
  {
    if s != [] {
      var init := s[..|s| - 1];
      var d := s[|s| - 1] as int - '0' as int;
      var v := DigitsValue(init) * 10 + d;
      assert v / 10 == DigitsValue(init) && v % 10 == d;
      ValuePadded(init);
      assert s == init + [s[|s| - 1]];
    }
  }

  /** `strftime("%Y-%m-%d")`. */
  function FormatDate(t: DateTime): (s: string)
    ensures |s| == 10 && ' ' !in s
  {
    Padded(t.year, 4) + "-" + Padded(t.month, 2) + "-" + Padded(t.day, 2)
  }

  /** `strftime("%H:%M:%S")`. */
  function FormatTime(t: DateTime): (s: string)
    ensures |s| == 8 && ' ' !in s
  {
    Padded(t.hour, 2) + ":" + Padded(t.minute, 2) + ":" + Padded(t.second, 2)
  }

  /** `strftime("%Y-%m-%d %H:%M:%S")`; it starts with a digit. */
  function FormatTimestamp(t: DateTime): (s: string)
    ensures |s| == 19 && IsDigit(s[0])
  {
    FormatDate(t) + " " + FormatTime(t)
  }

  /** The text has the shape `DDDD-DD-DD DD:DD:DD` with ASCII digits. */
  predicate HasTimestampShape(s: string) {
    |s| == 19 && s[4] == '-' && s[7] == '-' && s[10] == ' ' && s[13] == ':' && s[16] == ':'
    && AllDigits(s[0..4]) && AllDigits(s[5..7]) && AllDigits(s[8..10])
    && AllDigits(s[11..13]) && AllDigits(s[14..16]) && AllDigits(s[17..19])
  }

  /**
   * `datetime.strptime(s, "%Y-%m-%d %H:%M:%S")`: None where Python raises
   * ValueError, i.e. when the text does not have the shape or names a
   * calendar value that does not exist (month 13, February 30 outside a
   * leap year, hour 24, minute or second 60, year 0).
   */
  function ParseTimestamp(s: string): (r: Option<DateTime>)
    ensures r.Some? ==> HasTimestampShape(s) && IsValidDateTime(r.value)
  {
    if HasTimestampShape(s) then
      var t := DateTime(DigitsValue(s[0..4]), DigitsValue(s[5..7]), DigitsValue(s[8..10]),
                        DigitsValue(s[11..13]), DigitsValue(s[14..16]), DigitsValue(s[17..19]));
      if IsValidDateTime(t) then Some(t) else None
    else None
  }

  /** Formatting a timestamp and parsing the text gives the timestamp back. */
  lemma ParseFormatted(t: DateTime)
    requires IsValidDateTime(t)
    ensures ParseTimestamp(FormatTimestamp(t)) == Some(t)
  {
    var s := FormatTimestamp(t);
    assert s[0..4] == Padded(t.year, 4);
    assert s[5..7] == Padded(t.month, 2);
    assert s[8..10] == Padded(t.day, 2);
    assert s[11..13] == Padded(t.hour, 2);
    assert s[14..16] == Padded(t.minute, 2);
    assert s[17..19] == Padded(t.second, 2);
    PaddedValue(t.year, 4);
    PaddedValue(t.month, 2);
    PaddedValue(t.day, 2);
    PaddedValue(t.hour, 2);
    PaddedValue(t.minute, 2);
    PaddedValue(t.second, 2);
  }

  /** Text that parses is exactly the formatting of what it parses to: the strict format has one spelling per timestamp. */
  lemma FormatParsed(s: string)
    requires ParseTimestamp(s).Some?
    ensures FormatTimestamp(ParseTimestamp(s).value) == s
  {
    DateTextParsed(s);
    TimeTextParsed(s);
    assert s == s[0..10] + " " + s[11..19];
  }

  /** The date part of text with the timestamp shape is the padded form of its three numbers. */
  lemma DateTextParsed(s: string)
    requires HasTimestampShape(s)
    ensures Padded(DigitsValue(s[0..4]), 4) + "-" + Padded(DigitsValue(s[5..7]), 2) + "-" + Padded(DigitsValue(s[8..10]), 2)
            == s[0..10]
  {
    ValuePadded(s[0..4]);
    ValuePadded(s[5..7]);
    ValuePadded(s[8..10]);
    assert s[0..10] == s[0..4] + "-" + s[5..7] + "-" + s[8..10];
  }

  /** The time part of text with the timestamp shape is the padded form of its three numbers. */
  lemma TimeTextParsed(s: string)
    requires HasTimestampShape(s)
    ensures Padded(DigitsValue(s[11..13]), 2) + ":" + Padded(DigitsValue(s[14..16]), 2) + ":" + Padded(DigitsValue(s[17..19]), 2)
            == s[11..19]
  {
    ValuePadded(s[11..13]);
    ValuePadded(s[14..16]);
    ValuePadded(s[17..19]);
    assert s[11..19] == s[11..13] + ":" + s[14..16] + ":" + s[17..19];
  }
}
