/** Times of day as the tracker stores them: the "HH:MM" text of a 24-hour
    clock, read as minutes since midnight, and shown in 12-hour form. */
module TimeText {
  import opened Optional

  const MinutesPerHour: nat := 60
  const HoursPerDay: nat := 24
  const MinutesPerDay: nat := 1440

  predicate IsDigit(c: char) {
    '0' <= c <= '9'
  }

  predicate AllDigits(s: string) {
    forall i :: 0 <= i < |s| ==> IsDigit(s[i])
  }

  function DigitValue(c: char): (d: nat)
    requires IsDigit(c)
    ensures d < 10
  {
    c as int - '0' as int
  }

  function Digit(d: nat): (c: char)
    requires d < 10
    ensures IsDigit(c) && DigitValue(c) == d
  {
    ('0' as int + d) as char
  }

  lemma DigitOfValue(c: char)
    requires IsDigit(c)
    ensures Digit(DigitValue(c)) == c
  {
  }

  /** The number two decimal digits spell. */
  function TwoDigitValue(a: char, b: char): (n: nat)
    requires IsDigit(a) && IsDigit(b)
    ensures n < 100
  {
    10 * DigitValue(a) + DigitValue(b)
  }

  /** The number a text of one or two decimal digits spells. */
  function ReadNumber(s: string): (n: nat)
    requires 1 <= |s| <= 2 && AllDigits(s)
    ensures n < 100
  {
    if |s| == 1 then DigitValue(s[0]) else TwoDigitValue(s[0], s[1])
  }

  /** The tens and units of a two-digit number are its two digits. */
  lemma TwoDigitValueDigits(a: char, b: char)
    requires IsDigit(a) && IsDigit(b)
    ensures TwoDigitValue(a, b) / 10 == DigitValue(a) && TwoDigitValue(a, b) % 10 == DigitValue(b)
  {
  }

  /** A well-formed time: two hour digits below 24, a colon, two minute digits below 60. */
  predicate ValidTime(t: string) {
    |t| == 5 && IsDigit(t[0]) && IsDigit(t[1]) && t[2] == ':' && IsDigit(t[3]) && IsDigit(t[4]) &&
    TwoDigitValue(t[0], t[1]) < HoursPerDay && TwoDigitValue(t[3], t[4]) < MinutesPerHour
  }

  /** The text a time input yields: a well-formed 24-hour "HH:MM". */
  type Time = t: string | ValidTime(t) witness "00:00"

  /** The hour: the number before the colon. */
  function Hour(t: Time): (h: nat)
    ensures h < HoursPerDay
  {
    TwoDigitValue(t[0], t[1])
  }

  /** The minute: the number after the colon. */
  function Minute(t: Time): (m: nat)
    ensures m < MinutesPerHour
  {
    TwoDigitValue(t[3], t[4])
  }

  /** Minutes since midnight of a time of day: hours times sixty plus minutes. */
  function ToMinutes(t: Time): (m: nat)
    ensures m < MinutesPerDay
  {
    Hour(t) * MinutesPerHour + Minute(t)
  }

  /** The hour and the minute are recovered from the minute of the day. */
  lemma ToMinutesParts(t: Time)
    ensures ToMinutes(t) / MinutesPerHour == Hour(t) && ToMinutes(t) % MinutesPerHour == Minute(t)
  {
  }

  /** Two-digit, zero-padded decimal text of a number below one hundred. */
  function TwoDigitText(n: nat): (s: string)
    requires n < 100
    ensures |s| == 2 && AllDigits(s) && ReadNumber(s) == n
  {
    [Digit(n / 10), Digit(n % 10)]
  }

  /** The "HH:MM" text of a minute of the day; the inverse of ToMinutes. */
  function FromMinutes(m: nat): (t: Time)
    requires m < MinutesPerDay
  {
    TwoDigitText(m / MinutesPerHour) + ":" + TwoDigitText(m % MinutesPerHour)
  }

  lemma TwoDigitTextOfValue(a: char, b: char)
    requires IsDigit(a) && IsDigit(b)
    ensures TwoDigitText(TwoDigitValue(a, b)) == [a, b]
  {
    TwoDigitValueDigits(a, b);
    DigitOfValue(a);
    DigitOfValue(b);
  }

  lemma FromMinutesToMinutes(m: nat)
    requires m < MinutesPerDay
    ensures ToMinutes(FromMinutes(m)) == m
  {
  }

  lemma ToMinutesFromMinutes(t: Time)
    ensures FromMinutes(ToMinutes(t)) == t
  {
    ToMinutesParts(t);
    TwoDigitTextOfValue(t[0], t[1]);
    TwoDigitTextOfValue(t[3], t[4]);
  }

  /** Two well-formed times that give the same minute of the day are the same text. */
  lemma ToMinutesInjective(s: Time, t: Time)
    ensures ToMinutes(s) == ToMinutes(t) <==> s == t
  {
    if ToMinutes(s) == ToMinutes(t) {
      ToMinutesFromMinutes(s);
      ToMinutesFromMinutes(t);
    }
  }

  /** Text of a clock hour 1..12, without a leading zero, as a JavaScript number prints. */
  function HourText(h: nat): (s: string)
    requires 1 <= h <= 12
    ensures 1 <= |s| <= 2 && AllDigits(s) && ReadNumber(s) == h
    ensures s[0] != '0'
  {
    if h < 10 then [Digit(h)] else TwoDigitText(h)
  }

  /** The hour on a 12-hour clock face: the hour modulo 12, with 0 shown as 12. */
  function DisplayHour(h: nat): (d: nat)
    ensures 1 <= d <= 12
    ensures d % 12 == h % 12
  {
    if h % 12 == 0 then 12 else h % 12
  }

  /** "AM" before noon, "PM" from noon on. */
  function Suffix(h: nat): (s: string)
    ensures |s| == 2 && s[1] == 'M'
    ensures s[0] == 'P' <==> h >= 12
    ensures s[0] == 'A' <==> h < 12
  {
    if h >= 12 then "PM" else "AM"
  }

  /** The 12-hour display of a time, "h:MM AM" or "h:MM PM"; the minutes text is kept as written. */
  function FormatTime(t: Time): (r: string)
    ensures 7 <= |r| <= 8
    ensures r[|r| - 6..|r| - 3] == ":" + t[3..]
  {
    HourText(DisplayHour(Hour(t))) + ":" + t[3..] + " " + Suffix(Hour(t))
  }

  /** The hour of a 24-hour clock that a 12-hour clock hour and its suffix denote. */
  function To24(h12: nat, pm: bool): (h: nat)
    requires 1 <= h12 <= 12
    ensures h < HoursPerDay && (h >= 12 <==> pm) && DisplayHour(h) == h12
  {
    if pm then (if h12 == 12 then 12 else h12 + 12)
    else (if h12 == 12 then 0 else h12)
  }

  /** Reads a 12-hour display back into the "HH:MM" text it came from;
      None for text that is not such a display. */
  function ParseTime12(s: string): (r: Option<Time>)
  {
    if !(7 <= |s| <= 8) then None
    else
      var n := |s|;
      var hourText, minuteText, suffix := s[..n - 6], s[n - 5..n - 3], s[n - 2..];
      if s[n - 6] != ':' || s[n - 3] != ' ' || !AllDigits(hourText) || !AllDigits(minuteText)
         || ReadNumber(minuteText) >= MinutesPerHour || (suffix != "AM" && suffix != "PM") then None
      else
        var h12 := ReadNumber(hourText);
        if !(1 <= h12 <= 12) then None
        else Some(TwoDigitText(To24(h12, suffix == "PM")) + ":" + minuteText)
  }

  /** The 24-hour clock hour is determined by its display hour and suffix. */
  lemma To24OfDisplay(h: nat)
    requires h < HoursPerDay
    ensures To24(DisplayHour(h), h >= 12) == h
  {
  }

  /** Reading a display assembled from its parts gives back the hour and the minutes text. */
  lemma ParseDisplay(ht: string, mm: string, pm: bool)
    requires 1 <= |ht| <= 2 && AllDigits(ht) && 1 <= ReadNumber(ht) <= 12
    requires |mm| == 2 && AllDigits(mm) && ReadNumber(mm) < MinutesPerHour
    ensures ParseTime12(ht + ":" + mm + " " + (if pm then "PM" else "AM")) ==
            Some(TwoDigitText(To24(ReadNumber(ht), pm)) + ":" + mm)
  {
    var s := ht + ":" + mm + " " + (if pm then "PM" else "AM");
    var n := |s|;
    assert s[..n - 6] == ht;
    assert s[n - 5..n - 3] == mm;
    assert s[n - 6] == ':' && s[n - 3] == ' ';
    assert s[n - 2..] == (if pm then "PM" else "AM");
  }

  /** Formatting loses nothing: the display reads back to the original time. */
  lemma FormatTimeRoundTrip(t: Time)
    ensures ParseTime12(FormatTime(t)) == Some(t)
  {
    var h := Hour(t);
    var mm := t[3..];
    assert mm == [t[3], t[4]];
    ParseDisplay(HourText(DisplayHour(h)), mm, h >= 12);
    To24OfDisplay(h);
    TwoDigitTextOfValue(t[0], t[1]);
    assert t == [t[0], t[1]] + ":" + mm;
  }

  /** Midnight and noon hours show as 12, with AM and PM respectively. */
  lemma FormatTimeTwelve(t: Time)
    ensures Hour(t) == 0 ==> FormatTime(t) == "12:" + t[3..] + " AM"
    ensures Hour(t) == 12 ==> FormatTime(t) == "12:" + t[3..] + " PM"
  {
    if Hour(t) == 0 || Hour(t) == 12 {
      assert DisplayHour(Hour(t)) == 12;
      assert HourText(12) == "12";
    }
  }

  /** Afternoon hours show twelve less with PM; morning hours show as they are with AM. */
  lemma FormatTimeOtherHours(t: Time)
    ensures 13 <= Hour(t) ==> FormatTime(t) == HourText(Hour(t) - 12) + ":" + t[3..] + " PM"
    ensures 1 <= Hour(t) < 12 ==> FormatTime(t) == HourText(Hour(t)) + ":" + t[3..] + " AM"
  {
    var h := Hour(t);
    if 13 <= h {
      assert DisplayHour(h) == h - 12 && Suffix(h) == "PM";
    } else if 1 <= h < 12 {
      assert DisplayHour(h) == h && Suffix(h) == "AM";
    }
  }

  /** Distinct times never share a display. */
  lemma FormatTimeInjective(s: Time, t: Time)
    ensures FormatTime(s) == FormatTime(t) <==> s == t
  {
    if FormatTime(s) == FormatTime(t) {
      FormatTimeRoundTrip(s);
      FormatTimeRoundTrip(t);
    }
  }
}
