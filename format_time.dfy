/** hospi-lock-web/src/app/helper/formatTime.ts: the date and time shown
    next to each log entry. The calendar fields of the `Date` (local time)
    are taken as parameters. */
module FormatTime {
  import opened Wrappers
  import opened JsStrings

  datatype DateAndTime = DateAndTime(date: string, time: string)

  /** `num.toString().padStart(2, '0')`: at least two characters, a single
      digit gains a leading zero, anything longer is kept. */
  function Pad(num: int): (s: string)
    ensures |s| >= 2
    ensures |IntToString(num)| >= 2 ==> s == IntToString(num)
    ensures 0 <= num ==> IsDigits(s) && ValueOf(s) == num
    ensures 0 <= num < 100 ==> |s| == 2
  {
    var text := IntToString(num);
    var s := PadStart(text, 2, '0');
    if num < 0 then s
    else
      ValueOfNatToString(num);
      NatToStringLength(num);
      if |text| >= 2 then s
      else
        assert s == "0" + text;
        ValueOfLeadingZero(text);
        s
  }

  /** `{dd}-{mm}-{year}` and `{hh}:{mm}:{ss}`; `monthIndex` counts from 0
      as `Date.getMonth` does. */
  function FormatEpochTime(day: int, monthIndex: int, year: int, hours: int, minutes: int, seconds: int): (r: DateAndTime)
    ensures 0 <= hours < 100 && 0 <= minutes < 100 && 0 <= seconds < 100 ==>
              |r.time| == 8 && r.time[2] == ':' && r.time[5] == ':'
    ensures 0 <= day < 100 && 0 <= monthIndex + 1 < 100 ==>
              |r.date| > 6 && r.date[2] == '-' && r.date[5] == '-'
  {
    var date := Pad(day) + "-" + Pad(monthIndex + 1) + "-" + IntToString(year);
    var time := Pad(hours) + ":" + Pad(minutes) + ":" + Pad(seconds);
    SeparatedAt(Pad(day), '-', Pad(monthIndex + 1), '-', IntToString(year));
    SeparatedAt(Pad(hours), ':', Pad(minutes), ':', Pad(seconds));
    DateAndTime(date, time)
  }

  /** Three fields joined by two one-character separators keep the
      separators right after the first and the second field. */
  lemma SeparatedAt(a: string, s1: char, b: string, s2: char, c: string)
    ensures var t := a + [s1] + b + [s2] + c;
            |t| == |a| + |b| + |c| + 2 && t[|a|] == s1 && t[|a| + |b| + 1] == s2
  {
  }

  /** The three fields of such a string are found again by slicing. */
  lemma FieldsAt(a: string, s1: char, b: string, s2: char, c: string)
    ensures var t := a + [s1] + b + [s2] + c;
            t[..|a|] == a && t[|a| + 1..|a| + 1 + |b|] == b && t[|a| + |b| + 2..] == c
  {
    var t := a + [s1] + b + [s2] + c;
    assert t[..|a|] == a;
    assert t[|a| + 1..|a| + 1 + |b|] == b;
    assert t[|a| + |b| + 2..] == c;
  }

  /** Reads `hh:mm:ss` back into its three numbers. */
  function ParseTime(t: string): Option<(nat, nat, nat)> {
    if |t| == 8 && t[2] == ':' && t[5] == ':' && IsDigits(t[0..2]) && IsDigits(t[3..5]) && IsDigits(t[6..8])
    then Some((ValueOf(t[0..2]), ValueOf(t[3..5]), ValueOf(t[6..8])))
    else None
  }

  /** Reads `dd-mm-y…` back into day, month and year. */
  function ParseDate(d: string): Option<(nat, nat, nat)> {
    if |d| >= 7 && d[2] == '-' && d[5] == '-' && IsDigits(d[0..2]) && IsDigits(d[3..5]) && IsDigits(d[6..])
    then Some((ValueOf(d[0..2]), ValueOf(d[3..5]), ValueOf(d[6..])))
    else None
  }

  lemma ParseTimeOfParts(a: string, b: string, c: string)
    requires |a| == 2 && |b| == 2 && |c| == 2 && IsDigits(a) && IsDigits(b) && IsDigits(c)
    ensures ParseTime(a + ":" + b + ":" + c) == Some((ValueOf(a), ValueOf(b), ValueOf(c)))
  {
    var t := a + ":" + b + ":" + c;
    SeparatedAt(a, ':', b, ':', c);
    FieldsAt(a, ':', b, ':', c);
    assert t[0..2] == a && t[3..5] == b && t[6..8] == c;
  }

  lemma ParseDateOfParts(a: string, b: string, y: string)
    requires |a| == 2 && |b| == 2 && 1 <= |y| && IsDigits(a) && IsDigits(b) && IsDigits(y)
    ensures ParseDate(a + "-" + b + "-" + y) == Some((ValueOf(a), ValueOf(b), ValueOf(y)))
  {
    var d := a + "-" + b + "-" + y;
    SeparatedAt(a, '-', b, '-', y);
    FieldsAt(a, '-', b, '-', y);
    assert d[0..2] == a && d[3..5] == b && d[6..] == y;
  }

  /** For the values a `Date` yields (and a year from 0 on), the time is
      eight characters long, the date six plus the digits of the year, and
      both read back as the calendar fields, with the month counted from 1. */
  lemma FormatEpochTimeRoundTrip(day: int, monthIndex: int, year: int, hours: int, minutes: int, seconds: int)
    requires 1 <= day <= 31 && 0 <= monthIndex <= 11 && 0 <= year
    requires 0 <= hours <= 23 && 0 <= minutes <= 59 && 0 <= seconds <= 59
    ensures |FormatEpochTime(day, monthIndex, year, hours, minutes, seconds).time| == 8
    ensures |FormatEpochTime(day, monthIndex, year, hours, minutes, seconds).date| == 6 + |NatToString(year)|
    ensures ParseTime(FormatEpochTime(day, monthIndex, year, hours, minutes, seconds).time) == Some((hours, minutes, seconds))
    ensures ParseDate(FormatEpochTime(day, monthIndex, year, hours, minutes, seconds).date) == Some((day, monthIndex + 1, year))
  {
    TimeRoundTrip(hours, minutes, seconds);
    DateRoundTrip(day, monthIndex + 1, year);
  }

  lemma TimeRoundTrip(hours: int, minutes: int, seconds: int)
    requires 0 <= hours < 100 && 0 <= minutes < 100 && 0 <= seconds < 100
    ensures |Pad(hours) + ":" + Pad(minutes) + ":" + Pad(seconds)| == 8
    ensures ParseTime(Pad(hours) + ":" + Pad(minutes) + ":" + Pad(seconds)) == Some((hours, minutes, seconds))
  {
    ParseTimeOfParts(Pad(hours), Pad(minutes), Pad(seconds));
  }

  lemma DateRoundTrip(day: int, month: int, year: int)
    requires 0 <= day < 100 && 0 <= month < 100 && 0 <= year
    ensures |Pad(day) + "-" + Pad(month) + "-" + IntToString(year)| == 6 + |NatToString(year)|
    ensures ParseDate(Pad(day) + "-" + Pad(month) + "-" + IntToString(year)) == Some((day, month, year))
  {
    ValueOfNatToString(year);
    ParseDateOfParts(Pad(day), Pad(month), NatToString(year));
  }
}
