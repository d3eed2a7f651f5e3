/** Python's `datetime.strptime` for the two formats the transforms use,
    `"%m/%d/%Y"` and `"%m/%d/%Y %H:%M:%S %p"`, and the ISO renderings they
    write back (`str(date)` and `strftime("%Y-%m-%d[ %H:%M:%S]")`).

    `strptime` compiles the format into a regular expression, one alternation
    per directive (month `1[0-2]|0[1-9]|[1-9]`, day `3[01]|[12]\d|0[1-9]|[1-9]| [1-9]`,
    year `\d\d\d\d`, hour `2[0-3]|[01]\d|\d`, minute `[0-5]\d|\d`, second
    `6[01]|[0-5]\d|\d`, marker `am|pm`), turns each blank of the format into
    `\s+`, matches case-insensitively from the start, raises if unmatched text
    remains, and finally builds a `datetime`, which raises for a day past the
    end of the month, year 0 or a second of 60 or 61. Every directive is digits
    or letters and is followed by a fixed delimiter, so the match is cut at the
    first delimiter; the functions below do exactly that. */
module Dates {
  import opened Basics
  import opened Text

  datatype Date = Date(year: int, month: int, day: int)
  datatype Time = Time(hour: int, minute: int, second: int)
  datatype DateTime = DateTime(date: Date, time: Time)

  /** Gregorian leap years. */
  predicate IsLeapYear(y: int) {
    y % 4 == 0 && (y % 100 != 0 || y % 400 == 0)
  }

  function DaysInMonth(y: int, m: int): (n: int)
    requires 1 <= m <= 12
    ensures 28 <= n <= 31
    ensures n == 29 <==> m == 2 && IsLeapYear(y)
  {
    if m == 2 then (if IsLeapYear(y) then 29 else 28)
    else if m == 4 || m == 6 || m == 9 || m == 11 then 30
    else 31
  }

  /** What the `date` constructor accepts. */
  predicate ValidDate(d: Date) {
    1 <= d.year <= 9999 && 1 <= d.month <= 12 && 1 <= d.day <= DaysInMonth(d.year, d.month)
  }

  /** What the `datetime` constructor accepts for the time of day. */
  predicate ValidTime(t: Time) {
    0 <= t.hour <= 23 && 0 <= t.minute <= 59 && 0 <= t.second <= 59
  }

  /** `%m`: `1[0-2]|0[1-9]|[1-9]`. */
  function MonthToken(tok: string): (r: Option<int>)
    ensures r.Some? ==> 1 <= r.value <= 12
  {
    if |tok| == 1 && '1' <= tok[0] <= '9' then Some(DigitValue(tok[0]))
    else if |tok| == 2 && IsDigit(tok[0]) && IsDigit(tok[1]) && 1 <= Num2(tok[0], tok[1]) <= 12
    then Some(Num2(tok[0], tok[1]))
    else None
  }

  /** `%d`: `3[01]|[12]\d|0[1-9]|[1-9]| [1-9]` (a blank may pad the day). */
  function DayToken(tok: string): (r: Option<int>)
    ensures r.Some? ==> 1 <= r.value <= 31
  {
    if |tok| == 1 && '1' <= tok[0] <= '9' then Some(DigitValue(tok[0]))
    else if |tok| == 2 && tok[0] == ' ' && '1' <= tok[1] <= '9' then Some(DigitValue(tok[1]))
    else if |tok| == 2 && IsDigit(tok[0]) && IsDigit(tok[1]) && 1 <= Num2(tok[0], tok[1]) <= 31
    then Some(Num2(tok[0], tok[1]))
    else None
  }

  /** `%H`: `2[0-3]|[01]\d|\d`. */
  function HourToken(tok: string): (r: Option<int>)
    ensures r.Some? ==> 0 <= r.value <= 23
  {
    if |tok| == 1 && IsDigit(tok[0]) then Some(DigitValue(tok[0]))
    else if |tok| == 2 && IsDigit(tok[0]) && IsDigit(tok[1]) && Num2(tok[0], tok[1]) <= 23
    then Some(Num2(tok[0], tok[1]))
    else None
  }

  /** `%M`: `[0-5]\d|\d`. */
  function MinuteToken(tok: string): (r: Option<int>)
    ensures r.Some? ==> 0 <= r.value <= 59
  {
    if |tok| == 1 && IsDigit(tok[0]) then Some(DigitValue(tok[0]))
    else if |tok| == 2 && IsDigit(tok[0]) && IsDigit(tok[1]) && Num2(tok[0], tok[1]) <= 59
    then Some(Num2(tok[0], tok[1]))
    else None
  }

  /** `%S`: `6[01]|[0-5]\d|\d` (61 is matched; the constructor then refuses it). */
  function SecondToken(tok: string): (r: Option<int>)
    ensures r.Some? ==> 0 <= r.value <= 61
  {
    if |tok| == 1 && IsDigit(tok[0]) then Some(DigitValue(tok[0]))
    else if |tok| == 2 && IsDigit(tok[0]) && IsDigit(tok[1]) && Num2(tok[0], tok[1]) <= 61
    then Some(Num2(tok[0], tok[1]))
    else None
  }

  /** `%p` in the C locale, matched case-insensitively: `am` or `pm`. */
  predicate IsMeridiem(s: string) {
    |s| == 2 && (s[0] in "aApP") && (s[1] in "mM")
  }

  /** The `%m/%d/%Y` part at the start of `s`: the three fields, not yet
      checked as a calendar date, and the text after the four year digits. */
  function DatePrefix(s: string): Option<(Date, string)>
  {
    var i := FirstIndexOf(s, '/');
    if i == |s| then None
    else
      var m := MonthToken(s[..i]);
      var dy := DayYear(s[i + 1..]);
      if m.None? || dy.None? then None
      else Some((Date(dy.value.1, m.value, dy.value.0), dy.value.2))
  }

  /** `%d/%Y`: the day up to the next slash, then four year digits; the day,
      the year and the text after the year. */
  function DayYear(rest: string): Option<(int, int, string)>
  {
    var j := FirstIndexOf(rest, '/');
    if j == |rest| then None
    else
      var d := DayToken(rest[..j]);
      var y := rest[j + 1..];
      if d.None? || |y| < 4 || !AllDigits(y[..4]) then None
      else Some((d.value, Num4(y[..4]), y[4..]))
  }

  /** `datetime.strptime(s, "%m/%d/%Y").date()`, `None` where it raises. */
  function ParseDate(s: string): (r: Option<Date>)
    ensures r.Some? ==> ValidDate(r.value)
  {
    match DatePrefix(s)
    case Some((d, rest)) => if rest == [] && ValidDate(d) then Some(d) else None
    case None => None
  }

  /** The ` %H:%M:%S ` part of a date-time body, after the year: at least one
      blank, then the fields. */
  function TimePart(s: string): Option<Time>
  {
    var w := LeadingSpaces(s);
    if w == 0 then None else TimeFields(s[w..])
  }

  /** `%H:%M:%S ` : the hour up to the first colon, then the minutes and
      seconds. */
  function TimeFields(s1: string): Option<Time>
  {
    var i := FirstIndexOf(s1, ':');
    if i == |s1| then None
    else
      var h := HourToken(s1[..i]);
      var ms := MinutesSeconds(s1[i + 1..]);
      if h.None? || ms.None? then None else Some(Time(h.value, ms.value.0, ms.value.1))
  }

  /** `%M:%S ` : the minutes up to the next colon, the seconds up to the next
      whitespace, and only whitespace after them (the marker has been cut). */
  function MinutesSeconds(s2: string): Option<(int, int)>
  {
    var j := FirstIndexOf(s2, ':');
    if j == |s2| then None
    else
      var s3 := s2[j + 1..];
      var k := FirstSpace(s3);
      var mi := MinuteToken(s2[..j]);
      var sec := SecondToken(s3[..k]);
      if mi.None? || sec.None? || k == |s3| || !AllSpaces(s3[k..]) then None
      else Some((mi.value, sec.value))
  }

  /** `datetime.strptime(s, "%m/%d/%Y %H:%M:%S %p")`, `None` where it raises.
      The marker is matched and then ignored: `%p` only adjusts `%I`. */
  function ParseDateTime(s: string): (r: Option<DateTime>)
    ensures r.Some? ==> ValidDate(r.value.date) && ValidTime(r.value.time)
  {
    if |s| < 2 || !IsMeridiem(s[|s| - 2..]) then None
    else
      match DatePrefix(s[..|s| - 2])
      case None => None
      case Some((d, rest)) =>
        match TimePart(rest)
        case None => None
        case Some(t) => if ValidDate(d) && ValidTime(t) then Some(DateTime(d, t)) else None
  }

  /** `str(date)` and `date.strftime("%Y-%m-%d")`. */
  function IsoDate(d: Date): (r: string)
    requires ValidDate(d)
    ensures |r| == 10 && r[4] == '-' && r[7] == '-'
    ensures AllDigits(r[..4]) && Num4(r[..4]) == d.year
    ensures IsDigit(r[5]) && IsDigit(r[6]) && Num2(r[5], r[6]) == d.month
    ensures IsDigit(r[8]) && IsDigit(r[9]) && Num2(r[8], r[9]) == d.day
  {
    Pad4(d.year) + "-" + Pad2(d.month) + "-" + Pad2(d.day)
  }

  /** `strftime("%Y-%m-%d %H:%M:%S")`. */
  function IsoDateTime(dt: DateTime): (r: string)
    requires ValidDate(dt.date) && ValidTime(dt.time)
    ensures |r| == 19 && r[..10] == IsoDate(dt.date) && r[10] == ' ' && r[13] == ':' && r[16] == ':'
    ensures IsDigit(r[11]) && IsDigit(r[12]) && Num2(r[11], r[12]) == dt.time.hour
    ensures IsDigit(r[14]) && IsDigit(r[15]) && Num2(r[14], r[15]) == dt.time.minute
    ensures IsDigit(r[17]) && IsDigit(r[18]) && Num2(r[17], r[18]) == dt.time.second
  {
    IsoDate(dt.date) + " " + Pad2(dt.time.hour) + ":" + Pad2(dt.time.minute) + ":" + Pad2(dt.time.second)
  }

  /** The zero-padded `MM/DD/YYYY` text of a date. */
  function UsDate(d: Date): string
    requires ValidDate(d)
  {
    Pad2(d.month) + "/" + Pad2(d.day) + "/" + Pad4(d.year)
  }

  /** The zero-padded `MM/DD/YYYY HH:MM:SS` text of a date and time. */
  function UsDateTime(dt: DateTime): (r: string)
    requires ValidDate(dt.date) && ValidTime(dt.time)
    ensures |r| == 19
  {
    UsDate(dt.date) + " " + Pad2(dt.time.hour) + ":" + Pad2(dt.time.minute) + ":" + Pad2(dt.time.second)
  }

  /** The date fields are read back from the front of a zero-padded
      `MM/DD/YYYY` text, whatever follows it. */
  lemma DatePrefixUs(d: Date, rest: string)
    requires ValidDate(d)
    ensures DatePrefix(UsDate(d) + rest) == Some((d, rest))
  {
    var mm, dd, yyyy := Pad2(d.month), Pad2(d.day), Pad4(d.year);
    var r := dd + "/" + (yyyy + rest);
    assert UsDate(d) + rest == mm + "/" + r;
    PairThenSeparator(mm, "/", r);
    PairThenSeparator(dd, "/", yyyy + rest);
    assert (yyyy + rest)[..4] == yyyy && (yyyy + rest)[4..] == rest;
  }

  /** The time fields are read back from ` HH:MM:SS ` (a blank on both sides). */
  lemma TimePartPadded(t: Time)
    requires ValidTime(t)
    ensures TimePart(" " + Pad2(t.hour) + ":" + Pad2(t.minute) + ":" + Pad2(t.second) + " ") == Some(t)
  {
    var hh, mm, ss := Pad2(t.hour), Pad2(t.minute), Pad2(t.second);
    var s := " " + hh + ":" + mm + ":" + ss + " ";
    var s1 := hh + ":" + (mm + ":" + (ss + " "));
    assert s == [' '] + s1;
    assert LeadingSpaces(s) == 1 && s[1..] == s1 by {
      assert LeadingSpaces(s1) == 0;
    }
    FieldsPadded(t);
  }

  lemma FieldsPadded(t: Time)
    requires ValidTime(t)
    ensures TimeFields(Pad2(t.hour) + ":" + (Pad2(t.minute) + ":" + (Pad2(t.second) + " "))) == Some(t)
  {
    var hh, mm, ss := Pad2(t.hour), Pad2(t.minute), Pad2(t.second);
    PairThenSeparator(hh, ":", mm + ":" + (ss + " "));
    assert HourToken(hh) == Some(t.hour);
    MinutesSecondsPadded(mm, ss);
  }

  lemma MinutesSecondsPadded(mm: string, ss: string)
    requires |mm| == 2 && AllDigits(mm) && Num2(mm[0], mm[1]) <= 59
    requires |ss| == 2 && AllDigits(ss) && Num2(ss[0], ss[1]) <= 61
    ensures MinutesSeconds(mm + ":" + (ss + " ")) == Some((Num2(mm[0], mm[1]), Num2(ss[0], ss[1])))
  {
    PairThenSeparator(mm, ":", ss + " ");
    var s3 := ss + " ";
    assert IsDigit(s3[0]) && IsDigit(s3[1]) && s3[2] == ' ';
    FirstSpaceIs(s3, 2);
    assert s3[..2] == ss && AllSpaces(s3[2..]);
  }


  /** Every date and time is read back from its zero-padded
      `MM/DD/YYYY HH:MM:SS` text followed by a blank and any AM/PM marker:
      the marker leaves the hour as written. */
  lemma ParseUsDateTime(dt: DateTime, marker: string)
    requires ValidDate(dt.date) && ValidTime(dt.time) && IsMeridiem(marker)
    ensures ParseDateTime(UsDateTime(dt) + " " + marker) == Some(dt)
  {
    var t := dt.time;
    var tail := " " + Pad2(t.hour) + ":" + Pad2(t.minute) + ":" + Pad2(t.second) + " ";
    var s := UsDateTime(dt) + " " + marker;
    assert s[..|s| - 2] == UsDate(dt.date) + tail;
    assert s[|s| - 2..] == marker;
    DatePrefixUs(dt.date, tail);
    TimePartPadded(t);
  }

  /** The fields `DatePrefix` reads from a ten-character `MM/DD/YYYY` text. */
  lemma UsDigitsFields(s: string)
    requires |s| == 10 && s[2] == '/' && s[5] == '/'
    requires AllDigits(s[..2]) && AllDigits(s[3..5]) && AllDigits(s[6..])
    ensures DatePrefix(s) ==
      if 1 <= Num2(s[0], s[1]) <= 12 && 1 <= Num2(s[3], s[4]) <= 31
      then Some((Date(Num4(s[6..]), Num2(s[0], s[1]), Num2(s[3], s[4])), []))
      else None
  {
    assert IsDigit(s[0]) && IsDigit(s[1]) && IsDigit(s[3]) && IsDigit(s[4]);
    FirstIndexOfIs(s, '/', 2);
    var rest := s[3..];
    assert rest[..2] == s[3..5];
    FirstIndexOfIs(rest, '/', 2);
    assert rest[3..] == s[6..];
    assert s[6..][..4] == s[6..] && s[6..][4..] == [];
  }

  /** Every calendar date is read back from its zero-padded `MM/DD/YYYY` text. */
  lemma ParseUsDate(d: Date)
    requires ValidDate(d)
    ensures ParseDate(UsDate(d)) == Some(d)
  {
    var s := UsDate(d);
    assert s[..2] == Pad2(d.month) && s[3..5] == Pad2(d.day) && s[6..] == Pad4(d.year);
    UsDigitsFields(s);
  }

  /** `strptime(s, "%m/%d/%Y")` followed by `strftime("%Y-%m-%d")` on a
      `MM/DD/YYYY` text is a rearrangement of its characters. */
  lemma IsoOfUsDigits(s: string)
    requires |s| == 10 && s[2] == '/' && s[5] == '/'
    requires AllDigits(s[..2]) && AllDigits(s[3..5]) && AllDigits(s[6..])
    requires ParseDate(s).Some?
    ensures IsoDate(ParseDate(s).value) == s[6..] + "-" + s[..2] + "-" + s[3..5]
  {
    UsDigitsFields(s);
    var d := ParseDate(s).value;
    Pad4Num4(s[6..]);
    Pad2Num2(s[0], s[1]);
    Pad2Num2(s[3], s[4]);
    assert Pad2(d.month) == s[..2];
    assert Pad2(d.day) == s[3..5];
  }

  /** A text that parses as a date alone ends in a year digit, so it never
      carries the AM/PM marker the date-time format needs. */
  lemma DateTextIsNotDateTime(s: string)
    requires ParseDate(s).Some?
    ensures ParseDateTime(s).None?
  {
    var i := FirstIndexOf(s, '/');
    var rest := s[i + 1..];
    var j := FirstIndexOf(rest, '/');
    assert rest[j + 1..] == s[i + j + 2..];
    assert IsDigit(s[|s| - 1]);
  }

  /** The AM/PM marker does not change the parsed time: `%p` is ignored
      next to `%H`, so "1:00:00 PM" is one o'clock in the morning. */
  lemma MeridiemIgnored(body: string)
    ensures ParseDateTime(body + "AM") == ParseDateTime(body + "PM")
    ensures ParseDateTime(body + "am") == ParseDateTime(body + "PM")
  {
    assert (body + "AM")[..|body|] == body;
    assert (body + "PM")[..|body|] == body;
    assert (body + "am")[..|body|] == body;
  }

  /** February 29th exists in leap years only: every fourth year, except
      the centuries that 400 does not divide. */
  lemma LeapDay(y: string)
    requires |y| == 4 && AllDigits(y)
    ensures ParseDate("02/29/" + y).Some? <==> 1 <= Num4(y) && IsLeapYear(Num4(y))
  {
    var s := "02/29/" + y;
    assert s[..2] == "02" && s[3..5] == "29" && s[6..] == y;
    UsDigitsFields(s);
  }

  /** There is no 30th of February in any year. */
  lemma NoFebruaryThirtieth(y: string)
    requires |y| == 4 && AllDigits(y)
    ensures ParseDate("02/30/" + y).None?
  {
    var s := "02/30/" + y;
    assert s[..2] == "02" && s[3..5] == "30" && s[6..] == y;
    UsDigitsFields(s);
  }

  /** There is no month 13, whatever follows it. */
  lemma NoMonthThirteen(rest: string)
    ensures ParseDate("13/" + rest).None?
  {
    var s := "13/" + rest;
    FirstIndexOfIs(s, '/', 2);
    assert s[..2] == "13";
  }

  /** A one-digit month and a blank-padded day are read as well. */
  lemma BlankPaddedDay(m: char, d: char, y: string)
    requires '1' <= m <= '9' && '1' <= d <= '9'
    requires |y| == 4 && AllDigits(y) && 1 <= Num4(y)
    ensures ParseDate([m, '/', ' ', d, '/'] + y) == Some(Date(Num4(y), DigitValue(m), DigitValue(d)))
  {
    var s := [m, '/', ' ', d, '/'] + y;
    FirstIndexOfIs(s, '/', 1);
    var rest := s[2..];
    FirstIndexOfIs(rest, '/', 2);
    assert rest[..2] == [' ', d];
    assert rest[3..] == y && y[..4] == y && y[4..] == [];
  }

  /** Text after a complete date is "unconverted data": the parse fails. */
  lemma TrailingTextRefused(s: string, t: string)
    requires ParseDate(s).Some? && t != []
    ensures ParseDate(s + t).None?
  {
    DatePrefixAppend(s, t);
  }

  /** A text that parses as a date ends in a year digit. */
  lemma DateEndsInDigit(s: string)
    requires ParseDate(s).Some?
    ensures |s| > 0 && IsDigit(s[|s| - 1])
  {
    var i := FirstIndexOf(s, '/');
    var rest := s[i + 1..];
    var j := FirstIndexOf(rest, '/');
    var y := rest[j + 1..];
    assert |y| >= 4 && AllDigits(y[..4]) && y[4..] == [];
    assert y == s[|s| - |y|..];
    assert IsDigit(y[..4][3]);
  }

  /** Appending to a text whose date fields are read leaves the fields and
      appends to the text after them. */
  lemma DatePrefixAppend(s: string, t: string)
    requires DatePrefix(s).Some?
    ensures DatePrefix(s + t) == Some((DatePrefix(s).value.0, DatePrefix(s).value.1 + t))
  {
    var i := FirstIndexOf(s, '/');
    var rest := s[i + 1..];
    var m := MonthToken(s[..i]);
    assert i < |s| && m.Some? && DayYear(rest).Some?;
    SliceAppend(s, t, i);
    FirstIndexOfPrefix(s, t, '/');
    DayYearAppend(rest, t);
  }

  lemma DayYearAppend(rest: string, t: string)
    requires DayYear(rest).Some?
    ensures DayYear(rest + t) == Some((DayYear(rest).value.0, DayYear(rest).value.1, DayYear(rest).value.2 + t))
  {
    var j := FirstIndexOf(rest, '/');
    assert j < |rest|;
    var y := rest[j + 1..];
    assert |y| >= 4;
    FirstIndexOfPrefix(rest, t, '/');
    SliceAppend(rest, t, j);
    SliceAppend(y, t, 3);
  }
}
