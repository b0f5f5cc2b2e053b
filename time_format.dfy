/** The textual form of a break time: the add action writes hour and minute with
    `%02d:%02d`, and the tick parses entries back with the date pattern `HH:mm`. */
module TimeFormat {
  import opened Wrappers
  import opened TextOrder

  const HoursPerDay: nat := 24
  const MinutesPerHour: nat := 60
  const SecondsPerMinute: nat := 60

  /** A wall-clock time of day, as the pickers offer it. */
  datatype TimeOfDay = TimeOfDay(hour: nat, minute: nat)

  predicate ValidTime(t: TimeOfDay)
  {
    t.hour < HoursPerDay && t.minute < MinutesPerHour
  }

  /** (hour, minute) order. */
  predicate TimeLeq(t: TimeOfDay, u: TimeOfDay)
  {
    t.hour < u.hour || (t.hour == u.hour && t.minute <= u.minute)
  }

  /** Seconds from midnight to the start of minute `t`: the break's target instant on
      today's date. A valid time lies within the day, on a whole minute. */
  function SecondsOfDay(t: TimeOfDay): (r: nat)
    ensures ValidTime(t) ==> r < HoursPerDay * MinutesPerHour * SecondsPerMinute
    ensures r % SecondsPerMinute == 0
  {
    (t.hour * MinutesPerHour + t.minute) * SecondsPerMinute
  }

  predicate IsDigit(c: char)
  {
    '0' <= c <= '9'
  }

  function DigitChar(d: nat): (c: char)
    requires d < 10
    ensures IsDigit(c) && c as int - '0' as int == d
  {
    ('0' as int + d) as char
  }

  function DigitValue(c: char): (d: nat)
    requires IsDigit(c)
    ensures d < 10 && DigitChar(d) == c
  {
    c as int - '0' as int
  }

  /** `%02d` of a number below 100: exactly two decimal digits, with a leading zero below 10. */
  function TwoDigits(n: nat): (r: string)
    requires n < 100
    ensures |r| == 2 && IsDigit(r[0]) && IsDigit(r[1])
    ensures 10 * DigitValue(r[0]) + DigitValue(r[1]) == n
    ensures n < 10 ==> r[0] == '0'
  {
    [DigitChar(n / 10), DigitChar(n % 10)]
  }

  /** The entry the add action stores for the picked hour and minute. */
  function FormatTime(hour: nat, minute: nat): (r: string)
    requires hour < HoursPerDay && minute < MinutesPerHour
    ensures |r| == 5 && r[2] == ':'
    ensures ParseTime(r) == Some(TimeOfDay(hour, minute))
  {
    TwoDigits(hour) + ":" + TwoDigits(minute)
  }

  /** Parsing with the date pattern `HH:mm`: two digits of hour below 24, a colon, two
      digits of minute below 60. Anything else yields no date. */
  function ParseTime(s: string): (r: Option<TimeOfDay>)
    ensures r.Some? ==> ValidTime(r.value)
  {
    if |s| == 5 && IsDigit(s[0]) && IsDigit(s[1]) && s[2] == ':' && IsDigit(s[3]) && IsDigit(s[4]) then
      var hour := 10 * DigitValue(s[0]) + DigitValue(s[1]);
      var minute := 10 * DigitValue(s[3]) + DigitValue(s[4]);
      if hour < HoursPerDay && minute < MinutesPerHour then Some(TimeOfDay(hour, minute)) else None
    else
      None
  }

  /** An entry in canonical `HH:MM` form. */
  predicate IsCanonical(s: string)
  {
    ParseTime(s).Some?
  }

  /** The other half of the round trip: every string that parses is the formatted form of
      the time it parses to, so parsing is injective and canonical strings are exactly the
      formatted ones. */
  lemma FormatOfParse(s: string)
    requires ParseTime(s).Some?
    ensures FormatTime(ParseTime(s).value.hour, ParseTime(s).value.minute) == s
  {
    var t := ParseTime(s).value;
    var f := FormatTime(t.hour, t.minute);
    assert t.hour / 10 == DigitValue(s[0]) && t.hour % 10 == DigitValue(s[1]);
    assert t.minute / 10 == DigitValue(s[3]) && t.minute % 10 == DigitValue(s[4]);
    assert f[0] == s[0] && f[1] == s[1] && f[3] == s[3] && f[4] == s[4];
  }

  lemma TwoDigitsLeq(x: nat, y: nat, r1: string, r2: string)
    requires x < 100 && y < 100
    ensures TextLeq(TwoDigits(x) + r1, TwoDigits(y) + r2) <==> x < y || (x == y && TextLeq(r1, r2))
  {
    var a, b := TwoDigits(x) + r1, TwoDigits(y) + r2;
    assert a[1..][1..] == r1 && b[1..][1..] == r2;
    assert x == 10 * (x / 10) + x % 10 && y == 10 * (y / 10) + y % 10;
  }

  /** Because both fields are zero-padded to two digits, comparing two entries as text
      agrees with comparing the times they stand for by (hour, minute). */
  lemma FormatOrder(t: TimeOfDay, u: TimeOfDay)
    requires ValidTime(t) && ValidTime(u)
    ensures TextLeq(FormatTime(t.hour, t.minute), FormatTime(u.hour, u.minute)) <==> TimeLeq(t, u)
  {
    TwoDigitsLeq(t.minute, u.minute, [], []);
    var rt, ru := ":" + TwoDigits(t.minute), ":" + TwoDigits(u.minute);
    assert rt[1..] == TwoDigits(t.minute) + [] && ru[1..] == TwoDigits(u.minute) + [];
    TwoDigitsLeq(t.hour, u.hour, rt, ru);
    assert FormatTime(t.hour, t.minute) == TwoDigits(t.hour) + rt;
    assert FormatTime(u.hour, u.minute) == TwoDigits(u.hour) + ru;
  }

  /** (hour, minute) order is the order of the instants the minutes start at. */
  lemma TimeLeqSeconds(t: TimeOfDay, u: TimeOfDay)
    requires ValidTime(t) && ValidTime(u)
    ensures TimeLeq(t, u) <==> SecondsOfDay(t) <= SecondsOfDay(u)
    ensures SecondsOfDay(t) == SecondsOfDay(u) ==> t == u
  {
  }

  /** For canonical entries, text order is time-of-day order. */
  lemma CanonicalTextOrder(s: string, s': string)
    requires IsCanonical(s) && IsCanonical(s')
    ensures TextLeq(s, s') <==> SecondsOfDay(ParseTime(s).value) <= SecondsOfDay(ParseTime(s').value)
  {
    var t, u := ParseTime(s).value, ParseTime(s').value;
    FormatOfParse(s);
    FormatOfParse(s');
    FormatOrder(t, u);
    TimeLeqSeconds(t, u);
  }

  /** Consecutive entries never go backwards in time of day. */
  ghost predicate InTimeOfDayOrder(s: seq<string>)
  {
    forall i, j :: 0 <= i < j < |s| && IsCanonical(s[i]) && IsCanonical(s[j]) ==>
      SecondsOfDay(ParseTime(s[i]).value) <= SecondsOfDay(ParseTime(s[j]).value)
  }

  /** Sorting canonical entries as text puts them in time-of-day order. */
  lemma SortedIsTimeOfDayOrder(s: seq<string>)
    requires forall k :: 0 <= k < |s| ==> IsCanonical(s[k])
    requires Sorted(s)
    ensures InTimeOfDayOrder(s)
  {
    forall i, j | 0 <= i < j < |s| && IsCanonical(s[i]) && IsCanonical(s[j])
      ensures SecondsOfDay(ParseTime(s[i]).value) <= SecondsOfDay(ParseTime(s[j]).value)
    {
      CanonicalTextOrder(s[i], s[j]);
    }
  }
}
