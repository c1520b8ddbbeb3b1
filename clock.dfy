/** The `"%b %d %H:%M"` rendering, in UTC, of a modification time given in
    seconds since the epoch (what `datetime.fromtimestamp(t, tz=UTC)`
    followed by `strftime` produces in the C locale). */
module Clock {
  import opened Strings

  const SecondsPerDay := 86400

  const MonthAbbreviations: seq<string> :=
    ["Jan", "Feb", "Mar", "Apr", "May", "Jun", "Jul", "Aug", "Sep", "Oct", "Nov", "Dec"]

  /** Month (1..12) and day of month (1..31) of the day `z` days after
      1970-01-01 in the proleptic Gregorian calendar. Days are counted in
      400-year eras that start on 1 March, so that the leap day ends a year. */
  function MonthAndDay(z: int): (md: (int, int))
    ensures 1 <= md.0 <= 12 && 1 <= md.1 <= 31
    ensures md.0 in {4, 6, 9, 11} ==> md.1 <= 30
    ensures md.0 == 2 ==> md.1 <= 29
  {
    var doe := (z + 719468) % 146097;                  // day of the era
    var c := if doe / 36524 < 3 then doe / 36524 else 3;
    var doc := doe - 36524 * c;                        // day of the century
    var doq := doc % 1461;                             // day of the four years
    var y := if doq / 365 < 3 then doq / 365 else 3;
    var doy := doq - 365 * y;                          // day of the year, from 1 March
    var mp := (5 * doy + 2) / 153;                     // month, from March = 0
    var day := doy - (153 * mp + 2) / 5 + 1;
    (if mp < 10 then mp + 3 else mp - 9, day)
  }

  /** A two-digit, zero-padded numeral (`%d`, `%H`, `%M`). */
  function TwoDigits(n: nat): (s: string)
    requires n < 100
    ensures |s| == 2 && IsDigits(s) && DigitsValue(s) == n
  {
    var s := [DigitChar(n / 10), DigitChar(n % 10)];
    assert s[..1] == [s[0]] && s[..1][..0] == [];
    assert DigitsValue(s[..1]) == n / 10;
    s
  }

  /** `strftime("%b %d %H:%M")` of the UTC time `t` seconds after the epoch:
      twelve characters whose hour and minute fields give back the minute of
      the day `t` falls in. */
  function FormatTime(t: int): (s: string)
    ensures |s| == 12 && s[3] == ' ' && s[6] == ' ' && s[9] == ':'
    ensures s[..3] in MonthAbbreviations
    ensures IsDigits(s[4..6]) && 1 <= DigitsValue(s[4..6]) <= 31
    ensures IsDigits(s[7..9]) && IsDigits(s[10..12])
    ensures DigitsValue(s[7..9]) < 24 && DigitsValue(s[10..12]) < 60
    ensures DigitsValue(s[7..9]) * 60 + DigitsValue(s[10..12]) == (t % SecondsPerDay) / 60
  {
    var md := MonthAndDay(t / SecondsPerDay);
    var secs := t % SecondsPerDay;
    var month, day, hour, minute := MonthAbbreviations[md.0 - 1], TwoDigits(md.1), TwoDigits(secs / 3600), TwoDigits(secs % 3600 / 60);
    var s := month + " " + day + " " + hour + ":" + minute;
    assert s[..3] == month && s[4..6] == day && s[7..9] == hour && s[10..12] == minute;
    s
  }

  /** The modification time of the fixtures of the repository's tests. */
  lemma FormatTimeExample()
    ensures FormatTime(1699941437) == "Nov 14 05:57"
  {
    var t := 1699941437;
    assert t / SecondsPerDay == 19675 && t % SecondsPerDay == 21437;
    assert (19675 + 719468) % 146097 == 8658 && 8658 / 36524 == 0;
    assert 8658 % 1461 == 1353 && 1353 / 365 == 3 && 1353 - 365 * 3 == 258;
    assert (5 * 258 + 2) / 153 == 8 && (153 * 8 + 2) / 5 == 245;
    assert MonthAndDay(19675) == (11, 14);
    assert TwoDigits(14) == "14" && TwoDigits(5) == "05" && TwoDigits(57) == "57";
    assert 21437 / 3600 == 5 && 21437 % 3600 / 60 == 57;
    assert FormatTime(t) == MonthAbbreviations[10] + " " + TwoDigits(14) + " " + TwoDigits(5) + ":" + TwoDigits(57);
  }
  /** The epoch itself falls on the first of January. */
  lemma EpochIsFirstOfJanuary()
    ensures MonthAndDay(0) == (1, 1)
  {
    assert 719468 % 146097 == 135080 && 135080 / 36524 == 3;
    assert 135080 - 36524 * 3 == 25508 && 25508 % 1461 == 671 && 671 / 365 == 1 && 671 - 365 == 306;
    assert (5 * 306 + 2) / 153 == 10 && (153 * 10 + 2) / 5 == 306;
  }

  /** An hour and five minutes after the epoch is the first of January. */
  lemma FormatTimeEpochExample()
    ensures FormatTime(3900) == "Jan 01 01:05"
  {
    EpochIsFirstOfJanuary();
    assert 3900 / SecondsPerDay == 0 && 3900 % SecondsPerDay == 3900;
    assert 3900 / 3600 == 1 && 3900 % 3600 / 60 == 5;
    assert TwoDigits(1) == "01" && TwoDigits(5) == "05";
    assert FormatTime(3900) == MonthAbbreviations[0] + " " + "01" + " " + "01" + ":" + "05";
  }
}
