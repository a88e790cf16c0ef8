/** The `%y%m%d%H%M%S` timestamps of a test record: twelve digits, two per
    field, with Python's two-digit-year pivot (00-68 is 20xx, 69-99 is 19xx). */
module Timestamp {
  import opened Text
  import opened Wrappers

  datatype DateTime = DateTime(year: int, month: int, day: int, hour: int, minute: int, second: int)

  predicate IsLeapYear(y: int) {
    y % 4 == 0 && (y % 100 != 0 || y % 400 == 0)
  }

  function DaysInMonth(y: int, m: int): (d: int)
    requires 1 <= m <= 12
    ensures 28 <= d <= 31
  {
    if m == 2 then (if IsLeapYear(y) then 29 else 28)
    else if m == 4 || m == 6 || m == 9 || m == 11 then 30
    else 31
  }

  /** The date-times Python's datetime accepts (seconds 0-59, no leap second). */
  predicate ValidDateTime(dt: DateTime) {
    1 <= dt.month <= 12 && 1 <= dt.day <= DaysInMonth(dt.year, dt.month)
    && 0 <= dt.hour < 24 && 0 <= dt.minute < 60 && 0 <= dt.second < 60
  }

  /** The years a two-digit year can stand for under the pivot. */
  predicate InPivotRange(year: int) {
    1969 <= year <= 2068
  }

  /** `%y`: 69-99 are read as 1969-1999, 00-68 as 2000-2068. */
  function PivotYear(yy: nat): (y: int)
    requires yy < 100
    ensures InPivotRange(y) && y % 100 == yy
  {
    if yy < 69 then 2000 + yy else 1900 + yy
  }

  /** The two-digit number at positions i and i + 1. */
  function TwoDigitsAt(s: string, i: nat): (v: nat)
    requires i + 1 < |s| && IsDigit(s[i]) && IsDigit(s[i + 1])
    ensures v < 100
  {
    DigitValue(s[i]) * 10 + DigitValue(s[i + 1])
  }

  /** datetime.strptime(s, "%y%m%d%H%M%S"), restricted to twelve ASCII digits:
      None when s is not such a string or does not name a real date-time. */
  function ParseTimestamp(s: string): (r: Option<DateTime>)
    ensures r.Some? ==> ValidDateTime(r.value) && InPivotRange(r.value.year)
    ensures r.Some? ==> |s| == 12 && AllDigits(s)
  {
    if |s| != 12 || !AllDigits(s) then None
    else
      var dt := DateTime(PivotYear(TwoDigitsAt(s, 0)), TwoDigitsAt(s, 2), TwoDigitsAt(s, 4),
                         TwoDigitsAt(s, 6), TwoDigitsAt(s, 8), TwoDigitsAt(s, 10));
      if ValidDateTime(dt) then Some(dt) else None
  }

  function TwoDigitString(n: nat): (r: string)
    requires n < 100
    ensures |r| == 2 && AllDigits(r)
  {
    [DigitChar(n / 10), DigitChar(n % 10)]
  }

  /** datetime.strftime("%y%m%d%H%M%S"): the inverse of ParseTimestamp. */
  function FormatTimestamp(dt: DateTime): (r: string)
    requires ValidDateTime(dt) && InPivotRange(dt.year)
    ensures |r| == 12 && AllDigits(r)
  {
    TwoDigitString(dt.year % 100) + TwoDigitString(dt.month) + TwoDigitString(dt.day)
    + TwoDigitString(dt.hour) + TwoDigitString(dt.minute) + TwoDigitString(dt.second)
  }

  /** Two digits rendered at position i are read back there. */
  lemma {:induction false} TwoDigitStringValue(s: string, i: nat, n: nat)
    requires n < 100 && i + 2 <= |s| && s[i..i + 2] == TwoDigitString(n)
    ensures TwoDigitsAt(s, i) == n
  {
    assert s[i] == s[i..i + 2][0] && s[i + 1] == s[i..i + 2][1];
  }

  /** Where each field sits in a rendered timestamp. */
  lemma {:induction false} FormatFields(dt: DateTime)
    requires ValidDateTime(dt) && InPivotRange(dt.year)
    ensures var s := FormatTimestamp(dt);
            && s[0..2] == TwoDigitString(dt.year % 100) && s[2..4] == TwoDigitString(dt.month)
            && s[4..6] == TwoDigitString(dt.day) && s[6..8] == TwoDigitString(dt.hour)
            && s[8..10] == TwoDigitString(dt.minute) && s[10..12] == TwoDigitString(dt.second)
  {
  }

  /** Every date-time the pivot can express is read back from its rendering. */
  lemma {:induction false} ParseFormat(dt: DateTime)
    requires ValidDateTime(dt) && InPivotRange(dt.year)
    ensures ParseTimestamp(FormatTimestamp(dt)) == Some(dt)
  {
    var s := FormatTimestamp(dt);
    FormatFields(dt);
    TwoDigitStringValue(s, 0, dt.year % 100);
    TwoDigitStringValue(s, 2, dt.month);
    TwoDigitStringValue(s, 4, dt.day);
    TwoDigitStringValue(s, 6, dt.hour);
    TwoDigitStringValue(s, 8, dt.minute);
    TwoDigitStringValue(s, 10, dt.second);
    PivotYearOf(dt.year);
  }

  /** The pivot gives back every year in its range from its last two digits. */
  lemma {:induction false} PivotYearOf(y: int)
    requires InPivotRange(y)
    ensures PivotYear(y % 100) == y
  {
    if y < 2000 {
      assert y % 100 == y - 1900;
    } else {
      assert y % 100 == y - 2000;
    }
  }

  lemma {:induction false} TwoDigitStringOf(s: string, i: nat)
    requires i + 1 < |s| && IsDigit(s[i]) && IsDigit(s[i + 1])
    ensures TwoDigitString(TwoDigitsAt(s, i)) == s[i..i + 2]
  {
  }

  /** An accepted timestamp is exactly the rendering of the date-time it gives. */
  lemma {:induction false} FormatParse(s: string)
    requires ParseTimestamp(s).Some?
    ensures FormatTimestamp(ParseTimestamp(s).value) == s
  {
    var dt := ParseTimestamp(s).value;
    TwoDigitStringOf(s, 0);
    TwoDigitStringOf(s, 2);
    TwoDigitStringOf(s, 4);
    TwoDigitStringOf(s, 6);
    TwoDigitStringOf(s, 8);
    TwoDigitStringOf(s, 10);
    assert s == s[0..2] + s[2..4] + s[4..6] + s[6..8] + s[8..10] + s[10..12];
  }

  /** The start time of the sample pass record: 2025-06-01 09:00:00. */
  lemma {:induction false} SampleStartTime()
    ensures ParseTimestamp("250601090000") == Some(DateTime(2025, 6, 1, 9, 0, 0))
  {
    assert AllDigits("250601090000");
  }

  /** A month 13 is refused rather than rolled over. */
  lemma {:induction false} MonthThirteenRefused()
    ensures ParseTimestamp("251301090000") == None
  {
  }

  /** 29 February exists only in leap years. */
  lemma {:induction false} LeapDay()
    ensures ParseTimestamp("240229000000") == Some(DateTime(2024, 2, 29, 0, 0, 0))
    ensures ParseTimestamp("250229000000") == None
  {
    assert AllDigits("240229000000");
  }
}
