/**
 * `parse_datetime` of `hello.py`: the current year is put in front of the
 * line's `MM-DD HH:MM:SS` timestamp and the result is read with the format
 * `%Y-%m-%d %H:%M:%S` into a pandas timestamp. Times are integer seconds
 * since 1970-01-01 00:00:00 on the proleptic Gregorian calendar; a date that
 * does not exist, or one pandas' nanosecond range cannot hold, resolves to
 * nothing, because every exception is caught.
 */
module Calendar {
  import opened Wrappers
  import opened Text

  /** The timestamp a line starts with: `%m-%d %H:%M:%S`, `d` standing for `\d`. */
  const StampFormat := "dd-dd dd:dd:dd"

  /** The fields read from a timestamp. */
  datatype Stamp = Stamp(month: nat, day: nat, hour: nat, minute: nat, second: nat)

  /** Every field fits in two decimal digits. */
  predicate TwoDigitFields(st: Stamp) {
    st.month < 100 && st.day < 100 && st.hour < 100 && st.minute < 100 && st.second < 100
  }

  /** The number written by the two digits at `s[i]` and `s[i + 1]`. */
  function Pair(s: string, i: nat): (n: nat)
    requires i + 2 <= |s| && IsDigit(s[i]) && IsDigit(s[i + 1])
    ensures n < 100
  {
    10 * DigitValue(s[i]) + DigitValue(s[i + 1])
  }

  /** Reads a timestamp; nothing unless the text has exactly the two-digit shape. */
  function ParseStamp(s: string): (r: Option<Stamp>)
    ensures r.Some? <==> |s| == |StampFormat| && Fits(s, StampFormat)
    ensures r.Some? ==> TwoDigitFields(r.value)
  {
    if |s| == |StampFormat| && Fits(s, StampFormat) then
      assert FitsChar(s[0], StampFormat[0]) && FitsChar(s[1], StampFormat[1]);
      assert FitsChar(s[3], StampFormat[3]) && FitsChar(s[4], StampFormat[4]);
      assert FitsChar(s[6], StampFormat[6]) && FitsChar(s[7], StampFormat[7]);
      assert FitsChar(s[9], StampFormat[9]) && FitsChar(s[10], StampFormat[10]);
      assert FitsChar(s[12], StampFormat[12]) && FitsChar(s[13], StampFormat[13]);
      Some(Stamp(Pair(s, 0), Pair(s, 3), Pair(s, 6), Pair(s, 9), Pair(s, 12)))
    else
      None
  }

  function Digit(n: nat): (c: char)
    requires n < 10
    ensures IsDigit(c) && DigitValue(c) == n
  {
    ('0' as int + n) as char
  }

  /** A number below 100 written with two digits, zero-padded. */
  function Pad(n: nat): (s: string)
    requires n < 100
    ensures |s| == 2 && IsDigit(s[0]) && IsDigit(s[1])
    ensures Pair(s, 0) == n
  {
    [Digit(n / 10), Digit(n % 10)]
  }

  /** Writes the fields back in the `MM-DD HH:MM:SS` shape. */
  function FormatStamp(st: Stamp): (s: string)
    requires TwoDigitFields(st)
    ensures |s| == 14 && s[2] == '-' && s[5] == ' ' && s[8] == ':' && s[11] == ':'
    ensures s[0..2] == Pad(st.month) && s[3..5] == Pad(st.day) && s[6..8] == Pad(st.hour)
    ensures s[9..11] == Pad(st.minute) && s[12..14] == Pad(st.second)
  {
    Pad(st.month) + "-" + Pad(st.day) + " " + Pad(st.hour) + ":" + Pad(st.minute) + ":" + Pad(st.second)
  }

  /** Formatting then reading gives back the fields. */
  lemma {:induction false} ParseFormat(st: Stamp)
    requires TwoDigitFields(st)
    ensures ParseStamp(FormatStamp(st)) == Some(st)
  {
    var s := FormatStamp(st);
    assert s[0] == s[0..2][0] && s[1] == s[0..2][1] && s[3] == s[3..5][0] && s[4] == s[3..5][1];
    assert s[6] == s[6..8][0] && s[7] == s[6..8][1] && s[9] == s[9..11][0] && s[10] == s[9..11][1];
    assert s[12] == s[12..14][0] && s[13] == s[12..14][1];
    assert forall k :: 0 <= k < 14 ==> FitsChar(s[k], StampFormat[k]);
  }

  /** Reading then formatting gives back the text. */
  lemma {:induction false} FormatParse(s: string)
    requires ParseStamp(s).Some?
    ensures FormatStamp(ParseStamp(s).value) == s
  {
    var st := ParseStamp(s).value;
    var t := FormatStamp(st);
    assert FitsChar(s[0], StampFormat[0]) && FitsChar(s[1], StampFormat[1]);
    assert FitsChar(s[3], StampFormat[3]) && FitsChar(s[4], StampFormat[4]);
    assert FitsChar(s[6], StampFormat[6]) && FitsChar(s[7], StampFormat[7]);
    assert FitsChar(s[9], StampFormat[9]) && FitsChar(s[10], StampFormat[10]);
    assert FitsChar(s[12], StampFormat[12]) && FitsChar(s[13], StampFormat[13]);
    PairDigits(s, 0);
    PairDigits(s, 3);
    PairDigits(s, 6);
    PairDigits(s, 9);
    PairDigits(s, 12);
    assert FitsChar(s[2], StampFormat[2]) && FitsChar(s[5], StampFormat[5]);
    assert FitsChar(s[8], StampFormat[8]) && FitsChar(s[11], StampFormat[11]);
    assert forall i :: 0 <= i < 14 ==> t[i] == s[i];
  }

  /** Two digits are recovered from the number they write. */
  lemma PairDigits(s: string, i: nat)
    requires i + 2 <= |s| && IsDigit(s[i]) && IsDigit(s[i + 1])
    ensures Pad(Pair(s, i)) == s[i..i + 2]
  {
  }

  predicate IsLeap(y: int) {
    y % 4 == 0 && (y % 100 != 0 || y % 400 == 0)
  }

  function YearDays(y: int): nat {
    if IsLeap(y) then 366 else 365
  }

  function DaysInMonth(y: int, m: int): (d: nat)
    requires 1 <= m <= 12
    ensures 28 <= d <= 31
  {
    if m == 2 then (if IsLeap(y) then 29 else 28)
    else if m == 4 || m == 6 || m == 9 || m == 11 then 30
    else 31
  }

  /** Days of year `y` before the first of month `m`; `m == 13` counts the whole year. */
  function DaysBeforeMonth(y: int, m: int): nat
    requires 1 <= m <= 13
  {
    if m == 1 then 0 else DaysBeforeMonth(y, m - 1) + DaysInMonth(y, m - 1)
  }

  /** The twelve months fill the year exactly. */
  lemma MonthsFillYear(y: int)
    ensures DaysBeforeMonth(y, 13) == YearDays(y)
  {
    var f := DaysInMonth(y, 2);
    assert DaysBeforeMonth(y, 2) == 31;
    assert DaysBeforeMonth(y, 3) == 31 + f;
    assert DaysBeforeMonth(y, 4) == 62 + f;
    assert DaysBeforeMonth(y, 5) == 92 + f;
    assert DaysBeforeMonth(y, 6) == 123 + f;
    assert DaysBeforeMonth(y, 7) == 153 + f;
    assert DaysBeforeMonth(y, 8) == 184 + f;
    assert DaysBeforeMonth(y, 9) == 215 + f;
    assert DaysBeforeMonth(y, 10) == 245 + f;
    assert DaysBeforeMonth(y, 11) == 276 + f;
    assert DaysBeforeMonth(y, 12) == 306 + f;
    assert DaysBeforeMonth(y, 13) == 337 + f;
  }

  /** Later months start later. */
  lemma {:induction false} DaysBeforeMonthGrows(y: int, m: int, n: int)
    requires 1 <= m < n <= 13
    ensures DaysBeforeMonth(y, m) + DaysInMonth(y, m) <= DaysBeforeMonth(y, n)
  {
    if n > m + 1 {
      DaysBeforeMonthGrows(y, m, n - 1);
    }
  }

  /** Days from 0001-01-01 to the first of January of `y`. */
  function DaysBeforeYear(y: int): int {
    var p := y - 1;
    365 * p + p / 4 - p / 100 + p / 400
  }

  /** Days from 0001-01-01 to 1970-01-01. */
  const EpochDay := 719162

  /** Stepping past a multiple of 4, 100 or 400 adds one to the quotient. */
  lemma QuotientSteps(p: int)
    ensures (p + 1) / 4 - p / 4 == if (p + 1) % 4 == 0 then 1 else 0
    ensures (p + 1) / 100 - p / 100 == if (p + 1) % 100 == 0 then 1 else 0
    ensures (p + 1) / 400 - p / 400 == if (p + 1) % 400 == 0 then 1 else 0
  {
  }

  /** A year is 366 days long exactly when it is a leap year. */
  lemma YearLength(y: int)
    ensures DaysBeforeYear(y + 1) - DaysBeforeYear(y) == YearDays(y)
  {
    QuotientSteps(y - 1);
    Multiples(y);
  }

  /** Multiples of 400 are multiples of 100, which are multiples of 4. */
  lemma Multiples(y: int)
    ensures y % 400 == 0 ==> y % 100 == 0
    ensures y % 100 == 0 ==> y % 4 == 0
  {
    if y % 400 == 0 {
      var q := y / 400;
      assert y == 100 * (4 * q);
      Multiple100(y, 4 * q);
    }
    if y % 100 == 0 {
      var q := y / 100;
      assert y == 4 * (25 * q);
      Multiple4(y, 25 * q);
    }
  }

  lemma Multiple100(y: int, q: int)
    requires y == 100 * q
    ensures y % 100 == 0
  {
  }

  lemma Multiple4(y: int, q: int)
    requires y == 4 * q
    ensures y % 4 == 0
  {
  }

  lemma {:induction false} YearsGrow(y: int, z: int)
    requires y < z
    ensures DaysBeforeYear(y) + YearDays(y) <= DaysBeforeYear(z)
    decreases z - y
  {
    YearLength(y);
    if z > y + 1 {
      YearsGrow(y + 1, z);
      YearLength(y + 1);
    }
  }

  lemma EpochDayIsNewYear1970()
    ensures DaysBeforeYear(1970) == EpochDay
  {
  }

  /** A calendar time that exists: a real month, a day of it, and a time of day. */
  predicate Valid(y: int, st: Stamp) {
    && 1 <= st.month <= 12
    && 1 <= st.day <= DaysInMonth(y, st.month)
    && st.hour < 24 && st.minute < 60 && st.second < 60
  }

  /** Days since 1970-01-01 of the date of `st` in year `y`. */
  function DayNumber(y: int, st: Stamp): int
    requires 1 <= st.month <= 12
  {
    DaysBeforeYear(y) + DaysBeforeMonth(y, st.month) + st.day - 1 - EpochDay
  }

  function SecondOfDay(st: Stamp): nat {
    st.hour * 3600 + st.minute * 60 + st.second
  }

  /** Seconds since 1970-01-01 00:00:00. */
  function EpochSeconds(y: int, st: Stamp): int
    requires 1 <= st.month <= 12
  {
    DayNumber(y, st) * 86400 + SecondOfDay(st)
  }

  /** `a` in year `y` comes before `b` in year `z`, field by field. */
  predicate Earlier(y: int, a: Stamp, z: int, b: Stamp) {
    || y < z
    || (y == z && a.month < b.month)
    || (y == z && a.month == b.month && a.day < b.day)
    || (y == z && a.month == b.month && a.day == b.day && a.hour < b.hour)
    || (y == z && a.month == b.month && a.day == b.day && a.hour == b.hour && a.minute < b.minute)
    || (y == z && a.month == b.month && a.day == b.day && a.hour == b.hour && a.minute == b.minute && a.second < b.second)
  }

  /** A time of day is less than a day. */
  lemma SecondOfDayBound(st: Stamp)
    requires st.hour < 24 && st.minute < 60 && st.second < 60
    ensures SecondOfDay(st) < 86400
  {
  }

  /** The day numbers follow the calendar. */
  lemma {:induction false} DaysInOrder(y: int, a: Stamp, z: int, b: Stamp)
    requires Valid(y, a) && Valid(z, b)
    requires y < z || (y == z && a.month < b.month) || (y == z && a.month == b.month && a.day < b.day)
    ensures DayNumber(y, a) < DayNumber(z, b)
  {
    if y < z {
      YearsGrow(y, z);
      DaysBeforeMonthGrows(y, a.month, 13);
      MonthsFillYear(y);
    } else if a.month < b.month {
      DaysBeforeMonthGrows(y, a.month, b.month);
    }
  }

  /** Counting seconds from 1970 preserves the chronological order. */
  lemma {:induction false} EpochSecondsGrow(y: int, a: Stamp, z: int, b: Stamp)
    requires Valid(y, a) && Valid(z, b) && Earlier(y, a, z, b)
    ensures EpochSeconds(y, a) < EpochSeconds(z, b)
  {
    SecondOfDayBound(a);
    SecondOfDayBound(b);
    if y < z || (y == z && a.month < b.month) || (y == z && a.month == b.month && a.day < b.day) {
      DaysInOrder(y, a, z, b);
    }
  }

  /**
   * One time is before another exactly when it has fewer seconds since 1970;
   * in particular two valid calendar times with the same count are the same.
   */
  lemma {:induction false} ChronologicalOrder(y: int, a: Stamp, z: int, b: Stamp)
    requires Valid(y, a) && Valid(z, b)
    ensures EpochSeconds(y, a) < EpochSeconds(z, b) <==> Earlier(y, a, z, b)
    ensures EpochSeconds(y, a) == EpochSeconds(z, b) <==> y == z && a == b
  {
    if Earlier(y, a, z, b) {
      EpochSecondsGrow(y, a, z, b);
    } else if Earlier(z, b, y, a) {
      EpochSecondsGrow(z, b, y, a);
    } else {
      assert y == z && a == b;
    }
  }

  /** The largest magnitude of a pandas nanosecond timestamp (`2**63 - 1`, `-2**63` is NaT). */
  const MaxNanos := 0x7FFF_FFFF_FFFF_FFFF

  /** The whole seconds within that magnitude. */
  const MaxSeconds := 9223372036

  /** pandas can hold the time `secs` seconds after 1970 (1677-09-21 to 2262-04-11). */
  predicate Representable(secs: int) {
    -MaxSeconds <= secs <= MaxSeconds
  }

  /** A time is representable exactly when its count of nanoseconds fits in 64 bits. */
  lemma RepresentableNanos(secs: int)
    ensures Representable(secs) <==> -MaxNanos <= secs * 1000000000 <= MaxNanos
  {
  }

  /**
   * `parse_datetime` (hello.py:88-96): no time for a missing or empty
   * timestamp, for text that is not `MM-DD HH:MM:SS`, for a date that does
   * not exist in `year` and for a time outside pandas' range; otherwise the
   * seconds since 1970.
   */
  function Resolve(year: int, dateTime: Option<string>): (r: Option<int>)
    ensures r.Some? ==> dateTime.Some? && Representable(r.value)
  {
    match dateTime
    case None => None
    case Some(s) =>
      match ParseStamp(s)
      case None => None
      case Some(st) =>
        if Valid(year, st) && Representable(EpochSeconds(year, st)) then Some(EpochSeconds(year, st)) else None
  }

  /** A resolved timestamp reads as a valid time, and the result is that time. */
  lemma ResolvedTime(year: int, s: string, t: int)
    requires Resolve(year, Some(s)) == Some(t)
    ensures ParseStamp(s).Some? && Valid(year, ParseStamp(s).value)
    ensures EpochSeconds(year, ParseStamp(s).value) == t
  {
  }

  /**
   * A timestamp resolves to `t` exactly when it is the `MM-DD HH:MM:SS`
   * writing of a valid time of `year` that pandas can hold and that lies
   * `t` seconds after 1970.
   */
  lemma {:induction false} ResolveMeaning(year: int, dateTime: Option<string>, t: int)
    ensures Resolve(year, dateTime) == Some(t) <==>
      exists st: Stamp :: Valid(year, st) && dateTime == Some(FormatStamp(st))
        && Representable(EpochSeconds(year, st)) && EpochSeconds(year, st) == t
  {
    if Resolve(year, dateTime) == Some(t) {
      var st := ParseStamp(dateTime.value).value;
      ResolvedWriting(year, dateTime.value, t);
      assert Valid(year, st) && dateTime == Some(FormatStamp(st)) && Representable(EpochSeconds(year, st));
    }
    if exists st: Stamp :: Valid(year, st) && dateTime == Some(FormatStamp(st))
        && Representable(EpochSeconds(year, st)) && EpochSeconds(year, st) == t {
      var st: Stamp :| Valid(year, st) && dateTime == Some(FormatStamp(st))
        && Representable(EpochSeconds(year, st)) && EpochSeconds(year, st) == t;
      WritingResolves(year, st);
    }
  }

  /** A resolved timestamp is the writing of the time it parses to. */
  lemma ResolvedWriting(year: int, s: string, t: int)
    requires Resolve(year, Some(s)) == Some(t)
    ensures ParseStamp(s).Some? && s == FormatStamp(ParseStamp(s).value)
    ensures Valid(year, ParseStamp(s).value) && Representable(t) && EpochSeconds(year, ParseStamp(s).value) == t
  {
    FormatParse(s);
  }

  /** The writing of a valid, representable time resolves to that time. */
  lemma WritingResolves(year: int, st: Stamp)
    requires Valid(year, st) && Representable(EpochSeconds(year, st))
    ensures Resolve(year, Some(FormatStamp(st))) == Some(EpochSeconds(year, st))
  {
    ParseFormat(st);
  }
}
