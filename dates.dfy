/**
 * Date resolution. Instants are whole minutes of wall-clock time in
 * Asia/Yekaterinburg, a fixed UTC+5 zone, counted from 1970-01-01 00:00;
 * minute 0 of day `d` is `d * MinutesPerDay`.
 */
module Dates {
  import opened Wrappers
  import opened Errors
  import Lookup

  const MinutesPerHour: int := 60
  const MinutesPerDay: int := 1440    // 24 hours
  const MinutesPerWeek: int := 10080  // 7 days

  /** The Gregorian leap-year rule. */
  predicate IsLeapYear(y: int) {
    y % 4 == 0 && (y % 100 != 0 || y % 400 == 0)
  }

  /**
   * The number of days from 1970-01-01 to the Gregorian date `y-m-d`
   * (negative before it), by the era/year-of-era decomposition of civil dates.
   */
  function DaysFromCivil(y: int, m: int, d: int): int
    requires 1 <= m <= 12 && 1 <= d <= 31
  {
    var y' := if m <= 2 then y - 1 else y;
    var era := y' / 400;
    var yoe := y' - era * 400;
    var mp := if m > 2 then m - 3 else m + 9;
    var doy := (153 * mp + 2) / 5 + d - 1;
    var doe := yoe * 365 + yoe / 4 - yoe / 100 + doy;
    era * 146097 + doe - 719468
  }

  /** Day number of September 1st of `year`. */
  function FirstSeptember(year: int): int {
    DaysFromCivil(year, 9, 1)
  }

  lemma EpochIsDayZero()
    ensures DaysFromCivil(1970, 1, 1) == 0
  {
  }

  /** September 1st by era (400-year cycle) and year of era; the day of year counted from March 1st is 184. */
  function SeptemberByEra(era: int, yoe: int): int {
    era * 146097 + yoe * 365 + yoe / 4 - yoe / 100 + 184 - 719468
  }

  lemma FirstSeptemberByEra(y: int)
    ensures FirstSeptember(y) == SeptemberByEra(y / 400, y % 400)
  {
  }

  lemma NextQuotient(x: int)
    ensures (x + 1) / 4 == x / 4 + (if (x + 1) % 4 == 0 then 1 else 0)
    ensures (x + 1) / 100 == x / 100 + (if (x + 1) % 100 == 0 then 1 else 0)
  {
  }

  /** Euclidean division is the unique quotient/remainder pair. */
  lemma DivModUnique(x: int, d: int, q: int, r: int)
    requires 0 < d && 0 <= r < d && x == q * d + r
    ensures x / d == q && x % d == r
  {
    var q0, r0 := x / d, x % d;
    var k := q - q0;
    assert k * d == q * d - q0 * d;
    assert k * d == r0 - r;
    MulSign(k, d);
  }

  lemma MulSign(k: int, d: int)
    requires 0 < d
    ensures k >= 1 ==> k * d >= d
    ensures k <= -1 ==> k * d <= -d
  {
    if k >= 1 {
      assert (k - 1) * d >= 0;
      assert k * d == (k - 1) * d + d;
    } else if k <= -1 {
      assert (-k - 1) * d >= 0;
      assert -(k * d) == (-k - 1) * d + d;
    }
  }

  lemma RemainderInEra(era: int, yoe: int)
    requires 0 <= yoe < 400
    ensures (era * 400 + yoe) % 4 == yoe % 4
    ensures (era * 400 + yoe) % 100 == yoe % 100
    ensures (era * 400 + yoe) % 400 == yoe && (era * 400 + yoe) / 400 == era
  {
    var x := era * 400 + yoe;
    DivModUnique(x, 400, era, yoe);
    assert yoe == yoe / 4 * 4 + yoe % 4;
    DivModUnique(x, 4, era * 100 + yoe / 4, yoe % 4);
    assert yoe == yoe / 100 * 100 + yoe % 100;
    DivModUnique(x, 100, era * 4 + yoe / 100, yoe % 100);
  }

  /** From one September 1st to the next there are 366 days exactly when the later year is a leap year. */
  lemma FirstSeptemberNextYear(y: int)
    ensures FirstSeptember(y + 1) == FirstSeptember(y) + if IsLeapYear(y + 1) then 366 else 365
  {
    var era, yoe := y / 400, y % 400;
    FirstSeptemberByEra(y);
    FirstSeptemberByEra(y + 1);
    RemainderInEra(era, yoe);
    assert y == era * 400 + yoe;
    if yoe == 399 {
      RemainderInEra(era + 1, 0);
      assert (y + 1) / 400 == era + 1 && (y + 1) % 400 == 0;
      assert IsLeapYear(y + 1);
      assert SeptemberByEra(era + 1, 0) == SeptemberByEra(era, 399) + 366;
    } else {
      RemainderInEra(era, yoe + 1);
      assert (y + 1) / 400 == era && (y + 1) % 400 == yoe + 1;
      NextQuotient(yoe);
      var x := yoe + 1;
      if x % 100 == 0 {
        DivModUnique(x, 4, x / 100 * 25, 0);
      }
      assert IsLeapYear(y + 1) <==> x % 4 == 0 && x % 100 != 0;
      assert SeptemberByEra(era, x) == SeptemberByEra(era, yoe) + 365 + (x / 4 - yoe / 4) - (x / 100 - yoe / 100);
    }
  }

  /** Python's `weekday()` of a day number: Monday is 0, Sunday 6 (1970-01-01 was a Thursday). */
  function Weekday(day: int): (w: int)
    ensures 0 <= w < 7
  {
    (day + 3) % 7
  }

  /** The Monday on or before a day is fewer than seven days before it. */
  lemma MondayOnOrBefore(d: int)
    ensures Weekday(d - Weekday(d)) == 0
    ensures d - 7 < d - Weekday(d) <= d
    ensures (d - 7) * MinutesPerDay < (d - Weekday(d)) * MinutesPerDay <= d * MinutesPerDay
  {
    var q := (d + 3) / 7;
    DivModUnique(d - Weekday(d) + 3, 7, q, 0);
  }

  /**
   * `get_date_of_first_september_week`: midnight of the Monday of the week
   * that contains September 1st of `year`. `datetime` only knows years 1 to 9999.
   */
  function FirstWeekStart(year: int): (r: Result<int, Error>)
    ensures r.Failure? <==> !(1 <= year <= 9999)
    ensures r.Failure? ==> r.error == YearOutOfRange(year)
    ensures r.Success? ==> r.value % MinutesPerDay == 0 && Weekday(r.value / MinutesPerDay) == 0
    ensures r.Success? ==>
      var sep1 := FirstSeptember(year) * MinutesPerDay;
      sep1 - MinutesPerWeek < r.value <= sep1
  {
    if 1 <= year <= 9999 then
      var day := FirstSeptember(year) - Weekday(FirstSeptember(year));
      MondayOnOrBefore(FirstSeptember(year));
      SplitInstant(day, 0);
      assert day * MinutesPerDay + 0 == day * MinutesPerDay;
      Success(day * MinutesPerDay)
    else
      Failure(YearOutOfRange(year))
  }

  /** The weekday names in the program's order, Monday first. */
  const WeekdayNames: seq<string> :=
    ["Понедельник", "Вторник", "Среда", "Четверг", "Пятница", "Суббота", "Воскресенье"]

  predicate IsDigit(c: char) {
    '0' <= c <= '9'
  }

  predicate AllDigits(s: string) {
    forall i :: 0 <= i < |s| ==> IsDigit(s[i])
  }

  /** The value of a string of decimal digits (leading zeros allowed). */
  function DigitsValue(s: string): (n: nat)
    requires AllDigits(s)
  {
    if s == [] then 0
    else DigitsValue(s[..|s| - 1]) * 10 + (s[|s| - 1] as int - '0' as int)
  }

  /** `int(s)` on a string of ASCII characters: an optional sign and at least one digit. */
  function ParseInt(s: string): (r: Option<int>)
    ensures |s| > 0 && AllDigits(s) ==> r == Some(DigitsValue(s))
    ensures |s| > 1 && s[0] == '-' && AllDigits(s[1..]) ==> r.Some? && r.value == -(DigitsValue(s[1..]) as int)
    ensures |s| > 1 && s[0] == '+' && AllDigits(s[1..]) ==> r == Some(DigitsValue(s[1..]))
    ensures r.Some? ==> |s| > 0 && (AllDigits(s) || (|s| > 1 && (s[0] == '-' || s[0] == '+') && AllDigits(s[1..])))
  {
    if |s| > 1 && (s[0] == '-' || s[0] == '+') && AllDigits(s[1..]) then
      var magnitude: int := DigitsValue(s[1..]);
      Some(if s[0] == '-' then -magnitude else magnitude)
    else if |s| > 0 && AllDigits(s) then
      Some(DigitsValue(s))
    else
      None
  }

  /** The decimal form of a natural number, as `str()` or an f-string writes it: no leading zero but for 0 itself. */
  function Decimal(n: nat): (s: string)
    ensures |s| > 0 && AllDigits(s)
    ensures s[0] == '0' <==> n == 0
  {
    if n < 10 then [('0' as int + n) as char]
    else Decimal(n / 10) + [('0' as int + n % 10) as char]
  }

  lemma {:induction false} DecimalValue(n: nat)
    ensures DigitsValue(Decimal(n)) == n
  {
    if n >= 10 {
      var s := Decimal(n);
      assert s[..|s| - 1] == Decimal(n / 10);
      DecimalValue(n / 10);
    }
  }

  /** `int()` reads back what `str()` wrote. */
  lemma ParseDecimal(n: int)
    ensures ParseInt(if n < 0 then "-" + Decimal(-n) else Decimal(n)) == Some(n)
  {
    if n < 0 {
      var s := "-" + Decimal(-n);
      assert s[1..] == Decimal(-n);
      DecimalValue(-n);
    } else {
      DecimalValue(n);
    }
  }

  /** `sep.join(parts)`: the parts in order with one separator between neighbours. */
  function Join(parts: seq<string>, sep: char): string {
    if parts == [] then ""
    else if |parts| == 1 then parts[0]
    else parts[0] + [sep] + Join(parts[1..], sep)
  }

  /** `s.split(sep)`: the maximal separator-free pieces of `s`, in order. */
  function Split(s: string, sep: char): (parts: seq<string>)
    ensures |parts| > 0
    ensures forall i :: 0 <= i < |parts| ==> sep !in parts[i]
  {
    if s == [] then [""]
    else
      var rest := Split(s[1..], sep);
      if s[0] == sep then [""] + rest
      else [[s[0]] + rest[0]] + rest[1..]
  }

  /** `hours, minutes = map(int, t.split(":"))`: exactly two parts, each an integer. */
  function ParseClock(t: string): Option<(int, int)> {
    var parts := Split(t, ':');
    if |parts| != 2 then None
    else
      match (ParseInt(parts[0]), ParseInt(parts[1]))
      case (Some(h), Some(m)) => Some((h, m))
      case _ => None
  }

  /** There is one more piece than there are separators. */
  lemma {:induction false} SplitCount(s: string, sep: char)
    ensures |Split(s, sep)| == multiset(s)[sep] + 1
  {
    if s != [] {
      SplitCount(s[1..], sep);
      assert s == [s[0]] + s[1..];
      assert multiset(s) == multiset([s[0]]) + multiset(s[1..]);
    }
  }

  /** Joining the pieces back with the separator gives the string that was split. */
  lemma {:induction false} SplitJoin(s: string, sep: char)
    ensures Join(Split(s, sep), sep) == s
  {
    if s != [] {
      var rest := Split(s[1..], sep);
      SplitJoin(s[1..], sep);
      var parts := Split(s, sep);
      if s[0] == sep {
        assert parts[1..] == rest;
      } else if |rest| == 1 {
        assert parts == [[s[0]] + rest[0]];
      } else {
        assert parts[1..] == rest[1..];
        assert Join(rest, sep) == rest[0] + [sep] + Join(rest[1..], sep);
      }
    }
  }

  lemma SplitNoSeparator(s: string, sep: char)
    requires sep !in s
    ensures Split(s, sep) == [s]
  {
    if s != [] {
      SplitNoSeparator(s[1..], sep);
      assert [s[0]] + s[1..] == s;
    }
  }

  lemma {:induction false} SplitAround(a: string, b: string, sep: char)
    requires sep !in a && sep !in b
    ensures Split(a + [sep] + b, sep) == [a, b]
  {
    if a == [] {
      assert a + [sep] + b == [sep] + b;
      assert ([sep] + b)[1..] == b;
      SplitNoSeparator(b, sep);
    } else {
      assert (a + [sep] + b)[1..] == a[1..] + [sep] + b;
      SplitAround(a[1..], b, sep);
      assert [a[0]] + a[1..] == a;
    }
  }

  lemma TwoDigitsValue(s: string)
    requires |s| == 2 && AllDigits(s)
    ensures DigitsValue(s) == (s[0] as int - '0' as int) * 10 + (s[1] as int - '0' as int)
  {
    assert s[..1][..0] == [];
    assert DigitsValue(s[..1]) == s[0] as int - '0' as int;
    assert s[..|s| - 1] == s[..1];
  }

  /**
   * A time that parses has exactly one colon, and the hours and the minutes
   * are the integers written before and after it.
   */
  lemma ParseClockParts(t: string)
    requires ParseClock(t).Some?
    ensures multiset(t)[':'] == 1
    ensures exists i :: 0 <= i < |t| && t[i] == ':' && ParseInt(t[..i]) == Some(ParseClock(t).value.0) && ParseInt(t[i + 1..]) == Some(ParseClock(t).value.1)
  {
    var parts := Split(t, ':');
    SplitCount(t, ':');
    SplitJoin(t, ':');
    assert parts[1..] == [parts[1]];
    assert t == parts[0] + [':'] + parts[1];
    var i := |parts[0]|;
    assert t[i] == ':' && t[..i] == parts[0] && t[i + 1..] == parts[1];
  }

  /** A two-digit "HH:MM" reads as those hours and minutes; leading zeros are allowed. */
  lemma ParseClockTwoDigits(t: string)
    requires |t| == 5 && t[2] == ':'
    requires IsDigit(t[0]) && IsDigit(t[1]) && IsDigit(t[3]) && IsDigit(t[4])
    ensures ParseClock(t) == Some(((t[0] as int - '0' as int) * 10 + (t[1] as int - '0' as int),
                                   (t[3] as int - '0' as int) * 10 + (t[4] as int - '0' as int)))
  {
    var hh, mm := t[..2], t[3..];
    assert t == hh + [':'] + mm;
    SplitAround(hh, mm, ':');
    TwoDigitsValue(hh);
    TwoDigitsValue(mm);
    assert ParseInt(hh) == Some(DigitsValue(hh));
    assert ParseInt(mm) == Some(DigitsValue(mm));
  }

  /**
   * `get_date_from_schedule`: the instant `hours:minutes` on weekday `dayName`
   * of academic week `week`, counted from the first week's Monday midnight.
   */
  function Resolve(firstWeek: int, week: int, dayName: string, time: string): (r: Result<int, Error>)
    ensures r.Failure? <==> dayName !in WeekdayNames || ParseClock(time).None?
    ensures r.Failure? && dayName !in WeekdayNames ==> r.error == InvalidWeekday(dayName)
    ensures r.Failure? && dayName in WeekdayNames ==> r.error == InvalidTime(time)
  {
    match Lookup.IndexOf(WeekdayNames, dayName)
    case None => Failure(InvalidWeekday(dayName))
    case Some(day) =>
      match ParseClock(time)
      case None => Failure(InvalidTime(time))
      case Some((hours, minutes)) =>
        Success(firstWeek + (week - 1) * MinutesPerWeek + day * MinutesPerDay + hours * MinutesPerHour + minutes)
  }

  /** Moving to another week moves the resolved instant by whole weeks and nothing else. */
  lemma ResolveOtherWeek(firstWeek: int, w1: int, w2: int, dayName: string, time: string)
    ensures Resolve(firstWeek, w1, dayName, time).Success? <==> Resolve(firstWeek, w2, dayName, time).Success?
    ensures Resolve(firstWeek, w1, dayName, time).Success? ==>
      Resolve(firstWeek, w2, dayName, time).value == Resolve(firstWeek, w1, dayName, time).value + (w2 - w1) * MinutesPerWeek
  {
    var a, b := Resolve(firstWeek, w1, dayName, time), Resolve(firstWeek, w2, dayName, time);
    if a.Success? {
      var day := Lookup.IndexOf(WeekdayNames, dayName).value;
      var (hours, minutes) := ParseClock(time).value;
      var rest := day * MinutesPerDay + hours * MinutesPerHour + minutes;
      assert a.value == firstWeek + (w1 - 1) * MinutesPerWeek + rest;
      assert b.value == firstWeek + (w2 - 1) * MinutesPerWeek + rest;
      assert (w2 - 1) * MinutesPerWeek == (w1 - 1) * MinutesPerWeek + (w2 - w1) * MinutesPerWeek;
    }
  }

  /**
   * The resolved instant, for a clock time within the day and a Monday-midnight
   * first week, falls on the named weekday at that clock time, `week - 1` weeks on.
   */
  lemma ResolveLandsOnWeekday(firstWeek: int, week: int, dayName: string, time: string)
    requires firstWeek % MinutesPerDay == 0 && Weekday(firstWeek / MinutesPerDay) == 0
    requires dayName in WeekdayNames
    requires ParseClock(time).Some?
    requires 0 <= ParseClock(time).value.0 < 24 && 0 <= ParseClock(time).value.1 < 60
    ensures Resolve(firstWeek, week, dayName, time).Success?
    ensures var at := Resolve(firstWeek, week, dayName, time).value;
      && WeekdayNames[Weekday(at / MinutesPerDay)] == dayName
      && at % MinutesPerDay == ParseClock(time).value.0 * MinutesPerHour + ParseClock(time).value.1
      && at / MinutesPerDay == firstWeek / MinutesPerDay + (week - 1) * 7 + Weekday(at / MinutesPerDay)
  {
    var day := Lookup.IndexOf(WeekdayNames, dayName).value;
    var (hours, minutes) := ParseClock(time).value;
    var base := firstWeek / MinutesPerDay;
    var d := base + (week - 1) * 7 + day;
    var clock := hours * MinutesPerHour + minutes;
    var at := Resolve(firstWeek, week, dayName, time).value;
    assert at == d * MinutesPerDay + clock by {
      assert firstWeek == base * MinutesPerDay;
    }
    assert at / MinutesPerDay == d && at % MinutesPerDay == clock by {
      SplitInstant(d, clock);
    }
    WeekdayAfterWeeks(base, week - 1, day, d);
    assert WeekdayNames[day] == dayName;
  }

  lemma SplitInstant(d: int, clock: int)
    requires 0 <= clock < MinutesPerDay
    ensures (d * MinutesPerDay + clock) / MinutesPerDay == d
    ensures (d * MinutesPerDay + clock) % MinutesPerDay == clock
  {
    DivModUnique(d * MinutesPerDay + clock, MinutesPerDay, d, clock);
  }

  lemma WeekdayAfterWeeks(monday: int, weeks: int, day: int, d: int)
    requires Weekday(monday) == 0 && 0 <= day < 7 && d == monday + weeks * 7 + day
    ensures Weekday(d) == day
  {
    var q := (monday + 3) / 7;
    assert monday + 3 == q * 7;
    DivModUnique(d + 3, 7, q + weeks, day);
  }

  /**
   * September 1st, 2024 was a Sunday, so the first academic week of 2024
   * starts on Monday, August 26th, six days before it.
   */
  lemma FirstWeekOf2024()
    ensures FirstSeptember(2024) == 19967 && Weekday(19967) == 6
    ensures FirstWeekStart(2024) == Success(DaysFromCivil(2024, 8, 26) * MinutesPerDay)
  {
  }
}
