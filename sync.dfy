/**
 * One reconciliation cycle (`main`): the first week of the academic year,
 * the two semesters' events merged, and the plan against the calendar.
 */
module Sync {
  import opened Wrappers
  import opened Errors
  import opened Dicts
  import Dates
  import opened Events
  import opened Reconcile

  /** The settings one cycle reads: the two-digit year, the query mode and the two reminder lengths. */
  datatype Config = Config(scheduleYear: string, scheduleType: string, minutesFirst: int, minutesOther: int)

  /**
   * `int("20" + schedule_year)`: it succeeds exactly on a string of digits, and
   * the year is the decimal value of "20" followed by them.
   */
  function AcademicYear(scheduleYear: string): (r: Result<int, Error>)
    ensures r.Success? <==> Dates.AllDigits(scheduleYear)
    ensures r.Success? ==> r.value == Dates.DigitsValue("20" + scheduleYear)
    ensures r.Failure? ==> r.error == InvalidYear(scheduleYear)
  {
    var s := "20" + scheduleYear;
    assert forall i :: 0 <= i < |scheduleYear| ==> s[i + 2] == scheduleYear[i];
    assert Dates.AllDigits(s) ==> Dates.AllDigits(scheduleYear) by {
      if Dates.AllDigits(s) {
        forall i | 0 <= i < |scheduleYear| ensures Dates.IsDigit(scheduleYear[i]) {
          assert Dates.IsDigit(s[i + 2]);
        }
      }
    }
    match Dates.ParseInt("20" + scheduleYear)
    case None => Failure(InvalidYear(scheduleYear))
    case Some(year) => Success(year)
  }

  /** A two-digit year names a year of the twenty-first century. */
  lemma TwoDigitYear(scheduleYear: string)
    requires |scheduleYear| == 2 && Dates.AllDigits(scheduleYear)
    ensures AcademicYear(scheduleYear) == Success(2000 + Dates.DigitsValue(scheduleYear))
  {
    var s := "20" + scheduleYear;
    var y0, y1 := scheduleYear[0] as int - '0' as int, scheduleYear[1] as int - '0' as int;
    assert Dates.AllDigits(s);
    assert s[0] == '2';
    var t3 := s[..3];
    assert s[..|s| - 1] == t3 && s[|s| - 1] == scheduleYear[1];
    assert t3[..2] == "20" && t3[2] == scheduleYear[0];
    assert Dates.DigitsValue("20") == 20;
    assert Dates.DigitsValue(t3) == 200 + y0;
    assert Dates.DigitsValue(s) == 2000 + 10 * y0 + y1;
    assert scheduleYear[..1][..0] == [];
    assert Dates.DigitsValue(scheduleYear[..1]) == y0;
    assert Dates.DigitsValue(scheduleYear) == 10 * y0 + y1;
  }

  /** The reminder settings and the first week fixed for every row of the cycle. */
  function SettingsOf(c: Config, firstWeek: int): Settings {
    Settings(firstWeek, c.scheduleType, c.minutesFirst, c.minutesOther)
  }

  /**
   * What one cycle does: the plan for the calendar, or the exception that
   * aborts the cycle before any calendar call.
   */
  function Cycle(c: Config, autumn: seq<Row>, spring: seq<Row>, remote: seq<Event>): Result<seq<Op>, Error> {
    match AcademicYear(c.scheduleYear)
    case Failure(e) => Failure(e)
    case Success(year) =>
      match Dates.FirstWeekStart(year)
      case Failure(e) => Failure(e)
      case Success(firstWeek) =>
        match Schedule([autumn, spring], SettingsOf(c, firstWeek))
        case Failure(e) => Failure(e)
        case Success(canonical) => Success(Plan(canonical, remote))
  }

  /** A year setting that is not digits aborts the cycle with that text. */
  lemma CycleBadYear(c: Config, autumn: seq<Row>, spring: seq<Row>, remote: seq<Event>)
    requires !Dates.AllDigits(c.scheduleYear)
    ensures Cycle(c, autumn, spring, remote) == Failure(InvalidYear(c.scheduleYear))
  {
  }

  /**
   * A two-digit year always has a first week, and the cycle then succeeds
   * exactly when both semesters can be built.
   */
  lemma CycleOutcome(c: Config, autumn: seq<Row>, spring: seq<Row>, remote: seq<Event>)
    requires |c.scheduleYear| == 2 && Dates.AllDigits(c.scheduleYear)
    ensures var firstWeek := Dates.FirstWeekStart(2000 + Dates.DigitsValue(c.scheduleYear));
      && firstWeek.Success?
      && var s := SettingsOf(c, firstWeek.value);
        Cycle(c, autumn, spring, remote).Success? <==> Semester(autumn, s).Success? && Semester(spring, s).Success?
  {
    TwoDigitYear(c.scheduleYear);
    TwoDigitRange(c.scheduleYear);
    var year := 2000 + Dates.DigitsValue(c.scheduleYear);
    FirstWeekExists(year);
    CycleWithYear(c, autumn, spring, remote, year);
    var s := SettingsOf(c, Dates.FirstWeekStart(year).value);
    assert Cycle(c, autumn, spring, remote).Success? <==> Semester(autumn, s).Success? && Semester(spring, s).Success?;
  }

  lemma FirstWeekExists(year: int)
    requires 1 <= year <= 9999
    ensures Dates.FirstWeekStart(year).Success?
  {
  }

  lemma CycleWithYear(c: Config, autumn: seq<Row>, spring: seq<Row>, remote: seq<Event>, year: int)
    requires AcademicYear(c.scheduleYear) == Success(year) && Dates.FirstWeekStart(year).Success?
    ensures var s := SettingsOf(c, Dates.FirstWeekStart(year).value);
      Cycle(c, autumn, spring, remote).Success? <==> Semester(autumn, s).Success? && Semester(spring, s).Success?
  {
    LaterSemesterWins(autumn, spring, SettingsOf(c, Dates.FirstWeekStart(year).value));
  }

  lemma TwoDigitRange(scheduleYear: string)
    requires |scheduleYear| == 2 && Dates.AllDigits(scheduleYear)
    ensures 1 <= 2000 + Dates.DigitsValue(scheduleYear) <= 9999
  {
    Dates.TwoDigitsValue(scheduleYear);
    assert Dates.IsDigit(scheduleYear[0]) && Dates.IsDigit(scheduleYear[1]);
  }

  /**
   * `main`: the year parsed, the first week found, both semesters built and
   * merged, then the calendar reconciled. The rows of the two semesters and
   * the calendar's events are what the timetable and the calendar return.
   */
  method RunCycle(c: Config, autumn: seq<Row>, spring: seq<Row>, remote: seq<Event>) returns (r: Result<seq<Op>, Error>)
    ensures r == Cycle(c, autumn, spring, remote)
  {
    var year := AcademicYear(c.scheduleYear);
    if year.Failure? {
      return Failure(year.error);
    }
    var firstWeek := Dates.FirstWeekStart(year.value);
    if firstWeek.Failure? {
      return Failure(firstWeek.error);
    }
    var schedule := BuildSchedule([autumn, spring], SettingsOf(c, firstWeek.value));
    if schedule.Failure? {
      return Failure(schedule.error);
    }
    var ops := Reconcile.Reconcile(schedule.value, remote);
    r := Success(ops);
  }

  /**
   * Running the cycle again, unchanged, on the calendar the first cycle left
   * behind, plans nothing; the calendar's events must have distinct ids.
   */
  lemma CycleIdempotent(c: Config, autumn: seq<Row>, spring: seq<Row>, remote: seq<Event>)
    requires DistinctIds(remote) && Cycle(c, autumn, spring, remote).Success?
    ensures Cycle(c, autumn, spring, ApplyAll(remote, Cycle(c, autumn, spring, remote).value)) == Success([])
  {
    var year := AcademicYear(c.scheduleYear).value;
    var firstWeek := Dates.FirstWeekStart(year).value;
    var s := SettingsOf(c, firstWeek);
    var canonical := Schedule([autumn, spring], s).value;
    ScheduleKeyed([autumn, spring], s);
    ReconcileConverges(canonical, remote);
  }
}
