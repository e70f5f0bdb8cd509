/**
 * Building the calendar events of one semester from the parsed timetable
 * rows (`get_schedule_events`), and merging the semesters of a year.
 */
module Events {
  import opened Wrappers
  import opened Errors
  import opened Dicts
  import Lookup
  import Dates

  /** One data row of the timetable, carrying the weekday of the day header it belongs to. */
  datatype Row = Row(
    weekday: string,
    start: string,
    end: string,
    weeks: seq<string>,
    name: string,
    lessonType: string,
    counterpart: string,
    room: string,
    comment: string)

  /** A reminder of the given kind, some minutes before the start. */
  datatype Reminder = Reminder(kind: string, minutesBefore: int)

  /** A calendar event; `eventId` is set only on events that the calendar already holds. */
  datatype Event = Event(
    summary: string,
    description: string,
    location: string,
    colorId: Option<string>,
    start: int,
    end: int,
    reminders: seq<Reminder>,
    eventId: Option<string>)

  /** The identity of an event: its summary, description, location and start to the minute. */
  datatype Key = Key(summary: string, description: string, location: string, start: int)

  function KeyOf(e: Event): Key {
    Key(e.summary, e.description, e.location, e.start)
  }

  /**
   * Two events share an identity exactly when their summaries, descriptions,
   * locations and starts agree; colour, end, reminders and id play no part.
   */
  lemma SameKey(a: Event, b: Event)
    ensures KeyOf(a) == KeyOf(b) <==>
      a.summary == b.summary && a.description == b.description && a.location == b.location && a.start == b.start
  {
  }

  /** What one run fixes for every row: the first week's Monday, the query mode and the two reminder lengths. */
  datatype Settings = Settings(firstWeek: int, scheduleType: string, minutesFirst: int, minutesOther: int)

  /** The first-lesson accumulator's key: the week exactly as listed in the row, and the weekday name. */
  datatype DayKey = DayKey(week: string, weekday: string)

  /** One listed week of one row. */
  datatype Occurrence = Occurrence(row: Row, week: string)

  function DayOf(o: Occurrence): DayKey {
    DayKey(o.week, o.row.weekday)
  }

  /** A Python value of the two types the query-mode comparison meets. */
  datatype PyValue = PyStr(text: string) | PyInt(number: int)

  /** Python's `==`: a string never equals an integer. */
  predicate PyEquals(a: PyValue, b: PyValue) {
    match (a, b)
    case (PyStr(x), PyStr(y)) => x == y
    case (PyInt(x), PyInt(y)) => x == y
    case _ => false
  }

  /**
   * The counterpart label. The program compares the query mode, a string read
   * from the settings, with the integer 1, so the teacher label is never chosen.
   */
  function RoleLabel(scheduleType: string): (r: string)
    ensures r == "Группа"
  {
    if PyEquals(PyStr(scheduleType), PyInt(1)) then "Преподаватель" else "Группа"
  }

  /** `f"{n}. {name} — {type}"`. */
  function Title(n: nat, name: string, lessonType: string): string {
    Dates.Decimal(n) + ". " + name + " — " + lessonType
  }

  /**
   * A title begins with the slot number in decimal, which reads back as that
   * number, then ". ", and ends with the lesson type.
   */
  lemma TitleNumber(n: nat, name: string, lessonType: string)
    ensures var t, k := Title(n, name, lessonType), |Dates.Decimal(n)|;
      && k + 2 <= |t|
      && Dates.ParseInt(t[..k]) == Some(n)
      && t[k..k + 2] == ". "
      && t[|t| - |lessonType|..] == lessonType
  {
    Dates.ParseDecimal(n);
    TitleParts(Dates.Decimal(n), name, lessonType);
  }

  lemma TitleParts(d: string, name: string, lessonType: string)
    ensures var t := d + ". " + name + " — " + lessonType;
      && |d| + 2 <= |t|
      && t[..|d|] == d
      && t[|d|..|d| + 2] == ". "
      && t[|t| - |lessonType|..] == lessonType
  {
  }

  /** The label and counterpart, then a comment line only when there is a comment. */
  function Describe(role: string, counterpart: string, comment: string): string {
    role + ": " + counterpart + (if comment != "" then "\nКомментарий: " + comment else "")
  }

  /**
   * The description is the label and counterpart alone exactly when there is no
   * comment; otherwise the comment line follows them.
   */
  lemma DescribeComment(role: string, counterpart: string, comment: string)
    ensures Describe(role, counterpart, comment) == role + ": " + counterpart <==> comment == ""
    ensures var head := role + ": " + counterpart;
      comment != "" ==> Describe(role, counterpart, comment)[|head|..] == "\nКомментарий: " + comment
  {
    var head := role + ": " + counterpart;
    if comment != "" {
      var d := Describe(role, counterpart, comment);
      assert d == head + ("\nКомментарий: " + comment);
      assert |d| > |head|;
    }
  }

  /**
   * The event of one occurrence before its reminder is chosen. It fails, in
   * the program's order of evaluation, on an unknown start slot, a week that is
   * not an integer, an unknown weekday, or a start or end that is not "HH:MM".
   */
  function BaseEvent(o: Occurrence, s: Settings): (r: Result<Event, Error>)
    ensures r.Success? ==> Lookup.LessonNumber(o.row.start).Some? && Dates.ParseInt(o.week).Some?
    ensures r.Success? ==> r.value.reminders == [] && r.value.eventId == None
    ensures r.Success? ==> r.value.colorId == Lookup.EventColor(o.row.lessonType)
    ensures Lookup.LessonNumber(o.row.start).None? ==> r == Failure(UnknownLessonSlot(o.row.start))
  {
    match Lookup.LessonNumber(o.row.start)
    case None => Failure(UnknownLessonSlot(o.row.start))
    case Some(n) =>
      match Dates.ParseInt(o.week)
      case None => Failure(InvalidWeek(o.week))
      case Some(week) =>
        match Dates.Resolve(s.firstWeek, week, o.row.weekday, o.row.start)
        case Failure(e) => Failure(e)
        case Success(start) =>
          match Dates.Resolve(s.firstWeek, week, o.row.weekday, o.row.end)
          case Failure(e) => Failure(e)
          case Success(end) =>
            Success(Event(
              Title(n, o.row.name, o.row.lessonType),
              Describe(RoleLabel(s.scheduleType), o.row.counterpart, o.row.comment),
              o.row.room,
              Lookup.EventColor(o.row.lessonType),
              start, end, [], None))
  }

  /**
   * The first-lesson reminder when the day has no recorded lesson yet or the
   * recorded one is this lesson's slot, the other reminder otherwise.
   */
  function ReminderMinutes(recorded: Option<int>, number: int, s: Settings): (m: int)
    ensures m == s.minutesFirst || m == s.minutesOther
    ensures s.minutesFirst != s.minutesOther ==>
      (m == s.minutesFirst <==> recorded == None || recorded == Some(number))
  {
    if recorded == None || recorded == Some(number) then s.minutesFirst else s.minutesOther
  }

  /** What the accumulator holds for a day. */
  function RecordedFor(first: map<DayKey, int>, day: DayKey): Option<int> {
    if day in first then Some(first[day]) else None
  }

  /** The accumulator after an occurrence: a day's first lesson number is written once and kept. */
  function Record(first: map<DayKey, int>, day: DayKey, number: int): (r: map<DayKey, int>)
    ensures r.Keys == first.Keys + {day}
    ensures forall d :: d in first ==> r[d] == first[d]
    ensures day !in first ==> r[day] == number
  {
    if day in first then first else first[day := number]
  }

  /** `e` with the single popup reminder `minutes` before its start. */
  function WithReminder(e: Event, minutes: int): Event {
    e.(reminders := [Reminder("popup", minutes)])
  }

  /** The slot number an occurrence records for its day; 0 only where its event cannot be built anyway. */
  function SlotNumber(o: Occurrence): int {
    match Lookup.LessonNumber(o.row.start)
    case None => 0
    case Some(n) => n
  }

  /** How the row loop builds one occurrence's event before its reminder is chosen. */
  function Builder(s: Settings): Occurrence -> Result<Event, Error> {
    o => BaseEvent(o, s)
  }

  /**
   * One step of the row loop, for any way `build` of building an occurrence's
   * event and any slot numbering `number`: the built event with the reminder
   * chosen from what the accumulator holds for the occurrence's day.
   */
  function MakeWith(o: Occurrence, build: Occurrence -> Result<Event, Error>, number: Occurrence -> int,
                    s: Settings, first: map<DayKey, int>): (r: Result<Event, Error>)
    ensures r.Success? <==> build(o).Success?
    ensures r.Failure? ==> r.error == build(o).error
  {
    match build(o)
    case Failure(e) => Failure(e)
    case Success(e) => Success(WithReminder(e, ReminderMinutes(RecordedFor(first, DayOf(o)), number(o), s)))
  }

  /** The events of the occurrences in order, threading the first-lesson accumulator; the first failure aborts. */
  function BuildWith(occs: seq<Occurrence>, build: Occurrence -> Result<Event, Error>, number: Occurrence -> int,
                     s: Settings, first: map<DayKey, int>): (r: Result<seq<Event>, Error>)
    ensures r.Success? ==> |r.value| == |occs|
    decreases |occs|
  {
    if occs == [] then Success([])
    else
      match MakeWith(occs[0], build, number, s, first)
      case Failure(e) => Failure(e)
      case Success(e) =>
        match BuildWith(occs[1..], build, number, s, Record(first, DayOf(occs[0]), number(occs[0])))
        case Failure(err) => Failure(err)
        case Success(rest) => Success([e] + rest)
  }

  /** The event of one occurrence, with its single popup reminder. */
  function MakeEvent(o: Occurrence, s: Settings, first: map<DayKey, int>): (r: Result<Event, Error>)
    ensures r.Success? <==> BaseEvent(o, s).Success?
    ensures r.Failure? ==> r.error == BaseEvent(o, s).error
  {
    MakeWith(o, Builder(s), SlotNumber, s, first)
  }

  /** The row loop of `get_schedule_events` over the occurrences of a semester. */
  function BuildEvents(occs: seq<Occurrence>, s: Settings, first: map<DayKey, int>): Result<seq<Event>, Error> {
    BuildWith(occs, Builder(s), SlotNumber, s, first)
  }

  /** A row expands into one occurrence per listed week, in the listed order. */
  function Expand(row: Row): (occs: seq<Occurrence>)
    ensures |occs| == |row.weeks|
    ensures forall k :: 0 <= k < |occs| ==> occs[k] == Occurrence(row, row.weeks[k])
  {
    seq(|row.weeks|, k requires 0 <= k < |row.weeks| => Occurrence(row, row.weeks[k]))
  }

  function Occurrences(rows: seq<Row>): seq<Occurrence> {
    if rows == [] then [] else Expand(rows[0]) + Occurrences(rows[1..])
  }

  /** The number of weeks listed over all rows. */
  function WeeksListed(rows: seq<Row>): nat {
    if rows == [] then 0 else |rows[0].weeks| + WeeksListed(rows[1..])
  }

  /** Storing each event under its key: a later event with the same key replaces an earlier one. */
  function Collect(evs: seq<Event>): (d: Dict<Key, Event>)
    ensures d.Valid()
  {
    if evs == [] then Empty()
    else
      var last := evs[|evs| - 1];
      Put(Collect(evs[..|evs| - 1]), KeyOf(last), last)
  }

  /** The events of one semester, keyed by identity. */
  function Semester(rows: seq<Row>, s: Settings): (r: Result<Dict<Key, Event>, Error>)
    ensures r.Success? ==> r.value.Valid()
  {
    match BuildEvents(Occurrences(rows), s, map[])
    case Failure(e) => Failure(e)
    case Success(evs) => Success(Collect(evs))
  }

  function Prepend(built: seq<Event>, r: Result<seq<Event>, Error>): Result<seq<Event>, Error> {
    match r
    case Failure(e) => Failure(e)
    case Success(evs) => Success(built + evs)
  }

  lemma BuildStep(o: Occurrence, rest: seq<Occurrence>, s: Settings, first: map<DayKey, int>, built: seq<Event>)
    ensures MakeEvent(o, s, first).Failure? ==>
      Prepend(built, BuildEvents([o] + rest, s, first)) == Failure(MakeEvent(o, s, first).error)
    ensures MakeEvent(o, s, first).Success? ==>
      Prepend(built, BuildEvents([o] + rest, s, first))
      == Prepend(built + [MakeEvent(o, s, first).value],
                 BuildEvents(rest, s, Record(first, DayOf(o), SlotNumber(o))))
  {
    BuildWithStep(o, rest, Builder(s), SlotNumber, s, first, built);
  }

  /** One step of the row loop: the first occurrence's event is appended to what was built. */
  lemma BuildWithStep(o: Occurrence, rest: seq<Occurrence>, build: Occurrence -> Result<Event, Error>,
                      number: Occurrence -> int, s: Settings, first: map<DayKey, int>, built: seq<Event>)
    ensures MakeWith(o, build, number, s, first).Failure? ==>
      Prepend(built, BuildWith([o] + rest, build, number, s, first)) == Failure(MakeWith(o, build, number, s, first).error)
    ensures MakeWith(o, build, number, s, first).Success? ==>
      Prepend(built, BuildWith([o] + rest, build, number, s, first))
      == Prepend(built + [MakeWith(o, build, number, s, first).value],
                 BuildWith(rest, build, number, s, Record(first, DayOf(o), number(o))))
  {
    assert ([o] + rest)[0] == o && ([o] + rest)[1..] == rest;
    if MakeWith(o, build, number, s, first).Success? {
      var e := MakeWith(o, build, number, s, first).value;
      var next := Record(first, DayOf(o), number(o));
      match BuildWith(rest, build, number, s, next)
      case Failure(_) =>
      case Success(evs) => AppendAssociative(built, [e], evs);
    }
  }

  lemma HeadOfSuffix<T>(xs: seq<T>, j: nat, tail: seq<T>)
    requires j < |xs|
    ensures xs[j..] + tail == [xs[j]] + (xs[j + 1..] + tail)
  {
  }

  lemma PrependNothing(r: Result<seq<Event>, Error>)
    ensures Prepend([], r) == r
  {
    if r.Success? {
      assert [] + r.value == r.value;
    }
  }

  lemma CollectStep(built: seq<Event>, e: Event)
    ensures Collect(built + [e]) == Put(Collect(built), KeyOf(e), e)
  {
    assert (built + [e])[..|built|] == built;
  }

  /**
   * The row loop of `get_schedule_events`: for every row and every listed week,
   * build the event, store it under its key, and record the day's first lesson
   * number if the day has none yet.
   */
  method BuildSemester(rows: seq<Row>, s: Settings) returns (r: Result<Dict<Key, Event>, Error>)
    ensures r == Semester(rows, s)
  {
    ghost var whole := BuildEvents(Occurrences(rows), s, map[]);
    ghost var built: seq<Event> := [];
    var events: Dict<Key, Event> := Empty();
    var first: map<DayKey, int> := map[];
    var i := 0;
    assert rows[0..] == rows;
    PrependNothing(whole);
    while i < |rows|
      invariant 0 <= i <= |rows|
      invariant events == Collect(built)
      invariant whole == Prepend(built, BuildEvents(Occurrences(rows[i..]), s, first))
    {
      var row := rows[i];
      assert Occurrences(rows[i..]) == Expand(row)[0..] + Occurrences(rows[i + 1..]) by {
        assert rows[i..][1..] == rows[i + 1..];
      }
      var j := 0;
      while j < |row.weeks|
        invariant 0 <= j <= |row.weeks|
        invariant events == Collect(built)
        invariant whole == Prepend(built, BuildEvents(Expand(row)[j..] + Occurrences(rows[i + 1..]), s, first))
      {
        var o := Occurrence(row, row.weeks[j]);
        ghost var rest := Expand(row)[j + 1..] + Occurrences(rows[i + 1..]);
        HeadOfSuffix(Expand(row), j, Occurrences(rows[i + 1..]));
        BuildStep(o, rest, s, first, built);
        var made := MakeEvent(o, s, first);
        if made.Failure? {
          return Failure(made.error);
        }
        var event := made.value;
        var number := Lookup.LessonNumber(row.start).value;
        assert number == SlotNumber(o);
        CollectStep(built, event);
        events := Put(events, KeyOf(event), event);
        if DayOf(o) !in first {
          first := first[DayOf(o) := number];
        }
        built := built + [event];
        j := j + 1;
      }
      assert Expand(row)[j..] + Occurrences(rows[i + 1..]) == Occurrences(rows[i + 1..]);
      i := i + 1;
    }
    assert built + [] == built;
    r := Success(events);
  }

  /** One semester's rows turned into its event map, as a function value. */
  function SemesterOf(s: Settings): seq<Row> -> Result<Dict<Key, Event>, Error> {
    rows => Semester(rows, s)
  }

  /**
   * The semesters' event maps merged in order with `dict.update`; the first
   * failure aborts. The merge succeeds exactly when every semester does, and
   * the last semester's events then win.
   */
  function MergeWith(semesters: seq<seq<Row>>, semester: seq<Row> -> Result<Dict<Key, Event>, Error>): (r: Result<Dict<Key, Event>, Error>)
    ensures r.Success? <==> forall i :: 0 <= i < |semesters| ==> semester(semesters[i]).Success?
    ensures r.Success? && semesters != [] ==>
      var last := semester(semesters[|semesters| - 1]).value;
      forall k :: k in last.entries ==> k in r.value.entries && r.value.entries[k] == last.entries[k]
    decreases |semesters|
  {
    if semesters == [] then Success(Empty())
    else
      match MergeWith(semesters[..|semesters| - 1], semester)
      case Failure(e) => Failure(e)
      case Success(merged) =>
        match semester(semesters[|semesters| - 1])
        case Failure(e) => Failure(e)
        case Success(sem) => Success(Update(merged, sem))
  }

  /** The schedule of `main`: every semester's events merged into one map. */
  function Schedule(semesters: seq<seq<Row>>, s: Settings): (r: Result<Dict<Key, Event>, Error>)
    ensures r.Success? ==> r.value.Valid()
  {
    SemesterOfValid(s);
    MergeValid(semesters, SemesterOf(s));
    MergeWith(semesters, SemesterOf(s))
  }

  lemma SemesterOfValid(s: Settings)
    ensures forall rows :: SemesterOf(s)(rows).Success? ==> SemesterOf(s)(rows).value.Valid()
  {
    forall rows | SemesterOf(s)(rows).Success?
      ensures SemesterOf(s)(rows).value.Valid()
    {
      assert SemesterOf(s)(rows) == Semester(rows, s);
    }
  }

  /** Merging valid maps gives a valid map. */
  lemma {:induction false} MergeValid(semesters: seq<seq<Row>>, semester: seq<Row> -> Result<Dict<Key, Event>, Error>)
    requires forall rows :: semester(rows).Success? ==> semester(rows).value.Valid()
    ensures MergeWith(semesters, semester).Success? ==> MergeWith(semesters, semester).value.Valid()
    decreases |semesters|
  {
    if semesters != [] {
      MergeValid(semesters[..|semesters| - 1], semester);
    }
  }

  /** `main`'s loop over the semesters, updating one dictionary with each semester's events. */
  method BuildSchedule(semesters: seq<seq<Row>>, s: Settings) returns (r: Result<Dict<Key, Event>, Error>)
    ensures r == Schedule(semesters, s)
  {
    ghost var semester := SemesterOf(s);
    var merged: Dict<Key, Event> := Empty();
    var i := 0;
    while i < |semesters|
      invariant 0 <= i <= |semesters|
      invariant MergeWith(semesters[..i], semester) == Success(merged)
    {
      MergeStep(semesters, i, semester);
      var sem := BuildSemester(semesters[i], s);
      assert sem == semester(semesters[i]);
      if sem.Failure? {
        MergeFailurePersists(semesters, i + 1, semester);
        return Failure(sem.error);
      }
      merged := Update(merged, sem.value);
      i := i + 1;
    }
    assert semesters[..i] == semesters;
    r := Success(merged);
  }

  lemma MergeStep(semesters: seq<seq<Row>>, i: nat, semester: seq<Row> -> Result<Dict<Key, Event>, Error>)
    requires i < |semesters|
    ensures MergeWith(semesters[..i + 1], semester) ==
      match MergeWith(semesters[..i], semester)
      case Failure(e) => Failure(e)
      case Success(merged) =>
        match semester(semesters[i])
        case Failure(e) => Failure(e)
        case Success(sem) => Success(Update(merged, sem))
  {
    assert semesters[..i + 1][..i] == semesters[..i];
  }

  /** Once a prefix of the semesters fails, the whole merge fails the same way. */
  lemma {:induction false} MergeFailurePersists(semesters: seq<seq<Row>>, i: nat, semester: seq<Row> -> Result<Dict<Key, Event>, Error>)
    requires i <= |semesters| && MergeWith(semesters[..i], semester).Failure?
    ensures MergeWith(semesters, semester) == MergeWith(semesters[..i], semester)
    decreases |semesters| - i
  {
    if i < |semesters| {
      MergeStep(semesters, i, semester);
      MergeFailurePersists(semesters, i + 1, semester);
    } else {
      assert semesters[..i] == semesters;
    }
  }

  // ---------------------------------------------------------------------------
  // What the row loop computes, stated without the accumulator.

  /** The slot number of the first occurrence on `day` among `occs`, if any. */
  function FirstNumber(occs: seq<Occurrence>, number: Occurrence -> int, day: DayKey): Option<int> {
    if occs == [] then None
    else if DayOf(occs[0]) == day then Some(number(occs[0]))
    else FirstNumber(occs[1..], number, day)
  }

  /** What a day's entry is after the occurrences `seen`, when processing started from `first`. */
  function RecordedAfter(first: map<DayKey, int>, seen: seq<Occurrence>, number: Occurrence -> int, day: DayKey): Option<int> {
    if day in first then Some(first[day]) else FirstNumber(seen, number, day)
  }

  lemma RecordedShift(first: map<DayKey, int>, occs: seq<Occurrence>, number: Occurrence -> int, i: nat, day: DayKey)
    requires 0 < i <= |occs|
    ensures RecordedAfter(Record(first, DayOf(occs[0]), number(occs[0])), occs[1..][..i - 1], number, day)
         == RecordedAfter(first, occs[..i], number, day)
  {
    assert occs[..i][0] == occs[0];
    assert occs[..i][1..] == occs[1..][..i - 1];
  }

  /** The row loop succeeds exactly when every occurrence's event can be built. */
  lemma {:induction false} BuildWithSucceeds(occs: seq<Occurrence>, build: Occurrence -> Result<Event, Error>,
                                             number: Occurrence -> int, s: Settings, first: map<DayKey, int>)
    ensures BuildWith(occs, build, number, s, first).Success? <==>
      forall i :: 0 <= i < |occs| ==> build(occs[i]).Success?
    decreases |occs|
  {
    if occs != [] {
      var o, tail := occs[0], occs[1..];
      assert forall i :: 1 <= i < |occs| ==> occs[i] == tail[i - 1];
      if build(o).Success? {
        BuildWithSucceeds(tail, build, number, s, Record(first, DayOf(o), number(o)));
      }
    }
  }

  /**
   * The i-th event of a successful row loop is the i-th occurrence's event with
   * the reminder chosen from the first lesson recorded for its day among the
   * occurrences BEFORE it: the accumulator is read before it is written, and an
   * entry, once written, is never overwritten.
   */
  lemma {:induction false} BuildWithAt(occs: seq<Occurrence>, build: Occurrence -> Result<Event, Error>,
                                       number: Occurrence -> int, s: Settings, first: map<DayKey, int>, i: nat)
    requires BuildWith(occs, build, number, s, first).Success? && i < |occs|
    ensures build(occs[i]).Success?
    ensures BuildWith(occs, build, number, s, first).value[i]
         == WithReminder(build(occs[i]).value,
                         ReminderMinutes(RecordedAfter(first, occs[..i], number, DayOf(occs[i])), number(occs[i]), s))
    decreases i
  {
    var o, tail := occs[0], occs[1..];
    var next := Record(first, DayOf(o), number(o));
    var rest := BuildWith(tail, build, number, s, next).value;
    assert BuildWith(occs, build, number, s, first).value == [MakeWith(o, build, number, s, first).value] + rest;
    if i == 0 {
      assert occs[..0] == [];
    } else {
      BuildWithAt(tail, build, number, s, next, i - 1);
      assert tail[i - 1] == occs[i];
      RecordedShift(first, occs, number, i, DayOf(occs[i]));
    }
  }

  /** When the row loop fails, it fails with the error of the first occurrence whose event cannot be built. */
  lemma {:induction false} BuildWithFailure(occs: seq<Occurrence>, build: Occurrence -> Result<Event, Error>,
                                            number: Occurrence -> int, s: Settings, first: map<DayKey, int>)
    requires BuildWith(occs, build, number, s, first).Failure?
    ensures exists j ::
      && 0 <= j < |occs|
      && build(occs[j]).Failure?
      && BuildWith(occs, build, number, s, first).error == build(occs[j]).error
      && (forall k :: 0 <= k < j ==> build(occs[k]).Success?)
    decreases |occs|
  {
    var o, tail := occs[0], occs[1..];
    if build(o).Success? {
      var next := Record(first, DayOf(o), number(o));
      BuildWithFailure(tail, build, number, s, next);
      var j :| 0 <= j < |tail| && build(tail[j]).Failure?
        && BuildWith(tail, build, number, s, next).error == build(tail[j]).error
        && forall k :: 0 <= k < j ==> build(tail[k]).Success?;
      assert occs[j + 1] == tail[j];
      assert forall k :: 1 <= k < j + 1 ==> occs[k] == tail[k - 1];
    } else {
      assert build(occs[0]).Failure?;
    }
  }

  /** A semester's row loop succeeds exactly when every occurrence's event can be built. */
  lemma BuildEventsSucceeds(occs: seq<Occurrence>, s: Settings, first: map<DayKey, int>)
    ensures BuildEvents(occs, s, first).Success? <==> forall i :: 0 <= i < |occs| ==> BaseEvent(occs[i], s).Success?
  {
    BuildWithSucceeds(occs, Builder(s), SlotNumber, s, first);
  }

  /** A semester's row loop fails with the error of its first occurrence whose event cannot be built. */
  lemma BuildEventsFailure(occs: seq<Occurrence>, s: Settings, first: map<DayKey, int>)
    requires BuildEvents(occs, s, first).Failure?
    ensures exists j ::
      && 0 <= j < |occs|
      && BaseEvent(occs[j], s).Failure?
      && BuildEvents(occs, s, first).error == BaseEvent(occs[j], s).error
      && (forall k :: 0 <= k < j ==> BaseEvent(occs[k], s).Success?)
  {
    BuildWithFailure(occs, Builder(s), SlotNumber, s, first);
  }

  /** The rows of a semester yield one occurrence per listed week, row by row. */
  lemma {:induction false} OccurrencesCount(rows: seq<Row>)
    ensures |Occurrences(rows)| == WeeksListed(rows)
  {
    if rows != [] {
      OccurrencesCount(rows[1..]);
    }
  }

  /** `BaseEvent` in one piece: when it succeeds, and the event it then builds. */
  lemma BaseEventShape(o: Occurrence, s: Settings)
    ensures var n, week := Lookup.LessonNumber(o.row.start), Dates.ParseInt(o.week);
      BaseEvent(o, s).Success? <==>
        && n.Some? && week.Some?
        && Dates.Resolve(s.firstWeek, week.value, o.row.weekday, o.row.start).Success?
        && Dates.Resolve(s.firstWeek, week.value, o.row.weekday, o.row.end).Success?
    ensures BaseEvent(o, s).Success? ==>
      var n, week := Lookup.LessonNumber(o.row.start).value, Dates.ParseInt(o.week).value;
      BaseEvent(o, s).value == Event(
        Title(n, o.row.name, o.row.lessonType),
        Describe(RoleLabel(s.scheduleType), o.row.counterpart, o.row.comment),
        o.row.room,
        Lookup.EventColor(o.row.lessonType),
        Dates.Resolve(s.firstWeek, week, o.row.weekday, o.row.start).value,
        Dates.Resolve(s.firstWeek, week, o.row.weekday, o.row.end).value,
        [], None)
  {
  }

  /** When `BaseEvent` succeeds, and which error it raises first when it does not. */
  lemma BaseEventOutcome(o: Occurrence, s: Settings)
    ensures BaseEvent(o, s).Success? <==>
      && Lookup.LessonNumber(o.row.start).Some? && Dates.ParseInt(o.week).Some?
      && o.row.weekday in Dates.WeekdayNames
      && Dates.ParseClock(o.row.start).Some? && Dates.ParseClock(o.row.end).Some?
    ensures Lookup.LessonNumber(o.row.start).Some? && Dates.ParseInt(o.week).None? ==>
      BaseEvent(o, s) == Failure(InvalidWeek(o.week))
    ensures Lookup.LessonNumber(o.row.start).Some? && Dates.ParseInt(o.week).Some? && o.row.weekday !in Dates.WeekdayNames ==>
      BaseEvent(o, s) == Failure(InvalidWeekday(o.row.weekday))
    ensures Lookup.LessonNumber(o.row.start).Some? && Dates.ParseInt(o.week).Some? && o.row.weekday in Dates.WeekdayNames ==>
      && (Dates.ParseClock(o.row.start).None? ==> BaseEvent(o, s) == Failure(InvalidTime(o.row.start)))
      && (Dates.ParseClock(o.row.start).Some? && Dates.ParseClock(o.row.end).None? ==> BaseEvent(o, s) == Failure(InvalidTime(o.row.end)))
  {
    BaseEventShape(o, s);
  }

  /**
   * The text of a built event: the slot number, name and type in the summary;
   * the group label and counterpart in the description, with a comment line
   * exactly when there is a comment; the room as the location.
   */
  lemma BaseEventText(o: Occurrence, s: Settings)
    requires BaseEvent(o, s).Success?
    ensures var e := BaseEvent(o, s).value;
      && e.summary == Dates.Decimal(Lookup.LessonNumber(o.row.start).value) + ". " + o.row.name + " — " + o.row.lessonType
      && e.description == "Группа: " + o.row.counterpart + (if o.row.comment != "" then "\nКомментарий: " + o.row.comment else "")
      && e.location == o.row.room
  {
    BaseEventShape(o, s);
    var e := BaseEvent(o, s).value;
    assert e.summary == Title(Lookup.LessonNumber(o.row.start).value, o.row.name, o.row.lessonType);
    assert e.description == Describe(RoleLabel(s.scheduleType), o.row.counterpart, o.row.comment);
    GroupDescription(s.scheduleType, o.row.counterpart, o.row.comment);
  }

  lemma GroupDescription(scheduleType: string, counterpart: string, comment: string)
    ensures Describe(RoleLabel(scheduleType), counterpart, comment)
      == "Группа: " + counterpart + (if comment != "" then "\nКомментарий: " + comment else "")
  {
    assert "Группа" + ": " == "Группа: ";
  }

  /**
   * With the first week starting at a Monday midnight and clock times within
   * the day, a built event starts and ends on the row's weekday, at the row's
   * clock times, `week - 1` weeks after the first week.
   */
  lemma BaseEventTimes(o: Occurrence, s: Settings)
    requires s.firstWeek % Dates.MinutesPerDay == 0 && Dates.Weekday(s.firstWeek / Dates.MinutesPerDay) == 0
    requires BaseEvent(o, s).Success?
    requires Dates.ParseClock(o.row.start).Some? && Dates.ParseClock(o.row.end).Some?
    requires 0 <= Dates.ParseClock(o.row.start).value.0 < 24 && 0 <= Dates.ParseClock(o.row.start).value.1 < 60
    requires 0 <= Dates.ParseClock(o.row.end).value.0 < 24 && 0 <= Dates.ParseClock(o.row.end).value.1 < 60
    ensures var e, week := BaseEvent(o, s).value, Dates.ParseInt(o.week).value;
      var (sh, sm), (eh, em) := Dates.ParseClock(o.row.start).value, Dates.ParseClock(o.row.end).value;
      && Dates.WeekdayNames[Dates.Weekday(e.start / Dates.MinutesPerDay)] == o.row.weekday
      && Dates.WeekdayNames[Dates.Weekday(e.end / Dates.MinutesPerDay)] == o.row.weekday
      && e.start % Dates.MinutesPerDay == sh * 60 + sm
      && e.end % Dates.MinutesPerDay == eh * 60 + em
      && e.start / Dates.MinutesPerDay == s.firstWeek / Dates.MinutesPerDay + (week - 1) * 7 + Dates.Weekday(e.start / Dates.MinutesPerDay)
      && e.end / Dates.MinutesPerDay == s.firstWeek / Dates.MinutesPerDay + (week - 1) * 7 + Dates.Weekday(e.end / Dates.MinutesPerDay)
  {
    BaseEventShape(o, s);
    var week := Dates.ParseInt(o.week).value;
    Dates.ResolveLandsOnWeekday(s.firstWeek, week, o.row.weekday, o.row.start);
    Dates.ResolveLandsOnWeekday(s.firstWeek, week, o.row.weekday, o.row.end);
  }

  /** The same row in another listed week: the same title, description, location and colour, shifted by whole weeks. */
  lemma OtherWeek(row: Row, w1: string, w2: string, s: Settings)
    requires Dates.ParseInt(w1).Some? && Dates.ParseInt(w2).Some?
    ensures BaseEvent(Occurrence(row, w1), s).Success? <==> BaseEvent(Occurrence(row, w2), s).Success?
    ensures BaseEvent(Occurrence(row, w1), s).Success? ==>
      var e1, e2 := BaseEvent(Occurrence(row, w1), s).value, BaseEvent(Occurrence(row, w2), s).value;
      var shift := (Dates.ParseInt(w2).value - Dates.ParseInt(w1).value) * Dates.MinutesPerWeek;
      e2 == e1.(start := e1.start + shift, end := e1.end + shift)
  {
    OtherWeekSucceeds(row, w1, w2, s);
    if BaseEvent(Occurrence(row, w1), s).Success? {
      OtherWeekShift(row, w1, w2, s);
    }
  }

  lemma OtherWeekSucceeds(row: Row, w1: string, w2: string, s: Settings)
    requires Dates.ParseInt(w1).Some? && Dates.ParseInt(w2).Some?
    ensures BaseEvent(Occurrence(row, w1), s).Success? <==> BaseEvent(Occurrence(row, w2), s).Success?
  {
    var first, n1, n2 := s.firstWeek, Dates.ParseInt(w1).value, Dates.ParseInt(w2).value;
    Dates.ResolveOtherWeek(first, n1, n2, row.weekday, row.start);
    Dates.ResolveOtherWeek(first, n1, n2, row.weekday, row.end);
    BaseEventShape(Occurrence(row, w1), s);
    BaseEventShape(Occurrence(row, w2), s);
  }

  lemma OtherWeekShift(row: Row, w1: string, w2: string, s: Settings)
    requires Dates.ParseInt(w1).Some? && Dates.ParseInt(w2).Some?
    requires BaseEvent(Occurrence(row, w1), s).Success? && BaseEvent(Occurrence(row, w2), s).Success?
    ensures
      var e1, e2 := BaseEvent(Occurrence(row, w1), s).value, BaseEvent(Occurrence(row, w2), s).value;
      var shift := (Dates.ParseInt(w2).value - Dates.ParseInt(w1).value) * Dates.MinutesPerWeek;
      e2 == e1.(start := e1.start + shift, end := e1.end + shift)
  {
    var first, n1, n2 := s.firstWeek, Dates.ParseInt(w1).value, Dates.ParseInt(w2).value;
    Dates.ResolveOtherWeek(first, n1, n2, row.weekday, row.start);
    Dates.ResolveOtherWeek(first, n1, n2, row.weekday, row.end);
    BaseEventShape(Occurrence(row, w1), s);
    BaseEventShape(Occurrence(row, w2), s);
  }

  /** Nothing is in the dict twice: holds the last event listed under each key, and only keys of listed events. */
  predicate LastWithKey(evs: seq<Event>, i: nat)
    requires i < |evs|
  {
    forall j :: i < j < |evs| ==> KeyOf(evs[j]) != KeyOf(evs[i])
  }

  /** `schedule_events[key] = event` in a loop: every listed key is stored, and under it the last event with that key. */
  lemma CollectLastWins(evs: seq<Event>)
    ensures forall k :: k in Collect(evs).entries <==> exists i :: 0 <= i < |evs| && KeyOf(evs[i]) == k
    ensures forall i :: 0 <= i < |evs| && LastWithKey(evs, i) ==> Collect(evs).entries[KeyOf(evs[i])] == evs[i]
  {
    CollectKeys(evs);
    CollectValues(evs);
  }

  /** The keys of the collected map are exactly the keys of the events. */
  /** Storing one more event keeps two stored keys in the order they had. */
  lemma CollectKeepsOrder(built: seq<Event>, e: Event, x: Key, y: Key)
    requires exists p, q :: 0 <= p < q < |Collect(built).order| && Collect(built).order[p] == x && Collect(built).order[q] == y
    ensures exists p, q ::
              0 <= p < q < |Collect(built + [e]).order| &&
              Collect(built + [e]).order[p] == x && Collect(built + [e]).order[q] == y
  {
    var before, after := Collect(built).order, Collect(built + [e]).order;
    var p, q :| 0 <= p < q < |before| && before[p] == x && before[q] == y;
    CollectStep(built, e);
    assert after[p] == x && after[q] == y;
  }

  /** The first event with a new key appends that key to the order. */
  lemma {:induction false} CollectFirst(evs: seq<Event>, i: nat)
    requires i < |evs| && forall k :: 0 <= k < i ==> KeyOf(evs[k]) != KeyOf(evs[i])
    ensures Collect(evs[..i + 1]).order == Collect(evs[..i]).order + [KeyOf(evs[i])]
  {
    var pre := evs[..i + 1];
    assert pre[..i] == evs[..i] && pre[i] == evs[i];
    CollectKeys(evs[..i]);
    assert forall k :: 0 <= k < i ==> KeyOf(evs[..i][k]) != KeyOf(evs[i]);
    assert KeyOf(evs[i]) !in Collect(evs[..i]).entries;
  }

  /** The key of the last event, new when it comes, goes after every key stored before it. */
  lemma CollectOrderLast(evs: seq<Event>, i: nat)
    requires i < |evs| - 1
    requires forall k :: 0 <= k < |evs| - 1 ==> KeyOf(evs[k]) != KeyOf(evs[|evs| - 1])
    ensures exists p, q ::
              0 <= p < q < |Collect(evs).order| &&
              Collect(evs).order[p] == KeyOf(evs[i]) && Collect(evs).order[q] == KeyOf(evs[|evs| - 1])
  {
    var n := |evs| - 1;
    var init := evs[..n];
    var built, all := Collect(init).order, Collect(evs).order;
    assert evs[..n + 1] == evs;
    CollectFirst(evs, n);
    CollectKeys(init);
    assert init[i] == evs[i];
    assert KeyOf(evs[i]) in Collect(init).entries;
    var p :| 0 <= p < |built| && built[p] == KeyOf(evs[i]);
    assert all == built + [KeyOf(evs[n])];
    assert all[p] == built[p] && all[|built|] == KeyOf(evs[n]);
  }

  /**
   * `schedule_events[hash] = event` keeps each key once, where the first event
   * with that key put it: of two keys, the one first seen earlier comes first.
   */
  lemma {:induction false} CollectOrder(evs: seq<Event>, i: nat, j: nat)
    requires i < j < |evs|
    requires forall k :: 0 <= k < i ==> KeyOf(evs[k]) != KeyOf(evs[i])
    requires forall k :: 0 <= k < j ==> KeyOf(evs[k]) != KeyOf(evs[j])
    ensures Distinct(Collect(evs).order)
    ensures exists p, q ::
              0 <= p < q < |Collect(evs).order| &&
              Collect(evs).order[p] == KeyOf(evs[i]) && Collect(evs).order[q] == KeyOf(evs[j])
    decreases |evs|
  {
    assert Collect(evs).Valid();
    var n := |evs| - 1;
    if j < n {
      var init := evs[..n];
      assert evs == init + [evs[n]];
      assert init[i] == evs[i] && init[j] == evs[j];
      CollectOrder(init, i, j);
      CollectKeepsOrder(init, evs[n], KeyOf(evs[i]), KeyOf(evs[j]));
    } else {
      CollectOrderLast(evs, i);
    }
  }

  lemma {:induction false} CollectKeys(evs: seq<Event>)
    ensures forall k :: k in Collect(evs).entries <==> exists i :: 0 <= i < |evs| && KeyOf(evs[i]) == k
  {
    if evs != [] {
      var n := |evs| - 1;
      var init, last := evs[..n], evs[n];
      assert evs == init + [last];
      CollectStep(init, last);
      CollectKeys(init);
      var before, after := Collect(init).entries, Collect(evs).entries;
      assert after == before[KeyOf(last) := last];
      forall k ensures k in after <==> exists i :: 0 <= i < |evs| && KeyOf(evs[i]) == k {
        if k in before {
          var i :| 0 <= i < |init| && KeyOf(init[i]) == k;
          assert evs[i] == init[i];
        }
        if exists i :: 0 <= i < |evs| && KeyOf(evs[i]) == k {
          var i :| 0 <= i < |evs| && KeyOf(evs[i]) == k;
          if i < n {
            assert init[i] == evs[i];
          }
        }
      }
    }
  }

  /** Each key holds the last event that carries it. */
  lemma {:induction false} CollectValues(evs: seq<Event>)
    ensures forall i :: 0 <= i < |evs| && LastWithKey(evs, i) ==> KeyOf(evs[i]) in Collect(evs).entries && Collect(evs).entries[KeyOf(evs[i])] == evs[i]
  {
    if evs != [] {
      var n := |evs| - 1;
      var init, last := evs[..n], evs[n];
      assert evs == init + [last];
      CollectStep(init, last);
      CollectValues(init);
      var before, after := Collect(init).entries, Collect(evs).entries;
      assert after == before[KeyOf(last) := last];
      forall i | 0 <= i < |evs| && LastWithKey(evs, i) ensures KeyOf(evs[i]) in after && after[KeyOf(evs[i])] == evs[i] {
        if i < n {
          assert init[i] == evs[i];
          assert KeyOf(last) != KeyOf(evs[i]);
          assert LastWithKey(init, i) by {
            forall j | i < j < |init| ensures KeyOf(init[j]) != KeyOf(init[i]) {
              assert init[j] == evs[j];
            }
          }
        }
      }
    }
  }

  /** Merging two semesters: the later one wins on a shared key (`dict.update`). */
  lemma MergeTwo(a: seq<Row>, b: seq<Row>, semester: seq<Row> -> Result<Dict<Key, Event>, Error>)
    ensures var r, x, y := MergeWith([a, b], semester), semester(a), semester(b);
      && (r.Success? <==> x.Success? && y.Success?)
      && (r.Success? ==> r.value.entries == x.value.entries + y.value.entries)
  {
    var sems := [a, b];
    assert sems[..0] == [];
    MergeStep(sems, 0, semester);
    MergeStep(sems, 1, semester);
    assert sems[..2] == sems;
  }

  /** Of the two semesters' maps the later one wins on a shared key (`dict.update`). */
  lemma LaterSemesterWins(autumn: seq<Row>, spring: seq<Row>, s: Settings)
    ensures var r, a, b := Schedule([autumn, spring], s), Semester(autumn, s), Semester(spring, s);
      && (r.Success? <==> a.Success? && b.Success?)
      && (r.Success? ==> r.value.entries == a.value.entries + b.value.entries)
  {
    MergeTwo(autumn, spring, SemesterOf(s));
    assert SemesterOf(s)(autumn) == Semester(autumn, s);
    assert SemesterOf(s)(spring) == Semester(spring, s);
  }

  /** Every event is stored under its own key. */
  predicate KeyedByIdentity(d: Dict<Key, Event>) {
    forall k :: k in d.entries ==> KeyOf(d.entries[k]) == k
  }

  lemma {:induction false} CollectKeyed(evs: seq<Event>)
    ensures KeyedByIdentity(Collect(evs))
  {
    if evs != [] {
      CollectKeyed(evs[..|evs| - 1]);
    }
  }

  /** Merging keyed maps gives a keyed map. */
  lemma {:induction false} MergeKeyed(semesters: seq<seq<Row>>, semester: seq<Row> -> Result<Dict<Key, Event>, Error>)
    requires forall rows :: semester(rows).Success? ==> KeyedByIdentity(semester(rows).value)
    ensures MergeWith(semesters, semester).Success? ==> KeyedByIdentity(MergeWith(semesters, semester).value)
    decreases |semesters|
  {
    if semesters != [] {
      MergeKeyed(semesters[..|semesters| - 1], semester);
    }
  }

  /** Each semester's map stores every event under its own key. */
  lemma SemesterKeyed(s: Settings)
    ensures forall rows :: SemesterOf(s)(rows).Success? ==> KeyedByIdentity(SemesterOf(s)(rows).value)
  {
    forall rows | SemesterOf(s)(rows).Success?
      ensures KeyedByIdentity(SemesterOf(s)(rows).value)
    {
      assert SemesterOf(s)(rows) == Semester(rows, s);
      CollectKeyed(BuildEvents(Occurrences(rows), s, map[]).value);
    }
  }

  /** The merged schedule stores every event under its own key. */
  lemma ScheduleKeyed(semesters: seq<seq<Row>>, s: Settings)
    requires Schedule(semesters, s).Success?
    ensures KeyedByIdentity(Schedule(semesters, s).value)
  {
    SemesterKeyed(s);
    MergeKeyed(semesters, SemesterOf(s));
  }

  lemma LectureTimes(first: int)
    ensures Dates.Resolve(first, 2, "Понедельник", "09:35") == Success(first + Dates.MinutesPerWeek + 575)
    ensures Dates.Resolve(first, 2, "Понедельник", "11:10") == Success(first + Dates.MinutesPerWeek + 670)
  {
    assert Lookup.IndexOf(Dates.WeekdayNames, "Понедельник") == Some(0);
    assert Dates.ParseClock("09:35") == Some((9, 35)) by {
      Dates.ParseClockTwoDigits("09:35");
    }
    assert Dates.ParseClock("11:10") == Some((11, 10)) by {
      Dates.ParseClockTwoDigits("11:10");
    }
  }

  lemma LectureSlot()
    ensures Lookup.LessonNumber("09:35") == Some(2)
    ensures Dates.ParseInt("2") == Some(2)
  {
  }

  lemma LectureColor()
    ensures Lookup.EventColor("Лекция") == Some("3")
  {
  }

  lemma LectureTitle()
    ensures Title(2, "Algorithms", "Лекция") == "2. Algorithms — Лекция"
  {
  }

  lemma LectureDescription()
    ensures Describe(RoleLabel("1"), "Group A", "") == "Группа: Group A"
  {
  }

  /**
   * A lecture in the 09:35 slot on the Monday of week 2: the second lesson
   * slot, starting one week and 9 hours 35 minutes after the first week's
   * Monday midnight; with the first week of 2024 that is 2024-09-02 09:35.
   */
  lemma LectureExample(first: int)
    ensures
      var row := Row("Понедельник", "09:35", "11:10", ["2"], "Algorithms", "Лекция", "Group A", "room 1", "");
      BaseEvent(Occurrence(row, "2"), Settings(first, "1", 15, 5))
      == Success(Event("2. Algorithms — Лекция", "Группа: Group A", "room 1", Some("3"),
                       first + Dates.MinutesPerWeek + 575, first + Dates.MinutesPerWeek + 670, [], None))
  {
    LectureTimes(first);
    LectureSlot();
    LectureColor();
    LectureTitle();
    LectureDescription();
  }

  lemma {:induction false} FirstNumberNone(occs: seq<Occurrence>, number: Occurrence -> int, day: DayKey, i: nat)
    requires i <= |occs| && forall k :: 0 <= k < i ==> DayOf(occs[k]) != day
    ensures FirstNumber(occs[..i], number, day) == None
    decreases i
  {
    if i > 0 {
      var tail := occs[1..];
      assert occs[..i][0] == occs[0] && occs[..i][1..] == tail[..i - 1];
      forall k | 0 <= k < i - 1 ensures DayOf(tail[k]) != day {
        assert tail[k] == occs[k + 1];
      }
      FirstNumberNone(tail, number, day, i - 1);
    }
  }

  /** Once the day's first occurrence is among `occs[..j]`, its slot number is the recorded one. */
  lemma {:induction false} FirstNumberAt(occs: seq<Occurrence>, number: Occurrence -> int, day: DayKey, i: nat, j: nat)
    requires i < j <= |occs| && DayOf(occs[i]) == day
    requires forall k :: 0 <= k < i ==> DayOf(occs[k]) != day
    ensures FirstNumber(occs[..j], number, day) == Some(number(occs[i]))
    decreases i
  {
    var prefix, tail := occs[..j], occs[1..];
    assert prefix[0] == occs[0];
    if i > 0 {
      assert prefix[1..] == tail[..j - 1];
      assert tail[i - 1] == occs[i];
      forall k | 0 <= k < i - 1 ensures DayOf(tail[k]) != day {
        assert tail[k] == occs[k + 1];
      }
      FirstNumberAt(tail, number, day, i - 1, j - 1);
    }
  }

  /**
   * The first lesson of a day gets the first-lesson reminder; a later lesson
   * of that day in another slot gets the other reminder.
   */
  lemma FirstLessonOfDay(occs: seq<Occurrence>, s: Settings, i: nat, j: nat)
    requires BuildEvents(occs, s, map[]).Success? && i < j < |occs|
    requires DayOf(occs[i]) == DayOf(occs[j]) && forall k :: 0 <= k < i ==> DayOf(occs[k]) != DayOf(occs[i])
    requires SlotNumber(occs[i]) != SlotNumber(occs[j])
    ensures BuildEvents(occs, s, map[]).value[i].reminders == [Reminder("popup", s.minutesFirst)]
    ensures BuildEvents(occs, s, map[]).value[j].reminders == [Reminder("popup", s.minutesOther)]
  {
    var day := DayOf(occs[i]);
    BuildWithAt(occs, Builder(s), SlotNumber, s, map[], i);
    BuildWithAt(occs, Builder(s), SlotNumber, s, map[], j);
    FirstNumberNone(occs, SlotNumber, day, i);
    FirstNumberAt(occs, SlotNumber, day, i, j);
  }
}
