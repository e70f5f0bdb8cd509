/** The two fixed tables of the schedule: lesson start times and lesson-type colours. */
module Lookup {
  import opened Wrappers

  /**
   * Python's `list.index`: the position of the first occurrence of `x`,
   * or `None` where Python raises `ValueError`.
   */
  function IndexOf<T(==)>(s: seq<T>, x: T): (r: Option<nat>)
    ensures r.None? <==> x !in s
    ensures r.Some? ==> r.value < |s| && s[r.value] == x && x !in s[..r.value]
  {
    if s == [] then None
    else if s[0] == x then Some(0)
    else match IndexOf(s[1..], x)
      case None => None
      case Some(i) => Some(i + 1)
  }

  /** The start times of the ten lesson slots of a day, earliest first. */
  const LessonStartTimes: seq<string> :=
    ["08:00", "09:35", "11:35", "13:10", "15:10", "16:45", "18:20", "19:55", "21:25", "22:55"]

  /** The 1-based number of the slot that starts at `time`; `None` where the program raises. */
  function LessonNumber(time: string): (r: Option<int>)
    ensures r.None? <==> time !in LessonStartTimes
    ensures r.Some? ==> 1 <= r.value <= 10 && LessonStartTimes[r.value - 1] == time
  {
    match IndexOf(LessonStartTimes, time)
    case None => None
    case Some(i) => Some(i + 1)
  }

  /** The colour ids the calendar accepts for an event. */
  const CalendarColorIds: set<string> := {"1", "2", "3", "4", "5", "6", "7", "8", "9", "10", "11"}

  /** Lesson type to calendar colour id. */
  const EventColors: map<string, string> := map[
    "Лекция" := "3",
    "Практика (семинар)" := "6",
    "Лабораторная работа" := "9",
    "Физвоспитание" := "2",
    "Военная подготовка" := "10",
    "Лекция + практика" := "4",
    "Консультация" := "7",
    "Экзамен" := "11",
    "Консультация экзамена" := "11",
    "Ликвидация задолженостей" := "11",
    "Зачёт с оценкой" := "11",
    "Зачёт" := "11",
    "Защита (Курсовой/РГР/Лабораторной)" := "11",
    "Лекция + практика + лабораторная работа" := "1",
    "Мероприятие" := "5",
    "Кураторский час" := "5",
    "Прочее" := "8"
  ]

  /**
   * The colour of a lesson type. An unlisted type is not an error: the
   * program prints a warning and leaves the event's colour unset.
   */
  function EventColor(lessonType: string): (r: Option<string>)
    ensures r.Some? <==> lessonType in EventColors
    ensures r.Some? ==> r.value in CalendarColorIds
  {
    if lessonType in EventColors then Some(EventColors[lessonType]) else None
  }
}
