# UUST timetable to Google Calendar, modelled in Dafny

The program reads a student group's (or a teacher's) timetable for both
semesters of an academic year from the university's schedule service. It
turns every listed week of every lesson into a calendar event, then brings a
Google calendar in line with that timetable:

- it deletes calendar events that no longer match a lesson;
- it updates events whose reminder changed;
- it adds lessons the calendar lacks.

This project models the computation between those two network
conversations and proves what it does.

- `dates.dfy` (`Dates`): date arithmetic.
  - Instants are whole minutes of local wall-clock time in the fixed UTC+5
    zone, counted from 1970-01-01 00:00.
  - The Gregorian day number comes from the era / year-of-era formula.
    Python's `weekday()` is `(day + 3) % 7` (Monday is 0).
  - Also here: the Monday that starts the first week, the resolution of
    (week, weekday name, "HH:MM") to an instant, and Python's `int()` on
    decimal strings.
- `lookup.dfy` (`Lookup`): the two fixed tables.
  - Lesson start time gives the slot number 1..10.
  - Lesson type gives the calendar colour id.
  - Python's `list.index` is modelled as `IndexOf`, returning `None` where
    Python raises.
- `dicts.dfy` (`Dicts`): Python's insertion-ordered `dict`, reduced to the
  operations the program uses: assignment, `pop`, `update` and `values()`.
  It is a key order without duplicates plus a map.
- `events.dfy` (`Events`): the row loop of `get_schedule_events` and the
  merge of the two semesters.
  - Each listed week of a parsed row becomes one event.
  - Events are stored under their identity key, and the later event wins.
  - The first-lesson-of-the-day accumulator chooses each event's reminder.
  - The merge is `dict.update`. `BuildSemester` and `BuildSchedule` are the
    loops; `Semester` and `Schedule` are the functions they are proved
    against.
  - The loop and the merge are also stated generically, over any way of
    building an occurrence's event and any slot numbering (`BuildWith`,
    `MergeWith`). The properties are proved there and instantiated for the
    real builder.
- `reconcile.dfy` (`Reconcile`): the two loops at the end of `main`.
  - The calendar calls are recorded as a plan of `DeleteEvent`,
    `UpdateEvent` and `AddEvent` operations.
  - `Reconcile` and `AddAll` are the loops, proved against `Plan`.
  - `Plan` is also characterised without the shrinking dictionary, through
    the *fate* of each remote event.
  - A small calendar model (`Apply`) interprets the operations, so that
    convergence can be stated and proved: a second run on the calendar the
    first run left behind plans nothing.
- `sync.dfy` (`Sync`): one whole run of `main`. It parses the
  academic year, finds the first week, builds and merges both semesters, and
  reconciles (`RunCycle`, proved against `Cycle`).
- `wrappers.dfy`: `Option`, `Result` and the error kinds. Each error stands
  for an exception that ends the run.

Behaviour fixed by the code, where a plain reading of the program's purpose
might expect something else:

- **First week.** The first week starts on the Monday *on or before*
  September 1st (`Dates.FirstWeekOf2024`: for 2024 it is 2024-08-26).
- **Event identity.** An event is identified by the tuple (summary,
  description, location, start to the minute). The model uses the tuple
  itself as the key (`Events.Key`), not the string of its `hash()`.
- **Which change triggers an update.** An event counts as changed only when
  its reminders differ. A change to colour or end time alone is never
  pushed. It reaches the calendar only together with a reminder change,
  because the update sends the whole event. A change to an identity field
  (summary, description, location or start) shows up as a delete and an add.
- **Error handling.**
  - Every failed lookup is an exception that aborts the whole run before any
    calendar call: an unknown start slot, a week that is not an integer, an
    unknown weekday name, or a time that is not `int:int`.
  - An unknown lesson type is *not* an error: the event gets no colour.
- **Counterpart label.** The query mode, a string, is compared with the
  integer `1`. The teacher label ("Преподаватель") is therefore never
  chosen, and the label is always "Группа" (`Events.RoleLabel`). The model
  keeps this behaviour.
- **Day key.** The first-lesson accumulator is keyed by the week *as
  written* in the row and the weekday name. Thus "01" and "1" are different
  days for it.

## Model

| member | source | states |
|---|---|---|
| `Dates.EpochIsDayZero` | main.py:33 | the day numbering counts 1970-01-01 as day 0 |
| `Dates.FirstSeptemberNextYear` | main.py:33 | September 1st of the next year is 366 days later exactly when that year is a Gregorian leap year, else 365 |
| `Dates.MondayOnOrBefore` | main.py:35 | subtracting a day's `weekday()` gives a Monday at most six days earlier |
| `Dates.FirstWeekStart` | main.py:32-35 | fails (with the year) exactly for years outside 1..9999; otherwise a midnight that is a Monday, less than a week before or at midnight of September 1st |
| `Dates.FirstWeekOf2024` | main.py:32-35 | September 1st 2024 is a Sunday, so the first week of 2024 starts on Monday 2024-08-26 |
| `Dates.Decimal` | main.py:133 | `str(n)` of a natural number is a non-empty string of digits with no leading zero, except for 0 itself |
| `Dates.DecimalValue` | main.py:133 | the digits of `str(n)` denote `n` |
| `Dates.ParseDecimal` | main.py:129 | `int()` of the decimal form of any integer is that integer |
| `Dates.Split` | main.py:40 | `str.split(sep)` yields at least one part and no part contains the separator |
| `Dates.SplitCount` | main.py:40 | there is one more part than there are separators in the string |
| `Dates.SplitJoin` | main.py:40 | joining the parts back with the separator gives the original string |
| `Dates.ParseInt` | main.py:129 | `int()`: a string of digits reads as its decimal value, a leading `-` or `+` negates it or not, and anything else is rejected |
| `Dates.ParseClockParts` | main.py:40 | `ParseClock`: a time that parses has exactly one colon, and the hours and minutes are the integers written before and after it |
| `Dates.SplitNoSeparator` | main.py:40 | a string without the separator splits into itself alone |
| `Dates.SplitAround` | main.py:40 | `a:b` with no colon in `a` or `b` splits into exactly `[a, b]` |
| `Dates.ParseClockTwoDigits` | main.py:40 | an "HH:MM" time parses to its hours and minutes |
| `Dates.Resolve` | main.py:38-42 | fails exactly when the weekday name is unknown or the time is not two integers split by a colon; the weekday is checked first |
| `Dates.ResolveLandsOnWeekday` | main.py:38-42 | from a Monday midnight, the instant falls on the named weekday, at the given time of day, `week - 1` weeks after the first week |
| `Dates.ResolveOtherWeek` | main.py:42 | another week number succeeds or fails alike and moves the instant by whole weeks |
| `Dates.WeekdayAfterWeeks` | main.py:42 | whole weeks plus `day` days after a Monday is weekday `day` |
| `Dates.Weekday` | main.py:35 | `weekday()` is between 0 and 6 |
| `Lookup.IndexOf` | main.py:39 | `list.index`: `None` exactly when absent, otherwise the first position holding the value |
| `Lookup.LessonNumber` | main.py:45-46 | `None` exactly for a time outside the ten slot start times; otherwise a number 1..10 whose slot starts at that time |
| `Lookup.EventColor` | main.py:49-74 | a colour exactly for the seventeen listed lesson types, and always one of the calendar's colour ids |
| `Dicts.Empty` | main.py:104 | the empty dictionary is well formed and has no keys |
| `Dicts.Put` | main.py:149 | assignment keeps the dictionary well formed, maps the key to the value, keeps other keys, and appends a new key at the end of the order |
| `Dicts.Pop` | main.py:188 | `pop` of a present key removes exactly that key, keeps every other entry, and leaves the other keys in their insertion order |
| `Dicts.Update` | main.py:165 | `update`: the keys of both, the second's values where they share a key, the first's elsewhere; the first's keys keep their places and the second's new keys follow in the second's order |
| `Dicts.Values` | main.py:190 | `values()`: the i-th value is the one stored under the i-th key in insertion order |
| `Dicts.Without` | main.py:188 | removing a set of keys leaves a well-formed dictionary with exactly the other keys and their values, in their insertion order |
| `Dicts.DropKeepsOrder` | main.py:188 | two keys that are both kept stay in the same relative order |
| `Dicts.PopWithout` | main.py:188 | popping one more key equals removing it with the rest |
| `Dicts.WithoutAbsent` | main.py:176-179 | removing a key that is already gone changes nothing |
| `Events.SameKey` | main.py:81-82 | `KeyOf`, the identity of `get_event_hash`: two events share an identity exactly when summary, description, location and start agree |
| `Events.TitleNumber` | main.py:133 | `Title`: a summary begins with the slot number in decimal, which reads back as that number, then ". ", and ends with the lesson type |
| `Events.DescribeComment` | main.py:134-135 | `Describe`: a description is the label and counterpart alone exactly when the comment is empty, and otherwise ends with the comment line |
| `Events.RoleLabel` | main.py:134 | the label is always "Группа": a string never equals the integer 1 |
| `Events.BaseEvent` | main.py:126-147 | an event is built only when the slot is known and the week is an integer; it has no reminder yet and no id; its colour is the type's colour; an unknown slot fails first |
| `Events.BaseEventOutcome` | main.py:127-130 | the event is built exactly when the slot, the week, the weekday and both times are valid; otherwise the first invalid one, in that order, is the error |
| `Events.BaseEventText` | main.py:132-143 | the summary is slot number, name and type; the description is "Группа: " and the counterpart, with a comment line exactly when there is a comment; the location is the room |
| `Events.BaseEventTimes` | main.py:129-146 | from a Monday-midnight first week and clock times within the day, start and end fall on the row's weekday at the row's times, `week - 1` weeks later |
| `Events.ReminderMinutes` | main.py:137-139 | the first-lesson reminder exactly when the day has no recorded first lesson or this lesson is it; the other reminder otherwise |
| `Events.Record` | main.py:151-152 | a day's first lesson number is written once and never overwritten |
| `Events.MakeWith` | main.py:126-147 | one occurrence's event succeeds exactly when its base event does, and fails with the same error |
| `Events.MakeEvent` | main.py:126-147 | the same, for the program's own event builder |
| `Events.BuildWith` | main.py:125-152 | a successful run of the loop yields one event per occurrence |
| `Events.BuildWithSucceeds` | main.py:108-152 | the loop succeeds exactly when every occurrence's event can be built |
| `Events.BuildEventsSucceeds` | main.py:108-152 | the program's row loop `BuildEvents` succeeds exactly when every occurrence's event can be built |
| `Events.BuildWithFailure` | main.py:108-152 | a failed loop failed at some occurrence, with that occurrence's error, after all earlier ones had succeeded |
| `Events.BuildEventsFailure` | main.py:108-152 | a failed `BuildEvents` failed at some occurrence, with that occurrence's error, after all earlier ones had succeeded |
| `Events.BuildWithAt` | main.py:125-152 | the i-th event is its base event with the reminder chosen by the first lesson recorded for its day among the occurrences before it |
| `Events.RecordedShift` | main.py:151-152 | the accumulator after the first occurrence then the next ones equals the accumulator after all of them |
| `Events.FirstNumberNone` | main.py:151-152 | no earlier occurrence on a day means no first lesson recorded for it |
| `Events.FirstNumberAt` | main.py:151-152 | the first occurrence on a day fixes that day's recorded number for all later occurrences |
| `Events.FirstLessonOfDay` | main.py:137-152 | the day's first lesson gets the first-lesson reminder, and a later lesson in another slot on the same day gets the other reminder |
| `Events.Expand` | main.py:118-125 | one occurrence per listed week, in the listed order |
| `Events.OccurrencesCount` | main.py:108-125 | there are as many occurrences as weeks listed over all rows |
| `Events.OtherWeek` | main.py:125-147 | the same row in another week builds alike, with start and end moved by whole weeks |
| `Events.OtherWeekSucceeds` | main.py:125-147 | the same row in another week succeeds or fails alike |
| `Events.OtherWeekShift` | main.py:129-147 | the same row in another week differs only in start and end, by whole weeks |
| `Events.Collect` | main.py:149 | storing events under their keys gives a well-formed dictionary |
| `Events.CollectKeys` | main.py:149 | the stored keys are exactly the keys of the events |
| `Events.CollectValues` | main.py:149 | under each key is the last event with that key |
| `Events.CollectLastWins` | main.py:149 | both of the above |
| `Events.CollectKeyed` | main.py:149 | every stored event sits under its own key |
| `Events.CollectFirst` | main.py:149 | the first event with a new key appends that key to the order |
| `Events.CollectKeepsOrder` | main.py:149 | storing one more event keeps two stored keys in their order |
| `Events.CollectOrderLast` | main.py:149 | the key of a last event that is new goes after every key stored before it |
| `Events.CollectOrder` | main.py:149 | each key is listed once, and keys come in the order of their first events |
| `Events.Semester` | main.py:104-154 | a semester's dictionary is well formed |
| `Events.BuildSemester` | main.py:104-154 | the nested row and week loops compute `Semester` |
| `Events.Schedule` | main.py:163-172 | the merged schedule is well formed |
| `Events.SemesterOfValid` | main.py:104-154 | every semester's dictionary is well formed |
| `Events.MergeValid` | main.py:163-172 | merging well-formed dictionaries gives a well-formed one |
| `Events.BuildSchedule` | main.py:163-172 | the loop over the semesters computes `Schedule` |
| `Events.MergeWith` | main.py:163-172 | the merge of any number of semesters succeeds exactly when every semester builds, and the last semester's events win |
| `Events.MergeFailurePersists` | main.py:164-172 | once a semester fails the whole merge fails with its error |
| `Events.MergeTwo` | main.py:163-172 | two semesters merge exactly when both build, into their entries with the later one winning |
| `Events.LaterSemesterWins` | main.py:163-172 | the autumn and spring semesters: the spring event wins on a shared key |
| `Events.MergeKeyed` | main.py:163-172 | merging dictionaries that store events under their own keys keeps that property |
| `Events.SemesterKeyed` | main.py:149 | every semester stores events under their own keys |
| `Events.ScheduleKeyed` | main.py:163-172 | the merged schedule stores every event under its own key |
| `Events.LectureTimes` | main.py:129-130 | a Monday 09:35-11:10 lesson in week 2 resolves to one week plus 9:35 and 11:10 after the first Monday |
| `Events.LectureSlot` | main.py:127-129 | "09:35" is slot 2 and "2" is week 2 |
| `Events.LectureColor` | main.py:51 | a lecture is colour "3" |
| `Events.LectureTitle` | main.py:133 | the summary is "2. Algorithms — Лекция" |
| `Events.LectureDescription` | main.py:134-135 | without a comment the description is "Группа: Group A" |
| `Events.LectureExample` | main.py:126-147 | the whole event of that lecture |
| `Reconcile.Step` | main.py:176-188 | one remote event: delete if its key is not pending; otherwise update with the remote id when the reminders differ, and pop the key |
| `Reconcile.Sweep` | main.py:175-188 | the pending dictionary stays well formed through the remote events |
| `Reconcile.Adds` | main.py:190-191 | one addition per event, same order, same events |
| `Reconcile.Plan` | main.py:175-192 | the plan is the fate of every remote event in order, then an addition for every scheduled key no remote event has, in schedule order |
| `Reconcile.Reconcile` | main.py:175-192 | the two loops compute `Plan` |
| `Reconcile.AddAll` | main.py:190-191 | the last loop computes `Adds` of the pending values |
| `Reconcile.KeysOf` | main.py:176 | every remote event's key is in the key set |
| `Reconcile.KeysOfAppend` | main.py:176 | the keys of a concatenation are the union of keys |
| `Reconcile.KeysOfMembers` | main.py:176 | every key in the set belongs to some event |
| `Reconcile.SweepByFates` | main.py:175-188 | after any prefix, the sweep's operations are the fates of those events and the pending dictionary is the schedule without their keys |
| `Reconcile.FatesAppend` | main.py:175-188 | the fates of a concatenation are the first part's fates, then the second's judged after the first's keys |
| `Reconcile.PlanAt` | main.py:175-192 | the plan around the j-th remote event holds its fate, judged against the keys of the events before it |
| `Reconcile.DuplicateDeleted` | main.py:176-188 | a remote event whose key an earlier remote event already matched is deleted |
| `Reconcile.FatesAddNothing` | main.py:175-188 | the remote loop never adds |
| `Reconcile.AddedExactly` | main.py:190-191 | an event is added exactly when it is scheduled under a key no remote event has |
| `Reconcile.QuietStep` | main.py:175-188 | a quiet remote list is one whose first event needs nothing and whose rest is quiet |
| `Reconcile.FatesQuiet` | main.py:175-188 | the remote loop plans nothing exactly when every remote event is scheduled, unclaimed, has distinct keys and the same reminders |
| `Reconcile.EmptyPlanIffInSync` | main.py:175-192 | the plan is empty exactly when the calendar already mirrors the schedule |
| `Reconcile.RewriteAppend` | main.py:177 | rewriting the events with one id distributes over concatenation |
| `Reconcile.RewriteAbsent` | main.py:177 | rewriting an absent id changes nothing |
| `Reconcile.RewriteOne` | main.py:177 | with distinct ids, deleting or updating an event replaces just that event |
| `Reconcile.ApplyAllAppend` | main.py:175-192 | applying a concatenated plan applies the parts in turn |
| `Reconcile.ApplyAdds` | main.py:191 | the additions append their events to the calendar |
| `Reconcile.ApplyFate` | main.py:176-188 | one remote event's fate replaces it by what it keeps |
| `Reconcile.ApplyFates` | main.py:175-188 | given distinct calendar ids, applying the remote loop's operations leaves the surviving events in place |
| `Reconcile.Outcome` | main.py:175-192 | given distinct calendar ids, after the plan the calendar is the surviving remote events (updated where needed) followed by the added events |
| `Reconcile.QuietJoin` | main.py:175-188 | quiet lists concatenate to a quiet list |
| `Reconcile.KeptShape` | main.py:176-188 | a remote event with an unclaimed scheduled key survives as one event with that key and the scheduled reminders; any other is removed |
| `Reconcile.SurvivorsQuiet` | main.py:175-188 | the survivors need nothing more |
| `Reconcile.SurvivorsKeys` | main.py:175-188 | the survivors' keys are the remote keys that are scheduled and unclaimed |
| `Reconcile.ReconcileConverges` | main.py:175-192 | with distinct calendar ids, reconciling again after applying the plan plans nothing |
| `Sync.AcademicYear` | main.py:161 | `int("20" + yy)` succeeds exactly when the setting is digits, with the decimal value of "20" and those digits; otherwise it fails with the setting's text |
| `Sync.TwoDigitYear` | main.py:161 | a two-digit setting `yy` names the year 2000 + yy |
| `Sync.RunCycle` | main.py:157-192 | the whole run computes `Cycle`: year, first week, both semesters merged, then the plan |
| `Sync.CycleBadYear` | main.py:161 | a year setting that is not digits aborts the run with that text |
| `Sync.CycleOutcome` | main.py:161-172 | a two-digit year always has a first week, and the run then succeeds exactly when both semesters build |
| `Sync.CycleIdempotent` | main.py:157-192 | running again, unchanged, on the calendar the first run left behind plans nothing |

## Left out

- Reading `config.ini` (the `Settings` class). The fields of `Sync.Config` are
  the four settings the modelled computation reads. The other two,
  `default_calendar` and `student_group_or_teacher_id`, go only to the calendar
  client and the schedule request, which are left out below. A missing file
  and `int()` of the reminder settings are not modelled.
- The HTTP request to the schedule service and the HTML parsing. This covers
  the `dayheader` and `noinfo` rows, the carried-over weekday, and splitting
  the time column at "-" and the weeks column at blanks. Each semester
  arrives already parsed, as a sequence of `Events.Row`.
- The Google Calendar client. The calendar's events are a sequence argument.
  The `delete_event`, `update_event` and `add_event` calls are recorded as
  operations, and `Reconcile.Apply` is a model of their effect, not the
  service's.
- The `time_min` filter of `get_events`: the remote events are taken as given.
- Printing and `format_event_as_string`: they are output only.
- Time zones. The zone is a fixed UTC+5 with no historic offsets, and the
  events' `timezone` field is not modelled. `datetime`'s range is modelled
  only as the year bound.
- The hashing in `get_event_hash`. The key is the content tuple itself, so
  two different tuples that collide under `hash()` are not modelled.
- The same holds for the hashed day key `hash((week, day_of_week))`, which
  is modelled as the pair.
- `Dates.ParseInt` models `int()` as an optional sign followed by ASCII
  digits. Surrounding whitespace, underscores and non-ASCII digits, which
  Python also accepts, are not modelled.
- Setting `event_id` on the schedule's own event object. The model passes
  the id into the update instead. The change is not observable, because that
  key is popped straight after.
- Descriptions and locations that are `None` on calendar events: every
  field is a string.
- Reconcile.ReconcileConverges: assumes the calendar's events have distinct
  ids, which the calendar service guarantees; the model does not.
- Sync.CycleIdempotent: makes the same distinct-ids assumption. The second
  run is also fed the whole calendar the first run left behind, without the
  `time_min` filter of the re-fetch. An event that ends before the first
  week (a row listing week 0 or below) is not returned by that filter, so
  the program would add it again on every run; the lemma does not capture this.
- Sync.AcademicYear: inherits the limits of `Dates.ParseInt` above, so a
  setting with blanks or underscores, which Python's `int()` accepts, fails.
- Events.BaseEventTimes: assumes the parsed hours and minutes lie within a
  day. For a time such as "25:00" Python's `timedelta` carries into the
  next day, and the model computes the same instant but proves nothing about it.
