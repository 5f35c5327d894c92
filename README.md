# Attendance tracker core, modelled in Dafny

attendance.js is a single-page attendance tracker. The user keeps a list of
subjects, each with a count of classes attended and classes held. Each card
shows a status line against an attendance goal. There is also a weekly
timetable of classes, and a browser notification fires five minutes before
each class. This project models the parts of that file that are logic rather
than page rendering:

- **The record store** (`store.dfy`, module `Store`). The two global arrays
  `subjects` and `schedule` become the fields of the class
  `AttendanceStore`. The six handlers addSubject, removeSubject,
  updateAttendance, resetAttendance, addScheduleItem and removeScheduleItem
  become its methods.
  - A `confirm()` dialog becomes a `confirmed` parameter.
  - Each handler that changes the schedule ends with renderSchedule, which
    sorts `schedule` in place. The methods do the same through
    `RenderSchedule`.
  - The invariant `Valid` holds between handlers. Subject names are
    trimmed, non-empty and distinct ignoring case. No subject has more
    attended classes than held ones. The schedule is in timetable order.
- **The status line** (`projection.dfy`). This is the branch of
  renderSubjects that picks "no classes yet", "on track, you can miss N",
  or "attend the next N". The lemmas prove that N is exactly the largest
  number of misses, or the smallest number of attendances, that keeps or
  restores the goal.
- **The timetable order.** `schedule_order.dfy` holds the comparator given
  to `schedule.sort`. `array_sort.dfy` holds the sort itself, which runs in
  place on an array. It is specified as a stable insertion sort, and proved
  to give a sorted permutation.
- **The alarm scan** (`alarms.dfy`). This is the matching logic of
  checkAlarms. Every class on today's weekday whose start time minus five
  minutes is the current hour and minute yields one notification intent.
- **The JavaScript built-ins** the core relies on (`js_builtins.dfy`): trim,
  toLowerCase, indexOf, split, Number() and localeCompare.
- **`scenarios.dfy`** replays four sequences of user actions against the
  store and asserts their outcomes. The names and classes are arbitrary
  values with the properties each sequence needs, and small lemmas show
  that "Math", "math" and "Path" have them:
  - adding a name and then the same name in other letter case, such as
    "Math" and then "math", where the second is refused;
  - adding "Math" and then "Path", names of the same length that differ in
    a letter, where both are kept;
  - marking a class attended and then missed;
  - removing a subject with two classes.

The current weekday, hour and minute are parameters of `CheckAlarms`; the
model does not read a clock. The source keeps its data in localStorage. The
model instead gives the saved arrays to the constructor `Load` and does not
model saving.

Two points about indices, where the model follows what the code does:

- The handlers do not check a subject index against the array. For an
  out-of-range index, `subjects[index].name` throws before anything
  changes, rather than the operation being rejected. The model states this as a
  precondition (`index < |subjects|`) on RemoveSubject and ResetAttendance.
  UpdateAttendance requires it only for the kinds "attended" and "missed",
  the only ones that read the subject.
- `schedule.splice(index, 1)` is defined for every index, so
  RemoveScheduleItem takes any integer and follows splice. A negative index
  counts from the end. An index past the end removes nothing.

## Model

| member | source | states |
|---|---|---|
| JsBuiltins.TrimStart | attendance.js:64 | the result is a suffix of the input, starts with no white space, and everything dropped was white space |
| JsBuiltins.TrimEnd | attendance.js:64 | the result is a prefix of the input, ends with no white space, and everything dropped was white space |
| JsBuiltins.Trim | attendance.js:64 | String.prototype.trim; its meaning is stated by TrimStrips, TrimIdempotent and TrimUnpadded |
| JsBuiltins.TrimStrips | attendance.js:64-65 | trim never lengthens a string; it gives the empty (falsy) string exactly when the input is all white space; it leaves no white space at either end |
| JsBuiltins.TrimIdempotent | attendance.js:64 | trimming a trimmed name changes nothing |
| JsBuiltins.TrimUnpadded | attendance.js:64 | a string with no white space at either end is its own trim |
| JsBuiltins.IsJsSpace | attendance.js:64 | the characters trim strips: the WhiteSpace and LineTerminator code points of ECMA-262, sections 12.2 and 12.3 |
| JsBuiltins.LowerChar | attendance.js:66 | toLowerCase on one character: an ASCII capital becomes the small letter 32 code points above it, and every other character is left as it is |
| JsBuiltins.ToLower | attendance.js:66 | toLowerCase keeps the length of the string; what it does to each character is stated through SameIgnoringCaseIff |
| JsBuiltins.SameIgnoringCase | attendance.js:66 | the duplicate test `s.name.toLowerCase() === name.toLowerCase()`; its meaning is stated in both directions by SameIgnoringCaseIff |
| JsBuiltins.CaseVariantsMatch | attendance.js:66 | two names that differ only in the case of ASCII letters compare equal after toLowerCase |
| JsBuiltins.SameIgnoringCaseIff | attendance.js:66 | two names compare equal after toLowerCase if and only if they have the same length and agree character by character after lowering; names that differ in anything else are not duplicates |
| JsBuiltins.IndexOf | attendance.js:236-237 | indexOf gives -1 exactly when the element is absent, and otherwise the position of its first occurrence |
| JsBuiltins.Split | attendance.js:270 | split gives at least one field, no field contains the separator, and joining the fields with the separator gives back the input |
| JsBuiltins.ToNumber | attendance.js:270 | Number() on a field of decimal digits; its meaning is stated by Alarms.TwoDigits |
| JsBuiltins.CompareStrings | attendance.js:239 | localeCompare gives -1, 0 or 1 |
| JsBuiltins.CompareStringsAntisymmetric | attendance.js:239 | swapping the two times negates the result of the string comparison |
| JsBuiltins.CompareStringsZero | attendance.js:239 | the string comparison gives 0 exactly for equal strings |
| JsBuiltins.CompareStringsTransitive | attendance.js:239 | "not after" in the string order is transitive |
| JsBuiltins.IndexOfFirst | attendance.js:236-237 | a position holding the element, with no occurrence before it, is the position indexOf reports |
| Records.DayOrder | attendance.js:234 | `dayOrder`: the seven weekday names from Monday to Sunday |
| Records.DayIndex | attendance.js:234-237 | the weekday index lies between -1 and 6 |
| Records.DayIndexIsIndexOf | attendance.js:234-237 | the weekday index is `dayOrder.indexOf(day)`: -1 exactly for a string that is not a weekday name, and otherwise the position of that name |
| Records.FindByName | attendance.js:66 | `subjects.find` with the case-insensitive test: absent exactly when no name matches, and otherwise the first subject that matches |
| Records.AppendKeepsValid | attendance.js:64-71 | pushing a trimmed, non-empty subject with zero counts whose name matches no existing one ignoring case keeps the subject list valid |
| Projection.MeetsGoal | attendance.js:121-130 | the test `percentage >= goal`, with percentage = attended / total * 100, multiplied out by total; Project's contract and the lemmas about it are phrased in it |
| Projection.Floor | attendance.js:131 | Math.floor: the largest integer q with d*q <= x |
| Projection.Ceil | attendance.js:135 | Math.ceil: the smallest integer q with x <= d*q |
| Projection.Project | attendance.js:127-138 | "no data" exactly when no class was held; "on track" exactly when the attended percentage meets the goal, and then canMiss >= 0; "at risk" exactly when it does not, and then needToAttend >= 1 |
| Projection.CanMissIsLargest | attendance.js:130-132 | after k more missed classes the goal is still met if and only if k <= canMiss |
| Projection.NeedToAttendIsSmallest | attendance.js:134-136 | after k more attended classes the goal is met if and only if k >= needToAttend |
| Projection.WorkedExamples | attendance.js:127-138 | 8 of 10 with a 75% goal is on track with no class to spare; 5 of 10 needs the next 10 classes |
| ArraySort.InsertPositionSplits | attendance.js:235-240 | the place where stable insertion puts x: x does not precede the element just before it, and precedes every element from it on |
| ArraySort.InsertPositionIs | attendance.js:235-240 | a position with those two properties is the insertion position, so the position is unique |
| ArraySort.InsertPermutation | attendance.js:235-240 | inserting adds exactly x to the multiset of elements |
| ArraySort.InsertSorted | attendance.js:235-240 | inserting into a sorted sequence under a consistent comparator keeps it sorted |
| ArraySort.InsertionSorted | attendance.js:235-240 | the stable insertion sort that specifies `schedule.sort`; its meaning is stated by InsertionSortedIsSorted, InsertionSortedIsPermutation and SortedUnchanged |
| ArraySort.InsertionSortedIsSorted | attendance.js:235-240 | sorting with a consistent comparator gives a sequence in comparator order |
| ArraySort.InsertionSortedIsPermutation | attendance.js:235-240 | sorting gives a permutation of its input |
| ArraySort.SortedUnchanged | attendance.js:235-240 | sorting a sequence that is already sorted changes nothing, so re-sorting an ordered schedule keeps every row index |
| ArraySort.AppendThenSort | attendance.js:208-210 | pushing onto a sorted sequence and then sorting is the same as inserting at the sorted position |
| ArraySort.SortedWithout | attendance.js:216-218 | removing one element from a sorted sequence leaves it sorted |
| ArraySort.ReversedThreeSort | attendance.js:235-240 | three elements listed in reverse comparator order, each preceding the ones before it, come out reversed |
| ArraySort.InsertInPlace | attendance.js:235-240 | one pass of in-place insertion: the prefix becomes the old prefix with the element inserted, and the rest of the array is unchanged |
| ArraySort.Sort | attendance.js:235-240 | the array after the in-place sort holds the stable insertion sort of its old contents |
| ScheduleOrder.Compare | attendance.js:235-240 | the comparator: weekday index first, then localeCompare of the times; its meaning is stated by CompareIsConsistent, CompareZeroIsSameSlot and UnknownDayFirst |
| ScheduleOrder.CompareIsConsistent | attendance.js:234-240 | the schedule comparator is consistent: swapping its operands flips its sign, and it is transitive |
| ScheduleOrder.CompareZeroIsSameSlot | attendance.js:236-239 | two classes compare equal exactly when they have the same weekday index and the same time string |
| ScheduleOrder.UnknownDayFirst | attendance.js:236-237 | an entry whose day is not a weekday name (index -1) sorts before every entry with a real weekday |
| ScheduleOrder.SortedSchedule | attendance.js:235-240 | the sorted schedule is a permutation of the schedule and is in timetable order |
| ScheduleOrder.WorkedSortExample | attendance.js:233-240 | Wednesday 09:00, Monday 14:00, Monday 08:00 sort to Monday 08:00, Monday 14:00, Wednesday 09:00 |
| Alarms.ParseClock | attendance.js:270-272 | `item.time.split(':').map(Number)`, then the hours and minutes; its meaning is stated by ParseFormatClock, ParseTwoPm and ParseTwoPastMidnight |
| Alarms.TwoDigits | attendance.js:270 | Number() of two zero-padded decimal digits is the number they were written from |
| Alarms.SplitOnce | attendance.js:270 | split at a separator that occurs once gives the text before it and the text after it |
| Alarms.ParseFormatClock | attendance.js:270 | splitting a zero-padded "HH:MM" time at ':' and converting both fields gives back the hour and minute |
| ScheduleOrder.ClockStringsInTimeOrder | attendance.js:239 | for zero-padded "HH:MM" times, the string order that sorts the schedule is the order of the times in the day |
| Alarms.AlarmMinute | attendance.js:271-274 | the alarm minute is a minute of the day, and five minutes later it is the class's minute of the day |
| Alarms.Fired | attendance.js:268-280 | the intents of the entries that fire, in schedule order; its meaning is stated by CheckAlarms, FiredAppend and FiredOnePerEntry |
| Alarms.CheckAlarms | attendance.js:263-281 | one scan yields exactly the intents of the entries whose test fires, in schedule order |
| Alarms.FiredAppend | attendance.js:268-280 | the intents of a concatenated schedule are the intents of each part, in order |
| Alarms.IntentsWhereCount | attendance.js:268-280 | a scan yields as many intents as there are positions whose entry it picks |
| Alarms.PickedSnoc | attendance.js:268-280 | one more entry adds one picked position exactly when that entry is picked |
| Alarms.FiredOnePerEntry | attendance.js:268-280 | a scan yields exactly one intent per firing entry: as many intents as positions whose entry fires, and an intent appears exactly when some entry with that subject and time fires |
| Alarms.OtherDaysNeverFire | attendance.js:269 | entries for other weekdays never yield an intent |
| Alarms.Fires | attendance.js:269-276 | the test of one entry: same weekday, a time that parses, and the alarm's hours and minutes each equal the clock's; its meaning is stated by FiresAtOneTick and FiresFiveMinutesBefore |
| Alarms.FiresAtOneTick | attendance.js:274-276 | on its own weekday, an entry fires at exactly one clock reading: a valid hour and minute whose minute of the day is the alarm minute |
| Alarms.FiresFiveMinutesBefore | attendance.js:271-276 | for a class at 00:05 or later, the entry fires exactly when the current time plus five minutes is the class time |
| Alarms.ParseTwoPm | attendance.js:270 | the time "14:00" reads as hour 14, minute 0 |
| Alarms.WorkedExample | attendance.js:263-281 | a Monday class whose time reads as 14:00 fires at Monday 13:55 and not at 13:54 or 13:56 |
| Alarms.ParseTwoPastMidnight | attendance.js:270 | the time "00:02" reads as hour 0, minute 2 |
| Alarms.MidnightClassAlertsLate | attendance.js:271-276 | as written, a Tuesday class whose time reads as 00:02 fires at Tuesday 23:57, not at Monday 23:57 |
| Alarms.FiveMinutesLaterCounts | attendance.js:274 | the weekday and time five minutes on are a valid weekday, hour and minute, and are five minutes on on the weekly clock, which wraps after Sunday |
| Alarms.FiresBeforeClass | attendance.js:271-276 | the corrected test; its meaning is stated by FiresBeforeClassIsFiveMinutesBefore and FiresBeforeClassAgrees |
| Alarms.FiresBeforeClassIsFiveMinutesBefore | attendance.js:274 | the corrected test fires exactly five minutes before the class on the weekly clock, carrying into the next hour and the next day |
| Alarms.FiresBeforeClassAgrees | attendance.js:271-276 | for a class at 00:05 or later, the corrected test and the code's test agree |
| Alarms.MidnightClassAlertsOnTime | attendance.js:271-276 | with the corrected test, a Tuesday class whose time reads as 00:02 fires at Monday 23:57 and not at Tuesday 23:57 |
| Store.WithoutSubject | attendance.js:83 | the filtered schedule keeps exactly the entries of other subjects |
| Store.WithoutSubjectCounts | attendance.js:83 | the filter drops every copy of an entry naming the subject and keeps every other entry as often as it occurred |
| Store.WithoutSubjectAppend | attendance.js:83 | the filter keeps the relative order of the entries |
| Store.WithoutSubjectSorted | attendance.js:83 | filtering a sorted schedule leaves it sorted |
| Store.SpliceStart | attendance.js:216 | splice's start position: a negative index counts from the end, and the position is clamped to the array |
| Store.SpliceOne | attendance.js:216 | `splice(index, 1)` removes the element at the start position when that is inside the array, keeping the elements before it and shifting those after it down by one; otherwise nothing changes |
| Store.AttendanceStore.Load | attendance.js:2-3 | startup with the saved arrays: the subjects as saved, the schedule as SortedSchedule of the saved one (a sorted permutation), the invariant established |
| Store.AttendanceStore.RenderSchedule | attendance.js:222-240 | the schedule becomes SortedSchedule of itself, a sorted permutation computed in place on an array; the subjects are unchanged |
| Store.AttendanceStore.AddSubject | attendance.js:62-76 | a blank name changes nothing; a name matching an existing one ignoring case is refused as a duplicate and changes nothing; otherwise the trimmed name is appended with zero counts; the invariant is kept |
| Store.AttendanceStore.RemoveSubject | attendance.js:78-88 | when confirmed, the subject is removed and so is every schedule entry naming it; otherwise nothing changes; the invariant is kept |
| Store.AttendanceStore.UpdateAttendance | attendance.js:90-99 | "attended" adds one to both counters, "missed" adds one to the classes held, any other kind changes nothing; no other subject changes; the invariant attended <= total is kept |
| Store.AttendanceStore.ResetAttendance | attendance.js:101-108 | when confirmed, both counters of that subject become 0 and nothing else changes |
| Store.AttendanceStore.AddScheduleItem | attendance.js:198-212 | an entry with all three fields filled in is added at its sorted position, and the multiset of entries grows by that entry; an entry with a blank field is rejected and nothing changes |
| Store.AttendanceStore.RemoveScheduleItem | attendance.js:214-220 | when confirmed, `splice(index, 1)` is applied to the sorted schedule, which stays sorted; otherwise nothing changes |

## Left out

- Page rendering is not modelled. That covers renderSubjects' and renderSchedule's HTML, the modals, tab switching and the texts of alert and confirm. Only the effects on `subjects` and `schedule` are modelled.
- localStorage is not modelled. saveData and the reads at startup become the arguments of `Load`, and the goal setting is not stored.
- The Notification API, its permission request and `setInterval` are not modelled. checkAlarms yields the list of `(subject, time)` pairs it would pass to sendNotification. The clock reading becomes the `currentDay`, `hour` and `minute` parameters.
- Daylight-saving transitions are not modelled. The alarm arithmetic is on a 24-hour day of 1440 minutes.
- Projection.Project: the goal is an integer strictly between 0 and 100. The code reads it as a float with parseFloat. A goal of 0 or 100 makes `100 - goal` or `goal` a divisor of zero, and a fractional goal brings more float rounding into the comparison.
- Projection.Project: the test `percentage >= goal` is modelled on integers as `100 * attended >= goal * total`, without the float rounding of `(attended / total) * 100`. The two differ when the percentage is exactly the goal but the float product rounds just below it. For 29 of 50 classes at a goal of 58, the product is 57.99999999999999, so the code takes the at-risk branch and shows "attend the next 0 class(es)". The same happens for 29 of 100 at 29 and 57 of 100 at 57. On those inputs the model gives OnTrack(0). Elsewhere the two agree, and so do the floor and the ceiling: the quotients they round are exact when they are integers and at least 1/99 away from one otherwise.
- Store.AttendanceStore.Load: requires the saved subjects to satisfy the invariant, as saveData wrote them. Data edited by hand in localStorage, and JSON that fails to parse, are outside the model.
- JsBuiltins.LowerChar: toLowerCase is modelled for ASCII letters only. Other characters are left as they are, so two names that differ only in non-ASCII case count as distinct here.
- JsBuiltins.CompareStrings: localeCompare is modelled as code-point order. For the zero-padded "HH:MM" strings produced by a time input, both orders agree on digits and ':'. Locale collation of other strings is not modelled.
- JsBuiltins.ToNumber: Number() is modelled for fields made only of decimal digits. Everything else counts as NaN, so the alarm never fires. The model does not capture that Number() also accepts surrounding white space, a sign, a fraction, an exponent or a hex prefix.
- Strings are sequences of Unicode scalar values, not UTF-16 code units.
- ArraySort.Sort: `Array.prototype.sort` is required to be stable, so with a consistent comparator its result is the same as any stable sort's. The model proves stable insertion sort correct. It does not prove that every stable sort gives the same result.
- Alarms.CheckAlarms: models the matching as written. The corrected matcher `FiresBeforeClass` is stated and proved beside it, not substituted into the scan.

## Findings

| source | as written | input that shows it | evidently intended | confidence | as-written member | corrected member |
|---|---|---|---|---|---|---|
| attendance.js:270-276 | the alarm is today's date at the class time minus five minutes, matched only against classes on today's weekday; for a class in the first five minutes of the day the alarm falls on the previous day and wraps to the end of the class's own weekday | a class on Tuesday at "00:02": the alarm fires on Tuesday at 23:57, almost a day after the class, and not on Monday at 23:57 | the alert comes five minutes before the class on the weekly clock, so on Monday at 23:57 | not executed | Alarms.MidnightClassAlertsLate | Alarms.FiresBeforeClassIsFiveMinutesBefore |
