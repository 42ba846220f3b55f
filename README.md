# Course scheduler core in Dafny

This project models the logic at the centre of a browser course scheduler: the
engine that reads meeting patterns such as `"MWF 09:00-09:50"` or
`"TTH 14:00-15:15"`, and the list and record operations built on it.

- **ScheduleUtils** (`schedule_utils.dfy`): `parseTimeSlots`, `formatTimeRange`
  and `checkTimeConflict`. `parseTimeSlots` is written as the source's
  `while` loop, and that loop is proved against a specification function.
- **CourseSearch** (`course_search.dfy`): the time-of-day buckets, the subject
  list and the catalogue filter.
- **WeeklySchedule** (`weekly_schedule.dfy`): the grid rows and columns, the
  rule that decides which cell draws a course block and its height, and the
  subject colour.
- **GpaCalculator** (`gpa_calculator.dfy`): the grade table and the
  de-duplication of courses by id. The de-duplication is written as the
  source's accumulating loop. The module also covers the per-id grade update
  and the credit-weighted average.
- **App** (`app.dfy`): the add and remove handlers of the schedule list.
- **NotificationStore** (`notification_store.dfy`): the notification store, as
  a class whose list field each operation replaces.
- **UseCourses** (`use_courses.dfy`): the course list hook, as a class, with
  the module-level id counter as a separate object that every list shares.
- **Text** (`text.dfy`) and **Types** (`types.dfy`): the JavaScript string
  operations the code relies on (`split` on one character, `toLowerCase`,
  `includes`, `startsWith`, `Number`, `parseInt`, `split(/\d/)[0]`, the
  default `sort` order), plus the shared `Option` and `Course` types.

Times are integer minutes since midnight, `h * 60 + m`. The source uses
fractional hours, `h + m / 60`. Scaling by 60 keeps every `<`, `<=` and `==`
the code performs; `ScheduleUtils.HoursScaleToMinutes` proves this. Grade
points are integer tenths (4.0 is 40).

`None` stands for three things:
- a JavaScript `NaN` (a time field that is not digits, or `parseInt` of a
  token without a leading digit);
- a `TypeError` thrown for a schedule string without a space or a hyphen;
- the `undefined` entry that an unknown day letter produces.

Two behaviours of the code differ from what a reader might expect, and the
model follows the code:
- The usual 12-hour convention prints midnight as `12:00 AM`.
  `formatTimeRange` prints `0:00 AM`, because it shifts only hours above 12.
  See `ScheduleUtils.FormatMidnight`.
- `checkTimeConflict` treats two undefined day entries as a common day,
  because `includes(undefined)` finds `undefined`. See
  `ScheduleUtils.UndefinedDaysMatch`.

## Model

| member | source | states |
|---|---|---|
| ScheduleUtils.DayOfToken | src/utils/scheduleUtils.ts:11-17 | exactly the codes M, T, W, TH, F map to a weekday, and the weekday's code is the token; every other token is undefined |
| ScheduleUtils.DaysOf | src/utils/scheduleUtils.ts:19-29 | the `days` of a slot: the day table applied to each token of the greedy scan, in order (its properties are the lemmas below) |
| ScheduleUtils.Tokenize | src/utils/scheduleUtils.ts:21-29 | the scan emits only "TH" tokens and one-character tokens |
| ScheduleUtils.DaysOfStep | src/utils/scheduleUtils.ts:22-28 | one scan step: "TH" at the index gives Thursday and advances by two, otherwise the table entry of one character and advance by one |
| ScheduleUtils.TokenizeConsumesAll | src/utils/scheduleUtils.ts:21-29 | the tokens concatenate back to the whole day-code block, so the scan ends exactly at its length |
| ScheduleUtils.DayCountBounds | src/utils/scheduleUtils.ts:21-29 | the number of entries lies between ceil(n/2) and n for a block of n characters |
| ScheduleUtils.ThursdayInTail | src/utils/scheduleUtils.ts:22 | when the block does not start with "TH", it contains "TH" iff its tail does |
| ScheduleUtils.DayCountExact | src/utils/scheduleUtils.ts:21-29 | the number of entries equals the block length iff the block holds no "TH" |
| ScheduleUtils.CodeThenRest | src/utils/scheduleUtils.ts:21-28 | a weekday code followed by a block that does not start with "H" scans as that weekday, then the scan of the block |
| ScheduleUtils.DecodeEncode | src/utils/scheduleUtils.ts:19-29 | scanning the encoding of any weekday sequence gives that sequence back in order, repeats included |
| ScheduleUtils.EncodeDecode | src/utils/scheduleUtils.ts:19-29 | a block whose every entry is a known day is the encoding of the days it scans to |
| ScheduleUtils.UnknownCodeIsUndefined | src/utils/scheduleUtils.ts:26 | an unknown letter yields an undefined entry and the scan goes on ("MS" gives Monday then undefined) |
| ScheduleUtils.ScanExamples | src/utils/scheduleUtils.ts:19-29 | "MWF" scans to Monday, Wednesday, Friday and "TTH" to Tuesday, Thursday |
| ScheduleUtils.HoursScaleToMinutes | src/utils/scheduleUtils.ts:31-34 | fractional hours and minutes agree on every <=, < and == |
| ScheduleUtils.MinutesOf | src/utils/scheduleUtils.ts:31-34 | a time field reads as a number iff it has a colon and both fields around the first colon are digits |
| ScheduleUtils.ClockOrder | src/utils/scheduleUtils.ts:31-34 | with minutes below 60, minute counts order clock readings lexicographically by (hour, minute) |
| ScheduleUtils.MinutesOfClock | src/utils/scheduleUtils.ts:31-34 | an HH:MM token of digits reads as HH*60+MM |
| ScheduleUtils.TimeSlotOf | src/utils/scheduleUtils.ts:7-41 | a slot exists only for strings with a space whose second field has a hyphen (where the source does not throw) |
| ScheduleUtils.ParseTimeSlots | src/utils/scheduleUtils.ts:7-41 | the loop over the day codes yields exactly the greedy scan, and the times are the two clock readings around the first hyphen; None where the source throws or reads NaN |
| ScheduleUtils.ParsePattern | src/utils/scheduleUtils.ts:7-41 | every catalogue-style schedule string (day codes, a space, `HH:MM-HH:MM`) parses: the days are the scan of the codes, and start and end are the clock readings in minutes |
| ScheduleUtils.Period | src/utils/scheduleUtils.ts:50 | the period is PM iff hour >= 12, AM iff hour < 12 |
| ScheduleUtils.TwelveHourRoundTrip | src/utils/scheduleUtils.ts:50-51 | for hours 0-23 the printed hour and the period determine the hour; every hour but 0 prints between 1 and 12 |
| ScheduleUtils.DisplayHour | src/utils/scheduleUtils.ts:51 | the printed hour shows the same position on a 12-hour face as the hour, and is at most 12 for hours 0-23 |
| ScheduleUtils.FormatTime | src/utils/scheduleUtils.ts:47-53 | every formatted reading ends with the period "AM" or "PM", the NaN case included |
| ScheduleUtils.FormatClock | src/utils/scheduleUtils.ts:47-53 | a digit hour prints as its value in 12-hour form, followed by the minutes field verbatim and the period |
| ScheduleUtils.FormatTimeRange | src/utils/scheduleUtils.ts:43-56 | the result is defined iff the string has a space and its second field has a hyphen |
| ScheduleUtils.FormatIgnoresDayCodes | src/utils/scheduleUtils.ts:44 | the day-code prefix does not affect the formatted range |
| ScheduleUtils.FormatPattern | src/utils/scheduleUtils.ts:43-56 | a catalogue-style schedule string formats as fmt(start) + " - " + fmt(end) |
| ScheduleUtils.ClockFaceBoundaries | src/utils/scheduleUtils.ts:50-51 | 0 shows as 0 AM, 9 as 9 AM, 12 as 12 PM, 13 as 1 PM |
| ScheduleUtils.FormatMidnight | src/utils/scheduleUtils.ts:47-53 | "00:00" prints as "0:00 AM" |
| ScheduleUtils.FormatMorning | src/utils/scheduleUtils.ts:47-53 | "09:50" prints as "9:50 AM" (the leading zero of the hour goes, the minutes stay) |
| ScheduleUtils.FormatNoon | src/utils/scheduleUtils.ts:47-53 | "12:00" prints as "12:00 PM" |
| ScheduleUtils.FormatAfternoon | src/utils/scheduleUtils.ts:47-53 | "13:15" prints as "1:15 PM" |
| ScheduleUtils.CommonDays | src/utils/scheduleUtils.ts:63 | an entry is common iff it is in both lists; the list is empty iff no entry of the first is in the second; the common entries keep the order of the first list |
| ScheduleUtils.SlotsConflict | src/utils/scheduleUtils.ts:62-67 | two parsed slots conflict when they share a day entry and neither ends at or before the other starts (characterised by ConflictIffSharedMinute) |
| ScheduleUtils.CheckTimeConflict | src/utils/scheduleUtils.ts:58-68 | a verdict exists iff both strings parse |
| ScheduleUtils.ConflictIffSharedMinute | src/utils/scheduleUtils.ts:62-67 | for slots with start < end, a conflict is exactly a shared day plus a minute occupied by both half-open intervals |
| ScheduleUtils.ConflictSymmetric | src/utils/scheduleUtils.ts:58-68 | the conflict relation is symmetric |
| ScheduleUtils.TouchingDoesNotConflict | src/utils/scheduleUtils.ts:67 | intervals that only touch at an endpoint do not conflict |
| ScheduleUtils.SelfConflict | src/utils/scheduleUtils.ts:62-67 | a slot with a day and start < end conflicts with itself |
| ScheduleUtils.DisjointDaysDoNotConflict | src/utils/scheduleUtils.ts:63-64 | with no common day there is no conflict, whatever the times |
| ScheduleUtils.InvertedIntervalConflicts | src/utils/scheduleUtils.ts:67 | start is not checked against end: an interval that ends before it starts can still conflict |
| ScheduleUtils.UndefinedDaysMatch | src/utils/scheduleUtils.ts:63 | two undefined day entries count as a common day |
| ScheduleUtils.BackToBackPatterns | src/utils/scheduleUtils.ts:58-68 | a meeting string that starts at the reading another ends with never conflicts with it, whatever the day codes |
| ScheduleUtils.OverlappingPatterns | src/utils/scheduleUtils.ts:58-68 | two meeting strings with the same day codes (scanning to at least one entry) and overlapping times conflict |
| ScheduleUtils.TouchingExample | src/utils/scheduleUtils.ts:58-68 | "MWF 09:00-09:50" and "MWF 09:50-10:40" do not conflict |
| ScheduleUtils.OverlapExample | src/utils/scheduleUtils.ts:58-68 | "MWF 09:00-09:50" and "MWF 09:30-10:30" conflict |
| ScheduleUtils.DisjointDaysExample | src/utils/scheduleUtils.ts:58-68 | "MWF 09:00-09:50" and "TTH 09:00-09:50" do not conflict |
| CourseSearch.IsInTimeSlot | src/components/CourseSearch.tsx:31-42 | the result is defined iff the course time has a space (otherwise the source throws) |
| CourseSearch.StartHourOf | src/components/CourseSearch.tsx:32-34 | the start hour of a times field is a number exactly when the field begins with a digit; otherwise it is NaN |
| CourseSearch.InBucket | src/components/CourseSearch.tsx:36-41 | a named bucket admits only hours from 8 up to 20 and never NaN (BucketsDisjoint: the three buckets are disjoint and any other value admits everything) |
| CourseSearch.BucketsDisjoint | src/components/CourseSearch.tsx:36-41 | morning, afternoon and evening are pairwise disjoint; any other value accepts every hour; a NaN hour is in no named bucket |
| CourseSearch.BucketOnlyStartHour | src/components/CourseSearch.tsx:31-34 | on a pattern the bucket depends only on the start hour: the day codes, the start minutes and the end time are not read |
| CourseSearch.BucketByStartMinute | src/components/CourseSearch.tsx:31-41 | for minutes below 60 the buckets are the parsed start in [480,720), [720,960) and [960,1200) |
| CourseSearch.Insert | src/components/CourseSearch.tsx:27-29 | inserting gives exactly the old elements plus the new one |
| CourseSearch.InsertKeepsOrder | src/components/CourseSearch.tsx:29 | inserting into a strictly sorted list keeps it strictly sorted |
| CourseSearch.Subjects | src/components/CourseSearch.tsx:27-29 | the subject list is strictly sorted, and holds exactly the crn prefixes before the first digit |
| CourseSearch.SubjectOf | src/components/CourseSearch.tsx:28 | the subject is a digit-free prefix of the crn that stops only at the crn's end or at a digit: the first field of `split(/\d/)` |
| CourseSearch.SortedIsDuplicateFree | src/components/CourseSearch.tsx:27-29 | a strictly sorted list has no duplicates |
| CourseSearch.SortedSetUnique | src/components/CourseSearch.tsx:27-29 | two strictly sorted lists with the same elements are equal |
| CourseSearch.SubjectsIgnoreOrder | src/components/CourseSearch.tsx:27-29 | the subject list does not depend on the catalogue order |
| CourseSearch.MatchesTimeSlot | src/components/CourseSearch.tsx:53-54 | "all" accepts without reading the time; otherwise the test fails (throws) iff the time has no space |
| CourseSearch.MatchesSearch | src/components/CourseSearch.tsx:45-48 | a matching term is no longer than the name, the professor or the crn (EmptyTermMatches, SearchIgnoresCase and NameHitMatches give the rest) |
| CourseSearch.MatchesSubject | src/components/CourseSearch.tsx:50-51 | "all", or the subject is the crn's first characters |
| CourseSearch.MatchesCredits | src/components/CourseSearch.tsx:56-57 | anything but "all" that matches begins with a digit: a NaN from parseInt matches no course |
| CourseSearch.CreditsChoiceSelects | src/components/CourseSearch.tsx:56-57 | a credit count written in decimal selects exactly the courses with that many credits |
| CourseSearch.MatchesAvailability | src/components/CourseSearch.tsx:59-61 | only "all", "available" and "waitlist" match anything; "available" matches exactly the courses with free seats, "waitlist" exactly those with a waitlist |
| CourseSearch.Matches | src/components/CourseSearch.tsx:44-64 | a course is kept iff search, subject, time, credits and availability all hold; the test throws iff the time test throws |
| CourseSearch.FilteredCourses | src/components/CourseSearch.tsx:44-65 | the list exists iff no time test throws; then it is an order-preserving subsequence of the catalogue that keeps every copy of a matching course and no other course |
| CourseSearch.EmptyTermMatches | src/components/CourseSearch.tsx:45-48 | the empty term matches every course |
| CourseSearch.SearchIgnoresCase | src/components/CourseSearch.tsx:45-48 | lower-casing the term does not change the search |
| CourseSearch.NameHitMatches | src/components/CourseSearch.tsx:46 | a term that occurs in the name is found |
| CourseSearch.NoFiltersListAll | src/components/CourseSearch.tsx:44-65 | with an empty term and every filter "all", the whole catalogue is listed in order |
| CourseSearch.FilterGuarantees | src/components/CourseSearch.tsx:50-61 | every listed course matches the term; "available" lists only courses with free seats, "waitlist" only waitlisted ones, and a subject filter only crns that start with it |
| WeeklySchedule.GridHoursRange | src/components/WeeklySchedule.tsx:14 | the rows are exactly the hours 8 to 21, in increasing order |
| WeeklySchedule.GridHasEveryDay | src/components/WeeklySchedule.tsx:13 | every weekday has a column |
| WeeklySchedule.GetSubjectColor | src/components/WeeklySchedule.tsx:16-26 | cs, math, phys, eng and ee (lower-cased prefix before the first digit) each have their own scheme; any other subject gets the default |
| WeeklySchedule.ColorClass | src/components/WeeklySchedule.tsx:19-25 | the class string of each scheme, as the colour table and the default give it (a table, with no further property) |
| WeeklySchedule.SubjectKey | src/components/WeeklySchedule.tsx:17 | the colour key is no longer than the crn and holds no digit |
| WeeklySchedule.ColorIgnoresCase | src/components/WeeklySchedule.tsx:17 | the colour does not depend on the case of the crn |
| WeeklySchedule.ColorIgnoresNumber | src/components/WeeklySchedule.tsx:17 | what follows the first digit has no influence on the colour |
| WeeklySchedule.SubjectBeforeNumber | src/components/WeeklySchedule.tsx:17 | the prefix before the first digit of subject+number is the subject |
| WeeklySchedule.RenderCourseBlock | src/components/WeeklySchedule.tsx:28-55 | a block is drawn iff the day is among the slot's days, hour*60 equals the start, and start < end; its height is 4 rem per hour of duration, and its colour is the subject colour |
| WeeklySchedule.DrawingHours | src/components/WeeklySchedule.tsx:69-75 | the drawing rows are exactly the listed hours whose cell draws the block, in order |
| WeeklySchedule.DrawnHoursAreStart | src/components/WeeklySchedule.tsx:33-34 | only the start hour draws |
| WeeklySchedule.DrawingHoursValue | src/components/WeeklySchedule.tsx:28-37 | over increasing hours, the drawing rows are exactly [start/60] when the course meets that day, start < end, start is a whole hour and that hour is listed; otherwise there are none |
| WeeklySchedule.AtMostOneCell | src/components/WeeklySchedule.tsx:31-34 | for a course and a day, at most one row draws the block |
| WeeklySchedule.DrawnOnceIffWholeHourInGrid | src/components/WeeklySchedule.tsx:14-34 | a course is drawn once on a day iff it meets that day, start < end, and it starts on a whole hour from 8 to 21; otherwise it is not drawn there at all |
| WeeklySchedule.NineOClockBlock | src/components/WeeklySchedule.tsx:28-37 | the slot of "MWF 09:00-09:50" is drawn in Monday's 9 o'clock row, 50/15 rem tall, and not at 10 nor on Tuesday |
| GpaCalculator.GradePoints | src/components/GPACalculator.tsx:20-25 | grade points are at most 4.0; only A has 4.0 and only F has 0 |
| GpaCalculator.GradePointsOrdered | src/components/GPACalculator.tsx:20-25 | the table strictly decreases from A to F |
| GpaCalculator.EntryFor | src/components/GPACalculator.tsx:31-36 | a new entry copies the course's id, name and credits and starts ungraded |
| GpaCalculator.HasId | src/components/GPACalculator.tsx:30 | the `some` test holds iff an entry with the course id is in the list |
| GpaCalculator.Dedup | src/components/GPACalculator.tsx:29-39 | the reduce never yields more entries than there are courses; DedupIds, DedupGrows, DedupKeepsFirst and DedupOrder together fix its value, and DedupGrows is the one that fixes the order |
| GpaCalculator.UniqueCourses | src/components/GPACalculator.tsx:29-39 | the accumulating loop computes the dedup fold |
| GpaCalculator.DedupIds | src/components/GPACalculator.tsx:29-39 | the result has exactly the input ids, each once, and every entry starts ungraded |
| GpaCalculator.DedupGrows | src/components/GPACalculator.tsx:29-39 | the fold only appends: the result for a prefix of the input is a prefix of the result |
| GpaCalculator.DedupKeepsFirst | src/components/GPACalculator.tsx:30-36 | the entry built from the first course with an id is in the result |
| GpaCalculator.DedupOrder | src/components/GPACalculator.tsx:29-39 | the result is a subsequence of the entries of the courses, in input order |
| GpaCalculator.Entries | src/components/GPACalculator.tsx:31-36 | one fresh entry per course, in order |
| GpaCalculator.UpdateGrade | src/components/GPACalculator.tsx:59-65 | only entries with the id get the new grade; length, order, ids, names and credits are unchanged |
| GpaCalculator.UpdateGradeIdempotent | src/components/GPACalculator.tsx:59-65 | setting the same grade twice is setting it once |
| GpaCalculator.UpdateGradeCommutes | src/components/GPACalculator.tsx:59-65 | updates of different ids commute |
| GpaCalculator.Graded | src/components/GPACalculator.tsx:49 | the graded entries are exactly those with a grade, in order, each with as many copies as in the input |
| GpaCalculator.TotalPoints | src/components/GPACalculator.tsx:50-52 | the weighted points in tenths are non-negative when no credit count is negative |
| GpaCalculator.TotalCredits | src/components/GPACalculator.tsx:54 | the credit sum is non-negative when no credit count is negative |
| GpaCalculator.GradedAppend | src/components/GPACalculator.tsx:49 | the graded entries of two lists joined are those of each, in order |
| GpaCalculator.TotalsAppend | src/components/GPACalculator.tsx:50-54 | points and credits add up over a join of graded lists |
| GpaCalculator.GradedTotalsAppend | src/components/GPACalculator.tsx:49-54 | every graded entry contributes its points and credits once, whichever of two joined lists it sits in |
| GpaCalculator.TwoCourseGpa | src/components/GPACalculator.tsx:48-55 | two graded courses average their grade points weighted by their credits |
| GpaCalculator.MixedGradesExample | src/components/GPACalculator.tsx:48-55 | an A over three credits and a C over one give 3.5 |
| GpaCalculator.Gpa | src/components/GPACalculator.tsx:48-56 | with no graded credits the GPA is 0; otherwise it is bounded by GpaBetween, exact for uniform grades by UniformGpa and for two courses by TwoCourseGpa, and additive in its sums by GradedTotalsAppend |
| GpaCalculator.PointsBetween | src/components/GPACalculator.tsx:50-54 | with non-negative credits, the weighted points lie between lo and hi times the credits |
| GpaCalculator.GradedPointsBetween | src/components/GPACalculator.tsx:49-54 | the same bounds on the graded entries of a list |
| GpaCalculator.AverageBetween | src/components/GPACalculator.tsx:55 | the quotient of those sums lies between lo/10 and hi/10 |
| GpaCalculator.GpaBetween | src/components/GPACalculator.tsx:20-55 | with non-negative credits and some graded credit, the GPA lies between the lowest and highest grade points used |
| GpaCalculator.GpaInRange | src/components/GPACalculator.tsx:20-55 | with non-negative credits, the GPA is within [0, 4.0] |
| GpaCalculator.UniformGpa | src/components/GPACalculator.tsx:48-55 | when every graded entry has the same grade, the GPA is that grade's points, whatever the credits |
| GpaCalculator.UngradedIgnored | src/components/GPACalculator.tsx:49-54 | an ungraded entry changes neither the graded list nor the GPA |
| GpaCalculator.UniformGrade | src/components/GPACalculator.tsx:50-52 | when every entry has the same grade, the points are that grade times the credits |
| App.AddCourse | src/App.tsx:29-35 | the old schedule is a prefix of the new one and the id is scheduled afterwards; the schedule grows by one, with the course at the end, iff the id was absent |
| App.Scheduled | src/App.tsx:30 | the `some` test holds iff a course with the id is in the schedule |
| App.RemoveCourse | src/App.tsx:37-40 | the result is an order-preserving subsequence holding exactly the courses with another id |
| App.RemovedIdAbsent | src/App.tsx:38 | after removal no course has the id |
| App.AddKeepsIdsUnique | src/App.tsx:29-33 | unique ids stay unique after an add |
| App.AddIdempotent | src/App.tsx:29-33 | adding the same course twice is adding it once |
| App.RemoveAbsent | src/App.tsx:37-40 | removing an absent id changes nothing |
| App.RemoveAppend | src/App.tsx:38 | removal distributes over appending one course |
| App.AddThenRemove | src/App.tsx:29-40 | adding an absent course and then removing its id restores the schedule |
| App.RemoveIdempotent | src/App.tsx:37-40 | removing twice is removing once |
| NotificationStore.MarkRead | src/store/useNotificationStore.ts:24-28 | the length is unchanged; entries with the id become read and all others stay as they were |
| NotificationStore.MarkReadIdempotent | src/store/useNotificationStore.ts:24-28 | marking twice is marking once |
| NotificationStore.MarkedAreRead | src/store/useNotificationStore.ts:24-28 | afterwards no notification with the id is unread |
| NotificationStore.MarkReadUnreadCount | src/store/useNotificationStore.ts:24-28 | the unread count never increases, and drops by exactly the number of unread entries with the id |
| NotificationStore.UnreadWithId | src/store/useNotificationStore.ts:24-28 | the unread entries with an id never outnumber the unread entries |
| NotificationStore.MarkAbsentId | src/store/useNotificationStore.ts:24-28 | marking an id that no notification has changes nothing |
| NotificationStore.Store.constructor | src/store/useNotificationStore.ts:12 | the store starts empty |
| NotificationStore.Store.AddNotification | src/store/useNotificationStore.ts:13-23 | the new notification, unread, goes in front; the old list follows unchanged; the length and the unread count grow by one |
| NotificationStore.Store.MarkAsRead | src/store/useNotificationStore.ts:24-28 | the list becomes MarkRead of the old list, and the unread count does not grow |
| NotificationStore.Store.ClearAll | src/store/useNotificationStore.ts:29 | the list becomes empty |
| UseCourses.IdCounter.constructor | src/hooks/useCourses.ts:4 | the counter starts at 1 |
| UseCourses.CourseList.Valid | src/hooks/useCourses.ts:4-22 | the stored numbers increase along the list and are all below the counter, so they are distinct and never reused |
| UseCourses.WithoutId | src/hooks/useCourses.ts:26 | the result is an order-preserving subsequence holding exactly the courses with another number |
| UseCourses.WithoutIdKeepsOrder | src/hooks/useCourses.ts:26 | deleting keeps the numbers increasing |
| UseCourses.WithoutAbsentId | src/hooks/useCourses.ts:26 | deleting an absent number changes nothing |
| UseCourses.DeleteCount | src/hooks/useCourses.ts:26 | with increasing numbers, a delete removes exactly one course if the number is present and none otherwise |
| UseCourses.DeleteRemovesAtMostOne | src/hooks/useCourses.ts:26 | with increasing numbers, a delete removes at most one course |
| UseCourses.CourseList.constructor | src/hooks/useCourses.ts:7-8 | a new list is empty, has no error, and its numbers are valid |
| UseCourses.CourseList.AddCourse | src/hooks/useCourses.ts:10-22 | the course is appended under the counter's old value; the counter goes up by exactly one; the error is cleared; the numbers stay increasing and below the counter |
| UseCourses.CourseList.DeleteCourse | src/hooks/useCourses.ts:24-32 | every course with the number goes, the others keep their order, the error is cleared, and the numbers stay valid |
| Text.Split | src/utils/scheduleUtils.ts:8 | split on one character always gives at least one field; no field holds the separator; there is a single field iff the separator is absent |
| Text.JoinSplit | src/utils/scheduleUtils.ts:8 | joining the fields of a split gives the string back |
| Text.SplitJoin | src/utils/scheduleUtils.ts:8 | splitting a join of separator-free fields gives the fields back |
| Text.SplitTwo | src/utils/scheduleUtils.ts:9 | a + sep + b, with no sep in a or b, splits into [a, b] |
| Text.ToLower | src/components/CourseSearch.tsx:46 | lower-casing works character by character and keeps the length |
| Text.ToLowerIdempotent | src/components/CourseSearch.tsx:46 | lower-casing twice is lower-casing once |
| Text.Includes | src/components/CourseSearch.tsx:46-48 | includes holds iff the needle occurs at some position |
| Text.StartsWith | src/components/CourseSearch.tsx:51 | `startsWith` holds iff the prefix is no longer than the string and equals its first characters |
| Text.NumberOf | src/utils/scheduleUtils.ts:32 | on the decimal tokens the model covers, Number gives a value iff the token is all digits |
| Text.ParseIntOf | src/utils/scheduleUtils.ts:49 | on the decimal tokens the model covers, parseInt gives a value iff the token starts with a digit |
| Text.ParseIntOfDigits | src/utils/scheduleUtils.ts:49 | on a non-empty digit token, parseInt is its decimal value |
| Text.NatToString | src/utils/scheduleUtils.ts:52 | a number prints as digits with no leading zero |
| Text.NatToStringValue | src/utils/scheduleUtils.ts:52 | reading the printed number gives it back |
| Text.BeforeFirstDigit | src/components/CourseSearch.tsx:28 | the result is the longest digit-free prefix |
| Text.BeforeFirstDigitToLower | src/components/WeeklySchedule.tsx:17 | lower-casing commutes with taking the prefix before the first digit |
| Text.LexLessIrreflexive | src/components/CourseSearch.tsx:29 | the sort order is irreflexive |
| Text.LexLessTransitive | src/components/CourseSearch.tsx:29 | the sort order is transitive |
| Text.LexLessTotal | src/components/CourseSearch.tsx:29 | any two different strings are ordered |

## Left out

- Rendering: JSX, class strings other than the subject colours, click handlers and the selected course are not modelled. The React state setters are not modelled either; each new state is the value an operation returns, or the field it assigns.
- Persistence and the network: `saveSchedule` (browser storage) in the App handlers is not modelled. The handlers return the new list.
- WeeklySchedule.RenderCourseBlock: takes the parsed slot, not the course time. In the source, `renderCourseBlock` calls `parseTimeSlots` itself, and a course time without a space or a hyphen throws there, so the whole grid fails to render. The model covers only times that parse (`ScheduleUtils.TimeSlotOf` is `Some`); the throwing case is the `None` of `ScheduleUtils.TimeSlotOf`, and nothing in the model renders it. The block's `key`, `zIndex` and text are display only.
- WeeklySchedule.GetSubjectColor: returns a colour scheme. `ColorClass` gives each scheme's class string. A crn whose lower-cased prefix names a property that every JavaScript object inherits (such as "constructor") does not get the default colour in the source; the model gives it the default.
- GpaCalculator.Gpa: the `toFixed(2)` rounding and IEEE double arithmetic are not modelled. The value is the exact quotient.
- GpaCalculator.CourseGrade: a grade is one of the table's letters or empty, the choices the grade selector offers. A grade string outside the table (which would give `NaN`) is not modelled.
- NotificationStore.Store.AddNotification: the random id and the ISO timestamp are parameters, not generated.
- NotificationStore.Notification: the optional `id`, `timestamp` and `read` fields are always present.
- UseCourses.CourseList.AddCourse: the `catch` branches of `addCourse` and `deleteCourse` cannot be reached, because nothing in their `try` blocks throws. The error message they would set is not modelled. JavaScript number overflow of the counter is not modelled (the counter is a `nat`).
- Types.Course: `credits`, `seatsAvailable` and `waitlistCount` are integers, and so is `GpaCalculator.CourseGrade.credits`. The source types them as JavaScript numbers, so a fractional credit count (such as 1.5) is possible there. It would enter the GPA sums, and it would match no choice of the credits filter. Fractional values are not modelled.
- Text.DigitsValue: every JavaScript number is an exact, unbounded integer here. The rounding of doubles above 2^53 in `Number` and `parseInt` is not modelled.
- Text.LowerChar: lower-cases ASCII letters only. JavaScript lower-cases all of Unicode.
- Text.LexLess: compares characters as code points. JavaScript's default `sort` compares UTF-16 code units; the two orders differ only beyond the Basic Multilingual Plane.
- Text.NumberOf: accepts digit-only tokens (the empty token is 0). JavaScript's `Number` also accepts leading or trailing white space, signs, decimals and exponents. It also accepts the `0x`, `0o` and `0b` prefixes and `Infinity`. The model reads all of these as `NaN`.
- Text.ParseIntOf: reads leading decimal digits only. Leading white space and signs, which `parseInt` skips or accepts, read as `NaN` here. A `0x` prefix is not modelled: JavaScript reads `parseInt("0x1A")` as 26 and `parseInt("0x")` as `NaN`, and the model reads both as 0.
- ScheduleUtils.DaysOf: scans the day codes one code point at a time. The loop in the source indexes UTF-16 code units, so a character outside the Basic Multilingual Plane gives two undefined entries there and one here. The character count in `ScheduleUtils.DayCountBounds` and `ScheduleUtils.DayCountExact` is a count of code points.
- ScheduleUtils.MinutesOf: a field with `NaN` makes the whole slot `None`. In the source, a `NaN` start or end is kept in the slot, and every comparison with it is false.
