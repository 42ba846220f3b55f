/** The weekly grid of src/components/WeeklySchedule.tsx: five weekday
    columns, hour rows from 8 to 21, the rule that decides which cell draws
    a course block and how tall the block is, and the colour of a block by
    subject. Times are minutes since midnight, so the source's comparison
    of a row hour `h` with a fractional start time is `h * 60` against the
    start minute. */
module WeeklySchedule {
  import opened Types
  import opened Text
  import opened ScheduleUtils

  /** The day columns (src/components/WeeklySchedule.tsx:13). */
  const GridDays: seq<Day> := [Monday, Tuesday, Wednesday, Thursday, Friday]

  /** The hour rows, `Array.from({ length: 14 }, (_, i) => i + 8)`
      (src/components/WeeklySchedule.tsx:14). */
  const GridHours: seq<int> := seq(14, i => i + 8)

  /** The rows are the hours 8 to 21, each once and in increasing order. */
  lemma GridHoursRange()
    ensures forall h :: h in GridHours <==> 8 <= h <= 21
    ensures Increasing(GridHours)
  {
    forall h | 8 <= h <= 21
      ensures h in GridHours
    {
      assert GridHours[h - 8] == h;
    }
  }

  /** Every weekday has its column. */
  lemma GridHasEveryDay(d: Day)
    ensures d in GridDays
  {
    match d
    case Monday => assert GridDays[0] == d;
    case Tuesday => assert GridDays[1] == d;
    case Wednesday => assert GridDays[2] == d;
    case Thursday => assert GridDays[3] == d;
    case Friday => assert GridDays[4] == d;
  }

  // ---------------------------------------------------------------------
  // getSubjectColor

  /** The six colour schemes of `getSubjectColor`; `Gray` is the default. */
  datatype SubjectColor = Blue | Emerald | Purple | Amber | Rose | Gray

  /** The class string of each colour scheme
      (src/components/WeeklySchedule.tsx:19-25). */
  function ColorClass(color: SubjectColor): string
  {
    match color
    case Blue => "bg-blue-100 dark:bg-blue-900/30 text-blue-900 dark:text-blue-100 border-l-4 border-blue-500"
    case Emerald => "bg-emerald-100 dark:bg-emerald-900/30 text-emerald-900 dark:text-emerald-100 border-l-4 border-emerald-500"
    case Purple => "bg-purple-100 dark:bg-purple-900/30 text-purple-900 dark:text-purple-100 border-l-4 border-purple-500"
    case Amber => "bg-amber-100 dark:bg-amber-900/30 text-amber-900 dark:text-amber-100 border-l-4 border-amber-500"
    case Rose => "bg-rose-100 dark:bg-rose-900/30 text-rose-900 dark:text-rose-100 border-l-4 border-rose-500"
    case Gray => "bg-gray-100 dark:bg-gray-700 text-gray-900 dark:text-gray-100 border-l-4 border-gray-500"
  }

  /** The lower-cased subject of a crn: the text before its first digit. */
  function SubjectKey(crn: string): (key: string)
    ensures |key| <= |crn|
    ensures forall k :: 0 <= k < |key| ==> !IsDigit(key[k])
  {
    ToLower(BeforeFirstDigit(crn))
  }

  /** `getSubjectColor` (src/components/WeeklySchedule.tsx:16-26): the five
      known subjects, in any case, have their own scheme and every other
      subject falls back to gray. */
  function GetSubjectColor(crn: string): (color: SubjectColor)
    ensures color == Gray <==> SubjectKey(crn) !in ["cs", "math", "phys", "eng", "ee"]
    ensures color == Blue <==> SubjectKey(crn) == "cs"
    ensures color == Emerald <==> SubjectKey(crn) == "math"
    ensures color == Purple <==> SubjectKey(crn) == "phys"
    ensures color == Amber <==> SubjectKey(crn) == "eng"
    ensures color == Rose <==> SubjectKey(crn) == "ee"
  {
    var subject := SubjectKey(crn);
    if subject == "cs" then Blue
    else if subject == "math" then Emerald
    else if subject == "phys" then Purple
    else if subject == "eng" then Amber
    else if subject == "ee" then Rose
    else Gray
  }

  /** The colour does not depend on the case of the crn. */
  lemma ColorIgnoresCase(crn: string)
    ensures GetSubjectColor(ToLower(crn)) == GetSubjectColor(crn)
  {
    BeforeFirstDigitToLower(crn);
    ToLowerIdempotent(BeforeFirstDigit(crn));
  }

  /** The course number after the subject has no influence on the colour. */
  lemma ColorIgnoresNumber(subject: string, number: string, rest: string)
    requires forall k :: 0 <= k < |subject| ==> !IsDigit(subject[k])
    requires |number| > 0 && IsDigit(number[0])
    ensures GetSubjectColor(subject + number + rest) == GetSubjectColor(subject + number)
  {
    SubjectBeforeNumber(subject, number + rest);
    SubjectBeforeNumber(subject, number);
    assert subject + number + rest == subject + (number + rest);
  }

  lemma {:induction false} SubjectBeforeNumber(subject: string, tail: string)
    requires forall k :: 0 <= k < |subject| ==> !IsDigit(subject[k])
    requires |tail| > 0 && IsDigit(tail[0])
    ensures BeforeFirstDigit(subject + tail) == subject
    decreases |subject|
  {
    if |subject| > 0 {
      assert (subject + tail)[1..] == subject[1..] + tail;
      SubjectBeforeNumber(subject[1..], tail);
      assert subject == [subject[0]] + subject[1..];
    }
  }

  // ---------------------------------------------------------------------
  // renderCourseBlock

  /** What a drawn block shows: its height in rem and its colour. */
  datatype Block = Block(heightRem: real, color: SubjectColor)

  /** `renderCourseBlock` (src/components/WeeklySchedule.tsx:28-55) on the
      parsed slot of a course: the cell of `day` and `hour` draws the block
      exactly when the day is one of the slot's days, the hour lies in
      [start, end) and is the start itself; the block is four rem per hour
      of duration. */
  function RenderCourseBlock(slot: TimeSlot, crn: string, day: Day, hour: int): (block: Option<Block>)
    ensures block.Some? <==> Some(day) in slot.days && hour * 60 == slot.startTime && slot.startTime < slot.endTime
    ensures block.Some? ==> block.value.heightRem > 0.0
    ensures block.Some? ==> block.value.heightRem * 15.0 == (slot.endTime - slot.startTime) as real
    ensures block.Some? ==> block.value.color == GetSubjectColor(crn)
  {
    if Some(day) !in slot.days then None
    else if hour * 60 < slot.startTime || hour * 60 >= slot.endTime then None
    else if hour * 60 != slot.startTime then None
    else
      var duration := (slot.endTime - slot.startTime) as real / 60.0;
      Some(Block(duration * 4.0, GetSubjectColor(crn)))
  }

  /** The hours among `hours` whose cell draws the block, in order. */
  function DrawingHours(slot: TimeSlot, crn: string, day: Day, hours: seq<int>): (drawn: seq<int>)
    ensures forall h :: h in drawn <==> h in hours && RenderCourseBlock(slot, crn, day, h).Some?
    ensures IsSubsequence(drawn, hours)
    decreases |hours|
  {
    if |hours| == 0 then []
    else
      var rest := DrawingHours(slot, crn, day, hours[1..]);
      assert forall h :: h in hours <==> h == hours[0] || h in hours[1..];
      if RenderCourseBlock(slot, crn, day, hours[0]).Some? then
        assert ([hours[0]] + rest)[1..] == rest;
        [hours[0]] + rest
      else rest
  }

  /** All hours that draw are the start hour itself. */
  lemma DrawnHoursAreStart(slot: TimeSlot, crn: string, day: Day, hours: seq<int>)
    ensures forall h :: h in DrawingHours(slot, crn, day, hours) ==> h * 60 == slot.startTime
  {
  }

  predicate Increasing(hours: seq<int>)
  {
    forall i, j :: 0 <= i < j < |hours| ==> hours[i] < hours[j]
  }

  /** The hour whose row draws the block, if there is one: the start, when
      the course meets on `day`, starts before it ends and starts on a
      whole hour. */
  predicate DrawsAt(slot: TimeSlot, day: Day, hour: int)
  {
    Some(day) in slot.days && slot.startTime < slot.endTime && slot.startTime % 60 == 0 && hour == slot.startTime / 60
  }

  /** Over an increasing list of hours exactly the start hour draws, and
      only when it is in the list and the course meets that day. */
  lemma {:induction false} DrawingHoursValue(slot: TimeSlot, crn: string, day: Day, hours: seq<int>)
    requires Increasing(hours)
    ensures DrawingHours(slot, crn, day, hours)
         == if DrawsAt(slot, day, slot.startTime / 60) && slot.startTime / 60 in hours then [slot.startTime / 60] else []
    decreases |hours|
  {
    if |hours| > 0 {
      DrawingHoursValue(slot, crn, day, hours[1..]);
      var h := hours[0];
      if RenderCourseBlock(slot, crn, day, h).Some? {
        assert h == slot.startTime / 60;
        forall k | 0 <= k < |hours[1..]|
          ensures hours[1..][k] != h
        {
          assert hours[0] < hours[k + 1];
        }
      }
    }
  }

  /** For one course and one day, at most one row of an increasing list of
      hours draws the block. */
  lemma AtMostOneCell(slot: TimeSlot, crn: string, day: Day, hours: seq<int>)
    requires Increasing(hours)
    ensures |DrawingHours(slot, crn, day, hours)| <= 1
  {
    DrawingHoursValue(slot, crn, day, hours);
  }

  /** The grid draws a course on a day exactly once when it meets that day,
      starts before it ends, and starts on a whole hour between 8 and 21;
      otherwise it is not drawn on that day at all. */
  lemma DrawnOnceIffWholeHourInGrid(slot: TimeSlot, crn: string, day: Day)
    ensures |DrawingHours(slot, crn, day, GridHours)| == 1 <==>
              Some(day) in slot.days && slot.startTime < slot.endTime &&
              slot.startTime % 60 == 0 && 8 * 60 <= slot.startTime <= 21 * 60
    ensures |DrawingHours(slot, crn, day, GridHours)| != 1 ==> |DrawingHours(slot, crn, day, GridHours)| == 0
  {
    GridHoursRange();
    DrawingHoursValue(slot, crn, day, GridHours);
  }

  /** A Monday-Wednesday-Friday slot from 9:00 to 9:50 (what
      "MWF 09:00-09:50" parses to, see `ExampleSlotDays`) is drawn in the
      9 o'clock row of Monday, 50 minutes tall, and not in the 10 o'clock
      row nor on Tuesday. */
  lemma NineOClockBlock(slot: TimeSlot, crn: string)
    requires slot.days == [Some(Monday), Some(Wednesday), Some(Friday)]
    requires slot.startTime == 540 && slot.endTime == 590
    ensures RenderCourseBlock(slot, crn, Monday, 9).Some?
    ensures RenderCourseBlock(slot, crn, Monday, 9).value.heightRem * 15.0 == 50.0
    ensures RenderCourseBlock(slot, crn, Monday, 10).None?
    ensures RenderCourseBlock(slot, crn, Tuesday, 9).None?
  {
    assert slot.days[0] == Some(Monday);
  }
}
