/** The schedule handlers of src/App.tsx: `handleAddCourse` and
    `handleRemoveCourse` build the new schedule list from the current one;
    writing it to the data store is not part of this model. */
module App {
  import opened Types

  /** Some course of the schedule has id `id` (`schedule.some(c => c.id === id)`). */
  predicate Scheduled(schedule: seq<Course>, id: string)
    ensures Scheduled(schedule, id) <==> exists c :: c in schedule && c.id == id
  {
    exists k :: 0 <= k < |schedule| && schedule[k].id == id
  }

  /** No two courses of the schedule share an id. */
  predicate UniqueIds(schedule: seq<Course>)
  {
    forall i, j :: 0 <= i < j < |schedule| ==> schedule[i].id != schedule[j].id
  }

  /** `handleAddCourse` (src/App.tsx:29-35): the course is appended when
      its id is not yet scheduled; otherwise the schedule stays as it is.
      Either way the id is scheduled afterwards and the old schedule is a
      prefix of the new one. */
  function AddCourse(schedule: seq<Course>, course: Course): (updated: seq<Course>)
    ensures schedule <= updated && Scheduled(updated, course.id)
    ensures |updated| == |schedule| + 1 <==> !Scheduled(schedule, course.id)
    ensures |updated| == |schedule| <==> Scheduled(schedule, course.id)
    ensures |updated| > |schedule| ==> updated[|schedule|] == course
  {
    if Scheduled(schedule, course.id) then schedule
    else
      var updated := schedule + [course];
      assert updated[|schedule|].id == course.id;
      updated
  }

  /** `handleRemoveCourse` (src/App.tsx:37-40): every course with the id
      goes, the others stay in their order. */
  function RemoveCourse(schedule: seq<Course>, id: string): (updated: seq<Course>)
    ensures IsSubsequence(updated, schedule)
    ensures forall c :: c in updated <==> c in schedule && c.id != id
    decreases |schedule|
  {
    if |schedule| == 0 then []
    else
      var rest := RemoveCourse(schedule[1..], id);
      assert forall c :: c in schedule <==> c == schedule[0] || c in schedule[1..];
      if schedule[0].id != id then
        assert ([schedule[0]] + rest)[1..] == rest;
        [schedule[0]] + rest
      else rest
  }

  /** After a removal the id is no longer scheduled. */
  lemma RemovedIdAbsent(schedule: seq<Course>, id: string)
    ensures !Scheduled(RemoveCourse(schedule, id), id)
  {
    var updated := RemoveCourse(schedule, id);
    forall k | 0 <= k < |updated|
      ensures updated[k].id != id
    {
      assert updated[k] in updated;
    }
  }

  /** Adding keeps the ids of a schedule unique. */
  lemma AddKeepsIdsUnique(schedule: seq<Course>, course: Course)
    requires UniqueIds(schedule)
    ensures UniqueIds(AddCourse(schedule, course))
  {
    var updated := AddCourse(schedule, course);
    if !Scheduled(schedule, course.id) {
      forall i, j | 0 <= i < j < |updated|
        ensures updated[i].id != updated[j].id
      {
        if j == |schedule| {
          assert updated[i] == schedule[i];
        }
      }
    }
  }

  /** Adding the same course twice is adding it once. */
  lemma AddIdempotent(schedule: seq<Course>, course: Course)
    ensures AddCourse(AddCourse(schedule, course), course) == AddCourse(schedule, course)
  {
  }

  /** Removing an id that is not scheduled changes nothing. */
  lemma {:induction false} RemoveAbsent(schedule: seq<Course>, id: string)
    requires !Scheduled(schedule, id)
    ensures RemoveCourse(schedule, id) == schedule
    decreases |schedule|
  {
    if |schedule| > 0 {
      assert schedule[0].id != id;
      assert forall k :: 0 <= k < |schedule[1..]| ==> schedule[1..][k] == schedule[k + 1];
      RemoveAbsent(schedule[1..], id);
      assert [schedule[0]] + schedule[1..] == schedule;
    }
  }

  /** Removing over a list with one more course at the end. */
  lemma {:induction false} RemoveAppend(schedule: seq<Course>, course: Course, id: string)
    ensures RemoveCourse(schedule + [course], id)
         == RemoveCourse(schedule, id) + (if course.id == id then [] else [course])
    decreases |schedule|
  {
    if |schedule| > 0 {
      assert (schedule + [course])[1..] == schedule[1..] + [course];
      RemoveAppend(schedule[1..], course, id);
    } else {
      assert schedule + [course] == [course];
    }
  }

  /** Adding a course that is not scheduled and then removing its id gives
      back the schedule. */
  lemma AddThenRemove(schedule: seq<Course>, course: Course)
    requires !Scheduled(schedule, course.id)
    ensures RemoveCourse(AddCourse(schedule, course), course.id) == schedule
  {
    RemoveAppend(schedule, course, course.id);
    RemoveAbsent(schedule, course.id);
  }

  /** Removing twice is removing once. */
  lemma RemoveIdempotent(schedule: seq<Course>, id: string)
    ensures RemoveCourse(RemoveCourse(schedule, id), id) == RemoveCourse(schedule, id)
  {
    RemovedIdAbsent(schedule, id);
    RemoveAbsent(RemoveCourse(schedule, id), id);
  }
}
