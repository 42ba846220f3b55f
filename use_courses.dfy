/** The course list hook of src/hooks/useCourses.ts. Every course added is
    stored under a fresh number drawn from `courseIdCounter`, a counter at
    module level that all users of the hook share; a course is deleted by
    that number. Both operations clear the error message. */
module UseCourses {
  import opened Types

  /** `courseIdCounter` (src/hooks/useCourses.ts:4): one object shared by
      every course list, starting at 1. */
  class IdCounter {
    var next: nat

    constructor()
      ensures next == 1
    {
      next := 1;
    }
  }

  /** `{ ...newCourse, id }`: a course stored under its number. */
  datatype StoredCourse = StoredCourse(id: nat, course: Course)

  /** The numbers increase along the list. */
  predicate IdsIncreasing(courses: seq<StoredCourse>)
  {
    forall i, j :: 0 <= i < j < |courses| ==> courses[i].id < courses[j].id
  }

  /** `prevCourses.filter(course => course.id !== id)`. */
  function WithoutId(courses: seq<StoredCourse>, id: int): (kept: seq<StoredCourse>)
    ensures IsSubsequence(kept, courses)
    ensures forall c :: c in kept <==> c in courses && c.id != id
    decreases |courses|
  {
    if |courses| == 0 then []
    else
      var rest := WithoutId(courses[1..], id);
      assert forall c :: c in courses <==> c == courses[0] || c in courses[1..];
      if courses[0].id != id then
        assert ([courses[0]] + rest)[1..] == rest;
        [courses[0]] + rest
      else rest
  }

  /** In a list with increasing numbers, every course after the first has
      a larger number than the first. */
  lemma TailIdsAbove(courses: seq<StoredCourse>)
    requires |courses| > 0 && IdsIncreasing(courses)
    ensures forall c :: c in courses[1..] ==> courses[0].id < c.id
  {
    forall c | c in courses[1..]
      ensures courses[0].id < c.id
    {
      var k :| 0 <= k < |courses[1..]| && courses[1..][k] == c;
      assert courses[k + 1] == c;
    }
  }

  /** A course in front of a list with increasing numbers, all above its
      own, gives a list with increasing numbers. */
  lemma ConsIncreasing(first: StoredCourse, rest: seq<StoredCourse>)
    requires IdsIncreasing(rest)
    requires forall c :: c in rest ==> first.id < c.id
    ensures IdsIncreasing([first] + rest)
  {
    var list := [first] + rest;
    forall i, j | 0 <= i < j < |list|
      ensures list[i].id < list[j].id
    {
      assert list[j] == rest[j - 1];
      if i > 0 {
        assert list[i] == rest[i - 1];
      } else {
        assert rest[j - 1] in rest;
      }
    }
  }

  /** What is kept of a list with increasing numbers still has increasing
      numbers. */
  lemma {:induction false} WithoutIdKeepsOrder(courses: seq<StoredCourse>, id: int)
    requires IdsIncreasing(courses)
    ensures IdsIncreasing(WithoutId(courses, id))
    decreases |courses|
  {
    if |courses| > 0 {
      WithoutIdKeepsOrder(courses[1..], id);
      if courses[0].id != id {
        TailIdsAbove(courses);
        ConsIncreasing(courses[0], WithoutId(courses[1..], id));
      }
    }
  }

  /** Deleting a number that no course has changes nothing. */
  lemma {:induction false} WithoutAbsentId(courses: seq<StoredCourse>, id: int)
    requires forall k :: 0 <= k < |courses| ==> courses[k].id != id
    ensures WithoutId(courses, id) == courses
    decreases |courses|
  {
    if |courses| > 0 {
      WithoutAbsentId(courses[1..], id);
      assert [courses[0]] + courses[1..] == courses;
    }
  }

  /** With increasing numbers a deletion removes at most one course. */
  lemma DeleteRemovesAtMostOne(courses: seq<StoredCourse>, id: int)
    requires IdsIncreasing(courses)
    ensures |WithoutId(courses, id)| + 1 >= |courses|
  {
    DeleteCount(courses, id);
  }

  lemma {:induction false} DeleteCount(courses: seq<StoredCourse>, id: int)
    requires IdsIncreasing(courses)
    ensures |WithoutId(courses, id)| == |courses| - (if exists k :: 0 <= k < |courses| && courses[k].id == id then 1 else 0)
    decreases |courses|
  {
    if |courses| > 0 {
      DeleteCount(courses[1..], id);
      if courses[0].id == id {
        assert forall k :: 0 <= k < |courses[1..]| ==> courses[1..][k].id != id by {
          forall k | 0 <= k < |courses[1..]|
            ensures courses[1..][k].id != id
          {
            assert courses[0].id < courses[k + 1].id;
          }
        }
      } else {
        assert (exists k :: 0 <= k < |courses| && courses[k].id == id)
           <==> (exists k :: 0 <= k < |courses[1..]| && courses[1..][k].id == id) by {
          if exists k :: 0 <= k < |courses| && courses[k].id == id {
            var k :| 0 <= k < |courses| && courses[k].id == id;
            assert courses[1..][k - 1].id == id;
          }
          if exists k :: 0 <= k < |courses[1..]| && courses[1..][k].id == id {
            var k :| 0 <= k < |courses[1..]| && courses[1..][k].id == id;
            assert courses[k + 1].id == id;
          }
        }
      }
    }
  }

  /** The state of one `useCourses()` (src/hooks/useCourses.ts:6-40). */
  class CourseList {
    var courses: seq<StoredCourse>
    var error: Option<string>
    const counter: IdCounter

    /** Every stored number was handed out by the counter, in increasing
        order, so the numbers are distinct and below the next one. */
    predicate Valid()
      reads this, counter
    {
      IdsIncreasing(courses) && forall k :: 0 <= k < |courses| ==> courses[k].id < counter.next
    }

    /** A fresh hook: no courses, no error (lines 7-8). */
    constructor(counter: IdCounter)
      ensures this.counter == counter
      ensures courses == [] && error == None
      ensures Valid()
    {
      this.counter := counter;
      courses := [];
      error := None;
    }

    /** `addCourse` (lines 10-22): the course gets the counter's current
        value, the counter goes up by one, the course is appended and the
        error cleared. */
    method AddCourse(newCourse: Course)
      requires Valid()
      modifies this, counter
      ensures Valid()
      ensures courses == old(courses) + [StoredCourse(old(counter.next), newCourse)]
      ensures counter.next == old(counter.next) + 1
      ensures error == None
    {
      var id := counter.next;
      counter.next := counter.next + 1;
      courses := courses + [StoredCourse(id, newCourse)];
      error := None;
    }

    /** `deleteCourse` (lines 24-32): every course with the number goes,
        the rest keep their order, and the error is cleared. */
    method DeleteCourse(id: int)
      requires Valid()
      modifies this
      ensures Valid()
      ensures courses == WithoutId(old(courses), id)
      ensures error == None
    {
      WithoutIdKeepsOrder(courses, id);
      courses := WithoutId(courses, id);
      error := None;
    }
  }
}
