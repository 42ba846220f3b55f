/** The GPA calculator of src/components/GPACalculator.tsx: the table of
    grade points, the list of graded entries built from the schedule with
    one entry per course id, the update of one entry's grade, and the
    credit-weighted average. Grade points are integer tenths (4.0 is 40),
    so the table is exact; the average is a `real`. */
module GpaCalculator {
  import opened Types

  /** The letter grades of the table; the empty grade '' of an entry that
      has not been graded is `None` where a grade is optional. */
  datatype Letter = A | AMinus | BPlus | B | BMinus | CPlus | C | CMinus | DPlus | D | F

  /** `gradePoints` (src/components/GPACalculator.tsx:20-25) in tenths of a
      point. */
  function GradePoints(grade: Letter): (tenths: nat)
    ensures tenths <= 40
    ensures tenths == 40 <==> grade == A
    ensures tenths == 0 <==> grade == F
  {
    match grade
    case A => 40
    case AMinus => 37
    case BPlus => 33
    case B => 30
    case BMinus => 27
    case CPlus => 23
    case C => 20
    case CMinus => 17
    case DPlus => 13
    case D => 10
    case F => 0
  }

  /** The table is strictly decreasing from A to F. */
  lemma GradePointsOrdered()
    ensures GradePoints(A) > GradePoints(AMinus) > GradePoints(BPlus) > GradePoints(B) > GradePoints(BMinus)
         > GradePoints(CPlus) > GradePoints(C) > GradePoints(CMinus) > GradePoints(DPlus) > GradePoints(D) > GradePoints(F)
  {
  }

  /** One row of the calculator (src/components/GPACalculator.tsx:9-14). */
  datatype CourseGrade = CourseGrade(courseId: string, courseName: string, credits: int, grade: Option<Letter>)

  /** The fresh, ungraded entry for a course (lines 31-36). */
  function EntryFor(course: Course): (entry: CourseGrade)
    ensures entry.courseId == course.id && entry.courseName == course.name && entry.credits == course.credits
    ensures entry.grade.None?
  {
    CourseGrade(course.id, course.name, course.credits, None)
  }

  /** `acc.some(c => c.courseId === id)`. */
  predicate HasId(entries: seq<CourseGrade>, id: string)
    ensures HasId(entries, id) <==> exists e :: e in entries && e.courseId == id
  {
    exists k :: 0 <= k < |entries| && entries[k].courseId == id
  }

  // ---------------------------------------------------------------------
  // the dedup reduce

  /** What the `reduce` of lines 29-39 accumulates: a left fold that
      appends the entry of a course unless its id is already present. */
  function Dedup(courses: seq<Course>): (entries: seq<CourseGrade>)
    ensures |entries| <= |courses|
    decreases |courses|
  {
    if |courses| == 0 then []
    else
      var acc := Dedup(courses[..|courses| - 1]);
      var course := courses[|courses| - 1];
      if HasId(acc, course.id) then acc else acc + [EntryFor(course)]
  }

  /** The `reduce` of src/components/GPACalculator.tsx:29-39, as the loop
      that pushes into the accumulator. */
  method UniqueCourses(courses: seq<Course>) returns (acc: seq<CourseGrade>)
    ensures acc == Dedup(courses)
  {
    acc := [];
    for i := 0 to |courses|
      invariant acc == Dedup(courses[..i])
    {
      assert courses[..i + 1][..i] == courses[..i];
      var course := courses[i];
      if !HasId(acc, course.id) {
        acc := acc + [EntryFor(course)];
      }
    }
    assert courses[..|courses|] == courses;
  }

  /** Some course of `courses` has id `id`. */
  predicate HasCourseId(courses: seq<Course>, id: string)
  {
    exists k :: 0 <= k < |courses| && courses[k].id == id
  }

  /** The deduplicated list has exactly the ids of the courses, each once,
      and every entry is ungraded. */
  lemma {:induction false} DedupIds(courses: seq<Course>)
    ensures forall id :: HasId(Dedup(courses), id) <==> HasCourseId(courses, id)
    ensures forall i, j :: 0 <= i < j < |Dedup(courses)| ==> Dedup(courses)[i].courseId != Dedup(courses)[j].courseId
    ensures forall k :: 0 <= k < |Dedup(courses)| ==> Dedup(courses)[k].grade.None?
    decreases |courses|
  {
    if |courses| > 0 {
      var earlier := courses[..|courses| - 1];
      var course := courses[|courses| - 1];
      DedupIds(earlier);
      var acc := Dedup(earlier);
      forall id
        ensures HasCourseId(courses, id) <==> HasCourseId(earlier, id) || course.id == id
      {
        if HasCourseId(courses, id) {
          var k :| 0 <= k < |courses| && courses[k].id == id;
          if k < |courses| - 1 {
            assert earlier[k].id == id;
          }
        }
        if HasCourseId(earlier, id) {
          var k :| 0 <= k < |earlier| && earlier[k].id == id;
          assert courses[k].id == id;
        }
      }
      if !HasId(acc, course.id) {
        var r := acc + [EntryFor(course)];
        forall id
          ensures HasId(r, id) <==> HasId(acc, id) || course.id == id
        {
          if HasId(r, id) {
            var k :| 0 <= k < |r| && r[k].courseId == id;
            if k < |acc| {
              assert acc[k].courseId == id;
            }
          }
          if HasId(acc, id) {
            var k :| 0 <= k < |acc| && acc[k].courseId == id;
            assert r[k].courseId == id;
          }
          assert r[|acc|].courseId == course.id;
        }
        forall i, j | 0 <= i < j < |r|
          ensures r[i].courseId != r[j].courseId
        {
          if j == |acc| {
            assert acc[i].courseId == r[i].courseId;
          }
        }
      }
    }
  }

  /** The fold only ever appends: the result for a prefix of the courses is
      a prefix of the result. */
  lemma {:induction false} DedupGrows(courses: seq<Course>, n: nat)
    requires n <= |courses|
    ensures Dedup(courses[..n]) <= Dedup(courses)
    decreases |courses| - n
  {
    if n < |courses| {
      var earlier := courses[..|courses| - 1];
      assert earlier[..n] == courses[..n];
      DedupGrows(earlier, n);
    } else {
      assert courses[..n] == courses;
    }
  }

  /** The entry of the first course with a given id is in the result, so the
      name and credits shown for an id are those of its first
      occurrence. */
  lemma {:induction false} DedupKeepsFirst(courses: seq<Course>, i: nat)
    requires i < |courses|
    requires forall j :: 0 <= j < i ==> courses[j].id != courses[i].id
    ensures EntryFor(courses[i]) in Dedup(courses)
  {
    var prefix := courses[..i + 1];
    var earlier := courses[..i];
    assert prefix[..i] == earlier;
    DedupIds(earlier);
    assert forall k :: 0 <= k < |earlier| ==> earlier[k] == courses[k];
    assert !HasCourseId(earlier, courses[i].id);
    assert Dedup(prefix) == Dedup(earlier) + [EntryFor(courses[i])];
    assert Dedup(prefix)[|Dedup(earlier)|] == EntryFor(courses[i]);
    DedupGrows(courses, i + 1);
  }

  /** Every entry of the result is the entry of some course, in the order
      of the courses. */
  lemma {:induction false} DedupOrder(courses: seq<Course>)
    ensures IsSubsequence(Dedup(courses), Entries(courses))
    decreases |courses|
  {
    if |courses| > 0 {
      var earlier := courses[..|courses| - 1];
      var course := courses[|courses| - 1];
      DedupOrder(earlier);
      assert Entries(courses) == Entries(earlier) + [EntryFor(course)];
      if HasId(Dedup(earlier), course.id) {
        SubsequenceExtend(Dedup(earlier), Entries(earlier), EntryFor(course));
      } else {
        SubsequenceAppend(Dedup(earlier), Entries(earlier), EntryFor(course));
      }
    }
  }

  /** The entry of every course, in order. */
  function Entries(courses: seq<Course>): (entries: seq<CourseGrade>)
    ensures |entries| == |courses|
    ensures forall k :: 0 <= k < |courses| ==> entries[k] == EntryFor(courses[k])
    decreases |courses|
  {
    if |courses| == 0 then [] else Entries(courses[..|courses| - 1]) + [EntryFor(courses[|courses| - 1])]
  }

  // ---------------------------------------------------------------------
  // updateGrade

  /** `updateGrade` (src/components/GPACalculator.tsx:59-65): the entries
      with the id get the new grade; nothing else changes. */
  function UpdateGrade(entries: seq<CourseGrade>, courseId: string, grade: Option<Letter>): (updated: seq<CourseGrade>)
    ensures |updated| == |entries|
    ensures forall k :: 0 <= k < |entries| ==>
              updated[k].courseId == entries[k].courseId &&
              updated[k].courseName == entries[k].courseName &&
              updated[k].credits == entries[k].credits
    ensures forall k :: 0 <= k < |entries| ==>
              updated[k].grade == if entries[k].courseId == courseId then grade else entries[k].grade
  {
    seq(|entries|, k requires 0 <= k < |entries| =>
      if entries[k].courseId == courseId then entries[k].(grade := grade) else entries[k])
  }

  /** Setting the same grade twice is setting it once. */
  lemma UpdateGradeIdempotent(entries: seq<CourseGrade>, courseId: string, grade: Option<Letter>)
    ensures UpdateGrade(UpdateGrade(entries, courseId, grade), courseId, grade) == UpdateGrade(entries, courseId, grade)
  {
  }

  /** Grades of different courses are independent: the two updates
      commute. */
  lemma UpdateGradeCommutes(entries: seq<CourseGrade>, id1: string, grade1: Option<Letter>, id2: string, grade2: Option<Letter>)
    requires id1 != id2
    ensures UpdateGrade(UpdateGrade(entries, id1, grade1), id2, grade2)
         == UpdateGrade(UpdateGrade(entries, id2, grade2), id1, grade1)
  {
  }

  // ---------------------------------------------------------------------
  // calculateGPA

  /** `courseGrades.filter(grade => grade.grade !== '')` (line 49). */
  function Graded(entries: seq<CourseGrade>): (graded: seq<CourseGrade>)
    ensures forall k :: 0 <= k < |graded| ==> graded[k].grade.Some?
    ensures forall e :: e in graded <==> e in entries && e.grade.Some?
    ensures IsSubsequence(graded, entries)
    ensures forall e :: multiset(graded)[e] == if e.grade.Some? then multiset(entries)[e] else 0
    decreases |entries|
  {
    if |entries| == 0 then []
    else
      var rest := Graded(entries[1..]);
      assert forall e :: e in entries <==> e == entries[0] || e in entries[1..];
      assert multiset(entries) == multiset([entries[0]]) + multiset(entries[1..]) by {
        assert entries == [entries[0]] + entries[1..];
      }
      if entries[0].grade.Some? then
        assert ([entries[0]] + rest)[1..] == rest;
        [entries[0]] + rest
      else rest
  }

  /** The sum of points times credits over graded entries (lines 50-52),
      in tenths. */
  function TotalPoints(graded: seq<CourseGrade>): (points: int)
    requires forall k :: 0 <= k < |graded| ==> graded[k].grade.Some?
    ensures (forall k :: 0 <= k < |graded| ==> graded[k].credits >= 0) ==> points >= 0
    decreases |graded|
  {
    if |graded| == 0 then 0
    else GradePoints(graded[0].grade.value) * graded[0].credits + TotalPoints(graded[1..])
  }

  /** The sum of credits (line 54). */
  function TotalCredits(graded: seq<CourseGrade>): (credits: int)
    ensures (forall k :: 0 <= k < |graded| ==> graded[k].credits >= 0) ==> credits >= 0
    decreases |graded|
  {
    if |graded| == 0 then 0 else graded[0].credits + TotalCredits(graded[1..])
  }

  /** `calculateGPA` (src/components/GPACalculator.tsx:48-57) before the
      rounding: the credit-weighted mean of the grade points of the graded
      entries, 0 when they carry no credits. */
  function Gpa(entries: seq<CourseGrade>): (gpa: real)
    ensures TotalCredits(Graded(entries)) <= 0 ==> gpa == 0.0
  {
    var graded := Graded(entries);
    var credits := TotalCredits(graded);
    if credits > 0 then TotalPoints(graded) as real / (10 * credits) as real else 0.0
  }

  /** Weighted sums lie between the smallest and largest grade weighted by
      the credits, when no credit count is negative. */
  lemma {:induction false} PointsBetween(graded: seq<CourseGrade>, lo: nat, hi: nat)
    requires forall k :: 0 <= k < |graded| ==> graded[k].grade.Some?
    requires forall k :: 0 <= k < |graded| ==> graded[k].credits >= 0
    requires forall k :: 0 <= k < |graded| ==> lo <= GradePoints(graded[k].grade.value) <= hi
    ensures lo * TotalCredits(graded) <= TotalPoints(graded) <= hi * TotalCredits(graded)
    decreases |graded|
  {
    if |graded| > 0 {
      PointsBetween(graded[1..], lo, hi);
      var p, c := GradePoints(graded[0].grade.value), graded[0].credits;
      var tc, tp := TotalCredits(graded[1..]), TotalPoints(graded[1..]);
      assert TotalCredits(graded) == c + tc;
      assert TotalPoints(graded) == p * c + tp;
      MultiplyMonotone(lo, p, c);
      MultiplyMonotone(p, hi, c);
      Distribute(lo, c, tc);
      Distribute(hi, c, tc);
    }
  }

  lemma Distribute(x: int, a: int, b: int)
    ensures x * (a + b) == x * a + x * b
  {
  }

  lemma MultiplyMonotone(x: int, y: int, c: nat)
    requires x <= y
    ensures x * c <= y * c
  {
  }

  /** With non-negative credits the average lies between the lowest and
      highest grade given, so always within [0.0, 4.0]. */
  lemma GpaBetween(entries: seq<CourseGrade>, lo: nat, hi: nat)
    requires forall e :: e in entries ==> e.credits >= 0
    requires forall e :: e in entries && e.grade.Some? ==> lo <= GradePoints(e.grade.value) <= hi
    requires TotalCredits(Graded(entries)) > 0
    ensures lo as real / 10.0 <= Gpa(entries) <= hi as real / 10.0
  {
    GradedPointsBetween(entries, lo, hi);
    AverageBetween(Gpa(entries), TotalCredits(Graded(entries)), TotalPoints(Graded(entries)), lo, hi);
  }

  lemma GradedPointsBetween(entries: seq<CourseGrade>, lo: nat, hi: nat)
    requires forall e :: e in entries ==> e.credits >= 0
    requires forall e :: e in entries && e.grade.Some? ==> lo <= GradePoints(e.grade.value) <= hi
    ensures lo * TotalCredits(Graded(entries)) <= TotalPoints(Graded(entries)) <= hi * TotalCredits(Graded(entries))
  {
    var graded := Graded(entries);
    assert forall k :: 0 <= k < |graded| ==> graded[k] in entries;
    PointsBetween(graded, lo, hi);
  }

  /** A mean `g` of `points / (10 * credits)` lies between `lo / 10` and
      `hi / 10` when the points lie between `lo * credits` and
      `hi * credits`. */
  lemma AverageBetween(g: real, credits: int, points: int, lo: int, hi: int)
    requires credits > 0 && g == points as real / (10 * credits) as real
    requires lo * credits <= points <= hi * credits
    ensures lo as real / 10.0 <= g <= hi as real / 10.0
  {
    var c := credits as real;
    assert g * (10 * credits) as real == points as real;
    assert (lo * credits) as real == lo as real * c;
    assert (hi * credits) as real == hi as real * c;
    assert (g * 10.0 - lo as real) * c == points as real - (lo * credits) as real;
    assert (hi as real - g * 10.0) * c == (hi * credits) as real - points as real;
  }

  /** When every graded entry has the same grade, the GPA is that grade's
      points, whatever the credits. */
  lemma UniformGpa(entries: seq<CourseGrade>, grade: Letter)
    requires forall e :: e in entries ==> e.credits >= 0
    requires forall e :: e in entries && e.grade.Some? ==> e.grade == Some(grade)
    requires TotalCredits(Graded(entries)) > 0
    ensures Gpa(entries) == GradePoints(grade) as real / 10.0
  {
    GpaBetween(entries, GradePoints(grade), GradePoints(grade));
  }

  /** The graded entries of two lists joined are those of each, in order. */
  lemma {:induction false} GradedAppend(first: seq<CourseGrade>, second: seq<CourseGrade>)
    ensures Graded(first + second) == Graded(first) + Graded(second)
    decreases |first|
  {
    if |first| > 0 {
      assert (first + second)[1..] == first[1..] + second;
      GradedAppend(first[1..], second);
    } else {
      assert first + second == second;
    }
  }

  /** Points and credits add up over a join of graded lists. */
  lemma {:induction false} TotalsAppend(first: seq<CourseGrade>, second: seq<CourseGrade>)
    requires forall k :: 0 <= k < |first| ==> first[k].grade.Some?
    requires forall k :: 0 <= k < |second| ==> second[k].grade.Some?
    ensures TotalPoints(first + second) == TotalPoints(first) + TotalPoints(second)
    ensures TotalCredits(first + second) == TotalCredits(first) + TotalCredits(second)
    decreases |first|
  {
    if |first| > 0 {
      assert (first + second)[1..] == first[1..] + second;
      TotalsAppend(first[1..], second);
    } else {
      assert first + second == second;
    }
  }

  /** The sums behind the GPA of two lists joined are the sums of each:
      every graded entry contributes once, whichever list it sits in. */
  lemma GradedTotalsAppend(first: seq<CourseGrade>, second: seq<CourseGrade>)
    ensures TotalPoints(Graded(first + second)) == TotalPoints(Graded(first)) + TotalPoints(Graded(second))
    ensures TotalCredits(Graded(first + second)) == TotalCredits(Graded(first)) + TotalCredits(Graded(second))
  {
    GradedAppend(first, second);
    TotalsAppend(Graded(first), Graded(second));
  }

  /** Two graded courses average their points weighted by their credits. */
  lemma TwoCourseGpa(first: CourseGrade, second: CourseGrade)
    requires first.grade.Some? && second.grade.Some? && first.credits + second.credits > 0
    ensures Gpa([first, second])
         == (GradePoints(first.grade.value) * first.credits + GradePoints(second.grade.value) * second.credits) as real
            / (10 * (first.credits + second.credits)) as real
  {
    var entries := [first, second];
    assert entries[1..] == [second] && entries[1..][1..] == [];
    assert Graded(entries) == entries;
    SingleTotals(first);
    SingleTotals(second);
    assert [first] + [second] == entries;
    TotalsAppend([first], [second]);
  }

  lemma SingleTotals(e: CourseGrade)
    requires e.grade.Some?
    ensures TotalPoints([e]) == GradePoints(e.grade.value) * e.credits
    ensures TotalCredits([e]) == e.credits
  {
    assert [e][1..] == [];
  }

  /** An A over three credits and a C over one average to 3.5. */
  lemma MixedGradesExample(first: CourseGrade, second: CourseGrade)
    requires first.credits == 3 && first.grade == Some(A)
    requires second.credits == 1 && second.grade == Some(C)
    ensures Gpa([first, second]) == 3.5
  {
    TwoCourseGpa(first, second);
    assert GradePoints(first.grade.value) == 40 && GradePoints(second.grade.value) == 20;
    assert 140 as real / 40 as real == 3.5;
  }

  /** The GPA of any grading of a schedule with non-negative credits lies in
      [0.0, 4.0]. */
  lemma GpaInRange(entries: seq<CourseGrade>)
    requires forall e :: e in entries ==> e.credits >= 0
    ensures 0.0 <= Gpa(entries) <= 4.0
  {
    if TotalCredits(Graded(entries)) > 0 {
      GpaBetween(entries, 0, 40);
    }
  }

  /** An ungraded entry changes neither the points nor the credits, so the
      average is that of the graded entries alone. */
  lemma {:induction false} UngradedIgnored(entries: seq<CourseGrade>, e: CourseGrade)
    requires e.grade.None?
    ensures Graded([e] + entries) == Graded(entries)
    ensures Gpa([e] + entries) == Gpa(entries)
  {
    assert ([e] + entries)[1..] == entries;
  }

  /** Grading every entry with the same letter gives that letter's
      points, whatever the credits, as long as some credit is counted. */
  lemma {:induction false} UniformGrade(graded: seq<CourseGrade>, grade: Letter)
    requires forall k :: 0 <= k < |graded| ==> graded[k].grade == Some(grade)
    ensures TotalPoints(graded) == GradePoints(grade) * TotalCredits(graded)
    decreases |graded|
  {
    if |graded| > 0 {
      UniformGrade(graded[1..], grade);
    }
  }
}
