/** The catalogue filter of src/components/CourseSearch.tsx: the time-of-day
    buckets, the subject list offered in the filter panel, and the predicate
    that decides which catalogue courses are listed. A result of `None`
    stands for the `TypeError` the source throws when a course time has no
    space in it and the time filter is in use. */
module CourseSearch {
  import opened Types
  import opened Text
  import opened ScheduleUtils

  // ---------------------------------------------------------------------
  // isInTimeSlot

  /** The integer hour of the start token of a time range: `parseInt` of
      the text before the first ':' of the text before the first '-'
      (`None` is `NaN`). */
  function StartHourOf(times: string): (hour: Option<nat>)
    ensures hour.Some? <==> |times| > 0 && IsDigit(times[0])
  {
    ParseIntOf(Split(Split(times, '-')[0], ':')[0])
  }

  /** The `switch` of `isInTimeSlot` (src/components/CourseSearch.tsx:36-41):
      morning is [8, 12), afternoon [12, 16), evening [16, 20), and any other
      value accepts every hour. A `NaN` hour fails every comparison. */
  predicate InBucket(hour: Option<nat>, slot: string)
    ensures InBucket(hour, slot) && slot in ["morning", "afternoon", "evening"] ==> hour.Some? && 8 <= hour.value < 20
  {
    if slot == "morning" then hour.Some? && 8 <= hour.value < 12
    else if slot == "afternoon" then hour.Some? && 12 <= hour.value < 16
    else if slot == "evening" then hour.Some? && 16 <= hour.value < 20
    else true
  }

  /** `isInTimeSlot` (src/components/CourseSearch.tsx:31-42); `None` where
      the course time has no space and the source throws. */
  function IsInTimeSlot(courseTime: string, slot: string): (inSlot: Option<bool>)
    ensures inSlot.Some? <==> ' ' in courseTime
  {
    var fields := Split(courseTime, ' ');
    if |fields| < 2 then None else Some(InBucket(StartHourOf(fields[1]), slot))
  }

  /** The three named buckets never overlap, an unknown bucket accepts
      every hour, and a `NaN` hour lies in no named bucket. */
  lemma BucketsDisjoint(hour: Option<nat>, slot: string)
    ensures !(InBucket(hour, "morning") && InBucket(hour, "afternoon"))
    ensures !(InBucket(hour, "morning") && InBucket(hour, "evening"))
    ensures !(InBucket(hour, "afternoon") && InBucket(hour, "evening"))
    ensures slot !in ["morning", "afternoon", "evening"] ==> InBucket(hour, slot)
    ensures hour.None? ==> (InBucket(hour, slot) <==> slot !in ["morning", "afternoon", "evening"])
  {
  }

  /** On a catalogue-style schedule string the bucket is decided by the start hour
      alone: the day codes, the start minutes and the whole end time are
      not read. */
  lemma {:induction false} BucketOnlyStartHour(codes: string, startHour: string, startMinute: string, endHour: string, endMinute: string, slot: string)
    requires ' ' !in codes && |startHour| > 0
    requires AllDigits(startHour) && AllDigits(startMinute) && AllDigits(endHour) && AllDigits(endMinute)
    ensures IsInTimeSlot(Pattern(codes, startHour, startMinute, endHour, endMinute), slot)
         == Some(InBucket(Some(DigitsValue(startHour)), slot))
  {
    SplitPattern(codes, startHour, startMinute, endHour, endMinute);
    var startText := startHour + ":" + startMinute;
    DigitsHoldNoSeparator(startHour);
    SplitAfterField(startHour, startMinute, ':');
    assert Split(startText, ':')[0] == startHour;
    ParseIntOfDigits(startHour);
  }

  /** For minutes below 60 the buckets are the intervals of start minutes
      [480, 720), [720, 960) and [960, 1200) of the parsed slot. */
  lemma BucketByStartMinute(codes: string, startHour: string, startMinute: string, endHour: string, endMinute: string)
    requires ' ' !in codes && |startHour| > 0
    requires AllDigits(startHour) && AllDigits(startMinute) && AllDigits(endHour) && AllDigits(endMinute)
    requires DigitsValue(startMinute) < 60
    ensures var pattern := Pattern(codes, startHour, startMinute, endHour, endMinute);
            TimeSlotOf(pattern).Some? &&
            IsInTimeSlot(pattern, "morning") == Some(8 * 60 <= TimeSlotOf(pattern).value.startTime < 12 * 60) &&
            IsInTimeSlot(pattern, "afternoon") == Some(12 * 60 <= TimeSlotOf(pattern).value.startTime < 16 * 60) &&
            IsInTimeSlot(pattern, "evening") == Some(16 * 60 <= TimeSlotOf(pattern).value.startTime < 20 * 60)
  {
    ParsePattern(codes, startHour, startMinute, endHour, endMinute);
    BucketOnlyStartHour(codes, startHour, startMinute, endHour, endMinute, "morning");
    BucketOnlyStartHour(codes, startHour, startMinute, endHour, endMinute, "afternoon");
    BucketOnlyStartHour(codes, startHour, startMinute, endHour, endMinute, "evening");
  }

  // ---------------------------------------------------------------------
  // subjects

  /** The subject of a course: its crn up to the first digit. */
  function SubjectOf(course: Course): (subject: string)
    ensures subject <= course.crn
    ensures forall k :: 0 <= k < |subject| ==> !IsDigit(subject[k])
    ensures |subject| < |course.crn| ==> IsDigit(course.crn[|subject|])
  {
    BeforeFirstDigit(course.crn)
  }

  /** Each element sorts strictly before every later one. */
  predicate StrictlySorted(s: seq<string>)
  {
    forall i, j :: 0 <= i < j < |s| ==> LexLess(s[i], s[j])
  }

  /** `x` put into its place in a strictly sorted list, unless it is
      already there. */
  function Insert(sorted: seq<string>, x: string): (r: seq<string>)
    ensures forall y :: y in r <==> y in sorted || y == x
    decreases |sorted|
  {
    if |sorted| == 0 then [x]
    else if x == sorted[0] then sorted
    else if LexLess(x, sorted[0]) then [x] + sorted
    else [sorted[0]] + Insert(sorted[1..], x)
  }

  lemma {:induction false} InsertKeepsOrder(sorted: seq<string>, x: string)
    requires StrictlySorted(sorted)
    ensures StrictlySorted(Insert(sorted, x))
    decreases |sorted|
  {
    if |sorted| > 0 && x != sorted[0] {
      if LexLess(x, sorted[0]) {
        var r := [x] + sorted;
        forall j | 1 < j < |r|
          ensures LexLess(x, r[j])
        {
          LexLessTransitive(x, sorted[0], r[j]);
        }
      } else {
        LexLessTotal(x, sorted[0]);
        InsertKeepsOrder(sorted[1..], x);
        var rest := Insert(sorted[1..], x);
        forall y | y in rest
          ensures LexLess(sorted[0], y)
        {
          if y != x {
            var k :| 0 <= k < |sorted[1..]| && sorted[1..][k] == y;
            assert sorted[k + 1] == y;
          }
        }
        var r := [sorted[0]] + rest;
        forall i, j | 0 <= i < j < |r|
          ensures LexLess(r[i], r[j])
        {
          if i == 0 {
            assert r[j] in rest;
          } else {
            assert r[i] == rest[i - 1] && r[j] == rest[j - 1];
          }
        }
      }
    }
  }

  /** `Array.from(new Set(coursesData.map(course => course.crn.split(/\d/)[0]))).sort()`
      (src/components/CourseSearch.tsx:27-29): the subjects of the
      catalogue, each once, in sorted order. */
  function Subjects(catalogue: seq<Course>): (subjects: seq<string>)
    ensures StrictlySorted(subjects)
    ensures forall x :: x in subjects <==> exists c :: c in catalogue && SubjectOf(c) == x
    decreases |catalogue|
  {
    if |catalogue| == 0 then []
    else
      var last := catalogue[|catalogue| - 1];
      var earlier := catalogue[..|catalogue| - 1];
      var subjects := Subjects(earlier);
      InsertKeepsOrder(subjects, SubjectOf(last));
      assert forall c :: c in catalogue <==> c in earlier || c == last;
      Insert(subjects, SubjectOf(last))
  }

  /** A strictly sorted list holds no value twice. */
  lemma SortedIsDuplicateFree(s: seq<string>)
    requires StrictlySorted(s)
    ensures forall i, j :: 0 <= i < j < |s| ==> s[i] != s[j]
  {
    forall i, j | 0 <= i < j < |s|
      ensures s[i] != s[j]
    {
      LexLessIrreflexive(s[i]);
    }
  }

  /** Two strictly sorted lists with the same elements are the same list,
      so the subject list depends only on the set of subjects and not on
      the order of the catalogue. */
  lemma {:induction false} SortedSetUnique(a: seq<string>, b: seq<string>)
    requires StrictlySorted(a) && StrictlySorted(b)
    requires forall x :: x in a <==> x in b
    ensures a == b
    decreases |a|
  {
    SameElementsSameEmptiness(a, b);
    if |a| > 0 {
      assert a[0] in a && b[0] in b;
      if a[0] != b[0] {
        var j :| 0 <= j < |b| && b[j] == a[0];
        var k :| 0 <= k < |a| && a[k] == b[0];
        assert LexLess(b[0], a[0]);
        assert LexLess(a[0], b[0]);
        LexLessTransitive(a[0], b[0], a[0]);
        LexLessIrreflexive(a[0]);
      }
      forall x
        ensures x in a[1..] <==> x in b[1..]
      {
        if x in a[1..] {
          var k :| 0 <= k < |a[1..]| && a[1..][k] == x;
          assert LexLess(a[0], a[k + 1]);
          LexLessIrreflexive(a[0]);
          assert x in b && x != b[0];
          var j :| 0 <= j < |b| && b[j] == x;
          assert b[1..][j - 1] == x;
        }
        if x in b[1..] {
          var k :| 0 <= k < |b[1..]| && b[1..][k] == x;
          assert LexLess(b[0], b[k + 1]);
          LexLessIrreflexive(b[0]);
          assert x in a && x != a[0];
          var j :| 0 <= j < |a| && a[j] == x;
          assert a[1..][j - 1] == x;
        }
      }
      SortedSetUnique(a[1..], b[1..]);
      assert a == [a[0]] + a[1..] && b == [b[0]] + b[1..];
    }
  }

  lemma SameElementsSameEmptiness<T>(a: seq<T>, b: seq<T>)
    requires forall x :: x in a <==> x in b
    ensures |a| == 0 <==> |b| == 0
  {
    if |a| > 0 {
      assert a[0] in a;
    }
    if |b| > 0 {
      assert b[0] in b;
    }
  }

  /** Reordering the catalogue does not change the subject list. */
  lemma SubjectsIgnoreOrder(catalogue1: seq<Course>, catalogue2: seq<Course>)
    requires multiset(catalogue1) == multiset(catalogue2)
    ensures Subjects(catalogue1) == Subjects(catalogue2)
  {
    var s1, s2 := Subjects(catalogue1), Subjects(catalogue2);
    forall x
      ensures x in s1 <==> x in s2
    {
      if x in s1 {
        var c :| c in catalogue1 && SubjectOf(c) == x;
        assert c in multiset(catalogue2);
      }
      if x in s2 {
        var c :| c in catalogue2 && SubjectOf(c) == x;
        assert c in multiset(catalogue1);
      }
    }
    SortedSetUnique(s1, s2);
  }

  // ---------------------------------------------------------------------
  // filteredCourses

  /** The filter panel's state (src/components/CourseSearch.tsx:14-19). */
  datatype Filters = Filters(subject: string, timeSlot: string, credits: string, availability: string)

  /** Every filter at its initial value "all". */
  const NoFilters := Filters("all", "all", "all", "all")

  /** The lower-cased term is a substring of the lower-cased name,
      professor or crn (lines 45-48). */
  predicate MatchesSearch(course: Course, term: string)
    ensures MatchesSearch(course, term) ==> |term| <= |course.name| || |term| <= |course.professor| || |term| <= |course.crn|
  {
    var t := ToLower(term);
    Includes(ToLower(course.name), t) || Includes(ToLower(course.professor), t) || Includes(ToLower(course.crn), t)
  }

  /** The subject filter: "all", or the crn begins with the subject. */
  predicate MatchesSubject(course: Course, subject: string)
    ensures MatchesSubject(course, subject) <==>
              subject == "all" || (|subject| <= |course.crn| && course.crn[..|subject|] == subject)
  {
    subject == "all" || StartsWith(course.crn, subject)
  }

  /** The time filter; `None` where `isInTimeSlot` throws. With "all" the
      course time is not looked at. */
  function MatchesTimeSlot(course: Course, timeSlot: string): (matches: Option<bool>)
    ensures timeSlot == "all" ==> matches == Some(true)
    ensures matches.None? <==> timeSlot != "all" && ' ' !in course.time
  {
    if timeSlot == "all" then Some(true) else IsInTimeSlot(course.time, timeSlot)
  }

  /** The credits filter: a `NaN` from `parseInt` equals no credit count. */
  predicate MatchesCredits(course: Course, credits: string)
    ensures MatchesCredits(course, credits) ==> credits == "all" || (|credits| > 0 && IsDigit(credits[0]))
  {
    credits == "all" || (ParseIntOf(credits).Some? && course.credits == ParseIntOf(credits).value)
  }

  /** The availability filter: "all", open seats, or a waitlist; any other
      value matches nothing. */
  predicate MatchesAvailability(course: Course, availability: string)
    ensures MatchesAvailability(course, availability) ==> availability in ["all", "available", "waitlist"]
    ensures availability == "available" ==> (MatchesAvailability(course, availability) <==> course.seatsAvailable > 0)
    ensures availability == "waitlist" ==> (MatchesAvailability(course, availability) <==> course.waitlistCount > 0)
  {
    availability == "all"
    || (availability == "available" && course.seatsAvailable > 0)
    || (availability == "waitlist" && course.waitlistCount > 0)
  }

  /** The callback of `coursesData.filter` (lines 44-65): all five
      predicates hold. All five are evaluated before they are combined, so
      a throwing time check throws whatever the others say. */
  function Matches(course: Course, term: string, filters: Filters): (keep: Option<bool>)
    ensures keep.None? <==> MatchesTimeSlot(course, filters.timeSlot).None?
    ensures keep == Some(true) <==>
              MatchesSearch(course, term) && MatchesSubject(course, filters.subject) &&
              MatchesTimeSlot(course, filters.timeSlot) == Some(true) &&
              MatchesCredits(course, filters.credits) && MatchesAvailability(course, filters.availability)
  {
    var time := MatchesTimeSlot(course, filters.timeSlot);
    if time.None? then None
    else Some(MatchesSearch(course, term) && MatchesSubject(course, filters.subject) && time.value &&
              MatchesCredits(course, filters.credits) && MatchesAvailability(course, filters.availability))
  }

  /** `filteredCourses` (src/components/CourseSearch.tsx:44-65): the
      catalogue courses that match, in catalogue order; `None` when the
      time filter is in use and some course time cannot be split. */
  function FilteredCourses(catalogue: seq<Course>, term: string, filters: Filters): (kept: Option<seq<Course>>)
    ensures kept.Some? <==> forall c :: c in catalogue ==> MatchesTimeSlot(c, filters.timeSlot).Some?
    ensures kept.Some? ==> IsSubsequence(kept.value, catalogue)
    ensures kept.Some? ==> forall c :: c in kept.value <==> c in catalogue && Matches(c, term, filters) == Some(true)
    ensures kept.Some? ==> forall c :: multiset(kept.value)[c] == if Matches(c, term, filters) == Some(true) then multiset(catalogue)[c] else 0
    decreases |catalogue|
  {
    if |catalogue| == 0 then Some([])
    else
      var keep := Matches(catalogue[0], term, filters);
      var rest := FilteredCourses(catalogue[1..], term, filters);
      assert forall c :: c in catalogue <==> c == catalogue[0] || c in catalogue[1..];
      assert catalogue == [catalogue[0]] + catalogue[1..];
      if keep.None? || rest.None? then None
      else if keep.value then
        assert ([catalogue[0]] + rest.value)[1..] == rest.value;
        Some([catalogue[0]] + rest.value)
      else rest
  }

  /** The empty term is a substring of everything. */
  lemma EmptyTermMatches(course: Course)
    ensures MatchesSearch(course, "")
  {
    assert OccursAt(ToLower(course.name), ToLower(""), 0);
  }

  /** The search does not see the case of the term. */
  lemma SearchIgnoresCase(course: Course, term: string)
    ensures MatchesSearch(course, ToLower(term)) == MatchesSearch(course, term)
  {
    ToLowerIdempotent(term);
  }

  /** A term that occurs in the course name, in any case, finds the course. */
  lemma NameHitMatches(course: Course, term: string, i: nat)
    requires OccursAt(course.name, term, i)
    ensures MatchesSearch(course, term)
  {
    var name := ToLower(course.name);
    assert name[i..i + |term|] == ToLower(course.name[i..i + |term|]);
    assert OccursAt(name, ToLower(term), i);
  }

  /** With an empty term and every filter at "all" the whole catalogue is
      listed, in order. */
  lemma {:induction false} NoFiltersListAll(catalogue: seq<Course>)
    ensures FilteredCourses(catalogue, "", NoFilters) == Some(catalogue)
    decreases |catalogue|
  {
    if |catalogue| > 0 {
      EmptyTermMatches(catalogue[0]);
      assert MatchesTimeSlot(catalogue[0], NoFilters.timeSlot) == Some(true);
      assert Matches(catalogue[0], "", NoFilters) == Some(true);
      NoFiltersListAll(catalogue[1..]);
      assert [catalogue[0]] + catalogue[1..] == catalogue;
    }
  }

  /** A credits choice rendered from a number selects exactly the courses
      with that many credits. */
  lemma CreditsChoiceSelects(course: Course, n: nat)
    ensures MatchesCredits(course, NatToString(n)) <==> course.credits == n
  {
    var text := NatToString(n);
    assert text != "all" by { assert IsDigit(text[0]); }
    NatToStringValue(n);
    ParseIntOfDigits(text);
  }

  /** "available" lists only courses with free seats, "waitlist" only
      courses with a waitlist, and a subject filter only courses whose crn
      starts with it. */
  lemma FilterGuarantees(catalogue: seq<Course>, term: string, filters: Filters, c: Course)
    requires FilteredCourses(catalogue, term, filters).Some?
    requires c in FilteredCourses(catalogue, term, filters).value
    ensures filters.availability == "available" ==> c.seatsAvailable > 0
    ensures filters.availability == "waitlist" ==> c.waitlistCount > 0
    ensures filters.subject != "all" ==> filters.subject <= c.crn
    ensures MatchesSearch(c, term)
  {
  }
}
