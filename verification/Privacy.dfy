/** The publication privacy rule: a cohort whose counts moved by less than the minimum sample
    keeps its last published values. */
module Privacy {
  import opened Statistics

  function Abs(x: int): nat { if x < 0 then -x else x }

  /** The fifteen counts compared between two publications of one cohort. */
  function PublicationCounts(c: Counts): (r: seq<int>)
    ensures |r| == 15
  {
    [c.valid, c.pass, c.fail, c.numeric, c.valid - c.numeric,
     c.numericFail, c.score60, c.score70, c.score80, c.score90,
     c.excellent, c.good, c.medium, c.levelPass, c.levelFail]
  }

  const NUMERIC_SCORE_COUNT_INDEX := 3

  /** Some count moved, but by less than the minimum. */
  predicate SmallStep(previous: seq<int>, current: seq<int>, minimum: int)
    requires |previous| == |current|
  {
    previous != [] &&
    (0 < Abs(previous[0] - current[0]) < minimum || SmallStep(previous[1..], current[1..], minimum))
  }

  lemma SmallStepSomewhere(previous: seq<int>, current: seq<int>, minimum: int)
    requires |previous| == |current|
    ensures SmallStep(previous, current, minimum)
            <==> exists i :: 0 <= i < |previous| && 0 < Abs(previous[i] - current[i]) < minimum
  {
    if previous != [] {
      SmallStepSomewhere(previous[1..], current[1..], minimum);
      if SmallStep(previous[1..], current[1..], minimum) {
        var i :| 0 <= i < |previous[1..]| && 0 < Abs(previous[1..][i] - current[1..][i]) < minimum;
        assert 0 < Abs(previous[i + 1] - current[i + 1]) < minimum;
      } else {
        forall i | 1 <= i < |previous| ensures !(0 < Abs(previous[i] - current[i]) < minimum) {
          assert previous[i] == previous[1..][i - 1] && current[i] == current[1..][i - 1];
        }
      }
    }
  }

  predicate UnsafeDelta(previous: seq<int>, current: seq<int>, previousSum: int, currentSum: int, minimum: int)
    requires |previous| == |current| == 15
  {
    if SmallStep(previous, current, minimum) then
      true
    else
      var previousNumeric := previous[NUMERIC_SCORE_COUNT_INDEX];
      var currentNumeric := current[NUMERIC_SCORE_COUNT_INDEX];
      if previousNumeric < minimum || currentNumeric < minimum then
        false
      else
        var numericDelta := Abs(previousNumeric - currentNumeric);
        numericDelta < minimum && (numericDelta > 0 || previousSum != currentSum)
  }

  predicate Unsafe(previous: Counts, current: Counts, minimum: int) {
    UnsafeDelta(PublicationCounts(previous), PublicationCounts(current),
                previous.sumX100, current.sumX100, minimum)
  }

  // ------------------------------------------------- what the rule is for

  /** A count is repeated, or moves by at least the minimum sample. */
  predicate Steps(a: int, b: int, minimum: int) { a == b || Abs(a - b) >= minimum }

  predicate CountsStep(p: Counts, c: Counts, minimum: int) {
    && Steps(p.valid, c.valid, minimum) && Steps(p.pass, c.pass, minimum)
    && Steps(p.fail, c.fail, minimum) && Steps(p.numeric, c.numeric, minimum)
    && Steps(p.valid - p.numeric, c.valid - c.numeric, minimum)
    && Steps(p.numericFail, c.numericFail, minimum) && Steps(p.score60, c.score60, minimum)
    && Steps(p.score70, c.score70, minimum) && Steps(p.score80, c.score80, minimum)
    && Steps(p.score90, c.score90, minimum) && Steps(p.excellent, c.excellent, minimum)
    && Steps(p.good, c.good, minimum) && Steps(p.medium, c.medium, minimum)
    && Steps(p.levelPass, c.levelPass, minimum) && Steps(p.levelFail, c.levelFail, minimum)
  }

  /** No observer of both publications can tell apart fewer than `minimum` students: every
      count steps, and the score sum of two large numeric groups moves only with its count. */
  predicate Spaced(p: Counts, c: Counts, minimum: int) {
    && CountsStep(p, c, minimum)
    && (p.numeric >= minimum && c.numeric >= minimum && p.sumX100 != c.sumX100
        ==> Abs(p.numeric - c.numeric) >= minimum)
  }

  lemma CountsStepPointwise(p: Counts, c: Counts, minimum: int)
    ensures CountsStep(p, c, minimum)
            <==> forall i :: 0 <= i < 15 ==> Steps(PublicationCounts(p)[i], PublicationCounts(c)[i], minimum)
  {
    var a, b := PublicationCounts(p), PublicationCounts(c);
    if forall i :: 0 <= i < 15 ==> Steps(a[i], b[i], minimum) {
      assert Steps(a[0], b[0], minimum) && Steps(a[1], b[1], minimum) && Steps(a[2], b[2], minimum)
          && Steps(a[3], b[3], minimum) && Steps(a[4], b[4], minimum) && Steps(a[5], b[5], minimum)
          && Steps(a[6], b[6], minimum) && Steps(a[7], b[7], minimum) && Steps(a[8], b[8], minimum)
          && Steps(a[9], b[9], minimum) && Steps(a[10], b[10], minimum) && Steps(a[11], b[11], minimum)
          && Steps(a[12], b[12], minimum) && Steps(a[13], b[13], minimum) && Steps(a[14], b[14], minimum);
    }
  }

  /** The indexed test of the code flags exactly the pairs that are not spaced. */
  lemma UnsafeExactlyWhenNotSpaced(p: Counts, c: Counts, minimum: int)
    requires minimum >= 1
    ensures Unsafe(p, c, minimum) <==> !Spaced(p, c, minimum)
  {
    var a, b := PublicationCounts(p), PublicationCounts(c);
    SmallStepSomewhere(a, b, minimum);
    CountsStepPointwise(p, c, minimum);
    assert a[3] == p.numeric && b[3] == c.numeric;
    if CountsStep(p, c, minimum) {
      assert Steps(a[3], b[3], minimum);
    } else {
      var i :| 0 <= i < 15 && !Steps(a[i], b[i], minimum);
      assert 0 < Abs(a[i] - b[i]) < minimum;
    }
  }

  // ------------------------------------------------------------ instructors

  predicate InstructorSuppressed(row: InstructorRow, base: map<InstructorKey, InstructorRow>, minimum: int) {
    row.key in base && base[row.key].stats.valid >= minimum
    && Unsafe(base[row.key].stats, row.stats, minimum)
  }

  function SuppressInstructor(
    row: InstructorRow, base: map<InstructorKey, InstructorRow>, minimum: int): InstructorRow {
    if InstructorSuppressed(row, base, minimum)
    then row.(classCount := base[row.key].classCount, stats := base[row.key].stats)
    else row
  }

  function SuppressInstructors(
    rows: seq<InstructorRow>, base: map<InstructorKey, InstructorRow>, minimum: int): seq<InstructorRow> {
    seq(|rows|, i requires 0 <= i < |rows| => SuppressInstructor(rows[i], base, minimum))
  }

  /** The courses that must be rolled back because one of their instructors was. */
  function ForcedCourses(
    rows: seq<InstructorRow>, base: map<InstructorKey, InstructorRow>, minimum: int): set<CourseKey> {
    if rows == [] then {}
    else
      var row := rows[|rows| - 1];
      ForcedCourses(rows[..|rows| - 1], base, minimum)
      + (if InstructorSuppressed(row, base, minimum) then {row.key.Course()} else {})
  }

  /** The batches whose rows replaced instructor rows. */
  function InstructorSources(
    rows: seq<InstructorRow>, base: map<InstructorKey, InstructorRow>, minimum: int): set<nat> {
    if rows == [] then {}
    else
      var row := rows[|rows| - 1];
      InstructorSources(rows[..|rows| - 1], base, minimum)
      + (if InstructorSuppressed(row, base, minimum) then {base[row.key].batchId} else {})
  }

  method SuppressInstructorDeltas(
    current: array<InstructorRow>, previous: map<InstructorKey, InstructorRow>,
    minimum: int, batchIds: set<nat>)
    returns (suppressed: set<CourseKey>, suppressedBatchIds: set<nat>)
    modifies current
    ensures current[..] == SuppressInstructors(old(current[..]), previous, minimum)
    ensures suppressed == ForcedCourses(old(current[..]), previous, minimum)
    ensures suppressedBatchIds == batchIds + InstructorSources(old(current[..]), previous, minimum)
  {
    ghost var before := current[..];
    ghost var after := SuppressInstructors(before, previous, minimum);
    suppressed, suppressedBatchIds := {}, batchIds;
    for i := 0 to current.Length
      invariant forall j :: 0 <= j < i ==> current[j] == after[j]
      invariant forall j :: i <= j < current.Length ==> current[j] == before[j]
      invariant suppressed == ForcedCourses(before[..i], previous, minimum)
      invariant suppressedBatchIds == batchIds + InstructorSources(before[..i], previous, minimum)
    {
      assert before[..i + 1][..i] == before[..i];
      var row := current[i];
      if InstructorSuppressed(row, previous, minimum) {
        var baseline := previous[row.key];
        current[i] := row.(classCount := baseline.classCount, stats := baseline.stats);
        suppressedBatchIds := suppressedBatchIds + {baseline.batchId};
        suppressed := suppressed + {row.key.Course()};
      }
    }
    assert before[..current.Length] == before;
  }

  // ---------------------------------------------------------------- courses

  predicate CourseSuppressed(row: CourseRow, base: map<CourseKey, CourseRow>, forced: set<CourseKey>, minimum: int) {
    row.key in base && base[row.key].stats.valid >= minimum
    && (row.key in forced || Unsafe(base[row.key].stats, row.stats, minimum))
  }

  function SuppressCourse(
    row: CourseRow, base: map<CourseKey, CourseRow>, forced: set<CourseKey>, minimum: int): CourseRow {
    if CourseSuppressed(row, base, forced, minimum) then row.(stats := base[row.key].stats) else row
  }

  function SuppressCourses(
    rows: seq<CourseRow>, base: map<CourseKey, CourseRow>, forced: set<CourseKey>, minimum: int): seq<CourseRow> {
    seq(|rows|, i requires 0 <= i < |rows| => SuppressCourse(rows[i], base, forced, minimum))
  }

  /** The batches whose rows replaced course rows. */
  function CourseSources(
    rows: seq<CourseRow>, base: map<CourseKey, CourseRow>, forced: set<CourseKey>, minimum: int): set<nat> {
    if rows == [] then {}
    else
      var row := rows[|rows| - 1];
      CourseSources(rows[..|rows| - 1], base, forced, minimum)
      + (if CourseSuppressed(row, base, forced, minimum) then {base[row.key].batchId} else {})
  }

  method SuppressCourseDeltas(
    current: array<CourseRow>, previous: map<CourseKey, CourseRow>,
    instructorSuppressed: set<CourseKey>, minimum: int, batchIds: set<nat>)
    returns (suppressedBatchIds: set<nat>)
    modifies current
    ensures current[..] == SuppressCourses(old(current[..]), previous, instructorSuppressed, minimum)
    ensures suppressedBatchIds == batchIds + CourseSources(old(current[..]), previous, instructorSuppressed, minimum)
  {
    ghost var before := current[..];
    ghost var after := SuppressCourses(before, previous, instructorSuppressed, minimum);
    suppressedBatchIds := batchIds;
    for i := 0 to current.Length
      invariant forall j :: 0 <= j < i ==> current[j] == after[j]
      invariant forall j :: i <= j < current.Length ==> current[j] == before[j]
      invariant suppressedBatchIds == batchIds + CourseSources(before[..i], previous, instructorSuppressed, minimum)
    {
      assert before[..i + 1][..i] == before[..i];
      var row := current[i];
      if CourseSuppressed(row, previous, instructorSuppressed, minimum) {
        var baseline := previous[row.key];
        current[i] := row.(stats := baseline.stats);
        suppressedBatchIds := suppressedBatchIds + {baseline.batchId};
      }
    }
    assert before[..current.Length] == before;
  }

  lemma {:induction false} InstructorSourcesFromBase(
    rows: seq<InstructorRow>, base: map<InstructorKey, InstructorRow>, minimum: int)
    ensures forall id :: id in InstructorSources(rows, base, minimum) ==> exists k :: k in base && base[k].batchId == id
  {
    if rows != [] { InstructorSourcesFromBase(rows[..|rows| - 1], base, minimum); }
  }

  lemma {:induction false} CourseSourcesFromBase(
    rows: seq<CourseRow>, base: map<CourseKey, CourseRow>, forced: set<CourseKey>, minimum: int)
    ensures forall id :: id in CourseSources(rows, base, forced, minimum) ==>
              exists k :: k in base && base[k].batchId == id
  {
    if rows != [] { CourseSourcesFromBase(rows[..|rows| - 1], base, forced, minimum); }
  }

  /** After suppression every cohort with a large enough baseline is spaced from it. */
  lemma SuppressionSpaces(
    course: CourseRow, courseBase: map<CourseKey, CourseRow>, forced: set<CourseKey>,
    instructor: InstructorRow, instructorBase: map<InstructorKey, InstructorRow>, minimum: int)
    requires minimum >= 1
    ensures course.key in courseBase && courseBase[course.key].stats.valid >= minimum
            ==> Spaced(courseBase[course.key].stats, SuppressCourse(course, courseBase, forced, minimum).stats, minimum)
    ensures instructor.key in instructorBase && instructorBase[instructor.key].stats.valid >= minimum
            ==> Spaced(instructorBase[instructor.key].stats,
                       SuppressInstructor(instructor, instructorBase, minimum).stats, minimum)
  {
    if course.key in courseBase {
      UnsafeExactlyWhenNotSpaced(courseBase[course.key].stats, course.stats, minimum);
    }
    if instructor.key in instructorBase {
      UnsafeExactlyWhenNotSpaced(instructorBase[instructor.key].stats, instructor.stats, minimum);
    }
  }
}
