/** Entities of the statistics service: aggregate counts, per-term rows, publication
    batches and the snapshot a source aggregation delivers.  Times are integer milliseconds. */
module Statistics {
  import opened Wrappers

  type Time = int

  const RULE_VERSION: string := "v6"
  const UNDERGRADUATE: string := "undergraduate"
  const GRADUATE: string := "graduate"

  // ---------------------------------------------------------------- counts

  /** The counts every statistics row carries. */
  datatype Counts = Counts(
    valid: int, pass: int, fail: int,
    numeric: int, sumX100: int,
    numericFail: int, score60: int, score70: int, score80: int, score90: int,
    excellent: int, good: int, medium: int, levelPass: int, levelFail: int)
  {
    function Plus(that: Counts): Counts {
      Counts(valid + that.valid, pass + that.pass, fail + that.fail,
             numeric + that.numeric, sumX100 + that.sumX100,
             numericFail + that.numericFail, score60 + that.score60, score70 + that.score70,
             score80 + that.score80, score90 + that.score90,
             excellent + that.excellent, good + that.good, medium + that.medium,
             levelPass + that.levelPass, levelFail + that.levelFail)
    }
  }

  const ZERO: Counts := Counts(0, 0, 0, 0, 0, 0, 0, 0, 0, 0, 0, 0, 0, 0, 0)

  predicate ValidNumericScoreAggregate(c: Counts) {
    0 <= c.numeric <= c.valid && 0 <= c.sumX100 <= c.numeric * 10000
  }

  /** What a snapshot row must satisfy before it can become public. */
  predicate ValidCounts(c: Counts) {
    0 < c.valid && c.pass + c.fail == c.valid && ValidNumericScoreAggregate(c)
  }

  /** The ten buckets partition the valid grades, and agree with pass, fail and numeric. */
  predicate BucketsPartition(c: Counts) {
    && c.numericFail + c.score60 + c.score70 + c.score80 + c.score90 == c.numeric
    && c.excellent + c.good + c.medium + c.levelPass + c.levelFail == c.valid - c.numeric
    && c.numericFail + c.levelFail == c.fail
    && c.score60 + c.score70 + c.score80 + c.score90
       + c.excellent + c.good + c.medium + c.levelPass == c.pass
  }

  lemma ValidCountsAdd(a: Counts, b: Counts)
    requires (a == ZERO || ValidCounts(a)) && ValidCounts(b)
    ensures ValidCounts(a.Plus(b))
  {
    var c := a.Plus(b);
    assert c.valid == a.valid + b.valid && c.pass == a.pass + b.pass && c.fail == a.fail + b.fail;
    assert c.numeric == a.numeric + b.numeric && c.sumX100 == a.sumX100 + b.sumX100;
  }

  predicate BucketsNatural(c: Counts) {
    && 0 <= c.numericFail && 0 <= c.score60 && 0 <= c.score70 && 0 <= c.score80 && 0 <= c.score90
    && 0 <= c.excellent && 0 <= c.good && 0 <= c.medium && 0 <= c.levelPass && 0 <= c.levelFail
  }

  /** The score sum is one that grades in these numeric buckets can have. */
  predicate ScoresFit(c: Counts) {
    && 6000 * c.score60 + 7000 * c.score70 + 8000 * c.score80 + 9000 * c.score90 <= c.sumX100
    && c.sumX100 <= 6000 * c.numericFail + 7000 * c.score60 + 8000 * c.score70 + 9000 * c.score80 + 10000 * c.score90
  }

  /** What every aggregate of grades satisfies. */
  predicate Consistent(c: Counts) { BucketsPartition(c) && BucketsNatural(c) && ScoresFit(c) }

  lemma ConsistentAdd(a: Counts, b: Counts)
    requires Consistent(a) && Consistent(b)
    ensures Consistent(a.Plus(b))
  {}

  // ------------------------------------------------------------------ rows

  datatype CourseKey = CourseKey(level: string, period: string, code: string)
  datatype InstructorKey = InstructorKey(level: string, period: string, code: string, teacherKey: string)
  {
    function Course(): CourseKey { CourseKey(level, period, code) }
  }
  datatype ProjectionKey = ProjectionKey(level: string, code: string)

  datatype CourseRow = CourseRow(
    batchId: nat, key: CourseKey, termLabel: string, termCode: string,
    courseName: string, stats: Counts)

  datatype InstructorRow = InstructorRow(
    batchId: nat, key: InstructorKey, termLabel: string, termCode: string,
    courseName: string, teacherName: string, classCount: int, stats: Counts)

  /** What a reader sees of one course over all its terms. */
  datatype CoursePassRate = CoursePassRate(
    key: ProjectionKey, courseName: string, termCount: int, stats: Counts)

  /** A pass rate as stored at publication time. */
  datatype ProjectionRow = ProjectionRow(batchId: nat, rate: CoursePassRate)

  // --------------------------------------------------------------- batches

  datatype BatchStatus = Running | Failed | Published

  datatype Trigger = Trigger(
    kind: string, actorId: Option<nat>, note: Option<string>, taskId: Option<string>)

  function ScheduledTrigger(): Trigger { Trigger("scheduled", None, None, None) }

  datatype Batch = Batch(
    id: nat, status: BatchStatus, trigger: Trigger, sourceCutoffAt: Time, ruleVersion: string,
    sourceRowCount: int, courseStatCount: int, coursePassRateCount: int, minimumSampleSize: int,
    instructorStatCount: int, errorSummary: Option<string>, startedAt: Time,
    finishedAt: Option<Time>, publishedAt: Option<Time>, createdAt: Time)

  // -------------------------------------------------------------- snapshot

  datatype CourseAggregate = CourseAggregate(
    key: CourseKey, termLabel: string, termCode: string, courseName: string, stats: Counts)

  datatype InstructorAggregate = InstructorAggregate(
    key: InstructorKey, termLabel: string, termCode: string, courseName: string,
    teacherName: string, classCount: int, stats: Counts)

  /** The zero time of Go's clock, 1 January of the year 1. */
  const ZERO_TIME: Time := -62135596800000

  datatype Snapshot = Snapshot(
    sourceCutoffAt: Time, sourceRowCount: int,
    courses: seq<CourseAggregate>, instructors: seq<InstructorAggregate>)

  predicate IsSpace(c: char) {
    c == ' ' || c == '\t' || c == '\n' || c == '\r' || c == '\U{0B}' || c == '\U{0C}'
    || c == '\U{85}' || c == '\U{A0}' || c == '\U{1680}' || '\U{2000}' <= c <= '\U{200A}'
    || c == '\U{2028}' || c == '\U{2029}' || c == '\U{202F}' || c == '\U{205F}' || c == '\U{3000}'
  }

  /** Trimming the text leaves nothing. */
  predicate Blank(s: string) { forall i :: 0 <= i < |s| ==> IsSpace(s[i]) }

  predicate ValidTermIdentity(level: string, period: string, termLabel: string, code: string) {
    (level == UNDERGRADUATE || level == GRADUATE)
    && !Blank(period) && !Blank(termLabel) && !Blank(code)
  }

  predicate ValidCourse(c: CourseAggregate) {
    ValidTermIdentity(c.key.level, c.key.period, c.termLabel, c.termCode)
    && !Blank(c.key.code) && ValidCounts(c.stats)
  }

  predicate ValidInstructor(c: InstructorAggregate) {
    ValidTermIdentity(c.key.level, c.key.period, c.termLabel, c.termCode)
    && !Blank(c.key.code) && !Blank(c.key.teacherKey) && ValidCounts(c.stats)
  }

  predicate DistinctCourses(cs: seq<CourseAggregate>) {
    forall i, j :: 0 <= i < j < |cs| ==> cs[i].key != cs[j].key
  }

  predicate DistinctInstructors(cs: seq<InstructorAggregate>) {
    forall i, j :: 0 <= i < j < |cs| ==> cs[i].key != cs[j].key
  }

  /** What `Validate` promises of an accepted snapshot. */
  predicate ValidSnapshot(s: Snapshot) {
    && s.sourceCutoffAt != ZERO_TIME && s.courses != []
    && (forall c :: c in s.courses ==> ValidCourse(c))
    && (forall c :: c in s.instructors ==> ValidInstructor(c))
    && DistinctCourses(s.courses) && DistinctInstructors(s.instructors)
  }

  /** The blanks, by code point. */
  lemma SpaceExactly(c: char)
    ensures IsSpace(c) <==> var n := c as int;
              9 <= n <= 13 || n in {32, 133, 160, 5760, 8232, 8233, 8239, 8287, 12288} || 8192 <= n <= 8202
  {}

  /** Some character of the text is no blank. */
  predicate Readable(s: string) { exists i :: 0 <= i < |s| && !IsSpace(s[i]) }

  predicate AcceptableTerm(level: string, period: string, term: string, code: string) {
    (level == "undergraduate" || level == "graduate") && Readable(period) && Readable(term) && Readable(code)
  }

  predicate AcceptableCounts(c: Counts) {
    && c.valid > 0 && c.pass + c.fail == c.valid
    && 0 <= c.numeric <= c.valid && 0 <= c.sumX100 <= 10000 * c.numeric
  }

  /** What a snapshot must be to become public, spelled out. */
  predicate Acceptable(s: Snapshot) {
    && s.sourceCutoffAt != -62135596800000 && |s.courses| > 0
    && (forall c :: c in s.courses ==>
          AcceptableTerm(c.key.level, c.key.period, c.termLabel, c.termCode) && Readable(c.key.code)
          && AcceptableCounts(c.stats))
    && (forall c :: c in s.instructors ==>
          AcceptableTerm(c.key.level, c.key.period, c.termLabel, c.termCode) && Readable(c.key.code)
          && Readable(c.key.teacherKey) && AcceptableCounts(c.stats))
    && (forall i, j :: 0 <= i < j < |s.courses| ==> s.courses[i].key != s.courses[j].key)
    && (forall i, j :: 0 <= i < j < |s.instructors| ==> s.instructors[i].key != s.instructors[j].key)
  }

  lemma AcceptableExactly(s: Snapshot)
    ensures ValidSnapshot(s) <==> Acceptable(s)
  {
    forall c | c in s.courses
      ensures ValidCourse(c)
              <==> AcceptableTerm(c.key.level, c.key.period, c.termLabel, c.termCode) && Readable(c.key.code)
                   && AcceptableCounts(c.stats)
    {
      ReadableExactly(c.key.period);
      ReadableExactly(c.termLabel);
      ReadableExactly(c.termCode);
      ReadableExactly(c.key.code);
    }
    forall c | c in s.instructors
      ensures ValidInstructor(c)
              <==> AcceptableTerm(c.key.level, c.key.period, c.termLabel, c.termCode) && Readable(c.key.code)
                   && Readable(c.key.teacherKey) && AcceptableCounts(c.stats)
    {
      ReadableExactly(c.key.period);
      ReadableExactly(c.termLabel);
      ReadableExactly(c.termCode);
      ReadableExactly(c.key.code);
      ReadableExactly(c.key.teacherKey);
    }
  }

  lemma ReadableExactly(s: string)
    ensures Readable(s) <==> !Blank(s)
  {}

  /** The validation pass: one scan per dimension, each filling a set of partitions seen. */
  method Validate(snapshot: Snapshot) returns (ok: bool)
    ensures ok <==> ValidSnapshot(snapshot)
    ensures ok <==> Acceptable(snapshot)
  {
    AcceptableExactly(snapshot);
    if snapshot.sourceCutoffAt == ZERO_TIME || |snapshot.courses| == 0 {
      return false;
    }
    ok := ValidateCourses(snapshot.courses);
    if ok { ok := ValidateInstructors(snapshot.instructors); }
  }

  method ValidateCourses(rows: seq<CourseAggregate>) returns (ok: bool)
    ensures ok <==> (forall c :: c in rows ==> ValidCourse(c)) && DistinctCourses(rows)
  {
    var courses: set<CourseKey> := {};
    for i := 0 to |rows|
      invariant courses == set j | 0 <= j < i :: rows[j].key
      invariant forall j :: 0 <= j < i ==> ValidCourse(rows[j])
      invariant DistinctCourses(rows[..i])
    {
      var course := rows[i];
      if !ValidCourse(course) {
        assert course in rows;
        return false;
      }
      if course.key in courses {
        return false;
      }
      courses := courses + {course.key};
    }
    assert rows[..|rows|] == rows;
    ok := true;
  }

  method ValidateInstructors(rows: seq<InstructorAggregate>) returns (ok: bool)
    ensures ok <==> (forall c :: c in rows ==> ValidInstructor(c)) && DistinctInstructors(rows)
  {
    var instructors: set<InstructorKey> := {};
    for i := 0 to |rows|
      invariant instructors == set j | 0 <= j < i :: rows[j].key
      invariant forall j :: 0 <= j < i ==> ValidInstructor(rows[j])
      invariant DistinctInstructors(rows[..i])
    {
      var instructor := rows[i];
      if !ValidInstructor(instructor) {
        assert instructor in rows;
        return false;
      }
      if instructor.key in instructors {
        return false;
      }
      instructors := instructors + {instructor.key};
    }
    assert rows[..|rows|] == rows;
    ok := true;
  }
}
