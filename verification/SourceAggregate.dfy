/** The source aggregation: classification of single grades, the two group-by dimensions, and the
    loop that turns query rows into a snapshot. */
module SourceAggregate {
  import opened Wrappers
  import opened Statistics
  import opened SourceTerms
  import opened ProjectionShown

  // --------------------------------------------------------- classification

  /** One grade as the first step of the query delivers it. */
  datatype Grade = Grade(
    termId: string, termCode: string, courseCode: string, courseName: string,
    teacherName: string, selectionId: string, scoreText: string, score: Option<real>)

  predicate IsNumeral(s: string) {
    s != [] && IsDigit(s[0]) &&
    (AllDigits(s) || exists dot :: 0 < dot < |s| - 1 && s[dot] == '.' && AllDigits(s[..dot]) && AllDigits(s[dot + 1..]))
  }

  /** The number the digits after a decimal point denote. */
  function Fraction(s: string): real
    requires AllDigits(s)
  {
    if s == [] then 0.0 else (DigitValue(s[0]) as real + Fraction(s[1..])) / 10.0
  }

  function DotIndex(s: string): nat
    ensures DotIndex(s) <= |s| && forall i :: 0 <= i < DotIndex(s) ==> s[i] != '.'
    ensures DotIndex(s) < |s| ==> s[DotIndex(s)] == '.'
  {
    if s == [] || s[0] == '.' then 0 else 1 + DotIndex(s[1..])
  }

  /** The number a numeral denotes. */
  function NumeralValue(s: string): real
    requires IsNumeral(s)
  {
    var d := DotIndex(s);
    if AllDigits(s) then ParseNat(s) as real
    else
      NumeralSplits(s);
      ParseNat(s[..d]) as real + Fraction(s[d + 1..])
  }

  lemma NumeralSplits(s: string)
    requires IsNumeral(s) && !AllDigits(s)
    ensures var d := DotIndex(s); d < |s| && AllDigits(s[..d]) && AllDigits(s[d + 1..])
  {
    var dot :| 0 < dot < |s| - 1 && s[dot] == '.' && AllDigits(s[..dot]) && AllDigits(s[dot + 1..]);
    assert forall i :: 0 <= i < dot ==> s[..dot][i] == s[i];
    assert DotIndex(s) <= dot;
    assert DotIndex(s) == dot;
  }

  /** Rounding half away from zero, on non-negative numbers. */
  function Round(x: real): int { (x + 0.5).Floor }

  /** CAST(... AS DECIMAL(5, 2)) saturates at 999.99. */
  function CastDecimal(x: real): real { if x > 999.99 then 999.99 else Round(x * 100.0) as real / 100.0 }

  /** The numeric score of a grade: the text when it is a number from 0 to 100, the stored score
      only when there is no text. */
  function NumericScore(g: Grade): Option<real> {
    if IsNumeral(g.scoreText) && 0.0 <= CastDecimal(NumeralValue(g.scoreText)) <= 100.0 then
      Some(CastDecimal(NumeralValue(g.scoreText)))
    else if g.scoreText == "" && g.score.Some? && 0.0 <= g.score.value <= 100.0 then g.score
    else None
  }

  const EXCELLENT := ["优秀", "优"]
  const GOOD := ["良好", "良"]
  const MEDIUM := ["中等", "中"]
  const LEVEL_PASS := ["及格", "合格", "通过", "免修", "已批准免修"]
  const LEVEL_FAIL := ["不及格", "不合格", "未通过"]
  const PASSING := ["优秀", "优", "良好", "良", "中等", "中", "及格", "合格", "通过", "免修", "已批准免修"]

  /** The pass/fail class; None drops the grade from every statistic. */
  function Passed(g: Grade): Option<bool> {
    var numeric := NumericScore(g);
    if numeric.Some? then Some(numeric.value >= 60.0)
    else if g.scoreText in PASSING then Some(true)
    else if g.scoreText in LEVEL_FAIL then Some(false)
    else None
  }

  function One(b: bool): nat { if b then 1 else 0 }

  /** A valid aggregate of one grade in exactly one of the ten buckets, on the side of its class. */
  predicate OneBucket(c: Counts, passed: bool) {
    && Consistent(c) && ValidCounts(c)
    && c.numericFail + c.score60 + c.score70 + c.score80 + c.score90
       + c.excellent + c.good + c.medium + c.levelPass + c.levelFail == 1
    && (!passed <==> c.numericFail + c.levelFail == 1)
  }

  function NumericCounts(x: real): (c: Counts)
    ensures 0.0 <= x <= 100.0 ==> OneBucket(c, x >= 60.0)
  {
    assert 0.0 <= x <= 100.0 ==> 0 <= Round(x * 100.0) <= 10000;
    assert x < 60.0 ==> Round(x * 100.0) <= 6000;
    assert x < 70.0 ==> Round(x * 100.0) <= 7000;
    assert x < 80.0 ==> Round(x * 100.0) <= 8000;
    assert x < 90.0 ==> Round(x * 100.0) <= 9000;
    Counts(1, One(x >= 60.0), One(x < 60.0), 1, Round(x * 100.0),
           One(x < 60.0), One(60.0 <= x < 70.0), One(70.0 <= x < 80.0), One(80.0 <= x < 90.0), One(90.0 <= x <= 100.0),
           0, 0, 0, 0, 0)
  }

  function FlagCounts(
    passed: nat, failed: nat, excellent: nat, good: nat, medium: nat, pass: nat, fail: nat): (c: Counts)
    ensures (passed == 1 && failed == 0 && fail == 0 && excellent + good + medium + pass == 1) ==> OneBucket(c, true)
    ensures (passed == 0 && failed == 1 && fail == 1 && excellent + good + medium + pass == 0) ==> OneBucket(c, false)
  {
    Counts(1, passed, failed, 0, 0, 0, 0, 0, 0, 0, excellent, good, medium, pass, fail)
  }

  function LevelCounts(t: string): (c: Counts)
    ensures t in PASSING ==> OneBucket(c, true)
    ensures t in LEVEL_FAIL ==> OneBucket(c, false)
  {
    LevelsAreDisjoint(t);
    FlagCounts(One(t in PASSING), One(t !in PASSING && t in LEVEL_FAIL),
               One(t in EXCELLENT), One(t in GOOD), One(t in MEDIUM), One(t in LEVEL_PASS), One(t in LEVEL_FAIL))
  }

  /** What one grade adds to each SUM column of its groups: every classified grade lands in exactly one
      bucket, on the side of its class. */
  function Contribution(g: Grade): (c: Counts)
    ensures Passed(g).Some? ==> OneBucket(c, Passed(g).value)
  {
    var numeric := NumericScore(g);
    if numeric.Some? then NumericCounts(numeric.value) else LevelCounts(g.scoreText)
  }

  lemma LevelsAreDisjoint(t: string)
    ensures t in PASSING ==> One(t in EXCELLENT) + One(t in GOOD) + One(t in MEDIUM) + One(t in LEVEL_PASS) == 1
    ensures t in PASSING ==> t !in LEVEL_FAIL
    ensures t in LEVEL_FAIL ==> One(t in EXCELLENT) + One(t in GOOD) + One(t in MEDIUM) + One(t in LEVEL_PASS) == 0
  {
    assert "优秀"[0] != "优"[0] || |"优秀"| != |"优"|;
  }

  // ---------------------------------------------------------------- group by

  datatype Dimension = CourseDimension | InstructorDimension | OtherDimension(name: string)

  /** GROUP BY columns; the course dimension groups with an empty teacher. */
  datatype Group = Group(dimension: Dimension, termId: string, termCode: string, courseCode: string,
      teacherName: string)

  /** One row of the aggregate query. */
  datatype AggregateRow = AggregateRow(group: Group, courseName: string, classCount: int, stats: Counts)

  predicate HasSeparator(name: string) {
    exists i :: 0 <= i < |name| && name[i] in [',', '，', '、', ';', '；', '/']
  }

  function CourseGroup(g: Grade): Group { Group(CourseDimension, g.termId, g.termCode, g.courseCode, "") }

  function InstructorGroup(g: Grade): Group {
    Group(InstructorDimension, g.termId, g.termCode, g.courseCode, g.teacherName)
  }

  /** WHERE teacher_name and selection_id are present and name a single teacher. */
  predicate HasInstructor(g: Grade) { g.teacherName != "" && g.selectionId != "" && !HasSeparator(g.teacherName) }

  predicate InGroup(g: Grade, k: Group) {
    Passed(g).Some? &&
    (k == CourseGroup(g) || (HasInstructor(g) && k == InstructorGroup(g)))
  }

  /** The SUM columns of one group. */
  function GroupSums(grades: seq<Grade>, k: Group): Counts {
    if grades == [] then ZERO
    else
      var rest := GroupSums(grades[..|grades| - 1], k);
      if InGroup(grades[|grades| - 1], k) then rest.Plus(Contribution(grades[|grades| - 1])) else rest
  }

  ghost predicate Occurs(grades: seq<Grade>, k: Group) { exists g :: g in grades && InGroup(g, k) }

  /** MAX(course_name) of a group. */
  ghost predicate IsGreatestName(grades: seq<Grade>, k: Group, name: string) {
    && (exists g :: g in grades && InGroup(g, k) && g.courseName == name)
    && (forall g :: g in grades && InGroup(g, k) ==> !Greater(g.courseName, name))
  }

  /** COUNT(DISTINCT selection_id) for an instructor, 0 for a course. */
  function Classes(grades: seq<Grade>, k: Group): nat {
    if k.dimension == InstructorDimension then |set g | g in grades && InGroup(g, k) :: g.selectionId| else 0
  }

  /** The query's answer, in any order: one row for each group that occurs, with that group's sums. */
  ghost predicate IsQueryResult(grades: seq<Grade>, result: seq<AggregateRow>) {
    && (forall i, j :: 0 <= i < j < |result| ==> result[i].group != result[j].group)
    && (forall i :: 0 <= i < |result| ==>
        Occurs(grades, result[i].group) && result[i].stats == GroupSums(grades, result[i].group)
        && IsGreatestName(grades, result[i].group, result[i].courseName)
        && result[i].classCount == Classes(grades, result[i].group))
    && (forall k :: Occurs(grades, k) ==> exists i :: 0 <= i < |result| && result[i].group == k)
  }

  lemma OccursGrows(front: seq<Grade>, last: Grade, k: Group)
    ensures Occurs(front + [last], k) <==> Occurs(front, k) || InGroup(last, k)
  {
    assert last in front + [last];
    assert forall g :: g in front ==> g in front + [last];
    assert forall g :: g in front + [last] ==> g in front || g == last;
  }

  lemma {:induction false} AbsentGroupSums(grades: seq<Grade>, k: Group)
    requires !Occurs(grades, k)
    ensures GroupSums(grades, k) == ZERO
  {
    if grades != [] {
      assert grades == grades[..|grades| - 1] + [grades[|grades| - 1]];
      OccursGrows(grades[..|grades| - 1], grades[|grades| - 1], k);
      AbsentGroupSums(grades[..|grades| - 1], k);
    }
  }

  /** The sums of a group that occurs are a valid aggregate. */
  lemma {:induction false} GroupSumsValid(grades: seq<Grade>, k: Group)
    requires Occurs(grades, k)
    ensures ValidCounts(GroupSums(grades, k))
  {
    var front, last := grades[..|grades| - 1], grades[|grades| - 1];
    assert grades == front + [last];
    OccursGrows(front, last, k);
    if Occurs(front, k) { GroupSumsValid(front, k); } else { AbsentGroupSums(front, k); }
    if InGroup(last, k) {
      ValidCountsAdd(GroupSums(front, k), Contribution(last));
    }
  }

  /** The ten buckets of a group partition its grades. */
  lemma {:induction false} GroupSumsPartitioned(grades: seq<Grade>, k: Group)
    ensures Consistent(GroupSums(grades, k))
  {
    if grades != [] {
      var front, last := grades[..|grades| - 1], grades[|grades| - 1];
      GroupSumsPartitioned(front, k);
      if InGroup(last, k) {
        ConsistentAdd(GroupSums(front, k), Contribution(last));
      }
    }
  }

  // ------------------------------------------------------------ the row loop

  /** Stands for the digest of a teacher's name: injective and never blank. */
  function TeacherKey(name: string): string { "#" + name }

  /** `normalizeTeacherName`: whitespace removed; a name listing several teachers is dropped. */
  function NormalizeTeacherName(value: string): string {
    var name := WithoutSpaces(value);
    if HasSeparator(name) then "" else name
  }

  function WithoutSpaces(s: string): string {
    if s == [] then [] else (if IsSpace(s[0]) then [] else [s[0]]) + WithoutSpaces(s[1..])
  }

  function CourseOf(r: AggregateRow, t: TermIdentity): CourseAggregate {
    CourseAggregate(CourseKey(t.level, t.periodId, TrimSpace(r.group.courseCode)), t.termLabel,
                    TrimSpace(r.group.termCode), TrimSpace(r.courseName), r.stats)
  }

  function InstructorOf(r: AggregateRow, t: TermIdentity, name: string): InstructorAggregate {
    InstructorAggregate(InstructorKey(t.level, t.periodId, TrimSpace(r.group.courseCode), TeacherKey(name)),
        t.termLabel,
                        TrimSpace(r.group.termCode), TrimSpace(r.courseName), name, r.classCount, r.stats)
  }

  function TermOf(r: AggregateRow): Option<TermIdentity> { NormalizeSourceTerm(r.group.termId, r.group.termCode) }

  /** The courses the rows contribute, in order. */
  function CoursesOf(rows: seq<AggregateRow>): seq<CourseAggregate> {
    if rows == [] then []
    else
      CoursesOf(rows[..|rows| - 1]) + CoursePart(rows[|rows| - 1])
  }

  function CoursePart(r: AggregateRow): seq<CourseAggregate> {
    if TermOf(r).Some? && r.group.dimension == CourseDimension then [CourseOf(r, TermOf(r).value)] else []
  }

  function InstructorsOf(rows: seq<AggregateRow>): seq<InstructorAggregate> {
    if rows == [] then []
    else
      InstructorsOf(rows[..|rows| - 1]) + InstructorPart(rows[|rows| - 1])
  }

  function InstructorPart(r: AggregateRow): seq<InstructorAggregate> {
    var name := NormalizeTeacherName(r.group.teacherName);
    if TermOf(r).Some? && r.group.dimension == InstructorDimension && name != ""
        then [InstructorOf(r, TermOf(r).value, name)] else []
  }

  function TotalValid(cs: seq<CourseAggregate>): int {
    if cs == [] then 0 else TotalValid(cs[..|cs| - 1]) + cs[|cs| - 1].stats.valid
  }

  predicate UnknownDimension(r: AggregateRow) { TermOf(r).Some? && r.group.dimension.OtherDimension? }

  predicate AllKnown(rows: seq<AggregateRow>) {
    rows == [] || (AllKnown(rows[..|rows| - 1]) && !UnknownDimension(rows[|rows| - 1]))
  }

  lemma {:induction false} KnownPrefix(rows: seq<AggregateRow>, i: nat)
    requires i <= |rows| && AllKnown(rows)
    ensures AllKnown(rows[..i])
  {
    if i < |rows| {
      KnownPrefix(rows[..|rows| - 1], i);
      assert rows[..|rows| - 1][..i] == rows[..i];
    } else {
      assert rows[..i] == rows;
    }
  }

  lemma {:induction false} KnownEverywhere(rows: seq<AggregateRow>)
    ensures AllKnown(rows) <==> forall r :: r in rows ==> !UnknownDimension(r)
  {
    if rows != [] {
      KnownEverywhere(rows[..|rows| - 1]);
      assert rows == rows[..|rows| - 1] + [rows[|rows| - 1]];
    }
  }

  lemma KnownLonger(rows: seq<AggregateRow>, i: nat)
    requires i <= |rows| && !AllKnown(rows[..i])
    ensures !AllKnown(rows)
  {
    if AllKnown(rows) { KnownPrefix(rows, i); }
  }

  lemma PrefixStep<T>(rows: seq<T>, i: nat)
    requires i < |rows|
    ensures rows[..i + 1] == rows[..i] + [rows[i]] && rows[..i + 1][..i] == rows[..i]
  {}

  lemma KnownGrows(front: seq<AggregateRow>, r: AggregateRow)
    ensures AllKnown(front + [r]) <==> AllKnown(front) && !UnknownDimension(r)
  {
    var all := front + [r];
    assert all[..|all| - 1] == front && all[|all| - 1] == r;
  }

  function SnapshotOf(rows: seq<AggregateRow>, cutoff: Time): Snapshot {
    Snapshot(cutoff, TotalValid(CoursesOf(rows)), CoursesOf(rows), InstructorsOf(rows))
  }

  /** Turns query rows into a snapshot; an unknown dimension is an error. */
  method Aggregate(rows: seq<AggregateRow>, cutoff: Time) returns (snapshot: Option<Snapshot>)
    ensures snapshot == if AllKnown(rows) then Some(SnapshotOf(rows, cutoff)) else None
  {
    var current := Snapshot(cutoff, 0, [], []);
    var i := 0;
    ghost var front: seq<AggregateRow> := [];
    while i < |rows|
      invariant 0 <= i <= |rows| && front == rows[..i]
      invariant current == SnapshotOf(front, cutoff) && AllKnown(front)
    {
      var next := AddRow(front, rows[i], current);
      PrefixStep(rows, i);
      KnownGrows(front, rows[i]);
      if next.None? {
        KnownLonger(rows, i + 1);
        return None;
      }
      front := front + [rows[i]];
      current := next.value;
      assert current == SnapshotOf(front, cutoff);
      i := i + 1;
    }
    assert rows[..i] == rows;
    snapshot := Some(current);
  }

  /** One pass through the row loop. */
  method AddRow(ghost front: seq<AggregateRow>, row: AggregateRow, before: Snapshot) returns (after: Option<Snapshot>)
    requires before == SnapshotOf(front, before.sourceCutoffAt)
    ensures after.None? <==> UnknownDimension(row)
    ensures after.Some? ==>
              after.value.sourceCutoffAt == before.sourceCutoffAt && after.value.courses == CoursesOf(front + [row])
    ensures after.Some? ==>
              after.value.instructors == InstructorsOf(front + [row])
              && after.value.sourceRowCount == TotalValid(after.value.courses)
  {
    assert (front + [row])[..|front|] == front;
    var identity := TermOf(row);
    after := Some(before);
    if identity.Some? {
      match row.group.dimension
      case CourseDimension =>
        var course := CourseOf(row, identity.value);
        assert (before.courses + [course])[..|before.courses|] == before.courses;
        after := Some(before.(sourceRowCount := before.sourceRowCount + course.stats.valid,
            courses := before.courses + [course]));
      case InstructorDimension =>
        var name := NormalizeTeacherName(row.group.teacherName);
        if name != "" {
          after := Some(before.(instructors := before.instructors + [InstructorOf(row, identity.value, name)]));
        }
      case OtherDimension(_) =>
        after := None;
    }
  }

  // ------------------------------------------------------- end to end

  /** What the first step of the query guarantees: trimmed, non-blank keys and a teacher name
      without whitespace. */
  predicate Normalised(g: Grade) {
    && Trimmed(g.termId) && Trimmed(g.termCode) && g.termCode != "" && Trimmed(g.courseCode) && g.courseCode != ""
    && (forall i :: 0 <= i < |g.teacherName| ==> !IsSpace(g.teacherName[i]))
  }

  lemma {:induction false} NoSpacesUnchanged(s: string)
    requires forall i :: 0 <= i < |s| ==> !IsSpace(s[i])
    ensures WithoutSpaces(s) == s
  {
    if s != [] { NoSpacesUnchanged(s[1..]); }
  }

  /** Group columns of normalised grades. */
  predicate CleanGroup(k: Group) {
    && Trimmed(k.termId) && Trimmed(k.termCode) && k.termCode != "" && Trimmed(k.courseCode) && k.courseCode != ""
    && !k.dimension.OtherDimension? && (k.dimension.CourseDimension? ==> k.teacherName == "")
    && (k.dimension.InstructorDimension? ==>
        k.teacherName != "" && NormalizeTeacherName(k.teacherName) == k.teacherName)
  }

  lemma GroupIsClean(g: Grade, k: Group)
    requires Normalised(g) && InGroup(g, k)
    ensures CleanGroup(k)
  {
    NoSpacesUnchanged(g.teacherName);
  }

  lemma CleanKeys(s: string)
    requires Trimmed(s) && s != ""
    ensures TrimSpace(s) == s && !Blank(s)
  {}

  lemma QueryRow(grades: seq<Grade>, result: seq<AggregateRow>, i: nat)
    requires (forall g :: g in grades ==> Normalised(g)) && IsQueryResult(grades, result) && i < |result|
    ensures CleanGroup(result[i].group) && ValidCounts(result[i].stats) && Consistent(result[i].stats)
    ensures TrimSpace(result[i].group.courseCode) == result[i].group.courseCode
    ensures TrimSpace(result[i].group.termCode) == result[i].group.termCode
    ensures !Blank(result[i].group.courseCode) && !Blank(result[i].group.termCode)
  {
    var k := result[i].group;
    assert Occurs(grades, k);
    var g :| g in grades && InGroup(g, k);
    GroupIsClean(g, k);
    CleanKeys(k.courseCode);
    CleanKeys(k.termCode);
    GroupSumsValid(grades, k);
    GroupSumsPartitioned(grades, k);
  }

  /** A course aggregate of the snapshot comes from exactly one query row. */
  lemma {:induction false} CourseOrigin(rows: seq<AggregateRow>, n: nat) returns (i: nat)
    requires n < |CoursesOf(rows)|
    ensures i < |rows| && TermOf(rows[i]).Some? && rows[i].group.dimension == CourseDimension
    ensures CoursesOf(rows)[n] == CourseOf(rows[i], TermOf(rows[i]).value) && |CoursesOf(rows[..i])| == n
  {
    if n < |CoursesOf(rows[..|rows| - 1])| {
      i := CourseOrigin(rows[..|rows| - 1], n);
      assert rows[..|rows| - 1][..i] == rows[..i];
    } else {
      i := |rows| - 1;
    }
  }

  lemma {:induction false} InstructorOrigin(rows: seq<AggregateRow>, n: nat) returns (i: nat)
    requires n < |InstructorsOf(rows)|
    ensures i < |rows| && TermOf(rows[i]).Some? && rows[i].group.dimension == InstructorDimension
    ensures InstructorsOf(rows)[n]
            == InstructorOf(rows[i], TermOf(rows[i]).value, NormalizeTeacherName(rows[i].group.teacherName))
    ensures |InstructorsOf(rows[..i])| == n
  {
    var front := rows[..|rows| - 1];
    if n < |InstructorsOf(front)| {
      i := InstructorOrigin(front, n);
      assert front[..i] == rows[..i];
    } else {
      i := |rows| - 1;
    }
  }

  lemma CourseValid(grades: seq<Grade>, result: seq<AggregateRow>, n: nat)
    requires (forall g :: g in grades ==> Normalised(g)) && IsQueryResult(grades, result) && n < |CoursesOf(result)|
    ensures ValidCourse(CoursesOf(result)[n]) && Consistent(CoursesOf(result)[n].stats)
  {
    var i := CourseOrigin(result, n);
    QueryRow(grades, result, i);
    RecognisedTermsAreValid(result[i].group.termId, result[i].group.termCode);
  }

  lemma InstructorValid(grades: seq<Grade>, result: seq<AggregateRow>, n: nat)
    requires (forall g :: g in grades ==> Normalised(g)) && IsQueryResult(grades, result) && n < |InstructorsOf(result)|
    ensures ValidInstructor(InstructorsOf(result)[n]) && Consistent(InstructorsOf(result)[n].stats)
  {
    var i := InstructorOrigin(result, n);
    QueryRow(grades, result, i);
    KeyNotBlank(result[i].group.teacherName);
    RecognisedTermsAreValid(result[i].group.termId, result[i].group.termCode);
  }

  lemma KeyNotBlank(name: string)
    ensures !Blank(TeacherKey(name)) && TeacherKey(name)[1..] == name
  {
    assert TeacherKey(name)[0] == '#';
  }

  lemma CoursesDistinct(grades: seq<Grade>, result: seq<AggregateRow>)
    requires (forall g :: g in grades ==> Normalised(g)) && IsQueryResult(grades, result)
    ensures DistinctCourses(CoursesOf(result))
  {
    var cs := CoursesOf(result);
    forall a, b | 0 <= a < b < |cs| ensures cs[a].key != cs[b].key {
      var i := CourseOrigin(result, a);
      var j := CourseOrigin(result, b);
      QueryRow(grades, result, i);
      QueryRow(grades, result, j);
      var x, y := result[i].group, result[j].group;
      if cs[a].key == cs[b].key { RecognisedTermsAreDistinct(x.termId, x.termCode, y.termId, y.termCode); }
    }
  }

  lemma InstructorsDistinct(grades: seq<Grade>, result: seq<AggregateRow>)
    requires (forall g :: g in grades ==> Normalised(g)) && IsQueryResult(grades, result)
    ensures DistinctInstructors(InstructorsOf(result))
  {
    var cs := InstructorsOf(result);
    forall a, b | 0 <= a < b < |cs| ensures cs[a].key != cs[b].key {
      var i := InstructorOrigin(result, a);
      var j := InstructorOrigin(result, b);
      QueryRow(grades, result, i);
      QueryRow(grades, result, j);
      var x, y := result[i].group, result[j].group;
      if cs[a].key == cs[b].key {
        KeyNotBlank(x.teacherName);
        KeyNotBlank(y.teacherName);
        RecognisedTermsAreDistinct(x.termId, x.termCode, y.termId, y.termCode);
      }
    }
  }

  /** Some grade with a pass/fail class belongs to a recognised term. */
  ghost predicate HasPublishableGrade(grades: seq<Grade>) {
    exists g :: g in grades && Passed(g).Some? && NormalizeSourceTerm(g.termId, g.termCode).Some?
  }

  lemma {:induction false} CourseListed(rows: seq<AggregateRow>, i: nat)
    requires i < |rows| && TermOf(rows[i]).Some? && rows[i].group.dimension == CourseDimension
    ensures CoursesOf(rows) != []
  {
    if i < |rows| - 1 { CourseListed(rows[..|rows| - 1], i); }
  }

  lemma PublishableIsListed(grades: seq<Grade>, result: seq<AggregateRow>, g: Grade)
    requires IsQueryResult(grades, result) && g in grades && Passed(g).Some?
    requires NormalizeSourceTerm(g.termId, g.termCode).Some?
    ensures CoursesOf(result) != []
  {
    assert InGroup(g, CourseGroup(g)) && Occurs(grades, CourseGroup(g));
    var i :| 0 <= i < |result| && result[i].group == CourseGroup(g);
    CourseListed(result, i);
  }

  lemma RowOccurs(grades: seq<Grade>, result: seq<AggregateRow>, i: nat)
    requires IsQueryResult(grades, result) && i < |result|
    ensures Occurs(grades, result[i].group)
  {}

  lemma ListedIsPublishable(grades: seq<Grade>, result: seq<AggregateRow>) returns (g: Grade)
    requires IsQueryResult(grades, result) && CoursesOf(result) != []
    ensures g in grades && Passed(g).Some? && NormalizeSourceTerm(g.termId, g.termCode).Some?
  {
    var i := CourseOrigin(result, 0);
    var k := result[i].group;
    RowOccurs(grades, result, i);
    g :| g in grades && InGroup(g, k);
    assert g.termId == k.termId && g.termCode == k.termCode;
  }

  lemma CoursesExistExactly(grades: seq<Grade>, result: seq<AggregateRow>)
    requires IsQueryResult(grades, result)
    ensures CoursesOf(result) != [] <==> HasPublishableGrade(grades)
  {
    if HasPublishableGrade(grades) {
      var g :| g in grades && Passed(g).Some? && NormalizeSourceTerm(g.termId, g.termCode).Some?;
      PublishableIsListed(grades, result, g);
    }
    if CoursesOf(result) != [] {
      var g := ListedIsPublishable(grades, result);
    }
  }

  lemma RowsValid(grades: seq<Grade>, result: seq<AggregateRow>)
    requires (forall g :: g in grades ==> Normalised(g)) && IsQueryResult(grades, result)
    ensures forall c :: c in CoursesOf(result) ==> ValidCourse(c) && Consistent(c.stats)
    ensures forall c :: c in InstructorsOf(result) ==> ValidInstructor(c) && Consistent(c.stats)
  {
    forall c | c in CoursesOf(result) ensures ValidCourse(c) && Consistent(c.stats) {
      var n :| 0 <= n < |CoursesOf(result)| && CoursesOf(result)[n] == c;
      CourseValid(grades, result, n);
    }
    forall c | c in InstructorsOf(result) ensures ValidInstructor(c) && Consistent(c.stats) {
      var n :| 0 <= n < |InstructorsOf(result)| && InstructorsOf(result)[n] == c;
      InstructorValid(grades, result, n);
    }
  }

  lemma DimensionsKnown(grades: seq<Grade>, result: seq<AggregateRow>)
    requires (forall g :: g in grades ==> Normalised(g)) && IsQueryResult(grades, result)
    ensures AllKnown(result)
  {
    KnownEverywhere(result);
    forall r | r in result ensures !UnknownDimension(r) {
      var i :| 0 <= i < |result| && result[i] == r;
      QueryRow(grades, result, i);
    }
  }

  /** From grades to snapshot: the aggregation always delivers one, and it validates exactly when
      some classified grade has a recognised term. */
  lemma SnapshotValidatesExactly(grades: seq<Grade>, result: seq<AggregateRow>, cutoff: Time, snapshot: Snapshot)
    requires (forall g :: g in grades ==> Normalised(g)) && IsQueryResult(grades, result) && cutoff != ZERO_TIME
    requires snapshot == SnapshotOf(result, cutoff)
    ensures ValidSnapshot(snapshot) <==> HasPublishableGrade(grades)
    ensures forall c :: c in snapshot.courses ==> Consistent(c.stats)
    ensures forall c :: c in snapshot.instructors ==> Consistent(c.stats)
    ensures AllKnown(result)
  {
    RowsValid(grades, result);
    CoursesDistinct(grades, result);
    InstructorsDistinct(grades, result);
    CoursesExistExactly(grades, result);
    DimensionsKnown(grades, result);
  }

  // ------------------------------------------------------------ conservation

  /** Grades that count: classified, with a recognised term. */
  function PublishableGrades(grades: seq<Grade>): nat {
    if grades == [] then 0
    else
      var g := grades[|grades| - 1];
      PublishableGrades(grades[..|grades| - 1])
      + (if Passed(g).Some? && NormalizeSourceTerm(g.termId, g.termCode).Some? then 1 else 0)
  }

  function RecognisedCourse(k: Group): bool {
    k.dimension == CourseDimension && NormalizeSourceTerm(k.termId, k.termCode).Some?
  }

  /** Valid counts summed over the listed course groups with a recognised term. */
  function ValidOver(ks: seq<Group>, grades: seq<Grade>): int {
    if ks == [] then 0
    else ValidOver(ks[..|ks| - 1], grades)
         + (if RecognisedCourse(ks[|ks| - 1]) then GroupSums(grades, ks[|ks| - 1]).valid else 0)
  }

  lemma {:induction false} OneMoreGrade(ks: seq<Group>, grades: seq<Grade>, g: Grade)
    requires forall i, j :: 0 <= i < j < |ks| ==> ks[i] != ks[j]
    ensures ValidOver(ks, grades + [g])
            == ValidOver(ks, grades) + (if Passed(g).Some? && CourseGroup(g) in ks
                && RecognisedCourse(CourseGroup(g)) then 1 else 0)
  {
    if ks != [] {
      var front, k := ks[..|ks| - 1], ks[|ks| - 1];
      OneMoreGrade(front, grades, g);
      assert ks == front + [k];
      assert (grades + [g])[..|grades|] == grades;
      ContributesOne(grades, g, k);
      if CourseGroup(g) == k { assert k !in front; }
    }
  }

  lemma ContributesOne(grades: seq<Grade>, g: Grade, k: Group)
    ensures GroupSums(grades + [g], k).valid == GroupSums(grades, k).valid + (if InGroup(g, k) then 1 else 0)
  {
    assert (grades + [g])[..|grades|] == grades;
  }

  lemma {:induction false} ValidOverCounts(ks: seq<Group>, grades: seq<Grade>)
    requires forall i, j :: 0 <= i < j < |ks| ==> ks[i] != ks[j]
    requires forall g :: g in grades && Passed(g).Some? ==> CourseGroup(g) in ks
    ensures ValidOver(ks, grades) == PublishableGrades(grades)
  {
    if grades == [] {
      NothingOver(ks, grades);
    } else {
      var front, g := grades[..|grades| - 1], grades[|grades| - 1];
      assert grades == front + [g];
      ValidOverCounts(ks, front);
      OneMoreGrade(ks, front, g);
    }
  }

  lemma {:induction false} NothingOver(ks: seq<Group>, none: seq<Grade>)
    requires none == []
    ensures ValidOver(ks, none) == 0
  {
    if ks != [] { NothingOver(ks[..|ks| - 1], none); }
  }

  lemma CoursePartTotal(front: seq<AggregateRow>, r: AggregateRow)
    ensures TotalValid(CoursesOf(front + [r]))
            == TotalValid(CoursesOf(front)) + (if RecognisedCourse(r.group) then r.stats.valid else 0)
  {
    assert (front + [r])[..|front|] == front;
    var part := CoursePart(r);
    assert CoursesOf(front + [r]) == CoursesOf(front) + part;
    if part == [] {
      assert CoursesOf(front) + part == CoursesOf(front);
    } else {
      assert (CoursesOf(front) + part)[..|CoursesOf(front)|] == CoursesOf(front);
    }
  }

  lemma ValidOverStep(front: seq<Group>, k: Group, grades: seq<Grade>)
    ensures ValidOver(front + [k], grades)
            == ValidOver(front, grades) + (if RecognisedCourse(k) then GroupSums(grades, k).valid else 0)
  {
    assert (front + [k])[..|front|] == front;
  }

  function GroupsOf(rows: seq<AggregateRow>): (ks: seq<Group>)
    ensures |ks| == |rows| && forall i :: 0 <= i < |rows| ==> ks[i] == rows[i].group
  {
    if rows == [] then [] else GroupsOf(rows[..|rows| - 1]) + [rows[|rows| - 1].group]
  }

  ghost predicate SumsOf(grades: seq<Grade>, rows: seq<AggregateRow>) {
    forall r :: r in rows ==> r.stats.valid == GroupSums(grades, r.group).valid
  }

  lemma SumsOfPrefix(grades: seq<Grade>, front: seq<AggregateRow>, r: AggregateRow)
    requires SumsOf(grades, front + [r])
    ensures SumsOf(grades, front) && r.stats.valid == GroupSums(grades, r.group).valid
  {
    assert forall x :: x in front ==> x in front + [r];
    assert r in front + [r];
  }

  lemma {:induction false} TotalAlongGroups(grades: seq<Grade>, rows: seq<AggregateRow>, n: nat)
    requires n <= |rows| && SumsOf(grades, rows[..n])
    ensures TotalValid(CoursesOf(rows[..n])) == ValidOver(GroupsOf(rows[..n]), grades)
  {
    if n == 0 {
      assert rows[..n] == [];
    } else {
      PrefixStep(rows, n - 1);
      SumsOfPrefix(grades, rows[..n - 1], rows[n - 1]);
      TotalAlongGroups(grades, rows, n - 1);
      TotalStep(grades, rows[..n - 1], rows[n - 1], GroupsOf(rows[..n - 1]));
      GroupsGrow(rows[..n - 1], rows[n - 1]);
    }
  }

  lemma GroupsGrow(front: seq<AggregateRow>, r: AggregateRow)
    ensures GroupsOf(front + [r]) == GroupsOf(front) + [r.group]
  {
    assert (front + [r])[..|front|] == front;
  }

  lemma TotalStep(grades: seq<Grade>, front: seq<AggregateRow>, r: AggregateRow, keys: seq<Group>)
    requires TotalValid(CoursesOf(front)) == ValidOver(keys, grades)
    requires r.stats.valid == GroupSums(grades, r.group).valid
    ensures TotalValid(CoursesOf(front + [r])) == ValidOver(keys + [r.group], grades)
  {
    CoursePartTotal(front, r);
    ValidOverStep(keys, r.group, grades);
  }

  lemma ClassifiedAreGrouped(grades: seq<Grade>, result: seq<AggregateRow>, g: Grade)
    requires IsQueryResult(grades, result) && g in grades && Passed(g).Some?
    ensures CourseGroup(g) in GroupsOf(result)
  {
    assert InGroup(g, CourseGroup(g)) && Occurs(grades, CourseGroup(g));
    var i :| 0 <= i < |result| && result[i].group == CourseGroup(g);
    assert GroupsOf(result)[i] == CourseGroup(g);
  }

  lemma ResultSums(grades: seq<Grade>, result: seq<AggregateRow>)
    requires IsQueryResult(grades, result)
    ensures TotalValid(CoursesOf(result)) == ValidOver(GroupsOf(result), grades)
  {
    assert result[..|result|] == result;
    TotalAlongGroups(grades, result, |result|);
  }

  /** The reported source row count is the number of publishable grades: none is lost, none twice. */
  lemma SourceRowsConserved(grades: seq<Grade>, result: seq<AggregateRow>)
    requires IsQueryResult(grades, result)
    ensures TotalValid(CoursesOf(result)) == PublishableGrades(grades)
  {
    forall g | g in grades && Passed(g).Some? ensures CourseGroup(g) in GroupsOf(result) {
      ClassifiedAreGrouped(grades, result, g);
    }
    ResultSums(grades, result);
    ValidOverCounts(GroupsOf(result), grades);
  }
}
