/** From grades to snapshot, without the query: which rows a snapshot has, and what each of their fields means. */
module SourceSnapshot {
  import opened Wrappers
  import opened Statistics
  import opened SourceTerms
  import opened SourceAggregate
  import opened SourceBuckets
  import opened ProjectionShown

  /** The grade counts in the course row of this term and course. */
  predicate InCourse(g: Grade, termId: string, termCode: string, code: string) {
    Falls(g, Valid) && g.termId == termId && g.termCode == termCode && g.courseCode == code
  }

  /** The grade counts in the row of this teacher as well: it names that one teacher and a class. */
  predicate InStaff(g: Grade, termId: string, termCode: string, code: string, teacher: string) {
    && InCourse(g, termId, termCode, code) && g.teacherName == teacher && teacher != "" && g.selectionId != ""
    && forall i :: 0 <= i < |teacher| ==> teacher[i] !in ",，、;；/"
  }

  /** The trimmed form of the greatest course name among these grades. */
  ghost predicate GreatestName(grades: seq<Grade>, belongs: Grade -> bool, name: string) {
    exists g :: g in grades && belongs(g) && TrimSpace(g.courseName) == name
                && forall h :: h in grades && belongs(h) ==> !Greater(h.courseName, g.courseName)
  }

  ghost predicate CountsGrades(grades: seq<Grade>, k: Group, stats: Counts) {
    && (forall column :: Field(stats, column) == Count(grades, k, column))
    && var exact := 100.0 * ScoreTotal(grades, k);
       exact - 0.5 * stats.numeric as real <= stats.sumX100 as real <= exact + 0.5 * stats.numeric as real
  }

  /** A course row that says what the grades of one term and course say. */
  ghost predicate DescribesCourse(
    grades: seq<Grade>, termId: string, termCode: string, code: string, c: CourseAggregate) {
    && NormalizeSourceTerm(termId, termCode) == Some(TermIdentity(c.key.level, c.key.period, c.termLabel))
    && c.key.code == code && c.termCode == termCode
    && (exists g :: g in grades && InCourse(g, termId, termCode, code))
    && GreatestName(grades, g => InCourse(g, termId, termCode, code), c.courseName)
    && CountsGrades(grades, Group(CourseDimension, termId, termCode, code, ""), c.stats)
  }

  /** An instructor row likewise; its class count is the number of the teacher's classes. */
  ghost predicate DescribesInstructor(
    grades: seq<Grade>, termId: string, termCode: string, code: string, teacher: string, c: InstructorAggregate) {
    && NormalizeSourceTerm(termId, termCode) == Some(TermIdentity(c.key.level, c.key.period, c.termLabel))
    && c.key.code == code && c.termCode == termCode && c.teacherName == teacher
    && (exists g :: g in grades && InStaff(g, termId, termCode, code, teacher))
    && GreatestName(grades, g => InStaff(g, termId, termCode, code, teacher), c.courseName)
    && c.classCount == |set g | g in grades && InStaff(g, termId, termCode, code, teacher) :: g.selectionId|
    && CountsGrades(grades, Group(InstructorDimension, termId, termCode, code, teacher), c.stats)
  }

  // ------------------------------------------------------------- one query row

  lemma CourseGroupExactly(g: Grade, k: Group)
    requires k.dimension == CourseDimension && k.teacherName == ""
    ensures InGroup(g, k) <==> InCourse(g, k.termId, k.termCode, k.courseCode)
  {
    InGroupExactly(g, k);
  }

  lemma StaffGroupExactly(g: Grade, k: Group)
    requires k.dimension == InstructorDimension
    ensures InGroup(g, k) <==> InStaff(g, k.termId, k.termCode, k.courseCode, k.teacherName)
  {
    InGroupExactly(g, k);
  }

  lemma SumsCount(grades: seq<Grade>, k: Group)
    ensures CountsGrades(grades, k, GroupSums(grades, k))
  {
    forall column ensures Field(GroupSums(grades, k), column) == Count(grades, k, column) {
      ColumnsCount(grades, k, column);
    }
    SumIsNear(grades, k);
  }

  lemma NameIsGreatest(grades: seq<Grade>, k: Group, name: string, belongs: Grade -> bool)
    requires IsGreatestName(grades, k, name) && forall g :: g in grades ==> (InGroup(g, k) <==> belongs(g))
    ensures GreatestName(grades, belongs, TrimSpace(name))
  {}

  lemma CourseRowDescribes(grades: seq<Grade>, result: seq<AggregateRow>, i: nat)
    requires (forall g :: g in grades ==> Normalised(g)) && IsQueryResult(grades, result) && i < |result|
    requires TermOf(result[i]).Some? && result[i].group.dimension == CourseDimension
    ensures var k := result[i].group;
            DescribesCourse(grades, k.termId, k.termCode, k.courseCode, CourseOf(result[i], TermOf(result[i]).value))
  {
    var k := result[i].group;
    QueryRow(grades, result, i);
    forall g | g in grades ensures InGroup(g, k) <==> InCourse(g, k.termId, k.termCode, k.courseCode) {
      CourseGroupExactly(g, k);
    }
    NameIsGreatest(grades, k, result[i].courseName, g => InCourse(g, k.termId, k.termCode, k.courseCode));
    SumsCount(grades, k);
    assert k == Group(CourseDimension, k.termId, k.termCode, k.courseCode, "");
  }

  lemma InstructorRowDescribes(grades: seq<Grade>, result: seq<AggregateRow>, i: nat)
    requires (forall g :: g in grades ==> Normalised(g)) && IsQueryResult(grades, result) && i < |result|
    requires TermOf(result[i]).Some? && result[i].group.dimension == InstructorDimension
    ensures var k := result[i].group;
            NormalizeTeacherName(k.teacherName) == k.teacherName != ""
            && DescribesInstructor(grades, k.termId, k.termCode, k.courseCode, k.teacherName,
                                   InstructorOf(result[i], TermOf(result[i]).value, k.teacherName))
  {
    var k := result[i].group;
    QueryRow(grades, result, i);
    forall g | g in grades ensures InGroup(g, k) <==> InStaff(g, k.termId, k.termCode, k.courseCode, k.teacherName) {
      StaffGroupExactly(g, k);
    }
    NameIsGreatest(grades, k, result[i].courseName, g => InStaff(g, k.termId, k.termCode, k.courseCode, k.teacherName));
    SameClasses(grades, k);
    SumsCount(grades, k);
  }

  lemma SameClasses(grades: seq<Grade>, k: Group)
    requires k.dimension == InstructorDimension
    requires forall g :: g in grades ==>
               (InGroup(g, k) <==> InStaff(g, k.termId, k.termCode, k.courseCode, k.teacherName))
    ensures Classes(grades, k)
            == |set g | g in grades && InStaff(g, k.termId, k.termCode, k.courseCode, k.teacherName) :: g.selectionId|
  {
    assert (set g | g in grades && InGroup(g, k) :: g.selectionId)
        == (set g | g in grades && InStaff(g, k.termId, k.termCode, k.courseCode, k.teacherName) :: g.selectionId);
  }

  // --------------------------------------------------------------- the snapshot

  /** The snapshot has a row for each recognised term and course with a classified grade, a row for each teacher of
      such a course who is named alone for a class, and no others; each describes its grades. */
  ghost predicate Describes(grades: seq<Grade>, s: Snapshot) {
    && (forall c :: c in s.courses ==> exists id, code, course :: DescribesCourse(grades, id, code, course, c))
    && (forall c :: c in s.instructors ==>
          exists id, code, course, teacher :: DescribesInstructor(grades, id, code, course, teacher, c))
    && (forall g :: g in grades && Falls(g, Valid) && NormalizeSourceTerm(g.termId, g.termCode).Some? ==>
          CourseListedFor(grades, s, g))
    && (forall g :: g in grades && Taught(g) && NormalizeSourceTerm(g.termId, g.termCode).Some? ==>
          InstructorListedFor(grades, s, g))
  }

  /** Classified, and taught by one named teacher in a known class. */
  predicate Taught(g: Grade) { InStaff(g, g.termId, g.termCode, g.courseCode, g.teacherName) }

  ghost predicate CourseListedFor(grades: seq<Grade>, s: Snapshot, g: Grade) {
    exists c :: c in s.courses && DescribesCourse(grades, g.termId, g.termCode, g.courseCode, c)
  }

  ghost predicate InstructorListedFor(grades: seq<Grade>, s: Snapshot, g: Grade) {
    exists c :: c in s.instructors
                && DescribesInstructor(grades, g.termId, g.termCode, g.courseCode, g.teacherName, c)
  }

  lemma {:induction false} CourseIsListed(rows: seq<AggregateRow>, i: nat)
    requires i < |rows| && TermOf(rows[i]).Some? && rows[i].group.dimension == CourseDimension
    ensures CourseOf(rows[i], TermOf(rows[i]).value) in CoursesOf(rows)
  {
    if i < |rows| - 1 { CourseIsListed(rows[..|rows| - 1], i); }
  }

  lemma {:induction false} InstructorIsListed(rows: seq<AggregateRow>, i: nat)
    requires i < |rows| && TermOf(rows[i]).Some? && rows[i].group.dimension == InstructorDimension
    requires NormalizeTeacherName(rows[i].group.teacherName) != ""
    ensures InstructorOf(rows[i], TermOf(rows[i]).value, NormalizeTeacherName(rows[i].group.teacherName))
              in InstructorsOf(rows)
  {
    if i < |rows| - 1 { InstructorIsListed(rows[..|rows| - 1], i); }
  }

  lemma CourseForGrade(grades: seq<Grade>, result: seq<AggregateRow>, s: Snapshot, g: Grade)
    requires (forall x :: x in grades ==> Normalised(x)) && IsQueryResult(grades, result)
    requires s.courses == CoursesOf(result) && g in grades && Falls(g, Valid)
    requires NormalizeSourceTerm(g.termId, g.termCode).Some?
    ensures CourseListedFor(grades, s, g)
  {
    CourseGroupExactly(g, CourseGroup(g));
    assert Occurs(grades, CourseGroup(g));
    var i: nat :| i < |result| && result[i].group == CourseGroup(g);
    CourseRowDescribes(grades, result, i);
    CourseIsListed(result, i);
  }

  lemma InstructorForGrade(grades: seq<Grade>, result: seq<AggregateRow>, s: Snapshot, g: Grade)
    requires (forall x :: x in grades ==> Normalised(x)) && IsQueryResult(grades, result)
    requires s.instructors == InstructorsOf(result) && g in grades
    requires InStaff(g, g.termId, g.termCode, g.courseCode, g.teacherName)
    requires NormalizeSourceTerm(g.termId, g.termCode).Some?
    ensures InstructorListedFor(grades, s, g)
  {
    StaffGroupExactly(g, InstructorGroup(g));
    assert Occurs(grades, InstructorGroup(g));
    var i: nat :| i < |result| && result[i].group == InstructorGroup(g);
    InstructorRowDescribes(grades, result, i);
    InstructorIsListed(result, i);
  }

  lemma ListedCourseDescribes(grades: seq<Grade>, result: seq<AggregateRow>, c: CourseAggregate)
    requires (forall x :: x in grades ==> Normalised(x)) && IsQueryResult(grades, result) && c in CoursesOf(result)
    ensures exists id, code, course :: DescribesCourse(grades, id, code, course, c)
  {
    var n: nat :| n < |CoursesOf(result)| && CoursesOf(result)[n] == c;
    var i := CourseOrigin(result, n);
    CourseRowDescribes(grades, result, i);
  }

  lemma ListedInstructorDescribes(grades: seq<Grade>, result: seq<AggregateRow>, c: InstructorAggregate)
    requires (forall x :: x in grades ==> Normalised(x)) && IsQueryResult(grades, result) && c in InstructorsOf(result)
    ensures exists id, code, course, teacher :: DescribesInstructor(grades, id, code, course, teacher, c)
  {
    var n: nat :| n < |InstructorsOf(result)| && InstructorsOf(result)[n] == c;
    var i := SourceAggregate.InstructorOrigin(result, n);
    InstructorRowDescribes(grades, result, i);
  }

  /** What the aggregation delivers, whatever order the query answers in. */
  lemma SnapshotDescribes(grades: seq<Grade>, result: seq<AggregateRow>, cutoff: Time)
    requires (forall g :: g in grades ==> Normalised(g)) && IsQueryResult(grades, result)
    ensures Describes(grades, SnapshotOf(result, cutoff))
    ensures SnapshotOf(result, cutoff).sourceCutoffAt == cutoff
  {
    var s := SnapshotOf(result, cutoff);
    forall c | c in s.courses ensures exists id, code, course :: DescribesCourse(grades, id, code, course, c) {
      ListedCourseDescribes(grades, result, c);
    }
    forall c | c in s.instructors
      ensures exists id, code, course, teacher :: DescribesInstructor(grades, id, code, course, teacher, c)
    {
      ListedInstructorDescribes(grades, result, c);
    }
    forall g | g in grades && Falls(g, Valid) && NormalizeSourceTerm(g.termId, g.termCode).Some?
      ensures CourseListedFor(grades, s, g)
    {
      CourseForGrade(grades, result, s, g);
    }
    forall g | g in grades && Taught(g) && NormalizeSourceTerm(g.termId, g.termCode).Some?
      ensures InstructorListedFor(grades, s, g)
    {
      InstructorForGrade(grades, result, s, g);
    }
  }

  // ------------------------------------------------------------- teacher names

  /** Normalising a name removes its blanks and nothing else, and drops a list of names. */
  lemma {:induction false} WithoutSpacesKeeps(a: string, b: string)
    ensures WithoutSpaces(a + b) == WithoutSpaces(a) + WithoutSpaces(b)
    ensures forall c :: c in WithoutSpaces(a) <==> c in a && !IsSpace(c)
  {
    if a == [] {
      assert a + b == b;
    } else {
      assert (a + b)[1..] == a[1..] + b && a == [a[0]] + a[1..];
      WithoutSpacesKeeps(a[1..], b);
    }
  }

  /** A name is dropped exactly when it is blank or lists several teachers. */
  lemma NameDroppedExactly(value: string)
    ensures NormalizeTeacherName(value) == ""
            <==> Blank(value) || exists i :: 0 <= i < |value| && value[i] in ",，、;；/"
    ensures NormalizeTeacherName(value) != "" ==> NormalizeTeacherName(value) == WithoutSpaces(value)
  {
    var name := WithoutSpaces(value);
    WithoutSpacesKeeps(value, []);
    SeparatorsExactly(name);
    if i :| 0 <= i < |value| && value[i] in ",，、;；/" {
      NotBlankSeparator(value[i]);
      assert value[i] in name;
    }
    if i :| 0 <= i < |name| && name[i] in ",，、;；/" { assert name[i] in value; }
    if !Blank(value) {
      var i :| 0 <= i < |value| && !IsSpace(value[i]);
      assert value[i] in name;
    }
    if name != "" { assert name[0] in value && !IsSpace(name[0]); }
  }

  lemma NotBlankSeparator(c: char)
    requires c in ",，、;；/"
    ensures !IsSpace(c)
  {}

  /** Different teachers never share a key. */
  lemma TeacherKeysDiffer(a: string, b: string)
    ensures TeacherKey(a) == TeacherKey(b) ==> a == b
  {
    KeyNotBlank(a);
    KeyNotBlank(b);
  }
}
