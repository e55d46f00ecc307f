/** When a publication shows what the snapshot reported, and when it repeats a baseline instead: over the snapshot,
    the baselines read and the spacing rule alone, for every row of every publication. */
module PublicationRollback {
  import opened Statistics
  import opened Privacy
  import opened Publication
  import opened PublicationHistory
  import opened PublicationTheorems

  /** The reported counts of an instructor are not spaced from a large baseline. */
  ghost predicate InstructorExposed(plan: Plan, i: InstructorAggregate) {
    && i.key in plan.instructorBase && plan.instructorBase[i.key].stats.valid >= plan.minimum
    && !Spaced(plan.instructorBase[i.key].stats, i.stats, plan.minimum)
  }

  /** Some reported instructor of the course is exposed. */
  ghost predicate StaffExposed(plan: Plan, k: CourseKey) {
    exists i :: i in plan.snapshot.instructors && InstructorExposed(plan, i)
                && i.key.level == k.level && i.key.period == k.period && i.key.code == k.code
  }

  /** The course has a large baseline, and its own counts or those of one of its instructors are exposed. */
  ghost predicate CourseExposed(plan: Plan, c: CourseAggregate) {
    && c.key in plan.courseBase && plan.courseBase[c.key].stats.valid >= plan.minimum
    && (!Spaced(plan.courseBase[c.key].stats, c.stats, plan.minimum) || StaffExposed(plan, c.key))
  }

  /** Row by row and in order: an exposed course repeats the counts of its baseline, any other is published exactly
      as reported; everything but the counts is as reported in both cases. */
  ghost predicate CoursesAsReported(plan: Plan, rows: seq<CourseRow>) {
    && |rows| == |plan.snapshot.courses|
    && forall n :: 0 <= n < |rows| ==>
         var c := plan.snapshot.courses[n];
         rows[n] == CourseRow(plan.batchId, c.key, c.termLabel, c.termCode, c.courseName,
                              if CourseExposed(plan, c) then plan.courseBase[c.key].stats else c.stats)
  }

  /** The same for instructors, whose class count goes with the counts. */
  ghost predicate InstructorsAsReported(plan: Plan, rows: seq<InstructorRow>) {
    && |rows| == |plan.snapshot.instructors|
    && forall n :: 0 <= n < |rows| ==> rows[n] == PublishedInstructor(plan, plan.snapshot.instructors[n])
  }

  ghost function PublishedInstructor(plan: Plan, i: InstructorAggregate): InstructorRow {
    if InstructorExposed(plan, i) then
      InstructorRow(plan.batchId, i.key, i.termLabel, i.termCode, i.courseName, i.teacherName,
                    plan.instructorBase[i.key].classCount, plan.instructorBase[i.key].stats)
    else InstructorRow(plan.batchId, i.key, i.termLabel, i.termCode, i.courseName, i.teacherName, i.classCount, i.stats)
  }

  /** Some row repeats a row of the batch. */
  ghost predicate CarriesFrom(plan: Plan, id: nat) {
    || (exists c :: c in plan.snapshot.courses && CourseExposed(plan, c) && plan.courseBase[c.key].batchId == id)
    || (exists i :: i in plan.snapshot.instructors && InstructorExposed(plan, i)
                    && plan.instructorBase[i.key].batchId == id)
  }

  /** The claimed cutoff is the snapshot's, or the earliest one of the batches that values were carried from. */
  ghost predicate CutoffAsCarried(batches: map<nat, Batch>, plan: Plan, cutoff: Time) {
    && cutoff <= plan.snapshot.sourceCutoffAt
    && (forall id :: CarriesFrom(plan, id) ==> id in batches && cutoff <= batches[id].sourceCutoffAt)
    && (cutoff == plan.snapshot.sourceCutoffAt
        || exists id :: CarriesFrom(plan, id) && id in batches && cutoff == batches[id].sourceCutoffAt)
  }

  // ------------------------------------------------------- one publication

  lemma SuppressedExactly(plan: Plan, n: nat)
    requires plan.minimum >= 1 && n < |plan.snapshot.instructors|
    ensures InstructorSuppressed(plan.RawInstructors()[n], plan.instructorBase, plan.minimum)
            <==> InstructorExposed(plan, plan.snapshot.instructors[n])
  {
    var i := plan.snapshot.instructors[n];
    if i.key in plan.instructorBase {
      UnsafeExactlyWhenNotSpaced(plan.instructorBase[i.key].stats, i.stats, plan.minimum);
    }
  }

  lemma {:induction false} ForcedByOne(
    rows: seq<InstructorRow>, base: map<InstructorKey, InstructorRow>, minimum: int, k: CourseKey)
    ensures k in ForcedCourses(rows, base, minimum)
            <==> exists n :: 0 <= n < |rows| && InstructorSuppressed(rows[n], base, minimum)
                             && rows[n].key.Course() == k
  {
    if rows != [] {
      var front := rows[..|rows| - 1];
      ForcedByOne(front, base, minimum, k);
      assert forall n :: 0 <= n < |front| ==> front[n] == rows[n];
    }
  }

  lemma ForcedExactly(plan: Plan, k: CourseKey)
    requires plan.minimum >= 1
    ensures k in plan.Forced() <==> StaffExposed(plan, k)
  {
    var raw := plan.RawInstructors();
    ForcedByOne(raw, plan.instructorBase, plan.minimum, k);
    if k in plan.Forced() {
      var n: nat :| n < |raw| && InstructorSuppressed(raw[n], plan.instructorBase, plan.minimum)
                    && raw[n].key.Course() == k;
      SuppressedExactly(plan, n);
      assert plan.snapshot.instructors[n] in plan.snapshot.instructors;
    }
    if StaffExposed(plan, k) {
      var i :| i in plan.snapshot.instructors && InstructorExposed(plan, i)
               && i.key.level == k.level && i.key.period == k.period && i.key.code == k.code;
      var n: nat :| n < |plan.snapshot.instructors| && plan.snapshot.instructors[n] == i;
      SuppressedExactly(plan, n);
      assert raw[n].key.Course() == k;
    }
  }

  lemma CourseSuppressedExactly(plan: Plan, n: nat)
    requires plan.minimum >= 1 && n < |plan.snapshot.courses|
    ensures CourseSuppressed(plan.RawCourses()[n], plan.courseBase, plan.Forced(), plan.minimum)
            <==> CourseExposed(plan, plan.snapshot.courses[n])
  {
    var c := plan.snapshot.courses[n];
    ForcedExactly(plan, c.key);
    if c.key in plan.courseBase {
      UnsafeExactlyWhenNotSpaced(plan.courseBase[c.key].stats, c.stats, plan.minimum);
    }
  }

  /** The rows of a publication: a row is rolled back if and only if it is exposed. */
  lemma RowsAsReported(plan: Plan)
    requires plan.minimum >= 1
    ensures CoursesAsReported(plan, plan.Courses()) && InstructorsAsReported(plan, plan.Instructors())
  {
    forall n | 0 <= n < |plan.snapshot.courses|
      ensures CourseSuppressed(plan.RawCourses()[n], plan.courseBase, plan.Forced(), plan.minimum)
              <==> CourseExposed(plan, plan.snapshot.courses[n])
    {
      CourseSuppressedExactly(plan, n);
    }
    forall n | 0 <= n < |plan.snapshot.instructors|
      ensures InstructorSuppressed(plan.RawInstructors()[n], plan.instructorBase, plan.minimum)
              <==> InstructorExposed(plan, plan.snapshot.instructors[n])
    {
      SuppressedExactly(plan, n);
    }
  }

  lemma {:induction false} CourseSourceOf(
    rows: seq<CourseRow>, base: map<CourseKey, CourseRow>, forced: set<CourseKey>, minimum: int, id: nat)
    ensures id in CourseSources(rows, base, forced, minimum)
            <==> exists n :: 0 <= n < |rows| && CourseSuppressed(rows[n], base, forced, minimum)
                             && base[rows[n].key].batchId == id
  {
    if rows != [] {
      var front := rows[..|rows| - 1];
      CourseSourceOf(front, base, forced, minimum, id);
      assert forall n :: 0 <= n < |front| ==> front[n] == rows[n];
    }
  }

  lemma {:induction false} InstructorSourceOf(
    rows: seq<InstructorRow>, base: map<InstructorKey, InstructorRow>, minimum: int, id: nat)
    ensures id in InstructorSources(rows, base, minimum)
            <==> exists n :: 0 <= n < |rows| && InstructorSuppressed(rows[n], base, minimum)
                             && base[rows[n].key].batchId == id
  {
    if rows != [] {
      var front := rows[..|rows| - 1];
      InstructorSourceOf(front, base, minimum, id);
      assert forall n :: 0 <= n < |front| ==> front[n] == rows[n];
    }
  }

  lemma CourseCarries(plan: Plan, id: nat)
    requires plan.minimum >= 1
    ensures id in CourseSources(plan.RawCourses(), plan.courseBase, plan.Forced(), plan.minimum)
            <==> exists c :: c in plan.snapshot.courses && CourseExposed(plan, c)
                             && plan.courseBase[c.key].batchId == id
  {
    var raw := plan.RawCourses();
    CourseSourceOf(raw, plan.courseBase, plan.Forced(), plan.minimum, id);
    if n: nat :| n < |raw| && CourseSuppressed(raw[n], plan.courseBase, plan.Forced(), plan.minimum)
                 && plan.courseBase[raw[n].key].batchId == id {
      CourseSuppressedExactly(plan, n);
      assert plan.snapshot.courses[n] in plan.snapshot.courses;
    }
    if c :| c in plan.snapshot.courses && CourseExposed(plan, c) && plan.courseBase[c.key].batchId == id {
      var n: nat :| n < |plan.snapshot.courses| && plan.snapshot.courses[n] == c;
      CourseSuppressedExactly(plan, n);
      assert plan.courseBase[raw[n].key].batchId == id;
    }
  }

  lemma InstructorCarries(plan: Plan, id: nat)
    requires plan.minimum >= 1
    ensures id in InstructorSources(plan.RawInstructors(), plan.instructorBase, plan.minimum)
            <==> exists i :: i in plan.snapshot.instructors && InstructorExposed(plan, i)
                             && plan.instructorBase[i.key].batchId == id
  {
    var raw := plan.RawInstructors();
    InstructorSourceOf(raw, plan.instructorBase, plan.minimum, id);
    if n: nat :| n < |raw| && InstructorSuppressed(raw[n], plan.instructorBase, plan.minimum)
                 && plan.instructorBase[raw[n].key].batchId == id {
      SuppressedExactly(plan, n);
      assert plan.snapshot.instructors[n] in plan.snapshot.instructors;
    }
    if i :| i in plan.snapshot.instructors && InstructorExposed(plan, i) && plan.instructorBase[i.key].batchId == id {
      var n: nat :| n < |plan.snapshot.instructors| && plan.snapshot.instructors[n] == i;
      SuppressedExactly(plan, n);
      assert plan.instructorBase[raw[n].key].batchId == id;
    }
  }

  /** The listed sources are the batches that some row was carried from. */
  lemma SourcesExactly(plan: Plan, id: nat)
    requires plan.minimum >= 1
    ensures id in plan.Sources() <==> CarriesFrom(plan, id)
  {
    CourseCarries(plan, id);
    InstructorCarries(plan, id);
  }

  /** One committed publication shows every cohort as reported unless it is exposed, and claims the cutoff of
      what it carried. */
  lemma PublishesAsReported(db: Db, db': Db, plan: Plan, at: Time, rows: Rows, cutoff: Time)
    requires plan.minimum >= 1 && Publishes(db, db', plan, at, rows, cutoff)
    ensures CoursesAsReported(plan, rows.courses) && InstructorsAsReported(plan, rows.instructors)
    ensures CutoffAsCarried(db.batches, plan, cutoff)
  {
    RowsAsReported(plan);
    forall id ensures id in plan.Sources() <==> CarriesFrom(plan, id) { SourcesExactly(plan, id); }
  }

  // --------------------------------------------------------- along every run

  /** In every run, every publication so far. */
  lemma EveryPublicationAsReported(run: seq<History>, log: seq<Entry>, i: nat)
    requires Run(run) && log == run[|run| - 1].log && i < |log|
    ensures CoursesAsReported(log[i].plan, log[i].rows.courses)
    ensures InstructorsAsReported(log[i].plan, log[i].rows.instructors)
    ensures log[i].cutoff == log[i].plan.snapshot.sourceCutoffAt
            || exists j :: 0 <= j < i && CarriesFrom(log[i].plan, log[j].Id()) && log[i].cutoff == log[j].cutoff
    ensures log[i].cutoff <= log[i].plan.snapshot.sourceCutoffAt
    ensures forall j :: 0 <= j < i && CarriesFrom(log[i].plan, log[j].Id()) ==> log[i].cutoff <= log[j].cutoff
  {
    RunLog(run);
    EntryPlanned(log, i);
    RowsAsReported(log[i].plan);
    CutoffInLog(log, i);
  }

  lemma CutoffInLog(log: seq<Entry>, i: nat)
    requires GoodLog(log) && i < |log|
    ensures log[i].cutoff == log[i].plan.snapshot.sourceCutoffAt
            || exists j :: 0 <= j < i && CarriesFrom(log[i].plan, log[j].Id()) && log[i].cutoff == log[j].cutoff
    ensures forall j :: 0 <= j < i && CarriesFrom(log[i].plan, log[j].Id()) ==> log[i].cutoff <= log[j].cutoff
  {
    EntryCutoff(log, i);
    forall id ensures id in log[i].plan.Sources() <==> CarriesFrom(log[i].plan, id) {
      EntryPlanned(log, i);
      SourcesExactly(log[i].plan, id);
    }
  }

  lemma EntryCutoff(log: seq<Entry>, i: nat)
    requires GoodLog(log) && i < |log|
    ensures log[i].cutoff == log[i].plan.snapshot.sourceCutoffAt
            || exists j :: 0 <= j < i && log[j].Id() in log[i].plan.Sources() && log[i].cutoff == log[j].cutoff
    ensures forall j :: 0 <= j < i && log[j].Id() in log[i].plan.Sources() ==> log[i].cutoff <= log[j].cutoff
  {
    assert Follows(log[..i], log[i]);
    CutoffBehind(log[..i], log[i], log[i].plan.Sources());
    forall j | 0 <= j < i ensures log[..i][j] == log[j] {}
    if j :| 0 <= j < i && log[..i][j].Id() in log[i].plan.Sources() && log[i].cutoff == log[..i][j].cutoff {
      assert log[j].Id() in log[i].plan.Sources();
    }
  }

  lemma CutoffBehind(prior: seq<Entry>, e: Entry, sources: set<nat>)
    requires Follows(prior, e) && sources == e.plan.Sources()
    ensures forall j :: 0 <= j < |prior| && prior[j].Id() in sources ==> e.cutoff <= prior[j].cutoff
    ensures e.cutoff == e.plan.snapshot.sourceCutoffAt
            || exists j :: 0 <= j < |prior| && prior[j].Id() in sources && e.cutoff == prior[j].cutoff
  {}
}
