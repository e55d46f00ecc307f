/** Where published values come from: a rolled-back row repeats its baseline, which may itself repeat an
    earlier one. Along every such chain the claimed cutoff stays behind the snapshot at its start. */
module PublicationProvenance {
  import opened Statistics
  import opened Privacy
  import opened Baselines
  import opened Publication
  import opened PublicationHistory
  import opened PublicationTheorems

  /** The plan rolled the cohort back to its baseline. */
  ghost predicate CourseCarried(plan: Plan, k: CourseKey) {
    exists n :: 0 <= n < |plan.RawCourses()| && plan.RawCourses()[n].key == k
                && CourseSuppressed(plan.RawCourses()[n], plan.courseBase, plan.Forced(), plan.minimum)
  }

  ghost predicate InstructorCarried(plan: Plan, k: InstructorKey) {
    exists n :: 0 <= n < |plan.RawInstructors()| && plan.RawInstructors()[n].key == k
                && InstructorSuppressed(plan.RawInstructors()[n], plan.instructorBase, plan.minimum)
  }

  /** The values a cohort has in publication `i` were taken from the snapshot of publication `o`: they were
      carried from batch to batch, back to the first publication that did not roll them back. */
  ghost predicate CourseCameFrom(log: seq<Entry>, i: nat, k: CourseKey, o: nat)
    requires i < |log|
    decreases i
  {
    if CourseCarried(log[i].plan, k) then
      k in log[i].plan.courseBase
      && exists j :: 0 <= j < i && log[j].Id() == log[i].plan.courseBase[k].batchId && CourseCameFrom(log, j, k, o)
    else o == i
  }

  ghost predicate InstructorCameFrom(log: seq<Entry>, i: nat, k: InstructorKey, o: nat)
    requires i < |log|
    decreases i
  {
    if InstructorCarried(log[i].plan, k) then
      k in log[i].plan.instructorBase
      && exists j :: 0 <= j < i && log[j].Id() == log[i].plan.instructorBase[k].batchId
          && InstructorCameFrom(log, j, k, o)
    else o == i
  }

  // ----------------------------------------------------------- one publication

  lemma CarriedCourse(plan: Plan, row: CourseRow, rows: seq<CourseRow>)
    requires rows == plan.Courses() && row in rows && DistinctBy(rows, CourseKeyOf) && CourseCarried(plan, row.key)
    ensures row.key in plan.courseBase && row.stats == plan.courseBase[row.key].stats
    ensures plan.courseBase[row.key].batchId in plan.Sources()
  {
    var m :| 0 <= m < |plan.RawCourses()| && plan.RawCourses()[m].key == row.key
             && CourseSuppressed(plan.RawCourses()[m], plan.courseBase, plan.Forced(), plan.minimum);
    SameRow(rows, rows[m], row);
    CourseSourceListed(plan.RawCourses(), plan.courseBase, plan.Forced(), plan.minimum, m);
  }

  lemma FreshCourse(plan: Plan, row: CourseRow, rows: seq<CourseRow>)
    requires rows == plan.Courses() && row in rows && !CourseCarried(plan, row.key)
    ensures ReportsCourse(plan.snapshot, row.key, row.stats)
  {
    var n :| 0 <= n < |rows| && rows[n] == row;
    assert plan.RawCourses()[n].key == row.key;
    assert plan.snapshot.courses[n] in plan.snapshot.courses;
  }

  lemma CarriedInstructor(plan: Plan, row: InstructorRow, rows: seq<InstructorRow>)
    requires rows == plan.Instructors() && row in rows && DistinctBy(rows, InstructorKeyOf)
    requires InstructorCarried(plan, row.key)
    ensures row.key in plan.instructorBase && row.stats == plan.instructorBase[row.key].stats
    ensures row.classCount == plan.instructorBase[row.key].classCount
    ensures plan.instructorBase[row.key].batchId in plan.Sources()
  {
    var m :| 0 <= m < |plan.RawInstructors()| && plan.RawInstructors()[m].key == row.key
             && InstructorSuppressed(plan.RawInstructors()[m], plan.instructorBase, plan.minimum);
    SameInstructorRow(rows, rows[m], row);
    InstructorSourceListed(plan.RawInstructors(), plan.instructorBase, plan.minimum, m);
  }

  lemma FreshInstructor(plan: Plan, row: InstructorRow, rows: seq<InstructorRow>)
    requires rows == plan.Instructors() && row in rows && !InstructorCarried(plan, row.key)
    ensures ReportsInstructor(plan.snapshot, row.key, row.classCount, row.stats)
  {
    var n :| 0 <= n < |rows| && rows[n] == row;
    assert plan.RawInstructors()[n].key == row.key;
    assert plan.snapshot.instructors[n] in plan.snapshot.instructors;
  }

  // ------------------------------------------------------------- along the log

  /** The publication a carried row repeats, with no earlier cutoff of its own. */
  lemma CourseSource(log: seq<Entry>, i: nat, row: CourseRow) returns (j: nat)
    requires GoodLog(log) && i < |log| && row in log[i].rows.courses && CourseCarried(log[i].plan, row.key)
    ensures row.key in log[i].plan.courseBase && row.stats == log[i].plan.courseBase[row.key].stats
    ensures j < i && log[i].cutoff <= log[j].cutoff
    ensures var base := log[i].plan.courseBase[row.key];
            base.key == row.key && base in log[j].rows.courses && base.batchId == log[j].Id()
  {
    EntryPlanned(log, i);
    CarriedCourse(log[i].plan, row, log[i].rows.courses);
    j := CourseBaseline(log, i, row.key);
    assert log[..i][j] == log[j];
  }

  lemma InstructorSource(log: seq<Entry>, i: nat, row: InstructorRow) returns (j: nat)
    requires GoodLog(log) && i < |log| && row in log[i].rows.instructors && InstructorCarried(log[i].plan, row.key)
    ensures row.key in log[i].plan.instructorBase && row.stats == log[i].plan.instructorBase[row.key].stats
    ensures row.classCount == log[i].plan.instructorBase[row.key].classCount
    ensures j < i && log[i].cutoff <= log[j].cutoff
    ensures var base := log[i].plan.instructorBase[row.key];
            base.key == row.key && base in log[j].rows.instructors && base.batchId == log[j].Id()
  {
    EntryPlanned(log, i);
    CarriedInstructor(log[i].plan, row, log[i].rows.instructors);
    j := InstructorBaseline(log, i, row.key);
    assert log[..i][j] == log[j];
  }

  lemma {:induction false} CourseOrigin(log: seq<Entry>, i: nat, row: CourseRow) returns (o: nat)
    requires GoodLog(log) && i < |log| && row in log[i].rows.courses
    ensures CourseCameFrom(log, i, row.key, o)
    decreases i
  {
    if CourseCarried(log[i].plan, row.key) {
      var j := CourseSource(log, i, row);
      o := CourseOrigin(log, j, log[i].plan.courseBase[row.key]);
    } else {
      o := i;
    }
  }

  lemma {:induction false} InstructorOrigin(log: seq<Entry>, i: nat, row: InstructorRow) returns (o: nat)
    requires GoodLog(log) && i < |log| && row in log[i].rows.instructors
    ensures InstructorCameFrom(log, i, row.key, o)
    decreases i
  {
    if InstructorCarried(log[i].plan, row.key) {
      var j := InstructorSource(log, i, row);
      o := InstructorOrigin(log, j, log[i].plan.instructorBase[row.key]);
    } else {
      o := i;
    }
  }

  /** The snapshot of publication `o` reported the row's values, and the row's batch claims no later cutoff. */
  ghost predicate CourseVouched(log: seq<Entry>, i: nat, row: CourseRow, o: nat)
    requires i < |log|
  {
    o <= i && ReportsCourse(log[o].plan.snapshot, row.key, row.stats)
        && log[i].cutoff <= log[o].plan.snapshot.sourceCutoffAt
  }

  ghost predicate InstructorVouched(log: seq<Entry>, i: nat, row: InstructorRow, o: nat)
    requires i < |log|
  {
    o <= i && ReportsInstructor(log[o].plan.snapshot, row.key, row.classCount, row.stats)
    && log[i].cutoff <= log[o].plan.snapshot.sourceCutoffAt
  }

  /** The chain of a carried row goes on with the publication it repeats. */
  lemma CourseChainGoesOn(log: seq<Entry>, i: nat, k: CourseKey, j: nat, o: nat)
    requires DistinctIds(log) && j < i < |log| && CourseCameFrom(log, i, k, o) && CourseCarried(log[i].plan, k)
    requires k in log[i].plan.courseBase && log[j].Id() == log[i].plan.courseBase[k].batchId
    ensures CourseCameFrom(log, j, k, o)
  {
    var m :| 0 <= m < i && log[m].Id() == log[i].plan.courseBase[k].batchId && CourseCameFrom(log, m, k, o);
    assert m == j;
  }

  lemma {:induction false} CourseOriginVouches(log: seq<Entry>, i: nat, row: CourseRow, o: nat)
    requires GoodLog(log) && DistinctIds(log) && i < |log| && row in log[i].rows.courses
    requires CourseCameFrom(log, i, row.key, o)
    ensures CourseVouched(log, i, row, o)
    decreases i
  {
    if CourseCarried(log[i].plan, row.key) {
      var j := CourseSource(log, i, row);
      var base := log[i].plan.courseBase[row.key];
      CourseChainGoesOn(log, i, row.key, j, o);
      CourseOriginVouches(log, j, base, o);
    } else {
      CourseFreshVouches(log, i, row);
    }
  }

  lemma CourseFreshVouches(log: seq<Entry>, i: nat, row: CourseRow)
    requires GoodLog(log) && i < |log| && row in log[i].rows.courses && !CourseCarried(log[i].plan, row.key)
    ensures CourseVouched(log, i, row, i)
  {
    EntryPlanned(log, i);
    FreshCourse(log[i].plan, row, log[i].rows.courses);
  }


  /** The chain of a carried row goes on with the publication it repeats. */
  lemma InstructorChainGoesOn(log: seq<Entry>, i: nat, k: InstructorKey, j: nat, o: nat)
    requires DistinctIds(log) && j < i < |log| && InstructorCameFrom(log, i, k, o) && InstructorCarried(log[i].plan, k)
    requires k in log[i].plan.instructorBase && log[j].Id() == log[i].plan.instructorBase[k].batchId
    ensures InstructorCameFrom(log, j, k, o)
  {
    var m :| 0 <= m < i && log[m].Id() == log[i].plan.instructorBase[k].batchId && InstructorCameFrom(log, m, k, o);
    assert m == j;
  }

  lemma {:induction false} InstructorOriginVouches(log: seq<Entry>, i: nat, row: InstructorRow, o: nat)
    requires GoodLog(log) && DistinctIds(log) && i < |log| && row in log[i].rows.instructors
    requires InstructorCameFrom(log, i, row.key, o)
    ensures InstructorVouched(log, i, row, o)
    decreases i
  {
    if InstructorCarried(log[i].plan, row.key) {
      var j := InstructorSource(log, i, row);
      var base := log[i].plan.instructorBase[row.key];
      InstructorChainGoesOn(log, i, row.key, j, o);
      InstructorOriginVouches(log, j, base, o);
    } else {
      InstructorFreshVouches(log, i, row);
    }
  }

  lemma InstructorFreshVouches(log: seq<Entry>, i: nat, row: InstructorRow)
    requires GoodLog(log) && i < |log| && row in log[i].rows.instructors && !InstructorCarried(log[i].plan, row.key)
    ensures InstructorVouched(log, i, row, i)
  {
    EntryPlanned(log, i);
    FreshInstructor(log[i].plan, row, log[i].rows.instructors);
  }


  // ------------------------------------------------------------------ theorems

  /** In every run each published course row came from one snapshot, through any chain of carries; that
      snapshot reported its values, and the row's batch never claims a cutoff later than that snapshot's. */
  lemma CourseHonestCutoff(run: seq<History>, log: seq<Entry>, i: nat, row: CourseRow)
    requires Run(run) && log == run[|run| - 1].log && i < |log| && row in log[i].rows.courses
    ensures exists o :: CourseCameFrom(log, i, row.key, o)
    ensures forall o :: CourseCameFrom(log, i, row.key, o) ==> CourseVouched(log, i, row, o)
  {
    RunLog(run);
    var origin := CourseOrigin(log, i, row);
    forall o | CourseCameFrom(log, i, row.key, o) ensures CourseVouched(log, i, row, o) {
      CourseOriginVouches(log, i, row, o);
    }
  }

  /** The same for instructor rows, class counts included. */
  lemma InstructorHonestCutoff(run: seq<History>, log: seq<Entry>, i: nat, row: InstructorRow)
    requires Run(run) && log == run[|run| - 1].log && i < |log| && row in log[i].rows.instructors
    ensures exists o :: InstructorCameFrom(log, i, row.key, o)
    ensures forall o :: InstructorCameFrom(log, i, row.key, o) ==> InstructorVouched(log, i, row, o)
  {
    RunLog(run);
    var origin := InstructorOrigin(log, i, row);
    forall o | InstructorCameFrom(log, i, row.key, o) ensures InstructorVouched(log, i, row, o) {
      InstructorOriginVouches(log, i, row, o);
    }
  }
}
