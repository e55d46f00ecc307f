/** What readers of the publication history are promised: privacy spacing, for every run. */
module PublicationTheorems {
  import opened Statistics
  import opened Privacy
  import opened Baselines
  import opened Publication
  import opened PublicationHistory

  // ------------------------------------------- one publication, row by row

  /** A published course row either repeats a large baseline, whose batch is listed as a source,
      or is what the snapshot reported; either way it is spaced from a large baseline. */
  lemma PlannedCourse(plan: Plan, row: CourseRow)
    requires row in plan.Courses() && plan.minimum >= 1
    ensures row.key in plan.courseBase && plan.courseBase[row.key].stats.valid >= plan.minimum
            ==> Spaced(plan.courseBase[row.key].stats, row.stats, plan.minimum)
    ensures ReportsCourse(plan.snapshot, row.key, row.stats)
            || (row.key in plan.courseBase && row.stats == plan.courseBase[row.key].stats
                && plan.courseBase[row.key].batchId in plan.Sources())
  {
    var n :| 0 <= n < |plan.Courses()| && plan.Courses()[n] == row;
    var raw := plan.RawCourses()[n];
    assert row == SuppressCourse(raw, plan.courseBase, plan.Forced(), plan.minimum);
    if CourseSuppressed(raw, plan.courseBase, plan.Forced(), plan.minimum) {
      CourseSourceListed(plan.RawCourses(), plan.courseBase, plan.Forced(), plan.minimum, n);
    } else {
      assert plan.snapshot.courses[n] in plan.snapshot.courses;
      if row.key in plan.courseBase {
        UnsafeExactlyWhenNotSpaced(plan.courseBase[row.key].stats, row.stats, plan.minimum);
      }
    }
  }

  lemma PlannedInstructor(plan: Plan, row: InstructorRow)
    requires row in plan.Instructors() && plan.minimum >= 1
    ensures row.key in plan.instructorBase && plan.instructorBase[row.key].stats.valid >= plan.minimum
            ==> Spaced(plan.instructorBase[row.key].stats, row.stats, plan.minimum)
    ensures ReportsInstructor(plan.snapshot, row.key, row.classCount, row.stats)
            || (row.key in plan.instructorBase && row.stats == plan.instructorBase[row.key].stats
                && row.classCount == plan.instructorBase[row.key].classCount
                && plan.instructorBase[row.key].batchId in plan.Sources())
  {
    var n :| 0 <= n < |plan.Instructors()| && plan.Instructors()[n] == row;
    var raw := plan.RawInstructors()[n];
    assert row == SuppressInstructor(raw, plan.instructorBase, plan.minimum);
    if InstructorSuppressed(raw, plan.instructorBase, plan.minimum) {
      InstructorSourceListed(plan.RawInstructors(), plan.instructorBase, plan.minimum, n);
    } else {
      assert plan.snapshot.instructors[n] in plan.snapshot.instructors;
      if row.key in plan.instructorBase {
        UnsafeExactlyWhenNotSpaced(plan.instructorBase[row.key].stats, row.stats, plan.minimum);
      }
    }
  }

  lemma {:induction false} CourseSourceListed(
    rows: seq<CourseRow>, base: map<CourseKey, CourseRow>, forced: set<CourseKey>, minimum: int, n: nat)
    requires n < |rows| && CourseSuppressed(rows[n], base, forced, minimum)
    ensures base[rows[n].key].batchId in CourseSources(rows, base, forced, minimum)
  {
    if n < |rows| - 1 { CourseSourceListed(rows[..|rows| - 1], base, forced, minimum, n); }
  }

  lemma {:induction false} InstructorSourceListed(
    rows: seq<InstructorRow>, base: map<InstructorKey, InstructorRow>, minimum: int, n: nat)
    requires n < |rows| && InstructorSuppressed(rows[n], base, minimum)
    ensures base[rows[n].key].batchId in InstructorSources(rows, base, minimum)
    ensures rows[n].key.Course() in ForcedCourses(rows, base, minimum)
  {
    if n < |rows| - 1 { InstructorSourceListed(rows[..|rows| - 1], base, minimum, n); }
  }

  lemma CourseBaseline(log: seq<Entry>, i: nat, k: CourseKey) returns (j: nat)
    requires GoodLog(log) && i < |log| && k in log[i].plan.courseBase
    ensures j < i && CourseBaseFrom(log[..i], k, log[i].plan.courseBase[k], j)
    ensures log[j].Id() in log[i].plan.Sources() ==> log[i].cutoff <= log[j].cutoff
  {
    assert Follows(log[..i], log[i]);
    j :| CourseBaseFrom(log[..i], k, log[i].plan.courseBase[k], j);
    assert log[..i][j] == log[j];
  }

  lemma InstructorBaseline(log: seq<Entry>, i: nat, k: InstructorKey) returns (j: nat)
    requires GoodLog(log) && i < |log| && k in log[i].plan.instructorBase
    ensures j < i && InstructorBaseFrom(log[..i], k, log[i].plan.instructorBase[k], j)
    ensures log[j].Id() in log[i].plan.Sources() ==> log[i].cutoff <= log[j].cutoff
  {
    assert Follows(log[..i], log[i]);
    j :| InstructorBaseFrom(log[..i], k, log[i].plan.instructorBase[k], j);
    assert log[..i][j] == log[j];
  }

  // ---------------------------------------------------------- privacy spacing

  ghost predicate DistinctIds(log: seq<Entry>) { forall i, j :: 0 <= i < j < |log| ==> log[i].Id() != log[j].Id() }

  /** The cohort's publication `p` ranks above the cohort's earlier ones: it finished strictly later than
      each, or in the same millisecond with a larger batch ID. Other cohorts do not matter. */
  ghost predicate OutranksEarlierCourse(log: seq<Entry>, p: nat, k: CourseKey) {
    p < |log| && forall i :: 0 <= i < p && HoldsCourse(log[i], k) ==> Outranks(log[p], log[i])
  }

  ghost predicate OutranksEarlierInstructor(log: seq<Entry>, p: nat, k: InstructorKey) {
    p < |log| && forall i :: 0 <= i < p && HoldsInstructor(log[i], k) ==> Outranks(log[p], log[i])
  }

  ghost predicate LastCourseHolder(log: seq<Entry>, p: nat, q: nat, k: CourseKey) {
    p < q <= |log| && HoldsCourse(log[p], k) && forall i :: p < i < q ==> !HoldsCourse(log[i], k)
  }

  ghost predicate LastInstructorHolder(log: seq<Entry>, p: nat, q: nat, k: InstructorKey) {
    p < q <= |log| && HoldsInstructor(log[p], k) && forall i :: p < i < q ==> !HoldsInstructor(log[i], k)
  }

  lemma SameRow(rows: seq<CourseRow>, a: CourseRow, b: CourseRow)
    requires DistinctBy(rows, CourseKeyOf) && a in rows && b in rows && a.key == b.key
    ensures a == b
  {
    assert CourseKeyOf(a) == CourseKeyOf(b);
  }

  lemma SameInstructorRow(rows: seq<InstructorRow>, a: InstructorRow, b: InstructorRow)
    requires DistinctBy(rows, InstructorKeyOf) && a in rows && b in rows && a.key == b.key
    ensures a == b
  {
    assert InstructorKeyOf(a) == InstructorKeyOf(b);
  }

  /** The baseline publication `q` compares a cohort with is that cohort's last publication
      exactly when the last publication outranks every earlier one of the cohort. */
  lemma BaselineIsLastExactlyWhenOutranking(log: seq<Entry>, p: nat, q: nat, k: CourseKey, last: CourseRow)
    requires GoodLog(log) && DistinctIds(log) && q < |log| && LastCourseHolder(log, p, q, k)
    requires last in log[p].rows.courses && last.key == k
    ensures k in log[q].plan.courseBase
    ensures log[q].plan.courseBase[k] == last <==> OutranksEarlierCourse(log, p, k)
  {
    var base := log[q].plan.courseBase[k];
    var j := CourseBaseline(log, q, k);
    assert HoldsCourse(log[j], k) by { assert log[..q][j] == log[j]; }
    assert last.batchId == log[p].Id() && base.batchId == log[j].Id();
    if j == p {
      SameRow(log[p].rows.courses, base, last);
      forall i | 0 <= i < p && HoldsCourse(log[i], k) ensures Outranks(log[p], log[i]) { assert log[..q][i] == log[i]; }
    } else {
      assert j < p && log[..q][p] == log[p] && Outranks(log[j], log[p]);
    }
  }

  lemma InstructorBaselineIsLastExactlyWhenOutranking(
    log: seq<Entry>, p: nat, q: nat, k: InstructorKey, last: InstructorRow)
    requires GoodLog(log) && DistinctIds(log) && q < |log| && LastInstructorHolder(log, p, q, k)
    requires last in log[p].rows.instructors && last.key == k
    ensures k in log[q].plan.instructorBase
    ensures log[q].plan.instructorBase[k] == last <==> OutranksEarlierInstructor(log, p, k)
  {
    var base := log[q].plan.instructorBase[k];
    var j := InstructorBaseline(log, q, k);
    assert HoldsInstructor(log[j], k) by { assert log[..q][j] == log[j]; }
    assert last.batchId == log[p].Id() && base.batchId == log[j].Id();
    if j == p {
      SameInstructorRow(log[p].rows.instructors, base, last);
      forall i | 0 <= i < p && HoldsInstructor(log[i], k)
        ensures Outranks(log[p], log[i])
      {
        assert log[..q][i] == log[i];
      }
    } else {
      assert j < p && log[..q][p] == log[p] && Outranks(log[j], log[p]);
    }
  }

  /** Consecutive publications of one course cohort are spaced by the later one's minimum sample, provided
      the earlier one outranks the cohort's publications before it. */
  lemma CourseSpacing(log: seq<Entry>, p: nat, q: nat, k: CourseKey, before: CourseRow, after: CourseRow)
    requires GoodLog(log) && DistinctIds(log) && q < |log|
    requires LastCourseHolder(log, p, q, k) && OutranksEarlierCourse(log, p, k)
    requires before in log[p].rows.courses && before.key == k
    requires after in log[q].rows.courses && after.key == k
    requires before.stats.valid >= log[q].plan.minimum
    ensures Spaced(before.stats, after.stats, log[q].plan.minimum)
  {
    BaselineIsLastExactlyWhenOutranking(log, p, q, k, before);
    EntryPlanned(log, q);
    PlannedCourse(log[q].plan, after);
  }

  /** The same for one instructor of one course. */
  lemma InstructorSpacing(
    log: seq<Entry>, p: nat, q: nat, k: InstructorKey, before: InstructorRow, after: InstructorRow)
    requires GoodLog(log) && DistinctIds(log) && q < |log|
    requires LastInstructorHolder(log, p, q, k) && OutranksEarlierInstructor(log, p, k)
    requires before in log[p].rows.instructors && before.key == k
    requires after in log[q].rows.instructors && after.key == k
    requires before.stats.valid >= log[q].plan.minimum
    ensures Spaced(before.stats, after.stats, log[q].plan.minimum)
  {
    InstructorBaselineIsLastExactlyWhenOutranking(log, p, q, k, before);
    EntryPlanned(log, q);
    PlannedInstructor(log[q].plan, after);
  }

  lemma EntryPlanned(log: seq<Entry>, i: nat)
    requires GoodLog(log) && i < |log|
    ensures log[i].plan.minimum >= 1 && RowsFiled(log[i].Id(), log[i].rows)
    ensures log[i].rows.courses == log[i].plan.Courses() && log[i].rows.instructors == log[i].plan.Instructors()
    ensures log[i].cutoff <= log[i].plan.snapshot.sourceCutoffAt
  {
    assert Follows(log[..i], log[i]);
  }

  /** Spacing over runs: any two publications of a course cohort with none of it in between. */
  lemma PrivacySpacing(run: seq<History>, p: nat, q: nat, k: CourseKey, before: CourseRow, after: CourseRow)
    requires Run(run)
    requires var log := run[|run| - 1].log;
             && q < |log| && LastCourseHolder(log, p, q, k) && OutranksEarlierCourse(log, p, k)
             && before in log[p].rows.courses && before.key == k && after in log[q].rows.courses && after.key == k
             && before.stats.valid >= log[q].plan.minimum
    ensures Spaced(before.stats, after.stats, run[|run| - 1].log[q].plan.minimum)
  {
    RunLog(run);
    CourseSpacing(run[|run| - 1].log, p, q, k, before, after);
  }

  /** Spacing over runs for one instructor of one course. */
  lemma InstructorPrivacySpacing(
    run: seq<History>, p: nat, q: nat, k: InstructorKey, before: InstructorRow, after: InstructorRow)
    requires Run(run)
    requires var log := run[|run| - 1].log;
             && q < |log| && LastInstructorHolder(log, p, q, k) && OutranksEarlierInstructor(log, p, k)
             && before in log[p].rows.instructors && before.key == k && after in log[q].rows.instructors
                 && after.key == k
             && before.stats.valid >= log[q].plan.minimum
    ensures Spaced(before.stats, after.stats, run[|run| - 1].log[q].plan.minimum)
  {
    RunLog(run);
    InstructorSpacing(run[|run| - 1].log, p, q, k, before, after);
  }

  lemma RunLog(run: seq<History>)
    requires Run(run)
    ensures GoodLog(run[|run| - 1].log) && DistinctIds(run[|run| - 1].log)
  {
    EveryRunKeepsInv(run);
  }

  // ------------------------------------------------------- what a snapshot reports

  ghost predicate ReportsCourse(s: Snapshot, k: CourseKey, stats: Counts) {
    exists c :: c in s.courses && c.key == k && c.stats == stats
  }

  ghost predicate ReportsInstructor(s: Snapshot, k: InstructorKey, classCount: int, stats: Counts) {
    exists c :: c in s.instructors && c.key == k && c.classCount == classCount && c.stats == stats
  }

  /** A rolled-back instructor never leaves its course's totals exposed: the course row of the same
      publication repeats its baseline too, whenever that baseline is large enough. */
  lemma ForcedCourseRepeats(plan: Plan, n: nat, c: nat)
    requires n < |plan.snapshot.instructors| && c < |plan.snapshot.courses|
    requires var key := plan.snapshot.courses[c].key;
             && InstructorSuppressed(plan.RawInstructors()[n], plan.instructorBase, plan.minimum)
             && plan.RawInstructors()[n].key.Course() == key
             && key in plan.courseBase && plan.courseBase[key].stats.valid >= plan.minimum
    ensures plan.Courses()[c].stats == plan.courseBase[plan.snapshot.courses[c].key].stats
  {
    InstructorSourceListed(plan.RawInstructors(), plan.instructorBase, plan.minimum, n);
  }
}
