/** When readers can rely on spacing.  A publication is compared with the cohort's baseline, readers compare it with
    the cohort's last row: whatever valid snapshot comes next, the two agree exactly when the baseline is alike. */
module PublicationSpacing {
  import opened Statistics
  import opened Privacy
  import opened PrivacyExact
  import opened Publication
  import opened PublicationHistory
  import opened PublicationTheorems
  import opened PublicationProvenance

  /** The same publication, given another snapshot. */
  function Given(plan: Plan, s: Snapshot): Plan { plan.(snapshot := s) }

  /** Whatever valid snapshot the publication is given, the cohort's new row is spaced from these counts. */
  ghost predicate CourseAlwaysSpaced(plan: Plan, k: CourseKey, last: Counts) {
    forall s: Snapshot, row :: ValidSnapshot(s) && row in Given(plan, s).Courses() && row.key == k ==>
      Spaced(last, row.stats, plan.minimum)
  }

  ghost predicate InstructorAlwaysSpaced(plan: Plan, k: InstructorKey, last: Counts) {
    forall s: Snapshot, row :: ValidSnapshot(s) && row in Given(plan, s).Instructors() && row.key == k ==>
      Spaced(last, row.stats, plan.minimum)
  }

  // ---------------------------------------------------------- one publication

  /** A published row is its baseline, or the counts an unforced row is published with. */
  lemma CourseAsRolled(plan: Plan, row: CourseRow)
    requires row in plan.Courses() && row.key in plan.courseBase
    ensures var base := plan.courseBase[row.key].stats;
            || row.stats == base
            || exists reported :: row.stats == Rolled(base, reported, plan.minimum)
  {
    var n :| 0 <= n < |plan.Courses()| && plan.Courses()[n] == row;
    var raw := plan.RawCourses()[n];
    assert row == SuppressCourse(raw, plan.courseBase, plan.Forced(), plan.minimum);
    assert row.stats == plan.courseBase[row.key].stats
        || row.stats == Rolled(plan.courseBase[row.key].stats, raw.stats, plan.minimum);
  }

  lemma InstructorAsRolled(plan: Plan, row: InstructorRow)
    requires row in plan.Instructors() && row.key in plan.instructorBase
    ensures exists reported :: row.stats == Rolled(plan.instructorBase[row.key].stats, reported, plan.minimum)
  {
    var n :| 0 <= n < |plan.Instructors()| && plan.Instructors()[n] == row;
    var raw := plan.RawInstructors()[n];
    assert row == SuppressInstructor(raw, plan.instructorBase, plan.minimum);
    assert row.stats == Rolled(plan.instructorBase[row.key].stats, raw.stats, plan.minimum);
  }

  lemma AlikeCourseSpaced(plan: Plan, row: CourseRow, last: Counts)
    requires plan.minimum >= 1 && row in plan.Courses() && row.key in plan.courseBase
    requires last.valid >= plan.minimum && Alike(last, plan.courseBase[row.key].stats, plan.minimum)
    ensures Spaced(last, row.stats, plan.minimum)
  {
    var base := plan.courseBase[row.key].stats;
    CourseAsRolled(plan, row);
    AlikeIsSpaced(last, base, plan.minimum);
    if row.stats != base {
      var reported :| row.stats == Rolled(base, reported, plan.minimum);
      AlikeSpaces(last, base, reported, plan.minimum);
    }
  }

  lemma AlikeInstructorSpaced(plan: Plan, row: InstructorRow, last: Counts)
    requires plan.minimum >= 1 && row in plan.Instructors() && row.key in plan.instructorBase
    requires last.valid >= plan.minimum && Alike(last, plan.instructorBase[row.key].stats, plan.minimum)
    ensures Spaced(last, row.stats, plan.minimum)
  {
    InstructorAsRolled(plan, row);
    var base := plan.instructorBase[row.key].stats;
    var reported :| row.stats == Rolled(base, reported, plan.minimum);
    AlikeSpaces(last, base, reported, plan.minimum);
  }

  /** A snapshot of one course reporting these counts. */
  function CourseReport(c: CourseAggregate, stats: Counts): Snapshot { Snapshot(0, 1, [c.(stats := stats)], []) }

  lemma CourseReportPublishes(plan: Plan, c: CourseAggregate, stats: Counts)
    requires c.key in plan.courseBase
    ensures var row := CourseEntity(plan.batchId, c).(
              stats := Rolled(plan.courseBase[c.key].stats, stats, plan.minimum));
            row in Given(plan, CourseReport(c, stats)).Courses()
  {
    var next := Given(plan, CourseReport(c, stats));
    assert next.RawInstructors() == [] && next.Forced() == {};
    assert next.RawCourses()[0] == CourseEntity(plan.batchId, c.(stats := stats));
    assert next.Courses()[0] in next.Courses();
  }

  /** A snapshot of one instructor, and the course it belongs to. */
  function InstructorReport(c: InstructorAggregate, stats: Counts): Snapshot {
    Snapshot(0, 1, [CourseAggregate(c.key.Course(), c.termLabel, c.termCode, c.courseName, c.stats)],
             [c.(stats := stats)])
  }

  lemma InstructorReportPublishes(plan: Plan, c: InstructorAggregate, stats: Counts) returns (row: InstructorRow)
    requires c.key in plan.instructorBase
    ensures row in Given(plan, InstructorReport(c, stats)).Instructors() && row.key == c.key
    ensures row.stats == Rolled(plan.instructorBase[c.key].stats, stats, plan.minimum)
  {
    var next := Given(plan, InstructorReport(c, stats));
    assert next.RawInstructors()[0] == InstructorEntity(plan.batchId, c.(stats := stats));
    row := next.Instructors()[0];
  }

  /** Spacing from any valid counts, for one publication of a course that some valid snapshot reports. */
  lemma CourseSpacedExactly(plan: Plan, c: CourseAggregate, last: Counts)
    requires plan.minimum >= 1 && ValidCourse(c) && c.key in plan.courseBase
    requires ValidCounts(last) && last.valid >= plan.minimum && ValidCounts(plan.courseBase[c.key].stats)
    ensures CourseAlwaysSpaced(plan, c.key, last) <==> Alike(last, plan.courseBase[c.key].stats, plan.minimum)
  {
    var base := plan.courseBase[c.key].stats;
    if Alike(last, base, plan.minimum) {
      forall s: Snapshot, row | ValidSnapshot(s) && row in Given(plan, s).Courses() && row.key == c.key
        ensures Spaced(last, row.stats, plan.minimum)
      {
        AlikeCourseSpaced(Given(plan, s), row, last);
      }
    } else {
      var bad := Breaking(last, base, plan.minimum);
      BreakingBreaks(last, base, plan.minimum);
      CourseReportPublishes(plan, c, bad);
      assert ValidSnapshot(CourseReport(c, bad));
    }
  }

  lemma InstructorSpacedExactly(plan: Plan, c: InstructorAggregate, last: Counts)
    requires plan.minimum >= 1 && ValidInstructor(c) && c.key in plan.instructorBase
    requires ValidCounts(last) && last.valid >= plan.minimum && ValidCounts(plan.instructorBase[c.key].stats)
    ensures InstructorAlwaysSpaced(plan, c.key, last) <==> Alike(last, plan.instructorBase[c.key].stats, plan.minimum)
  {
    var base := plan.instructorBase[c.key].stats;
    if Alike(last, base, plan.minimum) {
      forall s: Snapshot, row | ValidSnapshot(s) && row in Given(plan, s).Instructors() && row.key == c.key
        ensures Spaced(last, row.stats, plan.minimum)
      {
        AlikeInstructorSpaced(Given(plan, s), row, last);
      }
    } else {
      var bad := Breaking(last, base, plan.minimum);
      BreakingBreaks(last, base, plan.minimum);
      var row := InstructorReportPublishes(plan, c, bad);
      assert ValidSnapshot(InstructorReport(c, bad));
    }
  }

  /** A course forced back by one of its instructors repeats its large baseline, so there the baseline itself
      decides. */
  lemma ForcedCourseSpacedExactly(plan: Plan, row: CourseRow, last: Counts)
    requires row in plan.Courses() && row.key in plan.Forced() && row.key in plan.courseBase
    requires plan.courseBase[row.key].stats.valid >= plan.minimum
    ensures row.stats == plan.courseBase[row.key].stats
    ensures Spaced(last, row.stats, plan.minimum) <==> Spaced(last, plan.courseBase[row.key].stats, plan.minimum)
  {
    var n :| 0 <= n < |plan.Courses()| && plan.Courses()[n] == row;
    assert row == SuppressCourse(plan.RawCourses()[n], plan.courseBase, plan.Forced(), plan.minimum);
  }

  // ------------------------------------------------------------ along every run

  /** Every publication was given a snapshot that passed validation. */
  ghost predicate ValidatedLog(log: seq<Entry>) {
    forall i :: 0 <= i < |log| ==> ValidSnapshot(log[i].plan.snapshot)
  }

  /** Each row of such a log is valid, and some valid aggregate was reported for its cohort. */
  lemma CourseReported(log: seq<Entry>, i: nat, row: CourseRow) returns (c: CourseAggregate)
    requires GoodLog(log) && DistinctIds(log) && ValidatedLog(log) && i < |log| && row in log[i].rows.courses
    ensures ValidCounts(row.stats) && ValidCourse(c) && c.key == row.key
  {
    var o := CourseOrigin(log, i, row);
    CourseOriginVouches(log, i, row, o);
    c :| c in log[o].plan.snapshot.courses && c.key == row.key && c.stats == row.stats;
  }

  lemma InstructorReported(log: seq<Entry>, i: nat, row: InstructorRow)
    returns (c: InstructorAggregate)
    requires GoodLog(log) && DistinctIds(log) && ValidatedLog(log) && i < |log| && row in log[i].rows.instructors
    ensures ValidCounts(row.stats) && ValidInstructor(c) && c.key == row.key
  {
    var o := InstructorOrigin(log, i, row);
    InstructorOriginVouches(log, i, row, o);
    c :| c in log[o].plan.snapshot.instructors && c.key == row.key
         && c.classCount == row.classCount && c.stats == row.stats;
  }

  /** Publication `q` of a run, and the last publication `p` of the course before it.  Whatever valid snapshot
      `q` is given, its row of the course is spaced from the last one: exactly when the baseline is alike.  That is
      so whenever the last publication outranks the earlier ones of the course. */
  lemma CourseSpacingExactly(run: seq<History>, log: seq<Entry>, p: nat, q: nat, k: CourseKey, last: CourseRow)
    requires Run(run) && log == run[|run| - 1].log && ValidatedLog(log)
    requires q < |log| && LastCourseHolder(log, p, q, k) && last in log[p].rows.courses && last.key == k
    requires last.stats.valid >= log[q].plan.minimum
    ensures k in log[q].plan.courseBase
    ensures CourseAlwaysSpaced(log[q].plan, k, last.stats)
            <==> Alike(last.stats, log[q].plan.courseBase[k].stats, log[q].plan.minimum)
    ensures OutranksEarlierCourse(log, p, k) ==> CourseAlwaysSpaced(log[q].plan, k, last.stats)
  {
    RunLog(run);
    EntryPlanned(log, q);
    BaselineIsLastExactlyWhenOutranking(log, p, q, k, last);
    var base := log[q].plan.courseBase[k];
    var j := CourseBaseline(log, q, k);
    assert log[..q][j] == log[j];
    var b := CourseReported(log, j, base);
    var c := CourseReported(log, p, last);
    CourseSpacedExactly(log[q].plan, c, last.stats);
  }

  /** The same for one instructor of one course. */
  lemma InstructorSpacingExactly(
    run: seq<History>, log: seq<Entry>, p: nat, q: nat, k: InstructorKey, last: InstructorRow)
    requires Run(run) && log == run[|run| - 1].log && ValidatedLog(log)
    requires q < |log| && LastInstructorHolder(log, p, q, k) && last in log[p].rows.instructors && last.key == k
    requires last.stats.valid >= log[q].plan.minimum
    ensures k in log[q].plan.instructorBase
    ensures InstructorAlwaysSpaced(log[q].plan, k, last.stats)
            <==> Alike(last.stats, log[q].plan.instructorBase[k].stats, log[q].plan.minimum)
    ensures OutranksEarlierInstructor(log, p, k) ==> InstructorAlwaysSpaced(log[q].plan, k, last.stats)
  {
    RunLog(run);
    EntryPlanned(log, q);
    InstructorBaselineIsLastExactlyWhenOutranking(log, p, q, k, last);
    var base := log[q].plan.instructorBase[k];
    var j := InstructorBaseline(log, q, k);
    assert log[..q][j] == log[j];
    var b := InstructorReported(log, j, base);
    var c := InstructorReported(log, p, last);
    InstructorSpacedExactly(log[q].plan, c, last.stats);
  }
}
