/** A concrete run in which two batches finish in the same millisecond, the restarted one with the
    smaller ID last, and the next publication is compared with the wrong predecessor. */
module PublicationTies {
  import opened Wrappers
  import opened Statistics
  import opened Privacy
  import opened PrivacyExact
  import opened Projection
  import opened Baselines
  import opened Publication
  import opened PublicationHistory
  import opened PublicationTheorems

  const KEY := CourseKey(UNDERGRADUATE, "2025-2026-2", "C1")
  const MANUAL := Trigger("manual", Some(7), None, Some("task"))

  function Passes(n: int): Counts { Counts(n, n, 0, 0, 0, 0, 0, 0, 0, 0, 0, 0, 0, n, 0) }

  function SnapshotOf(n: int): Snapshot {
    Snapshot(1, n, [CourseAggregate(KEY, "2025 autumn", "2025-2026-2", "Course", Passes(n))], [])
  }

  function RowOf(id: nat, n: int): CourseRow { CourseRow(id, KEY, "2025 autumn", "2025-2026-2", "Course", Passes(n)) }

  function RateOf(n: int): CoursePassRate {
    CoursePassRate(ProjectionKey(KEY.level, KEY.code), "Course", 1, Passes(n))
  }

  function RowsOf(id: nat, n: int): Rows { Rows([RowOf(id, n)], [], [ProjectionRow(id, RateOf(n))]) }

  function EntryOf(id: nat, n: int, at: Time, base: map<CourseKey, CourseRow>): Entry {
    Entry(Plan(base, map[], 5, id, SnapshotOf(n)), at, RowsOf(id, n), 1)
  }

  lemma OneRowProjection(id: nat, n: int)
    ensures IsProjection(RowsOf(id, n).projections, id, [RowOf(id, n)])
  {
    var row, values, k := RowOf(id, n), [RowOf(id, n)], ProjectionKey(KEY.level, KEY.code);
    assert values[..0] == [] && KeyOf(row) == k;
    assert row in values;
    assert Keys(values) == {k};
    assert Sums(values, k) == ZERO.Plus(Passes(n)) == Passes(n);
    assert MaxName(values[..0], k) == None && TermCount(values[..0], k) == 0;
    assert MaxName(values, k) == Some("Course") && TermCount(values, k) == 1;
    assert GroupRow(values, k) == RateOf(n);
    assert RowsOf(id, n).projections[0].rate.key == k;
  }

  /** A publication whose cohort moved by at least five students is published as reported. */
  lemma PlanReports(id: nat, n: int, base: map<CourseKey, CourseRow>)
    requires KEY in base ==> exists b, m :: base[KEY] == RowOf(b, m) && Abs(n - m) >= 5
    ensures var plan := EntryOf(id, n, 0, base).plan;
            plan.Courses() == [RowOf(id, n)] && plan.Instructors() == [] && plan.Sources() == {}
  {
    var plan := EntryOf(id, n, 0, base).plan;
    if KEY in base {
      var b, m :| base[KEY] == RowOf(b, m) && Abs(n - m) >= 5;
      UnsafeExactlyWhenNotSpaced(Passes(m), Passes(n), 5);
    }
    assert plan.RawInstructors() == [];
    assert plan.RawCourses() == [RowOf(id, n)];
    assert plan.RawCourses()[..0] == [];
    assert !CourseSuppressed(RowOf(id, n), base, plan.Forced(), 5);
    assert CourseSources([RowOf(id, n)], base, plan.Forced(), 5)
        == CourseSources([RowOf(id, n)][..0], base, plan.Forced(), 5);
    assert CourseSources([], base, plan.Forced(), 5) == {} && InstructorSources([], map[], 5) == {};
  }

  function PublishedAs(b: Batch, n: int, at: Time): Batch {
    PublishedBatch(b, 1, SnapshotOf(n), 1, LiveCount(RowsOf(b.id, n).projections, UNRESTRICTED, 5), 5, 0, at)
  }

  function AfterPublishing(db: Db, id: nat, n: int, at: Time): Db
    requires id in db.batches
  {
    Db(db.batches[id := PublishedAs(db.batches[id], n, at)], db.rows[id := RowsOf(id, n)], db.nextId)
  }

  lemma PublishOne(db: Db, id: nat, n: int, at: Time, base: map<CourseKey, CourseRow>)
    requires IsRunning(db, id) && db.batches[id].id == id
    requires KEY in base ==> exists b, m :: base[KEY] == RowOf(b, m) && Abs(n - m) >= 5
    requires IsBaselines(db.batches, CourseTable(db.rows), CourseKeyOf, CourseBatchOf, base)
    requires forall b :: b in db.rows ==> db.rows[b].instructors == []
    ensures Publishes(db, AfterPublishing(db, id, n, at), EntryOf(id, n, at, base).plan, at, RowsOf(id, n), 1)
  {
    PlanReports(id, n, base);
    OneRowProjection(id, n);
    var e := EntryOf(id, n, at, base);
    assert e.plan == EntryOf(id, n, 0, base).plan;
    forall b, k | Holds(InstructorTable(db.rows), InstructorKeyOf, b, k) ensures false {}
    assert ReadsBaselines(db, e.plan);
  }

  const B1: Batch := NewBatch(1, MANUAL, 0, 0, 0, 5)
  const B1_FAILED: Batch := B1.(status := Failed, errorSummary := Some(ABANDONED_SUMMARY), finishedAt := Some(0))
  const B2: Batch := NewBatch(2, ScheduledTrigger(), 0, 0, 0, 5)
  const B3: Batch := NewBatch(3, ScheduledTrigger(), 0, 0, 0, 5)
  const BASE: map<CourseKey, CourseRow> := map[KEY := RowOf(2, 10)]
  const E2: Entry := EntryOf(2, 10, 10, map[])
  const E1: Entry := EntryOf(1, 20, 10, BASE)
  const E3: Entry := EntryOf(3, 18, 20, BASE)

  const D1: Db := Db(map[1 := B1], map[], 2)
  const D2: Db := Db(map[1 := B1_FAILED, 2 := B2], map[], 3)
  const D3: Db := AfterPublishing(D2, 2, 10, 10)
  const D4: Db := D3.(batches := D3.batches[1 := B1])
  const D5: Db := AfterPublishing(D4, 1, 20, 10)
  const D6: Db := Db(D5.batches[3 := B3], D5.rows, 4)
  const D7: Db := AfterPublishing(D6, 3, 18, 20)

  /** Some run ends in the state. */
  ghost predicate Reachable(h: History) { exists run :: Run(run) && run[|run| - 1] == h }

  lemma StepReaches(h: History, h': History)
    requires Reachable(h) && Step(h, h')
    ensures Reachable(h')
  {
    var run :| Run(run) && run[|run| - 1] == h;
    var longer := run + [h'];
    forall i | 0 <= i < |longer| - 1 ensures Step(longer[i], longer[i + 1]) {
      assert i < |run| - 1 ==> longer[i] == run[i] && longer[i + 1] == run[i + 1];
    }
    assert Run(longer) && longer[|longer| - 1] == h';
  }

  lemma StartReaches(db: Db, db': Db, log: seq<Entry>, trigger: Trigger, id: nat)
    requires Reachable(History(db, log)) && Starts(db, db', trigger, 0, 0, 0, 5, id)
    ensures Reachable(History(db', log))
  {
    assert StepStart(History(db, log), History(db', log));
    StepReaches(History(db, log), History(db', log));
  }

  lemma FirstTwoStart()
    ensures Reachable(History(D2, []))
  {
    var start := [History(EMPTY, [])];
    assert Run(start) && start[|start| - 1] == History(EMPTY, []);
    assert Recovered(EMPTY.batches, 0) == map[];
    StartReaches(EMPTY, D1, [], MANUAL, 1);
    assert Recovered(D1.batches, 0) == map[1 := B1_FAILED];
    StartReaches(D1, D2, [], ScheduledTrigger(), 2);
  }

  lemma NothingRunning()
    ensures Recovered(D3.batches, 0) == D3.batches && CarriesTask(D3.batches, MANUAL.taskId, 1)
  {}

  lemma RestartOfFirst()
    ensures Starts(D3, D4, MANUAL, 0, 0, 0, 5, 1)
  {
    NothingRunning();
    assert D3.batches[1] == B1_FAILED && ResetBatch(B1_FAILED, B1) == B1;
    assert Restarted(D3.batches, 1, B1) == D3.batches[1 := B1];
  }

  lemma FirstRestarts()
    ensures Reachable(History(D4, [E2]))
  {
    SecondPublishes();
    RestartOfFirst();
    StartReaches(D3, D4, [E2], MANUAL, 1);
  }

  lemma StartOfThird()
    ensures Starts(D5, D6, ScheduledTrigger(), 0, 0, 0, 5, 3)
  {
    assert Recovered(D5.batches, 0) == D5.batches;
  }

  lemma ThirdStarts()
    ensures Reachable(History(D6, [E2, E1]))
  {
    FirstPublishes();
    StartOfThird();
    StartReaches(D5, D6, [E2, E1], ScheduledTrigger(), 3);
  }

  lemma BaseBeforeFirst()
    ensures IsBaselines(D4.batches, CourseTable(D4.rows), CourseKeyOf, CourseBatchOf, BASE)
  {
  }

  lemma BaseBeforeThird()
    ensures IsBaselines(D6.batches, CourseTable(D6.rows), CourseKeyOf, CourseBatchOf, BASE)
  {
  }

  lemma PublishReaches(db: Db, id: nat, n: int, at: Time, base: map<CourseKey, CourseRow>, log: seq<Entry>)
    requires Reachable(History(db, log)) && IsRunning(db, id) && db.batches[id].id == id
    requires KEY in base ==> exists b, m :: base[KEY] == RowOf(b, m) && Abs(n - m) >= 5
    requires IsBaselines(db.batches, CourseTable(db.rows), CourseKeyOf, CourseBatchOf, base)
    requires forall b :: b in db.rows ==> db.rows[b].instructors == []
    ensures Reachable(History(AfterPublishing(db, id, n, at), log + [EntryOf(id, n, at, base)]))
  {
    PublishOne(db, id, n, at, base);
    var h, h' := History(db, log), History(AfterPublishing(db, id, n, at), log + [EntryOf(id, n, at, base)]);
    assert StepPublish(h, h', EntryOf(id, n, at, base));
    StepReaches(h, h');
  }

  lemma SecondPublishes()
    ensures Reachable(History(D3, [E2]))
  {
    FirstTwoStart();
    PublishReaches(D2, 2, 10, 10, map[], []);
    assert [] + [E2] == [E2];
  }

  lemma FirstPublishes()
    ensures Reachable(History(D5, [E2, E1]))
  {
    FirstRestarts();
    BaseBeforeFirst();
    assert BASE[KEY] == RowOf(2, 10) && Abs(20 - 10) >= 5;
    PublishReaches(D4, 1, 20, 10, BASE, [E2]);
    assert [E2] + [E1] == [E2, E1];
  }

  lemma ThirdPublishes()
    ensures Reachable(History(D7, [E2, E1, E3]))
  {
    ThirdStarts();
    ThirdReady();
    PublishReaches(D6, 3, 18, 20, BASE, [E2, E1]);
    assert [E2, E1] + [E3] == [E2, E1, E3];
  }

  lemma ThirdReady()
    ensures IsRunning(D6, 3) && D6.batches[3].id == 3
    ensures KEY in BASE ==> exists b, m :: BASE[KEY] == RowOf(b, m) && Abs(18 - m) >= 5
    ensures IsBaselines(D6.batches, CourseTable(D6.rows), CourseKeyOf, CourseBatchOf, BASE)
    ensures forall b :: b in D6.rows ==> D6.rows[b].instructors == []
  {
    BaseBeforeThird();
    assert BASE[KEY] == RowOf(2, 10) && Abs(18 - 10) >= 5;
  }

  /** Publish times that merely never decrease do not guarantee spacing: batch 2 publishes 10 passes,
      the restarted batch 1 publishes 20 in the same millisecond, and batch 3, compared with batch 2,
      publishes 18, two away from the cohort's last publication although the minimum is five.  The last row is
      spaced from the baseline, but the baseline is not alike. */
  lemma TiedPublicationsBreakSpacing()
    ensures var log := [E2, E1, E3];
            && Reachable(History(D7, log))
            && (forall i, j :: 0 <= i < j < |log| ==> log[i].at <= log[j].at)
            && LastCourseHolder(log, 1, 2, KEY) && RowOf(1, 20) in log[1].rows.courses
                && RowOf(3, 18) in log[2].rows.courses
            && RowOf(1, 20).stats.valid >= log[2].plan.minimum
            && !Spaced(RowOf(1, 20).stats, RowOf(3, 18).stats, log[2].plan.minimum)
            && !OutranksEarlierCourse(log, 1, KEY)
            && log[2].plan.courseBase[KEY] == RowOf(2, 10)
            && Spaced(RowOf(1, 20).stats, RowOf(2, 10).stats, log[2].plan.minimum)
            && !Alike(RowOf(1, 20).stats, RowOf(2, 10).stats, log[2].plan.minimum)
  {
    ThirdPublishes();
    TiesAreNotSpaced();
  }

  lemma TiesAreNotSpaced()
    ensures var log := [E2, E1, E3];
            && (forall i, j :: 0 <= i < j < |log| ==> log[i].at <= log[j].at)
            && LastCourseHolder(log, 1, 2, KEY) && RowOf(1, 20) in log[1].rows.courses
                && RowOf(3, 18) in log[2].rows.courses
            && RowOf(1, 20).stats.valid >= log[2].plan.minimum
            && !Spaced(RowOf(1, 20).stats, RowOf(3, 18).stats, log[2].plan.minimum)
            && !OutranksEarlierCourse(log, 1, KEY)
            && log[2].plan.courseBase[KEY] == RowOf(2, 10)
            && Spaced(RowOf(1, 20).stats, RowOf(2, 10).stats, log[2].plan.minimum)
            && !Alike(RowOf(1, 20).stats, RowOf(2, 10).stats, log[2].plan.minimum)
  {
    var log := [E2, E1, E3];
    assert RowOf(2, 10) in log[0].rows.courses && HoldsCourse(log[0], KEY) && !Outranks(log[1], log[0]);
    assert RowOf(1, 20) in log[1].rows.courses;
    assert !Steps(20, 18, 5);
  }
}
