/** What each store transaction does to the database, as relations over whole databases. */
module Publication {
  import opened Wrappers
  import opened Statistics
  import opened Privacy
  import opened Projection
  import opened Baselines

  /** One batch's rows in the three statistics tables, in insertion order. */
  datatype Rows = Rows(courses: seq<CourseRow>, instructors: seq<InstructorRow>, projections: seq<ProjectionRow>)

  /** The batch table, and the statistics rows filed under their batch. */
  datatype Db = Db(batches: map<nat, Batch>, rows: map<nat, Rows>, nextId: nat)

  const EMPTY: Db := Db(map[], map[], 1)

  function CourseTable(rows: map<nat, Rows>): map<nat, seq<CourseRow>> { map id | id in rows :: rows[id].courses }

  function InstructorTable(rows: map<nat, Rows>): map<nat, seq<InstructorRow>> {
    map id | id in rows :: rows[id].instructors
  }

  const ABANDONED_SUMMARY := "aggregation worker terminated before completion"
  const FAILED_BATCH_RETENTION: Time := 90 * 24 * 3600 * 1000

  const CourseKeyOf: CourseRow -> CourseKey := (r: CourseRow) => r.key
  const CourseBatchOf: CourseRow -> nat := (r: CourseRow) => r.batchId
  const InstructorKeyOf: InstructorRow -> InstructorKey := (r: InstructorRow) => r.key
  const InstructorBatchOf: InstructorRow -> nat := (r: InstructorRow) => r.batchId

  // ------------------------------------------------------------ invariant

  ghost predicate TaskIdsUnique(batches: map<nat, Batch>) {
    forall a, b :: a in batches && b in batches && a != b && batches[a].trigger.taskId.Some?
                   ==> batches[a].trigger.taskId != batches[b].trigger.taskId
  }

  ghost predicate OneRunning(batches: map<nat, Batch>) {
    forall a, b :: a in batches && b in batches && batches[a].status == Running && batches[b].status == Running ==>
        a == b
  }

  predicate IsPublished(batches: map<nat, Batch>, id: nat) {
    id in batches && batches[id].status == Published
  }

  /** Rows filed under batch `id`, one per cohort. */
  ghost predicate RowsFiled(id: nat, rows: Rows) {
    && (forall r :: r in rows.courses ==> r.batchId == id) && DistinctBy(rows.courses, CourseKeyOf)
    && (forall r :: r in rows.instructors ==> r.batchId == id) && DistinctBy(rows.instructors, InstructorKeyOf)
    && IsProjection(rows.projections, id, rows.courses)
  }

  /** A published batch's summary agrees with its rows. */
  predicate SummaryAgrees(b: Batch, rows: Rows) {
    && b.publishedAt.Some? && b.finishedAt == b.publishedAt && b.errorSummary.None?
    && b.courseStatCount == |rows.courses| && b.instructorStatCount == |rows.instructors|
    && b.coursePassRateCount == LiveCount(rows.projections, UNRESTRICTED, b.minimumSampleSize)
  }

  ghost predicate BatchesInv(batches: map<nat, Batch>, nextId: nat) {
    && IdsMatch(batches) && (forall id :: id in batches ==> id < nextId)
    && OneRunning(batches) && TaskIdsUnique(batches)
  }

  ghost predicate RowsInv(db: Db) {
    && (forall id :: id in db.rows <==> IsPublished(db.batches, id))
    && (forall id :: id in db.rows ==> RowsFiled(id, db.rows[id]) && SummaryAgrees(db.batches[id], db.rows[id]))
  }

  /** The batch state machine's invariant. */
  ghost predicate Inv(db: Db) { BatchesInv(db.batches, db.nextId) && RowsInv(db) }

  ghost predicate CurrentRules(batches: map<nat, Batch>) {
    forall id :: id in batches ==> batches[id].ruleVersion == RULE_VERSION
  }

  // ----------------------------------------------------------- StartBatch

  /** UPDATE every running batch to failed. */
  function Swept(batches: map<nat, Batch>, at: Time): map<nat, Batch> {
    map id | id in batches ::
      if batches[id].status == Running
      then batches[id].(status := Failed, errorSummary := Some(ABANDONED_SUMMARY), finishedAt := Some(at))
      else batches[id]
  }

  /** DELETE failed batches created before the cutoff. */
  function Pruned(batches: map<nat, Batch>, cutoff: Time): map<nat, Batch> {
    map id | id in batches && !(batches[id].status == Failed && batches[id].createdAt < cutoff) :: batches[id]
  }

  function Recovered(batches: map<nat, Batch>, at: Time): map<nat, Batch> {
    Pruned(Swept(batches, at), at - FAILED_BATCH_RETENTION)
  }

  predicate CarriesTask(batches: map<nat, Batch>, task: Option<string>, id: nat) {
    task.Some? && id in batches && batches[id].trigger.taskId == task
  }

  function NewBatch(id: nat, trigger: Trigger, cutoff: Time, at: Time, createdAt: Time, minimum: int): Batch {
    Batch(id, Running, trigger, cutoff, RULE_VERSION, 0, 0, 0, minimum, 0, None, at, None, None, createdAt)
  }

  /** `resetBatch`: everything but the ID, the task ID and the creation time is renewed. */
  function ResetBatch(target: Batch, source: Batch): Batch {
    target.(status := source.status,
            trigger := source.trigger.(taskId := target.trigger.taskId),
            sourceCutoffAt := source.sourceCutoffAt, ruleVersion := source.ruleVersion,
            sourceRowCount := 0, courseStatCount := 0, coursePassRateCount := 0,
            minimumSampleSize := source.minimumSampleSize, instructorStatCount := 0,
            errorSummary := None, startedAt := source.startedAt, finishedAt := None, publishedAt := None)
  }

  /** The batch table once a batch carrying the task was found: published ones are left alone. */
  function Restarted(batches: map<nat, Batch>, id: nat, source: Batch): map<nat, Batch>
    requires id in batches
  {
    if batches[id].status == Published then batches else batches[id := ResetBatch(batches[id], source)]
  }

  /** The second half of StartBatch: reuse the batch carrying the task, or insert `source`. */
  ghost predicate StartsFrom(db: Db, db': Db, recovered: map<nat, Batch>, source: Batch) {
    if exists e :: CarriesTask(recovered, source.trigger.taskId, e) then
      CarriesTask(recovered, source.trigger.taskId, source.id)
      && db' == db.(batches := Restarted(recovered, source.id, source))
    else
      source.id == db.nextId
      && db' == db.(batches := recovered[source.id := source], nextId := source.id + 1)
  }

  /** One StartBatch transaction, answering with batch `id`. */
  ghost predicate Starts(
    db: Db, db': Db, trigger: Trigger, cutoff: Time, at: Time, createdAt: Time, minimum: int, id: nat) {
    StartsFrom(db, db', Recovered(db.batches, at), NewBatch(id, trigger, cutoff, at, createdAt, minimum))
  }

  // ------------------------------------------------------------ FailBatch

  function Truncate(s: string, limit: nat): string { if |s| <= limit then s else s[..limit] }

  function FailedDb(db: Db, id: nat, at: Time, summary: string): Db
    requires id in db.batches
  {
    db.(batches := db.batches[id := db.batches[id].(
          status := Failed, errorSummary := Some(Truncate(summary, 1000)), finishedAt := Some(at))])
  }

  predicate IsRunning(db: Db, id: nat) { id in db.batches && db.batches[id].status == Running }

  // --------------------------------------------------------- PublishBatch

  function CourseEntity(batchId: nat, c: CourseAggregate): CourseRow {
    CourseRow(batchId, c.key, c.termLabel, c.termCode, c.courseName, c.stats)
  }

  function InstructorEntity(batchId: nat, c: InstructorAggregate): InstructorRow {
    InstructorRow(batchId, c.key, c.termLabel, c.termCode, c.courseName, c.teacherName, c.classCount, c.stats)
  }

  function CourseEntities(batchId: nat, cs: seq<CourseAggregate>): seq<CourseRow> {
    seq(|cs|, i requires 0 <= i < |cs| => CourseEntity(batchId, cs[i]))
  }

  function InstructorEntities(batchId: nat, cs: seq<InstructorAggregate>): seq<InstructorRow> {
    seq(|cs|, i requires 0 <= i < |cs| => InstructorEntity(batchId, cs[i]))
  }

  /** What one publication reads and decides: the baselines and the rows left after suppression. */
  datatype Plan = Plan(
    courseBase: map<CourseKey, CourseRow>, instructorBase: map<InstructorKey, InstructorRow>,
    minimum: int, batchId: nat, snapshot: Snapshot)
  {
    function RawCourses(): seq<CourseRow> { CourseEntities(batchId, snapshot.courses) }
    function RawInstructors(): seq<InstructorRow> { InstructorEntities(batchId, snapshot.instructors) }
    function Forced(): set<CourseKey> { ForcedCourses(RawInstructors(), instructorBase, minimum) }
    function Courses(): seq<CourseRow> { SuppressCourses(RawCourses(), courseBase, Forced(), minimum) }
    function Instructors(): seq<InstructorRow> { SuppressInstructors(RawInstructors(), instructorBase, minimum) }
    /** The batches whose values were carried over. */
    function Sources(): set<nat> {
      InstructorSources(RawInstructors(), instructorBase, minimum)
      + CourseSources(RawCourses(), courseBase, Forced(), minimum)
    }
  }

  ghost predicate ReadsBaselines(db: Db, plan: Plan) {
    && IsBaselines(db.batches, CourseTable(db.rows), CourseKeyOf, CourseBatchOf, plan.courseBase)
    && IsBaselines(db.batches, InstructorTable(db.rows), InstructorKeyOf, InstructorBatchOf, plan.instructorBase)
  }

  /** `t` is the earliest of the snapshot's cutoff and the cutoffs of the listed batches. */
  ghost predicate IsEarliest(batches: map<nat, Batch>, ids: set<nat>, upper: Time, t: Time) {
    && t <= upper && (forall id :: id in ids ==> id in batches && t <= batches[id].sourceCutoffAt)
    && (t == upper || exists id :: id in ids && t == batches[id].sourceCutoffAt)
  }

  function PublishedBatch(
    b: Batch, cutoff: Time, snapshot: Snapshot, courseCount: int, rateCount: int, minimum: int, instructorCount: int,
    at: Time): Batch {
    b.(status := Published, sourceCutoffAt := cutoff, sourceRowCount := snapshot.sourceRowCount,
       courseStatCount := courseCount, coursePassRateCount := rateCount, minimumSampleSize := minimum,
       instructorStatCount := instructorCount, errorSummary := None, finishedAt := Some(at), publishedAt := Some(at))
  }

  /** One committed PublishBatch transaction, writing `rows` and the cutoff. */
  ghost predicate Publishes(db: Db, db': Db, plan: Plan, at: Time, rows: Rows, cutoff: Time) {
    var id := plan.batchId;
    && IsRunning(db, id) && ReadsBaselines(db, plan)
    && rows.courses == plan.Courses() && DistinctBy(rows.courses, CourseKeyOf)
    && rows.instructors == plan.Instructors() && DistinctBy(rows.instructors, InstructorKeyOf)
    && IsProjection(rows.projections, id, rows.courses)
    && IsEarliest(db.batches, plan.Sources(), plan.snapshot.sourceCutoffAt, cutoff)
    && db' == db.(
         rows := db.rows[id := rows],
         batches := db.batches[id := PublishedBatch(
           db.batches[id], cutoff, plan.snapshot, |rows.courses|,
           LiveCount(rows.projections, UNRESTRICTED, plan.minimum), plan.minimum, |rows.instructors|, at)])
  }

  // --------------------------------------------------- the invariant is kept

  /** Every published batch of `db` and all its rows are still there, unchanged. */
  ghost predicate PublishedFrozen(db: Db, db': Db) {
    forall id :: IsPublished(db.batches, id) ==> SamePublication(db, db', id)
  }

  ghost predicate SamePublication(db: Db, db': Db, id: nat) {
    && id in db.batches && id in db'.batches && db.batches[id] == db'.batches[id]
    && id in db.rows && id in db'.rows && db.rows[id] == db'.rows[id]
  }

  ghost predicate SamePublishedBatches(batches: map<nat, Batch>, batches': map<nat, Batch>) {
    forall id :: (IsPublished(batches, id) <==> IsPublished(batches', id))
                 && (IsPublished(batches, id) ==> batches[id] == batches'[id])
  }

  /** A transaction that writes only unpublished batches keeps rows and publications. */
  lemma UnpublishedWritesFrame(db: Db, batches': map<nat, Batch>, nextId': nat)
    requires RowsInv(db) && SamePublishedBatches(db.batches, batches')
    ensures var db' := db.(batches := batches', nextId := nextId'); RowsInv(db') && PublishedFrozen(db, db')
  {
  }

  lemma RecoveryKeepsBatches(batches: map<nat, Batch>, nextId: nat, at: Time)
    requires BatchesInv(batches, nextId)
    ensures BatchesInv(Recovered(batches, at), nextId)
    ensures SamePublishedBatches(batches, Recovered(batches, at))
    ensures forall a :: a in Recovered(batches, at) ==> Recovered(batches, at)[a].status != Running
  {
    var swept := Swept(batches, at);
    assert BatchesInv(swept, nextId);
    assert SamePublishedBatches(batches, swept);
    assert SamePublishedBatches(swept, Recovered(batches, at));
  }

  /** Writing one batch is harmless unless it runs beside, or shares its task with, another. */
  lemma WriteKeepsBatches(batches: map<nat, Batch>, nextId: nat, id: nat, b: Batch, nextId': nat)
    requires BatchesInv(batches, nextId) && nextId <= nextId' && id < nextId' && b.id == id
    requires b.status == Running ==> forall a :: a in batches && a != id ==> batches[a].status != Running
    requires b.trigger.taskId.Some? ==> forall a :: a in batches && a != id ==>
              batches[a].trigger.taskId != b.trigger.taskId
    ensures BatchesInv(batches[id := b], nextId')
  {}

  lemma RestartKeepsBatches(batches: map<nat, Batch>, nextId: nat, id: nat, source: Batch)
    requires BatchesInv(batches, nextId) && id in batches && source.status == Running
    requires forall a :: a in batches ==> batches[a].status != Running
    ensures BatchesInv(Restarted(batches, id, source), nextId)
    ensures SamePublishedBatches(batches, Restarted(batches, id, source))
    ensures Restarted(batches, id, source)[id].trigger.taskId == batches[id].trigger.taskId
    ensures Restarted(batches, id, source)[id].status
            == (if batches[id].status == Published then Published else Running)
  {
    if batches[id].status != Published {
      WriteKeepsBatches(batches, nextId, id, ResetBatch(batches[id], source), nextId);
    }
  }

  /** Reusing or creating a batch keeps the batch table sound and every published batch in it. */
  lemma StartFromKeepsBatches(db: Db, db': Db, recovered: map<nat, Batch>, source: Batch)
    requires BatchesInv(recovered, db.nextId) && forall a :: a in recovered ==> recovered[a].status != Running
    requires source.status == Running && StartsFrom(db, db', recovered, source)
    ensures BatchesInv(db'.batches, db'.nextId) && SamePublishedBatches(recovered, db'.batches) && db'.rows == db.rows
  {
    if exists e :: CarriesTask(recovered, source.trigger.taskId, e) {
      RestartKeepsBatches(recovered, db.nextId, source.id, source);
    } else {
      forall a | a in recovered && source.trigger.taskId.Some?
        ensures recovered[a].trigger.taskId != source.trigger.taskId
      {
        assert !CarriesTask(recovered, source.trigger.taskId, a);
      }
      WriteKeepsBatches(recovered, db.nextId, source.id, source, db'.nextId);
    }
  }

  lemma StartFromKeepsInv(db: Db, db': Db, recovered: map<nat, Batch>, source: Batch)
    requires RowsInv(db) && BatchesInv(recovered, db.nextId) && SamePublishedBatches(db.batches, recovered)
    requires forall a :: a in recovered ==> recovered[a].status != Running
    requires source.status == Running && StartsFrom(db, db', recovered, source)
    ensures Inv(db') && PublishedFrozen(db, db')
    ensures IsRunning(db', source.id) || IsPublished(db'.batches, source.id)
    ensures db'.batches[source.id].trigger.taskId == source.trigger.taskId
    ensures source.trigger.taskId.None? ==> source.id == db.nextId && IsRunning(db', source.id)
    ensures IsPublished(db'.batches, source.id) ==> IsPublished(db.batches, source.id)
  {
    StartFromKeepsBatches(db, db', recovered, source);
    assert SamePublishedBatches(db.batches, db'.batches);
    UnpublishedWritesFrame(db, db'.batches, db'.nextId);
  }

  lemma StartKeepsInv(db: Db, db': Db, trigger: Trigger, cutoff: Time, at: Time, createdAt: Time, minimum: int, id: nat)
    requires Inv(db) && Starts(db, db', trigger, cutoff, at, createdAt, minimum, id)
    ensures Inv(db') && PublishedFrozen(db, db')
    ensures IsRunning(db', id) || IsPublished(db'.batches, id)
    ensures db'.batches[id].trigger.taskId == trigger.taskId
    ensures trigger.taskId.None? ==> id == db.nextId && IsRunning(db', id)
    ensures IsPublished(db'.batches, id) ==> IsPublished(db.batches, id)
  {
    RecoveryKeepsBatches(db.batches, db.nextId, at);
    StartFromKeepsInv(db, db', Recovered(db.batches, at), NewBatch(id, trigger, cutoff, at, createdAt, minimum));
  }

  lemma StartOpensNothing(
    db: Db, db': Db, trigger: Trigger, cutoff: Time, at: Time, createdAt: Time, minimum: int, id: nat)
    requires Starts(db, db', trigger, cutoff, at, createdAt, minimum, id) && CurrentRules(db.batches)
    ensures CurrentRules(db'.batches)
    ensures forall a :: IsPublished(db'.batches, a) ==> IsPublished(db.batches, a)
  {
    var recovered := Recovered(db.batches, at);
    assert CurrentRules(recovered);
    assert forall a :: IsPublished(recovered, a) ==> IsPublished(db.batches, a);
  }

  lemma FailKeepsInv(db: Db, id: nat, at: Time, summary: string)
    requires Inv(db) && IsRunning(db, id)
    ensures Inv(FailedDb(db, id, at, summary)) && PublishedFrozen(db, FailedDb(db, id, at, summary))
  {
    var db' := FailedDb(db, id, at, summary);
    WriteKeepsBatches(db.batches, db.nextId, id, db'.batches[id], db.nextId);
    assert SamePublishedBatches(db.batches, db'.batches);
    UnpublishedWritesFrame(db, db'.batches, db.nextId);
  }

  /** Making an unpublished batch visible together with rows it agrees with. */
  lemma RevealKeepsRows(db: Db, id: nat, b: Batch, rows: Rows)
    requires RowsInv(db) && !IsPublished(db.batches, id) && b.status == Published
    requires RowsFiled(id, rows) && SummaryAgrees(b, rows)
    ensures RowsInv(db.(rows := db.rows[id := rows], batches := db.batches[id := b]))
  {
    var rows', batches' := db.rows[id := rows], db.batches[id := b];
    forall a ensures a in rows' <==> IsPublished(batches', a) {
      assert a in db.rows <==> IsPublished(db.batches, a);
    }
    forall a | a in rows' ensures RowsFiled(a, rows'[a]) && SummaryAgrees(batches'[a], rows'[a]) {
      assert a != id ==> a in db.rows;
    }
  }

  lemma RevealFreezes(db: Db, id: nat, b: Batch, rows: Rows)
    requires RowsInv(db) && !IsPublished(db.batches, id)
    ensures PublishedFrozen(db, db.(rows := db.rows[id := rows], batches := db.batches[id := b]))
  {}

  lemma PublishKeepsInv(db: Db, db': Db, plan: Plan, at: Time, rows: Rows, cutoff: Time)
    requires Inv(db) && Publishes(db, db', plan, at, rows, cutoff)
    ensures Inv(db') && PublishedFrozen(db, db') && IsPublished(db'.batches, plan.batchId)
  {
    var id := plan.batchId;
    WriteKeepsBatches(db.batches, db.nextId, id, db'.batches[id], db.nextId);
    PlannedRowsFiled(plan, rows);
    RevealKeepsRows(db, id, db'.batches[id], rows);
    RevealFreezes(db, id, db'.batches[id], rows);
  }

  /** Every batch a plan carries values from is published. */
  lemma PlannedSourcesPublished(db: Db, plan: Plan)
    requires ReadsBaselines(db, plan)
    ensures forall id :: id in plan.Sources() ==> IsPublished(db.batches, id)
  {
    InstructorSourcesFromBase(plan.RawInstructors(), plan.instructorBase, plan.minimum);
    CourseSourcesFromBase(plan.RawCourses(), plan.courseBase, plan.Forced(), plan.minimum);
  }

  lemma PlannedRowsFiled(plan: Plan, rows: Rows)
    requires rows.courses == plan.Courses() && rows.instructors == plan.Instructors()
    requires DistinctBy(rows.courses, CourseKeyOf) && DistinctBy(rows.instructors, InstructorKeyOf)
    requires IsProjection(rows.projections, plan.batchId, rows.courses)
    ensures RowsFiled(plan.batchId, rows)
  {}
}
