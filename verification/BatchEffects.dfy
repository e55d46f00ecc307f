/** What the batch transactions leave in the batch table, field by field and without the helpers that compute it. */
module BatchEffects {
  import opened Wrappers
  import opened Statistics
  import opened Projection
  import opened Publication

  /** The batch as a start leaves it when it is not the one started: running ones were abandoned. */
  function Abandoned(b: Batch, at: Time): Batch {
    if b.status == Running then
      b.(status := Failed, errorSummary := Some("aggregation worker terminated before completion"),
         finishedAt := Some(at))
    else b
  }

  /** A start keeps a batch unless it is, or counts as, failed and was created more than 90 days before. */
  predicate Retained(b: Batch, at: Time) { b.status == Published || b.createdAt >= at - 7776000000 }

  lemma RecoveredExactly(batches: map<nat, Batch>, at: Time)
    ensures forall id :: id in Recovered(batches, at) <==> id in batches && Retained(batches[id], at)
    ensures forall id :: id in Recovered(batches, at) ==> Recovered(batches, at)[id] == Abandoned(batches[id], at)
  {}

  /** A batch that has just started, with the trigger, times and minimum it was started with and nothing counted. */
  predicate FreshlyStarted(b: Batch, trigger: Trigger, cutoff: Time, at: Time, minimum: int) {
    && b.status == Running && b.trigger == trigger
    && b.sourceCutoffAt == cutoff && b.startedAt == at && b.ruleVersion == "v6" && b.minimumSampleSize == minimum
    && b.sourceRowCount == b.courseStatCount == b.coursePassRateCount == b.instructorStatCount == 0
    && b.errorSummary.None? && b.finishedAt.None? && b.publishedAt.None?
  }

  /** The batches that carried the trigger's task when the start came, and are kept. */
  predicate Carrier(batches: map<nat, Batch>, trigger: Trigger, at: Time, id: nat) {
    trigger.taskId.Some? && id in batches && Retained(batches[id], at) && batches[id].trigger.taskId == trigger.taskId
  }

  /** Every other batch is kept, abandoned, or dropped by age. */
  ghost predicate OthersAs(db: Db, db': Db, at: Time, id: nat) {
    && db'.rows == db.rows
    && (forall other :: other != id ==>
          (other in db'.batches <==> other in db.batches && Retained(db.batches[other], at)))
    && (forall other :: other != id && other in db'.batches ==> db'.batches[other] == Abandoned(db.batches[other], at))
  }

  /** The batch answered with: the task's batch, left alone if published and else started anew under its ID and
      creation time, or a new one when no kept batch carries the task. */
  ghost predicate AnsweredAs(
    db: Db, db': Db, trigger: Trigger, cutoff: Time, at: Time, createdAt: Time, minimum: int, id: nat) {
    && id in db'.batches && db'.batches[id].id == id
    && if exists c :: Carrier(db.batches, trigger, at, c) then
         && Carrier(db.batches, trigger, at, id) && db'.nextId == db.nextId
         && (if db.batches[id].status == Published then db'.batches[id] == db.batches[id]
             else FreshlyStarted(db'.batches[id], trigger, cutoff, at, minimum)
                  && db'.batches[id].createdAt == db.batches[id].createdAt)
       else
         && id == db.nextId && db'.nextId == id + 1
         && FreshlyStarted(db'.batches[id], trigger, cutoff, at, minimum) && db'.batches[id].createdAt == createdAt
  }

  lemma CarriersAre(batches: map<nat, Batch>, trigger: Trigger, at: Time, id: nat)
    ensures CarriesTask(Recovered(batches, at), trigger.taskId, id) <==> Carrier(batches, trigger, at, id)
  {
    RecoveredExactly(batches, at);
  }

  /** What a start does to the whole database. */
  lemma StartsAs(db: Db, db': Db, trigger: Trigger, cutoff: Time, at: Time, createdAt: Time, minimum: int, id: nat)
    requires Inv(db) && Starts(db, db', trigger, cutoff, at, createdAt, minimum, id)
    ensures OthersAs(db, db', at, id) && AnsweredAs(db, db', trigger, cutoff, at, createdAt, minimum, id)
  {
    var recovered, source := Recovered(db.batches, at), NewBatch(id, trigger, cutoff, at, createdAt, minimum);
    OthersStay(db, db', recovered, source);
    RecoveredExactly(db.batches, at);
    AnswersAs(db, db', recovered, trigger, cutoff, at, createdAt, minimum, id);
  }

  lemma AnswersAs(
    db: Db, db': Db, recovered: map<nat, Batch>, trigger: Trigger, cutoff: Time, at: Time, createdAt: Time,
    minimum: int, id: nat)
    requires Inv(db) && recovered == Recovered(db.batches, at)
    requires StartsFrom(db, db', recovered, NewBatch(id, trigger, cutoff, at, createdAt, minimum))
    ensures AnsweredAs(db, db', trigger, cutoff, at, createdAt, minimum, id)
  {
    forall c ensures CarriesTask(recovered, trigger.taskId, c) <==> Carrier(db.batches, trigger, at, c) {
      CarriersAre(db.batches, trigger, at, c);
    }
    if exists e :: CarriesTask(recovered, trigger.taskId, e) {
      ReusedAs(db, recovered, trigger, cutoff, at, createdAt, minimum, id);
    } else {
      CreatedAs(db, db', recovered, NewBatch(id, trigger, cutoff, at, createdAt, minimum), at);
    }
  }

  lemma OthersStay(db: Db, db': Db, recovered: map<nat, Batch>, source: Batch)
    requires StartsFrom(db, db', recovered, source)
    ensures db'.rows == db.rows
    ensures forall other :: other != source.id ==> (other in db'.batches <==> other in recovered)
    ensures forall other :: other != source.id && other in db'.batches ==> db'.batches[other] == recovered[other]
  {}

  lemma CreatedAs(db: Db, db': Db, recovered: map<nat, Batch>, source: Batch, at: Time)
    requires Inv(db) && recovered == Recovered(db.batches, at) && StartsFrom(db, db', recovered, source)
    requires !exists e :: CarriesTask(recovered, source.trigger.taskId, e)
    ensures source.id == db.nextId && db'.nextId == source.id + 1 && db'.batches == recovered[source.id := source]
    ensures source.id !in recovered
  {
    RecoveredExactly(db.batches, at);
  }

  lemma ReusedAs(
    db: Db, recovered: map<nat, Batch>, trigger: Trigger, cutoff: Time, at: Time, createdAt: Time, minimum: int,
    id: nat)
    requires Inv(db) && recovered == Recovered(db.batches, at) && CarriesTask(recovered, trigger.taskId, id)
    ensures id in db.batches && db.batches[id].id == id
    ensures var b := Restarted(recovered, id, NewBatch(id, trigger, cutoff, at, createdAt, minimum))[id];
            if db.batches[id].status == Published then b == db.batches[id]
            else
              FreshlyStarted(b, trigger, cutoff, at, minimum) && b.createdAt == db.batches[id].createdAt && b.id == id
  {
    RecoveredExactly(db.batches, at);
  }

  /** A failure changes one batch: its status, its time, and at most 1000 characters of its summary. */
  lemma FailsAs(db: Db, id: nat, at: Time, summary: string)
    requires IsRunning(db, id)
    ensures var db' := FailedDb(db, id, at, summary);
            && db'.rows == db.rows && db'.nextId == db.nextId && db'.batches.Keys == db.batches.Keys
            && (forall other :: other in db.batches && other != id ==> db'.batches[other] == db.batches[other])
            && var b := db'.batches[id];
               b.errorSummary.Some?
               && b == db.batches[id].(status := Failed, finishedAt := Some(at), errorSummary := b.errorSummary)
               && b.errorSummary.value <= summary
               && (b.errorSummary.value == summary || |b.errorSummary.value| == 1000 < |summary|)
  {}

  /** The courses a reader without a search is shown. */
  function LargeCourses(rows: Rows, minimum: int): set<CoursePassRate> {
    set p | p in rows.projections && p.rate.stats.valid >= minimum :: p.rate
  }

  /** The published batch as readers see it: the counts of the snapshot and of what was stored, and one time. */
  predicate PublishedAs(b: Batch, snapshot: Snapshot, shown: nat, cutoff: Time, minimum: int, at: Time) {
    && b.status == Published && b.sourceCutoffAt == cutoff && b.minimumSampleSize == minimum
    && b.sourceRowCount == snapshot.sourceRowCount && b.courseStatCount == |snapshot.courses|
    && b.instructorStatCount == |snapshot.instructors| && b.coursePassRateCount == shown
    && b.errorSummary.None? && b.finishedAt == Some(at) && b.publishedAt == Some(at)
  }

  /** A publication changes one batch, to what `PublishedAs` says, keeps what names it and how it was started, and
      files its rows. */
  lemma PublishesAs(db: Db, db': Db, plan: Plan, at: Time, rows: Rows, cutoff: Time)
    requires Inv(db) && Publishes(db, db', plan, at, rows, cutoff)
    ensures var id := plan.batchId;
            && db'.rows == db.rows[id := rows] && db'.nextId == db.nextId
            && db'.batches.Keys == db.batches.Keys
            && (forall other :: other in db.batches && other != id ==> db'.batches[other] == db.batches[other])
            && PublishedAs(db'.batches[id], plan.snapshot, |LargeCourses(rows, plan.minimum)|, cutoff, plan.minimum, at)
            && db'.batches[id].id == id && db'.batches[id].trigger == db.batches[id].trigger
            && db'.batches[id].createdAt == db.batches[id].createdAt
            && db'.batches[id].startedAt == db.batches[id].startedAt
  {
    ResultAs(db.batches[plan.batchId], plan, rows, cutoff, at);
  }

  lemma ResultAs(b: Batch, plan: Plan, rows: Rows, cutoff: Time, at: Time)
    requires rows.courses == plan.Courses() && rows.instructors == plan.Instructors() && DistinctKeys(rows.projections)
    ensures var after := PublishedBatch(b, cutoff, plan.snapshot, |rows.courses|,
                                        LiveCount(rows.projections, UNRESTRICTED, plan.minimum), plan.minimum,
                                        |rows.instructors|, at);
            PublishedAs(after, plan.snapshot, |LargeCourses(rows, plan.minimum)|, cutoff, plan.minimum, at)
            && after.id == b.id && after.trigger == b.trigger && after.createdAt == b.createdAt
            && after.startedAt == b.startedAt
  {
    LiveCountIsCardinality(rows.projections, UNRESTRICTED, plan.minimum);
    assert LargeCourses(rows, plan.minimum) == ProjectionQuery(rows.projections, UNRESTRICTED, plan.minimum);
    assert |rows.courses| == |plan.snapshot.courses| && |rows.instructors| == |plan.snapshot.instructors|;
  }
}
