/** The manager's workflow as one worker executes it while it holds the run lock. */
module RunManager {
  import opened Wrappers
  import opened Statistics
  import opened Baselines
  import opened Publication
  import opened StatisticsStore
  import opened RunProtocol

  datatype RunResult = RunResult(
    batchId: nat, sourceCutoffAt: Time, sourceRowCount: int, courseStatCount: int, instructorStatCount: int)

  datatype RunError =
    | NoError | StartFailed | AggregateFailed | SnapshotInvalid | PublicationFailed
    | LockFailed | AlreadyLocked | LoadFailed | ReleaseFailed

  /** What becomes of a transaction: it answers, it is rolled back, or it commits and its answer is lost. */
  datatype Fate = Answered | RolledBack | AnswerLost

  /** The answers of the world around one run: the clock readings, the source's snapshot or its failure, the
      fate of the transactions, and whether a failure can be recorded. */
  datatype Surroundings = Surroundings(
    startedAt: Time, createdAt: Time, source: Option<Snapshot>, finishedAt: Time, failedAt: Time,
    start: Fate, publish: Fate, records: bool)

  /** The publication committed although the manager saw it fail. */
  predicate PublishedUnseen(error: RunError, world: Surroundings) {
    error == PublicationFailed && world.publish == AnswerLost
  }

  predicate Succeeds(world: Surroundings) {
    world.source.Some? && ValidSnapshot(world.source.value) && world.start == Answered && world.publish == Answered
  }

  function ResultFromBatch(b: Batch): RunResult {
    RunResult(b.id, b.sourceCutoffAt, b.sourceRowCount, b.courseStatCount, b.instructorStatCount)
  }

  /** The answer names the batch and repeats its cutoff and counts. */
  predicate Describes(result: RunResult, b: Batch) {
    && result.batchId == b.id && result.sourceCutoffAt == b.sourceCutoffAt && result.sourceRowCount == b.sourceRowCount
    && result.courseStatCount == b.courseStatCount && result.instructorStatCount == b.instructorStatCount
  }

  /** The answer to a new publication counts what the snapshot holds, and claims no later cutoff. */
  predicate Reports(result: RunResult, snapshot: Snapshot) {
    && result.sourceRowCount == snapshot.sourceRowCount && result.courseStatCount == |snapshot.courses|
    && result.instructorStatCount == |snapshot.instructors| && result.sourceCutoffAt <= snapshot.sourceCutoffAt
  }

  predicate FailedWith(batches: map<nat, Batch>, id: nat, summary: string, at: Time) {
    && id in batches && batches[id].status == Failed
    && batches[id].errorSummary == Some(summary) && batches[id].finishedAt == Some(at)
  }

  /** What is recorded on the batch of a failed run. */
  function SummaryOf(error: RunError): string {
    match error
    case AggregateFailed => "source aggregation failed"
    case SnapshotInvalid => "source aggregate validation failed"
    case _ => "statistics publication failed"
  }

  class Manager {
    const store: Store

    constructor (store: Store)
      ensures this.store == store
    { this.store := store; }

    /** Start, aggregate, validate, publish; a failure after the start is recorded on the batch, if possible. */
    method RunLocked(trigger: Trigger, world: Surroundings)
      returns (result: RunResult, error: RunError, aggregated: bool)
      requires store.Valid()
      modifies store
      ensures store.Valid() && PublishedFrozen(old(store.State()), store.State())
      ensures error in {NoError, StartFailed, AggregateFailed, SnapshotInvalid, PublicationFailed}
      ensures error == NoError ==>
                IsPublished(store.batches, result.batchId) && result == ResultFromBatch(store.batches[result.batchId])
      ensures error == NoError && aggregated ==>
                !IsPublished(old(store.batches), result.batchId)
                    && store.batches[result.batchId].publishedAt == Some(world.finishedAt)
      ensures error == NoError ==> Describes(result, store.batches[result.batchId])
      ensures error == NoError && aggregated ==> world.source.Some? && Reports(result, world.source.value)
      ensures error == NoError && !aggregated ==>
                IsPublished(old(store.batches), result.batchId) && trigger.taskId.Some?
                && store.batches[result.batchId].trigger.taskId == trigger.taskId
      ensures forall id :: IsPublished(store.batches, id) && !IsPublished(old(store.batches), id) ==>
                id == result.batchId && aggregated && (error == NoError || PublishedUnseen(error, world))
      ensures error == StartFailed <==> world.start != Answered
      ensures aggregated && error == AggregateFailed <==> aggregated && world.source.None?
      ensures aggregated && error == SnapshotInvalid
              <==> aggregated && world.source.Some? && !ValidSnapshot(world.source.value)
      ensures error in {AggregateFailed, SnapshotInvalid, PublicationFailed} ==> aggregated
      ensures error == PublicationFailed ==> world.publish != Answered
      ensures aggregated && error != NoError && !PublishedUnseen(error, world) && world.records ==>
                FailedWith(store.batches, result.batchId, SummaryOf(error), world.failedAt)
      ensures PublishedUnseen(error, world) ==> IsPublished(store.batches, result.batchId)
    {
      ghost var before := store.State();
      FrozenSelf(before);
      if world.start == RolledBack { return RunResult(0, 0, 0, 0, 0), StartFailed, false; }
      var batch := store.StartBatch(trigger, world.startedAt, world.startedAt, world.createdAt);
      ghost var started := store.State();
      StartKeepsInv(before, started, trigger, world.startedAt, world.startedAt, world.createdAt,
          store.minimumSampleSize, batch.id);
      StartOpensNothing(before, started, trigger, world.startedAt, world.startedAt, world.createdAt,
          store.minimumSampleSize, batch.id);
      if world.start == AnswerLost { return RunResult(0, 0, 0, 0, 0), StartFailed, false; }
      if batch.status == Published {
        return ResultFromBatch(batch), NoError, false;
      }
      assert IsRunning(started, batch.id) && !IsPublished(before.batches, batch.id);
      result, error := Aggregated(before, batch, world);
      aggregated := true;
    }

    /** The run of a started batch: aggregation, validation, publication. */
    method Aggregated(ghost before: Db, batch: Batch, world: Surroundings) returns (result: RunResult, error: RunError)
      requires store.Valid() && PublishedFrozen(before, store.State()) && IsRunning(store.State(), batch.id)
      requires batch == store.batches[batch.id]
      modifies store
      ensures store.Valid() && PublishedFrozen(before, store.State()) && result.batchId == batch.id
      ensures forall id :: IsPublished(store.batches, id) ==>
                IsPublished(old(store.batches), id)
                || (id == batch.id && (error == NoError || PublishedUnseen(error, world)))
      ensures error == AggregateFailed <==> world.source.None?
      ensures error == SnapshotInvalid <==> world.source.Some? && !ValidSnapshot(world.source.value)
      ensures error in {NoError, AggregateFailed, SnapshotInvalid, PublicationFailed}
      ensures error == PublicationFailed ==> world.publish != Answered
      ensures error == NoError ==> world.publish == Answered
      ensures error == NoError ==>
                IsPublished(store.batches, batch.id) && Describes(result, store.batches[batch.id])
                && store.batches[batch.id].publishedAt == Some(world.finishedAt)
                && Reports(result, world.source.value)
      ensures PublishedUnseen(error, world) ==> IsPublished(store.batches, batch.id)
      ensures error != NoError && !PublishedUnseen(error, world) && world.records ==>
                FailedWith(store.batches, batch.id, SummaryOf(error), world.failedAt)
    {
      result := RunResult(batch.id, 0, 0, 0, 0);
      if world.source.None? {
        GiveUp(before, batch.id, world, "source aggregation failed");
        return result, AggregateFailed;
      }
      var valid := Validate(world.source.value);
      if !valid {
        GiveUp(before, batch.id, world, "source aggregate validation failed");
        return result, SnapshotInvalid;
      }
      result, error := Publish(before, batch, world);
    }

    /** The last step: the publication, which may be rolled back, or commit without the manager learning of it. */
    method Publish(ghost before: Db, batch: Batch, world: Surroundings) returns (result: RunResult, error: RunError)
      requires store.Valid() && PublishedFrozen(before, store.State()) && IsRunning(store.State(), batch.id)
      requires batch == store.batches[batch.id] && world.source.Some? && ValidSnapshot(world.source.value)
      modifies store
      ensures store.Valid() && PublishedFrozen(before, store.State()) && result.batchId == batch.id
      ensures forall id :: IsPublished(store.batches, id) ==>
                IsPublished(old(store.batches), id)
                || (id == batch.id && (error == NoError || PublishedUnseen(error, world)))
      ensures error == (if world.publish == Answered then NoError else PublicationFailed)
      ensures error == NoError ==>
                IsPublished(store.batches, batch.id) && Describes(result, store.batches[batch.id])
                && store.batches[batch.id].publishedAt == Some(world.finishedAt)
                && Reports(result, world.source.value)
      ensures PublishedUnseen(error, world) ==> IsPublished(store.batches, batch.id)
      ensures error != NoError && !PublishedUnseen(error, world) && world.records ==>
                FailedWith(store.batches, batch.id, "statistics publication failed", world.failedAt)
    {
      result := RunResult(batch.id, 0, 0, 0, 0);
      if world.publish == RolledBack {
        GiveUp(before, batch.id, world, "statistics publication failed");
        return result, PublicationFailed;
      }
      ghost var started := store.State();
      var outcome, published, plan, written, cutoff := store.PublishBatch(batch, world.source.value, world.finishedAt);
      PublishKeepsInv(started, store.State(), plan, world.finishedAt, written, cutoff);
      FrozenTwice(before, started, store.State());
      if world.publish == AnswerLost {
        GiveUp(before, batch.id, world, "statistics publication failed");
        return result, PublicationFailed;
      }
      return ResultFromBatch(published), NoError;
    }

    /** Records a failure; what was published before is still there. */
    method GiveUp(ghost before: Db, batchId: nat, world: Surroundings, summary: string)
      requires store.Valid() && PublishedFrozen(before, store.State())
      modifies store
      ensures store.Valid() && PublishedFrozen(before, store.State())
      ensures PublishedFrozen(old(store.State()), store.State())
      ensures forall id :: IsPublished(store.batches, id) <==> IsPublished(old(store.batches), id)
      ensures world.records && IsRunning(old(store.State()), batchId) && |summary| <= 1000 ==>
                FailedWith(store.batches, batchId, summary, world.failedAt)
    {
      ghost var now := store.State();
      RecordFailure(batchId, world, summary);
      FrozenTwice(before, now, store.State());
    }

    /** Marks a running batch as failed; any other batch, and any batch when the store is unreachable, stays
        as it is. */
    method RecordFailure(batchId: nat, world: Surroundings, summary: string)
      requires store.Valid()
      modifies store
      ensures store.Valid() && PublishedFrozen(old(store.State()), store.State())
      ensures forall id :: IsPublished(store.batches, id) <==> IsPublished(old(store.batches), id)
      ensures world.records && IsRunning(old(store.State()), batchId) && |summary| <= 1000 ==>
                FailedWith(store.batches, batchId, summary, world.failedAt)
    {
      FrozenSelf(store.State());
      if world.records {
        ghost var before := store.State();
        if IsRunning(Db(store.batches, store.rows, store.nextId), batchId) {
          FailKeepsInv(before, batchId, world.failedAt, summary);
        }
        var recorded := store.FailBatch(batchId, world.failedAt, summary);
      }
    }

    /** The daily check: nothing happens before the schedule or once a batch was published after it. */
    method RunIfDue(
      now: Time, offset: Time, hour: int, world: Surroundings, lock: LockAnswer, loads: bool, releases: bool)
      returns (ran: bool, error: RunError, published: bool)
      requires store.Valid()
      modifies store
      ensures store.Valid() && PublishedFrozen(old(store.State()), store.State())
      ensures ran ==> published && error == NoError
      ensures published ==>
                IsDue(now, offset, hour) && lock == Acquired
                && !PublishedSince(old(store.State()), ScheduledAt(now, offset, hour))
      ensures published && ScheduledAt(now, offset, hour) <= world.finishedAt ==>
                PublishedSince(store.State(), ScheduledAt(now, offset, hour))
      ensures !published && !PublishedUnseen(error, world) ==>
                forall id :: IsPublished(store.batches, id) ==> IsPublished(old(store.batches), id)
      ensures IsDue(now, offset, hour) && lock == Acquired && loads && Succeeds(world) ==>
                published || PublishedSince(old(store.State()), ScheduledAt(now, offset, hour))
      ensures error == LockFailed <==> IsDue(now, offset, hour) && lock == Unreachable
      ensures error == AlreadyLocked <==> IsDue(now, offset, hour) && lock == Held
      ensures error == LoadFailed <==> IsDue(now, offset, hour) && lock == Acquired && !loads
      ensures error == ReleaseFailed ==> IsDue(now, offset, hour) && lock == Acquired && !releases
      ensures error == NoError ==> !IsDue(now, offset, hour) || (lock == Acquired && loads && releases)
      ensures !ran && error == NoError ==>
                !IsDue(now, offset, hour) || PublishedSince(old(store.State()), ScheduledAt(now, offset, hour))
      ensures !IsDue(now, offset, hour) || lock != Acquired || !loads ==> store.State() == old(store.State())
    {
      FrozenSelf(store.State());
      var scheduledAt := ScheduledAt(now, offset, hour);
      if now < scheduledAt { return false, NoError, false; }
      if lock == Unreachable { return false, LockFailed, false; }
      if lock == Held { return false, AlreadyLocked, false; }
      if !loads { return false, LoadFailed, false; }
      var latest := store.LatestPublished();
      LatestDecides(store.State(), latest, scheduledAt);
      if PublishedAfterSchedule(latest, scheduledAt) {
        return false, if releases then NoError else ReleaseFailed, false;
      }
      ghost var before := store.State();
      var result, runError, aggregated := RunLocked(ScheduledTrigger(), world);
      published := runError == NoError;
      if published {
        var id := result.batchId;
        assert Eligible(store.batches, id) && store.batches[id].publishedAt == Some(world.finishedAt);
      }
      error := if runError != NoError then runError else if releases then NoError else ReleaseFailed;
      ran := error == NoError;
    }
  }

  datatype LockAnswer = Acquired | Held | Unreachable

  predicate PublishedAfterSchedule(batch: Option<Batch>, scheduledAt: Time) {
    batch.Some? && batch.value.publishedAt.Some? && !(batch.value.publishedAt.value < scheduledAt)
  }

  /** Looking at the highest-ranked publication alone decides whether any is recent enough. */
  lemma LatestDecides(db: Db, latest: Option<Batch>, at: Time)
    requires Inv(db)
    requires latest.None? <==> forall id :: id in db.batches ==> !Eligible(db.batches, id)
    requires latest.Some? ==> IsLatest(db.batches, latest.value)
    ensures PublishedAfterSchedule(latest, at) <==> PublishedSince(db, at)
  {
    if latest.Some? {
      PublishedHasTime(db, latest.value.id);
      LatestComesLast(db.batches, latest.value, at);
    }
  }

  /** No publication is later than the highest-ranked one. */
  lemma LatestComesLast(batches: map<nat, Batch>, latest: Batch, at: Time)
    requires IsLatest(batches, latest) && latest.publishedAt.Some?
    ensures (exists id :: Eligible(batches, id) && batches[id].publishedAt.Some? && at <= batches[id].publishedAt.value)
            <==> at <= latest.publishedAt.value
  {}

  lemma PublishedHasTime(db: Db, id: nat)
    requires RowsInv(db) && IsPublished(db.batches, id)
    ensures db.batches[id].publishedAt.Some?
  {
    assert id in db.rows;
  }

  lemma FrozenSelf(db: Db)
    requires Inv(db)
    ensures PublishedFrozen(db, db)
  {}

  lemma FrozenTwice(a: Db, b: Db, c: Db)
    requires PublishedFrozen(a, b) && PublishedFrozen(b, c)
    ensures PublishedFrozen(a, c)
  {
    forall id | IsPublished(a.batches, id) ensures SamePublication(a, c, id) {
      assert SamePublication(a, b, id) && IsPublished(b.batches, id) && SamePublication(b, c, id);
    }
  }
}
