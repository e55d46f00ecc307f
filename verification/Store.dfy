/** The store object: one method per transaction, each proved against the relation that
    `Publication` gives for it, and the read paths over the latest publication. */
module StatisticsStore {
  import opened Wrappers
  import opened Statistics
  import opened Privacy
  import opened Projection
  import opened Baselines
  import opened Publication
  import opened PublicationRollback
  import opened ProjectionShown
  import opened BatchEffects

  datatype Outcome = Committed | NotRunning | BaselineUnavailable | DuplicateRows

  class Store {
    const minimumSampleSize: int
    var batches: map<nat, Batch>
    var rows: map<nat, Rows>
    var nextId: nat

    ghost function State(): Db reads this { Db(batches, rows, nextId) }

    ghost predicate Valid() reads this {
      minimumSampleSize >= 1 && Inv(State()) && CurrentRules(batches)
    }

    constructor (minimum: int)
      requires minimum >= 1
      ensures Valid() && State() == EMPTY && minimumSampleSize == minimum
    {
      minimumSampleSize := minimum;
      batches, rows, nextId := map[], map[], 1;
    }

    /** Recover abandoned batches, prune old failures, then reuse or create a batch. */
    method StartBatch(trigger: Trigger, sourceCutoffAt: Time, startedAt: Time, createdAt: Time) returns (batch: Batch)
      requires Valid()
      modifies this
      ensures Valid()
      ensures Starts(old(State()), State(), trigger, sourceCutoffAt, startedAt, createdAt, minimumSampleSize, batch.id)
      ensures batch.id in batches && batch == batches[batch.id]
      ensures OthersAs(old(State()), State(), startedAt, batch.id)
      ensures AnsweredAs(old(State()), State(), trigger, sourceCutoffAt, startedAt, createdAt, minimumSampleSize,
                         batch.id)
    {
      ghost var before := State();
      batches := Swept(batches, startedAt);
      batches := Pruned(batches, startedAt - FAILED_BATCH_RETENTION);
      batch := ReuseOrCreate(before, trigger, sourceCutoffAt, startedAt, createdAt);
      StartKeepsInv(before, State(), trigger, sourceCutoffAt, startedAt, createdAt, minimumSampleSize, batch.id);
      StartOpensNothing(before, State(), trigger, sourceCutoffAt, startedAt, createdAt, minimumSampleSize, batch.id);
      StartsAs(before, State(), trigger, sourceCutoffAt, startedAt, createdAt, minimumSampleSize, batch.id);
    }

    /** The second half of StartBatch: a batch carrying the task ID is restarted unless published. */
    method ReuseOrCreate(ghost before: Db, trigger: Trigger, sourceCutoffAt: Time, startedAt: Time, createdAt: Time)
      returns (batch: Batch)
      requires IdsMatch(batches) && rows == before.rows && nextId == before.nextId
      modifies this`batches, this`nextId
      ensures StartsFrom(before, State(), old(batches), NewBatch(batch.id, trigger, sourceCutoffAt, startedAt,
          createdAt, minimumSampleSize))
      ensures batch.id in batches && batch == batches[batch.id]
    {
      ghost var recovered := batches;
      if exists e :: e in batches && CarriesTask(batches, trigger.taskId, e) {
        var id :| id in batches && CarriesTask(batches, trigger.taskId, id);
        var source := NewBatch(id, trigger, sourceCutoffAt, startedAt, createdAt, minimumSampleSize);
        if batches[id].status != Published {
          batches := batches[id := ResetBatch(batches[id], source)];
        }
        assert batches == Restarted(recovered, id, source);
        batch := batches[id];
      } else {
        batch := NewBatch(nextId, trigger, sourceCutoffAt, startedAt, createdAt, minimumSampleSize);
        batches := batches[nextId := batch];
        nextId := nextId + 1;
      }
    }

    /** Only a running batch can fail. */
    method FailBatch(batchId: nat, finishedAt: Time, summary: string) returns (ok: bool)
      requires Valid()
      modifies this
      ensures Valid()
      ensures ok <==> IsRunning(old(State()), batchId)
      ensures State() == if ok then FailedDb(old(State()), batchId, finishedAt, summary) else old(State())
    {
      ok := batchId in batches && batches[batchId].status == Running;
      if ok {
        FailKeepsInv(State(), batchId, finishedAt, summary);
        batches := batches[batchId := batches[batchId].(
          status := Failed, errorSummary := Some(Truncate(summary, 1000)), finishedAt := Some(finishedAt))];
      }
    }

    /** The earliest cutoff of the listed batches, or nothing when one of them is not published. */
    method EarliestPublishedCutoff(ids: set<nat>) returns (cutoff: Option<Time>)
      requires ids != {}
      ensures cutoff.Some? <==> forall id :: id in ids ==> IsPublished(batches, id)
      ensures cutoff.Some? ==> (forall id :: id in ids ==> cutoff.value <= batches[id].sourceCutoffAt)
                               && exists id :: id in ids && cutoff.value == batches[id].sourceCutoffAt
    {
      var first :| first in ids;
      if !IsPublished(batches, first) { return None; }
      var best := batches[first].sourceCutoffAt;
      var todo := ids - {first};
      while todo != {}
        invariant todo <= ids
        invariant forall id :: id in ids - todo ==> IsPublished(batches, id) && best <= batches[id].sourceCutoffAt
        invariant exists id :: id in ids - todo && best == batches[id].sourceCutoffAt
        decreases todo
      {
        var id :| id in todo;
        if !IsPublished(batches, id) { return None; }
        todo := todo - {id};
        assert id in ids - todo;
        if batches[id].sourceCutoffAt < best { best := batches[id].sourceCutoffAt; }
      }
      cutoff := Some(best);
    }

    /** Rolls unsafe rows back to their baselines and reports the earliest cutoff carried over. */
    method SuppressSmallPublicationDeltas(
      courses: array<CourseRow>, instructors: array<InstructorRow>, ghost snapshot: Snapshot, ghost batchId: nat)
      returns (carriedCutoff: Option<Time>, available: bool, ghost plan: Plan)
      requires Valid()
      requires courses[..] == CourseEntities(batchId, snapshot.courses)
      requires instructors[..] == InstructorEntities(batchId, snapshot.instructors)
      modifies courses, instructors
      ensures available
      ensures plan.batchId == batchId && plan.snapshot == snapshot && plan.minimum == minimumSampleSize
      ensures ReadsBaselines(State(), plan)
      ensures courses[..] == plan.Courses() && instructors[..] == plan.Instructors()
      ensures carriedCutoff.None? <==> plan.Sources() == {}
      ensures carriedCutoff.Some? ==>
                forall id :: id in plan.Sources() ==> id in batches && carriedCutoff.value <= batches[id].sourceCutoffAt
      ensures carriedCutoff.Some? ==>
                exists id :: id in plan.Sources() && carriedCutoff.value == batches[id].sourceCutoffAt
    {
      TablesFiled(State());
      var previousCourses := LatestBaselines(batches, CourseTable(rows), CourseKeyOf, CourseBatchOf);
      var previousInstructors := LatestBaselines(batches, InstructorTable(rows), InstructorKeyOf, InstructorBatchOf);
      plan := Plan(previousCourses, previousInstructors, minimumSampleSize, batchId, snapshot);
      var forced, ids := SuppressInstructorDeltas(instructors, previousInstructors, minimumSampleSize, {});
      ids := SuppressCourseDeltas(courses, previousCourses, forced, minimumSampleSize, ids);
      assert ids == plan.Sources();
      if ids == {} { return None, true, plan; }
      carriedCutoff := EarliestPublishedCutoff(ids);
      SourcesPublished(State(), plan);
      available := carriedCutoff.Some?;
    }

    /** One transaction: suppress, project, insert, and make the batch visible, or change nothing. */
    method PublishBatch(batch: Batch, snapshot: Snapshot, finishedAt: Time)
      returns (outcome: Outcome, result: Batch, ghost plan: Plan, ghost written: Rows, ghost cutoff: Time)
      requires Valid()
      modifies this
      ensures Valid()
      ensures outcome == Committed ==>
                plan.batchId == batch.id && plan.snapshot == snapshot && plan.minimum == minimumSampleSize
                && Publishes(old(State()), State(), plan, finishedAt, written, cutoff)
      ensures outcome == Committed ==>
                CoursesAsReported(plan, written.courses) && InstructorsAsReported(plan, written.instructors)
                && CutoffAsCarried(old(batches), plan, cutoff)
      ensures outcome == Committed ==>
                PublishedAs(result, snapshot, |LargeCourses(written, minimumSampleSize)|, cutoff, minimumSampleSize,
                            finishedAt)
                && result.id == batch.id && result.trigger == batch.trigger
      ensures outcome == Committed && batch.id in old(batches) && batch == old(batches)[batch.id] ==>
                batch.id in batches && result == batches[batch.id]
      ensures outcome != Committed ==> State() == old(State()) && result == batch
      ensures outcome == NotRunning ==> !IsRunning(State(), batch.id)
      ensures outcome != BaselineUnavailable
      ensures ValidSnapshot(snapshot) && IsRunning(old(State()), batch.id) ==> outcome == Committed
    {
      var courses := new CourseRow[|snapshot.courses|](i requires 0 <= i < |snapshot.courses| =>
        CourseEntity(batch.id, snapshot.courses[i]));
      var instructors := new InstructorRow[|snapshot.instructors|](i requires 0 <= i < |snapshot.instructors| =>
        InstructorEntity(batch.id, snapshot.instructors[i]));
      assert courses[..] == CourseEntities(batch.id, snapshot.courses);
      assert instructors[..] == InstructorEntities(batch.id, snapshot.instructors);
      result := batch;
      var effectiveCutoff := snapshot.sourceCutoffAt;
      var carried, available;
      carried, available, plan := SuppressSmallPublicationDeltas(courses, instructors, snapshot, batch.id);
      if !available { return BaselineUnavailable, result, plan, Rows([], [], []), 0; }
      if carried.Some? && carried.value < effectiveCutoff { effectiveCutoff := carried.value; }
      cutoff := effectiveCutoff;
      assert IsEarliest(batches, plan.Sources(), snapshot.sourceCutoffAt, cutoff);
      if ValidSnapshot(snapshot) { DistinctSnapshotRows(plan); }
      ghost var before := State();
      outcome, result, written := InsertRows(batch, snapshot, courses[..], instructors[..], effectiveCutoff,
          finishedAt, plan);
      if outcome == Committed { PublishesAsReported(before, State(), plan, finishedAt, written, cutoff); }
    }

    /** The second half of PublishBatch: build the projection, insert, and reveal a running batch. */
    method InsertRows(batch: Batch, snapshot: Snapshot, courses: seq<CourseRow>, instructors: seq<InstructorRow>,
                      effectiveCutoff: Time, finishedAt: Time, ghost plan: Plan)
      returns (outcome: Outcome, result: Batch, ghost written: Rows)
      requires Valid() && ReadsBaselines(State(), plan) && plan.batchId == batch.id && plan.snapshot == snapshot
      requires plan.minimum == minimumSampleSize && courses == plan.Courses() && instructors == plan.Instructors()
      requires IsEarliest(batches, plan.Sources(), snapshot.sourceCutoffAt, effectiveCutoff)
      modifies this
      ensures Valid()
      ensures outcome == Committed ==> Publishes(old(State()), State(), plan, finishedAt, written, effectiveCutoff)
      ensures outcome == Committed && batch.id in old(batches) && batch == old(batches)[batch.id] ==>
                batch.id in batches && result == batches[batch.id]
      ensures outcome != Committed ==> State() == old(State()) && result == batch
      ensures outcome == NotRunning ==> !IsRunning(State(), batch.id)
      ensures outcome != BaselineUnavailable
      ensures IsRunning(old(State()), batch.id) ==>
                DistinctBy(courses, CourseKeyOf) && DistinctBy(instructors, InstructorKeyOf) ==> outcome == Committed
      ensures outcome == Committed ==>
                PublishedAs(result, snapshot, |LargeCourses(written, plan.minimum)|, effectiveCutoff, plan.minimum,
                            finishedAt)
                && result.id == batch.id && result.trigger == batch.trigger
    {
      result, written := batch, Rows([], [], []);
      if !DistinctBy(courses, CourseKeyOf) || !DistinctBy(instructors, InstructorKeyOf) {
        return DuplicateRows, result, written;
      }
      if !(batch.id in batches && batches[batch.id].status == Running) {
        return NotRunning, result, written;
      }
      var rates := CoursePassRateEntities(batch.id, courses);
      var rateCount := CountCoursePassRates(rates, minimumSampleSize);
      var inserted := Rows(courses, instructors, rates);
      written := inserted;
      ghost var before := State();
      rows := rows[batch.id := inserted];
      batches := batches[batch.id := PublishedBatch(
        batches[batch.id], effectiveCutoff, snapshot, |courses|, rateCount, minimumSampleSize, |instructors|,
            finishedAt)];
      result := PublishedBatch(batch, effectiveCutoff, snapshot, |courses|, rateCount, minimumSampleSize,
          |instructors|, finishedAt);
      outcome := Committed;
      ResultAs(batch, plan, written, effectiveCutoff, finishedAt);
      Committing(before, State(), plan, finishedAt, written, effectiveCutoff, batches[batch.id]);
    }

    /** The publication readers see: the highest-ranked one of the current rule version. */
    method LatestPublished() returns (batch: Option<Batch>)
      requires Valid()
      ensures batch.None? <==> forall id :: id in batches ==> !Eligible(batches, id)
      ensures batch.Some? ==> IsLatest(batches, batch.value)
    {
      batch := HighestRanked(batches);
    }

    /** The unpaged, keyword-free course list of the latest publication, with its total: the
        projection and the cached count answer exactly what the grouped query would. */
    method ListCourses(search: Search, minimum: int)
      returns (batch: Option<Batch>, rates: set<CoursePassRate>, total: int)
      requires Valid()
      ensures batch.None? <==> forall id :: id in batches ==> !Eligible(batches, id)
      ensures batch.Some? ==> IsLatest(batches, batch.value) && batch.value.id in rows
      ensures batch.Some? ==> rates == GroupedQuery(rows[batch.value.id].courses, search, minimum) && total == |rates|
      ensures batch.Some? ==>
                forall rate :: rate in rates <==>
                  Shown(rows[batch.value.id].courses, search.courseCode, search.level, minimum, rate)
    {
      batch := LatestPublished();
      rates, total := {}, 0;
      if batch.Some? {
        var id := batch.value.id;
        assert IsPublished(batches, id) && id in rows && RowsFiled(id, rows[id])
            && SummaryAgrees(batches[id], rows[id]);
        var projections := rows[id].projections;
        rates := ProjectionQuery(projections, search, minimum);
        ProjectionRefinesGrouped(projections, id, rows[id].courses, search, minimum);
        LiveCountIsCardinality(projections, search, minimum);
        forall rate ensures rate in GroupedQuery(rows[id].courses, search, minimum)
                            <==> Shown(rows[id].courses, search.courseCode, search.level, minimum, rate)
        {
          ShownExactly(rows[id].courses, search, minimum, rate);
        }
        if UsesCachedCount(batch.value, search, minimum) {
          assert search == UNRESTRICTED;
          total := batch.value.coursePassRateCount;
        } else {
          total := LiveCount(projections, search, minimum);
        }
      }
    }
  }

  /** ORDER BY published_at DESC, id DESC LIMIT 1 over the eligible batches. */
  method HighestRanked(batches: map<nat, Batch>) returns (batch: Option<Batch>)
    requires IdsMatch(batches)
    ensures batch.None? <==> forall id :: id in batches ==> !Eligible(batches, id)
    ensures batch.Some? ==> IsLatest(batches, batch.value)
  {
    batch := None;
    var todo := batches.Keys;
    while todo != {}
      invariant todo <= batches.Keys
      invariant batch.None? ==> forall id :: id in batches && id !in todo ==> !Eligible(batches, id)
      invariant batch.Some? ==> Eligible(batches, batch.value.id) && batches[batch.value.id] == batch.value
      invariant batch.Some? ==>
                forall id :: id in batches && id !in todo && Eligible(batches, id) && id != batch.value.id ==>
                  RanksBelow(batches[id], batch.value)
      decreases todo
    {
      var id :| id in todo;
      todo := todo - {id};
      if Eligible(batches, id) && (batch.None? || RanksBelow(batch.value, batches[id])) {
        batch := Some(batches[id]);
      }
    }
  }

  ghost predicate IsLatest(batches: map<nat, Batch>, batch: Batch) {
    && Eligible(batches, batch.id) && batches[batch.id] == batch
    && forall id :: Eligible(batches, id) && id != batch.id ==> RanksBelow(batches[id], batch)
  }

  lemma TablesFiled(db: Db)
    requires Inv(db)
    ensures IdsMatch(db.batches)
    ensures WellFiled(CourseTable(db.rows), CourseKeyOf, CourseBatchOf)
    ensures WellFiled(InstructorTable(db.rows), InstructorKeyOf, InstructorBatchOf)
  {}

  /** Every batch a plan carries values from is still published, so the cutoff lookup cannot fail. */
  lemma SourcesPublished(db: Db, plan: Plan)
    requires Inv(db) && ReadsBaselines(db, plan)
    ensures forall id :: id in plan.Sources() ==> IsPublished(db.batches, id)
  {
    PlannedSourcesPublished(db, plan);
  }

  lemma DistinctSnapshotRows(plan: Plan)
    requires ValidSnapshot(plan.snapshot)
    ensures DistinctBy(plan.Courses(), CourseKeyOf) && DistinctBy(plan.Instructors(), InstructorKeyOf)
  {}

  /** What the inserts of a publication amount to. */
  lemma Committing(db: Db, db': Db, plan: Plan, at: Time, rows: Rows, cutoff: Time, b: Batch)
    requires Inv(db) && CurrentRules(db.batches) && IsRunning(db, plan.batchId) && ReadsBaselines(db, plan)
    requires rows.courses == plan.Courses() && DistinctBy(rows.courses, CourseKeyOf)
    requires rows.instructors == plan.Instructors() && DistinctBy(rows.instructors, InstructorKeyOf)
    requires IsProjection(rows.projections, plan.batchId, rows.courses)
    requires IsEarliest(db.batches, plan.Sources(), plan.snapshot.sourceCutoffAt, cutoff)
    requires db' == Db(db.batches[plan.batchId := b], db.rows[plan.batchId := rows], db.nextId)
    requires b == PublishedBatch(db.batches[plan.batchId], cutoff, plan.snapshot, |rows.courses|,
                                 LiveCount(rows.projections, UNRESTRICTED, plan.minimum), plan.minimum,
                                 |rows.instructors|, at)
    ensures Publishes(db, db', plan, at, rows, cutoff) && Inv(db') && CurrentRules(db'.batches)
  {
    PublishKeepsInv(db, db', plan, at, rows, cutoff);
  }
}
