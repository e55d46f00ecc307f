/** Whole histories of the statistics database: every interleaving of start, fail and publish
    transactions from the empty database, together with the chronological publication log. */
module PublicationHistory {
  import opened Wrappers
  import opened Statistics
  import opened Baselines
  import opened Publication

  /** One publication: what it was given, when, and what it wrote. */
  datatype Entry = Entry(plan: Plan, at: Time, rows: Rows, cutoff: Time) {
    function Id(): nat { plan.batchId }
  }

  datatype History = History(db: Db, log: seq<Entry>)

  ghost predicate StepStart(h: History, h': History) {
    && h'.log == h.log
    && exists trigger, cutoff, at, createdAt, minimum, id :: Starts(h.db, h'.db, trigger, cutoff, at, createdAt,
        minimum, id)
  }

  ghost predicate StepFail(h: History, h': History) {
    && h'.log == h.log
    && exists id, at, summary :: IsRunning(h.db, id) && h'.db == FailedDb(h.db, id, at, summary)
  }

  ghost predicate StepPublish(h: History, h': History, e: Entry) {
    && h'.log == h.log + [e] && e.plan.minimum >= 1
    && Publishes(h.db, h'.db, e.plan, e.at, e.rows, e.cutoff)
  }

  ghost predicate Step(h: History, h': History) {
    || StepStart(h, h') || StepFail(h, h')
    || (exists e :: StepPublish(h, h', e))
  }

  ghost predicate Run(run: seq<History>) {
    && run != [] && run[0] == History(EMPTY, [])
    && forall i :: 0 <= i < |run| - 1 ==> Step(run[i], run[i + 1])
  }

  // ------------------------------------------------- what the log remembers

  /** The database's publications are exactly the log's entries. */
  ghost predicate LogMatches(db: Db, log: seq<Entry>) {
    && (forall id :: IsPublished(db.batches, id) ==> exists i :: 0 <= i < |log| && log[i].Id() == id)
    && (forall i :: 0 <= i < |log| ==> EntryStored(db, log[i]))
    && (forall i, j :: 0 <= i < j < |log| ==> log[i].Id() != log[j].Id())
  }

  ghost predicate EntryStored(db: Db, e: Entry) {
    && IsPublished(db.batches, e.Id()) && e.Id() in db.rows && db.rows[e.Id()] == e.rows
    && var b := db.batches[e.Id()];
       b.id == e.Id() && b.publishedAt == Some(e.at) && b.sourceCutoffAt == e.cutoff
           && b.minimumSampleSize == e.plan.minimum
  }

  /** Reader order of two publications: by publication time, then by batch ID. */
  predicate Outranks(a: Entry, b: Entry) { b.at < a.at || (b.at == a.at && b.Id() < a.Id()) }

  ghost predicate HoldsCourse(e: Entry, k: CourseKey) { exists r :: r in e.rows.courses && r.key == k }

  ghost predicate HoldsInstructor(e: Entry, k: InstructorKey) { exists r :: r in e.rows.instructors && r.key == k }

  ghost predicate CourseBaseFrom(prior: seq<Entry>, k: CourseKey, r: CourseRow, j: nat) {
    && j < |prior| && r in prior[j].rows.courses && r.key == k && r.batchId == prior[j].Id()
    && forall i :: 0 <= i < |prior| && i != j && HoldsCourse(prior[i], k) ==> Outranks(prior[j], prior[i])
  }

  ghost predicate InstructorBaseFrom(prior: seq<Entry>, k: InstructorKey, r: InstructorRow, j: nat) {
    && j < |prior| && r in prior[j].rows.instructors && r.key == k && r.batchId == prior[j].Id()
    && forall i :: 0 <= i < |prior| && i != j && HoldsInstructor(prior[i], k) ==> Outranks(prior[j], prior[i])
  }

  /** An entry was planned from the entries before it. */
  ghost predicate Follows(prior: seq<Entry>, e: Entry) {
    && e.plan.minimum >= 1
    && e.rows.courses == e.plan.Courses() && e.rows.instructors == e.plan.Instructors()
    && RowsFiled(e.Id(), e.rows)
    && (forall k :: k in e.plan.courseBase ==> exists j :: CourseBaseFrom(prior, k, e.plan.courseBase[k], j))
    && (forall k :: k in e.plan.instructorBase ==>
        exists j :: InstructorBaseFrom(prior, k, e.plan.instructorBase[k], j))
    && (forall j, k :: 0 <= j < |prior| && HoldsCourse(prior[j], k) ==> k in e.plan.courseBase)
    && (forall j, k :: 0 <= j < |prior| && HoldsInstructor(prior[j], k) ==> k in e.plan.instructorBase)
    && e.cutoff <= e.plan.snapshot.sourceCutoffAt
    && (forall j :: 0 <= j < |prior| && prior[j].Id() in e.plan.Sources() ==> e.cutoff <= prior[j].cutoff)
    && (e.cutoff == e.plan.snapshot.sourceCutoffAt
        || exists j :: 0 <= j < |prior| && prior[j].Id() in e.plan.Sources() && e.cutoff == prior[j].cutoff)
  }

  ghost predicate GoodLog(log: seq<Entry>) {
    forall i :: 0 <= i < |log| ==> Follows(log[..i], log[i])
  }

  ghost predicate HistoryInv(h: History) {
    Inv(h.db) && CurrentRules(h.db.batches) && LogMatches(h.db, h.log) && GoodLog(h.log)
  }

  // ------------------------------------------------------ every run keeps it

  lemma UnpublishedStep(h: History, db': Db)
    requires HistoryInv(h) && Inv(db') && PublishedFrozen(h.db, db') && CurrentRules(db'.batches)
    requires forall id :: IsPublished(db'.batches, id) ==> IsPublished(h.db.batches, id)
    ensures HistoryInv(History(db', h.log))
  {
    forall i | 0 <= i < |h.log| ensures EntryStored(db', h.log[i]) {
      assert EntryStored(h.db, h.log[i]);
      assert SamePublication(h.db, db', h.log[i].Id());
    }
  }

  lemma StartStepKeeps(h: History, h': History)
    requires HistoryInv(h) && StepStart(h, h')
    ensures HistoryInv(h')
  {
    var trigger, cutoff, at, createdAt, minimum, id :|
      Starts(h.db, h'.db, trigger, cutoff, at, createdAt, minimum, id);
    StartKeepsInv(h.db, h'.db, trigger, cutoff, at, createdAt, minimum, id);
    StartOpensNothing(h.db, h'.db, trigger, cutoff, at, createdAt, minimum, id);
    UnpublishedStep(h, h'.db);
  }

  lemma FailStepKeeps(h: History, h': History)
    requires HistoryInv(h) && StepFail(h, h')
    ensures HistoryInv(h')
  {
    var id, at, summary :| IsRunning(h.db, id) && h'.db == FailedDb(h.db, id, at, summary);
    FailKeepsInv(h.db, id, at, summary);
    UnpublishedStep(h, h'.db);
  }

  lemma PublishStepKeeps(h: History, h': History, e: Entry)
    requires HistoryInv(h) && StepPublish(h, h', e)
    ensures HistoryInv(h')
  {
    PublishKeepsInv(h.db, h'.db, e.plan, e.at, e.rows, e.cutoff);
    PublishKeepsMatch(h, h', e);
    PublicationFollows(h, h', e);
    GoodLogGrows(h.log, e);
  }

  lemma PublicationFollows(h: History, h': History, e: Entry)
    requires CurrentRules(h.db.batches) && LogMatches(h.db, h.log) && StepPublish(h, h', e)
    ensures Follows(h.log, e) && CurrentRules(h'.db.batches)
  {
    PlannedRowsFiled(e.plan, e.rows);
    BasesFollow(h.db, h.log, e.plan);
    PlannedSourcesPublished(h.db, e.plan);
    CutoffFollows(h.db, h.log, e);
  }

  lemma CutoffFollows(db: Db, log: seq<Entry>, e: Entry)
    requires LogMatches(db, log) && IsEarliest(db.batches, e.plan.Sources(), e.plan.snapshot.sourceCutoffAt, e.cutoff)
    requires forall id :: id in e.plan.Sources() ==> IsPublished(db.batches, id)
    ensures e.cutoff <= e.plan.snapshot.sourceCutoffAt
    ensures forall j :: 0 <= j < |log| && log[j].Id() in e.plan.Sources() ==> e.cutoff <= log[j].cutoff
    ensures e.cutoff == e.plan.snapshot.sourceCutoffAt
            || exists j :: 0 <= j < |log| && log[j].Id() in e.plan.Sources() && e.cutoff == log[j].cutoff
  {
    if e.cutoff != e.plan.snapshot.sourceCutoffAt {
      var id :| id in e.plan.Sources() && e.cutoff == db.batches[id].sourceCutoffAt;
      var j: nat :| j < |log| && log[j].Id() == id;
      assert EntryStored(db, log[j]);
    }
    forall j | 0 <= j < |log| && log[j].Id() in e.plan.Sources() ensures e.cutoff <= log[j].cutoff {
      assert EntryStored(db, log[j]);
    }
  }

  lemma GoodLogGrows(log: seq<Entry>, e: Entry)
    requires GoodLog(log) && Follows(log, e)
    ensures GoodLog(log + [e])
  {
    var log' := log + [e];
    assert log'[..|log|] == log;
    forall i | 0 <= i < |log'| ensures Follows(log'[..i], log'[i]) {
      if i < |log| { assert log'[..i] == log[..i]; }
    }
  }

  lemma PublishKeepsMatch(h: History, h': History, e: Entry)
    requires LogMatches(h.db, h.log) && PublishedFrozen(h.db, h'.db) && IdsMatch(h'.db.batches)
    requires StepPublish(h, h', e)
    ensures LogMatches(h'.db, h'.log)
  {
    NewEntryStored(h, h', e);
    forall i | 0 <= i < |h.log| ensures EntryStored(h'.db, h.log[i]) && h.log[i].Id() != e.Id() {
      assert EntryStored(h.db, h.log[i]);
      assert SamePublication(h.db, h'.db, h.log[i].Id());
    }
    forall id | IsPublished(h'.db.batches, id) ensures exists i :: 0 <= i < |h'.log| && h'.log[i].Id() == id {
      assert id != e.Id() ==> IsPublished(h.db.batches, id);
      LoggedOrNew(h.log, e, id);
    }
  }

  lemma LoggedOrNew(log: seq<Entry>, e: Entry, id: nat)
    requires id != e.Id() ==> exists i :: 0 <= i < |log| && log[i].Id() == id
    ensures exists i :: 0 <= i < |log + [e]| && (log + [e])[i].Id() == id
  {
    var longer := log + [e];
    if id == e.Id() {
      assert longer[|log|].Id() == id;
    } else {
      var i :| 0 <= i < |log| && log[i].Id() == id;
      assert longer[i].Id() == id;
    }
  }

  lemma NewEntryStored(h: History, h': History, e: Entry)
    requires StepPublish(h, h', e) && IdsMatch(h'.db.batches)
    ensures EntryStored(h'.db, e) && !IsPublished(h.db.batches, e.Id())
    ensures forall id :: id != e.Id() && IsPublished(h'.db.batches, id) ==> IsPublished(h.db.batches, id)
  {}

  /** The SQL baselines are the log's: top-ranked among all earlier publications of the cohort. */
  lemma BasesFollow(db: Db, log: seq<Entry>, plan: Plan)
    requires LogMatches(db, log) && CurrentRules(db.batches) && ReadsBaselines(db, plan)
    ensures forall k :: k in plan.courseBase ==> exists j :: CourseBaseFrom(log, k, plan.courseBase[k], j)
    ensures forall k :: k in plan.instructorBase ==> exists j :: InstructorBaseFrom(log, k, plan.instructorBase[k], j)
    ensures forall j, k :: 0 <= j < |log| && HoldsCourse(log[j], k) ==> k in plan.courseBase
    ensures forall j, k :: 0 <= j < |log| && HoldsInstructor(log[j], k) ==> k in plan.instructorBase
  {
    forall k | k in plan.courseBase ensures exists j :: CourseBaseFrom(log, k, plan.courseBase[k], j) {
      CourseBaseFollows(db, log, k, plan.courseBase[k]);
    }
    forall k | k in plan.instructorBase ensures exists j :: InstructorBaseFrom(log, k, plan.instructorBase[k], j) {
      InstructorBaseFollows(db, log, k, plan.instructorBase[k]);
    }
    forall j, k | 0 <= j < |log| && HoldsCourse(log[j], k) ensures k in plan.courseBase {
      EntryEligible(db, log, j);
      assert Holds(CourseTable(db.rows), CourseKeyOf, log[j].Id(), k);
    }
    forall j, k | 0 <= j < |log| && HoldsInstructor(log[j], k) ensures k in plan.instructorBase {
      EntryEligible(db, log, j);
      assert Holds(InstructorTable(db.rows), InstructorKeyOf, log[j].Id(), k);
    }
  }

  lemma EntryEligible(db: Db, log: seq<Entry>, i: nat)
    requires LogMatches(db, log) && CurrentRules(db.batches) && i < |log|
    ensures Eligible(db.batches, log[i].Id()) && log[i].Id() in db.rows && db.rows[log[i].Id()] == log[i].rows
    ensures db.batches[log[i].Id()].id == log[i].Id() && db.batches[log[i].Id()].publishedAt == Some(log[i].at)
  {
    assert EntryStored(db, log[i]);
  }

  lemma CourseBaseFollows(db: Db, log: seq<Entry>, k: CourseKey, r: CourseRow)
    requires LogMatches(db, log) && CurrentRules(db.batches)
    requires IsTop(db.batches, CourseTable(db.rows), CourseKeyOf, CourseBatchOf, k, r)
    ensures exists j :: CourseBaseFrom(log, k, r, j)
  {
    assert IsPublished(db.batches, r.batchId);
    var j: nat :| j < |log| && log[j].Id() == r.batchId;
    EntryEligible(db, log, j);
    forall i | 0 <= i < |log| && i != j && HoldsCourse(log[i], k) ensures Outranks(log[j], log[i]) {
      EntryEligible(db, log, i);
      assert Holds(CourseTable(db.rows), CourseKeyOf, log[i].Id(), k);
      assert log[i].Id() != log[j].Id();
    }
    assert CourseBaseFrom(log, k, r, j);
  }

  lemma InstructorBaseFollows(db: Db, log: seq<Entry>, k: InstructorKey, r: InstructorRow)
    requires LogMatches(db, log) && CurrentRules(db.batches)
    requires IsTop(db.batches, InstructorTable(db.rows), InstructorKeyOf, InstructorBatchOf, k, r)
    ensures exists j :: InstructorBaseFrom(log, k, r, j)
  {
    assert IsPublished(db.batches, r.batchId);
    var j: nat :| j < |log| && log[j].Id() == r.batchId;
    EntryEligible(db, log, j);
    forall i | 0 <= i < |log| && i != j && HoldsInstructor(log[i], k) ensures Outranks(log[j], log[i]) {
      EntryEligible(db, log, i);
      assert Holds(InstructorTable(db.rows), InstructorKeyOf, log[i].Id(), k);
      assert log[i].Id() != log[j].Id();
    }
    assert InstructorBaseFrom(log, k, r, j);
  }

  /** The state machine's invariant holds in every reachable state, whatever the interleaving. */
  lemma {:induction false} EveryRunKeepsInv(run: seq<History>)
    requires Run(run)
    ensures HistoryInv(run[|run| - 1])
  {
    if |run| > 1 {
      var front := run[..|run| - 1];
      EveryRunKeepsInv(front);
      var h, h' := run[|run| - 2], run[|run| - 1];
      assert Step(h, h');
      if StepStart(h, h') { StartStepKeeps(h, h'); }
      else if StepFail(h, h') { FailStepKeeps(h, h'); }
      else { var e :| StepPublish(h, h', e); PublishStepKeeps(h, h', e); }
    }
  }

  lemma StepFreezes(h: History, h': History)
    requires HistoryInv(h) && Step(h, h')
    ensures PublishedFrozen(h.db, h'.db)
  {
    if StepStart(h, h') {
      var trigger, cutoff, at, createdAt, minimum, id :| Starts(h.db, h'.db, trigger, cutoff, at, createdAt,
          minimum, id);
      StartKeepsInv(h.db, h'.db, trigger, cutoff, at, createdAt, minimum, id);
    } else if StepFail(h, h') {
      var id, at, summary :| IsRunning(h.db, id) && h'.db == FailedDb(h.db, id, at, summary);
      FailKeepsInv(h.db, id, at, summary);
    } else {
      var e :| StepPublish(h, h', e);
      PublishKeepsInv(h.db, h'.db, e.plan, e.at, e.rows, e.cutoff);
    }
  }

  lemma StepInRun(run: seq<History>, j: nat)
    requires Run(run) && 0 < j < |run|
    ensures PublishedFrozen(run[j - 1].db, run[j].db)
  {
    InvAt(run, j - 1);
    assert Step(run[j - 1], run[j - 1 + 1]);
    StepFreezes(run[j - 1], run[j]);
  }

  lemma InvAt(run: seq<History>, n: nat)
    requires Run(run) && n < |run|
    ensures HistoryInv(run[n])
  {
    var front := run[..n + 1];
    forall i | 0 <= i < |front| - 1 ensures Step(front[i], front[i + 1]) {
      assert Step(run[i], run[i + 1]);
    }
    EveryRunKeepsInv(front);
  }

  /** A published batch and all its rows are never changed or removed by anything later. */
  lemma {:induction false} PublishedForever(run: seq<History>, i: nat, j: nat, id: nat)
    requires Run(run) && i <= j < |run| && IsPublished(run[i].db.batches, id)
    ensures IsPublished(run[j].db.batches, id) && SamePublication(run[i].db, run[j].db, id)
    decreases j
  {
    if i < j {
      PublishedForever(run, i, j - 1, id);
      StepInRun(run, j);
      SameTwice(run[i].db, run[j - 1].db, run[j].db, id);
    } else {
      InvAt(run, i);
      PublishedHasRows(run[i].db, id);
    }
  }

  lemma PublishedHasRows(db: Db, id: nat)
    requires RowsInv(db) && IsPublished(db.batches, id)
    ensures id in db.rows
  {}

  lemma SameTwice(a: Db, b: Db, c: Db, id: nat)
    requires IsPublished(a.batches, id) && IsPublished(b.batches, id) && SamePublication(a, b, id)
    requires PublishedFrozen(b, c)
    ensures IsPublished(c.batches, id) && SamePublication(a, c, id)
  {
    assert SamePublication(b, c, id);
  }
}
