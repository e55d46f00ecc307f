/** Many workers, one advisory lock, one database: the publication workflow as a step protocol.
    Workers may crash at any point, publications may commit without the worker learning of it,
    and the clock only moves forward. */
module RunProtocol {
  import opened Wrappers
  import opened Statistics
  import opened Baselines
  import opened Publication

  const HOUR: Time := 3600 * 1000
  const DAY: Time := 24 * HOUR

  // ------------------------------------------------------------- schedule

  /** The configured hour of the local day containing `now`, in a zone at a fixed offset. */
  function ScheduledAt(now: Time, offset: Time, hour: int): Time {
    (now + offset) / DAY * DAY + hour * HOUR - offset
  }

  predicate IsDue(now: Time, offset: Time, hour: int) { now >= ScheduledAt(now, offset, hour) }

  function UntilNextSchedule(now: Time, offset: Time, hour: int): Time {
    var next := ScheduledAt(now, offset, hour);
    if next > now then next - now else next + DAY - now
  }

  /** Waking up after the delay is waking up exactly at a scheduled instant, the first one after `now`. */
  lemma WakesAtTheNextSchedule(now: Time, offset: Time, hour: int)
    requires 0 <= hour < 24
    ensures var wake := now + UntilNextSchedule(now, offset, hour);
            && wake == ScheduledAt(wake, offset, hour) && IsDue(wake, offset, hour)
            && 0 < wake - now <= DAY && (wake + offset) % 86400000 == hour * 3600000
            && forall t :: now < t < wake ==> ScheduledAt(t, offset, hour) != t
  {
    var day := (now + offset) / DAY;
    var wake := now + UntilNextSchedule(now, offset, hour);
    SameDay(now, offset);
    var wakeDay := if day * DAY + hour * HOUR > now + offset then day else day + 1;
    assert wake + offset == wakeDay * DAY + hour * HOUR;
    DayOf(wake + offset, wakeDay);
    forall t | now < t < wake ensures ScheduledAt(t, offset, hour) != t {
      SameDay(t, offset);
    }
  }

  /** The scheduled instant is the configured hour of the local day of `now`, and a run is due from then on. */
  lemma ScheduledOnTheDay(now: Time, offset: Time, hour: int)
    requires 0 <= hour < 24
    ensures var local, scheduled := now + offset, ScheduledAt(now, offset, hour) + offset;
            && scheduled / 86400000 == local / 86400000 && scheduled % 86400000 == hour * 3600000
            && (IsDue(now, offset, hour) <==> local % 86400000 >= hour * 3600000)
  {
    var day := (now + offset) / DAY;
    SameDay(now, offset);
    DayOf(day * DAY + hour * HOUR, day);
  }

  lemma SameDay(t: Time, offset: Time)
    ensures (t + offset) / DAY * DAY <= t + offset < (t + offset) / DAY * DAY + DAY
  {}

  lemma DayOf(x: Time, d: int)
    requires d * DAY <= x < d * DAY + DAY
    ensures x / DAY == d
  {}

  // ---------------------------------------------------------------- workers

  /** What a worker holding the lock was asked to do. */
  datatype Job = Due(scheduledAt: Time) | Requested(trigger: Trigger)
  {
    function Cause(): Trigger { if Due? then ScheduledTrigger() else trigger }
  }

  /** Where a worker is.  Every state but Idle is inside the lock. */
  datatype Pc =
    | Idle
    | Locked(job: Job)                     // lock acquired, nothing read yet
    | Checked(job: Job)                    // not published since the schedule, or not a daily run
    | Started(job: Job, batchId: nat)      // a running batch is recorded
    | Aggregated(job: Job, batchId: nat)   // the source delivered a snapshot
    | Failing(batchId: nat)                // the failure is still to be recorded
    | Finished(ran: Option<Time>)          // about to release the lock and return; Some: published for that schedule

  datatype World = World(db: Db, lock: Option<nat>, clock: Time, workers: map<nat, Pc>, ran: seq<Time>)

  function At(w: World, i: nat): Pc { if i in w.workers then w.workers[i] else Idle }

  function Move(w: World, i: nat, pc: Pc): World { w.(workers := w.workers[i := pc]) }

  /** `publishedAfterSchedule` of the latest published batch. */
  ghost predicate PublishedSince(db: Db, at: Time) {
    exists id :: Eligible(db.batches, id) && db.batches[id].publishedAt.Some? && at <= db.batches[id].publishedAt.value
  }

  ghost predicate Tick(w: World, w': World) { w' == w.(clock := w'.clock) && w.clock <= w'.clock }

  /** A daily run names the schedule of a moment that has passed and was due. */
  ghost predicate TryLock(w: World, w': World, i: nat, job: Job, offset: Time, hour: int) {
    && At(w, i).Idle? && w.lock.None?
    && (job.Due? ==>
        exists now :: now <= w.clock && IsDue(now, offset, hour) && job.scheduledAt == ScheduledAt(now, offset, hour))
    && w' == Move(w, i, Locked(job)).(lock := Some(i))
  }

  ghost predicate Check(w: World, w': World, i: nat) {
    && At(w, i).Locked?
    && var job := At(w, i).job;
       w' == Move(w, i, if job.Due? && LatestSince(w.db, job.scheduledAt) then Finished(None) else Checked(job))
  }

  /** The reader's latest publication is no older than the schedule. */
  ghost predicate LatestSince(db: Db, at: Time) {
    exists id :: Eligible(db.batches, id) && db.batches[id].publishedAt.Some? && at <= db.batches[id].publishedAt.value
                 && forall other :: Eligible(db.batches, other) && other != id ==>
                     RanksBelow(db.batches[other], db.batches[id])
  }

  ghost predicate Start(w: World, w': World, i: nat, minimum: int, id: nat) {
    && At(w, i).Checked?
    && var job := At(w, i).job;
       && Starts(w.db, w'.db, job.Cause(), w.clock, w.clock, w.clock, minimum, id)
       && w' == Move(w, i, if IsPublished(w'.db.batches, id) then Finished(None) else Started(job, id)).(db := w'.db)
  }

  /** The source aggregation runs; `delivered` says whether it returned a valid snapshot. */
  ghost predicate Aggregate(w: World, w': World, i: nat, delivered: bool) {
    && At(w, i).Started?
    && var pc := At(w, i);
       w' == Move(w, i, if delivered then Aggregated(pc.job, pc.batchId) else Failing(pc.batchId))
  }

  /** `acknowledged` is false when the transaction committed but the worker saw an error. */
  ghost predicate Publish(w: World, w': World, i: nat, plan: Plan, rows: Rows, cutoff: Time, acknowledged: bool) {
    && At(w, i).Aggregated?
    && var pc := At(w, i);
       && plan.batchId == pc.batchId && plan.minimum >= 1 && Publishes(w.db, w'.db, plan, w.clock, rows, cutoff)
       && var done := Finished(if pc.job.Due? then Some(pc.job.scheduledAt) else None);
          w' == Move(w, i, if acknowledged then done else Failing(pc.batchId)).(db := w'.db)
  }

  ghost predicate PublishRolledBack(w: World, w': World, i: nat) {
    At(w, i).Aggregated? && w' == Move(w, i, Failing(At(w, i).batchId))
  }

  ghost predicate Fail(w: World, w': World, i: nat, summary: string) {
    && At(w, i).Failing?
    && var id := At(w, i).batchId;
       w' == Move(w, i, Finished(None)).(
         db := if IsRunning(w.db, id) then FailedDb(w.db, id, w.clock, summary) else w.db)
  }

  /** The lock is released and the call returns; a release error turns the answer into `false`. */
  ghost predicate Return(w: World, w': World, i: nat, released: bool) {
    && At(w, i).Finished?
    && var answer := At(w, i).ran;
       w' == Move(w, i, Idle).(lock := None, ran := if answer.Some? && released then w.ran + [answer.value] else w.ran)
  }

  /** A worker dies: its connection, and with it the lock, is gone. */
  ghost predicate Crash(w: World, w': World, i: nat) {
    !At(w, i).Idle? && w' == Move(w, i, Idle).(lock := None)
  }

  ghost predicate Next(w: World, w': World, offset: Time, hour: int) {
    || Tick(w, w')
    || (exists i, job :: TryLock(w, w', i, job, offset, hour))
    || (exists i :: Check(w, w', i))
    || (exists i, minimum, id :: Start(w, w', i, minimum, id))
    || (exists i, delivered :: Aggregate(w, w', i, delivered))
    || (exists i, plan, rows, cutoff, acknowledged :: Publish(w, w', i, plan, rows, cutoff, acknowledged))
    || (exists i :: PublishRolledBack(w, w', i))
    || (exists i, summary :: Fail(w, w', i, summary))
    || (exists i, released :: Return(w, w', i, released))
    || (exists i :: Crash(w, w', i))
  }

  ghost predicate Execution(run: seq<World>, offset: Time, hour: int) {
    && run != [] && run[0].db == EMPTY && run[0].lock.None? && run[0].workers == map[] && run[0].ran == []
    && forall n :: 0 <= n < |run| - 1 ==> Next(run[n], run[n + 1], offset, hour)
  }

  // --------------------------------------------------------------- invariant

  ghost predicate Exclusive(w: World) {
    forall i: nat :: !At(w, i).Idle? ==> w.lock == Some(i)
  }

  /** What a worker inside the lock can rely on. */
  ghost predicate PcInv(db: Db, clock: Time, ran: seq<Time>, pc: Pc) {
    match pc
    case Idle => true
    case Locked(job) => job.Due? ==> job.scheduledAt <= clock
    case Checked(job) => job.Due? ==> job.scheduledAt <= clock && !PublishedSince(db, job.scheduledAt)
    case Started(job, id) =>
      (job.Due? ==> job.scheduledAt <= clock && !PublishedSince(db, job.scheduledAt))
      && IsRunning(db, id) && db.batches[id].trigger.taskId == job.Cause().taskId
    case Aggregated(job, id) =>
      (job.Due? ==> job.scheduledAt <= clock && !PublishedSince(db, job.scheduledAt)) && IsRunning(db, id)
    case Failing(id) => true
    case Finished(answer) => answer.Some? ==> PublishedSince(db, answer.value) && answer.value !in ran
  }

  ghost predicate RanOnce(db: Db, ran: seq<Time>) {
    && (forall s :: s in ran ==> PublishedSince(db, s))
    && (forall a, b :: 0 <= a < b < |ran| ==> ran[a] != ran[b])
  }

  ghost predicate WorldInv(w: World) {
    && Inv(w.db) && CurrentRules(w.db.batches) && Exclusive(w)
    && RanOnce(w.db, w.ran) && forall i: nat :: PcInv(w.db, w.clock, w.ran, At(w, i))
  }

  lemma LatestSinceExactly(db: Db, at: Time)
    requires Inv(db)
    ensures LatestSince(db, at) <==> PublishedSince(db, at)
  {
    if PublishedSince(db, at) {
      var id :| Eligible(db.batches, id) && db.batches[id].publishedAt.Some? && at <= db.batches[id].publishedAt.value;
      var top := Highest(db, db.batches.Keys, id);
      TopIsLatest(db, id, top, at);
    }
  }

  lemma TopIsLatest(db: Db, id: nat, top: nat, at: Time)
    requires Eligible(db.batches, id) && db.batches[id].publishedAt.Some? && at <= db.batches[id].publishedAt.value
    requires Eligible(db.batches, top)
    requires forall other :: Eligible(db.batches, other) && other != top ==>
               RanksBelow(db.batches[other], db.batches[top])
    ensures LatestSince(db, at)
  {
    assert id != top ==> RanksBelow(db.batches[id], db.batches[top]);
    assert db.batches[top].publishedAt.Some? && at <= db.batches[top].publishedAt.value;
  }

  /** A finite, non-empty set of eligible batches has a highest-ranked one. */
  lemma {:induction false} Highest(db: Db, ids: set<nat>, some: nat) returns (top: nat)
    requires IdsMatch(db.batches) && some in ids && Eligible(db.batches, some)
    ensures top in ids && Eligible(db.batches, top)
    ensures forall id :: id in ids && Eligible(db.batches, id) && id != top ==>
              RanksBelow(db.batches[id], db.batches[top])
    decreases ids
  {
    var rest := set id | id in ids && id != some && Eligible(db.batches, id);
    if rest == {} {
      top := some;
      assert forall id :: id in ids && Eligible(db.batches, id) && id != top ==> id in rest;
    } else {
      var other :| other in rest;
      assert rest < ids;
      top := Highest(db, rest, other);
      if RanksBelow(db.batches[top], db.batches[some]) {
        top := some;
      }
      forall id | id in ids && Eligible(db.batches, id) && id != top
        ensures RanksBelow(db.batches[id], db.batches[top])
      {
        assert id == some || id in rest;
      }
    }
  }

  // ------------------------------------------------------ every step keeps it

  /** A step of the lock holder only has to account for itself. */
  lemma HolderMoves(w: World, w': World, i: nat)
    requires Exclusive(w) && (At(w, i).Idle? ==> w.lock.None?)
    requires forall j: nat :: j != i ==> At(w', j) == At(w, j)
    requires At(w', i).Idle? || w'.lock == Some(i)
    requires Inv(w'.db) && CurrentRules(w'.db.batches) && RanOnce(w'.db, w'.ran)
    requires PcInv(w'.db, w'.clock, w'.ran, At(w', i))
    ensures WorldInv(w')
  {
    forall j: nat ensures (!At(w', j).Idle? ==> w'.lock == Some(j)) && PcInv(w'.db, w'.clock, w'.ran, At(w', j)) {
      if j != i && !At(w, j).Idle? { assert w.lock == Some(j); }
    }
  }

  lemma TickKeeps(w: World, w': World)
    requires WorldInv(w) && Tick(w, w')
    ensures WorldInv(w')
  {
    forall i: nat ensures PcInv(w'.db, w'.clock, w'.ran, At(w', i)) {
      assert At(w', i) == At(w, i) && PcInv(w.db, w.clock, w.ran, At(w, i));
    }
    assert forall i: nat :: At(w', i) == At(w, i);
  }

  lemma LockKeeps(w: World, w': World, i: nat, job: Job, offset: Time, hour: int)
    requires WorldInv(w) && TryLock(w, w', i, job, offset, hour)
    ensures WorldInv(w')
  {
    HolderMoves(w, w', i);
  }

  lemma CheckKeeps(w: World, w': World, i: nat)
    requires WorldInv(w) && Check(w, w', i)
    ensures WorldInv(w')
  {
    assert PcInv(w.db, w.clock, w.ran, At(w, i));
    if At(w, i).job.Due? { LatestSinceExactly(w.db, At(w, i).job.scheduledAt); }
    HolderMoves(w, w', i);
  }

  /** Readers see the same publications before and after. */
  lemma FrozenViews(db: Db, db': Db, at: Time)
    requires CurrentRules(db.batches) && CurrentRules(db'.batches) && PublishedFrozen(db, db')
    ensures PublishedSince(db, at) ==> PublishedSince(db', at)
    ensures (forall id :: IsPublished(db'.batches, id) ==> IsPublished(db.batches, id)) ==>
              (PublishedSince(db', at) ==> PublishedSince(db, at))
  {
    if PublishedSince(db, at) {
      var id :| Eligible(db.batches, id) && db.batches[id].publishedAt.Some? && at <= db.batches[id].publishedAt.value;
      assert SamePublication(db, db', id);
    }
    if PublishedSince(db', at) && forall id :: IsPublished(db'.batches, id) ==> IsPublished(db.batches, id) {
      var id :| Eligible(db'.batches, id) && db'.batches[id].publishedAt.Some?
          && at <= db'.batches[id].publishedAt.value;
      assert IsPublished(db'.batches, id) && SamePublication(db, db', id);
    }
  }

  lemma FrozenRanOnce(db: Db, db': Db, ran: seq<Time>)
    requires CurrentRules(db.batches) && CurrentRules(db'.batches) && PublishedFrozen(db, db') && RanOnce(db, ran)
    ensures RanOnce(db', ran)
  {
    forall s | s in ran ensures PublishedSince(db', s) { FrozenViews(db, db', s); }
  }

  lemma StartKeeps(w: World, w': World, i: nat, minimum: int, id: nat)
    requires WorldInv(w) && Start(w, w', i, minimum, id)
    ensures WorldInv(w')
  {
    var job := At(w, i).job;
    assert PcInv(w.db, w.clock, w.ran, At(w, i));
    StartKeepsInv(w.db, w'.db, job.Cause(), w.clock, w.clock, w.clock, minimum, id);
    StartOpensNothing(w.db, w'.db, job.Cause(), w.clock, w.clock, w.clock, minimum, id);
    if job.Due? { FrozenViews(w.db, w'.db, job.scheduledAt); }
    FrozenRanOnce(w.db, w'.db, w.ran);
    HolderMoves(w, w', i);
  }

  lemma AggregateKeeps(w: World, w': World, i: nat, delivered: bool)
    requires WorldInv(w) && Aggregate(w, w', i, delivered)
    ensures WorldInv(w')
  {
    assert PcInv(w.db, w.clock, w.ran, At(w, i));
    HolderMoves(w, w', i);
  }

  lemma PublicationVisible(db: Db, db': Db, plan: Plan, at: Time, rows: Rows, cutoff: Time, ran: seq<Time>)
    requires Inv(db) && CurrentRules(db.batches) && RanOnce(db, ran) && Publishes(db, db', plan, at, rows, cutoff)
    ensures Inv(db') && CurrentRules(db'.batches) && RanOnce(db', ran)
    ensures forall s :: s <= at ==> PublishedSince(db', s)
  {
    PublishKeepsInv(db, db', plan, at, rows, cutoff);
    PublishedNow(db, db', plan, at, rows, cutoff);
    FrozenRanOnce(db, db', ran);
  }

  lemma PublishedNow(db: Db, db': Db, plan: Plan, at: Time, rows: Rows, cutoff: Time)
    requires CurrentRules(db.batches) && Publishes(db, db', plan, at, rows, cutoff)
    ensures CurrentRules(db'.batches)
    ensures Eligible(db'.batches, plan.batchId) && db'.batches[plan.batchId].publishedAt == Some(at)
  {}

  lemma PublishKeeps(w: World, w': World, i: nat, plan: Plan, rows: Rows, cutoff: Time, acknowledged: bool)
    requires WorldInv(w) && Publish(w, w', i, plan, rows, cutoff, acknowledged)
    ensures WorldInv(w')
  {
    PublicationVisible(w.db, w'.db, plan, w.clock, rows, cutoff, w.ran);
    AnswersOnce(w, w', i, plan, rows, cutoff, acknowledged);
    HolderMoves(w, w', i);
  }

  /** The schedule a worker publishes for was not reported before. */
  lemma AnswersOnce(w: World, w': World, i: nat, plan: Plan, rows: Rows, cutoff: Time, acknowledged: bool)
    requires RanOnce(w.db, w.ran) && PcInv(w.db, w.clock, w.ran, At(w, i))
    requires Publish(w, w', i, plan, rows, cutoff, acknowledged)
    requires forall s :: s <= w.clock ==> PublishedSince(w'.db, s)
    ensures PcInv(w'.db, w'.clock, w'.ran, At(w', i))
  {}

  lemma FailKeeps(w: World, w': World, i: nat, summary: string)
    requires WorldInv(w) && Fail(w, w', i, summary)
    ensures WorldInv(w')
  {
    var id := At(w, i).batchId;
    if IsRunning(w.db, id) {
      FailKeepsInv(w.db, id, w.clock, summary);
      FrozenRanOnce(w.db, w'.db, w.ran);
    }
    HolderMoves(w, w', i);
  }

  lemma ReturnKeeps(w: World, w': World, i: nat, released: bool)
    requires WorldInv(w) && Return(w, w', i, released)
    ensures WorldInv(w')
  {
    assert PcInv(w.db, w.clock, w.ran, At(w, i));
    HolderMoves(w, w', i);
  }

  lemma NextKeeps(w: World, w': World, offset: Time, hour: int)
    requires WorldInv(w) && Next(w, w', offset, hour)
    ensures WorldInv(w')
  {
    if Tick(w, w') { TickKeeps(w, w'); }
    else if i, job :| TryLock(w, w', i, job, offset, hour) { LockKeeps(w, w', i, job, offset, hour); }
    else if i :| Check(w, w', i) { CheckKeeps(w, w', i); }
    else if i, minimum, id :| Start(w, w', i, minimum, id) { StartKeeps(w, w', i, minimum, id); }
    else if i, delivered :| Aggregate(w, w', i, delivered) { AggregateKeeps(w, w', i, delivered); }
    else if i, plan, rows, cutoff, acknowledged :| Publish(w, w', i, plan, rows, cutoff, acknowledged) {
      PublishKeeps(w, w', i, plan, rows, cutoff, acknowledged);
    }
    else if i :| PublishRolledBack(w, w', i) { HolderMoves(w, w', i); }
    else if i, summary :| Fail(w, w', i, summary) { FailKeeps(w, w', i, summary); }
    else if i, released :| Return(w, w', i, released) { ReturnKeeps(w, w', i, released); }
    else { var i :| Crash(w, w', i); HolderMoves(w, w', i); }
  }

  lemma {:induction false} EveryExecutionKeepsInv(run: seq<World>, offset: Time, hour: int)
    requires Execution(run, offset, hour)
    ensures WorldInv(run[|run| - 1])
  {
    if |run| > 1 {
      EveryExecutionKeepsInv(run[..|run| - 1], offset, hour);
      assert Next(run[|run| - 2], run[|run| - 2 + 1], offset, hour);
      NextKeeps(run[|run| - 2], run[|run| - 1], offset, hour);
    }
  }

  /** Across all workers, crashes and restarts, at most one daily run reports having run for a given
      scheduled instant, and whenever one does a batch published at or after that instant exists. */
  lemma OncePerSchedule(run: seq<World>, offset: Time, hour: int)
    requires Execution(run, offset, hour)
    ensures var w := run[|run| - 1];
            (forall a, b :: 0 <= a < b < |w.ran| ==> w.ran[a] != w.ran[b])
            && forall s :: s in w.ran ==> PublishedSince(w.db, s)
  {
    EveryExecutionKeepsInv(run, offset, hour);
  }

  /** A retried task whose batch is published is answered from that batch: no worker about to
      aggregate, nor one that has aggregated, carries a published task. */
  lemma PublishedTaskIsNotAggregated(run: seq<World>, offset: Time, hour: int, i: nat, task: string)
    requires Execution(run, offset, hour)
    requires var w := run[|run| - 1]; At(w, i).Started? && At(w, i).job.Cause().taskId == Some(task)
    ensures var w := run[|run| - 1];
            forall id :: IsPublished(w.db.batches, id) ==> w.db.batches[id].trigger.taskId != Some(task)
  {
    EveryExecutionKeepsInv(run, offset, hour);
    var w := run[|run| - 1];
    assert PcInv(w.db, w.clock, w.ran, At(w, i));
  }

  /** Starting a task that has a published batch answers with exactly that batch. */
  lemma PublishedTaskIsAnswered(
    db: Db, db': Db, trigger: Trigger, at: Time, createdAt: Time, minimum: int, id: nat, published: nat)
    requires Inv(db) && Starts(db, db', trigger, at, at, createdAt, minimum, id)
    requires trigger.taskId.Some? && IsPublished(db.batches, published)
    requires db.batches[published].trigger.taskId == trigger.taskId
    ensures id == published && db'.batches[id] == db.batches[id]
  {
    RecoveryKeepsBatches(db.batches, db.nextId, at);
    assert CarriesTask(Recovered(db.batches, at), trigger.taskId, published);
  }
}
