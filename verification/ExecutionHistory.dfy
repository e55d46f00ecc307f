/** What workers do is a history of the database: every execution of the lock protocol takes its database through
    a run of transactions whose publication times never decrease, so all that is proved of runs holds of it. */
module ExecutionHistory {
  import opened Statistics
  import opened Privacy
  import opened Publication
  import opened PublicationHistory
  import opened PublicationTheorems
  import opened RunProtocol

  /** Publication times never decrease, and none lies ahead of the clock. */
  ghost predicate Ordered(log: seq<Entry>, clock: Time) {
    && (forall i, j :: 0 <= i < j < |log| ==> log[i].at <= log[j].at)
    && (forall i :: 0 <= i < |log| ==> log[i].at <= clock)
  }

  /** `place[n]` is where the history stands when the execution is in its state `n`. */
  ghost predicate Accompanies(run: seq<World>, history: seq<History>, place: seq<nat>) {
    && |place| == |run| > 0 && place[|run| - 1] == |history| - 1
    && (forall n, m :: 0 <= n < m < |run| ==> place[n] <= place[m])
    && (forall n :: 0 <= n < |run| ==> place[n] < |history| && history[place[n]].db == run[n].db)
  }

  ghost predicate Projects(run: seq<World>, history: seq<History>, place: seq<nat>) {
    && Run(history) && Accompanies(run, history, place)
    && Ordered(history[|history| - 1].log, run[|run| - 1].clock)
  }

  /** One step of the workers is a transaction of the database, or leaves it alone. */
  lemma NextProjects(w: World, w': World, log: seq<Entry>, offset: Time, hour: int) returns (log': seq<Entry>)
    requires Next(w, w', offset, hour) && Ordered(log, w.clock)
    ensures Ordered(log', w'.clock)
    ensures (w'.db == w.db && log' == log) || Step(History(w.db, log), History(w'.db, log'))
  {
    log' := log;
    if i, minimum, id :| Start(w, w', i, minimum, id) {
      StartProjects(w, w', i, minimum, id, log);
    } else if i, plan, rows, cutoff, acknowledged :| Publish(w, w', i, plan, rows, cutoff, acknowledged) {
      log' := log + [Entry(plan, w.clock, rows, cutoff)];
      PublishProjects(w, w', i, plan, rows, cutoff, acknowledged, log);
    } else if i, summary :| Fail(w, w', i, summary) {
      FailProjects(w, w', i, summary, log);
    } else {
      OtherStepsRead(w, w', offset, hour);
      OrderedLater(log, w.clock, w'.clock);
    }
  }

  lemma OrderedLater(log: seq<Entry>, clock: Time, later: Time)
    requires Ordered(log, clock) && clock <= later
    ensures Ordered(log, later)
  {}

  lemma OtherStepsRead(w: World, w': World, offset: Time, hour: int)
    requires Next(w, w', offset, hour)
    requires !exists i, minimum, id :: Start(w, w', i, minimum, id)
    requires !exists i, plan, rows, cutoff, acknowledged :: Publish(w, w', i, plan, rows, cutoff, acknowledged)
    requires !exists i, summary :: Fail(w, w', i, summary)
    ensures w'.db == w.db && w.clock <= w'.clock
  {}

  lemma StartProjects(w: World, w': World, i: nat, minimum: int, id: nat, log: seq<Entry>)
    requires Start(w, w', i, minimum, id)
    ensures w'.clock == w.clock && Step(History(w.db, log), History(w'.db, log))
  {
    assert StepStart(History(w.db, log), History(w'.db, log));
  }

  lemma PublishProjects(
    w: World, w': World, i: nat, plan: Plan, rows: Rows, cutoff: Time, acknowledged: bool, log: seq<Entry>)
    requires Publish(w, w', i, plan, rows, cutoff, acknowledged) && Ordered(log, w.clock)
    ensures Ordered(log + [Entry(plan, w.clock, rows, cutoff)], w'.clock)
    ensures Step(History(w.db, log), History(w'.db, log + [Entry(plan, w.clock, rows, cutoff)]))
  {
    var e := Entry(plan, w.clock, rows, cutoff);
    assert StepPublish(History(w.db, log), History(w'.db, log + [e]), e);
  }

  lemma FailProjects(w: World, w': World, i: nat, summary: string, log: seq<Entry>)
    requires Fail(w, w', i, summary)
    ensures w'.clock == w.clock && (w'.db == w.db || Step(History(w.db, log), History(w'.db, log)))
  {
    if w'.db != w.db { assert StepFail(History(w.db, log), History(w'.db, log)); }
  }

  lemma RunGrows(history: seq<History>, h: History)
    requires Run(history) && Step(history[|history| - 1], h)
    ensures Run(history + [h])
  {
    var longer := history + [h];
    forall i | 0 <= i < |longer| - 1 ensures Step(longer[i], longer[i + 1]) {
      if i < |history| - 1 { assert Step(history[i], history[i + 1]); }
    }
  }

  lemma AccompaniesStep(run: seq<World>, w: World, history: seq<History>, longer: seq<History>, place: seq<nat>)
    requires Accompanies(run, history, place)
    requires longer == history || exists h :: longer == history + [h]
    requires longer[|longer| - 1].db == w.db
    ensures Accompanies(run + [w], longer, place + [|longer| - 1])
  {}

  /** Every execution goes through a run of the database, state by state. */
  lemma {:induction false} EveryExecutionProjects(run: seq<World>, offset: Time, hour: int)
    returns (history: seq<History>, place: seq<nat>)
    requires Execution(run, offset, hour)
    ensures Projects(run, history, place)
  {
    if |run| == 1 {
      history, place := [History(EMPTY, [])], [0];
    } else {
      var front, w, w' := run[..|run| - 1], run[|run| - 2], run[|run| - 1];
      var before, places := EveryExecutionProjects(front, offset, hour);
      var last := before[|before| - 1];
      assert Next(run[|run| - 2], run[|run| - 2 + 1], offset, hour);
      assert front[|front| - 1] == w && last.db == w.db;
      var log' := NextProjects(w, w', last.log, offset, hour);
      var h := History(w'.db, log');
      assert last == History(w.db, last.log);
      if w'.db == w.db && log' == last.log {
        history := before;
      } else {
        RunGrows(before, h);
        history := before + [h];
      }
      AccompaniesStep(front, w', before, history, places);
      assert run == front + [w'];
      place := places + [|history| - 1];
    }
  }

  // ------------------------------------------------------ what is left of ties

  /** Some earlier publication of the course shares the millisecond of `p` under a higher ID. */
  ghost predicate CourseTied(log: seq<Entry>, p: nat, k: CourseKey) {
    p < |log| && exists i :: 0 <= i < p && HoldsCourse(log[i], k) && log[i].at == log[p].at && log[p].Id() < log[i].Id()
  }

  ghost predicate InstructorTied(log: seq<Entry>, p: nat, k: InstructorKey) {
    p < |log|
    && exists i :: 0 <= i < p && HoldsInstructor(log[i], k) && log[i].at == log[p].at && log[p].Id() < log[i].Id()
  }

  /** With times in order only a tie keeps a publication from outranking the cohort's earlier ones. */
  lemma OutranksUnlessTied(log: seq<Entry>, clock: Time, p: nat)
    requires Ordered(log, clock) && DistinctIds(log) && p < |log|
    ensures forall k :: OutranksEarlierCourse(log, p, k) <==> !CourseTied(log, p, k)
    ensures forall k :: OutranksEarlierInstructor(log, p, k) <==> !InstructorTied(log, p, k)
  {
    forall i | 0 <= i < p
      ensures Outranks(log[p], log[i]) <==> !(log[i].at == log[p].at && log[p].Id() < log[i].Id())
    {
      assert log[i].Id() != log[p].Id();
    }
  }

  /** Consecutive publications of a course in any execution are spaced, unless the earlier one was tied with a
      publication of the course under a higher ID. */
  lemma ExecutionSpacing(
    run: seq<World>, history: seq<History>, place: seq<nat>, p: nat, q: nat, k: CourseKey,
    before: CourseRow, after: CourseRow)
    requires Projects(run, history, place)
    requires var log := history[|history| - 1].log;
             && q < |log| && LastCourseHolder(log, p, q, k) && !CourseTied(log, p, k)
             && before in log[p].rows.courses && before.key == k && after in log[q].rows.courses && after.key == k
             && before.stats.valid >= log[q].plan.minimum
    ensures Spaced(before.stats, after.stats, history[|history| - 1].log[q].plan.minimum)
  {
    RunLog(history);
    OutranksUnlessTied(history[|history| - 1].log, run[|run| - 1].clock, p);
    PrivacySpacing(history, p, q, k, before, after);
  }

  lemma InstructorExecutionSpacing(
    run: seq<World>, history: seq<History>, place: seq<nat>, p: nat, q: nat, k: InstructorKey,
    before: InstructorRow, after: InstructorRow)
    requires Projects(run, history, place)
    requires var log := history[|history| - 1].log;
             && q < |log| && LastInstructorHolder(log, p, q, k) && !InstructorTied(log, p, k)
             && before in log[p].rows.instructors && before.key == k
             && after in log[q].rows.instructors && after.key == k
             && before.stats.valid >= log[q].plan.minimum
    ensures Spaced(before.stats, after.stats, history[|history| - 1].log[q].plan.minimum)
  {
    RunLog(history);
    OutranksUnlessTied(history[|history| - 1].log, run[|run| - 1].clock, p);
    InstructorPrivacySpacing(history, p, q, k, before, after);
  }
}
