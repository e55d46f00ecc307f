/** Conservation from grades to readers: in every run that publishes validated aggregations, what is stored
    and shown still adds up, after any number of rollbacks. */
module PublicationConservation {
  import opened Statistics
  import opened Projection
  import opened PublicationHistory
  import opened PublicationTheorems
  import opened PublicationProvenance
  import Source = SourceAggregate

  /** What the manager hands to the store: the aggregation of some grades, once it passed validation. */
  ghost predicate Aggregated(s: Snapshot) {
    && ValidSnapshot(s)
    && exists grades, result ::
         (forall g :: g in grades ==> Source.Normalised(g)) && Source.IsQueryResult(grades, result)
         && s == Source.SnapshotOf(result, s.sourceCutoffAt)
  }

  ghost predicate AggregatedStep(h: History, h': History) {
    forall e :: StepPublish(h, h', e) ==> Aggregated(e.plan.snapshot)
  }

  ghost predicate AggregatedRun(run: seq<History>) {
    forall i :: 0 <= i < |run| - 1 ==> AggregatedStep(run[i], run[i + 1])
  }

  ghost predicate AggregatedLog(log: seq<Entry>) { forall i :: 0 <= i < |log| ==> Aggregated(log[i].plan.snapshot) }

  lemma StepPublishesAggregation(h: History, h': History)
    requires Step(h, h') && AggregatedStep(h, h') && AggregatedLog(h.log)
    ensures AggregatedLog(h'.log)
  {
    if !StepStart(h, h') && !StepFail(h, h') {
      var e :| StepPublish(h, h', e);
      AggregatedLogGrows(h.log, e);
    }
  }

  lemma AggregatedLogGrows(log: seq<Entry>, e: Entry)
    requires AggregatedLog(log) && Aggregated(e.plan.snapshot)
    ensures AggregatedLog(log + [e])
  {
    forall i | 0 <= i <= |log| ensures Aggregated((log + [e])[i].plan.snapshot) {
      assert i < |log| ==> (log + [e])[i] == log[i];
    }
  }

  lemma {:induction false} RunPublishesAggregations(run: seq<History>)
    requires Run(run) && AggregatedRun(run)
    ensures AggregatedLog(run[|run| - 1].log)
  {
    if |run| > 1 {
      var front := run[..|run| - 1];
      RunPublishesAggregations(front);
      var h, h' := run[|run| - 2], run[|run| - 1];
      assert Step(h, h') && AggregatedStep(h, h');
      StepPublishesAggregation(h, h');
    }
  }

  /** The rows of an aggregation are valid and their buckets partition them. */
  lemma AggregatedRows(s: Snapshot)
    requires Aggregated(s)
    ensures forall c :: c in s.courses ==> ValidCounts(c.stats) && Consistent(c.stats)
    ensures forall c :: c in s.instructors ==> ValidCounts(c.stats) && Consistent(c.stats)
  {
    var grades, result :| (forall g :: g in grades ==> Source.Normalised(g)) && Source.IsQueryResult(grades, result)
                          && s == Source.SnapshotOf(result, s.sourceCutoffAt);
    Source.RowsValid(grades, result);
    forall c | c in s.courses ensures ValidCounts(c.stats) { assert ValidCourse(c); }
    forall c | c in s.instructors ensures ValidCounts(c.stats) { assert ValidInstructor(c); }
  }

  /** Pass and fail add up to the valid count, the score sum stays in bounds, and the ten buckets partition
      the row, in every stored course row of every such run. */
  lemma CourseRowsConserve(run: seq<History>, log: seq<Entry>, i: nat, row: CourseRow)
    requires Run(run) && AggregatedRun(run) && log == run[|run| - 1].log && i < |log| && row in log[i].rows.courses
    ensures ValidCounts(row.stats) && Consistent(row.stats)
  {
    RunLog(run);
    RunPublishesAggregations(run);
    var o := CourseOrigin(log, i, row);
    CourseOriginVouches(log, i, row, o);
    AggregatedRows(log[o].plan.snapshot);
  }

  /** The same for instructor rows. */
  lemma InstructorRowsConserve(run: seq<History>, log: seq<Entry>, i: nat, row: InstructorRow)
    requires Run(run) && AggregatedRun(run) && log == run[|run| - 1].log && i < |log| && row in log[i].rows.instructors
    ensures ValidCounts(row.stats) && Consistent(row.stats)
  {
    RunLog(run);
    RunPublishesAggregations(run);
    var o := InstructorOrigin(log, i, row);
    InstructorOriginVouches(log, i, row, o);
    AggregatedRows(log[o].plan.snapshot);
  }

  /** Every projection row of every such run is again such an aggregate, and the projection adds up to the
      batch's per-term rows. */
  lemma ProjectionRowsConserve(run: seq<History>, log: seq<Entry>, i: nat)
    requires Run(run) && AggregatedRun(run) && log == run[|run| - 1].log && i < |log|
    ensures forall p :: p in log[i].rows.projections ==> ValidCounts(p.rate.stats) && Consistent(p.rate.stats)
    ensures ProjectedTotal(log[i].rows.projections) == Total(log[i].rows.courses)
    ensures ProjectedTerms(log[i].rows.projections) == |log[i].rows.courses|
  {
    RunLog(run);
    EntryPlanned(log, i);
    var rows := log[i].rows;
    forall r | r in rows.courses ensures ValidCounts(r.stats) && Consistent(r.stats) {
      CourseRowsConserve(run, log, i, r);
    }
    ProjectedRowsValid(rows.projections, log[i].Id(), rows.courses);
    ProjectionConserves(rows.projections, log[i].Id(), rows.courses);
  }

  lemma ProjectedRowsValid(rows: seq<ProjectionRow>, batchId: nat, values: seq<CourseRow>)
    requires IsProjection(rows, batchId, values)
    requires forall r :: r in values ==> ValidCounts(r.stats) && Consistent(r.stats)
    ensures forall p :: p in rows ==> ValidCounts(p.rate.stats) && Consistent(p.rate.stats)
  {
    forall p | p in rows ensures ValidCounts(p.rate.stats) && Consistent(p.rate.stats) {
      SumsStayValid(values, p.rate.key);
      SumsStayPartitioned(values, p.rate.key);
    }
  }
}
