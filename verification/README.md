# Verified model of the campus academic service

This project models the parts of the service in which several steps, several runs or several representations
have to agree, and proves that they do:

- **Statistics publication.** Grades are classified and grouped into a snapshot (`SourceTerms`, `SourceAggregate`,
  `Statistics`), whose fields `SourceBuckets` and `SourceSnapshot` trace back to the grades. A batch runs, fails or is
  published in transactions of a store (`Publication`, `StatisticsStore`). Before publication a privacy rule rolls
  cohorts that moved too little back to their last published values (`Privacy`, `Baselines`), and an all-term projection
  is built for readers (`Projection`). `PublicationRollback` and `BatchEffects` say what each publication and start
  leaves, `ProjectionShown` what a list shows. `PublicationHistory` follows every interleaving; `PublicationTheorems`,
  `PublicationProvenance` and `PublicationConservation` state what readers of the history are promised; `PrivacyExact`
  and `PublicationSpacing` say exactly when they are promised spacing, and `PublicationTies` is a concrete run at the
  edge of that promise. `RunProtocol` and `RunManager` drive the store from any number of workers under one lock, and
  `ExecutionHistory` shows that what they do is such a history.
- **Timetables.** `GraduateMerge` folds course fragments into a list until nothing touches; `UndergraduateMerge` and
  `UndergraduateSweep` pool, group, sort and sweep. Both keep the occupied points, and `MergeAgreement` relates the
  two. `GraduateGrid` places table cells around rowspans and relates the column counters to the full grid of
  section 4.9.12.1 of the HTML Living Standard.
- **Sessions.** `CookieJar` is the side index of cookie slots (sections 5.1.4 and 5.3 of RFC 6265), `Sessions` the
  persisted states and their filter with the limits of `SessionLimits`, `SessionRestore` the round trip. `SessionStore`
  is the cache with its expiring per-subject indexes, `SessionRuns` its histories, `SessionCache` the object callers
  use. `RecoveryLadder` is the order in which a query obtains a session, as a trace of events with arbitrary upstream
  answers.

Classes carry the state that the program updates in place. Each of their methods is proved against a relation or
function over plain values, and the statements over histories are lemmas about those.

## Where the code and its intent differ

- A publication is compared with the cohort's highest-ranked earlier one, which is not always its last. Two
  publications of a cohort in the same millisecond, the later one under the lower (restarted) ID, break spacing:
  `PublicationTies.TiedPublicationsBreakSpacing`. When the last one is the baseline is exact in
  `PublicationTheorems.BaselineIsLastExactlyWhenOutranking`. When spacing is guaranteed although the baseline is another
  row is exact in `PublicationSpacing.CourseSpacingExactly` and `PublicationSpacing.InstructorSpacingExactly`: the
  baseline must report the same counts as the last row (`PrivacyExact.Alike`). Being spaced from it is not enough, as
  that run shows: 20 is spaced from the baseline 10, and 18 breaks spacing.
- A cookie whose default path contains a character that no Set-Cookie header may carry is recorded, but on restore it
  gets no entry in the side index and so is missing from later snapshots (the underlying jar is still given it):
  `SessionRestore.SemicolonCookieIsLost`, with the exact condition in `SessionRestore.RecoveryRoundTrip`.
- Deleting a student lists first and deletes later. A save in between leaves a record that later deletions do not find:
  `SessionRuns.RacingSaveSurvives`, with the exact condition in `SessionRuns.PurgeExactly`. A blank in front of the
  student number hides level-prefixed records: `SessionRuns.BlankDeletionMisses`, with the exact condition in
  `SessionRuns.BlankHidesPrefixed`.
- The two timetable merges need not give the same ranges: `MergeAgreement.OverlappingClassesDisagree`, with the exact
  condition on the fragments in `MergeAgreement.MergesAgree`.
- A colspan may reach a column that is still occupied; two cells then share a slot: `GraduateGrid.ColspanCanCollide`,
  with the exact condition in `GraduateGrid.CountersRefineGrid`.

## Model

| member | source | states |
|---|---|---|
| Statistics.Validate | internal/modules/academic_statistics/domain/statistics.go:151-219 | accepts a snapshot exactly when its cutoff is set, it has courses, every row is a valid aggregate of a valid term and no cohort appears twice |
| Statistics.AcceptableExactly | internal/modules/academic_statistics/domain/statistics.go:151-251 | what a valid snapshot is, spelled out down to the two levels, the readable texts and the bounds of the counts |
| Privacy.UnsafeExactlyWhenNotSpaced | internal/modules/academic_statistics/infrastructure/store.go:625-659 | the indexed delta test flags exactly the pairs in which some count moves by less than the minimum, or the score sum moves although the numeric count does not move by the minimum |
| Privacy.SuppressInstructorDeltas | internal/modules/academic_statistics/infrastructure/store.go:502-546 | in-place loop equals rolling every unsafe instructor row back to its baseline; reports exactly the replaced rows' source batches and the courses to roll back too |
| Privacy.SuppressCourseDeltas | internal/modules/academic_statistics/infrastructure/store.go:449-493 | in-place loop equals rolling every unsafe or forced course row back to its baseline; reports exactly the replaced rows' source batches |
| Privacy.SuppressionSpaces | internal/modules/academic_statistics/infrastructure/store.go:449-546 | after suppression every cohort with a baseline of at least the minimum is spaced from it: each of the 15 counts repeats or moves by the minimum |
| PublicationRollback.ForcedExactly | internal/modules/academic_statistics/infrastructure/store.go:502-546 | a course is forced back if and only if some instructor reported for it is not spaced from a baseline of at least the minimum |
| PublicationRollback.PublishesAsReported | internal/modules/academic_statistics/infrastructure/store.go:289-546 | over the snapshot, the baselines and spacing alone: a row repeats its baseline if and only if that is of at least the minimum and the reported counts, or for a course those of one of its reported instructors, are not spaced from a baseline of at least the minimum; every other row is published exactly as reported, and the cutoff is the earliest of the snapshot's and those of the batches carried from |
| PublicationRollback.EveryPublicationAsReported | internal/modules/academic_statistics/infrastructure/store.go:195-546 | the same for every publication of every run |
| Projection.MaxNameIsMax | internal/modules/academic_statistics/infrastructure/store.go:1224-1251 | the MAX(course_name) column is the greatest name of the group |
| Projection.CoursePassRateEntities | internal/modules/academic_statistics/infrastructure/store.go:1071-1115 | the map-accumulator loop yields one row per course, each the group's count, sums and greatest name |
| Projection.CountCoursePassRates | internal/modules/academic_statistics/infrastructure/store.go:1117-1128 | counts exactly the rows an unrestricted reader with that minimum sees |
| Projection.ProjectionRefinesGrouped | internal/modules/academic_statistics/infrastructure/store.go:795-853 | for every education level, course code and minimum the projection path returns the same course rows as the SUM/COUNT/MAX group-by path |
| Projection.LiveCountIsCardinality | internal/modules/academic_statistics/infrastructure/store.go:843-853 | the count of matching rows is the number of distinct courses shown |
| ProjectionShown.ShownExactly | internal/modules/academic_statistics/infrastructure/store.go:726-853 | a row is listed if and only if it has the term count, the sums and the greatest name of all per-term rows of its level and code, reaches the minimum, and has the code and level asked for |
| ProjectionShown.AboveExactly | internal/modules/academic_statistics/infrastructure/store.go:1224-1251 | a name is greater than another if and only if it is so at their first difference, or continues it |
| Projection.ProjectionConserves | internal/modules/academic_statistics/infrastructure/store.go:1071-1115 | the projection's 15 sums and term counts add up to those of the per-term rows |
| Projection.SumsStayValid | internal/modules/academic_statistics/infrastructure/store.go:1071-1115 | sums of valid aggregates are valid aggregates |
| Projection.SumsStayPartitioned | internal/modules/academic_statistics/infrastructure/store.go:1071-1115 | the ten buckets of a sum still partition its valid count, on the pass and on the fail side, and still bound its score sum |
| Baselines.LatestBaselines | internal/modules/academic_statistics/infrastructure/store.go:367-405 | yields for every cohort the row of the highest-ranked publication that holds it, and nothing else |
| Publication.StartKeepsInv | internal/modules/academic_statistics/infrastructure/store.go:44-164 | a start keeps at most one running batch, unique task IDs and rows under published batches only, freezes every publication, and answers with a running batch or the published one of the same task |
| Publication.FailKeepsInv | internal/modules/academic_statistics/infrastructure/store.go:167-191 | failing a running batch keeps the invariant and every publication |
| Publication.PublishKeepsInv | internal/modules/academic_statistics/infrastructure/store.go:195-287 | a publication keeps the invariant and every earlier publication |
| BatchEffects.StartsAs | internal/modules/academic_statistics/infrastructure/store.go:44-164 | field by field what a start does: batches that run are marked failed, failed ones created more than 90 days before are dropped, everything else stays; the batch answered with is the task's published one, the task's batch started anew under its ID and creation time, or a new one |
| BatchEffects.FailsAs | internal/modules/academic_statistics/infrastructure/store.go:167-191 | a failure changes the status, the time and the summary of one batch, at most 1000 characters of it |
| BatchEffects.PublishesAs | internal/modules/academic_statistics/infrastructure/store.go:195-287 | a publication changes one batch, which then counts the snapshot's rows, its courses and instructors and the courses an unrestricted reader is shown |
| PublicationHistory.EveryRunKeepsInv | internal/modules/academic_statistics/infrastructure/store.go:44-287 | the state machine invariant, and the correspondence of stored publications with the history, hold after every interleaving of start, restart, fail, prune and publish |
| PublicationHistory.PublishedForever | internal/modules/academic_statistics/infrastructure/store.go:44-287 | in every run a published batch and all its rows are never changed or removed |
| PublicationTheorems.BaselineIsLastExactlyWhenOutranking | internal/modules/academic_statistics/infrastructure/store.go:367-405 | the baseline a publication compares a course cohort with is the cohort's last publication if and only if that one outranks every earlier holder |
| PublicationTheorems.InstructorBaselineIsLastExactlyWhenOutranking | internal/modules/academic_statistics/infrastructure/store.go:387-405 | the same for instructor cohorts |
| PublicationTheorems.CourseSpacing | internal/modules/academic_statistics/infrastructure/store.go:289-651 | consecutive publications of one course cohort repeat each of the 15 counts or move it by the minimum, and the score sum moves only with the numeric count, whenever the earlier one outranks the cohort's publications before it; ties of other cohorts do not matter |
| PublicationTheorems.InstructorSpacing | internal/modules/academic_statistics/infrastructure/store.go:289-651 | the same for one instructor of one course |
| PublicationTheorems.PrivacySpacing | internal/modules/academic_statistics/infrastructure/store.go:289-651 | course spacing over every run of the database |
| PublicationTheorems.InstructorPrivacySpacing | internal/modules/academic_statistics/infrastructure/store.go:289-651 | instructor spacing over every run of the database |
| PrivacyExact.SpacedExactlyWhenAlike | internal/modules/academic_statistics/infrastructure/store.go:449-659 | a cohort is published spaced from its last row whatever counts are reported next if and only if the baseline it is compared with is alike: all 15 counts equal the last row's, and so does the score sum when the numeric count reaches the minimum (with a minimum of one only that numeric group matters); the same when only valid counts are ever reported |
| PublicationSpacing.CourseSpacingExactly | internal/modules/academic_statistics/infrastructure/store.go:195-493 | in every run of validated publications: whatever valid snapshot a publication is given, forced rollbacks included, its row of a course is spaced from the course's last row if and only if the baseline is alike, which it is whenever the last publication outranks the course's earlier ones |
| PublicationSpacing.InstructorSpacingExactly | internal/modules/academic_statistics/infrastructure/store.go:195-546 | the same for one instructor of one course |
| PublicationSpacing.ForcedCourseSpacedExactly | internal/modules/academic_statistics/infrastructure/store.go:449-493 | a course row that one of its instructors forces back is spaced from any earlier row if and only if its large baseline is |
| PublicationProvenance.CourseHonestCutoff | internal/modules/academic_statistics/infrastructure/store.go:205-218 | in every run a course row came from one snapshot, through any chain of carries; that snapshot reported its values and its cutoff is not before the cutoff the row's batch claims |
| PublicationProvenance.InstructorHonestCutoff | internal/modules/academic_statistics/infrastructure/store.go:407-441 | the same for instructor rows, class counts included |
| PublicationTheorems.ForcedCourseRepeats | internal/modules/academic_statistics/infrastructure/store.go:502-546 | when an instructor row is rolled back, the course row with the same key is rolled back too, so the difference is not exposed |
| PublicationConservation.CourseRowsConserve | internal/modules/academic_statistics/infrastructure/store.go:449-493 | in every run that publishes validated aggregations, pass + fail = valid > 0, score count and sum bounds, the bucket partition, and the bounds the numeric buckets set on the score sum hold for every stored course row |
| PublicationConservation.InstructorRowsConserve | internal/modules/academic_statistics/infrastructure/store.go:502-546 | the same for instructor rows |
| PublicationConservation.ProjectionRowsConserve | internal/modules/academic_statistics/infrastructure/store.go:1071-1115 | in every such run each projection row is such an aggregate, and valid counts and term counts sum to the batch's totals |
| PublicationTies.TiedPublicationsBreakSpacing | internal/modules/academic_statistics/infrastructure/store.go:367-405 | a reachable run with non-decreasing publication times, two of them in one millisecond, in which spacing fails: the restarted batch has the lower ID and is not the next baseline; the last row is spaced from the baseline, but the baseline is not alike |
| StatisticsStore.Store.StartBatch | internal/modules/academic_statistics/infrastructure/store.go:44-124 | the transaction: recover abandoned batches, prune, then reuse or create, with every field of every batch as in BatchEffects; keeps the store valid |
| StatisticsStore.Store.FailBatch | internal/modules/academic_statistics/infrastructure/store.go:167-191 | fails a running batch with a truncated summary, otherwise changes nothing |
| StatisticsStore.Store.EarliestPublishedCutoff | internal/modules/academic_statistics/infrastructure/store.go:407-441 | the minimum cutoff of the listed batches, or nothing when one is not published |
| StatisticsStore.Store.SuppressSmallPublicationDeltas | internal/modules/academic_statistics/infrastructure/store.go:289-321 | the two suppression passes over the baselines read, with the earliest carried cutoff |
| StatisticsStore.Store.PublishBatch | internal/modules/academic_statistics/infrastructure/store.go:195-287 | either one committed publication, in which every row is as reported unless exposed and the cutoff and counts are those of PublicationRollback and BatchEffects, or no change |
| StatisticsStore.Store.LatestPublished | internal/modules/academic_statistics/infrastructure/store.go:705-723 | answers with the highest-ranked publication of the current rule version |
| StatisticsStore.Store.ListCourses | internal/modules/academic_statistics/infrastructure/store.go:726-853 | the course list of the latest publication is the grouped query over its rows and shows exactly the courses of ProjectionShown; the total, cached or counted, is their number |
| StatisticsStore.SourcesPublished | internal/modules/academic_statistics/infrastructure/store.go:407-441 | every batch a publication carries values from is published, so its cutoff lookup succeeds |
| RunProtocol.WakesAtTheNextSchedule | internal/modules/academic_statistics/worker/scheduler.go:83-103 | the delay ends exactly at a scheduled instant, and no scheduled instant is skipped |
| RunProtocol.ScheduledOnTheDay | internal/modules/academic_statistics/worker/scheduler.go:83-103 | the scheduled instant is the configured hour of the local day, and a run is due from that time of day on |
| RunProtocol.EveryExecutionKeepsInv | internal/modules/academic_statistics/application/manager.go:170-331 | in every execution of any number of workers, with crashes and lost acknowledgements, at most one worker is inside the lock and what it relies on holds |
| RunProtocol.OncePerSchedule | internal/modules/academic_statistics/application/manager.go:213-268 | across all workers and restarts at most one daily run reports having run for a scheduled instant |
| RunProtocol.PublishedTaskIsNotAggregated | internal/modules/academic_statistics/application/manager.go:270-331 | no worker about to aggregate holds a task whose batch is published |
| RunProtocol.PublishedTaskIsAnswered | internal/modules/academic_statistics/application/manager.go:270-344 | starting a published task again answers with that publication |
| ExecutionHistory.EveryExecutionProjects | internal/modules/academic_statistics/application/manager.go:170-331 | every execution of the workers takes the database state by state through a run of its transactions, with publication times that never decrease |
| ExecutionHistory.OutranksUnlessTied | internal/modules/academic_statistics/infrastructure/store.go:367-405 | with times in order a publication outranks the cohort's earlier ones if and only if none of them shares its millisecond under a higher ID |
| ExecutionHistory.ExecutionSpacing | internal/modules/academic_statistics/infrastructure/store.go:289-651 | in every execution consecutive publications of a course are spaced, unless the earlier one was tied in that way |
| ExecutionHistory.InstructorExecutionSpacing | internal/modules/academic_statistics/infrastructure/store.go:289-651 | the same for one instructor of one course |
| RunManager.Manager.RunLocked | internal/modules/academic_statistics/application/manager.go:270-366 | start, aggregate, validate, publish; the answer repeats the batch and counts the snapshot; a failure after the start is recorded with its summary, and a published task is answered without aggregating |
| RunManager.Manager.RunIfDue | internal/modules/academic_statistics/application/manager.go:213-258 | runs only when due and when nothing was published since the schedule |
| RunManager.LatestDecides | internal/modules/academic_statistics/application/manager.go:260-268 | looking at the latest publication alone decides whether any is recent enough |
| SourceTerms.RecognisedTermsAreDistinct | internal/modules/academic_statistics/infrastructure/source.go:732-797 | two recognised terms with the same level and period are the same term, down to their characters |
| SourceTerms.RecognisedTermsAreValid | internal/modules/academic_statistics/infrastructure/source.go:732-797 | a recognised term passes the snapshot's identity check |
| SourceTerms.SeasonTermMeans | internal/modules/academic_statistics/infrastructure/source.go:732-765 | a season term is recognised exactly under the code of its academic year and season, and is labelled with its own year and season |
| SourceTerms.GraduateTermMeans | internal/modules/academic_statistics/infrastructure/source.go:766-797 | a graduate term is recognised exactly when it names consecutive years and has their code |
| SourceTerms.OnlyTheseTerms | internal/modules/academic_statistics/infrastructure/source.go:716-797 | no other text is recognised |
| SourceAggregate.Contribution | internal/modules/academic_statistics/infrastructure/source.go:33-179 | every classified grade falls into exactly one of the ten buckets, on the side of its pass/fail class, with a score sum within bounds |
| SourceAggregate.GroupSumsValid | internal/modules/academic_statistics/infrastructure/source.go:33-179 | the sums of every group that occurs form a valid aggregate |
| SourceAggregate.GroupSumsPartitioned | internal/modules/academic_statistics/infrastructure/source.go:33-179 | the ten buckets of a group partition its grades, and the score sum lies between the lower and the upper ends of its numeric buckets |
| SourceBuckets.ColumnsCount | internal/modules/academic_statistics/infrastructure/source.go:83-179 | each of the 14 count columns of a group is the number of its grades that the column's name says: score intervals, lists of labels, pass, fail, numeric, all |
| SourceBuckets.SumIsNear | internal/modules/academic_statistics/infrastructure/source.go:120-122 | the score sum is a hundred times the sum of the scores, within half a unit per numeric grade |
| SourceBuckets.ScoreIsRead | internal/modules/academic_statistics/infrastructure/source.go:68-79 | the score is the number the text denotes, to two decimals and at most 100, whatever is stored beside it; the stored score counts only without a text |
| SourceBuckets.WholeScoreIsRead | internal/modules/academic_statistics/infrastructure/source.go:68-79 | a whole number up to 100 is the score as it stands |
| SourceBuckets.DecimalDenotes | internal/modules/academic_statistics/infrastructure/source.go:68-79 | a decimal text denotes the number of all its digits with the point moved back |
| SourceSnapshot.SnapshotDescribes | internal/modules/academic_statistics/infrastructure/source.go:33-179 | which rows a snapshot has and what each field means: one course row per recognised term and course with a classified grade, one instructor row per teacher named alone for a class, with term, label, codes, greatest name, class count and counts of exactly those grades |
| SourceAggregate.Aggregate | internal/modules/academic_statistics/infrastructure/source.go:530-617 | the row loop yields the snapshot of the recognised rows in order, or fails exactly on an unknown dimension |
| SourceAggregate.AddRow | internal/modules/academic_statistics/infrastructure/source.go:666-713 | one row adds its course or instructor aggregate and its valid count |
| SourceAggregate.SnapshotValidatesExactly | internal/modules/academic_statistics/infrastructure/source.go:33-179 | for all normalised grades and a set cutoff the snapshot passes validation if and only if some classified grade has a recognised term |
| SourceAggregate.SourceRowsConserved | internal/modules/academic_statistics/infrastructure/source.go:530-617 | the reported source row count is the number of classified grades with a recognised term |
| Timetable.SeparateIsCanonical | internal/modules/academic/infrastructure/ouc/graduate_parser.go:923-926 | a family of ranges with gaps between them is determined by the sections it covers |
| GraduateMerge.ExactPhase | internal/modules/academic/infrastructure/ouc/graduate_parser.go:839-868 | afterwards exactly one entry is on the fragment's spot: at the place and with the base and ID of the first one there, or at the end, with exactly the positive weeks of all entries there and of the fragment; all other entries are as they were, in order |
| GraduateMerge.CollapsePhase | internal/modules/academic/infrastructure/ouc/graduate_parser.go:869-900 | the fixpoint terminates, keeps the occupied points, and leaves no two touching entries with one identity and week set; every entry goes back to the earliest of those it took in |
| GraduateMerge.MergeGraduateCourse | internal/modules/academic/infrastructure/ouc/graduate_parser.go:839-900 | the points afterwards are exactly the old ones plus the fragment's in its positive weeks, and nothing touches |
| GraduateMerge.MergeAll | internal/modules/academic/infrastructure/ouc/graduate_parser.go:288-318 | the parser's fold occupies exactly the points of all fragments; when fragments of one course on different sections never touch, it has exactly one entry per spot, with the base and ID of the first fragment there and the union of their positive weeks |
| UndergraduateMerge.PoolPlacements | internal/modules/academic/infrastructure/ouc/undergraduate_parser.go:464-482 | rows with one placement key pool their weeks: coverage per identity is kept, keys are distinct and come from the input |
| UndergraduateSweep.Sweep | internal/modules/academic/infrastructure/ouc/undergraduate_parser.go:551-580 | one pass over a sorted group keeps its sections and leaves gaps between its outputs |
| UndergraduateSweep.MergeAdjacent | internal/modules/academic/infrastructure/ouc/undergraduate_parser.go:538-581 | per identity and week set the outputs cover exactly the group's sections, ascend and never touch; the occupied points are those of the rows |
| UndergraduateSweep.MergeUndergraduateCourses | internal/modules/academic/infrastructure/ouc/undergraduate_parser.go:464-482 | the occupied (course, section, week) points of the result are exactly those of the input, and both phases keep their promises |
| UndergraduateSweep.MergePreservesCoverage | internal/modules/academic/infrastructure/ouc/undergraduate_parser.go:464-581 | the occupied (course, section, week) points after both phases are exactly those before |
| UndergraduateSweep.OutputsAreMaximal | internal/modules/academic/infrastructure/ouc/undergraduate_parser.go:538-586 | the sections next to an output are not covered by its group |
| UndergraduateSweep.OutputIds | internal/modules/academic/infrastructure/ouc/undergraduate_parser.go:512-586 | every output stands for a row of its identity and weeks; it keeps a foreign ID and else carries the one derived from its merged placement |
| UndergraduateMerge.IdentityExactly | internal/modules/academic/infrastructure/ouc/undergraduate_parser.go:512-536 | rows have one identity exactly when everything but sections, weeks and ID agrees and both have the same outside ID or neither has one |
| MergeAgreement.MergesAgree | internal/modules/academic/infrastructure/ouc/undergraduate_parser.go:464-581 | on one week set the graduate fold in any order and the undergraduate merge keep the same sections of every course, and the same ranges if and only if no class number or foreign ID covers a section of the course without also covering the course's neighbouring section |
| MergeAgreement.OneIdentityIsUnsplit | internal/modules/academic/infrastructure/ouc/undergraduate_parser.go:512-528 | fragments that class numbers and foreign IDs do not tell apart meet that condition |
| MergeAgreement.OverlappingClassesDisagree | internal/modules/academic/infrastructure/ouc/undergraduate_parser.go:512-528 | both merges run on sections 1-2 of one class and 2-3 of another: the graduate merge gives 1-3, the undergraduate merge does not |
| MergeAgreement.GraduateFoldConfluent | internal/modules/academic/infrastructure/ouc/graduate_parser.go:839-900 | on one week set any two orders of the fragments give the same ranges and as many entries |
| GraduateGrid.FilledUniquely | internal/modules/academic/infrastructure/ouc/graduate_parser.go:618-636 | filling a row around occupied columns has one possible result |
| GraduateGrid.RowSpans.PlaceRow | internal/modules/academic/infrastructure/ouc/graduate_parser.go:612-648 | one row is filled into the first free columns and every column's counter is what the row and the run-down leave |
| GraduateGrid.PlaceTable | internal/modules/academic/infrastructure/ouc/graduate_parser.go:288-295 | the parser's row loop is a run of such steps from empty counters |
| GraduateGrid.CountersRefineGrid | internal/modules/academic/infrastructure/ouc/graduate_parser.go:612-648 | over all row sequences: cells share no slot if and only if no colspan reaches an occupied column; then every counter is the exact number of later rows covered, and every row is placed as in the full grid |
| GraduateGrid.ColspanCanCollide | internal/modules/academic/infrastructure/ouc/graduate_parser.go:634-644 | a two-row table in which a colspan does reach an occupied column and two cells share a slot |
| Sessions.AuthoritiesPartition | internal/modules/academic/infrastructure/ouc/session_store.go:487-499 | no host belongs to two authorities, and each allowed host to one |
| Sessions.CanonicalTwice | internal/modules/academic/infrastructure/ouc/session_store.go:680-705 | a canonical domain is its own canonical form |
| Sessions.ValidateSessionState | internal/modules/academic/infrastructure/ouc/session_store.go:416-456 | accepts exactly the states within all limits, URLs allowed and cookies valid for their host |
| Sessions.ValidateScopedSessionState | internal/modules/academic/infrastructure/ouc/session_store.go:467-485 | accepts exactly the valid states of one authority, without parent-domain cookies for a target |
| SessionLimits.ValidExactly | internal/modules/academic/infrastructure/ouc/session_store.go:416-456 | the valid states, spelled out: at most 32 sets and 128 cookies, at least one of each, the four hosts over https, the length limits, and Domain attributes that name the host or the parent |
| SessionLimits.ScopedExactly | internal/modules/academic/infrastructure/ouc/session_store.go:467-499 | the valid states of a scope, spelled out: its own hosts, and at a target no cookie for the parent domain |
| SessionLimits.DomainExactly | internal/modules/academic/infrastructure/ouc/session_store.go:680-718 | for the known hosts the label check comes down to the names: absent, the host's own or the parent's, in any case and with at most one dot in front |
| Sessions.FilterSessionState | internal/modules/academic/infrastructure/ouc/session_store.go:501-544 | keeps exactly the cookies of the authority that are neither for the parent domain nor the twin of an identity cookie; a non-empty result is valid for the scope |
| SessionLimits.KeptExactly | internal/modules/academic/infrastructure/ouc/session_store.go:501-567 | what the filter keeps, spelled out: cookies of the authority's own hosts, and at a target none for the parent domain and none that an identity host holds with the same name and value |
| CookieJar.DefaultPath | internal/modules/academic/infrastructure/ouc/tracked_cookie_jar.go:207-216 | the directory of an absolute path with a later slash, else the root (section 5.1.4 of RFC 6265) |
| CookieJar.WritesAreWellFormed | internal/modules/academic/infrastructure/ouc/tracked_cookie_jar.go:62-110 | an accepted record states its setting host, its domain is that host or the parent, its path is absolute, and it is alive when written |
| CookieJar.WriteLives | internal/modules/academic/infrastructure/ouc/tracked_cookie_jar.go:89-99 | the write of an accepted cookie is live exactly as long as the cookie is to be: a negative Max-Age deletes, a positive one counts from now, and only without one Expires decides |
| CookieJar.MaxAgeDecides | internal/modules/academic/infrastructure/ouc/tracked_cookie_jar.go:89-95 | with a positive Max-Age the write does not depend on Expires |
| CookieJar.WritesAsSet | internal/modules/academic/infrastructure/ouc/tracked_cookie_jar.go:67-110 | the write has the cookie's name and value and the slot its attributes name |
| CookieJar.AcceptedExactly | internal/modules/academic/infrastructure/ouc/tracked_cookie_jar.go:62-79 | a cookie is accepted if and only if net/http accepts it and its Domain attribute is absent or names the host or the parent domain |
| CookieJar.TrackedCookieJar.SetCookies | internal/modules/academic/infrastructure/ouc/tracked_cookie_jar.go:51-111 | after any sequence of calls the index holds per slot the last accepted write, and only expired ones may be missing; the slot of a response's last cookie is live exactly as long as that cookie is to live |
| CookieJar.TrackedCookieJar.SnapshotRecords | internal/modules/academic/infrastructure/ouc/tracked_cookie_jar.go:125-198 | drops exactly what has expired and captures exactly the live records of the scopes, each once; an error when there are none |
| CookieJar.PickedAreChosen | internal/modules/academic/infrastructure/ouc/tracked_cookie_jar.go:139-168 | the visiting loop picks exactly the live records of the scopes |
| CookieJar.GroupByUrl | internal/modules/academic/infrastructure/ouc/tracked_cookie_jar.go:180-197 | neighbouring records with one URL share a set and no others do, in order and without loss |
| SessionRestore.ScopesDisjoint | internal/modules/academic/infrastructure/ouc/tracked_cookie_jar.go:113-168 | snapshots of different authorities share no record |
| SessionRestore.SnapshotIsScoped | internal/modules/academic/infrastructure/ouc/tracked_cookie_jar.go:150-168 | a target snapshot holds only host-only cookies of its own host; within the general limits it is a valid scoped state |
| SessionRestore.RestoreSession | internal/modules/academic/infrastructure/ouc/session_store.go:628-678 | refuses exactly the unsafe states and those without a live cookie, otherwise yields what replaying the state leaves |
| SessionRestore.RestoreGivesSurvivors | internal/modules/academic/infrastructure/ouc/session_store.go:643-673 | replay at any later time gives back unchanged exactly the records that are alive and whose path a header can carry; no expiry moves |
| SessionRestore.RecoveryRoundTrip | internal/modules/academic/infrastructure/ouc/tracked_cookie_jar.go:117-198 | at the millisecond of the snapshot the restored jar gives the same recovery snapshot if and only if all recorded paths can be carried, and then the same persistent snapshots |
| SessionRestore.UncarriableDefaultIsLost | internal/modules/academic/infrastructure/ouc/tracked_cookie_jar.go:83-86 | whatever cookie takes a default path that a header cannot carry is recorded and lost on restore |
| SessionRestore.SemicolonDirectory | internal/modules/academic/infrastructure/ouc/tracked_cookie_jar.go:207-216 | such a default path exists |
| SessionRestore.SemicolonCookieIsLost | internal/modules/academic/infrastructure/ouc/tracked_cookie_jar.go:51-198 | the whole run, at every allowed host: a page below that directory sets a cookie, the recovery snapshot holds it and restores successfully, and the restored index is empty |
| SessionRuns.EveryRunCovers | internal/modules/academic/infrastructure/ouc/session_store.go:223-265 | after every sequence of saves, deletes, waiting and student deletions that missed no save, each live record is listed in its subject's index, which expires no earlier |
| SessionRuns.DeleteStudentIsComplete | internal/modules/academic/infrastructure/ouc/session_store.go:340-377 | after any such history, an uninterrupted deletion leaves no live v1, scoped or level-prefixed record filed under the student and changes nothing filed elsewhere |
| SessionRuns.PurgeExactly | internal/modules/academic/infrastructure/ouc/session_store.go:351-372 | with any operations between listing and purge, the store is free of the student and covered if and only if every save in between whose record is still alive went to a key listed before |
| SessionRuns.MissedIsOrphaned | internal/modules/academic/infrastructure/ouc/session_store.go:351-372 | a record the purge misses stays alive through the next deletion of the student |
| SessionRuns.RacingSaveSurvives | internal/modules/academic/infrastructure/ouc/session_store.go:351-372 | a run of listing, save and purge whose record survives, and survives the next deletion too |
| SessionRuns.BlankHidesPrefixed | internal/modules/academic/infrastructure/ouc/session_store.go:344-348 | a deletion reaches a live level-prefixed record of the trimmed number if and only if no blank precedes the number it was given |
| SessionRuns.BlankDeletionMisses | internal/modules/academic/infrastructure/ouc/session_store.go:399-414 | a run in which a number with a blank in front leaves a level-prefixed record alive |
| SessionRuns.SomethingIsSavable | internal/modules/academic/infrastructure/ouc/session_store.go:223-247 | a state with one portal cookie meets the save conditions, so the runs that need a state to save exist |
| SessionCache.EncryptedSessionStore.SaveKey | internal/modules/academic/infrastructure/ouc/session_store.go:223-265 | a safe state of at most 128 KiB with a TTL of at most an hour is stored, listed, and its index kept at least as long; otherwise nothing changes |
| SessionCache.EncryptedSessionStore.RemoveKeys | internal/modules/academic/infrastructure/ouc/session_store.go:320-331 | the keys disappear from the records and from their own indexes |
| SessionCache.EncryptedSessionStore.DeleteStudent | internal/modules/academic/infrastructure/ouc/session_store.go:340-377 | listing and purging without interruption is the atomic deletion |
| SessionCache.EncryptedSessionStore.LoadScope | internal/modules/academic/infrastructure/ouc/session_store.go:156-210 | finds only states valid for the scope, from the scoped, the undivided or the level-prefixed record in that order |
| SessionCache.ReadExactly | internal/modules/academic/infrastructure/ouc/session_store.go:156-210 | a record is found if and only if it is there, has not expired, and holds a safe state of at most 128 KiB |
| SessionCache.SavedIsFound | internal/modules/academic/infrastructure/ouc/session_store.go:223-265 | what is saved is found until its TTL is over, and every other record reads as before |
| SessionCache.RemovedExactly | internal/modules/academic/infrastructure/ouc/session_store.go:320-331 | what is removed is gone from records and indexes and nothing else is; an index goes with its last key and keeps its expiry until then |
| SessionCache.LookupOrder | internal/modules/academic/infrastructure/ouc/session_store.go:156-210 | a safe scoped record is the answer whatever else is stored, an unusable one ends the lookup, and the level-prefixed record is asked only when the others have nothing for the scope |
| SessionStore.KeysSeparate | internal/modules/academic/infrastructure/ouc/session_store.go:379-414 | two logins share a record if and only if their numbers agree up to blanks around them, their passwords agree, and for a scoped record the scope |
| SessionCache.DeleteScopeStopsLookup | internal/modules/academic/infrastructure/ouc/session_store.go:304-336 | after a scoped delete the lookup of that scope misses at any later time |
| SessionCache.DeleteScopeSparesScoped | internal/modules/academic/infrastructure/ouc/session_store.go:304-336 | every other scoped record reads as before |
| RecoveryLadder.WholeQuery | internal/modules/academic/infrastructure/ouc/provider.go:700-964 | whatever is answered, a query with its parse deletes the target session right after proof that it is dead and saves it right after proof that it works, never otherwise, and acts on all such proof; after a failed probe or hand-off, a refused login, a store failure of a caller that is done, a broken contract or a failed parse it does nothing more. A restored target session is probed if and only if the query is undergraduate and the state was not validated within the window; another recovery is asked for only after a leader's own deadline; it answers if and only if the last page was accepted, and a failure before any recovery carries the error of its last event |
| RecoveryLadder.LoginIsLastRung | internal/modules/academic/infrastructure/ouc/provider.go:1396-1488 | a password login only follows a missing or dead target session and a missing, unusable or rejected identity session |
| RecoveryLadder.LoadTarget | internal/modules/academic/infrastructure/ouc/provider.go:1282-1394 | legal steps to a session that was probed unless it needed no probe, a miss, or the error of the last event |
| RecoveryLadder.RecoverTarget | internal/modules/academic/infrastructure/ouc/provider.go:1396-1488 | legal steps to a session, or the error of the last event, with at most one password login |
| RecoveryLadder.Acquire | internal/modules/academic/infrastructure/ouc/provider.go:1000-1129 | one acquisition leads at most one recovery, logs in only inside it, and ends with a session in hand or an error |
| RecoveryLadder.Run | internal/modules/academic/infrastructure/ouc/provider.go:700-964 | one query makes at most two business requests, two recoveries and as many logins, retries only after a rejected session, and answers only from an accepted page of the queried host |
| RecoveryLadder.ReportParse | internal/modules/academic/infrastructure/ouc/provider.go:926-949 | the session is saved if and only if the page could be parsed |

## Left out

- StatisticsStore.Store.ListCourses: keyword filter, paging and the order of rows with equal values are not modelled; the result is the set of rows and its size.
- StatisticsStore.Store.StartBatch: MySQL row locks and the uniqueness index are the atomicity of the method; driver errors leave the state as it was.
- StatisticsStore.Store.PublishBatch: a change of the minimum sample or of the rule version between publications is covered only by comparing with the later minimum within one rule version.
- SourceAggregate.Aggregate: scanning of SQL rows and its errors; the SQL query is modelled as a classification and a group-by, and a teacher's digest is an injective function.
- SourceTerms.RecognisedTermsAreDistinct: names and identifiers are compared by code point, not by a MySQL collation.
- RunManager.Manager.RunLocked: one worker's sequence; crashes of other workers are part of RunProtocol. Loss of the lock while its holder keeps running is not modelled.
- RunProtocol.OncePerSchedule: the zone has a fixed offset; daylight saving is left out, and so is a lock lost while its holder keeps running.
- SessionRuns.PurgeExactly: each of the two round trips is one step; the three listings of the first one are not separated.
- PublicationTheorems.CourseSpacing: requires the cohort's last publication to outrank its earlier ones; the exact condition is in PublicationSpacing.CourseSpacingExactly.
- PublicationSpacing.CourseSpacingExactly: quantifies over snapshots that pass validation, which does not ask whether the ten buckets add up. Over the snapshots an aggregation delivers an alike baseline is sufficient, but for some pairs of rows it is not necessary.
- Projection.ProjectionRefinesGrouped: MAX and GROUP BY compare text by code point. The migrations name no collation; under a case-insensitive one the database may pick another greatest name, or group differently, than the comparison in the service.
- RunManager.Manager.RunIfDue: errors carry no text, and joined errors are reduced to the first.
- UndergraduateMerge.PoolPlacements: a derived ID is the tuple it is a digest of; whether IDs of different outputs differ is not promised by the code and not modelled.
- UndergraduateSweep.Sweep: sorting is insertion sort, the order of equal ranges is that of the input.
- MergeAgreement.GraduateFoldConfluent: one week set only; with mixed week sets the graduate fold depends on the order.
- GraduateMerge.MergeAll: where fragments of one course touch across different sections, the entries and their weeks are determined only through the points they occupy and through each step's contract.
- GraduateGrid.PlaceTable: the text of cells, sections and the mapping of columns to weekdays.
- CookieJar.TrackedCookieJar.SetCookies: the underlying net/http jar, which sends cookies; the verdict of net/http on a cookie is modelled by its rules for names, values, paths and expiries.
- CookieJar.TrackedCookieJar.SnapshotRecords: the sort before grouping; the order of sets and cookies is arbitrary here.
- CookieJar.DefaultPath: URLs are parsed values that their text determines; the port is carried along.
- Sessions.ValidateSessionState: text is characters; the length limits of the code count the bytes of their UTF-8 form, which differ outside ASCII, and trimming works on characters in both.
- Sessions.FilterSessionState: name and value of a twin cookie are compared as a pair, not as text joined by a zero byte.
- SessionRestore.RestoreSession: the HTTP client and its creation error; fractions of a millisecond.
- SessionCache.EncryptedSessionStore.SaveKey: encryption, JSON and HMAC, where keys are the tuples they are computed from and a value either decodes or does not; rounding of TTLs to whole seconds by the client; Redis failures.
- SessionRuns.DeleteStudentIsComplete: a student number that itself starts with a level prefix is one of the subjects of the number without it.
- RecoveryLadder.Acquire: the flight shared by concurrent queries is one query's view, where another leader's result is arbitrary; the deadline arithmetic of detached contexts.
- RecoveryLadder.WholeQuery: once a recovery was asked for, a failure may carry another query's error or the caller's own, which is not tied to an event.
- RecoveryLadder.Run: configuration and adapter lookup before the first attempt, tracing, metrics, diagnostics, and stores without scopes; saving and deleting are requests whose failure is ignored, as in the code.
- Integers are mathematical; wrap-around of 64-bit sums is not modelled.
- HTTP, SSO pages, HTML and schedule text parsing, the query coordinator, gRPC servers, configuration, metrics, logging and mock providers.
