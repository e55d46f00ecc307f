/** Histories of the session cache. A student is deleted in two round trips, a listing and a purge, and other
    operations may come between them. */
module SessionRuns {
  import opened Wrappers
  import opened Statistics
  import opened SourceTerms
  import opened Sessions
  import opened SessionStore

  /** A purge deletes what step `listedAt` of the run listed. */
  datatype Step = Do(op: Op) | ListStudent(studentNo: string) | PurgeStudent(studentNo: string, listedAt: nat)

  datatype Timed = Timed(step: Step, now: int)

  /** The steps of a history, and the store before, between and after them. */
  datatype Run = Run(steps: seq<Timed>, states: seq<Redis>)

  const EMPTY: Redis := Redis(map[], map[])

  /** One step; `listed` is what a purge goes by. */
  function Stepped(redis: Redis, step: Step, listed: set<Key>, now: int): Redis {
    match step
    case Do(op) => Applied(redis, op, now)
    case ListStudent(_) => redis
    case PurgeStudent(no, _) => Purged(redis, Subjects(no), listed, now)
  }

  predicate Shaped(run: Run) { |run.states| == |run.steps| + 1 }

  /** The keys that step `l` finds for a student. */
  ghost function Listing(run: Run, studentNo: string, l: nat): set<Key>
    requires Shaped(run) && l < |run.steps|
  {
    FiledKeys(run.states[l], Subjects(studentNo), run.steps[l].now)
  }

  /** Every purge follows its own listing. */
  predicate ListedBefore(run: Run, i: nat)
    requires i < |run.steps|
  {
    var step := run.steps[i].step;
    step.PurgeStudent? ==> step.listedAt < i && run.steps[step.listedAt].step == ListStudent(step.studentNo)
  }

  ghost predicate Follows(run: Run, i: nat)
    requires Shaped(run) && i < |run.steps| && ListedBefore(run, i)
  {
    var t := run.steps[i];
    var listed := if t.step.PurgeStudent? then Listing(run, t.step.studentNo, t.step.listedAt) else {};
    run.states[i + 1] == Stepped(run.states[i], t.step, listed, t.now)
  }

  /** A history from the empty store on a clock that only advances. */
  ghost predicate IsRun(run: Run) {
    && Shaped(run) && run.states[0] == EMPTY
    && (forall i, j :: 0 <= i < j < |run.steps| ==> run.steps[i].now <= run.steps[j].now)
    && forall i :: 0 <= i < |run.steps| ==> ListedBefore(run, i) && Follows(run, i)
  }

  /** The key a successful save writes. */
  function SavedKey(op: Op): Option<Key> {
    match op
    case Save(no, pw, state, size, ttl) => if Savable(state, size, ttl) then Some(CacheKey(no, pw)) else None
    case SaveScope(no, pw, scope, state, size, ttl) =>
      if ValidScopedState(state, scope) && Savable(state, size, ttl) then Some(ScopedCacheKey(no, pw, scope)) else None
    case _ => None
  }

  predicate Saves(step: Step, k: Key) { step.Do? && SavedKey(step.op) == Some(k) }

  /** Every save between the listing and the purge `p` that went to the student, and whose record is still
      alive at the purge, went to a key that was listed. */
  ghost predicate NoSaveMissed(run: Run, p: nat)
    requires Shaped(run) && p < |run.steps| && run.steps[p].step.PurgeStudent? && ListedBefore(run, p)
  {
    var PurgeStudent(no, l) := run.steps[p].step;
    forall m, k | l < m < p && Saves(run.steps[m].step, k) ::
      k.subject in Subjects(no) && k in At(run.states[p], run.steps[p].now).records ==> k in Listing(run, no, l)
  }

  /** No purge before step `n` missed a save. */
  ghost predicate CleanBefore(run: Run, n: nat)
    requires IsRun(run) && n <= |run.steps|
  {
    forall i | 0 <= i < n && run.steps[i].step.PurgeStudent? :: NoSaveMissed(run, i)
  }

  // ----------------------------------------------------- where a record is from

  lemma StepOrigin(redis: Redis, step: Step, listed: set<Key>, now: int, k: Key)
    requires k in Stepped(redis, step, listed, now).records && !Saves(step, k)
    ensures k in redis.records && Stepped(redis, step, listed, now).records[k] == redis.records[k]
  {}

  /** A record was saved after step `l`, or it was there before. */
  lemma {:induction false} RecordOrigin(run: Run, l: nat, p: nat, k: Key)
    requires IsRun(run) && l <= p <= |run.steps| && k in run.states[p].records
    requires forall m :: l <= m < p ==> !Saves(run.steps[m].step, k)
    ensures k in run.states[l].records && run.states[l].records[k] == run.states[p].records[k]
    decreases p
  {
    if l < p {
      var t := run.steps[p - 1];
      assert ListedBefore(run, p - 1) && Follows(run, p - 1);
      var listed := if t.step.PurgeStudent? then Listing(run, t.step.studentNo, t.step.listedAt) else {};
      StepOrigin(run.states[p - 1], t.step, listed, t.now, k);
      RecordOrigin(run, l, p - 1, k);
    }
  }

  lemma AliveSinceListing(earlier: Redis, later: Redis, subjects: set<string>, listed: int, now: int, k: Key)
    requires Covered(earlier, listed) && listed <= now && k in At(later, now).records && k.subject in subjects
    requires k in earlier.records && earlier.records[k] == later.records[k]
    ensures k in FiledKeys(earlier, subjects, listed)
  {
    AliveIsFiled(earlier, subjects, listed, k);
  }

  // -------------------------------------------------------------- all runs

  /** Nothing of the student is alive, and the store is covered. */
  ghost predicate Emptied(redis: Redis, studentNo: string, now: int) {
    FreeOf(redis, Subjects(studentNo), now) && Covered(redis, now)
  }

  /** A purge empties the store of the student exactly when it missed no save. */
  lemma PurgeOutcome(run: Run, p: nat)
    requires IsRun(run) && p < |run.steps| && run.steps[p].step.PurgeStudent?
    requires var l := run.steps[p].step.listedAt; ListedBefore(run, p) && Covered(run.states[l], run.steps[l].now)
    requires Covered(run.states[p], run.steps[p].now)
    ensures Emptied(run.states[p + 1], run.steps[p].step.studentNo, run.steps[p].now) <==> NoSaveMissed(run, p)
  {
    var PurgeStudent(no, l) := run.steps[p].step;
    var subjects, now := Subjects(no), run.steps[p].now;
    assert Follows(run, p);
    PurgeLeaves(run.states[p], subjects, Listing(run, no, l), now);
    forall k | k in At(run.states[p], now).records && k.subject in subjects && NoSaveMissed(run, p)
      ensures k in Listing(run, no, l)
    {
      AliveIsListed(run, p, no, l, k);
    }
  }

  lemma AliveIsListed(run: Run, p: nat, no: string, l: nat, k: Key)
    requires IsRun(run) && p < |run.steps| && run.steps[p].step == PurgeStudent(no, l) && ListedBefore(run, p)
    requires Covered(run.states[l], run.steps[l].now) && NoSaveMissed(run, p)
    requires k in At(run.states[p], run.steps[p].now).records && k.subject in Subjects(no)
    ensures k in Listing(run, no, l)
  {
    assert Follows(run, l);
    if forall m :: l < m < p ==> !Saves(run.steps[m].step, k) {
      RecordOrigin(run, l, p, k);
      AliveSinceListing(run.states[l], run.states[p], Subjects(no), run.steps[l].now, run.steps[p].now, k);
    }
  }

  /** As long as no purge missed a save, every live record is listed by an index that outlives it. */
  lemma {:induction false} EveryRunCovers(run: Run, n: nat, now: int)
    requires IsRun(run) && n <= |run.steps| && CleanBefore(run, n) && (n > 0 ==> run.steps[n - 1].now <= now)
    ensures Covered(run.states[n], now) && WellFiled(run.states[n])
    decreases n
  {
    if n > 0 {
      var p, t := n - 1, run.steps[n - 1];
      EveryRunCovers(run, p, t.now);
      assert ListedBefore(run, p) && Follows(run, p);
      match t.step {
        case Do(op) => StepCovers(run.states[p], op, t.now);
        case ListStudent(_) =>
        case PurgeStudent(no, l) =>
          EveryRunCovers(run, l, run.steps[l].now);
          PurgeOutcome(run, p);
      }
      CoveredLater(run.states[n], t.now, now);
    }
  }

  /** In every run whose earlier purges missed no save, a purge leaves the store free of the student and
      covered exactly when every save since its listing whose record is still alive went to a key listed
      before. */
  lemma PurgeExactly(run: Run, p: nat)
    requires IsRun(run) && p < |run.steps| && run.steps[p].step.PurgeStudent? && CleanBefore(run, p)
    ensures ListedBefore(run, p)
    ensures Emptied(run.states[p + 1], run.steps[p].step.studentNo, run.steps[p].now) <==> NoSaveMissed(run, p)
  {
    assert ListedBefore(run, p);
    var l := run.steps[p].step.listedAt;
    EveryRunCovers(run, l, run.steps[l].now);
    EveryRunCovers(run, p, run.steps[p].now);
    PurgeOutcome(run, p);
  }

  /** Steps `p` and `p + 1` delete a student with nothing in between. */
  predicate Deletes(run: Run, p: nat, studentNo: string) {
    p + 1 < |run.steps| && run.steps[p].step == ListStudent(studentNo)
        && run.steps[p + 1].step == PurgeStudent(studentNo, p)
  }

  /** Such a deletion purges what the store lists at its first step. */
  lemma DeletionPurges(run: Run, p: nat, studentNo: string)
    requires IsRun(run) && Deletes(run, p, studentNo)
    ensures run.states[p + 1] == run.states[p]
    ensures run.states[p + 2]
            == Purged(run.states[p], Subjects(studentNo), Listing(run, studentNo, p), run.steps[p + 1].now)
  {
    assert Follows(run, p) && Follows(run, p + 1);
  }

  /** After any such history, an uninterrupted deletion leaves none of the student's records alive and
      changes no record or index of anyone else. */
  lemma DeleteStudentIsComplete(run: Run, p: nat, studentNo: string)
    requires IsRun(run) && Deletes(run, p, studentNo) && CleanBefore(run, p)
    ensures Emptied(run.states[p + 2], studentNo, run.steps[p + 1].now)
    ensures OthersUntouched(run.states[p], run.states[p + 2], Subjects(studentNo), run.steps[p + 1].now)
  {
    DeletionPurges(run, p, studentNo);
    EveryRunCovers(run, p, run.steps[p].now);
    LaterPurge(run.states[p], Subjects(studentNo), run.steps[p].now, run.steps[p + 1].now);
  }

  lemma LaterPurge(redis: Redis, subjects: set<string>, listed: int, purged: int)
    requires Covered(redis, listed) && WellFiled(redis) && listed <= purged
    ensures var after := Purged(redis, subjects, FiledKeys(redis, subjects, listed), purged);
            FreeOf(after, subjects, purged) && Covered(after, purged) && OthersUntouched(redis, after, subjects, purged)
  {
    ListingIsExact(redis, subjects, listed);
    CoveredLater(redis, listed, purged);
    PurgeLeaves(redis, subjects, FiledKeys(redis, subjects, listed), purged);
  }

  // ---------------------------------------------------------- a missed save

  /** A missed record stays alive through the next deletion of the student as well. */
  lemma MissedIsOrphaned(run: Run, p: nat, studentNo: string, k: Key)
    requires IsRun(run) && p < |run.steps| && run.steps[p].step.PurgeStudent? && CleanBefore(run, p)
    requires run.steps[p].step.studentNo == studentNo && Deletes(run, p + 1, studentNo)
    requires ListedBefore(run, p) && k !in Listing(run, studentNo, run.steps[p].step.listedAt)
    requires k.subject in Subjects(studentNo) && k in At(run.states[p], run.steps[p + 2].now).records
    ensures k in At(run.states[p + 3], run.steps[p + 2].now).records
  {
    assert Follows(run, p);
    DeletionPurges(run, p + 1, studentNo);
    EveryRunCovers(run, p, run.steps[p].now);
    OrphanUnlisted(run.states[p], Subjects(studentNo), Listing(run, studentNo, run.steps[p].step.listedAt),
                   run.steps[p].now, run.steps[p + 1].now, run.steps[p + 2].now, k);
  }

  lemma OrphanUnlisted(redis: Redis, subjects: set<string>, listed: set<Key>, now: int, again: int, later: int, k: Key)
    requires WellFiled(redis) && now <= again <= later
    requires k in At(redis, later).records && k.subject in subjects && k !in listed
    ensures var raced := Purged(redis, subjects, listed, now);
            k in At(Purged(raced, subjects, FiledKeys(raced, subjects, again), later), later).records
  {}

  /** A login races a deletion: listed, saved, purged; then the student is deleted once more. */
  ghost function Race(studentNo: string, password: string, state: SessionState, size: nat, ttl: int): Run {
    var key, stored := CacheKey(studentNo, password), Stored(Some(state), size, ttl);
    var saved := Saved(EMPTY, key, stored, 0);
    var raced := Purged(saved, Subjects(studentNo), FiledKeys(EMPTY, Subjects(studentNo), 0), 0);
    var again := Purged(raced, Subjects(studentNo), FiledKeys(raced, Subjects(studentNo), 0), 0);
    Run([Timed(ListStudent(studentNo), 0), Timed(Do(Op.Save(studentNo, password, state, size, ttl)), 0),
         Timed(PurgeStudent(studentNo, 0), 0), Timed(ListStudent(studentNo), 0), Timed(PurgeStudent(studentNo, 3), 0)],
        [EMPTY, EMPTY, saved, raced, raced, again])
  }

  lemma RaceIsRun(studentNo: string, password: string, state: SessionState, size: nat, ttl: int)
    requires Savable(state, size, ttl)
    ensures IsRun(Race(studentNo, password, state, size, ttl))
  {
    var op, key := Op.Save(studentNo, password, state, size, ttl), CacheKey(studentNo, password);
    assert Applied(EMPTY, op, 0) == Saved(EMPTY, key, Stored(Some(state), size, ttl), 0);
    var run := Race(studentNo, password, state, size, ttl);
    RacedSteps(studentNo, op, run, run.states);
  }

  lemma RacedSteps(studentNo: string, op: Op, run: Run, states: seq<Redis>)
    requires run.states == states && |states| == 6 && states[0] == states[1] == EMPTY && states[3] == states[4]
    requires run.steps == [Timed(ListStudent(studentNo), 0), Timed(Do(op), 0), Timed(PurgeStudent(studentNo, 0), 0),
                           Timed(ListStudent(studentNo), 0), Timed(PurgeStudent(studentNo, 3), 0)]
    requires states[2] == Applied(EMPTY, op, 0)
    requires states[3] == Purged(states[2], Subjects(studentNo), FiledKeys(EMPTY, Subjects(studentNo), 0), 0)
    requires states[5] == Purged(states[4], Subjects(studentNo), FiledKeys(states[3], Subjects(studentNo), 0), 0)
    ensures IsRun(run)
  {
    assert Follows(run, 0) && Follows(run, 1);
    assert Follows(run, 2);
    assert Follows(run, 3) && Follows(run, 4);
  }

  /** Its record survives both deletions, although it was filed under the student. */
  lemma RacingSaveSurvives(studentNo: string, password: string, state: SessionState, size: nat, ttl: int)
    requires Savable(state, size, ttl)
    ensures var run, key := Race(studentNo, password, state, size, ttl), CacheKey(studentNo, password);
            && IsRun(run) && ListedBefore(run, 2) && !NoSaveMissed(run, 2) && key.subject in Subjects(studentNo)
            && key in At(run.states[3], 0).records && key in At(run.states[5], 0).records
  {
    var run, key := Race(studentNo, password, state, size, ttl), CacheKey(studentNo, password);
    RaceIsRun(studentNo, password, state, size, ttl);
    RaceMisses(studentNo, password, state, size, ttl);
    MissedIsOrphaned(run, 2, studentNo, key);
  }

  lemma RaceMisses(studentNo: string, password: string, state: SessionState, size: nat, ttl: int)
    requires Savable(state, size, ttl) && IsRun(Race(studentNo, password, state, size, ttl))
    ensures var run, key := Race(studentNo, password, state, size, ttl), CacheKey(studentNo, password);
            && ListedBefore(run, 2) && !NoSaveMissed(run, 2) && CleanBefore(run, 2)
            && key.subject in Subjects(studentNo) && key !in Listing(run, studentNo, 0)
            && key in At(run.states[2], 0).records && key in At(run.states[3], 0).records
  {
    var run, key := Race(studentNo, password, state, size, ttl), CacheKey(studentNo, password);
    var stored := Stored(Some(state), size, ttl);
    SavedUnlisted(key, stored, Subjects(studentNo));
    FirstPurgeMisses(run, studentNo, key);
  }

  /** A save between the listing and the first purge of a run, to a key that was not listed, is missed. */
  lemma FirstPurgeMisses(run: Run, studentNo: string, key: Key)
    requires IsRun(run) && |run.steps| >= 3 && run.steps[0].step == ListStudent(studentNo)
    requires Saves(run.steps[1].step, key) && run.steps[2].step == PurgeStudent(studentNo, 0)
    requires key.subject in Subjects(studentNo) && key !in Listing(run, studentNo, 0)
    requires key in At(run.states[2], run.steps[2].now).records
    ensures ListedBefore(run, 2) && !NoSaveMissed(run, 2) && CleanBefore(run, 2)
  {}

  /** A record saved after an empty listing survives the purge. */
  lemma SavedUnlisted(key: Key, stored: Stored, subjects: set<string>)
    requires 0 < stored.expiresAt
    ensures FiledKeys(EMPTY, subjects, 0) == {} && key in At(Saved(EMPTY, key, stored, 0), 0).records
    ensures key in At(Purged(Saved(EMPTY, key, stored, 0), subjects, {}, 0), 0).records
  {}

  // -------------------------------------------------------- blanks in front

  /** An uninterrupted deletion reaches a live level-prefixed record of the trimmed number exactly when no blank
      precedes the number it was given. */
  lemma BlankHidesPrefixed(run: Run, p: nat, studentNo: string, scope: Scope, k: Key)
    requires IsRun(run) && Deletes(run, p, studentNo) && CleanBefore(run, p) && scope != Identity
    requires k.subject == TrimSpace(LegacySubject(TrimSpace(studentNo), scope).value)
    requires k in At(run.states[p], run.steps[p + 1].now).records
    ensures k in At(run.states[p + 2], run.steps[p + 1].now).records <==> !(Blank(studentNo) || !IsSpace(studentNo[0]))
  {
    DeletionPurges(run, p, studentNo);
    EveryRunCovers(run, p, run.steps[p].now);
    ReachedExactly(run.states[p], Subjects(studentNo), run.steps[p].now, run.steps[p + 1].now, k);
    PrefixedSubject(studentNo, scope);
  }

  lemma ReachedExactly(redis: Redis, subjects: set<string>, listed: int, purged: int, k: Key)
    requires Covered(redis, listed) && WellFiled(redis) && listed <= purged && k in At(redis, purged).records
    ensures k in At(Purged(redis, subjects, FiledKeys(redis, subjects, listed), purged), purged).records
            <==> k.subject !in subjects
  {
    ListingIsExact(redis, subjects, listed);
  }

  lemma PrefixedSubject(studentNo: string, scope: Scope)
    requires scope != Identity
    ensures TrimSpace(LegacySubject(TrimSpace(studentNo), scope).value) in Subjects(studentNo)
            <==> Blank(studentNo) || !IsSpace(studentNo[0])
  {
    var undergraduate, graduate := "undergraduate\0", "graduate\0";
    assert undergraduate[0] == 'u' && undergraduate[|undergraduate| - 1] == '\0';
    assert graduate[0] == 'g' && graduate[|graduate| - 1] == '\0';
    if scope == Undergraduate {
      PrefixedAmongSubjects(undergraduate, graduate, studentNo);
    } else {
      PrefixedAmongSubjects(graduate, undergraduate, studentNo);
    }
  }

  /** A level-prefixed session is saved for a number, and the number is deleted with a blank in front. */
  ghost function BlankDeletion(studentNo: string, password: string, state: SessionState, size: nat, ttl: int): Run {
    var subject := "undergraduate\0" + studentNo;
    var saved := Saved(EMPTY, CacheKey(subject, password), Stored(Some(state), size, ttl), 0);
    var subjects := Subjects(" " + studentNo);
    Run([Timed(Do(Op.Save(subject, password, state, size, ttl)), 0),
         Timed(ListStudent(" " + studentNo), 0), Timed(PurgeStudent(" " + studentNo, 1), 0)],
        [EMPTY, saved, saved, Purged(saved, subjects, FiledKeys(saved, subjects, 0), 0)])
  }

  lemma BlankDeletionIsRun(studentNo: string, password: string, state: SessionState, size: nat, ttl: int)
    requires Savable(state, size, ttl)
    ensures var run := BlankDeletion(studentNo, password, state, size, ttl);
            && IsRun(run) && Deletes(run, 1, " " + studentNo)
            && CacheKey("undergraduate\0" + studentNo, password) in At(run.states[1], 0).records
  {
    var subject := "undergraduate\0" + studentNo;
    var op := Op.Save(subject, password, state, size, ttl);
    var saved := Saved(EMPTY, CacheKey(subject, password), Stored(Some(state), size, ttl), 0);
    assert Applied(EMPTY, op, 0) == saved;
    DeletionSteps(" " + studentNo, op, saved);
  }

  lemma DeletionSteps(studentNo: string, op: Op, saved: Redis)
    requires Applied(EMPTY, op, 0) == saved
    ensures var subjects := Subjects(studentNo);
            var run := Run([Timed(Do(op), 0), Timed(ListStudent(studentNo), 0), Timed(PurgeStudent(studentNo, 1), 0)],
                           [EMPTY, saved, saved, Purged(saved, subjects, FiledKeys(saved, subjects, 0), 0)]);
            IsRun(run) && Deletes(run, 1, studentNo)
  {
    var subjects := Subjects(studentNo);
    var run := Run([Timed(Do(op), 0), Timed(ListStudent(studentNo), 0), Timed(PurgeStudent(studentNo, 1), 0)],
                   [EMPTY, saved, saved, Purged(saved, subjects, FiledKeys(saved, subjects, 0), 0)]);
    assert Follows(run, 0) && Follows(run, 1) && Follows(run, 2);
  }

  lemma BlankDeletionMisses(studentNo: string, password: string, state: SessionState, size: nat, ttl: int)
    requires Savable(state, size, ttl) && Trimmed(studentNo) && studentNo != ""
    ensures var run, key := BlankDeletion(studentNo, password, state, size, ttl),
        CacheKey("undergraduate\0" + studentNo, password);
            IsRun(run) && Deletes(run, 1, " " + studentNo) && key in At(run.states[3], 0).records
  {
    var run := BlankDeletion(studentNo, password, state, size, ttl);
    var key := CacheKey("undergraduate\0" + studentNo, password);
    BlankDeletionIsRun(studentNo, password, state, size, ttl);
    BlankInFront(studentNo);
    BlankHidesPrefixed(run, 1, " " + studentNo, Undergraduate, key);
  }

  lemma BlankInFront(studentNo: string)
    requires Trimmed(studentNo) && studentNo != ""
    ensures TrimSpace(" " + studentNo) == studentNo && !Blank(" " + studentNo) && IsSpace((" " + studentNo)[0])
  {
    var padded := " " + studentNo;
    assert padded[1] == studentNo[0] && padded[1..] == studentNo;
    assert TrimLeft(padded) == TrimLeft(studentNo) == studentNo;
  }

  /** There is a state to save: one cookie of the portal. */
  lemma SomethingIsSavable(url: Url)
    requires ValidSessionUrl(url)
    ensures Savable(SessionState(1, [CookieSet(url, [SessionCookie("SID", "1", "", "", 0)])], 0), 100, HOUR)
  {
    var cookie := SessionCookie("SID", "1", "", "", 0);
    assert !IsSpace("SID"[0]);
    assert ValidSessionCookie(url.host, cookie);
    var sets := [CookieSet(url, [cookie])];
    assert sets[..0] == [] && TotalCookies([]) == 0;
    assert TotalCookies(sets) == 1;
  }
}
