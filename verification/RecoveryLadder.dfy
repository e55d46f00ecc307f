/** How a query obtains an upstream session: the cached target cookie first, then a hand-off from the
    cached identity session, then a password login, inside a bounded retry loop. Every upstream and store
    answer is arbitrary; what was asked, answered, saved and deleted is one trace of events. */
module RecoveryLadder {
  import opened Wrappers

  datatype Error =
    | Canceled | DeadlineExceeded | Upstream | Unavailable | ChallengeRequired | LoginRefused(reason: string)

  /** A store lookup; a failing store reports the caller's context when that is done. */
  datatype LoadAnswer = Miss | Invalid | StoreError(context: Option<Error>) | Hit(restores: bool, validatedAt: int)

  datatype ProbeAnswer = ProbeValid | ProbeRejected | ProbeFailed(error: Error)

  datatype AccessAnswer = Granted | IdentityRejected | TargetRejected | AccessFailed(error: Error)

  datatype PageAnswer =
    | PageFailed(error: Error)
    | Page(challenge: bool, scheme: string, host: string, loginPage: bool, validJson: bool)

  datatype Verdict = Challenged | SessionRejected | ContractBroken | Accepted

  datatype Event =
    | AttemptStarted(attempt: nat, query: Query)
    | TargetLoaded(load: LoadAnswer)
    | TargetRestored(ok: bool, query: Query, validatedAt: int, now: int)
    | Probed(probe: ProbeAnswer)
    | Elected(led: bool)
    | AskedAgain(result: RecoveryResult, contextDone: bool)
    | IdentityLoaded(load: LoadAnswer)
    | IdentityRestored(ok: bool)
    | IdentityHandoff(access: AccessAnswer)
    | LoggedIn(login: Option<Error>)
    | CredentialHandoff(access: AccessAnswer)
    | SnapshotTaken(ok: bool)
    | ResultRestored(ok: bool)
    | Requested(query: Query, page: PageAnswer)
    | Parsed(ok: bool)
    | TargetDeleted
    | TargetSaved
    | IdentityDeleted
    | IdentitySaved

  // ------------------------------------------------------------- evidence

  /** Proof that the target session is dead. */
  predicate TargetDead(e: Event) {
    match e
    case TargetLoaded(load) => load.Invalid?
    case TargetRestored(ok, _, _, _) => !ok
    case Probed(probe) => probe.ProbeRejected?
    case Requested(q, page) => Classify(q, page).Challenged? || Classify(q, page).SessionRejected?
    case _ => false
  }

  /** Proof that the target session works. */
  predicate TargetAlive(e: Event) {
    match e
    case Probed(probe) => probe.ProbeValid?
    case IdentityHandoff(access) => access.Granted?
    case CredentialHandoff(access) => access.Granted?
    case Parsed(ok) => ok
    case _ => false
  }

  predicate IdentityDead(e: Event) {
    match e
    case IdentityLoaded(load) => load.Invalid?
    case IdentityRestored(ok) => !ok
    case IdentityHandoff(access) => access.IdentityRejected?
    case _ => false
  }

  predicate IdentityAlive(e: Event) { e == LoggedIn(None) }

  predicate Unfound(load: LoadAnswer) { load.Miss? || load == StoreError(None) }

  /** Answers that settle nothing and leave nothing to try: a failed probe or hand-off, a refused login, a store
      failure of a caller that is done, a page that breaks the contract, a page that cannot be parsed. */
  predicate Final(e: Event) {
    match e
    case TargetLoaded(load) => load.StoreError? && load.context.Some?
    case Probed(probe) => probe.ProbeFailed?
    case IdentityLoaded(load) => load.StoreError? && load.context.Some?
    case IdentityHandoff(access) => access.AccessFailed? || access.TargetRejected?
    case LoggedIn(login) => login.Some?
    case CredentialHandoff(access) => !access.Granted?
    case SnapshotTaken(ok) => !ok
    case ResultRestored(ok) => !ok
    case Requested(q, page) => Classify(q, page).ContractBroken?
    case Parsed(ok) => !ok
    case _ => false
  }

  // ------------------------------------------------------------ legal traces

  /** The order of the ladder: which kind of event may come after which, whatever was answered. */
  predicate MayFollow(last: Event, e: Event) {
    match e
    case AttemptStarted(n, _) => n == 2 && last.TargetDeleted?
    case TargetLoaded(_) => last.AttemptStarted? || last.Elected?
    case TargetRestored(_, _, _, _) => last.TargetLoaded?
    case Probed(_) => last.TargetRestored?
    case Elected(_) => last.TargetLoaded? || last.TargetDeleted? || last.AskedAgain?
    case AskedAgain(_, _) => last.Elected?
    case IdentityLoaded(_) => last.TargetLoaded? || last.TargetDeleted?
    case IdentityRestored(_) => last.IdentityLoaded?
    case IdentityHandoff(_) => last.IdentityRestored?
    case LoggedIn(_) => last.IdentityLoaded? || last.IdentityDeleted?
    case CredentialHandoff(_) => last.IdentitySaved?
    case SnapshotTaken(_) => last.TargetRestored? || last.TargetSaved?
    case ResultRestored(_) => last.SnapshotTaken? || last.Elected?
    case Requested(_, _) => last.TargetRestored? || last.TargetSaved? || last.ResultRestored?
    case Parsed(_) => last.Requested?
    case TargetDeleted => last.TargetLoaded? || last.TargetRestored? || last.Probed? || last.Requested?
    case TargetSaved => last.Probed? || last.IdentityHandoff? || last.CredentialHandoff? || last.Parsed?
    case IdentityDeleted => last.IdentityLoaded? || last.IdentityRestored? || last.IdentityHandoff?
    case IdentitySaved => last.LoggedIn?
  }

  predicate Legal(events: seq<Event>) {
    && (events != [] ==> events[0].AttemptStarted? && events[0].attempt == 1)
    && forall i {:trigger events[i]} :: 0 < i < |events| ==> MayFollow(events[i - 1], events[i])
  }

  // ---------------------------------------------------------- justified steps

  /** Nothing is known of a usable target session. */
  predicate Missing(last: Event) { (last.TargetLoaded? && Unfound(last.load)) || last.TargetDeleted? }

  /** A session obtained from the store or from a recovery this query led. */
  predicate InHand(last: Event) { Usable(last) || last.TargetSaved? }

  /** A restored session that may be used as it is. */
  predicate Usable(e: Event) { e.TargetRestored? && e.ok && !NeedsProbe(e.query, e.validatedAt, e.now) }

  /** A restored session that has to be probed first. */
  predicate Stale(e: Event) { e.TargetRestored? && e.ok && NeedsProbe(e.query, e.validatedAt, e.now) }

  /** Only undergraduate sessions are probed, unless they were validated within the window. */
  predicate NeedsProbe(q: Query, validatedAt: int, now: int) {
    q.undergraduate && !(validatedAt > 0 && now - validatedAt <= q.validationWindow)
  }

  /** Only a follower whose leader ran into the leader's own deadline may ask again. */
  predicate LeaderTimedOut(result: RecoveryResult, contextDone: bool) {
    result.shared && result.foreign && result.deadlineExpired && result.error == Some(DeadlineExceeded) && !contextDone
  }

  /** The identity session is of no use; the password is next. */
  predicate NoIdentity(last: Event) { (last.IdentityLoaded? && Unfound(last.load)) || last.IdentityDeleted? }

  predicate Rejects(e: Event) { e.Requested? && Classify(e.query, e.page).SessionRejected? }

  predicate Accepts(e: Event) { e.Requested? && Classify(e.query, e.page).Accepted? }

  /** Why an event comes where it does: a session is deleted or saved right after proof that it is dead or
      works, and after nothing else; nothing follows a final answer; every other rung of the ladder is
      entered only when the one before it failed. */
  predicate Justified(last: Event, before: Option<Event>, e: Event) {
    && (e.TargetDeleted? <==> TargetDead(last)) && (e.TargetSaved? <==> TargetAlive(last))
    && (e.IdentityDeleted? <==> IdentityDead(last)) && (e.IdentitySaved? <==> IdentityAlive(last))
    && !Final(last)
    && (e.AttemptStarted? ==> before.Some? && Rejects(before.value))
    && (e.TargetRestored? ==> last == TargetLoaded(Hit(e.ok, e.validatedAt)))
    && (e.Probed? <==> Stale(last))
    && (e.Elected? ==> Missing(last) || last.AskedAgain?)
    && (e.AskedAgain? ==> last == Elected(false) && LeaderTimedOut(e.result, e.contextDone))
    && (e.IdentityLoaded? ==> Missing(last))
    && (e.LoggedIn? ==> NoIdentity(last))
    && (e.SnapshotTaken? ==> InHand(last))
    && (e.Requested? ==> InHand(last) || last == ResultRestored(true))
    && (e.Parsed? ==> Accepts(last))
  }

  /** Every event of the trace is justified by those before it. */
  predicate AllJustified(events: seq<Event>) { forall i :: 0 < i < |events| ==> JustifiedAt(events, i) }

  predicate JustifiedAt(events: seq<Event>, i: nat)
    requires 0 < i < |events|
  {
    Justified(events[i - 1], if i > 1 then Some(events[i - 2]) else None, events[i])
  }

  /** An event that names a query names the one the trace is about. */
  predicate Asks(e: Event, first: Event) {
    (e.AttemptStarted? || e.TargetRestored? || e.Requested?) && first.AttemptStarted? ==> e.query == first.query
  }

  predicate Begun(q: Query, events: seq<Event>) { events != [] && events[0] == AttemptStarted(1, q) }

  /** All of it, event by event. */
  predicate Sound(events: seq<Event>) {
    var n := |events| - 1;
    if n < 0 then true
    else if n == 0 then events[0].AttemptStarted? && events[0].attempt == 1
    else
      Sound(events[..n]) && MayFollow(events[n - 1], events[n]) && Asks(events[n], events[0])
      && Justified(events[n - 1], if n > 1 then Some(events[n - 2]) else None, events[n])
  }

  lemma {:induction false} SoundIsLegalAndJustified(events: seq<Event>)
    requires Sound(events)
    ensures Legal(events) && AllJustified(events)
  {
    if |events| > 1 {
      var front := events[..|events| - 1];
      SoundIsLegalAndJustified(front);
      forall i | 0 < i < |front| ensures MayFollow(events[i - 1], events[i]) {
        assert MayFollow(front[i - 1], front[i]);
      }
      forall i | 0 < i < |events| ensures JustifiedAt(events, i) {
        if i < |front| { JustifiedInFront(events, i); }
      }
    }
  }

  lemma JustifiedInFront(events: seq<Event>, i: nat)
    requires 0 < i < |events| - 1 && JustifiedAt(events[..|events| - 1], i)
    ensures JustifiedAt(events, i)
  {}

  /** Every event that names a query names the one the trace began with. */
  lemma {:induction false} SoundAsksOne(events: seq<Event>)
    requires Sound(events)
    ensures forall i :: 0 <= i < |events| ==> Asks(events[i], events[0])
  {
    if |events| > 1 {
      var front := events[..|events| - 1];
      SoundAsksOne(front);
      forall i | 0 <= i < |events| ensures Asks(events[i], events[0]) {
        if i < |front| { assert Asks(front[i], front[0]); }
      }
    }
  }

  lemma SoundGrows(events: seq<Event>, e: Event)
    requires Sound(events) && events != []
    requires MayFollow(events[|events| - 1], e) && Justified(events[|events| - 1], Previous(events), e)
    requires Asks(e, events[0])
    ensures Sound(events + [e])
  {
    assert (events + [e])[..|events|] == events;
  }

  /** No evidence is waiting for its store operation. */
  predicate Settled(events: seq<Event>) {
    events != [] ==>
      var last := events[|events| - 1];
      !TargetDead(last) && !TargetAlive(last) && !IdentityDead(last) && !IdentityAlive(last) && !Stale(last)
  }

  /** Where the identity session was asked for, at most four events before. */
  function IdentityStep(events: seq<Event>, i: nat): (k: int)
    requires i < |events|
  {
    if i > 0 && events[i - 1].IdentityLoaded? then i - 1
    else if i > 1 && events[i - 2].IdentityLoaded? then i - 2
    else if i > 2 && events[i - 3].IdentityLoaded? then i - 3
    else i - 4
  }

  /** Right before it the identity session was looked up and was missing, unusable or rejected, and before that
      the target session was missing or dead. */
  predicate LastRung(events: seq<Event>, i: nat)
    requires i < |events|
  {
    var k := IdentityStep(events, i);
    && 0 < k < i && events[k].IdentityLoaded? && Missing(events[k - 1])
    && (Unfound(events[k].load) || events[i - 1].IdentityDeleted?)
    && forall j :: k <= j < i ==> !TargetAlive(events[j])
  }

  /** A password login comes last on the ladder. */
  lemma LoginIsLastRung(events: seq<Event>, i: nat)
    requires Legal(events) && AllJustified(events) && i < |events| && events[i].LoggedIn?
    ensures LastRung(events, i)
  {
    Step(events, i);
    if events[i - 1].IdentityDeleted? { LoginAfterDeletion(events, i); } else { Step(events, i - 1); }
  }

  lemma LoginAfterDeletion(events: seq<Event>, i: nat)
    requires Legal(events) && AllJustified(events) && 0 < i < |events| && events[i - 1].IdentityDeleted?
    ensures LastRung(events, i)
  {
    var k := DeletionSteps(events, i - 1);
    RungFrom(events, i, k);
  }

  /** An identity session on its way out: looked up, restored, rejected by a hand-off, or deleted. */
  predicate OnlyIdentity(e: Event) {
    e.IdentityLoaded? || e.IdentityRestored? || e.IdentityDeleted? || (e.IdentityHandoff? && e.access.IdentityRejected?)
  }

  lemma RungFrom(events: seq<Event>, i: nat, k: nat)
    requires Legal(events) && AllJustified(events) && k + 1 < i < |events| && k == IdentityStep(events, i)
    requires events[k].IdentityLoaded? && events[i - 1].IdentityDeleted?
    requires forall j :: k <= j < i ==> OnlyIdentity(events[j])
    ensures LastRung(events, i)
  {
    Step(events, k);
    forall j | k <= j < i ensures !TargetAlive(events[j]) { assert OnlyIdentity(events[j]); }
  }

  lemma Step(events: seq<Event>, i: nat)
    requires Legal(events) && AllJustified(events) && i < |events| && !events[i].AttemptStarted?
    ensures i > 0 && MayFollow(events[i - 1], events[i])
    ensures Justified(events[i - 1], if i > 1 then Some(events[i - 2]) else None, events[i])
  {
    assert i > 0 ==> JustifiedAt(events, i);
  }

  /** Between the lookup of an identity session and its deletion lie at most a restore and a hand-off. */
  lemma DeletionSteps(events: seq<Event>, m: nat) returns (k: nat)
    requires Legal(events) && AllJustified(events) && m + 1 < |events| && events[m].IdentityDeleted?
    ensures k < m && k == IdentityStep(events, m + 1) && events[k].IdentityLoaded?
    ensures forall j :: k <= j <= m ==> OnlyIdentity(events[j])
  {
    Step(events, m);
    assert IdentityDead(events[m - 1]) && OnlyIdentity(events[m - 1]);
    k := m - 1;
    if !events[k].IdentityLoaded? {
      Step(events, k);
      k := k - 1;
      if !events[k].IdentityLoaded? {
        Step(events, k);
        k := k - 1;
      }
    }
  }

  // ----------------------------------------------------------------- counts

  /** Business requests, password logins, and recoveries led. */
  datatype Tally = Tally(requests: nat, logins: nat, leads: nat)

  function Counted(events: seq<Event>): Tally {
    if events == [] then Tally(0, 0, 0)
    else Bumped(Counted(events[..|events| - 1]), events[|events| - 1])
  }

  function Bumped(t: Tally, e: Event): Tally {
    Tally(t.requests + (if e.Requested? then 1 else 0), t.logins + (if e.LoggedIn? then 1 else 0),
          t.leads + (if e == Elected(true) then 1 else 0))
  }

  /** At most so many more of each. */
  predicate Grown(before: Tally, after: Tally, requests: nat, logins: nat, leads: nat) {
    && before.requests <= after.requests <= before.requests + requests
    && before.logins <= after.logins <= before.logins + logins
    && before.leads <= after.leads <= before.leads + leads
  }

  const SSO_HOSTS: set<string> := {"id.ouc.edu.cn", "my.ouc.edu.cn"}

  datatype Outcome = Answered | Failed(error: Error)

  /** What one waiter receives from a shared recovery. */
  datatype RecoveryResult = RecoveryResult(shared: bool, valueOk: bool, foreign: bool, deadlineExpired: bool,
      error: Option<Error>)

  datatype LoadResult = NotFound | Session | LoadFailed(error: Error)

  /** What a query is about. */
  datatype Query = Query(undergraduate: bool, expectedHost: string, json: bool, validationWindow: int)

  function Classify(q: Query, page: PageAnswer): (v: Verdict)
    ensures v.Challenged? <==> page.Page? && page.challenge
    ensures v.SessionRejected? <==> page.Page? && !page.challenge && page.scheme == "https"
                                    && (page.host == "id.ouc.edu.cn" || page.host == "my.ouc.edu.cn"
                                        || (page.host == q.expectedHost && page.loginPage))
    ensures v.Accepted? ==>
              page.Page? && page.scheme == "https" && page.host == q.expectedHost && (q.json ==> page.validJson)
  {
    if page.PageFailed? then ContractBroken
    else if page.challenge then Challenged
    else if page.scheme == "https" && page.host in SSO_HOSTS then SessionRejected
    else if page.scheme == "https" && page.host == q.expectedHost && page.loginPage then SessionRejected
    else if page.scheme != "https" || page.host != q.expectedHost then ContractBroken
    else if q.json && !page.validJson then ContractBroken
    else Accepted
  }

  /** A page of the queried host that is neither a challenge nor a login page. */
  predicate AnswersQuery(q: Query, e: Event) {
    && Accepts(e) && e.query == q && e.page.Page? && !e.page.challenge && !e.page.loginPage
    && e.page.scheme == "https" && e.page.host == q.expectedHost
  }

  function Last(events: seq<Event>): Option<Event> { if events == [] then None else Some(events[|events| - 1]) }

  function Previous(events: seq<Event>): Option<Event> { if |events| < 2 then None else Some(events[|events| - 2]) }

  /** Every login belongs to a recovery led. */
  ghost predicate LoginsLed(before: seq<Event>, events: seq<Event>) {
    Counted(events).logins - Counted(before).logins <= Counted(events).leads - Counted(before).leads
  }

  /** A legal and justified trace that goes on from `before`, with at most so many more requests, logins and
      leads. */
  ghost predicate Extends(before: seq<Event>, events: seq<Event>, requests: nat, logins: nat, leads: nat) {
    && Sound(events) && events != [] && before <= events
    && Grown(Counted(before), Counted(events), requests, logins, leads)
  }

  /** The error is the one this event carries, or the one its answer stands for. */
  predicate Explains(e: Event, error: Error) {
    match e
    case TargetLoaded(load) => load == StoreError(Some(error))
    case Probed(probe) => probe == ProbeFailed(error)
    case IdentityLoaded(load) => load == StoreError(Some(error))
    case IdentityHandoff(access) => access == AccessFailed(error) || (access.TargetRejected? && error == Unavailable)
    case LoggedIn(login) => login == Some(error)
    case CredentialHandoff(access) =>
      access == AccessFailed(error) || (!access.AccessFailed? && !access.Granted? && error == Unavailable)
    case SnapshotTaken(ok) => !ok
    case ResultRestored(ok) => !ok && error == Unavailable
    case Requested(q, page) =>
      page == PageFailed(error) || (page.Page? && Classify(q, page).ContractBroken? && error == Unavailable)
    case _ => false
  }

  /** A recovery was asked for after the first `n` events. */
  predicate ElectedSince(events: seq<Event>, n: nat) { exists i :: n <= i < |events| && events[i].Elected? }

  lemma {:induction false} CountedGrows(before: seq<Event>, events: seq<Event>)
    requires before <= events
    ensures Counted(before).requests <= Counted(events).requests
  {
    if before != events {
      assert before <= events[..|events| - 1];
      CountedGrows(before, events[..|events| - 1]);
    } else {
      assert before == events;
    }
  }

  /** Without a further request the last event is none. */
  lemma NoRequestLast(before: seq<Event>, events: seq<Event>, logins: nat, leads: nat)
    requires Extends(before, events, 0, logins, leads) && before != [] && !before[|before| - 1].Requested?
    ensures !events[|events| - 1].Requested?
  {
    if |before| < |events| {
      assert before <= events[..|events| - 1];
      CountedGrows(before, events[..|events| - 1]);
    } else {
      assert before == events;
    }
  }

  /** A trace on which the next event can be noted. */
  ghost predicate Open(events: seq<Event>, last: Event) {
    Sound(events) && events != [] && events[|events| - 1] == last
  }

  method Note(events: seq<Event>, e: Event) returns (r: seq<Event>)
    requires events != [] && Open(events, events[|events| - 1])
    requires MayFollow(events[|events| - 1], e) && Justified(events[|events| - 1], Previous(events), e)
    requires Asks(e, events[0])
    ensures r == events + [e] && Open(r, e) && Previous(r) == Last(events)
    ensures Extends(events, r, if e.Requested? then 1 else 0, if e.LoggedIn? then 1 else 0,
                    if e == Elected(true) then 1 else 0)
    ensures Counted(r) == Bumped(Counted(events), e)
  {
    SoundGrows(events, e);
    r := events + [e];
    assert r[..|events|] == events;
  }

  method DeleteTarget(events: seq<Event>) returns (r: seq<Event>)
    requires events != [] && Open(events, events[|events| - 1])
    requires TargetDead(events[|events| - 1]) && !Final(events[|events| - 1])
    ensures r == events + [TargetDeleted] && Open(r, TargetDeleted) && Previous(r) == Last(events)
    ensures Extends(events, r, 0, 0, 0)
  {
    r := Note(events, TargetDeleted);
  }


  method SaveTarget(events: seq<Event>) returns (r: seq<Event>)
    requires events != [] && Open(events, events[|events| - 1])
    requires TargetAlive(events[|events| - 1]) && !Final(events[|events| - 1])
    ensures r == events + [TargetSaved] && Open(r, TargetSaved) && Previous(r) == Last(events)
    ensures Extends(events, r, 0, 0, 0)
  {
    r := Note(events, TargetSaved);
  }


  method DeleteIdentity(events: seq<Event>) returns (r: seq<Event>)
    requires events != [] && Open(events, events[|events| - 1])
    requires IdentityDead(events[|events| - 1]) && !Final(events[|events| - 1])
    ensures r == events + [IdentityDeleted] && Open(r, IdentityDeleted) && Previous(r) == Last(events)
    ensures Extends(events, r, 0, 0, 0)
  {
    r := Note(events, IdentityDeleted);
  }


  method SaveIdentity(events: seq<Event>) returns (r: seq<Event>)
    requires events != [] && Open(events, events[|events| - 1])
    requires IdentityAlive(events[|events| - 1]) && !Final(events[|events| - 1])
    ensures r == events + [IdentitySaved] && Open(r, IdentitySaved) && Previous(r) == Last(events)
    ensures Extends(events, r, 0, 0, 0)
  {
    r := Note(events, IdentitySaved);
  }


  /** The stored target session, if it can be used; one that cannot is deleted. */
  method LoadTarget(q: Query, before: seq<Event>) returns (r: LoadResult, events: seq<Event>)
    requires Begun(q, before)
    requires before != [] && Open(before, before[|before| - 1])
    requires before[|before| - 1].AttemptStarted? || before[|before| - 1] == Elected(true)
    ensures Extends(before, events, 0, 0, 0) && Settled(events)
    ensures r.NotFound? ==> Missing(events[|events| - 1])
    ensures r.Session? ==> InHand(events[|events| - 1])
    ensures r.LoadFailed? ==> Explains(events[|events| - 1], r.error)
  {
    var load: LoadAnswer := *;
    events := Note(before, TargetLoaded(load));
    match load
    case Miss => r := NotFound;
    case Invalid =>
      events := DeleteTarget(events);
      r := NotFound;
    case StoreError(context) =>
      r := if context.Some? then LoadFailed(context.value) else NotFound;
    case Hit(restores, validatedAt) =>
      r, events := CheckTarget(q, restores, validatedAt, events);
  }

  method CheckTarget(q: Query, restores: bool, validatedAt: int, before: seq<Event>)
    returns (r: LoadResult, events: seq<Event>)
    requires Begun(q, before)
    requires Open(before, TargetLoaded(Hit(restores, validatedAt)))
    ensures Extends(before, events, 0, 0, 0) && Settled(events)
    ensures r.NotFound? ==> Missing(events[|events| - 1])
    ensures r.Session? ==> InHand(events[|events| - 1])
    ensures r.LoadFailed? ==> Explains(events[|events| - 1], r.error)
  {
    var now: int := *;
    events := Note(before, TargetRestored(restores, q, validatedAt, now));
    if !restores {
      events := DeleteTarget(events);
      return NotFound, events;
    }
    if !q.undergraduate || (validatedAt > 0 && now - validatedAt <= q.validationWindow) { return Session, events; }
    r, events := ProbeTarget(events);
  }

  method ProbeTarget(before: seq<Event>) returns (r: LoadResult, events: seq<Event>)
    requires before != [] && Open(before, before[|before| - 1]) && Stale(before[|before| - 1])
    ensures Extends(before, events, 0, 0, 0) && Settled(events)
    ensures r.NotFound? ==> Missing(events[|events| - 1])
    ensures r.Session? ==> InHand(events[|events| - 1])
    ensures r.LoadFailed? ==> Explains(events[|events| - 1], r.error)
  {
    var probe: ProbeAnswer := *;
    events := Note(before, Probed(probe));
    match probe
    case ProbeFailed(error) => r := LoadFailed(error);
    case ProbeRejected =>
      events := DeleteTarget(events);
      r := NotFound;
    case ProbeValid =>
      events := SaveTarget(events);
      r := Session;
  }

  /** How far a rung of the recovery got. */
  datatype Rung = GoOn | Recovered | Stopped(error: Error)

  /** The hand-off from a cached identity session. */
  method TryIdentity(before: seq<Event>) returns (r: Rung, events: seq<Event>)
    requires before != [] && Open(before, before[|before| - 1]) && Missing(before[|before| - 1])
    ensures Extends(before, events, 0, 0, 0) && Settled(events)
    ensures r.GoOn? ==> NoIdentity(events[|events| - 1])
    ensures r.Recovered? ==> InHand(events[|events| - 1])
    ensures r.Stopped? ==> Explains(events[|events| - 1], r.error)
  {
    var load: LoadAnswer := *;
    events := Note(before, IdentityLoaded(load));
    match load
    case Miss => r := GoOn;
    case Invalid =>
      events := DeleteIdentity(events);
      r := GoOn;
    case StoreError(context) => r := if context.Some? then Stopped(context.value) else GoOn;
    case Hit(restores, _) => r, events := UseIdentity(restores, events);
  }

  method UseIdentity(restores: bool, before: seq<Event>) returns (r: Rung, events: seq<Event>)
    requires before != [] && Open(before, before[|before| - 1])
    requires before[|before| - 1].IdentityLoaded? && before[|before| - 1].load.Hit?
    ensures Extends(before, events, 0, 0, 0) && Settled(events)
    ensures r.GoOn? ==> NoIdentity(events[|events| - 1])
    ensures r.Recovered? ==> InHand(events[|events| - 1])
    ensures r.Stopped? ==> Explains(events[|events| - 1], r.error)
  {
    events := Note(before, IdentityRestored(restores));
    if restores {
      r, events := HandOffIdentity(events);
    } else {
      events := DeleteIdentity(events);
      r := GoOn;
    }
  }

  method HandOffIdentity(before: seq<Event>) returns (r: Rung, events: seq<Event>)
    requires Open(before, IdentityRestored(true))
    ensures Extends(before, events, 0, 0, 0) && Settled(events)
    ensures r.GoOn? ==> NoIdentity(events[|events| - 1])
    ensures r.Recovered? ==> InHand(events[|events| - 1])
    ensures r.Stopped? ==> Explains(events[|events| - 1], r.error)
  {
    var access: AccessAnswer := *;
    events := Note(before, IdentityHandoff(access));
    match access
    case AccessFailed(error) => r := Stopped(error);
    case Granted =>
      events := SaveTarget(events);
      r := Recovered;
    case TargetRejected => r := Stopped(Unavailable);
    case IdentityRejected =>
      events := DeleteIdentity(events);
      r := GoOn;
  }

  method LogIn(before: seq<Event>) returns (r: Option<Error>, events: seq<Event>)
    requires before != [] && Open(before, before[|before| - 1]) && NoIdentity(before[|before| - 1])
    ensures Extends(before, events, 0, 1, 0) && Settled(events)
    ensures r.None? ==> InHand(events[|events| - 1])
    ensures r.Some? ==> Explains(events[|events| - 1], r.value)
  {
    var login: Option<Error> := *;
    events := Note(before, LoggedIn(login));
    if login.Some? { return login, events; }
    events := SaveIdentity(events);
    r, events := HandOffCredentials(events);
  }

  method HandOffCredentials(before: seq<Event>) returns (r: Option<Error>, events: seq<Event>)
    requires Open(before, IdentitySaved)
    ensures Extends(before, events, 0, 0, 0) && Settled(events)
    ensures r.None? ==> InHand(events[|events| - 1])
    ensures r.Some? ==> Explains(events[|events| - 1], r.value)
  {
    var access: AccessAnswer := *;
    events := Note(before, CredentialHandoff(access));
    if access.Granted? {
      events := SaveTarget(events);
      r := None;
    } else {
      r := Some(if access.AccessFailed? then access.error else Unavailable);
    }
  }

  /** Identity hand-off first, then at most one password login. */
  method RecoverTarget(before: seq<Event>) returns (r: Option<Error>, events: seq<Event>)
    requires before != [] && Open(before, before[|before| - 1]) && Missing(before[|before| - 1])
    ensures Extends(before, events, 0, 1, 0) && Settled(events)
    ensures r.None? ==> InHand(events[|events| - 1])
    ensures r.Some? ==> Explains(events[|events| - 1], r.value)
  {
    var rung;
    rung, events := TryIdentity(before);
    match rung
    case GoOn => r, events := LogIn(events);
    case Recovered => r := None;
    case Stopped(error) => r := Some(error);
  }

  /** The recovery this query leads for everyone who asks for the same session meanwhile. */
  method LeadRecovery(q: Query, before: seq<Event>) returns (r: RecoveryResult, events: seq<Event>)
    requires Begun(q, before)
    requires Open(before, Elected(true))
    ensures Extends(before, events, 0, 1, 0) && Settled(events)
    ensures r.valueOk && !r.foreign && (r.error.None? ==> events[|events| - 1] == SnapshotTaken(true))
    ensures r.error.Some? ==> Explains(events[|events| - 1], r.error.value)
  {
    var shared: bool := *;
    var deadlineExpired: bool := *;
    var load;
    load, events := LoadTarget(q, before);
    var error := if load.LoadFailed? then Some(load.error) else None;
    if load.NotFound? {
      error, events := RecoverTarget(events);
    }
    if error.None? {
      error, events := TakeSnapshot(events);
    }
    r := RecoveryResult(shared, true, false, deadlineExpired, error);
  }

  method TakeSnapshot(before: seq<Event>) returns (error: Option<Error>, events: seq<Event>)
    requires before != [] && Open(before, before[|before| - 1]) && InHand(before[|before| - 1])
    ensures Extends(before, events, 0, 0, 0) && Settled(events)
    ensures error.None? ==> events[|events| - 1] == SnapshotTaken(true)
    ensures error.Some? ==> Explains(events[|events| - 1], error.value)
  {
    error := *;
    events := Note(before, SnapshotTaken(error.None?));
  }

  method Elect(q: Query, before: seq<Event>) returns (result: RecoveryResult, led: bool, events: seq<Event>)
    requires Begun(q, before)
    requires before != [] && Open(before, before[|before| - 1])
    requires !Final(before[|before| - 1]) && Settled(before)
    requires Missing(before[|before| - 1]) || before[|before| - 1].AskedAgain?
    ensures Extends(before, events, 0, if led then 1 else 0, if led then 1 else 0) && Settled(events)
    ensures LoginsLed(before, events)
    ensures led ==>
              result.valueOk && !result.foreign && (result.error.None? ==> events[|events| - 1] == SnapshotTaken(true))
    ensures !led ==> events[|events| - 1] == Elected(false)
    ensures |before| < |events| && events[|before|].Elected?
    ensures led && result.error.Some? ==> Explains(events[|events| - 1], result.error.value)
  {
    led := *;
    if led {
      result, events := ElectSelf(q, before);
    } else {
      events := Note(before, Elected(false));
      result := *;
      result := result.(foreign := result.valueOk);
    }
  }

  method ElectSelf(q: Query, before: seq<Event>) returns (result: RecoveryResult, events: seq<Event>)
    requires Begun(q, before)
    requires before != [] && Open(before, before[|before| - 1])
    requires !Final(before[|before| - 1]) && Settled(before)
    requires Missing(before[|before| - 1]) || before[|before| - 1].AskedAgain?
    ensures Extends(before, events, 0, 1, 1) && Settled(events) && LoginsLed(before, events)
    ensures result.valueOk && !result.foreign && (result.error.None? ==> events[|events| - 1] == SnapshotTaken(true))
    ensures |before| < |events| && events[|before|].Elected?
    ensures result.error.Some? ==> Explains(events[|events| - 1], result.error.value)
  {
    events := Note(before, Elected(true));
    result, events := LeadRecovery(q, events);
  }

  datatype Turn = Again | Over(error: Option<Error>)

  /** One election, and what its result means for the caller. */
  method TakeTurn(q: Query, before: seq<Event>, election: nat) returns (r: Turn, events: seq<Event>)
    requires Begun(q, before)
    requires before != [] && Open(before, before[|before| - 1])
    requires Missing(before[|before| - 1]) || before[|before| - 1].AskedAgain?
    ensures Extends(before, events, 0, 1, 1) && LoginsLed(before, events) && Settled(events)
    ensures r.Again? ==> election == 0 && Extends(before, events, 0, 0, 0) && events[|events| - 1].AskedAgain?
    ensures r == Over(None) ==> events[|events| - 1] == ResultRestored(true)
    ensures r.Over? ==> !events[|events| - 1].AskedAgain?
    ensures |before| < |events| && events[|before|].Elected?
  {
    var result, led, elected;
    result, led, elected := Elect(q, before);
    r, events := Conclude(elected, election, result, led);
    TurnExtends(before, elected, events, if led then 1 else 0);
  }

  /** What a recovery's result means for the caller. */
  method Conclude(before: seq<Event>, election: nat, result: RecoveryResult, led: bool)
    returns (r: Turn, events: seq<Event>)
    requires before != [] && Open(before, before[|before| - 1]) && Settled(before)
    requires led ==> !result.foreign && !before[|before| - 1].AskedAgain?
    requires led && result.error.None? ==> before[|before| - 1] == SnapshotTaken(true)
    requires !led ==> before[|before| - 1] == Elected(false)
    ensures Extends(before, events, 0, 0, 0) && Settled(events)
    ensures r.Again? ==> election == 0 && !led && events[|events| - 1].AskedAgain?
    ensures r == Over(None) ==> events[|events| - 1] == ResultRestored(true)
    ensures r.Over? ==> !events[|events| - 1].AskedAgain?
  {
    var callerDone: Option<Error> := *;
    if callerDone.Some? { return Over(callerDone), before; }
    if result.error.Some? {
      r, events := AskAgain(before, election, result);
    } else {
      r, events := Receive(before, result);
    }
  }

  /** What an election and its outcome add up to. */
  lemma TurnExtends(before: seq<Event>, elected: seq<Event>, events: seq<Event>, led: nat)
    requires Extends(before, elected, 0, led, led) && LoginsLed(before, elected) && |before| < |elected|
    requires Extends(elected, events, 0, 0, 0) && elected[|before|].Elected?
    ensures Extends(before, events, 0, led, led) && LoginsLed(before, events)
    ensures |before| < |events| && events[|before|].Elected?
  {}

  /** A successful recovery: its result is restored. */
  method Receive(before: seq<Event>, result: RecoveryResult) returns (r: Turn, events: seq<Event>)
    requires before != [] && Open(before, before[|before| - 1]) && Settled(before)
    requires before[|before| - 1] == SnapshotTaken(true) || before[|before| - 1] == Elected(false)
    ensures Extends(before, events, 0, 0, 0) && Settled(events)
    ensures r.Over? && !events[|events| - 1].AskedAgain?
    ensures r.error.None? ==> events[|events| - 1] == ResultRestored(true)
  {
    if !result.valueOk { return Over(Some(Unavailable)), before; }
    var error;
    error, events := RestoreResult(before);
    r := Over(error);
  }

  /** A failed recovery: once, a follower may ask again. */
  method AskAgain(before: seq<Event>, election: nat, result: RecoveryResult) returns (r: Turn, events: seq<Event>)
    requires before != [] && Open(before, before[|before| - 1]) && Settled(before) && result.error.Some?
    requires result.foreign ==> before[|before| - 1] == Elected(false)
    requires !before[|before| - 1].AskedAgain?
    ensures Extends(before, events, 0, 0, 0) && Settled(events)
    ensures r.Again? ==> election == 0 && result.foreign && events[|events| - 1].AskedAgain?
    ensures r.Over? ==> events == before
    ensures r != Over(None)
  {
    var contextDone: bool := *;
    if election == 0 && result.shared && result.foreign && result.deadlineExpired
       && result.error == Some(DeadlineExceeded) && !contextDone {
      events := Note(before, AskedAgain(result, contextDone));
      return Again, events;
    }
    return Over(result.error), before;
  }

  method RestoreResult(before: seq<Event>) returns (error: Option<Error>, events: seq<Event>)
    requires before != [] && Open(before, before[|before| - 1])
    requires before[|before| - 1] == SnapshotTaken(true) || before[|before| - 1] == Elected(false)
    ensures Extends(before, events, 0, 0, 0) && Settled(events)
    ensures error.None? ==> events[|events| - 1] == ResultRestored(true)
    ensures error.Some? ==> Explains(events[|events| - 1], error.value)
  {
    var restores: bool := *;
    events := Note(before, ResultRestored(restores));
    error := if restores then None else Some(Unavailable);
  }

  /** A session for one attempt: the stored one, or the result of a recovery led here or elsewhere. At most
      one recovery is led, and a password login happens only inside it. */
  method Acquire(q: Query, before: seq<Event>) returns (r: Option<Error>, events: seq<Event>)
    requires Begun(q, before)
    requires before != [] && Open(before, before[|before| - 1]) && before[|before| - 1].AttemptStarted?
    ensures Extends(before, events, 0, 1, 1) && LoginsLed(before, events) && Settled(events)
    ensures r.None? ==> InHand(events[|events| - 1]) || events[|events| - 1] == ResultRestored(true)
    ensures !events[|events| - 1].AskedAgain?
    ensures r.Some? ==> Explains(events[|events| - 1], r.value) || ElectedSince(events, |before|)
  {
    var load;
    load, events := LoadTarget(q, before);
    if load.LoadFailed? { return Some(load.error), events; }
    if load.Session? { return None, events; }
    r, events := HoldElections(q, events);
  }

  /** Up to two elections, the second only for a follower that asks again. */
  method HoldElections(q: Query, before: seq<Event>) returns (r: Option<Error>, events: seq<Event>)
    requires Begun(q, before)
    requires before != [] && Open(before, before[|before| - 1]) && Settled(before) && Missing(before[|before| - 1])
    ensures Extends(before, events, 0, 1, 1) && LoginsLed(before, events) && Settled(events)
    ensures r.None? ==> events[|events| - 1] == ResultRestored(true)
    ensures !events[|events| - 1].AskedAgain? && ElectedSince(events, |before|)
  {
    events := before;
    for election := 0 to 2
      invariant Extends(before, events, 0, 0, 0) && Settled(events)
      invariant Missing(events[|events| - 1]) || events[|events| - 1].AskedAgain?
      invariant election > 0 ==> ElectedSince(events, |before|)
      invariant election == 2 ==> !events[|events| - 1].AskedAgain?
    {
      var turn;
      ghost var n := |events|;
      turn, events := TakeTurn(q, events, election);
      assert events[n].Elected?;
      if turn.Over? { return turn.error, events; }
    }
    r := Some(Unavailable);
  }

  // ---------------------------------------------------------------- queries

  /** The first attempt's session was rejected and deleted. */
  predicate Rejected(events: seq<Event>) {
    |events| > 1 && events[|events| - 1] == TargetDeleted && Rejects(events[|events| - 2])
  }

  method StartAttempt(q: Query, before: seq<Event>, attempt: nat) returns (events: seq<Event>)
    requires attempt == 1 ==> before == []
    requires attempt != 1 ==> attempt == 2 && Begun(q, before) && Rejected(before) && Open(before, TargetDeleted)
    ensures Extends(before, events, 0, 0, 0) && events == before + [AttemptStarted(attempt, q)] && Begun(q, events)
  {
    if attempt == 1 {
      events := [AttemptStarted(1, q)];
      FirstAttempt(q);
    } else {
      events := Note(before, AttemptStarted(attempt, q));
    }
  }

  lemma FirstAttempt(q: Query)
    ensures Extends([], [AttemptStarted(1, q)], 0, 0, 0)
  {
    assert [AttemptStarted(1, q)][..0] == [];
  }

  datatype Attempt = Retry | Done(outcome: Outcome)

  /** The request could not be repeated, its page carries the error, or it was a challenge. */
  predicate FailedPage(before: seq<Event>, events: seq<Event>, error: Error) {
    || (events == before && error == Unavailable)
    || (events != [] && Explains(events[|events| - 1], error))
    || (ChallengedLast(events) && error == ChallengeRequired)
  }

  predicate ChallengedLast(events: seq<Event>) {
    && |events| > 1 && events[|events| - 1].TargetDeleted? && events[|events| - 2].Requested?
    && events[|events| - 2].page.Page? && events[|events| - 2].page.challenge
  }

  method Request(q: Query, before: seq<Event>) returns (r: Attempt, events: seq<Event>)
    requires Begun(q, before)
    requires before != [] && Open(before, before[|before| - 1]) && Settled(before)
    requires InHand(before[|before| - 1]) || before[|before| - 1] == ResultRestored(true)
    ensures Extends(before, events, 1, 0, 0) && Settled(events)
    ensures r.Retry? ==> Rejected(events)
    ensures r.Retry? ==> Counted(events).requests == Counted(before).requests + 1
    ensures r == Done(Answered) ==> AnswersQuery(q, events[|events| - 1])
    ensures !before[|before| - 1].AskedAgain? ==> !events[|events| - 1].AskedAgain?
    ensures r.Done? && r.outcome.Failed? ==>
              !Accepts(events[|events| - 1]) && FailedPage(before, events, r.outcome.error)
  {
    var rewound: bool := *;
    if !rewound { return Done(Failed(Unavailable)), before; }
    var page: PageAnswer := *;
    events := Note(before, Requested(q, page));
    r, events := Judge(q, page, events);
  }

  /** What becomes of an answered request. */
  method Judge(q: Query, page: PageAnswer, before: seq<Event>) returns (r: Attempt, events: seq<Event>)
    requires Open(before, Requested(q, page))
    ensures Extends(before, events, 0, 0, 0) && Settled(events)
    ensures r.Retry? ==> Rejected(events)
    ensures r == Done(Answered) ==> AnswersQuery(q, events[|events| - 1])
    ensures r.Done? && r.outcome.Failed? ==>
              !Accepts(events[|events| - 1]) && FailedPage([], events, r.outcome.error)
  {
    events := before;
    match Classify(q, page)
    case Challenged =>
      events := DeleteTarget(events);
      r := Done(Failed(ChallengeRequired));
    case SessionRejected =>
      events := DeleteTarget(events);
      r := Retry;
    case ContractBroken => r := Done(Failed(if page.PageFailed? then page.error else Unavailable));
    case Accepted => r := Done(Answered);
  }

  predicate Acquired(last: Event) { InHand(last) || last == ResultRestored(true) }

  /** A failed query ends with the event that carries its error, with a challenge or a rejection, before a request that
      could not be repeated, or it asked for a recovery, whose error may be another query's or the caller's own. */
  predicate Explained(events: seq<Event>, error: Error) {
    && events != []
    && (|| Explains(events[|events| - 1], error)
        || (ChallengedLast(events) && error == ChallengeRequired)
        || (Rejected(events) && Counted(events).requests == 2 && error == Unavailable)
        || (Acquired(events[|events| - 1]) && error == Unavailable)
        || ElectedSince(events, 0))
  }

  lemma SameRequests(before: seq<Event>, started: seq<Event>, events: seq<Event>)
    requires Extends(before, started, 0, 0, 0) && Extends(started, events, 0, 1, 1)
    ensures Counted(events).requests == Counted(before).requests
  {}

  /** What an attempt adds up to. */
  lemma AttemptExtends(before: seq<Event>, started: seq<Event>, acquired: seq<Event>, events: seq<Event>)
    requires Extends(before, started, 0, 0, 0) && Extends(started, acquired, 0, 1, 1)
    requires LoginsLed(started, acquired) && Extends(acquired, events, 1, 0, 0)
    requires Counted(started).leads == Counted(before).leads && Counted(started).logins == Counted(before).logins
    ensures Extends(before, events, 1, 1, 1) && LoginsLed(before, events)
  {}

  /** One attempt: a session, and a request with it. */
  method TryOnce(q: Query, before: seq<Event>, attempt: nat) returns (r: Attempt, events: seq<Event>)
    requires attempt == 1 ==> before == []
    requires attempt != 1 ==> attempt == 2 && Begun(q, before) && Rejected(before) && Open(before, TargetDeleted)
    ensures Extends(before, events, 1, 1, 1) && LoginsLed(before, events) && Settled(events) && Begun(q, events)
    ensures !events[|events| - 1].AskedAgain?
    ensures r.Retry? ==> Rejected(events) && Counted(events).requests == Counted(before).requests + 1
    ensures r == Done(Answered) ==> AnswersQuery(q, events[|events| - 1])
    ensures r.Done? && r.outcome.Failed? ==> !Accepts(events[|events| - 1]) && Explained(events, r.outcome.error)
  {
    var started := StartAttempt(q, before, attempt);
    var error;
    error, events := Acquire(q, started);
    NoRequestLast(started, events, 1, 1);
    SameRequests(before, started, events);
    var acquired := events;
    if error.Some? {
      AttemptExtends(before, started, acquired, acquired);
      AcquireExplained(events, |started|, error.value);
      return Done(Failed(error.value)), events;
    }
    r, events := Request(q, acquired);
    AttemptExtends(before, started, acquired, events);
    if r.Done? && r.outcome.Failed? { RequestExplained(acquired, events, r.outcome.error); }
  }

  lemma AcquireExplained(events: seq<Event>, n: nat, error: Error)
    requires events != [] && (Explains(events[|events| - 1], error) || ElectedSince(events, n))
    ensures Explained(events, error)
  {}

  lemma RequestExplained(acquired: seq<Event>, events: seq<Event>, error: Error)
    requires events != [] && acquired != [] && Acquired(acquired[|acquired| - 1]) && FailedPage(acquired, events, error)
    ensures Explained(events, error)
  {}

  /** One query up to its answer: at most two business requests, two logins and two recoveries. */
  method Run(q: Query) returns (r: Outcome, events: seq<Event>)
    ensures Extends([], events, 2, 2, 2) && LoginsLed([], events) && Settled(events)
    ensures Begun(q, events)
    ensures !events[|events| - 1].AskedAgain?
    ensures if r.Answered? then AnswersQuery(q, events[|events| - 1])
            else !Accepts(events[|events| - 1]) && Explained(events, r.error)
  {
    events := [];
    for attempt := 1 to 3
      invariant attempt == 1 ==> events == []
      invariant attempt > 1 ==>
                Extends([], events, attempt - 1, attempt - 1, attempt - 1) && Settled(events) && Rejected(events)
                && Begun(q, events) && Counted(events).requests == attempt - 1
      invariant LoginsLed([], events)
    {
      var result;
      result, events := TryOnce(q, events, attempt);
      if result.Done? { return result.outcome, events; }
    }
    r := Failed(Unavailable);
  }

  /** The caller reports whether the accepted page could be parsed; only then is the session saved. */
  method ReportParse(before: seq<Event>, ok: bool) returns (events: seq<Event>)
    requires before != [] && Open(before, before[|before| - 1])
    requires Accepts(before[|before| - 1])
    ensures Extends(before, events, 0, 0, 0) && Settled(events)
    ensures ok ==> events == before + [Parsed(true), TargetSaved]
    ensures !ok ==> events == before + [Parsed(false)]
  {
    events := Note(before, Parsed(ok));
    if ok { events := SaveTarget(events); }
  }

  /** What a query may do to the stored sessions, event by event. The target session is deleted right after
      proof that it is dead and saved right after proof that it works, and never otherwise; all such proof is
      acted upon; and after a final answer the query does nothing more. */
  ghost predicate KeepsToEvidence(events: seq<Event>) {
    && (forall i :: 0 <= i < |events| ==> (DeletesTarget(events, i) <==> i > 0 && TargetDead(events[i - 1])))
    && (forall i :: 0 <= i < |events| ==> (SavesTarget(events, i) <==> i > 0 && TargetAlive(events[i - 1])))
    && (forall i :: 0 <= i < |events| && TargetDead(events[i]) ==> i + 1 < |events|)
    && (forall i :: 0 <= i < |events| && TargetAlive(events[i]) ==> i + 1 < |events|)
    && (forall i :: 0 <= i < |events| && Final(events[i]) ==> i + 1 == |events|)
  }

  predicate DeletesTarget(events: seq<Event>, i: nat) requires i < |events| { events[i].TargetDeleted? }

  predicate SavesTarget(events: seq<Event>, i: nat) requires i < |events| { events[i].TargetSaved? }

  lemma JustifiedKeepsToEvidence(events: seq<Event>)
    requires Legal(events) && AllJustified(events) && Settled(events)
    ensures KeepsToEvidence(events)
  {
    forall i | 0 <= i < |events|
      ensures DeletesTarget(events, i) <==> i > 0 && TargetDead(events[i - 1])
      ensures SavesTarget(events, i) <==> i > 0 && TargetAlive(events[i - 1])
      ensures TargetDead(events[i]) || TargetAlive(events[i]) ==> i + 1 < |events|
      ensures Final(events[i]) ==> i + 1 == |events|
    {
      assert i > 0 ==> JustifiedAt(events, i);
      assert i + 1 < |events| ==> JustifiedAt(events, i + 1);
    }
  }

  /** A restored target session is what the store answered with.  It is probed exactly when the query is undergraduate
      and the state was not validated within the window before the clock reading; nothing else is probed. */
  ghost predicate ProbesWhatIsStale(q: Query, events: seq<Event>) {
    && (forall i :: 0 <= i < |events| && events[i].TargetRestored? ==> StoredBefore(events, i))
    && (forall i :: 0 <= i < |events| && events[i].TargetRestored? && events[i].ok ==>
          (ProbedNext(events, i)
           <==> q.undergraduate
                && (events[i].validatedAt <= 0 || events[i].now - events[i].validatedAt > q.validationWindow)))
    && (forall i :: 0 <= i < |events| && events[i].Probed? ==> RestoredBefore(events, i))
  }

  predicate StoredBefore(events: seq<Event>, i: nat)
    requires i < |events| && events[i].TargetRestored?
  {
    i > 0 && events[i - 1] == TargetLoaded(Hit(events[i].ok, events[i].validatedAt))
  }

  predicate ProbedNext(events: seq<Event>, i: nat) { i + 1 < |events| && events[i + 1].Probed? }

  predicate RestoredBefore(events: seq<Event>, i: nat)
    requires i < |events|
  {
    i > 0 && events[i - 1].TargetRestored? && events[i - 1].ok
  }

  /** A query asks for another recovery only after following one whose leader ran into its own deadline, while the
      query itself still has time. */
  ghost predicate AsksAgainForDeadlines(events: seq<Event>) {
    forall i :: 0 <= i < |events| && events[i].AskedAgain? ==> FollowedBefore(events, i)
  }

  predicate FollowedBefore(events: seq<Event>, i: nat)
    requires i < |events| && events[i].AskedAgain?
  {
    && i > 0 && events[i - 1] == Elected(false) && !events[i].contextDone
    && i + 1 < |events| && events[i + 1].Elected?
    && var result := events[i].result;
       result.shared && result.foreign && result.deadlineExpired && result.error == Some(DeadlineExceeded)
  }

  lemma JustifiedProbes(q: Query, events: seq<Event>)
    requires Legal(events) && AllJustified(events) && Settled(events) && Begun(q, events)
    requires !events[|events| - 1].AskedAgain?
    requires forall i :: 0 <= i < |events| ==> Asks(events[i], events[0])
    ensures ProbesWhatIsStale(q, events) && AsksAgainForDeadlines(events)
  {
    forall i | 0 <= i < |events|
      ensures events[i].TargetRestored? ==> StoredBefore(events, i)
      ensures events[i].TargetRestored? && events[i].ok ==>
                (ProbedNext(events, i)
                 <==> q.undergraduate
                      && (events[i].validatedAt <= 0 || events[i].now - events[i].validatedAt > q.validationWindow))
      ensures events[i].Probed? ==> RestoredBefore(events, i)
      ensures events[i].AskedAgain? ==> FollowedBefore(events, i)
    {
      assert i > 0 ==> JustifiedAt(events, i);
      assert i + 1 < |events| ==> JustifiedAt(events, i + 1);
      assert Asks(events[i], events[0]);
    }
  }

  /** A whole query with its parse, from an empty trace and whatever is answered: it keeps to the evidence,
      stays within two requests and two recoveries, logs in only inside a recovery it leads, and an answer
      that could be parsed ends in a saved session. */
  method WholeQuery(q: Query) returns (r: Outcome, parsed: Option<bool>, events: seq<Event>)
    ensures Legal(events) && KeepsToEvidence(events)
    ensures Begun(q, events) && ProbesWhatIsStale(q, events) && AsksAgainForDeadlines(events)
    ensures forall i :: 0 <= i < |events| && events[i].LoggedIn? ==> LastRung(events, i)
    ensures Grown(Tally(0, 0, 0), Counted(events), 2, 2, 2) && Counted(events).logins <= Counted(events).leads
    ensures r.Answered? <==> parsed.Some?
    ensures r.Failed? ==> !Accepts(events[|events| - 1]) && Explained(events, r.error)
    ensures parsed == Some(true) ==>
              |events| > 2 && AnswersQuery(q, events[|events| - 3]) && events[|events| - 1].TargetSaved?
    ensures parsed == Some(false) ==>
              |events| > 1 && AnswersQuery(q, events[|events| - 2]) && events[|events| - 1] == Parsed(false)
  {
    r, events := Run(q);
    parsed := None;
    if r.Answered? {
      var ok: bool := *;
      events := ReportParse(events, ok);
      parsed := Some(ok);
    }
    SoundIsLegalAndJustified(events);
    JustifiedKeepsToEvidence(events);
    SoundAsksOne(events);
    JustifiedProbes(q, events);
    forall i | 0 <= i < |events| && events[i].LoggedIn? ensures LastRung(events, i) { LoginIsLastRung(events, i); }
  }
}
