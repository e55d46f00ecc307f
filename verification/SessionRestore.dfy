/** What a snapshot may hold, and what is left of it when it is replayed into a fresh jar. */
module SessionRestore {
  import opened Wrappers
  import opened Statistics
  import opened Sessions
  import opened CookieJar

  // ---------------------------------------------------- one authority at a time

  lemma IncludedInOne(r: Record, allowParent: bool, scope: Scope)
    ensures Included(r, allowParent, {scope})
            <==> ScopeAllowsHost(scope, r.sourceHost) && (allowParent || scope == Identity || r.domain == r.sourceHost)
  {
    assert scope in {scope};
  }

  /** Snapshots of different authorities share no record. */
  lemma ScopesDisjoint(records: map<Slot, Record>, a: Scope, b: Scope)
    requires a != b
    ensures Chosen(records, false, {a}) !! Chosen(records, false, {b})
  {
    forall r | r in Chosen(records, false, {a}) ensures r !in Chosen(records, false, {b}) {
      IncludedInOne(r, false, a);
      IncludedInOne(r, false, b);
      AuthoritiesPartition(r.sourceHost);
    }
  }

  lemma CapturedOwner(
    records: map<Slot, Record>, allowParent: bool, scopes: set<Scope>, state: SessionState, p: (Url, SessionCookie))
    returns (r: Record)
    requires InSlots(records) && Captures(state, Chosen(records, allowParent, scopes)) && p in Flat(state.sets)
    ensures r in Chosen(records, allowParent, scopes) && p == Persisted(r)
    ensures SlotOf(r) in records && records[SlotOf(r)] == r && Included(r, allowParent, scopes)
  {
    r :| r in Chosen(records, allowParent, scopes) && p == Persisted(r);
  }

  /** A record one target may keep was set by the target's host for that host alone. */
  lemma TargetRecordOwned(r: Record, scope: Scope)
    requires WellFormed(r) && Included(r, false, {scope})
    ensures ScopeAllowsHost(scope, r.source.host)
    ensures scope != Identity ==> r.cookieDomain == "" || r.cookieDomain == Lower(r.source.host)
    ensures scope != Identity ==> CanonicalDomain(r.cookieDomain) != Some(PARENT_DOMAIN)
  {
    IncludedInOne(r, false, scope);
    LowerTwice(r.source.host);
  }

  ghost predicate HostOnly(scope: Scope, p: (Url, SessionCookie)) {
    ScopeAllowsHost(scope, p.0.host) && (scope != Identity ==> p.1.domain == "" || p.1.domain == Lower(p.0.host))
  }

  ghost predicate NoParent(scope: Scope, c: SessionCookie) {
    scope != Identity ==> CanonicalDomain(c.domain) != Some(PARENT_DOMAIN)
  }

  /** A target snapshot holds cookies of its own host only, none for the parent domain: when it is within
      the general limits it is a valid state of its scope. */
  lemma SnapshotIsScoped(records: map<Slot, Record>, scope: Scope, state: SessionState)
    requires Keyed(records) && Captures(state, Chosen(records, false, {scope}))
    ensures ValidScopedState(state, scope) <==> ValidState(state)
    ensures forall p :: p in Flat(state.sets) ==> HostOnly(scope, p)
  {
    forall p | p in Flat(state.sets) ensures HostOnly(scope, p) && NoParent(scope, p.1) {
      var r := CapturedOwner(records, false, {scope}, state, p);
      TargetRecordOwned(r, scope);
    }
    SetsOwned(state.sets, scope);
  }

  lemma SetsOwned(sets: seq<CookieSet>, scope: Scope)
    requires forall s :: s in sets ==> s.cookies != []
    requires forall p :: p in Flat(sets) ==> HostOnly(scope, p) && NoParent(scope, p.1)
    ensures forall s :: s in sets ==> OwnedBy(scope, s)
  {
    FlatMembers(sets);
    forall s | s in sets ensures OwnedBy(scope, s) {
      assert (s.url, s.cookies[0]) in Flat(sets);
      forall c | c in s.cookies ensures NoParent(scope, c) { assert (s.url, c) in Flat(sets); }
    }
  }

  // ------------------------------------------------------------------ replay

  predicate Dead(c: SessionCookie, now: int) { 0 < c.expiresAt <= now }

  function Rebuilt(c: SessionCookie): SetCookie {
    SetCookie(c.name, c.value, c.domain, c.path, if c.expiresAt > 0 then Some(c.expiresAt) else None, 0)
  }

  /** The write that replaying one labelled cookie makes, if any. */
  function Revived(p: (Url, SessionCookie), now: int): Option<Write> {
    if Dead(p.1, now) then None else WriteOf(Stripped(p.0), Rebuilt(p.1), now)
  }

  /** The writes a rule makes of a list of labelled cookies. */
  function Collected(flat: seq<(Url, SessionCookie)>, rule: ((Url, SessionCookie)) -> Option<Write>): seq<Write> {
    if flat == [] then []
    else
      var w := rule(flat[|flat| - 1]);
      Collected(flat[..|flat| - 1], rule) + (if w.Some? then [w.value] else [])
  }

  function Replay(now: int): ((Url, SessionCookie)) -> Option<Write> { p => Revived(p, now) }

  lemma {:induction false} CollectedJoins(
    a: seq<(Url, SessionCookie)>, b: seq<(Url, SessionCookie)>, rule: ((Url, SessionCookie)) -> Option<Write>)
    ensures Collected(a + b, rule) == Collected(a, rule) + Collected(b, rule)
  {
    if b == [] {
      assert a + b == a;
    } else {
      assert (a + b)[..|a + b| - 1] == a + b[..|b| - 1];
      CollectedJoins(a, b[..|b| - 1], rule);
    }
  }

  lemma CollectedOne(url: Url, front: seq<SessionCookie>, c: SessionCookie, cookies: seq<Option<SetCookie>>, now: nat)
    requires AcceptsFrom(Some(url)) && WritesOf(Some(url), cookies, now) == Collected(Labelled(url, front), Replay(now))
    ensures Dead(c, now) ==> WritesOf(Some(url), cookies, now) == Collected(Labelled(url, front + [c]), Replay(now))
    ensures !Dead(c, now) ==>
        WritesOf(Some(url), cookies + [Some(Rebuilt(c))], now) == Collected(Labelled(url, front + [c]), Replay(now))
  {
    assert Labelled(url, front + [c])[..|front|] == Labelled(url, front);
    assert (cookies + [Some(Rebuilt(c))])[..|cookies|] == cookies;
  }

  /** The live cookies of a set, as a response would set them again. */
  method LiveCookies(s: CookieSet, now: nat) returns (cookies: seq<Option<SetCookie>>)
    requires AcceptsFrom(Some(s.url))
    ensures WritesOf(Some(s.url), cookies, now) == Collected(Labelled(s.url, s.cookies), Replay(now))
    ensures cookies == [] <==> AllDead(s.cookies, now)
  {
    cookies := [];
    for i := 0 to |s.cookies|
      invariant SetAgain(s.url, s.cookies[..i], cookies, now)
    {
      assert s.cookies[..i + 1] == s.cookies[..i] + [s.cookies[i]];
      cookies := LiveCookie(s.url, s.cookies[..i], s.cookies[i], cookies, now);
    }
    assert s.cookies[..|s.cookies|] == s.cookies;
  }

  /** These responses write what replaying the cookies does. */
  ghost predicate SetAgain(url: Url, front: seq<SessionCookie>, cookies: seq<Option<SetCookie>>, now: nat) {
    && WritesOf(Some(url), cookies, now) == Collected(Labelled(url, front), Replay(now))
    && (cookies == [] <==> AllDead(front, now))
  }

  method LiveCookie(
    url: Url, ghost front: seq<SessionCookie>, cookie: SessionCookie, cookies: seq<Option<SetCookie>>, now: nat)
    returns (longer: seq<Option<SetCookie>>)
    requires AcceptsFrom(Some(url)) && SetAgain(url, front, cookies, now)
    ensures SetAgain(url, front + [cookie], longer, now)
  {
    CollectedOne(url, front, cookie, cookies, now);
    longer := if Dead(cookie, now) then cookies else cookies + [Some(Rebuilt(cookie))];
  }

  predicate AllDead(cookies: seq<SessionCookie>, now: int) { forall c :: c in cookies ==> Dead(c, now) }

  predicate NothingLive(sets: seq<CookieSet>, now: int) { forall s :: s in sets ==> AllDead(s.cookies, now) }

  method RestoreSet(client: TrackedCookieJar, s: CookieSet, now: nat, ghost done: seq<Write>) returns (count: nat)
    requires client.Valid() && client.clock <= now && AcceptsFrom(Some(s.url)) && Applied(map[], done, client.records)
    modifies client
    ensures client.Valid() && client.clock == if count > 0 then now else old(client.clock)
    ensures Applied(map[], done + Collected(Labelled(s.url, s.cookies), Replay(now)), client.records)
    ensures count == 0 <==> AllDead(s.cookies, now)
  {
    var cookies := LiveCookies(s, now);
    ghost var before := client.records;
    if |cookies| > 0 {
      client.SetCookies(Some(s.url), cookies, now);
    }
    ApplyTwice(before, done, WritesOf(Some(s.url), cookies, now), client.records);
    count := |cookies|;
  }

  method RestoreSets(sets: seq<CookieSet>, now: nat) returns (client: TrackedCookieJar, restored: nat)
    requires forall s :: s in sets ==> AcceptsFrom(Some(s.url))
    ensures fresh(client) && client.Valid() && client.clock == if restored > 0 then now else 0
    ensures Applied(map[], Collected(Flat(sets), Replay(now)), client.records)
    ensures restored == 0 <==> NothingLive(sets, now)
  {
    client := new TrackedCookieJar();
    restored := 0;
    for i := 0 to |sets|
      invariant fresh(client) && client.Valid() && client.clock == if restored > 0 then now else 0
      invariant Applied(map[], Collected(Flat(sets[..i]), Replay(now)), client.records)
      invariant restored == 0 <==> NothingLive(sets[..i], now)
    {
      var s := sets[i];
      assert sets[..i + 1] == sets[..i] + [s];
      FlatStep(sets[..i], s);
      CollectedJoins(Flat(sets[..i]), Labelled(s.url, s.cookies), Replay(now));
      var count := RestoreSet(client, s, now, Collected(Flat(sets[..i]), Replay(now)));
      restored := restored + count;
    }
    assert sets[..|sets|] == sets;
  }

  /** A jar holding what replaying the state into an empty one leaves, unless the state is unsafe or
      nothing in it is alive. */
  method RestoreSession(state: SessionState, now: nat) returns (jar: TrackedCookieJar?)
    ensures jar == null <==> !ValidState(state) || NothingLive(state.sets, now)
    ensures jar != null ==> fresh(jar) && jar.Valid() && jar.clock == now
    ensures jar != null ==> Applied(map[], Collected(Flat(state.sets), Replay(now)), jar.records)
  {
    var valid := ValidateSessionState(state);
    if !valid { return null; }
    assert forall s :: s in state.sets ==> ValidSet(s);
    var client, restored := RestoreSets(state.sets, now);
    jar := if restored > 0 then client else null;
  }

  lemma ApplyTwice(before: map<Slot, Record>, first: seq<Write>, second: seq<Write>, after: map<Slot, Record>)
    requires Applied(map[], first, before) && Applied(before, second, after)
    ensures Applied(map[], first + second, after)
  {
    forall slot ensures Lookup(after, slot) == LastWrite(first + second, slot, Lookup(map[], slot)) {
      LastWriteJoins(first, second, slot, None);
    }
  }

  // -------------------------------------------------------------- round trip

  lemma DomainsSurvive(sourceHost: string, d: Domains)
    requires SettableFrom(d, sourceHost) && Lower(sourceHost) == sourceHost
    ensures DomainsOf(sourceHost, d.cookieDomain) == Some(d)
  {}

  lemma RebuiltWrite(r: Record, now: nat)
    requires DomainsOf(Lower(r.source.host), r.cookieDomain) == Some(Domains(r.cookieDomain, r.domain))
    requires r.sourceHost == Lower(r.source.host)
    requires Absolute(r.path) && ValidName(r.name) && ValidValue(r.value) && !Expired(r, now)
    ensures WriteOf(r.source, Rebuilt(Persisted(r).1), now)
            == if ValidPath(r.path) then Some(Write(SlotOf(r), Some(r))) else None
  {}

  /** A kept record is written back unchanged while it is alive, unless its path has a byte that a
      Set-Cookie header cannot carry. */
  lemma RevivedRecord(r: Record, now: nat)
    requires WellFormed(r) && (r.expires.Some? ==> r.expires.value > 0)
    ensures Revived(Persisted(r), now) == if !Expired(r, now) && ValidPath(r.path)
              then Some(Write(SlotOf(r), Some(r))) else None
  {
    if !Expired(r, now) {
      LowerTwice(r.source.host);
      DomainsSurvive(r.sourceHost, Domains(r.cookieDomain, r.domain));
      assert Stripped(r.source) == r.source;
      RebuiltWrite(r, now);
    }
  }

  /** Whether replaying `flat` writes the record of a slot back. */
  ghost predicate ComesBack(records: map<Slot, Record>, flat: seq<(Url, SessionCookie)>, now: int, slot: Slot) {
    slot in records && Persisted(records[slot]) in flat && !Expired(records[slot], now) && ValidPath(slot.path)
  }

  /** A rule that writes carriable live records of the index back and nothing else. */
  ghost predicate Faithful(records: map<Slot, Record>, now: int, rule: ((Url, SessionCookie)) -> Option<Write>) {
    forall k :: k in records ==>
      rule(Persisted(records[k])) == if !Expired(records[k], now) && ValidPath(k.path)
          then Some(Write(k, Some(records[k]))) else None
  }

  ghost predicate FromIndex(records: map<Slot, Record>, p: (Url, SessionCookie)) {
    exists k :: k in records && p == Persisted(records[k])
  }

  lemma {:induction false} ReplayedSlots(
    records: map<Slot, Record>, flat: seq<(Url, SessionCookie)>, now: nat,
    rule: ((Url, SessionCookie)) -> Option<Write>, slot: Slot)
    requires InSlots(records) && Faithful(records, now, rule) && forall p :: p in flat ==> FromIndex(records, p)
    ensures LastWrite(Collected(flat, rule), slot, None)
            == if ComesBack(records, flat, now, slot) then Some(records[slot]) else None
  {
    if flat != [] {
      var front, p := flat[..|flat| - 1], flat[|flat| - 1];
      assert flat == front + [p];
      assert p in flat && forall q :: q in front ==> q in flat;
      ReplayedSlots(records, front, now, rule, slot);
      var k :| k in records && p == Persisted(records[k]);
      LastWriteJoins(Collected(front, rule), if rule(p).Some? then [rule(p).value] else [], slot, None);
    }
  }

  /** The records of a recovery snapshot that a header can carry and that are still alive. */
  ghost function Survivors(
    records: map<Slot, Record>, allowParent: bool, scopes: set<Scope>, now: int): map<Slot, Record> {
    map slot | slot in records && Included(records[slot], allowParent, scopes) && !Expired(records[slot], now)
        && ValidPath(slot.path) :: records[slot]
  }

  /** Replaying a snapshot at any later time gives back exactly its survivors: no record is changed, no
      expiry moved, and none but the expired and the uncarriable are missing. */
  lemma RestoreGivesSurvivors(
    records: map<Slot, Record>, allowParent: bool, scopes: set<Scope>, taken: nat, state: SessionState, now: nat,
        restored: map<Slot, Record>)
    requires Keyed(records) && Unexpired(records, taken) == records
    requires Captures(state, Chosen(records, allowParent, scopes))
    requires Applied(map[], Collected(Flat(state.sets), Replay(now)), restored)
    ensures restored == Survivors(records, allowParent, scopes, now)
  {
    ReplayIsFaithful(records, taken, now);
    forall slot ensures Lookup(restored, slot) == Lookup(Survivors(records, allowParent, scopes, now), slot) {
      SurvivorsComeBack(records, allowParent, scopes, state, now, slot);
      ReplayedSlots(records, Flat(state.sets), now, Replay(now), slot);
      assert Lookup(map[], slot) == None;
    }
    SameLookups(restored, Survivors(records, allowParent, scopes, now));
  }

  lemma SurvivorsComeBack(
    records: map<Slot, Record>, allowParent: bool, scopes: set<Scope>, state: SessionState, now: nat, slot: Slot)
    requires InSlots(records) && Captures(state, Chosen(records, allowParent, scopes))
    ensures forall p :: p in Flat(state.sets) ==> FromIndex(records, p)
    ensures ComesBack(records, Flat(state.sets), now, slot) <==> slot in Survivors(records, allowParent, scopes, now)
  {
    forall p | p in Flat(state.sets) ensures FromIndex(records, p) {
      var r := CapturedOwner(records, allowParent, scopes, state, p);
    }
    if ComesBack(records, Flat(state.sets), now, slot) {
      var r := CapturedOwner(records, allowParent, scopes, state, Persisted(records[slot]));
      assert SlotOf(r) == slot;
    }
  }

  lemma ReplayIsFaithful(records: map<Slot, Record>, taken: nat, now: nat)
    requires Keyed(records) && Unexpired(records, taken) == records
    ensures Faithful(records, now, Replay(now))
  {
    forall k | k in records
      ensures Revived(Persisted(records[k]), now) == if !Expired(records[k], now) && ValidPath(k.path)
              then Some(Write(k, Some(records[k]))) else None
    {
      assert k in Unexpired(records, taken);
      RevivedRecord(records[k], now);
    }
  }

  lemma SameLookups(a: map<Slot, Record>, b: map<Slot, Record>)
    requires forall slot :: Lookup(a, slot) == Lookup(b, slot)
    ensures a == b
  {
    forall slot ensures slot in a <==> slot in b { assert Lookup(a, slot) == Lookup(b, slot); }
    forall slot | slot in a ensures a[slot] == b[slot] { assert Lookup(a, slot) == Lookup(b, slot); }
  }

  /** Every record a recovery snapshot takes has a path a header can carry. */
  ghost predicate Carriable(records: map<Slot, Record>, scopes: set<Scope>) {
    forall r :: r in Chosen(records, true, scopes) ==> ValidPath(r.path)
  }

  /** At the millisecond of the snapshot the restored jar's recovery snapshot holds the same records as
      the original's exactly when all of them were carriable; then the persistent snapshots agree too. */
  lemma RecoveryRoundTrip(
    records: map<Slot, Record>, target: Scope, state: SessionState, now: nat, restored: map<Slot, Record>)
    requires target != Identity && Keyed(records) && Unexpired(records, now) == records
    requires Captures(state, Chosen(records, true, {Identity, target}))
    requires Applied(map[], Collected(Flat(state.sets), Replay(now)), restored)
    ensures Chosen(restored, true, {Identity, target}) == Chosen(records, true, {Identity, target})
            <==> Carriable(records, {Identity, target})
    ensures Carriable(records, {Identity, target}) ==>
              forall scope :: scope in {Identity, target} ==>
                  Chosen(restored, false, {scope}) == Chosen(records, false, {scope})
    ensures forall slot :: slot in restored ==> slot in records && restored[slot] == records[slot]
  {
    var scopes := {Identity, target};
    RestoreGivesSurvivors(records, true, scopes, now, state, now, restored);
    forall slot | slot in records ensures !Expired(records[slot], now) { assert slot in Unexpired(records, now); }
    SurvivorsChosen(records, true, scopes, now);
    forall scope | scope in scopes && Carriable(records, scopes)
      ensures Chosen(restored, false, {scope}) == Chosen(records, false, {scope})
    {
      SurvivorsPersist(records, scopes, scope, now);
    }
  }

  lemma SurvivorsChosen(records: map<Slot, Record>, allowParent: bool, scopes: set<Scope>, now: int)
    requires InSlots(records) && forall slot :: slot in records ==> !Expired(records[slot], now)
    ensures forall r :: r in Chosen(Survivors(records, allowParent, scopes, now), allowParent, scopes)
                        <==> r in Chosen(records, allowParent, scopes) && ValidPath(r.path)
  {
    var left := Survivors(records, allowParent, scopes, now);
    forall r
      ensures r in Chosen(left, allowParent, scopes) <==> r in Chosen(records, allowParent, scopes) && ValidPath(r.path)
    {
      if r in Chosen(records, allowParent, scopes) && ValidPath(r.path) {
        assert SlotOf(r) in left && left[SlotOf(r)] == r;
      }
    }
  }

  lemma SurvivorsPersist(records: map<Slot, Record>, scopes: set<Scope>, scope: Scope, now: int)
    requires InSlots(records) && (forall slot :: slot in records ==> !Expired(records[slot], now)) && scope in scopes
    requires Carriable(records, scopes)
    ensures Chosen(Survivors(records, true, scopes, now), false, {scope}) == Chosen(records, false, {scope})
  {
    var left := Survivors(records, true, scopes, now);
    forall r ensures r in Chosen(left, false, {scope}) <==> r in Chosen(records, false, {scope}) {
      if r in Chosen(records, false, {scope}) {
        IncludedInOne(r, false, scope);
        assert Included(r, true, scopes) && r in Chosen(records, true, scopes);
        assert SlotOf(r) in left && left[SlotOf(r)] == r;
      }
    }
  }

  // ------------------------------------------------- a record that is lost

  /** A default path need not be carriable. Whatever cookie without path and domain a page in such a
      directory sets is recorded, and lost on restore. */
  lemma UncarriableDefaultIsLost(source: Url, c: SetCookie, now: nat)
    requires AcceptsFrom(Some(source)) && ValidCookie(c) && c.path == "" && c.domain == "" && c.expires == None
    requires c.maxAge == 0
    requires !ValidPath(DefaultPath(source.path))
    ensures var w := WriteOf(Stripped(source), c, now);
            w.Some? && w.value.record.Some? && Revived(Persisted(w.value.record.value), now) == None
  {}

  /** Such a directory: its name holds a semicolon. */
  lemma SemicolonDirectory()
    ensures DefaultPath("/a;b/page") == "/a;b" && !ValidPath("/a;b")
  {
    var path, directory := "/a;b/page", "/a;b";
    assert path[4] == '/' && path[5] == 'p' && path[6] == 'a' && path[7] == 'g' && path[8] == 'e';
    assert LastSlash(path) == 4;
    assert path[..4] == directory;
    assert directory[2] == ';';
  }

  const PORTAL_COOKIE: SetCookie := SetCookie("SID", "1", "", "", None, 0)

  const SEMICOLON_PATH: string := "/a;b"

  function SemicolonUrl(host: string): Url { Url("https", "", host, "", "/a;b/page", "", "") }

  function SemicolonRecord(host: string): Record {
    Record(SemicolonUrl(host), Lower(host), Lower(host), "", SEMICOLON_PATH, PORTAL_COOKIE.name, PORTAL_COOKIE.value,
           None)
  }

  /** A page below that directory sets a cookie. */
  method RecordSemicolon(host: string, now: nat) returns (jar: TrackedCookieJar)
    requires AllowedHost(host)
    ensures fresh(jar) && jar.Valid() && jar.clock == now
    ensures jar.records == map[SlotOf(SemicolonRecord(host)) := SemicolonRecord(host)]
  {
    var cookies := [Some(PORTAL_COOKIE)];
    SemicolonWritten(host, now);
    jar := new TrackedCookieJar();
    jar.SetCookies(Some(SemicolonUrl(host)), cookies, now);
    OneWrite(WritesOf(Some(SemicolonUrl(host)), cookies, now), SemicolonRecord(host), jar.records);
  }

  predicate Savable(r: Record, target: Scope) {
    && ValidSessionUrl(r.source) && ValidSessionCookie(r.source.host, Persisted(r).1) && r.expires == None
    && (ScopeAllowsHost(Identity, r.sourceHost) || ScopeAllowsHost(target, r.sourceHost))
  }

  /** A jar whose one cookie has such a path: its recovery snapshot holds the cookie and restores successfully,
      and the restored index is empty. */
  method SaveAndRestoreOne(jar: TrackedCookieJar, r: Record, target: Scope, now: nat)
    returns (state: SessionState, restored: TrackedCookieJar?)
    requires jar.Valid() && jar.clock == now && jar.records == map[SlotOf(r) := r]
    requires Savable(r, target) && !ValidPath(r.path)
    modifies jar
    ensures jar.Valid() && jar.records == old(jar.records)
    ensures ValidState(state) && Captures(state, Chosen(jar.records, true, {Identity, target}))
    ensures Flat(state.sets) == [Persisted(r)]
    ensures restored != null && fresh(restored) && restored.records == map[]
  {
    var taken := jar.SnapshotRecords(true, {Identity, target}, now);
    assert SlotOf(r) in jar.records;
    OneChosen(r, jar.records, target);
    state := taken.value;
    OneCaptured(state, r);
    restored := RestoreSession(state, now);
    UncarriableVanishes(r, state, now, restored.records);
  }

  /** The whole failing run, at every allowed host. */
  method SemicolonCookieIsLost(host: string, target: Scope, now: nat)
    returns (jar: TrackedCookieJar, state: SessionState, restored: TrackedCookieJar?)
    requires ScopeAllowsHost(Identity, host) || ScopeAllowsHost(target, host)
    ensures fresh(jar) && jar.records == map[SlotOf(SemicolonRecord(host)) := SemicolonRecord(host)]
    ensures ValidState(state) && Captures(state, Chosen(jar.records, true, {Identity, target}))
    ensures Flat(state.sets) == [Persisted(SemicolonRecord(host))]
    ensures restored != null && fresh(restored) && restored.records == map[]
  {
    AllowedByScope(host, target);
    SemicolonSavable(host, target);
    jar := RecordSemicolon(host, now);
    state, restored := SaveAndRestoreOne(jar, SemicolonRecord(host), target, now);
  }

  lemma AllowedByScope(host: string, target: Scope)
    requires ScopeAllowsHost(Identity, host) || ScopeAllowsHost(target, host)
    ensures AllowedHost(host)
  {
    AuthoritiesPartition(host);
  }

  /** What a cookie without attributes writes. */
  lemma PlainWrite(source: Url, c: SetCookie, now: nat)
    requires ValidCookie(c) && c.path == "" && c.domain == "" && c.expires == None && c.maxAge == 0
    ensures var host, path := Lower(source.host), DefaultPath(source.path);
            WriteOf(source, c, now)
            == Some(Write(Slot(host, path, c.name), Some(Record(source, host, host, "", path, c.name, c.value, None))))
  {}

  lemma OneAccepted(source: Url, c: SetCookie, now: nat, w: Write)
    requires AcceptsFrom(Some(source)) && Stripped(source) == source && WriteOf(source, c, now) == Some(w)
    ensures WritesOf(Some(source), [Some(c)], now) == [w]
  {
    assert [Some(c)][..0] == [];
  }

  lemma PortalCookieValid()
    ensures ValidCookie(PORTAL_COOKIE)
  {
    assert ValidName("SID") && ValidValue("1") && ValidPath("");
  }

  lemma SemicolonWritten(host: string, now: nat)
    requires AllowedHost(host)
    ensures AcceptsFrom(Some(SemicolonUrl(host)))
    ensures WritesOf(Some(SemicolonUrl(host)), [Some(PORTAL_COOKIE)], now)
            == [Write(SlotOf(SemicolonRecord(host)), Some(SemicolonRecord(host)))]
  {
    SemicolonDirectory();
    PortalCookieValid();
    PlainWrite(SemicolonUrl(host), PORTAL_COOKIE, now);
    OneAccepted(SemicolonUrl(host), PORTAL_COOKIE, now,
                Write(SlotOf(SemicolonRecord(host)), Some(SemicolonRecord(host))));
  }

  lemma OneWrite(writes: seq<Write>, r: Record, after: map<Slot, Record>)
    requires writes == [Write(SlotOf(r), Some(r))] && Applied(map[], writes, after)
    ensures after == map[SlotOf(r) := r]
  {
    var none: map<Slot, Record> := map[];
    forall slot ensures Lookup(after, slot) == Lookup(map[SlotOf(r) := r], slot) {
      assert Lookup(none, slot) == None && LastWrite(writes[..0], slot, None) == None;
      assert Lookup(after, slot) == LastWrite(writes, slot, Lookup(none, slot));
    }
    SameLookups(after, map[SlotOf(r) := r]);
  }

  lemma SemicolonSavable(host: string, target: Scope)
    requires ScopeAllowsHost(Identity, host) || ScopeAllowsHost(target, host)
    ensures Savable(SemicolonRecord(host), target) && !ValidPath(SemicolonRecord(host).path)
  {
    AllowedByScope(host, target);
    ScopesIgnoreCase(host, target);
    SemicolonDirectory();
    SemicolonCookie(host);
    SemicolonUrlValid(host);
  }

  lemma ScopesIgnoreCase(host: string, scope: Scope)
    ensures ScopeAllowsHost(scope, Lower(host)) <==> ScopeAllowsHost(scope, host)
    ensures ScopeAllowsHost(Identity, Lower(host)) <==> ScopeAllowsHost(Identity, host)
  {
    LowerTwice(host);
  }

  lemma SemicolonUrlValid(host: string)
    requires AllowedHost(host)
    ensures ValidSessionUrl(SemicolonRecord(host).source) && SemicolonRecord(host).source.host == host
  {}

  lemma SemicolonCookie(host: string)
    ensures ValidSessionCookie(host, Persisted(SemicolonRecord(host)).1)
  {
    assert !IsSpace("SID"[0]);
    assert CanonicalDomain("") == Some("");
    assert "/a;b"[0] == '/' && |"/a;b"| == 4;
  }

  lemma OneChosen(r: Record, records: map<Slot, Record>, target: Scope)
    requires records == map[SlotOf(r) := r]
    requires ScopeAllowsHost(Identity, r.sourceHost) || ScopeAllowsHost(target, r.sourceHost)
    ensures Chosen(records, true, {Identity, target}) == {r}
  {
    var scope := if ScopeAllowsHost(Identity, r.sourceHost) then Identity else target;
    assert scope in {Identity, target} && Included(r, true, {Identity, target});
    assert records[SlotOf(r)] == r;
  }

  /** Replaying the one cookie writes nothing back. */
  lemma UncarriableVanishes(r: Record, state: SessionState, now: nat, restored: map<Slot, Record>)
    requires Flat(state.sets) == [Persisted(r)] && !ValidPath(r.path)
    requires Applied(map[], Collected(Flat(state.sets), Replay(now)), restored)
    ensures restored == map[]
  {
    assert [Persisted(r)][..0] == [];
    assert Rebuilt(Persisted(r).1).path == r.path;
    assert Revived(Persisted(r), now) == None;
    assert Collected([Persisted(r)], Replay(now)) == [];
    SameLookups(restored, map[]);
  }

  lemma {:induction false} NoMoreSetsThanCookies(sets: seq<CookieSet>)
    requires forall s :: s in sets ==> s.cookies != []
    ensures |sets| <= TotalCookies(sets)
  {
    if sets != [] { NoMoreSetsThanCookies(sets[..|sets| - 1]); }
  }

  /** A state that captures one savable record is one set with that record's cookie. */
  lemma OneCaptured(state: SessionState, r: Record)
    requires Captures(state, {r}) && ValidSessionUrl(r.source) && ValidSessionCookie(r.source.host, Persisted(r).1)
    requires r.expires == None
    ensures ValidState(state) && Flat(state.sets) == [Persisted(r)]
    ensures forall now :: !NothingLive(state.sets, now)
  {
    FlatMembers(state.sets);
    NoMoreSetsThanCookies(state.sets);
    assert Flat(state.sets)[0] in Flat(state.sets);
    forall s | s in state.sets ensures ValidSet(s) && s.url == r.source && s.cookies[0] == Persisted(r).1 {
      assert s.cookies[0] in s.cookies;
      assert (s.url, s.cookies[0]) in Flat(state.sets);
      forall c | c in s.cookies ensures ValidSessionCookie(s.url.host, c) { assert (s.url, c) in Flat(state.sets); }
    }
    var first := state.sets[0];
    assert first in state.sets && first.cookies[0] in first.cookies;
  }
}
