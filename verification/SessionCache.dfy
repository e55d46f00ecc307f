/** The session cache as its callers use it: a store whose operations run one at a time, and the lookup
    that falls back from a scoped record to the two kinds of older ones. */
module SessionCache {
  import opened Wrappers
  import opened SourceTerms
  import opened Sessions
  import opened SessionStore
  import opened SessionLimits

  datatype Loaded = Missing | InvalidCache | Found(state: SessionState)

  /** What a key yields: nothing, an unusable value, or a state within the safe limits. */
  function Read(redis: Redis, key: Key, now: int): Loaded {
    if key !in redis.records || redis.records[key].expiresAt <= now then Missing
    else
      var stored := redis.records[key];
      if stored.state.None? || stored.size > MAX_STATE_BYTES || !ValidState(stored.state.value) then InvalidCache
      else Found(stored.state.value)
  }

  /** A record is found exactly when it is there, has not expired, and holds a safe state of at most 128 KiB. */
  lemma ReadExactly(redis: Redis, key: Key, now: int)
    ensures Read(redis, key, now).Missing? <==> key !in redis.records || redis.records[key].expiresAt <= now
    ensures Read(redis, key, now).Found?
            <==> key in redis.records && now < redis.records[key].expiresAt && redis.records[key].state.Some?
                 && redis.records[key].size <= 131072 && SafeState(redis.records[key].state.value)
    ensures Read(redis, key, now).Found? ==> Read(redis, key, now).state == redis.records[key].state.value
  {
    if key in redis.records && redis.records[key].state.Some? { ValidExactly(redis.records[key].state.value); }
  }

  /** What is saved is found until its TTL is over, and every other record reads as before. */
  lemma SavedIsFound(redis: Redis, key: Key, state: SessionState, size: nat, ttl: int, now: int, later: int, other: Key)
    requires Savable(state, size, ttl) && now <= later
    ensures var after := Saved(redis, key, Stored(Some(state), size, now + ttl), now);
            && Read(after, key, later) == (if later < now + ttl then Found(state) else Missing)
            && (other != key ==> Read(after, other, later) == Read(redis, other, later))
  {}

  /** What is removed is gone, from the records and from the indexes, and nothing else is: an index goes with its last
      key, and keeps its expiry until then. */
  lemma RemovedExactly(redis: Redis, keys: set<Key>, now: int, later: int, other: Key, s: string)
    requires WellFiled(redis) && now <= later
    ensures var after := Removed(redis, keys, now);
            && Read(after, other, later) == (if other in keys then Missing else Read(redis, other, later))
            && (other in IndexOf(after, s).keys <==> other in IndexOf(At(redis, now), s).keys && other !in keys)
            && (s in after.indexes ==>
                after.indexes[s].keys != {} && after.indexes[s].expiresAt == redis.indexes[s].expiresAt)
  {}

  /** Some cookie of an undivided state belongs to the scope. */
  ghost predicate HasPart(state: SessionState, scope: Scope) {
    exists p :: p in Flat(state.sets) && Kept(state.sets, scope, p)
  }

  /** The part of an undivided state that belongs to the scope. */
  ghost predicate IsPart(state: SessionState, scope: Scope, part: SessionState) {
    && ValidScopedState(part, scope) && part.validatedAt == state.validatedAt
    && forall p :: p in Flat(part.sets) <==> p in Flat(state.sets) && Kept(state.sets, scope, p)
  }

  /** What an older record contributes: `Missing` passes the lookup on. */
  ghost predicate FromLegacy(source: Loaded, scope: Scope, r: Loaded) {
    match source
    case Missing => r == Missing
    case InvalidCache => r == InvalidCache
    case Found(state) => if HasPart(state, scope) then r.Found? && IsPart(state, scope, r.state) else r == Missing
  }

  ghost predicate FromScoped(source: Loaded, scope: Scope, r: Loaded) {
    match source
    case Missing => r == Missing
    case InvalidCache => r == InvalidCache
    case Found(state) => r == if ValidScopedState(state, scope) then source else InvalidCache
  }

  /** The outcome of a lookup: the scoped record decides, then the undivided one, then the level-prefixed
      one; each is asked only when those before it have nothing for the scope. */
  ghost predicate LoadedFrom(scoped: Loaded, undivided: Loaded, prefixed: Loaded, scope: Scope, r: Loaded) {
    if scoped != Missing then FromScoped(scoped, scope, r)
    else exists second: Loaded :: FromLegacy(undivided, scope, second)
           && if second != Missing then r == second else FromLegacy(prefixed, scope, r)
  }

  function ReadPrefixed(redis: Redis, studentNo: string, password: string, scope: Scope, now: int): Loaded {
    match LegacySubject(studentNo, scope)
    case Some(s) => Read(redis, CacheKey(s, password), now)
    case None => Missing
  }

  /** The possible outcomes of looking a scope up. */
  ghost predicate LoadsAs(redis: Redis, studentNo: string, password: string, scope: Scope, now: int, r: Loaded) {
    LoadedFrom(Read(redis, ScopedCacheKey(studentNo, password, scope), now),
               Read(redis, CacheKey(studentNo, password), now),
               ReadPrefixed(redis, studentNo, password, scope, now), scope, r)
  }

  /** Whose word counts in a lookup: a safe state of the scope in the scoped record is the answer whatever else is
      stored, and an unusable one ends the lookup; the level-prefixed record is asked only when neither the scoped nor
      the undivided one has anything for the scope. */
  lemma LookupOrder(redis: Redis, studentNo: string, password: string, scope: Scope, now: int, r: Loaded)
    ensures var scoped := Read(redis, ScopedCacheKey(studentNo, password, scope), now);
            var undivided := Read(redis, CacheKey(studentNo, password), now);
            && (scoped.Found? && SafeFor(scope, scoped.state) ==>
                (LoadsAs(redis, studentNo, password, scope, now, r) <==> r == scoped))
            && (scoped.InvalidCache? || (scoped.Found? && !SafeFor(scope, scoped.state)) ==>
                (LoadsAs(redis, studentNo, password, scope, now, r) <==> r == InvalidCache))
            && (scoped.Missing? && undivided.InvalidCache? ==>
                (LoadsAs(redis, studentNo, password, scope, now, r) <==> r == InvalidCache))
            && (scoped.Missing? && undivided.Found? && HasPart(undivided.state, scope) ==>
                (LoadsAs(redis, studentNo, password, scope, now, r)
                 <==> r.Found? && IsPart(undivided.state, scope, r.state)))
            && (scoped.Missing? && (undivided.Missing? || (undivided.Found? && !HasPart(undivided.state, scope))) ==>
                (LoadsAs(redis, studentNo, password, scope, now, r)
                 <==> FromLegacy(ReadPrefixed(redis, studentNo, password, scope, now), scope, r)))
  {
    var scoped := Read(redis, ScopedCacheKey(studentNo, password, scope), now);
    var undivided := Read(redis, CacheKey(studentNo, password), now);
    if scoped.Found? {
      ScopedExactly(scoped.state, scope);
    } else if scoped.Missing? {
      UndividedDecides(undivided, ReadPrefixed(redis, studentNo, password, scope, now), scope, r);
    }
  }

  /** An undivided record contributes nothing. */
  ghost predicate Empty(source: Loaded, scope: Scope) {
    source.Missing? || (source.Found? && !HasPart(source.state, scope))
  }

  lemma UndividedDecides(undivided: Loaded, prefixed: Loaded, scope: Scope, r: Loaded)
    ensures LoadedFrom(Missing, undivided, prefixed, scope, r)
            <==> if Empty(undivided, scope) then FromLegacy(prefixed, scope, r) else FromLegacy(undivided, scope, r)
  {
    if Empty(undivided, scope) {
      assert FromLegacy(undivided, scope, Missing);
    } else {
      assert !FromLegacy(undivided, scope, Missing);
    }
  }

  class EncryptedSessionStore {
    var records: map<Key, Stored>
    var indexes: map<string, Index>
    ghost var clock: int

    ghost function Contents(): Redis reads this { Redis(records, indexes) }

    ghost predicate Valid() reads this { Covered(Contents(), clock) && WellFiled(Contents()) }

    constructor ()
      ensures Valid() && Contents() == Redis(map[], map[]) && clock == 0
    {
      records, indexes, clock := map[], map[], 0;
    }

    /** The server drops what has expired before it runs a transaction. */
    method Expire(now: int)
      requires Valid() && clock <= now
      modifies this
      ensures Valid() && clock == now && Contents() == At(old(Contents()), now)
    {
      CoveredLater(Contents(), clock, now);
      var live := At(Redis(records, indexes), now);
      records, indexes, clock := live.records, live.indexes, now;
    }

    /** SET, SADD, EXPIRE NX and EXPIRE GT in one transaction. */
    method SaveKey(key: Key, state: SessionState, size: nat, ttl: int, now: int) returns (ok: bool)
      requires Valid() && clock <= now
      modifies this
      ensures Valid() && clock == now
      ensures ok <==> Savable(state, size, ttl)
      ensures ok <==> 0 < ttl <= 3600000 && SafeState(state) && size <= 131072
      ensures Contents()
              == if ok then Saved(old(Contents()), key, Stored(Some(state), size, now + ttl), now) else old(Contents())
    {
      ghost var before := Contents();
      CoveredLater(before, clock, now);
      ValidExactly(state);
      var valid := ValidateSessionState(state);
      clock := now;
      if ttl <= 0 || ttl > HOUR || !valid || size > MAX_STATE_BYTES { return false; }
      SaveCovers(before, key, Stored(Some(state), size, now + ttl), now);
      Expire(now);
      var subject := key.subject;
      records := records[key := Stored(Some(state), size, now + ttl)];
      var index := if subject in indexes then indexes[subject] else Index({}, None);
      index := index.(keys := index.keys + {key});
      if index.expiresAt.None? { index := index.(expiresAt := Some(now + ttl)); }
      if now + ttl > index.expiresAt.value { index := index.(expiresAt := Some(now + ttl)); }
      indexes := indexes[subject := index];
      ok := true;
      assert Contents() == Saved(before, key, Stored(Some(state), size, now + ttl), now);
    }

    method Save(studentNo: string, password: string, state: SessionState, size: nat, ttl: int, now: int)
      returns (ok: bool)
      requires Valid() && clock <= now
      modifies this
      ensures Valid() && clock == now
      ensures Contents() == Applied(old(Contents()), Op.Save(studentNo, password, state, size, ttl), now)
    {
      ok := SaveKey(CacheKey(studentNo, password), state, size, ttl, now);
    }

    method SaveScope(
      studentNo: string, password: string, scope: Scope, state: SessionState, size: nat, ttl: int, now: int)
      returns (ok: bool)
      requires Valid() && clock <= now
      modifies this
      ensures Valid() && clock == now
      ensures Contents() == Applied(old(Contents()), Op.SaveScope(studentNo, password, scope, state, size, ttl), now)
    {
      CoveredLater(Contents(), clock, now);
      clock := now;
      ok := ValidateScopedSessionState(state, scope);
      if !ok { return; }
      ok := SaveKey(ScopedCacheKey(studentNo, password, scope), state, size, ttl, now);
    }

    /** SREM: an emptied set disappears. */
    method Srem(subject: string, keys: set<Key>)
      modifies this`indexes
      ensures indexes == WithoutKeys(old(indexes), subject, keys)
    {
      if subject in indexes {
        var rest := indexes[subject].keys - keys;
        if rest == {} {
          indexes := indexes - {subject};
        } else {
          indexes := indexes[subject := indexes[subject].(keys := rest)];
        }
      }
    }

    method Delete(studentNo: string, password: string, now: int)
      requires Valid() && clock <= now
      modifies this
      ensures Valid() && clock == now
      ensures Contents() == Applied(old(Contents()), Op.Delete(studentNo, password), now)
    {
      var key := CacheKey(studentNo, password);
      RemoveKeys(key.subject, {key}, key.subject, {}, now);
      assert {key} + {} == {key};
    }

    method DeleteScope(studentNo: string, password: string, scope: Scope, now: int)
      requires Valid() && clock <= now
      modifies this
      ensures Valid() && clock == now
      ensures Contents() == Applied(old(Contents()), Op.DeleteScope(studentNo, password, scope), now)
    {
      var key, legacyKey := ScopedCacheKey(studentNo, password, scope), CacheKey(studentNo, password);
      match LegacySubject(studentNo, scope)
      case Some(legacySubject) =>
        var historicalKey := CacheKey(legacySubject, password);
        RemoveKeys(key.subject, {key, legacyKey}, historicalKey.subject, {historicalKey}, now);
      case None =>
        RemoveKeys(key.subject, {key, legacyKey}, key.subject, {}, now);
    }

    /** DEL of all keys, SREM of each from the index of its own subject. */
    method RemoveKeys(subject: string, keys: set<Key>, legacySubject: string, historicalKeys: set<Key>, now: int)
      requires Valid() && clock <= now
      requires forall k :: k in keys ==> k.subject == subject
      requires forall k :: k in historicalKeys ==> k.subject == legacySubject
      modifies this
      ensures Valid() && clock == now && Contents() == Removed(old(Contents()), keys + historicalKeys, now)
    {
      ghost var before := Contents();
      CoveredLater(before, clock, now);
      RemoveCovers(before, keys + historicalKeys, now);
      Expire(now);
      records := records - (keys + historicalKeys);
      ghost var filed := indexes;
      Srem(subject, keys);
      Srem(legacySubject, historicalKeys);
      RemovedStepwise(before, subject, keys, legacySubject, historicalKeys, now);
    }

    /** SMEMBERS of each of the student's indexes. */
    method ListSubjects(subjects: seq<string>, now: int) returns (keys: set<Key>)
      requires clock <= now
      ensures keys == FiledKeys(Contents(), (set s | s in subjects), now)
    {
      keys := {};
      for i := 0 to |subjects|
        invariant forall k ::
                    k in keys
                    <==> exists j :: 0 <= j < i && k in IndexOf(At(Contents(), now), subjects[j]).keys
      {
        if subjects[i] in indexes && IndexLive(indexes[subjects[i]], now) {
          keys := keys + indexes[subjects[i]].keys;
        }
      }
    }

    /** DEL of the listed keys and of the student's indexes; the list may be older than the purge. */
    method PurgeSubjects(subjects: set<string>, keys: set<Key>, now: int)
      requires Valid() && clock <= now
      modifies this
      ensures clock == now && Contents() == Purged(old(Contents()), subjects, keys, now)
      ensures WellFiled(Contents())
    {
      Expire(now);
      records := records - keys;
      indexes := indexes - subjects;
    }

    method DeleteStudent(studentNo: string, now: int)
      requires Valid() && clock <= now
      modifies this
      ensures Valid() && clock == now
      ensures Contents() == Applied(old(Contents()), Op.DeleteStudent(studentNo), now)
    {
      var subjects := [TrimSpace(studentNo), TrimSpace("undergraduate\0" + studentNo),
          TrimSpace("graduate\0" + studentNo)];
      assert (set s | s in subjects) == Subjects(studentNo);
      CoveredLater(Contents(), clock, now);
      ListedPurge(Contents(), (set s | s in subjects), now);
      var keys := ListSubjects(subjects, now);
      PurgeSubjects((set s | s in subjects), keys, now);
    }

    method LoadKey(key: Key, now: int) returns (r: Loaded)
      ensures r == Read(Contents(), key, now)
    {
      if key !in records || records[key].expiresAt <= now { return Missing; }
      var stored := records[key];
      if stored.state.None? || stored.size > MAX_STATE_BYTES { return InvalidCache; }
      var valid := ValidateSessionState(stored.state.value);
      r := if valid then Found(stored.state.value) else InvalidCache;
    }

    /** Cuts what an older record holds down to the scope. */
    method Migrate(source: Loaded, scope: Scope) returns (r: Loaded)
      requires source.Found? ==> ValidState(source.state)
      ensures FromLegacy(source, scope, r)
    {
      match source
      case Missing => r := Missing;
      case InvalidCache => r := InvalidCache;
      case Found(state) =>
        var migrated := FilterSessionState(state, scope);
        FlatMembers(migrated.value.sets);
        if |migrated.value.sets| > 0 {
          r := Found(migrated.value);
          assert Flat(migrated.value.sets)[0] in Flat(migrated.value.sets);
        } else {
          r := Missing;
          assert Flat(migrated.value.sets) == [];
        }
    }

    /** Finds only states that are valid for the scope, whichever record they come from. */
    method LoadScope(studentNo: string, password: string, scope: Scope, now: int) returns (r: Loaded)
      ensures r.Found? ==> ValidScopedState(r.state, scope)
      ensures LoadsAs(Contents(), studentNo, password, scope, now, r)
    {
      var scoped := LoadKey(ScopedCacheKey(studentNo, password, scope), now);
      if scoped == InvalidCache { return InvalidCache; }
      if scoped.Found? {
        var valid := ValidateScopedSessionState(scoped.state, scope);
        return if valid then scoped else InvalidCache;
      }
      var undivided := LoadKey(CacheKey(studentNo, password), now);
      var second := Migrate(undivided, scope);
      if second != Missing { return second; }
      match LegacySubject(studentNo, scope)
      case None => r := Missing;
      case Some(legacySubject) =>
        var prefixed := LoadKey(CacheKey(legacySubject, password), now);
        r := Migrate(prefixed, scope);
    }
  }

  function WithoutKeys(indexes: map<string, Index>, subject: string, keys: set<Key>): map<string, Index> {
    if subject !in indexes then indexes
    else if indexes[subject].keys - keys == {} then indexes - {subject}
    else indexes[subject := indexes[subject].(keys := indexes[subject].keys - keys)]
  }

  lemma RemovedStepwise(
    before: Redis, subject: string, keys: set<Key>, legacySubject: string, historicalKeys: set<Key>, now: int)
    requires WellFiled(before)
    requires forall k :: k in keys ==> k.subject == subject
    requires forall k :: k in historicalKeys ==> k.subject == legacySubject
    ensures Removed(before, keys + historicalKeys, now).indexes
            == WithoutKeys(WithoutKeys(At(before, now).indexes, subject, keys), legacySubject, historicalKeys)
  {
    var live := At(before, now).indexes;
    var gone := keys + historicalKeys;
    var after := Removed(before, gone, now).indexes;
    var once := WithoutKeys(live, subject, keys);
    var twice := WithoutKeys(once, legacySubject, historicalKeys);
    forall s ensures (s in after <==> s in twice) && (s in after ==> after[s] == twice[s]) {
      if s in live {
        var first := live[s].keys - (if s == subject then keys else {});
        assert live[s].keys - Own(gone, s) == first - (if s == legacySubject then historicalKeys else {});
        assert live[s].keys - {} == live[s].keys;
      }
    }
  }

  // ------------------------------------------------------------ scoped deletes

  /** A scoped delete makes the next lookup miss, whichever record it used before. */
  lemma DeleteScopeStopsLookup(
    before: Redis, studentNo: string, password: string, scope: Scope, now: int, later: int, r: Loaded)
    requires now <= later
    ensures LoadsAs(Removed(before, ScopeKeys(studentNo, password, scope), now), studentNo, password, scope, later, r)
            <==> r == Missing
  {
    var after := Removed(before, ScopeKeys(studentNo, password, scope), now);
    assert Read(after, ScopedCacheKey(studentNo, password, scope), later) == Missing;
    assert Read(after, CacheKey(studentNo, password), later) == Missing;
    assert ReadPrefixed(after, studentNo, password, scope, later) == Missing;
    assert FromLegacy(Missing, scope, Missing);
  }

  /** Every other scoped record survives it. */
  lemma DeleteScopeSparesScoped(
    before: Redis, studentNo: string, password: string, scope: Scope, now: int, later: int, other: Key)
    requires now <= later && other.V2? && other != ScopedCacheKey(studentNo, password, scope)
    ensures Read(Removed(before, ScopeKeys(studentNo, password, scope), now), other, later)
            == Read(before, other, later)
  {
    var keys := ScopeKeys(studentNo, password, scope);
    assert other !in keys;
  }
}
