/** The session cache: encrypted records under keyed fingerprints, and per subject an index of its keys
    so that all of them can be found again. A fingerprint is the tuple it is computed from, ciphertext is
    what it decrypts to, and a record or index is present while the clock is before its expiry. */
module SessionStore {
  import opened Wrappers
  import opened Statistics
  import opened SourceTerms
  import opened Sessions

  /** A record's key; `subject` is the trimmed student number or a level-prefixed one. */
  datatype Key = V1(subject: string, password: string) | V2(scope: Scope, subject: string, password: string)

  /** A value that does not decrypt or decode has no state. */
  datatype Stored = Stored(state: Option<SessionState>, size: nat, expiresAt: int)

  datatype Index = Index(keys: set<Key>, expiresAt: Option<int>)

  datatype Redis = Redis(records: map<Key, Stored>, indexes: map<string, Index>)

  const MAX_STATE_BYTES := 131072
  const HOUR := 3600000

  function CacheKey(studentNo: string, password: string): Key { V1(TrimSpace(studentNo), password) }

  function ScopedCacheKey(studentNo: string, password: string, scope: Scope): Key {
    V2(scope, TrimSpace(studentNo), password)
  }

  /** The subject early callers prefixed with the education level. */
  function LegacySubject(studentNo: string, scope: Scope): Option<string> {
    match scope
    case Undergraduate => Some("undergraduate\0" + studentNo)
    case Graduate => Some("graduate\0" + studentNo)
    case Identity => None
  }

  /** The subjects a student's sessions may be filed under. */
  function Subjects(studentNo: string): set<string> {
    {TrimSpace(studentNo), TrimSpace("undergraduate\0" + studentNo), TrimSpace("graduate\0" + studentNo)}
  }

  /** Two logins share a record exactly when their numbers agree up to the blanks around them and their passwords
      agree, and for a scoped record the scope; scoped and undivided records are never the same. */
  lemma KeysSeparate(a: string, p: string, s: Scope, b: string, q: string, t: Scope)
    ensures CacheKey(a, p) == CacheKey(b, q) <==> TrimSpace(a) == TrimSpace(b) && p == q
    ensures ScopedCacheKey(a, p, s) == ScopedCacheKey(b, q, t) <==> TrimSpace(a) == TrimSpace(b) && p == q && s == t
    ensures CacheKey(a, p) != ScopedCacheKey(b, q, t)
    ensures CacheKey(a, p).subject == ScopedCacheKey(a, p, s).subject == TrimSpace(a)
  {}

  // ---------------------------------------------------------------- the clock

  predicate IndexLive(i: Index, now: int) { i.expiresAt.Some? ==> now < i.expiresAt.value }

  /** What is present at a time. */
  function At(redis: Redis, now: int): Redis {
    Redis(map k | k in redis.records && now < redis.records[k].expiresAt :: redis.records[k],
          map s | s in redis.indexes && IndexLive(redis.indexes[s], now) :: redis.indexes[s])
  }

  predicate NotOver(expiry: Option<int>, now: int) { expiry.None? || now < expiry.value }

  /** Records and indexes are there until their expiry comes, an index without one forever, and unchanged. */
  lemma PresentExactly(redis: Redis, now: int)
    ensures forall k :: k in At(redis, now).records <==> k in redis.records && now < redis.records[k].expiresAt
    ensures forall s :: s in At(redis, now).indexes <==> s in redis.indexes && NotOver(redis.indexes[s].expiresAt, now)
    ensures forall k :: k in At(redis, now).records ==> At(redis, now).records[k] == redis.records[k]
    ensures forall s :: s in At(redis, now).indexes ==> At(redis, now).indexes[s] == redis.indexes[s]
  {}

  /** Every present record is listed in its subject's index, which is present no shorter than it. */
  ghost predicate Listed(redis: Redis, k: Key, now: int) {
    k in redis.records && now < redis.records[k].expiresAt ==>
      k.subject in redis.indexes && k in redis.indexes[k.subject].keys
      && redis.indexes[k.subject].expiresAt.Some?
          && redis.records[k].expiresAt <= redis.indexes[k.subject].expiresAt.value
  }

  /** No present index lacks an expiry, and every present record is listed. */
  ghost predicate Covered(redis: Redis, now: int) {
    (forall s :: s in redis.indexes ==> redis.indexes[s].expiresAt.Some?) && forall k :: Listed(redis, k, now)
  }

  /** Waiting, or dropping what has expired, loses no coverage. */
  lemma CoveredLater(redis: Redis, now: int, later: int)
    requires Covered(redis, now) && now <= later
    ensures Covered(redis, later) && Covered(At(redis, later), later)
  {
    forall k ensures Listed(redis, k, later) && Listed(At(redis, later), k, later) { assert Listed(redis, k, now); }
  }

  // --------------------------------------------------------- the transactions

  function Later(expiry: Option<int>, other: int): int {
    if expiry.Some? && expiry.value > other then expiry.value else other
  }

  function IndexOf(redis: Redis, subject: string): Index {
    if subject in redis.indexes then redis.indexes[subject] else Index({}, None)
  }

  /** The record is stored, listed, and its index kept at least as long. */
  function Saved(redis: Redis, key: Key, stored: Stored, now: int): Redis {
    var live := At(redis, now);
    var index := IndexOf(live, key.subject);
    Redis(live.records[key := stored],
          live.indexes[key.subject := Index(index.keys + {key}, Some(Later(index.expiresAt, stored.expiresAt)))])
  }

  function Own(keys: set<Key>, subject: string): set<Key> { set k | k in keys && k.subject == subject }

  /** The keys are gone from the records and from their own indexes; an emptied index disappears. */
  function Removed(redis: Redis, keys: set<Key>, now: int): Redis {
    var live := At(redis, now);
    Redis(live.records - keys,
          map s | s in live.indexes && live.indexes[s].keys - Own(keys, s) != {} ::
            Index(live.indexes[s].keys - Own(keys, s), live.indexes[s].expiresAt))
  }

  function ScopeKeys(studentNo: string, password: string, scope: Scope): set<Key> {
    {ScopedCacheKey(studentNo, password, scope), CacheKey(studentNo, password)}
    + (match LegacySubject(studentNo, scope) case Some(s) => {CacheKey(s, password)} case None => {})
  }

  /** What listing the indexes of some subjects finds. */
  function FiledKeys(redis: Redis, subjects: set<string>, now: int): set<Key> {
    set s, k | s in subjects && k in IndexOf(At(redis, now), s).keys :: k
  }

  function Purged(redis: Redis, subjects: set<string>, keys: set<Key>, now: int): Redis {
    var live := At(redis, now);
    Redis(live.records - keys, live.indexes - subjects)
  }

  predicate Savable(state: SessionState, size: nat, ttl: int) {
    0 < ttl <= HOUR && ValidState(state) && size <= MAX_STATE_BYTES
  }

  // --------------------------------------------------------- coverage is kept

  /** No index is empty, and each lists keys of its own subject only. */
  ghost predicate WellFiled(redis: Redis) {
    && (forall s :: s in redis.indexes ==> redis.indexes[s].keys != {})
    && forall s, k :: s in redis.indexes && k in redis.indexes[s].keys ==> k.subject == s
  }

  lemma SaveCovers(redis: Redis, key: Key, stored: Stored, now: int)
    requires Covered(redis, now) && now < stored.expiresAt
    ensures Covered(Saved(redis, key, stored, now), now)
    ensures (WellFiled(redis) ==> WellFiled(Saved(redis, key, stored, now)))
  {
    CoveredLater(redis, now, now);
    forall k ensures Listed(Saved(redis, key, stored, now), k, now) { assert Listed(At(redis, now), k, now); }
  }

  lemma RemoveCovers(redis: Redis, keys: set<Key>, now: int)
    requires Covered(redis, now)
    ensures Covered(Removed(redis, keys, now), now) && (WellFiled(redis) ==> WellFiled(Removed(redis, keys, now)))
  {
    CoveredLater(redis, now, now);
    var after := Removed(redis, keys, now);
    forall k ensures Listed(after, k, now) {
      assert Listed(At(redis, now), k, now);
      if k in after.records && now < after.records[k].expiresAt {
        assert k in At(redis, now).indexes[k.subject].keys - Own(keys, k.subject);
      }
    }
  }

  /** Nothing filed under the subjects is alive. */
  ghost predicate FreeOf(redis: Redis, subjects: set<string>, now: int) {
    forall k :: k in redis.records && k.subject in subjects ==> redis.records[k].expiresAt <= now
  }

  /** Everything filed elsewhere and alive is as before. */
  ghost predicate OthersUntouched(before: Redis, after: Redis, subjects: set<string>, now: int) {
    && (forall k: Key :: k.subject !in subjects ==> (k in after.records <==> k in At(before, now).records))
    && (forall k: Key :: k.subject !in subjects && k in after.records ==>
        after.records[k] == At(before, now).records[k])
    && (forall s :: s !in subjects ==> (s in after.indexes <==> s in At(before, now).indexes))
    && (forall s :: s !in subjects && s in after.indexes ==> after.indexes[s] == At(before, now).indexes[s])
  }

  lemma AliveIsFiled(redis: Redis, subjects: set<string>, now: int, k: Key)
    requires Covered(redis, now) && k in redis.records && now < redis.records[k].expiresAt && k.subject in subjects
    ensures k in FiledKeys(redis, subjects, now)
  {
    assert Listed(redis, k, now);
    assert k in IndexOf(At(redis, now), k.subject).keys;
  }

  /** Listing finds every live record of the subjects, and no key of any other. */
  lemma ListingIsExact(redis: Redis, subjects: set<string>, now: int)
    requires Covered(redis, now) && WellFiled(redis)
    ensures forall k :: k in At(redis, now).records && k.subject in subjects ==> k in FiledKeys(redis, subjects, now)
    ensures forall k :: k in FiledKeys(redis, subjects, now) ==> k.subject in subjects
  {
    forall k | k in At(redis, now).records && k.subject in subjects ensures k in FiledKeys(redis, subjects, now) {
      AliveIsFiled(redis, subjects, now, k);
    }
  }

  /** What a purge of some listed keys leaves: nothing of the subjects, and a covered store, exactly when the
      list names every record of theirs that is alive. */
  lemma PurgeLeaves(redis: Redis, subjects: set<string>, listed: set<Key>, now: int)
    requires Covered(redis, now)
    ensures var after := Purged(redis, subjects, listed, now);
            FreeOf(after, subjects, now) && Covered(after, now)
            <==> forall k :: k in At(redis, now).records && k.subject in subjects ==> k in listed
  {
    var after := Purged(redis, subjects, listed, now);
    CoveredLater(redis, now, now);
    if forall k :: k in At(redis, now).records && k.subject in subjects ==> k in listed {
      forall k ensures Listed(after, k, now) { assert Listed(At(redis, now), k, now); }
    }
    forall k | k in At(redis, now).records && k.subject in subjects && k !in listed
      ensures k in after.records && now < after.records[k].expiresAt {}
  }

  lemma ListedPurge(redis: Redis, subjects: set<string>, now: int)
    requires Covered(redis, now) && WellFiled(redis)
    ensures var after := Purged(redis, subjects, FiledKeys(redis, subjects, now), now);
            FreeOf(after, subjects, now) && Covered(after, now) && WellFiled(after)
                && OthersUntouched(redis, after, subjects, now)
  {
    ListingIsExact(redis, subjects, now);
    PurgeLeaves(redis, subjects, FiledKeys(redis, subjects, now), now);
  }

  // ---------------------------------------------------------------- subjects

  lemma {:induction false} TrimRightAfter(prefix: string, s: string)
    requires prefix != [] && !IsSpace(prefix[|prefix| - 1])
    ensures TrimRight(prefix + s) == prefix + TrimRight(s)
  {
    if s == [] {
      assert prefix + s == prefix;
    } else if IsSpace(s[|s| - 1]) {
      assert (prefix + s)[..|prefix + s| - 1] == prefix + s[..|s| - 1];
      TrimRightAfter(prefix, s[..|s| - 1]);
    }
  }

  lemma {:induction false} TrimRightKeepsStart(s: string)
    ensures |TrimRight(s)| <= |s| && (TrimRight(s) != [] ==> TrimRight(s)[0] == s[0])
    ensures TrimRight(s) == [] ==> Blank(s)
  {
    if s != [] && IsSpace(s[|s| - 1]) { TrimRightKeepsStart(s[..|s| - 1]); }
  }

  lemma {:induction false} TrimLeftStarts(s: string)
    ensures |TrimLeft(s)| <= |s| && (TrimLeft(s) != [] ==> !IsSpace(TrimLeft(s)[0]))
    ensures s != [] && IsSpace(s[0]) ==> TrimLeft(s) == TrimLeft(s[1..])
    ensures TrimLeft(s) == [] ==> Blank(s)
  {
    if s != [] && IsSpace(s[0]) { TrimLeftStarts(s[1..]); }
  }

  lemma {:induction false} BlankTrims(s: string)
    requires Blank(s)
    ensures TrimRight(s) == [] && TrimLeft(s) == []
  {
    if s != [] {
      BlankTrims(s[..|s| - 1]);
      BlankTrims(s[1..]);
    }
  }

  /** Level-prefixed subjects keep the blanks in front of the number: the prefixed subject of the trimmed
      number and that of the number as given agree exactly when nothing precedes the number. */
  lemma PrefixedSubjectExactly(prefix: string, studentNo: string)
    requires prefix != [] && !IsSpace(prefix[0]) && !IsSpace(prefix[|prefix| - 1])
    ensures TrimSpace(prefix + TrimSpace(studentNo)) == TrimSpace(prefix + studentNo)
            <==> Blank(studentNo) || !IsSpace(studentNo[0])
  {
    var trimmed := TrimSpace(studentNo);
    TrimRightAfter(prefix, studentNo);
    TrimRightAfter(prefix, trimmed);
    assert TrimSpace(prefix + studentNo) == prefix + TrimRight(studentNo);
    assert TrimSpace(prefix + trimmed) == prefix + TrimRight(trimmed);
    TrimTwice(TrimLeft(studentNo));
    TrimLeftStarts(studentNo);
    TrimRightKeepsStart(studentNo);
    TrimRightKeepsStart(TrimLeft(studentNo));
    if Blank(studentNo) {
      BlankTrims(studentNo);
    } else {
      assert studentNo[0] == TrimRight(studentNo)[0];
      assert IsSpace(studentNo[0]) && trimmed != [] ==> trimmed[0] != studentNo[0];
    }
    assert prefix + TrimRight(trimmed) == prefix + TrimRight(studentNo) ==>
        TrimRight(trimmed) == TrimRight(studentNo) by {
      assert (prefix + TrimRight(trimmed))[|prefix|..] == TrimRight(trimmed);
      assert (prefix + TrimRight(studentNo))[|prefix|..] == TrimRight(studentNo);
    }
  }

  /** The level-prefixed subject of the trimmed number is among the subjects of the number as given exactly
      when no blank precedes the number. */
  lemma PrefixedAmongSubjects(prefix: string, other: string, studentNo: string)
    requires prefix != [] && !IsSpace(prefix[0]) && !IsSpace(prefix[|prefix| - 1])
    requires other != [] && !IsSpace(other[0]) && !IsSpace(other[|other| - 1]) && prefix[0] != other[0]
    ensures TrimSpace(prefix + TrimSpace(studentNo))
              in {TrimSpace(studentNo), TrimSpace(prefix + studentNo), TrimSpace(other + studentNo)}
            <==> Blank(studentNo) || !IsSpace(studentNo[0])
  {
    var trimmed := TrimSpace(studentNo);
    PrefixedSubjectExactly(prefix, studentNo);
    TrimTwice(TrimLeft(studentNo));
    TrimRightAfter(prefix, trimmed);
    TrimRightAfter(other, studentNo);
    assert TrimSpace(prefix + trimmed) == prefix + trimmed;
    assert |prefix + trimmed| > |trimmed|;
    assert TrimSpace(other + studentNo)[0] == other[0] && (prefix + trimmed)[0] == prefix[0];
  }

  lemma {:induction false} TrimTwice(s: string)
    ensures TrimRight(TrimRight(s)) == TrimRight(s)
  {
    if s != [] && IsSpace(s[|s| - 1]) { TrimTwice(s[..|s| - 1]); }
  }

  // ------------------------------------------------------------- operations

  datatype Op =
    | Wait
    | Save(studentNo: string, password: string, state: SessionState, size: nat, ttl: int)
    | SaveScope(studentNo: string, password: string, scope: Scope, state: SessionState, size: nat, ttl: int)
    | Delete(studentNo: string, password: string)
    | DeleteScope(studentNo: string, password: string, scope: Scope)
    | DeleteStudent(studentNo: string)

  function Applied(redis: Redis, op: Op, now: int): Redis {
    match op
    case Wait => redis
    case Save(no, pw, state, size, ttl) =>
      if Savable(state, size, ttl)
          then Saved(redis, CacheKey(no, pw), Stored(Some(state), size, now + ttl), now) else redis
    case SaveScope(no, pw, scope, state, size, ttl) =>
      if ValidScopedState(state, scope) && Savable(state, size, ttl)
      then Saved(redis, ScopedCacheKey(no, pw, scope), Stored(Some(state), size, now + ttl), now) else redis
    case Delete(no, pw) => Removed(redis, {CacheKey(no, pw)}, now)
    case DeleteScope(no, pw, scope) => Removed(redis, ScopeKeys(no, pw, scope), now)
    case DeleteStudent(no) => Purged(redis, Subjects(no), FiledKeys(redis, Subjects(no), now), now)
  }

  /** One operation keeps coverage, and every index well filed. */
  lemma StepCovers(redis: Redis, op: Op, now: int)
    requires Covered(redis, now) && WellFiled(redis)
    ensures Covered(Applied(redis, op, now), now) && WellFiled(Applied(redis, op, now))
  {
    if op.Save? || op.SaveScope? { SaveStepCovers(redis, op, now); }
    else if op.Delete? || op.DeleteScope? { DeleteStepCovers(redis, op, now); }
    else if op.DeleteStudent? { ListedPurge(redis, Subjects(op.studentNo), now); }
  }

  lemma SaveStepCovers(redis: Redis, op: Op, now: int)
    requires Covered(redis, now) && WellFiled(redis) && (op.Save? || op.SaveScope?)
    ensures Covered(Applied(redis, op, now), now) && WellFiled(Applied(redis, op, now))
  {
    if Savable(op.state, op.size, op.ttl) {
      var key := if op.Save? then CacheKey(op.studentNo, op.password)
                 else ScopedCacheKey(op.studentNo, op.password, op.scope);
      SaveCovers(redis, key, Stored(Some(op.state), op.size, now + op.ttl), now);
    }
  }

  lemma DeleteStepCovers(redis: Redis, op: Op, now: int)
    requires Covered(redis, now) && WellFiled(redis) && (op.Delete? || op.DeleteScope?)
    ensures Covered(Applied(redis, op, now), now) && WellFiled(Applied(redis, op, now))
  {
    var keys := if op.Delete? then {CacheKey(op.studentNo, op.password)}
                else ScopeKeys(op.studentNo, op.password, op.scope);
    RemoveCovers(redis, keys, now);
  }
}
