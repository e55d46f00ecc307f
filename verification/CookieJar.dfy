/** The side index of a cookie jar. It keeps, per slot of effective domain, path and name, the last
    accepted write together with the host that made it, and turns the part one authority may keep into
    a session state (slots and Max-Age after section 5.3 of RFC 6265, default paths after section
    5.1.4). Times are milliseconds on a clock that only advances. */
module CookieJar {
  import opened Wrappers
  import opened Sessions

  /** A cookie as a response sets it: a zero `maxAge` is an absent Max-Age attribute. */
  datatype SetCookie = SetCookie(name: string, value: string, domain: string, path: string, expires: Option<int>,
      maxAge: int)

  datatype Slot = Slot(domain: string, path: string, name: string)

  datatype Record = Record(
    source: Url, sourceHost: string, domain: string, cookieDomain: string, path: string, name: string,
        value: string, expires: Option<int>)

  // ------------------------------------------------------- accepting a cookie

  predicate TokenChar(c: char) { 'a' <= c <= 'z' || 'A' <= c <= 'Z' || '0' <= c <= '9' || c in "!#$%&'*+-.^_`|~" }

  predicate ValidName(s: string) { s != "" && forall i :: 0 <= i < |s| ==> TokenChar(s[i]) }

  predicate ValidValue(s: string) { forall i :: 0 <= i < |s| ==> ' ' <= s[i] <= '~' && s[i] !in "\";\\" }

  predicate ValidPath(s: string) { forall i :: 0 <= i < |s| ==> ' ' <= s[i] <= '~' && s[i] != ';' }

  /** The first day of the year 1601, the earliest expiry that net/http accepts. */
  const YEAR_1601 := -11644473600000

  /** The verdict of net/http on a cookie; its check of the domain is implied by the checks of WriteOf. */
  predicate ValidCookie(c: SetCookie) {
    ValidName(c.name) && ValidValue(c.value) && ValidPath(c.path) && (c.expires.Some? ==> c.expires.value >= YEAR_1601)
  }

  const SLASH := '/'
  const ROOT := "/"

  predicate Absolute(path: string) { path != "" && path[0] == SLASH }

  function LastSlash(path: string): (r: int)
    ensures -1 <= r < |path|
    ensures forall i :: r < i < |path| ==> path[i] != SLASH
    ensures r >= 0 ==> path[r] == SLASH
  {
    if path == "" then -1 else if path[|path| - 1] == SLASH then |path| - 1 else LastSlash(path[..|path| - 1])
  }

  /** The directory of an absolute path with a later slash, else the root. */
  function DefaultPath(path: string): (r: string)
    ensures Absolute(r)
    ensures Absolute(path) && SLASH in path[1..] ==> |r| < |path| && path[..|r|] == r && SLASH !in path[|r| + 1..]
    ensures Absolute(path) && SLASH in path[1..] ==> path[|r|] == SLASH || r == ROOT
    ensures !(Absolute(path) && SLASH in path[1..]) ==> r == ROOT
  {
    if !Absolute(path) then ROOT
    else
      var last := LastSlash(path);
      assert SLASH in path[1..] ==> exists i :: 1 <= i < |path| && path[i] == SLASH;
      if last <= 0 then ROOT else path[..last]
  }

  predicate AcceptsFrom(source: Option<Url>) {
    source.Some? && source.value.scheme == "https" && AllowedHost(source.value.host)
  }

  function Stripped(source: Url): Url { source.(user := "", query := "", fragment := "") }

  predicate Expired(r: Record, now: int) { r.expires.Some? && r.expires.value <= now }

  /** A write to a slot; no record is a deletion. */
  datatype Write = Write(slot: Slot, record: Option<Record>)

  /** The persisted Domain attribute, and the domain that identifies the slot. */
  datatype Domains = Domains(cookieDomain: string, domain: string)

  predicate SettableFrom(d: Domains, sourceHost: string) {
    && CanonicalDomain(d.cookieDomain) == Some(d.cookieDomain)
    && d.domain == (if d.cookieDomain == "" then sourceHost else d.cookieDomain)
    && (d.domain == sourceHost || d.domain == PARENT_DOMAIN)
  }

  function DomainsOf(sourceHost: string, attribute: string): (d: Option<Domains>)
    ensures d.Some? ==> SettableFrom(d.value, sourceHost)
  {
    var cookieDomain := CanonicalDomain(attribute);
    if cookieDomain.None? || !ValidCookieDomain(sourceHost, cookieDomain.value) then None
    else
      var domain := if cookieDomain.value == "" then sourceHost else cookieDomain.value;
      CanonicalTwice(attribute);
      if domain != sourceHost && domain != PARENT_DOMAIN then None else Some(Domains(cookieDomain.value, domain))
  }

  /** A positive Max-Age replaces Expires. */
  function ExpiryOf(c: SetCookie, now: int): Option<int> {
    if c.maxAge > 0 then Some(now + 1000 * c.maxAge) else c.expires
  }

  /** The write an accepted cookie makes. */
  function WriteOf(source: Url, c: SetCookie, now: int): (w: Option<Write>) {
    var sourceHost := Lower(source.host);
    var domains := DomainsOf(sourceHost, c.domain);
    if !ValidCookie(c) || domains.None? then None else Some(WriteTo(source, domains.value, c, ExpiryOf(c, now), now))
  }

  function WriteTo(source: Url, domains: Domains, c: SetCookie, expires: Option<int>, now: int): Write {
    var Domains(cookieDomain, domain) := domains;
    var path := if !Absolute(c.path) then DefaultPath(source.path) else c.path;
    var slot := Slot(domain, path, c.name);
    if c.maxAge < 0 || (expires.Some? && expires.value <= now) then Write(slot, None)
    else Write(slot, Some(Record(source, Lower(source.host), domain, cookieDomain, path, c.name, c.value, expires)))
  }

  function WritesOf(source: Option<Url>, cookies: seq<Option<SetCookie>>, now: int): seq<Write> {
    if !AcceptsFrom(source) || cookies == [] then []
    else
      var last := cookies[|cookies| - 1];
      var w := if last.Some? then WriteOf(Stripped(source.value), last.value, now) else None;
      WritesOf(source, cookies[..|cookies| - 1], now) + (if w.Some? then [w.value] else [])
  }

  lemma WritesGrow(source: Url, front: seq<Option<SetCookie>>, c: Option<SetCookie>, now: int)
    requires AcceptsFrom(Some(source))
    ensures var w := if c.Some? then WriteOf(Stripped(source), c.value, now) else None;
            WritesOf(Some(source), front + [c], now)
            == WritesOf(Some(source), front, now) + (if w.Some? then [w.value] else [])
  {
    assert (front + [c])[..|front|] == front;
  }

  function SlotOf(r: Record): Slot { Slot(r.domain, r.path, r.name) }

  /** A record states its setting host, and its domain is that host or the parent of all of them. */
  predicate WellFormed(r: Record) {
    && ValidSessionUrl(r.source) && r.sourceHost == Lower(r.source.host)
    && SettableFrom(Domains(r.cookieDomain, r.domain), r.sourceHost)
    && Absolute(r.path) && ValidName(r.name) && ValidValue(r.value)
  }

  predicate WellFormedWrite(w: Write) {
    w.record.Some? ==> WellFormed(w.record.value) && SlotOf(w.record.value) == w.slot
  }

  /** Only a cookie without Max-Age falls back to its Expires; an accepted record outlives its writing. */
  lemma WritesAreWellFormed(source: Url, c: SetCookie, now: int)
    requires AcceptsFrom(Some(source)) && WriteOf(Stripped(source), c, now).Some?
    ensures var w := WriteOf(Stripped(source), c, now).value;
            WellFormedWrite(w) && w.slot.name == c.name && (w.record.Some? ==> !Expired(w.record.value, now))
  {}

  // ---------------------------------------------------------- how long it lives

  /** How long a cookie set at `now` is to live: a negative Max-Age deletes it, a positive one counts from `now`
      whatever Expires says, and without one Expires decides, if there is any. */
  predicate StaysAlive(c: SetCookie, now: int, t: int) {
    && c.maxAge >= 0 && (c.maxAge > 0 ==> t < now + 1000 * c.maxAge)
    && (c.maxAge == 0 && c.expires.Some? ==> t < c.expires.value)
  }

  /** The slot holds a record whose expiry, if any, is still to come. */
  ghost predicate LiveAt(records: map<Slot, Record>, slot: Slot, t: int) {
    slot in records && (records[slot].expires.Some? ==> t < records[slot].expires.value)
  }

  /** An accepted cookie is written with its name and value, to the slot its attributes name. */
  lemma WritesAsSet(source: Url, c: SetCookie, now: int)
    requires WriteOf(source, c, now).Some?
    ensures var Write(slot, record) := WriteOf(source, c, now).value;
            && slot.name == c.name
            && slot.path == (if c.path != "" && c.path[0] == '/' then c.path else DefaultPath(source.path))
            && slot.domain == (if c.domain == "" then Lower(source.host) else CookieDomain(source, c))
            && (record.Some? ==>
                record.value.source == source && record.value.value == c.value && SlotOf(record.value) == slot)
  {
    LowerTwice(source.host);
    DomainChosen(Lower(source.host), c.domain);
    WritesTo(source, DomainsOf(Lower(source.host), c.domain).value, c, ExpiryOf(c, now), now);
  }

  lemma WritesTo(source: Url, domains: Domains, c: SetCookie, expires: Option<int>, now: int)
    ensures var Write(slot, record) := WriteTo(source, domains, c, expires, now);
            && slot == Slot(domains.domain, if Absolute(c.path) then c.path else DefaultPath(source.path), c.name)
            && (record.Some? ==>
                record.value.source == source && record.value.value == c.value && SlotOf(record.value) == slot)
  {}

  lemma DomainChosen(host: string, attribute: string)
    requires Lower(host) == host && DomainsOf(host, attribute).Some?
    ensures DomainsOf(host, attribute).value.domain
            == if attribute != "" && CanonicalDomain(attribute) == Some(PARENT_DOMAIN) then PARENT_DOMAIN else host
  {
    CanonicalStaysItself(attribute);
  }

  /** The domain a Domain attribute names: the host's own or the parent one. */
  function CookieDomain(source: Url, c: SetCookie): string {
    if CanonicalDomain(c.domain) == Some(PARENT_DOMAIN) then PARENT_DOMAIN else Lower(source.host)
  }

  /** A cookie is accepted if and only if net/http accepts it and its Domain attribute is absent, or names the host
      or the parent domain. */
  lemma AcceptedExactly(source: Url, c: SetCookie, now: int)
    ensures WriteOf(source, c, now).Some?
            <==> ValidCookie(c) && (c.domain == "" || CanonicalDomain(c.domain) == Some(Lower(source.host))
                                    || CanonicalDomain(c.domain) == Some(PARENT_DOMAIN))
  {
    LowerTwice(source.host);
    DomainsExactly(Lower(source.host), c.domain);
  }

  lemma DomainsExactly(host: string, attribute: string)
    requires Lower(host) == host
    ensures DomainsOf(host, attribute).Some?
            <==> attribute == "" || CanonicalDomain(attribute) == Some(host)
                 || CanonicalDomain(attribute) == Some(PARENT_DOMAIN)
  {
    if CanonicalDomain(attribute).Some? { CanonicalStaysItself(attribute); }
  }

  /** The canonical form of a domain is empty only for the empty one, and is its own canonical form. */
  lemma CanonicalStaysItself(attribute: string)
    requires CanonicalDomain(attribute).Some?
    ensures var domain := CanonicalDomain(attribute).value;
            CanonicalDomain(domain) == Some(domain) && (domain == "" <==> attribute == "")
  {
    CanonicalTwice(attribute);
  }

  lemma LowerTwice(s: string)
    ensures Lower(Lower(s)) == Lower(s)
  {
    LowerUnchanged(Lower(s));
  }

  /** The write of an accepted cookie is a record that lives exactly as long as the cookie is to, or a deletion. */
  lemma WriteLives(source: Url, c: SetCookie, now: int, t: int)
    requires WriteOf(source, c, now).Some? && now <= t
    ensures var record := WriteOf(source, c, now).value.record;
            record.Some? && (record.value.expires.Some? ==> t < record.value.expires.value) <==> StaysAlive(c, now, t)
  {}

  /** With a positive Max-Age the write does not depend on Expires, as long as net/http accepts that. */
  lemma MaxAgeDecides(source: Url, c: SetCookie, now: int, other: Option<int>)
    requires c.maxAge > 0 && ValidCookie(c) && ValidCookie(c.(expires := other))
    ensures WriteOf(source, c, now) == WriteOf(source, c.(expires := other), now)
  {
    var domains := DomainsOf(Lower(source.host), c.domain);
    if domains.Some? { SameWriteTo(source, domains.value, c, other, Some(now + 1000 * c.maxAge), now); }
  }

  lemma SameWriteTo(source: Url, domains: Domains, c: SetCookie, other: Option<int>, expires: Option<int>, now: int)
    ensures WriteTo(source, domains, c, expires, now) == WriteTo(source, domains, c.(expires := other), expires, now)
  {}

  /** The index after a response: the slot of its last cookie is live exactly as long as that cookie is to be. */
  ghost predicate Remembers(records: map<Slot, Record>, source: Url, c: SetCookie, now: int) {
    var w := WriteOf(Stripped(source), c, now);
    w.Some? ==> forall t :: now <= t ==> (LiveAt(records, w.value.slot, t) <==> StaysAlive(c, now, t))
  }

  lemma LastIsRemembered(
    before: map<Slot, Record>, source: Url, front: seq<Option<SetCookie>>, c: SetCookie, now: int,
    after: map<Slot, Record>)
    requires AcceptsFrom(Some(source)) && Applied(before, WritesOf(Some(source), front + [Some(c)], now), after)
    ensures Remembers(after, source, c, now)
  {
    var w := WriteOf(Stripped(source), c, now);
    if w.Some? {
      WritesGrow(source, front, Some(c), now);
      assert Lookup(after, w.value.slot) == w.value.record;
      forall t | now <= t ensures LiveAt(after, w.value.slot, t) <==> StaysAlive(c, now, t) {
        WriteLives(Stripped(source), c, now, t);
      }
    }
  }

  // ------------------------------------------------------------- the history

  function Lookup(records: map<Slot, Record>, slot: Slot): Option<Record> {
    if slot in records then Some(records[slot]) else None
  }

  /** What the last write to a slot left there. */
  function LastWrite(writes: seq<Write>, slot: Slot, base: Option<Record>): Option<Record> {
    if writes == [] then base
    else if writes[|writes| - 1].slot == slot then writes[|writes| - 1].record
    else LastWrite(writes[..|writes| - 1], slot, base)
  }

  lemma {:induction false} LastWriteJoins(a: seq<Write>, b: seq<Write>, slot: Slot, base: Option<Record>)
    ensures LastWrite(a + b, slot, base) == LastWrite(b, slot, LastWrite(a, slot, base))
  {
    if b == [] {
      assert a + b == a;
    } else {
      assert (a + b)[..|a + b| - 1] == a + b[..|b| - 1];
      LastWriteJoins(a, b[..|b| - 1], slot, base);
    }
  }

  /** An entry is its slot's last write; only an expired one may be missing. */
  ghost predicate Tracked(entry: Option<Record>, last: Option<Record>, now: int) {
    entry == last || (entry == None && last.Some? && Expired(last.value, now))
  }

  ghost predicate Tracks(records: map<Slot, Record>, writes: seq<Write>, now: int) {
    forall slot :: Tracked(Lookup(records, slot), LastWrite(writes, slot, None), now)
  }

  ghost predicate Applied(before: map<Slot, Record>, writes: seq<Write>, after: map<Slot, Record>) {
    forall slot :: Lookup(after, slot) == LastWrite(writes, slot, Lookup(before, slot))
  }

  function Put(records: map<Slot, Record>, w: Write): map<Slot, Record> {
    if w.record.Some? then records[w.slot := w.record.value] else records - {w.slot}
  }

  lemma AppliedGrows(before: map<Slot, Record>, made: seq<Write>, records: map<Slot, Record>, w: Write)
    requires Applied(before, made, records)
    ensures Applied(before, made + [w], Put(records, w))
  {
    assert (made + [w])[..|made|] == made;
  }

  lemma AppliedTracks(
    before: map<Slot, Record>, earlier: seq<Write>, writes: seq<Write>, after: map<Slot, Record>, clock: int, now: int)
    requires Tracks(before, earlier, clock) && clock <= now && Applied(before, writes, after)
    ensures Tracks(after, earlier + writes, now)
  {
    forall slot ensures Tracked(Lookup(after, slot), LastWrite(earlier + writes, slot, None), now) {
      LastWriteJoins(earlier, writes, slot, None);
      assert Tracked(Lookup(before, slot), LastWrite(earlier, slot, None), clock);
      LastWriteBase(writes, slot, Lookup(before, slot), LastWrite(earlier, slot, None));
    }
  }

  lemma {:induction false} LastWriteBase(writes: seq<Write>, slot: Slot, a: Option<Record>, b: Option<Record>)
    ensures LastWrite(writes, slot, a)
            == LastWrite(writes, slot, b) || (LastWrite(writes, slot, a) == a && LastWrite(writes, slot, b) == b)
  {
    if writes != [] { LastWriteBase(writes[..|writes| - 1], slot, a, b); }
  }

  lemma {:induction false} LastWriteListed(writes: seq<Write>, slot: Slot)
    requires forall w :: w in writes ==> WellFormedWrite(w)
    ensures var last := LastWrite(writes, slot, None); last.Some? ==>
              WellFormed(last.value) && SlotOf(last.value) == slot
  {
    if writes != [] {
      assert writes[|writes| - 1] in writes;
      LastWriteListed(writes[..|writes| - 1], slot);
    }
  }

  // --------------------------------------------------------------- snapshots

  predicate Included(r: Record, allowParent: bool, scopes: set<Scope>) {
    exists scope :: scope in scopes && ScopeAllowsHost(scope, r.sourceHost)
                    && (allowParent || scope == Identity || r.domain == r.sourceHost)
  }

  /** The records a snapshot takes. */
  ghost function Chosen(records: map<Slot, Record>, allowParent: bool, scopes: set<Scope>): set<Record> {
    set slot | slot in records && Included(records[slot], allowParent, scopes) :: records[slot]
  }

  ghost function Unexpired(records: map<Slot, Record>, now: int): map<Slot, Record> {
    map slot | slot in records && !Expired(records[slot], now) :: records[slot]
  }

  function Persisted(r: Record): (Url, SessionCookie) {
    (r.source, SessionCookie(r.name, r.value, r.cookieDomain, r.path, if r.expires.Some? then r.expires.value else 0))
  }

  /** A state holds exactly the given records, each once. */
  ghost predicate Captures(state: SessionState, records: set<Record>) {
    && state.version == 1 && state.validatedAt == 0
    && (forall s :: s in state.sets ==> s.cookies != [])
    && (forall p :: p in Flat(state.sets) <==> exists r :: r in records && p == Persisted(r))
    && |Flat(state.sets)| == |records|
  }

  predicate DomainDerived(r: Record) {
    r.domain == if r.cookieDomain == "" then Lower(r.source.host) else r.cookieDomain
  }

  /** Every record sits in its own slot. */
  ghost predicate InSlots(records: map<Slot, Record>) {
    forall slot :: slot in records ==> SlotOf(records[slot]) == slot && DomainDerived(records[slot])
  }

  ghost predicate Keyed(records: map<Slot, Record>) {
    InSlots(records) && forall slot :: slot in records ==> WellFormed(records[slot])
  }

  lemma TrackedAreKeyed(records: map<Slot, Record>, writes: seq<Write>, now: int)
    requires Tracks(records, writes, now) && forall w :: w in writes ==> WellFormedWrite(w)
    ensures Keyed(records)
  {
    forall slot | slot in records ensures WellFormed(records[slot]) && SlotOf(records[slot]) == slot {
      assert Tracked(Lookup(records, slot), LastWrite(writes, slot, None), now);
      LastWriteListed(writes, slot);
    }
  }

  lemma PruneTracks(records: map<Slot, Record>, writes: seq<Write>, clock: int, now: int)
    requires Tracks(records, writes, clock) && clock <= now
    ensures Tracks(Unexpired(records, now), writes, now)
  {
    forall slot ensures Tracked(Lookup(Unexpired(records, now), slot), LastWrite(writes, slot, None), now) {
      assert Tracked(Lookup(records, slot), LastWrite(writes, slot, None), clock);
    }
  }

  /** A record visited by the snapshot loop, live and to be kept. */
  ghost predicate Picked(
    records: map<Slot, Record>, pending: set<Slot>, allowParent: bool, scopes: set<Scope>, now: int, r: Record) {
    SlotOf(r) in records && records[SlotOf(r)] == r && SlotOf(r) !in pending && !Expired(r, now)
        && Included(r, allowParent, scopes)
  }

  /** The index with the visited expired slots dropped. */
  function Pruned(records: map<Slot, Record>, pending: set<Slot>, now: int): map<Slot, Record> {
    map slot | slot in records && (slot in pending || !Expired(records[slot], now)) :: records[slot]
  }

  lemma PruneOne(records: map<Slot, Record>, pending: set<Slot>, slot: Slot, now: int)
    requires slot in pending && slot in records
    ensures slot in Pruned(records, pending, now) && Pruned(records, pending, now)[slot] == records[slot]
    ensures Pruned(records, pending - {slot}, now)
            == if Expired(records[slot], now)
                then Pruned(records, pending, now) - {slot} else Pruned(records, pending, now)
  {}

  lemma PruneEnds(records: map<Slot, Record>, now: int)
    ensures Pruned(records, records.Keys, now) == records && Pruned(records, {}, now) == Unexpired(records, now)
  {}

  /** Visiting one more slot adds its record exactly when it is live and to be kept. */
  lemma VisitOne(
    records: map<Slot, Record>, pending: set<Slot>, slot: Slot, allowParent: bool, scopes: set<Scope>, now: int,
    picked: seq<Record>)
    requires InSlots(records) && slot in pending && slot in records && Distinct(picked)
    requires forall r :: r in picked <==> Picked(records, pending, allowParent, scopes, now, r)
    ensures var next := if !Expired(records[slot], now) && Included(records[slot], allowParent, scopes)
        then picked + [records[slot]] else picked;
            Distinct(next) && forall r :: r in next <==> Picked(records, pending - {slot}, allowParent, scopes, now, r)
  {
    assert records[slot] !in picked;
    forall r ensures Picked(records, pending - {slot}, allowParent, scopes, now, r)
                     <==> r in picked || (r == records[slot] && !Expired(r, now) && Included(r, allowParent, scopes)) {}
  }

  predicate Distinct<T(==)>(s: seq<T>) { forall i, j :: 0 <= i < j < |s| ==> s[i] != s[j] }

  lemma {:induction false} DistinctCount<T>(s: seq<T>)
    requires Distinct(s)
    ensures |set x | x in s| == |s|
  {
    if s != [] {
      var front, last := s[..|s| - 1], s[|s| - 1];
      DistinctCount(front);
      assert s == front + [last];
      assert last !in front;
      assert (set x | x in s) == (set x | x in front) + {last};
    }
  }

  lemma PickedAreChosen(
    records: map<Slot, Record>, allowParent: bool, scopes: set<Scope>, now: int, picked: seq<Record>)
    requires InSlots(records) && Distinct(picked)
    requires forall r :: r in picked <==> Picked(records, {}, allowParent, scopes, now, r)
    ensures (set r | r in picked) == Chosen(Unexpired(records, now), allowParent, scopes)
    ensures |picked| == |Chosen(Unexpired(records, now), allowParent, scopes)|
  {
    var chosen := Chosen(Unexpired(records, now), allowParent, scopes);
    forall r ensures r in picked <==> r in chosen {
      if r in chosen {
        var slot :| slot in Unexpired(records, now) && Unexpired(records, now)[slot] == r
            && Included(r, allowParent, scopes);
      }
      if r in picked {
        assert Picked(records, {}, allowParent, scopes, now, r);
        assert SlotOf(r) in Unexpired(records, now);
      }
    }
    DistinctCount(picked);
  }

  /** What the visit leaves of an index is still tracked, and it picked the records to capture. */
  lemma PickedFromTracked(
    records: map<Slot, Record>, writes: seq<Write>, clock: int, allowParent: bool, scopes: set<Scope>, now: int,
    picked: seq<Record>)
    requires Tracks(records, writes, clock) && clock <= now && forall w :: w in writes ==> WellFormedWrite(w)
    requires Distinct(picked) && forall r :: r in picked <==> Picked(records, {}, allowParent, scopes, now, r)
    ensures Tracks(Unexpired(records, now), writes, now)
    ensures forall r :: r in Chosen(Unexpired(records, now), allowParent, scopes) <==> r in picked
    ensures |picked| == |Chosen(Unexpired(records, now), allowParent, scopes)|
  {
    TrackedAreKeyed(records, writes, clock);
    PruneTracks(records, writes, clock, now);
    PickedAreChosen(records, allowParent, scopes, now, picked);
  }

  function PersistedAll(records: seq<Record>): (r: seq<(Url, SessionCookie)>)
    ensures |r| == |records| && forall i :: 0 <= i < |r| ==> r[i] == Persisted(records[i])
  {
    seq(|records|, i requires 0 <= i < |records| => Persisted(records[i]))
  }

  /** No set is empty, and no two neighbours have the same URL. */
  predicate Grouped(sets: seq<CookieSet>) {
    && (forall s :: s in sets ==> s.cookies != [])
    && (forall j :: 0 < j < |sets| ==> sets[j - 1].url != sets[j].url)
  }

  /** Neighbouring records with one URL share a set, and no others do. */
  method GroupByUrl(records: seq<Record>) returns (sets: seq<CookieSet>)
    ensures Flat(sets) == PersistedAll(records) && Grouped(sets)
  {
    sets := [];
    for i := 0 to |records|
      invariant Flat(sets) == PersistedAll(records[..i]) && Grouped(sets)
    {
      assert PersistedAll(records[..i + 1]) == PersistedAll(records[..i]) + [Persisted(records[i])];
      sets := GroupOne(sets, records[i]);
    }
    assert records[..|records|] == records;
  }

  method GroupOne(sets: seq<CookieSet>, record: Record) returns (grown: seq<CookieSet>)
    requires Grouped(sets)
    ensures Grouped(grown) && Flat(grown) == Flat(sets) + [Persisted(record)]
  {
    var cookie := Persisted(record).1;
    var last := |sets| - 1;
    if last < 0 || sets[last].url != record.source {
      FlatStep(sets, CookieSet(record.source, [cookie]));
      grown := sets + [CookieSet(record.source, [cookie])];
    } else {
      var wider := CookieSet(sets[last].url, sets[last].cookies + [cookie]);
      SetGrows(sets, wider, cookie);
      grown := sets[..last] + [wider];
    }
  }

  lemma SetGrows(sets: seq<CookieSet>, wider: CookieSet, cookie: SessionCookie)
    requires sets != [] && Grouped(sets)
    requires var last := sets[|sets| - 1]; wider == CookieSet(last.url, last.cookies + [cookie])
    ensures var grown := sets[..|sets| - 1] + [wider];
            Grouped(grown) && Flat(grown) == Flat(sets) + [(wider.url, cookie)]
  {
    var front, last := sets[..|sets| - 1], sets[|sets| - 1];
    FlatStep(front, wider);
    assert Labelled(wider.url, wider.cookies) == Labelled(wider.url, last.cookies) + [(wider.url, cookie)];
  }

  lemma GroupedCaptures(records: seq<Record>, sets: seq<CookieSet>, chosen: set<Record>)
    requires Flat(sets) == PersistedAll(records) && (forall s :: s in sets ==> s.cookies != [])
    requires (forall r :: r in chosen <==> r in records) && |records| == |chosen|
    ensures Captures(SessionState(1, sets, 0), chosen)
  {
    forall p ensures p in Flat(sets) <==> exists r :: r in chosen && p == Persisted(r) {
      if p in Flat(sets) {
        var i :| 0 <= i < |Flat(sets)| && Flat(sets)[i] == p;
        assert records[i] in chosen;
      }
      if r :| r in chosen && p == Persisted(r) {
        var i :| 0 <= i < |records| && records[i] == r;
        assert PersistedAll(records)[i] == p;
      }
    }
  }

  class TrackedCookieJar {
    var records: map<Slot, Record>
    ghost var writes: seq<Write>
    ghost var clock: nat

    ghost predicate Valid() reads this {
      Tracks(records, writes, clock) && forall w :: w in writes ==> WellFormedWrite(w)
    }

    constructor ()
      ensures Valid() && writes == [] && clock == 0 && records == map[]
    {
      records, writes, clock := map[], [], 0;
    }

    /** Every accepted cookie of a response becomes its slot's last write. */
    method SetCookies(source: Option<Url>, cookies: seq<Option<SetCookie>>, now: nat)
      requires Valid() && clock <= now
      modifies this
      ensures Valid() && clock == now
      ensures writes == old(writes) + WritesOf(source, cookies, now)
      ensures Applied(old(records), WritesOf(source, cookies, now), records)
      ensures AcceptsFrom(source) && cookies != [] && cookies[|cookies| - 1].Some? ==>
                Remembers(records, source.value, cookies[|cookies| - 1].value, now)
    {
      ghost var made: seq<Write> := [];
      if AcceptsFrom(source) {
        made := Track(source.value, cookies, now);
      }
      AppliedTracks(old(records), writes, made, records, clock, now);
      if AcceptsFrom(source) && cookies != [] && cookies[|cookies| - 1].Some? {
        assert cookies == cookies[..|cookies| - 1] + [Some(cookies[|cookies| - 1].value)];
        LastIsRemembered(old(records), source.value, cookies[..|cookies| - 1], cookies[|cookies| - 1].value, now,
                         records);
      }
      writes, clock := writes + made, now;
    }

    method Track(source: Url, cookies: seq<Option<SetCookie>>, now: nat) returns (ghost made: seq<Write>)
      requires AcceptsFrom(Some(source))
      modifies this`records
      ensures made == WritesOf(Some(source), cookies, now) && Applied(old(records), made, records)
      ensures forall w :: w in made ==> WellFormedWrite(w)
    {
      made := [];
      for i := 0 to |cookies|
        invariant made == WritesOf(Some(source), cookies[..i], now) && Applied(old(records), made, records)
        invariant forall w :: w in made ==> WellFormedWrite(w)
      {
        var write := if cookies[i].Some? then WriteOf(Stripped(source), cookies[i].value, now) else None;
        assert cookies[..i + 1] == cookies[..i] + [cookies[i]];
        WritesGrow(source, cookies[..i], cookies[i], now);
        if write.Some? {
          WritesAreWellFormed(source, cookies[i].value, now);
          AppliedGrows(old(records), made, records, write.value);
          PutWrite(write.value);
          made := made + [write.value];
        }
      }
      assert cookies[..|cookies|] == cookies;
    }

    method PutWrite(write: Write)
      modifies this`records
      ensures records == Put(old(records), write)
    {
      if write.record.None? {
        records := records - {write.slot};
      } else {
        records := records[write.slot := write.record.value];
      }
    }

    /** Drops what has expired and captures the live records the scopes may keep. */
    method SnapshotRecords(allowParent: bool, scopes: set<Scope>, now: nat) returns (state: Option<SessionState>)
      requires Valid() && clock <= now
      modifies this
      ensures Valid() && clock == now && writes == old(writes) && records == Unexpired(old(records), now)
      ensures state.None? <==> Chosen(records, allowParent, scopes) == {}
      ensures state.Some? ==> Captures(state.value, Chosen(records, allowParent, scopes))
    {
      var picked := PickLive(allowParent, scopes, now);
      PickedFromTracked(old(records), writes, clock, allowParent, scopes, now, picked);
      clock := now;
      if |picked| == 0 { return None; }
      assert picked[0] in Chosen(records, allowParent, scopes);
      var sets := GroupByUrl(picked);
      GroupedCaptures(picked, sets, Chosen(records, allowParent, scopes));
      state := Some(SessionState(1, sets, 0));
    }

    /** Visits every record once, in any order. */
    method PickLive(allowParent: bool, scopes: set<Scope>, now: nat) returns (picked: seq<Record>)
      requires Valid()
      modifies this`records
      ensures records == Unexpired(old(records), now)
      ensures Distinct(picked) && forall r :: r in picked <==> Picked(old(records), {}, allowParent, scopes, now, r)
    {
      ghost var before := records;
      TrackedAreKeyed(before, writes, clock);
      PruneEnds(before, now);
      picked := [];
      var pending := records.Keys;
      while pending != {}
        invariant pending <= before.Keys && records == Pruned(before, pending, now)
        invariant Distinct(picked) && forall r :: r in picked <==> Picked(before, pending, allowParent, scopes, now, r)
        decreases pending
      {
        var slot :| slot in pending;
        VisitOne(before, pending, slot, allowParent, scopes, now, picked);
        PruneOne(before, pending, slot, now);
        var record := records[slot];
        if Expired(record, now) {
          records := records - {slot};
        } else if Included(record, allowParent, scopes) {
          picked := picked + [record];
        }
        pending := pending - {slot};
      }
    }
  }
}
