/** Persisted cookie sessions: authority scopes, the states a store may hold, and the filter that cuts
    an old undivided state down to one authority. Text is characters; the length limits count them. */
module Sessions {
  import opened Wrappers
  import opened Statistics

  datatype Scope = Identity | Undergraduate | Graduate

  /** A parsed URL; its text can be read back from it and is not kept apart. */
  datatype Url = Url(scheme: string, user: string, host: string, port: string, path: string, query: string,
      fragment: string)

  const ID_HOST := "id.ouc.edu.cn"
  const PORTAL_HOST := "my.ouc.edu.cn"
  const UNDERGRADUATE_HOST := "jwgl2024.ouc.edu.cn"
  const GRADUATE_HOST := "pgs.ouc.edu.cn"
  const PARENT_DOMAIN := "ouc.edu.cn"

  const MAX_SETS := 32
  const MAX_COOKIES := 128
  const MAX_COOKIE_LENGTH := 4096
  const MAX_PATH_LENGTH := 1024

  /** A zero expiry means a cookie without one. */
  datatype SessionCookie = SessionCookie(name: string, value: string, domain: string, path: string, expiresAt: int)

  datatype CookieSet = CookieSet(url: Url, cookies: seq<SessionCookie>)

  /** A zero `validatedAt` means the session was never checked. */
  datatype SessionState = SessionState(version: int, sets: seq<CookieSet>, validatedAt: int)

  // -------------------------------------------------------------- host names

  function LowerChar(c: char): char { if 'A' <= c <= 'Z' then c - 'A' + 'a' else c }

  function Lower(s: string): (r: string)
    ensures |r| == |s| && forall i :: 0 <= i < |s| ==> r[i] == LowerChar(s[i])
  {
    if s == [] then [] else [LowerChar(s[0])] + Lower(s[1..])
  }

  lemma {:induction false} LowerUnchanged(s: string)
    requires forall i :: 0 <= i < |s| ==> !('A' <= s[i] <= 'Z')
    ensures Lower(s) == s
  {}

  predicate AllowedHost(host: string) {
    Lower(host) in [ID_HOST, PORTAL_HOST, UNDERGRADUATE_HOST, GRADUATE_HOST]
  }

  predicate ScopeAllowsHost(scope: Scope, host: string) {
    match scope
    case Identity => Lower(host) == ID_HOST || Lower(host) == PORTAL_HOST
    case Undergraduate => Lower(host) == UNDERGRADUATE_HOST
    case Graduate => Lower(host) == GRADUATE_HOST
  }

  /** No host belongs to two authorities, and every allowed host belongs to one. */
  lemma AuthoritiesPartition(host: string)
    ensures forall a, b :: ScopeAllowsHost(a, host) && ScopeAllowsHost(b, host) ==> a == b
    ensures AllowedHost(host) <==> exists a :: ScopeAllowsHost(a, host)
  {
    if AllowedHost(host) {
      assert ScopeAllowsHost(Identity, host) || ScopeAllowsHost(Undergraduate, host) || ScopeAllowsHost(Graduate, host);
    }
  }

  // ------------------------------------------------------------ domain names

  predicate LabelChar(c: char) { 'a' <= c <= 'z' || '0' <= c <= '9' || c == '-' }

  predicate Label(s: string) {
    0 < |s| <= 63 && s[0] != '-' && s[|s| - 1] != '-' && forall i :: 0 <= i < |s| ==> LabelChar(s[i])
  }

  /** Labels separated by dots; `part` is what was read of the current one. */
  predicate Labels(part: string, rest: string)
    decreases rest
  {
    if rest == [] then Label(part)
    else if rest[0] == '.' then Label(part) && Labels([], rest[1..])
    else Labels(part + [rest[0]], rest[1..])
  }

  lemma {:induction false} LabelsChars(part: string, rest: string)
    requires Labels(part, rest)
    ensures forall i :: 0 <= i < |rest| ==> LabelChar(rest[i]) || rest[i] == '.'
    ensures forall i :: 0 <= i < |part| ==> LabelChar(part[i])
    decreases rest
  {
    if rest != [] {
      if rest[0] == '.' {
        LabelsChars([], rest[1..]);
      } else {
        LabelsChars(part + [rest[0]], rest[1..]);
        assert forall i :: 0 <= i < |part| ==> (part + [rest[0]])[i] == part[i];
        assert (part + [rest[0]])[|part|] == rest[0];
      }
    }
  }

  /** The persisted form of a Domain attribute; the empty one is a host-only cookie. */
  function CanonicalDomain(domain: string): Option<string> {
    if domain == "" then Some("")
    else if IsSpace(domain[0]) || IsSpace(domain[|domain| - 1]) then None
    else
      var canonical := Lower(if domain[0] == '.' then domain[1..] else domain);
      if canonical == "" || |canonical| > 253 || canonical[0] == '.' || !Labels([], canonical)
          then None else Some(canonical)
  }

  /** Reading a canonical domain again changes nothing. */
  lemma CanonicalTwice(domain: string)
    requires CanonicalDomain(domain).Some?
    ensures CanonicalDomain(CanonicalDomain(domain).value) == CanonicalDomain(domain)
  {
    if domain != "" { CanonicalStays(CanonicalDomain(domain).value); }
  }

  lemma CanonicalStays(s: string)
    requires s != "" && |s| <= 253 && s[0] != '.' && Labels([], s)
    ensures CanonicalDomain(s) == Some(s)
  {
    HostText(s);
  }

  lemma HostText(s: string)
    requires s != "" && Labels([], s)
    ensures Lower(s) == s && !IsSpace(s[0]) && !IsSpace(s[|s| - 1])
  {
    LabelsChars([], s);
    HostChar(s[0]);
    HostChar(s[|s| - 1]);
    LowerUnchanged(s);
  }

  lemma HostChar(c: char)
    requires LabelChar(c) || c == '.'
    ensures !IsSpace(c)
  {}

  /** A cookie may name no domain, its own host, or the parent domain. */
  predicate ValidCookieDomain(host: string, domain: string) {
    var canonical := CanonicalDomain(domain);
    canonical.Some? && (canonical.value == "" || canonical.value == Lower(host) || canonical.value == PARENT_DOMAIN)
  }

  // ---------------------------------------------------------- valid states

  predicate ValidSessionUrl(url: Url) {
    url.scheme == "https" && AllowedHost(url.host) && url.user == "" && url.query == "" && url.fragment == ""
  }

  predicate ValidSessionCookie(host: string, cookie: SessionCookie) {
    && !Blank(cookie.name) && |cookie.name| <= MAX_COOKIE_LENGTH && |cookie.value| <= MAX_COOKIE_LENGTH
    && cookie.expiresAt >= 0
    && (cookie.path != "" ==>
          cookie.path[0] == '/' && |cookie.path| <= MAX_PATH_LENGTH
          && '\r' !in cookie.path && '\n' !in cookie.path && '\0' !in cookie.path)
    && ValidCookieDomain(host, cookie.domain)
  }

  predicate ValidSet(s: CookieSet) {
    ValidSessionUrl(s.url) && forall c :: c in s.cookies ==> ValidSessionCookie(s.url.host, c)
  }

  function TotalCookies(sets: seq<CookieSet>): nat {
    if sets == [] then 0 else TotalCookies(sets[..|sets| - 1]) + |sets[|sets| - 1].cookies|
  }

  predicate ValidState(state: SessionState) {
    && state.version == 1 && 0 < |state.sets| <= MAX_SETS
    && 0 < TotalCookies(state.sets) <= MAX_COOKIES && forall s :: s in state.sets ==> ValidSet(s)
  }

  predicate OwnedBy(scope: Scope, s: CookieSet) {
    && ScopeAllowsHost(scope, s.url.host)
    && (scope != Identity ==> forall c :: c in s.cookies ==> CanonicalDomain(c.domain) != Some(PARENT_DOMAIN))
  }

  predicate ValidScopedState(state: SessionState, scope: Scope) {
    ValidState(state) && forall s :: s in state.sets ==> OwnedBy(scope, s)
  }

  lemma {:induction false} PrefixTotal(sets: seq<CookieSet>, n: nat)
    requires n <= |sets|
    ensures TotalCookies(sets[..n]) <= TotalCookies(sets)
    decreases |sets| - n
  {
    if n < |sets| {
      assert sets[..n + 1][..n] == sets[..n];
      PrefixTotal(sets, n + 1);
    } else {
      assert sets[..n] == sets;
    }
  }

  method ValidateSessionState(state: SessionState) returns (ok: bool)
    ensures ok <==> ValidState(state)
  {
    if state.version != 1 { return false; }
    if |state.sets| == 0 || |state.sets| > MAX_SETS { return false; }
    var totalCookies := 0;
    for i := 0 to |state.sets|
      invariant totalCookies == TotalCookies(state.sets[..i]) <= MAX_COOKIES
      invariant forall s :: s in state.sets[..i] ==> ValidSet(s)
    {
      var s := state.sets[i];
      assert s in state.sets;
      assert state.sets[..i + 1] == state.sets[..i] + [s];
      if !ValidSessionUrl(s.url) { return false; }
      totalCookies := totalCookies + |s.cookies|;
      if totalCookies > MAX_COOKIES {
        PrefixTotal(state.sets, i + 1);
        return false;
      }
      var valid := ValidateCookies(s);
      if !valid { return false; }
    }
    assert state.sets[..|state.sets|] == state.sets;
    ok := totalCookies != 0;
  }

  method ValidateCookies(s: CookieSet) returns (ok: bool)
    ensures ok <==> forall c :: c in s.cookies ==> ValidSessionCookie(s.url.host, c)
  {
    for j := 0 to |s.cookies|
      invariant forall i :: 0 <= i < j ==> ValidSessionCookie(s.url.host, s.cookies[i])
    {
      if !ValidSessionCookie(s.url.host, s.cookies[j]) { return false; }
    }
    ok := true;
  }

  method ValidateScopedSessionState(state: SessionState, scope: Scope) returns (ok: bool)
    ensures ok <==> ValidScopedState(state, scope)
  {
    var valid := ValidateSessionState(state);
    if !valid { return false; }
    for i := 0 to |state.sets|
      invariant forall s :: s in state.sets[..i] ==> OwnedBy(scope, s)
    {
      if !OwnedBy(scope, state.sets[i]) { return false; }
    }
    ok := true;
  }

  // ------------------------------------------------------------ the filter

  /** The cookies of a state with the URL each was kept for. */
  function Flat(sets: seq<CookieSet>): seq<(Url, SessionCookie)> {
    if sets == [] then [] else Flat(sets[..|sets| - 1]) + Labelled(sets[|sets| - 1].url, sets[|sets| - 1].cookies)
  }

  function Labelled(url: Url, cookies: seq<SessionCookie>): (r: seq<(Url, SessionCookie)>)
    ensures |r| == |cookies| && forall i :: 0 <= i < |r| ==> r[i] == (url, cookies[i])
  {
    seq(|cookies|, i requires 0 <= i < |cookies| => (url, cookies[i]))
  }

  lemma FlatStep(front: seq<CookieSet>, s: CookieSet)
    ensures Flat(front + [s]) == Flat(front) + Labelled(s.url, s.cookies)
    ensures TotalCookies(front + [s]) == TotalCookies(front) + |s.cookies|
  {
    assert (front + [s])[..|front|] == front;
  }

  lemma {:induction false} FlatMembers(sets: seq<CookieSet>)
    ensures forall p :: p in Flat(sets) <==> exists s :: s in sets && p.0 == s.url && p.1 in s.cookies
    ensures |Flat(sets)| == TotalCookies(sets)
  {
    if sets != [] {
      var front, s := sets[..|sets| - 1], sets[|sets| - 1];
      FlatMembers(front);
      assert sets == front + [s];
      forall p ensures p in Labelled(s.url, s.cookies) <==> p.0 == s.url && p.1 in s.cookies {
        if p.0 == s.url && p.1 in s.cookies {
          var i :| 0 <= i < |s.cookies| && s.cookies[i] == p.1;
          assert Labelled(s.url, s.cookies)[i] == p;
        }
      }
    }
  }

  /** Name and value of a cookie some identity host set: an old state lost Domain attributes, so such a
      cookie under a target host is taken for the parent-domain one. */
  ghost predicate HasIdentityTwin(cookies: seq<(Url, SessionCookie)>, name: string, value: string) {
    exists p :: p in cookies && ScopeAllowsHost(Identity, p.0.host) && p.1.name == name && p.1.value == value
  }

  lemma TwinsJoin(a: seq<(Url, SessionCookie)>, b: seq<(Url, SessionCookie)>, name: string, value: string)
    ensures HasIdentityTwin(a + b, name, value) <==> HasIdentityTwin(a, name, value) || HasIdentityTwin(b, name, value)
  {
    assert forall p :: p in a + b <==> p in a || p in b;
  }

  /** What one authority keeps of an undivided state. */
  ghost predicate Kept(sets: seq<CookieSet>, scope: Scope, p: (Url, SessionCookie)) {
    && ScopeAllowsHost(scope, p.0.host)
    && (scope != Identity ==>
        CanonicalDomain(p.1.domain) != Some(PARENT_DOMAIN) && !HasIdentityTwin(Flat(sets), p.1.name, p.1.value))
  }

  /** Any part of a valid state that one authority owns and that is not empty is a valid scoped state. */
  lemma PartIsValid(whole: SessionState, part: SessionState, scope: Scope)
    requires ValidState(whole) && part.version == 1 && part.sets != [] && |part.sets| <= |whole.sets|
    requires TotalCookies(part.sets) <= TotalCookies(whole.sets)
    requires forall s :: s in part.sets ==> s.cookies != [] && OwnedBy(scope, s)
    requires forall p :: p in Flat(part.sets) ==> p in Flat(whole.sets)
    ensures ValidScopedState(part, scope)
  {
    FlatMembers(part.sets);
    FlatMembers(whole.sets);
    forall s | s in part.sets ensures ValidSet(s) {
      forall c | c in s.cookies ensures ValidSessionUrl(s.url) && ValidSessionCookie(s.url.host, c) {
        assert (s.url, c) in Flat(part.sets);
        var w :| w in whole.sets && s.url == w.url && c in w.cookies;
      }
      assert s.cookies[0] in s.cookies;
    }
    var s := part.sets[0];
    assert (s.url, s.cookies[0]) in Flat(part.sets);
  }

  /** Cuts an undivided state down to one authority, keeping exactly the cookies that are its own. */
  method FilterSessionState(state: SessionState, scope: Scope) returns (filtered: Option<SessionState>)
    ensures filtered.Some? <==> ValidState(state)
    ensures filtered.Some? ==>
              forall p :: p in Flat(filtered.value.sets) <==> p in Flat(state.sets) && Kept(state.sets, scope, p)
    ensures filtered.Some? && filtered.value.sets != [] ==> ValidScopedState(filtered.value, scope)
    ensures filtered.Some? ==> filtered.value.validatedAt == state.validatedAt
  {
    var valid := ValidateSessionState(state);
    if !valid { return None; }
    var identityCookies := IdentityCookies(state.sets, scope);
    var sets := [];
    for i := 0 to |state.sets|
      invariant Filtered(state.sets, scope, state.sets[..i], sets)
    {
      assert state.sets[..i + 1] == state.sets[..i] + [state.sets[i]];
      sets := FilterSet(state.sets, scope, state.sets[..i], state.sets[i], identityCookies, sets);
    }
    assert state.sets[..|state.sets|] == state.sets;
    filtered := Some(SessionState(1, sets, state.validatedAt));
    if sets != [] { PartIsValid(state, filtered.value, scope); }
  }

  method IdentityCookies(sets: seq<CookieSet>, scope: Scope) returns (found: set<(string, string)>)
    ensures scope != Identity ==> forall n, v :: (n, v) in found <==> HasIdentityTwin(Flat(sets), n, v)
    ensures scope == Identity ==> found == {}
  {
    found := {};
    if scope == Identity { return; }
    for i := 0 to |sets|
      invariant forall n, v :: (n, v) in found <==> HasIdentityTwin(Flat(sets[..i]), n, v)
    {
      var s := sets[i];
      assert sets[..i + 1] == sets[..i] + [s];
      FlatStep(sets[..i], s);
      forall n, v ensures HasIdentityTwin(Flat(sets[..i + 1]), n, v)
                     <==> HasIdentityTwin(Flat(sets[..i]), n, v) || HasIdentityTwin(Labelled(s.url, s.cookies), n, v) {
        TwinsJoin(Flat(sets[..i]), Labelled(s.url, s.cookies), n, v);
      }
      if ScopeAllowsHost(Identity, s.url.host) {
        found := AddNames(s, found);
      }
    }
    assert sets[..|sets|] == sets;
  }

  method AddNames(s: CookieSet, before: set<(string, string)>) returns (found: set<(string, string)>)
    requires ScopeAllowsHost(Identity, s.url.host)
    ensures forall n, v :: (n, v) in found <==> (n, v) in before || HasIdentityTwin(Labelled(s.url, s.cookies), n, v)
  {
    found := before;
    for j := 0 to |s.cookies|
      invariant forall n, v ::
                  (n, v) in found
                  <==> (n, v) in before || HasIdentityTwin(Labelled(s.url, s.cookies[..j]), n, v)
    {
      var c := s.cookies[j];
      forall n, v ensures HasIdentityTwin(Labelled(s.url, s.cookies[..j + 1]), n, v)
                     <==> HasIdentityTwin(Labelled(s.url, s.cookies[..j]), n, v) || (n == c.name && v == c.value) {
        TwinsJoin(Labelled(s.url, s.cookies[..j]), [(s.url, c)], n, v);
        assert Labelled(s.url, s.cookies[..j + 1]) == Labelled(s.url, s.cookies[..j]) + [(s.url, c)];
        assert (s.url, c) in [(s.url, c)];
      }
      found := found + {(c.name, c.value)};
    }
    assert s.cookies[..|s.cookies|] == s.cookies;
  }

  /** `sets` is what the scope keeps of `front`, the first sets of `all`. */
  ghost predicate Filtered(all: seq<CookieSet>, scope: Scope, front: seq<CookieSet>, sets: seq<CookieSet>) {
    && |sets| <= |front| && TotalCookies(sets) <= TotalCookies(front)
    && (forall s :: s in sets ==> s.cookies != [] && OwnedBy(scope, s))
    && (forall p :: p in Flat(sets) <==> p in Flat(front) && Kept(all, scope, p))
  }

  method FilterSet(
    ghost all: seq<CookieSet>, scope: Scope, ghost front: seq<CookieSet>, s: CookieSet,
    identityCookies: set<(string, string)>, before: seq<CookieSet>)
    returns (sets: seq<CookieSet>)
    requires scope != Identity ==> forall n, v :: (n, v) in identityCookies <==> HasIdentityTwin(Flat(all), n, v)
    requires scope == Identity ==> identityCookies == {}
    requires Filtered(all, scope, front, before)
    ensures Filtered(all, scope, front + [s], sets)
  {
    FlatStep(front, s);
    sets := before;
    if ScopeAllowsHost(scope, s.url.host) {
      var kept := KeepCookies(all, scope, s, identityCookies);
      FlatStep(before, CookieSet(s.url, kept));
      if |kept| > 0 {
        sets := sets + [CookieSet(s.url, kept)];
      }
    }
  }

  method KeepCookies(ghost sets: seq<CookieSet>, scope: Scope, s: CookieSet, identityCookies: set<(string, string)>)
    returns (kept: seq<SessionCookie>)
    requires ScopeAllowsHost(scope, s.url.host)
    requires scope != Identity ==> forall n, v :: (n, v) in identityCookies <==> HasIdentityTwin(Flat(sets), n, v)
    requires scope == Identity ==> identityCookies == {}
    ensures |kept| <= |s.cookies| && OwnedBy(scope, CookieSet(s.url, kept))
    ensures forall p :: p in Labelled(s.url, kept) <==> p in Labelled(s.url, s.cookies) && Kept(sets, scope, p)
  {
    kept := [];
    for j := 0 to |s.cookies|
      invariant |kept| <= j && OwnedBy(scope, CookieSet(s.url, kept))
      invariant forall c :: c in kept <==> c in s.cookies[..j] && Kept(sets, scope, (s.url, c))
    {
      var c := s.cookies[j];
      assert s.cookies[..j + 1] == s.cookies[..j] + [c];
      if !(scope != Identity && CanonicalDomain(c.domain) == Some(PARENT_DOMAIN))
          && (c.name, c.value) !in identityCookies {
        kept := kept + [c];
      }
    }
    assert s.cookies[..|s.cookies|] == s.cookies;
    LabelledMembers(s.url, kept);
    LabelledMembers(s.url, s.cookies);
  }

  lemma LabelledMembers(url: Url, cookies: seq<SessionCookie>)
    ensures forall p :: p in Labelled(url, cookies) <==> p.0 == url && p.1 in cookies
  {
    forall p: (Url, SessionCookie) | p.0 == url && p.1 in cookies ensures p in Labelled(url, cookies) {
      var i :| 0 <= i < |cookies| && cookies[i] == p.1;
      assert Labelled(url, cookies)[i] == p;
    }
  }
}
