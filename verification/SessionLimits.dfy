/** What a stored session may hold, in plain terms: the limits with their values, the hosts by name, and the Domain
    attributes that amount to them. */
module SessionLimits {
  import opened Wrappers
  import opened Statistics
  import opened Sessions
  import opened CookieJar

  /** No Domain attribute, or the host's own name or the parent's, in any case and with at most one dot in front. */
  predicate NamesHost(host: string, domain: string) {
    domain == "" || Undotted(domain) == Lower(host) || Undotted(domain) == "ouc.edu.cn"
  }

  function Undotted(domain: string): string
    requires domain != ""
  {
    Lower(if domain[0] == '.' then domain[1..] else domain)
  }

  predicate SafeCookie(host: string, c: SessionCookie) {
    && (exists i :: 0 <= i < |c.name| && !IsSpace(c.name[i])) && |c.name| <= 4096 && |c.value| <= 4096
    && 0 <= c.expiresAt && NamesHost(host, c.domain)
    && (c.path == "" || (c.path[0] == '/' && |c.path| <= 1024
                         && forall i :: 0 <= i < |c.path| ==> c.path[i] !in {'\r', '\n', '\0'}))
  }

  predicate SafeUrl(url: Url) {
    && url.scheme == "https" && url.user == "" && url.query == "" && url.fragment == ""
    && (Lower(url.host) == "id.ouc.edu.cn" || Lower(url.host) == "my.ouc.edu.cn"
        || Lower(url.host) == "jwgl2024.ouc.edu.cn" || Lower(url.host) == "pgs.ouc.edu.cn")
  }

  /** At most 32 sets and 128 cookies, at least one of each, and nothing unsafe in them. */
  ghost predicate SafeState(state: SessionState) {
    && state.version == 1 && 1 <= |state.sets| <= 32 && 1 <= |Flat(state.sets)| <= 128
    && (forall s :: s in state.sets ==> SafeUrl(s.url))
    && (forall s, c :: s in state.sets && c in s.cookies ==> SafeCookie(s.url.host, c))
  }

  /** A state of one authority: its own hosts only, and cookies for the parent domain only at the identity hosts. */
  ghost predicate SafeFor(scope: Scope, state: SessionState) {
    && SafeState(state) && (forall s :: s in state.sets ==> HostOf(scope, Lower(s.url.host)))
    && (scope != Identity ==>
        forall s, c :: s in state.sets && c in s.cookies ==> c.domain == "" || Undotted(c.domain) == Lower(s.url.host))
  }

  predicate HostOf(scope: Scope, host: string) {
    match scope
    case Identity => host == "id.ouc.edu.cn" || host == "my.ouc.edu.cn"
    case Undergraduate => host == "jwgl2024.ouc.edu.cn"
    case Graduate => host == "pgs.ouc.edu.cn"
  }

  // ----------------------------------------------------------- the known names

  lemma {:induction false} LabelsRead(part: string, word: string, rest: string)
    requires '.' !in word
    ensures Labels(part, word + "." + rest) <==> Label(part + word) && Labels([], rest)
    decreases word
  {
    var s := word + "." + rest;
    if word == [] {
      assert s[0] == '.' && s[1..] == rest && part + word == part;
    } else {
      assert s[0] == word[0] && s[1..] == word[1..] + "." + rest;
      assert part + [word[0]] + word[1..] == part + word;
      LabelsRead(part + [word[0]], word[1..], rest);
    }
  }

  lemma {:induction false} LastLabelRead(part: string, word: string)
    requires '.' !in word
    ensures Labels(part, word) <==> Label(part + word)
    decreases word
  {
    if word == [] {
      assert part + word == part;
    } else {
      assert part + [word[0]] + word[1..] == part + word;
      LastLabelRead(part + [word[0]], word[1..]);
    }
  }

  lemma ParentName()
    ensures Labels([], "ouc.edu.cn")
  {
    LabelsRead([], "ouc", "edu.cn");
    LabelsRead([], "edu", "cn");
    LastLabelRead([], "cn");
    assert "ouc.edu.cn" == "ouc" + "." + "edu.cn" && "edu.cn" == "edu" + "." + "cn";
    assert [] + "ouc" == "ouc" && [] + "edu" == "edu" && [] + "cn" == "cn";
  }

  lemma SubdomainName(word: string)
    requires Label(word)
    ensures Labels([], word + "." + "ouc.edu.cn") && word[0] != '.'
  {
    ParentName();
    LabelsRead([], word, "ouc.edu.cn");
    assert [] + word == word;
  }

  ghost predicate IsName(host: string) { Labels([], host) && 0 < |host| <= 253 && host[0] != '.' }

  lemma IdentityName()
    ensures IsName("id.ouc.edu.cn")
  {
    SubdomainName("id");
    assert "id.ouc.edu.cn" == "id" + "." + "ouc.edu.cn";
  }

  lemma PortalName()
    ensures IsName("my.ouc.edu.cn")
  {
    SubdomainName("my");
    assert "my.ouc.edu.cn" == "my" + "." + "ouc.edu.cn";
  }

  lemma UndergraduateName()
    ensures IsName("jwgl2024.ouc.edu.cn")
  {
    SubdomainName("jwgl2024");
    assert "jwgl2024.ouc.edu.cn" == "jwgl2024" + "." + "ouc.edu.cn";
  }

  lemma GraduateName()
    ensures IsName("pgs.ouc.edu.cn")
  {
    SubdomainName("pgs");
    assert "pgs.ouc.edu.cn" == "pgs" + "." + "ouc.edu.cn";
  }

  lemma HostName(host: string)
    requires AllowedHost(host)
    ensures IsName(Lower(host))
  {
    var name := Lower(host);
    if name == ID_HOST { IdentityName(); }
    else if name == PORTAL_HOST { PortalName(); }
    else if name == UNDERGRADUATE_HOST { UndergraduateName(); }
    else { GraduateName(); }
  }

  /** An attribute that reads as a known name once undotted and lower-cased has that canonical form. */
  lemma ReadsAs(domain: string, name: string)
    requires domain != "" && Undotted(domain) == name && name != "" && |name| <= 253 && name[0] != '.'
    requires Labels([], name)
    ensures CanonicalDomain(domain) == Some(name)
  {
    HostText(name);
    SpaceKept(domain[0]);
    SpaceKept(domain[|domain| - 1]);
  }

  lemma SpaceKept(c: char)
    ensures IsSpace(LowerChar(c)) <==> IsSpace(c)
  {}

  lemma CanonicalReads(domain: string)
    requires domain != "" && CanonicalDomain(domain).Some?
    ensures CanonicalDomain(domain).value == Undotted(domain) && Undotted(domain) != ""
  {}

  /** The check of the Domain attribute comes down to the names. */
  lemma DomainExactly(host: string, domain: string)
    requires AllowedHost(host)
    ensures ValidCookieDomain(host, domain) <==> NamesHost(host, domain)
  {
    HostName(host);
    ParentName();
    if domain != "" {
      if Undotted(domain) == Lower(host) { ReadsAs(domain, Lower(host)); }
      if Undotted(domain) == "ouc.edu.cn" { ReadsAs(domain, "ouc.edu.cn"); }
      if CanonicalDomain(domain).Some? { CanonicalReads(domain); }
    }
  }

  /** So does the check for the parent domain. */
  lemma ParentExactly(domain: string)
    ensures CanonicalDomain(domain) == Some("ouc.edu.cn") <==> domain != "" && Undotted(domain) == "ouc.edu.cn"
  {
    ParentName();
    if domain != "" {
      if Undotted(domain) == "ouc.edu.cn" { ReadsAs(domain, "ouc.edu.cn"); }
      if CanonicalDomain(domain).Some? { CanonicalReads(domain); }
    }
  }

  // ------------------------------------------------------------------ states

  lemma CookieExactly(host: string, c: SessionCookie)
    requires AllowedHost(host)
    ensures ValidSessionCookie(host, c) <==> SafeCookie(host, c)
  {
    DomainExactly(host, c.domain);
  }

  lemma UrlExactly(url: Url)
    ensures ValidSessionUrl(url) <==> SafeUrl(url)
  {}

  /** The states that pass validation are the safe ones. */
  lemma ValidExactly(state: SessionState)
    ensures ValidState(state) <==> SafeState(state)
  {
    FlatMembers(state.sets);
    forall s | s in state.sets ensures ValidSessionUrl(s.url) <==> SafeUrl(s.url) { UrlExactly(s.url); }
    forall s, c | s in state.sets && c in s.cookies && SafeUrl(s.url)
      ensures ValidSessionCookie(s.url.host, c) <==> SafeCookie(s.url.host, c)
    {
      CookieExactly(s.url.host, c);
    }
  }

  /** The states that pass validation for a scope are the safe ones of its authority. */
  lemma ScopedExactly(state: SessionState, scope: Scope)
    ensures ValidScopedState(state, scope) <==> SafeFor(scope, state)
  {
    ValidExactly(state);
    forall s | s in state.sets && SafeUrl(s.url)
      ensures ScopeAllowsHost(scope, s.url.host) <==> HostOf(scope, Lower(s.url.host)) {}
    forall s, c | s in state.sets && c in s.cookies
      ensures CanonicalDomain(c.domain) == Some("ouc.edu.cn") <==> c.domain != "" && Undotted(c.domain) == "ouc.edu.cn"
    {
      ParentExactly(c.domain);
    }
  }

  /** What the filter keeps of an old state: the authority's own cookies.  At a target none for the parent domain and
      none that an identity host of the same state also holds with that name and value. */
  lemma KeptExactly(sets: seq<CookieSet>, scope: Scope, p: (Url, SessionCookie))
    ensures Kept(sets, scope, p)
            <==> HostOf(scope, Lower(p.0.host))
                 && (scope != Identity ==>
                     && (p.1.domain == "" || Undotted(p.1.domain) != "ouc.edu.cn")
                     && forall q :: q in Flat(sets) && HostOf(Identity, Lower(q.0.host)) ==>
                          q.1.name != p.1.name || q.1.value != p.1.value)
  {
    ParentExactly(p.1.domain);
  }

  /** A snapshot takes a record for one of its scopes: the scope's own host set it, and a target's persistent snapshot
      takes host-only cookies alone. */
  lemma IncludedExactly(r: Record, allowParent: bool, scopes: set<Scope>)
    requires r.sourceHost == Lower(r.sourceHost)
    ensures Included(r, allowParent, scopes)
            <==> exists scope :: scope in scopes && HostOf(scope, r.sourceHost)
                                 && (allowParent || scope == Identity || r.domain == r.sourceHost)
  {
    forall scope ensures ScopeAllowsHost(scope, r.sourceHost) <==> HostOf(scope, r.sourceHost) {}
  }

  // ------------------------------------------------------------ header texts

  /** A cookie name is made of the visible ASCII characters that are not separators. */
  lemma TokenExactly(c: char)
    ensures TokenChar(c) <==> 33 <= c as int <= 126 && c !in "\"(),/:;<=>?@[\\]{}"
  {}

  /** What net/http accepts, its check of the domain apart. */
  lemma SettableExactly(c: SetCookie)
    ensures ValidCookie(c)
            <==> c.name != "" && (forall i :: 0 <= i < |c.name| ==> TokenChar(c.name[i])) && ValidValue(c.value)
                 && ValidPath(c.path) && (c.expires.None? || c.expires.value >= -11644473600000)
  {}

  /** A value leaves out controls, quotes, semicolons and backslashes; a path only controls and semicolons. */
  lemma HeaderTextsExactly(s: string)
    ensures ValidValue(s) <==> forall i :: 0 <= i < |s| ==>
              32 <= s[i] as int <= 126 && s[i] as int != 34 && s[i] as int != 59 && s[i] as int != 92
    ensures ValidPath(s) <==> forall i :: 0 <= i < |s| ==> 32 <= s[i] as int <= 126 && s[i] as int != 59
  {}
}
