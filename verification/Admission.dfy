/** The verdict of the policy layer on a request, from outside (panoptikon/src/policy.rs): which
    policy is selected, when the request is refused and why, whose name it is handled under, and
    which databases it is given. Rules, hosts and headers are spelled out here. */
module Admission {
  import opened Prelude
  import opened Encodings
  import opened PolicyToken
  import opened DbPolicy
  import opened DbScoping
  import opened Headers
  import opened Gateway
  import opened Forwarding

  // --- which policy ---

  /** An empty list matches anything; otherwise the host must be known and fit a pattern, and the
      endpoint must be known and listed. */
  ghost predicate Suits(p: Policy, host: Option<bytes>, endpoint: Option<bytes>) {
    && (p.hosts == [] ||
        (host.Some? && exists i :: 0 <= i < |p.hosts| && (p.hosts[i] == Ascii("*") || NormalizeHost(p.hosts[i]) == host.value)))
    && (p.endpoints == [] || (endpoint.Some? && exists i :: 0 <= i < |p.endpoints| && p.endpoints[i] == endpoint.value))
  }

  ghost predicate FirstSuited(ps: seq<Policy>, host: Option<bytes>, endpoint: Option<bytes>, k: nat) {
    k < |ps| && Suits(ps[k], host, endpoint) && forall j :: 0 <= j < k ==> !Suits(ps[j], host, endpoint)
  }

  lemma {:induction false} SelectsFirst(ps: seq<Policy>, host: Option<bytes>, endpoint: Option<bytes>)
    ensures SelectPolicy(ps, host, endpoint).None? <==> forall j :: 0 <= j < |ps| ==> !Suits(ps[j], host, endpoint)
    ensures forall k: nat :: FirstSuited(ps, host, endpoint, k) ==> SelectPolicy(ps, host, endpoint) == Some(ps[k])
  {
    if ps != [] {
      SelectsFirst(ps[1..], host, endpoint);
      assert forall j :: 0 < j < |ps| ==> ps[j] == ps[1..][j - 1];
      assert Suits(ps[0], host, endpoint) <==> PolicyMatches(ps[0], host, endpoint);
      if !Suits(ps[0], host, endpoint) {
        forall j | 0 <= j < |ps| - 1 ensures Suits(ps[1..][j], host, endpoint) <==> Suits(ps[j + 1], host, endpoint) {}
        forall k: nat | FirstSuited(ps, host, endpoint, k) ensures k > 0 && FirstSuited(ps[1..], host, endpoint, k - 1) {
          assert k != 0;
        }
      }
    }
  }

  /** The request is handled under `p`: its token names it, or it carries none that counts and
      `p` is the first policy for its host and endpoint. */
  ghost predicate HandledUnder(r: Request, s: Settings, mac: Mac, now: nat, o: Oracle, p: Policy) {
    match TokenPolicy(r.headers, s, mac, now)
    case Some(named) => p == named
    case None => exists k: nat :: FirstSuited(s.policies, o.host(Ingress(r.headers)), r.endpoint, k) && p == s.policies[k]
  }

  lemma HandledIsSelected(r: Request, s: Settings, mac: Mac, now: nat, o: Oracle, p: Policy)
    requires HandledUnder(r, s, mac, now, o, p)
    ensures Select(r, s, mac, now, o).Some? && Select(r, s, mac, now, o).value.0 == p
  {
    SelectsFirst(s.policies, o.host(Ingress(r.headers)), r.endpoint);
  }

  // --- hosts ---

  lemma {:induction false} FindFirst(s: bytes, c: byte, more: bytes)
    requires c !in s
    ensures Find(s + ([c] + more), c) == |s| && Find(s, c) == |s|
  {
    if s == [] {
      assert s + ([c] + more) == [c] + more;
    } else {
      assert (s + ([c] + more))[1..] == s[1..] + ([c] + more);
      FindFirst(s[1..], c, more);
    }
  }

  /** A host is compared in lower case, without white space around it and without its port. */
  lemma HostWithoutPort(l: bytes, host: bytes, port: bytes, r: bytes)
    requires Blanks(l) && Blanks(r) && host != [] && Bare(host + port) && 58 !in host && host[0] != 91
    requires port == [] || port[0] == 58
    ensures NormalizeHost(l + ((host + port) + r)) == Lowercase(host)
  {
    PaddedTrims(l + ((host + port) + r), l, host + port, r);
    if port == [] {
      FindFirst(host, 58, []);
      assert host + port == host && host[..|host|] == host;
    } else {
      FindFirst(host, 58, port[1..]);
      assert port == [58] + port[1..];
      assert (host + port)[..|host|] == host;
    }
  }

  /** An address in brackets is compared without them. */
  lemma HostInBrackets(l: bytes, address: bytes, port: bytes, r: bytes)
    requires Blanks(l) && Blanks(r) && 93 !in address && Bare([91] + (address + ([93] + port)))
    ensures NormalizeHost(l + (([91] + (address + ([93] + port))) + r)) == Lowercase(address)
  {
    var v := [91] + (address + ([93] + port));
    PaddedTrims(l + (v + r), l, v, r);
    FindFirst([91] + address, 93, port);
    assert v == ([91] + address) + ([93] + port);
    assert v[1..|address| + 1] == address;
  }

  // --- the verdict ---

  /** The paths that rules are about: the API, and its documentation. */
  predicate IsApiPath(path: bytes) {
    path == Ascii("/api") || Ascii("/api/") <= path || path in {Ascii("/docs"), Ascii("/redoc"), Ascii("/openapi.json")}
  }

  /** Of these, what any client of a local API may ask. */
  predicate IsExempt(s: Settings, method_: bytes, path: bytes) {
    s.apiLocal &&
    (|| (method_ == Ascii("GET") && path == Ascii("/api/client-config"))
     || Ascii("/api/relay/pairings/") <= path || Ascii("/api/relay/pairing-operations/") <= path)
  }

  /** The rule lists the method, or all, and this path, or else a prefix of it. */
  predicate Covers(rule: Rule, method_: bytes, path: bytes) {
    && (match rule.methods case None => true case Some(methods) => method_ in methods)
    && (match rule.path
        case Some(exact) => exact == path
        case None => match rule.pathPrefix case Some(prefix) => prefix <= path case None => false)
  }

  /** The policy names rules, and they do not let the request through. */
  ghost predicate Denied(s: Settings, p: Policy, method_: bytes, path: bytes) {
    && p.ruleset.Some? && p.ruleset.value != Ascii("allow_all")
    && (p.ruleset.value in s.rulesets ==>
          && !s.rulesets[p.ruleset.value].allowAll
          && forall i :: 0 <= i < |s.rulesets[p.ruleset.value].allow| ==> !Covers(s.rulesets[p.ruleset.value].allow[i], method_, path))
  }

  ghost predicate NeedsDesktop(p: Policy, path: bytes) {
    Ascii("/api/desktop/") <= path && !p.desktop
  }

  lemma SlashBehind(base: string, path: bytes)
    requires forall i :: 0 <= i < |base| ==> base[i] as int < 128
    ensures Ascii(base) + Ascii("/") == Ascii(base + "/")
  {
  }

  lemma ApiPaths(path: bytes)
    ensures IsApiSurface(path) <==> IsApiPath(path)
  {
    SlashBehind("/api", path);
    assert "/api" + "/" == "/api/";
  }

  lemma DeniedExactly(s: Settings, p: Policy, method_: bytes, path: bytes)
    ensures RulesetAllows(s, p, method_, path) <==> !Denied(s, p, method_, path)
  {
    if p.ruleset.Some? && p.ruleset.value in s.rulesets {
      var rs := s.rulesets[p.ruleset.value];
      forall i | 0 <= i < |rs.allow| ensures RuleMatches(rs.allow[i], method_, path) <==> Covers(rs.allow[i], method_, path) {
      }
    }
  }

  // --- the user ---

  /** What a header of this name says about the user: the first name in it, without white space
      around it. Short names are taken as they are, others are hashed. */
  ghost predicate NamesUser(raw: bytes, digest: bytes -> bytes, user: Result<Option<bytes>, Denial>) {
    if ToStr(raw).None? then user == Err(InvalidUserHeader)
    else exists l, v, r, rest :: FirstName(raw, l, v, r, rest) && user == UserOf(v, digest)
  }

  /** The user of this name. */
  function UserOf(name: bytes, digest: bytes -> bytes): Result<Option<bytes>, Denial> {
    if name == [] then Err(InvalidUsername)
    else if |name| <= 30 && IsName(name) then Ok(Some(name))
    else Ok(Some(Hex(if |digest(name)| >= 16 then digest(name)[..16] else digest(name))))
  }

  ghost predicate FirstName(raw: bytes, l: bytes, v: bytes, r: bytes, rest: bytes) {
    Cut(raw, [], l + (v + r), rest) && Blanks(l) && Blanks(r) && Bare(v)
  }

  /** Whose name a request is handled under. */
  ghost predicate UserIs(p: Policy, h: Headers, digest: bytes -> bytes, user: Result<Option<bytes>, Denial>) {
    match p.userHeader
    case None => user == Ok(None)
    case Some(name) =>
      if exists v :: FirstIs(h, Lowercase(name), v)
      then exists v :: FirstIs(h, Lowercase(name), v) && NamesUser(v, digest, user)
      else user == Ok(None)
  }

  lemma {:induction false} FindComma(s: bytes)
    ensures COMMA !in s[..Find(s, COMMA)]
    ensures Find(s, COMMA) < |s| ==> s[Find(s, COMMA)] == COMMA
  {
    if s != [] && s[0] != COMMA {
      FindComma(s[1..]);
      assert s[..Find(s, COMMA)] == [s[0]] + s[1..][..Find(s[1..], COMMA)];
    }
  }

  lemma FirstPartExactly(raw: bytes, l: bytes, v: bytes, r: bytes, rest: bytes)
    requires FirstName(raw, l, v, r, rest)
    ensures Trim(FirstPart(raw)) == v
  {
    var part := l + (v + r);
    assert raw == part + rest;
    if rest == [] { FindFirst(part, COMMA, []); assert raw == part && raw[..|part|] == part; }
    else {
      FindFirst(part, COMMA, rest[1..]);
      assert rest == [COMMA] + rest[1..];
      assert raw[..|part|] == part;
    }
    PaddedTrims(part, l, v, r);
  }

  lemma FirstPartNamed(raw: bytes) returns (l: bytes, r: bytes, rest: bytes)
    ensures FirstName(raw, l, Trim(FirstPart(raw)), r, rest)
  {
    FindComma(raw);
    var part := FirstPart(raw);
    rest := raw[Find(raw, COMMA)..];
    l, r := TrimsPadded(part);
    assert raw == [] + (part + rest);
  }

  lemma NamesUserExactly(raw: bytes, digest: bytes -> bytes)
    ensures forall user :: NamesUser(raw, digest, user) <==>
              user == if ToStr(raw).None? then Err(InvalidUserHeader)
                      else if Trim(FirstPart(raw)) == [] then Err(InvalidUsername)
                      else Ok(Some(NormalizeUsername(Trim(FirstPart(raw)), digest)))
  {
    var v := Trim(FirstPart(raw));
    var l, r, rest := FirstPartNamed(raw);
    NamesAreSafe(v);
    forall l', v', r', rest' | FirstName(raw, l', v', r', rest') ensures v' == v { FirstPartExactly(raw, l', v', r', rest'); }
  }

  lemma UserExactly(p: Policy, h: Headers, digest: bytes -> bytes)
    ensures forall user :: UserIs(p, h, digest, user) <==> user == ExtractUsername(p, h, digest)
  {
    if p.userHeader.Some? {
      var name := Lowercase(p.userHeader.value);
      forall v ensures FirstIs(h, name, v) <==> Get(h, name) == Some(v) { FirstFound(h, name, v); }
      if Get(h, name).Some? {
        NamesUserExactly(Get(h, name).value, digest);
        assert FirstIs(h, name, Get(h, name).value);
      }
    }
  }

  // --- the whole verdict ---

  predicate Ruled(s: Settings, method_: bytes, path: bytes) {
    IsApiPath(path) && !IsExempt(s, method_, path)
  }

  /** What becomes of the request's parameters under `p`. */
  function ScopedPairs(r: Request, s: Settings, p: Policy, user: Option<bytes>): Result<Enforced, Denial> {
    if r.path == Ascii("/api/db/create") then EnforceDbCreateParams(r.pairs, p.index, p.userData, user)
    else if r.path == Ascii("/api/db") || r.path == Ascii("/api/inference") || Ascii("/api/inference/") <= r.path
    then Ok(Enforced(Others(r.pairs, {Ascii("index_db"), Ascii("user_data_db")}), Skipped))
    else if (Ascii("/api/") <= r.path || r.path == Ascii("/api")) && !IsExempt(s, r.method_, r.path)
    then EnforceDbParams(r.pairs, p.index, p.userData, user)
    else Ok(Enforced(r.pairs, Skipped))
  }

  lemma PathKinds(path: bytes)
    ensures IsInference(path) <==> path == Ascii("/api/inference") || Ascii("/api/inference/") <= path
    ensures Under(path, Api()) <==> path == Ascii("/api") || Ascii("/api/") <= path
  {
    SlashBehind("/api", path);
    SlashBehind("/api/inference", path);
    assert "/api" + "/" == "/api/" && "/api/inference" + "/" == "/api/inference/";
  }

  lemma CreationIsApi(path: bytes)
    ensures path == Ascii("/api/db/create") ==> Ascii("/api/") <= path
    ensures path == Ascii("/api/db") ==> Ascii("/api/") <= path
    ensures path == Ascii("/api/db/create") ==> !IsInference(path) && !IsDbInfo(path)
    ensures IsDocs(path) ==> !(Ascii("/api/") <= path) && path != Ascii("/api")
  {
    var c := Ascii("/api/db/create");
    assert c[..5] == Ascii("/api/") && |c| == 14 && Ascii("/api/db")[..5] == Ascii("/api/") && |Ascii("/api/db")| == 7;
    assert Ascii("/api/inference/")[5] == 105 && c[5] == 100;
    assert Ascii("/docs")[1] == 100 && Ascii("/redoc")[1] == 114 && Ascii("/openapi.json")[1] == 111 && Ascii("/api")[1] == 97;
  }

  /** The part of the enforcement that is about parameters. */
  lemma ScopedAsEnforced(p: Policy, by_: SelectedBy, r: Request, h: Headers, s: Settings, o: Oracle)
    requires !NeedsDesktop(p, r.path) && !(IsApiPath(r.path) && !IsExempt(s, r.method_, r.path) && Denied(s, p, r.method_, r.path))
    ensures EnforceUnder(p, by_, r.method_, r.path, h, r.pairs, r.endpoint, s, o) ==
              match ExtractUsername(p, h, o.digest)
              case Err(e) => Err(e)
              case Ok(user) =>
                match ScopedPairs(r, s, p, user)
                case Err(e) => Err(e)
                case Ok(done) => Ok(Decision(p, by_, user, done.action, Request(r.method_, r.path, h, done.pairs, r.endpoint)))
  {
    ApiPaths(r.path);
    PathKinds(r.path);
    CreationIsApi(r.path);
    DeniedExactly(s, p, r.method_, r.path);
  }

  /** A request for which no policy is meant is refused. Any other is handled under its policy:
      refused when it needs a desktop client the policy does not stand for; then when the policy
      names rules that do not let it through, if it is one that rules are about; then when its
      header names no user properly; then when its databases are refused; and otherwise admitted
      with these, for this user. */
  lemma VerdictExactly(r: Request, s: Settings, mac: Mac, now: nat, o: Oracle, p: Policy, user: Result<Option<bytes>, Denial>)
    requires HandledUnder(r, s, mac, now, o, p) && UserIs(p, Ingress(r.headers), o.digest, user)
    ensures ApplyPolicy(r, s, mac, now, o) ==
              if NeedsDesktop(p, r.path) then Err(DesktopRequired)
              else if Ruled(s, r.method_, r.path) && Denied(s, p, r.method_, r.path) then Err(RulesetDenied)
              else match user
                case Err(e) => Err(e)
                case Ok(u) =>
                  match ScopedPairs(r, s, p, u)
                  case Err(e) => Err(e)
                  case Ok(done) =>
                    Ok(Decision(p, if TokenPolicy(r.headers, s, mac, now).Some? then ByToken else ByListenerHost, u, done.action,
                                Request(r.method_, r.path, Ingress(r.headers), done.pairs, r.endpoint)))
  {
    HandledIsSelected(r, s, mac, now, o, p);
    UserExactly(p, Ingress(r.headers), o.digest);
    ApiPaths(r.path);
    DeniedExactly(s, p, r.method_, r.path);
    if !NeedsDesktop(p, r.path) && !(Ruled(s, r.method_, r.path) && Denied(s, p, r.method_, r.path)) {
      ScopedAsEnforced(p, Select(r, s, mac, now, o).value.1, r, Ingress(r.headers), s, o);
    }
  }

  lemma {:induction false} SomeFirstSuited(ps: seq<Policy>, host: Option<bytes>, endpoint: Option<bytes>, j: nat) returns (k: nat)
    requires j < |ps| && Suits(ps[j], host, endpoint)
    ensures FirstSuited(ps, host, endpoint, k)
    decreases j
  {
    if i: nat :| i < j && Suits(ps[i], host, endpoint) {
      k := SomeFirstSuited(ps, host, endpoint, i);
    } else {
      k := j;
    }
  }

  predicate IsUserDenial(e: Denial) {
    e.InvalidUserHeader? || e.InvalidUsername?
  }

  predicate IsDbDenial(e: Denial) {
    e.InvalidValue? || e.InvalidTemplate? || e.NotAllowed?
  }

  lemma DenialsApart(r: Request, s: Settings, p: Policy, u: Option<bytes>, h: Headers, o: Oracle)
    ensures ScopedPairs(r, s, p, u).Err? ==> IsDbDenial(ScopedPairs(r, s, p, u).error)
    ensures ExtractUsername(p, h, o.digest).Err? ==> IsUserDenial(ExtractUsername(p, h, o.digest).error)
  {
  }

  /** The request carries no token that counts, and no policy suits it. */
  ghost predicate Unmeant(r: Request, s: Settings, mac: Mac, now: nat, o: Oracle) {
    && TokenPolicy(r.headers, s, mac, now).None?
    && forall j :: 0 <= j < |s.policies| ==> !Suits(s.policies[j], o.host(Ingress(r.headers)), r.endpoint)
  }

  /** No policy is meant for a request exactly when nothing else is answered. */
  lemma NoPolicyExactly(r: Request, s: Settings, mac: Mac, now: nat, o: Oracle)
    ensures ApplyPolicy(r, s, mac, now, o) == Err(NoPolicy) <==> Unmeant(r, s, mac, now, o)
    ensures (exists p :: HandledUnder(r, s, mac, now, o, p)) <==> !Unmeant(r, s, mac, now, o)
  {
    if Unmeant(r, s, mac, now, o) {
      NothingSuits(r, s, mac, now, o);
    } else {
      var p := SomePolicy(r, s, mac, now, o);
      HandledIsAnswered(r, s, mac, now, o, p);
    }
  }

  lemma SomePolicy(r: Request, s: Settings, mac: Mac, now: nat, o: Oracle) returns (p: Policy)
    requires !Unmeant(r, s, mac, now, o)
    ensures HandledUnder(r, s, mac, now, o, p)
  {
    if TokenPolicy(r.headers, s, mac, now).Some? {
      p := TokenPolicy(r.headers, s, mac, now).value;
    } else {
      var host := o.host(Ingress(r.headers));
      var j: nat :| j < |s.policies| && Suits(s.policies[j], host, r.endpoint);
      var k := SomeFirstSuited(s.policies, host, r.endpoint, j);
      p := s.policies[k];
    }
  }

  lemma NothingSuits(r: Request, s: Settings, mac: Mac, now: nat, o: Oracle)
    requires Unmeant(r, s, mac, now, o)
    ensures ApplyPolicy(r, s, mac, now, o) == Err(NoPolicy) && !exists p :: HandledUnder(r, s, mac, now, o, p)
  {
    SelectsFirst(s.policies, o.host(Ingress(r.headers)), r.endpoint);
  }

  lemma HandledIsAnswered(r: Request, s: Settings, mac: Mac, now: nat, o: Oracle, p: Policy)
    requires HandledUnder(r, s, mac, now, o, p)
    ensures ApplyPolicy(r, s, mac, now, o) != Err(NoPolicy)
  {
    RefusedExactly(r, s, mac, now, o, p);
  }

  /** The two refusals that depend on the path, and that nothing else gives. */
  lemma RefusedExactly(r: Request, s: Settings, mac: Mac, now: nat, o: Oracle, p: Policy)
    requires HandledUnder(r, s, mac, now, o, p)
    ensures ApplyPolicy(r, s, mac, now, o) == Err(DesktopRequired) <==> NeedsDesktop(p, r.path)
    ensures ApplyPolicy(r, s, mac, now, o) == Err(RulesetDenied) <==>
              !NeedsDesktop(p, r.path) && Ruled(s, r.method_, r.path) && Denied(s, p, r.method_, r.path)
    ensures ApplyPolicy(r, s, mac, now, o) != Err(NoPolicy)
  {
    var user := ExtractUsername(p, Ingress(r.headers), o.digest);
    UserExactly(p, Ingress(r.headers), o.digest);
    VerdictExactly(r, s, mac, now, o, p, user);
    DenialsApart(r, s, p, if user.Ok? then user.value else None, Ingress(r.headers), o);
  }

  /** An API request that is about databases: not about inference, the list of databases or the
      creation of one, and not exempt. */
  predicate IsOrdinary(s: Settings, method_: bytes, path: bytes) {
    && (Ascii("/api/") <= path || path == Ascii("/api")) && !IsExempt(s, method_, path)
    && path != Ascii("/api/inference") && !(Ascii("/api/inference/") <= path)
    && path != Ascii("/api/db") && path != Ascii("/api/db/create")
  }

  lemma OrdinaryPairs(r: Request, s: Settings, p: Policy, user: Option<bytes>)
    requires IsOrdinary(s, r.method_, r.path)
    ensures ScopedPairs(r, s, p, user) == EnforceDbParams(r.pairs, p.index, p.userData, user)
  {
  }

  /** An ordinary API request that is admitted gets the database its first `index_db` asks for by
      the policy's rules for indexes, and the one its first `user_data_db` asks for by those for
      user data, for the user it names; everything else it asks for stays. */
  lemma AdmittedWithItsDatabases(r: Request, s: Settings, mac: Mac, now: nat, o: Oracle, p: Policy, d: Decision,
                                 i: Option<bytes>, u: Option<bytes>, indexKey: bytes, userKey: bytes)
      returns (x: bytes, y: bytes)
    requires indexKey == Ascii("index_db") && userKey == Ascii("user_data_db")
    requires HandledUnder(r, s, mac, now, o, p) && ValidPolicy(p)
    requires ApplyPolicy(r, s, mac, now, o) == Ok(d) && IsOrdinary(s, r.method_, r.path)
    requires Asked(r.pairs, indexKey, i) && Asked(r.pairs, userKey, u)
    ensures d.policy == p && UserIs(p, Ingress(r.headers), o.digest, Ok(d.username))
    ensures StandsFor(i, p.index, d.username, x) && StandsFor(u, p.userData, d.username, y)
    ensures Scoped(d.request.pairs, r.pairs, indexKey, userKey, {}, x, y)
  {
    var done := AdmittedUser(r, s, mac, now, o, p, d);
    x, y := OrdinaryDatabases(r, s, p, d.username, i, u, indexKey, userKey, done);
  }

  lemma OrdinaryDatabases(r: Request, s: Settings, p: Policy, user: Option<bytes>, i: Option<bytes>, u: Option<bytes>,
                          indexKey: bytes, userKey: bytes, done: Enforced) returns (x: bytes, y: bytes)
    requires ValidPolicy(p) && IsOrdinary(s, r.method_, r.path) && ScopedPairs(r, s, p, user) == Ok(done)
    requires indexKey == Ascii("index_db") && userKey == Ascii("user_data_db")
    requires Asked(r.pairs, indexKey, i) && Asked(r.pairs, userKey, u)
    ensures StandsFor(i, p.index, user, x) && StandsFor(u, p.userData, user, y)
    ensures Scoped(done.pairs, r.pairs, indexKey, userKey, {}, x, y)
  {
    OrdinaryPairs(r, s, p, user);
    x, y := ScopedDatabases(r.pairs, p.index, p.userData, user, i, u, indexKey, userKey, done);
  }

  lemma ScopedDatabases(pairs: Pairs, index: DbRules, userData: DbRules, user: Option<bytes>, i: Option<bytes>, u: Option<bytes>,
                        indexKey: bytes, userKey: bytes, done: Enforced) returns (x: bytes, y: bytes)
    requires ValidRules(index) && ValidRules(userData) && EnforceDbParams(pairs, index, userData, user) == Ok(done)
    requires indexKey == Ascii("index_db") && userKey == Ascii("user_data_db")
    requires Asked(pairs, indexKey, i) && Asked(pairs, userKey, u)
    ensures StandsFor(i, index, user, x) && StandsFor(u, userData, user, y)
    ensures Scoped(done.pairs, pairs, indexKey, userKey, {}, x, y)
  {
    RequestIsScoped(pairs, index, userData, user, i, u, indexKey, userKey);
    x, y :| StandsFor(i, index, user, x) && StandsFor(u, userData, user, y) && Scoped(done.pairs, pairs, indexKey, userKey, {}, x, y);
  }

  /** An admitted request: its policy, its user, and its parameters. */
  lemma AdmittedUser(r: Request, s: Settings, mac: Mac, now: nat, o: Oracle, p: Policy, d: Decision) returns (done: Enforced)
    requires HandledUnder(r, s, mac, now, o, p) && ApplyPolicy(r, s, mac, now, o) == Ok(d)
    ensures d.policy == p && UserIs(p, Ingress(r.headers), o.digest, Ok(d.username))
    ensures ScopedPairs(r, s, p, d.username) == Ok(done) && d.request.pairs == done.pairs
  {
    var named := ExtractUsername(p, Ingress(r.headers), o.digest);
    UserExactly(p, Ingress(r.headers), o.digest);
    VerdictExactly(r, s, mac, now, o, p, named);
    done := ScopedPairs(r, s, p, named.value).value;
  }
}
