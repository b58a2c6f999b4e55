/** The policy layer and the proxy of the gateway (panoptikon/src/policy.rs, proxy.rs). */
module Gateway {
  // How a request's policy is selected and enforced, what is sent on, and what holds along chains
  // of gateways and across a server-side render.

  import opened Prelude
  import opened Encodings
  import opened PolicyToken
  import opened DbPolicy
  import opened Headers

  // --- configuration ---

  /** `methods` and `hosts` are sets of names; none means any. */
  datatype Rule = Rule(methods: Option<set<bytes>>, path: Option<bytes>, pathPrefix: Option<bytes>)

  datatype Ruleset = Ruleset(allowAll: bool, allow: seq<Rule>)

  datatype Policy = Policy(
    name: bytes, ruleset: Option<bytes>, hosts: seq<bytes>, endpoints: seq<bytes>,
    desktop: bool, userHeader: Option<bytes>, index: DbRules, userData: DbRules)

  datatype Settings = Settings(policies: seq<Policy>, rulesets: map<bytes, Ruleset>, apiLocal: bool)

  /** `validate_policies`, as far as the theorems need it. */
  predicate ValidPolicy(p: Policy) {
    && IsSafe(p.name)
    && (p.userHeader.Some? ==> !IsPanoptikon(Lowercase(p.userHeader.value)))
    && ValidRules(p.index) && ValidRules(p.userData)
  }

  predicate ValidSettings(s: Settings) {
    forall p :: p in s.policies ==> ValidPolicy(p)
  }

  /** What the gateway takes from outside this model: the effective host of a request and the
      SHA-256 digest. */
  datatype Oracle = Oracle(host: Headers -> Option<bytes>, digest: bytes -> bytes)

  // --- requests ---

  datatype Request = Request(method_: bytes, path: bytes, headers: Headers, pairs: Pairs, endpoint: Option<bytes>)

  datatype SelectedBy = ByToken | ByListenerHost

  datatype Decision = Decision(policy: Policy, selectedBy: SelectedBy, username: Option<bytes>,
                               action: Action, request: Request)

  // --- policy selection ---

  function Trim(s: bytes): bytes {
    TrimBlanks(s)
  }

  function Find(s: bytes, b: byte): (i: nat)
    ensures i <= |s|
    ensures i < |s| ==> s[i] == b
  {
    if s == [] || s[0] == b then 0 else 1 + Find(s[1..], b)
  }

  /** `normalize_host`: drop the port and the brackets of an IPv6 literal. */
  function NormalizeHost(value: bytes): bytes {
    var v := Trim(value);
    if v != [] && v[0] == 91 && 0 < Find(v, 93) < |v| then Lowercase(v[1..Find(v, 93)])
    else Lowercase(v[..Find(v, 58)])
  }

  predicate HostMatches(pattern: bytes, host: bytes) {
    pattern == Ascii("*") || NormalizeHost(pattern) == host
  }

  predicate PolicyMatches(p: Policy, host: Option<bytes>, endpoint: Option<bytes>) {
    && (p.hosts == [] || (host.Some? && exists i :: 0 <= i < |p.hosts| && HostMatches(p.hosts[i], host.value)))
    && (p.endpoints == [] || (endpoint.Some? && endpoint.value in p.endpoints))
  }

  function SelectPolicy(ps: seq<Policy>, host: Option<bytes>, endpoint: Option<bytes>): Option<Policy> {
    if ps == [] then None
    else if PolicyMatches(ps[0], host, endpoint) then Some(ps[0])
    else SelectPolicy(ps[1..], host, endpoint)
  }

  function NamedPolicy(ps: seq<Policy>, name: bytes): (r: Option<Policy>)
    ensures r.Some? ==> r.value in ps && r.value.name == name
  {
    if ps == [] then None else if ps[0].name == name then Some(ps[0]) else NamedPolicy(ps[1..], name)
  }

  /** `consume_policy_token`: the policy a presented token names, if it verifies. */
  function TokenPolicy(h: Headers, s: Settings, mac: Mac, now: nat): Option<Policy> {
    var value := Get(h, PolicyTokenName());
    if value.None? || ToStr(value.value).None? then None
    else match VerifyAt(mac, value.value, now)
      case Err(_) => None
      case Ok(claims) => NamedPolicy(s.policies, claims.policy)
  }

  /** The headers as they leave the policy layer's ingress. */
  function Ingress(h: Headers): Headers {
    StripInbound(Without(h, {PolicyTokenName()}))
  }

  /** The removal loop of `strip_inbound_panoptikon_headers`. */
  method StripInboundHeaders(h: Headers) returns (r: Headers)
    ensures r == StripInbound(h)
  {
    var doomed := set i | 0 <= i < |h| && IsPanoptikon(h[i].name) && h[i].name != HopCountName() :: h[i].name;
    r := RemoveAll(h, doomed);
    StripIsWithout(h, doomed);
  }

  lemma {:induction false} StripIsWithout(h: Headers, doomed: set<bytes>)
    requires forall x :: x in h ==> (x.name in doomed <==> IsPanoptikon(x.name) && x.name != HopCountName())
    ensures Without(h, doomed) == StripInbound(h)
  {
    if h != [] { StripIsWithout(h[1..], doomed); }
  }

  function Select(r: Request, s: Settings, mac: Mac, now: nat, o: Oracle): Option<(Policy, SelectedBy)> {
    match TokenPolicy(r.headers, s, mac, now)
    case Some(p) => Some((p, ByToken))
    case None =>
      match SelectPolicy(s.policies, o.host(Ingress(r.headers)), r.endpoint)
      case Some(p) => Some((p, ByListenerHost))
      case None => None
  }

  // --- enforcement under the selected policy ---

  function Api(): bytes { Ascii("/api") }

  predicate Under(path: bytes, base: bytes) {
    path == base || base + Ascii("/") <= path
  }

  predicate IsDocs(path: bytes) {
    path == Ascii("/docs") || path == Ascii("/redoc") || path == Ascii("/openapi.json")
  }

  predicate IsApiSurface(path: bytes) {
    Under(path, Api()) || IsDocs(path)
  }

  predicate IsInference(path: bytes) {
    Under(path, Ascii("/api/inference"))
  }

  predicate IsDbInfo(path: bytes) {
    path == Ascii("/api/db")
  }

  predicate IsDbCreate(path: bytes) {
    path == Ascii("/api/db/create")
  }

  predicate NeedsDbParams(path: bytes) {
    !IsDocs(path) && !IsDbInfo(path) && !IsDbCreate(path) && !IsInference(path) && Under(path, Api())
  }

  predicate RuleMatches(r: Rule, method_: bytes, path: bytes) {
    && (r.methods.None? || method_ in r.methods.value)
    && if r.path.Some? then path == r.path.value
       else r.pathPrefix.Some? && r.pathPrefix.value <= path
  }

  predicate RulesetAllows(s: Settings, p: Policy, method_: bytes, path: bytes) {
    p.ruleset.None? || p.ruleset.value == Ascii("allow_all")
    || (p.ruleset.value in s.rulesets
        && var rs := s.rulesets[p.ruleset.value];
           rs.allowAll || exists i :: 0 <= i < |rs.allow| && RuleMatches(rs.allow[i], method_, path))
  }

  function FirstPart(s: bytes): bytes {
    s[..Find(s, COMMA)]
  }

  /** `hash_username`: the first 16 bytes of the digest, in hex. */
  function HashUsername(value: bytes, digest: bytes -> bytes): bytes {
    var d := digest(value);
    Hex(if |d| >= 16 then d[..16] else d)
  }

  /** A user name as the database rules see it: short safe names as they are, others hashed. */
  function NormalizeUsername(value: bytes, digest: bytes -> bytes): bytes {
    if |value| > USERNAME_HASH_LEN - 2 || !IsSafe(value) then HashUsername(value, digest) else value
  }

  /** `extract_username`. */
  function ExtractUsername(p: Policy, h: Headers, digest: bytes -> bytes): Result<Option<bytes>, Denial> {
    if p.userHeader.None? then Ok(None)
    else match Get(h, Lowercase(p.userHeader.value))
      case None => Ok(None)
      case Some(raw) =>
        if ToStr(raw).None? then Err(InvalidUserHeader)
        else
          var value := Trim(FirstPart(raw));
          if value == [] then Err(InvalidUsername) else Ok(Some(NormalizeUsername(value, digest)))
  }

  /** Everything `apply_policy` does once the policy is known. It sees the request after
      ingress, and nothing of the host or the listener. */
  function EnforceUnder(p: Policy, by_: SelectedBy, method_: bytes, path: bytes, h: Headers, pairs: Pairs,
                        endpoint: Option<bytes>, s: Settings, o: Oracle): Result<Decision, Denial>
  {
    var isClientConfig := s.apiLocal && method_ == Ascii("GET") && path == Ascii("/api/client-config");
    var isRelayBootstrap := s.apiLocal && (Ascii("/api/relay/pairings/") <= path || Ascii("/api/relay/pairing-operations/") <= path);
    if Ascii("/api/desktop/") <= path && !p.desktop then Err(DesktopRequired)
    else if IsApiSurface(path) && !isClientConfig && !isRelayBootstrap && !RulesetAllows(s, p, method_, path) then
      Err(RulesetDenied)
    else match ExtractUsername(p, h, o.digest)
      case Err(e) => Err(e)
      case Ok(username) =>
        var kept := if IsInference(path) || IsDbInfo(path) then Others(pairs, {IndexDb(), UserDataDb()}) else pairs;
        var scoped :=
          if IsInference(path) || IsDbInfo(path) || IsDbCreate(path) || isClientConfig || isRelayBootstrap
             || !IsApiSurface(path) || !NeedsDbParams(path)
          then Ok(Enforced(kept, Skipped))
          else EnforceDbParams(kept, p.index, p.userData, username);
        match scoped
        case Err(e) => Err(e)
        case Ok(e1) =>
          var created := if IsDbCreate(path) then EnforceDbCreateParams(e1.pairs, p.index, p.userData, username)
                         else Ok(Enforced(e1.pairs, Skipped));
          match created
          case Err(e) => Err(e)
          case Ok(e2) =>
            Ok(Decision(p, by_, username, Combine(e1.action, e2.action), Request(method_, path, h, e2.pairs, endpoint)))
  }

  /** `apply_policy`. */
  function ApplyPolicy(r: Request, s: Settings, mac: Mac, now: nat, o: Oracle): Result<Decision, Denial> {
    match Select(r, s, mac, now, o)
    case None => Err(NoPolicy)
    case Some(choice) =>
      EnforceUnder(choice.0, choice.1, r.method_, r.path, Ingress(r.headers), r.pairs, r.endpoint, s, o)
  }

  // --- forwarding ---

  datatype Upstream = Ui | OtherUpstream

  /** What one forwarding step takes from its connection: whether it can hand over an upgrade,
      the target's authority, the scheme and the client address. */
  datatype Link = Link(canUpgrade: bool, authority: Option<bytes>, proto: bytes, clientIp: bytes)

  function ForwardedForName(): bytes { Ascii("x-forwarded-for") }
  function HostName(): bytes { Ascii("host") }
  function ForwardedHostName(): bytes { Ascii("x-forwarded-host") }
  function ForwardedProtoName(): bytes { Ascii("x-forwarded-proto") }

  /** `build_upstream_request`: the headers that describe the original request. */
  function Described(h: Headers, original: Option<bytes>, link: Link): Headers {
    var h1 := if link.authority.Some? then Insert(h, HostName(), link.authority.value) else h;
    var h2 := if original.Some? && ToStr(original.value).Some? then Insert(h1, ForwardedHostName(), original.value) else h1;
    var h3 := Insert(h2, ForwardedProtoName(), link.proto);
    Insert(h3, ForwardedForName(), ForwardedFor(h3, link))
  }

  /** `append_forwarded_for`. */
  function ForwardedFor(h: Headers, link: Link): bytes {
    var previous := Get(h, ForwardedForName());
    if previous.Some? && ToStr(previous.value).Some? then previous.value + [COMMA, 32] + link.clientIp else link.clientIp
  }

  /** `proxy_request` up to the point where the request is sent: nothing once the request has
      been through four gateways, otherwise the headers to send. */
  function Forward(h: Headers, token: Option<bytes>, link: Link): Option<Headers> {
    var hops := Hops(h);
    if hops >= MAX_PROXY_HOPS then None
    else
      var h1 := Sanitized(h, if link.canUpgrade then RequestedUpgrade(h) else None);
      Some(Described(Stamped(h1, hops, token), Get(h, HostName()), link))
  }

  /** The token for a UI-bound request: it names the policy the request was admitted under. */
  function TokenFor(upstream: Upstream, d: Decision, mac: Mac, origin: bytes, now: nat): Option<bytes> {
    if upstream.Ui? then Some(Mint(mac, d.policy.name, origin, now)) else None
  }

  // --- header facts about a forwarded request ---

  lemma DescribedNames()
    ensures !IsPanoptikon(HostName()) && !IsPanoptikon(ForwardedHostName())
    ensures !IsPanoptikon(ForwardedProtoName()) && !IsPanoptikon(ForwardedForName())
  {
    assert PanoptikonPrefix()[2] == 'p' as int && |PanoptikonPrefix()| == 13;
    assert ForwardedHostName()[2] == 'f' as int && ForwardedProtoName()[2] == 'f' as int && ForwardedForName()[2] == 'f' as int;
    assert |HostName()| == 4;
  }

  lemma GatewayNames()
    ensures IsPanoptikon(HopCountName()) && IsPanoptikon(PolicyTokenName()) && HopCountName() != PolicyTokenName()
  {
    assert |HopCountName()| == 17 && |PolicyTokenName()| == 19;
    assert HopCountName()[..13] == PanoptikonPrefix() && PolicyTokenName()[..13] == PanoptikonPrefix();
  }

  /** The headers of the gateway's own namespace are the same. */
  ghost predicate SamePanoptikon(h: Headers, h': Headers) {
    && (forall x: Header :: IsPanoptikon(x.name) ==> (x in h <==> x in h'))
    && (forall n: bytes :: IsPanoptikon(n) ==> Get(h, n) == Get(h', n))
  }

  lemma InsertForeign(h: Headers, name: bytes, value: bytes)
    requires !IsPanoptikon(name)
    ensures SamePanoptikon(h, Insert(h, name, value))
  {
    forall n | IsPanoptikon(n) ensures Get(h, n) == Get(Insert(h, name, value), n) { GetInsert(h, name, value, n); }
  }

  lemma SameTwice(a: Headers, b: Headers, c: Headers)
    requires SamePanoptikon(a, b) && SamePanoptikon(b, c)
    ensures SamePanoptikon(a, c)
  {
  }

  lemma DescribedKeepsPanoptikon(h: Headers, original: Option<bytes>, link: Link)
    ensures SamePanoptikon(h, Described(h, original, link))
  {
    DescribedNames();
    var h1 := if link.authority.Some? then Insert(h, HostName(), link.authority.value) else h;
    if link.authority.Some? { InsertForeign(h, HostName(), link.authority.value); }
    var h2 := if original.Some? && ToStr(original.value).Some? then Insert(h1, ForwardedHostName(), original.value) else h1;
    if original.Some? { InsertForeign(h1, ForwardedHostName(), original.value); }
    SameTwice(h, h1, h2);
    var h3 := Insert(h2, ForwardedProtoName(), link.proto);
    InsertForeign(h2, ForwardedProtoName(), link.proto);
    SameTwice(h, h2, h3);
    InsertForeign(h3, ForwardedForName(), ForwardedFor(h3, link));
    SameTwice(h, h3, Described(h, original, link));
  }

  /** After sanitising, the hop count is the only header of the namespace left. */
  lemma SanitizedNamespace(h: Headers, up: Option<bytes>)
    ensures forall x :: x in Sanitized(Ingress(h), up) && IsPanoptikon(x.name) ==> x.name == HopCountName()
  {
    SanitizedExactly(Ingress(h), up);
    HandshakeIsForeign(up);
  }

  /** The headers between sanitising and describing the request. */
  function Stamped(h1: Headers, hops: nat, token: Option<bytes>): Headers {
    var h2 := Insert(h1, HopCountName(), Decimal(hops + 1));
    if token.Some? && ToStr(token.value).Some? then Insert(h2, PolicyTokenName(), token.value) else h2
  }

  lemma StampedNamespace(h1: Headers, hops: nat, token: Option<bytes>)
    requires hops + 1 < U64
    requires forall x :: x in h1 && IsPanoptikon(x.name) ==> x.name == HopCountName()
    ensures var h3 := Stamped(h1, hops, token);
            && (forall x :: x in h3 && IsPanoptikon(x.name) ==>
                  x == Header(HopCountName(), Decimal(hops + 1))
                  || (token.Some? && x == Header(PolicyTokenName(), token.value)))
            && Get(h3, PolicyTokenName()) == (if token.Some? && ToStr(token.value).Some? then token else None)
            && Hops(h3) == hops + 1
  {
    GatewayNames();
    var h2 := Insert(h1, HopCountName(), Decimal(hops + 1));
    HopsOfInserted(h1, hops + 1);
    AbsentIsNotFound(h2, PolicyTokenName());
    if token.Some? {
      GetInsert(h2, PolicyTokenName(), token.value, PolicyTokenName());
      GetInsert(h2, PolicyTokenName(), token.value, HopCountName());
    }
  }

  /** What is sent on, in terms of the namespace: the hop count this gateway wrote, and at most
      the token it minted. */
  lemma ForwardedNamespace(h: Headers, token: Option<bytes>, link: Link)
    requires Forward(Ingress(h), token, link).Some?
    ensures Hops(h) < MAX_PROXY_HOPS
    ensures var out := Forward(Ingress(h), token, link).value;
            && (forall x :: x in out && IsPanoptikon(x.name) ==>
                  x == Header(HopCountName(), Decimal(Hops(h) + 1))
                  || (token.Some? && x == Header(PolicyTokenName(), token.value)))
            && Get(out, PolicyTokenName()) == (if token.Some? && ToStr(token.value).Some? then token else None)
            && Hops(out) == Hops(h) + 1
  {
    IngressHops(h);
    GatewayNames();
    var g := Ingress(h);
    var up := if link.canUpgrade then RequestedUpgrade(g) else None;
    SanitizedNamespace(h, up);
    var h3 := Stamped(Sanitized(g, up), Hops(g), token);
    StampedNamespace(Sanitized(g, up), Hops(g), token);
    assert Forward(g, token, link) == Some(Described(h3, Get(g, HostName()), link));
    DescribedKeepsPanoptikon(h3, Get(g, HostName()), link);
  }

  lemma {:induction false} AbsentIsNotFound(h: Headers, name: bytes)
    requires forall x :: x in h ==> x.name != name
    ensures Get(h, name) == None
  {
    if h != [] { AbsentIsNotFound(h[1..], name); }
  }

  lemma HandshakeIsForeign(up: Option<bytes>)
    ensures forall x :: x in Handshake(up) ==> !IsPanoptikon(x.name)
  {
    assert |Upgrade()| == 7 && |Connection()| == 10 && |PanoptikonPrefix()| == 13;
  }

  lemma IngressHops(h: Headers)
    ensures Hops(Ingress(h)) == Hops(h)
  {
    GatewayNames();
    GetWithout(h, {PolicyTokenName()}, HopCountName());
    GetStripInbound(Without(h, {PolicyTokenName()}), HopCountName());
  }

  // --- chains of gateways ---

  /** One gateway of a chain: the token it would add, and its connection. */
  datatype Hop = Hop(token: Option<bytes>, link: Link)

  /** What one gateway makes of the headers it receives. */
  function Relay(h: Headers, hop: Hop): Option<Headers> {
    Forward(Ingress(h), hop.token, hop.link)
  }

  /** What a row of steps makes of the headers; nothing if one of them refuses. */
  function Along(step: (Headers, Hop) -> Option<Headers>, h: Headers, chain: seq<Hop>): Option<Headers>
    decreases chain
  {
    if chain == [] then Some(h)
    else match step(h, chain[0]) case None => None case Some(h') => Along(step, h', chain[1..])
  }

  /** The headers after the request passed all gateways of a chain; nothing if one refused. */
  function Pass(h: Headers, chain: seq<Hop>): Option<Headers> {
    Along(Relay, h, chain)
  }

  lemma RelayCounts(h: Headers, hop: Hop)
    requires Relay(h, hop).Some?
    ensures Hops(h) < MAX_PROXY_HOPS && Hops(Relay(h, hop).value) == Hops(h) + 1
  {
    ForwardedNamespace(h, hop.token, hop.link);
  }

  /** Along any chain of gateways, cycles included, a request is forwarded at most four times,
      whatever headers it starts with. */
  lemma {:induction false} ChainsAreBounded(h: Headers, chain: seq<Hop>)
    requires Pass(h, chain).Some?
    ensures |chain| <= 4
    ensures chain != [] ==> Hops(h) + |chain| <= 4
    ensures chain != [] ==> Hops(Pass(h, chain).value) == Hops(h) + |chain|
    decreases chain
  {
    if chain != [] {
      RelayCounts(h, chain[0]);
      ChainsAreBounded(Relay(h, chain[0]).value, chain[1..]);
    }
  }

  /** The headers the last step of a row receives. */
  lemma {:induction false} LastStep(step: (Headers, Hop) -> Option<Headers>, h: Headers, chain: seq<Hop>)
    returns (before: Headers)
    requires chain != [] && Along(step, h, chain).Some?
    ensures Along(step, h, chain[..|chain| - 1]) == Some(before)
    ensures step(before, chain[|chain| - 1]) == Along(step, h, chain)
    decreases chain
  {
    if |chain| == 1 {
      before := h;
    } else {
      before := LastStep(step, step(h, chain[0]).value, chain[1..]);
      var most := chain[..|chain| - 1];
      assert most[1..] == chain[1..][..|chain| - 2] && most[0] == chain[0];
    }
  }

  /** Along any chain of gateways, no header of their own namespace comes from the client:
      whatever arrives under such a name was written by the last gateway, the hop count, which
      counts them all, and its token. */
  lemma {:induction false} NothingSmuggled(h: Headers, chain: seq<Hop>, x: Header)
    requires chain != [] && Pass(h, chain).Some?
    requires x in Pass(h, chain).value && IsPanoptikon(x.name)
    ensures x == Header(HopCountName(), Decimal(Hops(h) + |chain|))
         || Some(x) == TokenHeader(chain[|chain| - 1].token)
  {
    var before := LastRelay(h, chain);
    WrittenHere(before, chain[|chain| - 1], x);
  }

  lemma LastRelay(h: Headers, chain: seq<Hop>) returns (before: Headers)
    requires chain != [] && Pass(h, chain).Some?
    ensures Relay(before, chain[|chain| - 1]) == Pass(h, chain)
    ensures Hops(before) == Hops(h) + |chain| - 1
  {
    before := LastStep(Relay, h, chain);
    HopsAfter(h, chain[..|chain| - 1], before);
  }

  lemma HopsAfter(h: Headers, chain: seq<Hop>, after: Headers)
    requires Pass(h, chain) == Some(after)
    ensures Hops(after) == Hops(h) + |chain|
  {
    ChainsAreBounded(h, chain);
  }

  /** What is forwarded under a name of the namespace was written by the gateway that forwards. */
  lemma WrittenHere(h: Headers, hop: Hop, x: Header)
    requires Relay(h, hop).Some? && x in Relay(h, hop).value && IsPanoptikon(x.name)
    ensures Hops(h) < MAX_PROXY_HOPS
    ensures x == Header(HopCountName(), Decimal(Hops(h) + 1)) || Some(x) == TokenHeader(hop.token)
  {
    ForwardedNamespace(h, hop.token, hop.link);
  }

  function TokenHeader(token: Option<bytes>): Option<Header> {
    match token case None => None case Some(t) => Some(Header(PolicyTokenName(), t))
  }

  // --- authority across a render ---

  lemma SafeNameIsVisible(name: bytes)
    requires IsSafe(name)
    ensures forall i :: 0 <= i < |name| ==> 32 <= name[i] < 127
  {
  }

  /** A token minted for a valid policy name survives as a header value. */
  lemma TokenIsHeaderSafe(mac: Mac, name: bytes, origin: bytes, expiry: nat)
    requires IsSafe(name)
    ensures ToStr(Sign(mac, name, origin, expiry)) == Some(Sign(mac, name, origin, expiry))
  {
    SafeNameIsVisible(name);
    Base64IsPlain(origin);
    var d, b, x := Decimal(expiry), Base64(origin), Hex(mac(Message(name, origin, expiry)));
    assert forall i :: 0 <= i < |b| ==> b[i] in b;
    assert forall i :: 0 <= i < |x| ==> x[i] in x;
  }

  ghost predicate NoEarlierNamesake(ps: seq<Policy>, i: nat)
    requires i < |ps|
  {
    forall j :: 0 <= j < i ==> ps[j].name != ps[i].name
  }

  ghost predicate DistinctNames(ps: seq<Policy>) {
    forall i, j :: 0 <= i < j < |ps| ==> ps[i].name != ps[j].name
  }

  /** The first policy of a name is the one a lookup finds. */
  lemma {:induction false} FirstOfItsName(ps: seq<Policy>, i: nat) returns (k: nat)
    requires i < |ps|
    ensures k <= i && ps[k].name == ps[i].name && NoEarlierNamesake(ps, k)
    ensures NamedPolicy(ps, ps[i].name) == Some(ps[k])
    ensures NoEarlierNamesake(ps, i) <==> k == i
  {
    if ps[0].name == ps[i].name {
      k := 0;
    } else {
      k := FirstOfItsName(ps[1..], i - 1);
      assert forall j :: 0 <= j < |ps| - 1 ==> ps[1..][j] == ps[j + 1];
      k := k + 1;
      assert forall j :: 1 <= j < k ==> ps[j] == ps[1..][j - 1];
    }
  }

  /** A token minted for policy `i` selects, until it expires, the first policy of that name:
      policy `i` itself exactly when no earlier one has its name. */
  lemma TokenSelectsExactly(s: Settings, mac: Mac, i: nat, origin: bytes, minted: nat, h: Headers, now: nat)
    returns (k: nat)
    requires i < |s.policies| && IsSafe(s.policies[i].name)
    requires origin != [] && IsUtf8(origin) && minted + TOKEN_TTL_SECS < U64
    requires Get(h, PolicyTokenName()) == Some(Mint(mac, s.policies[i].name, origin, minted))
    ensures k <= i && s.policies[k].name == s.policies[i].name && NoEarlierNamesake(s.policies, k)
    ensures NoEarlierNamesake(s.policies, i) <==> k == i
    ensures TokenPolicy(h, s, mac, now) == if now <= minted + TOKEN_TTL_SECS then Some(s.policies[k]) else None
  {
    var name := s.policies[i].name;
    TokenIsHeaderSafe(mac, name, origin, minted + TOKEN_TTL_SECS);
    SignedTokenVerifies(mac, name, origin, minted + TOKEN_TTL_SECS, now);
    k := FirstOfItsName(s.policies, i);
  }

  lemma {:induction false} SelectedIsConfigured(ps: seq<Policy>, host: Option<bytes>, endpoint: Option<bytes>)
    ensures SelectPolicy(ps, host, endpoint).Some? ==> SelectPolicy(ps, host, endpoint).value in ps
  {
    if ps != [] { SelectedIsConfigured(ps[1..], host, endpoint); }
  }

  /** The token that `sent` carries to the UI comes back with `r2`. */
  ghost predicate Echoes(r2: Request, d: Decision, mac: Mac, origin: bytes, minted: nat, link: Link) {
    var sent := Forward(d.request.headers, TokenFor(Ui, d, mac, origin, minted), link);
    sent.Some? && Get(r2.headers, PolicyTokenName()) == Get(sent.value, PolicyTokenName())
  }

  /** Policy authority carries across a render. A request admitted under some policy is sent to
      the UI with a token; any later request that carries that token is, for 300 seconds,
      enforced under the first policy of that name, whatever its host, its listener or its other
      headers; and after that as if the token were not there. That policy is the one of the
      render exactly when the latter stands first among its namesakes. */
  lemma AuthorityCarriesAcrossRender(s: Settings, mac: Mac, o: Oracle, r1: Request, t1: nat, origin: bytes, minted: nat,
                                     link: Link, r2: Request, now: nat) returns (k: nat)
    requires ValidSettings(s)
    requires origin != [] && IsUtf8(origin) && minted + TOKEN_TTL_SECS < U64
    requires ApplyPolicy(r1, s, mac, t1, o).Ok? && Echoes(r2, ApplyPolicy(r1, s, mac, t1, o).value, mac, origin, minted, link)
    ensures k < |s.policies| && NoEarlierNamesake(s.policies, k)
    ensures s.policies[k].name == ApplyPolicy(r1, s, mac, t1, o).value.policy.name
    ensures ApplyPolicy(r2, s, mac, now, o) ==
              if now <= minted + TOKEN_TTL_SECS
              then EnforceUnder(s.policies[k], ByToken, r2.method_, r2.path, Ingress(r2.headers), r2.pairs, r2.endpoint, s, o)
              else ApplyPolicy(r2.(headers := Without(r2.headers, {PolicyTokenName()})), s, mac, now, o)
    ensures var p := ApplyPolicy(r1, s, mac, t1, o).value.policy;
            s.policies[k] == p <==> exists i: nat :: i < |s.policies| && s.policies[i] == p && NoEarlierNamesake(s.policies, i)
    ensures DistinctNames(s.policies) ==> s.policies[k] == ApplyPolicy(r1, s, mac, t1, o).value.policy
  {
    var d := ApplyPolicy(r1, s, mac, t1, o).value;
    AdmittedPolicy(r1, s, mac, t1, o);
    var i: nat :| i < |s.policies| && s.policies[i] == d.policy;
    TokenIsHeaderSafe(mac, d.policy.name, origin, minted + TOKEN_TTL_SECS);
    ForwardedNamespace(r1.headers, TokenFor(Ui, d, mac, origin, minted), link);
    k := TokenSelectsExactly(s, mac, i, origin, minted, r2.headers, now);
    WithoutToken(r2, s, mac, now, o);
    FirstNamesakeIsUnique(s.policies, k, d.policy);
  }

  lemma OneFirst(ps: seq<Policy>, i: nat, k: nat)
    requires i < |ps| && k < |ps| && ps[i].name == ps[k].name && NoEarlierNamesake(ps, i) && NoEarlierNamesake(ps, k)
    ensures i == k
  {
  }

  lemma FirstNamesakeIsUnique(ps: seq<Policy>, k: nat, p: Policy)
    requires k < |ps| && ps[k].name == p.name && NoEarlierNamesake(ps, k) && p in ps
    ensures ps[k] == p <==> exists i: nat :: i < |ps| && ps[i] == p && NoEarlierNamesake(ps, i)
    ensures DistinctNames(ps) ==> ps[k] == p
  {
    forall i: nat | i < |ps| && ps[i] == p && NoEarlierNamesake(ps, i) ensures i == k {
      OneFirst(ps, i, k);
    }
    var i :| 0 <= i < |ps| && ps[i] == p;
    if DistinctNames(ps) { assert i == k; }
  }

  /** An admitted request leaves ingress under a configured policy. */
  lemma AdmittedPolicy(r: Request, s: Settings, mac: Mac, now: nat, o: Oracle)
    requires ApplyPolicy(r, s, mac, now, o).Ok?
    ensures var d := ApplyPolicy(r, s, mac, now, o).value;
            d.policy in s.policies && d.request.headers == Ingress(r.headers)
  {
    SelectedIsConfigured(s.policies, o.host(Ingress(r.headers)), r.endpoint);
  }

  /** A token that selects nothing is as good as none. */
  lemma WithoutToken(r: Request, s: Settings, mac: Mac, now: nat, o: Oracle)
    ensures TokenPolicy(r.headers, s, mac, now).None? ==>
              ApplyPolicy(r, s, mac, now, o)
                == ApplyPolicy(r.(headers := Without(r.headers, {PolicyTokenName()})), s, mac, now, o)
  {
    var bare := Without(r.headers, {PolicyTokenName()});
    GetWithout(r.headers, {PolicyTokenName()}, PolicyTokenName());
    WithoutTwice(r.headers, {PolicyTokenName()}, {PolicyTokenName()});
    assert {PolicyTokenName()} + {PolicyTokenName()} == {PolicyTokenName()};
    assert Ingress(bare) == Ingress(r.headers);
  }

  /** Two policies of one name, told apart by the host of a request. */
  function Namesakes(name: bytes, a: bytes, b: bytes, rules: DbRules): Settings {
    Settings([Policy(name, None, [a], [], false, None, rules, rules), Policy(name, None, [b], [], false, None, rules, rules)],
             map[], false)
  }

  /** Names are not checked for duplicates when a configuration is loaded. Then a page rendered
      under the second of two namesakes hands out a token for the first: a request for `/` on
      host `b` is admitted under the second, and the request that echoes its token is enforced
      under the first, although it comes through host `b` as well. */
  lemma SecondOfTwoNamesakes(name: bytes, a: bytes, b: bytes, rules: DbRules, mac: Mac, o: Oracle, origin: bytes,
                             now: nat, link: Link, r1: Request, r2: Request)
    requires IsSafe(name) && ValidRules(rules) && a != Ascii("*") && NormalizeHost(a) != b && NormalizeHost(b) == b
    requires origin != [] && IsUtf8(origin) && now + TOKEN_TTL_SECS < U64
    requires r1 == Request(Ascii("GET"), Ascii("/"), [], [], None) && o.host([]) == Some(b)
    requires r2.headers == [Header(PolicyTokenName(), Mint(mac, name, origin, now))]
    ensures var s := Namesakes(name, a, b, rules);
            && ValidSettings(s) && s.policies[0] != s.policies[1]
            && ApplyPolicy(r1, s, mac, now, o).Ok? && ApplyPolicy(r1, s, mac, now, o).value.policy == s.policies[1]
            && Echoes(r2, ApplyPolicy(r1, s, mac, now, o).value, mac, origin, now, link)
            && ApplyPolicy(r2, s, mac, now, o) ==
                 EnforceUnder(s.policies[0], ByToken, r2.method_, r2.path, Ingress(r2.headers), r2.pairs, r2.endpoint, s, o)
  {
    var s := Namesakes(name, a, b, rules);
    NamesakesToldApart(name, a, b, rules);
    BareRequestAdmitted(r1, s, mac, now, o, b);
    var d := Decision(s.policies[1], ByListenerHost, None, Skipped, r1);
    TokenSent(d, mac, origin, now, link);
    EchoOfAdmitted(s, mac, o, d, r1, origin, now, link, r2);
  }

  lemma NamesakesToldApart(name: bytes, a: bytes, b: bytes, rules: DbRules)
    requires IsSafe(name) && ValidRules(rules) && a != Ascii("*") && NormalizeHost(a) != b && NormalizeHost(b) == b
    ensures var s := Namesakes(name, a, b, rules);
            && ValidSettings(s) && s.policies[0] != s.policies[1]
            && SelectPolicy(s.policies, Some(b), None) == Some(s.policies[1])
  {
    var ps := Namesakes(name, a, b, rules).policies;
    assert a != b && ps[0].hosts[0] == a && ps[1].hosts[0] == b;
    assert !PolicyMatches(ps[0], Some(b), None);
    assert HostMatches(ps[1].hosts[0], b) && PolicyMatches(ps[1], Some(b), None);
    assert ps[1..][0] == ps[1];
  }

  /** The echo of a request admitted under some policy is enforced under the first namesake. */
  lemma EchoOfAdmitted(s: Settings, mac: Mac, o: Oracle, d: Decision, r1: Request, origin: bytes, now: nat,
                       link: Link, r2: Request)
    requires ValidSettings(s) && |s.policies| == 2 && s.policies[0].name == s.policies[1].name
    requires origin != [] && IsUtf8(origin) && now + TOKEN_TTL_SECS < U64
    requires ApplyPolicy(r1, s, mac, now, o) == Ok(d) && Echoes(r2, d, mac, origin, now, link)
    ensures ApplyPolicy(r2, s, mac, now, o) ==
              EnforceUnder(s.policies[0], ByToken, r2.method_, r2.path, Ingress(r2.headers), r2.pairs, r2.endpoint, s, o)
  {
    var k := AuthorityCarriesAcrossRender(s, mac, o, r1, now, origin, now, link, r2, now);
    FirstIsFirst(s.policies, k);
  }

  lemma FirstIsFirst(ps: seq<Policy>, k: nat)
    requires |ps| == 2 && ps[0].name == ps[1].name && k < 2 && NoEarlierNamesake(ps, k)
    ensures k == 0
  {
    OneFirst(ps, 0, k);
  }

  lemma RootIsNoApi()
    ensures !IsApiSurface(Ascii("/")) && !IsInference(Ascii("/")) && !IsDbInfo(Ascii("/")) && !IsDbCreate(Ascii("/"))
    ensures !(Ascii("/api/desktop/") <= Ascii("/")) && !NeedsDbParams(Ascii("/"))
  {
  }

  /** A request for `/` without headers is admitted under the policy its host selects. */
  lemma BareRequestAdmitted(r: Request, s: Settings, mac: Mac, now: nat, o: Oracle, host: bytes)
    requires r == Request(Ascii("GET"), Ascii("/"), [], [], None) && o.host([]) == Some(host) && !s.apiLocal
    requires SelectPolicy(s.policies, Some(host), None).Some?
    requires SelectPolicy(s.policies, Some(host), None).value.userHeader.None?
    ensures ApplyPolicy(r, s, mac, now, o)
         == Ok(Decision(SelectPolicy(s.policies, Some(host), None).value, ByListenerHost, None, Skipped, r))
  {
    RootIsNoApi();
    assert Ingress(r.headers) == [];
  }

  /** What is sent to the UI for a request without headers carries the token. */
  lemma TokenSent(d: Decision, mac: Mac, origin: bytes, minted: nat, link: Link)
    requires d.request.headers == [] && IsSafe(d.policy.name)
    ensures var sent := Forward(d.request.headers, TokenFor(Ui, d, mac, origin, minted), link);
            sent.Some? && Get(sent.value, PolicyTokenName()) == Some(Mint(mac, d.policy.name, origin, minted))
  {
    TokenIsHeaderSafe(mac, d.policy.name, origin, minted + TOKEN_TTL_SECS);
    assert Ingress([]) == [];
    ForwardedNamespace([], TokenFor(Ui, d, mac, origin, minted), link);
  }

  // --- user names ---

  lemma {:induction false} HexLength(bs: bytes)
    ensures |Hex(bs)| == 2 * |bs|
  {
    if bs != [] { HexLength(bs[1..]); }
  }

  /** A normalised user name is a safe identifier of at most 32 bytes, and two header values
      only share one if they are equal or were both hashed, to the same hash. */
  lemma UsernamesStayApart(v: bytes, w: bytes, digest: bytes -> bytes)
    requires |digest(v)| == 32 && |digest(w)| == 32
    ensures IsSafe(NormalizeUsername(v, digest)) && |NormalizeUsername(v, digest)| <= USERNAME_HASH_LEN
    ensures NormalizeUsername(v, digest) == NormalizeUsername(w, digest) ==>
              v == w || (HashUsername(v, digest) == HashUsername(w, digest)
                         && NormalizeUsername(v, digest) == HashUsername(v, digest))
  {
    HexLength(digest(v)[..16]);
    HexLength(digest(w)[..16]);
    var x := HashUsername(v, digest);
    assert forall i :: 0 <= i < |x| ==> x[i] in x;
  }

  // --- the origin a token claims ---

  /** `loopback_host`. */
  function LoopbackHost(host: bytes): bytes {
    if host == [] || host == Ascii("0.0.0.0") then Ascii("127.0.0.1")
    else if host == Ascii("::") || host == Ascii("[::]") then Ascii("::1")
    else host
  }

  /** `loopback_base_url`. */
  function LoopbackBaseUrl(host: bytes, port: nat): bytes {
    var h := LoopbackHost(host);
    var bracketed := if 58 in h && h[0] != 91 then [91] + h + [93] else h;
    Ascii("http://") + bracketed + [58] + Decimal(port)
  }

  lemma {:induction false} Utf8Concat(a: bytes, b: bytes)
    requires IsUtf8(a) && IsUtf8(b)
    ensures IsUtf8(a + b)
    decreases |a|
  {
    if a == [] {
      assert a + b == b;
    } else {
      var n := if a[0] <= 0x7F then 1 else if a[0] <= 0xDF then 2 else if a[0] <= 0xEF then 3 else 4;
      assert (a + b)[n..] == a[n..] + b;
      Utf8Concat(a[n..], b);
    }
  }

  lemma {:induction false} AsciiIsUtf8(s: bytes)
    requires forall i :: 0 <= i < |s| ==> s[i] <= 0x7F
    ensures IsUtf8(s)
  {
    if s != [] { AsciiIsUtf8(s[1..]); }
  }

  /** The origin minted for a listener is never empty and is well-formed text, so a token
      carrying it always verifies. */
  lemma LoopbackUrlIsUsable(host: bytes, port: nat)
    requires IsUtf8(host)
    ensures LoopbackBaseUrl(host, port) != [] && IsUtf8(LoopbackBaseUrl(host, port))
  {
    var h := LoopbackHost(host);
    LoopbackHostIsUtf8(host);
    BracketedIsUtf8(h);
    AsciiIsUtf8(Ascii("http://"));
    UrlIsUtf8(Ascii("http://"), if 58 in h && h[0] != 91 then [91] + h + [93] else h, Decimal(port));
  }

  lemma LoopbackHostIsUtf8(host: bytes)
    requires IsUtf8(host)
    ensures IsUtf8(LoopbackHost(host))
  {
    if LoopbackHost(host) != host { AsciiIsUtf8(LoopbackHost(host)); }
  }

  lemma BracketedIsUtf8(h: bytes)
    requires IsUtf8(h)
    ensures IsUtf8([91] + h + [93])
  {
    AsciiIsUtf8([91]);
    AsciiIsUtf8([93]);
    Utf8Concat([91], h);
    Utf8Concat([91] + h, [93]);
  }

  lemma UrlIsUtf8(scheme: bytes, host: bytes, port: bytes)
    requires IsUtf8(scheme) && IsUtf8(host) && forall i :: 0 <= i < |port| ==> port[i] <= 0x7F
    ensures IsUtf8(scheme + host + [58] + port)
  {
    AsciiIsUtf8([58]);
    AsciiIsUtf8(port);
    Utf8Concat(scheme, host);
    Utf8Concat(scheme + host, [58]);
    Utf8Concat(scheme + host + [58], port);
  }
}
