/** What a forwarded request looks like from outside the proxy (panoptikon/src/proxy.rs): when an
    upgrade is passed on, which headers never are, and what the upstream is told about the
    original request. Header values are described by their characters here, not by the splitting
    and trimming that reads them. */
module Forwarding {
  import opened Prelude
  import opened Encodings
  import opened PolicyToken
  import opened DbPolicy
  import opened Headers
  import opened Gateway

  // --- parts of a header value ---

  /** `t` stands between two commas of `s`, or between one and an end. */
  ghost predicate Cut(s: bytes, a: bytes, t: bytes, b: bytes) {
    && s == a + (t + b) && COMMA !in t
    && (a == [] || a[|a| - 1] == COMMA) && (b == [] || b[0] == COMMA)
  }

  lemma {:induction false} FirstPartIs(t: bytes, b: bytes)
    requires COMMA !in t && (b == [] || b[0] == COMMA)
    ensures SplitComma(t + b)[0] == t
  {
    if t == [] {
      assert t + b == b;
    } else {
      assert (t + b)[1..] == t[1..] + b && t[0] in t;
      FirstPartIs(t[1..], b);
      assert t == [t[0]] + t[1..];
    }
  }

  lemma {:induction false} CutIsPart(a: bytes, t: bytes, b: bytes)
    requires Cut(a + (t + b), a, t, b)
    ensures t in SplitComma(a + (t + b))
    ensures a != [] ==> t in SplitComma(a + (t + b))[1..]
  {
    var s := a + (t + b);
    if a == [] {
      assert s == t + b;
      FirstPartIs(t, b);
    } else {
      assert s[1..] == a[1..] + (t + b);
      CutIsPart(a[1..], t, b);
      var rest := SplitComma(s[1..]);
      if a[0] == COMMA {
        assert SplitComma(s)[1..] == rest;
      } else {
        assert SplitComma(s)[1..] == rest[1..];
      }
    }
  }

  lemma CutBehind(s: bytes, a: bytes, t: bytes, b: bytes)
    requires s != [] && Cut(s[1..], a, t, b) && (a == [] ==> s[0] == COMMA)
    ensures Cut(s, [s[0]] + a, t, b)
  {
    assert s == [s[0]] + s[1..];
  }

  lemma CutAtStart(s: bytes, t: bytes, b: bytes)
    requires s != [] && Cut(s[1..], [], t, b) && s[0] != COMMA
    ensures Cut(s, [], [s[0]] + t, b)
  {
    assert s == [s[0]] + s[1..];
  }

  lemma {:induction false} PartIsCut(s: bytes, k: nat) returns (a: bytes, b: bytes)
    requires k < |SplitComma(s)|
    ensures Cut(s, a, SplitComma(s)[k], b) && (a == [] <==> k == 0)
  {
    if s == [] {
      a, b := [], [];
    } else {
      var rest := SplitComma(s[1..]);
      if s[0] == COMMA {
        if k == 0 {
          a, b := [], s;
        } else {
          a, b := PartIsCut(s[1..], k - 1);
          CutBehind(s, a, SplitComma(s)[k], b);
          a := [COMMA] + a;
        }
      } else {
        a, b := PartIsCut(s[1..], k);
        if k > 0 {
          CutBehind(s, a, SplitComma(s)[k], b);
          a := [s[0]] + a;
        } else {
          CutAtStart(s, rest[0], b);
        }
      }
    }
  }

  /** The comma-separated parts of a value. */
  lemma SplitCommaExactly(s: bytes, t: bytes)
    ensures t in SplitComma(s) <==> exists a, b :: Cut(s, a, t, b)
  {
    if t in SplitComma(s) {
      var k :| 0 <= k < |SplitComma(s)| && SplitComma(s)[k] == t;
      var a, b := PartIsCut(s, k);
    }
    forall a, b | Cut(s, a, t, b) ensures t in SplitComma(s) { CutIsPart(a, t, b); }
  }

  ghost predicate Blanks(s: bytes) {
    forall i :: 0 <= i < |s| ==> Blank(s[i])
  }

  ghost predicate Bare(s: bytes) {
    s == [] || (!Blank(s[0]) && !Blank(s[|s| - 1]))
  }

  lemma {:induction false} TrimLeftOf(l: bytes, s: bytes)
    requires Blanks(l) && (s == [] || !Blank(s[0]))
    ensures TrimLeft(l + s) == s
  {
    if l == [] {
      assert l + s == s;
    } else {
      assert (l + s)[1..] == l[1..] + s;
      TrimLeftOf(l[1..], s);
    }
  }

  lemma {:induction false} TrimRightOf(s: bytes, r: bytes)
    requires Blanks(r) && (s == [] || !Blank(s[|s| - 1]))
    ensures TrimRight(s + r) == s
  {
    if r == [] {
      assert s + r == s;
    } else {
      assert (s + r)[..|s + r| - 1] == s + r[..|r| - 1];
      TrimRightOf(s, r[..|r| - 1]);
    }
  }

  lemma {:induction false} TrimLeftSplit(s: bytes) returns (l: bytes)
    ensures s == l + TrimLeft(s) && Blanks(l) && (TrimLeft(s) == [] || !Blank(TrimLeft(s)[0]))
  {
    l := [];
    if s != [] && Blank(s[0]) {
      l := TrimLeftSplit(s[1..]);
      l := [s[0]] + l;
    }
  }

  lemma {:induction false} TrimRightSplit(s: bytes) returns (r: bytes)
    ensures s == TrimRight(s) + r && Blanks(r) && (TrimRight(s) == [] || !Blank(TrimRight(s)[|TrimRight(s)| - 1]))
  {
    r := [];
    if s != [] && Blank(s[|s| - 1]) {
      r := TrimRightSplit(s[..|s| - 1]);
      r := r + [s[|s| - 1]];
    }
  }

  ghost predicate Padded(s: bytes, l: bytes, core: bytes, r: bytes) {
    s == l + (core + r) && Blanks(l) && Blanks(r) && Bare(core)
  }

  lemma PaddedTrims(s: bytes, l: bytes, core: bytes, r: bytes)
    requires Padded(s, l, core, r)
    ensures TrimBlanks(s) == core
  {
    if core == [] {
      assert s == [] + (l + r);
      TrimRightOf([], l + r);
    } else {
      assert s == (l + core) + r;
      TrimRightOf(l + core, r);
      TrimLeftOf(l, core);
    }
  }

  lemma TrimsPadded(s: bytes) returns (l: bytes, r: bytes)
    ensures Padded(s, l, TrimBlanks(s), r)
  {
    r := TrimRightSplit(s);
    l := TrimLeftSplit(TrimRight(s));
    PaddedBy(s, TrimRight(s), l, TrimBlanks(s), r);
  }

  lemma PaddedBy(s: bytes, front: bytes, l: bytes, core: bytes, r: bytes)
    requires s == front + r && front == l + core && Blanks(l) && Blanks(r)
    requires (front == [] || !Blank(front[|front| - 1])) && (core == [] || !Blank(core[0]))
    ensures Padded(s, l, core, r)
  {
    if core != [] { assert front[|front| - 1] == core[|core| - 1]; }
  }

  // --- when an upgrade is passed on ---

  /** One of the parts of a `Connection` value is the word `upgrade`, in any case. */
  ghost predicate AsksUpgrade(value: bytes) {
    && (forall i :: 0 <= i < |value| ==> 32 <= value[i] < 127 || value[i] == 9)
    && exists a, l, word, r, b :: IsUpgradeWord(word) && Cut(value, a, l + (word + r), b) && Blanks(l) && Blanks(r)
  }

  predicate IsUpgradeWord(word: bytes) {
    Lowercase(word) == Ascii("upgrade")
  }

  lemma UpgradeWord(word: bytes)
    ensures HeaderName(word) == Some(Upgrade()) <==> IsUpgradeWord(word)
    ensures IsUpgradeWord(word) ==> Bare(word)
  {
    var u := Ascii("upgrade");
    assert u == [117, 112, 103, 114, 97, 100, 101];
    if IsUpgradeWord(word) {
      forall i | 0 <= i < |word| ensures TokenByte(word[i]) && !Blank(word[i]) {
        assert Lowercase(word)[i] == Lower(word[i]) == u[i];
      }
    }
  }

  lemma AsksUpgradeExactly(value: bytes)
    ensures Names(value, Upgrade()) <==> AsksUpgrade(value)
  {
    if Names(value, Upgrade()) {
      var t :| t in Tokens(value) && HeaderName(TrimBlanks(t)) == Some(Upgrade());
      SplitCommaExactly(value, t);
      var a, b :| Cut(value, a, t, b);
      var l, r := TrimsPadded(t);
      UpgradeWord(TrimBlanks(t));
      assert Cut(value, a, l + (TrimBlanks(t) + r), b);
    }
    if AsksUpgrade(value) {
      var a, l, word, r, b :| IsUpgradeWord(word) && Cut(value, a, l + (word + r), b) && Blanks(l) && Blanks(r);
      UpgradeWord(word);
      PaddedTrims(l + (word + r), l, word, r);
      SplitCommaExactly(value, l + (word + r));
    }
  }

  /** The first header of this name, wherever it stands. */
  ghost predicate FirstIs(h: Headers, name: bytes, v: bytes) {
    exists i :: 0 <= i < |h| && h[i] == Header(name, v) && forall j :: 0 <= j < i ==> h[j].name != name
  }

  lemma {:induction false} FirstFound(h: Headers, name: bytes, v: bytes)
    ensures Get(h, name) == Some(v) <==> FirstIs(h, name, v)
  {
    if h != [] {
      FirstFound(h[1..], name, v);
      assert forall j :: 0 < j < |h| ==> h[j] == h[1..][j - 1];
      if h[0].name == name {
        if h[0].value == v { assert h[0] == Header(name, v); }
      } else {
        if FirstIs(h[1..], name, v) {
          var i :| 0 <= i < |h[1..]| && h[1..][i] == Header(name, v) && forall j :: 0 <= j < i ==> h[1..][j].name != name;
          assert h[i + 1] == Header(name, v);
        }
        if FirstIs(h, name, v) {
          var i :| 0 <= i < |h| && h[i] == Header(name, v) && forall j :: 0 <= j < i ==> h[j].name != name;
          assert h[1..][i - 1] == Header(name, v);
          assert forall j :: 0 <= j < i - 1 ==> h[1..][j] == h[j + 1];
        }
      }
    }
  }

  /** The names the proxy writes itself. */
  function Written(): set<bytes> {
    {HopCountName(), PolicyTokenName(), HostName(), ForwardedHostName(), ForwardedProtoName(), ForwardedForName()}
  }

  /** The two headers have the same headers apart from those the proxy writes. */
  ghost predicate SameBeside(h: Headers, h': Headers) {
    forall x: Header :: x.name !in Written() ==> (x in h <==> x in h')
  }

  lemma InsertWritten(h: Headers, name: bytes, value: bytes)
    requires name in Written()
    ensures SameBeside(h, Insert(h, name, value))
  {
  }

  lemma SameBesideTwice(a: Headers, b: Headers, c: Headers)
    requires SameBeside(a, b) && SameBeside(b, c)
    ensures SameBeside(a, c)
  {
  }

  lemma StampedBeside(h: Headers, hops: nat, token: Option<bytes>)
    ensures SameBeside(h, Stamped(h, hops, token))
  {
    var h2 := Insert(h, HopCountName(), Decimal(hops + 1));
    InsertWritten(h, HopCountName(), Decimal(hops + 1));
    if token.Some? {
      InsertWritten(h2, PolicyTokenName(), token.value);
      SameBesideTwice(h, h2, Insert(h2, PolicyTokenName(), token.value));
    }
  }

  lemma DescribedBeside(h: Headers, original: Option<bytes>, link: Link)
    ensures SameBeside(h, Described(h, original, link))
  {
    var h1 := if link.authority.Some? then Insert(h, HostName(), link.authority.value) else h;
    if link.authority.Some? { InsertWritten(h, HostName(), link.authority.value); }
    var h2 := if original.Some? && ToStr(original.value).Some? then Insert(h1, ForwardedHostName(), original.value) else h1;
    if original.Some? { InsertWritten(h1, ForwardedHostName(), original.value); }
    SameBesideTwice(h, h1, h2);
    var h3 := Insert(h2, ForwardedProtoName(), link.proto);
    InsertWritten(h2, ForwardedProtoName(), link.proto);
    SameBesideTwice(h, h2, h3);
    InsertWritten(h3, ForwardedForName(), ForwardedFor(h3, link));
    SameBesideTwice(h, h3, Described(h, original, link));
  }

  /** Apart from what the proxy writes, the sanitised headers are sent. */
  lemma SentBeside(h: Headers, token: Option<bytes>, link: Link, up: Option<bytes>)
    requires Forward(h, token, link).Some? && up == if link.canUpgrade then RequestedUpgrade(h) else None
    ensures SameBeside(Sanitized(h, up), Forward(h, token, link).value)
  {
    var h1 := Sanitized(h, up);
    var h2 := Stamped(h1, Hops(h), token);
    StampedBeside(h1, Hops(h), token);
    DescribedBeside(h2, Get(h, HostName()), link);
    SameBesideTwice(h1, h2, Forward(h, token, link).value);
  }

  lemma HandshakeIsNotWritten()
    ensures Upgrade() !in Written() && Connection() !in Written() && Upgrade() != Connection()
  {
    assert |Upgrade()| == 7 && |Connection()| == 10;
    assert |HopCountName()| == 17 && |PolicyTokenName()| == 19 && |HostName()| == 4;
    assert |ForwardedHostName()| == 16 && |ForwardedProtoName()| == 17 && |ForwardedForName()| == 15;
  }

  /** The message asks for an upgrade: a `Connection` header has `upgrade` among its parts. */
  ghost predicate UpgradeAsked(h: Headers) {
    exists x :: x in h && x.name == Ascii("connection") && AsksUpgrade(x.value)
  }

  lemma UpgradeAskedExactly(h: Headers)
    ensures Upgrade() in NominatedIn(h) <==> UpgradeAsked(h)
  {
    forall x | x in h ensures Names(x.value, Upgrade()) <==> AsksUpgrade(x.value) { AsksUpgradeExactly(x.value); }
  }

  lemma UpgradeInSanitized(h: Headers, up: Option<bytes>, out: Headers)
    requires SameBeside(Sanitized(h, up), out)
    ensures forall v :: Header(Upgrade(), v) in out <==> up == Some(v)
    ensures forall v :: Header(Connection(), v) in out <==> up.Some? && v == Upgrade()
  {
    SanitizedExactly(h, up);
    HandshakeIsNotWritten();
    HandshakeIsHopByHop(h);
    assert forall v :: Header(Upgrade(), v) in Handshake(up) <==> up == Some(v);
    assert forall v :: Header(Connection(), v) in Handshake(up) <==> up.Some? && v == Upgrade();
  }

  lemma HandshakeIsHopByHop(h: Headers)
    ensures !EndToEnd(h, Upgrade()) && !EndToEnd(h, Connection())
  {
  }

  /** What is sent holds `Upgrade: v` exactly when the connection can hand over an upgrade, a
      `Connection` header asked for one, and `v` is what the first `Upgrade` header said. It
      holds `Connection: upgrade` beside it, and neither header otherwise or in any other form. */
  lemma UpgradePassedExactly(h: Headers, token: Option<bytes>, link: Link, v: bytes)
    requires Forward(h, token, link).Some?
    ensures var out := Forward(h, token, link).value;
            && (Header(Upgrade(), v) in out <==> link.canUpgrade && UpgradeAsked(h) && FirstIs(h, Upgrade(), v))
            && (Header(Connection(), v) in out <==> v == Upgrade() && exists u :: Header(Upgrade(), u) in out)
  {
    var up := if link.canUpgrade then RequestedUpgrade(h) else None;
    var out := Forward(h, token, link).value;
    SentBeside(h, token, link, up);
    UpgradeInSanitized(h, up, out);
    UpgradeAskedExactly(h);
    FirstFound(h, Upgrade(), v);
    if up.Some? { assert Header(Upgrade(), up.value) in out; }
  }

  /** Every other header is sent as it came exactly when it is end-to-end. */
  lemma OthersPass(h: Headers, token: Option<bytes>, link: Link, x: Header)
    requires Forward(h, token, link).Some? && x.name !in Written() && x.name != Upgrade() && x.name != Connection()
    ensures x in Forward(h, token, link).value <==> x in h && EndToEnd(h, x.name)
  {
    var up := if link.canUpgrade then RequestedUpgrade(h) else None;
    SentBeside(h, token, link, up);
    SanitizedExactly(h, up);
  }

  /** The headers that only concern one connection, beside the handshake. */
  function OneConnection(): set<bytes> {
    {Ascii("keep-alive"), Ascii("proxy-connection"), Ascii("te"), Ascii("proxy-authenticate"),
     Ascii("proxy-authorization"), Ascii("trailer"), Ascii("transfer-encoding")}
  }

  /** They are never sent on, whatever they say. */
  lemma NeverPassed(h: Headers, token: Option<bytes>, link: Link, x: Header)
    requires Forward(h, token, link).Some? && x in Forward(h, token, link).value && x.name !in Written()
    ensures x.name !in OneConnection()
  {
    HandshakeApart();
    ConnectionHeaders();
    if x.name in OneConnection() {
      OthersPass(h, token, link, x);
    }
  }

  lemma ConnectionHeaders()
    ensures OneConnection() <= HopByHop()
  {
  }

  lemma HandshakeApart()
    ensures Upgrade() !in OneConnection() && Connection() !in OneConnection()
  {
    assert |Upgrade()| == 7 && Upgrade()[0] == 117 && |Connection()| == 10 && Connection()[0] == 99;
    assert Ascii("keep-alive")[0] == 107 && Ascii("trailer")[0] == 116;
    assert |Ascii("proxy-connection")| == 16 && |Ascii("te")| == 2 && |Ascii("proxy-authenticate")| == 18;
    assert |Ascii("proxy-authorization")| == 19 && |Ascii("transfer-encoding")| == 17;
  }

  // --- what the upstream is told ---

  lemma WrittenDiffer()
    ensures HostName() != ForwardedHostName() && HostName() != ForwardedProtoName() && HostName() != ForwardedForName()
    ensures ForwardedHostName() != ForwardedProtoName() && ForwardedHostName() != ForwardedForName()
    ensures ForwardedProtoName() != ForwardedForName()
  {
    assert |HostName()| == 4 && |ForwardedHostName()| == 16 && |ForwardedProtoName()| == 17 && |ForwardedForName()| == 15;
  }

  lemma InsertSome(h: Headers, name: bytes, value: Option<bytes>, other: bytes)
    ensures Get(if value.Some? then Insert(h, name, value.value) else h, other)
         == if value.Some? && other == name then value else Get(h, other)
  {
    if value.Some? { GetInsert(h, name, value.value, other); }
  }

  lemma ClientChain(h: Headers, h3: Headers, link: Link)
    requires Get(h3, ForwardedForName()) == Get(h, ForwardedForName())
    ensures ForwardedFor(h3, link) == Clients(Get(h, ForwardedForName()), link.clientIp)
  {
  }

  /** The client, behind those that were named before. */
  function Clients(before: Option<bytes>, client: bytes): bytes {
    match before
    case Some(others) => if ToStr(others).Some? then others + ([44, 32] + client) else client
    case None => client
  }

  /** What the upstream finds under a name: the target's authority as the host, the host the
      client asked for, the scheme, the chain of client addresses; and otherwise what `h` says. */
  lemma DescribedSays(h: Headers, original: Option<bytes>, link: Link, name: bytes)
    ensures Get(Described(h, original, link), name) ==
              if name == ForwardedForName() then Some(Clients(Get(h, ForwardedForName()), link.clientIp))
              else if name == ForwardedProtoName() then Some(link.proto)
              else if name == ForwardedHostName() && original.Some? && ToStr(original.value).Some? then original
              else if name == HostName() && link.authority.Some? then link.authority
              else Get(h, name)
  {
    WrittenDiffer();
    var seen := if original.Some? && ToStr(original.value).Some? then original else None;
    var h1 := if link.authority.Some? then Insert(h, HostName(), link.authority.value) else h;
    var h2 := if seen.Some? then Insert(h1, ForwardedHostName(), seen.value) else h1;
    var h3 := Insert(h2, ForwardedProtoName(), link.proto);
    DescribedStep(h, link, seen, name, h1, h2, h3);
    DescribedStep(h, link, seen, ForwardedForName(), h1, h2, h3);
    ClientChain(h, h3, link);
    GetInsert(h3, ForwardedForName(), ForwardedFor(h3, link), name);
    assert Described(h, original, link) == Insert(h3, ForwardedForName(), ForwardedFor(h3, link));
  }

  lemma DescribedStep(h: Headers, link: Link, seen: Option<bytes>, name: bytes, h1: Headers, h2: Headers, h3: Headers)
    requires h1 == if link.authority.Some? then Insert(h, HostName(), link.authority.value) else h
    requires h2 == if seen.Some? then Insert(h1, ForwardedHostName(), seen.value) else h1
    requires h3 == Insert(h2, ForwardedProtoName(), link.proto)
    ensures Get(h3, name) ==
              if name == ForwardedProtoName() then Some(link.proto)
              else if name == ForwardedHostName() && seen.Some? then seen
              else if name == HostName() && link.authority.Some? then link.authority
              else Get(h, name)
  {
    WrittenDiffer();
    InsertSome(h, HostName(), link.authority, name);
    InsertSome(h1, ForwardedHostName(), seen, name);
    GetInsert(h2, ForwardedProtoName(), link.proto, name);
  }

  lemma ClientsNameApart()
    ensures ForwardedForName() !in HopByHop() && ForwardedForName() != HopCountName() && ForwardedForName() != PolicyTokenName()
  {
    DescribedNames();
    GatewayNames();
    HandshakeIsNotWritten();
    HandshakeApart();
    assert ForwardedForName()[0] == 120;
    ConnectionInitials();
  }

  lemma ConnectionInitials()
    ensures forall n :: n in HopByHop() ==> n != [] && n[0] != 120
  {
  }

  /** The addresses that came in survive sanitising unless a `Connection` header names them. */
  lemma ClientsSurvive(h: Headers, up: Option<bytes>, hops: nat, token: Option<bytes>)
    ensures Get(Stamped(Sanitized(h, up), hops, token), ForwardedForName())
         == if Nominated(h, ForwardedForName()) then None else Get(h, ForwardedForName())
  {
    var name := ForwardedForName();
    var s := Sanitized(h, up);
    ClientsNameApart();
    GetWithout(h, NominatedIn(h) + HopByHop(), name);
    if up.Some? {
      GetInsert(Stripped(h), Upgrade(), up.value, name);
      GetInsert(Insert(Stripped(h), Upgrade(), up.value), Connection(), Upgrade(), name);
    }
    var h2 := Insert(s, HopCountName(), Decimal(hops + 1));
    GetInsert(s, HopCountName(), Decimal(hops + 1), name);
    if token.Some? { GetInsert(h2, PolicyTokenName(), token.value, name); }
  }

  /** The upstream is addressed by its own authority, and told the host the client asked for, the
      scheme, and the client behind any others that were named. */
  lemma UpstreamIsTold(h: Headers, token: Option<bytes>, link: Link)
    requires Forward(h, token, link).Some?
    ensures var out, host := Forward(h, token, link).value, Get(h, HostName());
            && (link.authority.Some? ==> Get(out, HostName()) == link.authority)
            && (host.Some? && ToStr(host.value).Some? ==> Get(out, ForwardedHostName()) == host)
            && Get(out, ForwardedProtoName()) == Some(link.proto)
            && Get(out, ForwardedForName()) == Some(Clients(
                 if Nominated(h, ForwardedForName()) then None else Get(h, ForwardedForName()), link.clientIp))
  {
    var up := if link.canUpgrade then RequestedUpgrade(h) else None;
    var h1 := Stamped(Sanitized(h, up), Hops(h), token);
    WrittenDiffer();
    ClientsSurvive(h, up, Hops(h), token);
    DescribedSays(h1, Get(h, HostName()), link, HostName());
    DescribedSays(h1, Get(h, HostName()), link, ForwardedHostName());
    DescribedSays(h1, Get(h, HostName()), link, ForwardedProtoName());
    DescribedSays(h1, Get(h, HostName()), link, ForwardedForName());
  }

  /** Only what is sent to the UI carries a token, and it is one for the policy the request was
      admitted under. */
  lemma OnlyTheUiGetsAToken(h: Headers, upstream: Upstream, d: Decision, mac: Mac, origin: bytes, now: nat, link: Link)
    requires IsSafe(d.policy.name)
    requires Forward(Ingress(h), TokenFor(upstream, d, mac, origin, now), link).Some?
    ensures var out := Forward(Ingress(h), TokenFor(upstream, d, mac, origin, now), link).value;
            Get(out, PolicyTokenName()) ==
              if upstream == Ui then Some(Sign(mac, d.policy.name, origin, now + 300)) else None
  {
    ForwardedNamespace(h, TokenFor(upstream, d, mac, origin, now), link);
    TokenIsHeaderSafe(mac, d.policy.name, origin, now + TOKEN_TTL_SECS);
  }

  // --- how long it is forwarded ---

  /** The count that came in: the number the first header of this name is, or nothing. */
  lemma CountThatCameIn(h: Headers, n: nat)
    requires n < U64
    ensures FirstIs(h, HopCountName(), Decimal(n)) ==> Hops(h) == n
    ensures (forall x :: x in h ==> x.name != HopCountName()) ==> Hops(h) == 0
  {
    FirstFound(h, HopCountName(), Decimal(n));
    ParseDecimal(n);
    if forall x :: x in h ==> x.name != HopCountName() { AbsentIsNotFound(h, HopCountName()); }
  }

  /** A request is forwarded exactly as long as fewer than four gateways have forwarded it. */
  lemma ForwardedExactly(h: Headers, token: Option<bytes>, link: Link)
    ensures Forward(h, token, link).Some? <==> Hops(h) < 4
  {
  }
}
