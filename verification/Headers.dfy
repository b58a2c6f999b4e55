/** Header hygiene of the proxy (panoptikon/src/proxy.rs) and of the policy layer: what is
    removed, what is kept, and what the hop counter says. Names are stored in lower case. */
module Headers {
  import opened Prelude
  import Encodings

  datatype Header = Header(name: bytes, value: bytes)

  type Headers = seq<Header>

  // --- header maps ---

  function Get(h: Headers, name: bytes): Option<bytes> {
    if h == [] then None else if h[0].name == name then Some(h[0].value) else Get(h[1..], name)
  }

  /** The headers whose names are not in `gone`, in order. */
  function Without(h: Headers, gone: set<bytes>): (r: Headers)
    ensures forall x :: x in r <==> x in h && x.name !in gone
  {
    if h == [] then []
    else if h[0].name in gone then Without(h[1..], gone)
    else [h[0]] + Without(h[1..], gone)
  }

  function Insert(h: Headers, name: bytes, value: bytes): Headers {
    Without(h, {name}) + [Header(name, value)]
  }

  lemma {:induction false} WithoutConcat(a: Headers, b: Headers, gone: set<bytes>)
    ensures Without(a + b, gone) == Without(a, gone) + Without(b, gone)
  {
    if a == [] {
      assert a + b == b;
    } else {
      assert (a + b)[1..] == a[1..] + b;
      WithoutConcat(a[1..], b, gone);
    }
  }

  lemma {:induction false} WithoutTwice(h: Headers, a: set<bytes>, b: set<bytes>)
    ensures Without(Without(h, a), b) == Without(h, a + b)
  {
    if h != [] {
      WithoutTwice(h[1..], a, b);
      if h[0].name !in a {
        WithoutFirst(h[0], Without(h[1..], a), b);
      }
    }
  }

  lemma WithoutFirst(x: Header, h: Headers, gone: set<bytes>)
    ensures Without([x] + h, gone) == if x.name in gone then Without(h, gone) else [x] + Without(h, gone)
  {
    assert ([x] + h)[1..] == h;
  }

  lemma {:induction false} WithoutAll(h: Headers, gone: set<bytes>)
    requires forall x :: x in h ==> x.name in gone
    ensures Without(h, gone) == []
  {
    if h != [] { WithoutAll(h[1..], gone); }
  }

  lemma {:induction false} WithoutAbsent(h: Headers, gone: set<bytes>)
    requires forall x :: x in h ==> x.name !in gone
    ensures Without(h, gone) == h
  {
    if h != [] { WithoutAbsent(h[1..], gone); }
  }

  lemma {:induction false} GetConcat(a: Headers, b: Headers, name: bytes)
    ensures Get(a + b, name) == if Get(a, name).Some? then Get(a, name) else Get(b, name)
  {
    if a == [] {
      assert a + b == b;
    } else {
      assert (a + b)[1..] == a[1..] + b;
      GetConcat(a[1..], b, name);
    }
  }

  lemma {:induction false} GetWithout(h: Headers, gone: set<bytes>, name: bytes)
    ensures Get(Without(h, gone), name) == if name in gone then None else Get(h, name)
  {
    if h != [] {
      GetWithout(h[1..], gone, name);
      if h[0].name !in gone { assert Without(h, gone)[1..] == Without(h[1..], gone); }
    }
  }

  lemma GetInsert(h: Headers, name: bytes, value: bytes, other: bytes)
    ensures Get(Insert(h, name, value), other) == if other == name then Some(value) else Get(h, other)
  {
    var last: Headers := [Header(name, value)];
    GetConcat(Without(h, {name}), last, other);
    GetWithout(h, {name}, other);
    assert Get(last, other) == if other == name then Some(value) else Get(last[1..], other);
    assert last[1..] == [];
  }

  // --- header text ---

  predicate Visible(b: byte) {
    32 <= b < 127 || b == 9
  }

  /** `HeaderValue::to_str`. */
  function ToStr(value: bytes): Option<bytes> {
    if forall i :: 0 <= i < |value| ==> Visible(value[i]) then Some(value) else None
  }

  const COMMA: byte := 44

  function SplitComma(s: bytes): (parts: seq<bytes>)
    ensures parts != []
  {
    if s == [] then [[]]
    else
      var rest := SplitComma(s[1..]);
      if s[0] == COMMA then [[]] + rest else [[s[0]] + rest[0]] + rest[1..]
  }

  predicate Blank(b: byte) {
    b == 32 || b == 9
  }

  function TrimLeft(s: bytes): bytes {
    if s != [] && Blank(s[0]) then TrimLeft(s[1..]) else s
  }

  function TrimRight(s: bytes): bytes {
    if s != [] && Blank(s[|s| - 1]) then TrimRight(s[..|s| - 1]) else s
  }

  function TrimBlanks(s: bytes): bytes {
    TrimLeft(TrimRight(s))
  }

  function Lower(b: byte): byte {
    if 65 <= b <= 90 then b + 32 else b
  }

  function Lowercase(s: bytes): (r: bytes)
    ensures |r| == |s|
  {
    seq(|s|, i requires 0 <= i < |s| => Lower(s[i]))
  }

  /** The characters of a token, section 5.6.2 of RFC 9110. */
  predicate TokenByte(b: byte) {
    48 <= b <= 57 || 65 <= b <= 90 || 94 <= b <= 122 || b == 33 || 35 <= b <= 39
    || b == 42 || b == 43 || b == 45 || b == 46 || b == 124 || b == 126
  }

  /** `HeaderName::from_bytes`. */
  function HeaderName(s: bytes): Option<bytes> {
    if s != [] && forall i :: 0 <= i < |s| ==> TokenByte(s[i]) then Some(Lowercase(s)) else None
  }

  function Tokens(value: bytes): seq<bytes> {
    match ToStr(value) case None => [] case Some(text) => SplitComma(text)
  }

  // --- hop-by-hop headers ---

  function Connection(): bytes { Encodings.Ascii("connection") }
  function Upgrade(): bytes { Encodings.Ascii("upgrade") }

  /** The fixed set: `Connection` itself, what section 7.6.1 of RFC 9110 lists with it, and the
      legacy `Keep-Alive` and `Proxy-Connection`. */
  function HopByHop(): set<bytes> {
    {Connection(), Encodings.Ascii("keep-alive"), Encodings.Ascii("proxy-connection"), Encodings.Ascii("proxy-authenticate"),
     Encodings.Ascii("proxy-authorization"), Encodings.Ascii("te"), Encodings.Ascii("trailer"), Encodings.Ascii("transfer-encoding"), Upgrade()}
  }

  /** The message's own `Connection` headers nominate `name`. */
  ghost predicate Nominated(h: Headers, name: bytes) {
    exists x :: x in h && x.name == Connection() && Names(x.value, name)
  }

  /** One of the comma-separated tokens of `value` is `name`. */
  ghost predicate Names(value: bytes, name: bytes) {
    exists t :: t in Tokens(value) && HeaderName(TrimBlanks(t)) == Some(name)
  }

  /** What may be forwarded. */
  ghost predicate EndToEnd(h: Headers, name: bytes) {
    name !in HopByHop() && !Nominated(h, name)
  }

  /** The nominated names, as the loop over the `Connection` values collects them. */
  function NominatedIn(h: Headers): (names: set<bytes>)
    ensures forall n :: n in names <==> Nominated(h, n)
  {
    if h == [] then {}
    else
      var first := if h[0].name == Connection() then NamesIn(Tokens(h[0].value)) else {};
      var rest := NominatedIn(h[1..]);
      assert h == [h[0]] + h[1..];
      assert forall n :: n in rest ==> Nominated(h, n) by { NominatedTail(h); }
      first + rest
  }

  lemma NominatedTail(h: Headers)
    requires h != []
    ensures forall n :: Nominated(h[1..], n) ==> Nominated(h, n)
  {
    forall n | Nominated(h[1..], n) ensures Nominated(h, n) {
      var x :| x in h[1..] && x.name == Connection() && Names(x.value, n);
      assert x in h;
    }
  }

  function NamesIn(tokens: seq<bytes>): (names: set<bytes>)
    ensures forall n :: n in names <==> exists t :: t in tokens && HeaderName(TrimBlanks(t)) == Some(n)
  {
    if tokens == [] then {}
    else
      var n := HeaderName(TrimBlanks(tokens[0]));
      assert tokens == [tokens[0]] + tokens[1..];
      (if n.Some? then {n.value} else {}) + NamesIn(tokens[1..])
  }

  /** `strip_hop_by_hop_headers`: removing name after name leaves exactly the end-to-end ones. */
  method StripHopByHop(h: Headers) returns (r: Headers)
    ensures r == Without(h, NominatedIn(h) + HopByHop())
    ensures forall x :: x in r <==> x in h && EndToEnd(h, x.name)
  {
    r := RemoveAll(h, NominatedIn(h));
    r := RemoveAll(r, HopByHop());
    WithoutTwice(h, NominatedIn(h), HopByHop());
  }

  /** Removing name after name. */
  method RemoveAll(h: Headers, names: set<bytes>) returns (r: Headers)
    ensures r == Without(h, names)
  {
    r := h;
    var todo := names;
    ghost var gone: set<bytes> := {};
    WithoutAbsent(h, {});
    while todo != {}
      invariant gone + todo == names && r == Without(h, gone)
      decreases todo
    {
      var n :| n in todo;
      WithoutTwice(h, gone, {n});
      r, todo, gone := Without(r, {n}), todo - {n}, gone + {n};
    }
    assert gone == names;
  }

  function Stripped(h: Headers): Headers {
    Without(h, NominatedIn(h) + HopByHop())
  }

  /** `sanitize_proxy_headers`. */
  function Sanitized(h: Headers, upgrade: Option<bytes>): Headers {
    match upgrade
    case None => Stripped(h)
    case Some(protocol) => Insert(Insert(Stripped(h), Upgrade(), protocol), Connection(), Upgrade())
  }

  /** The pair that passes an upgrade on to the next hop. */
  function Handshake(upgrade: Option<bytes>): Headers {
    match upgrade
    case None => []
    case Some(protocol) => [Header(Upgrade(), protocol), Header(Connection(), Upgrade())]
  }

  lemma StrippedNominatesNothing(h: Headers)
    ensures NominatedIn(Stripped(h)) == {}
    ensures forall x :: x in Stripped(h) ==> x.name !in HopByHop()
  {
    var s := Stripped(h);
    assert forall x :: x in s ==> x.name != Connection();
    forall n ensures n !in NominatedIn(s) {
      assert !Nominated(s, n);
    }
  }

  /** Exactly the end-to-end headers survive, in their order, plus the handshake pair when an
      upgrade is passed on. */
  lemma SanitizedExactly(h: Headers, upgrade: Option<bytes>)
    ensures var r := Sanitized(h, upgrade);
            && Without(r, HopByHop()) == Stripped(h)
            && (forall x :: x in r <==> ((x in h && EndToEnd(h, x.name)) || x in Handshake(upgrade)))
  {
    StrippedNominatesNothing(h);
    var s := Stripped(h);
    WithoutAbsent(s, HopByHop());
    if upgrade.Some? {
      PairLast(s, upgrade.value);
      WithoutConcat(s, Handshake(upgrade), HopByHop());
      WithoutAll(Handshake(upgrade), HopByHop());
      assert s + [] == s;
    }
  }

  lemma NamesDiffer()
    ensures Connection() != Upgrade()
  {
    assert |Connection()| == 10 && |Upgrade()| == 7;
  }

  /** On stripped headers the handshake pair is simply appended. */
  lemma PairLast(s: Headers, protocol: bytes)
    requires forall x :: x in s ==> x.name !in HopByHop()
    ensures Insert(Insert(s, Upgrade(), protocol), Connection(), Upgrade())
         == s + Handshake(Some(protocol))
  {
    NamesDiffer();
    WithoutAbsent(s, {Upgrade()});
    WithoutAbsent(s + [Header(Upgrade(), protocol)], {Connection()});
  }

  lemma UpgradeNames()
    ensures HeaderName(TrimBlanks(Upgrade())) == Some(Upgrade()) && Tokens(Upgrade()) == [Upgrade()]
  {
    var u := Upgrade();
    assert u == [117, 112, 103, 114, 97, 100, 101];
    assert TrimRight(u) == u && TrimLeft(u) == u;
    assert Lowercase(u) == u;
    NoComma(u);
  }

  lemma {:induction false} NoComma(s: bytes)
    requires COMMA !in s
    ensures SplitComma(s) == [s]
  {
    if s != [] {
      NoComma(s[1..]);
      assert s == [s[0]] + s[1..];
    }
  }

  /** Sanitising twice is sanitising once. */
  lemma SanitizedTwice(h: Headers, upgrade: Option<bytes>)
    ensures Sanitized(Sanitized(h, upgrade), upgrade) == Sanitized(h, upgrade)
  {
    StrippedNominatesNothing(h);
    var s := Stripped(h);
    var r := Sanitized(h, upgrade);
    if upgrade.Some? {
      PairLast(s, upgrade.value);
      HandshakeNominatesUpgrade(s, upgrade);
      WithoutConcat(s, Handshake(upgrade), HopByHop());
      WithoutAbsent(s, HopByHop());
      WithoutAll(Handshake(upgrade), HopByHop());
      assert s + [] == s;
      assert Stripped(r) == s;
    } else {
      WithoutAbsent(s, NominatedIn(s) + HopByHop());
    }
  }

  lemma HandshakeNominatesUpgrade(s: Headers, upgrade: Option<bytes>)
    requires upgrade.Some? && forall x :: x in s ==> x.name !in HopByHop()
    ensures NominatedIn(s + Handshake(upgrade)) + HopByHop() == HopByHop()
  {
    assert Connection() in HopByHop() && Upgrade() in HopByHop();
    HandshakeNames(s, upgrade.value);
    assert forall n :: n in NominatedIn(s + Handshake(upgrade)) ==> n == Upgrade();
  }

  lemma HandshakeNames(s: Headers, protocol: bytes)
    requires forall x :: x in s ==> x.name != Connection()
    ensures forall n :: Nominated(s + Handshake(Some(protocol)), n) ==> n == Upgrade()
  {
    NamesDiffer();
    OnlyUpgradeNamed();
    var r := s + Handshake(Some(protocol));
    forall n | Nominated(r, n) ensures n == Upgrade() {
      var x :| x in r && x.name == Connection() && Names(x.value, n);
      assert x in Handshake(Some(protocol));
    }
  }

  lemma OnlyUpgradeNamed()
    ensures forall n :: Names(Upgrade(), n) ==> n == Upgrade()
  {
    UpgradeNames();
  }

  /** `requested_upgrade`: a `Connection` header nominates `upgrade`, in any case, and
      `Upgrade` names a protocol. */
  function RequestedUpgrade(h: Headers): Option<bytes> {
    if Upgrade() in NominatedIn(h) then Get(h, Upgrade()) else None
  }

  // --- gateway headers ---

  function PanoptikonPrefix(): bytes { Encodings.Ascii("x-panoptikon-") }
  function HopCountName(): bytes { Encodings.Ascii("x-panoptikon-hops") }
  function PolicyTokenName(): bytes { Encodings.Ascii("x-panoptikon-policy") }

  predicate IsPanoptikon(name: bytes) {
    PanoptikonPrefix() <= name
  }

  /** `strip_inbound_panoptikon_headers`: only the hop count may come from outside. */
  function StripInbound(h: Headers): (r: Headers)
    ensures forall x :: x in r <==> x in h && (!IsPanoptikon(x.name) || x.name == HopCountName())
  {
    if h == [] then []
    else if IsPanoptikon(h[0].name) && h[0].name != HopCountName() then StripInbound(h[1..])
    else [h[0]] + StripInbound(h[1..])
  }

  lemma {:induction false} GetStripInbound(h: Headers, name: bytes)
    requires !IsPanoptikon(name) || name == HopCountName()
    ensures Get(StripInbound(h), name) == Get(h, name)
  {
    if h != [] {
      GetStripInbound(h[1..], name);
      if !(IsPanoptikon(h[0].name) && h[0].name != HopCountName()) {
        assert StripInbound(h)[1..] == StripInbound(h[1..]);
      }
    }
  }

  const MAX_PROXY_HOPS: nat := 4

  /** How often the message claims to have been forwarded; anything unreadable counts as 0. */
  function Hops(h: Headers): nat {
    match Get(h, HopCountName())
    case None => 0
    case Some(value) =>
      match ToStr(value)
      case None => 0
      case Some(text) => match Encodings.ParseU64(text) case None => 0 case Some(n) => n
  }

  lemma HopsOfInserted(h: Headers, n: nat)
    requires n < Encodings.U64
    ensures Hops(Insert(h, HopCountName(), Encodings.Decimal(n))) == n
  {
    GetInsert(h, HopCountName(), Encodings.Decimal(n), HopCountName());
    Encodings.ParseDecimal(n);
  }
}
