/** Policy tokens (panoptikon/src/policy_token.rs). */
module PolicyToken {
  // A token is `<policy>.<expiry>.<origin>.<tag>`, signed over everything before the tag. The MAC
  // is an arbitrary function of the message; its key is part of that function.

  import opened Prelude
  import opened Encodings

  type Mac = bytes -> bytes

  const TOKEN_TTL_SECS: nat := 300

  datatype TokenError = MalformedToken | BadHmac | Expired

  datatype Claims = Claims(policy: bytes, origin: bytes)

  function Message(policy: bytes, origin: bytes, expiry: nat): bytes {
    policy + [DOT] + Decimal(expiry) + [DOT] + Base64(origin)
  }

  function Sign(mac: Mac, policy: bytes, origin: bytes, expiry: nat): bytes {
    var message := Message(policy, origin, expiry);
    message + [DOT] + Hex(mac(message))
  }

  function Mint(mac: Mac, policy: bytes, origin: bytes, now: nat): bytes {
    Sign(mac, policy, origin, now + TOKEN_TTL_SECS)
  }

  /** The position of the last dot, or the length when there is none. */
  function LastDot(s: bytes): (i: nat)
    ensures i <= |s|
    ensures i < |s| ==> s[i] == DOT && DOT !in s[i + 1..]
    ensures i == |s| ==> DOT !in s
  {
    if s == [] then 0
    else if s[|s| - 1] == DOT then |s| - 1
    else
      var i := LastDot(s[..|s| - 1]);
      if i == |s| - 1 then
        assert s == s[..|s| - 1] + [s[|s| - 1]];
        |s|
      else
        assert s[i + 1..] == s[..|s| - 1][i + 1..] + [s[|s| - 1]];
        i
  }

  /** The four segments of a token, split from the right. */
  datatype Segments = Segments(name: bytes, expiry: bytes, origin: bytes, tag: bytes, signed: bytes)

  function Split(token: bytes): Option<Segments> {
    var i := LastDot(token);
    if i == |token| then None else
    var signed := token[..i];
    var j := LastDot(signed);
    if j == |signed| then None else
    var head := signed[..j];
    var k := LastDot(head);
    if k == |head| then None else
    Some(Segments(head[..k], head[k + 1..], signed[j + 1..], token[i + 1..], signed))
  }

  function VerifyAt(mac: Mac, token: bytes, now: nat): Result<Claims, TokenError> {
    var s := Split(token);
    if s.None? || s.value.name == [] then Err(MalformedToken) else
    var expiry := ParseU64(s.value.expiry);
    if expiry.None? then Err(MalformedToken) else
    var origin := ParseBase64(s.value.origin);
    if origin.None? || !IsUtf8(origin.value) || origin.value == [] then Err(MalformedToken) else
    var tag := ParseHex(s.value.tag);
    if tag.None? then Err(MalformedToken)
    else if tag.value != mac(s.value.signed) then Err(BadHmac)
    else if expiry.value < now then Err(Expired)
    else Ok(Claims(s.value.name, origin.value))
  }

  lemma LastDotOf(head: bytes, tail: bytes)
    requires DOT !in tail
    ensures LastDot(head + [DOT] + tail) == |head|
    ensures (head + [DOT] + tail)[..|head|] == head
    ensures (head + [DOT] + tail)[|head| + 1..] == tail
  {
    AroundDot(head, tail);
    LastDotUnique(head + [DOT] + tail, |head|);
  }

  lemma AroundDot(head: bytes, tail: bytes)
    ensures var s := head + [DOT] + tail;
            |s| > |head| && s[|head|] == DOT && s[..|head|] == head && s[|head| + 1..] == tail
  {
  }

  lemma {:induction false} LastDotUnique(s: bytes, i: nat)
    requires i < |s| && s[i] == DOT && DOT !in s[i + 1..]
    ensures LastDot(s) == i
  {
    var n := |s| - 1;
    if i < n {
      assert s[i + 1..][n - i - 1] == s[n];
      assert s[..n][i + 1..] == s[i + 1..][..n - i - 1];
      LastDotUnique(s[..n], i);
    }
  }

  lemma DecimalHasNoDot(n: nat)
    ensures DOT !in Decimal(n)
  {
  }

  lemma SplitMessage(policy: bytes, origin: bytes, expiry: nat, tag: bytes)
    requires DOT !in tag
    ensures Split(Message(policy, origin, expiry) + [DOT] + tag)
         == Some(Segments(policy, Decimal(expiry), Base64(origin), tag, Message(policy, origin, expiry)))
  {
    DecimalHasNoDot(expiry);
    LastDotOf(Message(policy, origin, expiry), tag);
    Base64IsPlain(origin);
    LastDotOf(policy + [DOT] + Decimal(expiry), Base64(origin));
    LastDotOf(policy, Decimal(expiry));
  }

  /** A signed token verifies: it yields exactly the policy name (dots and all) and the origin
      it was signed for up to its expiry, and is expired after it. */
  lemma SignedTokenVerifies(mac: Mac, policy: bytes, origin: bytes, expiry: nat, now: nat)
    requires policy != [] && origin != [] && IsUtf8(origin) && expiry < U64
    ensures VerifyAt(mac, Sign(mac, policy, origin, expiry), now)
         == if now <= expiry then Ok(Claims(policy, origin)) else Err(Expired)
  {
    var message := Message(policy, origin, expiry);
    SplitMessage(policy, origin, expiry, Hex(mac(message)));
    ParseDecimal(expiry);
    ParseOfBase64(origin);
    ParseOfHex(mac(message));
  }

  /** A token signed for an empty name or origin never verifies, so the two conditions above
      are exact. */
  lemma EmptyClaimsNeverVerify(mac: Mac, policy: bytes, origin: bytes, expiry: nat, now: nat)
    requires expiry < U64
    requires policy == [] || origin == []
    ensures VerifyAt(mac, Sign(mac, policy, origin, expiry), now) == Err(MalformedToken)
  {
    var message := Message(policy, origin, expiry);
    SplitMessage(policy, origin, expiry, Hex(mac(message)));
    ParseDecimal(expiry);
    ParseOfBase64(origin);
  }

  /** The signed message determines the claims. */
  lemma MessageIsInjective(p: bytes, o: bytes, e: nat, p': bytes, o': bytes, e': nat)
    requires Message(p, o, e) == Message(p', o', e')
    requires e < U64 && e' < U64
    ensures p == p' && o == o' && e == e'
  {
    SplitMessage(p, o, e, []);
    SplitMessage(p', o', e', []);
    ParseDecimal(e);
    ParseDecimal(e');
    ParseOfBase64(o);
    ParseOfBase64(o');
  }

  /** An accepted token carries a valid tag over its signed part, and if that part came from
      `Sign`, it carries exactly the claims given to that `Sign`, unexpired. */
  lemma AcceptedTokenIsGenuine(mac: Mac, token: bytes, now: nat)
    requires VerifyAt(mac, token, now).Ok?
    ensures var s := Split(token).value;
            && token == s.signed + [DOT] + s.tag
            && ParseHex(s.tag) == Some(mac(s.signed))
            && forall p: bytes, o: bytes, e: nat :: e < U64 && s.signed == Message(p, o, e) ==>
                 VerifyAt(mac, token, now).value == Claims(p, o) && now <= e
  {
    var s := Split(token).value;
    TagIsLast(token);
    forall p: bytes, o: bytes, e: nat | e < U64 && s.signed == Message(p, o, e)
      ensures VerifyAt(mac, token, now).value == Claims(p, o) && now <= e
    {
      AcceptedClaims(mac, Message(p, o, e) + [DOT] + s.tag, s.tag, p, o, e, now);
    }
  }

  lemma TagIsLast(token: bytes)
    requires Split(token).Some?
    ensures var s := Split(token).value; token == s.signed + [DOT] + s.tag && DOT !in s.tag
  {
    var i := LastDot(token);
    assert token == token[..i] + [DOT] + token[i + 1..];
  }

  lemma AcceptedClaims(mac: Mac, token: bytes, tag: bytes, p: bytes, o: bytes, e: nat, now: nat)
    requires DOT !in tag && e < U64 && token == Message(p, o, e) + [DOT] + tag
    ensures VerifyAt(mac, token, now).Ok? ==> VerifyAt(mac, token, now).value == Claims(p, o) && now <= e
  {
    SplitMessage(p, o, e, tag);
    ParseDecimal(e);
    ParseOfBase64(o);
  }
}
