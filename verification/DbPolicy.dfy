/** Database scoping (panoptikon/src/policy.rs, validated as in config.rs). */
module DbPolicy {
  // Which database a request's parameters name, which databases a listing shows, and how a query
  // is rewritten.

  import opened Prelude
  import Encodings

  const MAX_DB_NAME_LEN: nat := 64

  // --- byte strings ---

  predicate SafeByte(b: byte) {
    97 <= b <= 122 || 65 <= b <= 90 || 48 <= b <= 57 || b == 46 || b == 95 || b == 45
  }

  predicate IsSafe(value: bytes) {
    0 < |value| <= MAX_DB_NAME_LEN && forall i :: 0 <= i < |value| ==> SafeByte(value[i])
  }

  predicate Contains(s: bytes, sub: bytes) {
    sub <= s || (s != [] && Contains(s[1..], sub))
  }

  /** `str::replace`: left to right, without overlaps. */
  function ReplaceAll(s: bytes, sub: bytes, with_: bytes): bytes
    requires sub != []
    decreases |s|
  {
    if s == [] then []
    else if sub <= s then with_ + ReplaceAll(s[|sub|..], sub, with_)
    else [s[0]] + ReplaceAll(s[1..], sub, with_)
  }

  // --- policies ---

  datatype AllowList = All | Listed(items: seq<bytes>)

  predicate Allows(allow: AllowList, value: bytes) {
    allow.All? || value in allow.items
  }

  datatype DbRules = DbRules(
    default: bytes, allow: AllowList, tenantDefault: Option<bytes>, template: Option<bytes>)

  function UsernameSlot(): bytes { Encodings.Ascii("{username}") }
  function DbSlot(): bytes { Encodings.Ascii("{db}") }

  datatype Denial = InvalidValue | InvalidTemplate | NotAllowed | NoPolicy | RulesetDenied
                  | DesktopRequired | InvalidUsername | InvalidUserHeader

  function RenderPrefix(template: bytes, username: bytes): Result<bytes, Denial> {
    if Contains(template, DbSlot()) then Err(InvalidTemplate)
    else
      var rendered := ReplaceAll(template, UsernameSlot(), username);
      if IsSafe(rendered) then Ok(rendered) else Err(InvalidValue)
  }

  /** `validate_db_policy`. */
  predicate ValidRules(p: DbRules) {
    && IsSafe(p.default)
    && (p.allow.All? ==> p.tenantDefault.None? && p.template.None?)
    && (p.allow.Listed? ==> (forall e :: e in p.allow.items ==> IsSafe(e)) && p.default in p.allow.items)
    && (p.tenantDefault.Some? ==>
          IsSafe(p.tenantDefault.value) && p.tenantDefault.value != p.default && p.template.Some?)
    && (p.template.Some? ==> RenderPrefix(p.template.value, Encodings.Ascii("user")).Ok?)
  }

  /** The prefix of a user's own databases, when the policy gives users any. */
  function PrefixOf(p: DbRules, username: Option<bytes>): Option<bytes> {
    if username.None? || p.template.None? then None
    else match RenderPrefix(p.template.value, username.value)
      case Ok(prefix) => Some(prefix)
      case Err(_) => None
  }

  // --- which users a validated template serves ---

  predicate AllSafe(s: bytes) {
    forall i :: 0 <= i < |s| ==> SafeByte(s[i])
  }

  /** How often `ReplaceAll` replaces `sub`. */
  function Slots(s: bytes, sub: bytes): nat
    requires sub != []
    decreases |s|
  {
    if s == [] then 0 else if sub <= s then 1 + Slots(s[|sub|..], sub) else Slots(s[1..], sub)
  }

  /** A template that is safe with one name in its slots is safe with any other safe name. */
  lemma {:induction false} SafeForAll(s: bytes, sub: bytes, v: bytes, u: bytes)
    requires sub != [] && AllSafe(ReplaceAll(s, sub, v)) && AllSafe(u)
    ensures AllSafe(ReplaceAll(s, sub, u))
    decreases |s|
  {
    if s != [] {
      if sub <= s {
        SafeParts(v, ReplaceAll(s[|sub|..], sub, v));
        SafeForAll(s[|sub|..], sub, v, u);
      } else {
        SafeParts([s[0]], ReplaceAll(s[1..], sub, v));
        SafeForAll(s[1..], sub, v, u);
      }
    }
  }

  lemma SafeParts(a: bytes, b: bytes)
    requires AllSafe(a + b)
    ensures AllSafe(a) && AllSafe(b)
  {
    forall i | 0 <= i < |a| ensures SafeByte(a[i]) { assert (a + b)[i] == a[i]; }
    forall i | 0 <= i < |b| ensures SafeByte(b[i]) { assert (a + b)[|a| + i] == b[i]; }
  }

  /** Each slot trades its own length for that of the name. */
  lemma {:induction false} RenderedLength(s: bytes, sub: bytes, u: bytes)
    requires sub != []
    ensures |ReplaceAll(s, sub, u)| + |sub| * Slots(s, sub) == |s| + |u| * Slots(s, sub)
    decreases |s|
  {
    if s != [] {
      if sub <= s {
        var rest := Slots(s[|sub|..], sub);
        RenderedLength(s[|sub|..], sub, u);
        OneMore(|sub|, rest);
        OneMore(|u|, rest);
      } else {
        RenderedLength(s[1..], sub, u);
      }
    }
  }

  lemma OneMore(a: nat, n: nat)
    ensures a * (1 + n) == a + a * n
  {
  }

  /** The length of the prefix that `template` renders to, counted without rendering it. */
  function PrefixLength(template: bytes, userLength: nat): int {
    |template| + Slots(template, UsernameSlot()) * (userLength - |UsernameSlot()|)
  }

  lemma RenderedPrefixLength(template: bytes, u: bytes)
    ensures |ReplaceAll(template, UsernameSlot(), u)| == PrefixLength(template, |u|)
  {
    RenderedLength(template, UsernameSlot(), u);
    Distribute(Slots(template, UsernameSlot()), |u|, |UsernameSlot()|);
  }

  lemma Distribute(n: nat, a: nat, b: nat)
    ensures n * (a - b) == a * n - b * n
  {
  }

  /** A validated template is only ever rendered with "user". For another safe name it gives a
      prefix exactly when that is no longer than a database name may be. */
  lemma PrefixExistsExactly(p: DbRules, u: bytes)
    requires ValidRules(p) && p.template.Some? && IsSafe(u)
    ensures PrefixOf(p, Some(u)).Some? <==> |ReplaceAll(p.template.value, UsernameSlot(), u)| <= MAX_DB_NAME_LEN
    ensures PrefixOf(p, Some(u)).Some? <==> PrefixLength(p.template.value, |u|) <= MAX_DB_NAME_LEN
    ensures PrefixOf(p, Some(u)).Some? ==>
              IsSafe(PrefixOf(p, Some(u)).value) && |PrefixOf(p, Some(u)).value| == PrefixLength(p.template.value, |u|)
  {
    var t := p.template.value;
    SafeForAll(t, UsernameSlot(), Encodings.Ascii("user"), u);
    RenderedPrefixLength(t, u);
  }

  /** The longest user name that reaches the database rules. */
  const USERNAME_HASH_LEN: nat := 32

  /** Every user gets a prefix exactly when the template leaves room for the longest names, the
      hashed ones. */
  lemma EveryUserIsServedExactly(p: DbRules)
    requires ValidRules(p) && p.template.Some?
    ensures (forall u :: IsSafe(u) && |u| <= USERNAME_HASH_LEN ==> PrefixOf(p, Some(u)).Some?)
       <==> PrefixLength(p.template.value, USERNAME_HASH_LEN) <= MAX_DB_NAME_LEN
  {
    var t := p.template.value;
    var longest: bytes := seq(USERNAME_HASH_LEN, _ => 97);
    PrefixExistsExactly(p, longest);
    forall u | IsSafe(u) && |u| <= USERNAME_HASH_LEN
      ensures PrefixLength(t, USERNAME_HASH_LEN) <= MAX_DB_NAME_LEN ==> PrefixOf(p, Some(u)).Some?
    {
      PrefixExistsExactly(p, u);
      Grows(Slots(t, UsernameSlot()), |u| - |UsernameSlot()|, USERNAME_HASH_LEN - |UsernameSlot()|);
    }
  }

  lemma Grows(n: nat, a: int, b: int)
    requires a <= b
    ensures n * a <= n * b
  {
  }

  // --- resolving one parameter ---

  datatype Action = Skipped | Unchanged | Injected | Rewritten

  /** `DbAction::combine`. */
  function Combine(a: Action, b: Action): Action {
    if a.Rewritten? || b.Rewritten? then Rewritten
    else if a.Injected? || b.Injected? then Injected
    else if a.Skipped? then b
    else if b.Skipped? then a
    else Unchanged
  }

  datatype Resolution = Resolution(value: bytes, action: Action)

  function Checked(value: bytes, action: Action): Result<Resolution, Denial> {
    if IsSafe(value) then Ok(Resolution(value, action)) else Err(InvalidValue)
  }

  /** `resolve_db_param`. */
  function Resolve(provided: Option<bytes>, p: DbRules, username: Option<bytes>): Result<Resolution, Denial> {
    match provided
    case None =>
      if username.Some? && p.tenantDefault.Some? then
        if p.template.None? then Err(InvalidTemplate)
        else match RenderPrefix(p.template.value, username.value)
          case Ok(prefix) => Checked(prefix + p.tenantDefault.value, Injected)
          case Err(e) => Err(e)
      else Checked(p.default, Injected)
    case Some(value) =>
      if !IsSafe(value) then Err(InvalidValue)
      else if Allows(p.allow, value) then Ok(Resolution(value, Unchanged))
      else if username.Some? && p.template.Some? then
        match RenderPrefix(p.template.value, username.value)
        case Ok(prefix) => Checked(prefix + value, Rewritten)
        case Err(e) => Err(e)
      else Err(NotAllowed)
  }

  /** Where a resolved database may come from. */
  ghost predicate Permitted(value: bytes, p: DbRules, username: Option<bytes>) {
    IsSafe(value) &&
    (value == p.default || Allows(p.allow, value) || InTenant(value, p, username))
  }

  /** The user's rendered prefix followed by a safe name. */
  ghost predicate InTenant(value: bytes, p: DbRules, username: Option<bytes>) {
    PrefixOf(p, username).Some? &&
    exists rest :: IsSafe(rest) && value == PrefixOf(p, username).value + rest
  }

  /** Under a validated policy a parameter only ever resolves to a permitted database. */
  lemma ResolvedIsPermitted(provided: Option<bytes>, p: DbRules, username: Option<bytes>)
    requires ValidRules(p) && Resolve(provided, p, username).Ok?
    ensures Permitted(Resolve(provided, p, username).value.value, p, username)
  {
    var v := Resolve(provided, p, username).value.value;
    if provided.None? && username.Some? && p.tenantDefault.Some? {
      assert IsSafe(p.tenantDefault.value) && v == PrefixOf(p, username).value + p.tenantDefault.value;
    } else if provided.Some? && !Allows(p.allow, provided.value) {
      assert IsSafe(provided.value) && v == PrefixOf(p, username).value + provided.value;
    }
  }

  /** A user whose prefix would be too long is refused everything that is not shared: the
      default of their own, and every name that is not on the allow list. */
  lemma UnservedUserIsRefused(p: DbRules, u: bytes, sent: Option<bytes>)
    requires ValidRules(p) && p.template.Some? && IsSafe(u)
    requires PrefixLength(p.template.value, |u|) > MAX_DB_NAME_LEN
    requires if sent.Some? then IsSafe(sent.value) && !Allows(p.allow, sent.value) else p.tenantDefault.Some?
    ensures Resolve(sent, p, Some(u)) == Err(InvalidValue)
  {
    PrefixExistsExactly(p, u);
  }

  /** Such a template passes validation: forty letters and a slot, for a hashed user name. */
  lemma UnservedUserExample(shared: bytes, own: bytes, letters: bytes, u: bytes, sent: Option<bytes>)
    requires IsSafe(shared) && IsSafe(own) && own != shared
    requires |letters| == 40 && (forall i :: 0 <= i < 40 ==> letters[i] == 97) && IsSafe(u) && |u| == 32
    requires sent.Some? ==> IsSafe(sent.value) && sent.value != shared
    ensures var p := DbRules(shared, Listed([shared]), Some(own), Some(letters + UsernameSlot()));
            && ValidRules(p) && PrefixOf(p, Some(u)).None? && Resolve(sent, p, Some(u)) == Err(InvalidValue)
  {
    var p := DbRules(shared, Listed([shared]), Some(own), Some(letters + UsernameSlot()));
    LettersThenSlot(letters, UsernameSlot(), Encodings.Ascii("user"));
    NoSlotInLetters(letters, UsernameSlot(), DbSlot());
    assert IsSafe(letters + Encodings.Ascii("user"));
    LettersThenSlot(letters, UsernameSlot(), u);
    RenderedPrefixLength(letters + UsernameSlot(), u);
    UnservedUserIsRefused(p, u, sent);
    PrefixExistsExactly(p, u);
  }

  /** Letters in front of a slot stay as they are. */
  lemma {:induction false} LettersThenSlot(letters: bytes, slot: bytes, u: bytes)
    requires slot != [] && forall i :: 0 <= i < |letters| ==> letters[i] != slot[0]
    ensures ReplaceAll(letters + slot, slot, u) == letters + u
  {
    var s := letters + slot;
    if letters == [] {
      assert s == slot && s[|slot|..] == [];
      assert u + [] == [] + u;
    } else {
      assert s[0] == letters[0] && s[1..] == letters[1..] + slot;
      LettersThenSlot(letters[1..], slot, u);
      assert letters + u == [letters[0]] + (letters[1..] + u);
    }
  }

  lemma {:induction false} NoSlotInLetters(letters: bytes, slot: bytes, other: bytes)
    requires other == DbSlot() && slot == UsernameSlot() && forall i :: 0 <= i < |letters| ==> letters[i] == 97
    ensures !Contains(letters + slot, other)
  {
    var s := letters + slot;
    if letters == [] {
      assert s == slot;
      SlotsDiffer();
    } else {
      assert s[0] == 97 && other[0] == 123 && s[1..] == letters[1..] + slot;
      NoSlotInLetters(letters[1..], slot, other);
    }
  }

  lemma SlotsDiffer()
    ensures !Contains(UsernameSlot(), DbSlot())
  {
    NowhereIn(UsernameSlot(), DbSlot());
  }

  lemma {:induction false} NowhereIn(s: bytes, sub: bytes)
    requires |sub| >= 2 && forall i :: 0 <= i < |s| - 1 ==> !(s[i] == sub[0] && s[i + 1] == sub[1])
    ensures !Contains(s, sub)
  {
    if s != [] {
      NowhereIn(s[1..], sub);
      if sub <= s { FirstTwo(s, sub); }
    }
  }

  lemma FirstTwo(s: bytes, sub: bytes)
    requires |sub| >= 2 && sub <= s
    ensures |s| >= 2 && s[0] == sub[0] && s[1] == sub[1]
  {
  }

  // --- listing ---

  predicate MatchesPrefix(p: DbRules, username: bytes, candidate: bytes) {
    var prefix := PrefixOf(p, Some(username));
    prefix.Some? && |prefix.value| < |candidate| <= MAX_DB_NAME_LEN && prefix.value <= candidate
    && IsSafe(candidate[|prefix.value|..])
  }

  /** What is left of a name in the user's own space. */
  function StripTenantPrefix(value: bytes, p: DbRules, username: Option<bytes>): Option<bytes> {
    var prefix := PrefixOf(p, username);
    if prefix.None? || !(prefix.value <= value) then None
    else
      var rest := value[|prefix.value|..];
      if IsSafe(rest) then Some(rest) else None
  }

  predicate Visible(name: bytes, p: DbRules, username: Option<bytes>) {
    Allows(p.allow, name) || (username.Some? && MatchesPrefix(p, username.value, name))
  }

  /** The name a listing shows for a database. */
  function Shown(name: bytes, p: DbRules, username: Option<bytes>): bytes {
    var rest := StripTenantPrefix(name, p, username);
    if rest.Some? then rest.value else name
  }

  function VisibleNames(names: seq<bytes>, p: DbRules, username: Option<bytes>): (r: seq<bytes>)
    ensures forall n :: n in r <==> n in names && Visible(n, p, username)
  {
    if names == [] then []
    else (if Visible(names[0], p, username) then [names[0]] else []) + VisibleNames(names[1..], p, username)
  }

  /** A user with a default of their own always sees it. */
  function WithTenantDefault(names: seq<bytes>, p: DbRules, username: Option<bytes>): seq<bytes> {
    if username.Some? && p.tenantDefault.Some? && p.tenantDefault.value !in names
    then names + [p.tenantDefault.value] else names
  }

  ghost predicate NoDuplicates(s: seq<bytes>) {
    forall i, j :: 0 <= i < j < |s| ==> s[i] != s[j]
  }

  /** `filter_db_list`. */
  method FilterDbList(names: seq<bytes>, p: DbRules, username: Option<bytes>) returns (listing: seq<bytes>)
    ensures p.allow.All? ==> listing == names
    ensures p.allow.Listed? ==> ListingOf(names, p, username, listing)
  {
    if p.allow.All? { return names; }
    var filtered := WithTenantDefault(VisibleNames(names, p, username), p, username);
    ghost var shown := ShownNames(filtered, p, username);
    listing := [];
    for i := 0 to |filtered|
      invariant NoDuplicates(listing) && ByFirstAppearance(listing, shown)
      invariant forall e :: e in listing <==> FirstIndex(shown, e) < i
    {
      var entry := filtered[i];
      var stripped := StripTenantPrefix(entry, p, username);
      if stripped.Some? {
        entry := stripped.value;
      }
      assert entry == shown[i] && FirstIndex(shown, entry) <= i;
      AddedLast(listing, shown, i);
      if entry !in listing {
        listing := listing + [entry];
      }
    }
    assert forall e :: e in shown <==> FirstIndex(shown, e) < |filtered|;
  }

  function ShownNames(names: seq<bytes>, p: DbRules, username: Option<bytes>): (r: seq<bytes>)
    ensures |r| == |names| && forall i :: 0 <= i < |r| ==> r[i] == Shown(names[i], p, username)
  {
    seq(|names|, i requires 0 <= i < |names| => Shown(names[i], p, username))
  }

  function FirstIndex(s: seq<bytes>, e: bytes): (i: nat)
    ensures i <= |s| && (i < |s| <==> e in s)
    ensures i < |s| ==> s[i] == e
    ensures forall j :: 0 <= j < i ==> s[j] != e
  {
    if s == [] || s[0] == e then 0 else 1 + FirstIndex(s[1..], e)
  }

  ghost predicate ByFirstAppearance(listing: seq<bytes>, shown: seq<bytes>) {
    forall i, j :: 0 <= i < j < |listing| ==> FirstIndex(shown, listing[i]) < FirstIndex(shown, listing[j])
  }

  /** A name that has not appeared before comes last. */
  lemma AddedLast(listing: seq<bytes>, shown: seq<bytes>, i: nat)
    requires i < |shown| && NoDuplicates(listing) && ByFirstAppearance(listing, shown)
    requires forall e :: e in listing <==> FirstIndex(shown, e) < i
    ensures var more := if shown[i] in listing then listing else listing + [shown[i]];
            && NoDuplicates(more) && ByFirstAppearance(more, shown)
            && forall e :: e in more <==> FirstIndex(shown, e) < i + 1
  {
    var x := shown[i];
    assert FirstIndex(shown, x) <= i;
    forall e ensures FirstIndex(shown, e) < i + 1 <==> FirstIndex(shown, e) < i || e == x {
      if FirstIndex(shown, e) == i { assert e == x; }
    }
    if x !in listing { AppendLast(listing, shown, x); }
  }

  lemma AppendLast(listing: seq<bytes>, shown: seq<bytes>, x: bytes)
    requires NoDuplicates(listing) && ByFirstAppearance(listing, shown) && x !in listing
    requires forall e :: e in listing ==> FirstIndex(shown, e) < FirstIndex(shown, x)
    ensures NoDuplicates(listing + [x]) && ByFirstAppearance(listing + [x], shown)
  {
    assert forall k :: 0 <= k < |listing| ==> (listing + [x])[k] == listing[k] && listing[k] in listing;
  }

  /** What a listing holds: the shown names of the visible databases, then the user's default,
      each once, where it first appears, and nothing else. */
  ghost predicate ListingOf(names: seq<bytes>, p: DbRules, username: Option<bytes>, listing: seq<bytes>) {
    var shown := ShownNames(WithTenantDefault(VisibleNames(names, p, username), p, username), p, username);
    && NoDuplicates(listing) && ByFirstAppearance(listing, shown)
    && forall e :: e in listing <==> e in shown
  }

  /** There is only one such listing. */
  lemma {:induction false} ListingIsUnique(a: seq<bytes>, b: seq<bytes>, shown: seq<bytes>)
    requires ByFirstAppearance(a, shown) && ByFirstAppearance(b, shown)
    requires NoDuplicates(a) && NoDuplicates(b)
    requires forall e :: e in a <==> e in b
    requires forall e :: e in a ==> e in shown
    ensures a == b
    decreases |a|
  {
    assert a != [] ==> a[0] in a;
    assert b != [] ==> b[0] in b;
    if a != [] && b != [] {
      SameFirst(a, b, shown);
      RestHolds(a);
      RestHolds(b);
      ListingIsUnique(a[1..], b[1..], shown);
      assert a == [a[0]] + a[1..] && b == [b[0]] + b[1..];
    }
  }

  lemma SameFirst(a: seq<bytes>, b: seq<bytes>, shown: seq<bytes>)
    requires ByFirstAppearance(a, shown) && ByFirstAppearance(b, shown) && a != [] && b != []
    requires forall e :: e in a <==> e in b
    requires forall e :: e in a ==> e in shown
    ensures a[0] == b[0]
  {
    assert a[0] in b && b[0] in a;
    assert FirstIndex(shown, a[0]) == FirstIndex(shown, b[0]);
  }

  lemma RestHolds(a: seq<bytes>)
    requires a != [] && NoDuplicates(a)
    ensures NoDuplicates(a[1..]) && forall e :: e in a[1..] <==> e in a && e != a[0]
  {
    assert a == [a[0]] + a[1..];
  }

  /** The value a name sent by a client resolves to. */
  ghost predicate ResolvesTo(sent: bytes, p: DbRules, username: Option<bytes>, db: bytes) {
    var r := Resolve(Some(sent), p, username);
    r.Ok? && r.value.value == db
  }

  /** Listing and resolution agree on the user's own databases. */
  lemma OwnDatabaseRoundTrips(names: seq<bytes>, p: DbRules, username: Option<bytes>, listing: seq<bytes>,
                              prefix: bytes, rest: bytes)
    requires ValidRules(p) && p.allow.Listed? && ListingOf(names, p, username, listing)
    requires PrefixOf(p, username) == Some(prefix)
    requires prefix + rest in names && IsSafe(rest) && |prefix + rest| <= MAX_DB_NAME_LEN
    requires rest !in p.allow.items
    ensures rest in listing && ResolvesTo(rest, p, username, prefix + rest)
  {
    var name := prefix + rest;
    assert name[|prefix|..] == rest;
    assert Shown(name, p, username) == rest;
    assert name in WithTenantDefault(VisibleNames(names, p, username), p, username);
  }

  /** Listing and resolution agree on shared databases outside the user's own space. */
  lemma SharedDatabaseRoundTrips(names: seq<bytes>, p: DbRules, username: Option<bytes>, listing: seq<bytes>, name: bytes)
    requires ValidRules(p) && p.allow.Listed? && ListingOf(names, p, username, listing)
    requires name in names && name in p.allow.items
    requires PrefixOf(p, username).Some? ==> !(PrefixOf(p, username).value <= name)
    ensures name in listing && ResolvesTo(name, p, username, name)
  {
    assert Shown(name, p, username) == name;
    assert name in WithTenantDefault(VisibleNames(names, p, username), p, username);
  }

  /** For a visible database the shown name leads back to it exactly when it is not itself on
      the allow list, or is the database's own name. */
  lemma ShownNameLeadsBackExactly(p: DbRules, username: Option<bytes>, name: bytes)
    requires ValidRules(p) && p.allow.Listed? && Visible(name, p, username)
    ensures ResolvesTo(Shown(name, p, username), p, username, name) <==>
              Shown(name, p, username) == name || Shown(name, p, username) !in p.allow.items
  {
    var rest := StripTenantPrefix(name, p, username);
    if rest.Some? {
      var prefix := PrefixOf(p, username).value;
      assert name == prefix + rest.value;
      assert IsSafe(prefix);
      assert |rest.value| < |name|;
    } else {
      assert Shown(name, p, username) == name;
    }
  }

  /** A listing discloses no database that is neither allowed nor the user's own. */
  lemma ListingDisclosesOnlyVisible(names: seq<bytes>, p: DbRules, username: Option<bytes>, listing: seq<bytes>, e: bytes)
    requires ListingOf(names, p, username, listing) && e in listing
    ensures (exists n :: n in names && Visible(n, p, username) && Shown(n, p, username) == e)
         || (username.Some? && p.tenantDefault.Some? && e == Shown(p.tenantDefault.value, p, username))
  {
    var n :| n in WithTenantDefault(VisibleNames(names, p, username), p, username) && Shown(n, p, username) == e;
  }

  /** `resolve_default_db`: the database a listing calls current. */
  function CurrentDb(p: DbRules, username: Option<bytes>): Result<bytes, Denial> {
    var value := if username.Some? && p.tenantDefault.Some? then p.tenantDefault.value else p.default;
    if IsSafe(value) then Ok(value) else Err(InvalidValue)
  }

  function ValueOf(r: Result<Resolution, Denial>): Result<bytes, Denial> {
    match r case Ok(x) => Ok(x.value) case Err(e) => Err(e)
  }

  /** Sending the current database's name is the same as sending none, exactly when a user's
      default of their own is not also an allowed shared name (or rendering fails anyway). */
  lemma CurrentIsTheDefaultExactly(p: DbRules, username: Option<bytes>)
    requires ValidRules(p)
    ensures CurrentDb(p, username).Ok?
    ensures ValueOf(Resolve(Some(CurrentDb(p, username).value), p, username)) == ValueOf(Resolve(None, p, username)) <==>
              !(username.Some? && p.tenantDefault.Some? && Allows(p.allow, p.tenantDefault.value))
  {
    if username.Some? && p.tenantDefault.Some? {
      var d := p.tenantDefault.value;
      if PrefixOf(p, username).Some? {
        var prefix := PrefixOf(p, username).value;
        assert IsSafe(prefix);
        assert |prefix + d| > |d|;
      }
    }
  }

  // --- rewriting a query ---

  type Pairs = seq<(bytes, bytes)>

  function IndexDb(): bytes { Encodings.Ascii("index_db") }
  function UserDataDb(): bytes { Encodings.Ascii("user_data_db") }
  function NewIndexDb(): bytes { Encodings.Ascii("new_index_db") }
  function NewUserDataDb(): bytes { Encodings.Ascii("new_user_data_db") }

  lemma KeysDiffer()
    ensures IndexDb() != UserDataDb() && NewIndexDb() != NewUserDataDb()
    ensures NewIndexDb() != IndexDb() && NewIndexDb() != UserDataDb()
    ensures NewUserDataDb() != IndexDb() && NewUserDataDb() != UserDataDb()
  {
    assert |IndexDb()| == 8 && |UserDataDb()| == 12 && |NewIndexDb()| == 12 && |NewUserDataDb()| == 16;
    assert UserDataDb()[0] == 'u' as int && NewIndexDb()[0] == 'n' as int;
  }

  /** The pairs whose keys are not in `keys`, in order. */
  function Others(pairs: Pairs, keys: set<bytes>): (r: Pairs)
    ensures forall x :: x in r <==> x in pairs && x.0 !in keys
  {
    if pairs == [] then []
    else if pairs[0].0 in keys then Others(pairs[1..], keys)
    else [pairs[0]] + Others(pairs[1..], keys)
  }

  /** The first value given for a key. */
  function FirstValue(pairs: Pairs, key: bytes): Option<bytes> {
    if pairs == [] then None
    else if pairs[0].0 == key then Some(pairs[0].1)
    else FirstValue(pairs[1..], key)
  }

  datatype Enforced = Enforced(pairs: Pairs, action: Action)

  /** Replace the two database parameters by what they resolve to, drop `stale` keys. */
  function EnforceKeys(pairs: Pairs, indexKey: bytes, userKey: bytes, stale: set<bytes>,
                       index: DbRules, user: DbRules, username: Option<bytes>): Result<Enforced, Denial>
  {
    match Resolve(FirstValue(pairs, indexKey), index, username)
    case Err(e) => Err(e)
    case Ok(i) =>
      match Resolve(FirstValue(pairs, userKey), user, username)
      case Err(e) => Err(e)
      case Ok(u) =>
        Ok(Enforced(Others(pairs, {indexKey, userKey} + stale) + [(indexKey, i.value), (userKey, u.value)],
                    Combine(i.action, u.action)))
  }

  /** The loop of `enforce_db_params` and `enforce_db_create_params`. */
  method EnforceLoop(pairs: Pairs, indexKey: bytes, userKey: bytes, stale: set<bytes>,
                     index: DbRules, user: DbRules, username: Option<bytes>) returns (r: Result<Enforced, Denial>)
    requires indexKey != userKey && indexKey !in stale && userKey !in stale
    ensures r == EnforceKeys(pairs, indexKey, userKey, stale, index, user, username)
  {
    var retained, indexDb, userDb := SortOut(pairs, indexKey, userKey, stale);
    var x := Resolve(indexDb, index, username);
    if x.Err? { return Err(x.error); }
    var y := Resolve(userDb, user, username);
    if y.Err? { return Err(y.error); }
    return Ok(Enforced(retained + [(indexKey, x.value.value), (userKey, y.value.value)],
                       Combine(x.value.action, y.value.action)));
  }

  /** The loop over the pairs: the first value of each of the two keys, and what is kept. */
  method SortOut(pairs: Pairs, indexKey: bytes, userKey: bytes, stale: set<bytes>)
    returns (retained: Pairs, indexDb: Option<bytes>, userDb: Option<bytes>)
    requires indexKey != userKey && indexKey !in stale && userKey !in stale
    ensures retained == Others(pairs, {indexKey, userKey} + stale)
    ensures indexDb == FirstValue(pairs, indexKey) && userDb == FirstValue(pairs, userKey)
  {
    retained, indexDb, userDb := [], None, None;
    var keys := {indexKey, userKey} + stale;
    for i := 0 to |pairs|
      invariant Others(pairs, keys) == retained + Others(pairs[i..], keys)
      invariant FirstValue(pairs, indexKey) == if indexDb.Some? then indexDb else FirstValue(pairs[i..], indexKey)
      invariant FirstValue(pairs, userKey) == if userDb.Some? then userDb else FirstValue(pairs[i..], userKey)
    {
      var key, value := pairs[i].0, pairs[i].1;
      NextPair(pairs, i, keys, indexKey, userKey);
      if key == indexKey {
        if indexDb.None? { indexDb := Some(value); }
        continue;
      }
      if key == userKey {
        if userDb.None? { userDb := Some(value); }
        continue;
      }
      if key in stale { continue; }
      Regroup(retained, [(key, value)], Others(pairs[i + 1..], keys));
      retained := retained + [(key, value)];
    }
    assert retained == Others(pairs, keys);
  }

  lemma NextPair(pairs: Pairs, i: nat, keys: set<bytes>, a: bytes, b: bytes)
    requires i < |pairs|
    ensures Others(pairs[i..], keys) == if pairs[i].0 in keys then Others(pairs[i + 1..], keys) else [pairs[i]] + Others(pairs[i + 1..], keys)
    ensures FirstValue(pairs[i..], a) == if pairs[i].0 == a then Some(pairs[i].1) else FirstValue(pairs[i + 1..], a)
    ensures FirstValue(pairs[i..], b) == if pairs[i].0 == b then Some(pairs[i].1) else FirstValue(pairs[i + 1..], b)
  {
    assert pairs[i..][1..] == pairs[i + 1..] && pairs[i..][0] == pairs[i];
  }

  lemma Regroup(a: Pairs, b: Pairs, c: Pairs)
    ensures a + (b + c) == (a + b) + c
  {
  }

  function EnforceDbParams(pairs: Pairs, index: DbRules, user: DbRules, username: Option<bytes>): Result<Enforced, Denial> {
    EnforceKeys(pairs, IndexDb(), UserDataDb(), {}, index, user, username)
  }

  function EnforceDbCreateParams(pairs: Pairs, index: DbRules, user: DbRules, username: Option<bytes>): Result<Enforced, Denial> {
    EnforceKeys(pairs, NewIndexDb(), NewUserDataDb(), {IndexDb(), UserDataDb()}, index, user, username)
  }

  function CountKey(pairs: Pairs, key: bytes): nat {
    if pairs == [] then 0 else (if pairs[0].0 == key then 1 else 0) + CountKey(pairs[1..], key)
  }

  lemma {:induction false} CountKeyConcat(a: Pairs, b: Pairs, key: bytes)
    ensures CountKey(a + b, key) == CountKey(a, key) + CountKey(b, key)
  {
    if a == [] {
      assert a + b == b;
    } else {
      assert (a + b)[1..] == a[1..] + b;
      CountKeyConcat(a[1..], b, key);
    }
  }

  lemma {:induction false} CountAbsent(pairs: Pairs, key: bytes)
    requires forall x :: x in pairs ==> x.0 != key
    ensures CountKey(pairs, key) == 0
  {
    if pairs != [] { CountAbsent(pairs[1..], key); }
  }

  lemma TwoPairs(a: bytes, x: bytes, b: bytes, y: bytes)
    requires a != b
    ensures var t: Pairs := [(a, x), (b, y)];
            && FirstValue(t, a) == Some(x) && FirstValue(t, b) == Some(y)
            && (forall k :: CountKey(t, k) == if k == a || k == b then 1 else 0)
  {
    var t: Pairs := [(a, x), (b, y)];
    assert t[1..] == [(b, y)];
    assert t[1..][1..] == [];
    forall k ensures CountKey(t, k) == if k == a || k == b then 1 else 0 {
      assert CountKey(t[1..], k) == (if b == k then 1 else 0) + CountKey(t[1..][1..], k);
    }
  }

  /** A successful rewrite is normal: the other pairs in their order, then each parameter
      exactly once, with a permitted database. */
  lemma EnforcedQueryIsNormal(pairs: Pairs, indexKey: bytes, userKey: bytes, stale: set<bytes>,
                              index: DbRules, user: DbRules, username: Option<bytes>)
    requires indexKey != userKey && indexKey !in stale && userKey !in stale
    requires ValidRules(index) && ValidRules(user)
    requires EnforceKeys(pairs, indexKey, userKey, stale, index, user, username).Ok?
    ensures var q := EnforceKeys(pairs, indexKey, userKey, stale, index, user, username).value.pairs;
            && CountKey(q, indexKey) == 1 && CountKey(q, userKey) == 1
            && (forall k :: k in stale ==> CountKey(q, k) == 0)
            && Others(q, {indexKey, userKey}) == Others(pairs, {indexKey, userKey} + stale)
            && FirstValue(q, indexKey).Some? && Permitted(FirstValue(q, indexKey).value, index, username)
            && FirstValue(q, userKey).Some? && Permitted(FirstValue(q, userKey).value, user, username)
  {
    var keys := {indexKey, userKey} + stale;
    var kept := Others(pairs, keys);
    var i := Resolve(FirstValue(pairs, indexKey), index, username).value;
    var u := Resolve(FirstValue(pairs, userKey), user, username).value;
    var tail: Pairs := [(indexKey, i.value), (userKey, u.value)];
    ResolvedIsPermitted(FirstValue(pairs, indexKey), index, username);
    ResolvedIsPermitted(FirstValue(pairs, userKey), user, username);
    forall k ensures CountKey(kept + tail, k) == CountKey(kept, k) + CountKey(tail, k) {
      CountKeyConcat(kept, tail, k);
    }
    TwoPairs(indexKey, i.value, userKey, u.value);
    forall k | k in keys ensures CountKey(kept, k) == 0 { CountAbsent(kept, k); }
    OthersOfKept(kept, tail, {indexKey, userKey});
    FirstValueAfter(kept, tail, indexKey);
    FirstValueAfter(kept, tail, userKey);
  }

  lemma {:induction false} OthersOfKept(kept: Pairs, tail: Pairs, keys: set<bytes>)
    requires forall x :: x in kept ==> x.0 !in keys
    requires forall x :: x in tail ==> x.0 in keys
    ensures Others(kept + tail, keys) == kept
  {
    if kept != [] {
      assert (kept + tail)[1..] == kept[1..] + tail;
      OthersOfKept(kept[1..], tail, keys);
    } else {
      assert kept + tail == tail;
      OthersOfNone(tail, keys);
    }
  }

  lemma {:induction false} OthersOfNone(tail: Pairs, keys: set<bytes>)
    requires forall x :: x in tail ==> x.0 in keys
    ensures Others(tail, keys) == []
  {
    if tail != [] { OthersOfNone(tail[1..], keys); }
  }

  lemma {:induction false} FirstValueAfter(kept: Pairs, tail: Pairs, key: bytes)
    requires forall x :: x in kept ==> x.0 != key
    ensures FirstValue(kept + tail, key) == FirstValue(tail, key)
  {
    if kept == [] {
      assert kept + tail == tail;
    } else {
      assert (kept + tail)[1..] == kept[1..] + tail;
      FirstValueAfter(kept[1..], tail, key);
    }
  }

  /** Enforcing a second time changes nothing exactly when both resolved databases are on the
      allow lists. */
  lemma EnforcingTwiceExactly(pairs: Pairs, index: DbRules, user: DbRules, username: Option<bytes>)
    requires ValidRules(index) && ValidRules(user)
    requires EnforceDbParams(pairs, index, user, username).Ok?
    ensures var q := EnforceDbParams(pairs, index, user, username).value.pairs;
            var again := EnforceDbParams(q, index, user, username);
            && FirstValue(q, IndexDb()).Some? && FirstValue(q, UserDataDb()).Some?
            && ((again.Ok? && again.value.pairs == q) <==>
              Allows(index.allow, FirstValue(q, IndexDb()).value) && Allows(user.allow, FirstValue(q, UserDataDb()).value))
  {
    KeysDiffer();
    EnforcedQueryIsNormal(pairs, IndexDb(), UserDataDb(), {}, index, user, username);
    var q := EnforceDbParams(pairs, index, user, username).value.pairs;
    var i, u := FirstValue(q, IndexDb()).value, FirstValue(q, UserDataDb()).value;
    var kept := Others(pairs, {IndexDb(), UserDataDb()} + {});
    ReresolveExactly(i, index, username);
    ReresolveExactly(u, user, username);
    FirstValueAfter(kept, [(IndexDb(), i), (UserDataDb(), u)], IndexDb());
    assert {IndexDb(), UserDataDb()} + {} == {IndexDb(), UserDataDb()};
    QueryEnds(pairs, index, user, username);
    var again := EnforceDbParams(q, index, user, username);
    if again.Ok? {
      var i2, u2 := Resolve(Some(i), index, username).value.value, Resolve(Some(u), user, username).value.value;
      assert again.value.pairs == kept + [(IndexDb(), i2), (UserDataDb(), u2)];
      assert (kept + [(IndexDb(), i2), (UserDataDb(), u2)])[|kept|] == (IndexDb(), i2);
      assert (kept + [(IndexDb(), i2), (UserDataDb(), u2)])[|kept| + 1] == (UserDataDb(), u2);
    }
  }

  lemma QueryEnds(pairs: Pairs, index: DbRules, user: DbRules, username: Option<bytes>)
    requires EnforceDbParams(pairs, index, user, username).Ok?
    ensures var q := EnforceDbParams(pairs, index, user, username).value.pairs;
            var kept := Others(pairs, {IndexDb(), UserDataDb()} + {});
            && FirstValue(q, IndexDb()).Some? && FirstValue(q, UserDataDb()).Some?
            && q == kept + [(IndexDb(), FirstValue(q, IndexDb()).value), (UserDataDb(), FirstValue(q, UserDataDb()).value)]
  {
    KeysDiffer();
    var kept := Others(pairs, {IndexDb(), UserDataDb()} + {});
    var i := Resolve(FirstValue(pairs, IndexDb()), index, username).value.value;
    var u := Resolve(FirstValue(pairs, UserDataDb()), user, username).value.value;
    FirstValueAfter(kept, [(IndexDb(), i), (UserDataDb(), u)], IndexDb());
    FirstValueAfter(kept, [(IndexDb(), i), (UserDataDb(), u)], UserDataDb());
    assert [(IndexDb(), i), (UserDataDb(), u)][1..] == [(UserDataDb(), u)];
  }

  lemma ReresolveExactly(value: bytes, p: DbRules, username: Option<bytes>)
    requires ValidRules(p) && IsSafe(value)
    ensures ResolvesTo(value, p, username, value) <==> Allows(p.allow, value)
  {
    if !Allows(p.allow, value) && PrefixOf(p, username).Some? {
      assert |PrefixOf(p, username).value + value| > |value|;
    }
  }

  /** With no username, enforcing again changes nothing. */
  lemma EnforcingTwiceWithoutUser(pairs: Pairs, index: DbRules, user: DbRules)
    requires ValidRules(index) && ValidRules(user)
    requires EnforceDbParams(pairs, index, user, None).Ok?
    ensures var q := EnforceDbParams(pairs, index, user, None).value.pairs;
            EnforceDbParams(q, index, user, None).Ok? && EnforceDbParams(q, index, user, None).value.pairs == q
  {
    KeysDiffer();
    EnforcedQueryIsNormal(pairs, IndexDb(), UserDataDb(), {}, index, user, None);
    EnforcingTwiceExactly(pairs, index, user, None);
  }
}
