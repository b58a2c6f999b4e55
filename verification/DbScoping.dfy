/** Which databases a request ends up with, stated over the positions of its parameters
    (panoptikon/src/policy.rs): the database that was asked for if it is shared, the one of that
    name in the user's own space if it is not, and a default where none was asked for. */
module DbScoping {
  import opened Prelude
  import Encodings
  import opened DbPolicy

  // --- one parameter ---

  /** What the parameters say of `key`: the first value counts. */
  ghost predicate Asked(pairs: Pairs, key: bytes, v: Option<bytes>) {
    match v
    case None => forall i :: 0 <= i < |pairs| ==> pairs[i].0 != key
    case Some(value) =>
      exists i :: 0 <= i < |pairs| && pairs[i] == (key, value) && forall j :: 0 <= j < i ==> pairs[j].0 != key
  }

  predicate IsShared(p: DbRules, name: bytes) {
    match p.allow case All => true case Listed(items) => name in items
  }

  /** A database name: up to 64 letters, digits, dots, underscores and dashes. */
  predicate IsName(s: bytes) {
    1 <= |s| <= 64 &&
    forall i :: 0 <= i < |s| ==>
      var c := s[i] as char;
      'a' <= c <= 'z' || 'A' <= c <= 'Z' || '0' <= c <= '9' || c in "._-"
  }

  /** The database a parameter stands for. */
  ghost predicate StandsFor(asked: Option<bytes>, p: DbRules, username: Option<bytes>, db: bytes) {
    IsName(db) &&
    match asked
    case Some(name) =>
      IsName(name) &&
      if IsShared(p, name) then db == name
      else PrefixOf(p, username).Some? && db == PrefixOf(p, username).value + name
    case None =>
      if username.Some? && p.tenantDefault.Some?
      then PrefixOf(p, username).Some? && db == PrefixOf(p, username).value + p.tenantDefault.value
      else db == p.default
  }

  /** Why there is none. */
  ghost predicate Refused(asked: Option<bytes>, p: DbRules, username: Option<bytes>, e: Denial) {
    && (forall db :: !StandsFor(asked, p, username, db))
    && e == if asked.Some? && IsName(asked.value) && (username.None? || p.template.None?) then NotAllowed else InvalidValue
  }

  lemma NamesAreSafe(s: bytes)
    ensures IsName(s) <==> IsSafe(s)
  {
  }

  lemma {:induction false} AskedExactly(pairs: Pairs, key: bytes, v: Option<bytes>)
    ensures Asked(pairs, key, v) <==> FirstValue(pairs, key) == v
  {
    if pairs != [] {
      var rest := pairs[1..];
      AskedExactly(rest, key, v);
      assert forall i :: 0 < i < |pairs| ==> pairs[i] == rest[i - 1];
      if pairs[0].0 == key {
        if v == Some(pairs[0].1) { assert pairs[0] == (key, v.value); }
      } else if v.Some? {
        if Asked(rest, key, v) {
          var i :| 0 <= i < |rest| && rest[i] == (key, v.value) && forall j :: 0 <= j < i ==> rest[j].0 != key;
          assert pairs[i + 1] == (key, v.value);
        }
        if Asked(pairs, key, v) {
          var i :| 0 <= i < |pairs| && pairs[i] == (key, v.value) && forall j :: 0 <= j < i ==> pairs[j].0 != key;
          assert rest[i - 1] == (key, v.value);
          assert forall j :: 0 <= j < i - 1 ==> rest[j] == pairs[j + 1];
        }
      }
    }
  }

  /** A parameter resolves to exactly what it stands for, and is refused where it stands for
      nothing. */
  lemma ResolvesExactly(asked: Option<bytes>, p: DbRules, username: Option<bytes>)
    requires ValidRules(p)
    ensures forall db :: (Resolve(asked, p, username).Ok? && Resolve(asked, p, username).value.value == db)
                           <==> StandsFor(asked, p, username, db)
    ensures forall e :: Resolve(asked, p, username) == Err(e) <==> Refused(asked, p, username, e)
  {
    var r := Resolve(asked, p, username);
    forall s ensures IsName(s) <==> IsSafe(s) { NamesAreSafe(s); }
    if asked.Some? { assert IsShared(p, asked.value) <==> Allows(p.allow, asked.value); }
    if r.Ok? { assert StandsFor(asked, p, username, r.value.value); }
  }

  // --- both parameters ---

  /** The first parameter or the second, if only the second, stands for nothing. */
  ghost predicate BothRefused(i: Option<bytes>, u: Option<bytes>, index: DbRules, user: DbRules, username: Option<bytes>, e: Denial) {
    Refused(i, index, username, e) || ((exists db :: StandsFor(i, index, username, db)) && Refused(u, user, username, e))
  }

  function ActionOf(asked: Option<bytes>, p: DbRules): Action {
    match asked case None => Injected case Some(name) => if IsShared(p, name) then Unchanged else Rewritten
  }

  /** The rewritten query: the parameters that have nothing to do with databases, in order, and
      the two databases. */
  ghost predicate Scoped(q: Pairs, pairs: Pairs, indexKey: bytes, userKey: bytes, stale: set<bytes>, i: bytes, u: bytes) {
    q == Others(pairs, {indexKey, userKey} + stale) + [(indexKey, i), (userKey, u)]
  }

  /** For either form of a query: `index` decides about the first key, `user` about the second,
      each by what the first parameter of that key asked for. */
  lemma KeysStandFor(pairs: Pairs, indexKey: bytes, userKey: bytes, stale: set<bytes>, index: DbRules, user: DbRules,
                     username: Option<bytes>, i: Option<bytes>, u: Option<bytes>)
    requires ValidRules(index) && ValidRules(user)
    requires Asked(pairs, indexKey, i) && Asked(pairs, userKey, u)
    ensures var r := EnforceKeys(pairs, indexKey, userKey, stale, index, user, username);
            match r
            case Ok(done) =>
              && (exists x, y :: StandsFor(i, index, username, x) && StandsFor(u, user, username, y)
                                && Scoped(done.pairs, pairs, indexKey, userKey, stale, x, y))
              && (done.action.Rewritten? <==> ActionOf(i, index).Rewritten? || ActionOf(u, user).Rewritten?)
              && (done.action.Unchanged? <==> ActionOf(i, index).Unchanged? && ActionOf(u, user).Unchanged?)
            case Err(e) => BothRefused(i, u, index, user, username, e)
  {
    AskedExactly(pairs, indexKey, i);
    AskedExactly(pairs, userKey, u);
    ResolvesExactly(i, index, username);
    ResolvesExactly(u, user, username);
    var a, b := Resolve(i, index, username), Resolve(u, user, username);
    match EnforceKeys(pairs, indexKey, userKey, stale, index, user, username)
    case Ok(done) =>
      assert a.Ok? && b.Ok?;
      assert StandsFor(i, index, username, a.value.value) && StandsFor(u, user, username, b.value.value);
      assert Scoped(done.pairs, pairs, indexKey, userKey, stale, a.value.value, b.value.value);
      ActionsTold(i, index, username);
      ActionsTold(u, user, username);
    case Err(e) =>
      if a.Ok? { assert StandsFor(i, index, username, a.value.value); }
  }

  lemma ActionsTold(asked: Option<bytes>, p: DbRules, username: Option<bytes>)
    requires Resolve(asked, p, username).Ok?
    ensures Resolve(asked, p, username).value.action == ActionOf(asked, p)
  {
  }

  /** The databases of an ordinary request. */
  lemma RequestIsScoped(pairs: Pairs, index: DbRules, user: DbRules, username: Option<bytes>, i: Option<bytes>, u: Option<bytes>,
                        indexKey: bytes, userKey: bytes)
    requires ValidRules(index) && ValidRules(user)
    requires indexKey == Encodings.Ascii("index_db") && userKey == Encodings.Ascii("user_data_db")
    requires Asked(pairs, indexKey, i) && Asked(pairs, userKey, u)
    ensures match EnforceDbParams(pairs, index, user, username)
            case Ok(done) =>
              && (exists x, y :: StandsFor(i, index, username, x) && StandsFor(u, user, username, y)
                                && Scoped(done.pairs, pairs, indexKey, userKey, {}, x, y))
              && (done.action.Rewritten? <==> ActionOf(i, index).Rewritten? || ActionOf(u, user).Rewritten?)
              && (done.action.Unchanged? <==> ActionOf(i, index).Unchanged? && ActionOf(u, user).Unchanged?)
            case Err(e) => BothRefused(i, u, index, user, username, e)
  {
    KeysStandFor(pairs, indexKey, userKey, {}, index, user, username, i, u);
  }

  /** The databases of a request to create some: asked for under names of their own, and no
      others are passed on. */
  lemma CreationIsScoped(pairs: Pairs, index: DbRules, user: DbRules, username: Option<bytes>, i: Option<bytes>, u: Option<bytes>,
                         indexKey: bytes, userKey: bytes, stale: set<bytes>)
    requires ValidRules(index) && ValidRules(user)
    requires indexKey == Encodings.Ascii("new_index_db") && userKey == Encodings.Ascii("new_user_data_db")
    requires stale == {Encodings.Ascii("index_db"), Encodings.Ascii("user_data_db")}
    requires Asked(pairs, indexKey, i) && Asked(pairs, userKey, u)
    ensures match EnforceDbCreateParams(pairs, index, user, username)
            case Ok(done) =>
              && (exists x, y :: StandsFor(i, index, username, x) && StandsFor(u, user, username, y)
                                && Scoped(done.pairs, pairs, indexKey, userKey, stale, x, y))
              && (done.action.Rewritten? <==> ActionOf(i, index).Rewritten? || ActionOf(u, user).Rewritten?)
              && (done.action.Unchanged? <==> ActionOf(i, index).Unchanged? && ActionOf(u, user).Unchanged?)
            case Err(e) => BothRefused(i, u, index, user, username, e)
  {
    KeysStandFor(pairs, indexKey, userKey, stale, index, user, username, i, u);
  }

  /** Parameters are kept or dropped one by one, and keep their order. */
  lemma {:induction false} OthersInOrder(a: Pairs, x: (bytes, bytes), b: Pairs, keys: set<bytes>)
    ensures Others(a + ([x] + b), keys) == Others(a, keys) + ((if x.0 in keys then [] else [x]) + Others(b, keys))
    decreases |a|
  {
    if a == [] {
      assert a + ([x] + b) == [x] + b && ([x] + b)[1..] == b;
    } else {
      assert (a + ([x] + b))[1..] == a[1..] + ([x] + b);
      OthersInOrder(a[1..], x, b, keys);
    }
  }

  // --- what is listed ---

  /** The user's own database of this name. */
  ghost predicate IsOwn(name: bytes, p: DbRules, username: Option<bytes>, rest: bytes) {
    PrefixOf(p, username).Some? && name == PrefixOf(p, username).value + rest && IsName(rest)
  }

  /** How the user sees a database: one of their own without the prefix, any other by its name. */
  ghost predicate SeenAs(name: bytes, p: DbRules, username: Option<bytes>, e: bytes) {
    IsOwn(name, p, username, e) || (e == name && forall rest :: !IsOwn(name, p, username, rest))
  }

  /** The databases a user may see: the shared ones, and their own of legal length. */
  ghost predicate MaySee(name: bytes, p: DbRules, username: Option<bytes>) {
    IsShared(p, name) || (|name| <= 64 && exists rest :: IsOwn(name, p, username, rest))
  }

  lemma SeenExactly(name: bytes, p: DbRules, username: Option<bytes>)
    ensures forall e :: SeenAs(name, p, username, e) <==> e == Shown(name, p, username)
    ensures ValidRules(p) ==> (MaySee(name, p, username) <==> Visible(name, p, username))
  {
    if PrefixOf(p, username).Some? {
      var prefix := PrefixOf(p, username).value;
      forall rest ensures IsOwn(name, p, username, rest) <==> prefix <= name && rest == name[|prefix|..] && IsSafe(rest) {
        NamesAreSafe(rest);
        if prefix <= name { assert name == prefix + name[|prefix|..]; }
        assert (prefix + rest)[|prefix|..] == rest;
      }
    }
  }

  /** What a listing holds: what the user sees of the databases that are there and that they may
      see, and the default of their own, there or not. */
  lemma ListedExactly(names: seq<bytes>, p: DbRules, username: Option<bytes>, listing: seq<bytes>, e: bytes)
    requires ValidRules(p) && p.allow.Listed? && ListingOf(names, p, username, listing)
    ensures e in listing <==>
              || (exists n :: n in names && MaySee(n, p, username) && SeenAs(n, p, username, e))
              || (username.Some? && p.tenantDefault.Some? && SeenAs(p.tenantDefault.value, p, username, e))
  {
    forall n ensures SeenAs(n, p, username, e) <==> e == Shown(n, p, username)
             ensures MaySee(n, p, username) <==> Visible(n, p, username)
    {
      SeenExactly(n, p, username);
    }
    var all := WithTenantDefault(VisibleNames(names, p, username), p, username);
    var shown := ShownNames(all, p, username);
    if e in shown {
      var i :| 0 <= i < |shown| && shown[i] == e;
      assert all[i] in all;
    }
    forall n | n in all && e == Shown(n, p, username) ensures e in shown {
      var i :| 0 <= i < |all| && all[i] == n;
      assert shown[i] == e;
    }
    if username.Some? && p.tenantDefault.Some? { assert p.tenantDefault.value in all; }
  }

  // --- the user's prefix ---

  /** No slot starts in `a`. */
  ghost predicate NoSlotStarts(a: bytes, slot: bytes, b: bytes) {
    forall i :: 0 <= i < |a| ==> !(slot <= (a + b)[i..])
  }

  lemma NoSlotBehind(a: bytes, slot: bytes, b: bytes)
    requires a != [] && NoSlotStarts(a, slot, b)
    ensures NoSlotStarts(a[1..], slot, b)
  {
    forall i | 0 <= i < |a| - 1 ensures !(slot <= (a[1..] + b)[i..]) {
      assert (a[1..] + b)[i..] == (a + b)[i + 1..];
    }
  }

  /** The first slot of a template is replaced by the name and what is behind it likewise; the
      rest stays. */
  lemma {:induction false} FirstSlotReplaced(a: bytes, slot: bytes, b: bytes, u: bytes)
    requires slot != [] && NoSlotStarts(a, slot, b)
    ensures ReplaceAll(a + b, slot, u) ==
              a + (if slot <= b then u + ReplaceAll(b[|slot|..], slot, u) else ReplaceAll(b, slot, u))
    decreases |a|
  {
    if a == [] {
      assert a + b == b;
    } else {
      var rest := a[1..] + b;
      var more := if slot <= b then u + ReplaceAll(b[|slot|..], slot, u) else ReplaceAll(b, slot, u);
      NoSlotBehind(a, slot, b);
      FirstSlotReplaced(a[1..], slot, b, u);
      HeadApart(a, b);
      HeadApart(a, more);
      assert !(slot <= [a[0]] + rest) by { assert (a + b)[0..] == a + b; }
      PlainByteStays(a[0], rest, slot, u);
    }
  }

  lemma HeadApart(a: bytes, b: bytes)
    requires a != []
    ensures a + b == [a[0]] + (a[1..] + b)
  {
  }

  lemma PlainByteStays(c: byte, rest: bytes, slot: bytes, u: bytes)
    requires slot != [] && !(slot <= [c] + rest)
    ensures ReplaceAll([c] + rest, slot, u) == [c] + ReplaceAll(rest, slot, u)
  {
    assert ([c] + rest)[1..] == rest;
  }
}
