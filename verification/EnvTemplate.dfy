/** `${NAME}` templating of configuration strings (panoptikon/src/env_template.rs). */
module EnvTemplate {
  // The token grammar that the scanning loop implements, and what it implies.

  import opened Prelude
  import Text
  import DotenvLine

  /** What the environment says about a name. */
  datatype Lookup = Unset | Set(value: string) | NotUnicode

  type Env = string -> Lookup

  datatype Reason = NoName | NoClosingBrace | NoOperator

  datatype Failure = Malformed(reason: Reason) | NotSet(name: string) | BadEncoding(name: string)

  /** Literal text, `${NAME}`, `${NAME-default}` or `${NAME:-default}`, or a `${` that starts
      none of these. */
  datatype Token =
    | Literal(text: string)
    | Required(name: string)
    | Defaulted(name: string, default: string, onEmpty: bool)
    | Broken(reason: Reason)

  // --- grammar ---

  /** The length of the leading variable name. */
  function NameLength(s: string): (n: nat)
    ensures n <= |s|
    ensures n > 0 ==> DotenvLine.IsEnvName(s[..n])
    ensures n < |s| && n > 0 ==> !DotenvLine.IsNameChar(s[n])
  {
    if s == [] || !DotenvLine.IsNameStart(s[0]) then 0 else 1 + NameRest(s[1..])
  }

  function NameRest(s: string): (n: nat)
    ensures n <= |s|
    ensures forall i :: 0 <= i < n ==> DotenvLine.IsNameChar(s[i])
    ensures n < |s| ==> !DotenvLine.IsNameChar(s[n])
  {
    if s == [] || !DotenvLine.IsNameChar(s[0]) then 0 else 1 + NameRest(s[1..])
  }

  datatype Scanned = Scanned(token: Token, rest: string)

  /** The placeholder whose text after `${` starts `inner`. */
  function ScanPlaceholder(inner: string): (r: Scanned)
    ensures |r.rest| <= |inner|
  {
    var n := NameLength(inner);
    var name, after := inner[..n], inner[n..];
    if n == 0 then Scanned(Broken(NoName), [])
    else if "}" <= after then Scanned(Required(name), after[1..])
    else if ":-" <= after then ScanDefault(name, after[2..], true)
    else if "-" <= after then ScanDefault(name, after[1..], false)
    else Scanned(Broken(NoOperator), [])
  }

  function ScanDefault(name: string, s: string, onEmpty: bool): (r: Scanned)
    ensures |r.rest| <= |s|
  {
    var end := Text.IndexOf(s, '}');
    if end == |s| then Scanned(Broken(NoClosingBrace), [])
    else Scanned(Defaulted(name, s[..end], onEmpty), s[end + 1..])
  }

  function ScanToken(s: string): (r: Scanned)
    requires s != []
    ensures |r.rest| < |s|
  {
    if "$${" <= s then Scanned(Literal("${"), s[3..])
    else if "${" <= s then ScanPlaceholder(s[2..])
    else Scanned(Literal(s[..1]), s[1..])
  }

  /** The tokens of a text, up to the first broken one. */
  function Tokenise(s: string): seq<Token>
    decreases |s|
  {
    if s == [] then []
    else
      var t := ScanToken(s);
      [t.token] + if t.token.Broken? then [] else Tokenise(t.rest)
  }

  // --- meaning ---

  function Piece(t: Token, env: Env): Result<string, Failure> {
    match t
    case Literal(text) => Ok(text)
    case Required(name) =>
      (match env(name)
       case Set(value) => Ok(value)
       case Unset => Err(NotSet(name))
       case NotUnicode => Err(BadEncoding(name)))
    case Defaulted(name, default, onEmpty) =>
      (match env(name)
       case Set(value) => Ok(if onEmpty && value == "" then default else value)
       case Unset => Ok(default)
       case NotUnicode => Err(BadEncoding(name)))
    case Broken(reason) => Err(Malformed(reason))
  }

  function Join2(a: Result<string, Failure>, b: Result<string, Failure>): Result<string, Failure> {
    if a.Err? then a else if b.Err? then b else Ok(a.value + b.value)
  }

  /** Evaluate token by token; the first failure stands for the whole. */
  function Evaluate(ts: seq<Token>, env: Env): Result<string, Failure> {
    if ts == [] then Ok([]) else Join2(Piece(ts[0], env), Evaluate(ts[1..], env))
  }

  function Substitute(s: string, env: Env): Result<string, Failure> {
    Evaluate(Tokenise(s), env)
  }

  // --- what the meaning implies ---

  predicate WellFormed(s: string) {
    forall t :: t in Tokenise(s) ==> !t.Broken?
  }

  /** Substitution succeeds exactly when every placeholder is well formed, every variable
      without a default is set, and every variable mentioned is readable. */
  lemma SucceedsExactly(s: string, env: Env)
    ensures Substitute(s, env).Ok? <==>
              WellFormed(s) && forall t :: t in Tokenise(s) ==>
                (t.Required? ==> env(t.name).Set?) && (t.Defaulted? ==> !env(t.name).NotUnicode?)
  {
    EvaluateSucceeds(Tokenise(s), env);
    var ts := Tokenise(s);
    if forall t :: t in ts ==> Piece(t, env).Ok? {
      forall t | t in ts ensures !t.Broken? && (t.Required? ==> env(t.name).Set?) && (t.Defaulted? ==> !env(t.name).NotUnicode?) {
        assert Piece(t, env).Ok?;
      }
    }
  }

  lemma {:induction false} EvaluateSucceeds(ts: seq<Token>, env: Env)
    ensures Evaluate(ts, env).Ok? <==> forall t :: t in ts ==> Piece(t, env).Ok?
  {
    if ts != [] {
      EvaluateSucceeds(ts[1..], env);
      assert ts == [ts[0]] + ts[1..];
    }
  }

  predicate Mentions(ts: seq<Token>, name: string) {
    exists t :: t in ts && (t.Required? || t.Defaulted?) && t.name == name
  }

  /** Only the variables a text mentions matter. */
  lemma {:induction false} DependsOnMentioned(ts: seq<Token>, env: Env, env': Env)
    requires forall name :: Mentions(ts, name) ==> env(name) == env'(name)
    ensures Evaluate(ts, env) == Evaluate(ts, env')
  {
    if ts != [] {
      var t := ts[0];
      if t.Required? || t.Defaulted? { assert Mentions(ts, t.name); }
      forall name | Mentions(ts[1..], name) ensures env(name) == env'(name) {
        assert Mentions(ts, name);
      }
      DependsOnMentioned(ts[1..], env, env');
    }
  }

  /** `${` written so that it comes out as text. */
  function Escaped(s: string): string {
    if s == [] then [] else (if "${" <= s then "$$" else s[..1]) + Escaped(s[1..])
  }

  /** Escaping undoes substitution: an escaped text substitutes to itself in every environment. */
  lemma {:induction false} EscapedComesBack(s: string, env: Env)
    ensures Substitute(Escaped(s), env) == Ok(s)
    decreases |s|
  {
    if s == [] {
    } else if "${" <= s {
      EscapedComesBack(s[2..], env);
      EscapedOpening(s);
      OpeningRead(Escaped(s[2..]), env);
      assert s == "${" + s[2..];
    } else {
      EscapedComesBack(s[1..], env);
      EscapedStart(s);
      PlainRead(Escaped(s), env);
      assert s == s[..1] + s[1..];
    }
  }

  lemma EscapedOpening(s: string)
    requires "${" <= s
    ensures Escaped(s) == "$${" + Escaped(s[2..])
  {
    var t := s[1..];
    assert t[0] == '{' && t[1..] == s[2..] && t[..1] == "{";
    assert !("${" <= t);
  }

  lemma OpeningRead(rest: string, env: Env)
    ensures Substitute("$${" + rest, env) == Join2(Ok("${"), Substitute(rest, env))
  {
    var e := "$${" + rest;
    assert e[3..] == rest;
    OneMore(e, env);
  }

  lemma PlainRead(e: string, env: Env)
    requires e != [] && !("$${" <= e) && !("${" <= e)
    ensures Substitute(e, env) == Join2(Ok(e[..1]), Substitute(e[1..], env))
  {
    OneMore(e, env);
  }

  lemma EscapedStart(s: string)
    requires s != [] && !("${" <= s)
    ensures var e := Escaped(s);
            && e[..1] == s[..1] && e[1..] == Escaped(s[1..])
            && !("$${" <= e) && !("${" <= e)
  {
    var e, u := Escaped(s), Escaped(s[1..]);
    EscapedHead(s[1..]);
    assert e == s[..1] + u;
    DollarBrace(u);
    DollarBrace(e);
    if |u| >= 1 { assert e[1] == u[0]; }
    if |u| >= 2 { assert e[2] == u[1]; }
  }

  lemma DollarBrace(s: string)
    ensures "${" <= s <==> |s| >= 2 && s[0] == '$' && s[1] == '{'
    ensures "$${" <= s <==> |s| >= 3 && s[0] == '$' && s[1] == '$' && s[2] == '{'
  {
  }

  lemma OneMore(s: string, env: Env)
    requires s != []
    ensures var t := ScanToken(s);
            !t.token.Broken? ==> Substitute(s, env) == Join2(Piece(t.token, env), Substitute(t.rest, env))
  {
    var t := ScanToken(s);
    if !t.token.Broken? { assert Tokenise(s)[1..] == Tokenise(t.rest); }
  }

  /** An escaped text never starts with `${`, and starts with `{` only if the text does. */
  lemma {:induction false} EscapedHead(s: string)
    ensures !("${" <= Escaped(s))
    ensures Escaped(s) != [] && Escaped(s)[0] == '{' ==> s != [] && s[0] == '{'
  {
    var e := Escaped(s);
    EscapedFirst(s);
    if "${" <= s {
      assert e[1] == '$';
    } else if s != [] {
      var rest := Escaped(s[1..]);
      assert e == s[..1] + rest;
      EscapedFirst(s[1..]);
      assert |e| > 1 ==> e[1] == rest[0] == s[1];
    }
  }

  lemma EscapedFirst(s: string)
    ensures s != [] ==> Escaped(s) != [] && Escaped(s)[0] == s[0]
  {
  }

  lemma SliceConcat(s: string, b: string, i: nat)
    requires i <= |s|
    ensures (s + b)[..i] == s[..i] && (s + b)[i..] == s[i..] + b
  {
  }

  /** A well-formed text that does not end in `$` is read on its own, whatever follows. */
  lemma {:induction false} TokeniseConcat(a: string, b: string)
    requires WellFormed(a) && (a != [] ==> a[|a| - 1] != '$')
    ensures Tokenise(a + b) == Tokenise(a) + Tokenise(b)
    decreases |a|
  {
    if a == [] {
      assert a + b == b;
    } else {
      var t := ScanToken(a);
      FirstToken(a, Tokenise(a));
      ScanTokenConcat(a, b);
      RestEnd(a);
      TokeniseConcat(t.rest, b);
      FirstToken(a + b, Tokenise(a + b));
      Regroup(t.token, Tokenise(t.rest), Tokenise(b));
    }
  }

  lemma Regroup(t: Token, a: seq<Token>, b: seq<Token>)
    ensures [t] + (a + b) == [t] + a + b
  {
  }

  lemma FirstToken(s: string, ts: seq<Token>)
    requires s != [] && ts == Tokenise(s)
    ensures WellFormed(s) ==> !ScanToken(s).token.Broken? && WellFormed(ScanToken(s).rest)
    ensures !ScanToken(s).token.Broken? ==> ts == [ScanToken(s).token] + Tokenise(ScanToken(s).rest)
  {
    assert ScanToken(s).token in ts;
    assert !ScanToken(s).token.Broken? ==> forall x :: x in Tokenise(ScanToken(s).rest) ==> x in ts;
  }

  predicate SuffixOf(r: string, a: string) {
    |r| <= |a| && a[|a| - |r|..] == r
  }

  lemma SuffixTwice(r: string, a: string, i: nat)
    requires i <= |a| && SuffixOf(r, a[i..])
    ensures SuffixOf(r, a)
  {
  }

  lemma DefaultEnd(name: string, s: string, onEmpty: bool)
    ensures SuffixOf(ScanDefault(name, s, onEmpty).rest, s)
  {
  }

  /** What follows a default that starts at `i`. */
  lemma DefaultWithin(name: string, after: string, i: nat, onEmpty: bool)
    requires i <= |after|
    ensures SuffixOf(ScanDefault(name, after[i..], onEmpty).rest, after)
  {
    DefaultEnd(name, after[i..], onEmpty);
    SuffixTwice(ScanDefault(name, after[i..], onEmpty).rest, after, i);
  }

  lemma PlaceholderEnd(inner: string)
    ensures SuffixOf(ScanPlaceholder(inner).rest, inner)
  {
    var n := NameLength(inner);
    var name, after := inner[..n], inner[n..];
    if n > 0 && "}" <= after {
      SuffixTwice(after[1..], inner, n);
    } else if n > 0 && ":-" <= after {
      DefaultWithin(name, after, 2, true);
      SuffixTwice(ScanDefault(name, after[2..], true).rest, inner, n);
    } else if n > 0 && "-" <= after {
      DefaultWithin(name, after, 1, false);
      SuffixTwice(ScanDefault(name, after[1..], false).rest, inner, n);
    }
  }

  lemma RestEnd(a: string)
    requires a != [] && !ScanToken(a).token.Broken?
    ensures var r := ScanToken(a).rest;
            r == a[|a| - |r|..] && (r != [] ==> r[|r| - 1] == a[|a| - 1])
  {
    var r := ScanToken(a).rest;
    if !("$${" <= a) && "${" <= a {
      PlaceholderEnd(a[2..]);
      SuffixTwice(r, a, 2);
    }
    assert SuffixOf(r, a);
  }

  lemma PrefixSame(p: string, a: string, b: string)
    requires |p| <= |a|
    ensures p <= a + b <==> p <= a
  {
    assert (a + b)[..|p|] == a[..|p|];
  }

  /** Text that does not end in a dollar sign opens no placeholder with what follows. */
  lemma SameOpening(a: string, b: string)
    requires a != [] && a[|a| - 1] != '$'
    ensures "$${" <= a + b <==> "$${" <= a
    ensures "${" <= a + b <==> "${" <= a
  {
    assert (a + b)[|a| - 1] == a[|a| - 1];
    if |a| >= 3 { PrefixSame("$${", a, b); }
    if |a| >= 2 { PrefixSame("${", a, b); }
  }

  lemma ScanTokenConcat(a: string, b: string)
    requires a != [] && a[|a| - 1] != '$' && !ScanToken(a).token.Broken?
    ensures ScanToken(a + b) == Scanned(ScanToken(a).token, ScanToken(a).rest + b)
  {
    SameOpening(a, b);
    if "$${" <= a {
      SliceConcat(a, b, 3);
    } else if "${" <= a {
      SliceConcat(a, b, 2);
      ScanPlaceholderConcat(a[2..], b);
    } else {
      SliceConcat(a, b, 1);
    }
  }

  lemma {:induction false} ScanPlaceholderConcat(inner: string, b: string)
    requires !ScanPlaceholder(inner).token.Broken?
    ensures ScanPlaceholder(inner + b) == Scanned(ScanPlaceholder(inner).token, ScanPlaceholder(inner).rest + b)
  {
    var n := NameLength(inner);
    var name, after := inner[..n], inner[n..];
    assert after != [];
    NameLengthConcat(inner, b);
    SliceConcat(inner, b, n);
    assert (after + b)[0] == after[0];
    if after[0] == ':' {
      SliceConcat(after, b, 2);
      ScanDefaultConcat(name, after[2..], true, b);
    } else {
      SliceConcat(after, b, 1);
      if after[0] == '-' { ScanDefaultConcat(name, after[1..], false, b); }
    }
  }

  lemma NameLengthConcat(inner: string, b: string)
    requires 0 < NameLength(inner) < |inner|
    ensures NameLength(inner + b) == NameLength(inner)
  {
    NameRestConcat(inner[1..], b);
    SliceConcat(inner, b, 1);
  }

  lemma {:induction false} NameRestConcat(s: string, b: string)
    ensures NameRest(s) < |s| ==> NameRest(s + b) == NameRest(s)
  {
    if s != [] && DotenvLine.IsNameChar(s[0]) {
      assert (s + b)[1..] == s[1..] + b;
      NameRestConcat(s[1..], b);
    }
  }

  lemma {:induction false} ScanDefaultConcat(name: string, s: string, onEmpty: bool, b: string)
    requires Text.IndexOf(s, '}') < |s|
    ensures ScanDefault(name, s + b, onEmpty)
         == Scanned(ScanDefault(name, s, onEmpty).token, ScanDefault(name, s, onEmpty).rest + b)
  {
    var end := Text.IndexOf(s, '}');
    Text.IndexOfHead(s, b, '}');
    SliceConcat(s, b, end);
    SliceConcat(s, b, end + 1);
    assert Text.IndexOf(s + b, '}') == end;
  }

  lemma {:induction false} EvaluateConcat(a: seq<Token>, b: seq<Token>, env: Env)
    ensures Evaluate(a + b, env) == Join2(Evaluate(a, env), Evaluate(b, env))
  {
    if a == [] {
      assert a + b == b;
      if Evaluate(b, env).Ok? { assert [] + Evaluate(b, env).value == Evaluate(b, env).value; }
    } else {
      assert (a + b)[1..] == a[1..] + b;
      EvaluateConcat(a[1..], b, env);
      Join2Assoc(Piece(a[0], env), Evaluate(a[1..], env), Evaluate(b, env));
    }
  }

  /** A variable's value appears in the output verbatim, whatever it contains: it is neither
      re-scanned nor able to change how the text around it is read. */
  lemma ValuesAreVerbatim(a: string, name: string, b: string, env: Env)
    requires WellFormed(a) && (a != [] ==> a[|a| - 1] != '$')
    requires DotenvLine.IsEnvName(name) && env(name).Set?
    ensures Substitute(a + ("${" + name + "}") + b, env)
         == Join2(Join2(Substitute(a, env), Ok(env(name).value)), Substitute(b, env))
  {
    var p := "${" + name + "}";
    RequiredTokens(name);
    assert p[|p| - 1] == '}';
    TokensAround(a, p, Required(name), b);
    RequiredPiece(name, env);
    PieceAround(Tokenise(a), Required(name), Tokenise(b), env);
  }

  lemma TokensAround(a: string, p: string, t: Token, b: string)
    requires WellFormed(a) && (a != [] ==> a[|a| - 1] != '$')
    requires WellFormed(p) && p != [] && p[|p| - 1] != '$' && Tokenise(p) == [t]
    ensures Tokenise(a + p + b) == Tokenise(a) + ([t] + Tokenise(b))
  {
    TokeniseConcat(a, p + b);
    TokeniseConcat(p, b);
    TextRegroup(a, p, b);
  }

  lemma TextRegroup(a: string, b: string, c: string)
    ensures a + b + c == a + (b + c)
  {
  }

  lemma PieceAround(a: seq<Token>, t: Token, b: seq<Token>, env: Env)
    ensures Evaluate(a + ([t] + b), env) == Join2(Join2(Evaluate(a, env), Evaluate([t], env)), Evaluate(b, env))
  {
    EvaluateConcat(a, [t] + b, env);
    EvaluateConcat([t], b, env);
    Join2Assoc(Evaluate(a, env), Evaluate([t], env), Evaluate(b, env));
  }

  lemma RequiredPiece(name: string, env: Env)
    requires env(name).Set?
    ensures Evaluate([Required(name)], env) == Ok(env(name).value)
  {
    assert [Required(name)][1..] == [];
    assert env(name).value + [] == env(name).value;
  }

  lemma Join2Assoc(a: Result<string, Failure>, b: Result<string, Failure>, c: Result<string, Failure>)
    ensures Join2(a, Join2(b, c)) == Join2(Join2(a, b), c)
  {
    if a.Ok? && b.Ok? && c.Ok? { assert a.value + (b.value + c.value) == a.value + b.value + c.value; }
  }

  lemma RequiredTokens(name: string)
    requires DotenvLine.IsEnvName(name)
    ensures Tokenise("${" + name + "}") == [Required(name)]
  {
    var p := "${" + name + "}";
    var inner := name + "}";
    assert p[0] == '$' && p[1] == '{' && p[2..] == inner;
    assert inner[1..] == name[1..] + "}";
    NameRestOf(name[1..], "}");
    var n := |name|;
    assert inner[..n] == name && inner[n..] == "}";
    assert ScanToken(p) == Scanned(Required(name), []);
    assert "}"[1..] == [];
  }

  lemma {:induction false} NameRestOf(s: string, tail: string)
    requires forall i :: 0 <= i < |s| ==> DotenvLine.IsNameChar(s[i])
    requires tail == [] || !DotenvLine.IsNameChar(tail[0])
    ensures NameRest(s + tail) == |s|
  {
    if s == [] {
      assert s + tail == tail;
    } else {
      assert (s + tail)[1..] == s[1..] + tail;
      NameRestOf(s[1..], tail);
    }
  }
}
