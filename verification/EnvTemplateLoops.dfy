/** The substitution loop, the walk over a configuration tree, and the whole-value recogniser. */
module EnvTemplateLoops {
  import opened Prelude
  import Text
  import DotenvLine
  import opened TomlTree
  import opened EnvTemplate

  /** `leading_var_name_len`. */
  method LeadingVarNameLen(s: string) returns (len: nat)
    ensures len == NameLength(s)
  {
    len := 0;
    for i := 0 to |s|
      invariant len == i
      invariant NameLength(s) == if i == 0 then NameLength(s) else i + NameRest(s[i..])
    {
      var c := s[i];
      var valid := if i == 0 then DotenvLine.IsNameStart(c) else DotenvLine.IsNameChar(c);
      if !valid { return; }
      assert i > 0 ==> s[i..][1..] == s[i + 1..];
      len := i + 1;
    }
  }

  lemma {:induction false} PlainPrefix(s: string, i: nat, env: Env)
    requires i <= |s| && forall j :: 0 <= j < i ==> s[j] != '$'
    ensures Substitute(s, env) == Join2(Ok(s[..i]), Substitute(s[i..], env))
    decreases i
  {
    if i == 0 {
      assert s[..0] == [] && s[0..] == s;
      EmptyFirst(Substitute(s, env));
    } else {
      PlainPrefix(s[1..], i - 1, env);
      DollarBrace(s);
      OneMore(s, env);
      assert s[1..][..i - 1] == s[1..i] && s[1..][i - 1..] == s[i..];
      Join2Assoc(Ok(s[..1]), Ok(s[1..i]), Substitute(s[i..], env));
      assert s[..1] + s[1..i] == s[..i];
    }
  }

  lemma EmptyFirst(r: Result<string, Failure>)
    ensures Join2(Ok([]), r) == r
  {
    if r.Ok? { assert [] + r.value == r.value; }
  }

  lemma Advance(out: string, piece: string, r: Result<string, Failure>)
    ensures Join2(Ok(out), Join2(Ok(piece), r)) == Join2(Ok(out + piece), r)
  {
    Join2Assoc(Ok(out), Ok(piece), r);
  }

  /** A broken token ends the text with its failure. */
  lemma BrokenEnds(s: string, env: Env)
    requires s != [] && ScanToken(s).token.Broken?
    ensures Substitute(s, env) == Err(Malformed(ScanToken(s).token.reason))
  {
  }

  /** A placeholder that is broken, or that has no value, fails the whole substitution. */
  lemma FailureOfPlaceholder(tail: string, env: Env)
    requires "${" <= tail && !("$${" <= tail)
    ensures ScanToken(tail) == ScanPlaceholder(tail[2..])
    ensures var t := ScanPlaceholder(tail[2..]).token;
            && (t.Broken? ==> Substitute(tail, env) == Err(Malformed(t.reason)))
            && (!t.Broken? && Piece(t, env).Err? ==> Substitute(tail, env) == Err(Piece(t, env).error))
  {
    var t := ScanToken(tail);
    if t.token.Broken? { BrokenEnds(tail, env); }
    if Piece(t.token, env).Err? { FailingPiece(tail, env); }
  }

  lemma FailingPiece(s: string, env: Env)
    requires s != [] && Piece(ScanToken(s).token, env).Err?
    ensures Substitute(s, env) == Err(Piece(ScanToken(s).token, env).error)
  {
  }

  /** `substitute_str_with`: the scan from one `$` to the next computes the meaning of the text. */
  method SubstituteStr(input: string, env: Env) returns (r: Result<string, Failure>)
    ensures r == Substitute(input, env)
  {
    var out: string := [];
    var rest := input;
    EmptyFirst(Substitute(input, env));
    while Text.IndexOf(rest, '$') < |rest|
      invariant Substitute(input, env) == Join2(Ok(out), Substitute(rest, env))
      decreases |rest|
    {
      var pos := Text.IndexOf(rest, '$');
      var tail := rest[pos..];
      PlainPrefix(rest, pos, env);
      Advance(out, rest[..pos], Substitute(tail, env));
      out := out + rest[..pos];
      OneMore(tail, env);
      DollarBrace(tail);
      var piece: string;
      if "$${" <= tail {
        piece, rest := "${", tail[3..];
      } else if "${" <= tail {
        var p := Placeholder(tail, env);
        if p.Err? { return Err(p.error); }
        piece, rest := p.value.0, p.value.1;
      } else {
        assert tail[..1] == "$";
        piece, rest := "$", tail[1..];
      }
      Advance(out, piece, Substitute(rest, env));
      out := out + piece;
    }
    PlainPrefix(rest, |rest|, env);
    assert rest[..|rest|] == rest && rest[|rest|..] == [];
    Advance(out, rest, Ok([]));
    assert out + rest + [] == out + rest;
    return Ok(out + rest);
  }

  /** The placeholder branches of the loop: what to emit and where to go on. */
  method Placeholder(tail: string, env: Env) returns (r: Result<(string, string), Failure>)
    requires "${" <= tail && !("$${" <= tail)
    ensures r.Ok? ==> !ScanToken(tail).token.Broken? && Piece(ScanToken(tail).token, env) == Ok(r.value.0)
    ensures r.Ok? ==> r.value.1 == ScanToken(tail).rest
    ensures r.Err? ==> Substitute(tail, env) == Err(r.error)
  {
    FailureOfPlaceholder(tail, env);
    var inner := tail[2..];
    var nameLen := LeadingVarNameLen(inner);
    if nameLen == 0 { return Err(Malformed(NoName)); }
    var name, afterName := inner[..nameLen], inner[nameLen..];
    if "}" <= afterName {
      match env(name)
      case Set(value) => return Ok((value, afterName[1..]));
      case Unset => return Err(NotSet(name));
      case NotUnicode => return Err(BadEncoding(name));
    }
    if !(":-" <= afterName) && !("-" <= afterName) { return Err(Malformed(NoOperator)); }
    var emptyUsesDefault := ":-" <= afterName;
    var afterOp := if emptyUsesDefault then afterName[2..] else afterName[1..];
    var end := Text.IndexOf(afterOp, '}');
    if end == |afterOp| { return Err(Malformed(NoClosingBrace)); }
    var default := afterOp[..end];
    match env(name)
    case Set(value) =>
      var chosen := if !(emptyUsesDefault && value == "") then value else default;
      return Ok((chosen, afterOp[end + 1..]));
    case Unset => return Ok((default, afterOp[end + 1..]));
    case NotUnicode => return Err(BadEncoding(name));
  }

  // --- the configuration tree ---

  predicate TreeOk(v: Toml, env: Env) {
    match v
    case ScalarV(s) => s.Text? ==> Substitute(s.text, env).Ok?
    case ArrayV(items) => forall i :: 0 <= i < |items| ==> TreeOk(items[i], env)
    case TableV(fields) => forall k :: k in fields ==> TreeOk(fields[k], env)
  }

  /** Every string replaced by its meaning, everything else as it was. */
  function SubstituteTree(v: Toml, env: Env): Toml
    requires TreeOk(v, env)
  {
    match v
    case ScalarV(s) => if s.Text? then ScalarV(Text(Substitute(s.text, env).value)) else v
    case ArrayV(items) => ArrayV(seq(|items|, i requires 0 <= i < |items| => SubstituteTree(items[i], env)))
    case TableV(fields) => TableV(map k | k in fields :: SubstituteTree(fields[k], env))
  }

  /** Some string of the tree fails with `f`. */
  predicate FailsWith(v: Toml, env: Env, f: Failure) {
    match v
    case ScalarV(s) => s.Text? && Substitute(s.text, env) == Err(f)
    case ArrayV(items) => exists i :: 0 <= i < |items| && FailsWith(items[i], env, f)
    case TableV(fields) => exists k :: k in fields && FailsWith(fields[k], env, f)
  }

  /** `walk`: text without a `$` is skipped, and skipping it changes nothing. */
  method Walk(v: Toml, env: Env) returns (r: Result<Toml, Failure>)
    ensures r.Ok? <==> TreeOk(v, env)
    ensures r.Ok? ==> r.value == SubstituteTree(v, env)
    ensures r.Err? ==> FailsWith(v, env, r.error)
    decreases v
  {
    match v
    case ScalarV(s) =>
      if !s.Text? { return Ok(v); }
      if Text.IndexOf(s.text, '$') < |s.text| {
        var t := SubstituteStr(s.text, env);
        if t.Err? { return Err(t.error); }
        return Ok(ScalarV(Text(t.value)));
      }
      PlainPrefix(s.text, |s.text|, env);
      assert s.text[..|s.text|] == s.text && s.text[|s.text|..] == [] && s.text + [] == s.text;
      return Ok(v);
    case ArrayV(items) =>
      var done: seq<Toml> := [];
      for i := 0 to |items|
        invariant |done| == i
        invariant forall j :: 0 <= j < i ==> TreeOk(items[j], env) && done[j] == SubstituteTree(items[j], env)
      {
        var item := Walk(items[i], env);
        if item.Err? { return Err(item.error); }
        done := done + [item.value];
      }
      assert ArrayV(done) == SubstituteTree(v, env);
      return Ok(ArrayV(done));
    case TableV(fields) =>
      var done: map<string, Toml> := map[];
      var todo := fields.Keys;
      while todo != {}
        invariant todo <= fields.Keys && done.Keys == fields.Keys - todo
        invariant forall k :: k in done ==> TreeOk(fields[k], env) && done[k] == SubstituteTree(fields[k], env)
        decreases todo
      {
        var k :| k in todo;
        var item := Walk(fields[k], env);
        if item.Err? { return Err(item.error); }
        done := done[k := item.value];
        todo := todo - {k};
      }
      assert TableV(done) == SubstituteTree(v, env);
      return Ok(TableV(done));
  }

  // --- the whole-value recogniser ---

  /** A value that is one environment reference and nothing else. */
  datatype Binding = Binding(variable: string, fallback: Option<string>, fallbackOnEmpty: bool)

  function FirstOperator(s: string): (i: nat)
    ensures i <= |s|
    ensures i < |s| ==> s[i] == ':' || s[i] == '-'
    ensures forall j :: 0 <= j < i ==> s[j] != ':' && s[j] != '-'
  {
    if s == [] || s[0] == ':' || s[0] == '-' then 0 else 1 + FirstOperator(s[1..])
  }

  /** `whole_value_env_binding`. */
  function WholeValueBinding(value: string): Option<Binding> {
    if !("${" <= value) then None else
    var inner := value[2..];
    if inner == [] || inner[|inner| - 1] != '}' then None else
    var body := inner[..|inner| - 1];
    var i := FirstOperator(body);
    if i == |body| then
      if DotenvLine.IsEnvName(body) then Some(Binding(body, None, false)) else None
    else if ":-" <= body[i..] then
      if DotenvLine.IsEnvName(body[..i]) then Some(Binding(body[..i], Some(body[i + 2..]), true)) else None
    else if "-" <= body[i..] then
      if DotenvLine.IsEnvName(body[..i]) then Some(Binding(body[..i], Some(body[i + 1..]), false)) else None
    else None
  }

  /** What a settings screen takes a binding to mean. */
  function BindingMeans(b: Binding, env: Env): Result<string, Failure> {
    match env(b.variable)
    case NotUnicode => Err(BadEncoding(b.variable))
    case Set(value) => Ok(if b.fallbackOnEmpty && value == "" && b.fallback.Some? then b.fallback.value else value)
    case Unset => if b.fallback.Some? then Ok(b.fallback.value) else Err(NotSet(b.variable))
  }

  function Placeheld(b: Binding): Token {
    match b.fallback
    case None => Required(b.variable)
    case Some(f) => Defaulted(b.variable, f[..Text.IndexOf(f, '}')], b.fallbackOnEmpty)
  }

  /** What the substituter leaves unread of a recognised value: what follows the first `}` of
      the fallback, and the closing brace. */
  function LeftOver(b: Binding): string {
    match b.fallback
    case None => []
    case Some(f) => if Text.IndexOf(f, '}') == |f| then [] else f[Text.IndexOf(f, '}') + 1..] + "}"
  }

  lemma NameAndTail(name: string, tail: string)
    requires DotenvLine.IsEnvName(name) && (tail == [] || !DotenvLine.IsNameChar(tail[0]))
    ensures NameLength(name + tail) == |name|
    ensures (name + tail)[..|name|] == name && (name + tail)[|name|..] == tail
  {
    assert (name + tail)[1..] == name[1..] + tail;
    NameRestOf(name[1..], tail);
  }

  lemma ScanDefaultOf(name: string, f: string, onEmpty: bool)
    ensures var s := ScanDefault(name, f + "}", onEmpty);
            && s.token == Defaulted(name, f[..Text.IndexOf(f, '}')], onEmpty)
            && s.rest == if Text.IndexOf(f, '}') == |f| then [] else f[Text.IndexOf(f, '}') + 1..] + "}"
  {
    if Text.IndexOf(f, '}') < |f| {
      ScanDefaultConcat(name, f, onEmpty, "}");
    } else {
      ClosingBrace(f);
    }
  }

  lemma ClosingBrace(f: string)
    requires Text.IndexOf(f, '}') == |f|
    ensures Text.IndexOf(f + "}", '}') == |f| && (f + "}")[..|f|] == f && (f + "}")[|f| + 1..] == [] && f[..|f|] == f
  {
    assert f + "}" + [] == f + "}" && '}' !in f;
    Text.CutAtFirst(f, "}", []);
  }

  /** How a recognised value is made up. */
  function Written(b: Binding): string {
    "${" + (b.variable + match b.fallback
                         case None => "}"
                         case Some(f) => (if b.fallbackOnEmpty then ":-" else "-") + (f + "}"))
  }

  lemma RecognisedParts(value: string)
    requires WholeValueBinding(value).Some?
    ensures var b := WholeValueBinding(value).value;
            && DotenvLine.IsEnvName(b.variable) && (b.fallbackOnEmpty ==> b.fallback.Some?)
            && value == Written(b)
  {
    var b := WholeValueBinding(value).value;
    var inner := value[2..];
    var body := inner[..|inner| - 1];
    var i := FirstOperator(body);
    assert inner == body + "}";
    assert value == "${" + inner;
    if i < |body| {
      var op := if ":-" <= body[i..] then ":-" else "-";
      assert body[i..] == op + b.fallback.value by {
        assert body[i..][|op|..] == body[i + |op|..];
      }
      Pieces(body, i, op, b.fallback.value);
    }
  }

  lemma Pieces(body: string, i: nat, op: string, f: string)
    requires i <= |body| && body[i..] == op + f
    ensures body + "}" == body[..i] + (op + (f + "}"))
  {
    assert body == body[..i] + body[i..];
  }

  /** The substituter reads a recognised value as one placeholder and the left-over. */
  lemma RecognisedScan(value: string)
    requires WholeValueBinding(value).Some?
    ensures var b := WholeValueBinding(value).value;
            ScanToken(value) == Scanned(Placeheld(b), LeftOver(b))
  {
    RecognisedParts(value);
    WrittenScan(WholeValueBinding(value).value);
  }

  lemma WrittenScan(b: Binding)
    requires DotenvLine.IsEnvName(b.variable) && (b.fallbackOnEmpty ==> b.fallback.Some?)
    ensures ScanToken(Written(b)) == Scanned(Placeheld(b), LeftOver(b))
  {
    match b.fallback
    case None => WrittenRequired(b.variable);
    case Some(f) => WrittenDefaulted(b.variable, f, b.fallbackOnEmpty);
  }

  lemma StartsPlaceholder(inner: string)
    ensures ScanToken("${" + inner) == ScanPlaceholder(inner)
  {
    var s := "${" + inner;
    assert s[1] == '{' && s[2..] == inner;
    DollarBrace(s);
  }

  lemma WrittenRequired(name: string)
    requires DotenvLine.IsEnvName(name)
    ensures ScanToken("${" + (name + "}")) == Scanned(Required(name), [])
  {
    StartsPlaceholder(name + "}");
    NameAndTail(name, "}");
    assert "}"[1..] == [];
  }

  lemma WrittenDefaulted(name: string, f: string, onEmpty: bool)
    requires DotenvLine.IsEnvName(name)
    ensures var op := if onEmpty then ":-" else "-";
            ScanToken("${" + (name + (op + (f + "}")))) == ScanDefault(name, f + "}", onEmpty)
    ensures ScanDefault(name, f + "}", onEmpty)
         == Scanned(Placeheld(Binding(name, Some(f), onEmpty)), LeftOver(Binding(name, Some(f), onEmpty)))
  {
    var op := if onEmpty then ":-" else "-";
    StartsPlaceholder(name + (op + (f + "}")));
    ScanOperator(name, op, f + "}", onEmpty);
    ScanDefaultOf(name, f, onEmpty);
  }

  lemma ScanOperator(name: string, op: string, s: string, onEmpty: bool)
    requires DotenvLine.IsEnvName(name) && op == if onEmpty then ":-" else "-"
    ensures ScanPlaceholder(name + (op + s)) == ScanDefault(name, s, onEmpty)
  {
    var rest := op + s;
    NameAndTail(name, rest);
    assert rest[0] == op[0] && rest[|op|..] == s;
  }

  /** With no `}` in the fallback, recogniser and substituter agree in every environment. */
  lemma BindingAgrees(value: string, env: Env)
    requires WholeValueBinding(value).Some?
    requires var f := WholeValueBinding(value).value.fallback; f.Some? ==> '}' !in f.value
    ensures Substitute(value, env) == BindingMeans(WholeValueBinding(value).value, env)
  {
    var b := WholeValueBinding(value).value;
    RecognisedParts(value);
    RecognisedScan(value);
    PlainFallback(b);
    OneToken(value, env);
    PlainMeans(b, env);
  }

  lemma PlainMeans(b: Binding, env: Env)
    requires b.fallbackOnEmpty ==> b.fallback.Some?
    requires b.fallback.Some? ==> '}' !in b.fallback.value
    ensures Piece(Placeheld(b), env) == BindingMeans(b, env)
  {
    PlainFallback(b);
  }

  lemma OneToken(value: string, env: Env)
    requires value != [] && ScanToken(value).rest == [] && !ScanToken(value).token.Broken?
    ensures Substitute(value, env) == Piece(ScanToken(value).token, env)
  {
    OneMore(value, env);
    LastPiece(Piece(ScanToken(value).token, env));
  }

  lemma PlainFallback(b: Binding)
    requires b.fallback.Some? ==> '}' !in b.fallback.value
    ensures LeftOver(b) == [] && (b.fallback.Some? ==> Placeheld(b) == Defaulted(b.variable, b.fallback.value, b.fallbackOnEmpty))
  {
    if b.fallback.Some? {
      var f := b.fallback.value;
      Text.IndexOfUnique(f, '}', |f|);
      assert f[..|f|] == f;
    }
  }

  lemma LastPiece(r: Result<string, Failure>)
    ensures Join2(r, Ok([])) == r
  {
    if r.Ok? { assert r.value + [] == r.value; }
  }

  function Everywhere(value: string): Env {
    _ => Set(value)
  }

  lemma PieceNotEmpty(s: string, value: string)
    requires s != [] && value != []
    ensures Piece(ScanToken(s).token, Everywhere(value)) != Ok([])
  {
  }

  /** When every variable is set to the same non-empty value, a non-empty text never substitutes
      to nothing. */
  lemma NeverEmpty(s: string, value: string)
    requires s != [] && value != []
    ensures Substitute(s, Everywhere(value)) != Ok([])
  {
    PieceNotEmpty(s, value);
    if ScanToken(s).token.Broken? {
      BrokenEnds(s, Everywhere(value));
    } else {
      OneMore(s, Everywhere(value));
    }
  }

  /** Recogniser and substituter agree in every environment exactly when the fallback holds
      no `}`. */
  lemma BindingAgreesExactly(value: string)
    requires WholeValueBinding(value).Some?
    ensures var b := WholeValueBinding(value).value;
            (b.fallback.Some? ==> '}' !in b.fallback.value) <==>
              forall env :: Substitute(value, env) == BindingMeans(b, env)
  {
    var b := WholeValueBinding(value).value;
    if b.fallback.Some? && '}' in b.fallback.value {
      var env := Everywhere("x");
      RecognisedScan(value);
      OneMore(value, env);
      NeverEmpty(LeftOver(b), "x");
      assert Substitute(value, env) != BindingMeans(b, env);
    } else {
      forall env ensures Substitute(value, env) == BindingMeans(b, env) { BindingAgrees(value, env); }
    }
  }
}
