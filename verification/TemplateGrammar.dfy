/** The template language of panoptikon/src/env_template.rs as its users write it: plain text, the
    escaped opening, and the three forms of placeholder, each with its meaning. Substitution gives
    a text the meaning of its parts, fails where a part does, and rejects exactly the texts that
    are no such sequence. */
module TemplateGrammar {
  import opened Prelude
  import Text
  import opened DotenvLine
  import opened EnvTemplate

  /** A character, `$${`, `${name}`, and `${name-text}` or `${name:-text}`. */
  datatype Part = Char(c: char) | Opening | Reference(name: string) | Fallback(name: string, text: string, onEmpty: bool)

  function Written(p: Part): string {
    match p
    case Char(c) => [c]
    case Opening => "$${"
    case Reference(name) => "${" + (name + "}")
    case Fallback(name, text, onEmpty) => "${" + (name + ((if onEmpty then ":-" else "-") + (text + "}")))
  }

  function WrittenAll(ps: seq<Part>): string {
    if ps == [] then [] else Written(ps[0]) + WrittenAll(ps[1..])
  }

  /** The part can be read off the start of a text that goes on with `rest`: names are names, a
      fallback holds no closing brace, and no character starts anything else with what follows. */
  predicate Stands(p: Part, rest: string) {
    match p
    case Char(_) => !("${" <= Written(p) + rest) && !("$${" <= Written(p) + rest)
    case Opening => true
    case Reference(name) => IsEnvName(name)
    case Fallback(name, text, _) => IsEnvName(name) && '}' !in text
  }

  predicate Legible(ps: seq<Part>, behind: string) {
    ps == [] ||
    (Legible(ps[1..], behind) && Stands(ps[0], WrittenAll(ps[1..]) + behind))
  }

  /** A variable stands for its value. Where a fallback is given it stands for an unset variable,
      and behind `:-` for an empty one too. */
  function Meaning(p: Part, env: Env): Result<string, Failure> {
    match p
    case Char(c) => Ok([c])
    case Opening => Ok("${")
    case Reference(name) => (match env(name)
      case Set(value) => Ok(value)
      case Unset => Err(NotSet(name))
      case NotUnicode => Err(BadEncoding(name)))
    case Fallback(name, text, onEmpty) => (match env(name)
      case Set(value) => if value == "" && onEmpty then Ok(text) else Ok(value)
      case Unset => Ok(text)
      case NotUnicode => Err(BadEncoding(name)))
  }

  /** The meanings one after the other, or the first failure, and then `last`. */
  function MeaningAll(ps: seq<Part>, env: Env, last: Result<string, Failure>): Result<string, Failure> {
    if ps == [] then last
    else match Meaning(ps[0], env)
      case Err(e) => Err(e)
      case Ok(first) => match MeaningAll(ps[1..], env, last) case Err(e) => Err(e) case Ok(rest) => Ok(first + rest)
  }

  // --- what is written is read ---

  lemma {:induction false} NameRestIs(s: string, after: string)
    requires (forall i :: 0 <= i < |s| ==> IsNameChar(s[i])) && (after == [] || !IsNameChar(after[0]))
    ensures NameRest(s + after) == |s|
  {
    if s == [] {
      assert s + after == after;
    } else {
      assert (s + after)[1..] == s[1..] + after;
      NameRestIs(s[1..], after);
    }
  }

  lemma NameIs(name: string, after: string)
    requires IsEnvName(name) && (after == [] || !IsNameChar(after[0]))
    ensures NameLength(name + after) == |name| && (name + after)[..|name|] == name && (name + after)[|name|..] == after
  {
    assert (name + after)[1..] == name[1..] + after;
    NameRestIs(name[1..], after);
  }

  lemma ReferenceRead(name: string, rest: string)
    requires IsEnvName(name)
    ensures ScanPlaceholder(name + ("}" + rest)) == Scanned(Required(name), rest)
  {
    NameIs(name, "}" + rest);
    assert ("}" + rest)[1..] == rest && "}" <= "}" + rest;
  }

  lemma DefaultRead(name: string, text: string, rest: string, onEmpty: bool)
    requires '}' !in text
    ensures ScanDefault(name, text + ("}" + rest), onEmpty) == Scanned(Defaulted(name, text, onEmpty), rest)
  {
    Text.CutAtFirst(text, "}", rest);
    assert text + ("}" + rest) == text + "}" + rest;
  }

  lemma FallbackRead(name: string, text: string, rest: string, onEmpty: bool)
    requires IsEnvName(name) && '}' !in text
    ensures ScanPlaceholder(name + ((if onEmpty then ":-" else "-") + (text + ("}" + rest)))) == Scanned(Defaulted(name, text, onEmpty), rest)
  {
    var body := text + ("}" + rest);
    var op := if onEmpty then ":-" else "-";
    NameIs(name, op + body);
    DefaultRead(name, text, rest, onEmpty);
    assert (op + body)[|op|..] == body;
    assert (op + body)[0] == op[0];
  }

  function TokenOf(p: Part): Token {
    match p
    case Char(c) => Literal([c])
    case Opening => Literal("${")
    case Reference(name) => Required(name)
    case Fallback(name, text, onEmpty) => Defaulted(name, text, onEmpty)
  }

  lemma Inner(body: string, rest: string)
    ensures var s := ("${" + body) + rest;
            "${" <= s && !("$${" <= s) && s[2..] == body + rest
  {
    assert ("${" + body)[1] == '{';
  }

  lemma ReferencePart(name: string, rest: string)
    requires IsEnvName(name)
    ensures ScanToken(("${" + (name + "}")) + rest) == Scanned(Required(name), rest)
  {
    ReferenceRead(name, rest);
    Inner(name + "}", rest);
    assert (name + "}") + rest == name + ("}" + rest);
  }

  lemma FallbackPart(name: string, op: string, text: string, rest: string, onEmpty: bool)
    requires IsEnvName(name) && '}' !in text && op == if onEmpty then ":-" else "-"
    ensures ScanToken(("${" + (name + (op + (text + "}")))) + rest) == Scanned(Defaulted(name, text, onEmpty), rest)
  {
    FallbackRead(name, text, rest, onEmpty);
    Inner(name + (op + (text + "}")), rest);
    FourParts(name, op, text, rest);
  }

  lemma FourParts(name: string, op: string, text: string, rest: string)
    ensures (name + (op + (text + "}"))) + rest == name + (op + (text + ("}" + rest)))
  {
    assert op + (text + ("}" + rest)) == (op + (text + "}")) + rest;
  }

  /** One part at the start of a text is the first token of it. */
  lemma PartRead(p: Part, rest: string)
    requires Stands(p, rest)
    ensures Written(p) != [] && ScanToken(Written(p) + rest) == Scanned(TokenOf(p), rest)
  {
    match p
    case Char(c) => CharPart(c, rest);
    case Opening => assert ("$${" + rest)[3..] == rest;
    case Reference(name) => ReferencePart(name, rest);
    case Fallback(name, text, onEmpty) => FallbackPart(name, if onEmpty then ":-" else "-", text, rest, onEmpty);
  }

  lemma CharPart(c: char, rest: string)
    requires !("${" <= [c] + rest) && !("$${" <= [c] + rest)
    ensures ScanToken([c] + rest) == Scanned(Literal([c]), rest)
  {
    assert ([c] + rest)[..1] == [c] && ([c] + rest)[1..] == rest;
  }

  lemma MeaningOfToken(p: Part, env: Env)
    ensures Piece(TokenOf(p), env) == Meaning(p, env)
  {
  }

  /** A text made of parts is given the meaning of its parts, and then that of what follows. */
  lemma {:induction false} PartsMean(ps: seq<Part>, behind: string, env: Env)
    requires Legible(ps, behind)
    ensures Substitute(WrittenAll(ps) + behind, env) == MeaningAll(ps, env, Substitute(behind, env))
  {
    if ps == [] {
      assert WrittenAll(ps) + behind == behind;
    } else {
      var rest := WrittenAll(ps[1..]) + behind;
      assert WrittenAll(ps) + behind == Written(ps[0]) + rest;
      PartMeans(ps[0], rest, env);
      PartsMean(ps[1..], behind, env);
      MeaningFirst(ps, env, Substitute(behind, env));
    }
  }

  lemma PartMeans(p: Part, rest: string, env: Env)
    requires Stands(p, rest)
    ensures Substitute(Written(p) + rest, env) == Join2(Meaning(p, env), Substitute(rest, env))
  {
    PartRead(p, rest);
    OneMore(Written(p) + rest, env);
    MeaningOfToken(p, env);
  }

  lemma MeaningFirst(ps: seq<Part>, env: Env, last: Result<string, Failure>)
    requires ps != []
    ensures MeaningAll(ps, env, last) == Join2(Meaning(ps[0], env), MeaningAll(ps[1..], env, last))
  {
  }

  /** A text that is nothing but parts means what they mean. */
  lemma WrittenMeans(ps: seq<Part>, env: Env)
    requires Legible(ps, [])
    ensures Substitute(WrittenAll(ps), env) == MeaningAll(ps, env, Ok([]))
  {
    PartsMean(ps, [], env);
    assert WrittenAll(ps) + [] == WrittenAll(ps);
  }

  // --- everything else is rejected ---

  /** The text opens a placeholder that is none: without a name, with something else behind the
      name, or without an end. */
  ghost predicate Rejected(s: string, reason: Reason) {
    "${" <= s &&
    match reason
    case NoName => |s| == 2 || !IsNameStart(s[2])
    case NoOperator => exists name, after :: LacksOperator(s[2..], name, after)
    case NoClosingBrace => exists name, text, onEmpty :: LacksBrace(s[2..], name, text, onEmpty)
  }

  predicate LacksOperator(inner: string, name: string, after: string) {
    && inner == name + after && IsEnvName(name) && (after == [] || !IsNameChar(after[0]))
    && !("}" <= after) && !("-" <= after) && !(":-" <= after)
  }

  predicate LacksBrace(inner: string, name: string, text: string, onEmpty: bool) {
    inner == name + ((if onEmpty then ":-" else "-") + text) && IsEnvName(name) && '}' !in text
  }

  lemma OpensPlaceholder(s: string)
    requires "${" <= s
    ensures !("$${" <= s) && ScanToken(s) == ScanPlaceholder(s[2..])
  {
    assert s[1] == '{';
  }

  lemma RejectedRead(s: string, reason: Reason)
    requires Rejected(s, reason)
    ensures ScanToken(s).token == Broken(reason)
  {
    var inner := s[2..];
    OpensPlaceholder(s);
    match reason
    case NoName =>
      assert inner == [] || inner[0] == s[2];
    case NoOperator =>
      var name, after :| LacksOperator(inner, name, after);
      NameIs(name, after);
    case NoClosingBrace =>
      var name, text, onEmpty :| LacksBrace(inner, name, text, onEmpty);
      UnclosedRead(name, if onEmpty then ":-" else "-", text, onEmpty);
  }

  lemma UnclosedRead(name: string, op: string, text: string, onEmpty: bool)
    requires IsEnvName(name) && '}' !in text && op == if onEmpty then ":-" else "-"
    ensures ScanPlaceholder(name + (op + text)).token == Broken(NoClosingBrace)
  {
    NameIs(name, op + text);
    assert (op + text)[0] == op[0] && (op + text)[|op|..] == text;
    Text.IndexOfUnique(text, '}', |text|);
  }

  /** What comes first in a text: a part, or an opening that is rejected. */
  lemma FirstPart(s: string) returns (p: Part, rest: string, reason: Reason)
    requires s != []
    ensures if ScanToken(s).token.Broken? then Rejected(s, reason)
            else Stands(p, rest) && s == Written(p) + rest
  {
    p, rest, reason := Opening, [], NoName;
    if "$${" <= s {
      rest := s[3..];
    } else if "${" <= s {
      var inner := s[2..];
      assert s == "${" + inner;
      p, rest, reason := FirstPlaceholder(s, inner);
    } else {
      p, rest := Char(s[0]), s[1..];
      assert s == [s[0]] + s[1..];
    }
  }

  lemma FirstPlaceholder(s: string, inner: string) returns (p: Part, rest: string, reason: Reason)
    requires s == "${" + inner
    ensures if ScanPlaceholder(inner).token.Broken? then Rejected(s, reason)
            else Stands(p, rest) && s == Written(p) + rest
  {
    p, rest, reason := Opening, [], NoName;
    var n := NameLength(inner);
    assert inner == inner[..n] + inner[n..];
    if n > 0 {
      p, rest, reason := NamedPlaceholder(s, inner[..n], inner[n..]);
    } else {
      assert s[2..] == inner;
    }
  }

  lemma ScanNamed(name: string, after: string)
    requires IsEnvName(name) && (after == [] || !IsNameChar(after[0]))
    ensures ScanPlaceholder(name + after) ==
              if "}" <= after then Scanned(Required(name), after[1..])
              else if ":-" <= after then ScanDefault(name, after[2..], true)
              else if "-" <= after then ScanDefault(name, after[1..], false)
              else Scanned(Broken(NoOperator), [])
  {
    NameIs(name, after);
  }

  lemma NamedPlaceholder(s: string, name: string, after: string) returns (p: Part, rest: string, reason: Reason)
    requires s == "${" + (name + after) && IsEnvName(name) && (after == [] || !IsNameChar(after[0]))
    ensures if ScanPlaceholder(name + after).token.Broken? then Rejected(s, reason)
            else Stands(p, rest) && s == Written(p) + rest
  {
    ScanNamed(name, after);
    if "}" <= after {
      p, rest, reason := Reference(name), after[1..], NoName;
      ReferenceWritten(name, after);
    } else if ":-" <= after {
      p, rest, reason := FirstFallback(s, name, after, ":-", after[2..], true);
    } else if "-" <= after {
      p, rest, reason := FirstFallback(s, name, after, "-", after[1..], false);
    } else {
      p, rest, reason := Opening, [], NoOperator;
      OperatorLacks(s, name + after, name, after);
    }
  }

  lemma ReferenceWritten(name: string, after: string)
    requires "}" <= after
    ensures "${" + (name + after) == ("${" + (name + "}")) + after[1..]
  {
    assert after == "}" + after[1..];
  }

  lemma OperatorLacks(s: string, inner: string, name: string, after: string)
    requires s == "${" + inner && LacksOperator(inner, name, after)
    ensures Rejected(s, NoOperator)
  {
    assert s[2..] == inner;
  }

  lemma BraceLacks(s: string, name: string, op: string, t: string, onEmpty: bool)
    requires op == (if onEmpty then ":-" else "-") && IsEnvName(name) && s == "${" + (name + (op + t)) && '}' !in t
    ensures Rejected(s, NoClosingBrace)
  {
    assert s[2..] == name + (op + t);
    assert LacksBrace(s[2..], name, t, onEmpty);
  }

  lemma FallbackWritten(name: string, op: string, t: string, e: nat)
    requires e < |t| && t[e] == '}'
    ensures "${" + (name + (op + t)) == ("${" + (name + (op + (t[..e] + "}")))) + t[e + 1..]
  {
    assert t == t[..e] + ("}" + t[e + 1..]);
    FourParts(name, op, t[..e], t[e + 1..]);
  }

  lemma FirstFallback(s: string, name: string, after: string, op: string, t: string, onEmpty: bool)
      returns (p: Part, rest: string, reason: Reason)
    requires op == (if onEmpty then ":-" else "-") && op <= after && t == after[|op|..]
    requires IsEnvName(name) && s == "${" + (name + after)
    ensures if ScanDefault(name, t, onEmpty).token.Broken? then Rejected(s, reason)
            else Stands(p, rest) && s == Written(p) + rest
  {
    assert after == op + t;
    p, rest, reason := Opening, [], NoClosingBrace;
    var e := Text.IndexOf(t, '}');
    if e == |t| {
      BraceLacks(s, name, op, t, onEmpty);
    } else {
      p, rest := Fallback(name, t[..e], onEmpty), t[e + 1..];
      FallbackWritten(name, op, t, e);
    }
  }

  /** Every text is a sequence of parts, or one that ends in an opening that is rejected. */
  lemma {:induction false} EveryTextIsWritten(s: string) returns (ps: seq<Part>, behind: string, reason: Reason)
    ensures s == WrittenAll(ps) + behind && Legible(ps, behind)
    ensures behind == [] || Rejected(behind, reason)
    decreases |s|
  {
    ps, behind, reason := [], s, NoName;
    if s != [] {
      var p, rest, why := FirstPart(s);
      if ScanToken(s).token.Broken? {
        reason := why;
      } else {
        PartRead(p, rest);
        ps, behind, reason := EveryTextIsWritten(rest);
        OnePartMore(p, ps, behind);
        ps := [p] + ps;
      }
    }
  }

  lemma OnePartMore(p: Part, ps: seq<Part>, behind: string)
    requires Legible(ps, behind) && Stands(p, WrittenAll(ps) + behind)
    ensures Legible([p] + ps, behind) && WrittenAll([p] + ps) + behind == Written(p) + (WrittenAll(ps) + behind)
  {
    WrittenFirst(p, ps);
    TextAssoc(Written(p), WrittenAll(ps), behind);
  }

  lemma WrittenFirst(p: Part, ps: seq<Part>)
    ensures ([p] + ps)[0] == p && ([p] + ps)[1..] == ps
    ensures WrittenAll([p] + ps) == Written(p) + WrittenAll(ps)
  {
  }

  /** A text with such an opening fails for that reason, unless a part in front of it does. */
  lemma RejectedMeans(ps: seq<Part>, behind: string, reason: Reason, env: Env)
    requires Legible(ps, behind) && Rejected(behind, reason)
    ensures Substitute(WrittenAll(ps) + behind, env) == MeaningAll(ps, env, Err(Malformed(reason)))
  {
    PartsMean(ps, behind, env);
    RejectedRead(behind, reason);
    assert Tokenise(behind) == [Broken(reason)];
    assert [Broken(reason)][1..] == [];
  }

  lemma {:induction false} PartsAreTokens(ps: seq<Part>, behind: string)
    requires Legible(ps, behind)
    ensures WellFormed(WrittenAll(ps) + behind) <==> WellFormed(behind)
  {
    if ps == [] {
      assert WrittenAll(ps) + behind == behind;
    } else {
      var rest := WrittenAll(ps[1..]) + behind;
      assert WrittenAll(ps) + behind == Written(ps[0]) + rest;
      PartRead(ps[0], rest);
      PartsAreTokens(ps[1..], behind);
      assert Tokenise(Written(ps[0]) + rest) == [TokenOf(ps[0])] + Tokenise(rest);
    }
  }

  /** The well-formed texts are the sequences of parts. */
  lemma WellFormedExactly(s: string)
    ensures WellFormed(s) <==> exists ps :: Legible(ps, []) && WrittenAll(ps) == s
  {
    forall ps | Legible(ps, []) && WrittenAll(ps) == s ensures WellFormed(s) {
      PartsAreTokens(ps, []);
      assert WrittenAll(ps) + [] == WrittenAll(ps);
    }
    var ps, behind, reason := EveryTextIsWritten(s);
    PartsAreTokens(ps, behind);
    if behind == [] {
      assert WrittenAll(ps) + [] == WrittenAll(ps);
    } else {
      RejectedRead(behind, reason);
      assert Broken(reason) in Tokenise(behind);
    }
  }
}
