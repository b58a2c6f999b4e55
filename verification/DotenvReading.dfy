/** What a hand-written line of a `.env` file says, as a grammar: how a name and a value may be
    spelled, and that the parser of panoptikon-config/src/lib.rs reads exactly what is spelled,
    white space, quotes, escapes and comments included. */
module DotenvReading {
  import opened Prelude
  import opened Text
  import opened DotenvLine
  import opened Dotenv

  // --- the grammar ---

  /** A character between quotes: itself, or behind a backslash. */
  datatype Piece = Lit(c: char) | Esc(c: char)

  /** A value as it is written behind the `=`: as it stands, with what follows it, or between
      quotes. */
  datatype Spelling =
    | Plain(lead: string, value: string, trail: string)
    | Quoted(lead: string, quote: char, pieces: seq<Piece>, trail: string)

  function TypedPiece(p: Piece): string {
    match p case Lit(c) => [c] case Esc(c) => ['\\', c]
  }

  function Typed(ps: seq<Piece>): string {
    if ps == [] then [] else TypedPiece(ps[0]) + Typed(ps[1..])
  }

  function Spelled(s: Spelling): string {
    match s
    case Plain(lead, value, trail) => lead + (value + trail)
    case Quoted(lead, quote, ps, trail) => lead + ([quote] + (Typed(ps) + ([quote] + trail)))
  }

  /** The characters a backslash gives another meaning, and these meanings. */
  const ESCAPES: map<char, string> :=
    map['n' := "\n", 'r' := "\r", 't' := "\t", '\\' := "\\", '"' := "\"", '\'' := "'", '$' := "$"]

  function Meant(p: Piece): string {
    match p
    case Lit(c) => [c]
    case Esc(c) => if c in ESCAPES then ESCAPES[c] else ['\\', c]
  }

  function MeantAll(ps: seq<Piece>): string {
    if ps == [] then [] else Meant(ps[0]) + MeantAll(ps[1..])
  }

  function Value(s: Spelling): string {
    match s case Plain(_, value, _) => value case Quoted(_, _, ps, _) => MeantAll(ps)
  }

  /** No comment starts inside: no `#` behind white space. */
  predicate Uncommented(v: string) {
    forall i :: 0 < i < |v| && v[i] == '#' ==> !IsSpace(v[i - 1])
  }

  predicate Solid(v: string) {
    v == [] || (!IsSpace(v[0]) && !IsSpace(v[|v| - 1]))
  }

  /** White space, and a comment after it. */
  ghost predicate SpaceOrComment(trail: string) {
    AllSpace(trail) || exists w :: w != [] && AllSpace(w) && w < trail && trail[|w|] == '#'
  }

  /** Nothing but white space or a comment may follow a closing quote. */
  predicate Accepted(trail: string) {
    var t := TrimStart(trail);
    t == [] || t[0] == '#'
  }

  /** Only double quotes know escapes. */
  predicate Between(ps: seq<Piece>, quote: char) {
    forall i :: 0 <= i < |ps| ==>
      match ps[i]
      case Lit(c) => c != quote && (quote == '"' ==> c != '\\')
      case Esc(_) => quote == '"'
  }

  /** The text is a spelling; whether it is one of a value is another matter. */
  ghost predicate WellSpelled(s: Spelling) {
    AllSpace(s.lead) &&
    match s
    case Plain(_, value, trail) =>
      && Solid(value) && Uncommented(value) && (value != [] ==> value[0] != '\'' && value[0] != '"')
      && (if value == [] then AllSpace(trail) else SpaceOrComment(trail))
    case Quoted(_, quote, ps, _) => (quote == '\'' || quote == '"') && Between(ps, quote)
  }

  predicate Closed(s: Spelling) {
    s.Plain? || Accepted(s.trail)
  }

  /** `rest` spells the value `v`. */
  ghost predicate Spells(rest: string, v: string) {
    exists s :: WellSpelled(s) && Closed(s) && Spelled(s) == rest && Value(s) == v
  }

  /** `prefix` names `key`: the name, or `export` and the name, in white space. */
  ghost predicate Names(prefix: string, key: string) {
    exists a, b, c, exported :: NamesAs(prefix, key, a, b, c, exported)
  }

  predicate NamesAs(prefix: string, key: string, a: string, b: string, c: string, exported: bool) {
    && AllSpace(a) && AllSpace(b) && AllSpace(c)
    && prefix == a + ((if exported then "export " + b else []) + (key + c))
  }

  // --- quoted text ---

  lemma TypedHead(p: Piece, more: string)
    ensures p.Lit? ==> (TypedPiece(p) + more)[0] == p.c && (TypedPiece(p) + more)[1..] == more
    ensures p.Esc? ==> (TypedPiece(p) + more)[0] == '\\' && (TypedPiece(p) + more)[1..] == [p.c] + more
    ensures ([p.c] + more)[1..] == more
  {
    if p.Esc? { assert TypedPiece(p) + more == ['\\'] + ([p.c] + more); }
  }

  lemma EscapesAgree(c: char)
    ensures Unescape(c) == Meant(Esc(c))
  {
  }

  /** One piece is read as what it stands for. */
  lemma PieceRead(p: Piece, quote: char, more: string)
    requires Between([p], quote) && (quote == '\'' || quote == '"')
    ensures ReadQuoted(TypedPiece(p) + more, quote, false) == Prepend(Meant(p), ReadQuoted(more, quote, false))
  {
    assert [p][0] == p;
    TypedHead(p, more);
    EscapesAgree(p.c);
  }

  lemma {:induction false} QuotedRead(ps: seq<Piece>, quote: char, trail: string)
    requires Between(ps, quote) && (quote == '\'' || quote == '"')
    ensures ReadQuoted(Typed(ps) + ([quote] + trail), quote, false) ==
              if Accepted(trail) then Ok(MeantAll(ps)) else Err(UnexpectedText)
  {
    var close := [quote] + trail;
    if ps == [] {
      assert Typed(ps) + close == close && close[1..] == trail && close[0] == quote;
    } else {
      assert Typed(ps) + close == TypedPiece(ps[0]) + (Typed(ps[1..]) + close);
      assert Between([ps[0]], quote);
      PieceRead(ps[0], quote, Typed(ps[1..]) + close);
      QuotedRead(ps[1..], quote, trail);
    }
  }

  /** Text behind an opening quote closes somewhere, or is unterminated. */
  lemma {:induction false} QuotedShape(t: string, quote: char) returns (ps: seq<Piece>, closed: bool, trail: string)
    requires quote == '\'' || quote == '"'
    ensures Between(ps, quote)
    ensures closed ==> t == Typed(ps) + ([quote] + trail)
    ensures !closed ==> ReadQuoted(t, quote, false) == Err(Unterminated)
    decreases |t|
  {
    ps, closed, trail := [], false, [];
    if t != [] {
      if t[0] == quote {
        closed, trail := true, t[1..];
        assert t == Typed([]) + ([quote] + trail);
      } else {
        var p := if quote == '"' && t[0] == '\\' && |t| > 1 then Esc(t[1]) else Lit(t[0]);
        if quote == '"' && t[0] == '\\' && |t| == 1 {
          assert t[1..] == [];
        } else {
          var more := t[|TypedPiece(p)|..];
          assert t == TypedPiece(p) + more;
          ps, closed, trail := QuotedShape(more, quote);
          PieceRead(p, quote, more);
          if closed { assert t == TypedPiece(p) + Typed(ps) + ([quote] + trail); }
          assert ([p] + ps)[1..] == ps;
          ps := [p] + ps;
        }
      }
    }
  }

  // --- text without quotes ---

  /** The scan passes a value that holds no comment, and stops at the comment behind it. */
  lemma {:induction false} ScanStopsBehind(v: string, trail: string, afterSpace: bool)
    requires Uncommented(v) && (afterSpace && v != [] ==> v[0] != '#')
    requires v == [] ==> trail == [] || (trail[0] == '#' && afterSpace)
    requires v != [] && trail != [] ==> trail[0] == '#' && IsSpace(v[|v| - 1])
    ensures UnquotedEnd(v + trail, afterSpace) == |v|
  {
    if v == [] {
      assert v + trail == trail;
    } else {
      assert (v + trail)[1..] == v[1..] + trail;
      assert forall i :: 0 <= i < |v| - 1 ==> v[1..][i] == v[i + 1];
      ScanStopsBehind(v[1..], trail, IsSpace(v[0]));
    }
  }

  /** What the scan passes holds no comment. */
  lemma {:induction false} ScannedIsUncommented(text: string, afterSpace: bool)
    ensures var e := UnquotedEnd(text, afterSpace);
            && Uncommented(text[..e]) && (e > 0 && text[0] == '#' ==> !afterSpace)
            && (e < |text| ==> text[e] == '#' && if e == 0 then afterSpace else IsSpace(text[e - 1]))
  {
    var e := UnquotedEnd(text, afterSpace);
    if e > 0 {
      var rest := text[1..];
      ScannedIsUncommented(rest, IsSpace(text[0]));
      assert forall i :: 0 <= i < |rest| ==> rest[i] == text[i + 1];
      forall i | 0 < i < e && text[..e][i] == '#' ensures !IsSpace(text[..e][i - 1]) {
        assert rest[..e - 1][i - 1] == '#';
      }
    }
  }

  lemma SpaceIsUncommented(v: string, w: string)
    requires Uncommented(v) && AllSpace(w)
    ensures Uncommented(v + w)
  {
    assert forall i :: |v| <= i < |v + w| ==> (v + w)[i] == w[i - |v|];
    assert forall i :: 0 <= i < |v| ==> (v + w)[i] == v[i];
  }

  /** Reading a bare value, trimmed of what is around it. */
  lemma BareRead(v: string, w: string, comment: string)
    requires Solid(v) && Uncommented(v) && v != [] && v[0] != '\'' && v[0] != '"'
    requires AllSpace(w) && (comment == [] || (comment[0] == '#' && w != []))
    ensures ReadValue(v + (w + comment)) == Ok(v)
  {
    SpaceIsUncommented(v, w);
    ScanStopsBehind(v + w, comment, false);
    assert v + (w + comment) == (v + w) + comment;
    assert ((v + w) + comment)[..|v + w|] == v + w;
    TrimEndOf(v, w);
  }

  lemma CommentTrimmed(w: string, comment: string)
    requires AllSpace(w) && comment != [] && comment[0] == '#'
    ensures TrimEnd(w + comment) == w + TrimEnd(comment) && TrimEnd(comment) != [] && TrimEnd(comment)[0] == '#'
  {
    TrimEmpty(comment);
    assert !IsSpace(comment[0]);
    TrimEndHead(w, comment);
  }

  lemma TrimBoth(lead: string, core: string, trail: string)
    requires AllSpace(lead) && core != [] && !IsSpace(core[0]) && !IsSpace(core[|core| - 1])
    ensures TrimStart(TrimEnd(lead + (core + trail))) == core + TrimEnd(trail)
  {
    TrimsCommute(lead + (core + trail));
    TrimStartOf(lead, core + trail);
    TrimEndTail(core, trail);
  }

  lemma PlainIsRead(s: Spelling)
    requires s.Plain? && WellSpelled(s)
    ensures ReadValue(TrimStart(TrimEnd(Spelled(s)))) == Ok(s.value)
  {
    if s.value == [] {
      var all := Spelled(s);
      TrimEmpty(all);
      assert TrimEnd(all) == [] && TrimStart(TrimEnd(all)) == [];
    } else {
      TrimBoth(s.lead, s.value, s.trail);
      if AllSpace(s.trail) {
        TrimEmpty(s.trail);
        BareRead(s.value, [], []);
        assert s.value + ([] + []) == s.value + [];
      } else {
        var w :| w != [] && AllSpace(w) && w < s.trail && s.trail[|w|] == '#';
        var comment := s.trail[|w|..];
        assert s.trail == w + comment;
        CommentTrimmed(w, comment);
        BareRead(s.value, w, TrimEnd(comment));
      }
    }
  }

  lemma AcceptedTrimmed(trail: string)
    ensures Accepted(TrimEnd(trail)) <==> Accepted(trail)
  {
    var t := TrimStart(trail);
    TrimsCommute(trail);
    TrimEmpty(t);
    if t != [] { assert TrimEnd(t)[0] == t[0]; }
  }

  lemma QuotedIsRead(s: Spelling)
    requires s.Quoted? && WellSpelled(s)
    ensures ReadValue(TrimStart(TrimEnd(Spelled(s)))) == if Closed(s) then Ok(MeantAll(s.pieces)) else Err(UnexpectedText)
  {
    var t, q := Typed(s.pieces), [s.quote];
    QuotedCore(s.lead, q, t, s.trail);
    TrimBoth(s.lead, q + t + q, s.trail);
    AcceptedTrimmed(s.trail);
    QuotedTextRead(s.pieces, s.quote, TrimEnd(s.trail));
  }

  lemma QuotedCore(lead: string, q: string, t: string, trail: string)
    ensures lead + (q + (t + (q + trail))) == lead + ((q + t + q) + trail)
  {
    assert q + (t + (q + trail)) == (q + t + q) + trail;
  }

  lemma QuotedTextRead(ps: seq<Piece>, quote: char, trail: string)
    requires Between(ps, quote) && (quote == '\'' || quote == '"')
    ensures ReadValue(([quote] + Typed(ps) + [quote]) + trail) == if Accepted(trail) then Ok(MeantAll(ps)) else Err(UnexpectedText)
  {
    var t, q := Typed(ps), [quote];
    QuotedRead(ps, quote, trail);
    var text := (q + t + q) + trail;
    assert text == q + (t + (q + trail));
    assert text[0] == quote && text[1..] == t + (q + trail);
  }

  /** Every text spells something, or opens a quote that nothing closes. */
  lemma RestIsSpelled(rest: string) returns (s: Spelling, found: bool)
    ensures found ==> WellSpelled(s) && Spelled(s) == rest
    ensures !found ==> ReadValue(TrimStart(TrimEnd(rest))) == Err(Unterminated)
  {
    var behind := TrimEndSplit(rest);
    var lead := TrimStartSplit(TrimEnd(rest));
    TrimmedLast(lead, TrimStart(TrimEnd(rest)), TrimEnd(rest));
    s, found := TextIsSpelled(lead, TrimStart(TrimEnd(rest)), behind);
    TextAssoc(lead, TrimStart(TrimEnd(rest)), behind);
  }

  lemma TrimmedLast(lead: string, text: string, all: string)
    requires all == lead + text && (all == [] || !IsSpace(all[|all| - 1]))
    ensures text == [] || !IsSpace(text[|text| - 1])
  {
    if text != [] { assert all[|all| - 1] == text[|text| - 1]; }
  }

  lemma TextIsSpelled(lead: string, text: string, behind: string) returns (s: Spelling, found: bool)
    requires AllSpace(lead) && AllSpace(behind)
    requires text != [] ==> !IsSpace(text[0]) && !IsSpace(text[|text| - 1])
    ensures found ==> WellSpelled(s) && Spelled(s) == lead + (text + behind)
    ensures !found ==> ReadValue(text) == Err(Unterminated)
  {
    if text != [] && (text[0] == '\'' || text[0] == '"') {
      var ps, closed, trail := QuotedShape(text[1..], text[0]);
      found, s := closed, Quoted(lead, text[0], ps, trail + behind);
      if found {
        assert text == [text[0]] + text[1..];
        QuotedRegroup([text[0]], Typed(ps), trail, behind);
      }
    } else {
      s := PlainShape(lead, text, behind);
      found := true;
    }
  }

  lemma QuotedRegroup(q: string, t: string, trail: string, behind: string)
    ensures (q + (t + (q + trail))) + behind == q + (t + (q + (trail + behind)))
  {
  }

  lemma PlainShape(lead: string, text: string, behind: string) returns (s: Spelling)
    requires AllSpace(lead) && AllSpace(behind)
    requires text != [] ==> !IsSpace(text[0]) && !IsSpace(text[|text| - 1]) && text[0] != '\'' && text[0] != '"'
    ensures s.Plain? && WellSpelled(s) && Spelled(s) == lead + (text + behind)
  {
    if text == [] {
      s := Plain(lead, [], behind);
      assert [] + behind == text + behind;
    } else {
      var e := UnquotedEnd(text, false);
      ScannedIsUncommented(text, false);
      s := PlainParts(lead, text[..e], text[e..], behind);
      assert text == text[..e] + text[e..];
    }
  }

  /** A text without quotes, cut at its comment. */
  lemma PlainParts(lead: string, head: string, comment: string, behind: string) returns (s: Spelling)
    requires AllSpace(lead) && AllSpace(behind) && head != [] && Uncommented(head)
    requires !IsSpace(head[0]) && head[0] != '\'' && head[0] != '"'
    requires if comment == [] then !IsSpace(head[|head| - 1]) else comment[0] == '#' && IsSpace(head[|head| - 1])
    ensures s.Plain? && WellSpelled(s) && Spelled(s) == lead + ((head + comment) + behind)
  {
    var v := TrimEnd(head);
    var w := TrimEndSplit(head);
    var trail := w + (comment + behind);
    s := Plain(lead, v, trail);
    assert v + trail == (head + comment) + behind;
    TrimEmpty(head);
    assert v[0] == head[0];
    if comment == [] {
      assert v == head && w == [] && trail == behind;
    } else {
      assert w == [] ==> v == head;
      CommentBehind(w, comment + behind);
    }
  }

  lemma CommentBehind(w: string, comment: string)
    requires w != [] && AllSpace(w) && comment != [] && comment[0] == '#'
    ensures SpaceOrComment(w + comment)
  {
    assert w < w + comment && (w + comment)[|w|] == '#';
  }

  // --- names ---

  lemma NamedKey(prefix: string, key: string)
    requires Names(prefix, key) && IsEnvName(key)
    ensures TrimStart(prefix) != [] && TrimStart(prefix)[0] != '#' && ParserKey(TrimStart(prefix)) == key
  {
    var a, b, c, exported :| NamesAs(prefix, key, a, b, c, exported);
    NameIsItsKey(key);
    assert !IsSpace(key[0]) && !IsSpace(key[|key| - 1]) && key[0] != '#';
    if exported {
      ExportRegroup(a, b, key + c);
      TrimStartOf(a, EXPORT + (b + (key + c)));
      ExportNames(b, key, c);
    } else {
      assert prefix == a + (key + c);
      TrimStartOf(a, key + c);
      TrimEndOf(key, c);
    }
  }

  lemma ExportRegroup(a: string, b: string, more: string)
    ensures a + (("export " + b) + more) == a + (EXPORT + (b + more))
    ensures (EXPORT + (b + more))[0] == 'e'
  {
    assert ("export " + b) + more == EXPORT + (b + more);
  }

  lemma ExportNames(b: string, key: string, c: string)
    requires AllSpace(b) && AllSpace(c) && key != [] && !IsSpace(key[0]) && !IsSpace(key[|key| - 1])
    ensures ParserKey(EXPORT + (b + (key + c))) == key
  {
    var k := EXPORT + (b + key);
    assert EXPORT + (b + (key + c)) == k + c;
    assert k[|k| - 1] == key[|key| - 1];
    TrimEndOf(k, c);
    assert k[|EXPORT|..] == b + key;
    TrimStartOf(b, key);
  }

  lemma KeyIsNamed(prefix: string)
    ensures Names(prefix, ParserKey(TrimStart(prefix)))
  {
    var p := TrimStart(prefix);
    var a := TrimStartSplit(prefix);
    var c := TrimEndSplit(p);
    var k := TrimEnd(p);
    if EXPORT <= k {
      var b := TrimStartSplit(k[|EXPORT|..]);
      ExportedParts(a, b, TrimStart(k[|EXPORT|..]), c, k, prefix);
    } else {
      KeyAlone(prefix, a, k, c);
    }
  }

  lemma KeyAlone(prefix: string, a: string, key: string, c: string)
    requires AllSpace(a) && AllSpace(c) && prefix == a + (key + c)
    ensures Names(prefix, key)
  {
    assert [] + (key + c) == key + c;
    assert NamesAs(prefix, key, a, [], c, false);
  }

  lemma ExportedParts(a: string, b: string, key: string, c: string, k: string, prefix: string)
    requires AllSpace(a) && AllSpace(b) && AllSpace(c)
    requires EXPORT <= k && k[|EXPORT|..] == b + key && prefix == a + (k + c)
    ensures Names(prefix, key)
  {
    assert k == EXPORT + (b + key);
    ExportRegroup(a, b, key + c);
    assert k + c == EXPORT + (b + (key + c));
    assert NamesAs(prefix, key, a, b, c, true);
  }

  // --- whole lines ---

  /** A line assigns a value to a name exactly when it names the one and spells the other. */
  lemma ReadsExactly(prefix: string, rest: string, key: string, v: string)
    requires '=' !in prefix
    ensures ReadLine(prefix + "=" + rest) == Assigns(key, v) <==> Names(prefix, key) && IsEnvName(key) && Spells(rest, v)
  {
    ReadAssignment(prefix, rest);
    KeyIsNamed(prefix);
    if Names(prefix, key) && IsEnvName(key) { NamedKey(prefix, key); }
    SpellsExactly(rest, v);
  }

  lemma SpellsExactly(rest: string, v: string)
    ensures ReadValue(TrimStart(TrimEnd(rest))) == Ok(v) <==> Spells(rest, v)
  {
    if Spells(rest, v) {
      var s :| WellSpelled(s) && Closed(s) && Spelled(s) == rest && Value(s) == v;
      SpellingIsRead(s);
    }
    var s, found := RestIsSpelled(rest);
    if found { SpellingIsRead(s); }
  }

  lemma SpellingIsRead(s: Spelling)
    requires WellSpelled(s)
    ensures ReadValue(TrimStart(TrimEnd(Spelled(s)))) == if Closed(s) then Ok(Value(s)) else Err(UnexpectedText)
  {
    if s.Plain? { PlainIsRead(s); } else { QuotedIsRead(s); }
  }

  /** The value is rejected, with its name, when something else follows the closing quote, and
      when nothing closes the quote. */
  lemma RefusesExactly(prefix: string, rest: string, key: string)
    requires '=' !in prefix && Names(prefix, key) && IsEnvName(key)
    ensures ReadLine(prefix + "=" + rest) == BadValue(key, UnexpectedText) <==>
              exists s :: WellSpelled(s) && !Closed(s) && Spelled(s) == rest
    ensures ReadLine(prefix + "=" + rest) == BadValue(key, Unterminated) <==>
              !exists s :: WellSpelled(s) && Spelled(s) == rest
  {
    ReadAssignment(prefix, rest);
    NamedKey(prefix, key);
    forall s | WellSpelled(s) && Spelled(s) == rest
      ensures ReadValue(TrimStart(TrimEnd(rest))) == if Closed(s) then Ok(Value(s)) else Err(UnexpectedText)
    {
      SpellingIsRead(s);
    }
    var s, found := RestIsSpelled(rest);
  }

  predicate IsComment(line: string) {
    TrimStart(line) != [] && TrimStart(line)[0] == '#'
  }

  /** The lines that are no assignment: blank ones, comments, those without `=`, and those with
      no valid name in front of it. */
  lemma OtherLines(line: string)
    ensures ReadLine(line) == Blank <==> AllSpace(line) || IsComment(line)
    ensures ReadLine(line) == NotAnAssignment <==> '=' !in line && !AllSpace(line) && !IsComment(line)
    ensures ReadLine(line) == BadName <==>
              && '=' in line && !IsComment(line)
              && !exists key :: IsEnvName(key) && Names(line[..IndexOf(line, '=')], key)
  {
    if '=' in line {
      var e := IndexOf(line, '=');
      SplitAtEquals(line);
      assert line[e] == '=' && !AllSpace(line);
      NamelessLine(line[..e], line[e + 1..]);
    } else {
      NoEqualsLine(line);
    }
  }

  lemma NoEqualsLine(line: string)
    requires '=' !in line
    ensures ReadLine(line) == if AllSpace(line) || IsComment(line) then Blank else NotAnAssignment
  {
    var p := TrimStart(line);
    var l := Trim(line);
    TrimEmpty(line);
    TrimsCommute(line);
    TrimEmpty(p);
    if p != [] {
      assert !IsSpace(p[0]) && l[0] == p[0];
      var w := TrimStartSplit(TrimEnd(line));
      forall j | 0 <= j < |l| ensures l[j] != '=' {
        assert l[j] == TrimEnd(line)[|w| + j] == line[|w| + j];
      }
      IndexOfUnique(l, '=', |l|);
    }
  }

  lemma NamelessLine(prefix: string, rest: string)
    requires '=' !in prefix
    ensures var line := prefix + "=" + rest;
            && ReadLine(line) != NotAnAssignment
            && (ReadLine(line) == Blank <==> IsComment(line))
            && (ReadLine(line) == BadName <==>
                  !IsComment(line) && !exists key :: IsEnvName(key) && Names(prefix, key))
  {
    var p := TrimStart(prefix);
    TrimEmpty(prefix);
    TextAssoc(prefix, "=", rest);
    if p == [] { TrimStartOf(prefix, "=" + rest); } else { TrimStartHead(prefix, "=" + rest); }
    ReadAssignment(prefix, rest);
    KeyIsNamed(prefix);
    forall key | IsEnvName(key) && Names(prefix, key) ensures ParserKey(p) == key { NamedKey(prefix, key); }
  }

  /** The common cases spelled out. An unquoted value is the text up to the comment, backslashes
      and all; so is a single-quoted one up to the quote. */
  lemma OrdinaryLines(key: string, v: string, w: string, comment: string)
    requires IsEnvName(key) && AllSpace(w) && w != []
    ensures Solid(v) && Uncommented(v) && (v != [] ==> v[0] != '\'' && v[0] != '"') ==>
              ReadLine(key + "=" + v) == Assigns(key, v)
    ensures Solid(v) && Uncommented(v) && v != [] && v[0] != '\'' && v[0] != '"' ==>
              ReadLine(key + "=" + (v + (w + ("#" + comment)))) == Assigns(key, v)
    ensures '\'' !in v ==> ReadLine(key + "=" + ("'" + (v + "'"))) == Assigns(key, v)
  {
    if Solid(v) && Uncommented(v) && (v != [] ==> v[0] != '\'' && v[0] != '"') {
      assert v + [] == v;
      LineSpelled(key, Plain([], v, []));
      if v != [] {
        CommentBehind(w, "#" + comment);
        LineSpelled(key, Plain([], v, w + ("#" + comment)));
      }
    }
    if '\'' !in v {
      var ps := Literally(v);
      assert "'" + [] == "'";
      LineSpelled(key, Quoted([], '\'', ps, []));
    }
  }

  lemma LineSpelled(key: string, s: Spelling)
    requires IsEnvName(key) && WellSpelled(s) && Closed(s) && s.lead == []
    ensures s.Plain? ==> ReadLine(key + "=" + (s.value + s.trail)) == Assigns(key, s.value)
    ensures s.Quoted? ==> ReadLine(key + "=" + ([s.quote] + (Typed(s.pieces) + ([s.quote] + s.trail)))) == Assigns(key, MeantAll(s.pieces))
  {
    NameIsItsKey(key);
    assert key == [] + ([] + (key + []));
    assert NamesAs(key, key, [], [], [], false);
    ReadsExactly(key, Spelled(s), key, Value(s));
    if s.Plain? { assert Spelled(s) == s.value + s.trail; }
    else { assert Spelled(s) == [s.quote] + (Typed(s.pieces) + ([s.quote] + s.trail)); }
  }

  lemma {:induction false} Literally(v: string) returns (ps: seq<Piece>)
    requires '\'' !in v
    ensures Between(ps, '\'') && Typed(ps) == v && MeantAll(ps) == v
  {
    ps := [];
    if v != [] {
      ps := Literally(v[1..]);
      assert ([Lit(v[0])] + ps)[1..] == ps;
      ps := [Lit(v[0])] + ps;
    }
  }

  // --- what the editor keeps of a line ---

  lemma {:induction false} ScanBare(v: string, trail: string, afterSpace: bool)
    requires Uncommented(v) && '\'' !in v && '"' !in v && (afterSpace && v != [] ==> v[0] != '#')
    ensures ScanComment(v + trail, None, false, afterSpace)
         == |v| + ScanComment(trail, None, false, if v == [] then afterSpace else IsSpace(v[|v| - 1]))
  {
    if v == [] {
      assert v + trail == trail;
    } else {
      assert (v + trail)[1..] == v[1..] + trail && v[0] in v;
      assert forall i :: 0 <= i < |v| - 1 ==> v[1..][i] == v[i + 1];
      ScanBare(v[1..], trail, IsSpace(v[0]));
    }
  }

  lemma ScanPiece(p: Piece, quote: char, more: string, afterSpace: bool) returns (space: bool)
    requires Between([p], quote) && (quote == '\'' || quote == '"')
    ensures ScanComment(TypedPiece(p) + more, Some(quote), false, afterSpace)
         == |TypedPiece(p)| + ScanComment(more, Some(quote), false, space)
  {
    assert [p][0] == p;
    TypedHead(p, more);
    space := IsSpace(p.c);
    if p.Lit? && (p.c == '\'' || p.c == '"') { space := false; }
  }

  lemma {:induction false} ScanQuoted(ps: seq<Piece>, quote: char, trail: string, afterSpace: bool)
    requires Between(ps, quote) && (quote == '\'' || quote == '"')
    ensures ScanComment(Typed(ps) + ([quote] + trail), Some(quote), false, afterSpace)
         == |Typed(ps)| + 1 + ScanComment(trail, None, false, false)
  {
    var close := [quote] + trail;
    if ps == [] {
      assert Typed(ps) + close == close && close[1..] == trail && close[0] == quote;
    } else {
      assert Typed(ps) + close == TypedPiece(ps[0]) + (Typed(ps[1..]) + close);
      assert Between([ps[0]], quote);
      var space := ScanPiece(ps[0], quote, Typed(ps[1..]) + close, afterSpace);
      ScanQuoted(ps[1..], quote, trail, space);
    }
  }

  /** White space and a comment behind a value are what the editor carries over. A bare value
      must not look like a comment or a quote to it. */
  lemma SuffixIsKept(s: Spelling)
    requires WellSpelled(s) && IsSuffix(s.trail)
    requires s.Plain? ==> s.value != [] && '\'' !in s.value && '"' !in s.value && (s.lead != [] ==> s.value[0] != '#')
    ensures CommentSuffix(Spelled(s)) == s.trail
  {
    if s.Plain? {
      var head := s.lead + s.value;
      assert Spelled(s) == head + s.trail;
      LeadUncommented(s.lead, s.value);
      ScanBare(head, s.trail, false);
      SuffixBehindHead(head, s.trail);
    } else {
      QuotedSuffix(s.lead, s.quote, s.pieces, s.trail);
    }
  }

  lemma QuotedSuffix(lead: string, quote: char, ps: seq<Piece>, trail: string)
    requires AllSpace(lead) && Between(ps, quote) && (quote == '\'' || quote == '"') && IsSuffix(trail)
    ensures CommentSuffix(lead + ([quote] + (Typed(ps) + ([quote] + trail)))) == trail
  {
    var q, t := [quote], Typed(ps);
    var inner := q + (t + (q + trail));
    QuotedCore(lead, q, t, trail);
    LeadUncommented(lead, []);
    assert lead + [] == lead;
    ScanBare(lead, inner, false);
    assert inner[1..] == t + (q + trail);
    ScanQuoted(ps, quote, trail, false);
    assert lead + ((q + t + q) + trail) == (lead + (q + t + q)) + trail;
    SuffixBehindHead(lead + (q + t + q), trail);
  }

  lemma LeadUncommented(lead: string, v: string)
    requires AllSpace(lead) && Uncommented(v) && (lead != [] && v != [] ==> v[0] != '#')
    ensures Uncommented(lead + v) && '\'' !in lead && '"' !in lead
  {
    assert forall i :: 0 <= i < |lead| ==> (lead + v)[i] == lead[i];
    assert forall i :: |lead| <= i < |lead + v| ==> (lead + v)[i] == v[i - |lead|];
  }

  lemma SuffixBehindHead(head: string, trail: string)
    requires head != [] && !IsSpace(head[|head| - 1]) && IsSuffix(trail)
    requires ScanComment(head + trail, None, false, false) == |head| + ScanComment(trail, None, false, false)
    ensures CommentSuffix(head + trail) == trail
  {
    assert trail == [] || IsSpace(trail[0]);
    ScanSpace(trail, false);
    SuffixBehind(head, trail);
  }

  // --- whole files ---

  ghost predicate AssignsKey(line: string, key: string) {
    ReadLine(line).Assigns? && ReadLine(line).key == key
  }

  /** A variable has the value of the last line that assigns it, line `i`, or none if there is
      no such line. */
  lemma LastLineWins(lines: seq<string>, key: string, i: int)
    requires -1 <= i < |lines| && (i >= 0 ==> AssignsKey(lines[i], key))
    requires forall j :: i < j < |lines| ==> !AssignsKey(lines[j], key)
    ensures var read := Collect(ReadAll(lines));
            if i < 0 then key !in read else key in read && read[key] == ReadLine(lines[i]).value
  {
    CollectIsLastOf(lines, key);
    LastOfIsLast(lines, key, i);
  }

  lemma {:induction false} LastOfIsLast(lines: seq<string>, key: string, i: int)
    requires -1 <= i < |lines| && (i >= 0 ==> AssignsKey(lines[i], key))
    requires forall j :: i < j < |lines| ==> !AssignsKey(lines[j], key)
    ensures LastOf(lines, key) == if i < 0 then None else Some(ReadLine(lines[i]).value)
  {
    if lines != [] {
      var rest := lines[1..];
      assert forall j :: 0 <= j < |rest| ==> rest[j] == lines[j + 1];
      LastOfIsLast(rest, key, if i <= 0 then -1 else i - 1);
    }
  }

  predicate IsReported(read: LineRead) {
    !read.Blank? && !read.Assigns?
  }

  function Reads(lines: seq<string>): seq<LineRead> {
    if lines == [] then [] else [ReadLine(lines[0])] + Reads(lines[1..])
  }

  /** What is reported when lines have been read one after the other. */
  function Report(rs: seq<LineRead>, number: nat): seq<Diagnostic> {
    if rs == [] then [] else ComplaintsOf(rs[0], number) + Report(rs[1..], number + 1)
  }

  lemma {:induction false} ReportConcat(a: seq<LineRead>, b: seq<LineRead>, first: nat)
    ensures Report(a + b, first) == Report(a, first) + Report(b, first + |a|)
  {
    if a == [] {
      assert a + b == b;
    } else {
      assert (a + b)[1..] == a[1..] + b;
      ReportConcat(a[1..], b, first + 1);
    }
  }

  lemma {:induction false} ComplaintsAreTheReport(lines: seq<string>, first: nat)
    ensures Complaints(lines, first) == Report(Reads(lines), first)
  {
    if lines != [] {
      ComplaintsAreTheReport(lines[1..], first + 1);
      assert Reads(lines)[1..] == Reads(lines[1..]);
    }
  }

  /** Every line is reported behind those above it and under its own number, if it is neither
      blank nor an assignment, and not at all otherwise. */
  lemma LineIsReported(lines: seq<string>, above: seq<LineRead>, read: LineRead, below: seq<LineRead>)
    requires Reads(lines) == above + ([read] + below)
    ensures Complaints(lines, 1) ==
              Report(above, 1)
              + ((if IsReported(read) then [Diagnostic(|above| + 1, read)] else []) + Report(below, |above| + 2))
  {
    ComplaintsAreTheReport(lines, 1);
    ReportConcat(above, [read] + below, 1);
    assert ([read] + below)[1..] == below;
  }
}
