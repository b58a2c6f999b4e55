/** One line of a `.env` file, as the editor and as the parser of panoptikon-config/src/lib.rs
    see it, and the lemmas that make the two agree on the lines the editor writes. */
module DotenvLine {
  import opened Prelude
  import opened Text

  predicate IsNameStart(c: char) {
    'a' <= c <= 'z' || 'A' <= c <= 'Z' || c == '_'
  }

  predicate IsNameChar(c: char) {
    IsNameStart(c) || '0' <= c <= '9'
  }

  predicate IsEnvName(s: string) {
    s != [] && IsNameStart(s[0]) && forall i :: 0 <= i < |s| ==> IsNameChar(s[i])
  }

  const EXPORT := "export "

  // --- the editor's view ---

  /** `key`, the position of the first `=`, and the trailing white space and comment. */
  datatype Assignment = Assignment(key: string, equals: nat, suffix: string)

  function EditorKey(prefix: string): string {
    var p := TrimStart(prefix);
    TrimEnd(TrimStart(StripExport(p)))
  }

  function StripExport(p: string): string {
    if EXPORT <= p then p[|EXPORT|..] else p
  }

  function EditorAssignment(line: string): Option<Assignment> {
    var equals := IndexOf(line, '=');
    if equals == |line| then None
    else
      var key := EditorKey(line[..equals]);
      if !IsEnvName(key) then None
      else Some(Assignment(key, equals, CommentSuffix(line[equals + 1..])))
  }

  /** The position in `rest` of the first `#` that is outside quotes and follows white space,
      or the length of `rest`. The other arguments are the state of the scan. */
  function ScanComment(rest: string, quote: Option<char>, escaped: bool, afterSpace: bool): (i: nat)
    ensures i <= |rest|
    decreases |rest|
  {
    if rest == [] then 0
    else
      var c := rest[0];
      if escaped then 1 + ScanComment(rest[1..], quote, false, IsSpace(c))
      else if c == '\\' && quote == Some('"') then 1 + ScanComment(rest[1..], quote, true, false)
      else if c == '\'' || c == '"' then
        var quote' := if quote == Some(c) then None else if quote.None? then Some(c) else quote;
        1 + ScanComment(rest[1..], quote', false, false)
      else if c == '#' && quote.None? && afterSpace then 0
      else 1 + ScanComment(rest[1..], quote, false, IsSpace(c))
  }

  function CommentSuffix(value: string): string {
    var comment := ScanComment(value, None, false, false);
    value[|TrimEnd(value[..comment])|..]
  }

  function Encode(value: string): string {
    "\"" + ReplaceChar(ReplaceChar(ReplaceChar(ReplaceChar(value,
      '\\', "\\\\"), '"', "\\\""), '\n', "\\n"), '\r', "\\r") + "\""
  }

  function Rewritten(line: string, a: Assignment, value: string): string
    requires a.equals < |line|
  {
    line[..a.equals + 1] + Encode(value) + a.suffix
  }

  // --- the parser's view ---

  datatype ValueError = UnexpectedText | Unterminated

  datatype LineRead =
    | Blank
    | NotAnAssignment
    | BadName
    | BadValue(name: string, reason: ValueError)
    | Assigns(key: string, value: string)

  function ParserKey(prefix: string): string {
    var k := TrimEnd(prefix);
    if EXPORT <= k then TrimStart(k[|EXPORT|..]) else k
  }

  function ReadLine(line: string): LineRead {
    ReadTrimmed(Trim(line))
  }

  function ReadTrimmed(l: string): LineRead {
    if l == [] || l[0] == '#' then Blank
    else
      var equals := IndexOf(l, '=');
      if equals == |l| then NotAnAssignment
      else
        ReadKeyValue(l[..equals], l[equals + 1..])
  }

  function ReadKeyValue(prefix: string, rest: string): LineRead {
    var key := ParserKey(prefix);
    if !IsEnvName(key) then BadName
    else match ReadValue(TrimStart(rest))
      case Ok(value) => Assigns(key, value)
      case Err(reason) => BadValue(key, reason)
  }

  function ReadValue(text: string): Result<string, ValueError> {
    if text != [] && (text[0] == '\'' || text[0] == '"') then ReadQuoted(text[1..], text[0], false)
    else Ok(TrimEnd(text[..UnquotedEnd(text, false)]))
  }

  function UnquotedEnd(rest: string, afterSpace: bool): (i: nat)
    ensures i <= |rest|
    decreases |rest|
  {
    if rest == [] || (rest[0] == '#' && afterSpace) then 0
    else 1 + UnquotedEnd(rest[1..], IsSpace(rest[0]))
  }

  function Unescape(c: char): string {
    if c == '\\' || c == '"' || c == '\'' || c == '$' then [c]
    else if c == 'n' then "\n"
    else if c == 'r' then "\r"
    else if c == 't' then "\t"
    else ['\\', c]
  }

  function Prepend(s: string, r: Result<string, ValueError>): Result<string, ValueError> {
    match r case Ok(v) => Ok(s + v) case Err(e) => Err(e)
  }

  function ReadQuoted(rest: string, quote: char, escaped: bool): Result<string, ValueError>
    decreases |rest|
  {
    if rest == [] then Err(Unterminated)
    else
      var c := rest[0];
      if escaped then Prepend(Unescape(c), ReadQuoted(rest[1..], quote, false))
      else if quote == '"' && c == '\\' then ReadQuoted(rest[1..], quote, true)
      else if c == quote then
        var tail := TrimStart(rest[1..]);
        if tail == [] || tail[0] == '#' then Ok([]) else Err(UnexpectedText)
      else Prepend([c], ReadQuoted(rest[1..], quote, false))
  }

  // --- encoding a value ---

  function EscapeChar(c: char): string {
    if c == '\\' then "\\\\" else if c == '"' then "\\\"" else if c == '\n' then "\\n"
    else if c == '\r' then "\\r" else [c]
  }

  function Escape(s: string): string {
    if s == [] then [] else EscapeChar(s[0]) + Escape(s[1..])
  }

  /** The four chained replacements escape each character once: no replacement touches what an
      earlier one produced. */
  lemma {:induction false} EncodeEscapesOnce(value: string)
    ensures Encode(value) == "\"" + Escape(value) + "\""
  {
    ReplaceChain(value);
  }

  lemma {:induction false} ReplaceChain(s: string)
    ensures ReplaceChar(ReplaceChar(ReplaceChar(ReplaceChar(s, '\\', "\\\\"), '"', "\\\""), '\n', "\\n"), '\r', "\\r")
         == Escape(s)
  {
    if s != [] {
      ReplaceChain(s[1..]);
      var a := ReplaceChar(s[1..], '\\', "\\\\");
      var b := ReplaceChar(a, '"', "\\\"");
      var c := ReplaceChar(b, '\n', "\\n");
      var h := if s[0] == '\\' then "\\\\" else [s[0]];
      assert ReplaceChar(s, '\\', "\\\\") == h + a;
      ReplaceCharConcat(h, a, '"', "\\\"");
      var h2 := ReplaceChar(h, '"', "\\\"");
      HeadReplaced(h, '"', "\\\"");
      ReplaceCharConcat(h2, b, '\n', "\\n");
      var h3 := ReplaceChar(h2, '\n', "\\n");
      HeadReplaced(h2, '\n', "\\n");
      ReplaceCharConcat(h3, c, '\r', "\\r");
      HeadReplaced(h3, '\r', "\\r");
    }
  }

  lemma HeadReplaced(h: string, c: char, sub: string)
    ensures |h| == 1 ==> ReplaceChar(h, c, sub) == if h[0] == c then sub else h
    ensures |h| == 2 && h[0] != c && h[1] != c ==> ReplaceChar(h, c, sub) == h
  {
    if |h| == 2 && h[0] != c && h[1] != c {
      assert h[1..] == [h[1]];
      assert h == [h[0]] + [h[1]];
      assert ReplaceChar([h[1]], c, sub) == [h[1]];
    }
  }

  /** A suffix the editor keeps: white space, then nothing or a comment after white space. */
  predicate IsSuffix(s: string) {
    var t := TrimStart(s);
    t == [] || (t[0] == '#' && s != t)
  }

  lemma ReadEscapedChar(c: char, after: string)
    ensures ReadQuoted(EscapeChar(c) + after, '"', false) == Prepend([c], ReadQuoted(after, '"', false))
  {
    var e := EscapeChar(c);
    var rest := e + after;
    if |e| == 2 {
      assert rest[1..] == [e[1]] + after;
      assert rest[1..][1..] == after;
    } else {
      assert rest[1..] == after;
    }
  }

  /** Reading an encoded value gives the value, whatever follows the closing quote that the
      parser accepts. */
  lemma {:induction false} ReadEscaped(value: string, tail: string)
    requires TrimStart(tail) == [] || TrimStart(tail)[0] == '#'
    ensures ReadQuoted(Escape(value) + "\"" + tail, '"', false) == Ok(value)
  {
    if value == [] {
      assert Escape(value) + "\"" + tail == "\"" + tail;
      assert ("\"" + tail)[1..] == tail;
    } else {
      var after := Escape(value[1..]) + "\"" + tail;
      assert Escape(value) + "\"" + tail == EscapeChar(value[0]) + after;
      ReadEscaped(value[1..], tail);
      ReadEscapedChar(value[0], after);
      assert value == [value[0]] + value[1..];
    }
  }

  lemma ScanEscapedChar(c: char, after: string, afterSpace: bool)
    ensures ScanComment(EscapeChar(c) + after, Some('"'), false, afterSpace)
         == |EscapeChar(c)| + ScanComment(after, Some('"'), false, IsSpace(EscapeChar(c)[|EscapeChar(c)| - 1]))
  {
    var e := EscapeChar(c);
    var rest := e + after;
    if |e| == 2 {
      assert rest[1..] == [e[1]] + after;
      assert rest[1..][1..] == after;
    } else {
      assert rest[1..] == after;
    }
  }

  /** The comment scan passes over an encoded value and starts afresh behind it. */
  lemma {:induction false} ScanPastEscaped(value: string, tail: string, afterSpace: bool)
    ensures ScanComment(Escape(value) + "\"" + tail, Some('"'), false, afterSpace)
         == |Escape(value)| + 1 + ScanComment(tail, None, false, false)
  {
    if value == [] {
      assert Escape(value) + "\"" + tail == "\"" + tail;
      assert ("\"" + tail)[1..] == tail;
    } else {
      var after := Escape(value[1..]) + "\"" + tail;
      var e := EscapeChar(value[0]);
      assert Escape(value) + "\"" + tail == e + after;
      ScanEscapedChar(value[0], after, afterSpace);
      ScanPastEscaped(value[1..], tail, IsSpace(e[|e| - 1]));
    }
  }

  /** In front of a comment or the end of the line the scan stops right after the white space. */
  lemma {:induction false} ScanSpace(s: string, afterSpace: bool)
    requires TrimStart(s) == [] || TrimStart(s)[0] == '#'
    requires s == [] || IsSpace(s[0]) || afterSpace
    ensures ScanComment(s, None, false, afterSpace) == |s| - |TrimStart(s)|
  {
    if s != [] && IsSpace(s[0]) { ScanSpace(s[1..], true); }
  }

  /** Where the scan stops at a comment, it stands right behind white space. */
  lemma {:induction false} ScanStops(rest: string, quote: Option<char>, escaped: bool, afterSpace: bool)
    ensures var i := ScanComment(rest, quote, escaped, afterSpace);
            i < |rest| ==> rest[i] == '#' && if i == 0 then afterSpace else IsSpace(rest[i - 1])
    decreases |rest|
  {
    if rest != [] {
      var c := rest[0];
      if escaped { ScanStops(rest[1..], quote, false, IsSpace(c)); }
      else if c == '\\' && quote == Some('"') { ScanStops(rest[1..], quote, true, false); }
      else if c == '\'' || c == '"' {
        ScanStops(rest[1..], if quote == Some(c) then None else if quote.None? then Some(c) else quote, false, false);
      }
      else { ScanStops(rest[1..], quote, false, IsSpace(c)); }
    }
  }

  lemma SuffixShape(value: string)
    ensures IsSuffix(CommentSuffix(value))
  {
    var comment := ScanComment(value, None, false, false);
    ScanStops(value, None, false, false);
    var head := value[..comment];
    var w := TrimEndSplit(head);
    SuffixParts(value, comment, w);
    if comment < |value| {
      assert IsSpace(head[|head| - 1]);
      SpaceBehind(head, w);
    }
    SpaceAndComment(w, value[comment..]);
  }

  lemma SpaceAndComment(w: string, comment: string)
    requires AllSpace(w) && (comment != [] ==> comment[0] == '#' && w != [])
    ensures IsSuffix(w + comment)
  {
    TrimStartOf(w, comment);
    assert comment != [] ==> |w + comment| != |comment|;
  }

  lemma SpaceBehind(head: string, w: string)
    requires head != [] && IsSpace(head[|head| - 1]) && head == TrimEnd(head) + w
    ensures w != []
  {
    assert w == [] ==> head == TrimEnd(head);
  }

  lemma SuffixParts(value: string, comment: nat, w: string)
    requires comment <= |value| && value[..comment] == TrimEnd(value[..comment]) + w
    ensures value[|TrimEnd(value[..comment])|..] == w + value[comment..]
  {
    assert value == value[..comment] + value[comment..];
  }

  lemma ScanBehind(value: string, suffix: string)
    requires IsSuffix(suffix)
    ensures ScanComment(Encode(value) + suffix, None, false, false) == |Encode(value)| + |suffix| - |TrimStart(suffix)|
  {
    EncodeEscapesOnce(value);
    var all := Encode(value) + suffix;
    assert all[0] == '"' && all[1..] == Escape(value) + "\"" + suffix;
    ScanPastEscaped(value, suffix, false);
    var w := TrimStartSplit(suffix);
    assert [] + suffix == suffix;
    ScanSpace(suffix, false);
  }

  lemma SuffixBehind(encoded: string, suffix: string)
    requires encoded != [] && !IsSpace(encoded[|encoded| - 1])
    requires ScanComment(encoded + suffix, None, false, false) == |encoded| + |suffix| - |TrimStart(suffix)|
    ensures CommentSuffix(encoded + suffix) == suffix
  {
    var w := TrimStartSplit(suffix);
    assert (encoded + suffix)[..|encoded| + |w|] == encoded + w;
    TrimEndOf(encoded, w);
  }

  /** Behind an encoded value the editor finds exactly the suffix it wrote. */
  lemma SuffixRefound(value: string, suffix: string)
    requires IsSuffix(suffix)
    ensures CommentSuffix(Encode(value) + suffix) == suffix
  {
    ScanBehind(value, suffix);
    SuffixBehind(Encode(value), suffix);
  }

  // --- the two views of a key ---

  /** The one shape of prefix on which the two key parsers differ: the word `export`, a blank,
      and nothing else before the `=`. */
  predicate BareExport(prefix: string) {
    EXPORT <= TrimStart(prefix) && AllSpace(TrimStart(prefix)[|EXPORT|..])
  }

  lemma KeysAgree(prefix: string)
    ensures BareExport(prefix) ==> EditorKey(prefix) == "" && ParserKey(TrimStart(prefix)) == "export"
    ensures !BareExport(prefix) ==> EditorKey(prefix) == ParserKey(TrimStart(prefix))
  {
    var p := TrimStart(prefix);
    if EXPORT <= p {
      var rest := p[|EXPORT|..];
      assert p == EXPORT + rest;
      TrimEmpty(rest);
      if AllSpace(rest) { BareKey(rest); } else { ExportedKey(rest); }
    } else {
      PlainKey(p);
    }
  }

  lemma BareKey(rest: string)
    requires AllSpace(rest)
    ensures ParserKey(EXPORT + rest) == "export"
  {
    assert EXPORT + rest == "export" + (" " + rest);
    TrimEndOf("export", " " + rest);
    assert !(EXPORT <= "export");
  }

  lemma ExportedKey(rest: string)
    requires TrimEnd(rest) != []
    ensures ParserKey(EXPORT + rest) == TrimEnd(TrimStart(rest))
  {
    TrimEndHead(EXPORT, rest);
    assert (EXPORT + TrimEnd(rest))[|EXPORT|..] == TrimEnd(rest);
    TrimsCommute(rest);
  }

  lemma PlainKey(p: string)
    requires !(EXPORT <= p)
    ensures ParserKey(p) == TrimEnd(p)
  {
    assert TrimEnd(p) <= p;
  }

  lemma TextAssoc(a: string, b: string, c: string)
    ensures (a + b) + c == a + (b + c)
  {
  }

  lemma TrimAround(prefix: string, rest: string)
    ensures Trim(prefix + "=" + rest) == TrimStart(prefix) + "=" + TrimEnd(rest)
  {
    var tail := "=" + TrimEnd(rest);
    var p := TrimStart(prefix);
    TrimEndTail(prefix + "=", rest);
    TextAssoc(prefix, "=", TrimEnd(rest));
    TextAssoc(p, "=", TrimEnd(rest));
    if p == [] {
      TrimEmpty(prefix);
      TrimStartOf(prefix, tail);
    } else {
      TrimStartHead(prefix, tail);
    }
  }

  /** How the parser reads `prefix = rest`, in terms of the untrimmed pieces. */
  lemma ReadAssignment(prefix: string, rest: string)
    requires '=' !in prefix
    ensures var p := TrimStart(prefix);
            ReadLine(prefix + "=" + rest) ==
              if p != [] && p[0] == '#' then Blank else ReadKeyValue(p, TrimEnd(rest))
  {
    var p := TrimStart(prefix);
    var body := p + "=" + TrimEnd(rest);
    TrimAround(prefix, rest);
    var w := TrimStartSplit(prefix);
    assert forall j :: 0 <= j < |p| ==> p[j] == prefix[|w| + j] && prefix[|w| + j] in prefix;
    PartsOf(p, TrimEnd(rest));
  }

  lemma SplitAtEquals(line: string)
    requires IndexOf(line, '=') < |line|
    ensures '=' !in line[..IndexOf(line, '=')]
    ensures line == line[..IndexOf(line, '=')] + "=" + line[IndexOf(line, '=') + 1..]
  {
    SplitAt(line, IndexOf(line, '='));
  }

  lemma SplitAt(line: string, e: nat)
    requires e < |line| && line[e] == '=' && forall j :: 0 <= j < e ==> line[j] != '='
    ensures '=' !in line[..e]
    ensures line == line[..e] + "=" + line[e + 1..]
  {
  }

  lemma PartsOf(prefix: string, rest: string)
    requires '=' !in prefix
    ensures var line := prefix + "=" + rest;
            && IndexOf(line, '=') == |prefix| < |line|
            && line[..|prefix|] == prefix && line[|prefix| + 1..] == rest
  {
    CutAtFirst(prefix, "=", rest);
  }

  /** A line the editor recognises is one the parser reads under the same key, unless the
      parser rejects its value. */
  lemma EditorLinesAreRead(line: string)
    requires EditorAssignment(line).Some?
    ensures ReadLine(line).Assigns? ==> ReadLine(line).key == EditorAssignment(line).value.key
  {
    var equals := IndexOf(line, '=');
    SplitAtEquals(line);
    SameKey(line[..equals], line[equals + 1..]);
  }

  lemma SameKey(prefix: string, rest: string)
    requires '=' !in prefix && IsEnvName(EditorKey(prefix))
    ensures var read := ReadLine(prefix + "=" + rest);
            read.Assigns? ==> read.key == EditorKey(prefix)
  {
    KeysAgree(prefix);
    ReadAssignment(prefix, rest);
  }

  /** A line the editor overlooks although the parser reads an assignment from it. */
  predicate Hidden(line: string) {
    EditorAssignment(line).None? && ReadLine(line).Assigns?
  }

  /** The hidden lines are exactly the bare `export =` lines with a readable value. */
  lemma HiddenLines(line: string)
    ensures Hidden(line) <==>
              IndexOf(line, '=') < |line| && BareExport(line[..IndexOf(line, '=')]) && ReadLine(line).Assigns?
    ensures Hidden(line) ==> ReadLine(line).key == "export"
  {
    var equals := IndexOf(line, '=');
    if equals < |line| {
      SplitAtEquals(line);
      if ReadLine(line).Assigns? { HiddenKey(line, line[..equals], line[equals + 1..]); }
    } else {
      NoEqualsNoAssignment(line);
    }
  }

  /** When a line assigns, the editor sees that too, unless it is a bare export. */
  lemma HiddenKey(line: string, prefix: string, rest: string)
    requires '=' !in prefix && line == prefix + "=" + rest && ReadLine(line).Assigns?
    ensures EditorAssignment(line).None? <==> BareExport(prefix)
    ensures BareExport(prefix) ==> ReadLine(line).key == "export"
  {
    KeysAgree(prefix);
    ReadAssignment(prefix, rest);
    EditorSees(prefix, rest);
  }

  lemma EditorSees(prefix: string, rest: string)
    requires '=' !in prefix
    ensures EditorAssignment(prefix + "=" + rest).Some? <==> IsEnvName(EditorKey(prefix))
  {
    PartsOf(prefix, rest);
  }

  lemma NoEqualsNoAssignment(line: string)
    requires IndexOf(line, '=') == |line|
    ensures !ReadLine(line).Assigns?
  {
    var l := Trim(line);
    var w := TrimStartSplit(TrimEnd(line));
    forall j | 0 <= j < |l| ensures l[j] != '=' {
      assert l[j] == TrimEnd(line)[|w| + j] == line[|w| + j];
    }
    IndexOfUnique(l, '=', |l|);
  }

  lemma EditorKeyHead(prefix: string)
    requires IsEnvName(EditorKey(prefix))
    ensures TrimStart(prefix) != [] && TrimStart(prefix)[0] != '#'
  {
    var p := TrimStart(prefix);
    if !(EXPORT <= p) {
      assert TrimStart(p) == p;
      assert TrimEnd(p) <= p;
    }
  }

  /** Writing a value into a recognised line: the editor recognises the same key, the same `=`
      and the same suffix again. */
  lemma RewrittenIsRecognised(line: string, value: string)
    requires EditorAssignment(line).Some?
    ensures EditorAssignment(Rewritten(line, EditorAssignment(line).value, value)) == EditorAssignment(line)
  {
    var a := EditorAssignment(line).value;
    var line' := Rewritten(line, a, value);
    var prefix := line[..a.equals];
    SplitAtEquals(line);
    SuffixShape(line[a.equals + 1..]);
    assert line' == prefix + "=" + (Encode(value) + a.suffix);
    PartsOf(prefix, Encode(value) + a.suffix);
    SuffixRefound(value, a.suffix);
  }

  /** Writing a value into a recognised line: the parser reads the new value under the same key. */
  lemma RewrittenIsRead(line: string, value: string)
    requires EditorAssignment(line).Some?
    ensures ReadLine(Rewritten(line, EditorAssignment(line).value, value))
         == Assigns(EditorAssignment(line).value.key, value)
  {
    var a := EditorAssignment(line).value;
    var prefix := line[..a.equals];
    var rest := Encode(value) + a.suffix;
    SplitAtEquals(line);
    SuffixShape(line[a.equals + 1..]);
    assert Rewritten(line, a, value) == prefix + "=" + rest;
    KeysAgree(prefix);
    EditorKeyHead(prefix);
    ReadAssignment(prefix, rest);
    EncodedValueReads(value, a.suffix);
  }

  lemma EncodedValueReads(value: string, suffix: string)
    requires IsSuffix(suffix)
    ensures ReadValue(TrimStart(TrimEnd(Encode(value) + suffix))) == Ok(value)
  {
    var tail := TrimEnd(suffix);
    TrimEndTail(Encode(value), suffix);
    assert TrimStart(tail) == [] || TrimStart(tail)[0] == '#' by {
      TrimsCommute(suffix);
      assert TrimEnd(TrimStart(suffix)) <= TrimStart(suffix);
    }
    EncodedReads(value, tail);
  }

  lemma EncodedReads(value: string, tail: string)
    requires TrimStart(tail) == [] || TrimStart(tail)[0] == '#'
    ensures ReadValue(TrimStart(Encode(value) + tail)) == Ok(value)
  {
    EncodeEscapesOnce(value);
    ReadEscaped(value, tail);
    var text := Encode(value) + tail;
    assert text[0] == '"' && text[1..] == Escape(value) + "\"" + tail;
  }

  /** The line the editor appends for a new key. */
  function AppendedLine(key: string, value: string): string {
    key + "=" + Encode(value)
  }

  lemma AppendedLineReads(key: string, value: string)
    requires IsEnvName(key)
    ensures ReadLine(AppendedLine(key, value)) == Assigns(key, value)
    ensures EditorAssignment(AppendedLine(key, value)) == Some(Assignment(key, |key|, ""))
    ensures Rewritten(AppendedLine(key, value), Assignment(key, |key|, ""), value) == AppendedLine(key, value)
  {
    AppendedIsRead(key, value);
    AppendedIsRecognised(key, value);
    AppendedIsRewritten(key, value);
  }

  /** A valid name is its own key, to the editor and to the parser. */
  lemma NameIsItsKey(key: string)
    requires IsEnvName(key)
    ensures '=' !in key && TrimStart(key) == key && TrimEnd(key) == key && !(EXPORT <= key)
    ensures EditorKey(key) == key && ParserKey(key) == key
  {
    assert |key| > 6 ==> IsNameChar(key[6]);
    assert EXPORT[6] == ' ';
  }

  lemma NothingIsASuffix(value: string)
    ensures IsSuffix([]) && Encode(value) + [] == Encode(value)
  {
  }

  lemma AppendedIsRead(key: string, value: string)
    requires IsEnvName(key)
    ensures ReadLine(AppendedLine(key, value)) == Assigns(key, value)
  {
    NameIsItsKey(key);
    NothingIsASuffix(value);
    ReadAssignment(key, Encode(value));
    EncodedValueReads(value, []);
  }

  lemma AppendedIsRecognised(key: string, value: string)
    requires IsEnvName(key)
    ensures EditorAssignment(AppendedLine(key, value)) == Some(Assignment(key, |key|, ""))
  {
    NameIsItsKey(key);
    PartsOf(key, Encode(value));
    NothingIsASuffix(value);
    SuffixRefound(value, []);
  }

  lemma AppendedIsRewritten(key: string, value: string)
    ensures |key| < |AppendedLine(key, value)|
    ensures Rewritten(AppendedLine(key, value), Assignment(key, |key|, ""), value) == AppendedLine(key, value)
  {
    SliceAfter(key, "=", Encode(value));
  }

  lemma SliceAfter(key: string, equals: string, encoded: string)
    requires |equals| == 1
    ensures (key + equals + encoded)[..|key| + 1] + encoded + "" == key + equals + encoded
  {
  }
}
