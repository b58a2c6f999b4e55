/** The loops of the `.env` editor and parser: the scanners, the parser's line loop, and the
    editable document itself. */
module DotenvDocument {
  import opened Prelude
  import Text
  import opened DotenvLine
  import opened Dotenv
  import DotenvGuarantees

  /** `dotenv_comment_start`. */
  method CommentStart(value: string) returns (comment: nat)
    ensures comment == ScanComment(value, None, false, false)
  {
    var quote: Option<char> := None;
    var escaped, afterSpace := false, false;
    for i := 0 to |value|
      invariant ScanComment(value, None, false, false) == i + ScanComment(value[i..], quote, escaped, afterSpace)
    {
      var c := value[i];
      assert value[i..][1..] == value[i + 1..];
      if escaped {
        escaped, afterSpace := false, Text.IsSpace(c);
      } else if c == '\\' && quote == Some('"') {
        escaped, afterSpace := true, false;
      } else if c == '\'' || c == '"' {
        if quote == Some(c) { quote := None; } else if quote.None? { quote := Some(c); }
        afterSpace := false;
      } else if c == '#' && quote.None? && afterSpace {
        return i;
      } else {
        afterSpace := Text.IsSpace(c);
      }
    }
    return |value|;
  }

  /** `dotenv_assignment`. */
  method RecogniseLine(line: string) returns (a: Option<Assignment>)
    ensures a == EditorAssignment(line)
  {
    var equals := Text.IndexOf(line, '=');
    if equals == |line| { return None; }
    var key := EditorKey(line[..equals]);
    if !IsEnvName(key) { return None; }
    var value := line[equals + 1..];
    var comment := CommentStart(value);
    return Some(Assignment(key, equals, value[|Text.TrimEnd(value[..comment])|..]));
  }

  /** `parse_dotenv_value`. */
  method ParseValue(text: string) returns (r: Result<string, ValueError>)
    ensures r == ReadValue(text)
  {
    if text == [] || (text[0] != '\'' && text[0] != '"') {
      var end, afterSpace := 0, false;
      while end < |text| && !(text[end] == '#' && afterSpace)
        invariant end <= |text|
        invariant UnquotedEnd(text, false) == end + UnquotedEnd(text[end..], afterSpace)
      {
        assert text[end..][1..] == text[end + 1..];
        end, afterSpace := end + 1, Text.IsSpace(text[end]);
      }
      return Ok(Text.TrimEnd(text[..end]));
    }
    var quote := text[0];
    var output: string := [];
    var escaped := false;
    PrependNothing(ReadValue(text));
    for i := 1 to |text|
      invariant ReadValue(text) == Prepend(output, ReadQuoted(text[i..], quote, escaped))
    {
      var c := text[i];
      var rest := text[i + 1..];
      assert text[i..][1..] == rest;
      PrependTwice(output, Unescape(c), ReadQuoted(rest, quote, false));
      PrependTwice(output, [c], ReadQuoted(rest, quote, false));
      if escaped {
        escaped := false;
        output := output + Unescape(c);
      } else if quote == '"' && c == '\\' {
        escaped := true;
      } else if c == quote {
        var tail := Text.TrimStart(rest);
        if tail == [] || tail[0] == '#' {
          assert output + [] == output;
          return Ok(output);
        }
        return Err(UnexpectedText);
      } else {
        output := output + [c];
      }
    }
    return Err(Unterminated);
  }

  lemma PrependNothing(r: Result<string, ValueError>)
    ensures Prepend([], r) == r
  {
    if r.Ok? { assert [] + r.value == r.value; }
  }

  lemma PrependTwice(a: string, b: string, r: Result<string, ValueError>)
    ensures Prepend(a, Prepend(b, r)) == Prepend(a + b, r)
  {
    if r.Ok? { assert a + (b + r.value) == a + b + r.value; }
  }

  /** What `parse_dotenv` does with one line. */
  method ParseLine(source: string) returns (read: LineRead)
    ensures read == ReadLine(source)
  {
    var line := Text.Trim(source);
    if line == [] || line[0] == '#' { return Blank; }
    var equals := Text.IndexOf(line, '=');
    if equals == |line| { return NotAnAssignment; }
    var key := ParserKey(line[..equals]);
    if !IsEnvName(key) { return BadName; }
    var r := ParseValue(Text.TrimStart(line[equals + 1..]));
    match r
    case Ok(value) => return Assigns(key, value);
    case Err(reason) => return BadValue(key, reason);
  }

  /** `parse_dotenv`: a malformed line is skipped and reported, the others are read. */
  method Parse(source: string) returns (parsed: DotenvParse)
    ensures parsed == ParseDotenv(source)
  {
    var lines := Text.Lines(StripBom(source));
    var values, diagnostics := ParseLines(lines);
    return DotenvParse(values, diagnostics);
  }

  method ParseLines(lines: seq<string>) returns (values: Pairs, diagnostics: seq<Diagnostic>)
    ensures values == ReadAll(lines) && diagnostics == Complaints(lines, 1)
  {
    values, diagnostics := [], [];
    assert lines[0..] == lines;
    for i := 0 to |lines|
      invariant ReadAll(lines) == values + ReadAll(lines[i..])
      invariant Complaints(lines, 1) == diagnostics + Complaints(lines[i..], i + 1)
    {
      NextLine(lines, i);
      var read := ParseLine(lines[i]);
      ghost var seen, told := values, diagnostics;
      if read.Assigns? {
        values := values + [(read.key, read.value)];
      } else if !read.Blank? {
        diagnostics := diagnostics + [Diagnostic(i + 1, read)];
      }
      assert values == seen + PairsOf(read) && diagnostics == told + ComplaintsOf(read, i + 1);
      Regroup(seen, PairsOf(read), ReadAll(lines[i + 1..]));
      Regroup(told, ComplaintsOf(read, i + 1), Complaints(lines[i + 1..], i + 2));
    }
  }

  lemma Regroup<T>(a: seq<T>, b: seq<T>, c: seq<T>)
    ensures a + (b + c) == (a + b) + c
  {
  }

  lemma NextLine(lines: seq<string>, i: nat)
    requires i < |lines|
    ensures ReadAll(lines[i..]) == PairsOf(ReadLine(lines[i])) + ReadAll(lines[i + 1..])
    ensures Complaints(lines[i..], i + 1) == ComplaintsOf(ReadLine(lines[i]), i + 1) + Complaints(lines[i + 1..], i + 2)
  {
    assert lines[i..][1..] == lines[i + 1..] && lines[i..][0] == lines[i];
  }

  class DotenvDocument {
    var lines: seq<string>
    var crlf: bool
    var trailing: bool

    ghost function Contents(): Doc
      reads this
    {
      Doc(lines, crlf, trailing)
    }

    constructor (source: string)
      ensures Contents() == ParseDocument(source)
    {
      lines := EditorLines(source);
      crlf := ContainsCrlf(source);
      trailing := source != [] && source[|source| - 1] == '\n';
    }

    /** Set `values` and delete `remove`, keeping every other line, the comments and the order.
        `order` is the order in which the map of values is walked. */
    method Apply(values: map<string, string>, order: seq<string>, remove: set<string>)
      requires WalksAll(order, values)
      modifies this
      ensures Contents() == Applied(old(Contents()), values, order, remove)
      ensures ValidNames(values) ==> Applied(Contents(), values, order, remove) == Contents()
      ensures ValidNames(values) ==> forall k :: k in remove ==> DotenvGuarantees.LinesFor(lines, k) == 0
      ensures ValidNames(values) ==> forall k :: k in values && k !in remove ==> DotenvGuarantees.LinesFor(lines, k) == 1
    {
      ghost var was := Contents();
      var written := RetainLines(values, remove);
      AppendMissing(values, order, remove, written);
      if lines != [] { trailing := true; }
      if ValidNames(values) {
        DotenvGuarantees.EditingTwiceIsEditingOnce(was, values, order, order, remove);
        forall k ensures (k in remove ==> DotenvGuarantees.LinesFor(lines, k) == 0)
                      && (k in values && k !in remove ==> DotenvGuarantees.LinesFor(lines, k) == 1) {
          DotenvGuarantees.OneLinePerKey(was.lines, values, order, remove, k);
        }
      }
    }

    /** The `retain_mut` pass of `apply`. */
    method RetainLines(values: map<string, string>, remove: set<string>) returns (written: set<string>)
      modifies `lines
      ensures Edited(lines, written) == EditLines(old(lines), values, remove, {})
    {
      var retained: seq<string> := [];
      written := {};
      for i := 0 to |lines|
        invariant lines == old(lines)
        invariant EditLines(lines, values, remove, {}) == Onto(retained, EditLines(lines[i..], values, remove, written))
      {
        var line := lines[i];
        assert lines[i..][1..] == lines[i + 1..] && lines[i..][0] == line;
        var a := RecogniseLine(line);
        if a.Some? && a.value.key in remove { continue; }
        if a.Some? && a.value.key in values {
          var key := a.value.key;
          if key in written { continue; }
          written := written + {key};
          line := Rewritten(line, a.value, values[key]);
        }
        OntoKeep(retained, line, EditLines(lines[i + 1..], values, remove, written));
        retained := retained + [line];
      }
      assert retained + [] == retained;
      lines := retained;
    }

    /** The second loop of `apply`. */
    method AppendMissing(values: map<string, string>, order: seq<string>, remove: set<string>, already: set<string>)
      requires WalksAll(order, values)
      modifies `lines
      ensures lines == old(lines) + Appended(order, values, remove, already)
    {
      var written := already;
      ghost var app: seq<string> := [];
      for i := 0 to |order|
        invariant lines == old(lines) + app
        invariant Appended(order, values, remove, already) == app + Appended(order[i..], values, remove, written)
      {
        var k := order[i];
        assert order[i..][1..] == order[i + 1..];
        if k !in remove && k !in written {
          written := written + {k};
          lines := lines + [AppendedLine(k, values[k])];
          app := app + [AppendedLine(k, values[k])];
        }
      }
    }

    method ToText() returns (text: string)
      ensures text == Render(Contents())
    {
      text := Text.Join(lines, Newline(crlf));
      if trailing && lines != [] { text := text + Newline(crlf); } else { text := text + []; }
    }
  }

  function Onto(kept: seq<string>, e: Edited): Edited {
    Edited(kept + e.lines, e.written)
  }

  lemma OntoKeep(kept: seq<string>, line: string, e: Edited)
    ensures Onto(kept, Keep(line, e)) == Onto(kept + [line], e)
  {
    assert kept + ([line] + e.lines) == kept + [line] + e.lines;
  }
}
