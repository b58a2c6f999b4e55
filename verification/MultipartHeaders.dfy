/** The headers of one multipart section (panoptikon/src/inferio_client.rs,
    panoptikon/src/inferio/http.rs): what the client reads from them, and what the server
    writes. */
module MultipartHeaders {
  import opened Prelude
  import Encodings
  import opened Text

  // --- reading ---

  function Lower(c: char): char {
    if 'A' <= c <= 'Z' then (c as int + 32) as char else c
  }

  /** `key` is in lower case. */
  predicate StartsIgnoringCase(line: string, key: string) {
    |key| <= |line| && forall i :: 0 <= i < |key| ==> Lower(line[i]) == key[i]
  }

  function DropStart(s: string, c: char): (r: string)
    ensures r == [] || r[0] != c
  {
    if s != [] && s[0] == c then DropStart(s[1..], c) else s
  }

  function DropEnd(s: string, c: char): (r: string)
    ensures r == [] || r[|r| - 1] != c
  {
    if s != [] && s[|s| - 1] == c then DropEnd(s[..|s| - 1], c) else s
  }

  /** `trim_matches` of one character. */
  function TrimChar(s: string, c: char): string {
    DropEnd(DropStart(s, c), c)
  }

  /** `trim_start_matches` and `trim_end_matches` of a string. */
  function DropPrefixes(s: string, p: string): string
    requires p != []
  {
    if p <= s then DropPrefixes(s[|p|..], p) else s
  }

  predicate EndsWith(s: string, p: string) {
    |p| <= |s| && s[|s| - |p|..] == p
  }

  function DropSuffixes(s: string, p: string): string
    requires p != []
  {
    if EndsWith(s, p) then DropSuffixes(s[..|s| - |p|], p) else s
  }

  predicate IsAscii(s: string) {
    forall i :: 0 <= i < |s| ==> s[i] as int < 128
  }

  /** `str::parse::<usize>` on a 64-bit platform. */
  function ParseUsize(s: string): Option<nat> {
    if IsAscii(s) then Encodings.ParseU64(Encodings.Ascii(s)) else None
  }

  function FromSegments(segments: seq<string>, key: string): Option<string> {
    if segments == [] then None
    else match StripPrefix(Trim(segments[0]), key)
      case Some(value) => Some(TrimChar(value, '"'))
      case None => FromSegments(segments[1..], key)
  }

  function FromLines(lines: seq<string>, heading: string, key: string): Option<string> {
    if lines == [] then None
    else
      var line := Trim(lines[0]);
      var found := if StartsIgnoringCase(line, heading) then FromSegments(SplitOn(line, ';'), key) else None;
      if found.Some? then found else FromLines(lines[1..], heading, key)
  }

  function Heading(): string { "content-disposition" }
  function FilenameKey(): string { "filename=" }

  /** `decode` stands for UTF-8 decoding. */
  type Decoder = bytes -> Option<string>

  /** All that is needed of it here: ASCII text is read as it is. */
  ghost predicate ReadsAscii(decode: Decoder) {
    forall t: string :: IsAscii(t) ==> decode(Encodings.Ascii(t)) == Some(t)
  }

  function FilenameIn(decode: Decoder, headers: bytes): Option<string> {
    match decode(headers) case None => None case Some(text) => FromLines(Lines(text), Heading(), FilenameKey())
  }

  lemma SegmentTurn(segments: seq<string>, j: nat, key: string)
    requires j < |segments|
    ensures FromSegments(segments[j..], key) ==
              match StripPrefix(Trim(segments[j]), key)
              case Some(value) => Some(TrimChar(value, '"'))
              case None => FromSegments(segments[j + 1..], key)
  {
    assert segments[j..][1..] == segments[j + 1..];
  }

  lemma LineTurn(lines: seq<string>, i: nat, heading: string, key: string)
    requires i < |lines|
    ensures var line := Trim(lines[i]);
            var found := if StartsIgnoringCase(line, heading) then FromSegments(SplitOn(line, ';'), key) else None;
            FromLines(lines[i..], heading, key) == if found.Some? then found else FromLines(lines[i + 1..], heading, key)
  {
    assert lines[i..][1..] == lines[i + 1..];
  }

  /** `extract_filename`. */
  method ExtractFilename(decode: Decoder, headers: bytes) returns (name: Option<string>)
    ensures name == FilenameIn(decode, headers)
  {
    var text := decode(headers);
    if text.None? { return None; }
    var lines := Lines(text.value);
    var i := 0;
    assert lines[0..] == lines;
    while i < |lines|
      invariant i <= |lines|
      invariant FilenameIn(decode, headers) == FromLines(lines[i..], Heading(), FilenameKey())
    {
      var line := Trim(lines[i]);
      LineTurn(lines, i, Heading(), FilenameKey());
      if StartsIgnoringCase(line, Heading()) {
        var segments := SplitOn(line, ';');
        var j := 0;
        assert segments[0..] == segments;
        while j < |segments|
          invariant j <= |segments|
          invariant FromSegments(segments, FilenameKey()) == FromSegments(segments[j..], FilenameKey())
        {
          SegmentTurn(segments, j, FilenameKey());
          var value := StripPrefix(Trim(segments[j]), FilenameKey());
          if value.Some? { return Some(TrimChar(value.value, '"')); }
          j := j + 1;
        }
      }
      i := i + 1;
    }
    name := None;
  }

  /** The slot a file name stands for. */
  function SlotOf(filename: string): Option<nat> {
    ParseUsize(DropSuffixes(DropPrefixes(filename, "output"), ".bin"))
  }

  // --- writing ---

  function DecimalText(n: nat): (s: string)
    ensures IsAscii(s) && Encodings.Ascii(s) == Encodings.Decimal(n)
    ensures s != [] && forall i :: 0 <= i < |s| ==> '0' <= s[i] <= '9'
  {
    var d := Encodings.Decimal(n);
    seq(|d|, i requires 0 <= i < |d| => d[i] as char)
  }

  function OutputName(n: nat): string {
    "output" + DecimalText(n) + ".bin"
  }

  function TypeLine(): string { "Content-Type: application/octet-stream" }
  function Attachment(): string { "Content-Disposition: attachment" }

  function DispositionLine(attachment: string, key: string, name: string): string {
    attachment + (";" + (" " + (key + ("\"" + (name + "\"")))))
  }

  function HeaderText(first: string, second: string): string {
    "\r\n" + (first + ("\r\n" + second))
  }

  /** The header lines of section `n`. */
  function Written(n: nat): string {
    HeaderText(TypeLine(), DispositionLine(Attachment(), FilenameKey(), OutputName(n)))
  }

  // --- reading what was written ---

  predicate Solid(s: string) {
    s != [] && !IsSpace(s[0]) && !IsSpace(s[|s| - 1])
  }

  predicate OneLine(s: string) {
    '\r' !in s && '\n' !in s
  }

  lemma TrimSolid(s: string)
    requires Solid(s)
    ensures Trim(s) == s
  {
    assert s + [] == s && [] + s == s;
    TrimEndOf(s, []);
    TrimStartOf([], s);
  }

  lemma LastLine(s: string)
    requires OneLine(s) && s != []
    ensures Lines(s) == [s]
  {
    IndexOfUnique(s, '\n', |s|);
  }

  lemma FirstLine(line: string, rest: string)
    requires OneLine(line)
    ensures Lines(line + ("\r\n" + rest)) == [line] + Lines(rest)
  {
    assert line + ("\r\n" + rest) == (line + "\r") + "\n" + rest;
    CutAtFirst(line + "\r", "\n", rest);
    assert StripCr(line + "\r") == line;
  }

  lemma WrittenLines(first: string, second: string)
    requires OneLine(first) && OneLine(second) && second != []
    ensures Lines(HeaderText(first, second)) == [""] + ([first] + [second])
  {
    LastLine(second);
    FirstLine(first, second);
    FirstLine("", first + ("\r\n" + second));
    assert "" + ("\r\n" + (first + ("\r\n" + second))) == HeaderText(first, second);
  }

  lemma SplitOnce(a: string, b: string, c: char)
    requires c !in a && c !in b
    ensures SplitOn(a + ([c] + b), c) == [a] + [b]
  {
    assert a + ([c] + b) == a + [c] + b;
    CutAtFirst(a, [c], b);
    IndexOfUnique(b, c, |b|);
  }

  lemma Unquoted(name: string)
    requires '"' !in name && name != []
    ensures TrimChar("\"" + (name + "\""), '"') == name
  {
    var s := "\"" + (name + "\"");
    assert name[0] in name && name[|name| - 1] in name;
    assert s[1..] == name + "\"" && (name + "\"")[0] == name[0];
    assert DropStart(s, '"') == name + "\"";
    assert (name + "\"")[..|name|] == name && DropEnd(name, '"') == name;
  }

  lemma OneSegment(segment: string, core: string, key: string, value: string)
    requires Trim(segment) == core && StripPrefix(core, key) == Some(value)
    ensures FromSegments([segment], key) == Some(TrimChar(value, '"'))
  {
  }

  /** The parameter that follows the disposition. */
  lemma ParameterRead(key: string, name: string)
    requires key != [] && !IsSpace(key[0]) && '"' !in name && name != []
    ensures FromSegments([" " + (key + ("\"" + (name + "\"")))], key) == Some(name)
  {
    var core := key + ("\"" + (name + "\""));
    assert core[0] == key[0] && core[|core| - 1] == '"';
    assert core + [] == core;
    var segment := " " + core;
    assert segment[0] == ' ' && segment[|segment| - 1] == '"';
    assert segment + [] == segment;
    TrimEndOf(segment, []);
    TrimStartOf(" ", core);
    assert Trim(segment) == core && core[|key|..] == "\"" + (name + "\"");
    assert key <= core && StripPrefix(core, key) == Some("\"" + (name + "\""));
    Unquoted(name);
    OneSegment(segment, core, key, "\"" + (name + "\""));
  }

  lemma DispositionRead(attachment: string, key: string, name: string)
    requires Solid(attachment) && ';' !in attachment && StripPrefix(attachment, key).None?
    requires key != [] && !IsSpace(key[0]) && ';' !in key && ';' !in name && '"' !in name && name != []
    ensures Solid(DispositionLine(attachment, key, name))
    ensures FromSegments(SplitOn(DispositionLine(attachment, key, name), ';'), key) == Some(name)
  {
    var parameter := " " + (key + ("\"" + (name + "\"")));
    var line := DispositionLine(attachment, key, name);
    assert line[0] == attachment[0] && line[|line| - 1] == '"';
    SplitOnce(attachment, parameter, ';');
    TrimSolid(attachment);
    ParameterRead(key, name);
    assert ([attachment] + [parameter])[1..] == [parameter];
  }

  /** Reading the headers gives back the name that was written, for any first line that is not
      itself a disposition. */
  lemma NameRead(first: string, attachment: string, heading: string, key: string, name: string)
    requires Solid(first) && OneLine(first) && !StartsIgnoringCase(first, heading) && heading != []
    requires StartsIgnoringCase(attachment, heading) && OneLine(attachment) && OneLine(key) && OneLine(name)
    requires Solid(attachment) && ';' !in attachment && StripPrefix(attachment, key).None?
    requires key != [] && !IsSpace(key[0]) && ';' !in key && ';' !in name && '"' !in name && name != []
    ensures FromLines(Lines(HeaderText(first, DispositionLine(attachment, key, name))), heading, key) == Some(name)
  {
    var second := DispositionLine(attachment, key, name);
    DispositionRead(attachment, key, name);
    LineIsPlain(attachment, key, name);
    WrittenLines(first, second);
    StartIsKept(attachment, ";" + (" " + (key + ("\"" + (name + "\"")))), heading);
    ThirdLineRead(first, second, heading, key, name);
  }

  lemma LineIsPlain(attachment: string, key: string, name: string)
    requires OneLine(attachment) && OneLine(key) && OneLine(name)
    ensures OneLine(DispositionLine(attachment, key, name))
  {
  }

  lemma StartIsKept(line: string, more: string, heading: string)
    requires StartsIgnoringCase(line, heading)
    ensures StartsIgnoringCase(line + more, heading)
  {
    assert forall i :: 0 <= i < |line| ==> (line + more)[i] == line[i];
  }

  /** Lines that are no disposition are passed over. */
  lemma ThirdLineRead(first: string, second: string, heading: string, key: string, name: string)
    requires Solid(first) && Solid(second) && heading != []
    requires !StartsIgnoringCase(first, heading) && StartsIgnoringCase(second, heading)
    requires FromSegments(SplitOn(second, ';'), key) == Some(name)
    ensures FromLines([""] + ([first] + [second]), heading, key) == Some(name)
  {
    TrimSolid(first);
    TrimSolid(second);
    assert Trim("") == "";
    NextLine("", [first] + [second], heading, key);
    NextLine(first, [second], heading, key);
    assert FromLines([second], heading, key) == Some(name);
  }

  lemma NextLine(line: string, lines: seq<string>, heading: string, key: string)
    requires !StartsIgnoringCase(Trim(line), heading)
    ensures FromLines([line] + lines, heading, key) == FromLines(lines, heading, key)
  {
    assert ([line] + lines)[1..] == lines;
  }

  lemma TypeLineIsSolid()
    ensures Solid(TypeLine())
  {
  }

  lemma TypeLineIsOneLine()
    ensures OneLine(TypeLine())
  {
  }

  lemma TypeLineIsAscii()
    ensures IsAscii(TypeLine())
  {
  }

  lemma TypeLineIsNoDisposition()
    ensures !StartsIgnoringCase(TypeLine(), Heading())
  {
    assert Lower(TypeLine()[8]) == 't' && Heading()[8] == 'd';
  }

  lemma AttachmentIsSolid()
    ensures Solid(Attachment())
  {
  }

  lemma AttachmentIsOneLine()
    ensures OneLine(Attachment()) && ';' !in Attachment()
  {
  }

  lemma AttachmentIsAscii()
    ensures IsAscii(Attachment())
  {
  }

  lemma AttachmentIsADisposition()
    ensures StartsIgnoringCase(Attachment(), Heading())
  {
  }

  lemma AttachmentIsNoFilename()
    ensures StripPrefix(Attachment(), FilenameKey()).None?
  {
    assert Attachment()[0] == 'C' && FilenameKey()[0] == 'f';
  }

  lemma KeyFacts()
    ensures FilenameKey() != [] && !IsSpace(FilenameKey()[0]) && OneLine(FilenameKey()) && ';' !in FilenameKey()
    ensures IsAscii(FilenameKey()) && Heading() != []
  {
  }

  lemma HeaderIsAscii(first: string, attachment: string, key: string, name: string)
    requires IsAscii(first) && IsAscii(attachment) && IsAscii(key) && IsAscii(name)
    ensures IsAscii(HeaderText(first, DispositionLine(attachment, key, name)))
  {
  }

  lemma NameFacts(n: nat)
    ensures OneLine(OutputName(n)) && IsAscii(OutputName(n))
    ensures ';' !in OutputName(n) && '"' !in OutputName(n) && '-' !in OutputName(n) && OutputName(n) != []
  {
  }

  lemma WrittenIsAscii(n: nat)
    ensures IsAscii(Written(n))
  {
    TypeLineIsAscii();
    AttachmentIsAscii();
    KeyFacts();
    NameFacts(n);
    HeaderIsAscii(TypeLine(), Attachment(), FilenameKey(), OutputName(n));
  }

  lemma NameInWritten(n: nat)
    ensures FromLines(Lines(Written(n)), Heading(), FilenameKey()) == Some(OutputName(n))
  {
    TypeLineIsSolid();
    TypeLineIsOneLine();
    TypeLineIsNoDisposition();
    AttachmentIsSolid();
    AttachmentIsOneLine();
    AttachmentIsADisposition();
    AttachmentIsNoFilename();
    KeyFacts();
    NameFacts(n);
    NameRead(TypeLine(), Attachment(), Heading(), FilenameKey(), OutputName(n));
  }

  lemma FilenameRead(decode: Decoder, n: nat)
    requires ReadsAscii(decode)
    ensures IsAscii(Written(n)) && FilenameIn(decode, Encodings.Ascii(Written(n))) == Some(OutputName(n))
  {
    WrittenIsAscii(n);
    NameInWritten(n);
  }

  lemma SlotRead(n: nat)
    requires n < Encodings.U64
    ensures SlotOf(OutputName(n)) == Some(n)
  {
    Encodings.ParseDecimal(n);
    SlotBetween("output", DecimalText(n), ".bin");
  }

  /** What stands between the prefix and the suffix, if both are told apart from it. */
  lemma SlotBetween(p: string, digits: string, q: string)
    requires p != [] && q != [] && digits != []
    requires digits[0] != p[0] && digits[|digits| - 1] != q[|q| - 1]
    ensures DropSuffixes(DropPrefixes(p + digits + q, p), q) == digits
  {
    var rest := digits + q;
    assert p + digits + q == p + rest && rest[0] == digits[0];
    OnePrefix(p, rest);
    OneSuffix(digits, q);
  }

  lemma {:induction false} OnePrefix(p: string, rest: string)
    requires p != [] && !(p <= rest)
    ensures DropPrefixes(p + rest, p) == rest
  {
    assert (p + rest)[|p|..] == rest;
  }

  lemma {:induction false} OneSuffix(s: string, q: string)
    requires q != [] && s != [] && s[|s| - 1] != q[|q| - 1]
    ensures DropSuffixes(s + q, q) == s
  {
    assert (s + q)[..|s|] == s && (s + q)[|s|..] == q;
  }
}
