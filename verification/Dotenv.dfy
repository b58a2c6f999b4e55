/** The `.env` editor and parser of panoptikon-config/src/lib.rs: what an edit means to a
    reader of the file, and what a second edit does. */
module Dotenv {
  import opened Prelude
  import opened Text
  import opened DotenvLine

  const BOM := '\U{FEFF}'

  // --- text and lines ---

  /** The document: its lines, its newline style, and whether it ends in a newline. */
  datatype Doc = Doc(lines: seq<string>, crlf: bool, trailing: bool)

  function Newline(crlf: bool): string {
    if crlf then "\r\n" else "\n"
  }

  predicate CrlfAt(s: string, i: int) {
    0 <= i < |s| - 1 && s[i] == '\r' && s[i + 1] == '\n'
  }

  predicate ContainsCrlf(s: string) {
    exists i | 0 <= i < |s| - 1 :: CrlfAt(s, i)
  }

  function DropFinalNewline(s: string): string {
    if s != [] && s[|s| - 1] == '\n' then s[..|s| - 1] else s
  }

  function EditorLines(source: string): seq<string> {
    var normalized := NormalizeNewlines(source);
    if normalized == [] then [] else SplitOn(DropFinalNewline(normalized), '\n')
  }

  function ParseDocument(source: string): Doc {
    Doc(EditorLines(source), ContainsCrlf(source), source != [] && source[|source| - 1] == '\n')
  }

  function Render(d: Doc): string {
    Join(d.lines, Newline(d.crlf)) + if d.trailing && d.lines != [] then Newline(d.crlf) else []
  }

  lemma NormalizeChar(c: char, t: string)
    requires c == '\r' ==> t == [] || t[0] != '\n'
    ensures NormalizeNewlines([c] + t) == [c] + NormalizeNewlines(t)
  {
    assert ([c] + t)[1..] == t;
  }

  lemma NormalizeCrlf(t: string)
    ensures NormalizeNewlines("\r\n" + t) == "\n" + NormalizeNewlines(t)
  {
    assert ("\r\n" + t)[2..] == t;
  }

  lemma {:induction false} NormalizeLine(line: string, t: string)
    requires '\n' !in line
    ensures NormalizeNewlines(line + "\n" + t) == StripCr(line) + "\n" + NormalizeNewlines(t)
  {
    if line == [] {
      assert line + "\n" + t == ['\n'] + t;
      NormalizeChar('\n', t);
    } else if line == ['\r'] {
      assert line + "\n" + t == "\r\n" + t;
      NormalizeCrlf(t);
    } else {
      var rest := line[1..] + "\n" + t;
      assert line + "\n" + t == [line[0]] + rest;
      assert rest[0] == if |line| > 1 then line[1] else '\n';
      NormalizeChar(line[0], rest);
      NormalizeLine(line[1..], t);
      assert StripCr(line) == [line[0]] + StripCr(line[1..]);
    }
  }

  lemma {:induction false} NormalizeLastLine(line: string)
    requires '\n' !in line
    ensures NormalizeNewlines(line) == line
  {
    if line != [] { NormalizeLastLine(line[1..]); }
  }

  lemma NormalizedIsEmpty(s: string)
    ensures NormalizeNewlines(s) == [] <==> s == []
  {
  }

  lemma SplitAtNewline(line: string, t: string)
    requires '\n' !in line
    ensures SplitOn(line + "\n" + t, '\n') == [line] + SplitOn(t, '\n')
  {
    CutAtFirst(line, "\n", t);
  }

  lemma FirstLine(line: string, t: string)
    requires '\n' !in line
    ensures Lines(line + "\n" + t) == [StripCr(line)] + Lines(t)
  {
    CutAtFirst(line, "\n", t);
  }

  lemma SplitFirstLine(source: string) returns (line: string, t: string)
    requires '\n' in source
    ensures '\n' !in line && source == line + "\n" + t && |t| < |source|
  {
    var i := IndexOf(source, '\n');
    line, t := source[..i], source[i + 1..];
    CutAt(source, i);
    assert [source[i]] == "\n";
  }

  lemma CutAt(s: string, i: nat)
    requires i < |s|
    ensures s == s[..i] + [s[i]] + s[i + 1..]
  {
  }

  lemma FirstEditorLine(line: string, t: string)
    requires '\n' !in line
    ensures EditorLines(line + "\n" + t) == [StripCr(line)] + EditorLines(t)
  {
    var head, rest := StripCr(line), NormalizeNewlines(t);
    NormalizeLine(line, t);
    NormalizedIsEmpty(t);
    if t == [] {
      assert head + "\n" + [] == head + "\n";
      assert DropFinalNewline(head + "\n") == head;
      IndexOfUnique(head, '\n', |head|);
    } else {
      assert DropFinalNewline(head + "\n" + rest) == head + "\n" + DropFinalNewline(rest);
      SplitAtNewline(head, DropFinalNewline(rest));
    }
  }

  lemma OnlyLine(line: string)
    requires '\n' !in line
    ensures Lines(line) == if line == [] then [] else [line]
  {
    IndexOfUnique(line, '\n', |line|);
  }

  /** Both readers of the file see the same lines. */
  lemma {:induction false} SameLines(source: string)
    ensures EditorLines(source) == Lines(source)
    decreases |source|
  {
    if '\n' in source {
      var line, t := SplitFirstLine(source);
      SameLines(t);
      FirstLine(line, t);
      FirstEditorLine(line, t);
    } else {
      NormalizeLastLine(source);
      OnlyLine(source);
      IndexOfUnique(source, '\n', |source|);
    }
  }

  lemma {:induction false} LinesHaveNoNewline(source: string)
    ensures forall l :: l in Lines(source) ==> '\n' !in l
    decreases |source|
  {
    var i := IndexOf(source, '\n');
    if i < |source| { LinesHaveNoNewline(source[i + 1..]); }
  }

  function Terminated(lines: seq<string>, newline: string): string {
    if lines == [] then [] else lines[0] + newline + Terminated(lines[1..], newline)
  }

  lemma {:induction false} JoinTerminated(lines: seq<string>, newline: string)
    requires lines != []
    ensures Join(lines, newline) + newline == Terminated(lines, newline)
  {
    if |lines| == 1 {
      assert Terminated(lines[1..], newline) == [];
      assert lines[0] + newline + [] == lines[0] + newline;
    } else {
      JoinTerminated(lines[1..], newline);
      assert Join(lines, newline) + newline == lines[0] + newline + (Join(lines[1..], newline) + newline);
    }
  }

  function StripAll(lines: seq<string>, crlf: bool): seq<string> {
    if lines == [] then [] else [if crlf then lines[0] else StripCr(lines[0])] + StripAll(lines[1..], crlf)
  }

  lemma LinesAfterFirst(first: string, rest: string)
    requires '\n' !in first
    ensures Lines(first + ("\n" + rest)) == [StripCr(first)] + Lines(rest)
  {
    TextAssoc(first, "\n", rest);
    FirstLine(first, rest);
  }

  lemma FirstTerminated(line: string, rest: string, crlf: bool)
    ensures line + Newline(crlf) + rest == (if crlf then line + "\r" else line) + ("\n" + rest)
  {
    assert "\r\n" == "\r" + "\n";
  }

  /** Rendering and splitting again gives the lines back, up to a stray carriage return. */
  lemma {:induction false} LinesOfTerminated(lines: seq<string>, crlf: bool)
    requires forall l :: l in lines ==> '\n' !in l
    ensures Lines(Terminated(lines, Newline(crlf))) == StripAll(lines, crlf)
  {
    if lines != [] {
      LinesOfTerminated(lines[1..], crlf);
      var rest := Terminated(lines[1..], Newline(crlf));
      var first := if crlf then lines[0] + "\r" else lines[0];
      FirstTerminated(lines[0], rest, crlf);
      LinesAfterFirst(first, rest);
      assert crlf ==> first[..|first| - 1] == lines[0];
    }
  }

  // --- reading ---

  type Pairs = seq<(string, string)>

  datatype Diagnostic = Diagnostic(line: nat, reason: LineRead)

  datatype DotenvParse = DotenvParse(values: Pairs, diagnostics: seq<Diagnostic>)

  function StripBom(s: string): string {
    if s != [] && s[0] == BOM then s[1..] else s
  }

  function PairsOf(read: LineRead): Pairs {
    match read case Assigns(k, v) => [(k, v)] case _ => []
  }

  function ComplaintsOf(read: LineRead, number: nat): seq<Diagnostic> {
    if read.Blank? || read.Assigns? then [] else [Diagnostic(number, read)]
  }

  /** The assignments in a list of lines, in order. */
  function ReadAll(lines: seq<string>): Pairs {
    if lines == [] then [] else PairsOf(ReadLine(lines[0])) + ReadAll(lines[1..])
  }

  /** One diagnostic for every line that is neither blank nor read, with its number. */
  function Complaints(lines: seq<string>, number: nat): seq<Diagnostic> {
    if lines == [] then [] else ComplaintsOf(ReadLine(lines[0]), number) + Complaints(lines[1..], number + 1)
  }

  function ParseDotenv(source: string): DotenvParse {
    var lines := Lines(StripBom(source));
    DotenvParse(ReadAll(lines), Complaints(lines, 1))
  }

  /** Last one wins. */
  function Collect(pairs: Pairs): map<string, string> {
    if pairs == [] then map[] else Collect(pairs[..|pairs| - 1])[pairs[|pairs| - 1].0 := pairs[|pairs| - 1].1]
  }

  function LastOf(lines: seq<string>, key: string): Option<string> {
    if lines == [] then None
    else
      var later := LastOf(lines[1..], key);
      if later.Some? then later else OwnValue(lines[0], key)
  }

  function OwnValue(line: string, key: string): Option<string> {
    match ReadLine(line) case Assigns(k, v) => if k == key then Some(v) else None case _ => None
  }

  lemma {:induction false} CollectConcat(a: Pairs, b: Pairs)
    ensures Collect(a + b) == Collect(a) + Collect(b)
  {
    if b == [] {
      assert a + b == a;
    } else {
      var init, last := b[..|b| - 1], b[|b| - 1];
      assert (a + b)[..|a + b| - 1] == a + init;
      CollectConcat(a, init);
    }
  }

  lemma {:induction false} CollectIsLastOf(lines: seq<string>, key: string)
    ensures var m := Collect(ReadAll(lines));
            if key in m then LastOf(lines, key) == Some(m[key]) else LastOf(lines, key) == None
  {
    if lines != [] {
      CollectIsLastOf(lines[1..], key);
      var own := PairsOf(ReadLine(lines[0]));
      CollectConcat(own, ReadAll(lines[1..]));
      if own != [] {
        assert own[..0] == [];
        assert Collect(own) == map[own[0].0 := own[0].1];
      }
    }
  }

  lemma StrayCrIsTrimmed(line: string)
    ensures TrimEnd(StripCr(line)) == TrimEnd(line)
  {
  }

  lemma StrayCrIsIgnored(line: string)
    ensures ReadLine(StripCr(line)) == ReadLine(line)
  {
    StrayCrIsTrimmed(line);
    assert Trim(StripCr(line)) == Trim(line);
  }

  lemma {:induction false} StrayCrsAreIgnored(lines: seq<string>, crlf: bool)
    ensures ReadAll(StripAll(lines, crlf)) == ReadAll(lines)
  {
    if lines != [] {
      StrayCrIsIgnored(lines[0]);
      StrayCrsAreIgnored(lines[1..], crlf);
      assert StripAll(lines, crlf)[1..] == StripAll(lines[1..], crlf);
    }
  }

  // --- editing ---

  datatype Edited = Edited(lines: seq<string>, written: set<string>)

  /** One pass over the lines: drop removed keys and later duplicates of set keys, rewrite the
      first line of each set key, keep the rest. */
  function EditLines(lines: seq<string>, values: map<string, string>, remove: set<string>, written: set<string>): Edited
  {
    if lines == [] then Edited([], written)
    else
      var line, rest := lines[0], lines[1..];
      match EditorAssignment(line)
      case None => Keep(line, EditLines(rest, values, remove, written))
      case Some(a) =>
        if a.key in remove || (a.key in values && a.key in written) then EditLines(rest, values, remove, written)
        else if a.key !in values then Keep(line, EditLines(rest, values, remove, written))
        else Keep(Rewritten(line, a, values[a.key]), EditLines(rest, values, remove, written + {a.key}))
  }

  function Keep(line: string, e: Edited): Edited {
    Edited([line] + e.lines, e.written)
  }

  /** The lines appended for the keys of `order` that no line has set. */
  function Appended(order: seq<string>, values: map<string, string>, remove: set<string>, written: set<string>): seq<string>
    requires forall k :: k in order ==> k in values
  {
    if order == [] then []
    else
      var k := order[0];
      if k in remove || k in written then Appended(order[1..], values, remove, written)
      else [AppendedLine(k, values[k])] + Appended(order[1..], values, remove, written + {k})
  }

  /** `order` lists every key of `values`, in the order the map is walked. */
  ghost predicate WalksAll(order: seq<string>, values: map<string, string>) {
    (forall k :: k in order <==> k in values)
  }

  ghost predicate ValidNames(values: map<string, string>) {
    forall k :: k in values ==> IsEnvName(k)
  }

  function AppliedLines(lines: seq<string>, values: map<string, string>, order: seq<string>, remove: set<string>): seq<string>
    requires forall k :: k in order ==> k in values
  {
    var e := EditLines(lines, values, remove, {});
    e.lines + Appended(order, values, remove, e.written)
  }

  function Applied(d: Doc, values: map<string, string>, order: seq<string>, remove: set<string>): Doc
    requires forall k :: k in order ==> k in values
  {
    var lines := AppliedLines(d.lines, values, order, remove);
    Doc(lines, d.crlf, d.trailing || lines != [])
  }

  // --- what an edit means ---

  ghost predicate NoneHidden(lines: seq<string>) {
    forall l :: l in lines ==> !Hidden(l)
  }

  function Or(a: Option<string>, b: Option<string>): Option<string> {
    if a.Some? then a else b
  }

  /** The value of `key` in the last hidden line that has it. */
  function LastHidden(lines: seq<string>, key: string): Option<string> {
    if lines == [] then None
    else Or(LastHidden(lines[1..], key), if Hidden(lines[0]) then OwnValue(lines[0], key) else None)
  }

  predicate SetsKey(line: string, key: string) {
    var a := EditorAssignment(line);
    a.Some? && a.value.key == key
  }

  /** The first line the editor recognises as setting `key`; the length if there is none. */
  function FirstFor(lines: seq<string>, key: string): (i: nat)
    ensures i <= |lines|
  {
    if lines == [] || SetsKey(lines[0], key) then 0 else 1 + FirstFor(lines[1..], key)
  }

  /** The value of `key` in the last hidden line behind the line the editor would rewrite. */
  function HiddenBehind(lines: seq<string>, key: string): Option<string> {
    var i := FirstFor(lines, key);
    if i < |lines| then LastHidden(lines[i + 1..], key) else None
  }

  lemma HiddenBehindFirst(lines: seq<string>, key: string)
    requires lines != []
    ensures HiddenBehind(lines, key) ==
              if SetsKey(lines[0], key) then LastHidden(lines[1..], key) else HiddenBehind(lines[1..], key)
  {
    var rest := lines[1..];
    if !SetsKey(lines[0], key) && FirstFor(rest, key) < |rest| {
      assert lines[1 + FirstFor(rest, key) + 1..] == rest[FirstFor(rest, key) + 1..];
    }
  }

  lemma {:induction false} WrittenWithin(lines: seq<string>, values: map<string, string>, remove: set<string>,
                                         written: set<string>, key: string)
    ensures key in EditLines(lines, values, remove, written).written <==>
              key in written || (key in values && key !in remove && FirstFor(lines, key) < |lines|)
  {
    if lines != [] {
      var a := EditorAssignment(lines[0]);
      WrittenWithin(lines[1..], values, remove, written, key);
      if a.Some? { WrittenWithin(lines[1..], values, remove, written + {a.value.key}, key); }
    }
  }

  /** What the kept lines say of a key: the first line of a set key has its value, the others
      are gone, and hidden lines stay. */
  function ReadAfter(lines: seq<string>, values: map<string, string>, remove: set<string>,
                     written: set<string>, key: string): Option<string>
  {
    if key in remove || (key in values && key in written) then LastHidden(lines, key)
    else if key !in values then LastOf(lines, key)
    else if FirstFor(lines, key) < |lines| then Or(HiddenBehind(lines, key), Some(values[key]))
    else LastHidden(lines, key)
  }

  lemma ReadAfterUnseen(lines: seq<string>, values: map<string, string>, remove: set<string>, written: set<string>, key: string)
    requires lines != [] && EditorAssignment(lines[0]).None?
    ensures ReadAfter(lines, values, remove, written, key)
         == Or(ReadAfter(lines[1..], values, remove, written, key), OwnValue(lines[0], key))
  {
    HiddenBehindFirst(lines, key);
  }

  /** A line the editor recognises, to each of the searches. */
  lemma LineSeen(lines: seq<string>, key: string, own: string)
    requires lines != [] && EditorAssignment(lines[0]).Some? && own == EditorAssignment(lines[0]).value.key
    requires ReadLine(lines[0]).Assigns? ==> ReadLine(lines[0]).key == own
    ensures LastHidden(lines, key) == LastHidden(lines[1..], key)
    ensures LastOf(lines, key) == Or(LastOf(lines[1..], key), OwnValue(lines[0], key))
    ensures own != key ==> OwnValue(lines[0], key) == None
    ensures FirstFor(lines, key) == if own == key then 0 else 1 + FirstFor(lines[1..], key)
    ensures HiddenBehind(lines, key) == if own == key then LastHidden(lines[1..], key) else HiddenBehind(lines[1..], key)
  {
    HiddenBehindFirst(lines, key);
    assert SetsKey(lines[0], key) <==> own == key;
    assert !Hidden(lines[0]);
  }

  lemma {:induction false} ReadAfterSeen(lines: seq<string>, values: map<string, string>, remove: set<string>, written: set<string>, key: string, own: string)
    requires lines != [] && EditorAssignment(lines[0]).Some? && own == EditorAssignment(lines[0]).value.key
    requires ReadLine(lines[0]).Assigns? ==> ReadLine(lines[0]).key == own
    ensures var later := ReadAfter(lines[1..], values, remove, written, key);
            ReadAfter(lines, values, remove, written, key) ==
              if own in remove || (own in values && own in written) then later
              else if own !in values then Or(later, OwnValue(lines[0], key))
              else Or(ReadAfter(lines[1..], values, remove, written + {own}, key), if own == key then Some(values[key]) else None)
  {
    LineSeen(lines, key, own);
  }

  /** What one line adds to that, for each thing the editor can do with it. */
  lemma ReadAfterLine(lines: seq<string>, values: map<string, string>, remove: set<string>,
                      written: set<string>, key: string)
    requires lines != []
    ensures var line, later := lines[0], ReadAfter(lines[1..], values, remove, written, key);
            ReadAfter(lines, values, remove, written, key) ==
              match EditorAssignment(line)
              case None => Or(later, OwnValue(line, key))
              case Some(a) =>
                if a.key in remove || (a.key in values && a.key in written) then later
                else if a.key !in values then Or(later, OwnValue(line, key))
                else Or(ReadAfter(lines[1..], values, remove, written + {a.key}, key),
                        if a.key == key then Some(values[key]) else None)
  {
    match EditorAssignment(lines[0])
    case None => ReadAfterUnseen(lines, values, remove, written, key);
    case Some(a) =>
      EditorLinesAreRead(lines[0]);
      ReadAfterSeen(lines, values, remove, written, key, a.key);
  }

  lemma {:induction false} EditMeansWithin(lines: seq<string>, values: map<string, string>, remove: set<string>,
                                           written: set<string>, key: string)
    ensures LastOf(EditLines(lines, values, remove, written).lines, key) == ReadAfter(lines, values, remove, written, key)
  {
    if lines != [] {
      var line, rest := lines[0], lines[1..];
      ReadAfterLine(lines, values, remove, written, key);
      EditMeansWithin(rest, values, remove, written, key);
      LastOfBehind(line, EditLines(rest, values, remove, written).lines, key);
      var a := EditorAssignment(line);
      if a.Some? && a.value.key in values {
        var k := a.value.key;
        RewrittenIsRead(line, values[k]);
        EditMeansWithin(rest, values, remove, written + {k}, key);
        LastOfBehind(Rewritten(line, a.value, values[k]), EditLines(rest, values, remove, written + {k}).lines, key);
      }
    }
  }

  lemma LastOfBehind(line: string, rest: seq<string>, key: string)
    ensures LastOf([line] + rest, key) == Or(LastOf(rest, key), OwnValue(line, key))
  {
    assert ([line] + rest)[1..] == rest;
  }

  lemma {:induction false} AppendedMeans(order: seq<string>, values: map<string, string>, remove: set<string>,
                                         written: set<string>, key: string)
    requires forall k :: k in order ==> k in values
    requires ValidNames(values)
    ensures LastOf(Appended(order, values, remove, written), key) ==
              if key in order && key !in remove && key !in written then Some(values[key]) else None
  {
    if order != [] {
      var k := order[0];
      if k in remove || k in written {
        AppendedMeans(order[1..], values, remove, written, key);
      } else {
        var later := Appended(order[1..], values, remove, written + {k});
        AppendedMeans(order[1..], values, remove, written + {k}, key);
        AppendedLineReads(k, values[k]);
        LastOfBehind(AppendedLine(k, values[k]), later, key);
      }
    }
  }

  lemma {:induction false} LastOfConcat(a: seq<string>, b: seq<string>, key: string)
    ensures LastOf(a + b, key) == if LastOf(b, key).Some? then LastOf(b, key) else LastOf(a, key)
  {
    if a == [] {
      assert a + b == b;
    } else {
      assert (a + b)[1..] == a[1..] + b;
      LastOfConcat(a[1..], b, key);
    }
  }

  /** How an edited list of lines reads, key by key. */
  lemma EditMeansForKey(lines: seq<string>, values: map<string, string>, order: seq<string>, remove: set<string>, key: string)
    requires WalksAll(order, values) && ValidNames(values)
    ensures LastOf(AppliedLines(lines, values, order, remove), key) ==
              if key in remove then LastHidden(lines, key)
              else if key in values then Or(HiddenBehind(lines, key), Some(values[key]))
              else LastOf(lines, key)
  {
    var e := EditLines(lines, values, remove, {});
    EditMeansWithin(lines, values, remove, {}, key);
    WrittenWithin(lines, values, remove, {}, key);
    AppendedMeans(order, values, remove, e.written, key);
    LastOfConcat(e.lines, Appended(order, values, remove, e.written), key);
  }

  lemma {:induction false} NothingHidden(lines: seq<string>, key: string)
    requires NoneHidden(lines)
    ensures LastHidden(lines, key) == None
  {
    if lines != [] {
      assert !Hidden(lines[0]);
      NothingHidden(lines[1..], key);
    }
  }

  lemma NothingHiddenBehind(lines: seq<string>, key: string)
    requires NoneHidden(lines)
    ensures HiddenBehind(lines, key) == None
  {
    if FirstFor(lines, key) < |lines| { NothingHidden(lines[FirstFor(lines, key) + 1..], key); }
  }

  ghost function Overridden(old_: map<string, string>, values: map<string, string>, remove: set<string>): map<string, string> {
    (old_ + values) - remove
  }

  lemma EditMeansOnLines(lines: seq<string>, values: map<string, string>, order: seq<string>, remove: set<string>)
    requires NoneHidden(lines) && WalksAll(order, values) && ValidNames(values)
    ensures Collect(ReadAll(AppliedLines(lines, values, order, remove)))
         == Overridden(Collect(ReadAll(lines)), values, remove)
  {
    var m := Collect(ReadAll(AppliedLines(lines, values, order, remove)));
    var w := Overridden(Collect(ReadAll(lines)), values, remove);
    forall key ensures key in m <==> key in w
               ensures key in m ==> m[key] == w[key]
    {
      CollectIsLastOf(AppliedLines(lines, values, order, remove), key);
      CollectIsLastOf(lines, key);
      EditMeansForKey(lines, values, order, remove, key);
      NothingHidden(lines, key);
      NothingHiddenBehind(lines, key);
    }
  }

  // --- byte order marks ---

  predicate StartsWithBom(line: string) {
    line != [] && line[0] == BOM
  }

  /** A line that would become an assignment if it came first in the file: it starts with a
      byte order mark, which the parser skips there and only there. */
  predicate Veiled(line: string) {
    StartsWithBom(line) && ReadLine(line[1..]).Assigns?
  }

  /** The editor sees every assignment the parser can see, now or once the lines above are
      gone: no line is a readable bare `export =`, and no readable line behind a byte order
      mark is first or has only removable lines above it. */
  ghost predicate EditorSeesAll(source: string) {
    var lines := Lines(source);
    forall i :: 0 <= i < |lines| ==>
      && !Hidden(lines[i])
      && (Veiled(lines[i]) ==> exists j :: 0 <= j < i && EditorAssignment(lines[j]).None?)
  }

  lemma BomLineIsNoAssignment(line: string)
    requires StartsWithBom(line)
    ensures EditorAssignment(line).None? && !ReadLine(line).Assigns?
  {
    var e := IndexOf(line, '=');
    if e < |line| {
      SplitAtEquals(line);
      var prefix := line[..e];
      assert prefix[0] == BOM;
      assert TrimStart(prefix) == prefix;
      assert EXPORT[0] == 'e';
      assert !(EXPORT <= prefix);
      TrimEndHeadBom(prefix);
      KeysAgree(prefix);
      ReadAssignment(prefix, line[e + 1..]);
    } else {
      NoEqualsNoAssignment(line);
    }
  }

  lemma TrimEndHeadBom(prefix: string)
    requires StartsWithBom(prefix)
    ensures StartsWithBom(TrimEnd(prefix))
  {
    assert prefix == [BOM] + prefix[1..];
    TrimEndTail([BOM], prefix[1..]);
  }

  /** A mark at the very start of a file only affects how its first line is read. */
  lemma BomFirst(source: string) returns (first: string, rest: seq<string>)
    requires StartsWithBom(source)
    ensures Lines(source) == [first] + rest && StartsWithBom(first)
    ensures ReadAll(Lines(StripBom(source))) == ReadAll([first[1..]] + rest)
  {
    if '\n' in source {
      var line, t := SplitFirstLine(source);
      BomLineTail(line, t);
      FirstLine(line, t);
      FirstLine(line[1..], t);
      StripCrTail(line);
      first, rest := StripCr(line), Lines(t);
    } else {
      OnlyLine(source);
      OnlyLine(source[1..]);
      first, rest := source, [];
      BlankFirst(source[1..]);
    }
  }

  lemma BlankFirst(line: string)
    ensures ReadAll([line] + []) == ReadAll(if line == [] then [] else [line])
  {
    assert [line] + [] == [line] && [line][1..] == [];
  }

  function VeiledPairs(lines: seq<string>): Pairs {
    if lines != [] && Veiled(lines[0]) then PairsOf(ReadLine(lines[0][1..])) else []
  }

  /** Skipping a byte order mark at the very start of a file adds the assignment of a veiled
      first line, in front, and changes nothing else. */
  lemma BomUnveils(source: string)
    ensures ReadAll(Lines(StripBom(source))) == VeiledPairs(Lines(source)) + ReadAll(Lines(source))
  {
    var lines := Lines(source);
    if StartsWithBom(source) {
      var first, rest := BomFirst(source);
      BomLineIsNoAssignment(first);
      assert lines[1..] == rest && ([first[1..]] + rest)[1..] == rest;
    } else if lines != [] {
      assert !StartsWithBom(lines[0]);
    }
  }

  lemma BomLineTail(line: string, t: string)
    requires StartsWithBom(line + "\n" + t)
    ensures StartsWithBom(line) && (line + "\n" + t)[1..] == line[1..] + "\n" + t
    ensures StripBom(line + "\n" + t) == line[1..] + "\n" + t
  {
    assert (line + "\n" + t)[0] == if line == [] then '\n' else line[0];
  }

  lemma StripCrTail(line: string)
    requires StartsWithBom(line)
    ensures StartsWithBom(StripCr(line)) && StripCr(line)[1..] == StripCr(line[1..])
  {
  }
}
