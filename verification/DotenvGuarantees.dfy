/** What editing a `.env` file guarantees: exactly when a reader of the edited file sees what
    the edit asked for, and that editing twice is editing once. */
module DotenvGuarantees {
  import opened Prelude
  import opened Text
  import opened DotenvLine
  import opened Dotenv

  function EditedText(source: string, values: map<string, string>, order: seq<string>, remove: set<string>): string
    requires forall k :: k in order ==> k in values
  {
    Render(Applied(ParseDocument(source), values, order, remove))
  }

  /** Parsing the edited text gives the old variables, overridden by `values`, without `remove`. */
  ghost predicate EditMeans(source: string, values: map<string, string>, order: seq<string>, remove: set<string>)
    requires forall k :: k in order ==> k in values
  {
    Collect(ParseDotenv(EditedText(source, values, order, remove)).values)
      == Overridden(Collect(ParseDotenv(source).values), values, remove)
  }

  // --- the text of an edited document ---

  lemma {:induction false} EditKeepsLinesWhole(lines: seq<string>, values: map<string, string>, remove: set<string>, written: set<string>)
    requires forall l :: l in lines ==> '\n' !in l
    ensures forall l :: l in EditLines(lines, values, remove, written).lines ==> '\n' !in l
  {
    if lines != [] {
      var line, rest := lines[0], lines[1..];
      EditKeepsLinesWhole(rest, values, remove, written);
      var a := EditorAssignment(line);
      if a.Some? && a.value.key in values {
        EncodedHasNoNewline(values[a.value.key]);
        RewrittenParts(line, values[a.value.key]);
        EditKeepsLinesWhole(rest, values, remove, written + {a.value.key});
      }
    }
  }

  lemma RewrittenParts(line: string, value: string)
    requires EditorAssignment(line).Some? && '\n' !in line && '\n' !in Encode(value)
    ensures '\n' !in Rewritten(line, EditorAssignment(line).value, value)
  {
  }

  lemma {:induction false} EscapeHasNoNewline(s: string)
    ensures '\n' !in Escape(s)
  {
    if s != [] { EscapeHasNoNewline(s[1..]); }
  }

  lemma EncodedHasNoNewline(value: string)
    ensures '\n' !in Encode(value)
  {
    EncodeEscapesOnce(value);
    EscapeHasNoNewline(value);
  }

  lemma NoNewlineIn(key: string, rest: string)
    requires IsEnvName(key) && '\n' !in rest
    ensures '\n' !in key + "=" + rest
  {
    assert !IsNameChar('\n');
  }

  lemma AppendedLineWhole(key: string, value: string)
    requires IsEnvName(key)
    ensures '\n' !in AppendedLine(key, value) && EditorAssignment(AppendedLine(key, value)).Some?
  {
    assert '\n' !in AppendedLine(key, value) by {
      EncodedHasNoNewline(value);
      NoNewlineIn(key, Encode(value));
    }
    AppendedLineReads(key, value);
  }

  lemma {:induction false} AppendedLinesWhole(order: seq<string>, values: map<string, string>, remove: set<string>, written: set<string>)
    requires forall k :: k in order ==> k in values
    requires ValidNames(values)
    ensures forall l :: l in Appended(order, values, remove, written) ==> '\n' !in l && EditorAssignment(l).Some?
  {
    if order != [] {
      var k := order[0];
      if k in remove || k in written {
        AppendedLinesWhole(order[1..], values, remove, written);
      } else {
        AppendedLinesWhole(order[1..], values, remove, written + {k});
        AppendedLineWhole(k, values[k]);
        var tail := Appended(order[1..], values, remove, written + {k});
        assert Appended(order, values, remove, written) == [AppendedLine(k, values[k])] + tail;
      }
    }
  }

  lemma AppliedLinesWhole(lines: seq<string>, values: map<string, string>, order: seq<string>, remove: set<string>)
    requires WalksAll(order, values) && ValidNames(values) && forall l :: l in lines ==> '\n' !in l
    ensures forall l :: l in AppliedLines(lines, values, order, remove) ==> '\n' !in l
  {
    EditKeepsLinesWhole(lines, values, remove, {});
    AppendedLinesWhole(order, values, remove, EditLines(lines, values, remove, {}).written);
  }

  /** The lines of the edited text are the edited lines. */
  lemma LinesOfEdited(source: string, values: map<string, string>, order: seq<string>, remove: set<string>)
    requires WalksAll(order, values) && ValidNames(values)
    ensures var crlf := ContainsCrlf(source);
            var new_ := AppliedLines(Lines(source), values, order, remove);
            && Lines(EditedText(source, values, order, remove)) == StripAll(new_, crlf)
            && EditedText(source, values, order, remove) == Terminated(new_, Newline(crlf))
  {
    var crlf := ContainsCrlf(source);
    SameLines(source);
    LinesHaveNoNewline(source);
    var new_ := AppliedLines(Lines(source), values, order, remove);
    AppliedLinesWhole(Lines(source), values, order, remove);
    if new_ != [] { JoinTerminated(new_, Newline(crlf)); }
    LinesOfTerminated(new_, crlf);
  }

  // --- what a reader finds, key by key ---

  function Get(m: map<string, string>, key: string): Option<string> {
    if key in m then Some(m[key]) else None
  }

  lemma SameMaps(m: map<string, string>, m': map<string, string>)
    ensures m == m' <==> forall key :: Get(m, key) == Get(m', key)
  {
    if forall key :: Get(m, key) == Get(m', key) {
      forall key ensures key in m <==> key in m'
                 ensures key in m ==> m[key] == m'[key]
      {
        assert Get(m, key) == Get(m', key);
      }
    }
  }

  function Found(text: string, key: string): Option<string> {
    Get(Collect(ParseDotenv(text).values), key)
  }

  /** What the first line sets once the byte order mark in front of it is skipped. */
  function Unveiled(lines: seq<string>, key: string): Option<string> {
    if lines != [] && Veiled(lines[0]) then OwnValue(lines[0][1..], key) else None
  }

  lemma FoundInLines(text: string, key: string)
    ensures Found(text, key) == Or(LastOf(Lines(text), key), Unveiled(Lines(text), key))
  {
    var lines := Lines(text);
    BomUnveils(text);
    CollectConcat(VeiledPairs(lines), ReadAll(lines));
    CollectIsLastOf(lines, key);
    CollectOne(VeiledPairs(lines));
  }

  lemma CollectOne(pairs: Pairs)
    ensures pairs == [] ==> Collect(pairs) == map[]
    ensures |pairs| == 1 ==> Collect(pairs) == map[pairs[0].0 := pairs[0].1]
  {
    if |pairs| == 1 { assert pairs[..0] == []; }
  }

  predicate IsRemoved(line: string, remove: set<string>) {
    var a := EditorAssignment(line);
    a.Some? && a.value.key in remove
  }

  /** How many lines from the top an edit takes away: recognised ones of removed keys. */
  function RemovedAbove(lines: seq<string>, remove: set<string>): (n: nat)
    ensures n <= |lines|
    ensures forall i :: 0 <= i < n ==> IsRemoved(lines[i], remove)
    ensures n < |lines| ==> !IsRemoved(lines[n], remove)
  {
    if lines != [] && IsRemoved(lines[0], remove) then 1 + RemovedAbove(lines[1..], remove) else 0
  }

  lemma UnveiledIfRecognised(line: string)
    requires EditorAssignment(line).Some?
    ensures !Veiled(line)
  {
    if StartsWithBom(line) { BomLineIsNoAssignment(line); }
  }

  /** The first line of an edited file is veiled if the first line that is not taken away is. */
  lemma {:induction false} UnveiledByEdit(lines: seq<string>, values: map<string, string>, order: seq<string>, remove: set<string>, key: string)
    requires WalksAll(order, values) && ValidNames(values)
    ensures Unveiled(AppliedLines(lines, values, order, remove), key) == Unveiled(lines[RemovedAbove(lines, remove)..], key)
  {
    var new_ := AppliedLines(lines, values, order, remove);
    if lines == [] {
      AppendedLinesWhole(order, values, remove, {});
      if new_ != [] { UnveiledIfRecognised(new_[0]); }
    } else {
      var line, rest := lines[0], lines[1..];
      var a := EditorAssignment(line);
      if a.Some? && a.value.key in remove {
        UnveiledByEdit(rest, values, order, remove, key);
        assert lines[RemovedAbove(lines, remove)..] == rest[RemovedAbove(rest, remove)..];
      } else if a.Some? {
        UnveiledIfRecognised(line);
        if a.value.key in values {
          RewrittenIsRecognised(line, values[a.value.key]);
          UnveiledIfRecognised(Rewritten(line, a.value, values[a.value.key]));
        }
      }
    }
  }

  lemma UnveiledIgnoresCr(lines: seq<string>, crlf: bool, key: string)
    ensures Unveiled(StripAll(lines, crlf), key) == Unveiled(lines, key)
  {
    if lines != [] && StartsWithBom(lines[0]) {
      StripCrTail(lines[0]);
      StrayCrIsIgnored(lines[0][1..]);
    }
  }

  /** What a reader finds in an edited file. */
  lemma FoundAfterEdit(source: string, values: map<string, string>, order: seq<string>, remove: set<string>, key: string)
    requires WalksAll(order, values) && ValidNames(values)
    ensures var lines := Lines(source);
            Found(EditedText(source, values, order, remove), key) ==
              Or(if key in remove then LastHidden(lines, key)
                 else if key in values then Or(HiddenBehind(lines, key), Some(values[key]))
                 else LastOf(lines, key),
                 Unveiled(lines[RemovedAbove(lines, remove)..], key))
  {
    var crlf := ContainsCrlf(source);
    var new_ := AppliedLines(Lines(source), values, order, remove);
    LinesOfEdited(source, values, order, remove);
    FoundInLines(EditedText(source, values, order, remove), key);
    StrayCrsAreIgnored(new_, crlf);
    CollectIsLastOf(new_, key);
    CollectIsLastOf(StripAll(new_, crlf), key);
    UnveiledIgnoresCr(new_, crlf, key);
    UnveiledByEdit(Lines(source), values, order, remove, key);
    EditMeansForKey(Lines(source), values, order, remove, key);
  }

  // --- exactly which edits mean what they say ---

  /** The edit gets by the lines the editor overlooks. A removal of `export` meets no hidden
      line; a new value of `export` meets none behind the line that is rewritten, or one that
      happens to have that value; and if removals bring a veiled line to the top, its variable
      stays and is one the edit sets or the file had. */
  ghost predicate EditFits(source: string, values: map<string, string>, remove: set<string>) {
    var lines := Lines(source);
    var top := RemovedAbove(lines, remove);
    && ("export" in remove ==> NoneHidden(lines))
    && ("export" in values && "export" !in remove ==>
          HiddenBehind(lines, "export").None? || HiddenBehind(lines, "export") == Some(values["export"]))
    && (top < |lines| && Veiled(lines[top]) ==>
          var key := ReadLine(lines[top][1..]).key;
          key !in remove && (key in values || Found(source, key).Some?))
  }

  /** The same for one key. */
  ghost predicate KeyFits(source: string, values: map<string, string>, remove: set<string>, key: string) {
    var lines := Lines(source);
    var shown := Unveiled(lines[RemovedAbove(lines, remove)..], key);
    if key in remove then LastHidden(lines, key).None? && shown.None?
    else if key in values then HiddenBehind(lines, key).None? || HiddenBehind(lines, key) == Some(values[key])
    else shown.None? || Found(source, key).Some?
  }

  function Wanted(source: string, values: map<string, string>, remove: set<string>, key: string): Option<string> {
    if key in remove then None else if key in values then Some(values[key]) else Found(source, key)
  }

  lemma MeansByKey(source: string, values: map<string, string>, order: seq<string>, remove: set<string>)
    requires forall k :: k in order ==> k in values
    ensures EditMeans(source, values, order, remove) <==>
              forall key :: Found(EditedText(source, values, order, remove), key) == Wanted(source, values, remove, key)
  {
    var old_ := Collect(ParseDotenv(source).values);
    SameMaps(Collect(ParseDotenv(EditedText(source, values, order, remove)).values), Overridden(old_, values, remove));
    assert forall key :: Get(Overridden(old_, values, remove), key) == Wanted(source, values, remove, key);
  }

  lemma MeansForKey(source: string, values: map<string, string>, order: seq<string>, remove: set<string>, key: string)
    requires WalksAll(order, values) && ValidNames(values)
    ensures Found(EditedText(source, values, order, remove), key) == Wanted(source, values, remove, key)
       <==> KeyFits(source, values, remove, key)
  {
    var lines := Lines(source);
    FoundAfterEdit(source, values, order, remove, key);
    FoundInLines(source, key);
    if RemovedAbove(lines, remove) > 0 {
      UnveiledIfRecognised(lines[0]);
    } else {
      assert lines[0..] == lines;
    }
  }

  /** Hidden lines set `export` and nothing else. */
  lemma {:induction false} HiddenIsExport(lines: seq<string>, key: string)
    ensures LastHidden(lines, key).None? <==> NoneHidden(lines) || key != "export"
  {
    if lines != [] {
      HiddenLines(lines[0]);
      HiddenIsExport(lines[1..], key);
      assert lines == [lines[0]] + lines[1..];
    }
  }

  lemma HiddenBehindIsExport(lines: seq<string>, key: string)
    ensures HiddenBehind(lines, key).Some? ==> key == "export"
  {
    if FirstFor(lines, key) < |lines| { HiddenIsExport(lines[FirstFor(lines, key) + 1..], key); }
  }

  lemma FitsForKey(source: string, values: map<string, string>, remove: set<string>, key: string)
    requires EditFits(source, values, remove)
    ensures KeyFits(source, values, remove, key)
  {
    HiddenIsExport(Lines(source), key);
    HiddenBehindIsExport(Lines(source), key);
  }

  lemma FitsByKey(source: string, values: map<string, string>, remove: set<string>)
    ensures EditFits(source, values, remove) <==> forall key :: KeyFits(source, values, remove, key)
  {
    if EditFits(source, values, remove) {
      forall key ensures KeyFits(source, values, remove, key) { FitsForKey(source, values, remove, key); }
    }
    if forall key :: KeyFits(source, values, remove, key) { FitsFromKeys(source, values, remove, "export"); }
  }

  lemma FitsFromKeys(source: string, values: map<string, string>, remove: set<string>, name: string)
    requires name == "export" && forall key :: KeyFits(source, values, remove, key)
    ensures EditFits(source, values, remove)
  {
    var lines := Lines(source);
    var top := RemovedAbove(lines, remove);
    HiddenIsExport(lines, name);
    assert KeyFits(source, values, remove, name);
    if top < |lines| && Veiled(lines[top]) {
      var key := ReadLine(lines[top][1..]).key;
      assert Unveiled(lines[top..], key).Some?;
      assert KeyFits(source, values, remove, key);
    }
  }

  /** An edit means what it says exactly when it gets by the lines the editor overlooks. */
  lemma EditMeansExactly(source: string, values: map<string, string>, order: seq<string>, remove: set<string>)
    requires WalksAll(order, values) && ValidNames(values)
    ensures EditMeans(source, values, order, remove) <==> EditFits(source, values, remove)
  {
    MeansByKey(source, values, order, remove);
    FitsByKey(source, values, remove);
    forall key ensures Found(EditedText(source, values, order, remove), key) == Wanted(source, values, remove, key)
                  <==> KeyFits(source, values, remove, key)
    {
      MeansForKey(source, values, order, remove, key);
    }
  }

  /** If the editor sees every assignment, every edit means what it says. */
  lemma EditIsFaithful(source: string, values: map<string, string>, order: seq<string>, remove: set<string>)
    requires EditorSeesAll(source)
    requires WalksAll(order, values) && ValidNames(values)
    ensures EditMeans(source, values, order, remove)
  {
    NothingHiddenBehind(Lines(source), "export");
    EditMeansExactly(source, values, order, remove);
  }

  // --- and otherwise some edit does not ---

  /** A hidden line survives the removal of its variable. */
  lemma HiddenLineDefeatsRemoval(source: string, line: string)
    requires line in Lines(source) && Hidden(line)
    ensures !EditMeans(source, map[], [], {"export"})
  {
    EditMeansExactly(source, map[], [], {"export"});
  }

  function RecognisedKeys(lines: seq<string>): set<string> {
    set i | 0 <= i < |lines| && EditorAssignment(lines[i]).Some? :: EditorAssignment(lines[i]).value.key
  }

  /** A veiled line with only removable lines above it comes to light when they are removed,
      and then cannot be removed with them. */
  lemma VeiledLineDefeatsRemoval(source: string, i: nat)
    requires i < |Lines(source)| && Veiled(Lines(source)[i])
    requires forall j :: 0 <= j < i ==> EditorAssignment(Lines(source)[j]).Some?
    ensures !EditMeans(source, map[], [], RecognisedKeys(Lines(source)[..i]) + {ReadLine(Lines(source)[i][1..]).key})
  {
    var lines := Lines(source);
    var remove := RecognisedKeys(lines[..i]) + {ReadLine(lines[i][1..]).key};
    forall j | 0 <= j < i ensures IsRemoved(lines[j], remove) {
      assert lines[..i][j] == lines[j];
    }
    BomLineIsNoAssignment(lines[i]);
    assert RemovedAbove(lines, remove) == i;
    EditMeansExactly(source, map[], [], remove);
  }

  /** Editing and then reading means what was asked, for every edit, exactly when the editor
      sees every assignment the parser can see. */
  lemma EditingIsFaithfulExactly(source: string)
    ensures EditorSeesAll(source) <==>
              forall values, order, remove :: WalksAll(order, values) && ValidNames(values) ==>
                EditMeans(source, values, order, remove)
  {
    if EditorSeesAll(source) {
      forall values, order, remove | WalksAll(order, values) && ValidNames(values)
        ensures EditMeans(source, values, order, remove)
      {
        EditIsFaithful(source, values, order, remove);
      }
    } else {
      var remove := SomeEditIsUnfaithful(source);
      assert WalksAll([], map[]) && ValidNames(map[]);
    }
  }

  lemma SomeEditIsUnfaithful(source: string) returns (remove: set<string>)
    requires !EditorSeesAll(source)
    ensures !EditMeans(source, map[], [], remove)
  {
    var lines := Lines(source);
    var i :| 0 <= i < |lines| && (Hidden(lines[i])
      || (Veiled(lines[i]) && !exists j :: 0 <= j < i && EditorAssignment(lines[j]).None?));
    if Hidden(lines[i]) {
      HiddenLineDefeatsRemoval(source, lines[i]);
      remove := {"export"};
    } else {
      VeiledLineDefeatsRemoval(source, i);
      remove := RecognisedKeys(lines[..i]) + {ReadLine(lines[i][1..]).key};
    }
  }

  /** In particular a file with no byte order mark at the start of a line and no bare
      `export =` line is edited faithfully. */
  lemma OrdinaryFilesAreEditedFaithfully(source: string, values: map<string, string>, order: seq<string>, remove: set<string>)
    requires forall l :: l in Lines(source) ==>
               !StartsWithBom(l) && !(IndexOf(l, '=') < |l| && BareExport(l[..IndexOf(l, '=')]))
    requires WalksAll(order, values) && ValidNames(values)
    ensures EditMeans(source, values, order, remove)
  {
    forall i | 0 <= i < |Lines(source)| ensures !Hidden(Lines(source)[i]) && !Veiled(Lines(source)[i]) {
      HiddenLines(Lines(source)[i]);
    }
    EditIsFaithful(source, values, order, remove);
  }

  // --- editing twice is editing once ---

  lemma {:induction false} ReEditLines(lines: seq<string>, values: map<string, string>, remove: set<string>, written: set<string>)
    ensures var e := EditLines(lines, values, remove, written);
            EditLines(e.lines, values, remove, written) == e
  {
    if lines != [] {
      var line, rest := lines[0], lines[1..];
      var a := EditorAssignment(line);
      if a.None? || a.value.key !in values || a.value.key in remove || a.value.key in written {
        var e := EditLines(rest, values, remove, written);
        ReEditLines(rest, values, remove, written);
        assert ([line] + e.lines)[1..] == e.lines;
      } else {
        var k := a.value.key;
        var e := EditLines(rest, values, remove, written + {k});
        var line' := Rewritten(line, a.value, values[k]);
        ReEditLines(rest, values, remove, written + {k});
        RewrittenIsRecognised(line, values[k]);
        RewrittenTwice(line, values[k]);
        assert ([line'] + e.lines)[1..] == e.lines;
      }
    }
  }

  lemma RewrittenTwice(line: string, value: string)
    requires EditorAssignment(line).Some?
    ensures var a := EditorAssignment(line).value;
            var line' := Rewritten(line, a, value);
            a.equals < |line'| && Rewritten(line', a, value) == line'
  {
    var a := EditorAssignment(line).value;
    var line' := Rewritten(line, a, value);
    assert line'[..a.equals + 1] == line[..a.equals + 1];
  }

  lemma {:induction false} EditLinesConcat(a: seq<string>, b: seq<string>, values: map<string, string>, remove: set<string>, written: set<string>)
    ensures var ea := EditLines(a, values, remove, written);
            var eb := EditLines(b, values, remove, ea.written);
            EditLines(a + b, values, remove, written) == Edited(ea.lines + eb.lines, eb.written)
  {
    if a == [] {
      assert a + b == b;
    } else {
      var line := a[0];
      var k := EditorAssignment(line);
      assert (a + b)[1..] == a[1..] + b && (a + b)[0] == line;
      if k.None? || k.value.key !in values || k.value.key in remove || k.value.key in written {
        EditLinesConcat(a[1..], b, values, remove, written);
        KeepConcat(line, EditLines(a[1..], values, remove, written), b, values, remove);
      } else {
        EditLinesConcat(a[1..], b, values, remove, written + {k.value.key});
        var line' := Rewritten(line, k.value, values[k.value.key]);
        KeepConcat(line', EditLines(a[1..], values, remove, written + {k.value.key}), b, values, remove);
      }
    }
  }

  lemma KeepConcat(line: string, e: Edited, b: seq<string>, values: map<string, string>, remove: set<string>)
    ensures Keep(line, e).lines + EditLines(b, values, remove, e.written).lines
         == [line] + (e.lines + EditLines(b, values, remove, e.written).lines)
  {
    var more := EditLines(b, values, remove, e.written).lines;
    assert ([line] + e.lines) + more == [line] + (e.lines + more);
  }

  /** Editing the appended lines again changes none of them, and then every key is written. */
  lemma {:induction false} ReEditAppended(order: seq<string>, values: map<string, string>, remove: set<string>, written: set<string>)
    requires forall k :: k in order ==> k in values
    requires ValidNames(values)
    ensures var lines := Appended(order, values, remove, written);
            var e := EditLines(lines, values, remove, written);
            e.lines == lines && forall k :: k in order && k !in remove ==> k in e.written
  {
    if order != [] {
      var k := order[0];
      if k in remove || k in written {
        ReEditAppended(order[1..], values, remove, written);
        WrittenGrows(Appended(order, values, remove, written), values, remove, written);
      } else {
        var tail := Appended(order[1..], values, remove, written + {k});
        ReEditAppended(order[1..], values, remove, written + {k});
        WrittenGrows(tail, values, remove, written + {k});
        AppendedLineReads(k, values[k]);
        assert ([AppendedLine(k, values[k])] + tail)[1..] == tail;
      }
    }
  }

  lemma {:induction false} WrittenGrows(lines: seq<string>, values: map<string, string>, remove: set<string>, written: set<string>)
    ensures written <= EditLines(lines, values, remove, written).written
  {
    if lines != [] {
      WrittenGrows(lines[1..], values, remove, written);
      var a := EditorAssignment(lines[0]);
      if a.Some? { WrittenGrows(lines[1..], values, remove, written + {a.value.key}); }
    }
  }

  lemma {:induction false} NothingLeftToAppend(order: seq<string>, values: map<string, string>, remove: set<string>, written: set<string>)
    requires forall k :: k in order ==> k in values && (k in remove || k in written)
    ensures Appended(order, values, remove, written) == []
  {
    if order != [] { NothingLeftToAppend(order[1..], values, remove, written); }
  }

  /** Applying the same values and removals to the result changes nothing, whatever order the
      map is walked in the second time. */
  lemma EditingTwiceIsEditingOnce(d: Doc, values: map<string, string>, order: seq<string>, order': seq<string>, remove: set<string>)
    requires WalksAll(order, values) && WalksAll(order', values) && ValidNames(values)
    ensures var once := Applied(d, values, order, remove);
            Applied(once, values, order', remove) == once
  {
    var e := EditLines(d.lines, values, remove, {});
    var app := Appended(order, values, remove, e.written);
    ReEditLines(d.lines, values, remove, {});
    ReEditAppended(order, values, remove, e.written);
    EditLinesConcat(e.lines, app, values, remove, {});
    var e' := EditLines(app, values, remove, e.written);
    NothingLeftToAppend(order', values, remove, e'.written);
    assert e.lines + app + [] == e.lines + app;
  }

  // --- afterwards the editor finds each key where it should ---

  function LinesFor(lines: seq<string>, key: string): nat {
    if lines == [] then 0 else LinesFor(lines[1..], key) + if SetsKey(lines[0], key) then 1 else 0
  }

  lemma LinesForBehind(line: string, rest: seq<string>, key: string)
    ensures LinesFor([line] + rest, key) == LinesFor(rest, key) + if SetsKey(line, key) then 1 else 0
  {
    assert ([line] + rest)[1..] == rest;
  }

  lemma {:induction false} LinesForEdited(lines: seq<string>, values: map<string, string>, remove: set<string>, written: set<string>, key: string)
    requires key in values || key in remove
    ensures LinesFor(EditLines(lines, values, remove, written).lines, key) ==
              if key in remove || key in written || FirstFor(lines, key) == |lines| then 0 else 1
  {
    if lines != [] {
      var line, rest := lines[0], lines[1..];
      var a := EditorAssignment(line);
      LinesForEdited(rest, values, remove, written, key);
      LinesForBehind(line, EditLines(rest, values, remove, written).lines, key);
      if a.Some? && a.value.key in values && a.value.key !in remove && a.value.key !in written {
        var k := a.value.key;
        LinesForEdited(rest, values, remove, written + {k}, key);
        RewrittenIsRecognised(line, values[k]);
        LinesForBehind(Rewritten(line, a.value, values[k]), EditLines(rest, values, remove, written + {k}).lines, key);
      }
    }
  }

  lemma {:induction false} LinesForAppended(order: seq<string>, values: map<string, string>, remove: set<string>, written: set<string>, key: string)
    requires forall k :: k in order ==> k in values
    requires ValidNames(values)
    ensures LinesFor(Appended(order, values, remove, written), key) ==
              if key in order && key !in remove && key !in written then 1 else 0
  {
    if order != [] {
      var k := order[0];
      if k in remove || k in written {
        LinesForAppended(order[1..], values, remove, written, key);
      } else {
        var later := Appended(order[1..], values, remove, written + {k});
        LinesForAppended(order[1..], values, remove, written + {k}, key);
        AppendedLineReads(k, values[k]);
        LinesForBehind(AppendedLine(k, values[k]), later, key);
        assert SetsKey(AppendedLine(k, values[k]), key) <==> k == key;
      }
    }
  }

  lemma {:induction false} LinesForConcat(a: seq<string>, b: seq<string>, key: string)
    ensures LinesFor(a + b, key) == LinesFor(a, key) + LinesFor(b, key)
  {
    if a == [] {
      assert a + b == b;
    } else {
      assert (a + b)[1..] == a[1..] + b;
      LinesForConcat(a[1..], b, key);
    }
  }

  /** Each set key has exactly one line the editor recognises, each removed key none. */
  lemma OneLinePerKey(lines: seq<string>, values: map<string, string>, order: seq<string>, remove: set<string>, key: string)
    requires WalksAll(order, values) && ValidNames(values)
    ensures var new_ := AppliedLines(lines, values, order, remove);
            && (key in remove ==> LinesFor(new_, key) == 0)
            && (key in values && key !in remove ==> LinesFor(new_, key) == 1)
  {
    if key in values || key in remove {
      var e := EditLines(lines, values, remove, {});
      LinesForEdited(lines, values, remove, {}, key);
      WrittenWithin(lines, values, remove, {}, key);
      LinesForAppended(order, values, remove, e.written, key);
      LinesForConcat(e.lines, Appended(order, values, remove, e.written), key);
    }
  }

  // --- what becomes of each line ---

  function Filter(lines: seq<string>, f: string -> bool): seq<string> {
    if lines == [] then [] else (if f(lines[0]) then [lines[0]] else []) + Filter(lines[1..], f)
  }

  lemma {:induction false} FilterConcat(a: seq<string>, b: seq<string>, f: string -> bool)
    ensures Filter(a + b, f) == Filter(a, f) + Filter(b, f)
  {
    if a == [] {
      assert a + b == b;
    } else {
      assert (a + b)[1..] == a[1..] + b;
      FilterConcat(a[1..], b, f);
    }
  }

  predicate SetsAny(line: string, keys: set<string>) {
    var a := EditorAssignment(line);
    a.Some? && a.value.key in keys
  }

  /** The lines the editor does not recognise as setting one of these keys, in order. */
  function LinesBeside(lines: seq<string>, keys: set<string>): seq<string> {
    Filter(lines, line => !SetsAny(line, keys))
  }

  lemma BesideBehind(line: string, rest: seq<string>, keys: set<string>, a: Option<Assignment>)
    requires a == EditorAssignment(line)
    ensures LinesBeside([line] + rest, keys) == (if a.Some? && a.value.key in keys then [] else [line]) + LinesBeside(rest, keys)
  {
    assert ([line] + rest)[1..] == rest;
  }

  lemma {:induction false} EditKeepsOthers(lines: seq<string>, values: map<string, string>, remove: set<string>, written: set<string>)
    ensures LinesBeside(EditLines(lines, values, remove, written).lines, values.Keys + remove) == LinesBeside(lines, values.Keys + remove)
  {
    var keys := values.Keys + remove;
    if lines != [] {
      var line, rest := lines[0], lines[1..];
      var a := EditorAssignment(line);
      assert lines == [line] + rest;
      EditKeepsOthers(rest, values, remove, written);
      BesideBehind(line, rest, keys, a);
      BesideBehind(line, EditLines(rest, values, remove, written).lines, keys, a);
      if a.Some? && a.value.key in values && a.value.key !in remove && a.value.key !in written {
        var k := a.value.key;
        var line' := Rewritten(line, a.value, values[k]);
        EditKeepsOthers(rest, values, remove, written + {k});
        RewrittenIsRecognised(line, values[k]);
        BesideBehind(line', EditLines(rest, values, remove, written + {k}).lines, keys, EditorAssignment(line'));
      }
    }
  }

  lemma {:induction false} AppendedBeside(order: seq<string>, values: map<string, string>, remove: set<string>, written: set<string>)
    requires forall k :: k in order ==> k in values
    requires ValidNames(values)
    ensures LinesBeside(Appended(order, values, remove, written), values.Keys + remove) == []
  {
    if order != [] {
      var k := order[0];
      AppendedBeside(order[1..], values, remove, written);
      if k !in remove && k !in written {
        AppendedBeside(order[1..], values, remove, written + {k});
        AppendedLineReads(k, values[k]);
        BesideBehind(AppendedLine(k, values[k]), Appended(order[1..], values, remove, written + {k}), values.Keys + remove,
          EditorAssignment(AppendedLine(k, values[k])));
      }
    }
  }

  /** Every line that sets none of the keys of an edit, comments and blank lines among them, is
      there afterwards as it was, in the same order, and no other such line is. */
  lemma OtherLinesStay(lines: seq<string>, values: map<string, string>, order: seq<string>, remove: set<string>)
    requires WalksAll(order, values) && ValidNames(values)
    ensures LinesBeside(AppliedLines(lines, values, order, remove), values.Keys + remove) == LinesBeside(lines, values.Keys + remove)
  {
    var keys := values.Keys + remove;
    var e := EditLines(lines, values, remove, {});
    var app := Appended(order, values, remove, e.written);
    EditKeepsOthers(lines, values, remove, {});
    AppendedBeside(order, values, remove, e.written);
    FilterConcat(e.lines, app, line => !SetsAny(line, keys));
    assert LinesBeside(e.lines, keys) + [] == LinesBeside(e.lines, keys);
  }

  /** A line that sets a key of the edit makes way if the key is removed or a line above sets it;
      otherwise it is rewritten where it stands, from the `=` to its comment. */
  lemma LineBecomes(above: seq<string>, line: string, below: seq<string>, values: map<string, string>, remove: set<string>, a: Assignment)
    requires EditorAssignment(line) == Some(a) && (a.key in remove || a.key in values)
    ensures var e := EditLines(above, values, remove, {});
            exists written ::
              EditLines(above + ([line] + below), values, remove, {}).lines ==
                e.lines
                + ((if a.key in remove || (exists i :: 0 <= i < |above| && SetsKey(above[i], a.key)) then []
                    else [line[..a.equals + 1] + (Encode(values[a.key]) + a.suffix)])
                   + EditLines(below, values, remove, written).lines)
  {
    var e := EditLines(above, values, remove, {});
    var own := EditLines([line], values, remove, e.written);
    EditLinesConcat(above, [line] + below, values, remove, {});
    EditLinesConcat([line], below, values, remove, e.written);
    WrittenWithin(above, values, remove, {}, a.key);
    FirstForExactly(above, a.key);
    OwnEdit(line, values, remove, e.written, a);
    assert own.lines + EditLines(below, values, remove, own.written).lines
        == EditLines([line] + below, values, remove, e.written).lines;
  }

  /** What the editor makes of one line. */
  lemma EditedAlone(line: string, values: map<string, string>, remove: set<string>, written: set<string>)
    ensures EditLines([line], values, remove, written) ==
              match EditorAssignment(line)
              case None => Edited([line], written)
              case Some(a) =>
                if a.key in remove || (a.key in values && a.key in written) then Edited([], written)
                else if a.key !in values then Edited([line], written)
                else Edited([Rewritten(line, a, values[a.key])], written + {a.key})
  {
    assert [line][1..] == [];
  }

  lemma OwnEdit(line: string, values: map<string, string>, remove: set<string>, written: set<string>, a: Assignment)
    requires EditorAssignment(line) == Some(a) && (a.key in remove || a.key in values)
    ensures EditLines([line], values, remove, written).lines ==
              if a.key in remove || a.key in written then []
              else [line[..a.equals + 1] + (Encode(values[a.key]) + a.suffix)]
  {
    EditedAlone(line, values, remove, written);
    if a.key in values { RewrittenAs(line, a, values[a.key]); }
  }

  lemma RewrittenAs(line: string, a: Assignment, value: string)
    requires a.equals < |line|
    ensures Rewritten(line, a, value) == line[..a.equals + 1] + (Encode(value) + a.suffix)
  {
  }

  lemma {:induction false} FirstForExactly(lines: seq<string>, key: string)
    ensures FirstFor(lines, key) < |lines| <==> exists i :: 0 <= i < |lines| && SetsKey(lines[i], key)
  {
    if lines != [] {
      FirstForExactly(lines[1..], key);
      assert forall i :: 0 < i < |lines| ==> lines[i] == lines[1..][i - 1];
      if !SetsKey(lines[0], key) {
        if i :| 0 <= i < |lines[1..]| && SetsKey(lines[1..][i], key) { assert SetsKey(lines[i + 1], key); }
      }
    }
  }

  // --- the two shapes on which editor and parser differ ---

  /** Removing `export` leaves a bare `export =x` line in place. */
  lemma BareExportExample(source: string)
    requires source == "export =x"
    ensures !EditMeans(source, map[], [], {"export"})
  {
    var prefix, value := source[..7], source[8..];
    ExampleParts(source);
    ExportIsBare(prefix);
    OneCharacterReads(value);
    BareDefeatsRemoval(prefix, value);
  }

  lemma ExampleParts(source: string)
    requires source == "export =x"
    ensures source == source[..7] + "=" + source[8..] && source[..7] == EXPORT
    ensures source[8..] == ['x']
  {
  }

  lemma BareDefeatsRemoval(prefix: string, value: string)
    requires BareExport(prefix) && IsEnvName("export") && '=' !in prefix && '\n' !in prefix
    requires TrimStart(prefix) == prefix && prefix[0] != '#'
    requires TrimEnd(value) == value && TrimStart(value) == value && ReadValue(value).Ok? && '\n' !in value
    ensures !EditMeans(prefix + "=" + value, map[], [], {"export"})
  {
    BareIsHidden(prefix, value);
    HiddenOnlyLine(prefix + "=" + value);
  }

  lemma HiddenOnlyLine(line: string)
    requires '\n' !in line && Hidden(line)
    ensures !EditMeans(line, map[], [], {"export"})
  {
    OnlyLine(line);
    assert line != [];
    HiddenLineDefeatsRemoval(line, line);
  }

  lemma BareIsHidden(prefix: string, value: string)
    requires BareExport(prefix) && IsEnvName("export") && '=' !in prefix
    requires TrimStart(prefix) == prefix && prefix[0] != '#'
    requires TrimEnd(value) == value && TrimStart(value) == value && ReadValue(value).Ok?
    ensures Hidden(prefix + "=" + value)
  {
    PartsOf(prefix, value);
    KeysAgree(prefix);
    ReadAssignment(prefix, value);
  }

  lemma ExportIsBare(prefix: string)
    requires prefix == EXPORT
    ensures TrimStart(prefix) == prefix && BareExport(prefix) && '=' !in prefix && '\n' !in prefix && prefix[0] != '#'
    ensures IsEnvName("export")
  {
  }

  lemma OneCharacterReads(value: string)
    requires |value| == 1 && !IsSpace(value[0]) && value[0] != '\'' && value[0] != '"'
    ensures TrimEnd(value) == value && TrimStart(value) == value && ReadValue(value).Ok?
  {
  }

  /** Removing `A` from a file that starts with a byte order mark leaves `A=x` in place. */
  lemma BomExample()
    ensures !EditMeans([BOM] + ("A" + "=" + "x"), map[], [], {"A"})
  {
    BomDefeatsRemoval("A", "x");
  }

  lemma BomDefeatsRemoval(key: string, value: string)
    requires IsEnvName(key)
    requires |value| == 1 && !IsSpace(value[0]) && value[0] != '\'' && value[0] != '"'
    ensures !EditMeans([BOM] + (key + "=" + value), map[], [], {key})
  {
    var line := [BOM] + (key + "=" + value);
    NameIsVeiled(key, value, line);
    VeiledOnlyLine(line);
  }

  lemma VeiledOnlyLine(line: string)
    requires '\n' !in line && line != [] && Veiled(line)
    ensures !EditMeans(line, map[], [], {ReadLine(line[1..]).key})
  {
    OnlyLine(line);
    VeiledLineDefeatsRemoval(line, 0);
    assert RecognisedKeys(Lines(line)[..0]) + {ReadLine(line[1..]).key} == {ReadLine(line[1..]).key};
  }

  lemma NameIsVeiled(key: string, value: string, line: string)
    requires IsEnvName(key) && line == [BOM] + (key + "=" + value)
    requires |value| == 1 && !IsSpace(value[0]) && value[0] != '\'' && value[0] != '"'
    ensures '\n' !in line && line != [] && Veiled(line) && ReadLine(line[1..]).key == key
  {
    assert line[1..] == key + "=" + value;
    NameIsItsKey(key);
    OneCharacterReads(value);
    ReadAssignment(key, value);
    NoNewlineIn(key, value);
  }
}
