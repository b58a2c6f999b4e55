/** Editing the same `.env` file twice, from its text each time, as the configuration editor
    does: the second edit of the text is without effect exactly when the source has no stray
    carriage return at its very end that makes the edited text look like one with CRLF line
    endings (panoptikon-config/src/lib.rs). */
module DotenvTwice {
  import opened Prelude
  import opened Text
  import opened DotenvLine
  import opened Dotenv
  import opened DotenvGuarantees

  predicate EndsInCr(s: string) {
    s != [] && s[|s| - 1] == '\r'
  }

  /** A carriage return at the very end of a file without CRLF line endings. */
  predicate StrayCr(source: string) {
    EndsInCr(source) && !ContainsCrlf(source)
  }

  ghost predicate SomeEndsInCr(lines: seq<string>) {
    exists i :: 0 <= i < |lines| && EndsInCr(lines[i])
  }

  // --- line endings of a text ---

  ghost predicate AllCrlf(s: string) {
    forall i :: 0 <= i < |s| && s[i] == '\n' ==> i > 0 && s[i - 1] == '\r'
  }

  lemma CrlfPlaces(line: string, rest: string, i: int)
    requires '\n' !in line
    ensures CrlfAt(line + "\n" + rest, i) <==>
              (i == |line| - 1 && EndsInCr(line)) || CrlfAt(rest, i - |line| - 1)
  {
    var s := line + "\n" + rest;
    assert i + 1 < |line| && i >= 0 ==> s[i + 1] == line[i + 1] && line[i + 1] in line;
  }

  lemma SomeCrlf(line: string, rest: string)
    requires '\n' !in line
    ensures ContainsCrlf(line + "\n" + rest) <==> EndsInCr(line) || ContainsCrlf(rest)
  {
    var s := line + "\n" + rest;
    if ContainsCrlf(s) {
      var i :| CrlfAt(s, i);
      CrlfPlaces(line, rest, i);
      assert EndsInCr(line) || CrlfAt(rest, i - |line| - 1);
    }
    if EndsInCr(line) {
      CrlfPlaces(line, rest, |line| - 1);
      assert CrlfAt(s, |line| - 1);
    }
    if ContainsCrlf(rest) {
      var i :| CrlfAt(rest, i);
      CrlfPlaces(line, rest, i + |line| + 1);
      assert CrlfAt(s, i + |line| + 1);
    }
  }

  lemma EveryCrlf(line: string, rest: string)
    requires '\n' !in line && AllCrlf(line + "\n" + rest)
    ensures EndsInCr(line) && AllCrlf(rest)
  {
    var s := line + "\n" + rest;
    var n := |line| + 1;
    assert s[|line|] == '\n' && s[|line| - 1] == line[|line| - 1];
    assert forall i :: 0 <= i < |rest| ==> s[n + i] == rest[i];
    forall i | 0 <= i < |rest| && rest[i] == '\n' ensures i > 0 && rest[i - 1] == '\r' {
      assert s[n + i] == '\n' && s[n + i - 1] == '\r';
      assert i > 0 ==> s[n + (i - 1)] == rest[i - 1];
    }
  }

  lemma CrlfOf(line: string, rest: string)
    requires '\n' !in line && AllCrlf(rest)
    ensures AllCrlf(line + "\r\n" + rest) && ContainsCrlf(line + "\r\n" + rest)
  {
    var s := line + "\r\n" + rest;
    var n := |line| + 2;
    assert forall i :: 0 <= i < |line| ==> s[i] == line[i] && line[i] in line;
    assert forall i :: 0 <= i < |rest| ==> s[n + i] == rest[i];
    forall i | 0 <= i < |s| && s[i] == '\n' ensures i > 0 && s[i - 1] == '\r' {
      if i >= n { assert rest[i - n] == '\n' && s[n + (i - n - 1)] == rest[i - n - 1]; }
    }
    assert CrlfAt(s, |line|);
  }

  ghost predicate Whole(lines: seq<string>) {
    forall l :: l in lines ==> '\n' !in l
  }

  lemma {:induction false} LfText(lines: seq<string>)
    requires Whole(lines)
    ensures ContainsCrlf(Terminated(lines, "\n")) <==> SomeEndsInCr(lines)
    ensures AllCrlf(Terminated(lines, "\n")) ==> forall i :: 0 <= i < |lines| ==> EndsInCr(lines[i])
  {
    if lines != [] {
      var rest := Terminated(lines[1..], "\n");
      LfText(lines[1..]);
      SomeCrlf(lines[0], rest);
      if AllCrlf(Terminated(lines, "\n")) { EveryCrlf(lines[0], rest); }
      assert lines == [lines[0]] + lines[1..];
    }
  }

  lemma {:induction false} CrlfText(lines: seq<string>)
    requires Whole(lines)
    ensures AllCrlf(Terminated(lines, "\r\n")) && (lines != [] ==> ContainsCrlf(Terminated(lines, "\r\n")))
  {
    if lines != [] {
      CrlfText(lines[1..]);
      CrlfOf(lines[0], Terminated(lines[1..], "\r\n"));
    }
  }

  // --- where a carriage return at the end of a line can come from ---

  lemma CrInText(line: string, t: string)
    ensures EndsInCr(line + "\n" + t) <==> EndsInCr(t)
  {
    var text := line + "\n" + t;
    assert text[|text| - 1] == if t == [] then '\n' else t[|t| - 1];
  }

  /** Without CRLF line endings only the last line can end in a carriage return, and it does
      when the text does. */
  lemma {:induction false} CrInLines(source: string)
    requires !ContainsCrlf(source)
    ensures OnlyLastEndsInCr(Lines(source))
    ensures SomeEndsInCr(Lines(source)) <==> EndsInCr(source)
    decreases |source|
  {
    if '\n' in source {
      var line, t := SplitFirstLine(source);
      SomeCrlf(line, t);
      CrInLines(t);
      FirstLine(line, t);
      CrInText(line, t);
      CrBehind(line, Lines(t));
    } else {
      OnlyLine(source);
      if source != [] { assert Lines(source) == [source]; }
      assert EndsInCr(source) ==> EndsInCr(Lines(source)[0]);
    }
  }

  lemma SuffixCr(value: string)
    ensures EndsInCr(CommentSuffix(value)) <==> EndsInCr(value)
  {
    var head := value[..ScanComment(value, None, false, false)];
    var solid := TrimEnd(head);
    assert solid <= value;
    if |solid| == |value| { assert solid == value; }
  }

  lemma RewrittenCr(line: string, value: string)
    requires EditorAssignment(line).Some?
    ensures EndsInCr(Rewritten(line, EditorAssignment(line).value, value)) <==> EndsInCr(line)
  {
    var a := EditorAssignment(line).value;
    var head, rest := line[..a.equals] + "=", line[a.equals + 1..];
    SplitAtEquals(line);
    SuffixCr(rest);
    CrAtEnd(head, rest);
    assert line[..a.equals + 1] == head;
    CrAtEnd(head + Encode(value), a.suffix);
    CrAtEnd(head, Encode(value));
  }

  lemma CrAtEnd(head: string, tail: string)
    ensures EndsInCr(head + tail) <==> if tail == [] then EndsInCr(head) else EndsInCr(tail)
  {
    if tail == [] { assert head + tail == head; }
  }

  lemma {:induction false} AppendedHasNoCr(order: seq<string>, values: map<string, string>, remove: set<string>, written: set<string>)
    requires forall k :: k in order ==> k in values
    ensures forall l :: l in Appended(order, values, remove, written) ==> !EndsInCr(l)
  {
    if order != [] {
      AppendedHasNoCr(order[1..], values, remove, written);
      AppendedHasNoCr(order[1..], values, remove, written + {order[0]});
      CrAtEnd(order[0] + "=", Encode(values[order[0]]));
    }
  }

  /** The last line stays in the file: its key is not removed, and no line above sets it anew. */
  predicate LastStays(lines: seq<string>, values: map<string, string>, remove: set<string>, written: set<string>) {
    lines != [] &&
    match EditorAssignment(lines[|lines| - 1])
    case None => true
    case Some(a) => a.key !in remove && (a.key in values ==> a.key !in written && FirstFor(lines, a.key) == |lines| - 1)
  }

  ghost predicate OnlyLastEndsInCr(lines: seq<string>) {
    forall i :: 0 <= i < |lines| - 1 ==> !EndsInCr(lines[i])
  }

  lemma CrBehind(line: string, rest: seq<string>)
    ensures SomeEndsInCr([line] + rest) <==> EndsInCr(line) || SomeEndsInCr(rest)
    ensures OnlyLastEndsInCr(rest) && (EndsInCr(line) ==> rest == []) ==> OnlyLastEndsInCr([line] + rest)
  {
    var all := [line] + rest;
    if EndsInCr(line) { assert EndsInCr(all[0]); }
    if SomeEndsInCr(rest) {
      var i :| 0 <= i < |rest| && EndsInCr(rest[i]);
      assert EndsInCr(all[i + 1]);
    }
  }

  /** Who decides about the last line once the first has been dealt with. */
  lemma LastStaysBehind(lines: seq<string>, values: map<string, string>, remove: set<string>, written: set<string>)
    requires |lines| > 1
    ensures var a := EditorAssignment(lines[0]);
            LastStays(lines, values, remove, written) <==>
              if a.Some? && a.value.key in values && a.value.key !in remove && a.value.key !in written
                then LastStays(lines[1..], values, remove, written + {a.value.key})
                else LastStays(lines[1..], values, remove, written)
  {
    assert lines[1..][|lines| - 2] == lines[|lines| - 1];
  }

  lemma {:induction false} CrAfterEdit(lines: seq<string>, values: map<string, string>, remove: set<string>, written: set<string>)
    requires OnlyLastEndsInCr(lines)
    ensures var e := EditLines(lines, values, remove, written);
            && OnlyLastEndsInCr(e.lines)
            && (SomeEndsInCr(e.lines) <==> LastStays(lines, values, remove, written) && EndsInCr(lines[|lines| - 1]))
  {
    if |lines| == 1 {
      CrOfOnlyLine(lines, values, remove, written);
    } else if lines != [] {
      var line, rest := lines[0], lines[1..];
      assert !EndsInCr(line) && OnlyLastEndsInCr(rest) && rest[|rest| - 1] == lines[|lines| - 1];
      LastStaysBehind(lines, values, remove, written);
      CrAfterEdit(rest, values, remove, written);
      CrBehind(line, EditLines(rest, values, remove, written).lines);
      var a := EditorAssignment(line);
      if a.Some? && a.value.key in values && a.value.key !in remove && a.value.key !in written {
        var k := a.value.key;
        var e := EditLines(rest, values, remove, written + {k});
        CrAfterEdit(rest, values, remove, written + {k});
        RewrittenCr(line, values[k]);
        CrBehind(Rewritten(line, a.value, values[k]), e.lines);
        assert EditLines(lines, values, remove, written).lines == [Rewritten(line, a.value, values[k])] + e.lines;
      }
    }
  }

  lemma CrOfOnlyLine(lines: seq<string>, values: map<string, string>, remove: set<string>, written: set<string>)
    requires |lines| == 1
    ensures var e := EditLines(lines, values, remove, written);
            && |e.lines| <= 1
            && (SomeEndsInCr(e.lines) <==> LastStays(lines, values, remove, written) && EndsInCr(lines[0]))
  {
    var line := lines[0];
    assert lines[1..] == [];
    match EditorAssignment(line)
    case None =>
      assert EditLines(lines, values, remove, written) == Edited([line], written);
      CrBehind(line, []);
    case Some(a) =>
      assert SetsKey(line, a.key) && FirstFor(lines, a.key) == 0;
      if a.key in remove || (a.key in values && a.key in written) {
        assert EditLines(lines, values, remove, written).lines == [];
      } else if a.key !in values {
        assert EditLines(lines, values, remove, written) == Edited([line], written);
        CrBehind(line, []);
      } else {
        var line' := Rewritten(line, a, values[a.key]);
        assert EditLines(lines, values, remove, written).lines == [line'];
        RewrittenCr(line, values[a.key]);
        CrBehind(line', []);
      }
  }

  /** An edited file has a line ending in a carriage return exactly when the source's last line
      does and stays. */
  lemma CrInEdited(lines: seq<string>, values: map<string, string>, order: seq<string>, remove: set<string>)
    requires OnlyLastEndsInCr(lines) && WalksAll(order, values)
    ensures var new_ := AppliedLines(lines, values, order, remove);
            && (SomeEndsInCr(new_) <==> LastStays(lines, values, remove, {}) && SomeEndsInCr(lines))
            && (|new_| > 1 ==> exists i :: 0 <= i < |new_| && !EndsInCr(new_[i]))
  {
    var e := EditLines(lines, values, remove, {});
    var app := Appended(order, values, remove, e.written);
    CrAfterEdit(lines, values, remove, {});
    AppendedHasNoCr(order, values, remove, e.written);
    CrInFront(e.lines, app);
    if SomeEndsInCr(lines) {
      var i :| 0 <= i < |lines| && EndsInCr(lines[i]);
      assert i == |lines| - 1;
    }
  }

  lemma CrInFront(a: seq<string>, b: seq<string>)
    requires OnlyLastEndsInCr(a) && forall l :: l in b ==> !EndsInCr(l)
    ensures SomeEndsInCr(a + b) <==> SomeEndsInCr(a)
    ensures |a + b| > 1 ==> exists i :: 0 <= i < |a + b| && !EndsInCr((a + b)[i])
  {
    var all := a + b;
    assert forall i :: 0 <= i < |a| ==> all[i] == a[i];
    assert forall i :: |a| <= i < |all| ==> all[i] in b;
    if |all| > 1 { assert !EndsInCr(all[if |a| == 1 then 1 else 0]); }
    if SomeEndsInCr(a) {
      var i :| 0 <= i < |a| && EndsInCr(a[i]);
      assert EndsInCr(all[i]);
    }
  }

  // --- editing the edited text ---

  lemma {:induction false} NothingToStrip(lines: seq<string>, crlf: bool)
    requires crlf || !SomeEndsInCr(lines)
    ensures StripAll(lines, crlf) == lines
  {
    if lines != [] {
      assert lines == [lines[0]] + lines[1..];
      CrBehind(lines[0], lines[1..]);
      NothingToStrip(lines[1..], crlf);
    }
  }

  lemma CrKey(line: string)
    requires EndsInCr(line)
    ensures var a, a' := EditorAssignment(line), EditorAssignment(StripCr(line));
            && (a.None? <==> a'.None?)
            && (a.Some? ==> a.value.key == a'.value.key && a.value.equals == a'.value.equals)
  {
    var equals := IndexOf(line, '=');
    var line' := StripCr(line);
    assert forall j :: 0 <= j < |line'| ==> line'[j] == line[j];
    if equals < |line| {
      assert equals < |line'|;
      IndexOfUnique(line', '=', equals);
      assert line'[..equals] == line[..equals];
    } else {
      IndexOfUnique(line', '=', |line'|);
    }
  }

  lemma SuffixWithoutCr(suffix: string)
    requires IsSuffix(suffix) && EndsInCr(suffix)
    ensures IsSuffix(StripCr(suffix))
  {
    var w := TrimStartSplit(suffix);
    var t := TrimStart(suffix);
    if t == [] {
      TrimEmpty(suffix);
      TrimEmpty(StripCr(suffix));
    } else {
      CrAtEnd(w, t);
      assert StripCr(suffix) == w + StripCr(t);
      TrimStartOf(w, StripCr(t));
    }
  }

  lemma CrRewritten(line: string, value: string)
    requires EditorAssignment(line).Some? && EndsInCr(line)
    requires Rewritten(line, EditorAssignment(line).value, value) == line
    ensures var line' := StripCr(line);
            && EditorAssignment(line').Some?
            && EditorAssignment(line').value.equals < |line'|
            && Rewritten(line', EditorAssignment(line').value, value) == line'
  {
    var a := EditorAssignment(line).value;
    var line', suffix' := StripCr(line), StripCr(a.suffix);
    CrKey(line);
    EditorSuffix(line);
    WithoutCr(line[..a.equals + 1], value, a.suffix);
    SuffixFound(line', a.equals, suffix');
    SameParts(line', EditorAssignment(line').value, value, line[..a.equals + 1], suffix');
  }

  lemma EditorSuffix(line: string)
    requires EditorAssignment(line).Some?
    ensures EditorAssignment(line).value.equals < |line| && IsSuffix(EditorAssignment(line).value.suffix)
  {
    SuffixShape(line[IndexOf(line, '=') + 1..]);
  }

  lemma SameParts(line: string, a: Assignment, value: string, head: string, suffix: string)
    requires a.equals < |line| && a.equals + 1 == |head| && a.suffix == suffix
    requires line == head + Encode(value) + suffix && line[..|head|] == head
    ensures Rewritten(line, a, value) == line
  {
  }

  lemma SuffixFound(line: string, equals: nat, suffix: string)
    requires EditorAssignment(line).Some? && EditorAssignment(line).value.equals == equals < |line|
    requires CommentSuffix(line[equals + 1..]) == suffix
    ensures EditorAssignment(line).value.suffix == suffix
  {
  }

  lemma WithoutCr(head: string, value: string, suffix: string)
    requires EndsInCr(head + Encode(value) + suffix) && IsSuffix(suffix)
    ensures var line' := StripCr(head + Encode(value) + suffix);
            && line' == head + Encode(value) + StripCr(suffix)
            && line'[..|head|] == head && CommentSuffix(line'[|head|..]) == StripCr(suffix)
  {
    var line' := StripCr(head + Encode(value) + suffix);
    CrAtEnd(head, Encode(value));
    CrAtEnd(head + Encode(value), suffix);
    SuffixWithoutCr(suffix);
    assert line' == head + Encode(value) + StripCr(suffix);
    assert line'[|head|..] == Encode(value) + StripCr(suffix);
    SuffixRefound(value, StripCr(suffix));
  }

  lemma OneOf(a: seq<string>, b: seq<string>, line: string)
    requires a + b == [line] && line !in b
    ensures a == [line] && b == []
  {
    assert line in a + b;
  }

  /** A line on its own that the edit keeps is kept without its carriage return too. */
  lemma OnlyLineAgain(line: string, values: map<string, string>, order: seq<string>, remove: set<string>)
    requires WalksAll(order, values) && EndsInCr(line)
    requires AppliedLines([line], values, order, remove) == [line]
    ensures AppliedLines([StripCr(line)], values, order, remove) == [StripCr(line)]
  {
    var e := EditLines([line], values, remove, {});
    var app := Appended(order, values, remove, e.written);
    AppendedHasNoCr(order, values, remove, e.written);
    EditedAlone(line, values, remove, {});
    EditedAlone(StripCr(line), values, remove, {});
    CrKey(line);
    assert e.lines + app == [line];
    OneOf(e.lines, app, line);
    var a := EditorAssignment(line);
    if a.Some? && a.value.key in values { CrRewritten(line, values[a.value.key]); }
    assert EditLines([StripCr(line)], values, remove, {}) == Edited([StripCr(line)], e.written);
  }

  ghost predicate TwiceIsOnce(source: string, values: map<string, string>, order: seq<string>, order': seq<string>, remove: set<string>)
    requires WalksAll(order, values) && WalksAll(order', values)
  {
    var once := EditedText(source, values, order, remove);
    EditedText(once, values, order', remove) == once
  }

  lemma SecondText(source: string, values: map<string, string>, order: seq<string>, order': seq<string>, remove: set<string>)
    requires WalksAll(order, values) && WalksAll(order', values) && ValidNames(values)
    ensures var once := EditedText(source, values, order, remove);
            var new_ := AppliedLines(Lines(source), values, order, remove);
            && Whole(new_) && AppliedLines(new_, values, order', remove) == new_
            && once == Terminated(new_, Newline(ContainsCrlf(source)))
            && EditedText(once, values, order', remove) ==
                 Terminated(AppliedLines(StripAll(new_, ContainsCrlf(source)), values, order', remove), Newline(ContainsCrlf(once)))
  {
    LinesHaveNoNewline(source);
    AppliedLinesWhole(Lines(source), values, order, remove);
    LinesOfEdited(source, values, order, remove);
    LinesOfEdited(EditedText(source, values, order, remove), values, order', remove);
    EditingTwiceIsEditingOnce(Doc(Lines(source), false, true), values, order, order', remove);
  }

  /** The same edit of the edited text changes nothing, unless a stray carriage return stays at
      the end of the last line and other lines stand beside it. */
  lemma EditingTextTwice(source: string, values: map<string, string>, order: seq<string>, order': seq<string>, remove: set<string>)
    requires WalksAll(order, values) && WalksAll(order', values) && ValidNames(values)
    ensures TwiceIsOnce(source, values, order, order', remove) <==>
              !(StrayCr(source) && LastStays(Lines(source), values, remove, {})
                && |AppliedLines(Lines(source), values, order, remove)| > 1)
  {
    var crlf := ContainsCrlf(source);
    var new_ := AppliedLines(Lines(source), values, order, remove);
    SecondText(source, values, order, order', remove);
    if crlf {
      NothingToStrip(new_, crlf);
      CrlfText(new_);
    } else {
      CrInLines(source);
      CrInEdited(Lines(source), values, order, remove);
      LfText(new_);
      if !SomeEndsInCr(new_) {
        NothingToStrip(new_, crlf);
      } else if |new_| == 1 {
        assert new_ == [new_[0]];
        StraySame(new_[0]);
        OnlyLineAgain(new_[0], values, order', remove);
      } else {
        assert Terminated(AppliedLines(StripAll(new_, crlf), values, order', remove), "\r\n") != Terminated(new_, "\n") by {
          LinesHaveNoNewline(EditedText(source, values, order, remove));
          LinesOfTerminated(new_, crlf);
          AppliedLinesWhole(StripAll(new_, crlf), values, order', remove);
          CrlfText(AppliedLines(StripAll(new_, crlf), values, order', remove));
        }
      }
    }
  }

  lemma StraySame(line: string)
    requires EndsInCr(line)
    ensures Terminated([StripCr(line)], "\r\n") == Terminated([line], "\n")
    ensures StripAll([line], false) == [StripCr(line)]
  {
    assert StripCr(line) + "\r\n" == line + "\n";
  }

  // --- over all edits ---

  lemma {:induction false} LinesAreShort(source: string)
    ensures forall l :: l in Lines(source) ==> |l| <= |source|
    decreases |source|
  {
    var i := IndexOf(source, '\n');
    if i < |source| { LinesAreShort(source[i + 1..]); }
  }

  lemma {:induction false} TrimShortens(s: string)
    ensures |TrimStart(s)| <= |s|
  {
    if s != [] { TrimShortens(s[1..]); }
  }

  lemma KeyIsShort(line: string)
    requires EditorAssignment(line).Some?
    ensures |EditorAssignment(line).value.key| <= |line|
  {
    var prefix := line[..EditorAssignment(line).value.equals];
    TrimShortens(prefix);
    TrimShortens(StripExport(TrimStart(prefix)));
  }

  /** A name longer than the file is new to it. */
  function LongName(n: nat): (name: string)
    ensures |name| == n + 1 && IsEnvName(name)
  {
    if n == 0 then "A" else "A" + LongName(n - 1)
  }

  lemma KeptIfNotSet(lines: seq<string>, key: string, value: string)
    requires lines != [] && !SetsKey(lines[0], key)
    ensures EditLines(lines, map[key := value], {}, {}) == Keep(lines[0], EditLines(lines[1..], map[key := value], {}, {}))
  {
  }

  lemma {:induction false} NewKeyKeepsLines(lines: seq<string>, key: string, value: string)
    requires forall i :: 0 <= i < |lines| ==> !SetsKey(lines[i], key)
    ensures EditLines(lines, map[key := value], {}, {}) == Edited(lines, {})
  {
    if lines != [] {
      NewKeyKeepsLines(lines[1..], key, value);
      KeptIfNotSet(lines, key, value);
      assert lines == [lines[0]] + lines[1..];
    }
  }

  /** In such a file, setting a new variable takes a second edit to settle. */
  lemma StrayCrTurnsTheFile(source: string, key: string, value: string)
    requires StrayCr(source) && IsEnvName(key) && |key| > |source|
    ensures !TwiceIsOnce(source, map[key := value], [key], [key], {})
  {
    var lines := Lines(source);
    CrInLines(source);
    LinesAreShort(source);
    forall i | 0 <= i < |lines| ensures !SetsKey(lines[i], key) {
      assert lines[i] in lines;
      if EditorAssignment(lines[i]).Some? { KeyIsShort(lines[i]); }
    }
    NewKeyKeepsLines(lines, key, value);
    EditingTextTwice(source, map[key := value], [key], [key], {});
  }

  /** Setting any variable in a file that is one comment with a stray carriage return. */
  lemma StrayCrExample(source: string, key: string, value: string)
    requires source == "#\r" && IsEnvName(key)
    ensures !TwiceIsOnce(source, map[key := value], [key], [key], {})
  {
    assert EndsInCr(source);
    OnlyLine(source);
    CrInLines(source);
    IndexOfUnique(source, '=', |source|);
    NewKeyKeepsLines(Lines(source), key, value);
    EditingTextTwice(source, map[key := value], [key], [key], {});
  }

  /** Every edit of a file is finished after the first time exactly when the file does not end
      in a stray carriage return. */
  lemma EditingTextTwiceExactly(source: string)
    ensures !StrayCr(source) <==>
              forall values, order, order', remove ::
                WalksAll(order, values) && WalksAll(order', values) && ValidNames(values) ==>
                  TwiceIsOnce(source, values, order, order', remove)
  {
    if !StrayCr(source) {
      forall values, order, order', remove | WalksAll(order, values) && WalksAll(order', values) && ValidNames(values)
        ensures TwiceIsOnce(source, values, order, order', remove)
      {
        EditingTextTwice(source, values, order, order', remove);
      }
    } else {
      var values, order := SomeEditTakesTwo(source);
    }
  }

  lemma SomeEditTakesTwo(source: string) returns (values: map<string, string>, order: seq<string>)
    requires StrayCr(source)
    ensures WalksAll(order, values) && ValidNames(values) && !TwiceIsOnce(source, values, order, order, {})
  {
    var key := LongName(|source|);
    values, order := map[key := ""], [key];
    StrayCrTurnsTheFile(source, key, "");
  }
}
