/** The serialiser of scripts/sync-nix-ui-pin.py: one growing buffer, written in place. */
module NarWriter {
  import opened Prelude
  import opened NarFormat

  function Append(ws: Words, more: Words): Words {
    match ws case End => more case Word(w, rest) => Word(w, Append(rest, more))
  }

  lemma {:induction false} AppendEnd(ws: Words)
    ensures Append(ws, End) == ws
  {
    if ws.Word? { AppendEnd(ws.rest); }
  }

  lemma {:induction false} AppendWord(ws: Words, w: Short, more: Words)
    ensures Append(Append(ws, Word(w, End)), more) == Append(ws, Word(w, more))
  {
    if ws.Word? { AppendWord(ws.rest, w, more); }
  }

  lemma WordAppended(ws: Words, w: Short)
    ensures forall more :: Append(Append(ws, Word(w, End)), more) == Append(ws, Word(w, more))
  {
    forall more ensures Append(Append(ws, Word(w, End)), more) == Append(ws, Word(w, more)) {
      AppendWord(ws, w, more);
    }
  }

  lemma StrInSteps(out: bytes, data: bytes)
    ensures ((out + LittleEndian(|data|, 8)) + data) + Zeros(Padding(|data|)) == out + Str(data, [])
  {
    FourParts(out, LittleEndian(|data|, 8), data, Zeros(Padding(|data|)));
  }

  lemma FourParts(a: bytes, b: bytes, c: bytes, d: bytes)
    ensures ((a + b) + c) + d == a + (((b + c) + d) + [])
  {
  }

  lemma {:induction false} FlatAppend(ws: Words, w: Short)
    ensures Flat(Append(ws, Word(w, End))) == Flat(ws) + Str(w, [])
  {
    match ws
    case End => assert [] + Str(w, []) == Str(w, []);
    case Word(v, rest) =>
      FlatAppend(rest, w);
      StrThen(v, Flat(rest), Str(w, []));
  }

  lemma StrThen(b: bytes, rest: bytes, more: bytes)
    ensures Str(b, rest + more) == Str(b, rest) + more
  {
  }

  lemma {:induction false} EntriesSnoc(names: seq<bytes>, i: nat, d: Node, more: Words)
    requires d.Directory? && Serializable(d) && forall k :: k in names ==> k in d.entries
    requires i < |names|
    ensures EntriesThen(names[..i + 1], d, more) == EntriesThen(names[..i], d, EntryThen(names[i], d, more))
    decreases i
  {
    if i > 0 {
      EntriesSnoc(names[1..], i - 1, d, more);
      assert names[..i + 1][1..] == names[1..][..i] && names[..i][1..] == names[1..][..i - 1];
    } else {
      assert names[..1][1..] == [] && names[..0] == [];
    }
  }

  lemma AllEntriesFit(names: seq<bytes>, d: Node)
    requires d.Directory? && forall k :: k in names <==> k in d.entries
    ensures (forall j :: 0 <= j < |names| ==> |names[j]| < TWO64 && Serializable(d.entries[names[j]])) <==> Serializable(d)
  {
  }

  /** One entry more. */
  lemma EntriesNext(start: Words, before: Words, words: Words, names: seq<bytes>, i: nat, d: Node)
    requires d.Directory? && Serializable(d) && (forall k :: k in names ==> k in d.entries) && i < |names|
    requires forall more :: Append(before, more) == Append(start, EntriesThen(names[..i], d, more))
    requires forall more :: Append(words, more) == Append(before, EntryThen(names[i], d, more))
    ensures forall more :: Append(words, more) == Append(start, EntriesThen(names[..i + 1], d, more))
  {
    forall more ensures Append(words, more) == Append(start, EntriesThen(names[..i + 1], d, more)) {
      EntriesSnoc(names, i, d, more);
    }
  }

  /** The names of a directory, in whatever order the file system lists them. */
  method ListDir(es: map<bytes, Node>) returns (names: seq<bytes>)
    ensures forall n :: n in names <==> n in es
    ensures forall i, j :: 0 <= i < j < |names| ==> names[i] != names[j]
  {
    names := [];
    var todo := es.Keys;
    while todo != {}
      invariant todo <= es.Keys && forall n :: n in names <==> n in es.Keys - todo
      invariant forall i, j :: 0 <= i < j < |names| ==> names[i] != names[j]
      decreases todo
    {
      var n :| n in todo;
      DistinctSnoc(names, n);
      names, todo := names + [n], todo - {n};
    }
  }

  lemma DistinctSnoc(names: seq<bytes>, n: bytes)
    requires n !in names && forall i, j :: 0 <= i < j < |names| ==> names[i] != names[j]
    ensures forall i, j :: 0 <= i < j < |names + [n]| ==> (names + [n])[i] != (names + [n])[j]
  {
    var more := names + [n];
    forall i, j | 0 <= i < j < |more| ensures more[i] != more[j] {
      assert names[i] in names;
      if j < |names| { assert more[j] == names[j]; }
    }
  }

  /** Sorting a listing by name: the result does not depend on the order of the listing. */
  method SortByName(names: seq<bytes>) returns (sorted: seq<bytes>)
    requires forall i, j :: 0 <= i < j < |names| ==> names[i] != names[j]
    ensures sorted == SortedNames(set n | n in names)
  {
    sorted := [];
    for i := 0 to |names|
      invariant Sorted(sorted) && forall n :: n in sorted <==> n in names[..i]
    {
      InsertSorted(names[i], sorted);
      sorted := Insert(names[i], sorted);
    }
    assert names[..|names|] == names;
    SortedIsUnique(sorted, SortedNames(set n | n in names));
  }

  /** The buffer, and the words it holds so far. A method says what it wrote by how the words
      go on in front of any further words `more`. */
  class NarWriter {
    var out: bytes
    ghost var words: Words

    ghost predicate Valid()
      reads this
    {
      out == Flat(words)
    }

    constructor ()
      ensures Valid() && words == End
    {
      out := [];
      words := End;
    }

    /** `_nar_write_str`: a length that needs more than 64 bits is an error. */
    method WriteStr(data: bytes) returns (ok: bool)
      requires Valid()
      modifies this
      ensures Valid()
      ensures ok <==> |data| < TWO64
      ensures ok ==> forall more :: Append(words, more) == Append(old(words), Word(data, more))
    {
      if |data| >= TWO64 { return false; }
      StrInSteps(out, data);
      out := out + LittleEndian(|data|, 8);
      out := out + data;
      out := out + Zeros(Padding(|data|));
      FlatAppend(words, data);
      WordAppended(words, data);
      words := Append(words, Word(data, End));
      return true;
    }

    method WriteWord(word: Short)
      requires Valid()
      modifies this
      ensures Valid()
      ensures forall more :: Append(words, more) == Append(old(words), Word(word, more))
    {
      var ok := WriteStr(word);
    }

    method WriteHeader(kind: Short)
      requires Valid()
      modifies this
      ensures Valid()
      ensures forall more :: Append(words, more) == Append(old(words), Word(OPEN, Word(TYPE, Word(kind, more))))
    {
      WriteWord(OPEN);
      WriteWord(TYPE);
      WriteWord(kind);
    }

    /** `dump`. */
    method Dump(n: Node) returns (ok: bool)
      requires Valid()
      modifies this
      ensures Valid()
      ensures ok <==> Serializable(n)
      ensures ok ==> forall more :: Append(words, more) == Append(old(words), NodeThen(n, more))
      decreases n, 3
    {
      match n
      case Regular(executable, contents) =>
        ok := DumpRegular(executable, contents);
      case Symlink(target) =>
        WriteHeader(SYMLINK);
        WriteWord(TARGET);
        ok := WriteStr(target);
        if !ok { return; }
        WriteWord(CLOSE);
      case Directory(entries) =>
        ok := DumpDirectory(n);
      case Unsupported =>
        WriteWord(OPEN);
        ok := false;
    }

    method DumpRegular(executable: bool, contents: bytes) returns (ok: bool)
      requires Valid()
      modifies this
      ensures Valid()
      ensures ok <==> |contents| < TWO64
      ensures ok ==> forall more :: Append(words, more) == Append(old(words), NodeThen(Regular(executable, contents), more))
    {
      WriteHeader(REGULAR);
      if executable {
        WriteWord(EXECUTABLE);
        WriteWord([]);
      }
      WriteWord(CONTENTS);
      ok := WriteStr(contents);
      if !ok { return; }
      WriteWord(CLOSE);
    }

    method DumpDirectory(d: Node) returns (ok: bool)
      requires Valid() && d.Directory?
      modifies this
      ensures Valid()
      ensures ok <==> Serializable(d)
      ensures ok ==> forall more :: Append(words, more) == Append(old(words), NodeThen(d, more))
      decreases d, 2
    {
      WriteHeader(DIRECTORY);
      var listing := ListDir(d.entries);
      var names := SortByName(listing);
      assert (set k | k in listing) == d.entries.Keys;
      ghost var start := words;
      ok := DumpEntries(names, d);
      if !ok { return; }
      WriteWord(CLOSE);
    }

    method DumpEntries(names: seq<bytes>, d: Node) returns (ok: bool)
      requires Valid()
      requires d.Directory? && forall k :: k in names <==> k in d.entries
      modifies this
      ensures Valid()
      ensures ok <==> Serializable(d)
      ensures ok ==> forall more :: Append(words, more) == Append(old(words), EntriesThen(names, d, more))
      decreases d, 1
    {
      for i := 0 to |names|
        invariant Valid()
        invariant forall j :: 0 <= j < i ==> |names[j]| < TWO64 && Serializable(d.entries[names[j]])
        invariant Serializable(d) ==> forall more ::
                    Append(words, more) == Append(old(words), EntriesThen(names[..i], d, more))
      {
        ghost var before := words;
        ok := DumpEntry(names[i], d);
        if !ok { return; }
        if Serializable(d) { EntriesNext(old(words), before, words, names, i, d); }
      }
      assert names[..|names|] == names;
      AllEntriesFit(names, d);
      ok := true;
    }

    method DumpEntry(name: bytes, d: Node) returns (ok: bool)
      requires Valid() && d.Directory? && name in d.entries
      modifies this
      ensures Valid()
      ensures ok <==> |name| < TWO64 && Serializable(d.entries[name])
      ensures ok && Serializable(d) ==>
                forall more :: Append(words, more) == Append(old(words), EntryThen(name, d, more))
      decreases d, 0
    {
      WriteWord(ENTRY);
      WriteWord(OPEN);
      WriteWord(NAME);
      ok := WriteStr(name);
      if !ok { return; }
      WriteWord(NODE);
      ok := Dump(d.entries[name]);
      if !ok { return; }
      WriteWord(CLOSE);
    }
  }

  /** `nar_serialize`: every supported tree is written as its archive, whatever the listing
      order, and nothing else is accepted. */
  method NarSerialize(n: Node) returns (r: Option<bytes>)
    ensures r == if Serializable(n) then Some(Archive(n)) else None
  {
    var w := new NarWriter();
    w.WriteWord(MAGIC);
    var ok := w.Dump(n);
    if !ok { return None; }
    AppendEnd(w.words);
    return Some(w.out);
  }
}
