/** The Nix Archive format: what a file tree serialises to, and the decoder that defines it. */
module NarFormat {
  // An archive is a list of words. A word is its length as eight little-endian bytes, its bytes,
  // and zeros up to a multiple of eight.

  import opened Prelude
  import Encodings

  /** A file-system object. Names, contents and link targets are byte strings. */
  datatype Node =
    | Regular(executable: bool, contents: bytes)
    | Symlink(target: bytes)
    | Directory(entries: map<bytes, Node>)
    | Unsupported

  const MAGIC: bytes := [110, 105, 120, 45, 97, 114, 99, 104, 105, 118, 101, 45, 49] // nix-archive-1
  const OPEN: bytes := [40]
  const CLOSE: bytes := [41]
  const TYPE: bytes := [116, 121, 112, 101]
  const REGULAR: bytes := [114, 101, 103, 117, 108, 97, 114]
  const SYMLINK: bytes := [115, 121, 109, 108, 105, 110, 107]
  const DIRECTORY: bytes := [100, 105, 114, 101, 99, 116, 111, 114, 121]
  const EXECUTABLE: bytes := [101, 120, 101, 99, 117, 116, 97, 98, 108, 101]
  const CONTENTS: bytes := [99, 111, 110, 116, 101, 110, 116, 115]
  const TARGET: bytes := [116, 97, 114, 103, 101, 116]
  const ENTRY: bytes := [101, 110, 116, 114, 121]
  const NAME: bytes := [110, 97, 109, 101]
  const NODE: bytes := [110, 111, 100, 101]

  const TWO64: nat := 0x1_0000_0000_0000_0000

  // --- strings ---

  function LittleEndian(n: nat, count: nat): (bs: bytes)
    ensures |bs| == count
  {
    if count == 0 then [] else [n % 256] + LittleEndian(n / 256, count - 1)
  }

  function FromLittleEndian(bs: bytes): nat {
    if bs == [] then 0 else bs[0] + 256 * FromLittleEndian(bs[1..])
  }

  function Pow256(count: nat): (p: nat)
    ensures p > 0
  {
    if count == 0 then 1 else 256 * Pow256(count - 1)
  }

  lemma {:induction false} LittleEndianInverts(n: nat, count: nat)
    requires n < Pow256(count)
    ensures FromLittleEndian(LittleEndian(n, count)) == n
  {
    if count > 0 {
      LittleEndianInverts(n / 256, count - 1);
      assert LittleEndian(n, count)[1..] == LittleEndian(n / 256, count - 1);
    }
  }

  lemma {:induction false} FromLittleEndianInverts(bs: bytes)
    ensures FromLittleEndian(bs) < Pow256(|bs|)
    ensures LittleEndian(FromLittleEndian(bs), |bs|) == bs
  {
    if bs != [] {
      FromLittleEndianInverts(bs[1..]);
      var high := FromLittleEndian(bs[1..]);
      assert (bs[0] + 256 * high) / 256 == high && (bs[0] + 256 * high) % 256 == bs[0];
    }
  }

  lemma Pow256Of8()
    ensures Pow256(8) == TWO64
  {
    assert Pow256(4) == 0x1_0000_0000;
  }

  function Padding(n: nat): (p: nat)
    ensures p < 8 && (n + p) % 8 == 0
  {
    (8 - n % 8) % 8
  }

  function Zeros(n: nat): (z: bytes)
    ensures |z| == n && forall i :: 0 <= i < n ==> z[i] == 0
  {
    if n == 0 then [] else [0] + Zeros(n - 1)
  }

  /** The string `b`, followed by `rest`. */
  function Str(b: bytes, rest: bytes): bytes {
    LittleEndian(|b|, 8) + b + Zeros(Padding(|b|)) + rest
  }

  /** What fits a 64-bit length. */
  type Short = b: bytes | |b| < TWO64 witness []

  /** The words of an archive. */
  datatype Words = End | Word(word: Short, rest: Words)

  datatype Parsed<T> = Parsed(value: T, rest: Words)

  function Flat(ws: Words): bytes {
    match ws case End => [] case Word(w, rest) => Str(w, Flat(rest))
  }

  /** Cut an archive into its words: every length must fit and all padding must be zero. */
  function Cut(bs: bytes): Option<Words>
    decreases |bs|
  {
    if bs == [] then Some(End)
    else if |bs| < 8 then None
    else
      var n := FromLittleEndian(bs[..8]);
      var end := 8 + n + Padding(n);
      if |bs| < end || bs[8 + n..end] != Zeros(Padding(n)) then None
      else
        var rest := Cut(bs[end..]);
        assert n < TWO64 by { Pow256Of8(); FromLittleEndianInverts(bs[..8]); }
        if rest.None? then None else Some(Word(bs[8..8 + n], rest.value))
  }

  lemma StrParts(b: bytes, rest: bytes)
    ensures var bs := Str(b, rest);
            var end := 8 + |b| + Padding(|b|);
            && |bs| == end + |rest|
            && bs[..8] == LittleEndian(|b|, 8) && bs[8..8 + |b|] == b
            && bs[8 + |b|..end] == Zeros(Padding(|b|)) && bs[end..] == rest
  {
  }

  lemma {:induction false} CutFlat(ws: Words)
    ensures Cut(Flat(ws)) == Some(ws)
  {
    if ws.Word? {
      CutFlat(ws.rest);
      Pow256Of8();
      LittleEndianInverts(|ws.word|, 8);
      StrParts(ws.word, Flat(ws.rest));
    }
  }

  lemma {:induction false} FlatCut(bs: bytes)
    requires Cut(bs).Some?
    ensures Flat(Cut(bs).value) == bs
    decreases |bs|
  {
    if bs != [] {
      Pow256Of8();
      FromLittleEndianInverts(bs[..8]);
      var n := FromLittleEndian(bs[..8]);
      var end := 8 + n + Padding(n);
      FlatCut(bs[end..]);
      Regroup(bs, 8, 8 + n, end);
    }
  }

  lemma Regroup(bs: bytes, i: nat, j: nat, k: nat)
    requires i <= j <= k <= |bs|
    ensures bs[..i] + bs[i..j] + bs[j..k] + bs[k..] == bs
  {
  }

  lemma {:induction false} FlatLength(ws: Words)
    ensures |Flat(ws)| % 8 == 0
  {
    if ws.Word? {
      FlatLength(ws.rest);
      StrLength(ws.word, Flat(ws.rest));
    }
  }

  lemma StrLength(b: bytes, rest: bytes)
    ensures |Str(b, rest)| % 8 == |rest| % 8
  {
    Mod8(|b| + Padding(|b|), |rest|);
  }

  lemma Mod8(padded: nat, more: nat)
    requires padded % 8 == 0
    ensures (8 + padded + more) % 8 == more % 8
  {
  }

  // --- name order ---

  predicate Before(a: bytes, b: bytes) {
    b != [] && (a == [] || a[0] < b[0] || (a[0] == b[0] && Before(a[1..], b[1..])))
  }

  lemma {:induction false} BeforeTransitive(a: bytes, b: bytes, c: bytes)
    requires Before(a, b) && Before(b, c)
    ensures Before(a, c)
  {
    if a != [] && a[0] == b[0] && b[0] == c[0] { BeforeTransitive(a[1..], b[1..], c[1..]); }
  }

  lemma {:induction false} BeforeTotal(a: bytes, b: bytes)
    ensures a == b || Before(a, b) || Before(b, a)
  {
    if a != [] && b != [] && a[0] == b[0] {
      BeforeTotal(a[1..], b[1..]);
      assert a == [a[0]] + a[1..] && b == [b[0]] + b[1..];
    }
  }

  lemma {:induction false} BeforeIrreflexive(a: bytes)
    ensures !Before(a, a)
  {
    if a != [] { BeforeIrreflexive(a[1..]); }
  }

  ghost predicate Sorted(names: seq<bytes>) {
    forall i, j :: 0 <= i < j < |names| ==> Before(names[i], names[j])
  }

  /** A set of names has only one sorted listing. */
  lemma {:induction false} SortedIsUnique(a: seq<bytes>, b: seq<bytes>)
    requires Sorted(a) && Sorted(b)
    requires forall n :: n in a <==> n in b
    ensures a == b
  {
    assert a != [] ==> a[0] in b;
    assert b != [] ==> b[0] in a;
    if a != [] {
      FirstIsLeast(a, b);
      forall n ensures n in a[1..] <==> n in b[1..] {
        BeforeIrreflexive(a[0]);
        assert n in a[1..] ==> n in a && n != a[0];
        assert n in b[1..] ==> n in b && n != b[0];
      }
      SortedIsUnique(a[1..], b[1..]);
      assert a == [a[0]] + a[1..] && b == [b[0]] + b[1..];
    }
  }

  lemma FirstIsLeast(a: seq<bytes>, b: seq<bytes>)
    requires Sorted(a) && Sorted(b) && a != [] && b != []
    requires forall n :: n in a <==> n in b
    ensures a[0] == b[0]
  {
    assert a[0] in b && b[0] in a;
    if a[0] != b[0] {
      assert Before(b[0], a[0]) && Before(a[0], b[0]);
      BeforeTransitive(a[0], b[0], a[0]);
      BeforeIrreflexive(a[0]);
    }
  }

  function Insert(n: bytes, names: seq<bytes>): seq<bytes> {
    if names == [] || Before(n, names[0]) then [n] + names else [names[0]] + Insert(n, names[1..])
  }

  lemma {:induction false} InsertSorted(n: bytes, names: seq<bytes>)
    requires Sorted(names) && n !in names
    ensures Sorted(Insert(n, names))
    ensures forall x :: x in Insert(n, names) <==> x == n || x in names
  {
    if names != [] {
      if Before(n, names[0]) {
        forall j | 0 <= j < |names| ensures Before(n, names[j]) {
          if j > 0 { BeforeTransitive(n, names[0], names[j]); }
        }
      } else {
        BeforeTotal(n, names[0]);
        InsertSorted(n, names[1..]);
        var tail := Insert(n, names[1..]);
        forall j | 0 <= j < |tail| ensures Before(names[0], tail[j]) {
          assert tail[j] in tail;
          if tail[j] != n {
            var k :| 0 <= k < |names[1..]| && names[1..][k] == tail[j];
            assert names[k + 1] == tail[j];
          }
        }
        assert names == [names[0]] + names[1..];
      }
    }
  }

  /** The names of a directory in archive order. */
  ghost function SortedNames(names: set<bytes>): (r: seq<bytes>)
    ensures Sorted(r) && forall n :: n in r <==> n in names
  {
    if names == {} then []
    else
      var n :| n in names;
      var rest := SortedNames(names - {n});
      InsertSorted(n, rest);
      Insert(n, rest)
  }

  // --- serialising ---

  /** Only regular files, links and directories, every string shorter than 2^64 bytes. */
  ghost predicate Serializable(n: Node) {
    match n
    case Regular(_, c) => |c| < TWO64
    case Symlink(t) => |t| < TWO64
    case Directory(es) => forall k :: k in es ==> |k| < TWO64 && Serializable(es[k])
    case Unsupported => false
  }

  ghost function NodeThen(n: Node, rest: Words): Words
    requires Serializable(n)
    decreases n, 1, 0
  {
    match n
    case Regular(x, c) =>
      var tail := Word(CONTENTS, Word(c, Word(CLOSE, rest)));
      Word(OPEN, Word(TYPE, Word(REGULAR, if x then Word(EXECUTABLE, Word([], tail)) else tail)))
    case Symlink(t) =>
      Word(OPEN, Word(TYPE, Word(SYMLINK, Word(TARGET, Word(t, Word(CLOSE, rest))))))
    case Directory(es) =>
      Word(OPEN, Word(TYPE, Word(DIRECTORY, EntriesThen(SortedNames(es.Keys), n, Word(CLOSE, rest)))))
  }

  ghost function EntriesThen(names: seq<bytes>, d: Node, rest: Words): Words
    requires d.Directory? && Serializable(d) && forall k :: k in names ==> k in d.entries
    decreases d, 0, |names|
  {
    if names == [] then rest
    else EntryThen(names[0], d, EntriesThen(names[1..], d, rest))
  }

  ghost function EntryThen(name: bytes, d: Node, rest: Words): Words
    requires d.Directory? && Serializable(d) && name in d.entries
    decreases d, 0, 0
  {
    Word(ENTRY, Word(OPEN, Word(NAME, Word(name, Word(NODE, NodeThen(d.entries[name], Word(CLOSE, rest)))))))
  }

  /** The archive of a file tree. */
  ghost function Archive(n: Node): bytes
    requires Serializable(n)
  {
    Flat(Word(MAGIC, NodeThen(n, End)))
  }

  // --- decoding ---

  function DecodeNode(ws: Words): (r: Option<Parsed<Node>>)
    ensures r.Some? ==> r.value.rest < ws
    decreases ws, 0
  {
    match ws
    case Word(open, Word(type_, Word(kind, body))) =>
      if open != OPEN || type_ != TYPE then None
      else if kind == REGULAR then DecodeRegular(body)
      else if kind == SYMLINK then DecodeSymlink(body)
      else if kind == DIRECTORY then
        var es := DecodeEntries(body, None);
        if es.None? then None else Some(Parsed(Directory(es.value.value), es.value.rest))
      else None
    case _ => None
  }

  function DecodeRegular(ws: Words): (r: Option<Parsed<Node>>)
    ensures r.Some? ==> r.value.rest < ws
  {
    if ws.Word? && ws.word == EXECUTABLE then
      if ws.rest.Word? && ws.rest.word == [] then DecodeContents(ws.rest.rest, true) else None
    else DecodeContents(ws, false)
  }

  function DecodeContents(ws: Words, executable: bool): (r: Option<Parsed<Node>>)
    ensures r.Some? ==> r.value.rest < ws
  {
    match ws
    case Word(contents, Word(data, Word(close, rest))) =>
      if contents == CONTENTS && close == CLOSE then Some(Parsed(Regular(executable, data), rest)) else None
    case _ => None
  }

  function DecodeSymlink(ws: Words): (r: Option<Parsed<Node>>)
    ensures r.Some? ==> r.value.rest < ws
  {
    match ws
    case Word(target, Word(data, Word(close, rest))) =>
      if target == TARGET && close == CLOSE then Some(Parsed(Symlink(data), rest)) else None
    case _ => None
  }

  /** Entries up to the closing parenthesis, their names strictly increasing from `last`. */
  function DecodeEntries(ws: Words, last: Option<bytes>): (r: Option<Parsed<map<bytes, Node>>>)
    ensures r.Some? ==> r.value.rest < ws
    decreases ws, 1
  {
    if ws.Word? && ws.word == CLOSE then Some(Parsed(map[], ws.rest)) else
    var e := DecodeEntry(ws);
    if e.None? then None else
    var name, child := e.value.value.0, e.value.value.1;
    if last.Some? && !Before(last.value, name) then None else
    var others := DecodeEntries(e.value.rest, Some(name));
    if others.None? then None else
    Some(Parsed(others.value.value[name := child], others.value.rest))
  }

  function DecodeEntry(ws: Words): (r: Option<Parsed<(bytes, Node)>>)
    ensures r.Some? ==> r.value.rest < ws
    decreases ws, 0
  {
    match ws
    case Word(entry, Word(open, Word(heading, Word(name, Word(node, body))))) =>
      if entry != ENTRY || open != OPEN || heading != NAME || node != NODE then None else
      var child := DecodeNode(body);
      if child.None? || !child.value.rest.Word? || child.value.rest.word != CLOSE then None
      else Some(Parsed((name, child.value.value), child.value.rest.rest))
    case _ => None
  }

  function Decode(bs: bytes): Option<Node> {
    var ws := Cut(bs);
    if ws.None? || !ws.value.Word? || ws.value.word != MAGIC then None else
    var n := DecodeNode(ws.value.rest);
    if n.Some? && n.value.rest == End then Some(n.value.value) else None
  }

  // --- decoding a serialised tree ---

  lemma Vocabulary()
    ensures REGULAR != SYMLINK && REGULAR != DIRECTORY && SYMLINK != DIRECTORY
    ensures EXECUTABLE != CONTENTS && ENTRY != CLOSE
  {
    assert REGULAR[0] != SYMLINK[0];
    assert |EXECUTABLE| != |CONTENTS|;
  }

  function Select(es: map<bytes, Node>, names: seq<bytes>): map<bytes, Node>
    requires forall k :: k in names ==> k in es
  {
    map k | k in names :: es[k]
  }

  lemma SelectFirst(es: map<bytes, Node>, names: seq<bytes>)
    requires names != [] && forall k :: k in names ==> k in es
    ensures Select(es, names) == Select(es, names[1..])[names[0] := es[names[0]]]
  {
    assert names == [names[0]] + names[1..];
  }

  lemma SelectAll(es: map<bytes, Node>)
    ensures Select(es, SortedNames(es.Keys)) == es
  {
  }

  lemma {:induction false} DecodeWrittenNode(n: Node, rest: Words)
    requires Serializable(n)
    ensures DecodeNode(NodeThen(n, rest)) == Some(Parsed(n, rest))
    decreases n, 1, 0
  {
    Vocabulary();
    match n
    case Regular(_, _) =>
    case Symlink(_) =>
    case Directory(es) =>
      var names := SortedNames(es.Keys);
      SelectAll(es);
      DecodeWrittenEntries(names, n, rest, None);
      DecodeHeader(DIRECTORY, EntriesThen(names, n, Word(CLOSE, rest)));
  }

  lemma DecodeHeader(kind: Short, body: Words)
    requires kind == DIRECTORY
    ensures DecodeNode(Word(OPEN, Word(TYPE, Word(kind, body)))) ==
              var es := DecodeEntries(body, None);
              if es.None? then None else Some(Parsed(Directory(es.value.value), es.value.rest))
  {
    Vocabulary();
  }

  lemma {:induction false} DecodeWrittenEntries(names: seq<bytes>, d: Node, rest: Words, last: Option<bytes>)
    requires d.Directory? && Serializable(d) && forall k :: k in names ==> k in d.entries
    requires Sorted(names)
    requires last.Some? && names != [] ==> Before(last.value, names[0])
    ensures DecodeEntries(EntriesThen(names, d, Word(CLOSE, rest)), last)
         == Some(Parsed(Select(d.entries, names), rest))
    decreases d, 0, |names|
  {
    if names == [] {
      assert Select(d.entries, names) == map[];
    } else {
      var name, others := names[0], names[1..];
      var tail := EntriesThen(others, d, Word(CLOSE, rest));
      DecodeWrittenEntry(name, d, tail);
      DecodeWrittenEntries(others, d, rest, Some(name));
      SelectFirst(d.entries, names);
      DecodeOneMore(EntryThen(name, d, tail), last);
    }
  }

  lemma DecodeOneMore(ws: Words, last: Option<bytes>)
    requires ws.Word? && ws.word != CLOSE && DecodeEntry(ws).Some?
    requires last.Some? ==> Before(last.value, DecodeEntry(ws).value.value.0)
    ensures var e := DecodeEntry(ws).value;
            DecodeEntries(ws, last) ==
              var others := DecodeEntries(e.rest, Some(e.value.0));
              if others.None? then None
              else Some(Parsed(others.value.value[e.value.0 := e.value.1], others.value.rest))
  {
  }

  lemma {:induction false} DecodeWrittenEntry(name: bytes, d: Node, rest: Words)
    requires d.Directory? && Serializable(d) && name in d.entries
    ensures var ws := EntryThen(name, d, rest);
            ws.word != CLOSE && DecodeEntry(ws) == Some(Parsed((name, d.entries[name]), rest))
    decreases d, 0, 0
  {
    Vocabulary();
    DecodeWrittenNode(d.entries[name], Word(CLOSE, rest));
  }

  /** Decoding an archive gives back the tree it was made from. */
  lemma DecodeInvertsArchive(n: Node)
    requires Serializable(n)
    ensures Decode(Archive(n)) == Some(n)
  {
    CutFlat(Word(MAGIC, NodeThen(n, End)));
    DecodeWrittenNode(n, End);
  }

  /** Equal archives come from equal trees. */
  lemma ArchiveIsInjective(m: Node, n: Node)
    requires Serializable(m) && Serializable(n)
    requires Archive(m) == Archive(n)
    ensures m == n
  {
    DecodeInvertsArchive(m);
    DecodeInvertsArchive(n);
  }

  /** The length of an archive is a multiple of eight. */
  lemma ArchiveLength(n: Node)
    requires Serializable(n)
    ensures |Archive(n)| % 8 == 0
  {
    FlatLength(Word(MAGIC, NodeThen(n, End)));
  }

  // --- serialising a decoded tree ---

  lemma {:induction false} WrittenDecodedNode(ws: Words)
    requires DecodeNode(ws).Some?
    ensures var p := DecodeNode(ws).value;
            Serializable(p.value) && ws == NodeThen(p.value, p.rest)
    decreases ws, 0
  {
    Vocabulary();
    var kind, body := ws.rest.rest.word, ws.rest.rest.rest;
    assert ws == Word(OPEN, Word(TYPE, Word(kind, body)));
    if kind == DIRECTORY {
      var names := WrittenDecodedEntries(body, None);
      var p := DecodeEntries(body, None).value;
      SortedIsUnique(names, SortedNames(p.value.Keys));
      assert DecodeNode(ws) == Some(Parsed(Directory(p.value), p.rest));
    } else {
      WrittenDecodedLeaf(kind, body);
    }
  }

  lemma WrittenDecodedLeaf(kind: Short, body: Words)
    requires kind == REGULAR || kind == SYMLINK
    requires DecodeNode(Word(OPEN, Word(TYPE, Word(kind, body)))).Some?
    ensures var ws := Word(OPEN, Word(TYPE, Word(kind, body)));
            var p := DecodeNode(ws).value;
            Serializable(p.value) && ws == NodeThen(p.value, p.rest)
  {
    Vocabulary();
    var ws := Word(OPEN, Word(TYPE, Word(kind, body)));
    var p := DecodeNode(ws).value;
    if kind == REGULAR {
      assert Some(p) == DecodeRegular(body);
      WrittenDecodedRegular(body);
    } else {
      assert Some(p) == DecodeSymlink(body);
      assert body == Word(TARGET, Word(p.value.target, Word(CLOSE, p.rest)));
    }
  }

  lemma WrittenDecodedRegular(body: Words)
    requires DecodeRegular(body).Some?
    ensures var p := DecodeRegular(body).value;
            && p.value.Regular? && |p.value.contents| < TWO64
            && var tail := Word(CONTENTS, Word(p.value.contents, Word(CLOSE, p.rest)));
               body == if p.value.executable then Word(EXECUTABLE, Word([], tail)) else tail
  {
    Vocabulary();
    if body.word == EXECUTABLE {
      WrittenDecodedContents(body.rest.rest, true);
    } else {
      WrittenDecodedContents(body, false);
    }
  }

  lemma WrittenDecodedContents(body: Words, x: bool)
    requires DecodeContents(body, x).Some?
    ensures var p := DecodeContents(body, x).value;
            && p.value.Regular? && p.value.executable == x && |p.value.contents| < TWO64
            && body == Word(CONTENTS, Word(p.value.contents, Word(CLOSE, p.rest)))
  {
  }

  /** The entries of one directory do not depend on the other entries. */
  lemma {:induction false} EntriesThenDependsOnNames(names: seq<bytes>, d: Node, d': Node, rest: Words)
    requires d.Directory? && Serializable(d) && d'.Directory? && Serializable(d')
    requires forall k :: k in names ==> k in d.entries && k in d'.entries && d.entries[k] == d'.entries[k]
    ensures EntriesThen(names, d, rest) == EntriesThen(names, d', rest)
    decreases |names|
  {
    if names != [] { EntriesThenDependsOnNames(names[1..], d, d', rest); }
  }

  lemma {:induction false} WrittenDecodedEntries(ws: Words, last: Option<bytes>) returns (names: seq<bytes>)
    requires DecodeEntries(ws, last).Some?
    ensures var p := DecodeEntries(ws, last).value;
            && Serializable(Directory(p.value))
            && Sorted(names) && (forall k :: k in names <==> k in p.value)
            && (last.Some? && names != [] ==> Before(last.value, names[0]))
            && ws == EntriesThen(names, Directory(p.value), Word(CLOSE, p.rest))
    decreases ws, 1
  {
    if ws.word == CLOSE {
      names := [];
    } else {
      var e := DecodeEntry(ws).value;
      var name, child := e.value.0, e.value.1;
      var q := DecodeEntries(e.rest, Some(name)).value;
      WrittenDecodedEntry(ws);
      var others := WrittenDecodedEntries(e.rest, Some(name));
      names := [name] + others;
      NameComesFirst(name, others);
      var d := Directory(q.value[name := child]);
      EntriesThenDependsOnNames(others, Directory(q.value), d, Word(CLOSE, q.rest));
      assert names[1..] == others;
      DecodeOneMore(ws, last);
    }
  }

  lemma NameComesFirst(name: bytes, others: seq<bytes>)
    requires Sorted(others) && (others != [] ==> Before(name, others[0]))
    ensures Sorted([name] + others) && name !in others
  {
    forall j | 0 <= j < |others| ensures Before(name, others[j]) {
      if j > 0 { BeforeTransitive(name, others[0], others[j]); }
    }
    BeforeIrreflexive(name);
  }

  lemma {:induction false} WrittenDecodedEntry(ws: Words)
    requires DecodeEntry(ws).Some?
    ensures var p := DecodeEntry(ws).value;
            var name, child := p.value.0, p.value.1;
            && |name| < TWO64 && Serializable(child)
            && ws == Word(ENTRY, Word(OPEN, Word(NAME, Word(name, Word(NODE, NodeThen(child, Word(CLOSE, p.rest)))))))
    decreases ws, 0
  {
    WrittenDecodedNode(ws.rest.rest.rest.rest.rest);
  }

  /** Whatever the decoder accepts is the archive of the tree it returns: the format is
      canonical, and together with `DecodeInvertsArchive` the two are inverse. */
  lemma ArchiveInvertsDecode(bs: bytes)
    requires Decode(bs).Some?
    ensures Serializable(Decode(bs).value) && Archive(Decode(bs).value) == bs
  {
    FlatCut(bs);
    WrittenDecodedNode(Cut(bs).value.rest);
  }

  // --- the bytes that are written ---

  lemma {:induction false} NoHighBytes(count: nat)
    ensures LittleEndian(0, count) == Zeros(count)
  {
    if count > 0 { NoHighBytes(count - 1); }
  }

  /** A string of fewer than 256 bytes: its length in the first of eight bytes, itself, and zeros
      up to a multiple of eight. */
  lemma ShortString(b: bytes, rest: bytes)
    requires |b| < 256
    ensures Str(b, rest) == [|b|] + Zeros(7) + b + Zeros((8 - |b| % 8) % 8) + rest
  {
    ShortLength(|b|);
  }

  lemma ShortLength(n: nat)
    requires n < 256
    ensures LittleEndian(n, 8) == [n] + Zeros(7)
  {
    NoHighBytes(7);
    assert n % 256 == n && n / 256 == 0;
    assert LittleEndian(n, 8) == [n % 256] + LittleEndian(n / 256, 7);
  }

  lemma WordsAreNamed()
    ensures OPEN == Encodings.Ascii("(") && CLOSE == Encodings.Ascii(")") && MAGIC == Encodings.Ascii("nix-archive-1")
    ensures TYPE == Encodings.Ascii("type") && REGULAR == Encodings.Ascii("regular") && SYMLINK == Encodings.Ascii("symlink")
    ensures DIRECTORY == Encodings.Ascii("directory") && EXECUTABLE == Encodings.Ascii("executable")
    ensures CONTENTS == Encodings.Ascii("contents") && TARGET == Encodings.Ascii("target")
    ensures ENTRY == Encodings.Ascii("entry") && NAME == Encodings.Ascii("name") && NODE == Encodings.Ascii("node")
    ensures Encodings.Ascii("") == []
  {
  }

  /** What is written for each kind of object, and for an entry of a directory. */
  lemma NodeIsWritten(n: Node, rest: Words)
    requires Serializable(n)
    ensures Flat(NodeThen(n, rest)) ==
              match n
              case Regular(executable, contents) =>
                var tail := Str(CONTENTS, Str(contents, Str(CLOSE, Flat(rest))));
                Str(OPEN, Str(TYPE, Str(REGULAR, if executable then Str(EXECUTABLE, Str([], tail)) else tail)))
              case Symlink(target) =>
                Str(OPEN, Str(TYPE, Str(SYMLINK, Str(TARGET, Str(target, Str(CLOSE, Flat(rest)))))))
              case Directory(es) =>
                Str(OPEN, Str(TYPE, Str(DIRECTORY, Flat(EntriesThen(SortedNames(es.Keys), n, Word(CLOSE, rest))))))
  {
    match n
    case Regular(executable, contents) =>
      var close := Word(CLOSE, rest);
      assert Flat(close) == Str(CLOSE, Flat(rest));
      var tail := Word(CONTENTS, Word(contents, close));
      assert Flat(tail) == Str(CONTENTS, Str(contents, Flat(close)));
      HeadIsWritten(REGULAR, if executable then Word(EXECUTABLE, Word([], tail)) else tail);
    case Symlink(target) =>
      var close := Word(CLOSE, rest);
      assert Flat(close) == Str(CLOSE, Flat(rest));
      HeadIsWritten(SYMLINK, Word(TARGET, Word(target, close)));
    case Directory(es) =>
      HeadIsWritten(DIRECTORY, EntriesThen(SortedNames(es.Keys), n, Word(CLOSE, rest)));
  }

  lemma HeadIsWritten(kind: Short, rest: Words)
    ensures Flat(Word(OPEN, Word(TYPE, Word(kind, rest)))) == Str(OPEN, Str(TYPE, Str(kind, Flat(rest))))
  {
    assert Flat(Word(TYPE, Word(kind, rest))) == Str(TYPE, Flat(Word(kind, rest)));
  }

  lemma EntryIsWritten(name: bytes, d: Node, rest: Words)
    requires d.Directory? && Serializable(d) && name in d.entries
    ensures Flat(EntryThen(name, d, rest)) ==
              Str(ENTRY, Str(OPEN, Str(NAME, Str(name, Str(NODE, Flat(NodeThen(d.entries[name], Word(CLOSE, rest))))))))
    ensures Flat(Word(CLOSE, rest)) == Str(CLOSE, Flat(rest))
  {
    var node := Word(NODE, NodeThen(d.entries[name], Word(CLOSE, rest)));
    assert Flat(Word(NAME, Word(name, node))) == Str(NAME, Str(name, Flat(node)));
    assert Flat(Word(ENTRY, Word(OPEN, Word(NAME, Word(name, node))))) == Str(ENTRY, Flat(Word(OPEN, Word(NAME, Word(name, node)))));
  }

  lemma SameStart(a: bytes, b: bytes, i: nat)
    requires 0 < i <= |a| && i <= |b| && a[..i] == b[..i]
    ensures a[0] == b[0]
  {
    assert a[..i][0] == a[0] && b[..i][0] == b[0];
  }

  /** Names are ordered by their first difference, and before what they start. */
  lemma {:induction false} BeforeExactly(a: bytes, b: bytes)
    ensures Before(a, b) <==>
              a < b || exists i :: 0 <= i < |a| && i < |b| && a[..i] == b[..i] && a[i] < b[i]
  {
    if a != [] && b != [] && a[0] == b[0] {
      BeforeExactly(a[1..], b[1..]);
      assert a == [a[0]] + a[1..] && b == [b[0]] + b[1..];
      if i: nat :| i < |a| - 1 && i < |b| - 1 && a[1..][..i] == b[1..][..i] && a[1..][i] < b[1..][i] {
        assert a[..i + 1] == [a[0]] + a[1..][..i] && b[..i + 1] == [b[0]] + b[1..][..i];
      }
      if i: nat :| i < |a| && i < |b| && a[..i] == b[..i] && a[i] < b[i] {
        assert i > 0 && a[1..][..i - 1] == a[..i][1..] && b[1..][..i - 1] == b[..i][1..];
      }
    } else if a != [] && b != [] {
      assert a[..0] == b[..0];
      forall i: nat | i < |a| && i < |b| && a[..i] == b[..i] ensures i == 0 {
        if i > 0 { SameStart(a, b, i); }
      }
    }
  }

  // --- what has an archive ---

  /** The object at a path below `n`. */
  function NodeAt(n: Node, path: seq<bytes>): Option<Node>
    decreases |path|
  {
    if path == [] then Some(n)
    else if n.Directory? && path[0] in n.entries then NodeAt(n.entries[path[0]], path[1..])
    else None
  }

  /** What cannot be written: another kind of object, or a string whose length takes more than
      64 bits. */
  ghost predicate Spoils(n: Node) {
    match n
    case Regular(_, contents) => |contents| >= 0x1_0000_0000_0000_0000
    case Symlink(target) => |target| >= 0x1_0000_0000_0000_0000
    case Directory(es) => exists k :: k in es && |k| >= 0x1_0000_0000_0000_0000
    case Unsupported => true
  }

  lemma {:induction false} NothingSpoils(n: Node, path: seq<bytes>)
    requires Serializable(n) && NodeAt(n, path).Some?
    ensures !Spoils(NodeAt(n, path).value)
    decreases |path|
  {
    if path != [] { NothingSpoils(n.entries[path[0]], path[1..]); }
  }

  lemma {:induction false} SomethingSpoils(n: Node) returns (path: seq<bytes>)
    requires !Serializable(n)
    ensures NodeAt(n, path).Some? && Spoils(NodeAt(n, path).value)
    decreases n
  {
    path := [];
    if !Spoils(n) {
      var k :| k in n.entries && !Serializable(n.entries[k]);
      path := SomethingSpoils(n.entries[k]);
      assert ([k] + path)[1..] == path;
      path := [k] + path;
    }
  }

  /** A tree has an archive exactly when nothing anywhere in it cannot be written. */
  lemma SerializableExactly(n: Node)
    ensures Serializable(n) <==> forall path :: NodeAt(n, path).Some? ==> !Spoils(NodeAt(n, path).value)
  {
    if Serializable(n) {
      forall path | NodeAt(n, path).Some? ensures !Spoils(NodeAt(n, path).value) { NothingSpoils(n, path); }
    } else {
      var path := SomethingSpoils(n);
    }
  }
}
