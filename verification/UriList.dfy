/** The clipboard's `text/uri-list` payload (panoptikon-clipboard/src/uri.rs, payload.rs). */
module UriList {
  // Paths become `file://` URIs (sections 2.1 and 2.3 of RFC 3986), one a line (section 5 of RFC
  // 2483).

  import opened Prelude
  import Encodings
  import M = Multipart

  const PERCENT: byte := 37

  /** The unreserved characters and the path separator. */
  predicate Kept(b: byte) {
    65 <= b <= 90 || 97 <= b <= 122 || 48 <= b <= 57 || b == 45 || b == 46 || b == 95 || b == 126 || b == 47
  }

  function UpperHex(d: nat): (c: byte)
    requires d < 16
    ensures Encodings.HexValue(c) == Some(d) && Kept(c)
  {
    if d < 10 then 48 + d else 55 + d
  }

  function EncodedByte(b: byte): bytes {
    if Kept(b) then [b] else [PERCENT, UpperHex(b / 16), UpperHex(b % 16)]
  }

  function Encoded(path: bytes): bytes {
    if path == [] then [] else EncodedByte(path[0]) + Encoded(path[1..])
  }

  function Scheme(): bytes { Encodings.Ascii("file://") }

  /** `file_uri_from_bytes`. */
  method FileUriFromBytes(path: bytes) returns (out: bytes)
    ensures out == Scheme() + Encoded(path)
  {
    out := Scheme();
    var i := 0;
    assert path[0..] == path;
    while i < |path|
      invariant i <= |path| && out + Encoded(path[i..]) == Scheme() + Encoded(path)
    {
      var b := path[i];
      assert path[i..][1..] == path[i + 1..];
      ghost var was := out;
      if Kept(b) {
        out := out + [b];
      } else {
        out := out + [PERCENT];
        out := out + [UpperHex(b / 16)];
        out := out + [UpperHex(b % 16)];
      }
      assert out == was + EncodedByte(b);
      Regroup(was, EncodedByte(b), Encoded(path[i + 1..]));
      i := i + 1;
    }
  }

  lemma Regroup(a: bytes, b: bytes, c: bytes)
    ensures a + (b + c) == (a + b) + c
  {
  }

  function LineBreak(): bytes { [M.CR, M.LF] }

  function Payload(uris: seq<bytes>): bytes {
    if uris == [] then [] else uris[0] + (LineBreak() + Payload(uris[1..]))
  }

  /** `uri_list_payload`. */
  method UriListPayload(uris: seq<bytes>) returns (out: bytes)
    ensures out == Payload(uris)
  {
    out := [];
    var i := 0;
    assert uris[0..] == uris;
    while i < |uris|
      invariant i <= |uris| && out + Payload(uris[i..]) == Payload(uris)
    {
      assert uris[i..][1..] == uris[i + 1..];
      Regroup(out, uris[i], LineBreak() + Payload(uris[i + 1..]));
      Regroup(out + uris[i], LineBreak(), Payload(uris[i + 1..]));
      out := out + uris[i];
      out := out + LineBreak();
      i := i + 1;
    }
  }

  /** The characters of a path that a URI shows as they are. */
  predicate ShownAsItIs(c: char) {
    'A' <= c <= 'Z' || 'a' <= c <= 'z' || '0' <= c <= '9' || c in "-._~/"
  }

  lemma {:induction false} EncodedConcat(a: bytes, b: bytes)
    ensures Encoded(a + b) == Encoded(a) + Encoded(b)
  {
    if a == [] {
      assert a + b == b;
    } else {
      assert (a + b)[1..] == a[1..] + b;
      EncodedConcat(a[1..], b);
    }
  }

  /** Every byte of a path stands at its place, as it is or as a percent sign and its two digits. */
  lemma ByteIsEncoded(a: bytes, b: byte, c: bytes)
    ensures Encoded(a + ([b] + c)) ==
              Encoded(a) + ((if ShownAsItIs(b as char) then [b] else ['%' as int, HexDigitOf(b / 16), HexDigitOf(b % 16)]) + Encoded(c))
  {
    EncodedConcat(a, [b] + c);
    assert ([b] + c)[1..] == c;
  }

  function HexDigitOf(d: nat): (c: byte)
    requires d < 16
  {
    if d < 10 then '0' as int + d else 'A' as int + (d - 10)
  }

  /** Every URI stands on a line of its own, behind those before it. */
  lemma {:induction false} UriIsListed(above: seq<bytes>, uri: bytes, below: seq<bytes>)
    ensures Payload(above + ([uri] + below)) == Payload(above) + (uri + ([13, 10] + Payload(below)))
  {
    if above == [] {
      assert above + ([uri] + below) == [uri] + below && ([uri] + below)[1..] == below;
    } else {
      assert (above + ([uri] + below))[1..] == above[1..] + ([uri] + below);
      UriIsListed(above[1..], uri, below);
      Regroup(above[0], LineBreak() + Payload(above[1..]), uri + ([13, 10] + Payload(below)));
      Regroup(LineBreak(), Payload(above[1..]), uri + ([13, 10] + Payload(below)));
    }
  }

  lemma SchemeIsFile()
    ensures Scheme() == ['f' as int, 'i' as int, 'l' as int, 'e' as int, ':' as int, '/' as int, '/' as int]
  {
  }

  // --- reading ---

  /** Percent-decoding, section 2.1 of RFC 3986: either case of hex digit, and nothing when a
      percent sign has no two of them. */
  function Decoded(s: bytes): Option<bytes> {
    if s == [] then Some([])
    else if s[0] != PERCENT then
      match Decoded(s[1..]) case None => None case Some(rest) => Some([s[0]] + rest)
    else if |s| < 3 || Encodings.HexValue(s[1]).None? || Encodings.HexValue(s[2]).None? then None
    else
      match Decoded(s[3..])
      case None => None
      case Some(rest) => Some([16 * Encodings.HexValue(s[1]).value + Encodings.HexValue(s[2]).value] + rest)
  }

  /** The path a URI names, if it is a `file` URI with an empty authority. */
  function PathOf(uri: bytes): Option<bytes> {
    if Scheme() <= uri then Decoded(uri[|Scheme()|..]) else None
  }

  function PathsOf(uris: seq<bytes>): Option<seq<bytes>> {
    if uris == [] then Some([])
    else
      var first, rest := PathOf(uris[0]), PathsOf(uris[1..]);
      if first.None? || rest.None? then None else Some([first.value] + rest.value)
  }

  /** The paths of a list: every line ends with a line break. */
  function Read(payload: bytes): Option<seq<bytes>> {
    var lines := M.Split(payload, LineBreak());
    if lines[|lines| - 1] != [] then None else PathsOf(lines[..|lines| - 1])
  }

  lemma {:induction false} DecodedAfter(b: byte, s: bytes)
    ensures Decoded(EncodedByte(b) + s) ==
              match Decoded(s) case None => None case Some(rest) => Some([b] + rest)
  {
    var e := EncodedByte(b);
    if Kept(b) {
      assert (e + s)[0] == b && (e + s)[1..] == s;
    } else {
      assert (e + s)[0] == PERCENT && (e + s)[1] == UpperHex(b / 16) && (e + s)[2] == UpperHex(b % 16);
      assert (e + s)[3..] == s;
    }
  }

  lemma {:induction false} DecodedOfEncoded(path: bytes)
    ensures Decoded(Encoded(path)) == Some(path)
  {
    if path != [] {
      DecodedOfEncoded(path[1..]);
      DecodedAfter(path[0], Encoded(path[1..]));
      assert path == [path[0]] + path[1..];
    }
  }

  /** Only unreserved characters, separators and percent signs are written. */
  lemma {:induction false} EncodedIsPlain(path: bytes)
    ensures forall c :: c in Encoded(path) ==> Kept(c) || c == PERCENT
  {
    if path != [] {
      EncodedIsPlain(path[1..]);
    }
  }

  lemma AfterPrefix(p: bytes, s: bytes)
    ensures p <= p + s && (p + s)[|p|..] == s
  {
  }

  lemma NoBreaks(a: bytes, b: bytes)
    requires (forall c :: c in a ==> c > 32) && (forall c :: c in b ==> c > 32)
    ensures M.CR !in a + b && M.LF !in a + b && 32 !in a + b
  {
  }

  lemma SchemeIsPlain()
    ensures forall c :: c in Scheme() ==> c > 32
  {
  }

  /** An encoded URI leads back to its path, and holds no line break and no space. */
  lemma UriReadsBack(path: bytes)
    ensures PathOf(Scheme() + Encoded(path)) == Some(path)
    ensures M.CR !in Scheme() + Encoded(path) && M.LF !in Scheme() + Encoded(path) && 32 !in Scheme() + Encoded(path)
  {
    DecodedOfEncoded(path);
    AfterPrefix(Scheme(), Encoded(path));
    UriIsPlain(path);
  }

  lemma UriIsPlain(path: bytes)
    ensures M.CR !in Scheme() + Encoded(path) && M.LF !in Scheme() + Encoded(path) && 32 !in Scheme() + Encoded(path)
  {
    EncodedIsPlain(path);
    SchemeIsPlain();
    NoBreaks(Scheme(), Encoded(path));
  }

  // --- whole lists ---

  lemma LineBreakFound(line: bytes, rest: bytes)
    requires M.CR !in line
    ensures M.Found(line + (LineBreak() + rest), LineBreak()) == Some(|line|)
  {
    var h := line + (LineBreak() + rest);
    assert forall k :: 0 <= k < 2 ==> h[|line| + k] == LineBreak()[k];
    forall j: nat | j < |line| ensures !M.At(h, j, LineBreak()) {
      assert h[j] == line[j] && h[j] in line;
      if M.At(h, j, LineBreak()) { StartsWithCr(h, j); }
    }
    M.FoundAt(h, LineBreak(), |line|);
  }

  lemma StartsWithCr(h: bytes, j: nat)
    requires M.At(h, j, LineBreak())
    ensures h[j] == M.CR
  {
    assert h[j + 0] == LineBreak()[0];
  }

  lemma {:induction false} PayloadSplits(uris: seq<bytes>)
    requires forall u :: u in uris ==> M.CR !in u
    ensures M.Split(Payload(uris), LineBreak()) == uris + [[]]
  {
    if uris == [] {
      NothingSplits();
    } else {
      var rest := Payload(uris[1..]);
      FirstUriSplits(uris[0], rest);
      PayloadSplits(uris[1..]);
      assert uris + [[]] == [uris[0]] + (uris[1..] + [[]]);
    }
  }

  lemma FirstUriSplits(uri: bytes, rest: bytes)
    requires M.CR !in uri
    ensures M.Split(uri + (LineBreak() + rest), LineBreak()) == [uri] + M.Split(rest, LineBreak())
  {
    LineBreakFound(uri, rest);
    M.Parts(uri, LineBreak(), rest);
    M.SplitAt(uri + (LineBreak() + rest), LineBreak(), uri, rest);
  }

  lemma NothingSplits()
    ensures M.Split([], LineBreak()) == [[]]
  {
    M.FindIsFirst([], LineBreak());
  }

  function Uris(paths: seq<bytes>): (r: seq<bytes>)
    ensures |r| == |paths|
  {
    if paths == [] then [] else [Scheme() + Encoded(paths[0])] + Uris(paths[1..])
  }

  lemma {:induction false} UrisReadBack(paths: seq<bytes>)
    ensures PathsOf(Uris(paths)) == Some(paths)
    ensures forall u :: u in Uris(paths) ==> M.CR !in u && M.LF !in u && 32 !in u
  {
    if paths != [] {
      UriReadsBack(paths[0]);
      UrisReadBack(paths[1..]);
      assert Uris(paths)[1..] == Uris(paths[1..]);
      assert paths == [paths[0]] + paths[1..];
    }
  }

  /** For every list of paths, whatever bytes they are made of, the payload leads back to exactly
      these paths. */
  lemma PayloadRoundTrips(paths: seq<bytes>)
    ensures Read(Payload(Uris(paths))) == Some(paths)
  {
    UrisReadBack(paths);
    PayloadSplits(Uris(paths));
    assert (Uris(paths) + [[]])[..|paths|] == Uris(paths);
  }
}
