/** The outputs of a multipart response (panoptikon/src/inferio_client.rs), and when the client
    reads back exactly what the server wrote. */
module MultipartOutputs {
  import opened Prelude
  import opened Encodings
  import opened Multipart
  import opened MultipartHeaders

  // --- one piece ---

  function BlankLine(): bytes {
    [CR, LF, CR, LF]
  }

  /** `split_headers`. */
  function SplitHeaders(part: bytes): Option<(bytes, bytes)> {
    match Found(part, BlankLine())
    case None => None
    case Some(i) => Some((part[..i], part[i + 4..]))
  }

  predicate EndsCrlf(s: bytes) {
    |s| >= 2 && s[|s| - 2] == CR && s[|s| - 1] == LF
  }

  function StripCrlf(s: bytes): (r: bytes)
    ensures !EndsCrlf(r) && r <= s
    ensures !EndsCrlf(s) ==> r == s
  {
    if EndsCrlf(s) then StripCrlf(s[..|s| - 2]) else s
  }

  /** What a piece holds: the slot its file name stands for, if it does, and the data. */
  datatype Output = Output(slot: Option<nat>, data: bytes)

  predicate Skipped(piece: bytes) {
    piece == [] || piece == Closing() || piece == [DASH, DASH]
  }

  function OutputOf(decode: Decoder, piece: bytes): Option<Output> {
    if Skipped(piece) then None
    else match SplitHeaders(piece)
      case None => None
      case Some(parts) =>
        match FilenameIn(decode, parts.0)
        case None => None
        case Some(name) => Some(Output(SlotOf(name), StripCrlf(parts.1)))
  }

  // --- all pieces ---

  function Place(outputs: seq<bytes>, slot: nat, data: bytes): (r: seq<bytes>)
    ensures |r| == if |outputs| <= slot then slot + 1 else |outputs|
    ensures forall k :: 0 <= k < |r| ==> r[k] == if k == slot then data else if k < |outputs| then outputs[k] else []
  {
    var room := if |outputs| <= slot then outputs + seq(slot + 1 - |outputs|, _ => []) else outputs;
    room[slot := data]
  }

  function Accept(outputs: seq<bytes>, o: Option<Output>): seq<bytes> {
    match o
    case None => outputs
    case Some(Output(Some(slot), data)) => Place(outputs, slot, data)
    case Some(Output(None, data)) => outputs + [data]
  }

  function Collect(decode: Decoder, pieces: seq<bytes>, outputs: seq<bytes>): seq<bytes> {
    if pieces == [] then outputs
    else Collect(decode, pieces[1..], Accept(outputs, OutputOf(decode, pieces[0])))
  }

  function Marker(boundary: bytes): bytes {
    [DASH, DASH] + boundary
  }

  function Parse(decode: Decoder, body: bytes, boundary: bytes): seq<bytes> {
    Collect(decode, Split(body, Marker(boundary)), [])
  }

  /** One turn of the loop in `parse_multipart_outputs`, up to the slot. */
  method ReadPiece(decode: Decoder, part: bytes) returns (output: Option<Output>)
    ensures output == OutputOf(decode, part)
  {
    if Skipped(part) { return None; }
    var split := SplitHeaders(part);
    if split.None? { return None; }
    var filename := ExtractFilename(decode, split.value.0);
    if filename.None? { return None; }
    var data := split.value.1;
    while EndsCrlf(data)
      invariant StripCrlf(data) == StripCrlf(split.value.1)
      decreases |data|
    {
      data := data[..|data| - 2];
    }
    output := Some(Output(SlotOf(filename.value), data));
  }

  /** `parse_multipart_outputs`. */
  method ParseMultipartOutputs(decode: Decoder, body: bytes, boundary: bytes) returns (outputs: seq<bytes>)
    ensures outputs == Parse(decode, body, boundary)
  {
    outputs := [];
    var parts := SplitByBoundary(body, Marker(boundary));
    var i := 0;
    assert parts[0..] == parts;
    while i < |parts|
      invariant i <= |parts| && Parse(decode, body, boundary) == Collect(decode, parts[i..], outputs)
    {
      assert parts[i..][1..] == parts[i + 1..];
      var output := ReadPiece(decode, parts[i]);
      if output.Some? { outputs := StoreOutput(outputs, output.value); }
      i := i + 1;
    }
  }

  /** The rest of the turn: growing the list to the slot and filling it, or appending. */
  method StoreOutput(outputs: seq<bytes>, output: Output) returns (stored: seq<bytes>)
    ensures stored == Accept(outputs, Some(output))
  {
    stored := outputs;
    if output.slot.Some? {
      var slot := output.slot.value;
      if |stored| <= slot { stored := stored + seq(slot + 1 - |stored|, _ => []); }
      stored := stored[slot := output.data];
    } else {
      stored := stored + [output.data];
    }
    assert stored == Accept(outputs, Some(output));
  }

  // --- what every parse gives ---

  ghost predicate Clean(data: bytes, marker: bytes) {
    !Contains(data, marker) && !EndsCrlf(data)
  }

  lemma AtPart(s: bytes, i: nat, j: nat, k: nat, n: bytes)
    requires i <= j <= |s| && At(s[i..j], k, n)
    ensures At(s, i + k, n)
  {
    forall x | 0 <= x < |n| ensures s[(i + k) + x] == n[x] {
      assert s[i..j][k + x] == n[x];
    }
  }

  /** Parts of what does not contain the marker do not contain it. */
  lemma PartIsClean(s: bytes, i: nat, j: nat, marker: bytes)
    requires i <= j <= |s| && !Contains(s, marker)
    ensures !Contains(s[i..j], marker)
  {
    forall k: nat ensures !At(s[i..j], k, marker) {
      if At(s[i..j], k, marker) { AtPart(s, i, j, k, marker); }
    }
  }

  lemma DataIsClean(decode: Decoder, piece: bytes, marker: bytes)
    requires !Contains(piece, marker)
    ensures OutputOf(decode, piece).Some? ==> Clean(OutputOf(decode, piece).value.data, marker)
  {
    if OutputOf(decode, piece).Some? {
      var i := Found(piece, BlankLine()).value + 4;
      var data := OutputOf(decode, piece).value.data;
      PartIsClean(piece, i, |piece|, marker);
      assert piece[i..|piece|] == piece[i..] && piece[i..][0..|data|] == data;
      PartIsClean(piece[i..], 0, |data|, marker);
    }
  }

  lemma {:induction false} CollectIsClean(decode: Decoder, pieces: seq<bytes>, outputs: seq<bytes>, marker: bytes)
    requires marker != [] && forall p :: p in pieces ==> !Contains(p, marker)
    requires forall o :: o in outputs ==> Clean(o, marker)
    ensures forall o :: o in Collect(decode, pieces, outputs) ==> Clean(o, marker)
  {
    if pieces != [] {
      DataIsClean(decode, pieces[0], marker);
      assert !At([], 0, marker);
      assert Clean([], marker);
      CollectIsClean(decode, pieces[1..], Accept(outputs, OutputOf(decode, pieces[0])), marker);
    }
  }

  /** Whatever the body, no output contains the delimiter or ends in a line break. */
  lemma OutputsAreClean(decode: Decoder, body: bytes, boundary: bytes)
    ensures forall o :: o in Parse(decode, body, boundary) ==> Clean(o, Marker(boundary))
  {
    PiecesAreClean(body, Marker(boundary));
    CollectIsClean(decode, Split(body, Marker(boundary)), [], Marker(boundary));
  }

  // --- what the server writes ---

  /** The header block of section `n`, with the blank line that ends it. */
  function Head(n: nat): bytes
    requires IsAscii(Written(n))
  {
    Ascii(Written(n)) + BlankLine()
  }

  function Section(n: nat, content: bytes): bytes {
    WrittenIsAscii(n);
    Head(n) + content + [CR, LF]
  }

  /** The contents, laid out in the order `order`, each under its own number. */
  function SectionsOf(order: seq<nat>, contents: seq<bytes>): (r: seq<bytes>)
    requires forall k :: k in order ==> k < |contents|
    ensures |r| == |order|
  {
    if order == [] then []
    else
      assert order[0] in order;
      assert forall k :: k in order[1..] ==> k in order;
      [Section(order[0], contents[order[0]])] + SectionsOf(order[1..], contents)
  }

  function Body(boundary: bytes, order: seq<nat>, contents: seq<bytes>): bytes
    requires forall k :: k in order ==> k < |contents|
  {
    Layout(SectionsOf(order, contents), Marker(boundary))
  }

  /** Every content is laid out. (A content may even be laid out twice.) */
  ghost predicate Covers(order: seq<nat>, contents: seq<bytes>) {
    && (forall k :: k in order ==> k < |contents|)
    && (forall k: nat :: k < |contents| ==> k in order)
  }

  /** The bytes a boundary may have, as far as it matters: at least one, and no line break. */
  predicate IsBoundary(boundary: bytes) {
    boundary != [] && CR !in boundary && LF !in boundary
  }

  // --- reading one section ---

  lemma AsciiConcat(a: string, b: string)
    requires IsAscii(a) && IsAscii(b)
    ensures IsAscii(a + b) && Ascii(a + b) == Ascii(a) + Ascii(b)
  {
  }

  /** The first blank line is the one that ends the headers. */
  lemma BlankLineFound(first: bytes, second: bytes, rest: bytes)
    requires first != [] && second != [] && CR !in first && CR !in second
    ensures var head := [CR, LF] + (first + ([CR, LF] + second));
            Found(head + (BlankLine() + rest), BlankLine()) == Some(|head|)
  {
    var head := [CR, LF] + (first + ([CR, LF] + second));
    var part := head + (BlankLine() + rest);
    assert forall i :: 0 <= i < |head| ==> part[i] == head[i];
    assert forall i :: 0 <= i < |first| ==> head[2 + i] == first[i];
    assert part[2] == first[0] && head[|first| + 4] == second[0];
    forall j: nat | j < |head| ensures !At(part, j, BlankLine()) {
      NotBlank(first, second, part, j);
    }
    assert forall k :: 0 <= k < 4 ==> part[|head| + k] == BlankLine()[k];
    FoundAt(part, BlankLine(), |head|);
  }

  lemma NotBlank(first: bytes, second: bytes, part: bytes, j: nat)
    requires first != [] && second != [] && CR !in first && CR !in second
    requires var head := [CR, LF] + (first + ([CR, LF] + second)); head <= part && j < |head|
    ensures !At(part, j, BlankLine())
  {
    var head := [CR, LF] + (first + ([CR, LF] + second));
    assert head[0] == CR && head[1] == LF && head[2 + |first|] == CR && head[3 + |first|] == LF;
    assert 2 <= j < 2 + |first| ==> head[j] == first[j - 2] && head[j] in first;
    assert 4 + |first| <= j ==> head[j] == second[j - 4 - |first|] && head[j] in second;
    assert head[2] == first[0] && head[2] in first && head[4 + |first|] == second[0] && head[4 + |first|] in second;
    assert BlankLine()[0] == CR && BlankLine()[2] == CR;
    if j + 2 < |part| && j + 2 < |head| { assert part[j + 2] == head[j + 2]; }
    assert part[j] == head[j];
    if At(part, j, BlankLine()) { AtFour(part, j); }
  }

  lemma AtFour(part: bytes, j: nat)
    requires At(part, j, BlankLine())
    ensures part[j] == CR && part[j + 2] == CR
  {
    assert part[j + 0] == BlankLine()[0] && part[j + 2] == BlankLine()[2];
  }

  lemma PlainAscii(s: string)
    requires IsAscii(s) && OneLine(s) && s != []
    ensures CR !in Ascii(s) && Ascii(s) != []
  {
  }

  lemma WrittenBytes(first: string, second: string)
    requires IsAscii(first) && IsAscii(second)
    ensures IsAscii(HeaderText(first, second))
    ensures Ascii(HeaderText(first, second)) == [CR, LF] + (Ascii(first) + ([CR, LF] + Ascii(second)))
  {
    assert Ascii("\r\n") == [CR, LF];
    AsciiConcat("\r\n", second);
    AsciiConcat(first, "\r\n" + second);
    AsciiConcat("\r\n", first + ("\r\n" + second));
  }

  lemma WrittenFound(n: nat, rest: bytes)
    ensures IsAscii(Written(n)) && Found(Ascii(Written(n)) + (BlankLine() + rest), BlankLine()) == Some(|Written(n)|)
  {
    var second := DispositionLine(Attachment(), FilenameKey(), OutputName(n));
    WrittenIsAscii(n);
    WrittenIsPlain(n);
    WrittenBytes(TypeLine(), second);
    PlainAscii(TypeLine());
    PlainAscii(second);
    BlankLineFound(Ascii(TypeLine()), Ascii(second), rest);
  }

  lemma LineIsAscii(attachment: string, key: string, name: string)
    requires IsAscii(attachment) && IsAscii(key) && IsAscii(name)
    ensures IsAscii(DispositionLine(attachment, key, name))
  {
  }

  lemma WrittenIsPlain(n: nat)
    ensures var second := DispositionLine(Attachment(), FilenameKey(), OutputName(n));
            OneLine(second) && IsAscii(second) && second != []
    ensures OneLine(TypeLine()) && IsAscii(TypeLine()) && TypeLine() != []
  {
    TypeLineIsOneLine();
    TypeLineIsAscii();
    AttachmentIsOneLine();
    AttachmentIsAscii();
    KeyFacts();
    NameFacts(n);
    LineIsPlain(Attachment(), FilenameKey(), OutputName(n));
    LineIsAscii(Attachment(), FilenameKey(), OutputName(n));
  }

  lemma StripsLast(content: bytes)
    ensures StripCrlf(content + [CR, LF]) == StripCrlf(content)
  {
    assert (content + [CR, LF])[..|content|] == content;
  }

  /** Splitting a section at its blank line. */
  lemma HeadersSplit(text: bytes, data: bytes)
    requires Found(text + (BlankLine() + data), BlankLine()) == Some(|text|)
    ensures SplitHeaders(text + (BlankLine() + data)) == Some((text, data))
  {
    Parts(text, BlankLine(), data);
  }

  /** A section is read as its slot and its content. */
  lemma SectionRead(decode: Decoder, n: nat, content: bytes)
    requires ReadsAscii(decode) && n < U64
    ensures OutputOf(decode, Section(n, content)) == Some(Output(Some(n), StripCrlf(content)))
  {
    var data := content + [CR, LF];
    WrittenFound(n, data);
    var text := Ascii(Written(n));
    HeadersSplit(text, data);
    assert Section(n, content) == text + (BlankLine() + data);
    FilenameRead(decode, n);
    SlotRead(n);
    StripsLast(content);
    SectionIsNotSkipped(n, content);
    OutputOfParts(decode, Section(n, content), text, data);
  }

  lemma OutputOfParts(decode: Decoder, piece: bytes, headers: bytes, data: bytes)
    requires !Skipped(piece) && SplitHeaders(piece) == Some((headers, data)) && FilenameIn(decode, headers).Some?
    ensures OutputOf(decode, piece) == Some(Output(SlotOf(FilenameIn(decode, headers).value), StripCrlf(data)))
  {
  }

  lemma SectionIsNotSkipped(n: nat, content: bytes)
    ensures !Skipped(Section(n, content))
  {
    WrittenIsAscii(n);
    assert Written(n)[0] == '\r';
    assert Section(n, content)[0] == Ascii(Written(n))[0] == CR;
  }

  // --- no section contains the marker by itself ---

  predicate Paired(s: string, i: nat) {
    i + 1 < |s| && s[i] == '-' && s[i + 1] == '-'
  }

  ghost predicate NoPairs(s: string) {
    forall i: nat :: !Paired(s, i)
  }

  lemma PairsConcat(a: string, b: string)
    requires NoPairs(a) && NoPairs(b) && (a == [] || a[|a| - 1] != '-')
    ensures NoPairs(a + b)
  {
    forall i: nat ensures !Paired(a + b, i) {
      assert !Paired(a, i);
      if i >= |a| { assert !Paired(b, i - |a|); }
    }
  }

  lemma NoDashNoPairs(s: string)
    requires '-' !in s
    ensures NoPairs(s)
  {
  }

  lemma HeaderHasNoPairs(first: string, attachment: string, key: string, name: string)
    requires NoPairs(first) && NoPairs(attachment) && '-' !in key && '-' !in name
    requires Solid(first) && Solid(attachment) && first[|first| - 1] != '-' && attachment[|attachment| - 1] != '-'
    ensures NoPairs(HeaderText(first, DispositionLine(attachment, key, name)))
  {
    var parameter := ";" + (" " + (key + ("\"" + (name + "\""))));
    NoDashNoPairs(parameter);
    PairsConcat(attachment, parameter);
    var second := attachment + parameter;
    PairsConcat("\r\n", second);
    PairsConcat(first, "\r\n" + second);
    PairsConcat("\r\n", first + ("\r\n" + second));
  }

  lemma TypeLineHasNoPairs()
    ensures NoPairs(TypeLine()) && TypeLine()[|TypeLine()| - 1] != '-'
  {
  }

  lemma AttachmentHasNoPairs()
    ensures NoPairs(Attachment()) && Attachment()[|Attachment()| - 1] != '-'
  {
  }

  lemma KeyHasNoDash()
    ensures '-' !in FilenameKey()
  {
  }

  lemma WrittenHasNoPairs(n: nat)
    ensures NoPairs(Written(n))
  {
    TypeLineHasNoPairs();
    TypeLineIsSolid();
    AttachmentHasNoPairs();
    AttachmentIsSolid();
    KeyHasNoDash();
    NameFacts(n);
    HeaderHasNoPairs(TypeLine(), Attachment(), FilenameKey(), OutputName(n));
  }

  lemma HeadHasNoPairs(text: string)
    requires IsAscii(text) && NoPairs(text)
    ensures forall i: nat :: !TwoDashes(Ascii(text) + BlankLine(), i)
  {
    var head := Ascii(text) + BlankLine();
    forall i: nat ensures !TwoDashes(head, i) {
      assert !Paired(text, i);
      if i + 1 < |head| && i + 1 >= |text| { assert head[i + 1] == BlankLine()[i + 1 - |text|]; }
    }
  }

  lemma SectionClean(n: nat, content: bytes, marker: bytes)
    requires IsMarker(marker) && !Contains(content, marker)
    ensures EndsLine(Section(n, content)) && !Contains(Section(n, content), marker)
  {
    WrittenIsAscii(n);
    WrittenHasNoPairs(n);
    HeadHasNoPairs(Written(n));
    SectionIsClean(Head(n), content, marker);
  }

  // --- reading everything back ---

  function PlaceAll(order: seq<nat>, contents: seq<bytes>, outputs: seq<bytes>): seq<bytes>
    requires forall k :: k in order ==> k < |contents|
    decreases order
  {
    if order == [] then outputs
    else
      assert order[0] in order;
      assert forall k :: k in order[1..] ==> k in order;
      PlaceAll(order[1..], contents, Place(outputs, order[0], StripCrlf(contents[order[0]])))
  }

  lemma CollectNext(decode: Decoder, piece: bytes, pieces: seq<bytes>, outputs: seq<bytes>, o: Option<Output>)
    requires OutputOf(decode, piece) == o
    ensures Collect(decode, [piece] + pieces, outputs) == Collect(decode, pieces, Accept(outputs, o))
  {
    assert ([piece] + pieces)[0] == piece && ([piece] + pieces)[1..] == pieces;
  }

  lemma CollectSection(decode: Decoder, order: seq<nat>, contents: seq<bytes>, outputs: seq<bytes>, tail: seq<bytes>)
    requires ReadsAscii(decode) && |contents| <= U64 && order != [] && forall k :: k in order ==> k < |contents|
    ensures order[0] < |contents| && forall k :: k in order[1..] ==> k < |contents|
    ensures Collect(decode, SectionsOf(order, contents) + tail, outputs)
         == Collect(decode, SectionsOf(order[1..], contents) + tail, Place(outputs, order[0], StripCrlf(contents[order[0]])))
  {
    assert order[0] in order;
    assert forall k :: k in order[1..] ==> k in order;
    var content := contents[order[0]];
    var section, rest := Section(order[0], content), SectionsOf(order[1..], contents);
    SectionRead(decode, order[0], content);
    CollectNext(decode, section, rest + tail, outputs, Some(Output(Some(order[0]), StripCrlf(content))));
    assert ([section] + rest) + tail == [section] + (rest + tail);
  }

  lemma {:induction false} CollectSections(decode: Decoder, order: seq<nat>, contents: seq<bytes>, outputs: seq<bytes>, tail: seq<bytes>)
    requires ReadsAscii(decode) && |contents| <= U64 && forall k :: k in order ==> k < |contents|
    ensures Collect(decode, SectionsOf(order, contents) + tail, outputs)
         == Collect(decode, tail, PlaceAll(order, contents, outputs))
    decreases order
  {
    if order == [] {
      assert SectionsOf(order, contents) + tail == tail;
    } else {
      CollectSection(decode, order, contents, outputs, tail);
      CollectSections(decode, order[1..], contents, Place(outputs, order[0], StripCrlf(contents[order[0]])), tail);
    }
  }

  /** Every slot of `order` ends up with its own content, whatever the order. */
  lemma {:induction false} EverySlotFilled(order: seq<nat>, contents: seq<bytes>, outputs: seq<bytes>)
    requires |outputs| <= |contents| && forall k :: k in order ==> k < |contents|
    ensures var r := PlaceAll(order, contents, outputs);
            && |outputs| <= |r| <= |contents|
            && (forall k: nat :: k in order ==> k < |r| && r[k] == StripCrlf(contents[k]))
            && (forall k: nat :: k < |outputs| && k !in order ==> r[k] == outputs[k])
    decreases order
  {
    if order != [] {
      assert order[0] in order;
      assert forall k :: k in order[1..] ==> k in order;
      var more := Place(outputs, order[0], StripCrlf(contents[order[0]]));
      EverySlotFilled(order[1..], contents, more);
      forall k: nat | k in order
        ensures var r := PlaceAll(order, contents, outputs); k < |r| && r[k] == StripCrlf(contents[k])
      {
        if k !in order[1..] { assert k == order[0]; }
      }
    }
  }

  lemma SectionsAreClean(order: seq<nat>, contents: seq<bytes>, marker: bytes)
    requires forall k :: k in order ==> k < |contents|
    requires IsMarker(marker) && forall k: nat :: k < |contents| ==> !Contains(contents[k], marker)
    ensures forall s :: s in SectionsOf(order, contents) ==> EndsLine(s) && !Contains(s, marker)
    decreases order
  {
    if order != [] {
      assert order[0] in order;
      assert forall k :: k in order[1..] ==> k in order;
      SectionClean(order[0], contents[order[0]], marker);
      SectionsAreClean(order[1..], contents, marker);
    }
  }

  lemma MarkerOfBoundary(boundary: bytes)
    requires IsBoundary(boundary)
    ensures IsMarker(Marker(boundary))
  {
  }

  /** What the client reads, in any order: every content without the delimiter comes back, less
      the line breaks at its end. */
  lemma ReadsBack(decode: Decoder, boundary: bytes, order: seq<nat>, contents: seq<bytes>)
    requires ReadsAscii(decode) && IsBoundary(boundary) && Covers(order, contents) && |contents| <= U64
    requires forall k: nat :: k < |contents| ==> !Contains(contents[k], Marker(boundary))
    ensures var r := Parse(decode, Body(boundary, order, contents), boundary);
            |r| == |contents| && forall k: nat :: k < |contents| ==> r[k] == StripCrlf(contents[k])
  {
    var marker := Marker(boundary);
    MarkerOfBoundary(boundary);
    SectionsAreClean(order, contents, marker);
    var sections := SectionsOf(order, contents);
    LayoutSplits(sections, marker);
    PiecesCollected(decode, sections, []);
    CollectSections(decode, order, contents, [], [Closing()]);
    EverySlotFilled(order, contents, []);
    LastPiece(decode, PlaceAll(order, contents, []));
    var r := PlaceAll(order, contents, []);
    assert |contents| > 0 ==> |contents| - 1 in order;
  }

  lemma PiecesCollected(decode: Decoder, sections: seq<bytes>, outputs: seq<bytes>)
    ensures Collect(decode, [[]] + (sections + [Closing()]), outputs) == Collect(decode, sections + [Closing()], outputs)
  {
    var pieces := [[]] + (sections + [Closing()]);
    assert pieces[0] == [] && pieces[1..] == sections + [Closing()];
  }

  lemma LastPiece(decode: Decoder, outputs: seq<bytes>)
    ensures Collect(decode, [Closing()], outputs) == outputs
  {
    assert Skipped(Closing());
    assert [Closing()][1..] == [];
  }

  /** The round trip: the client reads back exactly what was sent, whatever the order of the
      sections, exactly when no content contains the delimiter or ends in a line break. */
  lemma RoundTripsExactly(decode: Decoder, boundary: bytes, order: seq<nat>, contents: seq<bytes>)
    requires ReadsAscii(decode) && IsBoundary(boundary) && Covers(order, contents) && |contents| <= U64
    ensures Parse(decode, Body(boundary, order, contents), boundary) == contents
       <==> forall k: nat :: k < |contents| ==> Clean(contents[k], Marker(boundary))
  {
    var r := Parse(decode, Body(boundary, order, contents), boundary);
    OutputsAreClean(decode, Body(boundary, order, contents), boundary);
    if r == contents {
      forall k: nat | k < |contents| ensures Clean(contents[k], Marker(boundary)) {
        assert contents[k] in r;
      }
    }
    if forall k: nat :: k < |contents| ==> Clean(contents[k], Marker(boundary)) {
      ReadsBack(decode, boundary, order, contents);
    }
  }

  // --- the server ---

  function Upto(first: nat, end: nat): (r: seq<nat>)
    requires first <= end
    ensures |r| == end - first && forall i :: 0 <= i < |r| ==> r[i] == first + i
    decreases end - first
  {
    if first == end then [] else [first] + Upto(first + 1, end)
  }

  /** The loop of `encode_output_response` over outputs that are all binary. */
  method EncodeOutputs(boundary: bytes, contents: seq<bytes>) returns (body: bytes)
    ensures body == Body(boundary, Upto(0, |contents|), contents)
    ensures Covers(Upto(0, |contents|), contents)
  {
    body := [];
    var i := 0;
    UptoCovers(contents);
    ghost var whole := Body(boundary, Upto(0, |contents|), contents);
    assert body + whole == whole;
    while i < |contents|
      invariant i <= |contents|
      invariant body + Body(boundary, Upto(i, |contents|), contents) == whole
    {
      BodyNext(boundary, i, contents, body);
      body := body + Marker(boundary) + Section(i, contents[i]);
      i := i + 1;
    }
    BodyEnd(boundary, contents, body);
    body := body + Marker(boundary) + Closing();
  }

  lemma UptoCovers(contents: seq<bytes>)
    ensures Covers(Upto(0, |contents|), contents)
  {
    var order := Upto(0, |contents|);
    forall k: nat | k < |contents| ensures k in order {
      assert order[k] == k;
    }
  }

  lemma Regroup(a: bytes, b: bytes, c: bytes)
    ensures a + (b + c) == (a + b) + c
  {
  }

  lemma BodyEnd(boundary: bytes, contents: seq<bytes>, body: bytes)
    ensures body + Body(boundary, Upto(|contents|, |contents|), contents) == body + Marker(boundary) + Closing()
  {
    var order := Upto(|contents|, |contents|);
    assert SectionsOf(order, contents) == [];
    assert Sections([], Marker(boundary)) == Closing();
    Regroup(body, Marker(boundary), Closing());
  }

  lemma BodyNext(boundary: bytes, i: nat, contents: seq<bytes>, body: bytes)
    requires i < |contents|
    ensures body + Body(boundary, Upto(i, |contents|), contents)
         == (body + Marker(boundary) + Section(i, contents[i])) + Body(boundary, Upto(i + 1, |contents|), contents)
  {
    var marker := Marker(boundary);
    var order := Upto(i, |contents|);
    assert order[1..] == Upto(i + 1, |contents|) && order[0] == i;
    var rest := SectionsOf(order[1..], contents);
    var all := SectionsOf(order, contents);
    assert all[0] == Section(i, contents[i]) && all[1..] == rest;
    assert body + (marker + (all[0] + (marker + Sections(rest, marker))))
        == (body + marker + all[0]) + (marker + Sections(rest, marker));
  }
}
