/** Multipart bodies that some other server wrote: which file name counts in the headers of a part,
    what a part holds, and where its data goes (panoptikon/src/inferio_client.rs). Headers and
    parts are described by their text here. */
module MultipartForeign {
  import opened Prelude
  import opened Text
  import opened Encodings
  import opened Multipart
  import opened MultipartHeaders
  import opened MultipartOutputs

  // --- the file name that counts ---

  /** A parameter that gives a file name: the key, and the name in any number of quotes. */
  predicate Gives(segment: string, key: string, name: string) {
    IsFor(segment, key) && name == TrimChar(Trim(segment)[|key|..], '"')
  }

  predicate IsFor(segment: string, key: string) {
    key <= Trim(segment)
  }

  ghost predicate FirstGives(segments: seq<string>, key: string, name: string) {
    exists i :: FirstGivesAt(segments, key, name, i)
  }

  predicate FirstGivesAt(segments: seq<string>, key: string, name: string, i: int) {
    0 <= i < |segments| && Gives(segments[i], key, name) && forall j :: 0 <= j < i ==> !IsFor(segments[j], key)
  }

  lemma {:induction false} FirstParameterFound(segments: seq<string>, key: string, name: string, i: nat)
    requires FirstGivesAt(segments, key, name, i)
    ensures FromSegments(segments, key) == Some(name)
  {
    if i > 0 {
      assert forall j :: 0 <= j < |segments| - 1 ==> segments[1..][j] == segments[j + 1];
      FirstParameterFound(segments[1..], key, name, i - 1);
    }
  }

  lemma {:induction false} FoundParameterIsFirst(segments: seq<string>, key: string) returns (i: nat)
    requires FromSegments(segments, key).Some?
    ensures FirstGivesAt(segments, key, FromSegments(segments, key).value, i)
  {
    i := 0;
    if !IsFor(segments[0], key) {
      i := FoundParameterIsFirst(segments[1..], key);
      assert forall j :: 0 <= j < |segments| - 1 ==> segments[1..][j] == segments[j + 1];
      i := i + 1;
      assert forall j :: 0 < j < i ==> segments[j] == segments[1..][j - 1];
    }
  }

  lemma FirstParameterCounts(segments: seq<string>, key: string, name: string)
    ensures FromSegments(segments, key) == Some(name) <==> FirstGives(segments, key, name)
  {
    if FirstGives(segments, key, name) {
      var i :| FirstGivesAt(segments, key, name, i);
      FirstParameterFound(segments, key, name, i);
    }
    if FromSegments(segments, key).Some? {
      var i := FoundParameterIsFirst(segments, key);
    }
  }

  /** A disposition line gives the name its first such parameter gives. */
  ghost predicate LineGives(line: string, heading: string, key: string, name: string) {
    StartsIgnoringCase(Trim(line), heading) && FirstGives(SplitOn(Trim(line), ';'), key, name)
  }

  ghost predicate LineGivesNone(line: string, heading: string, key: string) {
    forall name :: !LineGives(line, heading, key, name)
  }

  lemma LineRead(line: string, heading: string, key: string)
    ensures var found := if StartsIgnoringCase(Trim(line), heading) then FromSegments(SplitOn(Trim(line), ';'), key) else None;
            && (forall name :: found == Some(name) <==> LineGives(line, heading, key, name))
            && (found == None <==> LineGivesNone(line, heading, key))
  {
    var found := if StartsIgnoringCase(Trim(line), heading) then FromSegments(SplitOn(Trim(line), ';'), key) else None;
    forall name ensures found == Some(name) <==> LineGives(line, heading, key, name) {
      FirstParameterCounts(SplitOn(Trim(line), ';'), key, name);
    }
    if found.Some? { assert LineGives(line, heading, key, found.value); }
  }

  /** Among the lines, the first that gives a name counts. */
  lemma {:induction false} FirstLineCounts(lines: seq<string>, heading: string, key: string, i: nat, name: string)
    requires i < |lines| && LineGives(lines[i], heading, key, name)
    requires forall j :: 0 <= j < i ==> LineGivesNone(lines[j], heading, key)
    ensures FromLines(lines, heading, key) == Some(name)
  {
    LineRead(lines[0], heading, key);
    if i > 0 {
      assert forall j :: 0 <= j < i - 1 ==> lines[1..][j] == lines[j + 1];
      FirstLineCounts(lines[1..], heading, key, i - 1, name);
    }
  }

  /** Without such a line there is no name. */
  lemma {:induction false} NoLineCounts(lines: seq<string>, heading: string, key: string)
    requires forall j :: 0 <= j < |lines| ==> LineGivesNone(lines[j], heading, key)
    ensures FromLines(lines, heading, key) == None
  {
    if lines != [] {
      LineRead(lines[0], heading, key);
      assert forall j :: 0 <= j < |lines| - 1 ==> lines[1..][j] == lines[j + 1];
      NoLineCounts(lines[1..], heading, key);
    }
  }

  lemma KeysRead()
    ensures Heading() == "content-disposition" && FilenameKey() == "filename="
  {
  }

  // --- what a part holds, and where it goes ---

  /** A part: header text without a blank line in it, a blank line, and the data. Without a file
      name it is ignored. With one its data is taken, less the line breaks at its end. */
  lemma PartHolds(decode: Decoder, headers: bytes, data: bytes)
    requires Found(headers + (BlankLine() + data), BlankLine()) == Some(|headers|)
    requires !Skipped(headers + (BlankLine() + data))
    ensures var name := FilenameIn(decode, headers);
            OutputOf(decode, headers + (BlankLine() + data)) ==
              if name.None? then None else Some(Output(SlotOf(name.value), StripCrlf(data)))
  {
    HeadersSplit(headers, data);
  }

  lemma {:induction false} CollectConcat(decode: Decoder, a: seq<bytes>, b: seq<bytes>, outputs: seq<bytes>)
    ensures Collect(decode, a + b, outputs) == Collect(decode, b, Collect(decode, a, outputs))
    decreases |a|
  {
    if a == [] {
      assert a + b == b;
    } else {
      assert (a + b)[1..] == a[1..] + b;
      CollectConcat(decode, a[1..], b, Accept(outputs, OutputOf(decode, a[0])));
    }
  }

  /** The outputs with `data` in place `n`, whatever was there, and the others as they were; the
      list grows to reach that place, with nothing in between. */
  predicate FilledAt(before: seq<bytes>, after: seq<bytes>, n: nat, data: bytes) {
    && |after| == (if n < |before| then |before| else n + 1) && after[n] == data
    && forall k :: 0 <= k < |after| && k != n ==> after[k] == if k < |before| then before[k] else []
  }

  predicate Taken(before: seq<bytes>, after: seq<bytes>, output: Option<Output>) {
    match output
    case None => after == before
    case Some(o) => match o.slot case None => after == before + [o.data] case Some(n) => FilledAt(before, after, n, o.data)
  }

  /** Parts are taken in order. One with a numbered name fills its place; one with another name is
      added at the end; any other changes nothing. */
  lemma PartIsTaken(decode: Decoder, above: seq<bytes>, part: bytes, below: seq<bytes>)
    ensures Taken(Collect(decode, above, []), Collect(decode, above + [part], []), OutputOf(decode, part))
    ensures Collect(decode, above + ([part] + below), []) == Collect(decode, below, Collect(decode, above + [part], []))
  {
    CollectConcat(decode, above, [part], []);
    CollectConcat(decode, above + [part], below, []);
    assert above + ([part] + below) == (above + [part]) + below;
    assert [part][1..] == [];
  }

  /** Every part of the body is considered, from the first marker on and before it. */
  lemma BodyIsItsParts(decode: Decoder, body: bytes, boundary: bytes)
    ensures Parse(decode, body, boundary) == Collect(decode, Split(body, Ascii("--") + boundary), [])
  {
    assert Ascii("--") == [DASH, DASH];
  }
}
