/** Splitting a multipart body at its boundary (panoptikon/src/inferio_client.rs), and the
    layout of such a body, section 5.1.1 of RFC 2046 (panoptikon/src/inferio/http.rs). */
module Multipart {
  import opened Prelude

  const CR: byte := 13
  const LF: byte := 10
  const DASH: byte := 45

  predicate At(h: bytes, i: nat, n: bytes) {
    i + |n| <= |h| && forall k :: 0 <= k < |n| ==> h[i + k] == n[k]
  }

  ghost predicate Contains(h: bytes, n: bytes) {
    exists i: nat :: At(h, i, n)
  }

  lemma AtSlice(h: bytes, i: nat, n: bytes)
    requires i + |n| <= |h|
    ensures At(h, i, n) <==> h[i..i + |n|] == n
  {
    if At(h, i, n) { assert h[i..i + |n|] == n; }
  }

  lemma AtTail(h: bytes, i: nat, n: bytes)
    requires h != []
    ensures At(h, i + 1, n) <==> At(h[1..], i, n)
  {
    if i + 1 + |n| <= |h| {
      AtSlice(h, i + 1, n);
      AtSlice(h[1..], i, n);
      assert h[1..][i..i + |n|] == h[i + 1..i + 1 + |n|];
    }
  }

  /** `find_subslice`: the first place where the needle occurs. */
  function Find(h: bytes, n: bytes): Option<nat> {
    if |h| < |n| then None
    else if h[..|n|] == n then Some(0)
    else match Find(h[1..], n) case None => None case Some(i) => Some(i + 1)
  }

  lemma {:induction false} FindIsFirst(h: bytes, n: bytes)
    ensures Find(h, n).Some? ==> At(h, Find(h, n).value, n) && forall j: nat :: j < Find(h, n).value ==> !At(h, j, n)
    ensures Find(h, n).None? ==> !Contains(h, n)
  {
    if |h| >= |n| {
      AtSlice(h, 0, n);
      assert h[0..0 + |n|] == h[..|n|];
      if h[..|n|] != n {
        FindIsFirst(h[1..], n);
        forall j: nat | 0 < j ensures At(h, j, n) <==> At(h[1..], j - 1, n) { AtTail(h, j - 1, n); }
      }
    }
  }

  lemma FoundAt(h: bytes, n: bytes, i: nat)
    requires At(h, i, n) && forall j: nat :: j < i ==> !At(h, j, n)
    ensures Find(h, n) == Some(i)
  {
    FindIsFirst(h, n);
  }

  // --- splitting ---

  function Found(body: bytes, marker: bytes): (r: Option<nat>)
    ensures r.Some? ==> r.value + |marker| <= |body|
  {
    FindIsFirst(body, marker);
    Find(body, marker)
  }

  function Split(body: bytes, marker: bytes): (parts: seq<bytes>)
    ensures parts != []
    decreases |body|
  {
    if marker == [] then [body]
    else match Found(body, marker)
      case None => [body]
      case Some(i) => [body[..i]] + Split(body[i + |marker|..], marker)
  }

  function Rejoin(parts: seq<bytes>, marker: bytes): bytes {
    if parts == [] then []
    else if |parts| == 1 then parts[0]
    else parts[0] + marker + Rejoin(parts[1..], marker)
  }

  /** `split_by_boundary`. */
  method SplitByBoundary(body: bytes, marker: bytes) returns (parts: seq<bytes>)
    ensures parts == Split(body, marker)
  {
    if marker == [] { return [body]; }
    parts := [];
    var cursor := 0;
    var found := Found(body, marker);
    assert body[0..] == body;
    while found.Some?
      invariant cursor <= |body| && found == Found(body[cursor..], marker)
      invariant Split(body, marker) == parts + Split(body[cursor..], marker)
      decreases |body| - cursor
    {
      var end := cursor + found.value;
      assert body[cursor..][..found.value] == body[cursor..end];
      assert body[cursor..][found.value + |marker|..] == body[end + |marker|..];
      assert parts + ([body[cursor..end]] + Split(body[end + |marker|..], marker))
          == (parts + [body[cursor..end]]) + Split(body[end + |marker|..], marker);
      parts := parts + [body[cursor..end]];
      cursor := end + |marker|;
      found := Found(body[cursor..], marker);
    }
    parts := parts + [body[cursor..]];
  }

  lemma RejoinCons(part: bytes, parts: seq<bytes>, marker: bytes)
    requires parts != []
    ensures Rejoin([part] + parts, marker) == part + marker + Rejoin(parts, marker)
  {
    assert ([part] + parts)[1..] == parts;
  }

  /** Rejoining the pieces with the marker gives back the body. */
  lemma {:induction false} SplitRejoins(body: bytes, marker: bytes)
    ensures Rejoin(Split(body, marker), marker) == body
    decreases |body|
  {
    FindIsFirst(body, marker);
    var found := Found(body, marker);
    if marker != [] && found.Some? {
      var i := found.value;
      var rest := body[i + |marker|..];
      SplitRejoins(rest, marker);
      RejoinCons(body[..i], Split(rest, marker), marker);
      AtSlice(body, i, marker);
      assert body == body[..i] + body[i..i + |marker|] + rest;
    }
  }

  /** No piece contains the marker. */
  lemma {:induction false} PiecesAreClean(body: bytes, marker: bytes)
    requires marker != []
    ensures forall p :: p in Split(body, marker) ==> !Contains(p, marker)
    decreases |body|
  {
    FindIsFirst(body, marker);
    var found := Found(body, marker);
    if found.Some? {
      PiecesAreClean(body[found.value + |marker|..], marker);
      forall j: nat ensures !At(body[..found.value], j, marker) {
        AtPrefix(body, found.value, j, marker);
      }
    }
  }

  lemma AtPrefix(h: bytes, i: nat, j: nat, n: bytes)
    requires i <= |h|
    ensures At(h[..i], j, n) <==> j + |n| <= i && At(h, j, n)
  {
    if j + |n| <= i {
      AtSlice(h[..i], j, n);
      AtSlice(h, j, n);
      assert h[..i][j..j + |n|] == h[j..j + |n|];
    }
  }

  // --- laying out ---

  /** What may stand before a boundary marker can be told from it: a marker starts with two
      dashes, has something after them, and no line break. */
  predicate IsMarker(m: bytes) {
    |m| >= 3 && m[0] == DASH && m[1] == DASH && CR !in m && LF !in m
  }

  function Closing(): bytes {
    [DASH, DASH, CR, LF]
  }

  /** The body of a message with these sections, after the first marker. */
  function Sections(segments: seq<bytes>, marker: bytes): bytes {
    if segments == [] then Closing() else segments[0] + (marker + Sections(segments[1..], marker))
  }

  function Layout(segments: seq<bytes>, marker: bytes): bytes {
    marker + Sections(segments, marker)
  }

  predicate EndsLine(s: bytes) {
    s != [] && s[|s| - 1] == LF
  }

  /** Nothing that starts before the end of a line reaches beyond it, except over its break. */
  lemma WithinLine(line: bytes, rest: bytes, i: nat, n: bytes)
    requires EndsLine(line) && i < |line| && At(line + rest, i, n)
    ensures At(line, i, n) || LF in n
  {
    var h := line + rest;
    assert forall k :: 0 <= k < |line| ==> h[k] == line[k];
    if i + |n| > |line| {
      var k := |line| - 1 - i;
      assert h[i + k] == n[k];
    }
  }

  /** A marker is found right after a section that ends a line and does not contain it. */
  lemma MarkerFound(seg: bytes, marker: bytes, rest: bytes)
    requires IsMarker(marker) && (seg == [] || EndsLine(seg)) && !Contains(seg, marker)
    ensures Found(seg + (marker + rest), marker) == Some(|seg|)
  {
    var h := seg + (marker + rest);
    assert forall k :: 0 <= k < |marker| ==> h[|seg| + k] == marker[k];
    forall j: nat | j < |seg| ensures !At(h, j, marker) {
      if At(h, j, marker) { WithinLine(seg, marker + rest, j, marker); }
    }
    FoundAt(h, marker, |seg|);
  }

  lemma SplitAt(h: bytes, marker: bytes, before: bytes, rest: bytes)
    requires marker != [] && Found(h, marker) == Some(|before|)
    requires h[..|before|] == before && h[|before| + |marker|..] == rest
    ensures Split(h, marker) == [before] + Split(rest, marker)
  {
  }

  lemma Parts(a: bytes, b: bytes, c: bytes)
    ensures (a + (b + c))[..|a|] == a && (a + (b + c))[|a| + |b|..] == c
  {
  }

  /** Splitting there. */
  lemma SplitAfter(seg: bytes, marker: bytes, rest: bytes)
    requires IsMarker(marker) && (seg == [] || EndsLine(seg)) && !Contains(seg, marker)
    ensures Split(seg + (marker + rest), marker) == [seg] + Split(rest, marker)
  {
    MarkerFound(seg, marker, rest);
    Parts(seg, marker, rest);
    SplitAt(seg + (marker + rest), marker, seg, rest);
  }

  lemma ClosingIsClean(marker: bytes, j: nat)
    requires |marker| >= 3 && At(Closing(), j, marker)
    ensures marker[2] == CR || marker[2] == LF
  {
    assert Closing()[j + 2] == marker[2];
  }

  lemma ClosingSplits(marker: bytes)
    requires IsMarker(marker)
    ensures Split(Closing(), marker) == [Closing()]
  {
    FindIsFirst(Closing(), marker);
    if Found(Closing(), marker).Some? { ClosingIsClean(marker, Found(Closing(), marker).value); }
  }

  lemma {:induction false} SectionsSplit(segments: seq<bytes>, marker: bytes)
    requires IsMarker(marker)
    requires forall s :: s in segments ==> EndsLine(s) && !Contains(s, marker)
    ensures Split(Sections(segments, marker), marker) == segments + [Closing()]
  {
    if segments == [] {
      ClosingSplits(marker);
    } else {
      SplitAfter(segments[0], marker, Sections(segments[1..], marker));
      SectionsSplit(segments[1..], marker);
      assert segments + [Closing()] == [segments[0]] + (segments[1..] + [Closing()]);
    }
  }

  /** Splitting a laid-out body gives back its sections, between an empty piece and the end. */
  lemma LayoutSplits(segments: seq<bytes>, marker: bytes)
    requires IsMarker(marker)
    requires forall s :: s in segments ==> EndsLine(s) && !Contains(s, marker)
    ensures Split(Layout(segments, marker), marker) == [[]] + (segments + [Closing()])
  {
    var rest := Sections(segments, marker);
    SplitAfter([], marker, rest);
    assert [] + (marker + rest) == Layout(segments, marker);
    SectionsSplit(segments, marker);
  }

  predicate TwoDashes(s: bytes, i: nat) {
    i + 1 < |s| && s[i] == DASH && s[i + 1] == DASH
  }

  /** An occurrence in a section lies in its content, unless it takes in a line break or starts
      with a dash of the header block. */
  lemma WithinSection(head: bytes, content: bytes, i: nat, n: bytes)
    requires EndsLine(head) && At(head + content + [CR, LF], i, n) && |n| >= 2
    ensures LF in n || CR in n || (i >= |head| && At(content, i - |head|, n))
         || (i + 1 < |head| && head[i] == n[0] && head[i + 1] == n[1])
  {
    var s := head + content + [CR, LF];
    assert s == head + (content + [CR, LF]);
    if i < |head| {
      WithinLine(head, content + [CR, LF], i, n);
      if LF !in n { assert head[i + 0] == n[0] && head[i + 1] == n[1]; }
    } else {
      var j := i - |head|;
      if j + |n| <= |content| {
        AtSlice(s, i, n);
        AtSlice(content, j, n);
        assert s[i..i + |n|] == content[j..j + |n|];
      } else {
        var last := |content| - j;
        assert s[i + last] == n[last] == CR;
      }
    }
  }

  /** A section contains the marker only where its content does. */
  lemma SectionIsClean(head: bytes, content: bytes, marker: bytes)
    requires IsMarker(marker) && EndsLine(head) && !Contains(content, marker)
    requires forall i: nat :: !TwoDashes(head, i)
    ensures EndsLine(head + content + [CR, LF]) && !Contains(head + content + [CR, LF], marker)
  {
    var s := head + content + [CR, LF];
    forall i: nat ensures !At(s, i, marker) {
      assert !TwoDashes(head, i);
      if At(s, i, marker) { WithinSection(head, content, i, marker); }
    }
  }
}
