/** The string operations of the Rust standard library that the editors and parsers rely on,
    and the facts about trimming, splitting and joining that the proofs about these need. */
module Text {
  import opened Prelude

  /** `char::is_whitespace`: the Unicode White_Space property. */
  predicate IsSpace(c: char) {
    '\t' <= c <= '\r' || c == ' ' || c == '\U{0085}' || c == '\U{00A0}' || c == '\U{1680}'
    || '\U{2000}' <= c <= '\U{200A}' || c == '\U{2028}' || c == '\U{2029}'
    || c == '\U{202F}' || c == '\U{205F}' || c == '\U{3000}'
  }

  predicate AllSpace(s: string) {
    forall i :: 0 <= i < |s| ==> IsSpace(s[i])
  }

  function TrimStart(s: string): (r: string)
    ensures r == [] || !IsSpace(r[0])
  {
    if s != [] && IsSpace(s[0]) then TrimStart(s[1..]) else s
  }

  function TrimEnd(s: string): (r: string)
    ensures r == [] || !IsSpace(r[|r| - 1])
    ensures r <= s
  {
    if s != [] && IsSpace(s[|s| - 1]) then TrimEnd(s[..|s| - 1]) else s
  }

  function Trim(s: string): string {
    TrimStart(TrimEnd(s))
  }

  /** `str::find` for one character; the length stands for "not found". */
  function IndexOf(s: string, c: char): (i: nat)
    ensures i <= |s|
    ensures i < |s| ==> s[i] == c
    ensures forall j :: 0 <= j < i ==> s[j] != c
  {
    if s == [] || s[0] == c then 0 else 1 + IndexOf(s[1..], c)
  }

  lemma IndexOfUnique(s: string, c: char, i: nat)
    requires i <= |s| && (i < |s| ==> s[i] == c) && forall j :: 0 <= j < i ==> s[j] != c
    ensures IndexOf(s, c) == i
  {
  }

  /** A separator behind text without it is where that text is cut. */
  lemma CutAtFirst(head: string, sep: string, tail: string)
    requires |sep| == 1 && sep[0] !in head
    ensures var s := head + sep + tail;
            && IndexOf(s, sep[0]) == |head| < |s|
            && s[..|head|] == head && s[|head| + 1..] == tail
  {
    var s := head + sep + tail;
    assert s[|head|] == sep[0];
    assert forall j :: 0 <= j < |head| ==> s[j] == head[j] && head[j] in head;
    IndexOfUnique(s, sep[0], |head|);
  }

  lemma {:induction false} IndexOfHead(s: string, t: string, c: char)
    requires IndexOf(s, c) < |s|
    ensures IndexOf(s + t, c) == IndexOf(s, c)
  {
    if s[0] != c {
      assert (s + t)[1..] == s[1..] + t;
      IndexOfHead(s[1..], t, c);
    }
  }

  /** A trimmed string is determined by its solid core. */
  lemma {:induction false} TrimStartOf(w: string, s: string)
    requires AllSpace(w) && (s == [] || !IsSpace(s[0]))
    ensures TrimStart(w + s) == s
  {
    if w == [] {
      assert w + s == s;
    } else {
      assert (w + s)[1..] == w[1..] + s;
      TrimStartOf(w[1..], s);
    }
  }

  lemma {:induction false} TrimEndOf(s: string, w: string)
    requires AllSpace(w) && (s == [] || !IsSpace(s[|s| - 1]))
    ensures TrimEnd(s + w) == s
  {
    if w == [] {
      assert s + w == s;
    } else {
      assert (s + w)[..|s + w| - 1] == s + w[..|w| - 1];
      TrimEndOf(s, w[..|w| - 1]);
    }
  }

  lemma {:induction false} TrimStartSplit(s: string) returns (w: string)
    ensures s == w + TrimStart(s) && AllSpace(w)
  {
    if s != [] && IsSpace(s[0]) {
      w := TrimStartSplit(s[1..]);
      w := [s[0]] + w;
    } else {
      w := [];
    }
  }

  lemma {:induction false} TrimEndSplit(s: string) returns (w: string)
    ensures s == TrimEnd(s) + w && AllSpace(w)
  {
    if s != [] && IsSpace(s[|s| - 1]) {
      w := TrimEndSplit(s[..|s| - 1]);
      w := w + [s[|s| - 1]];
    } else {
      w := [];
    }
  }

  /** Trimming one side leaves a solid other side alone. */
  lemma TrimEndTail(s: string, t: string)
    requires s != [] && !IsSpace(s[|s| - 1])
    ensures TrimEnd(s + t) == s + TrimEnd(t)
  {
    var w := TrimEndSplit(t);
    assert s + t == (s + TrimEnd(t)) + w;
    TrimEndOf(s + TrimEnd(t), w);
  }

  lemma {:induction false} TrimStartHead(s: string, t: string)
    requires TrimStart(s) != []
    ensures TrimStart(s + t) == TrimStart(s) + t
  {
    if IsSpace(s[0]) {
      assert (s + t)[1..] == s[1..] + t;
      TrimStartHead(s[1..], t);
    }
  }

  lemma {:induction false} TrimEndHead(s: string, t: string)
    requires TrimEnd(t) != []
    ensures TrimEnd(s + t) == s + TrimEnd(t)
  {
    if IsSpace(t[|t| - 1]) {
      assert (s + t)[..|s + t| - 1] == s + t[..|t| - 1];
      TrimEndHead(s, t[..|t| - 1]);
    }
  }

  lemma TrimEmpty(s: string)
    ensures TrimStart(s) == [] <==> AllSpace(s)
    ensures TrimEnd(s) == [] <==> AllSpace(s)
  {
    if AllSpace(s) {
      assert s + [] == s && [] + s == s;
      TrimStartOf(s, []);
      TrimEndOf([], s);
    }
    var v := TrimStartSplit(s);
    var w := TrimEndSplit(s);
    assert v + [] == v && [] + w == w;
  }

  /** The two trims commute. */
  lemma {:induction false} TrimsCommute(s: string)
    ensures TrimStart(TrimEnd(s)) == TrimEnd(TrimStart(s))
  {
    TrimEmpty(s);
    if !AllSpace(s) {
      if IsSpace(s[0]) {
        TrimsCommute(s[1..]);
        TrimSpaceHead(s);
      } else {
        assert TrimEnd(s)[0] == s[0];
      }
    }
  }

  lemma TrimSpaceHead(s: string)
    requires s != [] && IsSpace(s[0]) && !AllSpace(s)
    ensures TrimStart(TrimEnd(s)) == TrimStart(TrimEnd(s[1..]))
    ensures TrimStart(s) == TrimStart(s[1..])
  {
    var t := s[1..];
    assert s == [s[0]] + t;
    assert AllSpace(t) ==> AllSpace(s);
    TrimEmpty(t);
    TrimEndHead([s[0]], t);
    assert ([s[0]] + TrimEnd(t))[1..] == TrimEnd(t);
  }

  function StripPrefix(s: string, p: string): Option<string> {
    if p <= s then Some(s[|p|..]) else None
  }

  function StripCr(line: string): string {
    if line != [] && line[|line| - 1] == '\r' then line[..|line| - 1] else line
  }

  /** `str::lines`. */
  function Lines(s: string): seq<string>
    decreases |s|
  {
    if s == [] then []
    else
      var i := IndexOf(s, '\n');
      if i == |s| then [s] else [StripCr(s[..i])] + Lines(s[i + 1..])
  }

  /** `str::split` on one character. */
  function SplitOn(s: string, c: char): (parts: seq<string>)
    ensures parts != []
    decreases |s|
  {
    var i := IndexOf(s, c);
    if i == |s| then [s] else [s[..i]] + SplitOn(s[i + 1..], c)
  }

  /** `slice::join`. */
  function Join(parts: seq<string>, sep: string): string {
    if parts == [] then []
    else if |parts| == 1 then parts[0]
    else parts[0] + sep + Join(parts[1..], sep)
  }

  /** `replace("\r\n", "\n")`. */
  function NormalizeNewlines(s: string): string {
    if s == [] then []
    else if |s| >= 2 && s[0] == '\r' && s[1] == '\n' then "\n" + NormalizeNewlines(s[2..])
    else [s[0]] + NormalizeNewlines(s[1..])
  }

  /** `replace` of one character by a string. */
  function ReplaceChar(s: string, c: char, sub: string): string {
    if s == [] then [] else (if s[0] == c then sub else [s[0]]) + ReplaceChar(s[1..], c, sub)
  }

  lemma {:induction false} ReplaceCharConcat(a: string, b: string, c: char, sub: string)
    ensures ReplaceChar(a + b, c, sub) == ReplaceChar(a, c, sub) + ReplaceChar(b, c, sub)
  {
    if a == [] {
      assert a + b == b;
    } else {
      assert (a + b)[1..] == a[1..] + b;
      ReplaceCharConcat(a[1..], b, c, sub);
    }
  }
}
