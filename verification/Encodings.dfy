/** The text encodings the gateway puts on the wire, over bytes: decimal numbers, hex
    (section 8 of RFC 4648), unpadded base64url (section 5), and well-formed UTF-8
    (section 4 of RFC 3629). */
module Encodings {
  import opened Prelude

  const DOT: byte := 46
  const U64: nat := 0x1_0000_0000_0000_0000

  /** The bytes of a text of ASCII characters. */
  function Ascii(s: string): bytes
    requires forall i :: 0 <= i < |s| ==> s[i] as int < 128
  {
    seq(|s|, i requires 0 <= i < |s| => s[i] as int)
  }

  // --- decimal ---

  function Decimal(n: nat): (s: bytes)
    ensures s != [] && forall i :: 0 <= i < |s| ==> 48 <= s[i] <= 57
  {
    if n < 10 then [48 + n] else Decimal(n / 10) + [48 + n % 10]
  }

  /** The value of a run of digits, if it fits 64 bits and is one. */
  function Digits(s: bytes): Option<nat> {
    if s == [] then Some(0)
    else
      var high := Digits(s[..|s| - 1]);
      var d := s[|s| - 1];
      if high.None? || !(48 <= d <= 57) || 10 * high.value + d - 48 >= U64 then None
      else Some(10 * high.value + d - 48)
  }

  /** `str::parse::<u64>`: an optional `+`, then at least one digit. */
  function ParseU64(s: bytes): Option<nat> {
    var digits := if s != [] && s[0] == 43 then s[1..] else s;
    if digits == [] then None else Digits(digits)
  }

  lemma {:induction false} DigitsOfDecimal(n: nat)
    requires n < U64
    ensures Digits(Decimal(n)) == Some(n)
  {
    if n >= 10 {
      DigitsOfDecimal(n / 10);
      assert Decimal(n)[..|Decimal(n)| - 1] == Decimal(n / 10);
    } else {
      assert Decimal(n)[..0] == [];
    }
  }

  lemma ParseDecimal(n: nat)
    requires n < U64
    ensures ParseU64(Decimal(n)) == Some(n)
  {
    DigitsOfDecimal(n);
  }

  // --- hex ---

  function HexDigit(d: nat): (c: byte)
    requires d < 16
  {
    if d < 10 then 48 + d else 87 + d
  }

  function HexValue(c: byte): (d: Option<nat>)
    ensures d.Some? ==> d.value < 16
  {
    if 48 <= c <= 57 then Some(c - 48)
    else if 97 <= c <= 102 then Some(c - 87)
    else if 65 <= c <= 70 then Some(c - 55)
    else None
  }

  function Hex(bs: bytes): (s: bytes)
    ensures DOT !in s
    ensures forall c :: c in s ==> 48 <= c <= 57 || 97 <= c <= 102
  {
    if bs == [] then [] else [HexDigit(bs[0] / 16), HexDigit(bs[0] % 16)] + Hex(bs[1..])
  }

  /** Upper and lower case are accepted; the length must be even. */
  function ParseHex(s: bytes): Option<bytes> {
    if s == [] then Some([])
    else if |s| == 1 then None
    else
      var h, l, rest := HexValue(s[0]), HexValue(s[1]), ParseHex(s[2..]);
      if h.None? || l.None? || rest.None? then None else Some([16 * h.value + l.value] + rest.value)
  }

  lemma HexPair(b: byte, rest: bytes)
    ensures ParseHex([HexDigit(b / 16), HexDigit(b % 16)] + rest) ==
              match ParseHex(rest) case None => None case Some(bs) => Some([b] + bs)
  {
    assert ([HexDigit(b / 16), HexDigit(b % 16)] + rest)[2..] == rest;
  }

  lemma {:induction false} ParseOfHex(bs: bytes)
    ensures ParseHex(Hex(bs)) == Some(bs)
  {
    if bs != [] {
      ParseOfHex(bs[1..]);
      HexPair(bs[0], Hex(bs[1..]));
      assert bs == [bs[0]] + bs[1..];
    }
  }

  // --- base64url ---

  function B64Char(d: nat): (c: byte)
    requires d < 64
  {
    if d < 26 then 65 + d else if d < 52 then 71 + d else if d < 62 then d - 4 else if d == 62 then 45 else 95
  }

  function B64Value(c: byte): (d: Option<nat>)
    ensures d.Some? ==> d.value < 64 && B64Char(d.value) == c
    ensures d.None? ==> forall v :: 0 <= v < 64 ==> B64Char(v) != c
  {
    if 65 <= c <= 90 then Some(c - 65)
    else if 97 <= c <= 122 then Some(c - 71)
    else if 48 <= c <= 57 then Some(c + 4)
    else if c == 45 then Some(62)
    else if c == 95 then Some(63)
    else None
  }

  function Base64(bs: bytes): bytes {
    if bs == [] then []
    else if |bs| == 1 then [B64Char(bs[0] / 4), B64Char(bs[0] % 4 * 16)]
    else if |bs| == 2 then
      [B64Char(bs[0] / 4), B64Char(bs[0] % 4 * 16 + bs[1] / 16), B64Char(bs[1] % 16 * 4)]
    else
      [B64Char(bs[0] / 4), B64Char(bs[0] % 4 * 16 + bs[1] / 16),
       B64Char(bs[1] % 16 * 4 + bs[2] / 64), B64Char(bs[2] % 64)] + Base64(bs[3..])
  }

  /** An encoding never holds a dot, and its characters stay among the printable ones. */
  lemma {:induction false} Base64IsPlain(bs: bytes)
    ensures forall c :: c in Base64(bs) ==> 45 <= c <= 122 && c != DOT
  {
    if |bs| > 2 { Base64IsPlain(bs[3..]); }
  }

  /** Padding, foreign characters, a lone last character and left-over bits are errors. */
  function ParseBase64(s: bytes): Option<bytes> {
    if s == [] then Some([])
    else if |s| == 1 then None
    else
      var a, b := B64Value(s[0]), B64Value(s[1]);
      if a.None? || b.None? then None
      else if |s| == 2 then
        if b.value % 16 == 0 then Some([a.value * 4 + b.value / 16]) else None
      else
        var c := B64Value(s[2]);
        if c.None? then None
        else if |s| == 3 then
          if c.value % 4 == 0 then Some([a.value * 4 + b.value / 16, b.value % 16 * 16 + c.value / 4]) else None
        else
          var d, rest := B64Value(s[3]), ParseBase64(s[4..]);
          if d.None? || rest.None? then None
          else Some([a.value * 4 + b.value / 16, b.value % 16 * 16 + c.value / 4, c.value % 4 * 64 + d.value] + rest.value)
  }

  lemma B64Digit(d: nat)
    requires d < 64
    ensures B64Value(B64Char(d)) == Some(d)
  {
  }

  lemma SixBitsOfBytes(a: byte, b: byte, c: byte)
    ensures var d0, d1, d2, d3 := a / 4, a % 4 * 16 + b / 16, b % 16 * 4 + c / 64, c % 64;
            && d0 < 64 && d1 < 64 && d2 < 64
            && d0 * 4 + d1 / 16 == a && d1 % 16 * 16 + d2 / 4 == b && d2 % 4 * 64 + d3 == c
  {
  }

  lemma BytesOfSixBits(d0: nat, d1: nat, d2: nat, d3: nat)
    requires d0 < 64 && d1 < 64 && d2 < 64 && d3 < 64
    ensures var a, b, c := d0 * 4 + d1 / 16, d1 % 16 * 16 + d2 / 4, d2 % 4 * 64 + d3;
            && a / 4 == d0 && a % 4 * 16 + b / 16 == d1 && b % 16 * 4 + c / 64 == d2 && c % 64 == d3
  {
  }

  function Quad(d0: nat, d1: nat, d2: nat, d3: nat): bytes
    requires d0 < 64 && d1 < 64 && d2 < 64 && d3 < 64
  {
    [B64Char(d0), B64Char(d1), B64Char(d2), B64Char(d3)]
  }

  lemma ParseQuad(d0: nat, d1: nat, d2: nat, d3: nat, rest: bytes)
    requires d0 < 64 && d1 < 64 && d2 < 64 && d3 < 64
    ensures ParseBase64(Quad(d0, d1, d2, d3) + rest) ==
              if ParseBase64(rest).None? then None
              else Some([d0 * 4 + d1 / 16, d1 % 16 * 16 + d2 / 4, d2 % 4 * 64 + d3] + ParseBase64(rest).value)
  {
    B64Digit(d0);
    B64Digit(d1);
    B64Digit(d2);
    B64Digit(d3);
    assert (Quad(d0, d1, d2, d3) + rest)[4..] == rest;
  }

  lemma EncodeTriple(a: byte, b: byte, c: byte, rest: bytes)
    ensures Base64([a, b, c] + rest)
         == Quad(a / 4, a % 4 * 16 + b / 16, b % 16 * 4 + c / 64, c % 64) + Base64(rest)
  {
    assert ([a, b, c] + rest)[3..] == rest;
  }

  lemma ParseOfStep(a: byte, b: byte, c: byte, rest: bytes)
    requires ParseBase64(Base64(rest)) == Some(rest)
    ensures ParseBase64(Base64([a, b, c] + rest)) == Some([a, b, c] + rest)
  {
    SixBitsOfBytes(a, b, c);
    EncodeTriple(a, b, c, rest);
    ParseQuad(a / 4, a % 4 * 16 + b / 16, b % 16 * 4 + c / 64, c % 64, Base64(rest));
  }

  lemma ParsePair(a: byte)
    ensures ParseBase64([B64Char(a / 4), B64Char(a % 4 * 16)]) == Some([a])
  {
    SixBitsOfBytes(a, 0, 0);
    B64Digit(a / 4);
    B64Digit(a % 4 * 16);
  }

  lemma ParseTriple(a: byte, b: byte)
    ensures ParseBase64([B64Char(a / 4), B64Char(a % 4 * 16 + b / 16), B64Char(b % 16 * 4)]) == Some([a, b])
  {
    SixBitsOfBytes(a, b, 0);
    B64Digit(a / 4);
    B64Digit(a % 4 * 16 + b / 16);
    B64Digit(b % 16 * 4);
  }

  lemma {:induction false} ParseOfBase64(bs: bytes)
    ensures ParseBase64(Base64(bs)) == Some(bs)
  {
    if |bs| == 1 {
      ParsePair(bs[0]);
      assert bs == [bs[0]];
    } else if |bs| == 2 {
      ParseTriple(bs[0], bs[1]);
      assert bs == [bs[0], bs[1]];
    } else if bs != [] {
      ParseOfBase64(bs[3..]);
      ParseOfStep(bs[0], bs[1], bs[2], bs[3..]);
      assert bs == [bs[0], bs[1], bs[2]] + bs[3..];
    }
  }

  lemma PairOfParse(s: bytes)
    requires |s| == 2 && ParseBase64(s).Some?
    ensures Base64(ParseBase64(s).value) == s
  {
    BytesOfSixBits(B64Value(s[0]).value, B64Value(s[1]).value, 0, 0);
    assert s == [s[0], s[1]];
  }

  lemma TripleOfParse(s: bytes)
    requires |s| == 3 && ParseBase64(s).Some?
    ensures Base64(ParseBase64(s).value) == s
  {
    var a, b, c := B64Value(s[0]).value, B64Value(s[1]).value, B64Value(s[2]).value;
    BytesOfSixBits(a, b, c, 0);
    ThreeParsed(s, a, b, c);
    TwoEncoded(a * 4 + b / 16, b % 16 * 16 + c / 4);
    assert s == [s[0], s[1], s[2]];
  }

  lemma ThreeParsed(s: bytes, a: nat, b: nat, c: nat)
    requires |s| == 3 && ParseBase64(s).Some?
    requires B64Value(s[0]) == Some(a) && B64Value(s[1]) == Some(b) && B64Value(s[2]) == Some(c)
    ensures a < 64 && b < 64 && c < 64 && c % 4 == 0
    ensures ParseBase64(s) == Some([a * 4 + b / 16, b % 16 * 16 + c / 4])
  {
  }

  lemma TwoEncoded(x: byte, y: byte)
    ensures Base64([x, y]) == [B64Char(x / 4), B64Char(x % 4 * 16 + y / 16), B64Char(y % 16 * 4)]
  {
  }

  /** The decoder accepts nothing but encodings. */
  lemma {:induction false} Base64OfParse(s: bytes)
    requires ParseBase64(s).Some?
    ensures Base64(ParseBase64(s).value) == s
  {
    if |s| == 2 {
      PairOfParse(s);
    } else if |s| == 3 {
      TripleOfParse(s);
    } else if s != [] {
      Base64OfParse(s[4..]);
      assert s == [s[0], s[1], s[2], s[3]] + s[4..];
      StepOfParse(s[0], s[1], s[2], s[3], s[4..]);
    }
  }

  lemma StepOfParse(c0: byte, c1: byte, c2: byte, c3: byte, rest: bytes)
    requires ParseBase64([c0, c1, c2, c3] + rest).Some?
    requires ParseBase64(rest).Some? ==> Base64(ParseBase64(rest).value) == rest
    ensures Base64(ParseBase64([c0, c1, c2, c3] + rest).value) == [c0, c1, c2, c3] + rest
  {
    FourDigits(c0, c1, c2, c3, rest);
    var a, b, c, d := B64Value(c0).value, B64Value(c1).value, B64Value(c2).value, B64Value(c3).value;
    assert [c0, c1, c2, c3] == Quad(a, b, c, d);
    QuadEncodesBack(a, b, c, d, rest);
  }

  lemma FourDigits(c0: byte, c1: byte, c2: byte, c3: byte, rest: bytes)
    requires ParseBase64([c0, c1, c2, c3] + rest).Some?
    ensures B64Value(c0).Some? && B64Value(c1).Some? && B64Value(c2).Some? && B64Value(c3).Some?
    ensures ParseBase64(rest).Some?
  {
    var s := [c0, c1, c2, c3] + rest;
    assert s[0] == c0 && s[1] == c1 && s[2] == c2 && s[3] == c3 && s[4..] == rest;
  }

  lemma QuadEncodesBack(a: nat, b: nat, c: nat, d: nat, rest: bytes)
    requires a < 64 && b < 64 && c < 64 && d < 64
    requires ParseBase64(rest).Some? && Base64(ParseBase64(rest).value) == rest
    ensures ParseBase64(Quad(a, b, c, d) + rest).Some?
    ensures Base64(ParseBase64(Quad(a, b, c, d) + rest).value) == Quad(a, b, c, d) + rest
  {
    ParseQuad(a, b, c, d, rest);
    BytesOfSixBits(a, b, c, d);
    EncodeTriple(a * 4 + b / 16, b % 16 * 16 + c / 4, c % 4 * 64 + d, ParseBase64(rest).value);
  }

  // --- UTF-8 ---

  predicate Tail(b: byte) {
    0x80 <= b <= 0xBF
  }

  predicate IsUtf8(s: bytes) {
    s == []
    || (s[0] <= 0x7F && IsUtf8(s[1..]))
    || (|s| >= 2 && 0xC2 <= s[0] <= 0xDF && Tail(s[1]) && IsUtf8(s[2..]))
    || (|s| >= 3 && 0xE0 <= s[0] <= 0xEF && Tail(s[1]) && Tail(s[2])
        && (s[0] == 0xE0 ==> s[1] >= 0xA0) && (s[0] == 0xED ==> s[1] <= 0x9F) && IsUtf8(s[3..]))
    || (|s| >= 4 && 0xF0 <= s[0] <= 0xF4 && Tail(s[1]) && Tail(s[2]) && Tail(s[3])
        && (s[0] == 0xF0 ==> s[1] >= 0x90) && (s[0] == 0xF4 ==> s[1] <= 0x8F) && IsUtf8(s[4..]))
  }

  // --- known encodings ---

  lemma TenTimes(n: nat, d: nat)
    requires n > 0 && d < 10
    ensures Decimal(10 * n + d) == Decimal(n) + [48 + d]
  {
  }

  /** Decimal digits and lower-case hex digits. */
  lemma KnownNumbers()
    ensures Decimal(1048) == Ascii("1048")
    ensures Hex([0x09, 0xaf]) == Ascii("09af")
  {
    TenTimes(1, 0);
    TenTimes(10, 4);
    TenTimes(104, 8);
    assert Hex([0x09, 0xaf][1..]) == [97, 102];
  }

  /** The URL-safe alphabet of section 5 of RFC 4648, without padding. */
  lemma KnownBase64()
    ensures Base64([0x00, 0x10, 0x83]) == Ascii("ABCD") && Base64([0x65, 0xa6, 0xdc]) == Ascii("Zabc")
    ensures Base64([0xc7, 0x2c, 0xf4]) == Ascii("xyz0") && Base64([0xf3, 0xdf, 0xbf]) == Ascii("89-_")
  {
    KnownQuad(0x00, 0x10, 0x83, "ABCD");
    KnownQuad(0x65, 0xa6, 0xdc, "Zabc");
    KnownQuad(0xc7, 0x2c, 0xf4, "xyz0");
    KnownQuad(0xf3, 0xdf, 0xbf, "89-_");
  }

  lemma KnownQuad(a: byte, b: byte, c: byte, text: string)
    requires |text| == 4 && (forall i :: 0 <= i < 4 ==> text[i] as int < 128)
    requires B64Char(a / 4) == text[0] as int && B64Char(a % 4 * 16 + b / 16) == text[1] as int
    requires B64Char(b % 16 * 4 + c / 64) == text[2] as int && B64Char(c % 64) == text[3] as int
    ensures Base64([a, b, c]) == Ascii(text)
  {
    EncodeTriple(a, b, c, []);
    assert [a, b, c] + [] == [a, b, c];
  }

  lemma KnownEnds()
    ensures Base64([0xff]) == Ascii("_w") && Base64([0xff, 0xff]) == Ascii("__8")
  {
  }
}
