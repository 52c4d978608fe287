/** The `btoa` and `atob` globals of the web platform.

    `btoa` is the Base64 encoding of section 4 of RFC 4648 (alphabet A-Z a-z
    0-9 + /, padding `=`) applied to a "binary string", whose code units are
    bytes; it throws an InvalidCharacterError when a code unit is above U+00FF.
    `atob` is the "forgiving-base64 decode" of the WHATWG Infra standard:
    ASCII whitespace is dropped, one or two trailing `=` are dropped when the
    length is a multiple of four, and the rest must be alphabet characters
    whose count is not one more than a multiple of four. */
module Base64 {
  import opened Wrappers
  import opened JsText

  type Byte = b: int | 0 <= b < 0x100
  type Sextet = v: int | 0 <= v < 64

  /** The DOMException both functions throw. */
  datatype DomError = InvalidCharacterError

  predicate InAlphabet(c: CodeUnit) {
    || 0x41 <= c <= 0x5A   // A-Z
    || 0x61 <= c <= 0x7A   // a-z
    || 0x30 <= c <= 0x39   // 0-9
    || c == Plus
    || c == Solidus
  }

  predicate AllInAlphabet(s: JsString) {
    forall i | 0 <= i < |s| :: InAlphabet(s[i])
  }

  /** The alphabet character of a 6-bit value (Table 1 of RFC 4648). */
  function Char(v: Sextet): (c: CodeUnit)
    ensures InAlphabet(c) && ValueOf(c) == v
  {
    if v < 26 then 0x41 + v
    else if v < 52 then 0x61 + (v - 26)
    else if v < 62 then 0x30 + (v - 52)
    else if v == 62 then Plus
    else Solidus
  }

  /** The 6-bit value of an alphabet character. */
  function ValueOf(c: CodeUnit): Sextet
    requires InAlphabet(c)
  {
    if 0x41 <= c <= 0x5A then c - 0x41
    else if 0x61 <= c <= 0x7A then c - 0x61 + 26
    else if 0x30 <= c <= 0x39 then c - 0x30 + 52
    else if c == Plus then 62
    else 63
  }

  /** The four characters of a full 24-bit group. */
  function EncodeTriple(x: Byte, y: Byte, z: Byte): (r: JsString)
    ensures |r| == 4 && AllInAlphabet(r)
  {
    [Char(x / 4), Char(x % 4 * 16 + y / 16), Char(y % 16 * 4 + z / 64), Char(z % 64)]
  }

  /** The three characters of a final 16-bit group. */
  function EncodePair(x: Byte, y: Byte): (r: JsString)
    ensures |r| == 3 && AllInAlphabet(r)
  {
    [Char(x / 4), Char(x % 4 * 16 + y / 16), Char(y % 16 * 4)]
  }

  /** The two characters of a final 8-bit group. */
  function EncodeSingle(x: Byte): (r: JsString)
    ensures |r| == 2 && AllInAlphabet(r)
  {
    [Char(x / 4), Char(x % 4 * 16)]
  }

  /** The encoding without padding: each 24-bit group gives four characters,
      a final group of 8 bits two, one of 16 bits three. */
  function EncodeGroups(b: seq<Byte>): (r: JsString)
    ensures AllInAlphabet(r)
    ensures |b| > 0 ==> |r| > 0
    ensures |r| % 4 == (if |b| % 3 == 0 then 0 else |b| % 3 + 1)
    ensures |r| == |b| / 3 * 4 + (if |b| % 3 == 0 then 0 else |b| % 3 + 1)
  {
    if |b| == 0 then []
    else if |b| == 1 then EncodeSingle(b[0])
    else if |b| == 2 then EncodePair(b[0], b[1])
    else
      var q, rest := EncodeTriple(b[0], b[1], b[2]), EncodeGroups(b[3..]);
      AlphabetConcat(q, rest);
      q + rest
  }

  lemma AlphabetConcat(p: JsString, q: JsString)
    requires AllInAlphabet(p) && AllInAlphabet(q)
    ensures AllInAlphabet(p + q)
  {
    forall i | 0 <= i < |p + q| ensures InAlphabet((p + q)[i]) {
      if i < |p| { assert (p + q)[i] == p[i]; } else { assert (p + q)[i] == q[i - |p|]; }
    }
  }

  /** The `=` characters that complete the final group to four characters. */
  function Padding(n: nat): JsString {
    if n % 3 == 1 then [EqualsSign, EqualsSign]
    else if n % 3 == 2 then [EqualsSign]
    else []
  }

  function Encode(b: seq<Byte>): (r: JsString)
    ensures |r| == 4 * ((|b| + 2) / 3)
  {
    EncodeGroups(b) + Padding(|b|)
  }

  /** Alphabet characters and padding only. */
  predicate IsEncoding(s: JsString) {
    forall i | 0 <= i < |s| :: InAlphabet(s[i]) || s[i] == EqualsSign
  }

  lemma EncodingIsLatin1(s: JsString)
    requires IsEncoding(s)
    ensures IsLatin1(s)
  {
  }

  /** `btoa(s)`. */
  function Btoa(s: JsString): (r: Result<JsString, DomError>)
    ensures r.Success? <==> IsLatin1(s)
    ensures r.Success? ==> |r.value| % 4 == 0 && IsEncoding(r.value)
    ensures r.Success? ==> |r.value| == 4 * ((|s| + 2) / 3)
    ensures r.Success? ==> (|r.value| == 0 <==> |s| == 0)
  {
    if IsLatin1(s) then Success(Encode(s)) else Failure(InvalidCharacterError)
  }

  predicate IsAsciiWhitespace(c: CodeUnit) {
    c == Tab || c == LineFeed || c == FormFeed || c == CarriageReturn || c == Space
  }

  function RemoveWhitespace(s: JsString): (r: JsString)
    ensures forall i | 0 <= i < |r| :: !IsAsciiWhitespace(r[i])
  {
    if |s| == 0 then []
    else if IsAsciiWhitespace(s[0]) then RemoveWhitespace(s[1..])
    else [s[0]] + RemoveWhitespace(s[1..])
  }

  /** Step 2 of forgiving-base64 decode. */
  function StripPadding(s: JsString): JsString {
    if |s| % 4 == 0 && |s| >= 2 && s[|s| - 1] == EqualsSign && s[|s| - 2] == EqualsSign then s[..|s| - 2]
    else if |s| % 4 == 0 && |s| >= 1 && s[|s| - 1] == EqualsSign then s[..|s| - 1]
    else s
  }

  /** The three bytes of four alphabet characters. */
  function DecodeQuad(a: Sextet, b: Sextet, c: Sextet, d: Sextet): seq<Byte> {
    [a * 4 + b / 16, b % 16 * 16 + c / 4, c % 4 * 64 + d]
  }

  /** Step 5 of forgiving-base64 decode: groups of four characters give three
      bytes; a final group of three characters gives two bytes and one of two
      characters one byte, the leftover low bits being discarded. */
  function DecodeGroups(s: JsString): (r: seq<Byte>)
    requires AllInAlphabet(s) && |s| % 4 != 1
  {
    if |s| == 0 then []
    else if |s| == 2 then
      DecodeQuad(ValueOf(s[0]), ValueOf(s[1]), 0, 0)[..1]
    else if |s| == 3 then
      DecodeQuad(ValueOf(s[0]), ValueOf(s[1]), ValueOf(s[2]), 0)[..2]
    else
      DecodeQuad(ValueOf(s[0]), ValueOf(s[1]), ValueOf(s[2]), ValueOf(s[3])) + DecodeGroups(s[4..])
  }

  /** `atob(s)`: the decoded bytes as a binary string. */
  function Atob(s: JsString): (r: Result<JsString, DomError>)
    ensures r.Success? ==> IsLatin1(r.value)
  {
    var d := StripPadding(RemoveWhitespace(s));
    if |d| % 4 == 1 || !AllInAlphabet(d) then Failure(InvalidCharacterError)
    else Success(DecodeGroups(d))
  }

  lemma TripleRoundTrip(x: Byte, y: Byte, z: Byte)
    ensures DecodeQuad(x / 4, x % 4 * 16 + y / 16, y % 16 * 4 + z / 64, z % 64) == [x, y, z]
  {
    assert (x % 4 * 16 + y / 16) / 16 == x % 4;
    assert (x % 4 * 16 + y / 16) % 16 == y / 16;
    assert (y % 16 * 4 + z / 64) / 4 == y % 16;
    assert (y % 16 * 4 + z / 64) % 4 == z / 64;
  }

  /** A full group decodes to the three bytes it encodes. */
  lemma TripleDecodes(x: Byte, y: Byte, z: Byte)
    ensures DecodeGroups(EncodeTriple(x, y, z)) == [x, y, z]
  {
    var q := EncodeTriple(x, y, z);
    assert q[4..] == [];
    assert ValueOf(q[0]) == x / 4 && ValueOf(q[1]) == x % 4 * 16 + y / 16;
    assert ValueOf(q[2]) == y % 16 * 4 + z / 64 && ValueOf(q[3]) == z % 64;
    TripleRoundTrip(x, y, z);
  }

  /** Decoding splits after a leading group of four characters. */
  lemma DecodeAfterQuad(q: JsString, s: JsString)
    requires |q| == 4 && AllInAlphabet(q) && AllInAlphabet(s) && |s| % 4 != 1
    ensures AllInAlphabet(q + s) && |q + s| % 4 != 1
    ensures DecodeGroups(q + s) == DecodeGroups(q) + DecodeGroups(s)
  {
    var e := q + s;
    assert e[4..] == s && q[4..] == [];
    assert e[0] == q[0] && e[1] == q[1] && e[2] == q[2] && e[3] == q[3];
  }

  lemma {:induction false} DecodeEncodeGroups(b: seq<Byte>)
    ensures |EncodeGroups(b)| % 4 != 1
    ensures DecodeGroups(EncodeGroups(b)) == b
    decreases |b|
  {
    if |b| == 1 {
      TripleRoundTrip(b[0], 0, 0);
    } else if |b| == 2 {
      TripleRoundTrip(b[0], b[1], 0);
    } else if |b| >= 3 {
      DecodeEncodeGroups(b[3..]);
      GroupStep(b);
    }
  }

  /** The inductive step: a decoded first group followed by the rest. */
  lemma GroupStep(b: seq<Byte>)
    requires |b| >= 3 && |EncodeGroups(b[3..])| % 4 != 1
    requires DecodeGroups(EncodeGroups(b[3..])) == b[3..]
    ensures |EncodeGroups(b)| % 4 != 1
    ensures DecodeGroups(EncodeGroups(b)) == b
  {
    var q := EncodeTriple(b[0], b[1], b[2]);
    assert EncodeGroups(b) == q + EncodeGroups(b[3..]);
    DecodeAfterQuad(q, EncodeGroups(b[3..]));
    TripleDecodes(b[0], b[1], b[2]);
    assert [b[0], b[1], b[2]] + b[3..] == b;
  }

  /** Every character of an encoding is in the alphabet or is padding. */
  lemma EncodingCharacters(b: seq<Byte>)
    ensures forall i | 0 <= i < |Encode(b)| :: InAlphabet(Encode(b)[i]) || Encode(b)[i] == EqualsSign
  {
    var g, p := EncodeGroups(b), Padding(|b|);
    var e := g + p;
    forall i | 0 <= i < |e| ensures InAlphabet(e[i]) || e[i] == EqualsSign {
      if i < |g| { assert e[i] == g[i]; } else { assert e[i] == p[i - |g|]; }
    }
  }

  lemma StripPaddingOfEncoding(b: seq<Byte>)
    ensures StripPadding(RemoveWhitespace(Encode(b))) == EncodeGroups(b)
  {
    EncodingCharacters(b);
    NoWhitespaceUnchanged(Encode(b));
    if |b| % 3 == 0 {
      StripNoPadding(b);
    } else if |b| % 3 == 1 {
      StripTwoPads(b);
    } else {
      StripOnePad(b);
    }
  }

  lemma StripNoPadding(b: seq<Byte>)
    requires |b| % 3 == 0
    ensures StripPadding(Encode(b)) == EncodeGroups(b)
  {
    var g := EncodeGroups(b);
    assert Encode(b) == g && |g| % 4 == 0;
    assert |g| > 0 ==> InAlphabet(g[|g| - 1]);
  }

  lemma StripTwoPads(b: seq<Byte>)
    requires |b| % 3 == 1
    ensures StripPadding(Encode(b)) == EncodeGroups(b)
  {
    StripPaddingPair(EncodeGroups(b));
  }

  lemma StripOnePad(b: seq<Byte>)
    requires |b| % 3 == 2
    ensures StripPadding(Encode(b)) == EncodeGroups(b)
  {
    StripPaddingSingle(EncodeGroups(b));
  }

  lemma StripPaddingPair(g: JsString)
    requires |g| % 4 == 2
    ensures StripPadding(g + [EqualsSign, EqualsSign]) == g
  {
    var e := g + [EqualsSign, EqualsSign];
    assert |e| % 4 == 0;
    assert e[|e| - 1] == EqualsSign && e[|e| - 2] == EqualsSign;
    assert e[..|e| - 2] == g;
  }

  lemma StripPaddingSingle(g: JsString)
    requires |g| % 4 == 3 && AllInAlphabet(g)
    ensures StripPadding(g + [EqualsSign]) == g
  {
    var e := g + [EqualsSign];
    assert |e| % 4 == 0;
    assert e[|e| - 1] == EqualsSign && e[|e| - 2] == g[|g| - 1];
    assert InAlphabet(g[|g| - 1]);
    assert e[..|e| - 1] == g;
  }

  lemma {:induction false} NoWhitespaceUnchanged(s: JsString)
    requires forall i | 0 <= i < |s| :: InAlphabet(s[i]) || s[i] == EqualsSign
    ensures RemoveWhitespace(s) == s
    decreases |s|
  {
    if |s| > 0 {
      NoWhitespaceUnchanged(s[1..]);
      assert [s[0]] + s[1..] == s;
    }
  }

  /** `atob(btoa(s)) == s` for every string `btoa` accepts. */
  lemma AtobBtoa(s: JsString)
    requires IsLatin1(s)
    ensures Btoa(s).Success? && Atob(Btoa(s).value) == Success(s)
  {
    StripPaddingOfEncoding(s);
    DecodeEncodeGroups(s);
  }

  /** A string with a character outside the alphabet (other than whitespace
      and final padding) is refused. */
  lemma AtobRejectsForeignCharacter(s: JsString, i: nat)
    requires i < |s| && !InAlphabet(s[i]) && !IsAsciiWhitespace(s[i]) && s[i] != EqualsSign
    ensures Atob(s).Failure?
  {
    ForeignSurvivesWhitespace(s, i);
    var w := RemoveWhitespace(s);
    var k :| 0 <= k < |w| && w[k] == s[i];
    var d := StripPadding(w);
    assert k < |d| && d[k] == s[i];
  }

  lemma {:induction false} ForeignSurvivesWhitespace(s: JsString, i: nat)
    requires i < |s| && !IsAsciiWhitespace(s[i])
    ensures exists k :: 0 <= k < |RemoveWhitespace(s)| && RemoveWhitespace(s)[k] == s[i]
    decreases i
  {
    if i == 0 {
      assert RemoveWhitespace(s)[0] == s[0];
    } else {
      ForeignSurvivesWhitespace(s[1..], i - 1);
      var k :| 0 <= k < |RemoveWhitespace(s[1..])| && RemoveWhitespace(s[1..])[k] == s[1..][i - 1];
      if IsAsciiWhitespace(s[0]) {
        assert RemoveWhitespace(s)[k] == s[i];
      } else {
        assert RemoveWhitespace(s)[k + 1] == s[i];
      }
    }
  }
}
