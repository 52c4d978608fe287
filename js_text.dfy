/** JavaScript strings as sequences of UTF-16 code units, the unit on which
    `btoa`, `atob`, `JSON.stringify` and `JSON.parse` are defined. */
module JsText {

  /** One UTF-16 code unit. */
  type CodeUnit = c: int | 0 <= c < 0x1_0000

  type JsString = seq<CodeUnit>

  /** True of Dafny strings every character of which fits in one code unit. */
  predicate IsBmp(s: string) {
    forall i | 0 <= i < |s| :: s[i] as int < 0x1_0000
  }

  /** The code units of a string literal of the model. */
  function Units(s: string): (r: JsString)
    requires IsBmp(s)
    ensures |r| == |s|
    ensures forall i | 0 <= i < |s| :: r[i] == s[i] as int
  {
    seq(|s|, i requires 0 <= i < |s| => s[i] as int)
  }

  /** Every code unit is at most U+00FF: the strings `btoa` accepts. */
  predicate IsLatin1(s: JsString) {
    forall i | 0 <= i < |s| :: s[i] <= 0xFF
  }

  lemma Latin1Concat(a: JsString, b: JsString)
    ensures IsLatin1(a + b) <==> IsLatin1(a) && IsLatin1(b)
  {
    if IsLatin1(a) && IsLatin1(b) {
      forall i | 0 <= i < |a + b| ensures (a + b)[i] <= 0xFF {
        if i >= |a| {
          assert (a + b)[i] == b[i - |a|];
        }
      }
    }
    if IsLatin1(a + b) {
      forall i | 0 <= i < |b| ensures b[i] <= 0xFF {
        assert (a + b)[|a| + i] == b[i];
      }
      forall i | 0 <= i < |a| ensures a[i] <= 0xFF {
        assert (a + b)[i] == a[i];
      }
    }
  }

  // Code units with a role in the formats of the model.
  const Tab: CodeUnit := 0x09
  const LineFeed: CodeUnit := 0x0A
  const FormFeed: CodeUnit := 0x0C
  const CarriageReturn: CodeUnit := 0x0D
  const Space: CodeUnit := 0x20
  const QuotationMark: CodeUnit := 0x22
  const Plus: CodeUnit := 0x2B
  const Comma: CodeUnit := 0x2C
  const Minus: CodeUnit := 0x2D
  const FullStop: CodeUnit := 0x2E
  const Solidus: CodeUnit := 0x2F
  const Colon: CodeUnit := 0x3A
  const EqualsSign: CodeUnit := 0x3D
  const LeftSquareBracket: CodeUnit := 0x5B
  const ReverseSolidus: CodeUnit := 0x5C
  const RightSquareBracket: CodeUnit := 0x5D
  const LeftCurlyBracket: CodeUnit := 0x7B
  const RightCurlyBracket: CodeUnit := 0x7D

  predicate IsDigit(c: CodeUnit) { 0x30 <= c <= 0x39 }
}
