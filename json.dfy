/** `JSON.stringify` and `JSON.parse` over the JSON texts of RFC 8259.

    A parsed number is kept as the exact decimal value it denotes; rounding to
    an IEEE 754 double is not modelled. An object keeps its members in text
    order, and a property read returns the value of the last member with that
    key, as an object built by `JSON.parse` does. */
module Json {
  import opened Wrappers
  import opened JsText

  datatype Json =
    | JNull
    | JBool(b: bool)
    | JNumber(n: real)
    | JString(s: JsString)
    | JArray(items: seq<Json>)
    | JObject(members: seq<Member>)

  datatype Member = Member(key: JsString, value: Json)

  /** The value of property `key` of an object with members `ms`. */
  function Get(ms: seq<Member>, key: JsString): (r: Option<Json>)
    ensures r.Some? <==> exists i :: 0 <= i < |ms| && ms[i].key == key
    ensures r.Some? ==> exists i :: 0 <= i < |ms| && ms[i] == Member(key, r.value)
    decreases |ms|
  {
    if |ms| == 0 then None
    else if ms[|ms| - 1].key == key then Some(ms[|ms| - 1].value)
    else
      var r := Get(ms[..|ms| - 1], key);
      assert forall i | 0 <= i < |ms| - 1 :: ms[..|ms| - 1][i] == ms[i];
      r
  }

  // ---------------------------------------------------------------------
  // JSON.stringify
  // ---------------------------------------------------------------------

  /** The values whose text the model writes: every number is an integer. */
  predicate Serializable(j: Json)
    decreases j
  {
    match j
    case JNumber(n) => n == n.Floor as real
    case JArray(items) => forall i | 0 <= i < |items| :: Serializable(items[i])
    case JObject(ms) => forall i | 0 <= i < |ms| :: SerializableMember(ms[i])
    case _ => true
  }

  predicate SerializableMember(m: Member)
    decreases m
  {
    Serializable(m.value)
  }

  predicate IsHighSurrogate(c: CodeUnit) { 0xD800 <= c <= 0xDBFF }
  predicate IsLowSurrogate(c: CodeUnit) { 0xDC00 <= c <= 0xDFFF }

  function HexDigit(v: int): (c: CodeUnit)
    requires 0 <= v < 16
    ensures HexValue(c) == Some(v)
  {
    if v < 10 then 0x30 + v else 0x61 + (v - 10)
  }

  /** `\uXXXX` with lower-case hexadecimal digits. */
  function UnicodeEscape(c: CodeUnit): JsString {
    [ReverseSolidus, 0x75, HexDigit(c / 0x1000), HexDigit(c % 0x1000 / 0x100), HexDigit(c % 0x100 / 0x10), HexDigit(c % 0x10)]
  }

  /** The text of one code unit that is not part of a surrogate pair. */
  function EscapeUnit(c: CodeUnit): JsString {
    if c == 0x08 then [ReverseSolidus, 0x62]                   // \b
    else if c == Tab then [ReverseSolidus, 0x74]               // \t
    else if c == LineFeed then [ReverseSolidus, 0x6E]          // \n
    else if c == FormFeed then [ReverseSolidus, 0x66]          // \f
    else if c == CarriageReturn then [ReverseSolidus, 0x72]    // \r
    else if c == QuotationMark then [ReverseSolidus, QuotationMark]
    else if c == ReverseSolidus then [ReverseSolidus, ReverseSolidus]
    else if c < 0x20 || IsHighSurrogate(c) || IsLowSurrogate(c) then UnicodeEscape(c)
    else [c]
  }

  /** The body of a quoted string: a surrogate pair is written as it is, every
      other unit through EscapeUnit, so a lone surrogate becomes `\uXXXX`. */
  function Escape(s: JsString): JsString
    decreases |s|
  {
    if |s| == 0 then []
    else if |s| >= 2 && IsHighSurrogate(s[0]) && IsLowSurrogate(s[1]) then [s[0], s[1]] + Escape(s[2..])
    else EscapeUnit(s[0]) + Escape(s[1..])
  }

  function Quote(s: JsString): JsString {
    [QuotationMark] + Escape(s) + [QuotationMark]
  }

  /** The decimal digits of a natural number, without leading zeros. */
  function DecimalDigits(n: nat): (r: JsString)
    ensures |r| > 0 && forall i | 0 <= i < |r| :: IsDigit(r[i])
    ensures n > 0 ==> r[0] != 0x30
    ensures n == 0 ==> r == [0x30]
  {
    if n < 10 then [0x30 + n] else DecimalDigits(n / 10) + [0x30 + n % 10]
  }

  function IntegerText(i: int): JsString {
    if i < 0 then [Minus] + DecimalDigits(-i) else DecimalDigits(i)
  }

  predicate IsJsonWhitespace(c: CodeUnit) {
    c == Space || c == Tab || c == LineFeed || c == CarriageReturn
  }

  /** A unit that can begin the text of a value. */
  predicate OpensValue(c: CodeUnit) {
    !IsJsonWhitespace(c) && c != RightSquareBracket && c != RightCurlyBracket
  }

  /** `JSON.stringify(j)` with no replacer and no indentation. */
  function Stringify(j: Json): (r: JsString)
    requires Serializable(j)
    ensures |r| > 0 && OpensValue(r[0])
    decreases j
  {
    match j
    case JNull => Units("null")
    case JBool(b) => if b then Units("true") else Units("false")
    case JNumber(n) => IntegerText(n.Floor)
    case JString(s) => Quote(s)
    case JArray(items) => [LeftSquareBracket] + StringifyItems(items) + [RightSquareBracket]
    case JObject(ms) => [LeftCurlyBracket] + StringifyMembers(ms) + [RightCurlyBracket]
  }

  function StringifyItems(items: seq<Json>): (r: JsString)
    requires forall i | 0 <= i < |items| :: Serializable(items[i])
    ensures |items| > 0 ==> |r| > 0 && OpensValue(r[0])
    decreases items
  {
    if |items| == 0 then []
    else if |items| == 1 then Stringify(items[0])
    else Stringify(items[0]) + [Comma] + StringifyItems(items[1..])
  }

  function StringifyMembers(ms: seq<Member>): (r: JsString)
    requires forall i | 0 <= i < |ms| :: SerializableMember(ms[i])
    ensures |ms| > 0 ==> |r| > 0 && r[0] == QuotationMark
    decreases ms
  {
    if |ms| == 0 then []
    else if |ms| == 1 then StringifyMember(ms[0])
    else StringifyMember(ms[0]) + [Comma] + StringifyMembers(ms[1..])
  }

  function StringifyMember(m: Member): (r: JsString)
    requires SerializableMember(m)
    ensures |r| > 0 && r[0] == QuotationMark
    decreases m
  {
    Quote(m.key) + [Colon] + Stringify(m.value)
  }

  // ---------------------------------------------------------------------
  // JSON.parse
  // ---------------------------------------------------------------------

  function SkipWhitespace(s: JsString): (r: JsString)
    ensures |r| <= |s|
    ensures |r| > 0 ==> !IsJsonWhitespace(r[0])
  {
    if |s| > 0 && IsJsonWhitespace(s[0]) then SkipWhitespace(s[1..]) else s
  }

  function HexValue(c: CodeUnit): (r: Option<int>)
    ensures r.Some? ==> 0 <= r.value < 16
  {
    if 0x30 <= c <= 0x39 then Some(c - 0x30)
    else if 0x61 <= c <= 0x66 then Some(c - 0x61 + 10)
    else if 0x41 <= c <= 0x46 then Some(c - 0x41 + 10)
    else None
  }

  /** The four hexadecimal digits of a `\\u` escape. */
  function ParseHex4(s: JsString): (r: Option<(CodeUnit, JsString)>)
    ensures r.Some? ==> |r.value.1| < |s|
  {
    if |s| >= 4 && HexValue(s[0]).Some? && HexValue(s[1]).Some? && HexValue(s[2]).Some? && HexValue(s[3]).Some? then
      Some((HexValue(s[0]).value * 0x1000 + HexValue(s[1]).value * 0x100 + HexValue(s[2]).value * 0x10 + HexValue(s[3]).value, s[4..]))
    else None
  }

  /** The escape after a reverse solidus: the unit it stands for and the rest. */
  function ParseEscape(s: JsString): (r: Option<(CodeUnit, JsString)>)
    ensures r.Some? ==> |r.value.1| < |s|
  {
    if |s| == 0 then None
    else if s[0] == QuotationMark then Some((QuotationMark, s[1..]))
    else if s[0] == ReverseSolidus then Some((ReverseSolidus, s[1..]))
    else if s[0] == Solidus then Some((Solidus, s[1..]))
    else if s[0] == 0x62 then Some((0x08, s[1..]))
    else if s[0] == 0x66 then Some((FormFeed, s[1..]))
    else if s[0] == 0x6E then Some((LineFeed, s[1..]))
    else if s[0] == 0x72 then Some((CarriageReturn, s[1..]))
    else if s[0] == 0x74 then Some((Tab, s[1..]))
    else if s[0] == 0x75 then ParseHex4(s[1..])
    else None
  }

  /** The characters of a string after its opening quotation mark, up to and
      excluding its closing one. */
  function ParseStringBody(s: JsString): (r: Option<(JsString, JsString)>)
    ensures r.Some? ==> |r.value.1| < |s|
    decreases |s|
  {
    if |s| == 0 then None
    else if s[0] == QuotationMark then Some(([], s[1..]))
    else if s[0] == ReverseSolidus then
      match ParseEscape(s[1..])
      case None => None
      case Some((c, rest)) =>
        match ParseStringBody(rest)
        case None => None
        case Some((t, rest')) => Some(([c] + t, rest'))
    else if s[0] < 0x20 then None
    else
      match ParseStringBody(s[1..])
      case None => None
      case Some((t, rest)) => Some(([s[0]] + t, rest))
  }

  /** The length of the longest prefix of decimal digits. */
  function DigitRunLength(s: JsString): (n: nat)
    ensures n <= |s|
    ensures forall i | 0 <= i < n :: IsDigit(s[i])
    ensures n < |s| ==> !IsDigit(s[n])
  {
    if |s| > 0 && IsDigit(s[0]) then 1 + DigitRunLength(s[1..]) else 0
  }

  function DigitsValue(d: JsString): nat
    requires forall i | 0 <= i < |d| :: IsDigit(d[i])
    decreases |d|
  {
    if |d| == 0 then 0
    else
      assert IsDigit(d[|d| - 1]);
      DigitsValue(d[..|d| - 1]) * 10 + (d[|d| - 1] - 0x30)
  }

  function Pow10(n: nat): (r: real)
    ensures r >= 1.0
  {
    if n == 0 then 1.0 else 10.0 * Pow10(n - 1)
  }

  /** An optional fraction `.digits`: its value and the rest. */
  function ParseFraction(s: JsString): (r: Option<(real, JsString)>)
    ensures r.Some? ==> |r.value.1| <= |s|
  {
    if |s| > 0 && s[0] == FullStop then
      var m := DigitRunLength(s[1..]);
      if m == 0 then None
      else Some((DigitsValue(s[1..][..m]) as real / Pow10(m), s[1..][m..]))
    else Some((0.0, s))
  }

  /** An optional exponent `e[+-]digits`: its value and the rest. */
  function ParseExponent(s: JsString): (r: Option<(int, JsString)>)
    ensures r.Some? ==> |r.value.1| <= |s|
  {
    if |s| > 0 && (s[0] == 0x65 || s[0] == 0x45) then
      var negative := |s| > 1 && s[1] == Minus;
      var t := if |s| > 1 && (s[1] == Minus || s[1] == Plus) then s[2..] else s[1..];
      var m := DigitRunLength(t);
      if m == 0 then None
      else
        var e: int := DigitsValue(t[..m]);
        Some((if negative then -e else e, t[m..]))
    else Some((0, s))
  }

  /** `x` times ten to the power `e`. */
  function Scale(x: real, e: int): real {
    if e >= 0 then x * Pow10(e) else x / Pow10(-e)
  }

  /** A number without its sign: `(0 | [1-9][0-9]*) fraction? exponent?`. */
  function ParseMagnitude(a: JsString): (r: Option<(real, JsString)>)
    ensures r.Some? ==> |r.value.1| < |a|
  {
    if |a| == 0 || !IsDigit(a[0]) then None
    else
      var k := if a[0] == 0x30 then 1 else DigitRunLength(a);
      var whole := DigitsValue(a[..k]) as real;
      match ParseFraction(a[k..])
      case None => None
      case Some((fraction, b)) =>
        match ParseExponent(b)
        case None => None
        case Some((e, rest)) => Some((Scale(whole + fraction, e), rest))
  }

  /** A number `-? (0 | [1-9][0-9]*) fraction? exponent?`. */
  function ParseNumber(s: JsString): (r: Option<(Json, JsString)>)
    ensures r.Some? ==> |r.value.1| < |s|
  {
    if |s| > 0 && s[0] == Minus then
      match ParseMagnitude(s[1..])
      case None => None
      case Some((m, rest)) => Some((JNumber(-m), rest))
    else
      match ParseMagnitude(s)
      case None => None
      case Some((m, rest)) => Some((JNumber(m), rest))
  }

  function ParseLiteral(s: JsString): (r: Option<(Json, JsString)>)
    ensures r.Some? ==> |r.value.1| < |s|
  {
    if |s| >= 4 && s[..4] == Units("null") then Some((JNull, s[4..]))
    else if |s| >= 4 && s[..4] == Units("true") then Some((JBool(true), s[4..]))
    else if |s| >= 5 && s[..5] == Units("false") then Some((JBool(false), s[5..]))
    else None
  }

  /** A value after optional whitespace. */
  function ParseValue(s: JsString): (r: Option<(Json, JsString)>)
    ensures r.Some? ==> |r.value.1| < |s|
    decreases |s|, 0
  {
    var t := SkipWhitespace(s);
    if |t| == 0 then None
    else if t[0] == LeftCurlyBracket then ParseObject(t[1..])
    else if t[0] == LeftSquareBracket then ParseArray(t[1..])
    else if t[0] == QuotationMark then
      match ParseStringBody(t[1..])
      case None => None
      case Some((str, rest)) => Some((JString(str), rest))
    else if t[0] == Minus || IsDigit(t[0]) then ParseNumber(t)
    else ParseLiteral(t)
  }

  /** An array after its opening bracket. */
  function ParseArray(s: JsString): (r: Option<(Json, JsString)>)
    ensures r.Some? ==> |r.value.1| < |s|
    decreases |s|, 2
  {
    var t := SkipWhitespace(s);
    if |t| > 0 && t[0] == RightSquareBracket then Some((JArray([]), t[1..]))
    else
      match ParseElements(t)
      case None => None
      case Some((items, rest)) => Some((JArray(items), rest))
  }

  /** One or more comma-separated values and the closing bracket. */
  function ParseElements(s: JsString): (r: Option<(seq<Json>, JsString)>)
    ensures r.Some? ==> |r.value.1| < |s|
    decreases |s|, 1
  {
    match ParseValue(s)
    case None => None
    case Some((v, r)) =>
      var t := SkipWhitespace(r);
      if |t| == 0 then None
      else if t[0] == Comma then
        match ParseElements(t[1..])
        case None => None
        case Some((vs, rest)) => Some(([v] + vs, rest))
      else if t[0] == RightSquareBracket then Some(([v], t[1..]))
      else None
  }

  /** An object after its opening brace. */
  function ParseObject(s: JsString): (r: Option<(Json, JsString)>)
    ensures r.Some? ==> |r.value.1| < |s|
    decreases |s|, 2
  {
    var t := SkipWhitespace(s);
    if |t| > 0 && t[0] == RightCurlyBracket then Some((JObject([]), t[1..]))
    else
      match ParseMembers(t)
      case None => None
      case Some((ms, rest)) => Some((JObject(ms), rest))
  }

  /** One or more comma-separated members and the closing brace. */
  function ParseMembers(s: JsString): (r: Option<(seq<Member>, JsString)>)
    ensures r.Some? ==> |r.value.1| < |s|
    decreases |s|, 1
  {
    match ParseMember(s)
    case None => None
    case Some((m, r)) =>
      var t := SkipWhitespace(r);
      if |t| == 0 then None
      else if t[0] == Comma then
        match ParseMembers(t[1..])
        case None => None
        case Some((ms, rest)) => Some(([m] + ms, rest))
      else if t[0] == RightCurlyBracket then Some(([m], t[1..]))
      else None
  }

  /** `"key" : value`, after optional whitespace. */
  function ParseMember(s: JsString): (r: Option<(Member, JsString)>)
    ensures r.Some? ==> |r.value.1| < |s|
    decreases |s|, 0
  {
    var t := SkipWhitespace(s);
    if |t| == 0 || t[0] != QuotationMark then None
    else
      match ParseStringBody(t[1..])
      case None => None
      case Some((key, r)) =>
        var u := SkipWhitespace(r);
        if |u| == 0 || u[0] != Colon then None
        else
          match ParseValue(u[1..])
          case None => None
          case Some((v, rest)) => Some((Member(key, v), rest))
  }

  /** `JSON.parse(text)`: one value, with only whitespace around it; None is
      the SyntaxError it throws. */
  function Parse(text: JsString): Option<Json> {
    match ParseValue(text)
    case None => None
    case Some((v, rest)) => if SkipWhitespace(rest) == [] then Some(v) else None
  }

  // ---------------------------------------------------------------------
  // Which texts are binary strings
  // ---------------------------------------------------------------------

  /** Every string and every key inside `j` is a binary string. */
  predicate Latin1Text(j: Json)
    decreases j
  {
    match j
    case JString(s) => IsLatin1(s)
    case JArray(items) => forall i | 0 <= i < |items| :: Latin1Text(items[i])
    case JObject(ms) => forall i | 0 <= i < |ms| :: Latin1Member(ms[i])
    case _ => true
  }

  predicate Latin1Member(m: Member)
    decreases m
  {
    IsLatin1(m.key) && Latin1Text(m.value)
  }

  lemma EscapeUnitLatin1(c: CodeUnit)
    requires c <= 0xFF
    ensures IsLatin1(EscapeUnit(c))
  {
  }

  lemma {:induction false} EscapeLatin1(s: JsString)
    requires IsLatin1(s)
    ensures IsLatin1(Escape(s))
    decreases |s|
  {
    if |s| > 0 {
      EscapeUnitLatin1(s[0]);
      EscapeLatin1(s[1..]);
      Latin1Concat(EscapeUnit(s[0]), Escape(s[1..]));
    }
  }

  lemma QuoteLatin1(s: JsString)
    requires IsLatin1(s)
    ensures IsLatin1(Quote(s))
  {
    EscapeLatin1(s);
    Latin1Concat([QuotationMark], Escape(s));
    Latin1Concat([QuotationMark] + Escape(s), [QuotationMark]);
  }

  /** A code unit above U+00FF that is not a surrogate is written as it is,
      so the text of the string is not a binary string either. */
  lemma {:induction false} EscapeKeepsWideUnit(s: JsString, i: nat)
    requires i < |s| && s[i] > 0xFF && !IsHighSurrogate(s[i]) && !IsLowSurrogate(s[i])
    ensures !IsLatin1(Escape(s))
    decreases i
  {
    if i == 0 {
      assert EscapeUnit(s[0]) == [s[0]];
      assert Escape(s)[0] == s[0];
    } else if |s| >= 2 && IsHighSurrogate(s[0]) && IsLowSurrogate(s[1]) {
      EscapeKeepsWideUnit(s[2..], i - 2);
      Latin1Concat([s[0], s[1]], Escape(s[2..]));
    } else {
      EscapeKeepsWideUnit(s[1..], i - 1);
      Latin1Concat(EscapeUnit(s[0]), Escape(s[1..]));
    }
  }

  /** The text of a value whose strings are binary strings is one too. */
  lemma {:induction false} StringifyLatin1(j: Json)
    requires Serializable(j) && Latin1Text(j)
    ensures IsLatin1(Stringify(j))
    decreases j
  {
    match j
    case JNull =>
    case JBool(_) =>
    case JNumber(n) =>
      var i := n.Floor;
      if i < 0 {
        Latin1Concat([Minus], DecimalDigits(-i));
      }
    case JString(str) =>
      QuoteLatin1(str);
    case JArray(items) =>
      ItemsLatin1(items);
      Latin1Concat([LeftSquareBracket], StringifyItems(items));
      Latin1Concat([LeftSquareBracket] + StringifyItems(items), [RightSquareBracket]);
    case JObject(ms) =>
      MembersLatin1(ms);
      Latin1Concat([LeftCurlyBracket], StringifyMembers(ms));
      Latin1Concat([LeftCurlyBracket] + StringifyMembers(ms), [RightCurlyBracket]);
  }

  lemma {:induction false} ItemsLatin1(items: seq<Json>)
    requires forall i | 0 <= i < |items| :: Serializable(items[i]) && Latin1Text(items[i])
    ensures IsLatin1(StringifyItems(items))
    decreases items
  {
    if |items| == 1 {
      StringifyLatin1(items[0]);
    } else if |items| > 1 {
      StringifyLatin1(items[0]);
      ItemsLatin1(items[1..]);
      Latin1Concat(Stringify(items[0]), [Comma]);
      Latin1Concat(Stringify(items[0]) + [Comma], StringifyItems(items[1..]));
    }
  }

  lemma {:induction false} MembersLatin1(ms: seq<Member>)
    requires forall i | 0 <= i < |ms| :: SerializableMember(ms[i]) && Latin1Member(ms[i])
    ensures IsLatin1(StringifyMembers(ms))
    decreases ms
  {
    if |ms| == 1 {
      MemberLatin1(ms[0]);
    } else if |ms| > 1 {
      MemberLatin1(ms[0]);
      MembersLatin1(ms[1..]);
      Latin1Concat(StringifyMember(ms[0]), [Comma]);
      Latin1Concat(StringifyMember(ms[0]) + [Comma], StringifyMembers(ms[1..]));
    }
  }

  lemma {:induction false} MemberLatin1(m: Member)
    requires SerializableMember(m) && Latin1Member(m)
    ensures IsLatin1(StringifyMember(m))
    decreases m
  {
    QuoteLatin1(m.key);
    StringifyLatin1(m.value);
    Latin1Concat(Quote(m.key), [Colon]);
    Latin1Concat(Quote(m.key) + [Colon], Stringify(m.value));
  }

  // ---------------------------------------------------------------------
  // JSON.parse(JSON.stringify(j)) == j
  // ---------------------------------------------------------------------

  /** What may follow a value inside a JSON text written by Stringify. */
  predicate Delimited(rest: JsString) {
    |rest| == 0 || rest[0] == Comma || rest[0] == RightSquareBracket || rest[0] == RightCurlyBracket
  }

  lemma {:induction false} DecimalDigitsValue(n: nat)
    ensures DigitsValue(DecimalDigits(n)) == n
    decreases n
  {
    var d := DecimalDigits(n);
    if n >= 10 {
      DecimalDigitsValue(n / 10);
      assert d[..|d| - 1] == DecimalDigits(n / 10);
    }
  }

  lemma {:induction false} DigitRunOfDigits(d: JsString, rest: JsString)
    requires forall i | 0 <= i < |d| :: IsDigit(d[i])
    requires |rest| == 0 || !IsDigit(rest[0])
    ensures DigitRunLength(d + rest) == |d|
    decreases |d|
  {
    if |d| > 0 {
      DigitRunOfDigits(d[1..], rest);
      assert (d + rest)[1..] == d[1..] + rest;
    }
  }

  lemma LeadingDigits(n: nat, rest: JsString)
    requires Delimited(rest)
    ensures var a := DecimalDigits(n) + rest;
      |a| > 0 && IsDigit(a[0]) && (if a[0] == 0x30 then 1 else DigitRunLength(a)) == |DecimalDigits(n)|
  {
    var d := DecimalDigits(n);
    var a := d + rest;
    assert a[0] == d[0];
    DigitRunOfDigits(d, rest);
  }

  lemma PlainEnd(rest: JsString)
    requires Delimited(rest)
    ensures ParseFraction(rest) == Some((0.0, rest))
    ensures ParseExponent(rest) == Some((0, rest))
    ensures Scale(0.0, 0) == 0.0
  {
  }

  lemma MagnitudeRoundTrip(n: nat, rest: JsString)
    requires Delimited(rest)
    ensures ParseMagnitude(DecimalDigits(n) + rest) == Some((n as real, rest))
  {
    var d := DecimalDigits(n);
    var a := d + rest;
    LeadingDigits(n, rest);
    assert a[..|d|] == d && a[|d|..] == rest;
    DecimalDigitsValue(n);
    PlainEnd(rest);
    assert Scale(n as real + 0.0, 0) == n as real;
  }

  lemma NegativeRoundTrip(i: int, rest: JsString)
    requires i < 0 && Delimited(rest)
    ensures ParseNumber(IntegerText(i) + rest) == Some((JNumber(i as real), rest))
  {
    MagnitudeRoundTrip(-i, rest);
    assert IntegerText(i) + rest == [Minus] + (DecimalDigits(-i) + rest);
  }

  lemma NumberRoundTrip(i: int, rest: JsString)
    requires Delimited(rest)
    ensures ParseNumber(IntegerText(i) + rest) == Some((JNumber(i as real), rest))
  {
    if i < 0 {
      NegativeRoundTrip(i, rest);
    } else {
      MagnitudeRoundTrip(i, rest);
      assert (IntegerText(i) + rest)[0] == DecimalDigits(i)[0];
    }
  }

  lemma HexRecombine(c: CodeUnit)
    ensures c / 0x1000 * 0x1000 + c % 0x1000 / 0x100 * 0x100 + c % 0x100 / 0x10 * 0x10 + c % 0x10 == c
  {
    assert c % 0x1000 == c % 0x1000 / 0x100 * 0x100 + c % 0x100;
    assert c % 0x100 == c % 0x100 / 0x10 * 0x10 + c % 0x10;
  }

  /** The four hex digits of `\uXXXX` read back as the unit. */
  lemma Hex4RoundTrip(c: CodeUnit, tail: JsString)
    ensures ParseHex4(UnicodeEscape(c)[2..] + tail) == Some((c, tail))
  {
    var h := UnicodeEscape(c)[2..] + tail;
    HexRecombine(c);
    assert h[0] == HexDigit(c / 0x1000) && h[1] == HexDigit(c % 0x1000 / 0x100);
    assert h[2] == HexDigit(c % 0x100 / 0x10) && h[3] == HexDigit(c % 0x10);
    assert h[4..] == tail;
  }

  /** An escape written by EscapeUnit reads back as the unit. */
  lemma EscapeOfUnit(c: CodeUnit, tail: JsString)
    requires |EscapeUnit(c)| > 1
    ensures EscapeUnit(c) == [ReverseSolidus] + EscapeUnit(c)[1..]
    ensures ParseEscape(EscapeUnit(c)[1..] + tail) == Some((c, tail))
  {
    var e := EscapeUnit(c);
    if |e| == 2 {
      assert e[1..] + tail == [e[1]] + tail;
      assert ([e[1]] + tail)[1..] == tail;
    } else {
      assert e == UnicodeEscape(c);
      var u := e[1..] + tail;
      assert u[0] == 0x75;
      assert u[1..] == UnicodeEscape(c)[2..] + tail;
      Hex4RoundTrip(c, tail);
    }
  }

  lemma BodyPlain(c: CodeUnit, tail: JsString)
    requires ParseStringBody(tail).Some?
    requires c >= 0x20 && c != QuotationMark && c != ReverseSolidus
    ensures ParseStringBody([c] + tail)
         == Some(([c] + ParseStringBody(tail).value.0, ParseStringBody(tail).value.1))
  {
    assert ([c] + tail)[1..] == tail;
  }

  lemma BodyEscaped(c: CodeUnit, e: JsString, tail: JsString)
    requires ParseStringBody(tail).Some? && ParseEscape(e + tail) == Some((c, tail))
    ensures ParseStringBody([ReverseSolidus] + e + tail)
         == Some(([c] + ParseStringBody(tail).value.0, ParseStringBody(tail).value.1))
  {
    assert ([ReverseSolidus] + e + tail)[1..] == e + tail;
  }

  /** Each unit written by EscapeUnit reads back as that unit. */
  lemma EscapeUnitRoundTrip(c: CodeUnit, tail: JsString)
    requires ParseStringBody(tail).Some?
    ensures ParseStringBody(EscapeUnit(c) + tail)
         == Some(([c] + ParseStringBody(tail).value.0, ParseStringBody(tail).value.1))
  {
    var e := EscapeUnit(c);
    if |e| == 1 {
      assert e == [c];
      BodyPlain(c, tail);
    } else {
      EscapeOfUnit(c, tail);
      BodyEscaped(c, e[1..], tail);
    }
  }

  lemma PairStep(s: JsString, rest: JsString)
    requires |s| >= 2 && IsHighSurrogate(s[0]) && IsLowSurrogate(s[1])
    requires ParseStringBody(Escape(s[2..]) + [QuotationMark] + rest) == Some((s[2..], rest))
    ensures ParseStringBody(Escape(s) + [QuotationMark] + rest) == Some((s, rest))
  {
    var tail := Escape(s[2..]) + [QuotationMark] + rest;
    PairText(s, rest);
    BodyPlain(s[1], tail);
    BodyPlain(s[0], [s[1]] + tail);
    assert [s[0]] + ([s[1]] + s[2..]) == s;
  }

  lemma PairText(s: JsString, rest: JsString)
    requires |s| >= 2 && IsHighSurrogate(s[0]) && IsLowSurrogate(s[1])
    ensures Escape(s) + [QuotationMark] + rest == [s[0]] + ([s[1]] + (Escape(s[2..]) + [QuotationMark] + rest))
  {
    assert Escape(s) == [s[0], s[1]] + Escape(s[2..]);
    PairRegroup(s[0], s[1], Escape(s[2..]), [QuotationMark], rest);
  }

  lemma PairRegroup(x: CodeUnit, y: CodeUnit, e: JsString, q: JsString, rest: JsString)
    ensures [x, y] + e + q + rest == [x] + ([y] + (e + q + rest))
  {
    assert [x, y] == [x] + [y];
  }

  lemma UnitStep(s: JsString, rest: JsString)
    requires |s| > 0 && !(|s| >= 2 && IsHighSurrogate(s[0]) && IsLowSurrogate(s[1]))
    requires ParseStringBody(Escape(s[1..]) + [QuotationMark] + rest) == Some((s[1..], rest))
    ensures ParseStringBody(Escape(s) + [QuotationMark] + rest) == Some((s, rest))
  {
    var tail := Escape(s[1..]) + [QuotationMark] + rest;
    EscapeUnitRoundTrip(s[0], tail);
    assert Escape(s) == EscapeUnit(s[0]) + Escape(s[1..]);
    Regroup3(EscapeUnit(s[0]), Escape(s[1..]), [QuotationMark], rest);
    assert [s[0]] + s[1..] == s;
  }

  lemma Regroup3(a: JsString, b: JsString, c: JsString, d: JsString)
    ensures a + b + c + d == a + (b + c + d)
  {
  }

  lemma {:induction false} StringRoundTrip(s: JsString, rest: JsString)
    ensures ParseStringBody(Escape(s) + [QuotationMark] + rest) == Some((s, rest))
    decreases |s|
  {
    if |s| == 0 {
      assert Escape(s) + [QuotationMark] + rest == [QuotationMark] + rest;
    } else if |s| >= 2 && IsHighSurrogate(s[0]) && IsLowSurrogate(s[1]) {
      StringRoundTrip(s[2..], rest);
      PairStep(s, rest);
    } else {
      StringRoundTrip(s[1..], rest);
      UnitStep(s, rest);
    }
  }

  lemma LiteralRoundTrip(j: Json, rest: JsString)
    requires j.JNull? || j.JBool?
    ensures ParseValue(Stringify(j) + rest) == Some((j, rest))
  {
    var t := Stringify(j) + rest;
    assert SkipWhitespace(t) == t;
    if j.JNull? {
      assert t[..4] == Units("null");
    } else if j.b {
      assert t[..4] == Units("true");
    } else {
      assert t[..4] != Units("null") && t[..4] != Units("true");
      assert t[..5] == Units("false");
    }
  }

  lemma NumberValueRoundTrip(n: real, rest: JsString)
    requires Serializable(JNumber(n)) && Delimited(rest)
    ensures ParseValue(Stringify(JNumber(n)) + rest) == Some((JNumber(n), rest))
  {
    var t := Stringify(JNumber(n)) + rest;
    assert SkipWhitespace(t) == t;
    NumberRoundTrip(n.Floor, rest);
  }

  lemma StringValueRoundTrip(str: JsString, rest: JsString)
    ensures ParseValue(Stringify(JString(str)) + rest) == Some((JString(str), rest))
  {
    var t := Stringify(JString(str)) + rest;
    assert SkipWhitespace(t) == t;
    StringRoundTrip(str, rest);
    assert t[1..] == Escape(str) + [QuotationMark] + rest;
  }

  // Single unfoldings of the parser, so that the round-trip steps below do
  // not unfold it on the large texts they talk about.

  lemma ValueOpening(s: JsString)
    requires |s| > 0 && !IsJsonWhitespace(s[0])
    ensures s[0] == LeftSquareBracket ==> ParseValue(s) == ParseArray(s[1..])
    ensures s[0] == LeftCurlyBracket ==> ParseValue(s) == ParseObject(s[1..])
  {
  }

  lemma EmptyArray(rest: JsString)
    ensures ParseArray([RightSquareBracket] + rest) == Some((JArray([]), rest))
  {
    assert ([RightSquareBracket] + rest)[1..] == rest;
  }

  lemma ArrayOfElements(u: JsString)
    requires |u| > 0 && OpensValue(u[0]) && ParseElements(u).Some?
    ensures ParseArray(u) == Some((JArray(ParseElements(u).value.0), ParseElements(u).value.1))
  {
  }

  lemma ElementsLast(text: JsString, v: Json, rest: JsString)
    requires ParseValue(text) == Some((v, [RightSquareBracket] + rest))
    ensures ParseElements(text) == Some(([v], rest))
  {
    assert ([RightSquareBracket] + rest)[1..] == rest;
  }

  lemma ElementsCons(text: JsString, v: Json, x: JsString, tail: seq<Json>, rest: JsString)
    requires ParseValue(text) == Some((v, [Comma] + x))
    requires ParseElements(x) == Some((tail, rest))
    ensures ParseElements(text) == Some(([v] + tail, rest))
  {
    assert ([Comma] + x)[1..] == x;
  }

  lemma EmptyObject(rest: JsString)
    ensures ParseObject([RightCurlyBracket] + rest) == Some((JObject([]), rest))
  {
    assert ([RightCurlyBracket] + rest)[1..] == rest;
  }

  lemma ObjectOfMembers(u: JsString)
    requires |u| > 0 && u[0] == QuotationMark && ParseMembers(u).Some?
    ensures ParseObject(u) == Some((JObject(ParseMembers(u).value.0), ParseMembers(u).value.1))
  {
  }

  lemma MembersLast(text: JsString, m: Member, rest: JsString)
    requires ParseMember(text) == Some((m, [RightCurlyBracket] + rest))
    ensures ParseMembers(text) == Some(([m], rest))
  {
    assert ([RightCurlyBracket] + rest)[1..] == rest;
  }

  lemma MembersCons(text: JsString, m: Member, x: JsString, tail: seq<Member>, rest: JsString)
    requires ParseMember(text) == Some((m, [Comma] + x))
    requires ParseMembers(x) == Some((tail, rest))
    ensures ParseMembers(text) == Some(([m] + tail, rest))
  {
    assert ([Comma] + x)[1..] == x;
  }

  lemma ArrayText(items: seq<Json>, rest: JsString)
    requires forall i | 0 <= i < |items| :: Serializable(items[i])
    ensures Stringify(JArray(items)) + rest == [LeftSquareBracket] + (StringifyItems(items) + [RightSquareBracket] + rest)
  {
    assert Stringify(JArray(items)) == [LeftSquareBracket] + StringifyItems(items) + [RightSquareBracket];
    Regroup3([LeftSquareBracket], StringifyItems(items), [RightSquareBracket], rest);
  }

  lemma ArrayStep(items: seq<Json>, rest: JsString)
    requires forall i | 0 <= i < |items| :: Serializable(items[i])
    requires |items| > 0 ==> ParseElements(StringifyItems(items) + [RightSquareBracket] + rest) == Some((items, rest))
    ensures ParseValue(Stringify(JArray(items)) + rest) == Some((JArray(items), rest))
  {
    var u := StringifyItems(items) + [RightSquareBracket] + rest;
    ArrayText(items, rest);
    ValueOpening([LeftSquareBracket] + u);
    assert ([LeftSquareBracket] + u)[1..] == u;
    if |items| == 0 {
      assert u == [RightSquareBracket] + rest;
      EmptyArray(rest);
    } else {
      assert u[0] == StringifyItems(items)[0];
      ArrayOfElements(u);
    }
  }

  lemma ObjectText(ms: seq<Member>, rest: JsString)
    requires forall i | 0 <= i < |ms| :: SerializableMember(ms[i])
    ensures Stringify(JObject(ms)) + rest == [LeftCurlyBracket] + (StringifyMembers(ms) + [RightCurlyBracket] + rest)
  {
    assert Stringify(JObject(ms)) == [LeftCurlyBracket] + StringifyMembers(ms) + [RightCurlyBracket];
    Regroup3([LeftCurlyBracket], StringifyMembers(ms), [RightCurlyBracket], rest);
  }

  lemma ObjectStep(ms: seq<Member>, rest: JsString)
    requires forall i | 0 <= i < |ms| :: SerializableMember(ms[i])
    requires |ms| > 0 ==> ParseMembers(StringifyMembers(ms) + [RightCurlyBracket] + rest) == Some((ms, rest))
    ensures ParseValue(Stringify(JObject(ms)) + rest) == Some((JObject(ms), rest))
  {
    var u := StringifyMembers(ms) + [RightCurlyBracket] + rest;
    ObjectText(ms, rest);
    ValueOpening([LeftCurlyBracket] + u);
    assert ([LeftCurlyBracket] + u)[1..] == u;
    if |ms| == 0 {
      assert u == [RightCurlyBracket] + rest;
      EmptyObject(rest);
    } else {
      assert u[0] == StringifyMembers(ms)[0];
      ObjectOfMembers(u);
    }
  }

  lemma {:induction false} ValueRoundTrip(j: Json, rest: JsString)
    requires Serializable(j) && Delimited(rest)
    ensures ParseValue(Stringify(j) + rest) == Some((j, rest))
    decreases j
  {
    match j
    case JNull => LiteralRoundTrip(j, rest);
    case JBool(_) => LiteralRoundTrip(j, rest);
    case JNumber(n) => NumberValueRoundTrip(n, rest);
    case JString(str) => StringValueRoundTrip(str, rest);
    case JArray(items) =>
      if |items| > 0 {
        ItemsRoundTrip(items, rest);
      }
      ArrayStep(items, rest);
    case JObject(ms) =>
      if |ms| > 0 {
        MembersRoundTrip(ms, rest);
      }
      ObjectStep(ms, rest);
  }

  lemma Regroup(a: JsString, b: JsString, close: CodeUnit, rest: JsString)
    ensures a + [Comma] + b + [close] + rest == a + ([Comma] + (b + [close] + rest))
  {
  }

  lemma LastItemStep(items: seq<Json>, rest: JsString)
    requires |items| == 1 && Serializable(items[0])
    requires ParseValue(Stringify(items[0]) + ([RightSquareBracket] + rest)) == Some((items[0], [RightSquareBracket] + rest))
    ensures ParseElements(StringifyItems(items) + [RightSquareBracket] + rest) == Some((items, rest))
  {
    assert StringifyItems(items) + [RightSquareBracket] + rest == Stringify(items[0]) + ([RightSquareBracket] + rest);
    ElementsLast(Stringify(items[0]) + ([RightSquareBracket] + rest), items[0], rest);
    assert [items[0]] == items;
  }

  lemma NextItemStep(items: seq<Json>, rest: JsString)
    requires |items| > 1 && forall i | 0 <= i < |items| :: Serializable(items[i])
    requires
      var x := StringifyItems(items[1..]) + [RightSquareBracket] + rest;
      ParseValue(Stringify(items[0]) + ([Comma] + x)) == Some((items[0], [Comma] + x))
    requires ParseElements(StringifyItems(items[1..]) + [RightSquareBracket] + rest) == Some((items[1..], rest))
    ensures ParseElements(StringifyItems(items) + [RightSquareBracket] + rest) == Some((items, rest))
  {
    var x := StringifyItems(items[1..]) + [RightSquareBracket] + rest;
    var a, b := Stringify(items[0]), StringifyItems(items[1..]);
    assert StringifyItems(items) == a + [Comma] + b;
    Regroup(a, b, RightSquareBracket, rest);
    ElementsCons(Stringify(items[0]) + ([Comma] + x), items[0], x, items[1..], rest);
    assert [items[0]] + items[1..] == items;
  }

  lemma {:induction false} ItemsRoundTrip(items: seq<Json>, rest: JsString)
    requires |items| > 0 && forall i | 0 <= i < |items| :: Serializable(items[i])
    ensures ParseElements(StringifyItems(items) + [RightSquareBracket] + rest) == Some((items, rest))
    decreases items
  {
    if |items| == 1 {
      ValueRoundTrip(items[0], [RightSquareBracket] + rest);
      LastItemStep(items, rest);
    } else {
      var x := StringifyItems(items[1..]) + [RightSquareBracket] + rest;
      ValueRoundTrip(items[0], [Comma] + x);
      ItemsRoundTrip(items[1..], rest);
      NextItemStep(items, rest);
    }
  }

  lemma LastMemberStep(ms: seq<Member>, rest: JsString)
    requires |ms| == 1 && SerializableMember(ms[0])
    requires ParseMember(StringifyMember(ms[0]) + ([RightCurlyBracket] + rest)) == Some((ms[0], [RightCurlyBracket] + rest))
    ensures ParseMembers(StringifyMembers(ms) + [RightCurlyBracket] + rest) == Some((ms, rest))
  {
    assert StringifyMembers(ms) + [RightCurlyBracket] + rest == StringifyMember(ms[0]) + ([RightCurlyBracket] + rest);
    MembersLast(StringifyMember(ms[0]) + ([RightCurlyBracket] + rest), ms[0], rest);
    assert [ms[0]] == ms;
  }

  lemma NextMemberText(ms: seq<Member>, rest: JsString)
    requires |ms| > 1 && forall i | 0 <= i < |ms| :: SerializableMember(ms[i])
    ensures StringifyMembers(ms) + [RightCurlyBracket] + rest
         == StringifyMember(ms[0]) + ([Comma] + (StringifyMembers(ms[1..]) + [RightCurlyBracket] + rest))
  {
    var a, b := StringifyMember(ms[0]), StringifyMembers(ms[1..]);
    assert StringifyMembers(ms) == a + [Comma] + b;
    Regroup(a, b, RightCurlyBracket, rest);
  }

  lemma {:induction false} MembersRoundTrip(ms: seq<Member>, rest: JsString)
    requires |ms| > 0 && forall i | 0 <= i < |ms| :: SerializableMember(ms[i])
    ensures ParseMembers(StringifyMembers(ms) + [RightCurlyBracket] + rest) == Some((ms, rest))
    decreases ms
  {
    if |ms| == 1 {
      MemberRoundTrip(ms[0], [RightCurlyBracket] + rest);
      LastMemberStep(ms, rest);
    } else {
      var x := StringifyMembers(ms[1..]) + [RightCurlyBracket] + rest;
      MemberRoundTrip(ms[0], [Comma] + x);
      MembersRoundTrip(ms[1..], rest);
      NextMembersStep(ms, rest);
    }
  }

  lemma NextMembersStep(ms: seq<Member>, rest: JsString)
    requires |ms| > 1 && forall i | 0 <= i < |ms| :: SerializableMember(ms[i])
    requires ParseMember(StringifyMember(ms[0]) + ([Comma] + (StringifyMembers(ms[1..]) + [RightCurlyBracket] + rest)))
          == Some((ms[0], [Comma] + (StringifyMembers(ms[1..]) + [RightCurlyBracket] + rest)))
    requires ParseMembers(StringifyMembers(ms[1..]) + [RightCurlyBracket] + rest) == Some((ms[1..], rest))
    ensures ParseMembers(StringifyMembers(ms) + [RightCurlyBracket] + rest) == Some((ms, rest))
  {
    var x := StringifyMembers(ms[1..]) + [RightCurlyBracket] + rest;
    NextMemberText(ms, rest);
    MembersCons(StringifyMember(ms[0]) + ([Comma] + x), ms[0], x, ms[1..], rest);
    assert [ms[0]] + ms[1..] == ms;
  }

  lemma {:induction false} MemberStep(m: Member, rest: JsString)
    requires SerializableMember(m)
    requires ParseValue(Stringify(m.value) + rest) == Some((m.value, rest))
    ensures ParseMember(StringifyMember(m) + rest) == Some((m, rest))
  {
    var v := Stringify(m.value) + rest;
    StringRoundTrip(m.key, [Colon] + v);
    MemberText(m, rest);
    MemberOfParts(StringifyMember(m) + rest, m.key, v, m.value, rest);
  }

  lemma MemberText(m: Member, rest: JsString)
    requires SerializableMember(m)
    ensures var t := StringifyMember(m) + rest;
      |t| > 0 && t[0] == QuotationMark
      && t[1..] == Escape(m.key) + [QuotationMark] + ([Colon] + (Stringify(m.value) + rest))
  {
    var t := StringifyMember(m) + rest;
    assert t == [QuotationMark] + (Escape(m.key) + [QuotationMark] + ([Colon] + (Stringify(m.value) + rest)));
  }

  lemma MemberOfParts(t: JsString, key: JsString, w: JsString, v: Json, rest: JsString)
    requires |t| > 0 && t[0] == QuotationMark
    requires ParseStringBody(t[1..]) == Some((key, [Colon] + w))
    requires ParseValue(w) == Some((v, rest))
    ensures ParseMember(t) == Some((Member(key, v), rest))
  {
    assert ([Colon] + w)[1..] == w;
  }

  lemma {:induction false} MemberRoundTrip(m: Member, rest: JsString)
    requires SerializableMember(m) && Delimited(rest)
    ensures ParseMember(StringifyMember(m) + rest) == Some((m, rest))
    decreases m
  {
    ValueRoundTrip(m.value, rest);
    MemberStep(m, rest);
  }

  /** `JSON.parse(JSON.stringify(j))` gives `j` back. */
  lemma ParseStringify(j: Json)
    requires Serializable(j)
    ensures Parse(Stringify(j)) == Some(j)
  {
    ValueRoundTrip(j, []);
    assert Stringify(j) + [] == Stringify(j);
  }

  /** Different values have different texts. */
  lemma StringifyInjective(a: Json, b: Json)
    requires Serializable(a) && Serializable(b) && Stringify(a) == Stringify(b)
    ensures a == b
  {
    ParseStringify(a);
    ParseStringify(b);
  }

  // ---------------------------------------------------------------------
  // Property reads on member lists built piecewise
  // ---------------------------------------------------------------------

  /** A later member shadows an earlier one with the same key. */
  lemma {:induction false} GetAppend(xs: seq<Member>, ys: seq<Member>, key: JsString)
    ensures Get(xs + ys, key) == if Get(ys, key).Some? then Get(ys, key) else Get(xs, key)
    decreases |ys|
  {
    var zs := xs + ys;
    if |ys| == 0 {
      assert zs == xs;
    } else {
      assert zs[..|zs| - 1] == xs + ys[..|ys| - 1];
      assert zs[|zs| - 1] == ys[|ys| - 1];
      GetAppend(xs, ys[..|ys| - 1], key);
    }
  }

  // ---------------------------------------------------------------------
  // A code unit above U+00FF in a string value reaches the object's text
  // ---------------------------------------------------------------------

  lemma StringMemberNotLatin1(key: JsString, s: JsString, i: nat)
    requires i < |s| && s[i] > 0xFF && !IsHighSurrogate(s[i]) && !IsLowSurrogate(s[i])
    ensures !IsLatin1(StringifyMember(Member(key, JString(s))))
  {
    EscapeKeepsWideUnit(s, i);
    Latin1Concat([QuotationMark], Escape(s));
    Latin1Concat([QuotationMark] + Escape(s), [QuotationMark]);
    Latin1Concat(Quote(key) + [Colon], Quote(s));
  }

  lemma {:induction false} MembersNotLatin1(ms: seq<Member>, i: nat)
    requires forall k | 0 <= k < |ms| :: SerializableMember(ms[k])
    requires i < |ms| && !IsLatin1(StringifyMember(ms[i]))
    ensures !IsLatin1(StringifyMembers(ms))
    decreases i
  {
    if |ms| > 1 {
      Latin1Concat(StringifyMember(ms[0]), [Comma]);
      Latin1Concat(StringifyMember(ms[0]) + [Comma], StringifyMembers(ms[1..]));
      if i > 0 {
        MembersNotLatin1(ms[1..], i - 1);
      }
    }
  }

  lemma ObjectNotLatin1(ms: seq<Member>, i: nat)
    requires forall k | 0 <= k < |ms| :: SerializableMember(ms[k])
    requires i < |ms| && !IsLatin1(StringifyMember(ms[i]))
    ensures !IsLatin1(Stringify(JObject(ms)))
  {
    MembersNotLatin1(ms, i);
    Latin1Concat([LeftCurlyBracket], StringifyMembers(ms));
    Latin1Concat([LeftCurlyBracket] + StringifyMembers(ms), [RightCurlyBracket]);
  }
}
