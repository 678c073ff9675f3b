/**
 JSON values, the characters of JSON text and the parts of RFC 8259 that parser and printer share
 (Common/json.c, include/json.h; sections 4, 5 and 7 of RFC 8259).
 */
module JsonText {
  import opened Bytes
  import opened Utf8

  type Text = seq<Ucs4>

  datatype Member = Member(key: Text, value: Json)

  // JNull is the null pointer of the source; a real number stands for a double.
  datatype Json =
    | JNull
    | JBool(b: bool)
    | JInt(i: int)
    | JDouble(d: real)
    | JString(text: Text)
    | JArray(items: seq<Json>)
    | JObject(members: seq<Member>)

  const QUOTE: Ucs4 := 0x22
  const BACKSLASH: Ucs4 := 0x5C
  const COMMA: Ucs4 := 0x2C
  const COLON: Ucs4 := 0x3A
  const MINUS: Ucs4 := 0x2D
  const BLANK: Ucs4 := 0x20
  const NEWLINE: Ucs4 := 0x0A
  const LBRACKET: Ucs4 := 0x5B
  const RBRACKET: Ucs4 := 0x5D
  const LBRACE: Ucs4 := 0x7B
  const RBRACE: Ucs4 := 0x7D
  const LETTER_U: Ucs4 := 0x75

  const U_NULL: Text := [0x6E, 0x75, 0x6C, 0x6C]
  const U_TRUE: Text := [0x74, 0x72, 0x75, 0x65]
  const U_FALSE: Text := [0x66, 0x61, 0x6C, 0x73, 0x65]

  predicate IsSpace(c: int) { c in {0x20, 0x09, 0x0D, 0x0A, 0x0C} }

  predicate IsDigit(c: int) { 0x30 <= c <= 0x39 }

  predicate IsAlpha(c: int) { 0x41 <= c <= 0x5A || 0x61 <= c <= 0x7A }

  predicate IsNumberChar(c: int) { IsDigit(c) || c in {0x2E, 0x65, 0x2D, 0x2B} }

  // --- Surrogates -------------------------------------------------------------------------------

  predicate IsHighSurrogate(u: int) { 0xD800 <= u < 0xDC00 }

  predicate IsLowSurrogate(u: int) { 0xDC00 <= u < 0xE000 }

  // u + SURROGATE_OFFSET + (lead << SHIFT_BITS), in 32-bit arithmetic.
  function Combined(lead: nat, u: nat): (r: nat)
  {
    (u + (0x1_0000 - 0xD800 * 0x400 - 0xDC00) + lead * 0x400) % 0x1_0000_0000
  }

  // LEAD_OFFSET + (u >> 10)
  function LeadOf(u: nat): nat { 0xD800 - 0x40 + u / 0x400 }

  function TrailOf(u: nat): nat { 0xDC00 + u % 0x400 }

  lemma SurrogatesCombine(u: nat)
    requires 0x1_0000 <= u < 0x11_0000
    ensures IsHighSurrogate(LeadOf(u)) && IsLowSurrogate(TrailOf(u))
    ensures Combined(LeadOf(u), TrailOf(u)) == u
  {
  }

  // --- Hexadecimal and decimal digits -------------------------------------------------------------

  predicate IsHexDigit(c: int)
  {
    IsDigit(c) || 0x41 <= c <= 0x46 || 0x61 <= c <= 0x66
  }

  function HexValue(c: int): (r: nat)
    requires IsHexDigit(c)
    ensures r < 16
  {
    if IsDigit(c) then c - 0x30 else if c <= 0x46 then c - 0x37 else c - 0x57
  }

  function HexDigit(v: nat): (r: Ucs4)
    requires v < 16
    ensures IsHexDigit(r) && HexValue(r) == v
  {
    if v < 10 then 0x30 + v else 0x57 + v
  }

  // strtoul of four hexadecimal digits
  function HexWord(s: Text): (r: nat)
    requires |s| >= 4 && IsHexDigit(s[0]) && IsHexDigit(s[1]) && IsHexDigit(s[2]) && IsHexDigit(s[3])
    ensures r < 0x1_0000
  {
    HexValue(s[0]) * 0x1000 + HexValue(s[1]) * 0x100 + HexValue(s[2]) * 0x10 + HexValue(s[3])
  }

  // "%04x" of a 16-bit value
  function Hex4(v: nat): (r: Text)
    requires v < 0x1_0000
    ensures |r| == 4 && forall i :: 0 <= i < 4 ==> IsHexDigit(r[i])
  {
    [HexDigit(v / 0x1000), HexDigit(v / 0x100 % 16), HexDigit(v / 0x10 % 16), HexDigit(v % 16)]
  }

  lemma HexParts(v: nat)
    requires v < 0x1_0000
    ensures v / 0x1000 < 16
    ensures v / 0x1000 * 0x1000 + v / 0x100 % 16 * 0x100 + v / 0x10 % 16 * 0x10 + v % 16 == v
  {
    var a := v / 0x10;
    var b := a / 0x10;
    assert v / 0x100 == b;
    assert v / 0x1000 == b / 0x10;
  }

  lemma HexRoundTrip(v: nat, rest: Text)
    requires v < 0x1_0000
    ensures HexWord(Hex4(v) + rest) == v
  {
    hide HexDigit, HexValue;
    HexParts(v);
    var s := Hex4(v) + rest;
    assert s[0] == Hex4(v)[0] && s[1] == Hex4(v)[1] && s[2] == Hex4(v)[2] && s[3] == Hex4(v)[3];
  }

  function Digits(n: nat): (r: Text)
    ensures r != [] && AllDigits(r)
  {
    if n < 10 then [0x30 + n] else Digits(n / 10) + [0x30 + n % 10]
  }

  // "%lld"
  function IntText(i: int): (r: Text)
    ensures r != []
  {
    if i < 0 then [MINUS] + Digits(-i) else Digits(i)
  }

  predicate AllDigits(s: Text) { forall i :: 0 <= i < |s| ==> IsDigit(s[i]) }

  function DigitValue(c: int): int { c - 0x30 }

  function DecimalValue(s: Text): (r: int)
    requires AllDigits(s)
    ensures r >= 0
  {
    if s == [] then 0 else DecimalValue(s[..|s| - 1]) * 10 + DigitValue(s[|s| - 1])
  }

  lemma {:induction false} DigitsValue(n: nat)
    ensures DecimalValue(Digits(n)) == n
  {
    if n < 10 {
      assert Digits(n)[..0] == [];
      assert DecimalValue([]) == 0;
    } else {
      DigitsValue(n / 10);
      assert Digits(n)[..|Digits(n)| - 1] == Digits(n / 10);
    }
  }

  const LLONG_MIN: int := -0x8000_0000_0000_0000
  const LLONG_MAX: int := 0x7FFF_FFFF_FFFF_FFFF
}
