/** How jq prints strings (contrib/jq/jq_output.go), and reading them back by section 7 of RFC 8259.

    Text is a sequence of Unicode scalar values; a byte that is not valid UTF-8 has no scalar value
    and is printed as the replacement character.
 */
module JqString {

  type Code = c: nat | c < 0x11_0000

  predicate IsScalar(c: Code) { !(0xD800 <= c < 0xE000) }

  /** What utf8.DecodeRuneInString delivers: a scalar value, or a byte that cannot be decoded. */
  datatype Rune = Valid(code: Code) | BadByte

  predicate WellFormed(value: seq<Rune>) {
    forall i | 0 <= i < |value| && value[i].Valid? :: IsScalar(value[i].code)
  }

  const QUOTE: Code := 0x22
  const BACKSLASH: Code := 0x5C
  const REPLACEMENT: Code := 0xFFFD

  function Meaning(r: Rune): Code { if r.Valid? then r.code else REPLACEMENT }

  /** The scalar values a string stands for. */
  function Meanings(value: seq<Rune>): seq<Code> {
    seq(|value|, i requires 0 <= i < |value| => Meaning(value[i]))
  }

  // ----- printing -----

  /** One digit of "%04x". */
  function HexDigit(d: nat): (c: Code)
    requires d < 16
    ensures 0x30 <= c <= 0x39 || 0x61 <= c <= 0x66
  {
    if d < 10 then 0x30 + d else 0x61 + d - 10
  }

  function Hex4(n: nat): (s: seq<Code>)
    requires n < 0x1_0000
    ensures |s| == 4
  {
    [HexDigit(n / 0x10 / 0x10 / 0x10), HexDigit(n / 0x10 / 0x10 % 0x10), HexDigit(n / 0x10 % 0x10), HexDigit(n % 0x10)]
  }

  /** writeUnicodeEscape: above the basic plane, the two surrogates of utf16.EncodeRune. */
  function UnicodeEscape(r: Code): seq<Code> {
    if r < 0x1_0000 then [BACKSLASH, 0x75] + Hex4(r)
    else
      var hi, lo := 0xD800 + (r - 0x1_0000) / 0x400, 0xDC00 + (r - 0x1_0000) % 0x400;
      [BACKSLASH, 0x75] + Hex4(hi) + [BACKSLASH, 0x75] + Hex4(lo)
  }

  /** writeEscapedByte */
  function EscapedByte(b: Code): seq<Code> {
    if b == QUOTE then [BACKSLASH, QUOTE]
    else if b == BACKSLASH then [BACKSLASH, BACKSLASH]
    else if b == 0x08 then [BACKSLASH, 0x62]
    else if b == 0x0C then [BACKSLASH, 0x66]
    else if b == 0x0A then [BACKSLASH, 0x6E]
    else if b == 0x0D then [BACKSLASH, 0x72]
    else if b == 0x09 then [BACKSLASH, 0x74]
    else UnicodeEscape(b)
  }

  /** A character that is copied as it is. */
  predicate Copied(r: Rune, ascii: bool) {
    r.Valid? && if r.code < 0x80 then 0x20 <= r.code <= 0x7E && r.code != QUOTE && r.code != BACKSLASH else !ascii
  }

  function Printed(r: Rune, ascii: bool): seq<Code> {
    if Copied(r, ascii) then [Meaning(r)]
    else if r.Valid? && r.code < 0x80 then EscapedByte(r.code)
    else UnicodeEscape(Meaning(r))
  }

  function Body(value: seq<Rune>, ascii: bool): seq<Code> {
    if value == [] then [] else Printed(value[0], ascii) + Body(value[1..], ascii)
  }

  lemma {:induction false} BodyAppends(a: seq<Rune>, b: seq<Rune>, ascii: bool)
    ensures Body(a + b, ascii) == Body(a, ascii) + Body(b, ascii)
    decreases |a|
  {
    if a == [] {
      assert a + b == b;
    } else {
      assert (a + b)[1..] == a[1..] + b;
      BodyAppends(a[1..], b, ascii);
      assert Printed(a[0], ascii) + (Body(a[1..], ascii) + Body(b, ascii)) ==
             (Printed(a[0], ascii) + Body(a[1..], ascii)) + Body(b, ascii);
    }
  }

  // Characters that are copied one by one are copied as a slice.
  lemma {:induction false} CopiedSlice(value: seq<Rune>, ascii: bool)
    requires forall i | 0 <= i < |value| :: Copied(value[i], ascii)
    ensures Body(value, ascii) == Meanings(value)
    decreases |value|
  {
    if value != [] {
      CopiedSlice(value[1..], ascii);
      assert Meanings(value) == [Meaning(value[0])] + Meanings(value[1..]);
    }
  }

  /** encodeString: runs of plain characters are written as slices, from `start` to `i`. */
  method EncodeString(value: seq<Rune>, ascii: bool) returns (buf: seq<Code>)
    ensures buf == [QUOTE] + Body(value, ascii) + [QUOTE]
    ensures WellFormed(value) ==> Decode(buf) == Text(Meanings(value)) && (ascii ==> PrintableAscii(buf))
  {
    hide Body, Printed, UnicodeEscape, Decode;
    if WellFormed(value) {
      RoundTrip(value, ascii);
      AsciiOnly(value);
    }
    buf := [QUOTE];
    var start, i := 0, 0;
    BodyOfNothing(ascii);
    while i < |value|
      invariant 0 <= start <= i <= |value|
      invariant buf == [QUOTE] + Body(value[..start], ascii)
      invariant forall j | start <= j < i :: Copied(value[j], ascii)
    {
      var r := value[i];
      if r.Valid? && r.code < 0x80 {
        if 0x20 <= r.code <= 0x7E && r.code != QUOTE && r.code != BACKSLASH {
          i := i + 1;
          continue;
        }
        buf := Flush(buf, value, start, i, ascii);
        PrintedNext(value, i, ascii);
        buf := buf + EscapedByte(r.code);
        i := i + 1;
        start := i;
        continue;
      }
      if r.BadByte? {
        buf := Flush(buf, value, start, i, ascii);
        PrintedNext(value, i, ascii);
        buf := buf + UnicodeEscape(REPLACEMENT);
        i := i + 1;
        start := i;
        continue;
      }
      if !ascii {
        i := i + 1;
        continue;
      }
      buf := Flush(buf, value, start, i, ascii);
      PrintedNext(value, i, ascii);
      buf := buf + UnicodeEscape(r.code);
      i := i + 1;
      start := i;
    }
    buf := Flush(buf, value, start, |value|, ascii);
    assert value[..|value|] == value;
    buf := buf + [QUOTE];
  }

  lemma BodyOfNothing(ascii: bool)
    ensures Body([], ascii) == []
  {
  }

  // What escaping the i-th character adds.
  lemma PrintedNext(value: seq<Rune>, i: nat, ascii: bool)
    requires i < |value|
    ensures Body(value[..i + 1], ascii) == Body(value[..i], ascii) + Printed(value[i], ascii)
    ensures !Copied(value[i], ascii) ==>
            Printed(value[i], ascii) ==
            if value[i].Valid? && value[i].code < 0x80 then EscapedByte(value[i].code)
            else UnicodeEscape(Meaning(value[i]))
  {
    assert value[..i + 1] == value[..i] + [value[i]];
    BodyAppends(value[..i], [value[i]], ascii);
    assert [value[i]][1..] == [];
    assert Body([value[i]], ascii) == Printed(value[i], ascii) + [];
  }

  /** buf.WriteString(value[start:i]) */
  method Flush(buf: seq<Code>, value: seq<Rune>, start: nat, i: nat, ascii: bool) returns (r: seq<Code>)
    requires start <= i <= |value| && buf == [QUOTE] + Body(value[..start], ascii)
    requires forall j | start <= j < i :: Copied(value[j], ascii)
    ensures r == [QUOTE] + Body(value[..i], ascii)
  {
    hide Body, Printed;
    assert value[..i] == value[..start] + value[start..i];
    BodyAppends(value[..start], value[start..i], ascii);
    CopiedSlice(value[start..i], ascii);
    if start < i {
      r := buf + Meanings(value[start..i]);
    } else {
      r := buf;
    }
  }

  // ----- reading, by section 7 of RFC 8259 -----

  datatype Text = Text(codes: seq<Code>) | Malformed

  function HexValue(c: Code): int {
    if 0x30 <= c <= 0x39 then c - 0x30
    else if 0x41 <= c <= 0x46 then c - 0x41 + 10
    else if 0x61 <= c <= 0x66 then c - 0x61 + 10
    else -1
  }

  /** The number after "\u", or -1. */
  function Unit(s: seq<Code>): (n: int)
    ensures -1 <= n < 0x1_0000
  {
    if |s| < 6 || s[0] != BACKSLASH || s[1] != 0x75 || (exists i | 2 <= i < 6 :: HexValue(s[i]) < 0) then -1
    else HexValue(s[2]) * 0x1000 + HexValue(s[3]) * 0x100 + HexValue(s[4]) * 0x10 + HexValue(s[5])
  }

  function Short(c: Code): int {
    if c == QUOTE || c == BACKSLASH || c == 0x2F then c
    else if c == 0x62 then 0x08
    else if c == 0x66 then 0x0C
    else if c == 0x6E then 0x0A
    else if c == 0x72 then 0x0D
    else if c == 0x74 then 0x09
    else -1
  }

  datatype Char = Char(code: Code, length: nat) | Broken

  /** The first character: unescaped, a two-character escape, or \uXXXX with a pair of surrogates for
      a character outside the basic plane. */
  function FirstChar(s: seq<Code>): (c: Char)
    requires s != []
    ensures c.Char? ==> 1 <= c.length <= |s|
  {
    if s[0] != BACKSLASH then if s[0] < 0x20 || s[0] == QUOTE then Broken else Char(s[0], 1)
    else if |s| < 2 then Broken
    else if s[1] != 0x75 then if Short(s[1]) < 0 then Broken else Char(Short(s[1]), 2)
    else
      var n := Unit(s);
      if n < 0 || 0xDC00 <= n < 0xE000 then Broken
      else if n < 0xD800 || n >= 0xE000 then Char(n, 6)
      else
        var m := Unit(s[6..]);
        if 0xDC00 <= m < 0xE000 then Char(0x1_0000 + (n - 0xD800) * 0x400 + (m - 0xDC00), 12) else Broken
  }

  function DecodeBody(s: seq<Code>): Text
    decreases |s|
  {
    if s == [] then Malformed
    else if s == [QUOTE] then Text([])
    else match FirstChar(s)
      case Broken => Malformed
      case Char(c, n) =>
        match DecodeBody(s[n..])
        case Malformed => Malformed
        case Text(rest) => Text([c] + rest)
  }

  function Decode(s: seq<Code>): Text {
    if s != [] && s[0] == QUOTE then DecodeBody(s[1..]) else Malformed
  }

  lemma HexBack(d: nat)
    requires d < 16
    ensures HexValue(HexDigit(d)) == d
  {
  }

  lemma HexSum(n: nat)
    requires n < 0x1_0000
    ensures n / 0x10 / 0x10 / 0x10 * 0x1000 + n / 0x10 / 0x10 % 0x10 * 0x100 + n / 0x10 % 0x10 * 0x10 + n % 0x10 == n
  {
    var m := n / 0x10;
    var k := m / 0x10;
    assert n == m * 0x10 + n % 0x10;
    assert m == k * 0x10 + m % 0x10;
    assert k == k / 0x10 * 0x10 + k % 0x10;
  }

  // Four hex digits read back as the number they print.
  lemma UnitBack(n: nat, rest: seq<Code>)
    requires n < 0x1_0000
    ensures Unit([BACKSLASH, 0x75] + Hex4(n) + rest) == n && ([BACKSLASH, 0x75] + Hex4(n) + rest)[6..] == rest
  {
    var s := [BACKSLASH, 0x75] + Hex4(n) + rest;
    var a, b, c, d := n / 0x10 / 0x10 / 0x10, n / 0x10 / 0x10 % 0x10, n / 0x10 % 0x10, n % 0x10;
    HexSum(n);
    HexBack(a);
    HexBack(b);
    HexBack(c);
    HexBack(d);
    assert s[2] == HexDigit(a) && s[3] == HexDigit(b) && s[4] == HexDigit(c) && s[5] == HexDigit(d);
    DigitsAddUp(s, a, b, c, d);
  }

  lemma DigitsAddUp(s: seq<Code>, a: nat, b: nat, c: nat, d: nat)
    requires |s| >= 6 && s[0] == BACKSLASH && s[1] == 0x75
    requires HexValue(s[2]) == a && HexValue(s[3]) == b && HexValue(s[4]) == c && HexValue(s[5]) == d
    ensures Unit(s) == a * 0x1000 + b * 0x100 + c * 0x10 + d
  {
    hide HexValue;
    assert forall i | 2 <= i < 6 :: HexValue(s[i]) >= 0;
  }

  // An escape reads back as its scalar value, surrogate pairs included.
  lemma EscapeBack(r: Code, rest: seq<Code>)
    requires IsScalar(r)
    ensures var s := UnicodeEscape(r) + rest; var n := |UnicodeEscape(r)|;
            FirstChar(s) == Char(r, n) && s[n..] == rest
  {
    hide Unit, Hex4;
    var s := UnicodeEscape(r) + rest;
    if r < 0x1_0000 {
      UnitBack(r, rest);
      assert s == [BACKSLASH, 0x75] + Hex4(r) + rest;
    } else {
      var hi, lo := 0xD800 + (r - 0x1_0000) / 0x400, 0xDC00 + (r - 0x1_0000) % 0x400;
      var second := [BACKSLASH, 0x75] + Hex4(lo) + rest;
      UnitBack(hi, second);
      UnitBack(lo, rest);
      assert s == [BACKSLASH, 0x75] + Hex4(hi) + second;
      assert s[12..] == s[6..][6..];
    }
  }

  lemma PrintedBack(r: Rune, ascii: bool, rest: seq<Code>)
    requires r.Valid? ==> IsScalar(r.code)
    ensures var s := Printed(r, ascii) + rest; var n := |Printed(r, ascii)|;
            n > 0 && FirstChar(s) == Char(Meaning(r), n) && s[n..] == rest
  {
    hide Unit, Hex4;
    EscapeBack(Meaning(r), rest);
  }

  lemma {:induction false} BodyBack(value: seq<Rune>, ascii: bool)
    requires WellFormed(value)
    ensures DecodeBody(Body(value, ascii) + [QUOTE]) == Text(Meanings(value))
    decreases |value|
  {
    hide Printed, FirstChar;
    if value != [] {
      var rest := Body(value[1..], ascii) + [QUOTE];
      BodyBack(value[1..], ascii);
      PrintedBack(value[0], ascii, rest);
      assert Body(value, ascii) + [QUOTE] == Printed(value[0], ascii) + rest;
      assert Meanings(value) == [Meaning(value[0])] + Meanings(value[1..]);
    }
  }

  /** Printing and reading a string gives back its scalar values, in either mode. */
  lemma RoundTrip(value: seq<Rune>, ascii: bool)
    requires WellFormed(value)
    ensures Decode([QUOTE] + Body(value, ascii) + [QUOTE]) == Text(Meanings(value))
  {
    hide DecodeBody, Body;
    BodyBack(value, ascii);
    assert ([QUOTE] + Body(value, ascii) + [QUOTE])[1..] == Body(value, ascii) + [QUOTE];
  }

  predicate PrintableAscii(s: seq<Code>) {
    forall i | 0 <= i < |s| :: 0x20 <= s[i] <= 0x7E
  }

  /** ASCII mode prints only printable ASCII. */
  lemma {:induction false} AsciiOnly(value: seq<Rune>)
    requires WellFormed(value)
    ensures PrintableAscii(Body(value, true))
    decreases |value|
  {
    hide Printed;
    if value != [] {
      PrintedAscii(value[0]);
      AsciiOnly(value[1..]);
    }
  }

  lemma PrintedAscii(r: Rune)
    ensures PrintableAscii(Printed(r, true))
  {
    hide Hex4;
    forall n: nat | n < 0x1_0000 ensures PrintableAscii(Hex4(n)) {
      HexIsAscii(n);
    }
  }

  lemma HexIsAscii(n: nat)
    requires n < 0x1_0000
    ensures PrintableAscii(Hex4(n))
  {
  }

  /** How each character is printed: printable ASCII as it is, and outside ASCII mode everything beyond
      ASCII; quote, backslash and five control characters in two characters; the rest as "\u" and four
      hex digits, above the basic plane as two of them. Together with the round trip this leaves no
      choice but the case of the hex digits, which are lower-case. */
  lemma PrintedForm(r: Rune, ascii: bool)
    ensures var s, code := Printed(r, ascii), if r.Valid? then r.code else 0xFFFD;
            && (s == [code] <==>
                  r.Valid? && if code < 0x80 then 0x20 <= code < 0x7F && code !in {0x22, 0x5C} else !ascii)
            && (|s| == 2 <==> code in {0x08, 0x09, 0x0A, 0x0C, 0x0D, 0x22, 0x5C})
            && |s| in {1, 2, 6, 12} && (|s| == 12 ==> code >= 0x1_0000) && (|s| == 6 ==> code < 0x1_0000)
            && (|s| >= 2 ==> s[0] == 0x5C) && (|s| >= 6 ==> s[1] == 0x75)
            && (|s| >= 6 ==> forall i | 2 <= i < 6 :: 0x30 <= s[i] <= 0x39 || 0x61 <= s[i] <= 0x66)
            && (|s| == 12 ==>
                  && s[6] == 0x5C && s[7] == 0x75
                  && forall i | 8 <= i < 12 :: 0x30 <= s[i] <= 0x39 || 0x61 <= s[i] <= 0x66)
  {
    hide HexDigit;
  }
}
