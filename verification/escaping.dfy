/** `JSONBuilder.sanitizeAppend`: how the builder escapes the text of a
    string or a property name.

    Each input character is replaced by a chunk that depends on it and on
    the input character before it (the first character's predecessor is
    NUL, the loop's initial `c = 0`):
      - `\` and `"` get a backslash;
      - `/` gets a backslash only right after `<`;
      - U+0008, U+0009, U+000A, U+000C, U+000D become `\b \t \n \f \r`;
      - the other characters below U+0020, those in [U+0080, U+00A0) and
        those in [U+2000, U+2100) become `\u` and four lower-case hex digits;
      - everything else is copied. */
module Escaping {

  const NUL: char := 0 as char

  /** The characters written as `\u` and four hex digits, unless they have
      a named escape. */
  predicate InUnicodeRange(c: char) {
    c < ' ' || (0x80 <= c as int < 0xA0) || (0x2000 <= c as int < 0x2100)
  }

  /** The letter of the named escape of a control character, if it has one. */
  function NamedEscape(c: char): (r: char)
    ensures r in "btnfr" || r == NUL
  {
    if c as int == 0x08 then 'b'
    else if c == '\t' then 't'
    else if c == '\n' then 'n'
    else if c as int == 0x0C then 'f'
    else if c == '\r' then 'r'
    else NUL
  }

  /** The control character a named escape letter stands for. */
  function NamedChar(x: char): char
    requires x in "btnfr"
  {
    if x == 'b' then 0x08 as char
    else if x == 't' then '\t'
    else if x == 'n' then '\n'
    else if x == 'f' then 0x0C as char
    else '\r'
  }

  const HEX_DIGITS: string := "0123456789abcdef"

  /** A lower-case hex digit. */
  predicate IsHexDigit(c: char) {
    '0' <= c <= '9' || 'a' <= c <= 'f'
  }

  function HexDigit(d: nat): (c: char)
    requires d < 16
    ensures IsHexDigit(c)
  {
    HEX_DIGITS[d]
  }

  function HexValue(c: char): (d: int)
    ensures -1 <= d < 16
  {
    if '0' <= c <= '9' then c as int - '0' as int
    else if 'a' <= c <= 'f' then c as int - 'a' as int + 10
    else if 'A' <= c <= 'F' then c as int - 'A' as int + 10
    else -1
  }

  lemma HexDigitValue(d: nat)
    requires d < 16
    ensures HexValue(HexDigit(d)) == d
  {
  }

  /** `"%04x".formatted(n)` for a UTF-16 code unit. */
  function Hex4(n: nat): (r: string)
    requires n < 0x10000
    ensures |r| == 4
    ensures forall i :: 0 <= i < 4 ==> IsHexDigit(r[i])
  {
    var n1 := n / 16;
    var n2 := n1 / 16;
    [HexDigit(n2 / 16), HexDigit(n2 % 16), HexDigit(n1 % 16), HexDigit(n % 16)]
  }

  /** The number four hex digits spell, or -1 if one of them is not a hex digit. */
  function Hex4Value(h: string): (v: int)
    requires |h| == 4
    ensures -1 <= v < 0x10000
  {
    var a, b, c, d := HexValue(h[0]), HexValue(h[1]), HexValue(h[2]), HexValue(h[3]);
    if a < 0 || b < 0 || c < 0 || d < 0 then -1 else ((a * 16 + b) * 16 + c) * 16 + d
  }

  lemma Hex4RoundTrip(n: nat)
    requires n < 0x10000
    ensures Hex4Value(Hex4(n)) == n
  {
    var n1 := n / 16;
    var n2 := n1 / 16;
    HexDigitValue(n2 / 16);
    HexDigitValue(n2 % 16);
    HexDigitValue(n1 % 16);
    HexDigitValue(n % 16);
    assert n == n1 * 16 + n % 16;
    assert n1 == n2 * 16 + n1 % 16;
    assert n2 == (n2 / 16) * 16 + n2 % 16;
  }

  /** The text one input character `c` turns into, `prev` being the input
      character before it. */
  function Chunk(prev: char, c: char): (r: string)
    ensures 0 < |r| <= 6
  {
    if c == '\\' || c == '"' then ['\\', c]
    else if c == '/' then (if prev == '<' then "\\/" else "/")
    else if NamedEscape(c) != NUL then ['\\', NamedEscape(c)]
    else if InUnicodeRange(c) then "\\u" + Hex4(c as nat)
    else [c]
  }

  /** The input character before position `i`, NUL at the start. */
  function Prev(s: string, i: nat): char
    requires i <= |s|
  {
    if i == 0 then NUL else s[i - 1]
  }

  /** The escaped text of `s[i..]`. */
  function EscapeFrom(s: string, i: nat): (r: string)
    requires i <= |s|
    ensures |r| >= |s| - i
    decreases |s| - i, 1
  {
    if i == |s| then [] else EscapedAt(s, i)
  }

  /** The escaped text of `s[i..]` for a non-empty suffix: the chunk of
      character `i`, then the rest. */
  function EscapedAt(s: string, i: nat): (r: string)
    requires i < |s|
    ensures |r| >= |s| - i
    decreases |s| - i, 0
  {
    Chunk(Prev(s, i), s[i]) + EscapeFrom(s, i + 1)
  }

  /** What `sanitizeAppend(s)` appends. */
  function Escape(s: string): (r: string)
    ensures |r| >= |s|
  {
    EscapeFrom(s, 0)
  }

  lemma ChunkNoControl(prev: char, c: char)
    ensures forall j :: 0 <= j < |Chunk(prev, c)| ==> Chunk(prev, c)[j] >= ' '
  {
  }

  lemma {:induction false} EscapeFromNoControl(s: string, i: nat)
    requires i <= |s|
    ensures forall j :: 0 <= j < |EscapeFrom(s, i)| ==> EscapeFrom(s, i)[j] >= ' '
    decreases |s| - i
  {
    if i < |s| {
      ChunkNoControl(Prev(s, i), s[i]);
      EscapeFromNoControl(s, i + 1);
      assert EscapeFrom(s, i) == Chunk(Prev(s, i), s[i]) + EscapeFrom(s, i + 1);
    }
  }

  /** The escaped text never holds a raw control character. */
  lemma EscapeNoControl(s: string)
    ensures forall j :: 0 <= j < |Escape(s)| ==> Escape(s)[j] >= ' '
  {
    EscapeFromNoControl(s, 0);
  }

  /** The loop of `sanitizeAppend`, with the builder's text as `sb`. */
  method SanitizeAppend(sb: string, s: string) returns (out: string)
    ensures out == sb + Escape(s)
  {
    out := sb;
    var b: char;
    var c: char := NUL;
    var i := 0;
    while i < |s|
      invariant 0 <= i <= |s|
      invariant c == Prev(s, i)
      invariant out + EscapeFrom(s, i) == sb + Escape(s)
    {
      b := c;
      c := s[i];
      out := out + Chunk(b, c);
      i := i + 1;
    }
  }

  /** Characters copied as they are, given the character before them. */
  predicate Verbatim(prev: char, c: char) {
    c != '\\' && c != '"' && !(c == '/' && prev == '<') && !InUnicodeRange(c)
  }

  /** Character `j` of `s` is copied as it is. */
  predicate VerbatimAt(s: string, j: nat)
    requires j < |s|
  {
    Verbatim(Prev(s, j), s[j])
  }

  lemma ChunkVerbatim(prev: char, c: char)
    ensures Verbatim(prev, c) <==> Chunk(prev, c) == [c]
    ensures !Verbatim(prev, c) ==> |Chunk(prev, c)| >= 2
  {
  }

  /** Escaping changes nothing exactly when every character is copied as it is. */
  lemma {:induction false} EscapeFromIdentity(s: string, i: nat)
    requires i <= |s|
    ensures (EscapeFrom(s, i) == s[i..]) <==> (forall j :: i <= j < |s| ==> VerbatimAt(s, j))
    decreases |s| - i
  {
    if i < |s| {
      EscapeFromIdentity(s, i + 1);
      ChunkVerbatim(Prev(s, i), s[i]);
      var head := Chunk(Prev(s, i), s[i]);
      var rest := EscapeFrom(s, i + 1);
      assert s[i..] == [s[i]] + s[i + 1..];
      if VerbatimAt(s, i) {
        assert EscapeFrom(s, i) == [s[i]] + rest;
      } else {
        assert |EscapeFrom(s, i)| == |head| + |rest| > |s[i..]|;
      }
    }
  }

  lemma EscapeIdentity(s: string)
    ensures Escape(s) == s <==> forall j :: 0 <= j < |s| ==> VerbatimAt(s, j)
  {
    EscapeFromIdentity(s, 0);
  }

  /** A decoder for the escapes of section 7 of RFC 8259 (`\\`, `\"`, `\/`,
      the five named escapes and `\u` with four hex digits); anything else
      stands for itself. */
  function Unescape(t: string): string
    decreases |t|
  {
    if t == [] then []
    else if t[0] == '\\' && |t| >= 2 then
      var x := t[1];
      if x == 'u' && |t| >= 6 && 0 <= Hex4Value(t[2..6]) && !(0xD800 <= Hex4Value(t[2..6]) < 0xE000) then
        [Hex4Value(t[2..6]) as char] + Unescape(t[6..])
      else if x in "btnfr" then [NamedChar(x)] + Unescape(t[2..])
      else [x] + Unescape(t[2..])
    else [t[0]] + Unescape(t[1..])
  }

  /** Each chunk decodes to the character it came from, whatever follows it. */
  lemma UnescapeChunk(prev: char, c: char, rest: string)
    ensures Unescape(Chunk(prev, c) + rest) == [c] + Unescape(rest)
  {
    var t := Chunk(prev, c) + rest;
    if c == '\\' || c == '"' || c == '/' {
      if |Chunk(prev, c)| == 2 {
        assert t[2..] == rest;
      } else {
        assert t[1..] == rest;
      }
    } else if NamedEscape(c) != NUL {
      assert t[2..] == rest;
    } else if InUnicodeRange(c) {
      Hex4RoundTrip(c as nat);
      assert t[2..6] == Hex4(c as nat);
      assert t[6..] == rest;
    } else {
      assert t[1..] == rest;
    }
  }

  lemma {:induction false} UnescapeEscapeFrom(s: string, i: nat)
    requires i <= |s|
    ensures Unescape(EscapeFrom(s, i)) == s[i..]
    decreases |s| - i
  {
    if i < |s| {
      UnescapeEscapeFrom(s, i + 1);
      UnescapeChunk(Prev(s, i), s[i], EscapeFrom(s, i + 1));
      assert s[i..] == [s[i]] + s[i + 1..];
    }
  }

  /** Nothing is lost: decoding the escaped text gives the input back. */
  lemma UnescapeEscape(s: string)
    ensures Unescape(Escape(s)) == s
  {
    UnescapeEscapeFrom(s, 0);
  }

  // The test suite's examples, without the verbatim prefix "property".

  /** A quote is escaped, a slash only after `<`. */
  lemma EscapeQuoteSlashExample()
    ensures Escape("\"/</") == "\\\"/<\\/"
  {
    var s := "\"/</";
    assert EscapeFrom(s, 4) == [];
    assert Chunk('<', '/') == "\\/";
    assert EscapeFrom(s, 3) == Chunk('<', '/') + EscapeFrom(s, 4);
    assert Chunk('/', '<') == "<";
    assert EscapeFrom(s, 2) == Chunk('/', '<') + EscapeFrom(s, 3);
    assert Chunk('"', '/') == "/";
    assert EscapeFrom(s, 1) == Chunk('"', '/') + EscapeFrom(s, 2);
    assert Chunk(NUL, '"') == "\\\"";
    assert EscapeFrom(s, 0) == Chunk(NUL, '"') + EscapeFrom(s, 1);
  }

  /** The five named escapes. */
  lemma EscapeNamedExample()
    ensures Escape("\U{0008}\t\n\U{000c}\r") == "\\b\\t\\n\\f\\r"
  {
    var s := "\U{0008}\t\n\U{000c}\r";
    assert EscapeFrom(s, 5) == [];
    assert Chunk(12 as char, '\r') == "\\r";
    assert EscapeFrom(s, 4) == Chunk(12 as char, '\r') + EscapeFrom(s, 5);
    assert Chunk('\n', 12 as char) == "\\f";
    assert EscapeFrom(s, 3) == Chunk('\n', 12 as char) + EscapeFrom(s, 4);
    assert Chunk('\t', '\n') == "\\n";
    assert EscapeFrom(s, 2) == Chunk('\t', '\n') + EscapeFrom(s, 3);
    assert Chunk(8 as char, '\t') == "\\t";
    assert EscapeFrom(s, 1) == Chunk(8 as char, '\t') + EscapeFrom(s, 2);
    assert Chunk(NUL, 8 as char) == "\\b";
    assert EscapeFrom(s, 0) == Chunk(NUL, 8 as char) + EscapeFrom(s, 1);
  }

  /** Another control character. */
  lemma EscapeLowExample()
    ensures Escape("\U{0010}") == "\\u0010"
  {
    var s := "\U{0010}";
    assert EscapeFrom(s, 1) == [];
    assert Hex4(0x10) == "0010";
    assert Chunk(NUL, 16 as char) == "\\u" + Hex4(0x10);
    assert EscapeFrom(s, 0) == Chunk(NUL, 16 as char) + EscapeFrom(s, 1);
  }

  lemma HighChunk80(c: char)
    requires c == '\U{0080}'
    ensures Chunk(NUL, c) == "\\u0080"
  {
    assert Hex4(0x80) == [HexDigit(0), HexDigit(0), HexDigit(8), HexDigit(0)];
  }

  lemma HighChunk2000(prev: char, c: char)
    requires prev == '\U{00a1}' && c == '\U{2000}'
    ensures Chunk(prev, c) == "\\u2000"
  {
    assert Hex4(0x2000) == [HexDigit(2), HexDigit(0), HexDigit(0), HexDigit(0)];
  }

  /** U+0080 and U+2000 are escaped, U+00A1 and U+2101 are not. */
  lemma EscapeHighExample(s: string)
    requires s == "\U{0080}\U{00a1}\U{2000}\U{2101}"
    ensures Escape(s) == "\\u0080\U{00a1}\\u2000\U{2101}"
  {
    HighChunk80(s[0]);
    HighChunk2000(s[1], s[2]);
    assert EscapeFrom(s, 4) == [];
    assert EscapeFrom(s, 3) == Chunk(s[2], s[3]) + EscapeFrom(s, 4) == "\U{2101}";
    assert EscapeFrom(s, 2) == Chunk(s[1], s[2]) + EscapeFrom(s, 3);
    assert EscapeFrom(s, 1) == Chunk(s[0], s[1]) + EscapeFrom(s, 2);
    assert EscapeFrom(s, 0) == Chunk(NUL, s[0]) + EscapeFrom(s, 1);
  }
}
