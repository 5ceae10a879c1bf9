/** Character classes used by the codec, stated over Unicode code points. */
module Chars {

  /** `Character.isWhitespace`: the Unicode space, line and paragraph separators
      except the three no-break spaces, plus the ASCII controls
      U+0009..U+000D and U+001C..U+001F. */
  predicate IsWhitespace(c: char) {
    var n := c as int;
    || (0x09 <= n <= 0x0D)
    || (0x1C <= n <= 0x20)
    || n == 0x1680
    || (0x2000 <= n <= 0x2006)
    || (0x2008 <= n <= 0x200A)
    || n == 0x2028 || n == 0x2029
    || n == 0x205F
    || n == 0x3000
  }

  predicate IsAsciiUpper(c: char) { 'A' <= c <= 'Z' }

  predicate IsAsciiLower(c: char) { 'a' <= c <= 'z' }

  predicate IsAsciiDigit(c: char) { '0' <= c <= '9' }

  function ToLower(c: char): (r: char)
    ensures !IsAsciiUpper(r)
    ensures IsAsciiUpper(c) ==> IsAsciiLower(r) && ToUpper(r) == c
    ensures !IsAsciiUpper(c) ==> r == c
  {
    if IsAsciiUpper(c) then (c as int + 32) as char else c
  }

  function ToUpper(c: char): (r: char)
    ensures !IsAsciiLower(r)
    ensures IsAsciiLower(c) ==> IsAsciiUpper(r)
    ensures !IsAsciiLower(c) ==> r == c
  {
    if IsAsciiLower(c) then (c as int - 32) as char else c
  }

  /** `String.toLowerCase` restricted to ASCII letters. */
  function LowerString(s: string): (r: string)
    ensures |r| == |s|
    ensures forall i :: 0 <= i < |s| ==> r[i] == ToLower(s[i])
  {
    seq(|s|, i requires 0 <= i < |s| => ToLower(s[i]))
  }

  /** `String.toUpperCase` restricted to ASCII letters. */
  function UpperString(s: string): (r: string)
    ensures |r| == |s|
    ensures forall i :: 0 <= i < |s| ==> r[i] == ToUpper(s[i])
  {
    seq(|s|, i requires 0 <= i < |s| => ToUpper(s[i]))
  }

  predicate NoUpper(s: string) {
    forall i :: 0 <= i < |s| ==> !IsAsciiUpper(s[i])
  }

  /** Lower-casing is the identity exactly on strings without upper-case letters. */
  lemma LowerStringIdentity(s: string)
    ensures LowerString(s) == s <==> NoUpper(s)
  {
    if NoUpper(s) {
      assert forall i :: 0 <= i < |s| ==> LowerString(s)[i] == s[i];
    } else {
      var i :| 0 <= i < |s| && IsAsciiUpper(s[i]);
      assert LowerString(s)[i] != s[i];
    }
  }

  /** Whether `c` equals the lower-case ASCII letter `k` under
      `String.equalsIgnoreCase`, which compares the upper-case forms first:
      besides `k` and its capital, U+017F LATIN SMALL LETTER LONG S upper-cases
      to 'S' and so matches 's'. */
  predicate MatchesIgnoringCase(c: char, k: char)
    requires IsAsciiLower(k)
  {
    c == k || c == ToUpper(k) || (k == 's' && c as int == 0x017F)
  }

  /** `s.equalsIgnoreCase(keyword)` for an all-lower-case ASCII keyword. */
  predicate EqualsIgnoreCase(s: string, keyword: string)
    requires forall i :: 0 <= i < |keyword| ==> IsAsciiLower(keyword[i])
  {
    |s| == |keyword| && forall i :: 0 <= i < |s| ==> MatchesIgnoringCase(s[i], keyword[i])
  }
}
