/** The character-level reading both JSON readers share: `read()`, the
    whitespace-skipping read, the string scanner and the literal scanner,
    and the classification of a literal's text.

    A `java.io.Reader` over the input `s` is modelled by a position `p`
    into `s`: every read returns the next character and advances `p`, and
    at the end of input it returns -1 (here `End`) and stays put. */
module Lexer {
  import opened Results
  import opened Chars
  import opened JavaNumbers
  import opened Values

  /** The result of `Reader.read()`: a character, or -1 at end of input. */
  datatype Next = End | Ch(c: char)

  /** `nextChar()`: one raw read. */
  function NextChar(s: string, p: nat): (r: (Next, nat))
    requires p <= |s|
    ensures r.0.End? <==> p == |s|
    ensures r.0.Ch? ==> r.0.c == s[p] && r.1 == p + 1
    ensures r.0.End? ==> r.1 == p
  {
    if p == |s| then (End, p) else (Ch(s[p]), p + 1)
  }

  /** `nextNonWhitespaceChar()`: reads past whitespace and returns the first
      other character, or -1 when only whitespace is left. */
  function NextNonWhitespace(s: string, p: nat): (r: (Next, nat))
    requires p <= |s|
    ensures p <= r.1 <= |s|
    ensures r.0.End? ==> r.1 == |s| && forall j :: p <= j < |s| ==> IsWhitespace(s[j])
    ensures r.0.Ch? ==> p < r.1 && r.0.c == s[r.1 - 1] && !IsWhitespace(r.0.c)
    ensures r.0.Ch? ==> forall j :: p <= j < r.1 - 1 ==> IsWhitespace(s[j])
    decreases |s| - p
  {
    if p == |s| then (End, p)
    else if IsWhitespace(s[p]) then NextNonWhitespace(s, p + 1)
    else (Ch(s[p]), p + 1)
  }

  /** Whitespace from `p` up to a non-whitespace character at `e`: that
      character is the next one read. */
  lemma {:induction false} SkipTo(s: string, p: nat, e: nat)
    requires p <= e < |s| && !IsWhitespace(s[e])
    requires forall j :: p <= j < e ==> IsWhitespace(s[j])
    ensures NextNonWhitespace(s, p) == (Ch(s[e]), e + 1)
    decreases e - p
  {
    if p < e {
      SkipTo(s, p + 1, e);
    }
  }

  /** The read after an array element or an object member: the next non-whitespace character, and past
      it when it is a comma. */
  function SkipComma(s: string, p: nat): (r: (Next, nat))
    requires p <= |s|
    ensures p <= r.1 <= |s|
    ensures r.0.Ch? ==> p < r.1
  {
    var (n, q) := NextNonWhitespace(s, p);
    if n == Ch(',') then NextNonWhitespace(s, q) else (n, q)
  }

  // ---------------------------------------------------------------- strings

  /** The scan of `readString` from position `p`, `prev` being the raw
      character read before `p`: it stops after the first `"` whose raw
      predecessor is not a backslash, or at the end of input, and drops
      every backslash on the way. */
  function StringFrom(s: string, p: nat, prev: char): (r: (string, nat))
    requires p <= |s|
    ensures p <= r.1 <= |s|
    ensures |r.0| <= r.1 - p
    ensures forall i :: 0 <= i < |r.0| ==> r.0[i] != '\\'
    decreases |s| - p
  {
    if p == |s| then ("", p)
    else if s[p] == '"' && prev != '\\' then ("", p + 1)
    else
      var (t, q) := StringFrom(s, p + 1, s[p]);
      ((if s[p] == '\\' then "" else [s[p]]) + t, q)
  }

  /** `readString()`, called just after the opening quote; the scan starts
      with `prev = 0`. */
  function ReadString(s: string, p: nat): (r: (string, nat))
    requires p <= |s|
    ensures p <= r.1 <= |s|
    ensures forall i :: 0 <= i < |r.0| ==> r.0[i] != '\\'
  {
    StringFrom(s, p, 0 as char)
  }

  /** Text with neither a backslash nor a double quote. */
  predicate PlainText(w: string) {
    forall i :: 0 <= i < |w| ==> w[i] != '\\' && w[i] != '"'
  }

  /** A string without backslashes or quotes is read up to the next quote,
      which is consumed. */
  lemma {:induction false} StringFromPlain(s: string, p: nat, prev: char, w: string)
    requires prev != '\\' && PlainText(w)
    requires p + |w| < |s| && s[p..p + |w|] == w && s[p + |w|] == '"'
    ensures StringFrom(s, p, prev) == (w, p + |w| + 1)
    decreases |w|
  {
    if w != [] {
      assert s[p] == w[0];
      assert s[p + 1..p + 1 + |w[1..]|] == w[1..];
      StringFromPlain(s, p + 1, s[p], w[1..]);
      assert w == [w[0]] + w[1..];
    }
  }

  /** A backslash keeps the next quote inside the string and is itself
      dropped. */
  lemma StringFromEscapedQuote(s: string, p: nat, prev: char)
    requires p + 1 < |s| && s[p] == '\\' && s[p + 1] == '"'
    ensures StringFrom(s, p, prev).0 == "\"" + StringFrom(s, p + 2, '"').0
    ensures StringFrom(s, p, prev).1 == StringFrom(s, p + 2, '"').1
  {
    var r2 := StringFrom(s, p + 2, '"');
    var r1 := StringFrom(s, p + 1, '\\');
    assert r1 == ([s[p + 1]] + r2.0, r2.1);
    assert StringFrom(s, p, prev) == ("" + r1.0, r1.1);
  }

  // --------------------------------------------------------------- literals

  /** The characters that end a literal. */
  predicate IsDelimiter(c: char) {
    c == ',' || c == '}' || c == ']'
  }

  /** The read that ends a literal: end of input or a delimiter. */
  predicate Stops(n: Next) {
    n.End? || IsDelimiter(n.c)
  }

  /** The scan of `readLiteral(ch)`: `ch` was already read and `p` is the
      position after it. Each character is appended and the next one is read
      skipping whitespace, until a delimiter (consumed) or the end. */
  function LiteralFrom(s: string, ch: Next, p: nat): (r: (string, nat))
    requires p <= |s|
    ensures p <= r.1 <= |s|
    ensures Stops(ch) <==> r.0 == []
    ensures Stops(ch) ==> r.1 == p
    ensures forall i :: 0 <= i < |r.0| ==> !IsDelimiter(r.0[i])
    ensures forall i :: 0 < i < |r.0| ==> !IsWhitespace(r.0[i])
    decreases |s| - p, if ch.End? then 0 else 1
  {
    if Stops(ch) then ("", p)
    else
      var (n, q) := NextNonWhitespace(s, p);
      var (t, e) := LiteralFrom(s, n, q);
      ([ch.c] + t, e)
  }

  /** `w` without its whitespace characters. */
  function DropWhitespace(w: string): (r: string)
    ensures forall i :: 0 <= i < |r| ==> !IsWhitespace(r[i])
    ensures |r| <= |w|
  {
    if w == [] then []
    else (if IsWhitespace(w[0]) then [] else [w[0]]) + DropWhitespace(w[1..])
  }

  /** The position of the first delimiter at or after `p`, or the end. */
  function DelimiterAt(s: string, p: nat): (q: nat)
    requires p <= |s|
    ensures p <= q <= |s|
    ensures q < |s| ==> IsDelimiter(s[q])
    ensures forall j :: p <= j < q ==> !IsDelimiter(s[j])
    decreases |s| - p
  {
    if p == |s| || IsDelimiter(s[p]) then p else DelimiterAt(s, p + 1)
  }

  /** The literal is its first character followed by the non-whitespace
      characters up to the next delimiter, and the delimiter is consumed. */
  lemma {:induction false} LiteralText(s: string, c: char, p: nat)
    requires p <= |s| && !IsDelimiter(c)
    ensures var q := DelimiterAt(s, p);
            LiteralFrom(s, Ch(c), p) ==
              ([c] + DropWhitespace(s[p..q]), if q < |s| then q + 1 else q)
    decreases |s| - p
  {
    var (n, p1) := NextNonWhitespace(s, p);
    LiteralStep(s, c, p);
    if n.End? {
      LiteralAtEnd(s, p);
      assert s[p..DelimiterAt(s, p)] == s[p..];
      assert [c] + [] == [c];
    } else if IsDelimiter(n.c) {
      LiteralAtDelimiter(s, p, p1);
    } else {
      LiteralText(s, n.c, p1);
      LiteralOnward(s, c, p, p1);
    }
  }

  /** One step of the literal scan. */
  lemma LiteralStep(s: string, c: char, p: nat)
    requires p <= |s| && !IsDelimiter(c)
    ensures var (n, p1) := NextNonWhitespace(s, p);
            LiteralFrom(s, Ch(c), p) == ([c] + LiteralFrom(s, n, p1).0, LiteralFrom(s, n, p1).1)
  {
  }

  /** Only whitespace is left: there is no delimiter and nothing to keep. */
  lemma LiteralAtEnd(s: string, p: nat)
    requires p <= |s| && NextNonWhitespace(s, p).0.End?
    ensures DelimiterAt(s, p) == |s| && DropWhitespace(s[p..]) == []
  {
    SkippedWhitespace(s, p, |s|);
    DelimiterSkip(s, p, |s|);
    DropWhitespaceAll(s[p..]);
  }

  /** Whitespace and then a delimiter: the delimiter is the next one. */
  lemma LiteralAtDelimiter(s: string, p: nat, p1: nat)
    requires p < p1 <= |s| && NextNonWhitespace(s, p) == (Ch(s[p1 - 1]), p1)
    requires IsDelimiter(s[p1 - 1])
    ensures DelimiterAt(s, p) == p1 - 1 && DropWhitespace(s[p..p1 - 1]) == []
  {
    SkippedWhitespace(s, p, p1 - 1);
    DelimiterSkip(s, p, p1 - 1);
    DropWhitespaceAll(s[p..p1 - 1]);
  }

  /** Whitespace and then a literal character `s[p1 - 1]`: the text from
      `p` is that character and the text from `p1`. */
  lemma LiteralOnward(s: string, c: char, p: nat, p1: nat)
    requires p < p1 <= |s| && NextNonWhitespace(s, p) == (Ch(s[p1 - 1]), p1)
    requires !IsDelimiter(s[p1 - 1])
    ensures DelimiterAt(s, p) == DelimiterAt(s, p1)
    ensures DropWhitespace(s[p..DelimiterAt(s, p)]) ==
              [s[p1 - 1]] + DropWhitespace(s[p1..DelimiterAt(s, p1)])
  {
    var q := DelimiterAt(s, p1);
    SkippedWhitespace(s, p, p1 - 1);
    DelimiterSkip(s, p, p1);
    var rest := [s[p1 - 1]] + s[p1..q];
    assert s[p..q] == s[p..p1 - 1] + rest;
    DropWhitespaceConcat(s[p..p1 - 1], rest);
    DropWhitespaceAll(s[p..p1 - 1]);
    assert rest[0] == s[p1 - 1] && rest[1..] == s[p1..q];
  }

  /** A word: non-empty, without whitespace and without delimiters. */
  predicate Word(w: string) {
    |w| > 0 && forall i :: 0 <= i < |w| ==> !IsWhitespace(w[i]) && !IsDelimiter(w[i])
  }

  /** A word followed by optional whitespace and then a delimiter or the
      end is read as it is; the delimiter is consumed. */
  lemma LiteralWord(s: string, p: nat, w: string, e: nat)
    requires Word(w) && p + |w| <= e <= |s| && s[p..p + |w|] == w
    requires forall j :: p + |w| <= j < e ==> IsWhitespace(s[j])
    requires e == |s| || IsDelimiter(s[e])
    ensures LiteralFrom(s, Ch(w[0]), p + 1) == (w, if e < |s| then e + 1 else e)
  {
    var k := p + |w|;
    WordDelimiter(s, p, w, e);
    WordDrop(s, p, w, e);
    LiteralText(s, w[0], p + 1);
    assert w == [w[0]] + w[1..];
  }

  /** The next delimiter after a word's first character is the one after
      the word and its trailing whitespace. */
  lemma WordDelimiter(s: string, p: nat, w: string, e: nat)
    requires Word(w) && p + |w| <= e <= |s| && s[p..p + |w|] == w
    requires forall j :: p + |w| <= j < e ==> IsWhitespace(s[j])
    requires e == |s| || IsDelimiter(s[e])
    ensures DelimiterAt(s, p + 1) == e
  {
    var k := p + |w|;
    assert forall j :: p + 1 <= j < k ==> !IsDelimiter(s[j]) by {
      forall j | p + 1 <= j < k ensures !IsDelimiter(s[j]) {
        assert s[j] == w[j - p];
      }
    }
    SkippedWhitespace(s, k, e);
    DelimiterSkip(s, p + 1, k);
    DelimiterSkip(s, k, e);
  }

  /** Dropping the whitespace after a word's first character leaves the
      rest of the word. */
  lemma WordDrop(s: string, p: nat, w: string, e: nat)
    requires Word(w) && p + |w| <= e <= |s| && s[p..p + |w|] == w
    requires forall j :: p + |w| <= j < e ==> IsWhitespace(s[j])
    ensures DropWhitespace(s[p + 1..e]) == w[1..]
  {
    var k := p + |w|;
    assert s[p + 1..k] == w[1..];
    assert s[p + 1..e] == w[1..] + s[k..e];
    DropWhitespaceConcat(w[1..], s[k..e]);
    DropWhitespaceNone(w[1..]);
    assert forall j :: 0 <= j < e - k ==> s[k..e][j] == s[k + j];
    DropWhitespaceAll(s[k..e]);
  }

  lemma {:induction false} DropWhitespaceNone(w: string)
    requires forall j :: 0 <= j < |w| ==> !IsWhitespace(w[j])
    ensures DropWhitespace(w) == w
  {
    if w != [] {
      DropWhitespaceNone(w[1..]);
      assert w == [w[0]] + w[1..];
    }
  }

  /** Skipped whitespace holds no delimiter. */
  lemma SkippedWhitespace(s: string, p: nat, e: nat)
    requires p <= e <= |s|
    requires forall j :: p <= j < e ==> IsWhitespace(s[j])
    ensures forall j :: p <= j < e ==> !IsDelimiter(s[j])
  {
  }

  /** A stretch without delimiters leaves the next delimiter where it was. */
  lemma {:induction false} DelimiterSkip(s: string, p: nat, e: nat)
    requires p <= e <= |s|
    requires forall j :: p <= j < e ==> !IsDelimiter(s[j])
    ensures DelimiterAt(s, p) == DelimiterAt(s, e)
    decreases e - p
  {
    if p < e {
      DelimiterSkip(s, p + 1, e);
    }
  }

  lemma {:induction false} DropWhitespaceAll(w: string)
    requires forall j :: 0 <= j < |w| ==> IsWhitespace(w[j])
    ensures DropWhitespace(w) == []
  {
    if w != [] {
      DropWhitespaceAll(w[1..]);
    }
  }

  lemma {:induction false} DropWhitespaceConcat(a: string, b: string)
    ensures DropWhitespace(a + b) == DropWhitespace(a) + DropWhitespace(b)
  {
    if a == [] {
      assert a + b == b;
    } else {
      assert (a + b)[0] == a[0] && (a + b)[1..] == a[1..] + b;
      DropWhitespaceConcat(a[1..], b);
    }
  }

  // ---------------------------------------------------------- classification

  /** The value `readLiteral` makes of the gathered text: `null`, `true` and
      `false` ignoring case, then `Integer.valueOf`, `Long.valueOf` and
      `new BigDecimal`, and null when none of them accepts the text. */
  function Classify(text: string): (v: Value)
    ensures v.Null? || v.Bool? || v.Int? || v.Long? || v.Decimal?
  {
    ClassifyStage(text, 0)
  }

  /** `Classify` in two stages: stage 0 only defers to stage 1, which does
      the work. A proof about a text it does not spell out sees the
      classification as one value until it names stage 1, and naming `text`
      in the measure keeps a literal stage from opening it anyway. */
  function ClassifyStage(text: string, stage: nat): (v: Value)
    requires stage <= 1
    ensures v.Null? || v.Bool? || v.Int? || v.Long? || v.Decimal?
    decreases 1 - stage, |text|
  {
    if stage == 0 then ClassifyStage(text, 1)
    else if EqualsIgnoreCase(text, "null") then Null
    else if EqualsIgnoreCase(text, "true") then Bool(true)
    else if EqualsIgnoreCase(text, "false") then Bool(false)
    else match ParseInt(text)
      case Some(n) => Int(n)
      case None =>
        match ParseLong(text)
        case Some(n) => Long(n)
        case None =>
          match ParseDecimal(text)
          case Some((u, sc)) => Decimal(u, sc)
          case None => Null
  }

  /** The keywords match ignoring case and win over the number parsers;
      `Integer` is tried before `Long` and `Long` before `BigDecimal`. */
  lemma ClassifyOrder(text: string)
    ensures var v := Classify(text);
            && (EqualsIgnoreCase(text, "null") ==> v == Null)
            && (EqualsIgnoreCase(text, "true") ==> v == Bool(true))
            && (EqualsIgnoreCase(text, "false") ==> v == Bool(false))
            && (v.Int? ==> InInt(v.i) && ParseInt(text) == Some(v.i))
            && (v.Long? ==> InLong(v.l) && ParseInt(text).None? && ParseLong(text) == Some(v.l))
            && (v.Decimal? ==> ParseLong(text).None? && ParseDecimal(text) == Some((v.unscaled, v.scale)))
  {
    assert Classify(text) == ClassifyStage(text, 1);
    if EqualsIgnoreCase(text, "null") {
      assert MatchesIgnoringCase(text[0], 'n');
    } else if EqualsIgnoreCase(text, "true") {
      assert MatchesIgnoringCase(text[0], 't');
    }
  }

  /** The decimal text of a number is not a keyword. */
  lemma IntToStringNoKeyword(n: int)
    ensures !EqualsIgnoreCase(IntToString(n), "null")
    ensures !EqualsIgnoreCase(IntToString(n), "true")
    ensures !EqualsIgnoreCase(IntToString(n), "false")
  {
    var t := IntToString(n);
    if n < 0 {
      assert t[0] == '-';
    } else {
      assert IsAsciiDigit(t[0]);
    }
  }

  /** An integer written in decimal reads back as an `Integer` when it fits
      in 32 bits and as a `Long` when it fits only in 64. */
  lemma ClassifyIntToString(n: int)
    requires InLong(n)
    ensures Classify(IntToString(n)) == if InInt(n) then Int(n) else Long(n)
  {
    assert Classify(IntToString(n)) == ClassifyStage(IntToString(n), 1);
    IntToStringNoKeyword(n);
    IntToStringParses(n, INT_MIN, INT_MAX);
    IntToStringParses(n, LONG_MIN, LONG_MAX);
  }

  /** A literal that is none of the recognised forms reads as null; so does
      the empty literal. */
  lemma ClassifyEmpty()
    ensures Classify("") == Null
  {
    assert Classify("") == ClassifyStage("", 1);
    assert ParseInt("").None? && ParseLong("").None?;
    assert ParseDecimal("").None?;
  }
}
