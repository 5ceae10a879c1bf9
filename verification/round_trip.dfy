/** What the reader makes of the builder's text: `JSONReader.toObject` applied
    to `JSONBuilder.toJSON(v)`.

    The two were written to meet: null, booleans, numbers in int or long
    range and strings that need no escape come back as they went in, and so
    does a flat array of them. Two things do not survive the trip: a number
    of int range boxed as a `Long` comes back as an `Integer`, and every
    backslash the builder writes is dropped by the reader, so a string that
    needed an escape comes back changed. */
module RoundTrip {
  import opened Results
  import opened Chars
  import opened Values
  import opened Lexer
  import opened JavaNumbers
  import opened Escaping
  import JsonBuilder
  import opened JsonReader

  /** A string the builder writes between its quotes as it is. */
  predicate Plain(w: string) {
    forall j :: 0 <= j < |w| ==> VerbatimAt(w, j)
  }

  /** A value written as one bare word: null, a boolean, an `Integer`, or a
      `Long` too large for an `Integer`. */
  predicate WordValue(x: Value) {
    match x
    case Null => true
    case Bool(_) => true
    case Int(n) => InInt(n)
    case Long(n) => InLong(n) && !InInt(n)
    case _ => false
  }

  /** A value the reader gives back unchanged: a word value or a plain
      string. */
  predicate Exact(x: Value) {
    WordValue(x) || (x.Str? && Plain(x.s))
  }

  // ---------------------------------------------------------------- text

  /** A plain string is quoted as it is and holds no backslash or quote. */
  lemma QuotedPlain(w: string)
    requires Plain(w)
    ensures JsonBuilder.Quote(w) == "\"" + w + "\""
    ensures PlainText(w)
  {
    EscapeIdentity(w);
    forall i | 0 <= i < |w|
      ensures w[i] != '\\' && w[i] != '"'
    {
      assert VerbatimAt(w, i);
    }
  }

  /** A number's decimal text is a word that opens nothing. */
  lemma IntWord(n: int)
    ensures Word(IntToString(n)) && !Opens(IntToString(n)[0])
  {
    var t := IntToString(n);
    var d := NatToString(if n < 0 then -n else n);
    assert forall i :: 0 <= i < |d| ==> IsAsciiDigit(d[i]);
    forall i | 0 <= i < |t|
      ensures !IsWhitespace(t[i]) && !IsDelimiter(t[i])
    {
      if n < 0 && i == 0 {
        assert t[i] == '-';
      } else {
        assert t[i] == d[if n < 0 then i - 1 else i];
      }
    }
  }

  /** A word value is written as a word the reader classifies back to it. */
  lemma WordText(x: Value)
    requires WordValue(x)
    ensures var t := JsonBuilder.Ser(x);
            Word(t) && !Opens(t[0]) && Classify(t) == x
  {
    var t := JsonBuilder.Ser(x);
    assert Classify(t) == ClassifyStage(t, 1);
    match x
    case Null =>
    case Bool(b) =>
    case Int(n) =>
      IntWord(n);
      ClassifyIntToString(n);
    case Long(n) =>
      IntWord(n);
      ClassifyIntToString(n);
  }

  // ---------------------------------------------------------------- scalars

  /** A whole input that is one word reads as that word's classification. */
  lemma ReadsWord(t: string)
    requires Word(t) && !Opens(t[0])
    ensures ToObject(t) == Ok(Classify(t))
  {
    assert t[0..|t|] == t;
    ReadWord(t, 0, t, |t|);
    ToObjectReads(t, 0, Classify(t), |t|);
  }

  /** A whole input that is one quoted plain text reads as that string. */
  lemma ReadsQuoted(w: string)
    requires PlainText(w)
    ensures ToObject("\"" + w + "\"") == Ok(Str(w))
  {
    var t := "\"" + w + "\"";
    assert t[1..1 + |w|] == w;
    ReadQuoted(t, 0, w);
    ToObjectReads(t, 0, Str(w), |w| + 2);
  }

  /** Every exact value survives the trip unchanged. */
  lemma ScalarRoundTrip(x: Value)
    requires Exact(x)
    ensures ToObject(JsonBuilder.ToJson(x)) == Ok(x)
  {
    JsonBuilder.ToJsonSerializes(x);
    if x.Str? {
      QuotedPlain(x.s);
      ReadsQuoted(x.s);
    } else {
      WordText(x);
      ReadsWord(JsonBuilder.Ser(x));
    }
  }

  /** A `Long` of int range comes back as an `Integer`. */
  lemma LongNarrows(n: int)
    requires InInt(n)
    ensures ToObject(JsonBuilder.ToJson(Long(n))) == Ok(Int(n))
  {
    JsonBuilder.ToJsonSerializes(Long(n));
    IntWord(n);
    ClassifyIntToString(n);
    ReadsWord(IntToString(n));
  }

  /** A character is written as a one-character string and comes back as
      one. */
  lemma CharacterReadsAsString(c: char)
    requires Verbatim(NUL, c)
    ensures ToObject(JsonBuilder.ToJson(Character(c))) == Ok(Str([c]))
  {
    JsonBuilder.ToJsonSerializes(Character(c));
    assert VerbatimAt([c], 0);
    QuotedPlain([c]);
    ReadsQuoted([c]);
  }

  /** The reader drops every backslash, so a string holding one never comes
      back: the builder's escapes are not undone. */
  lemma BackslashLost(w: string)
    requires '\\' in w
    ensures ToObject(JsonBuilder.ToJson(Str(w))) != Ok(Str(w))
  {
    JsonBuilder.ToJsonSerializes(Str(w));
    var t := JsonBuilder.Ser(Str(w));
    assert t[0] == '"';
    var (r, q) := ReadString(t, 1);
    assert ReadItem(t, Ch('"'), 1) == Ok((Str(r), q));
    ToObjectReads(t, 0, Str(r), q);
    assert '\\' !in r;
  }

  // ---------------------------------------------------------------- arrays

  /** How far past its own text the reader goes for an element: a literal
      also consumes the delimiter after it, a string stops at its quote. */
  function Gap(x: Value): nat {
    if x.Str? then 0 else 1
  }

  /** How element `x` is written as `w`: a plain string between quotes, or
      a word the reader classifies back to `x`. */
  predicate Written(x: Value, w: string) {
    if x.Str? then w == "\"" + x.s + "\"" && PlainText(x.s)
    else Word(w) && !Opens(w[0]) && Classify(w) == x
  }

  lemma ExactWritten(x: Value)
    requires Exact(x)
    ensures Written(x, JsonBuilder.Ser(x))
    ensures |JsonBuilder.Ser(x)| > 0 && JsonBuilder.Ser(x)[0] != ']'
  {
    if x.Str? {
      QuotedPlain(x.s);
    } else {
      WordText(x);
    }
  }

  /** A quoted plain text inside a longer input reads as that string. */
  lemma QuotedRead(t: string, s: string, p: nat)
    requires PlainText(t) && p + |t| + 2 <= |s| && s[p..p + |t| + 2] == "\"" + t + "\""
    ensures ReadItem(s, Ch('"'), p + 1) == Ok((Str(t), p + |t| + 2))
  {
    assert s[p + 1..p + 1 + |t|] == t by {
      forall k | 0 <= k < |t|
        ensures s[p + 1 + k] == t[k]
      {
        assert s[p + 1 + k] == s[p..p + |t| + 2][1 + k];
      }
    }
    assert s[p + 1 + |t|] == s[p..p + |t| + 2][|t| + 1];
    ReadQuoted(s, p, t);
  }

  /** Text `w` stands at position `p` of `s` and is followed by a `,` or a
      `]`. */
  predicate Followed(s: string, p: nat, w: string) {
    p + |w| < |s| && s[p..p + |w|] == w && (s[p + |w|] == ',' || s[p + |w|] == ']')
  }

  /** A string element written as `w` reads as itself. */
  lemma StringRead(x: Value, w: string, s: string, p: nat)
    requires Written(x, w) && x.Str? && Followed(s, p, w)
    ensures ReadItem(s, Ch(w[0]), p + 1) == Ok((x, p + |w| + Gap(x)))
  {
    assert w[0] == '"';
    QuotedRead(x.s, s, p);
  }

  /** A word element written as `w` reads as itself, the delimiter after it
      consumed. */
  lemma WordRead(x: Value, w: string, s: string, p: nat)
    requires Written(x, w) && !x.Str? && Followed(s, p, w)
    ensures ReadItem(s, Ch(w[0]), p + 1) == Ok((x, p + |w| + Gap(x)))
  {
    var n := p + |w| + Gap(x);
    WordFacts(x, w);
    FollowedFacts(s, p, w, p + |w|);
    ReadWordBefore(s, p, w, x, n);
    assert ReadItem(s, Ch(w[0]), p + 1) == Ok((x, n));
  }

  /** What a written word element says about its text. */
  lemma WordFacts(x: Value, w: string)
    requires Written(x, w) && !x.Str?
    ensures Word(w) && !Opens(w[0]) && Classify(w) == x && Gap(x) == 1
  {
  }

  /** What following text says about the character after it. */
  lemma FollowedFacts(s: string, p: nat, w: string, e: nat)
    requires Followed(s, p, w) && e == p + |w|
    ensures e < |s| && s[p..e] == w && IsDelimiter(s[e])
  {
  }

  lemma ElementRead(x: Value, w: string, s: string, p: nat)
    requires Written(x, w) && Followed(s, p, w)
    ensures ReadItem(s, Ch(w[0]), p + 1) == Ok((x, p + |w| + Gap(x)))
  {
    if x.Str? {
      StringRead(x, w, s, p);
    } else {
      WordRead(x, w, s, p);
    }
  }

  /** Cutting a text made of `w`, one separator character and the rest. */
  lemma Split(s: string, p: nat, w: string, sep: string, rest: string)
    requires p <= |s| && |sep| == 1 && s[p..] == w + sep + rest
    ensures p + |w| < |s| && s[p..p + |w|] == w && s[p] == (w + sep)[0]
    ensures s[p + |w|] == sep[0] && s[p + |w| + 1..] == rest && |s| == p + |w| + 1 + |rest|
  {
    assert s[p..][..|w|] == w;
    assert s[p..][|w| + 1..] == rest;
  }

  /** The texts the builder writes for each element. */
  function Texts(xs: seq<Value>): (ws: seq<string>)
    ensures |ws| == |xs| && forall k :: 0 <= k < |xs| ==> ws[k] == JsonBuilder.Ser(xs[k])
  {
    seq(|xs|, k requires 0 <= k < |xs| => JsonBuilder.Ser(xs[k]))
  }

  /** Element texts from `i` on, separated by commas, and the closing
      bracket. */
  function Joined(ws: seq<string>, i: nat): string
    requires i < |ws|
    decreases |ws| - i
  {
    if i + 1 == |ws| then ws[i] + "]" else ws[i] + "," + Joined(ws, i + 1)
  }

  /** The joined texts start with the first text's first character. */
  lemma JoinedStart(ws: seq<string>, i: nat)
    requires i < |ws| && |ws[i]| > 0
    ensures |Joined(ws, i)| > 0 && Joined(ws, i)[0] == ws[i][0]
  {
  }

  /** Closing a text whose tail is the separator-led rest. */
  lemma Close(a: string, tail: string, joined: string)
    requires tail + "]" == "," + joined
    ensures (a + tail) + "]" == a + "," + joined
  {
    calc {
      (a + tail) + "]";
      a + (tail + "]");
      a + ("," + joined);
      a + "," + joined;
    }
  }

  /** The builder's elements from `i > 0` on, with the closing bracket, are
      a comma and the joined texts. */
  lemma {:induction false} SerJoined(xs: seq<Value>, i: nat)
    requires 0 < i < |xs|
    ensures JsonBuilder.SerItems(List(xs), i) + "]" == "," + Joined(Texts(xs), i)
    decreases |xs| - i
  {
    var ws := Texts(xs);
    var tail := JsonBuilder.SerItems(List(xs), i + 1);
    assert JsonBuilder.SerItems(List(xs), i) == "," + ws[i] + tail;
    if i + 1 < |xs| {
      SerJoined(xs, i + 1);
      Close("," + ws[i], tail, Joined(ws, i + 1));
    } else {
      assert tail == "";
    }
  }

  /** The builder's elements of a non-empty list, with the closing bracket,
      are the joined texts. */
  lemma SerJoinedFirst(xs: seq<Value>)
    requires 0 < |xs|
    ensures JsonBuilder.SerItems(List(xs), 0) + "]" == Joined(Texts(xs), 0)
  {
    var ws := Texts(xs);
    var tail := JsonBuilder.SerItems(List(xs), 1);
    assert JsonBuilder.SerItems(List(xs), 0) == "" + ws[0] + tail;
    if 1 < |xs| {
      SerJoined(xs, 1);
      Close("" + ws[0], tail, Joined(ws, 1));
    } else {
      assert tail == "";
    }
  }

  /** A written element starts with neither whitespace nor a delimiter. */
  lemma WrittenStart(x: Value, w: string)
    requires Written(x, w)
    ensures |w| > 0 && !IsWhitespace(w[0]) && !IsDelimiter(w[0])
  {
  }

  /** The read of an element written as `w` at `p`, in the terms the walk
      uses: from the character at `p`, ending at `q`. */
  lemma ElementAt(x: Value, w: string, s: string, p: nat, q: nat)
    requires Written(x, w) && Followed(s, p, w) && q == p + |w| + Gap(x)
    ensures p < |s| && s[p] != ']' && ReadItem(s, Ch(s[p]), p + 1) == Ok((x, q))
    ensures q == p + |w| || q == p + |w| + 1
  {
    WrittenStart(x, w);
    assert s[p] == w[0];
    ElementRead(x, w, s, p);
  }

  /** A non-empty text `w` at `p`, followed by `sep` and the rest. */
  lemma TextAt(s: string, p: nat, w: string, sep: string, rest: string)
    requires |w| > 0 && p <= |s| && s[p..] == w + sep + rest && (sep == "," || sep == "]")
    ensures Followed(s, p, w) && s[p] == w[0]
    ensures s[p + |w|] == sep[0] && s[p + |w| + 1..] == rest && |s| == p + |w| + 1 + |rest|
  {
    Split(s, p, w, sep, rest);
  }

  /** A non-empty text `w` at `p`, then a `]` that ends the input. */
  lemma LastText(s: string, p: nat, w: string)
    requires |w| > 0 && p <= |s| && s[p..] == w + "]"
    ensures Followed(s, p, w) && s[p] == w[0] && |s| == p + |w| + 1 && s[|s| - 1] == ']'
  {
    assert s[p..] == w + "]" + "";
    TextAt(s, p, w, "]", "");
  }

  /** The walk over the last element, which ends the input. */
  lemma LastWalk(xs: seq<Value>, s: string, p: nat, q: nat)
    requires 0 < |xs| && p < |s| && s[p] != ']'
    requires ReadItem(s, Ch(s[p]), p + 1) == Ok((xs[|xs| - 1], q))
    requires s[|s| - 1] == ']' && (q == |s| - 1 || q == |s|)
    ensures ArrayLoop(Add, s, Ch(s[p]), p + 1, xs[..|xs| - 1]) == Ok((List(xs), |s|))
  {
    assert xs[..|xs| - 1] + [xs[|xs| - 1]] == xs;
    LastElement(xs[|xs| - 1], s, Ch(s[p]), p + 1, q, xs[..|xs| - 1]);
  }

  /** A prefix grown by the next element. */
  lemma Prefix(xs: seq<Value>, i: nat)
    requires i < |xs|
    ensures xs[..i] + [xs[i]] == xs[..i + 1]
  {
  }

  /** The walk over element `i`, followed by a `,` at `e` and the next
      element at `p'`. */
  lemma MiddleWalk(xs: seq<Value>, i: nat, s: string, p: nat, q: nat, e: nat, p': nat)
    requires i < |xs| && p < |s| && s[p] != ']'
    requires ReadItem(s, Ch(s[p]), p + 1) == Ok((xs[i], q))
    requires p' == e + 1 < |s| && s[e] == ',' && !IsWhitespace(s[p']) && s[p'] != ','
    requires q == e || q == e + 1
    ensures ArrayLoop(Add, s, Ch(s[p]), p + 1, xs[..i]) == ArrayLoop(Add, s, Ch(s[p']), p' + 1, xs[..i + 1])
  {
    Prefix(xs, i);
    MiddleElement(xs[i], s, Ch(s[p]), p + 1, q, e, p', xs[..i], xs[..i + 1]);
  }

  /** The array walk from element `i` of a flat list written as the texts
      `ws`, running to the end of the input: it gathers the rest of the
      elements and stops at the end. */
  lemma {:induction false} ItemsLoop(xs: seq<Value>, ws: seq<string>, s: string, p: nat, i: nat)
    requires i < |xs| == |ws| && forall k :: 0 <= k < |xs| ==> Written(xs[k], ws[k])
    requires p < |s| && s[p..] == Joined(ws, i)
    ensures ArrayLoop(Add, s, Ch(s[p]), p + 1, xs[..i]) == Ok((List(xs), |s|))
    decreases |xs| - i
  {
    var w := ws[i];
    var e := p + |w|;
    var q := e + Gap(xs[i]);
    WrittenStart(xs[i], w);
    if i + 1 == |xs| {
      LastText(s, p, w);
      ElementAt(xs[i], w, s, p, q);
      LastWalk(xs, s, p, q);
    } else {
      var rest := Joined(ws, i + 1);
      WrittenStart(xs[i + 1], ws[i + 1]);
      JoinedStart(ws, i + 1);
      TextAt(s, p, w, ",", rest);
      ElementAt(xs[i], w, s, p, q);
      var p' := e + 1;
      MiddleWalk(xs, i, s, p, q, e, p');
      ItemsLoop(xs, ws, s, p', i + 1);
    }
  }

  /** Every element of a flat list of exact values is written as its text. */
  lemma AllWritten(xs: seq<Value>)
    requires forall k :: 0 <= k < |xs| ==> Exact(xs[k])
    ensures forall k :: 0 <= k < |xs| ==> Written(xs[k], Texts(xs)[k])
  {
    forall k | 0 <= k < |xs|
      ensures Written(xs[k], Texts(xs)[k])
    {
      ExactWritten(xs[k]);
    }
  }

  /** The builder's text of a non-empty list: a bracket and the joined
      texts. */
  lemma ListText(xs: seq<Value>)
    requires 0 < |xs|
    ensures var s := JsonBuilder.Ser(List(xs));
            1 < |s| && s[0] == '[' && s[1..] == Joined(Texts(xs), 0)
  {
    var s := JsonBuilder.Ser(List(xs));
    var body := JsonBuilder.SerItems(List(xs), 0) + "]";
    assert s == "[" + body;
    SerJoinedFirst(xs);
    assert s[1..] == body;
  }

  /** A flat list of exact values survives the trip unchanged. */
  lemma ListRoundTrip(xs: seq<Value>)
    requires forall k :: 0 <= k < |xs| ==> Exact(xs[k])
    ensures ToObject(JsonBuilder.ToJson(List(xs))) == Ok(List(xs))
  {
    JsonBuilder.ToJsonSerializes(List(xs));
    var s := JsonBuilder.Ser(List(xs));
    if xs == [] {
      assert s == "[]";
      ReadItemArray(s, 1);
    } else {
      ItemsRead(xs, s);
    }
    ToObjectReads(s, 0, List(xs), |s|);
  }

  /** The builder as written gives the same round trip for a scalar, since
      its extra comma flag matters only before a container. */
  lemma ScalarRoundTripAsWritten(x: Value)
    requires Exact(x)
    ensures ToObject(JsonBuilder.ToJsonAsWritten(x)) == Ok(x)
  {
    JsonBuilder.ScalarVariantsAgree(JsonBuilder.Fresh, x);
    ScalarRoundTrip(x);
  }

  /** The builder as written gives the same round trip for a flat list: no
      container follows a sibling in it, so no second comma is written. */
  lemma ListRoundTripAsWritten(xs: seq<Value>)
    requires forall k :: 0 <= k < |xs| ==> Exact(xs[k])
    ensures ToObject(JsonBuilder.ToJsonAsWritten(List(xs))) == Ok(List(xs))
  {
    ListRoundTrip(xs);
    JsonBuilder.ToJsonSerializes(List(xs));
    assert JsonBuilder.SiblingSafe(List(xs));
    JsonBuilder.AsWrittenSerializes(List(xs));
  }

  /** The text of a non-empty flat list of exact values reads back, after
      its bracket, as the list, up to the end of the text. */
  lemma ItemsRead(xs: seq<Value>, s: string)
    requires 0 < |xs| && forall k :: 0 <= k < |xs| ==> Exact(xs[k])
    requires s == JsonBuilder.Ser(List(xs))
    ensures 0 < |s| && s[0] == '[' && ReadItem(s, Ch('['), 1) == Ok((List(xs), |s|))
  {
    ListText(xs);
    AllWritten(xs);
    ReadItemArray(s, 1);
    assert xs[..0] == [];
    ItemsLoop(xs, Texts(xs), s, 1, 0);
  }

}
