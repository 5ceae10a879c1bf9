/** `baselib.JSONReader`, the older reader: the same scanner as the newer
    one, but it never raises an error. An object stops quietly at the first
    thing it does not expect (a key without a quote, a missing `:`, a
    member not followed by `,`) and returns the map read so far. */
module LegacyReader {
  import opened Chars
  import opened Values
  import opened Lexer
  import opened Results
  import JsonReader

  /** 0 for the end of input, 1 for a character. */
  function Rank(n: Next): nat {
    if n.End? then 0 else 1
  }

  /** `readItem`: dispatch on the character already read. */
  function Item(s: string, ch: Next, p: nat): (r: (Value, nat))
    requires p <= |s|
    ensures p <= r.1 <= |s|
    ensures ch == Ch('"') ==> r.0.Str?
    ensures ch == Ch('[') ==> r.0.List?
    ensures ch == Ch('{') ==> r.0.Dict?
    decreases |s| - p, Rank(ch), 1
  {
    if ch == Ch('"') then
      var (t, q) := ReadString(s, p);
      (Str(t), q)
    else if ch == Ch('[') then Array(s, p)
    else if ch == Ch('{') then Object(s, p)
    else
      var (t, q) := LiteralFrom(s, ch, p);
      (Classify(t), q)
  }

  /** `readArray`: the first read after the `[` is a raw one. */
  function Array(s: string, p: nat): (r: (Value, nat))
    requires p <= |s|
    ensures p <= r.1 <= |s| && r.0.List?
    decreases |s| - p, 1, 0
  {
    var (n, q) := NextChar(s, p);
    ArrayWalk(s, n, q, [])
  }

  /** The loop of `readArray`: until `]` or the end, add an element, then
      read the next character and skip one comma. */
  function ArrayWalk(s: string, ch: Next, p: nat, acc: seq<Value>): (r: (Value, nat))
    requires p <= |s|
    ensures p <= r.1 <= |s| && r.0.List?
    decreases |s| - p, Rank(ch), 2
  {
    if ch.End? || ch == Ch(']') then (List(acc), p)
    else
      var (v, q) := Item(s, ch, p);
      var (n, q') := SkipComma(s, q);
      ArrayWalk(s, n, q', acc + [v])
  }

  /** `readObject` after the `{`. */
  function Object(s: string, p: nat): (r: (Value, nat))
    requires p <= |s|
    ensures p <= r.1 <= |s| && r.0.Dict?
    decreases |s| - p, 1, 0
  {
    var (n, q) := NextNonWhitespace(s, p);
    ObjectWalk(s, n, q, [])
  }

  /** The loop of `readObject`: every unexpected character ends the object
      with the map read so far. */
  function ObjectWalk(s: string, ch: Next, p: nat, acc: seq<(string, Value)>): (r: (Value, nat))
    requires p <= |s|
    ensures p <= r.1 <= |s| && r.0.Dict?
    ensures ch.End? || ch == Ch('}') || ch != Ch('"') ==> r == (Dict(acc), p)
    decreases |s| - p, Rank(ch), 2
  {
    if ch.End? || ch == Ch('}') || ch != Ch('"') then (Dict(acc), p)
    else
      var (key, q) := ReadString(s, p);
      var (colon, q1) := NextNonWhitespace(s, q);
      if colon != Ch(':') then (Dict(acc), q1)
      else
        var (n, q2) := NextNonWhitespace(s, q1);
        var (v, q3) := Item(s, n, q2);
        var acc' := Put(acc, key, v);
        var (comma, q4) := NextNonWhitespace(s, q3);
        if comma != Ch(',') then (Dict(acc'), q4)
        else
          var (n', q5) := NextNonWhitespace(s, q4);
          ObjectWalk(s, n', q5, acc')
  }

  /** `fromJSON(string)` and `toObject()`: one item from the start. */
  function FromJson(s: string): (r: Value)
    ensures (forall j :: 0 <= j < |s| ==> IsWhitespace(s[j])) ==> r == Null
    ensures NextNonWhitespace(s, 0).0 == Ch('"') ==> r.Str?
  {
    var (n, p) := NextNonWhitespace(s, 0);
    Item(s, n, p).0
  }

  // ------------------------------------------------------------- objects

  /** A key not followed by `:` ends the object, without that key. */
  lemma MissingColon(s: string, p: nat, acc: seq<(string, Value)>)
    requires p <= |s|
    requires NextNonWhitespace(s, ReadString(s, p).1).0 != Ch(':')
    ensures ObjectWalk(s, Ch('"'), p, acc).0 == Dict(acc)
  {
  }

  /** A member followed by anything but `,` is the last one read. */
  lemma LastMember(s: string, p: nat, acc: seq<(string, Value)>, key: string, q: nat,
                   q1: nat, n: Next, q2: nat, v: Value, q3: nat)
    requires p <= |s| && ReadString(s, p) == (key, q)
    requires NextNonWhitespace(s, q) == (Ch(':'), q1) && NextNonWhitespace(s, q1) == (n, q2)
    requires Item(s, n, q2) == (v, q3) && NextNonWhitespace(s, q3).0 != Ch(',')
    ensures ObjectWalk(s, Ch('"'), p, acc) == (Dict(Put(acc, key, v)), NextNonWhitespace(s, q3).1)
  {
  }

  /** A member followed by `,` goes on with the next key. */
  lemma NextMember(s: string, p: nat, acc: seq<(string, Value)>, key: string, q: nat,
                   q1: nat, n: Next, q2: nat, v: Value, q3: nat, q4: nat, n': Next, q5: nat,
                   acc': seq<(string, Value)>)
    requires p <= |s| && ReadString(s, p) == (key, q)
    requires NextNonWhitespace(s, q) == (Ch(':'), q1) && NextNonWhitespace(s, q1) == (n, q2)
    requires Item(s, n, q2) == (v, q3) && NextNonWhitespace(s, q3) == (Ch(','), q4)
    requires NextNonWhitespace(s, q4) == (n', q5) && Put(acc, key, v) == acc'
    ensures ObjectWalk(s, Ch('"'), p, acc) == ObjectWalk(s, n', q5, acc')
  {
    var ch := Ch('"');
    assert !(ch.End? || ch == Ch('}') || ch != Ch('"'));
  }

  /** The object walk never holds two entries under one key: a repeated key
      replaces the earlier value. */
  lemma {:induction false} KeysDistinct(s: string, ch: Next, p: nat, acc: seq<(string, Value)>)
    requires p <= |s| && DistinctKeys(acc)
    ensures DistinctKeys(ObjectWalk(s, ch, p, acc).0.entries)
    decreases |s| - p, Rank(ch)
  {
    if ch == Ch('"') {
      var (key, q) := ReadString(s, p);
      var (colon, q1) := NextNonWhitespace(s, q);
      if colon == Ch(':') {
        var (n, q2) := NextNonWhitespace(s, q1);
        var (v, q3) := Item(s, n, q2);
        PutKeepsKeysDistinct(acc, key, v);
        var (comma, q4) := NextNonWhitespace(s, q3);
        if comma == Ch(',') {
          var (n', q5) := NextNonWhitespace(s, q4);
          KeysDistinct(s, n', q5, Put(acc, key, v));
        }
      }
    }
  }

  /** The walk keeps element order: what was gathered before stays, in
      order, at the front of the list. */
  lemma {:induction false} WalkKeepsOrder(s: string, ch: Next, p: nat, acc: seq<Value>)
    requires p <= |s|
    ensures acc <= ArrayWalk(s, ch, p, acc).0.items
    decreases |s| - p, Rank(ch)
  {
    if !(ch.End? || ch == Ch(']')) {
      var (v, q) := Item(s, ch, p);
      var (n, q') := SkipComma(s, q);
      WalkKeepsOrder(s, n, q', acc + [v]);
    }
  }

  // ------------------------------------------- agreement with the newer reader

  /** No `{` from position `p` on. */
  predicate NoBrace(s: string, p: nat) {
    forall j :: p <= j < |s| ==> s[j] != '{'
  }

  /** On a text without objects the two readers read the same item: the
      newer one differs only in how it handles objects. */
  lemma {:induction false} AgreeItem(s: string, ch: Next, p: nat)
    requires p <= |s| && NoBrace(s, p) && ch != Ch('{')
    ensures JsonReader.ReadItem(s, ch, p) == Ok(Item(s, ch, p))
    decreases |s| - p, Rank(ch), 1
  {
    if ch == Ch('[') {
      var (n, q) := NextChar(s, p);
      AgreeWalk(s, n, q, []);
    }
  }

  lemma {:induction false} AgreeWalk(s: string, ch: Next, p: nat, acc: seq<Value>)
    requires p <= |s| && NoBrace(s, p) && ch != Ch('{')
    ensures JsonReader.ArrayLoop(JsonReader.Add, s, ch, p, acc) == Ok(ArrayWalk(s, ch, p, acc))
    decreases |s| - p, Rank(ch), 2
  {
    if !(ch.End? || ch == Ch(']')) {
      AgreeItem(s, ch, p);
      var (v, q) := Item(s, ch, p);
      var (n, q') := SkipComma(s, q);
      AgreeWalk(s, n, q', acc + [v]);
    }
  }

  /** Hence `fromJSON` and the newer `toObject` agree on such texts. */
  lemma Agree(s: string)
    requires NoBrace(s, 0)
    ensures JsonReader.ToObject(s) == Ok(FromJson(s))
  {
    var (n, p) := NextNonWhitespace(s, 0);
    AgreeItem(s, n, p);
  }

  // ------------------------------------------------------------- examples

  /** A text whose first non-whitespace character starts an item reads as
      that item. */
  lemma FromJsonReads(s: string, k: nat, v: Value, q: nat)
    requires k < |s| && !IsWhitespace(s[k]) && forall j :: 0 <= j < k ==> IsWhitespace(s[j])
    requires Item(s, Ch(s[k]), k + 1) == (v, q)
    ensures FromJson(s) == v
  {
    SkipTo(s, 0, k);
  }

  /** An object item is the walk from the first non-whitespace character
      after the `{`. */
  lemma ObjectStart(s: string, p: nat)
    requires p <= |s|
    ensures Item(s, Ch('{'), p) == ObjectWalk(s, NextNonWhitespace(s, p).0, NextNonWhitespace(s, p).1, [])
  {
  }

  /** A single digit followed by a delimiter reads as an `Integer`. */
  lemma ItemDigit(s: string, p: nat, n: nat)
    requires n < 10 && p + 1 < |s| && s[p] == JavaNumbers.DigitChar(n) && IsDelimiter(s[p + 1])
    ensures Item(s, Ch(s[p]), p + 1) == (Int(n), p + 2)
  {
    ClassifyIntToString(n);
    assert JavaNumbers.IntToString(n) == [s[p]];
    LiteralText(s, s[p], p + 1);
    assert DelimiterAt(s, p + 1) == p + 1;
    assert [s[p]] + DropWhitespace(s[p + 1..p + 1]) == JavaNumbers.IntToString(n);
  }

  lemma EmptyObject(s: string)
    requires s == "{}"
    ensures FromJson(s) == Dict([])
  {
    assert NextNonWhitespace(s, 0) == (Ch('{'), 1);
    assert NextNonWhitespace(s, 1) == (Ch('}'), 2);
    assert Object(s, 1) == (Dict([]), 2);
  }

  /** A key without a quote ends the object quietly. */
  lemma UnquotedKey(s: string)
    requires s == "{a:1}"
    ensures FromJson(s) == Dict([])
  {
    assert NextNonWhitespace(s, 0) == (Ch('{'), 1);
    assert NextNonWhitespace(s, 1) == (Ch('a'), 2);
    assert Object(s, 1) == (Dict([]), 2);
  }

  /** The literal `1` consumes the comma after it, so the walk finds no
      comma and stops after the first member. */
  lemma CommaAfterNumber(s: string)
    requires s == "{\"a\":1,\"b\":2}"
    ensures FromJson(s) == Dict([("a", Int(1))])
  {
    FirstMember(s);
    OpenQuote(s);
    ObjectStart(s, 1);
    FromJsonReads(s, 0, Dict([("a", Int(1))]), 8);
  }

  lemma OpenQuote(s: string)
    requires s == "{\"a\":1,\"b\":2}"
    ensures NextNonWhitespace(s, 1) == (Ch('"'), 2)
  {
  }

  lemma FirstMember(s: string)
    requires s == "{\"a\":1,\"b\":2}"
    ensures ObjectWalk(s, Ch('"'), 2, []) == (Dict([("a", Int(1))]), 8)
  {
    FirstMemberReads(s);
    LastMember(s, 2, [], "a", 4, 5, Ch('1'), 6, Int(1), 7);
  }

  lemma FirstMemberReads(s: string)
    requires 8 < |s| && s[2] == 'a' && s[3] == '"' && s[4] == ':' && s[5] == '1' && s[6] == ','
    requires s[7] == '"'
    ensures ReadString(s, 2) == ("a", 4)
    ensures NextNonWhitespace(s, 4) == (Ch(':'), 5) && NextNonWhitespace(s, 5) == (Ch('1'), 6)
    ensures Item(s, Ch('1'), 6) == (Int(1), 7)
    ensures NextNonWhitespace(s, 7) == (Ch('"'), 8)
  {
    assert s[2..3] == "a";
    StringFromPlain(s, 2, 0 as char, "a");
    ItemDigit(s, 5, 1);
  }
}
