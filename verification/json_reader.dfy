/** `baselib.json.JSONReader`: reads a JSON text into Java objects (strings,
    booleans, `Integer`/`Long`/`BigDecimal`, `LinkedList`s and `HashMap`s)
    and binds objects to record classes.

    The reader is a set of mutually recursive functions over the input and a
    position; each returns the value read and the position after it, or the
    error the Java code throws. The only error the reading itself raises is
    "Not a JSON" from an object whose key does not start with `"` or is not
    followed by `:`. */
module JsonReader {
  import opened Results
  import opened Chars
  import opened Values
  import opened Lexer
  import opened JavaNumbers
  import Records

  const NOT_JSON: Error := FormatError("Not a JSON")
  const RECORD_REQUIRED: Error := ArgumentError("Class need to be of record type.")

  /** The consumer `walkThroughJSONArray` hands each element to, as a step
      from the elements gathered so far to the next ones; it may fail. */
  type Consumer = (seq<Value>, Value) -> Result<seq<Value>>

  /** `list::add`, the consumer of `readArray`. */
  function Add(acc: seq<Value>, v: Value): (r: Result<seq<Value>>)
    ensures r.Ok? && |r.value| == |acc| + 1 && r.value[..|acc|] == acc && r.value[|acc|] == v
  {
    Ok(acc + [v])
  }

  /** The consumer of `toRecordList`: null and empty maps are skipped, any
      other value is cast to a map (a `ClassCastException` when it is not
      one) and bound to the record type. */
  function BindElement(t: RecordType, acc: seq<Value>, v: Value): (r: Result<seq<Value>>)
    ensures (v.Null? || v == Dict([])) ==> r == Ok(acc)
    ensures v.Dict? && v.entries != [] ==>
              r.Ok? && |r.value| == |acc| + 1 && r.value[..|acc|] == acc &&
              r.value[|acc|].Record? && r.value[|acc|].recordType == t
    ensures !v.Null? && !v.Dict? ==> r == Err(ClassCast)
  {
    if v.Null? || (v.Dict? && v.entries == []) then Ok(acc)
    else if !v.Dict? then Err(ClassCast)
    else
      match Records.FromMap(RecordClass(t), Some(v.entries))
      case Ok(bound) => Ok(acc + [bound])
      case Err(e) => Err(e)
  }

  /** The lambda `toRecordList` hands to the array walk, for one record type. */
  function Binder(t: RecordType): Consumer {
    (acc, v) => BindElement(t, acc, v)
  }

  /** 0 for the end of input, 1 for a character: a read that did not move
      the position returned the end. */
  function ChRank(n: Next): nat {
    if n.End? then 0 else 1
  }

  /** `readItem`: `ch` is the character already read (for `readItem(null)`
      the caller reads it with `NextNonWhitespace`) and `p` the position
      after it. */
  function ReadItem(s: string, ch: Next, p: nat): (r: Result<(Value, nat)>)
    requires p <= |s|
    ensures r.Ok? ==> p <= r.value.1 <= |s|
    ensures ch == Ch('"') ==> r.Ok? && r.value.0.Str?
    ensures ch == Ch('[') && r.Ok? ==> r.value.0.List?
    ensures ch == Ch('{') && r.Ok? ==> r.value.0.Dict?
    decreases |s| - p, ChRank(ch), 1
  {
    if ch == Ch('"') then
      var (t, q) := ReadString(s, p);
      Ok((Str(t), q))
    else if ch == Ch('[') then ReadArray(Add, s, p)
    else if ch == Ch('{') then ReadObject(s, p)
    else
      var (t, q) := LiteralFrom(s, ch, p);
      Ok((Classify(t), q))
  }

  /** `readArray`, and the walk `toRecordList` does: the first read after
      the `[` is a raw one, whitespace included. */
  function ReadArray(fn: Consumer, s: string, p: nat): (r: Result<(Value, nat)>)
    requires p <= |s|
    ensures r.Ok? ==> p <= r.value.1 <= |s| && r.value.0.List?
    decreases |s| - p, 1, 0
  {
    var (n, q) := NextChar(s, p);
    ArrayLoop(fn, s, n, q, [])
  }

  /** The loop of `walkThroughJSONArray`: until `]` or the end, read an
      element, hand it to the sink, then read the next character and skip
      one comma. */
  function ArrayLoop(fn: Consumer, s: string, ch: Next, p: nat, acc: seq<Value>): (r: Result<(Value, nat)>)
    requires p <= |s|
    ensures r.Ok? ==> p <= r.value.1 <= |s| && r.value.0.List?
    decreases |s| - p, ChRank(ch), 2
  {
    if ch.End? || ch == Ch(']') then Ok((List(acc), p))
    else
      var item :- ReadItem(s, ch, p);
      var acc' :- fn(acc, item.0);
      var (n, q) := SkipComma(s, item.1);
      ArrayLoop(fn, s, n, q, acc')
  }

  /** `readObject` after the `{`. */
  function ReadObject(s: string, p: nat): (r: Result<(Value, nat)>)
    requires p <= |s|
    ensures r.Ok? ==> p <= r.value.1 <= |s| && r.value.0.Dict?
    decreases |s| - p, 1, 0
  {
    var (n, q) := NextNonWhitespace(s, p);
    ObjectLoop(s, n, q, [])
  }

  /** The loop of `walkThroughJSONObject`: until `}` or the end, a quoted
      key, a `:`, a value (put into the map, replacing an earlier value of
      the same key), then the next character with one comma skipped. */
  function ObjectLoop(s: string, ch: Next, p: nat, acc: seq<(string, Value)>): (r: Result<(Value, nat)>)
    requires p <= |s|
    ensures r.Ok? ==> p <= r.value.1 <= |s| && r.value.0.Dict?
    ensures ch.Ch? && ch != Ch('}') && ch != Ch('"') ==> r == Err(NOT_JSON)
    decreases |s| - p, ChRank(ch), 2
  {
    if ch.End? || ch == Ch('}') then Ok((Dict(acc), p))
    else if ch != Ch('"') then Err(NOT_JSON)
    else
      var (key, q) := ReadString(s, p);
      var (colon, q1) := NextNonWhitespace(s, q);
      if colon != Ch(':') then Err(NOT_JSON)
      else
        var (n, q2) := NextNonWhitespace(s, q1);
        var item :- ReadItem(s, n, q2);
        var (n', q3) := SkipComma(s, item.1);
        ObjectLoop(s, n', q3, Put(acc, key, item.0))
  }

  /** `JSONReader.toObject(string)`: `readItem(null)` from the start. */
  function ToObject(s: string): (r: Result<Value>)
    ensures (forall j :: 0 <= j < |s| ==> IsWhitespace(s[j])) ==> r == Ok(Null)
    ensures NextNonWhitespace(s, 0).0 == Ch('"') ==> r.Ok? && r.value.Str?
  {
    var (n, p) := NextNonWhitespace(s, 0);
    var item :- ReadItem(s, n, p);
    Ok(item.0)
  }

  /** `JSONReader.toRecord(clazz, string)`. */
  function ToRecord(c: Class, s: string): (r: Result<Value>)
    ensures !c.RecordClass? ==> r == Err(RECORD_REQUIRED)
    ensures c.RecordClass? && NextNonWhitespace(s, 0).0 != Ch('{') ==> r == Err(NOT_JSON)
    ensures r.Ok? ==> r.value.Record? && r.value.recordType == c.recordType
  {
    if !c.RecordClass? then Err(RECORD_REQUIRED)
    else
      var (n, p) := NextNonWhitespace(s, 0);
      if n != Ch('{') then Err(NOT_JSON)
      else
        var m :- ReadObject(s, p);
        Records.FromMap(c, Some(m.0.entries))
  }

  /** `JSONReader.toRecordList(clazz, string)`: null (`None`) when the text
      does not start with `[`. */
  function ToRecordList(c: Class, s: string): (r: Result<Option<seq<Value>>>)
    ensures !c.RecordClass? ==> r == Err(RECORD_REQUIRED)
    ensures c.RecordClass? && NextNonWhitespace(s, 0).0 != Ch('[') ==> r == Ok(None)
    ensures c.RecordClass? && NextNonWhitespace(s, 0).0 == Ch('[') && r.Ok? ==> r.value.Some?
  {
    if !c.RecordClass? then Err(RECORD_REQUIRED)
    else
      var (n, p) := NextNonWhitespace(s, 0);
      if n != Ch('[') then Ok(None)
      else
        var list :- ReadArray(Binder(c.recordType), s, p);
        Ok(Some(list.0.items))
  }

  // ------------------------------------------------------------ reading items

  /** The characters `readItem` does not hand to `readLiteral`. */
  predicate Opens(c: char) {
    c == '"' || c == '[' || c == '{'
  }

  /** Any other first character starts a literal: that character and the
      non-whitespace characters up to the next delimiter, which is consumed,
      classified as a keyword, a number or null. */
  lemma ReadItemLiteral(s: string, c: char, p: nat)
    requires p <= |s| && !Opens(c) && !IsDelimiter(c)
    ensures var q := DelimiterAt(s, p);
            ReadItem(s, Ch(c), p) ==
              Ok((Classify([c] + DropWhitespace(s[p..q])), if q < |s| then q + 1 else q))
  {
    LiteralText(s, c, p);
  }

  /** A delimiter, or the end of input, where an item is expected is an
      empty literal: null, and nothing more is read. */
  lemma ReadItemStops(s: string, ch: Next, p: nat)
    requires p <= |s| && Stops(ch)
    ensures ReadItem(s, ch, p) == Ok((Null, p))
  {
    ClassifyEmpty();
  }

  /** A word followed by optional whitespace and then a delimiter or the
      end is one literal. */
  lemma ReadWord(s: string, p: nat, w: string, e: nat)
    requires Word(w) && !Opens(w[0]) && p + |w| <= e <= |s| && s[p..p + |w|] == w
    requires forall j :: p + |w| <= j < e ==> IsWhitespace(s[j])
    requires e == |s| || IsDelimiter(s[e])
    ensures ReadItem(s, Ch(w[0]), p + 1) == Ok((Classify(w), if e < |s| then e + 1 else e))
  {
    LiteralWord(s, p, w, e);
  }
  /** A word right before a delimiter reads as `x`, its classification, and
      the read stops at `n`, just past the delimiter. */
  lemma ReadWordBefore(s: string, p: nat, w: string, x: Value, n: nat)
    requires Word(w) && !Opens(w[0]) && Classify(w) == x
    requires p + |w| < |s| && s[p..p + |w|] == w && IsDelimiter(s[p + |w|]) && n == p + |w| + 1
    ensures ReadItem(s, Ch(w[0]), p + 1) == Ok((x, n))
  {
    assert LiteralFrom(s, Ch(w[0]), p + 1) == (w, n) by {
      LiteralWord(s, p, w, p + |w|);
    }
    ReadItemWord(s, w[0], p + 1);
  }

  /** An item that does not open a string, list or object is a literal. */
  lemma ReadItemWord(s: string, c: char, p: nat)
    requires p <= |s| && !Opens(c)
    ensures ReadItem(s, Ch(c), p) == Ok((Classify(LiteralFrom(s, Ch(c), p).0), LiteralFrom(s, Ch(c), p).1))
  {
  }

  /** A quoted text without backslashes or inner quotes is one string. */
  lemma ReadQuoted(s: string, p: nat, w: string)
    requires PlainText(w) && p + |w| + 1 < |s|
    requires s[p] == '"' && s[p + 1..p + 1 + |w|] == w && s[p + 1 + |w|] == '"'
    ensures ReadItem(s, Ch('"'), p + 1) == Ok((Str(w), p + |w| + 2))
  {
    StringFromPlain(s, p + 1, 0 as char, w);
  }

  /** One element of an array walk, `(n, r)` being the read after it. */
  lemma ArrayStep(fn: Consumer, s: string, ch: Next, p: nat, acc: seq<Value>, v: Value, q: nat,
                  n: Next, r: nat, acc': seq<Value>)
    requires p <= |s| && ch.Ch? && ch != Ch(']') && ReadItem(s, ch, p) == Ok((v, q))
    requires q <= |s| && SkipComma(s, q) == (n, r) && fn(acc, v) == Ok(acc')
    ensures ArrayLoop(fn, s, ch, p, acc) == ArrayLoop(fn, s, n, r, acc')
  {
  }

  /** After the last element's `]`, which ends the input, the walk stops. */
  lemma LastSkip(s: string, e: nat, q: nat, acc: seq<Value>)
    requires e + 1 == |s| && s[e] == ']' && (q == e || q == e + 1)
    ensures ArrayLoop(Add, s, SkipComma(s, q).0, SkipComma(s, q).1, acc) == Ok((List(acc), |s|))
  {
  }

  /** After an element's `,`, the next element's first character, at `r`,
      is read. */
  lemma MiddleSkip(s: string, e: nat, q: nat, r: nat)
    requires r == e + 1 < |s| && s[e] == ',' && !IsWhitespace(s[r]) && s[r] != ','
    requires q == e || q == e + 1
    ensures SkipComma(s, q) == (Ch(s[r]), r + 1)
  {
    SkipTo(s, r, r);
    if q == e {
      SkipTo(s, e, e);
    }
  }

  /** The last element, whose `]` ends the input, ends the walk. */
  lemma LastElement(x: Value, s: string, ch: Next, p: nat, q: nat, acc: seq<Value>)
    requires p <= |s| && ch.Ch? && ch != Ch(']') && ReadItem(s, ch, p) == Ok((x, q))
    requires 0 < |s| && s[|s| - 1] == ']' && (q == |s| - 1 || q == |s|)
    ensures ArrayLoop(Add, s, ch, p, acc) == Ok((List(acc + [x]), |s|))
  {
    LastSkip(s, |s| - 1, q, acc + [x]);
    ArrayStep(Add, s, ch, p, acc, x, q, SkipComma(s, q).0, SkipComma(s, q).1, acc + [x]);
  }

  /** An element followed by a `,` and then by neither whitespace nor
      another comma hands the walk on to the character after the `,`. */
  lemma MiddleElement(x: Value, s: string, ch: Next, p: nat, q: nat, e: nat, r: nat, acc: seq<Value>, acc': seq<Value>)
    requires p <= |s| && ch.Ch? && ch != Ch(']') && ReadItem(s, ch, p) == Ok((x, q))
    requires r == e + 1 < |s| && s[e] == ',' && !IsWhitespace(s[r]) && s[r] != ','
    requires q == e || q == e + 1
    requires acc' == acc + [x]
    ensures ArrayLoop(Add, s, ch, p, acc) == ArrayLoop(Add, s, Ch(s[r]), r + 1, acc')
  {
    MiddleSkip(s, e, q, r);
    ArrayStep(Add, s, ch, p, acc, x, q, Ch(s[r]), r + 1, acc');
  }

  /** One member of an object walk. */
  lemma ObjectStep(s: string, p: nat, acc: seq<(string, Value)>, key: string, q: nat,
                   q1: nat, n: Next, q2: nat, v: Value, q3: nat, n': Next, r: nat,
                   acc': seq<(string, Value)>)
    requires p <= |s| && ReadString(s, p) == (key, q)
    requires NextNonWhitespace(s, q) == (Ch(':'), q1) && NextNonWhitespace(s, q1) == (n, q2)
    requires ReadItem(s, n, q2) == Ok((v, q3))
    requires q3 <= |s| && SkipComma(s, q3) == (n', r) && Put(acc, key, v) == acc'
    ensures ObjectLoop(s, Ch('"'), p, acc) == ObjectLoop(s, n', r, acc')
  {
  }

  /** A text whose first non-whitespace character starts an item reads as
      that item. */
  lemma ToObjectReads(s: string, k: nat, v: Value, q: nat)
    requires k < |s| && !IsWhitespace(s[k]) && forall j :: 0 <= j < k ==> IsWhitespace(s[j])
    requires ReadItem(s, Ch(s[k]), k + 1) == Ok((v, q))
    ensures ToObject(s) == Ok(v)
  {
    SkipTo(s, 0, k);
  }

  /** An array item is the walk from the raw character after the `[`,
      gathering every element. */
  lemma ReadItemArray(s: string, p: nat)
    requires p <= |s|
    ensures ReadItem(s, Ch('['), p) == ArrayLoop(Add, s, NextChar(s, p).0, NextChar(s, p).1, [])
  {
  }

  // --------------------------------------------------------- walk invariants

  /** A consumer that only ever adds after the elements it was given. */
  ghost predicate Appends(fn: Consumer) {
    forall acc, v :: fn(acc, v).Ok? ==> acc <= fn(acc, v).value
  }

  lemma AddAppends()
    ensures Appends(Add)
  {
  }

  lemma BinderAppends(t: RecordType)
    ensures Appends(Binder(t))
  {
  }

  /** The walk keeps element order: what was gathered before stays, in
      order, at the front of the list. */
  lemma {:induction false} WalkKeepsOrder(fn: Consumer, s: string, ch: Next, p: nat, acc: seq<Value>)
    requires p <= |s| && Appends(fn)
    ensures var r := ArrayLoop(fn, s, ch, p, acc);
            r.Ok? ==> acc <= r.value.0.items
    decreases |s| - p, ChRank(ch)
  {
    if !(ch.End? || ch == Ch(']')) {
      var item := ReadItem(s, ch, p);
      if item.Ok? && fn(acc, item.value.0).Ok? {
        var acc' := fn(acc, item.value.0).value;
        var (n, q) := SkipComma(s, item.value.1);
        WalkKeepsOrder(fn, s, n, q, acc');
      }
    }
  }

  /** Every element of `xs` is a record of type `t`. */
  predicate AllRecords(t: RecordType, xs: seq<Value>) {
    forall i :: 0 <= i < |xs| ==> xs[i].Record? && xs[i].recordType == t
  }

  /** The record-list walk keeps only records of the requested type. */
  lemma {:induction false} BindWalk(t: RecordType, s: string, ch: Next, p: nat, acc: seq<Value>)
    requires p <= |s| && AllRecords(t, acc)
    ensures var r := ArrayLoop(Binder(t), s, ch, p, acc);
            r.Ok? ==> AllRecords(t, r.value.0.items)
    decreases |s| - p, ChRank(ch)
  {
    if !(ch.End? || ch == Ch(']')) {
      var item := ReadItem(s, ch, p);
      if item.Ok? && BindElement(t, acc, item.value.0).Ok? {
        var acc' := BindElement(t, acc, item.value.0).value;
        assert AllRecords(t, acc') by {
          if |acc'| != |acc| {
            assert acc'[..|acc|] == acc;
            forall i | 0 <= i < |acc|
              ensures acc'[i] == acc[i]
            {
              assert acc'[i] == acc'[..|acc|][i];
            }
          }
        }
        var (n, q) := SkipComma(s, item.value.1);
        BindWalk(t, s, n, q, acc');
      }
    }
  }

  /** `toRecordList` returns only records of the class's type. */
  lemma RecordListRecords(c: Class, s: string)
    ensures var r := ToRecordList(c, s);
            r.Ok? && r.value.Some? ==> AllRecords(c.recordType, r.value.value)
  {
    if c.RecordClass? {
      var (n, p) := NextNonWhitespace(s, 0);
      if n == Ch('[') {
        var (m, q) := NextChar(s, p);
        BindWalk(c.recordType, s, m, q, []);
      }
    }
  }

  /** The object walk never holds two entries under one key: a repeated key
      replaces the earlier value. */
  lemma {:induction false} ObjectKeysDistinct(s: string, ch: Next, p: nat, acc: seq<(string, Value)>)
    requires p <= |s| && DistinctKeys(acc)
    ensures var r := ObjectLoop(s, ch, p, acc);
            r.Ok? ==> DistinctKeys(r.value.0.entries)
    decreases |s| - p, ChRank(ch)
  {
    if ch == Ch('"') {
      var (key, q) := ReadString(s, p);
      var (colon, q1) := NextNonWhitespace(s, q);
      if colon == Ch(':') {
        var (n, q2) := NextNonWhitespace(s, q1);
        var item := ReadItem(s, n, q2);
        if item.Ok? {
          var (n', q3) := SkipComma(s, item.value.1);
          PutKeepsKeysDistinct(acc, key, item.value.0);
          ObjectKeysDistinct(s, n', q3, Put(acc, key, item.value.0));
        }
      }
    }
  }

  /** A key not followed by `:` is "Not a JSON". */
  lemma ObjectMissingColon(s: string, p: nat, acc: seq<(string, Value)>)
    requires p <= |s| && NextNonWhitespace(s, ReadString(s, p).1).0 != Ch(':')
    ensures ObjectLoop(s, Ch('"'), p, acc) == Err(NOT_JSON)
  {
  }

  /** An object item is the walk from the first non-whitespace character
      after the `{`. */
  lemma ReadItemObject(s: string, p: nat)
    requires p <= |s|
    ensures ReadItem(s, Ch('{'), p) == ObjectLoop(s, NextNonWhitespace(s, p).0, NextNonWhitespace(s, p).1, [])
  {
  }

  /** A record read binds the map of the object the text starts with. */
  lemma ToRecordReads(c: Class, s: string, k: nat, m: seq<(string, Value)>, q: nat)
    requires c.RecordClass? && k < |s| && s[k] == '{'
    requires forall j :: 0 <= j < k ==> IsWhitespace(s[j])
    requires ReadObject(s, k + 1) == Ok((Dict(m), q))
    ensures ToRecord(c, s) == Records.FromMap(c, Some(m))
  {
    SkipTo(s, 0, k);
  }

  /** `readObject` is the walk from the first non-whitespace character. */
  lemma ReadObjectStart(s: string, p: nat)
    requires p <= |s|
    ensures ReadObject(s, p) == ObjectLoop(s, NextNonWhitespace(s, p).0, NextNonWhitespace(s, p).1, [])
  {
  }

  /** `readArray` is the walk from the raw character after the `[`. */
  lemma ReadArrayStart(fn: Consumer, s: string, p: nat)
    requires p <= |s|
    ensures ReadArray(fn, s, p) == ArrayLoop(fn, s, NextChar(s, p).0, NextChar(s, p).1, [])
  {
  }

  /** A record list is the list the binding walk of the array gathers. */
  lemma ToRecordListReads(c: Class, s: string, k: nat, items: seq<Value>, q: nat)
    requires c.RecordClass? && k < |s| && s[k] == '['
    requires forall j :: 0 <= j < k ==> IsWhitespace(s[j])
    requires ReadArray(Binder(c.recordType), s, k + 1) == Ok((List(items), q))
    ensures ToRecordList(c, s) == Ok(Some(items))
  {
    SkipTo(s, 0, k);
  }

  // ----------------------------------------------------------- the test suite

  lemma ToObjectNull(s: string)
    requires s == "null"
    ensures ToObject(s) == Ok(Null)
  {
    ReadWord(s, 0, "null", |s|);
    assert MatchesIgnoringCase(s[0], 'n');
  }

  lemma ToObjectEmptyObject(s: string)
    requires s == "{}"
    ensures ToObject(s) == Ok(Dict([]))
  {
    assert NextNonWhitespace(s, 0) == (Ch('{'), 1);
    assert NextNonWhitespace(s, 1) == (Ch('}'), 2);
    assert ObjectLoop(s, Ch('}'), 2, []) == Ok((Dict([]), 2));
    assert ReadObject(s, 1) == Ok((Dict([]), 2));
    assert ReadItem(s, Ch('{'), 1) == Ok((Dict([]), 2));
  }

  lemma ToObjectEmptyString(s: string)
    requires s == "\"\"   "
    ensures ToObject(s) == Ok(Str(""))
  {
    ReadQuoted(s, 0, "");
  }

  lemma ToObjectLeadingSpace(s: string)
    requires s == "  \"asd\""
    ensures ToObject(s) == Ok(Str("asd"))
  {
    SkipTo(s, 0, 2);
    ReadQuoted(s, 2, "asd");
  }

  lemma ToObjectEscapedQuote(s: string)
    requires s == "\t\t\"as\\\"d\""
    ensures ToObject(s) == Ok(Str("as\"d"))
  {
    SkipTo(s, 0, 2);
    StringFromPlain(s, 7, '"', "d");
    StringFromEscapedQuote(s, 5, 's');
    assert StringFrom(s, 7, '"') == ("d", 9);
    assert StringFrom(s, 5, 's').1 == 9;
    assert StringFrom(s, 5, 's').0 == "\"" + "d";
    assert "\"" + "d" == "\"d";
    assert StringFrom(s, 5, 's') == ("\"d", 9);
    assert "s" + "\"d" == "s\"d" && "a" + "s\"d" == "as\"d";
    assert StringFrom(s, 4, 'a') == ("s\"d", 9);
    assert StringFrom(s, 3, 0 as char) == ("as\"d", 9);
  }

  lemma ToObjectTrue(s: string)
    requires s == "true"
    ensures ToObject(s) == Ok(Bool(true))
  {
    ReadWord(s, 0, "true", |s|);
    assert MatchesIgnoringCase(s[0], 't');
  }

  lemma ToObjectFalse(s: string)
    requires s == "false"
    ensures ToObject(s) == Ok(Bool(false))
  {
    ReadWord(s, 0, "false", |s|);
    assert MatchesIgnoringCase(s[0], 'f');
  }

  lemma ToObjectInt(s: string, n: int)
    requires 0 <= n < 10 && s == [JavaNumbers.DigitChar(n)]
    ensures ToObject(s) == Ok(Int(n))
  {
    ReadWord(s, 0, s, |s|);
    ClassifyIntToString(n);
  }

  /** A decimal digit of another script counts as well: the Arabic-Indic
      digit three (U+0663) reads as `Integer` 3, as `Integer.valueOf` takes
      any digit `Character.digit` knows. */
  lemma ToObjectArabicDigit(s: string)
    requires s == "\U{0663}"
    ensures ToObject(s) == Ok(Int(3))
  {
    ReadWord(s, 0, s, |s|);
    ClassifyArabicDigit(s);
  }

  lemma ClassifyArabicDigit(s: string)
    requires s == "\U{0663}"
    ensures Classify(s) == Int(3)
  {
    assert Classify(s) == ClassifyStage(s, 1);
    assert JavaNumbers.DigitsValue(s) == 3 by {
      assert s[..0] == [];
    }
  }

  lemma ToObjectDecimal(s: string)
    requires s == "1.1"
    ensures ToObject(s) == Ok(Decimal(11, 1))
  {
    ReadWord(s, 0, "1.1", |s|);
    ClassifyDecimal(s);
  }

  lemma ClassifyDecimal(s: string)
    requires s == "1.1"
    ensures Classify(s) == Decimal(11, 1)
  {
    assert Classify(s) == ClassifyStage(s, 1);
    DecimalExample(s);
    assert !AllDigits(s) by {
      JavaNumbers.LowDigits(s[1]);
    }
  }

  lemma DecimalExample(s: string)
    requires s == "1.1"
    ensures ParseDecimal(s) == Some((11, 1))
  {
    assert ExponentMark(s) == 3;
    SignificandExample(s);
    assert s[..3] == s;
    assert DigitsValue("11") == 11;
  }

  lemma SignificandExample(s: string)
    requires s == "1.1"
    ensures ParseSignificand(s) == Some(Significand("11", 1))
  {
    assert AsciiDigits("1") && "1" + "." + "1" == s && "1" + "1" == "11";
    SignificandPoint("1", "1");
  }

  /** A single digit followed by a delimiter reads as an `Integer`. */
  lemma ReadDigit(s: string, p: nat, n: nat)
    requires n < 10 && p + 1 < |s| && s[p] == DigitChar(n) && IsDelimiter(s[p + 1])
    ensures ReadItem(s, Ch(s[p]), p + 1) == Ok((Int(n), p + 2))
  {
    ClassifyIntToString(n);
    assert IntToString(n) == [s[p]];
    LiteralText(s, s[p], p + 1);
    assert DelimiterAt(s, p + 1) == p + 1;
    assert [s[p]] + DropWhitespace(s[p + 1..p + 1]) == IntToString(n);
  }

  lemma ToObjectArray(s: string)
    requires s == "[1, 2, 3]"
    ensures ToObject(s) == Ok(List([Int(1), Int(2), Int(3)]))
  {
    ArrayOneTwoThree(s);
    ReadItemArray(s, 1);
    ToObjectReads(s, 0, List([Int(1), Int(2), Int(3)]), 9);
  }

  lemma ArrayOneTwoThree(s: string)
    requires s == "[1, 2, 3]"
    ensures ArrayLoop(Add, s, Ch('1'), 2, []) == Ok((List([Int(1), Int(2), Int(3)]), 9))
  {
    ReadDigit(s, 1, 1);
    CommaSpace(s, 2, 5);
    assert [] + [Int(1)] == [Int(1)];
    ArrayStep(Add, s, Ch('1'), 2, [], Int(1), 3, Ch('2'), 5, [Int(1)]);
    ArrayTwoThree(s);
  }

  lemma ArrayTwoThree(s: string)
    requires s == "[1, 2, 3]"
    ensures ArrayLoop(Add, s, Ch('2'), 5, [Int(1)]) == Ok((List([Int(1), Int(2), Int(3)]), 9))
  {
    ReadDigit(s, 4, 2);
    CommaSpace(s, 5, 8);
    assert [Int(1)] + [Int(2)] == [Int(1), Int(2)];
    ArrayStep(Add, s, Ch('2'), 5, [Int(1)], Int(2), 6, Ch('3'), 8, [Int(1), Int(2)]);
    ArrayThree(s);
  }

  lemma ArrayThree(s: string)
    requires s == "[1, 2, 3]"
    ensures ArrayLoop(Add, s, Ch('3'), 8, [Int(1), Int(2)]) == Ok((List([Int(1), Int(2), Int(3)]), 9))
  {
    ReadDigit(s, 7, 3);
    assert SkipComma(s, 9) == (End, 9);
    assert [Int(1), Int(2)] + [Int(3)] == [Int(1), Int(2), Int(3)];
    ArrayStep(Add, s, Ch('3'), 8, [Int(1), Int(2)], Int(3), 9, End, 9, [Int(1), Int(2), Int(3)]);
  }

  /** After a literal consumed its comma, a space and the next character. */
  lemma CommaSpace(s: string, c: nat, r: nat)
    requires c + 2 < |s| && r == c + 3 && s[c] == ',' && s[c + 1] == ' ' && s[c + 2] != ','
    requires !IsWhitespace(s[c + 2])
    ensures SkipComma(s, c + 1) == (Ch(s[c + 2]), r)
  {
    SkipTo(s, c + 1, c + 2);
  }

  /** The two-member object of the test suite: the literal `1` consumes the
      closing brace, and the walk then meets the end of input. */
  lemma ToObjectObject(s: string)
    requires s == "{\n  \"a\": \"b\",\n  \"c\": 1\n}\n"
    ensures ToObject(s) == Ok(Dict([("a", Str("b")), ("c", Int(1))]))
  {
    OpenBrace(s);
    MemberA(s);
    MemberC(s);
    ReadItemObject(s, 1);
    ToObjectReads(s, 0, Dict([("a", Str("b")), ("c", Int(1))]), 25);
  }

  /** An object whose first key sits on the next line, indented by two
      spaces: the key's opening quote is the first read after `{`. */
  lemma OpenBrace(s: string)
    requires |s| > 4 && s[1] == '\n' && s[2] == ' ' && s[3] == ' ' && s[4] == '"'
    ensures NextNonWhitespace(s, 1) == (Ch('"'), 5)
  {
    SkipTo(s, 1, 4);
  }

  lemma MemberA(s: string)
    requires s == "{\n  \"a\": \"b\",\n  \"c\": 1\n}\n"
    ensures ObjectLoop(s, Ch('"'), 5, []) == ObjectLoop(s, Ch('"'), 17, [("a", Str("b"))])
  {
    MemberAReads(s);
    ObjectStep(s, 5, [], "a", 7, 8, Ch('"'), 10, Str("b"), 12, Ch('"'), 17, [("a", Str("b"))]);
  }

  lemma MemberAReads(s: string)
    requires s == "{\n  \"a\": \"b\",\n  \"c\": 1\n}\n"
    ensures ReadString(s, 5) == ("a", 7)
    ensures NextNonWhitespace(s, 7) == (Ch(':'), 8) && NextNonWhitespace(s, 8) == (Ch('"'), 10)
    ensures ReadItem(s, Ch('"'), 10) == Ok((Str("b"), 12))
    ensures SkipComma(s, 12) == (Ch('"'), 17)
  {
    KeyA(s);
    ValueB(s);
    CommaB(s);
  }

  lemma KeyA(s: string)
    requires s == "{\n  \"a\": \"b\",\n  \"c\": 1\n}\n"
    ensures ReadString(s, 5) == ("a", 7)
    ensures NextNonWhitespace(s, 7) == (Ch(':'), 8) && NextNonWhitespace(s, 8) == (Ch('"'), 10)
  {
    StringFromPlain(s, 5, 0 as char, "a");
    SkipTo(s, 7, 7);
    SkipTo(s, 8, 9);
  }

  lemma ValueB(s: string)
    requires s == "{\n  \"a\": \"b\",\n  \"c\": 1\n}\n"
    ensures ReadItem(s, Ch('"'), 10) == Ok((Str("b"), 12))
  {
    ReadQuoted(s, 9, "b");
  }

  lemma CommaB(s: string)
    requires s == "{\n  \"a\": \"b\",\n  \"c\": 1\n}\n"
    ensures SkipComma(s, 12) == (Ch('"'), 17)
  {
    SkipTo(s, 12, 12);
    SkipTo(s, 13, 16);
  }

  lemma MemberC(s: string)
    requires s == "{\n  \"a\": \"b\",\n  \"c\": 1\n}\n"
    ensures ObjectLoop(s, Ch('"'), 17, [("a", Str("b"))]) == Ok((Dict([("a", Str("b")), ("c", Int(1))]), 25))
  {
    MemberCReads(s);
    ObjectStep(s, 17, [("a", Str("b"))], "c", 19, 20, Ch('1'), 22, Int(1), 24, End, 25,
               [("a", Str("b")), ("c", Int(1))]);
  }

  lemma MemberCReads(s: string)
    requires s == "{\n  \"a\": \"b\",\n  \"c\": 1\n}\n"
    ensures ReadString(s, 17) == ("c", 19)
    ensures NextNonWhitespace(s, 19) == (Ch(':'), 20) && NextNonWhitespace(s, 20) == (Ch('1'), 22)
    ensures ReadItem(s, Ch('1'), 22) == Ok((Int(1), 24))
    ensures SkipComma(s, 24) == (End, 25)
  {
    StringFromPlain(s, 17, 0 as char, "c");
    SkipTo(s, 19, 19);
    SkipTo(s, 20, 21);
    ReadWord(s, 21, "1", 23);
    ClassifyIntToString(1);
    assert IntToString(1) == "1";
  }

  /** The record test: `{"id": 1, "name": "test"}` binds to the record
      `(id, name)`. */
  lemma ToRecordSample(s: string)
    requires s == "{\n  \"id\": 1,\n  \"name\": \"test\"\n}\n"
    ensures ToRecord(RecordClass(Records.SampleType()), s) ==
              Ok(Record(Records.SampleType(), [Int(1), Str("test")]))
  {
    SampleObject(s);
    ToRecordReads(RecordClass(Records.SampleType()), s, 0, [("id", Int(1)), ("name", Str("test"))], 31);
    Records.FromMapExample();
  }

  lemma SampleObject(s: string)
    requires s == "{\n  \"id\": 1,\n  \"name\": \"test\"\n}\n"
    ensures ReadObject(s, 1) == Ok((Dict([("id", Int(1)), ("name", Str("test"))]), 31))
  {
    OpenBrace(s);
    SampleMembers(s);
    ReadObjectStart(s, 1);
  }

  lemma SampleMembers(s: string)
    requires s == "{\n  \"id\": 1,\n  \"name\": \"test\"\n}\n"
    ensures ObjectLoop(s, Ch('"'), 5, []) == Ok((Dict([("id", Int(1)), ("name", Str("test"))]), 31))
  {
    MemberId(s);
    MemberName(s);
  }

  lemma MemberId(s: string)
    requires s == "{\n  \"id\": 1,\n  \"name\": \"test\"\n}\n"
    ensures ObjectLoop(s, Ch('"'), 5, []) == ObjectLoop(s, Ch('"'), 16, [("id", Int(1))])
  {
    KeyId(s);
    ValueId(s);
    ObjectStep(s, 5, [], "id", 8, 9, Ch('1'), 11, Int(1), 12, Ch('"'), 16, [("id", Int(1))]);
  }

  lemma ValueId(s: string)
    requires 16 < |s| && s[10] == '1' && s[11] == ',' && s[12] == '\n' && s[13] == ' ' && s[14] == ' '
    requires s[15] == '"'
    ensures ReadItem(s, Ch('1'), 11) == Ok((Int(1), 12))
    ensures SkipComma(s, 12) == (Ch('"'), 16)
  {
    assert DigitChar(1) == '1';
    ReadDigit(s, 10, 1);
    NewlineIndent(s);
  }

  lemma NewlineIndent(s: string)
    requires 16 < |s| && s[12] == '\n' && s[13] == ' ' && s[14] == ' ' && s[15] == '"'
    ensures SkipComma(s, 12) == (Ch('"'), 16)
  {
    SkipTo(s, 12, 15);
  }

  lemma KeyId(s: string)
    requires 11 < |s| && s[5] == 'i' && s[6] == 'd' && s[7] == '"' && s[8] == ':'
    requires s[9] == ' ' && s[10] == '1'
    ensures ReadString(s, 5) == ("id", 8)
    ensures NextNonWhitespace(s, 8) == (Ch(':'), 9) && NextNonWhitespace(s, 9) == (Ch('1'), 11)
  {
    assert s[5..7] == "id";
    StringFromPlain(s, 5, 0 as char, "id");
    SkipTo(s, 8, 8);
    SkipTo(s, 9, 10);
  }

  lemma MemberName(s: string)
    requires s == "{\n  \"id\": 1,\n  \"name\": \"test\"\n}\n"
    ensures ObjectLoop(s, Ch('"'), 16, [("id", Int(1))]) == Ok((Dict([("id", Int(1)), ("name", Str("test"))]), 31))
  {
    KeyName(s);
    ValueTest(s);
    SkipTo(s, 29, 30);
    ObjectStep(s, 16, [("id", Int(1))], "name", 21, 22, Ch('"'), 24, Str("test"), 29, Ch('}'), 31,
               [("id", Int(1)), ("name", Str("test"))]);
  }

  lemma KeyName(s: string)
    requires s == "{\n  \"id\": 1,\n  \"name\": \"test\"\n}\n"
    ensures ReadString(s, 16) == ("name", 21)
    ensures NextNonWhitespace(s, 21) == (Ch(':'), 22) && NextNonWhitespace(s, 22) == (Ch('"'), 24)
  {
    StringFromPlain(s, 16, 0 as char, "name");
    SkipTo(s, 21, 21);
    SkipTo(s, 22, 23);
  }

  lemma ValueTest(s: string)
    requires s == "{\n  \"id\": 1,\n  \"name\": \"test\"\n}\n"
    ensures ReadItem(s, Ch('"'), 24) == Ok((Str("test"), 29))
  {
    ReadQuoted(s, 23, "test");
  }

  /** A text that is not an array gives no list at all. */
  lemma RecordListOfObject(s: string)
    requires s == "{}"
    ensures ToRecordList(RecordClass(Records.SampleType()), s) == Ok(None)
  {
    assert NextNonWhitespace(s, 0) == (Ch('{'), 1);
  }

  /** Empty maps and nulls in a record list are skipped. */
  lemma RecordListSkips(s: string)
    requires s == "[{},null]"
    ensures ToRecordList(RecordClass(Records.SampleType()), s) == Ok(Some([]))
  {
    var t := Records.SampleType();
    SkipsBoth(s, t);
    ToRecordListReads(RecordClass(t), s, 0, [], 9);
  }

  /** The walk over `[{},null]` skips both elements and stops at the end. */
  lemma SkipsBoth(s: string, t: RecordType)
    requires s == "[{},null]"
    ensures ReadArray(Binder(t), s, 1) == Ok((List([]), 9))
  {
    assert NextChar(s, 1) == (Ch('{'), 2);
    ReadArrayStart(Binder(t), s, 1);
    assert ReadArray(Binder(t), s, 1) == ArrayLoop(Binder(t), s, Ch('{'), 2, []);
    SkipsEmpty(s, t);
    SkipsNull(s, t);
  }

  lemma SkipsEmpty(s: string, t: RecordType)
    requires s == "[{},null]"
    ensures ArrayLoop(Binder(t), s, Ch('{'), 2, []) == ArrayLoop(Binder(t), s, Ch('n'), 5, [])
  {
    assert NextNonWhitespace(s, 2) == (Ch('}'), 3);
    ReadItemObject(s, 2);
    SkipTo(s, 3, 3);
    SkipTo(s, 4, 4);
    ArrayStep(Binder(t), s, Ch('{'), 2, [], Dict([]), 3, Ch('n'), 5, []);
  }

  lemma SkipsNull(s: string, t: RecordType)
    requires s == "[{},null]"
    ensures ArrayLoop(Binder(t), s, Ch('n'), 5, []) == Ok((List([]), 9))
  {
    ReadWord(s, 4, "null", 8);
    assert MatchesIgnoringCase(s[4], 'n');
    ArrayStep(Binder(t), s, Ch('n'), 5, [], Null, 9, End, 9, []);
  }

  /** A key without its colon is "Not a JSON". */
  lemma ToObjectMissingColon(s: string)
    requires s == "{\"a\" 1}"
    ensures ToObject(s) == Err(NOT_JSON)
  {
    StringFromPlain(s, 2, 0 as char, "a");
    SkipTo(s, 4, 5);
    ObjectMissingColon(s, 2, []);
    ReadItemObject(s, 1);
    assert NextNonWhitespace(s, 0) == (Ch('{'), 1);
    assert NextNonWhitespace(s, 1) == (Ch('"'), 2);
  }

  /** Elements need no comma between them when the first one ends with a
      quote. */
  lemma ToObjectNoComma(s: string)
    requires s == "[\"a\" \"b\"]"
    ensures ToObject(s) == Ok(List([Str("a"), Str("b")]))
  {
    NoCommaFirst(s);
    NoCommaSecond(s);
    ReadItemArray(s, 1);
    assert NextChar(s, 1) == (Ch('"'), 2);
    ToObjectReads(s, 0, List([Str("a"), Str("b")]), 9);
  }

  lemma NoCommaFirst(s: string)
    requires s == "[\"a\" \"b\"]"
    ensures ArrayLoop(Add, s, Ch('"'), 2, []) == ArrayLoop(Add, s, Ch('"'), 6, [Str("a")])
  {
    ReadQuoted(s, 1, "a");
    SkipTo(s, 4, 5);
    assert [] + [Str("a")] == [Str("a")];
    ArrayStep(Add, s, Ch('"'), 2, [], Str("a"), 4, Ch('"'), 6, [Str("a")]);
  }

  lemma NoCommaSecond(s: string)
    requires s == "[\"a\" \"b\"]"
    ensures ArrayLoop(Add, s, Ch('"'), 6, [Str("a")]) == Ok((List([Str("a"), Str("b")]), 9))
  {
    ReadQuoted(s, 5, "b");
    SkipTo(s, 8, 8);
    assert [Str("a")] + [Str("b")] == [Str("a"), Str("b")];
    ArrayStep(Add, s, Ch('"'), 6, [Str("a")], Str("b"), 8, Ch(']'), 9, [Str("a"), Str("b")]);
  }

  /** The literal `1` consumes the `]` that closes the inner array, so the
      inner array goes on with `2` and the text reads as `[[1,2]]`. */
  lemma ToObjectNestedArray(s: string)
    requires s == "[[1],2]"
    ensures ToObject(s) == Ok(List([List([Int(1), Int(2)])]))
  {
    NestedOuter(s);
    ReadItemArray(s, 1);
    assert NextChar(s, 1) == (Ch('['), 2);
    ToObjectReads(s, 0, List([List([Int(1), Int(2)])]), 7);
  }

  lemma NestedOuter(s: string)
    requires s == "[[1],2]"
    ensures ArrayLoop(Add, s, Ch('['), 2, []) == Ok((List([List([Int(1), Int(2)])]), 7))
  {
    NestedInnerOne(s);
    NestedInnerTwo(s);
    ReadItemArray(s, 2);
    assert NextChar(s, 2) == (Ch('1'), 3);
    assert SkipComma(s, 7) == (End, 7);
    assert [] + [List([Int(1), Int(2)])] == [List([Int(1), Int(2)])];
    ArrayStep(Add, s, Ch('['), 2, [], List([Int(1), Int(2)]), 7, End, 7, [List([Int(1), Int(2)])]);
  }

  lemma NestedInnerOne(s: string)
    requires s == "[[1],2]"
    ensures ArrayLoop(Add, s, Ch('1'), 3, []) == ArrayLoop(Add, s, Ch('2'), 6, [Int(1)])
  {
    ReadDigit(s, 2, 1);
    SkipTo(s, 4, 4);
    SkipTo(s, 5, 5);
    assert [] + [Int(1)] == [Int(1)];
    ArrayStep(Add, s, Ch('1'), 3, [], Int(1), 4, Ch('2'), 6, [Int(1)]);
  }

  lemma NestedInnerTwo(s: string)
    requires s == "[[1],2]"
    ensures ArrayLoop(Add, s, Ch('2'), 6, [Int(1)]) == Ok((List([Int(1), Int(2)]), 7))
  {
    ReadDigit(s, 5, 2);
    assert SkipComma(s, 7) == (End, 7);
    assert [Int(1)] + [Int(2)] == [Int(1), Int(2)];
    ArrayStep(Add, s, Ch('2'), 6, [Int(1)], Int(2), 7, End, 7, [Int(1), Int(2)]);
  }

  /** The comma a literal consumes is not needed: both members are read
      (the older reader stops after the first). */
  lemma ToObjectTwoNumbers(s: string)
    requires s == "{\"a\":1,\"b\":2}"
    ensures ToObject(s) == Ok(Dict([("a", Int(1)), ("b", Int(2))]))
  {
    NumberMembers(s);
    assert NextNonWhitespace(s, 1) == (Ch('"'), 2);
    ReadItemObject(s, 1);
    ToObjectReads(s, 0, Dict([("a", Int(1)), ("b", Int(2))]), 13);
  }

  lemma NumberMembers(s: string)
    requires |s| == 13 && s[2] == 'a' && s[3] == '"' && s[4] == ':' && s[5] == '1' && s[6] == ','
    requires s[7] == '"' && s[8] == 'b' && s[9] == '"' && s[10] == ':' && s[11] == '2' && s[12] == '}'
    ensures ObjectLoop(s, Ch('"'), 2, []) == Ok((Dict([("a", Int(1)), ("b", Int(2))]), 13))
  {
    NumberMemberA(s);
    NumberMemberB(s);
    ObjectStep(s, 2, [], "a", 4, 5, Ch('1'), 6, Int(1), 7, Ch('"'), 8, [("a", Int(1))]);
    ObjectStep(s, 8, [("a", Int(1))], "b", 10, 11, Ch('2'), 12, Int(2), 13, End, 13,
               [("a", Int(1)), ("b", Int(2))]);
  }

  lemma NumberMemberA(s: string)
    requires |s| == 13 && s[2] == 'a' && s[3] == '"' && s[4] == ':' && s[5] == '1' && s[6] == ','
    requires s[7] == '"' && s[8] == 'b' && s[9] == '"' && s[10] == ':' && s[11] == '2' && s[12] == '}'
    ensures ReadString(s, 2) == ("a", 4)
    ensures NextNonWhitespace(s, 4) == (Ch(':'), 5) && NextNonWhitespace(s, 5) == (Ch('1'), 6)
    ensures ReadItem(s, Ch('1'), 6) == Ok((Int(1), 7)) && SkipComma(s, 7) == (Ch('"'), 8)
  {
    assert s[2..3] == "a";
    StringFromPlain(s, 2, 0 as char, "a");
    ReadDigit(s, 5, 1);
  }

  lemma NumberMemberB(s: string)
    requires |s| == 13 && s[2] == 'a' && s[3] == '"' && s[4] == ':' && s[5] == '1' && s[6] == ','
    requires s[7] == '"' && s[8] == 'b' && s[9] == '"' && s[10] == ':' && s[11] == '2' && s[12] == '}'
    ensures ReadString(s, 8) == ("b", 10)
    ensures NextNonWhitespace(s, 10) == (Ch(':'), 11) && NextNonWhitespace(s, 11) == (Ch('2'), 12)
    ensures ReadItem(s, Ch('2'), 12) == Ok((Int(2), 13)) && SkipComma(s, 13) == (End, 13)
  {
    assert s[8..9] == "b";
    StringFromPlain(s, 8, 0 as char, "b");
    ReadDigit(s, 11, 2);
  }
}
