/** The Java objects the codec reads, writes and binds.

    A record class is described by an explicit field table standing in for
    `Class.getRecordComponents()`: each field has a name and says whether its
    declared type is itself a record class. A Java `Map` is an ordered list of
    entries with distinct keys (the order is the map's iteration order, which
    no property here relies on). */
module Values {
  import opened Results
  import opened JavaNumbers

  datatype FieldKind = Plain | RecordOf(recordType: RecordType)

  datatype Field = Field(name: string, kind: FieldKind)

  datatype RecordType = RecordType(name: string, fields: seq<Field>)

  /** A `Class<T>` argument: null, a record class, or any other class. */
  datatype Class = NullClass | RecordClass(recordType: RecordType) | OtherClass(name: string)

  datatype Value =
    | Null
    | Bool(b: bool)                              // java.lang.Boolean
    | Int(i: int)                                // java.lang.Integer
    | Long(l: int)                               // java.lang.Long
    | BigInteger(n: int)                         // java.math.BigInteger
    | Decimal(unscaled: int, scale: int)         // java.math.BigDecimal
    | Str(s: string)                             // java.lang.String
    | Character(c: char)                         // java.lang.Character
    | List(items: seq<Value>)                    // any java.util.Collection
    | Array(elements: seq<Value>, identity: string) // a Java array; `identity` is its Object.toString()
    | Dict(entries: seq<(string, Value)>)        // a java.util.Map
    | Record(recordType: RecordType, fields: seq<Value>) // an instance of a record class
    | OtherNumber(text: string)                  // any other java.lang.Number (Double, Float, Short,
                                                 // Byte, AtomicLong, ...), known by its toString()
    | Other(text: string)                        // any other object, known by its toString()

  /** Keys of an entry list, in iteration order. */
  function Keys(es: seq<(string, Value)>): (ks: seq<string>)
    ensures |ks| == |es|
    ensures forall i :: 0 <= i < |es| ==> ks[i] == es[i].0
  {
    if es == [] then [] else [es[0].0] + Keys(es[1..])
  }

  predicate DistinctKeys(es: seq<(string, Value)>) {
    forall i, j :: 0 <= i < j < |es| ==> es[i].0 != es[j].0
  }

  /** `Map.containsKey`. */
  predicate HasKey(es: seq<(string, Value)>, k: string)
    decreases |es|
  {
    es != [] && (es[0].0 == k || HasKey(es[1..], k))
  }

  /** A key is present exactly when it is among the keys. */
  lemma {:induction false} HasKeyIsKey(es: seq<(string, Value)>, k: string)
    ensures HasKey(es, k) <==> k in Keys(es)
  {
    if es != [] {
      HasKeyIsKey(es[1..], k);
      assert Keys(es) == [es[0].0] + Keys(es[1..]);
    }
  }

  /** `Map.get`: the value stored under `k`, or null when there is none. */
  function Get(es: seq<(string, Value)>, k: string): (v: Value)
    ensures !HasKey(es, k) ==> v == Null
  {
    if es == [] then Null else if es[0].0 == k then es[0].1 else Get(es[1..], k)
  }

  /** `Map.get` finds the first entry under the key. */
  lemma {:induction false} GetFirst(es: seq<(string, Value)>, k: string, i: nat)
    requires i < |es| && es[i].0 == k
    requires forall j :: 0 <= j < i ==> es[j].0 != k
    ensures Get(es, k) == es[i].1
  {
    if i > 0 {
      GetFirst(es[1..], k, i - 1);
    }
  }

  /** `Map.put`: replaces the value of an existing key in place, otherwise
      adds the entry at the end. */
  function Put(es: seq<(string, Value)>, k: string, v: Value): (r: seq<(string, Value)>)
    ensures |es| <= |r| <= |es| + 1
  {
    if es == [] then [(k, v)]
    else if es[0].0 == k then [(k, v)] + es[1..]
    else [es[0]] + Put(es[1..], k, v)
  }

  /** A put keeps the key order and adds a new key at the end. */
  lemma {:induction false} PutKeys(es: seq<(string, Value)>, k: string, v: Value)
    ensures Keys(Put(es, k, v)) == if HasKey(es, k) then Keys(es) else Keys(es) + [k]
  {
    if es != [] && es[0].0 != k {
      PutKeys(es[1..], k, v);
      assert Keys(Put(es, k, v)) == [es[0].0] + Keys(Put(es[1..], k, v));
      assert Keys(es) == [es[0].0] + Keys(es[1..]);
    }
  }

  /** A put of a new key appends the entry. */
  lemma {:induction false} PutFresh(es: seq<(string, Value)>, k: string, v: Value)
    requires !HasKey(es, k)
    ensures Put(es, k, v) == es + [(k, v)]
  {
    if es != [] {
      PutFresh(es[1..], k, v);
      assert es == [es[0]] + es[1..];
    }
  }

  /** After a put the key holds the new value. */
  lemma {:induction false} PutGetSame(es: seq<(string, Value)>, k: string, v: Value)
    ensures Get(Put(es, k, v), k) == v
  {
    if es != [] && es[0].0 != k {
      PutGetSame(es[1..], k, v);
    }
  }

  /** A put leaves the value of every other key unchanged. */
  lemma {:induction false} PutGetOther(es: seq<(string, Value)>, k: string, v: Value, other: string)
    requires other != k
    ensures Get(Put(es, k, v), other) == Get(es, other)
  {
    if es != [] && es[0].0 != k {
      PutGetOther(es[1..], k, v, other);
    }
  }

  /** After a put, `containsKey` holds for the put key and for exactly the
      keys it held before. */
  lemma {:induction false} PutHasKey(es: seq<(string, Value)>, k: string, v: Value, other: string)
    ensures HasKey(Put(es, k, v), other) <==> HasKey(es, other) || other == k
  {
    if es != [] && es[0].0 != k {
      PutHasKey(es[1..], k, v, other);
    }
  }

  /** A put keeps the keys distinct. */
  lemma PutKeepsKeysDistinct(es: seq<(string, Value)>, k: string, v: Value)
    requires DistinctKeys(es)
    ensures DistinctKeys(Put(es, k, v))
  {
    var r := Put(es, k, v);
    PutKeys(es, k, v);
    HasKeyIsKey(es, k);
    var ks, before := Keys(r), Keys(es);
    forall i, j | 0 <= i < j < |r|
      ensures r[i].0 != r[j].0
    {
      assert r[i].0 == ks[i] == before[i] == es[i].0;
      if j < |es| {
        assert r[j].0 == ks[j] == before[j] == es[j].0;
      } else {
        assert r[j].0 == k && before[i] in before;
      }
    }
  }

  /** `String.valueOf(v)`: the text `toString()` gives each kind of object. */
  function Text(v: Value): string
    decreases v, 1
  {
    match v
    case Null => "null"
    case Bool(b) => if b then "true" else "false"
    case Int(i) => IntToString(i)
    case Long(l) => IntToString(l)
    case BigInteger(n) => IntToString(n)
    case Decimal(u, sc) => DecimalToString(u, sc)
    case Str(s) => s
    case Character(c) => [c]
    case List(items) => "[" + ItemsText(v, 0) + "]"       // AbstractCollection.toString
    case Array(_, identity) => identity
    case Dict(es) => "{" + EntriesText(v, 0) + "}"       // AbstractMap.toString
    case Record(t, fs) => t.name + "[" + FieldsText(v, 0) + "]" // Name[field=value, ...]
    case OtherNumber(text) => text
    case Other(text) => text
  }

  /** The `toString()` text of an integral number reads back as that
      number wherever it fits: `Integer.valueOf` and `Long.valueOf` parse
      it. */
  lemma IntegerTextParses(v: Value)
    requires v.Int? || v.Long? || v.BigInteger?
    ensures var n := if v.Int? then v.i else if v.Long? then v.l else v.n;
            ParseInt(Text(v)) == (if InInt(n) then Some(n) else None) &&
            ParseLong(Text(v)) == (if InLong(n) then Some(n) else None)
  {
    var n := if v.Int? then v.i else if v.Long? then v.l else v.n;
    assert Text(v) == IntToString(n);
    IntToStringParses(n, INT_MIN, INT_MAX);
    IntToStringParses(n, LONG_MIN, LONG_MAX);
  }

  /** The `toString()` text of a `BigDecimal` whose scale is not negative
      reads back through `new BigDecimal` as the same unscaled value and
      scale. */
  lemma DecimalTextParses(v: Value)
    requires v.Decimal? && 0 <= v.scale <= INT_MAX
    ensures ParseDecimal(Text(v)) == Some((v.unscaled, v.scale))
  {
    DecimalToStringParses(v.unscaled, v.scale);
  }

  /** The separator before member `i` of a `toString()` listing. */
  function ListSeparator(i: nat): string {
    if i > 0 then ", " else ""
  }

  function ItemsText(v: Value, i: nat): string
    requires v.List? && i <= |v.items|
    decreases v, 0, |v.items| - i
  {
    if i == |v.items| then "" else ListSeparator(i) + Text(v.items[i]) + ItemsText(v, i + 1)
  }

  function EntriesText(v: Value, i: nat): string
    requires v.Dict? && i <= |v.entries|
    decreases v, 0, |v.entries| - i
  {
    if i == |v.entries| then ""
    else ListSeparator(i) + v.entries[i].0 + "=" + Text(v.entries[i].1) + EntriesText(v, i + 1)
  }

  function FieldsText(v: Value, i: nat): string
    requires v.Record? && i <= |v.fields|
    decreases v, 0, |v.fields| - i
  {
    if i == |v.fields| then ""
    else
      var name := if i < |v.recordType.fields| then v.recordType.fields[i].name else "";
      ListSeparator(i) + name + "=" + Text(v.fields[i]) + FieldsText(v, i + 1)
  }
}
