/** `Records`: flattening a record into a map and binding a record from a
    name lookup.

    Reflection is replaced by the field table of `Values.RecordType`; the
    canonical constructor is `Values.Record(type, arguments)`, taking the
    arguments in declaration order. */
module Records {
  import opened Results
  import opened Chars
  import opened Values
  import NT = NameTransform

  /** Java guarantees that a record's component names are distinct. */
  predicate DistinctNames(t: RecordType) {
    forall i, j :: 0 <= i < j < |t.fields| ==> t.fields[i].name != t.fields[j].name
  }

  /** A record instance has one value per declared field of a type with
      distinct names, and so do the record instances held in its fields. */
  predicate Shaped(v: Value) {
    v.Record? ==>
      && DistinctNames(v.recordType)
      && |v.fields| == |v.recordType.fields|
      && forall i :: 0 <= i < |v.fields| ==> Shaped(v.fields[i])
  }

  /** No field, at any depth of nested records, holds null. */
  predicate NoNullFields(v: Value)
    requires v.Record?
  {
    NoNullFieldsFrom(v, 0)
  }

  predicate NoNullFieldsFrom(v: Value, i: nat)
    requires v.Record?
    decreases v, 0
  {
    forall j :: i <= j < |v.fields| ==> NonNullField(v.fields[j])
  }

  /** A field value `toMap` accepts: not null, and free of nulls if a record. */
  predicate NonNullField(v: Value)
    decreases v, 1
  {
    v != Null && (v.Record? ==> NoNullFieldsFrom(v, 0))
  }

  /** The names of the first `n` fields, in declaration order. */
  function FieldNames(t: RecordType, n: nat): (ns: seq<string>)
    requires n <= |t.fields|
    ensures |ns| == n
    ensures forall i :: 0 <= i < n ==> ns[i] == t.fields[i].name
  {
    if n == 0 then [] else FieldNames(t, n - 1) + [t.fields[n - 1].name]
  }

  lemma FreshName(t: RecordType, i: nat)
    requires DistinctNames(t) && i < |t.fields|
    ensures t.fields[i].name !in FieldNames(t, i)
    ensures FieldNames(t, i) + [t.fields[i].name] == FieldNames(t, i + 1)
  {
  }

  /** Putting field `i` into a map holding the first `i` fields adds a new
      key: the keys become the first `i + 1` field names. */
  lemma PutNextName(t: RecordType, i: nat, acc: seq<(string, Value)>, value: Value)
    requires DistinctNames(t) && i < |t.fields|
    requires Keys(acc) == FieldNames(t, i)
    ensures !HasKey(acc, t.fields[i].name)
    ensures Keys(Put(acc, t.fields[i].name, value)) == FieldNames(t, i + 1)
  {
    FreshName(t, i);
    HasKeyIsKey(acc, t.fields[i].name);
    PutKeys(acc, t.fields[i].name, value);
  }

  /** `Records.toMap`: null is a NullPointerException, a non-record an
      IllegalArgumentException, a record a map of its fields (see
      `ToMapEntries`). Reading a null field value fails, because `isRecord`
      dereferences it. */
  function ToMap(v: Value): (r: Result<seq<(string, Value)>>)
    requires Shaped(v)
    ensures v == Null ==> r == Err(NullPointer)
    ensures v != Null && !v.Record? ==> r.Err? && r.error.ArgumentError?
    ensures v.Record? ==> (r.Ok? <==> NoNullFields(v))
    ensures v.Record? && r.Err? ==> r.error == NullPointer
    decreases v, 1
  {
    match v
    case Null => Err(NullPointer)
    case Record(t, fs) => FieldsToMap(v, 0, [])
    case _ => Err(ArgumentError("Required a java record"))
  }

  /** The loop of `toMap` from field `i` on, with `acc` the map built so far. */
  function FieldsToMap(rec: Value, i: nat, acc: seq<(string, Value)>): (r: Result<seq<(string, Value)>>)
    requires rec.Record? && Shaped(rec) && i <= |rec.fields|
    ensures r.Ok? <==> NoNullFieldsFrom(rec, i)
    ensures r.Err? ==> r.error == NullPointer
    decreases rec, 0, |rec.fields| - i
  {
    if i == |rec.fields| then Ok(acc)
    else
      var name := rec.recordType.fields[i].name;
      var value := rec.fields[i];
      if value == Null then Err(NullPointer)
      else if value.Record? then
        match ToMap(value)
        case Err(e) => Err(e)
        case Ok(m) => FieldsToMap(rec, i + 1, Put(acc, name, Dict(m)))
      else FieldsToMap(rec, i + 1, Put(acc, name, value))
  }

  /** The map entry `toMap` stores for a field value: a nested record becomes
      its own map, anything else is stored as is. */
  function Flattened(v: Value): Value
    requires Shaped(v) && NonNullField(v)
  {
    if v.Record? then Dict(ToMap(v).value) else v
  }

  /** The entry `toMap` stores for field `i`: its name and `Flattened` value. */
  function Entry(rec: Value, i: nat): (string, Value)
    requires rec.Record? && Shaped(rec) && i < |rec.fields| && NonNullField(rec.fields[i])
  {
    (rec.recordType.fields[i].name, Flattened(rec.fields[i]))
  }

  /** One step of the `toMap` loop that succeeds: field `i` is not null and
      its entry is added at the end, under a new key. */
  lemma FieldsToMapStep(rec: Value, i: nat, acc: seq<(string, Value)>)
    requires rec.Record? && Shaped(rec) && i < |rec.fields|
    requires Keys(acc) == FieldNames(rec.recordType, i)
    requires FieldsToMap(rec, i, acc).Ok?
    ensures NonNullField(rec.fields[i])
    ensures Keys(acc + [Entry(rec, i)]) == FieldNames(rec.recordType, i + 1)
    ensures FieldsToMap(rec, i, acc) == FieldsToMap(rec, i + 1, acc + [Entry(rec, i)])
  {
    var name, value := rec.recordType.fields[i].name, Flattened(rec.fields[i]);
    PutNextName(rec.recordType, i, acc, value);
    PutFresh(acc, name, value);
  }

  /** The entries of fields `i..` in declaration order, each under its name
      with the value `toMap` stores for it. */
  function Entries(rec: Value, i: nat): (es: seq<(string, Value)>)
    requires rec.Record? && Shaped(rec) && i <= |rec.fields| && NoNullFieldsFrom(rec, i)
    ensures |es| == |rec.fields| - i
    ensures forall j :: i <= j < |rec.fields| ==>
              NonNullField(rec.fields[j]) && es[j - i] == (rec.recordType.fields[j].name, Flattened(rec.fields[j]))
    decreases |rec.fields| - i
  {
    if i == |rec.fields| then [] else [Entry(rec, i)] + Entries(rec, i + 1)
  }

  lemma Concat(a: seq<(string, Value)>, e: (string, Value), rest: seq<(string, Value)>)
    ensures (a + [e]) + rest == a + ([e] + rest)
  {
  }

  /** The `toMap` loop from field `i` on appends the entries of those fields
      to `acc`, in order. */
  lemma {:induction false} FieldsToMapEntries(rec: Value, i: nat, acc: seq<(string, Value)>)
    requires rec.Record? && Shaped(rec) && i <= |rec.fields|
    requires Keys(acc) == FieldNames(rec.recordType, i)
    requires FieldsToMap(rec, i, acc).Ok?
    ensures NoNullFieldsFrom(rec, i)
    ensures FieldsToMap(rec, i, acc).value == acc + Entries(rec, i)
    decreases |rec.fields| - i
  {
    if i < |rec.fields| {
      FieldsToMapStep(rec, i, acc);
      FieldsToMapEntries(rec, i + 1, acc + [Entry(rec, i)]);
      Concat(acc, Entry(rec, i), Entries(rec, i + 1));
    } else {
      assert Entries(rec, i) == [];
    }
  }

  /** `toMap` of a record lists exactly its fields, in declaration order,
      each under its name with the field value or the nested record's map. */
  lemma ToMapEntries(v: Value)
    requires Shaped(v) && v.Record? && NoNullFields(v)
    ensures ToMap(v).value == Entries(v, 0)
  {
    FieldsToMapEntries(v, 0, []);
    assert [] + Entries(v, 0) == Entries(v, 0);
  }

  /** `toMap` stores every field under its own name: the field value itself,
      or the map of a nested record. */
  lemma ToMapValues(v: Value)
    requires Shaped(v) && v.Record? && NoNullFields(v)
    ensures forall i :: 0 <= i < |v.fields| ==>
              NonNullField(v.fields[i]) && Get(ToMap(v).value, v.recordType.fields[i].name) == Flattened(v.fields[i])
  {
    ToMapEntries(v);
    var es := Entries(v, 0);
    var t := v.recordType;
    forall i | 0 <= i < |v.fields|
      ensures NonNullField(v.fields[i]) && Get(es, t.fields[i].name) == Flattened(v.fields[i])
    {
      assert es[i] == (t.fields[i].name, Flattened(v.fields[i]));
      assert forall j :: 0 <= j < i ==> es[j].0 == t.fields[j].name != t.fields[i].name;
      GetFirst(es, t.fields[i].name, i);
    }
  }

  /** The five names `getValueWithNameCases` tries, in order: the exact
      name, then the `SNAKE` form lower- and upper-cased, then the `KEBAB`
      form lower- and upper-cased. */
  function Candidates(name: string): (cs: seq<string>)
    ensures |cs| == 5 && cs[0] == name
  {
    var snake := NT.Apply(NT.Snake, Some(name)).value;
    var kebab := NT.Apply(NT.Kebab, Some(name)).value;
    [name, LowerString(snake), UpperString(snake), LowerString(kebab), UpperString(kebab)]
  }

  /** `getValueWithNameCases`: the first non-null result of the lookup over
      the candidate names, or null when all five miss. */
  function ResolveName(fetch: string -> Value, name: string): (r: Value)
    ensures r == Null <==> forall i :: 0 <= i < 5 ==> fetch(Candidates(name)[i]) == Null
    ensures r != Null ==>
              exists i :: 0 <= i < 5 && r == fetch(Candidates(name)[i]) &&
                          forall j :: 0 <= j < i ==> fetch(Candidates(name)[j]) == Null
  {
    var cs := Candidates(name);
    if fetch(cs[0]) != Null then fetch(cs[0])
    else if fetch(cs[1]) != Null then fetch(cs[1])
    else if fetch(cs[2]) != Null then fetch(cs[2])
    else if fetch(cs[3]) != Null then fetch(cs[3])
    else fetch(cs[4])
  }

  /** Binding a record type from a lookup: each declared field, in order,
      takes the resolved value; a record-typed field whose value is a map is
      bound recursively from that map (what `fromMap` does for a record type
      and a non-null map), every other value is passed through unchanged. */
  function Bind(t: RecordType, fetch: string -> Value): (r: Value)
    ensures r.Record? && r.recordType == t && |r.fields| == |t.fields|
    ensures forall i :: 0 <= i < |t.fields| ==>
              var v := ResolveName(fetch, t.fields[i].name);
              if t.fields[i].kind.RecordOf? && v.Dict?
              then r.fields[i].Record? && r.fields[i].recordType == t.fields[i].kind.recordType
              else r.fields[i] == v
    decreases t, 1
  {
    Record(t, seq(|t.fields|, i requires 0 <= i < |t.fields| => Argument(t, i, fetch)))
  }

  function Argument(t: RecordType, i: nat, fetch: string -> Value): (r: Value)
    requires i < |t.fields|
    ensures var v := ResolveName(fetch, t.fields[i].name);
            if t.fields[i].kind.RecordOf? && v.Dict?
            then r.Record? && r.recordType == t.fields[i].kind.recordType
            else r == v
    decreases t, 0
  {
    var field := t.fields[i];
    var value := ResolveName(fetch, field.name);
    if field.kind.RecordOf? && value.Dict? then
      var nested := value.entries;
      Bind(field.kind.recordType, k => Get(nested, k))
    else value
  }

  /** `Records.fromPropertyDiscover`: a null lookup gives null, a null class
      a NullPointerException, a class that is not a record an
      IllegalArgumentException; a record class is bound field by field. */
  function FromPropertyDiscover(c: Class, fetch: Option<string -> Value>): (r: Result<Value>)
    ensures fetch.None? ==> r == Ok(Null)
    ensures fetch.Some? && c.NullClass? ==> r == Err(NullPointer)
    ensures fetch.Some? && c.OtherClass? ==> r.Err? && r.error.ArgumentError?
    ensures fetch.Some? && c.RecordClass? ==>
              r.Ok? && r.value.Record? && r.value.recordType == c.recordType
  {
    match fetch
    case None => Ok(Null)
    case Some(f) =>
      match c
      case NullClass => Err(NullPointer)
      case OtherClass(_) => Err(ArgumentError("Required a java record"))
      case RecordClass(t) => Ok(Bind(t, f))
  }

  /** `Records.fromMap`: a null map gives null before any check of the
      class; otherwise the map's `get` is the lookup. */
  function FromMap(c: Class, m: Option<seq<(string, Value)>>): (r: Result<Value>)
    ensures m.None? ==> r == Ok(Null)
    ensures m.Some? && c.NullClass? ==> r == Err(NullPointer)
    ensures m.Some? && c.OtherClass? ==> r.Err? && r.error.ArgumentError?
    ensures m.Some? && c.RecordClass? ==>
              r.Ok? && r.value.Record? && r.value.recordType == c.recordType
  {
    match m
    case None => Ok(Null)
    case Some(entries) => FromPropertyDiscover(c, Some(k => Get(entries, k)))
  }

  /** The declared field types agree with the values: a field holds a record
      exactly when it is declared with that record type. */
  predicate WellTyped(v: Value) {
    v.Record? ==>
      forall i :: 0 <= i < |v.fields| && i < |v.recordType.fields| ==>
        && (v.recordType.fields[i].kind.RecordOf? <==> v.fields[i].Record?)
        && (v.fields[i].Record? ==>
              v.fields[i].recordType == v.recordType.fields[i].kind.recordType && WellTyped(v.fields[i]))
  }

  /** Binding a record from its own `toMap` rebuilds it, nested records
      included, when no field is null and the declared types agree. */
  lemma {:induction false} RoundTrip(v: Value)
    requires v.Record? && Shaped(v) && WellTyped(v) && NoNullFields(v)
    ensures FromMap(RecordClass(v.recordType), Some(ToMap(v).value)) == Ok(v)
    decreases v
  {
    var t := v.recordType;
    var m := ToMap(v).value;
    var fetch := k => Get(m, k);
    ToMapValues(v);
    var r := Bind(t, fetch);
    forall i | 0 <= i < |t.fields|
      ensures r.fields[i] == v.fields[i]
    {
      var field := v.fields[i];
      assert fetch(t.fields[i].name) == Flattened(field);
      assert ResolveName(fetch, t.fields[i].name) == Flattened(field);
      assert r.fields[i] == Argument(t, i, fetch);
      if field.Record? {
        RoundTrip(field);
      }
    }
    assert r.fields == v.fields;
  }

  /** `nameDifferent` has one boundary: `name_different` under `SNAKE`,
      `name-different` under `KEBAB`. */
  lemma SplitNameDifferent(sep: char, name: string)
    requires sep == '_' || sep == '-'
    requires name == "nameDifferent"
    ensures NT.SplitCase(sep, name) == "name" + [sep] + "different"
  {
    NT.SplitOneBoundary(sep, name, 4);
    assert name[..4] == "name" && name[5..] == "ifferent" && ToLower('D') == 'd';
  }

  lemma CandidatesNameDifferent(name: string)
    requires name == "nameDifferent"
    ensures Candidates(name)
            == [name, "name_different", "NAME_DIFFERENT", "name-different", "NAME-DIFFERENT"]
  {
    var snake := NT.Apply(NT.Snake, Some(name)).value;
    var kebab := NT.Apply(NT.Kebab, Some(name)).value;
    SplitNameDifferent('_', name);
    SplitNameDifferent('-', name);
    assert snake == "name" + "_" + "different" == "name_different";
    assert kebab == "name" + "-" + "different" == "name-different";
    UpperNameDifferent(snake, "NAME_DIFFERENT");
    UpperNameDifferent(kebab, "NAME-DIFFERENT");
    LowerStringIdentity(snake);
    LowerStringIdentity(kebab);
  }

  lemma UpperNameDifferent(s: string, u: string)
    requires s in ["name_different", "name-different"]
    requires u == (if s[4] == '_' then "NAME_DIFFERENT" else "NAME-DIFFERENT")
    ensures UpperString(s) == u
  {
    var r := UpperString(s);
    assert |r| == |u|;
    forall i | 0 <= i < |u|
      ensures r[i] == u[i]
    {
    }
  }

  /** With the name "nameDifferent", a value stored under any of the five
      spellings is found. */
  lemma NameCases(name: string, key: string, v: Value)
    requires name == "nameDifferent"
    requires key in ["nameDifferent", "name_different", "NAME_DIFFERENT", "name-different", "NAME-DIFFERENT"]
    requires v != Null
    ensures ResolveName(k => Get([(key, v)], k), name) == v
  {
    CandidatesNameDifferent(name);
  }

  // The test suite's examples.

  function SampleType(): RecordType {
    RecordType("Sample", [Field("id", Plain), Field("name", Plain)])
  }

  function NestedType(): RecordType {
    RecordType("Nested", [Field("visible", Plain), Field("sample", RecordOf(SampleType()))])
  }

  lemma ToMapExample()
    ensures ToMap(Record(SampleType(), [Int(1), Str("test")]))
            == Ok([("id", Int(1)), ("name", Str("test"))])
  {
    var v := Record(SampleType(), [Int(1), Str("test")]);
    assert NoNullFields(v) by {
      assert NonNullField(v.fields[0]) && NonNullField(v.fields[1]);
    }
    ToMapEntries(v);
    var es := Entries(v, 0);
    assert es[0] == ("id", Int(1)) && es[1] == ("name", Str("test"));
    assert es == [("id", Int(1)), ("name", Str("test"))];
  }

  lemma ToMapNestedExample(v: Value)
    requires v == Record(NestedType(), [Bool(true), Record(SampleType(), [Int(1), Str("test")])])
    ensures Shaped(v)
    ensures ToMap(v) == Ok([("visible", Bool(true)), ("sample", Dict([("id", Int(1)), ("name", Str("test"))]))])
  {
    var inner := v.fields[1];
    ToMapExample();
    assert NoNullFields(inner) by {
      assert NonNullField(inner.fields[0]) && NonNullField(inner.fields[1]);
    }
    assert NoNullFields(v) by {
      assert NonNullField(v.fields[0]) && NonNullField(v.fields[1]);
    }
    ToMapEntries(v);
    var es := Entries(v, 0);
    assert es[0] == ("visible", Bool(true));
    assert es[1] == ("sample", Dict([("id", Int(1)), ("name", Str("test"))]));
    assert es == [("visible", Bool(true)), ("sample", Dict([("id", Int(1)), ("name", Str("test"))]))];
  }

  lemma FromMapExample()
    ensures FromMap(RecordClass(SampleType()), Some([("id", Int(1)), ("name", Str("test"))]))
            == Ok(Record(SampleType(), [Int(1), Str("test")]))
  {
    var v := Record(SampleType(), [Int(1), Str("test")]);
    ToMapExample();
    RoundTrip(v);
  }

  lemma FromMapNestedExample(m: seq<(string, Value)>)
    requires m == [("visible", Bool(true)), ("sample", Dict([("id", Int(1)), ("name", Str("test"))]))]
    ensures FromMap(RecordClass(NestedType()), Some(m))
            == Ok(Record(NestedType(), [Bool(true), Record(SampleType(), [Int(1), Str("test")])]))
  {
    var inner := Record(SampleType(), [Int(1), Str("test")]);
    var v := Record(NestedType(), [Bool(true), inner]);
    assert Shaped(inner) && WellTyped(inner);
    assert NoNullFields(inner) by {
      assert NonNullField(inner.fields[0]) && NonNullField(inner.fields[1]);
    }
    assert Shaped(v) by {
      assert Shaped(v.fields[0]) && Shaped(v.fields[1]);
    }
    assert WellTyped(v);
    assert NoNullFields(v) by {
      assert NonNullField(v.fields[0]) && NonNullField(v.fields[1]);
    }
    ToMapNestedExample(v);
    RoundTrip(v);
  }
}
