/** `JSONBuilder`: the streaming JSON serializer.

    The builder is its text so far and two flags: `comma`, set once a value
    or a container has been completed at the current level, and `prop`, set
    right after a property name. Every operation only appends to the text. */
module JsonBuilder {
  import opened Results
  import opened Values
  import opened Escaping
  import opened Chars

  datatype Builder = Builder(out: string, comma: bool, prop: bool)

  /** `new JSONBuilder()`. */
  const Fresh: Builder := Builder("", false, false)

  /** The flags are never both set: `property` clears `comma` when it sets
      `prop`, and everything that sets `comma` clears `prop`. */
  predicate Valid(b: Builder) {
    b.prop ==> !b.comma
  }

  /** The comma `beginArray`, `beginObject` and `property` write first. */
  function Separator(b: Builder): string {
    if b.comma then "," else ""
  }

  /** The comma `value` writes first. */
  function ValueSeparator(b: Builder): string {
    if b.comma && !b.prop then "," else ""
  }

  function BeginArray(b: Builder): (r: Builder)
    ensures b.out <= r.out && Valid(r) && !r.comma && !r.prop
    ensures r.out == b.out + Separator(b) + "["
  {
    Builder(b.out + Separator(b) + "[", false, false)
  }

  function EndArray(b: Builder): (r: Builder)
    ensures b.out <= r.out && Valid(r) && r.comma
  {
    Builder(b.out + "]", true, false)
  }

  function BeginObject(b: Builder): (r: Builder)
    ensures b.out <= r.out && Valid(r) && !r.comma && !r.prop
    ensures r.out == b.out + Separator(b) + "{"
  {
    Builder(b.out + Separator(b) + "{", false, false)
  }

  function EndObject(b: Builder): (r: Builder)
    ensures b.out <= r.out && Valid(r) && r.comma
  {
    Builder(b.out + "}", true, false)
  }

  /** A JSON string: the escaped text between quotes. */
  function Quote(s: string): string {
    "\"" + Escape(s) + "\""
  }

  /** `property(name)` with a non-null name. */
  function Key(b: Builder, name: string): (r: Builder)
    ensures b.out <= r.out && Valid(r) && r.prop
  {
    Builder(b.out + Separator(b) + Quote(name) + ":", false, true)
  }

  /** `property`: a null name is a NullPointerException. */
  function Property(b: Builder, name: Option<string>): (r: Result<Builder>)
    ensures name.None? <==> r == Err(NullPointer)
    ensures r.Ok? ==> b.out <= r.value.out && Valid(r.value) && r.value.prop
  {
    match name
    case None => Err(NullPointer)
    case Some(n) => Ok(Key(b, n))
  }

  /** `doString` and `doLiteral`: append text, flags unchanged. */
  function Append(b: Builder, text: string): (r: Builder)
    ensures b.out <= r.out && r.comma == b.comma && r.prop == b.prop
  {
    Builder(b.out + text, b.comma, b.prop)
  }

  /** `value` as written keeps `comma` set after writing its comma, so a
      container that follows writes a second one; the corrected variant
      clears it. */
  datatype Variant = AsWritten | Corrected

  /** The comma `value` writes first. */
  function Lead(variant: Variant, b: Builder): (r: Builder)
    ensures b.out <= r.out
  {
    if b.comma && !b.prop then Builder(b.out + ",", variant == AsWritten, b.prop) else b
  }

  predicate IsContainer(v: Value) {
    v.Dict? || v.List? || v.Array?
  }

  /** The dispatch of `value` on the runtime kind: maps become objects,
      collections and arrays become arrays, everything else is a scalar. */
  function Emit(variant: Variant, b: Builder, v: Value): (r: Builder)
    ensures b.out <= r.out
    decreases v, 1
  {
    if v.Dict? then EndObject(EntriesFrom(variant, BeginObject(b), v, 0))
    else if v.List? || v.Array? then EndArray(ItemsFrom(variant, BeginArray(b), v, 0))
    else Append(b, Scalar(v))
  }

  /** The text `value` writes for a non-container: `null`, a quoted string
      or character, the `toString()` of a number or boolean, and the quoted
      `toString()` of anything else (a record has no case of its own). */
  function Scalar(v: Value): string
    requires !IsContainer(v)
  {
    match v
    case Null => "null"
    case Str(s) => Quote(s)
    case Character(c) => Quote([c])
    case Int(_) => Text(v)
    case Long(_) => Text(v)
    case BigInteger(_) => Text(v)
    case Decimal(_, _) => Text(v)
    case OtherNumber(_) => Text(v)
    case Bool(_) => Text(v)
    case Record(_, _) => Quote(Text(v))
    case Other(_) => Quote(Text(v))
  }

  /** `value(v)`: the comma, the value, then a completed member. */
  function ValueWith(variant: Variant, b: Builder, v: Value): (r: Builder)
    ensures b.out <= r.out && Valid(r) && r.comma
    decreases v, 2
  {
    Builder(Emit(variant, Lead(variant, b), v).out, true, false)
  }

  function Elements(v: Value): seq<Value>
    requires v.List? || v.Array?
  {
    if v.List? then v.items else v.elements
  }

  /** The element loop of `doCollection` and `doArray` from element `i` on. */
  function ItemsFrom(variant: Variant, b: Builder, v: Value, i: nat): (r: Builder)
    requires v.List? || v.Array?
    requires i <= |Elements(v)|
    ensures b.out <= r.out
    ensures Valid(b) ==> Valid(r)
    decreases v, 0, |Elements(v)| - i
  {
    if i == |Elements(v)| then b
    else
      ItemsFrom(variant, ValueWith(variant, b, Elements(v)[i]), v, i + 1)
  }

  /** The entry loop of `doMap` from entry `i` on: `property(key)`, then
      `value(value)`. */
  function EntriesFrom(variant: Variant, b: Builder, v: Value, i: nat): (r: Builder)
    requires v.Dict?
    requires i <= |v.entries|
    ensures b.out <= r.out
    ensures Valid(b) ==> Valid(r)
    decreases v, 0, |v.entries| - i
  {
    if i == |v.entries| then b
    else
      var entry := v.entries[i];
      EntriesFrom(variant, ValueWith(variant, Key(b, entry.0), entry.1), v, i + 1)
  }

  /** `value`, corrected. */
  function Value(b: Builder, v: Value): (r: Builder)
    ensures b.out <= r.out && Valid(r) && r.comma
  {
    ValueWith(Corrected, b, v)
  }

  /** `toJSON(v)`, corrected: a fresh builder after one `value(v)`. */
  function ToJson(v: Value): string {
    Value(Fresh, v).out
  }

  /** `value` as written. */
  function ValueAsWritten(b: Builder, v: Value): (r: Builder)
    ensures b.out <= r.out && Valid(r) && r.comma
  {
    ValueWith(AsWritten, b, v)
  }

  /** `toJSON(v)` as written. */
  function ToJsonAsWritten(v: Value): string {
    ValueAsWritten(Fresh, v).out
  }

  // The reference serialization, independent of the builder's state.

  /** The JSON text of a value: `null`, numbers and booleans by their
      `toString()`, strings, characters and any other object quoted, maps as
      objects and collections and arrays as arrays, members separated by
      commas. */
  function Ser(v: Value): string
    decreases v, 2
  {
    if v.Dict? then "{" + SerEntries(v, 0) + "}"
    else if v.List? || v.Array? then "[" + SerItems(v, 0) + "]"
    else Scalar(v)
  }

  /** The comma before member `i` of an array or object. */
  function Comma(i: nat): string {
    if i > 0 then "," else ""
  }

  /** The elements from `i` on, each after its comma. */
  function SerItems(v: Value, i: nat): string
    requires v.List? || v.Array?
    requires i <= |Elements(v)|
    decreases v, 1, |Elements(v)| - i
  {
    if i == |Elements(v)| then "" else Comma(i) + Ser(Elements(v)[i]) + SerItems(v, i + 1)
  }

  /** Entry `i` of a map as an object member: the quoted key, a colon and the
      value. */
  function Member(v: Value, i: nat): string
    requires v.Dict? && i < |v.entries|
    decreases v, 0
  {
    Quote(v.entries[i].0) + ":" + Ser(v.entries[i].1)
  }

  /** The entries from `i` on, each after its comma. */
  function SerEntries(v: Value, i: nat): string
    requires v.Dict?
    requires i <= |v.entries|
    decreases v, 1, |v.entries| - i
  {
    if i == |v.entries| then "" else Comma(i) + Member(v, i) + SerEntries(v, i + 1)
  }

  /** Moving the boundary between what is written and what is still to come. */
  lemma Regroup(out: string, sep: string, t: string, rest: string)
    ensures out + (sep + t + rest) == (out + sep + t) + rest
  {
  }

  /** Closing a container: what the loop wrote, then the bracket. */
  lemma Close(out: string, open: string, inner: string, close: string)
    ensures (out + open) + inner + close == out + (open + inner + close)
  {
  }

  /** A value that is not a container is appended as its reference text. */
  lemma EmitScalar(variant: Variant, b: Builder, v: Value)
    requires !IsContainer(v)
    ensures Emit(variant, b, v).out == b.out + Ser(v)
  {
  }

  lemma {:induction false} EmitObject(b: Builder, v: Value)
    requires !b.comma && v.Dict?
    ensures Emit(Corrected, b, v).out == b.out + Ser(v)
    decreases v, 1
  {
    var start := BeginObject(b);
    ObjectShape(Corrected, b, v);
    EntriesSerialize(start, v, 0);
    Close(b.out, "{", SerEntries(v, 0), "}");
  }

  lemma {:induction false} EmitArray(b: Builder, v: Value)
    requires !b.comma && (v.List? || v.Array?)
    ensures Emit(Corrected, b, v).out == b.out + Ser(v)
    decreases v, 1
  {
    var start := BeginArray(b);
    ArrayShape(Corrected, b, v);
    ItemsSerialize(start, v, 0);
    Close(b.out, "[", SerItems(v, 0), "]");
  }

  /** How a map is written, and its reference text. */
  lemma ObjectShape(variant: Variant, b: Builder, v: Value)
    requires v.Dict?
    ensures Emit(variant, b, v) == EndObject(EntriesFrom(variant, BeginObject(b), v, 0))
    ensures Ser(v) == "{" + SerEntries(v, 0) + "}"
  {
  }

  /** How a collection or an array is written, and its reference text. */
  lemma ArrayShape(variant: Variant, b: Builder, v: Value)
    requires v.List? || v.Array?
    ensures Emit(variant, b, v) == EndArray(ItemsFrom(variant, BeginArray(b), v, 0))
    ensures Ser(v) == "[" + SerItems(v, 0) + "]"
  {
  }

  /** The corrected dispatch appends the reference text of the value. */
  lemma EmitSerializes(b: Builder, v: Value)
    requires !b.comma
    ensures Emit(Corrected, b, v).out == b.out + Ser(v)
    decreases v, 2
  {
    if v.Dict? {
      EmitObject(b, v);
    } else if v.List? || v.Array? {
      EmitArray(b, v);
    } else {
      EmitScalar(Corrected, b, v);
    }
  }

  /** The corrected `value` appends its comma and the reference text of the
      value, and leaves a completed member behind. */
  lemma {:induction false} ValueSerializes(b: Builder, v: Value)
    requires Valid(b)
    ensures Value(b, v) == Builder(b.out + ValueSeparator(b) + Ser(v), true, false)
    decreases v, 3
  {
    var b1 := Lead(Corrected, b);
    assert b1.out == b.out + ValueSeparator(b) && !b1.comma;
    EmitSerializes(b1, v);
  }

  /** One round of the element loop is one corrected `value`. */
  lemma ItemsStep(b: Builder, v: Value, i: nat)
    requires v.List? || v.Array?
    requires i < |Elements(v)|
    ensures ItemsFrom(Corrected, b, v, i) == ItemsFrom(Corrected, Value(b, Elements(v)[i]), v, i + 1)
    ensures SerItems(v, i) == Comma(i) + Ser(Elements(v)[i]) + SerItems(v, i + 1)
  {
  }

  /** One round of the entry loop is a `property` and a corrected `value`. */
  lemma EntriesStep(b: Builder, v: Value, i: nat)
    requires v.Dict?
    requires i < |v.entries|
    ensures EntriesFrom(Corrected, b, v, i) == EntriesFrom(Corrected, Value(Key(b, v.entries[i].0), v.entries[i].1), v, i + 1)
    ensures SerEntries(v, i) == Comma(i) + Member(v, i) + SerEntries(v, i + 1)
    ensures Member(v, i) == Quote(v.entries[i].0) + ":" + Ser(v.entries[i].1)
  {
  }

  /** The member text after a `property`: the value's separator is empty. */
  lemma KeyedText(b: Builder, k: string, t: string)
    ensures var named := Key(b, k);
            named.out + ValueSeparator(named) + t == b.out + Separator(b) + (Quote(k) + ":" + t)
  {
    var front, q := b.out + Separator(b), Quote(k);
    assert (front + q + ":") + "" + t == front + (q + ":" + t);
  }

  lemma {:induction false} ItemsSerialize(b: Builder, v: Value, i: nat)
    requires v.List? || v.Array?
    requires i <= |Elements(v)|
    requires !b.prop && b.comma == (i > 0)
    ensures ItemsFrom(Corrected, b, v, i)
            == Builder(b.out + SerItems(v, i), b.comma || i < |Elements(v)|, false)
    decreases v, 0, |Elements(v)| - i
  {
    if i < |Elements(v)| {
      var e := Elements(v)[i];
      ItemsStep(b, v, i);
      ValueSerializes(b, e);
      ItemsSerialize(Value(b, e), v, i + 1);
      Regroup(b.out, Comma(i), Ser(e), SerItems(v, i + 1));
    }
  }

  lemma {:induction false} EntriesSerialize(b: Builder, v: Value, i: nat)
    requires v.Dict?
    requires i <= |v.entries|
    requires !b.prop && b.comma == (i > 0)
    ensures EntriesFrom(Corrected, b, v, i)
            == Builder(b.out + SerEntries(v, i), b.comma || i < |v.entries|, false)
    decreases v, 0, |v.entries| - i
  {
    if i < |v.entries| {
      var entry := v.entries[i];
      EntriesStep(b, v, i);
      ValueSerializes(Key(b, entry.0), entry.1);
      KeyedText(b, entry.0, Ser(entry.1));
      EntriesSerialize(Value(Key(b, entry.0), entry.1), v, i + 1);
      Regroup(b.out, Comma(i), Member(v, i), SerEntries(v, i + 1));
    }
  }

  /** `toJSON` (corrected) is the reference serialization. */
  lemma ToJsonSerializes(v: Value)
    ensures ToJson(v) == Ser(v)
  {
    ValueSerializes(Fresh, v);
  }

  // The as-written `value`.

  /** For a value that is not a container the two variants agree: the flag
      `value` leaves set is overwritten before anything reads it. */
  lemma ScalarVariantsAgree(b: Builder, v: Value)
    requires !IsContainer(v)
    ensures ValueAsWritten(b, v) == Value(b, v)
  {
    EmitScalar(AsWritten, Lead(AsWritten, b), v);
    EmitScalar(Corrected, Lead(Corrected, b), v);
  }

  /** As written, a map, collection or array written after a completed
      sibling is preceded by two commas. */
  lemma AsWrittenDoubleComma(b: Builder, v: Value)
    requires b.comma && !b.prop && IsContainer(v)
    ensures b.out + ",," <= ValueAsWritten(b, v).out
  {
    var lead := Lead(AsWritten, b);
    assert lead == Builder(b.out + ",", true, false);
    if v.Dict? {
      var start := BeginObject(lead);
      assert start.out == b.out + ",," + "{";
      assert Emit(AsWritten, lead, v) == EndObject(EntriesFrom(AsWritten, start, v, 0));
    } else {
      var start := BeginArray(lead);
      assert start.out == b.out + ",," + "[";
      assert Emit(AsWritten, lead, v) == EndArray(ItemsFrom(AsWritten, start, v, 0));
    }
  }

  /** The corrected `value` writes a single comma before such a container. */
  lemma CorrectedSingleComma(b: Builder, v: Value)
    requires b.comma && !b.prop && IsContainer(v)
    ensures Value(b, v).out == b.out + "," + Ser(v)
    ensures Value(b, v).out[|b.out| + 1] != ','
  {
    ValueSerializes(b, v);
  }

  /** The as-written `value([1])` at the start of an array. */
  lemma FirstInnerList(b: Builder, one: Value)
    requires b == Builder("[", false, false) && one == List([Int(1)])
    ensures ValueWith(AsWritten, b, one) == Builder("[[1]", true, false)
  {
    assert Text(Int(1)) == "1";
    assert Emit(AsWritten, b, one) == EndArray(ItemsFrom(AsWritten, BeginArray(b), one, 0));
    assert ItemsFrom(AsWritten, BeginArray(b), one, 0) == Builder("[[1", true, false);
  }

  /** The as-written `value([2])` after a completed sibling: two commas. */
  lemma SecondInnerList(b: Builder, two: Value)
    requires b == Builder("[[1]", true, false) && two == List([Int(2)])
    ensures ValueWith(AsWritten, b, two) == Builder("[[1],,[2]", true, false)
  {
    assert Text(Int(2)) == "2";
    var lead := Lead(AsWritten, b);
    assert lead == Builder("[[1],", true, false);
    assert BeginArray(lead) == Builder("[[1],,[", false, false);
    assert ItemsFrom(AsWritten, BeginArray(lead), two, 0) == Builder("[[1],,[2", true, false);
  }

  /** `toJSON(List.of(List.of(1), List.of(2)))` as written is `[[1],,[2]]`,
      which is not JSON. */
  lemma DoubleCommaExample(one: Value, two: Value, v: Value)
    requires one == List([Int(1)]) && two == List([Int(2)]) && v == List([one, two])
    ensures ToJsonAsWritten(v) == "[[1],,[2]]"
  {
    var b0 := BeginArray(Fresh);
    FirstInnerList(b0, one);
    var b1 := ValueWith(AsWritten, b0, one);
    SecondInnerList(b1, two);
    var b2 := ValueWith(AsWritten, b1, two);
    assert Elements(v)[0] == one && Elements(v)[1] == two;
    assert ItemsFrom(AsWritten, b1, v, 1) == ItemsFrom(AsWritten, b2, v, 2) == b2;
    assert ItemsFrom(AsWritten, b0, v, 0) == ItemsFrom(AsWritten, b1, v, 1);
    assert Emit(AsWritten, Fresh, v) == EndArray(ItemsFrom(AsWritten, b0, v, 0));
  }

  /** The corrected builder writes `[[1],[2]]` for the same value. */
  lemma SingleCommaExample(one: Value, two: Value, v: Value)
    requires one == List([Int(1)]) && two == List([Int(2)]) && v == List([one, two])
    ensures ToJson(v) == "[[1],[2]]"
  {
    SmallInts();
    ToJsonSerializes(v);
    SingletonText(one);
    SingletonText(two);
    assert SerItems(v, 1) == "," + "[2]";
    assert SerItems(v, 0) == "[1]" + "," + "[2]";
  }

  /** A `Number` of a kind the builder does not single out (a `Double`, a
      `Float`, a `Short`, ...) is written unquoted as its `toString()`, as
      `toJSON(1.5)` gives `1.5`; any other object is quoted. */
  lemma OtherNumberUnquoted(t: string)
    ensures ToJson(OtherNumber(t)) == t
    ensures ToJson(Other(t)) == Quote(t)
  {
    ToJsonSerializes(OtherNumber(t));
    ToJsonSerializes(Other(t));
  }

  /** A collection of one value that is not a container. */
  lemma SingletonText(x: Value)
    requires x.List? && |x.items| == 1 && !IsContainer(x.items[0])
    ensures Ser(x) == "[" + Ser(x.items[0]) + "]"
  {
    assert SerItems(x, 0) == Ser(x.items[0]);
  }

  // The streaming interface, with the source's own `value`.

  /** One call on a builder. */
  datatype Call =
    | BeginArrayCall
    | EndArrayCall
    | BeginObjectCall
    | EndObjectCall
    | PropertyCall(name: string)
    | ValueCall(v: Value)

  function Step(b: Builder, c: Call): (r: Builder)
    ensures b.out <= r.out
    ensures Valid(b) ==> Valid(r)
  {
    match c
    case BeginArrayCall => BeginArray(b)
    case EndArrayCall => EndArray(b)
    case BeginObjectCall => BeginObject(b)
    case EndObjectCall => EndObject(b)
    case PropertyCall(name) => Key(b, name)
    case ValueCall(v) => ValueAsWritten(b, v)
  }

  /** The builder after a sequence of calls, in order. */
  function Run(b: Builder, calls: seq<Call>): (r: Builder)
    ensures b.out <= r.out
    ensures Valid(b) ==> Valid(r)
    decreases |calls|
  {
    if calls == [] then b else Run(Step(b, calls[0]), calls[1..])
  }

  lemma {:induction false} RunConcat(b: Builder, first: seq<Call>, second: seq<Call>)
    ensures Run(b, first + second) == Run(Run(b, first), second)
    decreases |first|
  {
    if first != [] {
      assert (first + second)[1..] == first[1..] + second;
      RunConcat(Step(b, first[0]), first[1..], second);
    } else {
      assert first + second == second;
    }
  }

  /** The calls that write a value piece by piece: begin and end around
      containers, a property before each map entry, and `value` only for
      values that are not containers. */
  function Calls(v: Value): (r: seq<Call>)
    ensures forall k :: 0 <= k < |r| && r[k].ValueCall? ==> !IsContainer(r[k].v)
    decreases v, 1
  {
    if v.Dict? then [BeginObjectCall] + EntryCalls(v, 0) + [EndObjectCall]
    else if v.List? || v.Array? then [BeginArrayCall] + ItemCalls(v, 0) + [EndArrayCall]
    else [ValueCall(v)]
  }

  function ItemCalls(v: Value, i: nat): (r: seq<Call>)
    requires v.List? || v.Array?
    requires i <= |Elements(v)|
    ensures forall k :: 0 <= k < |r| && r[k].ValueCall? ==> !IsContainer(r[k].v)
    decreases v, 0, |Elements(v)| - i
  {
    if i == |Elements(v)| then [] else Calls(Elements(v)[i]) + ItemCalls(v, i + 1)
  }

  function EntryCalls(v: Value, i: nat): (r: seq<Call>)
    requires v.Dict?
    requires i <= |v.entries|
    ensures forall k :: 0 <= k < |r| && r[k].ValueCall? ==> !IsContainer(r[k].v)
    decreases v, 0, |v.entries| - i
  {
    if i == |v.entries| then []
    else [PropertyCall(v.entries[i].0)] + Calls(v.entries[i].1) + EntryCalls(v, i + 1)
  }

  /** The corrected `value` of a container: its comma is the one a begin
      call would write. */
  lemma ValueOfContainer(b: Builder, v: Value)
    requires Valid(b) && IsContainer(v)
    ensures v.Dict? ==> Value(b, v) == EndObject(EntriesFrom(Corrected, BeginObject(b), v, 0))
    ensures !v.Dict? ==> Value(b, v) == EndArray(ItemsFrom(Corrected, BeginArray(b), v, 0))
  {
    var lead := Lead(Corrected, b);
    assert BeginArray(lead) == BeginArray(b);
    assert BeginObject(lead) == BeginObject(b);
    assert Value(b, v) == Builder(Emit(Corrected, lead, v).out, true, false);
    if v.Dict? {
      assert Emit(Corrected, lead, v) == EndObject(EntriesFrom(Corrected, BeginObject(b), v, 0));
    } else {
      assert Emit(Corrected, lead, v) == EndArray(ItemsFrom(Corrected, BeginArray(b), v, 0));
    }
  }

  /** The calls around a container: begin, the inner calls, end. */
  lemma RunAround(b: Builder, open: Call, inner: seq<Call>, close: Call)
    ensures Run(b, [open] + inner + [close]) == Step(Run(Step(b, open), inner), close)
  {
    RunConcat(b, [open] + inner, [close]);
    RunConcat(b, [open], inner);
    assert Run(b, [open]) == Step(b, open);
    var mid := Run(Step(b, open), inner);
    assert Run(mid, [close]) == Step(mid, close);
  }

  /** Writing a value piece by piece through the source's builder gives
      exactly what the corrected `value` gives: the streaming calls place
      their commas right, and only `value` on a container goes wrong. */
  lemma {:induction false} StreamMatchesValue(b: Builder, v: Value)
    requires Valid(b)
    ensures Run(b, Calls(v)) == Value(b, v)
    decreases v, 2
  {
    if v.Dict? {
      ValueOfContainer(b, v);
      RunAround(b, BeginObjectCall, EntryCalls(v, 0), EndObjectCall);
      EntriesStream(BeginObject(b), v, 0);
    } else if v.List? || v.Array? {
      ValueOfContainer(b, v);
      RunAround(b, BeginArrayCall, ItemCalls(v, 0), EndArrayCall);
      ItemsStream(BeginArray(b), v, 0);
    } else {
      ScalarVariantsAgree(b, v);
    }
  }

  lemma {:induction false} ItemsStream(b: Builder, v: Value, i: nat)
    requires v.List? || v.Array?
    requires i <= |Elements(v)|
    requires Valid(b)
    ensures Run(b, ItemCalls(v, i)) == ItemsFrom(Corrected, b, v, i)
    decreases v, 1, |Elements(v)| - i
  {
    if i < |Elements(v)| {
      var e := Elements(v)[i];
      RunConcat(b, Calls(e), ItemCalls(v, i + 1));
      StreamMatchesValue(b, e);
      ItemsStep(b, v, i);
      ItemsStream(Value(b, e), v, i + 1);
    }
  }

  /** A property call, the calls of its value, then the rest. */
  lemma RunProperty(b: Builder, k: string, value: seq<Call>, rest: seq<Call>)
    ensures Run(b, [PropertyCall(k)] + value + rest) == Run(Run(Key(b, k), value), rest)
  {
    RunConcat(b, [PropertyCall(k)] + value, rest);
    RunConcat(b, [PropertyCall(k)], value);
    assert Run(b, [PropertyCall(k)]) == Key(b, k);
  }

  lemma {:induction false} EntriesStream(b: Builder, v: Value, i: nat)
    requires v.Dict?
    requires i <= |v.entries|
    requires Valid(b)
    ensures Run(b, EntryCalls(v, i)) == EntriesFrom(Corrected, b, v, i)
    decreases v, 1, |v.entries| - i
  {
    if i < |v.entries| {
      var k, e := v.entries[i].0, v.entries[i].1;
      var named := Key(b, k);
      assert EntryCalls(v, i) == [PropertyCall(k)] + Calls(e) + EntryCalls(v, i + 1);
      RunProperty(b, k, Calls(e), EntryCalls(v, i + 1));
      StreamMatchesValue(named, e);
      EntriesStep(b, v, i);
      EntriesStream(Value(named, e), v, i + 1);
    }
  }

  // Where the as-written `value` goes wrong.

  /** No collection or array, at any depth, holds a map, collection or array
      after its first element. */
  predicate SiblingSafe(v: Value)
    decreases v
  {
    match v
    case List(items) =>
      forall i :: 0 <= i < |items| ==> (i > 0 ==> !IsContainer(items[i])) && SiblingSafe(items[i])
    case Array(elements, _) =>
      forall i :: 0 <= i < |elements| ==> (i > 0 ==> !IsContainer(elements[i])) && SiblingSafe(elements[i])
    case Dict(entries) =>
      forall i :: 0 <= i < |entries| ==> SiblingSafe(entries[i].1)
    case _ => true
  }

  lemma SafeElement(v: Value, i: nat)
    requires v.List? || v.Array?
    requires i < |Elements(v)|
    requires SiblingSafe(v)
    ensures SiblingSafe(Elements(v)[i])
    ensures i > 0 ==> !IsContainer(Elements(v)[i])
  {
  }

  lemma ItemsStepAsWritten(b: Builder, v: Value, i: nat)
    requires v.List? || v.Array?
    requires i < |Elements(v)|
    ensures ItemsFrom(AsWritten, b, v, i) == ItemsFrom(AsWritten, ValueAsWritten(b, Elements(v)[i]), v, i + 1)
  {
  }

  lemma EntriesStepAsWritten(b: Builder, v: Value, i: nat)
    requires v.Dict?
    requires i < |v.entries|
    ensures EntriesFrom(AsWritten, b, v, i)
            == EntriesFrom(AsWritten, ValueAsWritten(Key(b, v.entries[i].0), v.entries[i].1), v, i + 1)
  {
  }

  /** The as-written `value` agrees with the corrected one unless it writes a
      container right after a completed sibling. */
  lemma {:induction false} AgreeValue(b: Builder, v: Value)
    requires SiblingSafe(v)
    requires IsContainer(v) ==> !(b.comma && !b.prop)
    ensures ValueAsWritten(b, v) == Value(b, v)
    decreases v, 3
  {
    if IsContainer(v) {
      assert Lead(AsWritten, b) == b == Lead(Corrected, b);
      AgreeEmit(b, v);
    } else {
      ScalarVariantsAgree(b, v);
    }
  }

  lemma {:induction false} AgreeEmit(b: Builder, v: Value)
    requires SiblingSafe(v) && IsContainer(v)
    ensures Emit(AsWritten, b, v) == Emit(Corrected, b, v)
    decreases v, 2
  {
    if v.Dict? {
      AgreeEntries(BeginObject(b), v, 0);
    } else {
      AgreeItems(BeginArray(b), v, 0);
    }
  }

  lemma {:induction false} AgreeItems(b: Builder, v: Value, i: nat)
    requires v.List? || v.Array?
    requires i <= |Elements(v)|
    requires SiblingSafe(v)
    requires i == 0 ==> !b.comma
    ensures ItemsFrom(AsWritten, b, v, i) == ItemsFrom(Corrected, b, v, i)
    decreases v, 1, |Elements(v)| - i
  {
    if i < |Elements(v)| {
      var e := Elements(v)[i];
      SafeElement(v, i);
      AgreeValue(b, e);
      ItemsStep(b, v, i);
      ItemsStepAsWritten(b, v, i);
      AgreeItems(Value(b, e), v, i + 1);
    }
  }

  lemma {:induction false} AgreeEntries(b: Builder, v: Value, i: nat)
    requires v.Dict?
    requires i <= |v.entries|
    requires SiblingSafe(v)
    ensures EntriesFrom(AsWritten, b, v, i) == EntriesFrom(Corrected, b, v, i)
    decreases v, 1, |v.entries| - i
  {
    if i < |v.entries| {
      var k, e := v.entries[i].0, v.entries[i].1;
      var named := Key(b, k);
      assert SiblingSafe(e);
      AgreeValue(named, e);
      EntriesStep(b, v, i);
      EntriesStepAsWritten(b, v, i);
      AgreeEntries(Value(named, e), v, i + 1);
    }
  }

  /** Hence `toJSON` as written is the reference serialization for every
      value in which no container follows a sibling inside an array. */
  lemma AsWrittenSerializes(v: Value)
    requires SiblingSafe(v)
    ensures ToJsonAsWritten(v) == Ser(v)
  {
    AgreeValue(Fresh, v);
    ToJsonSerializes(v);
  }

  // The test suite's examples, as the source's builder runs them.

  /** A string of lower-case letters and digits is quoted as it is. */
  lemma QuotePlain(s: string)
    requires forall j :: 0 <= j < |s| ==> IsAsciiLower(s[j]) || IsAsciiDigit(s[j])
    ensures Quote(s) == "\"" + s + "\""
  {
    EscapeIdentity(s);
  }

  lemma EmptyObjectExample()
    ensures EndObject(BeginObject(Fresh)).out == "{}"
  {
  }

  /** `verifyProperty`: an object holding one empty object under `name`. */
  lemma PropertyExample(name: string)
    ensures EndObject(EndObject(BeginObject(Key(BeginObject(Fresh), name)))).out
            == "{" + Quote(name) + ":" + "{" + "}" + "}"
  {
  }

  /** A property holding an empty object, as `testDouble` writes it twice. */
  lemma PropertyEmptyObject(b: Builder, name: string)
    ensures EndObject(BeginObject(Key(b, name)))
            == Builder(b.out + Separator(b) + Quote(name) + ":" + "{" + "}", true, false)
  {
  }

  /** `testDouble`: two properties holding empty objects. */
  lemma TwoPropertiesExample(text: string, text2: string)
    ensures var first := EndObject(BeginObject(Key(BeginObject(Fresh), text)));
            EndObject(EndObject(BeginObject(Key(first, text2)))).out
            == "{" + Quote(text) + ":" + "{" + "}" + "," + Quote(text2) + ":" + "{" + "}" + "}"
  {
    var b0 := BeginObject(Fresh);
    var q1, q2 := Quote(text), Quote(text2);
    var b3 := EndObject(BeginObject(Key(b0, text)));
    PropertyEmptyObject(b0, text);
    var e3 := "{" + q1 + ":" + "{" + "}";
    assert b3 == Builder(e3, true, false);
    PropertyEmptyObject(b3, text2);
    var b7 := EndObject(BeginObject(Key(b3, text2)));
    assert b7.out == e3 + "," + q2 + ":" + "{" + "}";
  }

  /** A value that is not a container, through the source's `value`. */
  lemma ScalarValue(b: Builder, v: Value)
    requires Valid(b) && !IsContainer(v)
    ensures ValueAsWritten(b, v) == Builder(b.out + ValueSeparator(b) + Ser(v), true, false)
  {
    ScalarVariantsAgree(b, v);
    ValueSerializes(b, v);
  }

  /** A property holding a value that is not a container. */
  lemma PropertyScalar(b: Builder, name: string, v: Value)
    requires !IsContainer(v)
    ensures ValueAsWritten(Key(b, name), v)
            == Builder(b.out + Separator(b) + Quote(name) + ":" + Ser(v), true, false)
  {
    ScalarValue(Key(b, name), v);
  }

  /** `testValues`: a string, null and a number under three properties. */
  lemma ValuesExample(text: string, text2: string, intName: string, asd: string)
    ensures var b1 := ValueAsWritten(Key(BeginObject(Fresh), text), Str(asd));
            var b2 := ValueAsWritten(Key(b1, text2), Null);
            EndObject(ValueAsWritten(Key(b2, intName), Int(1))).out
            == "{" + Quote(text) + ":" + Quote(asd) + "," + Quote(text2) + ":" + "null"
               + "," + Quote(intName) + ":" + "1" + "}"
  {
    SmallInts();
    var b0 := BeginObject(Fresh);
    var b1 := ValueAsWritten(Key(b0, text), Str(asd));
    PropertyScalar(b0, text, Str(asd));
    var e1 := "{" + Quote(text) + ":" + Quote(asd);
    assert b1 == Builder(e1, true, false);
    var b2 := ValueAsWritten(Key(b1, text2), Null);
    PropertyScalar(b1, text2, Null);
    var e2 := e1 + "," + Quote(text2) + ":" + "null";
    assert b2 == Builder(e2, true, false);
    PropertyScalar(b2, intName, Int(1));
    var b3 := ValueAsWritten(Key(b2, intName), Int(1));
    assert b3.out == e2 + "," + Quote(intName) + ":" + "1";
  }

  /** `testArray`: two numbers, then an object written by hand. */
  lemma ArrayExample(text: string, asd: string)
    ensures var numbers := ValueAsWritten(ValueAsWritten(BeginArray(Fresh), Int(1)), Int(3));
            var obj := EndObject(ValueAsWritten(Key(BeginObject(numbers), text), Str(asd)));
            EndArray(obj).out == "[" + "1" + "," + "3" + "," + "{" + Quote(text) + ":" + Quote(asd) + "}" + "]"
  {
    SmallInts();
    var b0 := BeginArray(Fresh);
    ScalarValue(b0, Int(1));
    var b1 := ValueAsWritten(b0, Int(1));
    assert b1 == Builder("[" + "1", true, false);
    ScalarValue(b1, Int(3));
    var b2 := ValueAsWritten(b1, Int(3));
    var e2 := "[" + "1" + "," + "3";
    assert b2 == Builder(e2, true, false);
    var b3 := BeginObject(b2);
    assert b3 == Builder(e2 + "," + "{", false, false);
    PropertyScalar(b3, text, Str(asd));
  }

  /** The integers the tests write. */
  lemma SmallInts()
    ensures Ser(Int(1)) == "1" && Ser(Int(2)) == "2" && Ser(Int(3)) == "3"
  {
    assert Text(Int(1)) == "1" && Text(Int(2)) == "2" && Text(Int(3)) == "3";
  }

  /** `toJSON` of a collection or array of three values that are not
      containers: their texts between brackets, separated by commas. */
  lemma ThreeElements(v: Value)
    requires v.List? || v.Array?
    requires |Elements(v)| == 3
    requires forall i :: 0 <= i < 3 ==> !IsContainer(Elements(v)[i])
    ensures ToJsonAsWritten(v)
            == "[" + Ser(Elements(v)[0]) + "," + Ser(Elements(v)[1]) + "," + Ser(Elements(v)[2]) + "]"
  {
    ThreeSafe(v);
    AgreeValue(Fresh, v);
    ValueOfContainer(Fresh, v);
    ThreeItems(v);
  }

  /** Three elements that are not containers are safe siblings. */
  lemma ThreeSafe(v: Value)
    requires v.List? || v.Array?
    requires |Elements(v)| == 3
    requires forall i :: 0 <= i < 3 ==> !IsContainer(Elements(v)[i])
    ensures SiblingSafe(v)
  {
    if v.List? {
      assert forall i :: 0 <= i < |v.items| ==> !IsContainer(v.items[i]) && SiblingSafe(v.items[i]);
    } else {
      assert forall i :: 0 <= i < |v.elements| ==> !IsContainer(v.elements[i]) && SiblingSafe(v.elements[i]);
    }
  }

  /** The corrected loop over three elements writes them with commas between. */
  lemma ThreeItems(v: Value)
    requires v.List? || v.Array?
    requires |Elements(v)| == 3
    ensures var es := Elements(v);
            ItemsFrom(Corrected, BeginArray(Fresh), v, 0)
              == Builder("[" + Ser(es[0]) + "," + Ser(es[1]) + "," + Ser(es[2]), true, false)
  {
    var es := Elements(v);
    var b2 := Builder("[" + Ser(es[0]) + "," + Ser(es[1]), true, false);
    var b3 := Builder(b2.out + "," + Ser(es[2]), true, false);
    TwoItems(v);
    NextItem(b2, v, 2, b3);
    assert ItemsFrom(Corrected, b3, v, 3) == b3;
  }

  /** The first two rounds of the corrected loop. */
  lemma TwoItems(v: Value)
    requires v.List? || v.Array?
    requires |Elements(v)| >= 2
    ensures var es := Elements(v);
            ItemsFrom(Corrected, BeginArray(Fresh), v, 0)
              == ItemsFrom(Corrected, Builder("[" + Ser(es[0]) + "," + Ser(es[1]), true, false), v, 2)
  {
    var es := Elements(v);
    var b0 := Builder("[", false, false);
    var b1 := Builder("[" + Ser(es[0]), true, false);
    var b2 := Builder(b1.out + "," + Ser(es[1]), true, false);
    assert BeginArray(Fresh) == b0;
    NextItem(b0, v, 0, b1);
    NextItem(b1, v, 1, b2);
  }

  /** One element of the corrected loop: its separator and its text. */
  lemma NextItem(b: Builder, v: Value, i: nat, b': Builder)
    requires v.List? || v.Array?
    requires i < |Elements(v)| && Valid(b)
    requires b' == Builder(b.out + ValueSeparator(b) + Ser(Elements(v)[i]), true, false)
    ensures ItemsFrom(Corrected, b, v, i) == ItemsFrom(Corrected, b', v, i + 1)
  {
    ItemsStep(b, v, i);
    ValueSerializes(b, Elements(v)[i]);
  }

  /** `testList`: `List.of(1, 2, 3)` is `[1,2,3]`. */
  lemma ListExample(v: Value)
    requires v == List([Int(1), Int(2), Int(3)])
    ensures ToJsonAsWritten(v) == "[1,2,3]"
  {
    ThreeElements(v);
    SmallInts();
  }
}
