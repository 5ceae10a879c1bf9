# java-baselib codec core, modelled in Dafny

This project models the JSON codec, record binder and name-casing utility of
java-baselib. It also models the pure decisions of its small HTTP server.

- `NameTransform` (`name_transform.dfy`): camelCase to snake_case or
  kebab-case. A separator goes before every match of `(?<=[a-z0-9])[A-Z]`,
  and then the whole name is lower-cased.
- `Records` (`records.dfy`): `toMap` flattens a record into a map, with
  nested records becoming nested maps. `fromMap` and `fromPropertyDiscover`
  bind a record from a lookup. Each field's value is looked up under five
  name spellings: exact, snake lower, snake upper, kebab lower, kebab upper.
- `JsonBuilder` (`json_builder.dfy`, with escaping in `escaping.dfy`): the
  streaming serializer. It keeps a text buffer and two flags, `comma` and
  `prop`, and has `beginArray`, `endArray`, `beginObject`, `endObject`,
  `property`, `value` and `toJSON`.
- `JsonReader` (`json_reader.dfy`, scanning in `lexer.dfy`, numbers in
  `numbers.dfy`): the reader in `baselib.json`. It reads a value
  (`toObject`), a record (`toRecord`) or a list of records
  (`toRecordList`).
- `LegacyReader` (`legacy_reader.dfy`): the older reader in package
  `baselib`. It shares the scanner, never fails, and stops an object at the
  first character it does not expect.
- `HttpServer` (`http_server.dfy`) covers:
  - handler registration, including the automatic `/metrics` endpoint;
  - the variable path a handler sees;
  - the "respond once" latch of a request context, and whether a
    response's body arrives;
  - the status a request ends with;
  - the per-endpoint request metrics, as 64-bit wrapping counters.
- `RoundTrip` (`round_trip.dfy`) relates the builder and the newer reader:
  what `toObject` makes of `toJSON`'s text.

How the Java objects are represented:

- Java objects are one datatype, `Values.Value`: null, booleans, `Integer`,
  `Long`, `BigInteger`, `BigDecimal`, any other `Number` (`Double`,
  `Float`, ...), strings, characters, lists, arrays, maps, records and other
  objects. Another number and another object are known by their
  `toString()` text.
- A decimal digit is what `Character.digit(c, 10)` accepts: a digit of any
  of the 37 runs of ten decimal digits in the Basic Multilingual Plane, not
  only '0'..'9'. The number parsers read such digits; the printers write
  '0'..'9'.
- A map is a list of entries in its iteration order. `Values.Put` and
  `Values.Get` give it `HashMap`'s `put`/`get` semantics.
- A `java.io.Reader` over a string is a position in that string. Each read
  either returns the next character (`Ch(c)`) or returns `End` (Java's -1)
  and stays put.
- Exceptions are the `Err` case of `Results.Result`.

Where the code does something other than what its tests or documentation
lead one to expect, the model follows the code:

- `toJSON` does not flatten records through `Records.toMap`. A record falls
  through to the last branch of `value` and is written as its quoted
  `toString()`. The `testRecord` case of `JSONBuilderTest` expects an object
  instead.
- `toRecordList` does not skip array elements that are not maps. Its
  consumer casts every element other than null and the empty map to `Map`,
  so a string or number element is a `ClassCastException`
  (`JsonReader.BindElement`).
- After a string, array or object, the reader treats the comma before the
  next element or member as optional (`JsonReader.ToObjectNoComma`). A
  literal runs to the next delimiter and skips whitespace, so `[1 2]` reads
  as `[12]`.
  A literal also consumes the `]` or `}` that closes its container, so
  `[[1],2]` reads as `[[1,2]]` (`JsonReader.ToObjectNestedArray`).

The JSON reader tests import `baselib.JSONReader` by name, but they call
`toRecord` and `toRecordList`, which only `baselib.json.JSONReader` has.
They are stated against that reader (`JsonReader`). `LegacyReader.Agree`
shows that the older reader reads every input without a `{` the same way.

## Model

| member | source | states |
|---|---|---|
| NameTransform.Apply | src/main/java/baselib/NameTransform.java:28-56 | null stays null; `NONE` returns the name unchanged; `SNAKE` and `KEBAB` return a name without upper-case letters |
| NameTransform.SplitCasePlacement | src/main/java/baselib/NameTransform.java:42-55 | every input character appears lower-cased, shifted right by the number of earlier pattern matches; the separator sits right before each match; the output length is the input length plus the number of matches |
| NameTransform.SplitFromLength | src/main/java/baselib/NameTransform.java:53-55 | the output is one character longer than the input per match of the pattern |
| NameTransform.SplitCaseNoUpper | src/main/java/baselib/NameTransform.java:53-55 | after the final `toLowerCase` no upper-case letter is left, whichever separator is used |
| NameTransform.SplitFromIdentity | src/main/java/baselib/NameTransform.java:53-55 | a name without upper-case letters comes out unchanged |
| NameTransform.SplitFromVerbatim | src/main/java/baselib/NameTransform.java:53-55 | a stretch without upper-case letters is copied as it is |
| NameTransform.SplitOneBoundary | src/main/java/baselib/NameTransform.java:53-55 | a name with one upper-case letter, after a lower-case letter or digit, gets one separator right before that letter, lower-cased |
| NameTransform.Idempotent | src/main/java/baselib/NameTransform.java:28-56 | applying any transform twice gives the same result as applying it once |
| NameTransform.SnakeKebabSameShape | src/main/java/baselib/NameTransform.java:29-30 | `SNAKE` and `KEBAB` outputs have the same length and differ only where one has `_` and the other `-` |
| NameTransform.SnakeExampleA | src/test/java/baselib/NameTransformTest.java:52 | `a` stays `a` |
| NameTransform.SnakeExampleAUpper | src/test/java/baselib/NameTransformTest.java:53 | `A` becomes `a`: no separator at the start |
| NameTransform.SnakeExampleAA | src/test/java/baselib/NameTransformTest.java:54 | `aA` becomes `a_a` |
| NameTransform.KebabExampleAA | src/test/java/baselib/NameTransformTest.java:67 | `aA` becomes `a-a` |
| NameTransform.SnakeExampleWord2Numbers | src/test/java/baselib/NameTransformTest.java:56 | a digit before an upper-case letter is a boundary: `word2_numbers` |
| NameTransform.KebabExampleWord2Numbers | src/test/java/baselib/NameTransformTest.java:69 | `word2-numbers` |
| NameTransform.SnakeExampleWord2numbers | src/test/java/baselib/NameTransformTest.java:57 | `word2numbers` has no boundary and is unchanged |
| Chars.LowerString | src/main/java/baselib/Records.java:88 | `toLowerCase` keeps the length and lower-cases each letter in place |
| Chars.UpperString | src/main/java/baselib/Records.java:92 | `toUpperCase` keeps the length and upper-cases each letter in place |
| Chars.LowerStringIdentity | src/main/java/baselib/NameTransform.java:55 | lower-casing changes nothing exactly when there is no upper-case letter |
| Values.Put | src/main/java/baselib/json/JSONReader.java:186-189 | `HashMap.put` grows the map by at most one entry. `Values.PutGetSame`, `Values.PutGetOther` and `Values.PutHasKey` state what `get` and `containsKey` see after it |
| Values.Text | src/main/java/baselib/JSONBuilder.java:120-122 | the `toString()` text of each kind of object. `Values.IntegerTextParses` and `Values.DecimalTextParses` state that a number's text reads back as that number |
| Values.IntegerTextParses | src/main/java/baselib/json/JSONReader.java:152-158 | the text of an `Integer`, `Long` or `BigInteger` reads back through `Integer.valueOf` and `Long.valueOf` as the same number exactly when it fits their range |
| Values.DecimalTextParses | src/main/java/baselib/json/JSONReader.java:160-162 | the text of a `BigDecimal` whose scale is not negative reads back through `new BigDecimal` with the same unscaled value and scale |
| Values.HasKeyIsKey | src/main/java/baselib/Records.java:56 | `containsKey` holds exactly when the key is among the map's keys |
| Values.Get | src/main/java/baselib/Records.java:56 | `get` of a key that is not present is null |
| Values.GetFirst | src/main/java/baselib/Records.java:56 | `get` returns the value of the first entry under the key |
| Values.PutKeys | src/main/java/baselib/json/JSONReader.java:186-189 | `put` keeps the key order and adds a new key at the end |
| Values.PutFresh | src/main/java/baselib/json/JSONReader.java:186-189 | `put` of a new key appends the entry |
| Values.PutGetSame | src/main/java/baselib/json/JSONReader.java:186-189 | after `put(k, v)`, `get(k)` is `v` |
| Values.PutGetOther | src/main/java/baselib/json/JSONReader.java:186-189 | `put(k, v)` leaves every other key's value unchanged |
| Values.PutHasKey | src/main/java/baselib/json/JSONReader.java:186-189 | after `put(k, v)` the keys present are exactly the old ones and `k` |
| Values.PutKeepsKeysDistinct | src/main/java/baselib/json/JSONReader.java:186-189 | a map never holds two entries under one key |
| Records.ToMap | src/main/java/baselib/Records.java:36-51 | null is a `NullPointerException` and a non-record an `IllegalArgumentException`; a record succeeds exactly when no field, at any depth, is null, and otherwise fails with the `NullPointerException` of `isRecord(null)` |
| Records.FieldsToMap | src/main/java/baselib/Records.java:42-48 | the field loop succeeds exactly when none of the remaining fields, at any depth, is null; a null field is a `NullPointerException` |
| Records.ToMapEntries | src/main/java/baselib/Records.java:36-51 | `toMap` lists exactly the record's fields, in declaration order, each under its own name |
| Records.ToMapValues | src/main/java/baselib/Records.java:42-48 | looking up a field name in the map gives that field's value, with a nested record replaced by its own map |
| Records.FieldsToMapEntries | src/main/java/baselib/Records.java:42-48 | the loop from field `i` appends the entries of the fields from `i` on to the map built so far |
| Records.PutNextName | src/main/java/baselib/Records.java:42-48 | distinct component names make each `put` add a new key, so the keys are the field names in order |
| Records.Candidates | src/main/java/baselib/Records.java:82-104 | five names are tried, the exact name first |
| Records.ResolveName | src/main/java/baselib/Records.java:82-104 | the result is null exactly when all five lookups give null; otherwise it is the first non-null lookup, in the source's order |
| Records.Bind | src/main/java/baselib/Records.java:65-79 | a record of the requested type with one argument per declared field, in order |
| Records.Argument | src/main/java/baselib/Records.java:68-74 | a record-typed field whose value is a map is bound recursively; any other value is passed as it is |
| Records.FromPropertyDiscover | src/main/java/baselib/Records.java:59-80 | a null lookup function gives null before the class is checked; a null class is a `NullPointerException`; a non-record class is an `IllegalArgumentException`; a record class binds a record of that type |
| Records.FromMap | src/main/java/baselib/Records.java:53-57 | a null map gives null; otherwise binding happens through `map::get`, with the same error cases |
| Records.RoundTrip | src/main/java/baselib/Records.java:36-104 | binding a record from its own `toMap`, for a null-free record whose nested fields have the declared types, rebuilds the same record |
| Records.NameCases | src/test/java/baselib/RecordsTest.java:91-102 | for the field `nameDifferent`, a non-null value stored under any of the five spellings the test lists is found |
| Records.CandidatesNameDifferent | src/test/java/baselib/RecordsTest.java:92-97 | the five spellings tried for `nameDifferent` are the five the test lists |
| Records.SplitNameDifferent | src/main/java/baselib/Records.java:87-96 | `SNAKE` of `nameDifferent` is `name_different` and `KEBAB` of it is `name-different` |
| Records.UpperNameDifferent | src/main/java/baselib/Records.java:92 | the upper-case spellings are `NAME_DIFFERENT` and `NAME-DIFFERENT` |
| Records.ToMapExample | src/test/java/baselib/RecordsTest.java:48-53 | `Sample(1, "test")` maps to `{id=1, name=test}` |
| Records.ToMapNestedExample | src/test/java/baselib/RecordsTest.java:55-61 | a nested record becomes a nested map |
| Records.FromMapExample | src/test/java/baselib/RecordsTest.java:75-80 | `{id=1, name=test}` binds to `Sample(1, "test")` |
| Records.FromMapNestedExample | src/test/java/baselib/RecordsTest.java:82-89 | a nested map binds to a nested record |
| Escaping.Escape | src/main/java/baselib/JSONBuilder.java:161-192 | the escaped text is never shorter than the string. `Escaping.UnescapeEscape` states that nothing is lost and `Escaping.EscapeIdentity` when the string changes |
| Escaping.Chunk | src/main/java/baselib/JSONBuilder.java:169-190 | each character becomes one to six characters. `Escaping.UnescapeChunk` states that they decode back to it and `Escaping.ChunkVerbatim` when they are the character itself |
| Escaping.SanitizeAppend | src/main/java/baselib/JSONBuilder.java:161-192 | the loop appends the escape of the whole string, each character escaped according to itself and the character before it |
| Escaping.UnescapeEscape | src/main/java/baselib/JSONBuilder.java:161-192 | nothing is lost: decoding the escaped text with the escapes of section 7 of RFC 8259 gives back the input |
| Escaping.UnescapeChunk | src/main/java/baselib/JSONBuilder.java:169-190 | each character's escape decodes to that character, whatever follows it |
| Escaping.EscapeNoControl | src/main/java/baselib/JSONBuilder.java:179-186 | the escaped text never holds a raw character below U+0020 |
| Escaping.ChunkVerbatim | src/main/java/baselib/JSONBuilder.java:169-190 | a character is copied as it is exactly when it is not a backslash or a quote, not a `/` after `<`, and not in the `\u` ranges; otherwise it becomes at least two characters |
| Escaping.EscapeIdentity | src/main/java/baselib/JSONBuilder.java:161-192 | escaping changes a string exactly when some character is not copied as it is |
| Escaping.EscapeFromIdentity | src/main/java/baselib/JSONBuilder.java:166-191 | the same, for every suffix the loop has still to process |
| Escaping.Hex4 | src/main/java/baselib/JSONBuilder.java:186 | `%04x` gives four lower-case hex digits |
| Escaping.Hex4RoundTrip | src/main/java/baselib/JSONBuilder.java:186 | the four hex digits spell back the code unit |
| Escaping.HexDigitValue | src/main/java/baselib/JSONBuilder.java:186 | each hex digit spells back its value |
| Escaping.EscapeQuoteSlashExample | src/test/java/baselib/JSONBuilderTest.java:47-50 | `"` is escaped, and `/` only after `<` |
| Escaping.EscapeNamedExample | src/test/java/baselib/JSONBuilderTest.java:52-55 | the five named escapes |
| Escaping.EscapeLowExample | src/test/java/baselib/JSONBuilderTest.java:57-60 | U+0010 becomes `\u0010` |
| Escaping.EscapeHighExample | src/test/java/baselib/JSONBuilderTest.java:62-65 | U+0080 and U+2000 are escaped; U+00A1 and U+2101 are not |
| JsonBuilder.BeginArray | src/main/java/baselib/JSONBuilder.java:49-55 | appends a comma when one is owed, then `[`; both flags are cleared |
| JsonBuilder.EndArray | src/main/java/baselib/JSONBuilder.java:57-61 | text is only appended; a following sibling needs a comma |
| JsonBuilder.BeginObject | src/main/java/baselib/JSONBuilder.java:63-69 | appends a comma when one is owed, then `{`; both flags are cleared |
| JsonBuilder.EndObject | src/main/java/baselib/JSONBuilder.java:71-75 | text is only appended; a following sibling needs a comma |
| JsonBuilder.Key | src/main/java/baselib/JSONBuilder.java:80-89 | text is only appended; the builder is inside a property and owes no comma |
| JsonBuilder.Property | src/main/java/baselib/JSONBuilder.java:77-90 | a null name is exactly the `NullPointerException` case; otherwise as `Key` |
| JsonBuilder.Append | src/main/java/baselib/JSONBuilder.java:120-128 | `doLiteral` and `doString` append and leave the flags alone |
| JsonBuilder.ToJson | src/main/java/baselib/JSONBuilder.java:38-42 | `toJSON`, corrected: a fresh builder after one `value` call. `JsonBuilder.ToJsonSerializes` states that it writes the reference JSON text of every value |
| JsonBuilder.ToJsonAsWritten | src/main/java/baselib/JSONBuilder.java:38-42 | `toJSON` as written. `JsonBuilder.AsWrittenSerializes` states that it writes the reference text when no container follows a sibling, and `JsonBuilder.DoubleCommaExample` shows the `,,` otherwise |
| JsonBuilder.Value | src/main/java/baselib/JSONBuilder.java:92-118 | `value`, corrected: it only appends, keeps the flags consistent and owes the next sibling a comma. `JsonBuilder.ValueSerializes` states what it appends |
| JsonBuilder.ValueAsWritten | src/main/java/baselib/JSONBuilder.java:92-118 | `value` as written, with the same guarantees about the flags. `JsonBuilder.AgreeValue` states where it departs from `Value` |
| JsonBuilder.Lead | src/main/java/baselib/JSONBuilder.java:93-94 | the comma `value` writes first only appends. `JsonBuilder.AsWrittenDoubleComma` shows that as written it leaves the comma flag set |
| JsonBuilder.Emit | src/main/java/baselib/JSONBuilder.java:96-114 | the dispatch on the runtime kind only appends. `JsonBuilder.EmitSerializes` states that it appends the reference text |
| JsonBuilder.Scalar | src/main/java/baselib/JSONBuilder.java:96-128 | the text of null, a string or character, a number or boolean, and any other object. `JsonBuilder.EmitScalar` states that `value` appends it, and `JsonBuilder.OtherNumberUnquoted` that other numbers stay unquoted |
| JsonBuilder.ValueWith | src/main/java/baselib/JSONBuilder.java:92-118 | `value` only appends, leaves both flags consistent, and owes the next sibling a comma |
| JsonBuilder.ItemsFrom | src/main/java/baselib/JSONBuilder.java:130-150 | the element loop only appends and keeps the flags consistent |
| JsonBuilder.EntriesFrom | src/main/java/baselib/JSONBuilder.java:152-159 | the entry loop only appends and keeps the flags consistent |
| JsonBuilder.ToJsonSerializes | src/main/java/baselib/JSONBuilder.java:38-42 | the corrected `toJSON` writes the reference JSON text of every value (nulls, quoted escaped strings, literals, arrays and objects with single commas) |
| JsonBuilder.ValueSerializes | src/main/java/baselib/JSONBuilder.java:92-118 | the corrected `value` appends its separator and the value's reference text, then owes a comma |
| JsonBuilder.EmitSerializes | src/main/java/baselib/JSONBuilder.java:96-114 | the dispatch on the runtime kind appends the reference text |
| JsonBuilder.ItemsSerialize | src/main/java/baselib/JSONBuilder.java:130-150 | the element loop writes the remaining elements, comma separated |
| JsonBuilder.EntriesSerialize | src/main/java/baselib/JSONBuilder.java:152-159 | the entry loop writes the remaining members as `"key":value`, comma separated |
| JsonBuilder.ItemsStep | src/main/java/baselib/JSONBuilder.java:146-150 | one round of the element loop is one `value` call |
| JsonBuilder.EntriesStep | src/main/java/baselib/JSONBuilder.java:152-159 | one round of the entry loop is a `property` and a `value` |
| JsonBuilder.ObjectShape | src/main/java/baselib/JSONBuilder.java:152-159 | a map is written between `beginObject` and `endObject` |
| JsonBuilder.ArrayShape | src/main/java/baselib/JSONBuilder.java:130-150 | a collection or array is written between `beginArray` and `endArray` |
| JsonBuilder.OtherNumberUnquoted | src/main/java/baselib/JSONBuilder.java:102-103 | any other `Number`, a `Double` or `Float` say, is written unquoted as its `toString()`, while any other object is quoted |
| JsonBuilder.EmitScalar | src/main/java/baselib/JSONBuilder.java:96-105 | a value that is not a container is appended as its text |
| JsonBuilder.StreamMatchesValue | src/main/java/baselib/JSONBuilder.java:49-118 | writing a value by hand, as the tests do (begin and end calls, `property`, and `value` on scalars only), gives the same builder as one corrected `value` call on the whole value |
| JsonBuilder.ItemsStream | src/main/java/baselib/JSONBuilder.java:146-150 | the same for the element loop |
| JsonBuilder.EntriesStream | src/main/java/baselib/JSONBuilder.java:152-159 | the same for the entry loop |
| JsonBuilder.RunConcat | src/main/java/baselib/JSONBuilder.java:49-118 | running two call sequences one after the other is running their concatenation |
| JsonBuilder.Calls | src/main/java/baselib/JSONBuilder.java:49-118 | the piecewise calls hand only scalars to `value` |
| JsonBuilder.ValueOfContainer | src/main/java/baselib/JSONBuilder.java:130-159 | a container's comma is the one its `begin` call writes |
| JsonBuilder.ScalarVariantsAgree | src/main/java/baselib/JSONBuilder.java:92-118 | for a value that is not a container, `value` as written equals the corrected `value` |
| JsonBuilder.AgreeValue | src/main/java/baselib/JSONBuilder.java:92-118 | as written and corrected agree unless a map, collection or array follows a completed sibling |
| JsonBuilder.AgreeItems | src/main/java/baselib/JSONBuilder.java:130-150 | the same for the element loop |
| JsonBuilder.AgreeEntries | src/main/java/baselib/JSONBuilder.java:152-159 | the same for the entry loop |
| JsonBuilder.AsWrittenSerializes | src/main/java/baselib/JSONBuilder.java:38-42 | `toJSON` as written writes the reference text for every value with no container after its first element |
| JsonBuilder.SafeElement | src/main/java/baselib/JSONBuilder.java:130-150 | under that condition no later element is a container |
| JsonBuilder.AsWrittenDoubleComma | src/main/java/baselib/JSONBuilder.java:92-118 | as written, a container after a completed sibling is preceded by `,,` |
| JsonBuilder.CorrectedSingleComma | src/main/java/baselib/JSONBuilder.java:92-118 | corrected, the same container is preceded by exactly one comma |
| JsonBuilder.DoubleCommaExample | src/main/java/baselib/JSONBuilder.java:92-118 | `toJSON(List.of(List.of(1), List.of(2)))` as written is `[[1],,[2]]` |
| JsonBuilder.SingleCommaExample | src/main/java/baselib/JSONBuilder.java:92-118 | the corrected builder writes `[[1],[2]]` |
| JsonBuilder.FirstInnerList | src/main/java/baselib/JSONBuilder.java:92-118 | the first inner list at the start of an array gets no comma |
| JsonBuilder.SecondInnerList | src/main/java/baselib/JSONBuilder.java:92-118 | the second inner list gets two commas |
| JsonBuilder.SingletonText | src/main/java/baselib/JSONBuilder.java:146-150 | a one-element collection is its element's text in brackets |
| JsonBuilder.QuotePlain | src/main/java/baselib/JSONBuilder.java:124-128 | lower-case letters and digits are quoted without escapes |
| JsonBuilder.EmptyObjectExample | src/test/java/baselib/JSONBuilderTest.java:40-45 | `beginObject` then `endObject` is `{}` |
| JsonBuilder.PropertyExample | src/test/java/baselib/JSONBuilderTest.java:67-77 | an object holding one empty object under a name |
| JsonBuilder.PropertyEmptyObject | src/test/java/baselib/JSONBuilderTest.java:83-89 | a property holding an empty object, after the builder's separator |
| JsonBuilder.TwoPropertiesExample | src/test/java/baselib/JSONBuilderTest.java:79-93 | two properties holding empty objects, one comma between them |
| JsonBuilder.ScalarValue | src/main/java/baselib/JSONBuilder.java:92-118 | the source's `value` of a scalar appends its separator and its text |
| JsonBuilder.PropertyScalar | src/test/java/baselib/JSONBuilderTest.java:99-106 | a property holding a scalar is `"name":text` |
| JsonBuilder.ValuesExample | src/test/java/baselib/JSONBuilderTest.java:95-110 | a string, null and a number under three properties |
| JsonBuilder.ArrayExample | src/test/java/baselib/JSONBuilderTest.java:112-127 | two numbers, then an object written by hand, in one array |
| JsonBuilder.SmallInts | src/test/java/baselib/JSONBuilderTest.java:143-147 | the integers 1, 2 and 3 are written as their digits |
| JsonBuilder.ThreeElements | src/test/java/baselib/JSONBuilderTest.java:155-170 | a collection or array of three scalars is their texts in brackets, comma separated |
| JsonBuilder.ListExample | src/test/java/baselib/JSONBuilderTest.java:143-147 | `List.of(1, 2, 3)` is `[1,2,3]` |
| JavaNumbers.NatToString | src/main/java/baselib/JSONBuilder.java:120-122 | a non-empty digit string without a leading zero |
| JavaNumbers.NatToStringValue | src/main/java/baselib/JSONBuilder.java:120-122 | the digits spell back the number |
| JavaNumbers.ZeroFromFinds | src/main/java/baselib/json/JSONReader.java:152-162 | the search for a code point's digit run fails exactly when none of the runs it looks at holds the code point |
| JavaNumbers.DigitRuns | src/main/java/baselib/json/JSONReader.java:152-162 | a character is a decimal digit, as `Character.digit(c, 10)` sees it, exactly when one of the 37 digit runs of the Basic Multilingual Plane holds it |
| JavaNumbers.LowDigits | src/main/java/baselib/json/JSONReader.java:152-162 | below U+0660 the only decimal digits are '0'..'9' |
| JavaNumbers.DigitValue | src/main/java/baselib/json/JSONReader.java:152-162 | a digit's value is below ten, and an ASCII digit's value is its distance from '0' |
| JavaNumbers.ParseInteger | src/main/java/baselib/json/JSONReader.java:152-158 | a parsed value is within the type's range; the digits may come from any script's run |
| JavaNumbers.ParseInt | src/main/java/baselib/json/JSONReader.java:152-154 | `Integer.valueOf` gives only 32-bit values |
| JavaNumbers.ParseLong | src/main/java/baselib/json/JSONReader.java:156-158 | `Long.valueOf` gives only 64-bit values |
| JavaNumbers.IntToStringParses | src/main/java/baselib/json/JSONReader.java:152-158 | printing an integer and parsing it back gives that integer when it is in range, and a failure otherwise |
| JavaNumbers.NegativeParses | src/main/java/baselib/json/JSONReader.java:152-158 | the same for negative integers |
| JavaNumbers.ParseSignificand | src/main/java/baselib/json/JSONReader.java:160-162 | a `BigDecimal` significand has at least one digit |
| JavaNumbers.ParseDecimal | src/main/java/baselib/json/JSONReader.java:160-162 | a parsed `BigDecimal` has a 32-bit scale |
| JavaNumbers.ParseExponent | src/main/java/baselib/json/JSONReader.java:160-162 | a `BigDecimal` exponent is a 32-bit integer |
| JavaNumbers.ParseParts | src/main/java/baselib/json/JSONReader.java:160-162 | a sign, a digit string with or without a point, and an `E` exponent read as the unscaled value and scale they spell |
| JavaNumbers.DecimalToStringParses | src/main/java/baselib/json/JSONReader.java:160-162 | `new BigDecimal` reads the `toString()` text of a `BigDecimal` whose scale is not negative back as the same unscaled value and scale, whether that text is an integer, plain with leading zeros, plain with a point inside the digits, or scientific |
| Lexer.NextChar | src/main/java/baselib/json/JSONReader.java:134-136 | -1 exactly at the end of input; otherwise the next character, one position on |
| Lexer.NextNonWhitespace | src/main/java/baselib/json/JSONReader.java:126-132 | every character skipped is whitespace; the result is -1 after only whitespace, or the first other character |
| Lexer.SkipTo | src/main/java/baselib/json/JSONReader.java:126-132 | whitespace up to a non-whitespace character makes that character the next read |
| Lexer.SkipComma | src/main/java/baselib/json/JSONReader.java:196-198 | the read after an element never moves backwards, and a character it returns has been consumed |
| Lexer.StringFrom | src/main/java/baselib/json/JSONReader.java:167-178 | the scan moves forward, never yields more characters than it reads, and never yields a backslash |
| Lexer.ReadString | src/main/java/baselib/json/JSONReader.java:167-178 | `readString` drops every backslash |
| Lexer.StringFromPlain | src/main/java/baselib/json/JSONReader.java:167-178 | text without backslashes or quotes is read up to the next quote, which is consumed |
| Lexer.StringFromEscapedQuote | src/main/java/baselib/json/JSONReader.java:171-173 | a backslash keeps the following quote in the string and is itself dropped |
| Lexer.LiteralFrom | src/main/java/baselib/json/JSONReader.java:138-143 | the `readLiteral` loop reads nothing exactly when its first character stops it, never moves back or past the end, and collects no delimiter and no whitespace after the first character. `Lexer.LiteralText` states what it reads |
| Lexer.LiteralText | src/main/java/baselib/json/JSONReader.java:138-144 | a literal is its first character plus the non-whitespace characters up to the next delimiter, and the delimiter is consumed |
| Lexer.LiteralAtEnd | src/main/java/baselib/json/JSONReader.java:140-143 | when only whitespace is left, the literal gains no more characters and runs to the end of input |
| Lexer.LiteralAtDelimiter | src/main/java/baselib/json/JSONReader.java:140-143 | when the next non-whitespace character is a delimiter, the literal gains no more characters and stops at that delimiter |
| Lexer.LiteralWord | src/main/java/baselib/json/JSONReader.java:138-144 | a word followed by whitespace and a delimiter or the end is one literal |
| Lexer.Classify | src/main/java/baselib/json/JSONReader.java:144-164 | a literal becomes null, a boolean, an `Integer`, a `Long` or a `BigDecimal` |
| Lexer.ClassifyOrder | src/main/java/baselib/json/JSONReader.java:145-164 | the keywords match ignoring case and win over the number parsers; `Integer` is tried before `Long` and `Long` before `BigDecimal` |
| Lexer.ClassifyIntToString | src/main/java/baselib/json/JSONReader.java:152-158 | an integer in decimal reads back as an `Integer` when it fits in 32 bits, and as a `Long` when it fits only in 64 |
| Lexer.ClassifyEmpty | src/main/java/baselib/json/JSONReader.java:164 | the empty literal is null |
| JsonReader.ClassifyArabicDigit | src/main/java/baselib/json/JSONReader.java:152-154 | the Arabic-Indic digit three (U+0663) classifies as `Integer` 3 |
| JsonReader.ToObjectArabicDigit | src/main/java/baselib/json/JSONReader.java:138-154 | the text `٣` reads as `Integer` 3 |
| Lexer.IntToStringNoKeyword | src/main/java/baselib/json/JSONReader.java:145-150 | a number's decimal text is never a keyword |
| JsonReader.ReadItem | src/main/java/baselib/json/JSONReader.java:116-124 | `"` always gives a string; `[` gives a list and `{` a map unless reading fails; the position only moves forward |
| JsonReader.ReadArray | src/main/java/baselib/json/JSONReader.java:180-184 | an array read gives a list |
| JsonReader.ArrayLoop | src/main/java/baselib/json/JSONReader.java:192-200 | the array walk gives a list and only moves forward |
| JsonReader.ReadObject | src/main/java/baselib/json/JSONReader.java:186-190 | an object read gives a map |
| JsonReader.ObjectLoop | src/main/java/baselib/json/JSONReader.java:202-220 | any character other than `}` or `"` where a key is expected is "Not a JSON"; a successful walk gives a map |
| JsonReader.ToObject | src/main/java/baselib/json/JSONReader.java:58-60 | an input of only whitespace, the empty input included, reads as null; an input whose first non-whitespace character is `"` reads as a string |
| JsonReader.ToRecord | src/main/java/baselib/json/JSONReader.java:78-91 | a null or non-record class is "Class need to be of record type."; an input whose first non-whitespace character is not `{` is "Not a JSON"; success gives a record of the class |
| JsonReader.ToRecordList | src/main/java/baselib/json/JSONReader.java:93-114 | a null or non-record class is an error; an input whose first non-whitespace character is not `[` gives null; otherwise a successful read gives a list |
| JsonReader.Add | src/main/java/baselib/json/JSONReader.java:182 | `list::add` appends the element after those already gathered |
| JsonReader.BindElement | src/main/java/baselib/json/JSONReader.java:103-108 | null and the empty map are skipped; a non-empty map appends one record of the type; anything else is a `ClassCastException` |
| JsonReader.ReadItemLiteral | src/main/java/baselib/json/JSONReader.java:116-124 | any other first character starts a literal, read up to and including the next delimiter |
| JsonReader.ReadItemStops | src/main/java/baselib/json/JSONReader.java:138-164 | an item that starts with a delimiter or the end of input is the empty literal: it reads as null and reads no further |
| JsonReader.ReadWord | src/main/java/baselib/json/JSONReader.java:116-124 | a word followed by optional whitespace and a delimiter or the end reads as its classification |
| JsonReader.ReadQuoted | src/main/java/baselib/json/JSONReader.java:119 | a quoted text without backslashes reads as that string |
| JsonReader.ReadItemWord | src/main/java/baselib/json/JSONReader.java:122 | a character that opens nothing is read as a literal |
| JsonReader.ReadItemArray | src/main/java/baselib/json/JSONReader.java:120 | an array item is the walk from the raw character after `[` |
| JsonReader.ReadItemObject | src/main/java/baselib/json/JSONReader.java:121 | an object item is the walk from the first non-whitespace character after `{` |
| JsonReader.ReadArrayStart | src/main/java/baselib/json/JSONReader.java:192-193 | the first read after `[` is a raw one, whitespace included |
| JsonReader.ReadObjectStart | src/main/java/baselib/json/JSONReader.java:203 | the first read after `{` skips whitespace |
| JsonReader.ArrayStep | src/main/java/baselib/json/JSONReader.java:194-199 | one element of the walk: read the item, hand it to the consumer, skip one comma |
| JsonReader.ObjectStep | src/main/java/baselib/json/JSONReader.java:204-219 | one member of the walk: key, colon, value put into the map, one comma skipped |
| JsonReader.ObjectMissingColon | src/main/java/baselib/json/JSONReader.java:209-211 | a key not followed by `:` is "Not a JSON" |
| JsonReader.WalkKeepsOrder | src/main/java/baselib/json/JSONReader.java:192-200 | elements gathered earlier stay, in order, at the front of the list |
| JsonReader.AddAppends | src/main/java/baselib/json/JSONReader.java:182 | `list::add` only appends |
| JsonReader.BinderAppends | src/main/java/baselib/json/JSONReader.java:103-108 | the record-list consumer only appends |
| JsonReader.BindWalk | src/main/java/baselib/json/JSONReader.java:102-110 | the record-list walk gathers only records of the requested type |
| JsonReader.RecordListRecords | src/main/java/baselib/json/JSONReader.java:93-114 | `toRecordList` returns only records of the class's type |
| JsonReader.ObjectKeysDistinct | src/main/java/baselib/json/JSONReader.java:186-220 | a read map never holds two entries under one key: a repeated key replaces the earlier value |
| JsonReader.ToObjectReads | src/main/java/baselib/json/JSONReader.java:70-76 | an input whose first non-whitespace character starts an item reads as that item |
| JsonReader.ToRecordReads | src/main/java/baselib/json/JSONReader.java:78-91 | a record read binds the map of the object the input starts with |
| JsonReader.ToRecordListReads | src/main/java/baselib/json/JSONReader.java:93-114 | a record list is the list the binding walk gathers |
| JsonReader.ToObjectNull | src/test/java/baselib/JSONReaderTest.java:41 | `null` reads as null |
| JsonReader.ToObjectEmptyObject | src/test/java/baselib/JSONReaderTest.java:42 | `{}` reads as the empty map |
| JsonReader.ToObjectEmptyString | src/test/java/baselib/JSONReaderTest.java:47 | `""` followed by spaces reads as the empty string |
| JsonReader.ToObjectLeadingSpace | src/test/java/baselib/JSONReaderTest.java:48 | leading spaces are skipped |
| JsonReader.ToObjectEscapedQuote | src/test/java/baselib/JSONReaderTest.java:49 | an escaped quote stays in the string and its backslash is dropped |
| JsonReader.ToObjectTrue | src/test/java/baselib/JSONReaderTest.java:54 | `true` |
| JsonReader.ToObjectFalse | src/test/java/baselib/JSONReaderTest.java:55 | `false` |
| JsonReader.ToObjectInt | src/test/java/baselib/JSONReaderTest.java:59-63 | a single digit reads as an `Integer` |
| JsonReader.ToObjectDecimal | src/test/java/baselib/JSONReaderTest.java:67 | `1.1` reads as the `BigDecimal` 11 with scale 1 |
| JsonReader.ClassifyDecimal | src/main/java/baselib/json/JSONReader.java:152-162 | `1.1` is neither an `Integer` nor a `Long`, so it becomes a `BigDecimal` |
| JsonReader.DecimalExample | src/main/java/baselib/json/JSONReader.java:160-162 | `new BigDecimal("1.1")` is 11 with scale 1 |
| JsonReader.SignificandExample | src/main/java/baselib/json/JSONReader.java:160-162 | the significand of `1.1` is the digits `11`, one after the point |
| JsonReader.ReadDigit | src/main/java/baselib/json/JSONReader.java:138-154 | a digit before a delimiter reads as an `Integer` and consumes the delimiter |
| JsonReader.ToObjectArray | src/test/java/baselib/JSONReaderTest.java:72 | `[1, 2, 3]` reads as the list 1, 2, 3 |
| JsonReader.ToObjectObject | src/test/java/baselib/JSONReaderTest.java:77-83 | the two-member object reads as `{a=b, c=1}` |
| JsonReader.ToRecordSample | src/test/java/baselib/JSONReaderTest.java:108-118 | the record test binds `JsonRecord(1, "test")` |
| JsonReader.RecordListOfObject | src/test/java/baselib/JSONReaderTest.java:138-140 | an object where a list is expected gives null |
| JsonReader.RecordListSkips | src/main/java/baselib/json/JSONReader.java:103-108 | empty maps and nulls in a record list are skipped |
| JsonReader.ToObjectMissingColon | src/main/java/baselib/json/JSONReader.java:209-211 | `{"a" 1}` is "Not a JSON" |
| JsonReader.ToObjectNoComma | src/main/java/baselib/json/JSONReader.java:196-198 | elements need no comma between them: `["a" "b"]` reads two strings |
| JsonReader.ToObjectNestedArray | src/main/java/baselib/json/JSONReader.java:140-143 | the literal `1` consumes the `]` of the inner array, so `[[1],2]` reads as `[[1,2]]` |
| JsonReader.ToObjectTwoNumbers | src/main/java/baselib/json/JSONReader.java:216-218 | after a literal consumed the comma, the next member is still read: `{"a":1,"b":2}` reads both members |
| LegacyReader.Item | src/main/java/baselib/JSONReader.java:62-70 | `"` gives a string, `[` a list, `{` a map; the position only moves forward |
| LegacyReader.Array | src/main/java/baselib/JSONReader.java:126-136 | an array read gives a list |
| LegacyReader.ArrayWalk | src/main/java/baselib/JSONReader.java:128-135 | the walk gives a list |
| LegacyReader.Object | src/main/java/baselib/JSONReader.java:138-162 | an object read gives a map |
| LegacyReader.ObjectWalk | src/main/java/baselib/JSONReader.java:140-161 | the end of input, `}`, or any character other than `"` where a key is expected ends the object with what was read so far, without failing |
| LegacyReader.FromJson | src/main/java/baselib/JSONReader.java:50-60 | only whitespace reads as null; an input starting with `"` reads as a string |
| LegacyReader.MissingColon | src/main/java/baselib/JSONReader.java:147-149 | a key not followed by `:` ends the object without that key |
| LegacyReader.LastMember | src/main/java/baselib/JSONReader.java:151-157 | a member followed by anything but `,` is the last one read |
| LegacyReader.NextMember | src/main/java/baselib/JSONReader.java:151-159 | a member followed by `,` goes on with the next key |
| LegacyReader.KeysDistinct | src/main/java/baselib/JSONReader.java:138-162 | a read map never holds two entries under one key |
| LegacyReader.WalkKeepsOrder | src/main/java/baselib/JSONReader.java:126-136 | elements gathered earlier stay, in order, at the front of the list |
| LegacyReader.AgreeItem | src/main/java/baselib/JSONReader.java:62-136 | on input without `{` the two readers read the same item |
| LegacyReader.AgreeWalk | src/main/java/baselib/JSONReader.java:126-136 | the same for the array walks |
| LegacyReader.Agree | src/main/java/baselib/JSONReader.java:50-60 | `fromJSON` and the newer `toObject` agree on every input without `{` |
| LegacyReader.FromJsonReads | src/main/java/baselib/JSONReader.java:54-60 | an input whose first non-whitespace character starts an item reads as that item |
| LegacyReader.ObjectStart | src/main/java/baselib/JSONReader.java:138-140 | an object is the walk from the first non-whitespace character after `{` |
| LegacyReader.ItemDigit | src/main/java/baselib/JSONReader.java:84-99 | a digit before a delimiter reads as an `Integer` and consumes the delimiter |
| LegacyReader.EmptyObject | src/test/java/baselib/JSONReaderTest.java:42 | `{}` reads as the empty map |
| LegacyReader.UnquotedKey | src/main/java/baselib/JSONReader.java:142-143 | an unquoted key ends the object quietly: `{a:1}` reads as the empty map |
| LegacyReader.CommaAfterNumber | src/main/java/baselib/JSONReader.java:155-157 | the literal `1` consumes its comma, so `{"a":1,"b":2}` reads as `{a=1}` |
| LegacyReader.FirstMember | src/main/java/baselib/JSONReader.java:140-157 | the walk over `{"a":1,"b":2}` stops after the first member |
| HttpServer.Registered | src/main/java/baselib/http/HttpServer.java:55-88 | construction fails with `IllegalArgumentException` exactly when some path mapped to a non-null handler is empty or does not start with `/`, as `createContext` checks; otherwise a path is served exactly when it was mapped to a non-null handler, or it is `/metrics` and the caller did not map it; a caller's handler is kept; an unmapped `/metrics` serves the export |
| HttpServer.UnslashedPathExample | src/main/java/baselib/http/HttpServer.java:64-88 | `test` or the empty path mapped to a handler fails the construction; `test` mapped to null is never registered and does not |
| HttpServer.MetricsServed | src/main/java/baselib/http/HttpServer.java:72-78 | when construction succeeds, `/metrics` is served unless mapped to null, and a caller's own `/metrics` handler wins |
| HttpServer.MetricsOverride | src/test/java/baselib/http/HttpServerTest.java:72-83 | a caller's `/metrics` replaces the export |
| HttpServer.MetricsAdded | src/test/java/baselib/http/HttpServerTest.java:50-70 | the four mapped paths are accepted, and they plus the export are served |
| HttpServer.StripSlashes | src/main/java/baselib/http/HttpServer.java:246-249 | at most one leading and one trailing character are dropped |
| HttpServer.VariablePath | src/main/java/baselib/http/HttpServer.java:242-250 | `substring` fails exactly when the request path is shorter than the mapped one; otherwise the result is no longer than the extra part |
| HttpServer.VariablePathRoundTrip | src/main/java/baselib/http/HttpServer.java:242-250 | whatever prefix was mapped, with or without slashes around it, the variable path gives back exactly the extra segments |
| HttpServer.StripRoundTrip | src/main/java/baselib/http/HttpServer.java:246-249 | dropping the optional slashes around segments gives the segments |
| HttpServer.PathsExample | src/test/java/baselib/http/HttpServerTest.java:85-108 | the five requests under `/test` give the variable paths the test expects |
| HttpServer.NewContext | src/main/java/baselib/http/HttpServer.java:236-252 | a context exists exactly when the path is at least as long as the mapped one; it starts with nothing sent |
| HttpServer.EncodedLength | src/main/java/baselib/http/HttpServer.java:269-270 | the UTF-8 bytes of a string are never fewer than its `length()`, and equal it exactly when the string is ASCII |
| HttpServer.Sent | src/main/java/baselib/http/HttpServer.java:263-274 | `response(body)` sends 200; the body arrives exactly when its UTF-8 byte count equals the declared `body.length()`; otherwise the client has headers declaring `length()` bytes, fewer than the body needs |
| HttpServer.Act | src/main/java/baselib/http/HttpServer.java:263-285 | once a response was sent, `response` and `writer` change nothing; otherwise both send status 200, `writer` (chunked) delivers all its text, and `response` delivers its text exactly when its UTF-8 length is its `length()` |
| HttpServer.ActAll | src/main/java/baselib/http/HttpServer.java:263-285 | a handler's calls never change the paths, nor a response already sent |
| HttpServer.FirstCallWins | src/main/java/baselib/http/HttpServer.java:263-285 | the response is the first call's, cut short or not |
| HttpServer.Exchange | src/main/java/baselib/http/HttpServer.java:199-227 | a sent response stands; otherwise the status is 200 for a return, `n` for `HttpStatus(n)` and 500 for any other failure; a returned non-empty text arrives whole exactly when its UTF-8 length is its `length()`, and every other ending has an empty body |
| HttpServer.ExchangeDelivers | src/main/java/baselib/http/HttpServer.java:199-227 | for every returned text on a context that sent nothing, the client gets 200 with that text if and only if the text is ASCII, and otherwise headers declaring `length()` bytes with the body cut short |
| HttpServer.SimpleOutputExample | src/test/java/baselib/http/HttpServerTest.java:50-70 | `hello world` arrives whole, and both failures give 500 |
| HttpServer.EmptyOutputExample | src/test/java/baselib/http/HttpServerTest.java:50-70 | a handler returning `""` ends as 200 with an empty body |
| HttpServer.NonAsciiExample | src/main/java/baselib/http/HttpServer.java:263-274 | a returned `héllo` declares 5 bytes and never delivers its 6 |
| HttpServer.WriterExample | src/test/java/baselib/http/HttpServerTest.java:122-135 | a handler that writes through the context and returns `""` sends what it wrote |
| HttpServer.Wrap64 | src/main/java/baselib/http/HttpServer.java:342-343 | `AtomicLong` arithmetic stays within 64 bits and leaves 64-bit values alone |
| HttpServer.WrapAdd | src/main/java/baselib/http/HttpServer.java:342-343 | wrapping after each addition equals wrapping once at the end |
| HttpServer.Measure | src/main/java/baselib/http/HttpServer.java:341-346 | the minimum never grows and is the old one or the new duration; the maximum likewise |
| HttpServer.MeasureAllTotals | src/main/java/baselib/http/HttpServer.java:341-346 | after a series of measurements the counters hold the wrapped count and sum, and the least and greatest durations |
| HttpServer.MeasureFromStart | src/main/java/baselib/http/HttpServer.java:323-346 | from fresh counters, the count is the number of requests, the sum their wrapped total, and the extremes the least and greatest duration |
| HttpServer.MinimumIn | src/main/java/baselib/http/HttpServer.java:344 | the reported minimum is one of the durations |
| HttpServer.MaximumIn | src/main/java/baselib/http/HttpServer.java:345 | the reported maximum is one of the durations |
| HttpServer.MetricLabel | src/main/java/baselib/http/HttpServer.java:361-363 | the label is the name, `{uri="`, the uri, then `"}` |
| HttpServer.MinText | src/main/java/baselib/http/HttpServer.java:352-355 | the minimum reads "0" while still at its sentinel, and its decimal text otherwise |
| HttpServer.MaxText | src/main/java/baselib/http/HttpServer.java:356-359 | the maximum reads "0" while still at its sentinel, and its decimal text otherwise |
| HttpServer.Report | src/main/java/baselib/http/HttpServer.java:349-360 | the four labelled metrics of an endpoint, in registration order |
| HttpServer.ReportBeforeRequests | src/main/java/baselib/http/HttpServer.java:323-360 | before any request every metric reads "0" |
| HttpServer.ReportAfterRequests | src/main/java/baselib/http/HttpServer.java:323-360 | after requests, the count reports the number of requests, and the extremes report the least and greatest duration unless that duration equals the sentinel |
| RoundTrip.ScalarRoundTrip | src/main/java/baselib/JSONBuilder.java:92-128 | null, booleans, `Integer`s, `Long`s outside the 32-bit range, and strings the builder copies without escaping come back unchanged through the corrected `toJSON` then `toObject` |
| RoundTrip.ListRoundTrip | src/main/java/baselib/JSONBuilder.java:146-150 | a list of such values comes back unchanged through the corrected `toJSON` |
| RoundTrip.ScalarRoundTripAsWritten | src/main/java/baselib/JSONBuilder.java:92-128 | the same scalars come back unchanged through `toJSON` as written, whose extra comma only ever precedes a container |
| RoundTrip.ListRoundTripAsWritten | src/main/java/baselib/JSONBuilder.java:146-150 | a flat list of such values comes back unchanged through `toJSON` as written |
| RoundTrip.ItemsRead | src/main/java/baselib/json/JSONReader.java:180-200 | the array read over the builder text of a non-empty list of such values gathers exactly the list and ends at the end of the text |
| RoundTrip.ItemsLoop | src/main/java/baselib/json/JSONReader.java:192-200 | from any element on, the walk gathers the remaining elements |
| RoundTrip.ElementRead | src/main/java/baselib/json/JSONReader.java:116-124 | each element written by the builder reads back as itself, the delimiter after a word included |
| RoundTrip.StringRead | src/main/java/baselib/json/JSONReader.java:167-178 | a plain string element reads back as itself |
| RoundTrip.WordRead | src/main/java/baselib/json/JSONReader.java:138-165 | a word element reads back as itself |
| RoundTrip.WordText | src/main/java/baselib/JSONBuilder.java:120-122 | null, a boolean or a number is written as one word that reads back as the same value |
| RoundTrip.IntWord | src/main/java/baselib/JSONBuilder.java:120-122 | a number's decimal text is a word that opens nothing |
| RoundTrip.QuotedPlain | src/main/java/baselib/JSONBuilder.java:124-128 | a plain string is quoted as it is |
| RoundTrip.ReadsWord | src/main/java/baselib/json/JSONReader.java:58-60 | a whole input that is one word reads as its classification |
| RoundTrip.ReadsQuoted | src/main/java/baselib/json/JSONReader.java:58-60 | a whole input that is one quoted plain text reads as that string |
| RoundTrip.LongNarrows | src/main/java/baselib/json/JSONReader.java:152-154 | a `Long` within the 32-bit range comes back as an `Integer` |
| RoundTrip.CharacterReadsAsString | src/main/java/baselib/JSONBuilder.java:100-101 | a character comes back as a one-character string |
| RoundTrip.BackslashLost | src/main/java/baselib/json/JSONReader.java:171-173 | a string holding a backslash never comes back unchanged |
| RoundTrip.SerJoined | src/main/java/baselib/JSONBuilder.java:146-150 | the builder's elements from the second on are the element texts, each after a comma |
| RoundTrip.SerJoinedFirst | src/main/java/baselib/JSONBuilder.java:146-150 | the builder's elements of a non-empty list are the element texts joined by commas |
| RoundTrip.ListText | src/main/java/baselib/JSONBuilder.java:146-150 | a non-empty list is a bracket followed by the joined texts and the closing bracket |

## Left out

- I/O, and `close` in the `finally` blocks. The reader reads from a string;
  an `IOException` from `read()` cannot occur on a `StringReader`.
- `HashMap` iteration order. A map is a list of entries in insertion order,
  so `toJSON` of a map writes its entries in that order. No property
  depends on the order.
- Chars.LowerString, Chars.UpperString, NameTransform.Apply: case mapping
  is locale-independent and covers ASCII letters only. `toLowerCase()` and
  `toUpperCase()` without arguments follow the default locale: under a
  Turkish locale `"ID".toLowerCase()` is `"ıd"`, which changes the `SNAKE`
  and `KEBAB` output and the names `Records` tries. The model assumes a
  locale such as the root locale, and for non-ASCII letters it is weaker
  than Java's Unicode case tables.
- Lexer.Classify: `equalsIgnoreCase` folds ASCII letters and U+017F (which
  upper-cases to `S`), the only other character that matters for `null`,
  `true` and `false`.
- UTF-16. A Dafny `char` is a Unicode scalar value, so unpaired surrogates
  cannot occur. Characters above U+FFFF are one character, not two code
  units. Java's number parsers see such a character as two surrogates,
  which are not digits; the model's digit runs stop at U+FFFF to match.
- The `toString()` text of a `Double`, `Float` or other `Number` is taken
  as given, as is `Instant.toString`.
- `BigDecimal` and `BigInteger` arithmetic. A `BigDecimal` is kept as an
  unscaled value and a scale; only parsing and `toString` are modelled.
- Reflection:
  - the record constructor's own argument type check
    (`Constructor.newInstance` with a wrongly typed argument);
  - accessor invocation failures.

  A record binds whatever values the lookup gives.
- `Class.isArray` and primitive arrays. Arrays are a separate `Value` kind,
  and `Array.get` boxing is not modelled.
- Threads and atomics. The metrics counters are updated one measurement at
  a time. Concurrent `getAndUpdate` interleavings, the thread pool, the
  JDK server, `nanoTime` and logging are not modelled, apart from the
  path check of `createContext` and the byte count of a fixed-length
  body; a handler is a name with no behaviour, and what it writes is given
  as text.
- `MetricsExporter` and the export text itself are not part of this model.
  Only the labels and values an endpoint registers are modelled.
- The three-record `toRecordList` test (JSONReaderTest.java:142-163) and the
  nested record test (JSONReaderTest.java:120-135) are not replayed. The
  general lemmas `JsonReader.ToRecordListReads`, `JsonReader.BindWalk` and
  `JsonReader.ToRecordReads` state the behaviour they exercise.
- Test cases that are not replayed one by one:
  - the nested-object case of JSONReaderTest.java:86-94;
  - `wordWithAnotherWord` (NameTransformTest.java:55, 68);
  - the boolean, date and map cases of JSONBuilderTest.java:129-153;
  - the primitive-array cases of JSONBuilderTest.java:155-165.

  `JsonReader.ObjectStep`, `NameTransform.SplitCasePlacement`,
  `JsonBuilder.ToJsonSerializes` and `JsonBuilder.ThreeElements` state the
  behaviour these cases exercise. `Instant.toString` is not modelled: any
  other object is written as its quoted `toString()` text, which the model
  takes as given.
- RoundTrip.ScalarRoundTrip: proved for null, booleans, `Integer`s, `Long`s
  outside the 32-bit range and plain strings. Other values that also come
  back unchanged are not covered; `BigDecimal`s with a non-zero scale, such
  as `1.1` or `1E+3`, are among them. For a scale that is not negative,
  `JavaNumbers.DecimalToStringParses` proves that `new BigDecimal` reads
  their text back; that `Integer.valueOf` and `Long.valueOf` reject it
  first is not proved. Values that change are
  stated apart: `Long`s in the 32-bit range narrow to `Integer`
  (`RoundTrip.LongNarrows`), and backslashes are dropped
  (`RoundTrip.BackslashLost`).
- RoundTrip.ListRoundTrip: covers flat lists only, because the reader's
  literals consume the bracket that closes a nested container.
- Records.RoundTrip: requires null-free records whose nested fields hold
  records of the declared type, because `toMap` fails on a null field.
- `HttpServer` `start`, `stop`, `body()` and the request reader are plain
  JDK calls and are not modelled.
- HttpServer.Registered: a path is a `string`, so a null key in the
  caller's `HashMap` is not modelled; `createContext` rejects it with a
  `NullPointerException`. Metric registrations made for the paths before
  the rejected one stay in the exporter, which is not part of this model.
- HttpServer.Sent, HttpServer.Act, HttpServer.Exchange: a body cut short
  is known only by its declared length. Which bytes of it the client
  receives depends on the writers' 8 KiB buffers and is not modelled, nor
  is the `IllegalStateException` that `response` then throws into the
  handler; the handler's outcome is given as it is.
- Values.Dict, JsonBuilder.EntriesFrom: a map key is represented by its
  `toString()` text. A `HashMap` may hold a null key, for which
  `e.getKey().toString()` (JSONBuilder.java:155) throws a
  `NullPointerException`; that error path is not modelled, so
  `JsonBuilder.ToJsonSerializes` covers maps without a null key only.

## Findings

| source | as written | input that shows it | evidently intended | confidence | as-written member | corrected member |
|---|---|---|---|---|---|---|
| src/main/java/baselib/JSONBuilder.java:92-118 | `value` writes a comma when `comma && !prop`, and `doMap`/`doCollection`/`doArray` then call `beginObject`/`beginArray`, which write another one because `comma` is still set | `toJSON(List.of(List.of(1), List.of(2)))` gives `[[1],,[2]]` | one comma between siblings: `[[1],[2]]` | not executed | JsonBuilder.AsWrittenDoubleComma, JsonBuilder.DoubleCommaExample | JsonBuilder.CorrectedSingleComma, JsonBuilder.SingleCommaExample, JsonBuilder.ToJsonSerializes |
| src/main/java/baselib/JSONReader.java:151-157 | a literal value consumes the comma after it, then `readObject` reads the next key's quote, sees no comma and stops | `fromJSON("{\"a\":1,\"b\":2}")` gives `{a=1}` | every member read: `{a=1, b=2}`, as `baselib.json.JSONReader` does by making the comma optional | not executed | LegacyReader.CommaAfterNumber | JsonReader.ToObjectTwoNumbers, JsonReader.ObjectStep |
