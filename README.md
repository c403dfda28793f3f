# PiWeb API: attributes, raw-data filter conditions and the measurement time cache

This project is a Dafny model of three small pieces of the PiWeb .NET API, with proofs of what they promise.

- **`Attribute`** (`Attributes.dfy`) is an immutable value: a 16-bit key plus an optional value. The value comes from text (the string constructor) or from a native payload of type string, short, int, double or `DateTime` (the object constructor). The model covers the attribute's canonical invariant-culture text, `Equals`, `==` and `!=`, the hash, `IsNull`, the typed getters, `GetRawValue(Type)` and `ToString`. `Numbers.dfy` and `Decimal.dfy` hold the integer and double texts. `Timestamps.dfy` holds `DateTime` and its XML round-trip text, the xsd:dateTime form of section 3.2.7 of XML Schema Part 2.
- **Raw-data filter conditions** (`FilterConditions.dfy`, with the tree shapes in `FilterTrees.dfy`) compile into a filter tree. An `AndFilterCondition` becomes an And node with one subtree per child. A `DateTimeCompareFilterCondition` becomes one comparison node over one value leaf that holds the round-trip text of its timestamp.
- **`UnsupportedTokenException`** (`UnsupportedTokenException.dfy`) is the formatter's rejection of a token. It carries the offending token, saves it into a `SerializationInfo` entry list and restores it from one. The save is a method on a class. The restoring constructor's loop is a method proved against a function over the entry list.
- **`SimpleMeasurementDto`** (`SimpleMeasurement.dfy`) is a class over three fields: the attribute list, the cached time and the "time is cached" flag. Its invariant `Valid` says the cache is empty, or holds exactly what parsing the time attribute (key 4) gives. The `Time` getter, the `Time` setter and the `Attributes` setter each keep that invariant.

## Model

| member | source | states |
|---|---|---|
| Attributes.FromString | src/Api.Rest.Dtos.Tests/Data/AttributeTest.cs:36-62 | the string constructor keeps the key and the text (null included) as `Value`, has no raw value, and is null exactly when the text is null |
| Attributes.FromObject | src/Api.Rest.Dtos.Tests/Data/AttributeTest.cs:64-81 | the object constructor fails with an argument error exactly for an unsupported type; null gives a null attribute; a supported payload is kept as `RawValue` and `Value` is its canonical text |
| Attributes.IsNullIffNoValue | src/Api.Rest.Dtos.Tests/Data/AttributeTest.cs:702-751 | `IsNull` holds exactly when `Value` is null (the empty text is not null), and a null attribute has no raw value |
| Attributes.CanonicalTextOfIntegers | src/Api.Rest.Dtos.Tests/Data/AttributeTest.cs:786-787 | int 2 and short 2 both have the canonical text "2" |
| Attributes.CanonicalTextOfDoubles | src/Api.Rest.Dtos.Tests/Data/AttributeTest.cs:788 | double 1.23 has the text "1.23", and 1.0 has the text "1" (line 853) |
| Attributes.CanonicalTextOfUtcInstant | src/Api.Rest.Dtos.Tests/Data/AttributeTest.cs:790-791 | the UTC instant 2015-03-09 19:12:00 has the text "2015-03-09T19:12:00Z" |
| Attributes.WholeDoubleText | src/Api.Rest.Dtos.Tests/Data/AttributeTest.cs:853 | a whole-number double has the same text as the integer it equals |
| Attributes.EqualsNeedsSameKey | src/Api.Rest.Dtos.Tests/Data/AttributeTest.cs:83-95 | attributes with different keys are never equal |
| Attributes.NotEqualsAcrossTypes | src/Api.Rest.Dtos.Tests/Data/AttributeTest.cs:97-125 | int 42 equals neither the text "foo" nor the double 1.23 |
| Attributes.EqualsOfTexts | src/Api.Rest.Dtos.Tests/Data/AttributeTest.cs:127-152 | two attributes made from strings under one key are equal exactly when the strings are equal: null only to null, texts ordinally |
| Attributes.EqualsOfInts | src/Api.Rest.Dtos.Tests/Data/AttributeTest.cs:154-175 | two int payloads under one key are equal exactly when the numbers are, over the whole int range |
| Attributes.EqualsOfShorts | src/Api.Rest.Dtos.Tests/Data/AttributeTest.cs:177-198 | two short payloads under one key are equal exactly when the numbers are, over the whole short range |
| Attributes.EqualsOfDates | src/Api.Rest.Dtos.Tests/Data/AttributeTest.cs:290-301 | two timestamp payloads under one key are equal exactly when the timestamps are (the cases built at lines 794-803) |
| Attributes.NullDiffersFromEmptyText | src/Api.Rest.Dtos.Tests/Data/AttributeTest.cs:133 | null and "" are different values: they are not equal, and only the first is null |
| Attributes.EqualsIsCaseSensitive | src/Api.Rest.Dtos.Tests/Data/AttributeTest.cs:135-139 | text comparison is ordinal: "Hello World" differs from "hello World", and "" differs from " " |
| Attributes.EqualsRawDouble | src/Api.Rest.Dtos.Tests/Data/AttributeTest.cs:200-231 | an attribute with a native double equals another exactly when the keys match, the double is not NaN, and the other side's text reads as the same double |
| Attributes.NaNEqualsNothing | src/Api.Rest.Dtos.Tests/Data/AttributeTest.cs:211-212 | a NaN attribute equals nothing, itself included, from either side |
| Attributes.EqualsSymmetric | src/Api.Rest.Dtos.Tests/Data/AttributeTest.cs:233-288 | equality gives the same answer with the sides swapped, so the text-vs-double and double-vs-text tables agree |
| Attributes.EqualsIntAndText | src/Api.Rest.Dtos.Tests/Data/AttributeTest.cs:840-842 | int 1 and the text "1", which have the same string value "1", are equal |
| Attributes.EqualsFormattedTextAndDouble | src/Api.Rest.Dtos.Tests/Data/AttributeTest.cs:233-276 | the round-trip text of any double other than NaN equals that double, from either side ("1" and 1.0, "-1" and -1.0, "-0.1" and -0.1) |
| Attributes.EqualsNotTransitive | src/Api.Rest.Dtos.Tests/Data/AttributeTest.cs:243-270 | equality is not transitive: "0.0" equals 0.0 and 0.0 equals "0", but "0.0" does not equal "0" |
| Attributes.EqualsTenthsTextAndDouble | src/Api.Rest.Dtos.Tests/Data/AttributeTest.cs:233-246 | the text "d.d" equals the native double it denotes |
| Attributes.EqualsTextAndDouble | src/Api.Rest.Dtos.Tests/Data/AttributeTest.cs:236 | the text "0.1" equals the double 0.1 |
| Attributes.EqualsZeroTextAndZeroDouble | src/Api.Rest.Dtos.Tests/Data/AttributeTest.cs:243 | the text "0.0" equals the double 0.0, although their canonical texts differ |
| Attributes.TextHashKeySplitsEqualAttributes | src/Api.Rest.Dtos.Tests/Data/AttributeTest.cs:243 | "0.0" and 0.0 are equal, yet a hash over (key, canonical text) tells them apart |
| Attributes.EqualsImpliesEqualHashKey | src/Api.Rest.Dtos.Tests/Data/AttributeTest.cs:303-331 | equal attributes always have equal hash keys |
| Attributes.HashKeyDoubleAndText | src/Api.Rest.Dtos.Tests/Data/AttributeTest.cs:318-331 | a native double and its own text have the same hash key, as 1.23 and "1.23" do |
| Attributes.GetIntValueOfInteger | src/Api.Rest.Dtos.Tests/Data/AttributeTest.cs:840-841 | int and short payloads read back as the same integer |
| Attributes.GetIntValueOfWholeDouble | src/Api.Rest.Dtos.Tests/Data/AttributeTest.cs:853 | a whole-number double (1.0) reads as that integer |
| Attributes.GetIntValueNoTruncation | src/Api.Rest.Dtos.Tests/Data/AttributeTest.cs:848-858 | null text, "" and any text with a decimal point ("1.0", "-1.78") have no integer value |
| Attributes.GetIntValueOfFractionalDouble | src/Api.Rest.Dtos.Tests/Data/AttributeTest.cs:858 | a double with a fractional part (-1.78) has no integer value |
| Attributes.GetIntValueOfDateTime | src/Api.Rest.Dtos.Tests/Data/AttributeTest.cs:887-888 | a timestamp has no integer value |
| Attributes.GetDoubleValueOfDouble | src/Api.Rest.Dtos.Tests/Data/AttributeTest.cs:848-865 | every double payload, NaN and the infinities included, reads back as itself |
| Attributes.GetDoubleValueOfInteger | src/Api.Rest.Dtos.Tests/Data/AttributeTest.cs:840-841 | an int or short payload reads as the whole-number double it equals |
| Attributes.GetDoubleValueOfSpecialText | src/Api.Rest.Dtos.Tests/Data/AttributeTest.cs:866-868 | the texts "NaN", "Infinity" and "-Infinity" read as the special doubles |
| Attributes.GetDateValueOfText | src/Api.Rest.Dtos.Tests/Data/AttributeTest.cs:890-893 | a timestamp's round-trip text reads as that timestamp converted to UTC |
| Attributes.GetDateValueOfDateTime | src/Api.Rest.Dtos.Tests/Data/AttributeTest.cs:887-893 | a timestamp payload and its text both read as the UTC instant; an unspecified-kind time reads as the same fields marked UTC |
| Attributes.UnspecifiedAndUtcSameDate | src/Api.Rest.Dtos.Tests/Data/AttributeTest.cs:887-888 | unspecified and UTC forms of one time have different string values but the same date value |
| Attributes.GetDateValueOfInteger | src/Api.Rest.Dtos.Tests/Data/AttributeTest.cs:840-841 | an integer has no date value |
| Attributes.GetRawValueOfPayload | src/Api.Rest.Dtos.Tests/Data/AttributeTest.cs:455-687 | a native payload given to the object constructor comes back unchanged, whatever type is asked for (int 1 for string, 1.0 for `DateTime`, "foo" for int) |
| Attributes.GetRawValueOfTextAsString | src/Api.Rest.Dtos.Tests/Data/AttributeTest.cs:429-494 | without a payload, a string request gives the text back, and null for null text |
| Attributes.GetRawValueOfIntegerText | src/Api.Rest.Dtos.Tests/Data/AttributeTest.cs:520-598 | the text of any 32-bit integer, asked for as int, gives that integer, and asked for as double, the equal whole double |
| Attributes.GetRawValueOfDoubleText | src/Api.Rest.Dtos.Tests/Data/AttributeTest.cs:598-611 | the round-trip text of any double, asked for as double, gives that double back |
| Attributes.GetRawValueOfDateTimeText | src/Api.Rest.Dtos.Tests/Data/AttributeTest.cs:676-687 | the round-trip text of any timestamp, asked for as `DateTime`, gives that timestamp converted to UTC |
| Attributes.GetRawValueOfPlainText | src/Api.Rest.Dtos.Tests/Data/AttributeTest.cs:507-700 | the text "foo" has no int, double or `DateTime` raw value, and no attribute made from a string or from null has a raw value of an unsupported type such as `Guid` (line 690) |
| Attributes.ParseDisplayToString | src/Api.Rest.Dtos.Tests/Data/AttributeTest.cs:753-775 | `ToString` is "K<key>: <text>": it reads back as the key and the text, null text showing as nothing |
| Attributes.ToStringNullAndEmpty | src/Api.Rest.Dtos.Tests/Data/AttributeTest.cs:753-775 | "" renders as "K1: ", "foo" as "K1: foo", and null renders like "" |
| Numbers.ParseInt32FormatInt | src/Api.Rest.Dtos.Tests/Data/AttributeTest.cs:835-846 | the integer text of every 32-bit integer parses back to it |
| Numbers.ParseDoubleFormatDouble | src/Api.Rest.Dtos.Tests/Data/AttributeTest.cs:848-874 | the round-trip text of every double parses back to it |
| Numbers.ParseDoubleSpecialLiterals | src/Api.Rest.Dtos.Tests/Data/AttributeTest.cs:866-868 | "NaN", "Infinity" and "-Infinity" parse as the three special doubles |
| Timestamps.ParseFormatDateTime | src/Api.Rest.Dtos.Tests/Data/AttributeTest.cs:876-896 | the round-trip text of every timestamp parses back to the same fields and kind |
| Timestamps.ToUtcLocalInverse | src/Api.Rest.Dtos.Tests/Data/AttributeTest.cs:879-882 | converting a local time to UTC and adding its offset back gives the original wall-clock time |
| Timestamps.ToUtcIdempotent | src/Api.Rest.Dtos.Tests/Data/AttributeTest.cs:879-882 | converting to UTC twice is the same as once |
| FilterConditions.NewAnd | src/Api.Rest/HttpClient/RawData/Filter/Conditions/AndFilterCondition.cs:38-44 | a null child collection fails with `ArgumentNullException("childConditions")`, and only then; otherwise the condition holds exactly the given children, in order |
| FilterConditions.BuildFilterTree | src/Api.Rest/HttpClient/RawData/Filter/Conditions/AndFilterCondition.cs:51-55 | an And condition compiles to an And node with exactly one subtree per child (none for no children); a date comparison compiles to a comparison over a value leaf |
| FilterConditions.BuildAndChild | src/Api.Rest/HttpClient/RawData/Filter/Conditions/AndFilterCondition.cs:53-54 | the i-th subtree is compiled from the i-th child |
| FilterConditions.DateTimeLiteralRoundTrip | src/Api.Rest/HttpClient/RawData/Filter/Conditions/DateTimeCompareFilterCondition.cs:50-52 | the literal is null exactly when there is no timestamp, and otherwise reads back as that timestamp |
| FilterConditions.DateTimeCompareTree | src/Api.Rest/HttpClient/RawData/Filter/Conditions/DateTimeCompareFilterCondition.cs:48-59 | a date comparison compiles to the helper's operator token and attribute name over a value leaf whose literal is null without a timestamp and otherwise reads back as it |
| FilterConditions.BuildFilterTreeInjective | src/Api.Rest/HttpClient/RawData/Filter/Conditions/DateTimeCompareFilterCondition.cs:48-59 | when names and operator tokens identify their enumeration members, two conditions that compile to the same tree are the same condition |
| UnsupportedTokens.MessageFor | src/Api.Rest/Common/Data/FilterString/Formatter/UnsupportedTokenException.cs:30 | the message contains the name of the token's type |
| UnsupportedTokens.UnsupportedTokenException.constructor | src/Api.Rest/Common/Data/FilterString/Formatter/UnsupportedTokenException.cs:29-33 | the exception carries exactly the token it was raised for, that token's message, and the default HResult of an exception |
| UnsupportedTokens.UnsupportedTokenException.GetObjectData | src/Api.Rest/Common/Data/FilterString/Formatter/UnsupportedTokenException.cs:73-77 | saving appends the base entries (class name, message, HResult) and then one "UnsupportedToken" entry holding the token; earlier entries are untouched |
| UnsupportedTokens.SerializationInfo.AddValue | src/Api.Rest/Common/Data/FilterString/Formatter/UnsupportedTokenException.cs:76 | adding a value appends exactly one named entry |
| UnsupportedTokens.ReadUnsupportedToken | src/Api.Rest/Common/Data/FilterString/Formatter/UnsupportedTokenException.cs:53-59 | the loop over the entries ends with what `RestoredToken` specifies: the last "UnsupportedToken" entry's token, or the first failing cast |
| UnsupportedTokens.UnsupportedTokenException.Deserialize | src/Api.Rest/Common/Data/FilterString/Formatter/UnsupportedTokenException.cs:44-60 | a null `info` fails with `ArgumentNullException`; the base part fails with `SerializationException` unless a non-null class name and a non-zero HResult were saved; then a failing cast fails; otherwise a new exception holds the restored message, HResult and token |
| UnsupportedTokens.RestoreNeedsClassName | src/Api.Rest/Common/Data/FilterString/Formatter/UnsupportedTokenException.cs:47-51 | entries with no class name never restore, whatever token they hold |
| UnsupportedTokens.RestoreNeedsHResult | src/Api.Rest/Common/Data/FilterString/Formatter/UnsupportedTokenException.cs:47-51 | a saved HResult of 0 makes restoring fail |
| UnsupportedTokens.RestoredTokenAbsent | src/Api.Rest/Common/Data/FilterString/Formatter/UnsupportedTokenException.cs:53-59 | with no "UnsupportedToken" entry, the token stays null |
| UnsupportedTokens.LastTokenEntryWins | src/Api.Rest/Common/Data/FilterString/Formatter/UnsupportedTokenException.cs:53-59 | the last "UnsupportedToken" entry wins over every earlier one |
| UnsupportedTokens.RestoredTokenFailureSticks | src/Api.Rest/Common/Data/FilterString/Formatter/UnsupportedTokenException.cs:57 | once a cast has failed, restoring fails with that error, whatever follows |
| UnsupportedTokens.RestoredTokenSuffix | src/Api.Rest/Common/Data/FilterString/Formatter/UnsupportedTokenException.cs:55 | entries with other names do not change the restored token |
| UnsupportedTokens.SaveRestoreRoundTrip | src/Api.Rest/Common/Data/FilterString/Formatter/UnsupportedTokenException.cs:50-77 | restoring from what was saved, with a non-zero HResult and after any entries that restore cleanly, gives back the same message, HResult and token |
| UnsupportedTokens.SaveAndRestore | src/Api.Rest/Common/Data/FilterString/Formatter/UnsupportedTokenException.cs:29-77 | raising, saving and restoring always succeeds, with the original token, message and HResult |
| Measurements.FindAttribute | src/Api.Rest.Dtos/Data/SimpleMeasurementDto.cs:103 | the lookup finds nothing exactly when no attribute has the key; otherwise it finds a member of the list with that key |
| Measurements.FindAttributeFirst | src/Api.Rest.Dtos/Data/SimpleMeasurementDto.cs:103 | the lookup finds the first attribute with the key |
| Measurements.RemoveKey | src/Api.Rest.Dtos/Data/SimpleMeasurementDto.cs:120 | removal keeps exactly the attributes with other keys |
| Measurements.SimpleMeasurement.constructor | src/Api.Rest.Dtos/Data/SimpleMeasurementDto.cs:41-43 | a new measurement has no attributes and no cached time, and satisfies `Valid` |
| Measurements.SimpleMeasurement.SetCreated | src/Api.Rest.Dtos/Data/SimpleMeasurementDto.cs:77 | setting `Created` changes nothing else |
| Measurements.SimpleMeasurement.SetAttributes | src/Api.Rest.Dtos/Data/SimpleMeasurementDto.cs:164-173 | null stores the empty list; the cache is dropped, and `Valid` is re-established |
| Measurements.SimpleMeasurement.GetTime | src/Api.Rest.Dtos/Data/SimpleMeasurementDto.cs:96-115 | cached or not, the answer is the time the attributes hold (null when absent, empty or unparseable); afterwards the cache is filled and `Valid` holds, and the attributes are unchanged |
| Measurements.SimpleMeasurement.SetTime | src/Api.Rest.Dtos/Data/SimpleMeasurementDto.cs:116-130 | null removes every time attribute; a value replaces them by one holding its round-trip text; the cache holds the value just set, and `Valid` holds |
| Measurements.SimpleMeasurement.TimeOrMinDate | src/Api.Rest.Dtos/Data/SimpleMeasurementDto.cs:138 | the time, or 1753-01-01T00:00:00 UTC when there is none |
| Measurements.SimpleMeasurement.TimeOrCreationDate | src/Api.Rest.Dtos/Data/SimpleMeasurementDto.cs:145 | the time, or the creation date when there is none |
| Measurements.StoredTimeAfterRemove | src/Api.Rest.Dtos/Data/SimpleMeasurementDto.cs:118-123 | after the time is cleared, the attributes hold no time |
| Measurements.StoredTimeAfterSet | src/Api.Rest.Dtos/Data/SimpleMeasurementDto.cs:124-129 | after a time is set, parsing the attributes gives exactly that time, so the cache agrees with a fresh read |
| Measurements.FindAfterWith | src/Api.Rest.Dtos/Data/SimpleMeasurementDto.cs:126 | after an attribute is set, looking its key up finds exactly it |
| Measurements.WithAttributeIdempotent | src/Api.Rest.Dtos/Data/SimpleMeasurementDto.cs:126 | setting the same attribute twice leaves the same list as setting it once |
| Measurements.SetTimeKeepsOtherAttributes | src/Api.Rest.Dtos/Data/SimpleMeasurementDto.cs:118-129 | setting or clearing the time leaves the lookup of every other key unchanged |
| Measurements.StoredTimeOfText | src/Api.Rest.Dtos/Data/SimpleMeasurementDto.cs:103-105 | a time attribute holding a timestamp's round-trip text reads as that timestamp |
| Measurements.StoredTimeOfRawTimestamp | src/Api.Rest.Dtos/Data/SimpleMeasurementDto.cs:103-105 | a time attribute built from a native timestamp reads as that timestamp |
| Measurements.StoredTimeOfBadText | src/Api.Rest.Dtos/Data/SimpleMeasurementDto.cs:104-110 | an empty, null or unparseable time text gives no time, not an error |
| Measurements.StoredTimeUsesFirst | src/Api.Rest.Dtos/Data/SimpleMeasurementDto.cs:103 | only the first time attribute counts |

## Left out

- The `Attribute` implementation itself is not part of this model. Its behaviour is reconstructed from the unit tests in `src/Api.Rest.Dtos.Tests/Data/AttributeTest.cs`.
- Attribute equality is not plain canonical-text equality. The tests require that "0.0" equals the double 0.0 (lines 243 and 270), although their canonical texts are "0.0" and "0". The model therefore compares both sides as doubles when either side holds a native double, and compares texts otherwise. Every row of the equality tests agrees with this rule.
- Attributes.CanonicalText keeps an unspecified-kind timestamp as unspecified (no "Z"), because the date tests expect that text for the string value (lines 881-888). It is not normalised to UTC.
- `==` and `!=` are modelled as `Equals` and its negation; the tests check all three against the same expected result.
- The hash is modelled as the data it is computed from, not as an integer. `TextHashKey` is a hash over the key and the canonical text; `HashKey` is the corrected hash key (see the Findings row for line 243). The hash function itself and its collisions are left out.
- Doubles are exact decimals plus NaN and the two infinities. The model leaves out binary rounding, exponent notation, -0, and the culture-invariant formatter's choice of the shortest round-trip digits.
- Number parsing accepts exactly an optional "+" or "-", digits, and at most one "." followed by digits. Leading or trailing white space, thousands separators and exponents are not modelled.
- Timestamps are calendar fields with a kind. A `Local` kind stores its UTC offset, so parsing a text with an offset does not convert it to the machine's time zone as `XmlConvert` does. Only the three xsd:dateTime forms that `XmlConvert` writes are parsed.
- Timestamps.ToUtc and Attributes.GetDateValue give null when moving a `Local` timestamp to UTC leaves years 1-9999 (for example "0001-01-01T00:30:00+01:00"). .NET's `ToUniversalTime` clamps such a result to `DateTime.MinValue` or `DateTime.MaxValue` instead; the clamp is not modelled.
- Attributes.GetRawValue handles only string, int, double and `DateTime` requests; any other type answers null, as the `Guid` test at line 690 shows. Short and other numeric targets are not modelled.
- `FilterTree`, `Token`, `TokenType` and `FilterHelper` are not part of this model. The tree is the three node shapes the conditions build. The helper is a pair of lookups given as a parameter. No operator symbols or quoting are invented. The formatter that raises `UnsupportedTokenException` is not modelled.
- The `StreamingContext` parameters are dropped. `SerializationInfo` is an ordered list of named entries, and its refusal of a duplicate name is not modelled; a lookup reads the last entry with the name.
- UnsupportedTokens.BaseRestore represents only the base exception's class name, message and HResult entries. The base's other entries (data, inner exception, help link, stack trace, source) are not represented, so their absence or a wrong type in them is not a failure in the model. A missing or non-text "Message" entry restores as "", and a non-text class name or non-number HResult counts as missing.
- The default HResult (`UnsupportedTokens.DefaultHResult`) is that of a plain .NET `Exception`; `FormaterException`, the base class, is not part of this model and is assumed not to change it.
- Measurements.SimpleMeasurement.SetAttributes stores the list as a value. The source stores the caller's `IReadOnlyList` reference without a copy, so a caller that later changes the underlying array can leave a stale cached `Time`. The model's `seq` rules that aliasing out, and `Valid` and `GetTime`'s contract rely on it.
- FilterConditions.NewAnd and FilterConditions.BuildFilterTree know only the two condition kinds modelled here. `AndFilterCondition` accepts any `FilterCondition` subclass and null elements in its child list; a null child fails only later, inside `BuildFilterTree` (line 53). Neither other subclasses nor null children are modelled.
- The extension methods that `SimpleMeasurementDto` calls are not part of this model. `GetAttribute` is modelled as the first attribute with the key. `RemoveAttribute` is modelled as dropping every attribute with the key through the `Attributes` setter. `SetAttribute` is modelled as that removal followed by appending the new attribute.
- Measurements.TimeKey is 4, the well-known key of the measurement time; the `WellKnownKeys` class is not part of this model.
- `SimpleMeasurementDto.ToString` (culture-dependent date printing), `Uuid`, `PartUuid`, `LastModified`, `Status` and the JSON converters are not modelled.

## Findings

| source | as written | input that shows it | evidently intended | confidence | as-written member | corrected member |
|---|---|---|---|---|---|---|
| src/Api.Rest.Dtos.Tests/Data/AttributeTest.cs:243 | equality compares a native double numerically, while the hash test at lines 318-331 suggests a hash over the key and the canonical text | key k: text "0.0" and double 0.0 are equal (line 243), but their canonical texts "0.0" and "0" differ, so a text hash separates them | equal attributes have equal hashes: hash the double's round-trip text whenever the text reads as a double | low, not executed (the `Attribute` hash implementation is not part of this model) | Attributes.TextHashKeySplitsEqualAttributes | Attributes.EqualsImpliesEqualHashKey |
