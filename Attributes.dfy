/**
 * `Zeiss.PiWeb.Api.Core.Attribute`: a 16-bit key plus an optional value that was given
 * either as text (the string constructor) or as a native payload (the object
 * constructor), together with its canonical invariant-culture text, equality, hashing,
 * typed getters and display text.
 */
module Attributes {
  import opened Wrappers
  import opened Decimal
  import opened Numbers
  import opened Timestamps

  type ushort = x: int | 0 <= x < 0x1_0000

  /** A native payload of one of the five supported runtime types. */
  datatype RawValue =
    | RawString(s: string)
    | RawShort(i16: int16)
    | RawInt(i32: int32)
    | RawDouble(d: Double)
    | RawDateTime(t: DateTime)

  /** What the object constructor may be handed at run time. */
  datatype NativeObject = NullObject | Supported(raw: RawValue) | Unsupported(typeName: string)

  /** How the value was supplied: not at all, as text, or as a native payload. */
  datatype AttributeValue = NoValue | Text(s: string) | Raw(r: RawValue)

  datatype Attribute = Attribute(key: ushort, v: AttributeValue)

  /** `ArgumentException`: the object constructor refuses a payload of another type. */
  datatype ArgumentError = InvalidValueType(typeName: string)

  /** The type a caller asks `GetRawValue` for. */
  datatype TargetType = StringType | IntType | DoubleType | DateTimeType | OtherType(name: string)

  /** The invariant text of a native payload. */
  function CanonicalText(r: RawValue): string {
    match r
    case RawString(s) => s
    case RawShort(i) => FormatInt(i)
    case RawInt(i) => FormatInt(i)
    case RawDouble(d) => FormatDouble(d)
    case RawDateTime(t) => FormatDateTime(t)
  }

  // ----- construction and the two stored views ------------------------------------------

  /** `Attribute.Value`: the canonical text, `None` for the null value. */
  function Value(a: Attribute): Option<string> {
    match a.v
    case NoValue => None
    case Text(s) => Some(s)
    case Raw(r) => Some(CanonicalText(r))
  }

  /** `Attribute.RawValue`: the native payload, `None` unless built from one. */
  function RawValueOf(a: Attribute): Option<RawValue> {
    if a.v.Raw? then Some(a.v.r) else None
  }

  /** `Attribute.IsNull`. */
  predicate IsNull(a: Attribute) {
    a.v.NoValue?
  }

  /** The string constructor: keeps the text (or null) and no native payload. */
  function FromString(key: ushort, s: Option<string>): (a: Attribute)
    ensures a.key == key && Value(a) == s && RawValueOf(a) == None
    ensures IsNull(a) <==> s == None
  {
    Attribute(key, if s.Some? then Text(s.value) else NoValue)
  }

  /**
   * The object constructor: keeps the native payload and derives its canonical text;
   * an object of an unsupported type is refused at once.
   */
  function FromObject(key: ushort, o: NativeObject): (r: Result<Attribute, ArgumentError>)
    ensures r.Failure? <==> o.Unsupported?
    ensures r.Failure? ==> r.error == InvalidValueType(o.typeName)
    ensures r.Success? ==> r.value.key == key
    ensures r.Success? && o.NullObject? ==> Value(r.value) == None && RawValueOf(r.value) == None && IsNull(r.value)
    ensures r.Success? && o.Supported? ==>
      RawValueOf(r.value) == Some(o.raw) && Value(r.value) == Some(CanonicalText(o.raw)) && !IsNull(r.value)
  {
    match o
    case NullObject => Success(Attribute(key, NoValue))
    case Supported(raw) => Success(Attribute(key, Raw(raw)))
    case Unsupported(name) => Failure(InvalidValueType(name))
  }

  /** `IsNull` is exactly "has no text": the empty text is a value, not null. */
  lemma IsNullIffNoValue(a: Attribute)
    ensures IsNull(a) <==> Value(a) == None
    ensures IsNull(a) ==> RawValueOf(a) == None
  {
  }

  // ----- typed getters ---------------------------------------------------------------------

  /** `GetStringValue()`. */
  function GetStringValue(a: Attribute): Option<string> {
    Value(a)
  }

  /** `GetIntValue()`: a strict 32-bit parse of the canonical text; never throws. */
  function GetIntValue(a: Attribute): Option<int32> {
    match Value(a)
    case None => None
    case Some(s) => ParseInt32(s)
  }

  /** `GetDoubleValue()`: parses the canonical text, NaN and the infinities included. */
  function GetDoubleValue(a: Attribute): Option<Double> {
    match Value(a)
    case None => None
    case Some(s) => ParseDouble(s)
  }

  /** `GetDateValue()`: parses the canonical text as a round-trip timestamp, as UTC. */
  function GetDateValue(a: Attribute): Option<DateTime> {
    match Value(a)
    case None => None
    case Some(s) =>
      match ParseDateTime(s)
      case None => None
      case Some(t) => ToUtc(t)
  }

  /**
   * `GetRawValue(type)`: the stored native payload whenever there is one, whatever type
   * is asked for; otherwise the typed getter for that type, and null for any type other
   * than string, int, double and DateTime.
   */
  function GetRawValue(a: Attribute, target: TargetType): Option<RawValue> {
    if a.v.Raw? then Some(a.v.r)
    else
      match target
      case StringType => if Value(a).Some? then Some(RawString(Value(a).value)) else None
      case IntType => if GetIntValue(a).Some? then Some(RawInt(GetIntValue(a).value)) else None
      case DoubleType => if GetDoubleValue(a).Some? then Some(RawDouble(GetDoubleValue(a).value)) else None
      case DateTimeType => if GetDateValue(a).Some? then Some(RawDateTime(GetDateValue(a).value)) else None
      case OtherType(_) => None
  }

  // ----- equality and hashing -----------------------------------------------------------------

  predicate HoldsRawDouble(a: Attribute) {
    a.v.Raw? && a.v.r.RawDouble?
  }

  /**
   * `Equals`, `==` and `!=` (the operators are `Equals` and its negation). Keys must
   * match. When either side holds a native double both sides are compared as doubles
   * (so NaN equals nothing and "0.0" equals 0.0); otherwise the canonical texts are
   * compared ordinally, and null text equals only null text.
   */
  predicate Equals(a: Attribute, b: Attribute) {
    a.key == b.key &&
    if HoldsRawDouble(a) || HoldsRawDouble(b) then
      GetDoubleValue(a).Some? && GetDoubleValue(b).Some? &&
      DoubleEquals(GetDoubleValue(a).value, GetDoubleValue(b).value)
    else
      Value(a) == Value(b)
  }

  /** The data a hash of (key, canonical text) is computed from. */
  function TextHashKey(a: Attribute): (ushort, Option<string>) {
    (a.key, Value(a))
  }

  /**
   * Canonical text with every double-readable text replaced by the round-trip text of
   * the double it denotes ("0.0" becomes "0").
   */
  function NormalizedText(a: Attribute): Option<string> {
    match Value(a)
    case None => None
    case Some(s) =>
      match ParseDouble(s)
      case Some(d) => Some(FormatDouble(d))
      case None => Some(s)
  }

  /**
   * The corrected hash key: the key and the text normalised through `ParseDouble`, so that
   * equal attributes hash alike (see the Findings row for line 243 of the attribute tests).
   */
  function HashKey(a: Attribute): (ushort, Option<string>) {
    (a.key, NormalizedText(a))
  }

  // ----- display text ---------------------------------------------------------------------------

  /** `ToString()`: "K<key>: <text>", where null text shows as nothing. */
  function ToString(a: Attribute): string {
    "K" + FormatNat(a.key) + ": " + Value(a).GetOr("")
  }

  /** Reads a display text back into its key and its text. */
  function ParseDisplay(s: string): Option<(nat, string)> {
    if |s| < 1 || s[0] != 'K' then None
    else
      var k := DigitRun(s[1..]);
      var rest := s[1 + k..];
      if k == 0 || |rest| < 2 || rest[..2] != ": " then None
      else Some((DigitsValue(s[1..][..k]), rest[2..]))
  }

  // ----- canonical text -------------------------------------------------------------------------

  /** The canonical texts the object constructor derives for 2 and (short)2. */
  lemma CanonicalTextOfIntegers()
    ensures CanonicalText(RawInt(2)) == "2" && CanonicalText(RawShort(2)) == "2"
  {
    assert DigitChar(2) == '2';
  }

  /** The canonical texts the object constructor derives for 1.23 and 1.0. */
  lemma CanonicalTextOfDoubles()
    ensures CanonicalText(RawDouble(Finite(123, 2))) == "1.23"
    ensures CanonicalText(RawDouble(Finite(1, 0))) == "1"
  {
    assert DigitChar(1) == '1' && DigitChar(2) == '2' && DigitChar(3) == '3';
    assert DropDigits(123, 2) == 1;
    assert PadNat(123, 2) == PadNat(12, 1) + "3";
    assert PadNat(12, 1) == "2";
  }

  lemma PadYear2015()
    ensures PadNat(2015, 4) == "2015"
  {
    assert DigitChar(2) == '2' && DigitChar(0) == '0' && DigitChar(1) == '1' && DigitChar(5) == '5';
    assert PadNat(2, 1) == "2";
    assert PadNat(20, 2) == "20";
    assert PadNat(201, 3) == "201";
  }

  lemma PadTwoDigits(n: nat, hi: char, lo: char)
    requires n < 100 && DigitChar(n / 10) == hi && DigitChar(n % 10) == lo
    ensures PadNat(n, 2) == [hi, lo]
  {
    assert PadNat(n / 10, 1) == [hi];
  }

  /** The two-digit fields of the instant below. */
  lemma InstantFieldTexts()
    ensures PadNat(3, 2) == "03" && PadNat(9, 2) == "09" && PadNat(19, 2) == "19"
    ensures PadNat(12, 2) == "12" && PadNat(0, 2) == "00"
  {
    assert DigitChar(0) == '0' && DigitChar(1) == '1' && DigitChar(2) == '2';
    assert DigitChar(3) == '3' && DigitChar(9) == '9';
    PadTwoDigits(3, '0', '3');
    PadTwoDigits(9, '0', '9');
    PadTwoDigits(19, '1', '9');
    PadTwoDigits(12, '1', '2');
    PadTwoDigits(0, '0', '0');
  }

  /** The canonical text the object constructor derives for a UTC instant. */
  lemma CanonicalTextOfUtcInstant(t: DateTime)
    requires t == DateTimeFields(2015, 3, 9, 19, 12, 0, 0, Utc)
    ensures CanonicalText(RawDateTime(t)) == "2015-03-09T19:12:00Z"
  {
    InstantDatePart(t);
    assert FormatDateTime(t) == DatePart(t) + "Z";
    assert "2015-03-09T19:12:00" + "Z" == "2015-03-09T19:12:00Z";
  }

  lemma InstantDatePart(t: DateTimeFields)
    requires t.year == 2015 && t.month == 3 && t.day == 9 && t.hour == 19 && t.minute == 12 && t.second == 0
    ensures DatePart(t) == "2015-03-09T19:12:00"
  {
    PadYear2015();
    InstantFieldTexts();
    assert DatePart(t) == "2015" + "-" + "03" + "-" + "09" + "T" + "19" + ":" + "12" + ":" + "00";
    InstantText();
  }

  lemma InstantText()
    ensures "2015" + "-" + "03" + "-" + "09" + "T" + "19" + ":" + "12" + ":" + "00" == "2015-03-09T19:12:00"
  {
  }

  /** A whole-number double has the same canonical text as the integer it equals. */
  lemma WholeDoubleText(u: int)
    ensures FormatDouble(Finite(u, 0)) == FormatInt(u)
  {
  }

  // ----- equality -------------------------------------------------------------------------------------

  /**
   * Two attributes made from strings under one key are equal exactly when the strings
   * are: null equals only null, and texts are compared ordinally.
   */
  lemma EqualsOfTexts(key: ushort, s: Option<string>, t: Option<string>)
    ensures Equals(FromString(key, s), FromString(key, t)) <==> s == t
  {
  }

  /** Two int payloads under one key are equal exactly when the numbers are. */
  lemma EqualsOfInts(key: ushort, x: int32, y: int32)
    ensures Equals(FromObject(key, Supported(RawInt(x))).value, FromObject(key, Supported(RawInt(y))).value) <==> x == y
  {
    ParseInt32FormatInt(x);
    ParseInt32FormatInt(y);
  }

  /** Two short payloads under one key are equal exactly when the numbers are. */
  lemma EqualsOfShorts(key: ushort, x: int16, y: int16)
    ensures Equals(FromObject(key, Supported(RawShort(x))).value, FromObject(key, Supported(RawShort(y))).value) <==> x == y
  {
    ParseInt32FormatInt(x);
    ParseInt32FormatInt(y);
  }

  /**
   * Two timestamp payloads under one key are equal exactly when the timestamps are,
   * calendar fields and kind alike, since their round-trip texts are compared.
   */
  lemma EqualsOfDates(key: ushort, x: DateTime, y: DateTime)
    ensures Equals(FromObject(key, Supported(RawDateTime(x))).value, FromObject(key, Supported(RawDateTime(y))).value) <==> x == y
  {
    ParseFormatDateTime(x);
    ParseFormatDateTime(y);
  }

  /**
   * Against a native double, equality is numeric: the other side must read as the same
   * double, and a NaN is equal to nothing.
   */
  lemma EqualsRawDouble(a: Attribute, b: Attribute)
    requires HoldsRawDouble(a)
    ensures Equals(a, b) <==> a.key == b.key && !a.v.r.d.NaN? && GetDoubleValue(b) == Some(a.v.r.d)
  {
    var d := a.v.r.d;
    assert GetDoubleValue(a) == Some(d) by {
      assert Value(a) == Some(FormatDouble(d));
      ParseDoubleFormatDouble(d);
    }
  }

  /** A native NaN is not equal to any attribute, itself included. */
  lemma NaNEqualsNothing(a: Attribute, b: Attribute)
    requires HoldsRawDouble(a) && a.v.r.d.NaN?
    ensures !Equals(a, b) && !Equals(b, a)
  {
    ParseDoubleFormatDouble(a.v.r.d);
  }

  lemma EqualsSymmetric(a: Attribute, b: Attribute)
    ensures Equals(a, b) <==> Equals(b, a)
  {
  }

  /** Attributes with different keys are never equal. */
  lemma EqualsNeedsSameKey(a: Attribute, b: Attribute)
    requires a.key != b.key
    ensures !Equals(a, b)
  {
  }

  /** The null value and the empty text are different values. */
  lemma NullDiffersFromEmptyText(key: ushort)
    ensures !Equals(FromString(key, None), FromString(key, Some("")))
    ensures IsNull(FromString(key, None)) && !IsNull(FromString(key, Some("")))
  {
  }

  /** Text comparison is ordinal: it tells case and white space apart. */
  lemma EqualsIsCaseSensitive(key: ushort)
    ensures !Equals(FromString(key, Some("Hello World")), FromString(key, Some("hello World")))
    ensures !Equals(FromString(key, Some("")), FromString(key, Some(" ")))
  {
    assert "Hello World"[0] != "hello World"[0];
  }

  lemma ParseDoubleOfTenths(whole: char, tenth: char)
    requires IsDigit(whole) && IsDigit(tenth)
    ensures ParseDouble([whole, '.', tenth])
         == Some(Normalize(DigitValue(whole) * 10 + DigitValue(tenth), 1))
  {
    var s := [whole, '.', tenth];
    assert FirstPoint(s) == 1;
    assert s[..1] == [whole] && s[2..] == [tenth];
    assert DigitsValue([whole]) == DigitValue(whole) by { assert [whole][..0] == []; }
    assert DigitsValue([tenth]) == DigitValue(tenth) by { assert [tenth][..0] == []; }
  }

  /** Integer 1 and text "1" are equal: their canonical texts agree. */
  lemma EqualsIntAndText(key: ushort)
    ensures Equals(FromObject(key, Supported(RawInt(1))).value, FromString(key, Some("1")))
  {
    assert DigitChar(1) == '1';
  }

  /** The round-trip text of any double other than NaN equals that double, from either side. */
  lemma EqualsFormattedTextAndDouble(key: ushort, d: Double)
    requires !d.NaN?
    ensures Equals(FromString(key, Some(FormatDouble(d))), FromObject(key, Supported(RawDouble(d))).value)
    ensures Equals(FromObject(key, Supported(RawDouble(d))).value, FromString(key, Some(FormatDouble(d))))
  {
    var text := FromString(key, Some(FormatDouble(d)));
    var native := FromObject(key, Supported(RawDouble(d))).value;
    ParseDoubleFormatDouble(d);
    assert GetDoubleValue(text) == Some(d);
    EqualsRawDouble(native, text);
    EqualsSymmetric(native, text);
  }

  /**
   * Equality is not transitive: "0.0" equals 0.0 and 0.0 equals "0", yet "0.0" and "0"
   * are different texts.
   */
  lemma EqualsNotTransitive(key: ushort)
    ensures Equals(FromString(key, Some("0.0")), FromObject(key, Supported(RawDouble(Finite(0, 0)))).value)
    ensures Equals(FromObject(key, Supported(RawDouble(Finite(0, 0)))).value, FromString(key, Some("0")))
    ensures !Equals(FromString(key, Some("0.0")), FromString(key, Some("0")))
  {
    EqualsZeroTextAndZeroDouble(key);
    assert FormatDouble(Finite(0, 0)) == "0" by { assert DigitChar(0) == '0'; }
    EqualsFormattedTextAndDouble(key, Finite(0, 0));
    assert |"0.0"| != |"0"|;
  }

  /** Text "d.d" reads as the double it denotes. */
  lemma GetDoubleValueOfTenths(key: ushort, whole: char, tenth: char)
    requires IsDigit(whole) && IsDigit(tenth)
    ensures GetDoubleValue(FromString(key, Some([whole, '.', tenth])))
         == Some(Normalize(DigitValue(whole) * 10 + DigitValue(tenth), 1))
  {
    ParseDoubleOfTenths(whole, tenth);
  }

  /** Text "d.d" equals the double it denotes. */
  lemma EqualsTenthsTextAndDouble(key: ushort, whole: char, tenth: char, d: Double)
    requires IsDigit(whole) && IsDigit(tenth)
    requires d == Normalize(DigitValue(whole) * 10 + DigitValue(tenth), 1)
    ensures Equals(FromString(key, Some([whole, '.', tenth])), FromObject(key, Supported(RawDouble(d))).value)
  {
    GetDoubleValueOfTenths(key, whole, tenth);
    GetDoubleValueOfDouble(key, d);
  }

  /** Text "0.1" and double 0.1 are equal. */
  lemma EqualsTextAndDouble(key: ushort)
    ensures Equals(FromString(key, Some("0.1")), FromObject(key, Supported(RawDouble(Finite(1, 1)))).value)
  {
    assert DigitValue('0') == 0 && DigitValue('1') == 1;
    EqualsTenthsTextAndDouble(key, '0', '1', Finite(1, 1));
    assert "0.1" == ['0', '.', '1'];
  }

  /** Text "0.0" and double 0.0 are equal although their canonical texts differ. */
  lemma EqualsZeroTextAndZeroDouble(key: ushort)
    ensures Equals(FromString(key, Some("0.0")), FromObject(key, Supported(RawDouble(Finite(0, 0)))).value)
  {
    assert DigitValue('0') == 0;
    EqualsTenthsTextAndDouble(key, '0', '0', Finite(0, 0));
    assert "0.0" == ['0', '.', '0'];
  }

  /** Inequality across the native types: 42 differs from 1.23 and from "foo". */
  lemma NotEqualsAcrossTypes(key: ushort)
    ensures !Equals(FromObject(key, Supported(RawInt(42))).value, FromObject(key, Supported(RawDouble(Finite(123, 2)))).value)
    ensures !Equals(FromObject(key, Supported(RawInt(42))).value, FromString(key, Some("foo")))
  {
    var fortyTwo := FromObject(key, Supported(RawInt(42))).value;
    var d := FromObject(key, Supported(RawDouble(Finite(123, 2)))).value;
    GetDoubleValueOfInteger(key, 42);
    EqualsRawDouble(d, fortyTwo);
    EqualsSymmetric(fortyTwo, d);
    assert FormatInt(42)[0] != "foo"[0] by { assert IsDigit(FormatInt(42)[0]); }
  }

  // ----- hashing (see Findings in README.md) -------------------------------------------------------

  /**
   * A hash of (key, canonical text) splits attributes the equality calls equal: "0.0" and
   * the double 0.0 are equal, but their canonical texts are "0.0" and "0".
   */
  lemma TextHashKeySplitsEqualAttributes(key: ushort)
    ensures Equals(FromString(key, Some("0.0")), FromObject(key, Supported(RawDouble(Finite(0, 0)))).value)
    ensures TextHashKey(FromString(key, Some("0.0")))
         != TextHashKey(FromObject(key, Supported(RawDouble(Finite(0, 0)))).value)
  {
    var zero := FromObject(key, Supported(RawDouble(Finite(0, 0)))).value;
    EqualsZeroTextAndZeroDouble(key);
    assert |Value(zero).value| == 1 by {
      assert Value(zero) == Some(FormatDouble(Finite(0, 0)));
      assert FormatDouble(Finite(0, 0)) == FormatNat(0);
    }
  }

  /** Equal attributes always have the same hash key, whatever native types they came from. */
  lemma EqualsImpliesEqualHashKey(a: Attribute, b: Attribute)
    requires Equals(a, b)
    ensures HashKey(a) == HashKey(b)
  {
    if HoldsRawDouble(a) || HoldsRawDouble(b) {
      var x := GetDoubleValue(a).value;
      assert NormalizedText(a) == Some(FormatDouble(x));
      assert NormalizedText(b) == Some(FormatDouble(x));
    }
  }

  /** A double and its own canonical text hash alike (1.23 and "1.23"). */
  lemma HashKeyDoubleAndText(key: ushort, d: Double)
    ensures HashKey(FromObject(key, Supported(RawDouble(d))).value) == HashKey(FromString(key, Some(FormatDouble(d))))
  {
    ParseDoubleFormatDouble(d);
  }

  // ----- typed getters ---------------------------------------------------------------------------

  /** An integer or short payload reads back unchanged through `GetIntValue`. */
  lemma GetIntValueOfInteger(key: ushort, i: int32)
    ensures GetIntValue(FromObject(key, Supported(RawInt(i))).value) == Some(i)
    ensures -0x8000 <= i < 0x8000 ==> GetIntValue(FromObject(key, Supported(RawShort(i))).value) == Some(i)
  {
    ParseInt32FormatInt(i);
  }

  /** A whole-number double such as 1.0 reads as the integer it equals. */
  lemma GetIntValueOfWholeDouble(key: ushort, i: int32)
    ensures GetIntValue(FromObject(key, Supported(RawDouble(Finite(i, 0)))).value) == Some(i)
  {
    WholeDoubleText(i);
    ParseInt32FormatInt(i);
  }

  /** `GetIntValue` never truncates: a fraction, the empty text or no text give `None`. */
  lemma GetIntValueNoTruncation(a: Attribute)
    requires Value(a) == None || Value(a) == Some("") || (Value(a).Some? && '.' in Value(a).value)
    ensures GetIntValue(a) == None
  {
  }

  /** A double with a fractional part, such as -1.78, is not an integer. */
  lemma GetIntValueOfFractionalDouble(key: ushort, u: int, k: nat)
    requires k > 0 && u % 10 != 0
    ensures GetIntValue(FromObject(key, Supported(RawDouble(Finite(u, k)))).value) == None
  {
    var m := Magnitude(u);
    var w := FormatNat(DropDigits(m, k));
    var s := FormatDouble(Finite(u, k));
    assert s == (if u < 0 then "-" else "") + (w + "." + PadNat(m, k));
    var i := if u < 0 then |w| + 1 else |w|;
    assert s[i] == '.';
  }

  /** Timestamp text is never an integer. */
  lemma GetIntValueOfDateTime(key: ushort, t: DateTime)
    ensures GetIntValue(FromObject(key, Supported(RawDateTime(t))).value) == None
  {
    var s := FormatDateTime(t);
    FormatDateTimeShape(t);
    assert IsDigit(s[0]);
    assert !AllDigits(s) by { assert !IsDigit(s[4]); }
  }

  /** A double payload reads back unchanged through `GetDoubleValue`. */
  lemma GetDoubleValueOfDouble(key: ushort, d: Double)
    ensures GetDoubleValue(FromObject(key, Supported(RawDouble(d))).value) == Some(d)
  {
    ParseDoubleFormatDouble(d);
  }

  /** An int or short payload reads as the whole-number double it equals. */
  lemma GetDoubleValueOfInteger(key: ushort, i: int32)
    ensures GetDoubleValue(FromObject(key, Supported(RawInt(i))).value) == Some(Finite(i, 0))
    ensures -0x8000 <= i < 0x8000 ==> GetDoubleValue(FromObject(key, Supported(RawShort(i))).value) == Some(Finite(i, 0))
  {
    if i < 0 {
      ParseDoubleMagnitude("-", Magnitude(i), 0);
    } else {
      ParseDoubleMagnitude("", Magnitude(i), 0);
      assert "" + FormatMagnitude(Magnitude(i), 0) == FormatInt(i);
    }
  }

  /** The texts "NaN", "Infinity" and "-Infinity" read as the IEEE special values. */
  lemma GetDoubleValueOfSpecialText(key: ushort)
    ensures GetDoubleValue(FromString(key, Some("NaN"))) == Some(NaN)
    ensures GetDoubleValue(FromString(key, Some("Infinity"))) == Some(PositiveInfinity)
    ensures GetDoubleValue(FromString(key, Some("-Infinity"))) == Some(NegativeInfinity)
  {
    ParseDoubleSpecialLiterals();
  }

  /**
   * A timestamp payload, or its round-trip text, reads back through `GetDateValue` as the
   * UTC instant it denotes; an unspecified one is taken as UTC.
   */
  lemma GetDateValueOfDateTime(key: ushort, t: DateTime)
    ensures GetDateValue(FromObject(key, Supported(RawDateTime(t))).value) == ToUtc(t)
    ensures GetDateValue(FromString(key, Some(FormatDateTime(t)))) == ToUtc(t)
    ensures t.kind == Unspecified ==> GetDateValue(FromString(key, Some(FormatDateTime(t)))) == Some(t.(kind := Utc))
  {
    GetDateValueOfText(FromObject(key, Supported(RawDateTime(t))).value, t);
    GetDateValueOfText(FromString(key, Some(FormatDateTime(t))), t);
  }

  lemma GetDateValueOfText(a: Attribute, t: DateTime)
    requires Value(a) == Some(FormatDateTime(t))
    ensures GetDateValue(a) == ToUtc(t)
  {
    ParseFormatDateTime(t);
  }

  /**
   * An unspecified timestamp and the UTC timestamp with the same fields have different
   * canonical texts but the same `GetDateValue`.
   */
  lemma UnspecifiedAndUtcSameDate(key: ushort, t: DateTime)
    requires t.kind == Unspecified
    ensures GetStringValue(FromObject(key, Supported(RawDateTime(t))).value)
         != GetStringValue(FromObject(key, Supported(RawDateTime(t.(kind := Utc)))).value)
    ensures GetDateValue(FromObject(key, Supported(RawDateTime(t))).value)
         == GetDateValue(FromObject(key, Supported(RawDateTime(t.(kind := Utc)))).value)
  {
    var u := t.(kind := Utc);
    GetDateValueOfText(FromObject(key, Supported(RawDateTime(t))).value, t);
    GetDateValueOfText(FromObject(key, Supported(RawDateTime(u))).value, u);
    assert FormatKind(t.kind) == "" && FormatKind(u.kind) == "Z";
    assert |FormatDateTime(t)| != |FormatDateTime(u)|;
  }

  /** Numbers are never read as timestamps. */
  lemma GetDateValueOfInteger(key: ushort, i: int32)
    ensures GetDateValue(FromObject(key, Supported(RawInt(i))).value) == None
  {
    var s := FormatInt(i);
    FormatIntHasNoPoint(i);
    if |s| >= 19 {
      if i < 0 {
        assert s[4] == FormatNat(-(i as int))[3];
      }
      assert IsDigit(s[4]);
    }
  }

  // ----- GetRawValue ---------------------------------------------------------------------------

  /** A native payload comes back from `GetRawValue` unchanged, whatever type is asked for. */
  lemma GetRawValueOfPayload(key: ushort, r: RawValue, target: TargetType)
    ensures GetRawValue(FromObject(key, Supported(r)).value, target) == Some(r)
  {
  }

  /** Text, or null, asked for as a string comes back as that text, or null. */
  lemma GetRawValueOfTextAsString(key: ushort, s: Option<string>)
    ensures GetRawValue(FromString(key, s), StringType).Some? <==> s.Some?
    ensures s.Some? ==> GetRawValue(FromString(key, s), StringType) == Some(RawString(s.value))
  {
  }

  /** The text of an integer reads as that integer, and as the equal whole double. */
  lemma GetRawValueOfIntegerText(key: ushort, i: int32)
    ensures GetRawValue(FromString(key, Some(FormatInt(i))), IntType) == Some(RawInt(i))
    ensures GetRawValue(FromString(key, Some(FormatInt(i))), DoubleType) == Some(RawDouble(Finite(i, 0)))
  {
    ParseInt32FormatInt(i);
    GetDoubleValueOfInteger(key, i);
    assert Value(FromString(key, Some(FormatInt(i)))) == Value(FromObject(key, Supported(RawInt(i))).value);
  }

  /** The round-trip text of a double reads as that double. */
  lemma GetRawValueOfDoubleText(key: ushort, d: Double)
    ensures GetRawValue(FromString(key, Some(FormatDouble(d))), DoubleType) == Some(RawDouble(d))
  {
    ParseDoubleFormatDouble(d);
  }

  /** The round-trip text of a timestamp reads as that timestamp converted to UTC. */
  lemma GetRawValueOfDateTimeText(key: ushort, t: DateTime)
    ensures GetRawValue(FromString(key, Some(FormatDateTime(t))), DateTimeType)
         == if ToUtc(t).Some? then Some(RawDateTime(ToUtc(t).value)) else None
  {
    var a := FromString(key, Some(FormatDateTime(t)));
    assert a.v == Text(FormatDateTime(t));
    GetDateValueOfText(a, t);
    assert GetRawValue(a, DateTimeType) == if GetDateValue(a).Some? then Some(RawDateTime(GetDateValue(a).value)) else None;
  }

  /**
   * Text that is neither a number nor a timestamp has no raw value of those types, and
   * no text has a raw value of a type other than string, int, double and `DateTime`.
   */
  lemma GetRawValueOfPlainText(key: ushort, s: Option<string>, typeName: string)
    ensures GetRawValue(FromString(key, Some("foo")), IntType) == None
    ensures GetRawValue(FromString(key, Some("foo")), DoubleType) == None
    ensures GetRawValue(FromString(key, Some("foo")), DateTimeType) == None
    ensures GetRawValue(FromString(key, s), OtherType(typeName)) == None
  {
    assert "foo"[0] == 'f';
  }

  // ----- display text --------------------------------------------------------------------------

  /** The display text gives back the key and the text (empty for null). */
  lemma ParseDisplayToString(a: Attribute)
    ensures ParseDisplay(ToString(a)) == Some((a.key as nat, Value(a).GetOr("")))
  {
    var digits := FormatNat(a.key);
    var text := Value(a).GetOr("");
    var s := ToString(a);
    assert s[1..] == digits + (": " + text);
    DigitRunPrefix(digits, ": " + text);
    assert s[1..][..|digits|] == digits;
    assert s[1 + |digits|..] == ": " + text;
    FormatNatValue(a.key);
  }

  /** The null value and the empty text display alike: "K1: ". */
  lemma ToStringNullAndEmpty(key: ushort)
    ensures ToString(FromString(key, None)) == ToString(FromString(key, Some("")))
    ensures ToString(FromString(1, Some(""))) == "K1: "
    ensures ToString(FromString(1, Some("foo"))) == "K1: foo"
  {
  }
}
