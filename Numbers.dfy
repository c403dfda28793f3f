/**
 * Invariant-culture integer and double texts, as used for an attribute's canonical
 * text and by its typed getters.
 *
 * A double is modelled as its tag (NaN, positive or negative infinity) or as the exact
 * decimal its round-trip text denotes: `Finite(units, scale)` is units / 10^scale,
 * normalised so that no trailing fractional zero remains (1.0 is Finite(1, 0)).
 */
module Numbers {
  import opened Wrappers
  import opened Decimal

  type int16 = x: int | -0x8000 <= x < 0x8000
  type int32 = x: int | -0x8000_0000 <= x < 0x8000_0000

  datatype DoubleValue = NaN | PositiveInfinity | NegativeInfinity | Finite(units: int, scale: nat)

  predicate Normalized(d: DoubleValue) {
    d.Finite? ==> d.scale == 0 || d.units % 10 != 0
  }

  type Double = d: DoubleValue | Normalized(d) witness NaN

  /** IEEE equality: NaN is equal to nothing, not even to itself. */
  predicate DoubleEquals(x: Double, y: Double) {
    !x.NaN? && x == y
  }

  // ----- integers -----------------------------------------------------------------

  /** Invariant-culture decimal text of an integer. */
  function FormatInt(i: int): string {
    if i < 0 then ['-'] + FormatNat(-i) else FormatNat(i)
  }

  /** An optional sign followed by at least one digit; anything else is rejected. */
  function ParseInteger(s: string): (r: Option<int>)
    ensures r.Some? ==> s != [] && '.' !in s
  {
    if s == [] then None
    else
      var negative := s[0] == '-';
      var body := if s[0] == '-' || s[0] == '+' then s[1..] else s;
      if body == [] || !AllDigits(body) then None
      else
        var v: int := DigitsValue(body);
        assert '.' !in s by {
          forall i | 0 <= i < |s| ensures s[i] != '.' {
            if i > 0 && (s[0] == '-' || s[0] == '+') { assert s[i] == body[i - 1]; }
            else if s[0] != '-' && s[0] != '+' { assert s[i] == body[i]; }
          }
        }
        Some(if negative then -v else v)
  }

  /** Strict parse of a 32-bit integer: no fraction is truncated, out-of-range text fails. */
  function ParseInt32(s: string): (r: Option<int32>)
    ensures r.Some? ==> s != [] && '.' !in s
  {
    match ParseInteger(s)
    case Some(i) => if -0x8000_0000 <= i < 0x8000_0000 then Some(i) else None
    case None => None
  }

  /** Reading an unsigned digit string gives its value. */
  lemma ParseIntegerUnsigned(body: string)
    requires body != [] && AllDigits(body)
    ensures ParseInteger(body) == Some(DigitsValue(body) as int)
  {
    assert IsDigit(body[0]);
  }

  /** Reading a '-'-signed digit string gives its negated value. */
  lemma ParseIntegerNegative(body: string)
    requires body != [] && AllDigits(body)
    ensures ParseInteger(['-'] + body) == Some(-(DigitsValue(body) as int))
  {
    var s := ['-'] + body;
    assert s[0] == '-';
    assert s[1..] == body;
  }

  /** Every integer reads back from its own text. */
  lemma ParseIntegerFormatInt(i: int)
    ensures ParseInteger(FormatInt(i)) == Some(i)
  {
    if i < 0 {
      var n: nat := -i;
      ParseIntegerNegative(FormatNat(n));
      FormatNatValue(n);
    } else {
      ParseIntegerUnsigned(FormatNat(i));
      FormatNatValue(i);
    }
  }

  /** Every 32-bit integer reads back from its own text. */
  lemma ParseInt32FormatInt(i: int32)
    ensures ParseInt32(FormatInt(i)) == Some(i)
  {
    ParseIntegerFormatInt(i);
  }

  /** Integer text never contains a decimal point, so it never reads as a fraction. */
  lemma FormatIntHasNoPoint(i: int)
    ensures '.' !in FormatInt(i) && FormatInt(i) != []
  {
    var s := FormatInt(i);
    forall k | 0 <= k < |s| ensures s[k] != '.' {
      if i < 0 && k > 0 { assert s[k] == FormatNat(-i)[k - 1]; }
    }
  }

  // ----- doubles ------------------------------------------------------------------

  /** Invariant round-trip text of a double ("R" format, without exponent notation). */
  function FormatDouble(d: Double): string {
    match d
    case NaN => "NaN"
    case PositiveInfinity => "Infinity"
    case NegativeInfinity => "-Infinity"
    case Finite(u, k) =>
      (if u < 0 then "-" else "") + FormatMagnitude(Magnitude(u), k)
  }

  function Magnitude(u: int): nat {
    if u < 0 then -u else u
  }

  /** `m / 10^k` written with `k` fractional digits (no point when `k` is zero). */
  function FormatMagnitude(m: nat, k: nat): string {
    if k == 0 then FormatNat(m) else FormatNat(DropDigits(m, k)) + "." + PadNat(m, k)
  }

  function Normalize(u: int, k: nat): (d: Double)
    decreases k
  {
    if k > 0 && u % 10 == 0 then Normalize(u / 10, k - 1) else Finite(u, k)
  }

  function FirstPoint(s: string): (k: nat)
    ensures k <= |s|
    ensures forall i :: 0 <= i < k ==> s[i] != '.'
    ensures k < |s| ==> s[k] == '.'
  {
    if s == [] then 0 else if s[0] == '.' then 0 else 1 + FirstPoint(s[1..])
  }

  /**
   * Magnitude of an unsigned decimal numeral `digits[.digits]`, as units and scale: the
   * units are the digits read with the point removed, the scale is the fraction's length.
   */
  function ParseUnsignedDecimal(s: string): Option<(nat, nat)> {
    var p := FirstPoint(s);
    var whole := s[..p];
    if whole == [] || !AllDigits(whole) then None
    else if p == |s| then Some((DigitsValue(whole), 0))
    else
      var fraction := s[p + 1..];
      if fraction == [] || !AllDigits(fraction) then None
      else
        AllDigitsAppend(whole, fraction);
        Some((DigitsValue(whole + fraction), |fraction|))
  }

  /**
   * Invariant-culture parse of a double: the literals "NaN", "Infinity" and "-Infinity",
   * or an optionally signed decimal numeral. Anything else is rejected.
   */
  function ParseDouble(s: string): Option<Double> {
    if s == "NaN" then Some(NaN)
    else if s == "Infinity" then Some(PositiveInfinity)
    else if s == "-Infinity" then Some(NegativeInfinity)
    else if s == [] then None
    else
      var negative := s[0] == '-';
      var body := if s[0] == '-' || s[0] == '+' then s[1..] else s;
      match ParseUnsignedDecimal(body)
      case None => None
      case Some((m, k)) => var v: int := m; Some(Normalize(if negative then -v else v, k))
  }

  lemma NegatedUnitsNormalized(u: int)
    requires u < 0 && u % 10 != 0
    ensures Magnitude(u) % 10 != 0
  {
  }

  lemma ParseUnsignedDecimalFormat(m: nat, k: nat)
    ensures ParseUnsignedDecimal(FormatMagnitude(m, k)) == Some((m, k))
  {
    if k == 0 {
      ParseUnsignedWhole(m);
    } else {
      ParseUnsignedFraction(m, k);
    }
  }

  lemma ParseUnsignedWhole(m: nat)
    ensures ParseUnsignedDecimal(FormatNat(m)) == Some((m, 0))
  {
    var s := FormatNat(m);
    forall i | 0 <= i < |s| ensures s[i] != '.' { assert IsDigit(s[i]); }
    assert FirstPoint(s) == |s|;
    assert s[..|s|] == s;
    FormatNatValue(m);
  }

  lemma ParseUnsignedFraction(m: nat, k: nat)
    requires k > 0
    ensures ParseUnsignedDecimal(FormatNat(DropDigits(m, k)) + "." + PadNat(m, k)) == Some((m, k))
  {
    var w, f := FormatNat(DropDigits(m, k)), PadNat(m, k);
    ParseUnsignedPointed(w, f);
    DigitsValueAppend(w, f);
    FormatNatValue(DropDigits(m, k));
    PadNatLowDigits(m, k);
    SplitDigits(m, k);
  }

  /** Digits, a point and digits read as the digits without the point. */
  lemma ParseUnsignedPointed(w: string, f: string)
    requires w != [] && AllDigits(w) && f != [] && AllDigits(f)
    ensures AllDigits(w + f) && ParseUnsignedDecimal(w + "." + f) == Some((DigitsValue(w + f), |f|))
  {
    var s := w + ("." + f);
    assert w + "." + f == s;
    AllDigitsAppend(w, f);
    FirstPointAfterDigits(w, "." + f);
    var p := FirstPoint(s);
    assert p == |w| && p < |s|;
    assert s[..p] == w;
    assert s[p + 1..] == f;
  }

  lemma {:induction false} FirstPointAfterDigits(w: string, rest: string)
    requires AllDigits(w) && rest != [] && rest[0] == '.'
    ensures FirstPoint(w + rest) == |w|
  {
    if w != [] {
      assert (w + rest)[0] == w[0] && IsDigit(w[0]);
      assert (w + rest)[1..] == w[1..] + rest;
      FirstPointAfterDigits(w[1..], rest);
    } else {
      assert w + rest == rest;
    }
  }

  /** Reading an unsigned or '-'-signed magnitude text gives the signed decimal it denotes. */
  lemma ParseDoubleMagnitude(sign: string, m: nat, k: nat)
    requires sign == "" || sign == "-"
    ensures ParseDouble(sign + FormatMagnitude(m, k))
         == Some(Normalize(if sign == "-" then -(m as int) else m, k))
  {
    var body := FormatMagnitude(m, k);
    assert IsDigit(body[0]);
    ParseUnsignedDecimalFormat(m, k);
    if sign == "-" {
      ParseDoubleSigned(body, m, k);
    } else {
      assert sign + body == body;
      ParseDoubleUnsigned(body, m, k);
    }
  }

  lemma ParseDoubleSigned(body: string, m: nat, k: nat)
    requires body != [] && IsDigit(body[0]) && ParseUnsignedDecimal(body) == Some((m, k))
    ensures ParseDouble("-" + body) == Some(Normalize(-(m as int), k))
  {
    var s := "-" + body;
    assert s[0] == '-' && s[1..] == body && s[1] == body[0];
    assert s != "-Infinity";
  }

  lemma ParseDoubleUnsigned(body: string, m: nat, k: nat)
    requires body != [] && IsDigit(body[0]) && ParseUnsignedDecimal(body) == Some((m, k))
    ensures ParseDouble(body) == Some(Normalize(m, k))
  {
    assert body != "NaN" && body != "Infinity" && body != "-Infinity" && body[0] != '-' && body[0] != '+';
  }

  /** Every double reads back from its own round-trip text. */
  lemma ParseDoubleFormatDouble(d: Double)
    ensures ParseDouble(FormatDouble(d)) == Some(d)
  {
    match d
    case NaN =>
    case PositiveInfinity =>
    case NegativeInfinity =>
    case Finite(u, k) =>
      var m := Magnitude(u);
      if u < 0 {
        ParseDoubleMagnitude("-", m, k);
        if k > 0 { NegatedUnitsNormalized(u); }
      } else {
        ParseDoubleMagnitude("", m, k);
        assert "" + FormatMagnitude(m, k) == FormatMagnitude(m, k);
      }
  }

  /** The three IEEE special values are recognised by their invariant literals. */
  lemma ParseDoubleSpecialLiterals()
    ensures ParseDouble("NaN") == Some(NaN)
    ensures ParseDouble("Infinity") == Some(PositiveInfinity)
    ensures ParseDouble("-Infinity") == Some(NegativeInfinity)
  {
  }
}
