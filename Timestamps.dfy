/**
 * .NET `DateTime` values and their XML round-trip text (`XmlConvert` with
 * `XmlDateTimeSerializationMode.RoundtripKind`, the xsd:dateTime lexical form of
 * section 3.2.7 of XML Schema Part 2).
 *
 * A timestamp is kept as its calendar fields, a sub-second fraction in 100 ns ticks and
 * its kind. A `Local` timestamp carries the UTC offset, in minutes, of the zone it was
 * written in.
 */
module Timestamps {
  import opened Wrappers
  import opened Decimal

  datatype DateTimeKind = Unspecified | Utc | Local(offsetMinutes: int)

  datatype DateTimeFields = DateTimeFields(
    year: nat, month: nat, day: nat,
    hour: nat, minute: nat, second: nat,
    fraction: nat,
    kind: DateTimeKind)

  const TicksPerSecond: nat := 10_000_000
  const FractionDigits: nat := 7
  const MaxOffsetMinutes: nat := 14 * 60
  const MinutesPerDay: nat := 24 * 60

  predicate IsLeapYear(y: nat) {
    y % 4 == 0 && (y % 100 != 0 || y % 400 == 0)
  }

  function DaysInMonth(y: nat, m: nat): (n: nat)
    requires 1 <= m <= 12
    ensures 28 <= n <= 31
  {
    if m == 2 then (if IsLeapYear(y) then 29 else 28)
    else if m == 4 || m == 6 || m == 9 || m == 11 then 30
    else 31
  }

  predicate ValidDate(y: nat, m: nat, d: nat) {
    1 <= y <= 9999 && 1 <= m <= 12 && 1 <= d <= DaysInMonth(y, m)
  }

  predicate ValidKind(k: DateTimeKind) {
    k.Local? ==> -(MaxOffsetMinutes as int) <= k.offsetMinutes <= MaxOffsetMinutes
  }

  predicate Valid(t: DateTimeFields) {
    ValidDate(t.year, t.month, t.day) &&
    t.hour < 24 && t.minute < 60 && t.second < 60 &&
    t.fraction < TicksPerSecond &&
    ValidKind(t.kind)
  }

  /** A value of .NET's `DateTime`: its fields always denote a real calendar instant. */
  type DateTime = t: DateTimeFields | Valid(t) witness DateTimeFields(1, 1, 1, 0, 0, 0, 0, Unspecified)

  /** `DateTime.SpecifyKind`: the same wall-clock fields under another kind. */
  function SpecifyKind(t: DateTime, k: DateTimeKind): (r: DateTime)
    requires ValidKind(k)
    ensures r.kind == k
  {
    t.(kind := k)
  }

  // ----- round-trip text ------------------------------------------------------------

  /** "yyyy-MM-ddTHH:mm:ss": always 19 characters. */
  function DatePart(t: DateTimeFields): (s: string)
    ensures |s| == 19
  {
    PadNat(t.year, 4) + "-" + PadNat(t.month, 2) + "-" + PadNat(t.day, 2) + "T" +
    PadNat(t.hour, 2) + ":" + PadNat(t.minute, 2) + ":" + PadNat(t.second, 2)
  }

  /** ".FFFFFFF": the fraction with trailing zeros dropped, nothing at all when zero. */
  function FormatFraction(f: nat): string {
    if f == 0 then "" else "." + TrimTrailingZeros(PadNat(f, FractionDigits))
  }

  function Abs(x: int): nat {
    if x < 0 then -x else x
  }

  /** "K": empty for Unspecified, "Z" for Utc, "+hh:mm" / "-hh:mm" for Local. */
  function FormatKind(k: DateTimeKind): string {
    match k
    case Unspecified => ""
    case Utc => "Z"
    case Local(o) =>
      (if o < 0 then "-" else "+") + PadNat(Abs(o) / 60, 2) + ":" + PadNat(Abs(o) % 60, 2)
  }

  /** `XmlConvert.ToString(t, XmlDateTimeSerializationMode.RoundtripKind)`. */
  function FormatDateTime(t: DateTimeFields): string {
    DatePart(t) + FormatFraction(t.fraction) + FormatKind(t.kind)
  }

  /** A fixed-width run of digits at `from`, read as a number. */
  function Field(s: string, from: nat, width: nat): Option<nat>
    requires from + width <= |s|
  {
    var d := s[from..from + width];
    if AllDigits(d) then Some(DigitsValue(d)) else None
  }

  datatype DateFields = DateFields(year: nat, month: nat, day: nat, hour: nat, minute: nat, second: nat)

  function ParseDatePart(s: string): Option<DateFields>
    requires |s| == 19
  {
    if s[4] != '-' || s[7] != '-' || s[10] != 'T' || s[13] != ':' || s[16] != ':' then None
    else
      match (Field(s, 0, 4), Field(s, 5, 2), Field(s, 8, 2), Field(s, 11, 2), Field(s, 14, 2), Field(s, 17, 2))
      case (Some(y), Some(mo), Some(d), Some(h), Some(mi), Some(sec)) => Some(DateFields(y, mo, d, h, mi, sec))
      case _ => None
  }

  /**
   * An optional '.' and one to seven digits, read as ticks (the digits as if right-padded
   * with zeros to seven places); returns the rest of the text.
   */
  function ParseFraction(s: string): Option<(nat, string)> {
    if s == [] || s[0] != '.' then Some((0, s))
    else
      var k := DigitRun(s[1..]);
      assert s[1..k + 1] == s[1..][..k];
      if k == 0 || k > FractionDigits then None
      else Some((ScaleUp(DigitsValue(s[1..k + 1]), FractionDigits - k), s[k + 1..]))
  }

  function ParseKind(s: string): Option<DateTimeKind> {
    if s == "" then Some(Unspecified)
    else if s == "Z" then Some(Utc)
    else if |s| == 6 && (s[0] == '+' || s[0] == '-') && s[3] == ':' then
      match (Field(s, 1, 2), Field(s, 4, 2))
      case (Some(h), Some(m)) =>
        if m < 60 then
          var minutes: int := h * 60 + m;
          Some(Local(if s[0] == '-' then -minutes else minutes))
        else None
      case _ => None
    else None
  }

  /**
   * `XmlConvert.ToDateTime(s, XmlDateTimeSerializationMode.RoundtripKind)`, or `None`
   * where that call throws.
   */
  function ParseDateTime(s: string): Option<DateTime> {
    if |s| < 19 then None
    else
      match ParseDatePart(s[..19])
      case None => None
      case Some(d) =>
        match ParseFraction(s[19..])
        case None => None
        case Some((f, rest)) =>
          match ParseKind(rest)
          case None => None
          case Some(k) =>
            var t := DateTimeFields(d.year, d.month, d.day, d.hour, d.minute, d.second, f, k);
            if Valid(t) then Some(t) else None
  }

  // ----- round-trip proofs ------------------------------------------------------------

  lemma FieldOfPad(s: string, from: nat, n: nat, width: nat)
    requires from + width <= |s| && s[from..from + width] == PadNat(n, width)
    requires n < Pow10(width)
    ensures Field(s, from, width) == Some(n)
  {
    PadNatValue(n, width);
  }

  lemma DatePartRoundTrip(t: DateTime)
    ensures ParseDatePart(DatePart(t)) == Some(DateFields(t.year, t.month, t.day, t.hour, t.minute, t.second))
  {
    var s := DatePart(t);
    assert s[0..4] == PadNat(t.year, 4);
    assert s[5..7] == PadNat(t.month, 2);
    assert s[8..10] == PadNat(t.day, 2);
    assert s[11..13] == PadNat(t.hour, 2);
    assert s[14..16] == PadNat(t.minute, 2);
    assert s[17..19] == PadNat(t.second, 2);
    FieldOfPad(s, 0, t.year, 4);
    FieldOfPad(s, 5, t.month, 2);
    FieldOfPad(s, 8, t.day, 2);
    FieldOfPad(s, 11, t.hour, 2);
    FieldOfPad(s, 14, t.minute, 2);
    FieldOfPad(s, 17, t.second, 2);
  }

  /** The kind suffix never starts with a digit or a '.', so it ends the fraction. */
  lemma FormatKindStart(k: DateTimeKind)
    ensures FormatKind(k) != [] ==> !IsDigit(FormatKind(k)[0]) && FormatKind(k)[0] != '.'
  {
  }

  lemma {:induction false} FractionRoundTrip(f: nat, rest: string)
    requires f < TicksPerSecond
    requires rest != [] ==> !IsDigit(rest[0]) && rest[0] != '.'
    ensures ParseFraction(FormatFraction(f) + rest) == Some((f, rest))
  {
    if f == 0 {
      assert FormatFraction(f) + rest == rest;
    } else {
      TicksPerSecondDigits();
      var p := PadNat(f, FractionDigits);
      PadNatValue(f, FractionDigits);
      TrimmedFractionRoundTrip(p, f, rest);
      FormatFractionPoint(f);
      SeqAssoc(['.'], TrimTrailingZeros(p), rest);
    }
  }

  lemma TicksPerSecondDigits()
    ensures Pow10(FractionDigits) == TicksPerSecond
  {
  }

  /** Seven digits of non-zero value, trimmed of their trailing zeros, read back as their value. */
  lemma TrimmedFractionRoundTrip(p: string, f: nat, rest: string)
    requires |p| == FractionDigits && AllDigits(p) && DigitsValue(p) == f && f != 0
    requires rest != [] ==> !IsDigit(rest[0])
    ensures ParseFraction(['.'] + (TrimTrailingZeros(p) + rest)) == Some((f, rest))
  {
    var digits := TrimTrailingZeros(p);
    TrimTrailingZerosNonEmpty(p);
    TrimTrailingZerosDigits(p);
    DigitsValueZeros(digits, FractionDigits - |digits|);
    ParseFractionDigits(digits, rest);
  }

  lemma FormatFractionPoint(f: nat)
    requires f > 0
    ensures FormatFraction(f) == ['.'] + TrimTrailingZeros(PadNat(f, FractionDigits))
  {
  }

  lemma SeqAssoc(a: string, b: string, c: string)
    ensures a + b + c == a + (b + c)
  {
  }

  /** A point, one to seven digits and a non-digit rest: the digits padded to ticks. */
  lemma ParseFractionDigits(digits: string, rest: string)
    requires 0 < |digits| <= FractionDigits && AllDigits(digits)
    requires rest != [] ==> !IsDigit(rest[0])
    ensures ParseFraction(['.'] + (digits + rest))
         == Some((ScaleUp(DigitsValue(digits), FractionDigits - |digits|), rest))
  {
    var tail := digits + rest;
    var s := ['.'] + tail;
    var k := |digits|;
    assert s[1..] == tail;
    DigitRunPrefix(digits, rest);
    assert s[1..k + 1] == digits;
    assert s[k + 1..] == rest;
    ParseFractionRun(s, k);
  }

  /** `ParseFraction` of a point followed by a run of `k` digits, as its branches read. */
  lemma ParseFractionRun(s: string, k: nat)
    requires |s| > k && s[0] == '.' && DigitRun(s[1..]) == k && 0 < k <= FractionDigits
    ensures AllDigits(s[1..k + 1])
    ensures ParseFraction(s) == Some((ScaleUp(DigitsValue(s[1..k + 1]), FractionDigits - k), s[k + 1..]))
  {
    assert s[1..k + 1] == s[1..][..k];
  }

  lemma {:induction false} DigitRunPrefix(digits: string, rest: string)
    requires AllDigits(digits)
    requires rest != [] ==> !IsDigit(rest[0])
    ensures DigitRun(digits + rest) == |digits|
  {
    if digits != [] {
      assert (digits + rest)[1..] == digits[1..] + rest;
      DigitRunPrefix(digits[1..], rest);
    } else {
      assert digits + rest == rest;
    }
  }

  lemma KindRoundTrip(k: DateTimeKind)
    requires ValidKind(k)
    ensures ParseKind(FormatKind(k)) == Some(k)
  {
    match k
    case Unspecified =>
    case Utc =>
    case Local(o) =>
      var s := FormatKind(k);
      var h, m := Abs(o) / 60, Abs(o) % 60;
      assert s[1..3] == PadNat(h, 2);
      assert s[4..6] == PadNat(m, 2);
      FieldOfPad(s, 1, h, 2);
      FieldOfPad(s, 4, m, 2);
  }

  /** Every timestamp reads back, fields and kind alike, from its own round-trip text. */
  lemma ParseFormatDateTime(t: DateTime)
    ensures ParseDateTime(FormatDateTime(t)) == Some(t)
  {
    var date := DatePart(t);
    var tail := FormatFraction(t.fraction) + FormatKind(t.kind);
    DatePartRoundTrip(t);
    FormatKindStart(t.kind);
    FractionRoundTrip(t.fraction, FormatKind(t.kind));
    KindRoundTrip(t.kind);
    ParseDateTimeOfParts(date, tail, DateFields(t.year, t.month, t.day, t.hour, t.minute, t.second),
                         t.fraction, FormatKind(t.kind), t.kind);
    assert FormatDateTime(t) == date + tail;
  }

  /** `ParseDateTime` assembles what its three parsing stages give. */
  lemma ParseDateTimeOfParts(date: string, tail: string, d: DateFields, f: nat, rest: string, k: DateTimeKind)
    requires |date| == 19 && ParseDatePart(date) == Some(d)
    requires ParseFraction(tail) == Some((f, rest)) && ParseKind(rest) == Some(k)
    ensures var t := DateTimeFields(d.year, d.month, d.day, d.hour, d.minute, d.second, f, k);
            ParseDateTime(date + tail) == if Valid(t) then Some(t) else None
  {
    assert (date + tail)[..19] == date;
    assert (date + tail)[19..] == tail;
  }

  /** Round-trip text is never empty: it always holds the 19-character date part. */
  lemma FormatDateTimeShape(t: DateTimeFields)
    ensures |FormatDateTime(t)| >= 19 && FormatDateTime(t)[4] == '-'
  {
  }

  // ----- conversion to UTC --------------------------------------------------------------

  datatype CalendarDate = CalendarDate(year: nat, month: nat, day: nat)

  predicate ValidCalendarDate(c: CalendarDate) {
    ValidDate(c.year, c.month, c.day)
  }

  function NextDay(c: CalendarDate): CalendarDate
    requires ValidCalendarDate(c)
  {
    if c.day < DaysInMonth(c.year, c.month) then c.(day := c.day + 1)
    else if c.month < 12 then CalendarDate(c.year, c.month + 1, 1)
    else CalendarDate(c.year + 1, 1, 1)
  }

  function PrevDay(c: CalendarDate): CalendarDate
    requires ValidCalendarDate(c)
  {
    if c.day > 1 then c.(day := c.day - 1)
    else if c.month > 1 then CalendarDate(c.year, c.month - 1, DaysInMonth(c.year, c.month - 1))
    else CalendarDate(c.year - 1, 12, 31)
  }

  lemma PrevDayOfNextDay(c: CalendarDate)
    requires ValidCalendarDate(c) && ValidCalendarDate(NextDay(c))
    ensures PrevDay(NextDay(c)) == c
  {
  }

  lemma NextDayOfPrevDay(c: CalendarDate)
    requires ValidCalendarDate(c) && ValidCalendarDate(PrevDay(c))
    ensures NextDay(PrevDay(c)) == c
  {
  }

  /**
   * The same timestamp moved by `delta` minutes (less than a day either way), carrying
   * into the previous or next calendar day; `None` when that leaves years 1 to 9999.
   */
  function AddMinutes(t: DateTime, delta: int): Option<DateTime>
    requires -(MinutesPerDay as int) < delta < MinutesPerDay
  {
    var total := (t.hour * 60 + t.minute) as int + delta;
    var date := CalendarDate(t.year, t.month, t.day);
    var shifted :=
      if total < 0 then (PrevDay(date), total + MinutesPerDay)
      else if total >= MinutesPerDay then (NextDay(date), total - MinutesPerDay)
      else (date, total);
    var minutes: nat := shifted.1;
    var r := DateTimeFields(shifted.0.year, shifted.0.month, shifted.0.day,
                            minutes / 60, minutes % 60, t.second, t.fraction, t.kind);
    if Valid(r) then Some(r) else None
  }

  /**
   * The UTC instant a timestamp denotes: a UTC timestamp is itself, an unspecified one is
   * read as UTC, a local one is moved back by its offset. `None` when the instant falls
   * outside the representable years.
   */
  function ToUtc(t: DateTime): (r: Option<DateTime>)
    ensures r.Some? ==> r.value.kind == Utc
  {
    match t.kind
    case Utc => Some(t)
    case Unspecified => Some(SpecifyKind(t, Utc))
    case Local(o) => AddMinutes(SpecifyKind(t, Utc), -o)
  }

  /** Moving a timestamp forth and back by the same number of minutes restores it. */
  lemma AddMinutesInverse(t: DateTime, delta: int, u: DateTime)
    requires -(MinutesPerDay as int) < delta < MinutesPerDay
    requires AddMinutes(t, delta) == Some(u)
    ensures AddMinutes(u, -delta) == Some(t)
  {
    var total := (t.hour * 60 + t.minute) as int + delta;
    var date := CalendarDate(t.year, t.month, t.day);
    var back := (u.hour * 60 + u.minute) as int - delta;
    if total < 0 {
      assert CalendarDate(u.year, u.month, u.day) == PrevDay(date);
      assert back == total + MinutesPerDay - delta;
      NextDayOfPrevDay(date);
    } else if total >= MinutesPerDay {
      assert CalendarDate(u.year, u.month, u.day) == NextDay(date);
      PrevDayOfNextDay(date);
    }
  }

  /**
   * Normalising a local timestamp to UTC loses nothing: adding its offset back to the
   * UTC instant gives the original wall-clock fields.
   */
  lemma ToUtcLocalInverse(t: DateTime, u: DateTime)
    requires t.kind.Local? && ToUtc(t) == Some(u)
    ensures AddMinutes(u, t.kind.offsetMinutes) == Some(SpecifyKind(t, Utc))
  {
    AddMinutesInverse(SpecifyKind(t, Utc), -t.kind.offsetMinutes, u);
  }

  /** Normalising twice is normalising once. */
  lemma ToUtcIdempotent(t: DateTime, u: DateTime)
    requires ToUtc(t) == Some(u)
    ensures ToUtc(u) == Some(u)
  {
  }
}
