/**
 * Decimal digit strings: the building block of every invariant-culture number and
 * timestamp text in the attribute model.
 */
module Decimal {

  predicate IsDigit(c: char) {
    '0' <= c <= '9'
  }

  predicate AllDigits(s: string) {
    forall i :: 0 <= i < |s| ==> IsDigit(s[i])
  }

  function DigitChar(d: nat): (c: char)
    requires d < 10
    ensures IsDigit(c)
  {
    ('0' as int + d) as char
  }

  function DigitValue(c: char): (d: nat)
    requires IsDigit(c)
    ensures d < 10
  {
    c as int - '0' as int
  }

  function Pow10(k: nat): (p: nat)
    ensures p >= 1
  {
    if k == 0 then 1 else 10 * Pow10(k - 1)
  }

  /** The value of a digit string, most significant digit first. */
  function DigitsValue(s: string): nat
    requires AllDigits(s)
  {
    if s == [] then 0 else DigitsValue(s[..|s| - 1]) * 10 + DigitValue(s[|s| - 1])
  }

  /** Shortest decimal text of a natural number (no leading zeros). */
  function FormatNat(n: nat): (s: string)
    ensures |s| >= 1 && AllDigits(s)
  {
    if n < 10 then [DigitChar(n)] else FormatNat(n / 10) + [DigitChar(n % 10)]
  }

  /** The text of `n` left-padded with zeros to exactly `width` digits (`n` must fit). */
  function PadNat(n: nat, width: nat): (s: string)
    ensures |s| == width && AllDigits(s)
  {
    if width == 0 then [] else PadNat(n / 10, width - 1) + [DigitChar(n % 10)]
  }

  function Zeros(k: nat): (s: string)
    ensures |s| == k && AllDigits(s)
    ensures forall i :: 0 <= i < k ==> s[i] == '0'
  {
    if k == 0 then [] else Zeros(k - 1) + ['0']
  }

  /** Drops the trailing '0' characters of a digit string. */
  function TrimTrailingZeros(s: string): (t: string)
    ensures |t| <= |s| && t == s[..|t|]
    ensures t != [] ==> t[|t| - 1] != '0'
  {
    if s == [] || s[|s| - 1] != '0' then s else TrimTrailingZeros(s[..|s| - 1])
  }

  /** Number of leading digit characters of `s`. */
  function DigitRun(s: string): (k: nat)
    ensures k <= |s| && AllDigits(s[..k])
    ensures k < |s| ==> !IsDigit(s[k])
  {
    if s == [] || !IsDigit(s[0]) then 0
    else
      var k := 1 + DigitRun(s[1..]);
      assert s[..k] == [s[0]] + s[1..][..k - 1];
      k
  }

  /** `n` with its last `k` decimal digits dropped (n / 10^k, by repeated division). */
  function DropDigits(n: nat, k: nat): nat {
    if k == 0 then n else DropDigits(n / 10, k - 1)
  }

  /** The value of the last `k` decimal digits of `n` (n % 10^k, digit by digit). */
  function LowDigits(n: nat, k: nat): nat {
    if k == 0 then 0 else LowDigits(n / 10, k - 1) * 10 + n % 10
  }

  lemma DigitCharValue(d: nat)
    requires d < 10
    ensures DigitValue(DigitChar(d)) == d
  {
  }

  /** Reading back the shortest text of `n` gives `n`. */
  lemma {:induction false} FormatNatValue(n: nat)
    ensures DigitsValue(FormatNat(n)) == n
  {
    var s := FormatNat(n);
    if n < 10 {
      DigitCharValue(n);
    } else {
      FormatNatValue(n / 10);
      DigitCharValue(n % 10);
      assert s[..|s| - 1] == FormatNat(n / 10);
    }
  }

  /** Reading back the padded text of `n` gives `n` when `n` fits in `width` digits. */
  lemma {:induction false} PadNatValue(n: nat, width: nat)
    requires n < Pow10(width)
    ensures DigitsValue(PadNat(n, width)) == n
  {
    if width == 0 {
    } else {
      var s := PadNat(n, width);
      assert n / 10 < Pow10(width - 1);
      PadNatValue(n / 10, width - 1);
      DigitCharValue(n % 10);
      assert s[..|s| - 1] == PadNat(n / 10, width - 1);
    }
  }

  /** The padded text of `n` holds exactly the last `width` digits of `n`. */
  lemma {:induction false} PadNatLowDigits(n: nat, width: nat)
    ensures DigitsValue(PadNat(n, width)) == LowDigits(n, width)
  {
    if width > 0 {
      var s := PadNat(n, width);
      PadNatLowDigits(n / 10, width - 1);
      DigitCharValue(n % 10);
      assert s[..|s| - 1] == PadNat(n / 10, width - 1);
    }
  }

  /** Splitting `n` into its leading part and its last `k` digits loses nothing. */
  lemma {:induction false} SplitDigits(n: nat, k: nat)
    ensures DropDigits(n, k) * Pow10(k) + LowDigits(n, k) == n
    ensures LowDigits(n, k) < Pow10(k)
  {
    if k > 0 {
      SplitDigits(n / 10, k - 1);
      var a, p, b, d := DropDigits(n / 10, k - 1), Pow10(k - 1), LowDigits(n / 10, k - 1), n % 10;
      ShiftDigit(a, p, b, d);
      assert b * 10 + d < 10 * p by { LowerDigit(b, p, d); }
    }
  }

  lemma LowerDigit(b: nat, p: nat, d: nat)
    requires b < p && d < 10
    ensures b * 10 + d < 10 * p
  {
  }

  lemma AllDigitsAppend(s: string, t: string)
    requires AllDigits(s) && AllDigits(t)
    ensures AllDigits(s + t)
  {
    forall i | 0 <= i < |s + t| ensures IsDigit((s + t)[i]) {
      if i >= |s| { assert (s + t)[i] == t[i - |s|]; }
    }
  }

  /** The value of a concatenation of digit strings. */
  lemma {:induction false} DigitsValueAppend(s: string, t: string)
    requires AllDigits(s) && AllDigits(t)
    ensures AllDigits(s + t)
    ensures DigitsValue(s + t) == DigitsValue(s) * Pow10(|t|) + DigitsValue(t)
  {
    AllDigitsAppend(s, t);
    if t == [] {
      assert s + t == s;
    } else {
      var t' := t[..|t| - 1];
      var last := DigitValue(t[|t| - 1]);
      assert (s + t)[..|s + t| - 1] == s + t';
      DigitsValueAppend(s, t');
      var a, p, b := DigitsValue(s), Pow10(|t'|), DigitsValue(t');
      assert (s + t)[|s + t| - 1] == t[|t| - 1];
      assert DigitsValue(s + t) == DigitsValue(s + t') * 10 + last;
      assert DigitsValue(t) == b * 10 + last;
      assert Pow10(|t|) == 10 * p;
      ShiftDigit(a, p, b, last);
    }
  }

  lemma ShiftDigit(a: nat, p: nat, b: nat, d: nat)
    ensures (a * p + b) * 10 + d == a * (10 * p) + (b * 10 + d)
  {
  }

  lemma {:induction false} ZerosValue(k: nat)
    ensures DigitsValue(Zeros(k)) == 0
  {
    if k > 0 {
      ZerosValue(k - 1);
      assert Zeros(k)[..k - 1] == Zeros(k - 1);
    }
  }

  /** `v` with `n` zero digits written after it, that is `v * 10^n`. */
  function ScaleUp(v: nat, n: nat): nat {
    if n == 0 then v else ScaleUp(v, n - 1) * 10
  }

  /** Appending zero digits scales a digit string's value up. */
  lemma {:induction false} DigitsValueZeros(t: string, n: nat)
    requires AllDigits(t)
    ensures AllDigits(t + Zeros(n))
    ensures DigitsValue(t + Zeros(n)) == ScaleUp(DigitsValue(t), n)
  {
    AllDigitsAppend(t, Zeros(n));
    if n == 0 {
      assert t + Zeros(n) == t;
    } else {
      DigitsValueZeros(t, n - 1);
      var u := t + Zeros(n);
      assert u[..|u| - 1] == t + Zeros(n - 1);
      assert u[|u| - 1] == '0';
    }
  }

  /** A digit string is its trimmed prefix followed by zeros. */
  lemma {:induction false} TrimTrailingZerosSplit(s: string)
    ensures s == TrimTrailingZeros(s) + Zeros(|s| - |TrimTrailingZeros(s)|)
  {
    if s == [] || s[|s| - 1] != '0' {
    } else {
      var s' := s[..|s| - 1];
      TrimTrailingZerosSplit(s');
      assert s == s' + ['0'];
    }
  }

  /** Trimming keeps a digit string's leading digits, and padding with zeros restores it. */
  lemma TrimTrailingZerosDigits(s: string)
    requires AllDigits(s)
    ensures AllDigits(TrimTrailingZeros(s)) && |TrimTrailingZeros(s)| <= |s|
    ensures TrimTrailingZeros(s) + Zeros(|s| - |TrimTrailingZeros(s)|) == s
  {
    var t := TrimTrailingZeros(s);
    TrimTrailingZerosSplit(s);
    forall i | 0 <= i < |t| ensures IsDigit(t[i]) { assert t[i] == s[i]; }
  }

  /** A digit string whose value is not zero keeps at least one digit after trimming. */
  lemma TrimTrailingZerosNonEmpty(s: string)
    requires AllDigits(s) && DigitsValue(s) != 0
    ensures TrimTrailingZeros(s) != []
  {
    TrimTrailingZerosSplit(s);
    ZerosValue(|s|);
  }
}
