/** PHP strings are byte strings: `strlen`, `substr` and `strpos` count bytes.
    A byte is modelled as a character below 256 so that string literals can be
    written directly. */
module Bytes {
  import opened Common

  type Byte = c: char | c as int < 256
  type ByteString = seq<Byte>

  /** ASCII lower-casing; the folding PCRE's default tables apply under `/i`. */
  function Fold(c: Byte): Byte
  {
    if 'A' <= c <= 'Z' then (c as int + 32) as char else c
  }

  /** Every byte of `x` folded to lower case. */
  function FoldAll(x: ByteString): (r: ByteString)
    ensures |r| == |x|
  {
    if |x| == 0 then [] else [Fold(x[0])] + FoldAll(x[1..])
  }

  lemma {:induction false} FoldAllIndex(x: ByteString, i: nat)
    requires i < |x|
    ensures FoldAll(x)[i] == Fold(x[i])
    decreases i
  {
    if i > 0 {
      FoldAllIndex(x[1..], i - 1);
    }
  }

  lemma {:induction false} FoldAllPrefix(x: ByteString, n: nat)
    requires n <= |x|
    ensures FoldAll(x[..n]) == FoldAll(x)[..n]
    decreases n
  {
    if n > 0 {
      assert x[..n][1..] == x[1..][..n - 1];
      FoldAllPrefix(x[1..], n - 1);
    }
  }

  /** `strpos($s, $prefix) === 0`. */
  predicate StartsWith(s: ByteString, prefix: ByteString)
  {
    |prefix| <= |s| && s[..|prefix|] == prefix
  }

  /** `strlen($s) > $n ? substr($s, 0, $n) . $suffix : $s`. */
  function Truncate(s: ByteString, n: nat, suffix: ByteString): (r: ByteString)
    ensures |s| <= n ==> r == s
    ensures |s| > n ==> |r| == n + |suffix| && r[..n] == s[..n] && r[n..] == suffix
  {
    if |s| > n then s[..n] + suffix else s
  }

  /** PHP truthiness of a string: only `''` and `'0'` are falsy. */
  predicate IsTruthy(s: ByteString)
  {
    s != "" && s != "0"
  }

  // ---------------------------------------------------------------------
  // Decimal digits: integer-to-string conversion and the `(int)` cast.
  // ---------------------------------------------------------------------

  predicate IsDigit(c: Byte) { '0' as int <= c as int <= '9' as int }

  function DigitChar(d: nat): (c: Byte)
    requires d < 10
    ensures IsDigit(c) && c as int - '0' as int == d
  {
    ('0' as int + d) as char
  }

  /** PHP's rendering of a non-negative integer in decimal (no leading zeros). */
  function DecimalString(n: nat): (r: ByteString)
    ensures |r| > 0
    ensures forall k :: 0 <= k < |r| ==> IsDigit(r[k])
    ensures n > 0 ==> r[0] != '0'
  {
    if n < 10 then [DigitChar(n)]
    else DecimalString(n / 10) + [DigitChar(n % 10)]
  }

  /** The value of a string of decimal digits, most significant first. */
  function DigitsValue(d: ByteString): nat
    requires forall k :: 0 <= k < |d| ==> IsDigit(d[k])
  {
    if |d| == 0 then 0
    else DigitsValue(d[..|d| - 1]) * 10 + DigitOf(d[|d| - 1])
  }

  function DigitOf(c: Byte): nat
    requires IsDigit(c)
  {
    c as int - '0' as int
  }

  /** Length of the longest all-digit prefix of `s`. */
  function DigitRun(s: ByteString): (n: nat)
    ensures n <= |s|
    ensures forall k :: 0 <= k < n ==> IsDigit(s[k])
    ensures n < |s| ==> !IsDigit(s[n])
  {
    if |s| == 0 || !IsDigit(s[0]) then 0 else 1 + DigitRun(s[1..])
  }

  predicate IsSpace(c: Byte)
  {
    c == ' ' || c == '\t' || c == '\n' || c == '\r' || c as int == 11 || c as int == 12
  }

  /** `s` without its leading white space. */
  function SkipSpace(s: ByteString): (r: ByteString)
    ensures |r| <= |s| && r == s[|s| - |r|..]
    ensures |r| > 0 ==> !IsSpace(r[0])
    ensures forall k :: 0 <= k < |s| - |r| ==> IsSpace(s[k])
  {
    if |s| > 0 && IsSpace(s[0]) then SkipSpace(s[1..]) else s
  }

  /** The value of the digits at the start of `s` (0 when there are none). */
  function LeadingValue(s: ByteString): nat
  {
    DigitsValue(s[..DigitRun(s)])
  }

  function Pow10(k: nat): (r: nat)
    ensures r >= 1
  {
    if k == 0 then 1 else 10 * Pow10(k - 1)
  }

  /** The exponent PHP's numeric-string scanner accepts after a number: `e`
      or `E`, an optional sign, then digits. Without digits there is no
      exponent and the number ends before the `e` (exponent 0). */
  function ExponentOf(s: ByteString): int
  {
    if |s| > 0 && (s[0] == 'e' || s[0] == 'E') then
      var u := s[1..];
      var w := if |u| > 0 && (u[0] == '-' || u[0] == '+') then u[1..] else u;
      if |u| > 0 && u[0] == '-' then -(LeadingValue(w) as int) else LeadingValue(w)
    else 0
  }

  /** The unsigned number at the start of `u`, as a whole number `m` of all
      its digits and the power of ten `e` that scales it (it reads as
      `m * 10^e`): digits, an optional point with more digits, an optional
      exponent. `None` when `u` starts neither with a digit nor with a point
      followed by a digit. */
  function UnsignedNumeral(u: ByteString): Option<(nat, int)>
  {
    var n := DigitRun(u);
    AfterWhole(LeadingValue(u), n > 0, u[n..])
  }

  /** What follows the whole part: a point and a fraction, or the exponent. */
  function AfterWhole(whole: nat, hasWhole: bool, after: ByteString): Option<(nat, int)>
  {
    if |after| > 0 && after[0] == '.' then Fraction(whole, hasWhole, after[1..])
    else if hasWhole then Some((whole, ExponentOf(after)))
    else None
  }

  /** The digits after the point join the whole part's digits. */
  function Fraction(whole: nat, hasWhole: bool, rest: ByteString): Option<(nat, int)>
  {
    var f := DigitRun(rest);
    if !hasWhole && f == 0 then None
    else Some((Shift(whole, f) + LeadingValue(rest), ExponentOf(rest[f..]) - f))
  }

  /** `m * 10^k`, one decimal place at a time. */
  function Shift(m: nat, k: nat): nat
  {
    if k == 0 then m else 10 * Shift(m, k - 1)
  }

  lemma {:induction false} ShiftIsProduct(m: nat, k: nat)
    ensures Shift(m, k) == m * Pow10(k)
    decreases k
  {
    if k > 0 {
      ShiftIsProduct(m, k - 1);
      var p := Pow10(k - 1);
      assert Pow10(k) == 10 * p;
      assert m * (10 * p) == 10 * (m * p);
    }
  }

  lemma {:induction false} ShiftPositive(m: nat, k: nat)
    requires m > 0
    ensures Shift(m, k) > 0
    decreases k
  {
    if k > 0 {
      ShiftPositive(m, k - 1);
    }
  }

  /** `m / 10^k` rounded down, one decimal place at a time. */
  function Unshift(m: nat, k: nat): nat
  {
    if k == 0 then m else Unshift(m / 10, k - 1)
  }

  /** `m * 10^e` truncated toward zero. */
  function ScaledValue(m: nat, e: int): nat
  {
    if e >= 0 then Shift(m, e) else Unshift(m, -e)
  }

  /** The range of PHP's 64-bit `int`. */
  const LongMax: int := 0x7fff_ffff_ffff_ffff
  const LongMin: int := -0x8000_0000_0000_0000

  /** PHP's `(int)` cast of a string, as PHP 7.1 and later perform it:
      leading white space, an optional sign, then the longest numeric prefix
      (digits, fraction, exponent); its value is truncated toward zero and
      clamped to the 64-bit range. A string without a numeric prefix gives 0. */
  function IntCast(s: ByteString): (r: int)
    ensures LongMin <= r <= LongMax
  {
    SignedCast(SkipSpace(s))
  }

  function SignedCast(t: ByteString): (r: int)
    ensures LongMin <= r <= LongMax
  {
    if |t| > 0 && t[0] == '-' then Max(LongMin, -(NumeralValue(t[1..]) as int))
    else if |t| > 0 && t[0] == '+' then Min(NumeralValue(t[1..]), LongMax)
    else Min(NumeralValue(t), LongMax)
  }

  /** The value of the unsigned number at the start of `u`, truncated; 0 when
      there is none. */
  function NumeralValue(u: ByteString): nat
  {
    match UnsignedNumeral(u)
    case None => 0
    case Some((m, e)) => ScaledValue(m, e)
  }

  /** A string that starts with a digit is read without white space or sign. */
  lemma CastOfDigitStart(s: ByteString)
    requires |s| > 0 && IsDigit(s[0])
    ensures IntCast(s) == Min(NumeralValue(s), LongMax)
  {
    assert !IsSpace(s[0]);
    assert SkipSpace(s) == s;
  }

  lemma {:induction false} DigitsValueOfDecimal(n: nat)
    ensures DigitsValue(DecimalString(n)) == n
    decreases n
  {
    var d := DecimalString(n);
    if n >= 10 {
      DigitsValueOfDecimal(n / 10);
      assert d[..|d| - 1] == DecimalString(n / 10);
    }
  }

  /** A run of digits followed by something that is not a digit: the run is
      read whole. */
  lemma {:induction false} DigitRunOfDigits(d: ByteString, rest: ByteString)
    requires forall k :: 0 <= k < |d| ==> IsDigit(d[k])
    requires |rest| > 0 ==> !IsDigit(rest[0])
    ensures DigitRun(d + rest) == |d|
    ensures LeadingValue(d + rest) == DigitsValue(d)
    decreases |d|
  {
    if |d| > 0 {
      assert (d + rest)[1..] == d[1..] + rest;
      DigitRunOfDigits(d[1..], rest);
    } else {
      assert d + rest == rest;
    }
    assert (d + rest)[..|d|] == d;
  }

  /** A decimal rendering read by `(int)` from the start of `s`, when what
      follows it is `rest`. */
  lemma DecimalPrefix(n: nat, rest: ByteString)
    requires |rest| > 0 ==> !IsDigit(rest[0]) && rest[0] != '.'
    ensures var d := DecimalString(n);
      UnsignedNumeral(d + rest) == Some((n, ExponentOf(rest)))
  {
    var d := DecimalString(n);
    DigitRunOfDigits(d, rest);
    DigitsValueOfDecimal(n);
    assert (d + rest)[|d|..] == rest;
  }

  /** Casting PHP's decimal rendering of a number back to an integer yields the
      number, as far as the 64-bit range reaches: the conversions are inverse. */
  lemma IntCastOfDecimal(n: nat)
    ensures IntCast(DecimalString(n)) == Min(n, LongMax)
  {
    var d := DecimalString(n);
    CastOfDigitStart(d);
    DecimalPrefix(n, []);
    assert d + [] == d;
  }

  /** The same for a negative number written with a minus sign. */
  lemma IntCastOfNegativeDecimal(n: nat)
    ensures IntCast("-" + DecimalString(n)) == Max(LongMin, -(n as int))
  {
    var d := DecimalString(n);
    var t := "-" + d;
    assert !IsSpace(t[0]);
    assert SkipSpace(t) == t;
    assert t[1..] == d + [];
    DecimalPrefix(n, []);
  }

  /** An exponent scales the number: `(int)'1e3'` is 1000. */
  lemma IntCastOfExponent(m: nat, k: nat)
    ensures IntCast(DecimalString(m) + "e" + DecimalString(k)) == Min(Shift(m, k), LongMax)
  {
    var s := DecimalString(m) + "e" + DecimalString(k);
    ExponentNumeral(m, k, s);
    CastOfExponentNumeral(s, m, k);
  }

  lemma ExponentNumeral(m: nat, k: nat, s: ByteString)
    requires s == DecimalString(m) + "e" + DecimalString(k)
    ensures |s| > 0 && IsDigit(s[0]) && UnsignedNumeral(s) == Some((m, k as int))
  {
    var d := DecimalString(m);
    var x := s[|d|..];
    assert s == d + x;
    assert s[0] == d[0];
    assert x[0] == 'e' && x[1..] == DecimalString(k);
    DecimalPrefix(m, x);
    ExponentOfDecimal(k, x);
  }

  lemma CastOfExponentNumeral(s: ByteString, m: nat, k: nat)
    requires |s| > 0 && IsDigit(s[0])
    requires UnsignedNumeral(s) == Some((m, k as int))
    ensures IntCast(s) == Min(Shift(m, k), LongMax)
  {
    NumeralValueOf(s, m, k);
    CastOfDigitStart(s);
  }

  lemma ExponentOfDecimal(k: nat, x: ByteString)
    requires |x| > 0 && x[0] == 'e' && x[1..] == DecimalString(k)
    ensures ExponentOf(x) == k
  {
    var y := DecimalString(k);
    assert y + [] == y;
    assert y[0] != '-' && y[0] != '+';
    DigitRunOfDigits(y, []);
    DigitsValueOfDecimal(k);
  }

  /** A fraction is cut off: `(int)'7.9'` is 7, and never rounds up. */
  lemma IntCastOfFraction(m: nat, frac: ByteString)
    requires |frac| > 0 && forall k :: 0 <= k < |frac| ==> IsDigit(frac[k])
    ensures IntCast(DecimalString(m) + "." + frac) == Min(m, LongMax)
  {
    var s := DecimalString(m) + "." + frac;
    FractionNumeral(m, frac);
    CastOfFractionNumeral(s, m, frac);
  }

  lemma CastOfFractionNumeral(s: ByteString, m: nat, frac: ByteString)
    requires |s| > 0 && IsDigit(s[0])
    requires forall k :: 0 <= k < |frac| ==> IsDigit(frac[k])
    requires UnsignedNumeral(s) == Some((Shift(m, |frac|) + DigitsValue(frac), -(|frac| as int)))
    ensures IntCast(s) == Min(m, LongMax)
  {
    var x := Shift(m, |frac|) + DigitsValue(frac);
    NumeralValueOf(s, x, -(|frac| as int));
    assert ScaledValue(x, -(|frac| as int)) == Unshift(x, |frac|);
    DigitsValueBound(frac);
    FractionTruncates(m, DigitsValue(frac), |frac|);
    assert NumeralValue(s) == m;
    CastOfDigitStart(s);
  }

  lemma NumeralValueOf(s: ByteString, m: nat, e: int)
    requires UnsignedNumeral(s) == Some((m, e))
    ensures NumeralValue(s) == ScaledValue(m, e)
  {
  }

  lemma FractionNumeral(m: nat, frac: ByteString)
    requires forall k :: 0 <= k < |frac| ==> IsDigit(frac[k])
    ensures var s := DecimalString(m) + "." + frac;
      |s| > 0 && IsDigit(s[0]) &&
      UnsignedNumeral(s) == Some((Shift(m, |frac|) + DigitsValue(frac), -(|frac| as int)))
  {
    var d := DecimalString(m);
    var s := d + ("." + frac);
    assert d + "." + frac == s;
    assert s[0] == d[0];
    DigitRunOfDigits(d, "." + frac);
    DigitsValueOfDecimal(m);
    assert s[|d|..] == "." + frac;
    PointThenDigits(m, frac);
  }

  lemma PointThenDigits(whole: nat, frac: ByteString)
    requires forall k :: 0 <= k < |frac| ==> IsDigit(frac[k])
    ensures AfterWhole(whole, true, "." + frac) ==
      Some((Shift(whole, |frac|) + DigitsValue(frac), -(|frac| as int)))
  {
    var after := "." + frac;
    assert after[0] == '.' && after[1..] == frac;
    assert AfterWhole(whole, true, after) == Fraction(whole, true, frac);
    FractionOfDigits(whole, frac);
  }

  lemma FractionOfDigits(whole: nat, frac: ByteString)
    requires forall k :: 0 <= k < |frac| ==> IsDigit(frac[k])
    ensures Fraction(whole, true, frac) ==
      Some((Shift(whole, |frac|) + DigitsValue(frac), -(|frac| as int)))
  {
    DigitRunOfDigits(frac, []);
    assert frac + [] == frac;
    assert frac[|frac|..] == [];
    assert ExponentOf([]) == 0;
  }

  lemma {:induction false} DigitsValueBound(d: ByteString)
    requires forall k :: 0 <= k < |d| ==> IsDigit(d[k])
    ensures DigitsValue(d) < Pow10(|d|)
    decreases |d|
  {
    if |d| > 0 {
      DigitsValueBound(d[..|d| - 1]);
    }
  }

  /** Digits shifted up by `f` places and then down again come back, however
      many digits fill the places in between. */
  lemma {:induction false} FractionTruncates(m: nat, v: nat, f: nat)
    requires v < Pow10(f)
    ensures Unshift(Shift(m, f) + v, f) == m
    decreases f
  {
    if f > 0 {
      var s := Shift(m, f - 1);
      assert Shift(m, f) + v == 10 * s + v;
      assert (10 * s + v) / 10 == s + v / 10;
      FractionTruncates(m, v / 10, f - 1);
    }
  }

  // ---------------------------------------------------------------------
  // `str_replace($needle, '', $s)`: remove every non-overlapping occurrence,
  // scanning left to right.
  // ---------------------------------------------------------------------

  predicate OccursIn(needle: ByteString, s: ByteString)
  {
    exists i :: 0 <= i <= |s| && StartsWith(s[i..], needle)
  }

  function RemoveAll(needle: ByteString, s: ByteString): (r: ByteString)
    ensures |r| <= |s|
    ensures |needle| == 0 ==> r == s
    decreases |s|
  {
    if |needle| == 0 || |s| == 0 then s
    else if StartsWith(s, needle) then RemoveAll(needle, s[|needle|..])
    else [s[0]] + RemoveAll(needle, s[1..])
  }

  /** A string that does not contain the needle is returned unchanged. */
  lemma {:induction false} RemoveAllAbsent(needle: ByteString, s: ByteString)
    requires !OccursIn(needle, s)
    ensures RemoveAll(needle, s) == s
    decreases |s|
  {
    if |needle| > 0 && |s| > 0 {
      assert s[0..] == s;
      assert !StartsWith(s, needle);
      forall i | 0 <= i <= |s[1..]| ensures !StartsWith(s[1..][i..], needle) {
        assert s[1..][i..] == s[i + 1..];
      }
      RemoveAllAbsent(needle, s[1..]);
    }
  }
}
