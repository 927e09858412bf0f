/** The text of a number in radix 10, with all thresholds written out: it is that of
    Number::toString (section 6.1.6.1.20 of ECMA-262). */
module DtoaFormat {
  import opened Letters
  import opened DtoaArith
  import opened DtoaReal
  import opened DtoaTables
  import opened DtoaTight
  import opened DtoaSpec
  import opened DtoaFree
  import opened DtoaDigits
  import opened DtoaPrint
  import opened DtoaRoundTrip
  import Text = DtoaText

  // --- digits as characters ---

  /** Digits are written with the digits and the lower-case letters. */
  lemma DigitsPrinted(d: nat)
    requires d < 36
    ensures DigitChar(d) == if d < 10 then DIGITS[d] else LOWER[d - 10]
  {
    if d < 10 { DigitAt(d); } else { LowerAt(d - 10); }
  }

  /** All that is put out for a number are its digits, so written. */
  lemma TextPrinted(n: nat, radix: nat, len: nat)
    requires 2 <= radix <= 36
    ensures Text.AreDigits(Numeral(n, radix), 36) && Text.AreDigits(DigitsOf(n, radix, len), 36)
    ensures NumeralText(n, radix) == Written(Numeral(n, radix)) && DigitText(n, radix, len) == Written(DigitsOf(n, radix, len))
  {
    DigitsBelow36(Numeral(n, radix), radix);
    DigitsBelow36(DigitsOf(n, radix, len), radix);
    hide Numeral, DigitsOf, DigitChar;
    CharsWritten(Numeral(n, radix));
    CharsWritten(DigitsOf(n, radix, len));
  }

  /** Digits, written. */
  function Written(ds: seq<nat>): (s: string)
    requires Text.AreDigits(ds, 36)
    ensures |s| == |ds|
  {
    seq(|ds|, i requires 0 <= i < |ds| => if ds[i] < 10 then DIGITS[ds[i]] else LOWER[ds[i] - 10])
  }

  lemma CharsWritten(ds: seq<nat>)
    requires Text.AreDigits(ds, 36)
    ensures Chars(ds) == Written(ds)
  {
    forall i | 0 <= i < |ds| ensures Chars(ds)[i] == Written(ds)[i] {
      DigitsPrinted(ds[i]);
    }
  }

  // --- Number::toString ---

  /** n zeros */
  function ZeroText(n: nat): (s: string)
    ensures |s| == n
  {
    seq(n, i => '0')
  }

  /** The text of the number 0.d1 d2 d3 ... * 10^n in radix 10. */
  function EcmaText(ds: seq<nat>, n: int): string
    requires ds != [] && Text.AreDigits(ds, 10)
  {
    Below36(ds);
    var k := |ds|;
    if k <= n <= 21 then Written(ds) + ZeroText(n - k)
    else if 0 < n <= 21 then Written(ds[..n]) + "." + Written(ds[n..])
    else if -6 < n <= 0 then "0." + ZeroText(-n) + Written(ds)
    else
      var e := if n - 1 >= 0 then n - 1 else 1 - n;
      Below36(Numeral(e, 10));
      Written(ds[..1]) + (if k == 1 then "" else "." + Written(ds[1..])) + "e" + (if n - 1 >= 0 then "+" else "-") + Written(Numeral(e, 10))
  }

  lemma Below36(ds: seq<nat>)
    requires Text.AreDigits(ds, 10)
    ensures Text.AreDigits(ds, 36)
  {
  }

  /** js_dtoa lays out digits in radix 10 like this. */
  lemma DecimalLayout(ds: seq<nat>, n: int)
    requires ds != [] && Text.AreDigits(ds, 10) && Text.AreDigits(ds, 36)
    ensures Layout(Written(ds), n, 10, ExpAuto) == EcmaText(ds, n)
  {
    if -6 < n <= 0 {
      FractionLayout(ds, n);
    } else if 0 < n <= 21 {
      WholeLayout(ds, n);
    } else {
      ExponentLayout(ds, n);
    }
  }

  lemma FractionLayout(ds: seq<nat>, n: int)
    requires ds != [] && Text.AreDigits(ds, 10) && Text.AreDigits(ds, 36) && -6 < n <= 0
    ensures Layout(Written(ds), n, 10, ExpAuto) == EcmaText(ds, n)
  {
    hide Numeral, Written, NumeralText, ExponentText, WithDot;
    PrintTen();
  }

  lemma WholeLayout(ds: seq<nat>, n: nat)
    requires ds != [] && Text.AreDigits(ds, 10) && Text.AreDigits(ds, 36) && 0 < n <= 21
    ensures Layout(Written(ds), n, 10, ExpAuto) == EcmaText(ds, n)
  {
    hide Numeral, Written, NumeralText, ExponentText;
    PrintTen();
    var t := Written(ds);
    if n < |ds| {
      WrittenSplit(ds, n);
      assert Zeros(0) == "";
      assert t[..n] + "." + t[n..] + "" == t[..n] + "." + t[n..];
    } else {
      assert Zeros(n - |ds|) == ZeroText(n - |ds|);
    }
  }

  lemma ExponentLayout(ds: seq<nat>, n: int)
    requires ds != [] && Text.AreDigits(ds, 10) && Text.AreDigits(ds, 36) && (n <= -6 || n > 21)
    ensures Layout(Written(ds), n, 10, ExpAuto) == EcmaText(ds, n)
  {
    hide *;
    var e := if n - 1 >= 0 then n - 1 else 1 - n;
    Below36(Numeral(e, 10));
    WrittenSplit(ds, 1);
    DecimalExponent(n - 1);
    LayoutExponential(Written(ds), n);
    EcmaExponential(ds, n);
    ExponentPieces(Written(ds), if n - 1 >= 0 then "+" else "-", Written(Numeral(e, 10)));
  }

  lemma LayoutExponential(t: string, n: int)
    requires t != "" && (n <= -6 || n > 21)
    ensures Layout(t, n, 10, ExpAuto) == WithDot(t, 1) + ExponentText(n - 1, 10)
  {
    PrintTen();
    hide WithDot, ExponentText;
  }

  lemma EcmaExponential(ds: seq<nat>, n: int)
    requires ds != [] && Text.AreDigits(ds, 10) && Text.AreDigits(ds, 36) && (n <= -6 || n > 21)
    ensures var e := if n - 1 >= 0 then n - 1 else 1 - n;
      Text.AreDigits(Numeral(e, 10), 36) &&
      EcmaText(ds, n) ==
        Written(ds[..1]) + (if |ds| == 1 then "" else "." + Written(ds[1..])) + "e" + (if n - 1 >= 0 then "+" else "-") + Written(Numeral(e, 10))
  {
    hide Written, Numeral;
    Below36(Numeral(if n - 1 >= 0 then n - 1 else 1 - n, 10));
  }

  lemma ExponentPieces(t: string, sign: string, u: string)
    requires t != ""
    ensures WithDot(t, 1) + ("e" + sign + u) == t[..1] + (if |t| == 1 then "" else "." + t[1..]) + "e" + sign + u
  {
    var head := WithDot(t, 1);
    assert head == t[..1] + if |t| == 1 then "" else "." + t[1..];
    assert head + ("e" + sign + u) == head + "e" + sign + u;
  }

  lemma DecimalExponent(e: int)
    ensures var n := if e >= 0 then e else -e;
      Text.AreDigits(Numeral(n, 10), 36) && ExponentText(e, 10) == "e" + (if e >= 0 then "+" else "-") + Written(Numeral(n, 10))
  {
    hide Numeral, NumeralText, Written, RadixShift;
    TextPrinted(if e >= 0 then e else -e, 10, 0);
    PrintTen();
  }

  /** Seventeen digits in radix 10, so that exponents start at 10^21. */
  lemma PrintTen()
    ensures DTOA_MAX_DIGITS[8] == 17 && !Text.BinaryRadix(10)
  {
  }

  lemma WrittenSplit(ds: seq<nat>, k: nat)
    requires k <= |ds| && Text.AreDigits(ds, 36)
    ensures Text.AreDigits(ds[..k], 36) && Text.AreDigits(ds[k..], 36)
    ensures Written(ds)[..k] == Written(ds[..k]) && Written(ds)[k..] == Written(ds[k..])
  {
  }

  // --- numbers ---

  /** Decimal digits without zeros at either end, and where the dot stands. */
  ghost predicate IsDecimal(a: nat, ds: seq<nat>, n: int) {
    ds != [] && Text.AreDigits(ds, 10) && ds[0] != 0 && ds[|ds| - 1] != 0 &&
    IsNearest(a, DecimalValue(Text.DigitsValue(ds, 10), 10, n - |ds|))
  }

  /** Every finite number but zero is printed in radix 10 as Number::toString does. */
  lemma DecimalPrinted(text: string, negative: bool, a: nat, minusZero: bool, log: int) returns (ds: seq<nat>, n: int)
    requires 0 < a < INF && IsFreeText(text, negative, a, 10, ExpAuto, minusZero, log)
    ensures IsDecimal(a, ds, n) && text == (if negative then "-" else "") + EcmaText(ds, n)
  {
    hide Layout, DigitText, NumeralText, IsInteger, IsShortText, EcmaText, IsDecimal;
    if exists v: nat :: IsInteger(a, v) {
      var v: nat :| IsInteger(a, v);
      ds, n := IntegerPrinted(a, v);
    } else {
      ds, n := ShortPrinted(text, negative, a, log + 1);
    }
  }

  lemma ShortPrinted(text: string, negative: bool, a: nat, e0: int) returns (ds: seq<nat>, n: int)
    requires 0 < a < INF && IsShortText(text, negative, a, 10, ExpAuto, e0)
    ensures IsDecimal(a, ds, n) && text == (if negative then "-" else "") + EcmaText(ds, n)
  {
    hide Layout, DigitText, EcmaText, IsFreeFormat, ShorterFails, IsDecimal;
    var mant: nat, p: nat, e: int :| IsShort(text, negative, a, 10, ExpAuto, e0, mant, p, e);
    ds, n := DigitsOf(mant, 10, p), e;
    FormatDigits(a, e0, mant, p, e);
    TextPrinted(mant, 10, p);
    DecimalLayout(ds, n);
  }

  lemma FormatDigits(a: nat, e0: int, mant: nat, p: nat, e: int)
    requires p >= 1 && IsFreeFormat(a, 10, e0, mant, p, e)
    ensures IsDecimal(a, DigitsOf(mant, 10, p), e)
  {
    hide Pow, IsNearest, Digits, Text.DigitsValue, DecimalValue;
    var ds := DigitsOf(mant, 10, p);
    DigitsExact(mant, 10, p);
    LeadingDigit(mant, 10, p);
    assert ds[p - 1] == mant % 10;
    hide DigitsOf;
  }

  lemma IntegerPrinted(a: nat, v: nat) returns (ds: seq<nat>, n: int)
    requires a < INF && IsInteger(a, v)
    ensures IsDecimal(a, ds, n) && NumeralText(v, 10) == EcmaText(ds, n)
  {
    hide Numeral, NumeralText, EcmaText, ValueOf, IsNearest, Written;
    var all := Numeral(v, 10);
    NumeralLeads(v, 10);
    NumeralValue(v, 10);
    IntegerLength(v, 10);
    PrintTen();
    var k := LastNonzero(all);
    ds, n := all[..k], |all|;
    TextPrinted(v, 10, 0);
    Below36(ds);
    ExactIsNearest(a);
    PaddedValue(all, k, v);
    PaddedText(all, k);
  }

  /** The digits without the zeros at the end. */
  lemma {:induction false} LastNonzero(ds: seq<nat>) returns (k: nat)
    requires ds != [] && ds[0] != 0
    ensures 1 <= k <= |ds| && ds[k - 1] != 0 && Text.AllZero(ds[k..])
  {
    if ds[|ds| - 1] != 0 {
      k := |ds|;
    } else {
      var m := |ds| - 1;
      k := LastNonzero(ds[..m]);
      forall i | 0 <= i < |ds[k..]| ensures ds[k..][i] == 0 {
        if k + i < m { assert ds[..m][k..][i] == ds[k + i]; }
      }
    }
  }

  lemma PaddedValue(all: seq<nat>, k: nat, v: nat)
    requires 1 <= k <= |all| && Text.AllZero(all[k..]) && Text.DigitsValue(all, 10) == v
    ensures DecimalValue(Text.DigitsValue(all[..k], 10), 10, |all| - k) == v as real
  {
    hide Pow, PowR, Text.DigitsValue;
    Text.ValueAppend(all[..k], all[k..], 10);
    assert all[..k] + all[k..] == all;
    Text.ZeroValue(all[k..], 10);
    ScaledValue(Text.DigitsValue(all[..k], 10), |all| - k, v);
  }

  lemma ScaledValue(x: nat, k: nat, v: nat)
    requires v == x * Pow(10, k)
    ensures DecimalValue(x, 10, k) == v as real
  {
    PowRNat(10, k);
    RealProduct(x, Pow(10, k));
    hide Pow, PowR;
  }

  lemma PaddedText(all: seq<nat>, k: nat)
    requires 1 <= k <= |all| <= 21 && Text.AreDigits(all, 10) && Text.AreDigits(all, 36) && Text.AllZero(all[k..])
    ensures Text.AreDigits(all[..k], 10) && Written(all) == EcmaText(all[..k], |all|)
  {
    hide Numeral;
    Below36(all[..k]);
    var t := Written(all[..k]) + ZeroText(|all| - k);
    forall i | 0 <= i < |all| ensures Written(all)[i] == t[i] {
      if i >= k {
        assert all[i] == all[k..][i - k];
        DigitAt(0);
      }
    }
    assert Written(all) == t;
  }

  /** Zero is printed as a single digit, its sign only on demand. */
  lemma ZeroPrinted(text: string, negative: bool, minusZero: bool, log: int)
    requires IsFreeText(text, negative, 0, 10, ExpAuto, minusZero, log)
    ensures text == if negative && minusZero then "-0" else "0"
  {
    TextPrinted(0, 10, 1);
    assert DigitsOf(0, 10, 1) == [0];
    DigitAt(0);
    hide DigitText, Numeral;
    DecimalLayout([0], 1);
    assert Written([0]) == "0";
    assert EcmaText([0], 1) == "0" + ZeroText(0) == "0";
  }

  // --- when there is an exponent ---

  /** The text has an exponent if and only if the decimal is below 10^-6 or at least 10^21. */
  lemma ExponentPrinted(ds: seq<nat>, n: int)
    requires ds != [] && Text.AreDigits(ds, 10) && ds[0] != 0
    ensures var x := DecimalValue(Text.DigitsValue(ds, 10), 10, n - |ds|);
      'e' in EcmaText(ds, n) <==> x < 0.000001 || x >= 1000000000000000000000.0
  {
    hide EcmaText, DecimalValue, Text.DigitsValue;
    DecimalMagnitude(ds, n);
    Thresholds();
    if n <= -6 { PowRAtLeast(10, -6, n); }
    if n >= -5 { PowRAtLeast(10, n - 1, -6); }
    if n > 21 { PowRAtLeast(10, n - 1, 21); }
    if n <= 21 { PowRAtLeast(10, 21, n); }
    HasExponent(ds, n);
    hide PowR;
  }

  lemma Thresholds()
    ensures PowR(10, -6) == 0.000001 && PowR(10, 21) == 1000000000000000000000.0
  {
    PowRNat(10, 6);
    PowRNat(10, 21);
    FastPowIsPow(10, 6, 1);
    FastPowIsPow(10, 21, 1);
    hide Pow, PowR;
    assert FastPow(10, 6, 1) == 1000000 && FastPow(10, 21, 1) == 1000000000000000000000;
  }

  /** 10^(n-1) <= 0.d1 d2 ... * 10^n < 10^n */
  lemma DecimalMagnitude(ds: seq<nat>, n: int)
    requires ds != [] && Text.AreDigits(ds, 10) && ds[0] != 0
    ensures PowR(10, n - 1) <= DecimalValue(Text.DigitsValue(ds, 10), 10, n - |ds|) < PowR(10, n)
  {
    hide Pow, PowR, Text.DigitsValue;
    var k := |ds|;
    Text.ValueBelow(ds, 10);
    Text.ValueAtLeast(ds, 10);
    PowRPos(10, n - k);
    PowRAdd(10, k - 1, n - k);
    PowRAdd(10, k, n - k);
    PowRNat(10, k - 1);
    PowRNat(10, k);
    var v := Text.DigitsValue(ds, 10);
    RealMono(Pow(10, k - 1) as real, v as real, PowR(10, n - k));
    RealMono(v as real, Pow(10, k) as real, PowR(10, n - k));
  }

  lemma HasExponent(ds: seq<nat>, n: int)
    requires ds != [] && Text.AreDigits(ds, 10)
    ensures 'e' in EcmaText(ds, n) <==> n <= -6 || n > 21
  {
    hide Written, Numeral;
    Below36(ds);
    NoLetter(ds);
    if 0 < n < |ds| {
      NoLetter(ds[..n]);
      NoLetter(ds[n..]);
    }
    if n <= -6 || n > 21 {
      WithExponent(ds, n);
    }
  }

  lemma NoLetter(ds: seq<nat>)
    requires Text.AreDigits(ds, 10)
    ensures Text.AreDigits(ds, 36) && 'e' !in Written(ds)
  {
    forall i | 0 <= i < |ds| ensures Text.AreDigits(ds, 36) && Written(ds)[i] != 'e' {
      DigitAt(ds[i]);
    }
  }

  lemma WithExponent(ds: seq<nat>, n: int)
    requires ds != [] && Text.AreDigits(ds, 10) && (n <= -6 || n > 21)
    ensures 'e' in EcmaText(ds, n)
  {
    hide Written, Numeral;
    var e := if n - 1 >= 0 then n - 1 else 1 - n;
    Below36(ds);
    Below36(Numeral(e, 10));
    var head := Written(ds[..1]) + (if |ds| == 1 then "" else "." + Written(ds[1..]));
    var tail := (if n - 1 >= 0 then "+" else "-") + Written(Numeral(e, 10));
    assert EcmaText(ds, n) == head + "e" + tail;
    assert (head + "e" + tail)[|head|] == 'e';
  }

  // --- the announced length ---

  /** What js_dtoa_max_len announces, with the number of digits found from its meaning. */
  lemma AnnouncedLength(radix: int, a: nat, lenLog: int)
    requires ValidRadix(radix)
    ensures var len := MaxLen(radix, ExpAuto, a, lenLog);
      len >= 10 && Pow(radix, len - 10) < 0x20_0000_0000_0000 <= Pow(radix, len - 9) && MaxLen(radix, ExpEnabled, a, lenLog) == len &&
      MaxLen(radix, ExpDisabled, a, lenLog) == if a >= INF then 9 else len + 2 + (if lenLog < 0 then -lenLog else lenLog)
  {
    PrintTight(radix);
  }
}
