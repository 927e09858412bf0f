/** js_dtoa with the free format: the number as text. */
module DtoaPrint {
  import opened DtoaArith
  import opened DtoaReal
  import opened DtoaLimbs
  import opened DtoaBignum
  import opened DtoaTables
  import opened DtoaSpec
  import opened DtoaDouble
  import opened DtoaFree
  import opened DtoaLength
  import opened DtoaDigits
  import Text = DtoaText

  /** JS_DTOA_EXP_AUTO, JS_DTOA_EXP_ENABLED, JS_DTOA_EXP_DISABLED */
  datatype ExpMode = ExpAuto | ExpEnabled | ExpDisabled

  // --- the layout ---

  function Zeros(n: nat): (s: string)
    ensures |s| == n
  {
    seq(n, i => '0')
  }

  predicate Exponential(e: int, radix: int, mode: ExpMode)
    requires ValidRadix(radix)
  {
    mode == ExpEnabled || (mode == ExpAuto && (e <= -6 || e > DTOA_MAX_DIGITS[radix - 2] + 4))
  }

  /** The exponent as it is written: in bits for the radixes 2, 4, 8 and 16. */
  function WrittenExponent(e: int, radix: int): int
    requires ValidRadix(radix)
  {
    if Text.BinaryRadix(radix) then e * RadixShift(radix) else e
  }

  function Mark(radix: int): char
    requires ValidRadix(radix)
  {
    if radix == 10 then 'e' else if Text.BinaryRadix(radix) then 'p' else '@'
  }

  function ExponentText(e: int, radix: int): string
    requires ValidRadix(radix)
  {
    var e1 := WrittenExponent(e, radix);
    [Mark(radix)] + (if e1 < 0 then "-" else "+") + NumeralText(if e1 < 0 then 0 - e1 else e1, 10)
  }

  /** The text of the number 0.d1 d2 d3 ... * radix^e. */
  function Layout(digits: string, e: int, radix: int, mode: ExpMode): string
    requires ValidRadix(radix) && |digits| >= 1
  {
    if Exponential(e, radix, mode) then WithDot(digits, 1) + ExponentText(e - 1, radix)
    else if e <= 0 then "0." + Zeros(-e) + digits
    else WithDot(digits, if |digits| < e then |digits| else e) + Zeros(if e > |digits| then e - |digits| else 0)
  }

  function SignText(negative: bool): string {
    if negative then "-" else ""
  }

  // --- writing into the buffer ---

  /** *q++ = c */
  method Put(buf: array<char>, q0: nat, c: char) returns (q: nat)
    requires q0 < buf.Length
    modifies buf
    ensures q == q0 + 1 && buf[..q] == old(buf[..q0]) + [c]
  {
    ghost var was := buf[..q0];
    buf[q0] := c;
    q := q0 + 1;
    assert buf[..q] == buf[..q0] + [c];
    assert buf[..q0] == was;
  }

  method PutZeros(buf: array<char>, q0: nat, n: nat) returns (q: nat)
    requires q0 + n <= buf.Length
    modifies buf
    ensures q == q0 + n && buf[..q] == old(buf[..q0]) + Zeros(n)
  {
    q := q0;
    ghost var was := buf[..q0];
    var i := 0;
    assert was + Zeros(0) == was;
    while i < n
      invariant 0 <= i <= n && q == q0 + i && buf[..q] == was + Zeros(i)
    {
      MoreZeros(was, i);
      q := Put(buf, q, '0');
      i := i + 1;
    }
  }

  lemma MoreZeros(s: string, i: nat)
    ensures s + Zeros(i) + "0" == s + Zeros(i + 1)
  {
  }

  lemma Joined(now: string, was: string, q: nat, len: nat, s: string)
    requires q + len <= |now| && q <= |was| && now[..q] == was[..q] && now[q..q + len] == s
    ensures now[..q + len] == was[..q] + s
  {
  }

  /** output_digits at q */
  method PutDigits(buf: array<char>, q0: nat, tmp: Bignum, radix: int, n: nat, dotPos: nat) returns (q: nat)
    requires ValidRadix(radix) && tmp.Normal() && 1 <= n && dotPos <= n
    requires q0 + |WithDot(DigitText(tmp.Val(), radix, n), dotPos)| <= buf.Length
    modifies buf, tmp, tmp.tab
    ensures q <= buf.Length && buf[..q] == old(buf[..q0]) + old(WithDot(DigitText(tmp.Val(), radix, n), dotPos))
  {
    hide DigitText;
    ghost var was, s := buf[..], WithDot(DigitText(tmp.Val(), radix, n), dotPos);
    var len := OutputDigits(buf, q0, tmp, radix, n, dotPos);
    Joined(buf[..], was, q0, len, s);
    q := q0 + len;
  }

  /** u32toa at q; numbers of at most ten digits. */
  method PutNumber(buf: array<char>, q0: nat, n: nat) returns (q: nat)
    requires n < BASE && q0 + |NumeralText(n, 10)| <= buf.Length
    modifies buf
    ensures q <= buf.Length && buf[..q] == old(buf[..q0]) + NumeralText(n, 10)
  {
    hide NumeralText, Numeral, Pow;
    NumeralTextSize(n, 10);
    Billion();
    ghost var was := buf[..];
    var len := NumeralToA(buf, q0, n, 10, 10);
    Joined(buf[..], was, q0, len, NumeralText(n, 10));
    q := q0 + len;
  }

  lemma ShiftIsBinary(radix: int)
    requires ValidRadix(radix)
    ensures OddPart(radix) == 1 && RadixShift(radix) <= 4 <==> Text.BinaryRadix(radix)
    ensures Text.BinaryRadix(radix) ==> RadixShift(radix) <= 4
  {
    if OddPart(radix) == 1 {
      BinaryShift(radix);
    }
    assert OddPart(2) == OddPart(1) && OddPart(4) == OddPart(2) && OddPart(8) == OddPart(4) && OddPart(16) == OddPart(8);
  }

  method PutExponent(buf: array<char>, q0: nat, e: int, radix: int) returns (q: nat)
    requires ValidRadix(radix) && -2000 <= e <= 2000 && q0 + |ExponentText(e, radix)| <= buf.Length
    modifies buf
    ensures q <= buf.Length && buf[..q] == old(buf[..q0]) + ExponentText(e, radix)
  {
    hide NumeralText, OddPart, RadixShift;
    ShiftIsBinary(radix);
    ghost var was := buf[..q0];
    var e1 := e;
    if radix == 10 {
      q := Put(buf, q0, 'e');
    } else if OddPart(radix) == 1 && RadixShift(radix) <= 4 {
      e1 := e * RadixShift(radix);
      SmallProduct(e, RadixShift(radix));
      q := Put(buf, q0, 'p');
    } else {
      q := Put(buf, q0, '@');
    }
    if e1 < 0 {
      q := Put(buf, q, '-');
      e1 := -e1;
    } else {
      q := Put(buf, q, '+');
    }
    ghost var head := buf[..q];
    q := PutNumber(buf, q, e1);
    assert was + [Mark(radix)] + (if WrittenExponent(e, radix) < 0 then "-" else "+") == head;
    assert head + NumeralText(e1, 10) == was + ExponentText(e, radix);
  }

  lemma SmallProduct(e: int, bits: nat)
    requires -2000 <= e <= 2000 && bits <= 4
    ensures -8000 <= e * bits <= 8000
  {
    MulMono(e, 2000, bits);
    MulMono(-2000, e, bits);
  }

  lemma Assoc(a: string, b: string, c: string)
    ensures a + b + c == a + (b + c)
  {
  }

  method PutExponential(buf: array<char>, q0: nat, tmp: Bignum, radix: int, p: nat, e: int, ghost text: string) returns (q: nat)
    requires ValidRadix(radix) && tmp.Normal() && p >= 1 && -1999 <= e <= 1999 && q0 + |text| <= buf.Length
    requires text == WithDot(DigitText(tmp.Val(), radix, p), 1) + ExponentText(e - 1, radix)
    modifies buf, tmp, tmp.tab
    ensures q <= buf.Length && buf[..q] == old(buf[..q0]) + text
  {
    hide DigitText, ExponentText, WithDot;
    Assoc(buf[..q0], WithDot(DigitText(tmp.Val(), radix, p), 1), ExponentText(e - 1, radix));
    q := PutDigits(buf, q0, tmp, radix, p, 1);
    q := PutExponent(buf, q, e - 1, radix);
  }

  method PutFraction(buf: array<char>, q0: nat, tmp: Bignum, radix: int, p: nat, n: nat, ghost text: string) returns (q: nat)
    requires ValidRadix(radix) && tmp.Normal() && p >= 1 && q0 + |text| <= buf.Length
    requires text == "0." + Zeros(n) + DigitText(tmp.Val(), radix, p)
    modifies buf, tmp, tmp.tab
    ensures q <= buf.Length && buf[..q] == old(buf[..q0]) + text
  {
    hide DigitText, Zeros;
    ghost var was, ds := buf[..q0], DigitText(tmp.Val(), radix, p);
    q := Put(buf, q0, '0');
    q := Put(buf, q, '.');
    assert buf[..q] == was + "0.";
    q := PutZeros(buf, q, n);
    q := PutDigits(buf, q, tmp, radix, p, p);
    Assoc(was, "0.", Zeros(n));
    Assoc(was, "0." + Zeros(n), ds);
  }

  method PutWhole(buf: array<char>, q0: nat, tmp: Bignum, radix: int, p: nat, e: nat, ghost text: string) returns (q: nat)
    requires ValidRadix(radix) && tmp.Normal() && p >= 1 && q0 + |text| <= buf.Length
    requires var n := if p < e then p else e; text == WithDot(DigitText(tmp.Val(), radix, p), n) + Zeros(e - n)
    modifies buf, tmp, tmp.tab
    ensures q <= buf.Length && buf[..q] == old(buf[..q0]) + text
  {
    hide DigitText, Zeros, WithDot;
    Assoc(buf[..q0], WithDot(DigitText(tmp.Val(), radix, p), if p < e then p else e), Zeros(if e > p then e - p else 0));
    q := PutDigits(buf, q0, tmp, radix, p, if p < e then p else e);
    q := PutZeros(buf, q, if e > p then e - p else 0);
  }

  lemma LayoutCases(ds: string, e: int, radix: int, mode: ExpMode)
    requires ValidRadix(radix) && |ds| >= 1
    ensures var s := Layout(ds, e, radix, mode);
      var eMax := DTOA_MAX_DIGITS[radix - 2] + 4;
      if mode == ExpEnabled || (mode == ExpAuto && (e <= -6 || e > eMax)) then s == WithDot(ds, 1) + ExponentText(e - 1, radix)
      else if e <= 0 then s == "0." + Zeros(-e) + ds
      else
        var n := if |ds| < e then |ds| else e;
        s == WithDot(ds, n) + Zeros(e - n)
  {
    hide WithDot, ExponentText;
  }

  /** The last part of js_dtoa, from the label `output` on. */
  method PutLayout(buf: array<char>, q0: nat, tmp: Bignum, radix: int, p: nat, e: int, mode: ExpMode) returns (q: nat)
    requires ValidRadix(radix) && tmp.Normal() && p >= 1 && -1999 <= e <= 1999
    requires q0 + |Layout(DigitText(tmp.Val(), radix, p), e, radix, mode)| <= buf.Length
    modifies buf, tmp, tmp.tab
    ensures q <= buf.Length && buf[..q] == old(buf[..q0]) + old(Layout(DigitText(tmp.Val(), radix, p), e, radix, mode))
  {
    ghost var ds := DigitText(tmp.Val(), radix, p);
    ghost var text := Layout(ds, e, radix, mode);
    LayoutCases(ds, e, radix, mode);
    var eMax := DTOA_MAX_DIGITS[radix - 2] + 4;
    hide *;
    if mode == ExpEnabled || (mode == ExpAuto && (e <= -6 || e > eMax)) {
      q := PutExponential(buf, q0, tmp, radix, p, e, text);
    } else if e <= 0 {
      q := PutFraction(buf, q0, tmp, radix, p, -e, text);
    } else {
      q := PutWhole(buf, q0, tmp, radix, p, e, text);
    }
  }

  // --- how long the text is ---

  /** js_dtoa_max_len for the free format; without exponents there has to be room for all zeros.
      `lenLog` is the mul_log2_radix that it calls. */
  function MaxLen(radix: int, mode: ExpMode, a: nat, lenLog: int): nat
    requires ValidRadix(radix)
  {
    if mode != ExpDisabled then DTOA_MAX_DIGITS[radix - 2] + 8
    else if a >= INF then 9
    else DTOA_MAX_DIGITS[radix - 2] + 10 + Magnitude(lenLog)
  }

  lemma WithDotLength(s: string, dot: nat)
    requires dot <= |s|
    ensures |WithDot(s, dot)| == |s| + if dot == |s| then 0 else 1
  {
  }

  lemma ExponentLength(e: int, radix: int)
    requires ValidRadix(radix) && -2000 <= e <= 2000
    ensures |ExponentText(e, radix)| <= 6
  {
    hide NumeralText, RadixShift;
    ShiftIsBinary(radix);
    if Text.BinaryRadix(radix) { SmallProduct(e, RadixShift(radix)); }
    var e1 := WrittenExponent(e, radix);
    var n := if e1 < 0 then 0 - e1 else e1;
    PowOne(10);
    PowAdd(10, 2, 2);
    NumeralShort(n, 10, 4);
    NumeralTextSize(n, 10);
  }

  lemma LayoutLength(ds: string, e: int, radix: int, mode: ExpMode)
    requires ValidRadix(radix) && 1 <= |ds| <= DTOA_MAX_DIGITS[radix - 2] && -1080 <= e <= 1080
    ensures mode != ExpDisabled ==> |Layout(ds, e, radix, mode)| < DTOA_MAX_DIGITS[radix - 2] + 8
    ensures mode == ExpDisabled ==> |Layout(ds, e, radix, mode)| <= PlainLength(|ds|, e)
  {
    hide WithDot, ExponentText;
    PrintDigitsRange(radix);
    WithDotLength(ds, 1);
    ExponentLength(e - 1, radix);
    if e > 0 { WithDotLength(ds, if |ds| < e then |ds| else e); }
  }

  /** Small integers have no more digits than the search would print. */
  lemma IntegerLength(n: nat, radix: int)
    requires ValidRadix(radix) && n < 2 * MANT
    ensures |NumeralText(n, radix)| <= DTOA_MAX_DIGITS[radix - 2]
  {
    hide Pow, NumeralText, Numeral;
    PrintDigitsRange(radix);
    NumeralTextSize(n, radix);
    if radix == 2 {
      Pow53();
      PowMono(2, 53, 54);
      NumeralShort(n, 2, 54);
    } else {
      PrintDigits(radix);
      NumeralShort(n, radix, DTOA_MAX_DIGITS[radix - 2] - 1);
    }
  }

  // --- integers ---

  /** The bit pattern is that of the integer n, below 2^53. */
  ghost predicate IsInteger(a: nat, n: nat) {
    0 < n < 2 * MANT && ValueOf(a) == n as real
  }

  /** The test of the fast path. */
  lemma FastInteger(a: nat, m: nat, e: int)
    requires Decoded(a, m, e) && 1 <= e <= 53
    ensures Pow(2, 53 - e) > 0
    ensures m % Pow(2, 53 - e) == 0 ==> IsInteger(a, m / Pow(2, 53 - e))
    ensures m % Pow(2, 53 - e) != 0 ==> forall n: nat :: !IsInteger(a, n)
  {
    hide PowR, Pow, ValueOf, Decoded;
    DecodedValue(a, m, e);
    var p := Pow(2, 53 - e);
    PowRNat(2, 53 - e);
    PowPos(2, 53 - e);
    DivMod(m, p);
    var x := ValueOf(a);
    IntegerTimes(m, p, x);
    forall n: nat
      ensures IsInteger(a, n) ==> m % p == 0
    {
      if IsInteger(a, n) { FromInteger(m, p, n, x); }
    }
    if m % p == 0 { SmallQuotient(m, p); }
  }

  /** x = m / p */
  lemma IntegerTimes(m: nat, p: nat, x: real)
    requires p > 0 && x == m as real * (1.0 / p as real) && m == p * (m / p) + m % p
    ensures x * p as real == m as real && (m % p == 0 ==> x == (m / p) as real)
  {
    InverseTimesOf(m as real, p as real, x);
    if m % p == 0 {
      RealProduct(p, m / p);
      CancelProduct(x, (m / p) as real, p as real);
    }
  }

  lemma InverseTimesOf(v: real, p: real, x: real)
    requires p > 0.0 && x == v * (1.0 / p)
    ensures x * p == v
  {
    var y := 1.0 / p;
    assert y * p == 1.0;
    assert x * p == v * (y * p);
  }

  lemma CancelProduct(x: real, y: real, p: real)
    requires p > 0.0 && x * p == p * y
    ensures x == y
  {
    RealMono(x, y, p);
    RealMono(y, x, p);
  }

  lemma FromInteger(m: nat, p: nat, n: nat, x: real)
    requires p > 0 && x * p as real == m as real && x == n as real
    ensures m % p == 0
  {
    RealProduct(n, p);
    RealMono(x, n as real, p as real);
    RealMono(n as real, x, p as real);
    assert (n * p) as real == m as real;
    DivExact(n, p);
  }

  lemma SmallQuotient(m: nat, p: nat)
    requires p > 0 && MANT <= m < 2 * MANT && m % p == 0
    ensures 0 < m / p < 2 * MANT
  {
    DivMod(m, p);
    MulMono(1, p, m / p);
  }

  /** Outside of these exponents there is no such integer. */
  lemma NotInteger(a: nat, m: nat, e: int)
    requires Decoded(a, m, e) && !(1 <= e <= 53)
    ensures forall n: nat :: !IsInteger(a, n)
  {
    hide PowR, ValueOf, Decoded;
    DecodedBinade(a, m, e);
    var x := ValueOf(a);
    PowROne(2);
    Pow53();
    PowRNat(2, 53);
    if e <= 0 {
      PowRAtLeast(2, 0, e);
    } else {
      PowRAtLeast(2, e - 1, 53);
    }
    forall n: nat
      ensures !IsInteger(a, n)
    {
      if IsInteger(a, n) {
        IntGap(n, 2 * MANT);
        IntGap(0, n);
      }
    }
  }

  // --- js_dtoa ---

  /** The binary exponent of a finite nonzero number. */
  function BinaryExponent(a: nat): int
    requires 0 < a < INF
  {
    if a < MANT then -1021 - LeadingShift(a) else Scale(a)
  }

  lemma DecodedExponent(a: nat, m: nat, e: int)
    requires Decoded(a, m, e)
    ensures e == BinaryExponent(a)
  {
    hide Decoded;
    DecodedCases(a, m, e);
    if a < MANT {
      var m1 := SubnormalDecoded(a);
      DecodedUnique(a, m, e, m1, -1021 - LeadingShift(a));
    }
  }

  lemma DecodedCases(a: nat, m: nat, e: int)
    requires Decoded(a, m, e)
    ensures 0 < a < INF && (a >= MANT ==> e == Scale(a))
  {
  }

  lemma SubnormalDecoded(a: nat) returns (m: nat)
    requires 0 < a < MANT
    ensures Decoded(a, m, -1021 - LeadingShift(a))
  {
    hide Decoded;
    var l := LeadingShift(a);
    m := a * Pow(2, l);
    DecodedSubnormal(a, l);
  }

  lemma DecodedUnique(a: nat, m: nat, e: int, m1: nat, e1: int)
    requires Decoded(a, m, e) && Decoded(a, m1, e1)
    ensures m == m1 && e == e1
  {
    hide ValueOf, Encode, Canonical;
    EncodeInjective(m, e, m1, e1);
  }

  /** What js_dtoa prints; `log` is mul_log2_radix of the binary exponent minus one. */
  ghost predicate IsFreeText(text: string, negative: bool, a: nat, radix: int, mode: ExpMode, minusZero: bool, log: int)
    requires ValidRadix(radix)
  {
    if a > INF then text == "NaN"
    else if a == INF then text == SignText(negative) + "Infinity"
    else if a == 0 then text == SignText(negative && minusZero) + Layout(DigitText(0, radix, 1), 1, radix, mode)
    else if mode != ExpEnabled && (exists n: nat :: IsInteger(a, n)) then
      forall n: nat :: IsInteger(a, n) ==> text == SignText(negative) + NumeralText(n, radix)
    else IsShortText(text, negative, a, radix, mode, log + 1)
  }

  ghost predicate IsShortText(text: string, negative: bool, a: nat, radix: int, mode: ExpMode, e0: int)
    requires ValidRadix(radix)
  {
    exists mant: nat, p: nat, e: int :: IsShort(text, negative, a, radix, mode, e0, mant, p, e)
  }

  ghost predicate IsShort(text: string, negative: bool, a: nat, radix: int, mode: ExpMode, e0: int, mant: nat, p: nat, e: int)
    requires ValidRadix(radix)
  {
    IsFreeFormat(a, radix, e0, mant, p, e) && ShorterFails(a, radix, e0, p) && p >= 1 &&
    text == SignText(negative) + Layout(DigitText(mant, radix, p), e, radix, mode)
  }

  lemma IntegerUnique(a: nat, n: nat, k: nat)
    requires IsInteger(a, n) && IsInteger(a, k)
    ensures n == k
  {
    hide ValueOf;
    IntGap(n, k);
    IntGap(k, n);
  }

  method PutSign(buf: array<char>, negative: bool) returns (q: nat)
    requires buf.Length >= 1
    modifies buf
    ensures q <= 1 && q <= buf.Length && buf[..q] == SignText(negative)
  {
    q := 0;
    if negative {
      buf[0] := '-';
      q := 1;
    }
  }

  /** js_dtoa with JS_DTOA_FORMAT_FREE. `a` has the bits without the sign. A buffer of the length
      that js_dtoa_max_len returns, and one more for the terminating zero, is enough. */
  method JsDtoa(buf: array<char>, negative: bool, a: nat, radix: int, mode: ExpMode, minusZero: bool, log: int, ghost lenLog: int)
    returns (len: nat)
    requires ValidRadix(radix) && a < 0x800 * MANT
    requires 0 < a < INF ==> IsLogFloor(log, BinaryExponent(a) - 1, radix)
    requires 0 <= a < INF ==> IsLogFloor(lenLog, a / MANT - 1024, radix)
    requires buf.Length > MaxLen(radix, mode, a, lenLog)
    modifies buf
    ensures len <= MaxLen(radix, mode, a, lenLog) && buf[len] == '\0'
    ensures IsFreeText(buf[..len], negative, a, radix, mode, minusZero, log)
  {
    hide Layout, DigitText, NumeralText, IsInteger, IsShortText, IsLogFloor, BinaryExponent, MaxLen;
    RoomForWords(radix, mode, a, lenLog);
    if a > INF {
      len := PutWord(buf, 0, "NaN");
    } else if a == INF {
      len := PutSign(buf, negative);
      len := PutWord(buf, len, "Infinity");
    } else if a == 0 {
      len := PutSign(buf, negative && minusZero);
      len := PutZero(buf, len, radix, mode, lenLog);
    } else {
      len := PutNonzero(buf, negative, a, radix, mode, log, lenLog);
    }
    ghost var text := buf[..len];
    buf[len] := '\0';
    assert buf[..len] == text;
  }

  lemma RoomForWords(radix: int, mode: ExpMode, a: nat, lenLog: int)
    requires ValidRadix(radix)
    ensures MaxLen(radix, mode, a, lenLog) >= 9
  {
    PrintDigitsRange(radix);
  }

  /** memcpy of a word */
  method PutWord(buf: array<char>, q0: nat, word: string) returns (q: nat)
    requires q0 + |word| <= buf.Length
    modifies buf
    ensures q == q0 + |word| && buf[..q] == old(buf[..q0]) + word
  {
    q := q0;
    ghost var was := buf[..q0];
    var i := 0;
    while i < |word|
      invariant 0 <= i <= |word| && q == q0 + i && buf[..q] == was + word[..i]
    {
      Assoc(was, word[..i], [word[i]]);
      assert word[..i] + [word[i]] == word[..i + 1];
      q := Put(buf, q, word[i]);
      i := i + 1;
    }
    assert word[..i] == word;
  }

  method PutZero(buf: array<char>, q0: nat, radix: int, mode: ExpMode, ghost lenLog: int) returns (q: nat)
    requires ValidRadix(radix) && buf.Length > MaxLen(radix, mode, 0, lenLog) && q0 <= 1
    modifies buf
    ensures q <= MaxLen(radix, mode, 0, lenLog)
    ensures buf[..q] == old(buf[..q0]) + Layout(DigitText(0, radix, 1), 1, radix, mode)
  {
    hide Layout, DigitText;
    PrintDigitsRange(radix);
    LayoutLength(DigitText(0, radix, 1), 1, radix, mode);
    var tmp := new Bignum(DBIGNUM_LEN_MAX);
    q := PutLayout(buf, q0, tmp, radix, 1, 1, mode);
  }

  method PutNonzero(buf: array<char>, negative: bool, a: nat, radix: int, mode: ExpMode, log: int, ghost lenLog: int)
    returns (len: nat)
    requires ValidRadix(radix) && 0 < a < INF && IsLogFloor(log, BinaryExponent(a) - 1, radix)
    requires IsLogFloor(lenLog, a / MANT - 1024, radix) && buf.Length > MaxLen(radix, mode, a, lenLog)
    modifies buf
    ensures len <= MaxLen(radix, mode, a, lenLog) && IsFreeText(buf[..len], negative, a, radix, mode, false, log)
  {
    hide Layout, DigitText, NumeralText, IsInteger, IsLogFloor, BinaryExponent, MaxLen, Decoded, Pow, IsShortText, Numeral, ValueOf;
    RoomForWords(radix, mode, a, lenLog);
    var m, e := Decode(a);
    DecodedExponent(a, m, e);
    DecodedValue(a, m, e);
    len := PutSign(buf, negative);
    if 1 <= e <= 53 {
      FastInteger(a, m, e);
    } else {
      NotInteger(a, m, e);
    }
    if 1 <= e <= 53 && m % Pow(2, 53 - e) == 0 && mode != ExpEnabled {
      var n := m / Pow(2, 53 - e);
      len := PutInteger(buf, len, a, n, radix, mode, lenLog);
      forall k: nat | IsInteger(a, k)
        ensures k == n
      {
        IntegerUnique(a, n, k);
      }
    } else {
      len := PutShort(buf, len, negative, a, m, e, radix, mode, log + 1, lenLog);
    }
  }

  method PutInteger(buf: array<char>, q0: nat, ghost a: nat, n: nat, radix: int, mode: ExpMode, ghost lenLog: int) returns (q: nat)
    requires ValidRadix(radix) && IsInteger(a, n) && a < INF && buf.Length > MaxLen(radix, mode, a, lenLog) && q0 <= 1
    modifies buf
    ensures q <= MaxLen(radix, mode, a, lenLog) && buf[..q] == old(buf[..q0]) + NumeralText(n, radix)
  {
    hide NumeralText, Numeral, ValueOf;
    IntegerLength(n, radix);
    NumeralTextSize(n, radix);
    PrintDigitsRange(radix);
    ghost var was := buf[..];
    var len := U64toaRadix(buf, q0, n, radix);
    Joined(buf[..], was, q0, len, NumeralText(n, radix));
    q := q0 + len;
  }

  /** The search, and the layout of its result. */
  method PutShort(buf: array<char>, q0: nat, negative: bool, ghost a: nat, m: nat, e: int, radix: int, mode: ExpMode, e0: int,
        ghost lenLog: int)
    returns (q: nat)
    requires ValidRadix(radix) && Decoded(a, m, e) && a < INF && IsLogFloor(e0 - 1, e - 1, radix)
    requires IsLogFloor(lenLog, a / MANT - 1024, radix)
    requires buf.Length > MaxLen(radix, mode, a, lenLog) && q0 <= 1 && q0 <= buf.Length && buf[..q0] == SignText(negative)
    modifies buf
    ensures q <= MaxLen(radix, mode, a, lenLog) && IsShortText(buf[..q], negative, a, radix, mode, e0)
  {
    hide Layout, DigitText, Decoded, Pow, PowR, ValueOf, IsFreeFormat, ShorterFails, Value, IsLogFloor, MaxLen;
    DecodedBinade(a, m, e);
    ExponentBounds(ValueOf(a), e, radix, e0);
    ExponentRange(radix);
    var tmp := new Bignum(DBIGNUM_LEN_MAX);
    var mant, p, e1 := FindShort(tmp, m, e, radix, e0, a);
    ShortBounds(a, radix, e0, mant, p, e1);
    ShortRoom(a, m, e, radix, e0, mant, p, e1, mode, lenLog);
    tmp.SetU64(mant);
    q := PutLayout(buf, q0, tmp, radix, p, e1, mode);
    assert IsShort(buf[..q], negative, a, radix, mode, e0, mant, p, e1);
  }

  /** The bound of js_dtoa_max_len leaves room for the sign. */
  lemma ShortRoom(a: nat, m: nat, e: int, radix: int, e0: int, mant: nat, p: nat, e1: int, mode: ExpMode, lenLog: int)
    requires ValidRadix(radix) && Decoded(a, m, e) && a < INF && Estimated(ValueOf(a), e, radix, e0)
    requires IsFreeFormat(a, radix, e0, mant, p, e1) && ShorterFails(a, radix, e0, p)
    requires IsLogFloor(lenLog, a / MANT - 1024, radix) && -1080 <= e1 <= 1080
    ensures |Layout(DigitText(mant, radix, p), e1, radix, mode)| < MaxLen(radix, mode, a, lenLog)
  {
    ShortBounds(a, radix, e0, mant, p, e1);
    hide Layout, DigitText, Decoded, ValueOf, IsFreeFormat, ShorterFails, IsLogFloor, Estimated, PlainLength, Magnitude, Pow, PowR;
    LayoutLength(DigitText(mant, radix, p), e1, radix, mode);
    if a < MANT {
      DivUnique(a, MANT, 0, a);
      SubnormalLength(a, m, e, radix, e0, p, e1, lenLog);
    } else {
      NormalLength(a, m, e, radix, e0, p, e1, lenLog);
    }
  }

  lemma ShortBounds(a: nat, radix: int, e0: int, mant: nat, p: nat, e: int)
    requires ValidRadix(radix) && IsFreeFormat(a, radix, e0, mant, p, e)
    ensures 1 <= p <= DTOA_MAX_DIGITS[radix - 2] && mant < BASE * BASE && e0 <= e <= e0 + 1
  {
    hide Pow;
    PrintPowers(radix, p);
  }
}
