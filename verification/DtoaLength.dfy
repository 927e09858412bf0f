/** How many digits and zeros the free format takes: js_dtoa_max_len is a bound. */
module DtoaLength {
  import opened DtoaArith
  import opened DtoaReal
  import opened DtoaTables
  import opened DtoaSpec
  import opened DtoaDouble
  import opened DtoaFree

  function Magnitude(x: int): nat {
    if x < 0 then -x else x
  }

  // --- logarithms ---

  lemma LogMono(radix: nat, k: int, a: int, k1: int, a1: int)
    requires radix >= 2 && IsLogFloor(k, a, radix) && IsLogFloor(k1, a1, radix) && a <= a1
    ensures k <= k1
  {
    hide PowR;
    if a < a1 { PowRMono(2, a, a1); }
    if k > k1 { PowRAtLeast(radix, k, k1 + 1); }
  }

  /** One more bit is at most one more digit. */
  lemma LogNext(radix: nat, k: int, a: int, k1: int)
    requires radix >= 2 && IsLogFloor(k, a, radix) && IsLogFloor(k1, a + 1, radix)
    ensures k <= k1 <= k + 1
  {
    hide PowR;
    LogMono(radix, k, a, k1, a + 1);
    PowRNext(2, a);
    PowRNext(radix, k + 1);
    PowRPos(radix, k + 1);
    AtLeastTwice(PowR(radix, k + 1), radix as real, PowR(radix, k + 2));
    if k1 > k + 1 { PowRAtLeast(radix, k1, k + 2); }
  }

  lemma AtLeastTwice(x: real, c: real, y: real)
    requires x > 0.0 && c >= 2.0 && y == c * x
    ensures y >= 2.0 * x
  {
    RealMono(2.0, c, x);
  }

  /** The logarithm of a binary64 exponent. */
  lemma LogRange(radix: nat, k: int, a: int)
    requires radix >= 2 && IsLogFloor(k, a, radix) && -1024 <= a <= 1024
    ensures Magnitude(k) <= 1024
  {
    PowRBase(radix, 1025);
    hide PowR;
    if k > 1024 {
      PowRMono(2, a, 1025);
      PowRAtLeast(radix, k, 1025);
    }
    if k < -1024 {
      PowRAtLeast(radix, -1024, k + 1);
      PowRBase(radix, 1024);
      PowRAtLeast(2, a, -1024);
    }
  }

  lemma PowRBase(radix: nat, n: nat)
    requires radix >= 2
    ensures PowR(radix, n) >= PowR(2, n) && PowR(radix, 0 - n) <= PowR(2, 0 - n)
  {
    PowBaseMono(2, radix, n);
    PowRCompare(radix, n, n);
  }

  // --- subnormal numbers ---

  /** Different numbers are at least 2^-1074 apart. */
  lemma LeastGap(a: nat, b: nat)
    requires a != b
    ensures Abs(ValueOf(a) - ValueOf(b)) >= PowR(2, -1074)
  {
    hide PowR, ValueOf;
    var lo, hi := if a < b then a else b, if a < b then b else a;
    ValueNext(lo);
    PowRAtLeast(2, Scale(lo) - 53, -1074);
    if lo + 1 < hi { ValueMono(lo + 1, hi); }
  }

  lemma VeryClose(a: nat, v: real)
    requires a <= INF && 2.0 * Abs(v - ValueOf(a)) < PowR(2, -1074)
    ensures IsNearest(a, v)
  {
    hide ValueOf, PowR;
    forall b: nat | b <= INF
      ensures IsCloser(v, a, b)
    {
      if b != a { LeastGap(a, b); }
    }
  }

  /** There is a candidate for every precision. */
  lemma CandidateExists(x: real, e: int, radix: nat, e0: int, p: int) returns (mant: nat, e1: int)
    requires radix >= 2 && Estimated(x, e, radix, e0) && p >= 1
    ensures Candidate(x, radix, p, e0, mant, e1)
  {
    FirstTry(x, e, radix, e0, p);
    PowPos(radix, p - 1);
    hide Pow, Digits, Estimated;
    if Digits(x, radix, p - e0) < Pow(radix, p) {
      mant, e1 := Digits(x, radix, p - e0), e0;
    } else {
      SecondTry(x, e, radix, e0, p);
      mant, e1 := Digits(x, radix, p - (e0 + 1)), e0 + 1;
    }
  }

  /** A precision that does not read back is coarse. */
  lemma FailsIsCoarse(a: nat, e: int, radix: int, e0: int, p: nat)
    requires ValidRadix(radix) && a < INF && Estimated(ValueOf(a), e, radix, e0) && p >= 1 && NoneReadsBack(a, radix, e0, p)
    ensures PowR(radix, e0 + 1 - p) >= PowR(2, -1074)
  {
    hide PowR, Estimated, ValueOf, IsNearest, Digits, Pow;
    var mant, e1 := CandidateExists(ValueOf(a), e, radix, e0, p);
    CandidateExponent(ValueOf(a), radix, p, e0, mant, e1);
    hide Candidate;
    var v := DecimalValue(mant, radix, e1 - p);
    assert !IsNearest(a, v);
    RoundingError(ValueOf(a), radix, p - e1, mant, v);
    if 2.0 * Abs(v - ValueOf(a)) < PowR(2, -1074) { VeryClose(a, v); }
    PowRAtLeast(radix, e0 + 1 - p, e1 - p);
  }

  /** Against the logarithm of 2^-1024. */
  lemma CoarseIsNear(radix: int, k: int, i: int)
    requires ValidRadix(radix) && IsLogFloor(k, -1024, radix) && PowR(radix, i) >= PowR(2, -1074)
    ensures i > k - DTOA_MAX_DIGITS[radix - 2]
  {
    hide PowR, Pow;
    var digits: int := DTOA_MAX_DIGITS[radix - 2] - 1;
    FullDigits(radix);
    PowRCompare(radix, digits, 53);
    PowRAdd(radix, k, 0 - digits);
    PowRAdd(2, -1024, -53);
    PowRPos(radix, 0 - digits);
    PowRPos(2, -1024);
    ProductMono(PowR(radix, k), PowR(2, -1024), PowR(radix, 0 - digits), PowR(2, -53), PowR(radix, k - digits), PowR(2, -1077));
    PowRMono(2, -1077, -1074);
    hide *;
    if i <= k - digits - 1 { PowRMono(radix, i, k - digits); }
  }

  lemma ProductMono(a: real, b: real, c: real, d: real, ac: real, bd: real)
    requires a <= b && c <= d && c > 0.0 && b > 0.0 && ac == a * c && bd == b * d
    ensures ac <= bd
  {
    RealMono(a, b, c);
    RealMono(c, d, b);
  }

  lemma FullDigits(radix: int)
    requires ValidRadix(radix)
    ensures DTOA_MAX_DIGITS[radix - 2] >= 1 && Pow(radix, DTOA_MAX_DIGITS[radix - 2] - 1) >= Pow(2, 53)
  {
    PrintDigitsRange(radix);
    Pow53();
    hide Pow;
    if radix > 2 { PrintDigits(radix); }
  }

  // --- the bound ---

  /** Without an exponent: all digits, the zeros between them and the dot, the dot and a zero
      before it. The bound of js_dtoa_max_len allows for the sign and more. */
  function PlainLength(p: nat, e: int): nat {
    if e <= 0 then 2 - e + p else if p + 1 < e then e else p + 1
  }

  lemma NormalLength(a: nat, m: nat, e: int, radix: int, e0: int, p: nat, e1: int, k: int)
    requires ValidRadix(radix) && Decoded(a, m, e) && a >= MANT && Estimated(ValueOf(a), e, radix, e0)
    requires 1 <= p <= DTOA_MAX_DIGITS[radix - 2] && e0 <= e1 <= e0 + 1
    requires IsLogFloor(k, a / MANT - 1024, radix)
    ensures PlainLength(p, e1) <= DTOA_MAX_DIGITS[radix - 2] + 4 + Magnitude(k)
  {
    assert e - 1 == a / MANT - 1024 + 1;
    hide PowR, ValueOf;
    LogNext(radix, k, a / MANT - 1024, e0 - 1);
  }

  lemma SubnormalLength(a: nat, m: nat, e: int, radix: int, e0: int, p: nat, e1: int, k: int)
    requires ValidRadix(radix) && Decoded(a, m, e) && a < MANT && Estimated(ValueOf(a), e, radix, e0)
    requires 1 <= p <= DTOA_MAX_DIGITS[radix - 2] && e0 <= e1 <= e0 + 1 && ShorterFails(a, radix, e0, p)
    requires IsLogFloor(k, -1024, radix)
    ensures PlainLength(p, e1) <= DTOA_MAX_DIGITS[radix - 2] + 4 + Magnitude(k)
  {
    DecodedBinade(a, m, e);
    assert e < -1021;
    EstimateIsNegative(radix, e0, e);
    NegativeLog(radix, k);
    if p > 1 {
      FailsIsCoarse(a, e, radix, e0, p - 1);
      CoarseIsNear(radix, k, e0 + 2 - p);
    } else {
      PowRAtLeast(2, e - 1, -1074);
      assert PowR(radix, e0) >= PowR(2, -1074);
      CoarseIsNear(radix, k, e0);
    }
  }

  lemma EstimateIsNegative(radix: int, e0: int, e: int)
    requires ValidRadix(radix) && IsLogFloor(e0 - 1, e - 1, radix) && e < -1021
    ensures e0 <= 0
  {
    hide PowR;
    PowRMono(2, e - 1, 0);
    PowROne(2);
    PowROne(radix);
    if e0 >= 1 { PowRAtLeast(radix, e0 - 1, 0); }
  }

  lemma NegativeLog(radix: int, k: int)
    requires ValidRadix(radix) && IsLogFloor(k, -1024, radix)
    ensures k < 0
  {
    hide PowR;
    PowRMono(2, -1024, 0);
    PowROne(2);
    PowROne(radix);
    if k >= 0 { PowRAtLeast(radix, k, 0); }
  }
}
