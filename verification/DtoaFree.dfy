/** The free format of js_dtoa: a search for a short digit string that reads back. */
module DtoaFree {
  import opened DtoaArith
  import opened DtoaReal
  import opened DtoaLimbs
  import opened DtoaBignum
  import opened DtoaTables
  import opened DtoaPower
  import opened DtoaRound
  import opened DtoaSpec
  import opened DtoaDouble

  const DBIGNUM_LEN_MAX := 52

  // --- taking a number apart ---

  /** How far a subnormal significand has to be shifted. */
  function LeadingShift(m: nat): (l: nat)
    requires 0 < m < MANT
    ensures l >= 1 && MANT <= m * Pow(2, l) < 2 * MANT
    decreases MANT - m
  {
    assert Pow(2, 1) == 2 * Pow(2, 0);
    if 2 * m >= MANT then 1
    else
      ShiftOne(m, LeadingShift(2 * m));
      LeadingShift(2 * m) + 1
  }

  lemma ShiftOne(m: nat, l: nat)
    ensures m * Pow(2, l + 1) == (2 * m) * Pow(2, l)
  {
    var p := Pow(2, l);
    assert m * (2 * p) == (2 * m) * p;
  }

  lemma {:induction false} ShiftBound(m: nat, l: nat)
    requires m >= 1 && m * Pow(2, l) < 2 * MANT
    ensures l <= 52
  {
    hide Pow;
    Pow53();
    PowPos(2, l);
    MulMono(1, m, Pow(2, l));
    if l > 52 { PowMono(2, 53, l); }
  }

  /** (m, e) are the normalised significand and the exponent of a finite nonzero number. */
  ghost predicate Decoded(a: nat, m: nat, e: int) {
    0 < a < INF && Canonical(m, e) && Encode(m, e) == a && ValueOf(a) == m as real * PowR(2, e - 53) &&
    (if a < MANT then e < -1021 else e == Scale(a) && m == Sig(a))
  }

  /** The first part of js_dtoa, for a finite nonzero number. */
  method Decode(a: nat) returns (m: nat, e: int)
    requires 0 < a < INF
    ensures Decoded(a, m, e)
  {
    e := a / MANT;
    m := a % MANT;
    if e == 0 {
      var l := LeadingShift(m);
      DecodedSubnormal(a, l);
      e := e - (l - 1);
      m := m * Pow(2, l);
    } else {
      m := MANT + m;
      DecodedNormal(a);
    }
    e := e - 1022;
  }

  lemma DecodedSubnormal(a: nat, l: nat)
    requires 0 < a < MANT && l >= 1 && MANT <= a * Pow(2, l) < 2 * MANT
    ensures Decoded(a, a * Pow(2, l), -1021 - l)
  {
    hide PowR, Pow;
    ShiftBound(a, l);
    PowPos(2, l);
    DivExact(a, Pow(2, l));
    SubnormalValue(a, l);
    hide ValueOf;
    assert Lost(-1021 - l) == l;
  }

  lemma SubnormalValue(a: nat, l: nat)
    requires a < MANT
    ensures ValueOf(a) == (a * Pow(2, l)) as real * PowR(2, -1021 - l - 53)
  {
    hide PowR, Pow;
    PowRAdd(2, l, -1021 - l - 53);
    PowRNat(2, l);
    RealProduct(a, Pow(2, l));
    RealAssoc(a as real, PowR(2, l), PowR(2, -1021 - l - 53));
  }

  lemma DecodedNormal(a: nat)
    requires MANT <= a < INF
    ensures Decoded(a, MANT + a % MANT, a / MANT - 1022)
  {
    hide PowR;
    var m, e := MANT + a % MANT, a / MANT - 1022;
    DivMod(a, MANT);
    PowOne(2);
    assert Lost(e) == 0;
    DivUnique(m, MANT, 1, a % MANT);
  }

  // --- how close a decimal has to be ---

  lemma ValueNext(a: nat)
    ensures ValueOf(a + 1) == ValueOf(a) + PowR(2, Scale(a) - 53)
  {
    hide PowR;
    if (a + 1) % MANT == 0 {
      NextBinadeValue(a);
    } else {
      if a >= MANT { DivUnique(a + 1, MANT, a / MANT, a % MANT + 1); }
      NextMultiple(Sig(a), Sig(a + 1), PowR(2, Scale(a) - 53));
    }
  }

  lemma NextMultiple(s: nat, s1: nat, q: real)
    requires s1 == s + 1
    ensures s1 as real * q == s as real * q + q
  {
    assert s1 as real == s as real + 1.0;
  }

  lemma NextBinadeValue(a: nat)
    requires (a + 1) % MANT == 0
    ensures ValueOf(a + 1) == ValueOf(a) + PowR(2, Scale(a) - 53)
  {
    hide PowR;
    DivUnique(a, MANT, (a + 1) / MANT - 1, MANT - 1);
    if a >= MANT {
      PowRNext(2, Scale(a) - 53);
      assert Sig(a) == 2 * MANT - 1 && Sig(a + 1) == MANT && Scale(a + 1) == Scale(a) + 1;
    } else {
      assert Sig(a) == MANT - 1 && Sig(a + 1) == MANT && Scale(a + 1) == Scale(a);
    }
  }

  /** A quarter of the distance between numbers with this exponent. */
  function Quarter(e: int): real {
    PowR(2, e - 55)
  }

  /** The distance to the other numbers is at least this; below a power of two it is halved. */
  function Gap(m: nat, e: int): real {
    if m > MANT then 4.0 * Quarter(e) else 2.0 * Quarter(e)
  }

  lemma QuarterParts(e: int)
    ensures Quarter(e) > 0.0 && PowR(2, e - 53) == 4.0 * Quarter(e) && PowR(2, e - 54) == 2.0 * Quarter(e)
  {
    hide PowR;
    PowRPos(2, e - 55);
    PowRNext(2, e - 55);
    PowRNext(2, e - 54);
  }

  lemma GapBound(a: nat, m: nat, e: int, b: nat)
    requires Decoded(a, m, e) && b != a
    ensures Abs(ValueOf(a) - ValueOf(b)) >= Gap(m, e)
  {
    hide PowR, ValueOf, Encode, Canonical;
    QuarterParts(e);
    if b > a {
      ValueNext(a);
      ScaleAbove(a, e, e - 53);
      if b > a + 1 { ValueMono(a + 1, b); }
    } else {
      ValueNext(a - 1);
      assert a - 1 + 1 == a;
      ScaleBelow(a, m, e);
      ScaleAbove(a - 1, Scale(a - 1), if m > MANT || a < 2 * MANT then e - 53 else e - 54);
      if b < a - 1 { ValueMono(b, a - 1); }
    }
  }

  lemma ScaleAbove(a: nat, e: int, t: int)
    requires Scale(a) >= e && t <= e - 53
    ensures PowR(2, Scale(a) - 53) >= PowR(2, t)
  {
    if t < Scale(a) - 53 { PowRMono(2, t, Scale(a) - 53); }
  }

  lemma ScaleBelow(a: nat, m: nat, e: int)
    requires Decoded(a, m, e)
    ensures Scale(a) >= e && Scale(a - 1) >= (if m > MANT || a < 2 * MANT then e else e - 1)
    ensures Canonical(m, e) && m >= MANT
  {
    hide PowR, ValueOf, Encode;
    if a >= MANT {
      if a % MANT > 0 {
        DivUnique(a - 1, MANT, a / MANT, a % MANT - 1);
      } else {
        DivUnique(a - 1, MANT, a / MANT - 1, MANT - 1);
      }
    }
  }

  /** Less than half the distance away, it is the nearest number. */
  lemma CloseIsNearest(a: nat, m: nat, e: int, v: real)
    requires Decoded(a, m, e) && 2.0 * Abs(v - ValueOf(a)) < Gap(m, e)
    ensures IsNearest(a, v)
  {
    hide ValueOf, Gap, Encode, Canonical;
    forall b: nat | b <= INF
      ensures IsCloser(v, a, b)
    {
      if b != a { GapBound(a, m, e, b); }
    }
  }

  // --- the candidates ---

  /** mul_log2_radix(a, radix) == k */
  ghost predicate IsLogFloor(k: int, a: int, radix: nat)
    requires radix > 0
  {
    PowR(radix, k) <= PowR(2, a) < PowR(radix, k + 1)
  }

  /** x * radix^i, rounded to an integer. */
  ghost function Digits(x: real, radix: nat, i: int): int
    requires radix > 0
  {
    RoundReal(x * PowR(radix, i), NearestEven)
  }

  /** The nearest number with P digits is mant * radix^(E - P); E is e0, or e0 + 1 if that
      would take more digits. */
  ghost predicate Candidate(x: real, radix: nat, p: int, e0: int, mant: nat, e: int)
    requires radix > 0 && p >= 0
  {
    mant < Pow(radix, p) && mant == Digits(x, radix, p - e) &&
    (e == e0 || (e == e0 + 1 && Digits(x, radix, p - e0) >= Pow(radix, p)))
  }

  /** There is one candidate only. */
  lemma CandidateUnique(x: real, radix: nat, p: int, e0: int, mant: nat, e: int, mant1: nat, e1: int)
    requires radix > 0 && p >= 0
    requires Candidate(x, radix, p, e0, mant, e) && Candidate(x, radix, p, e0, mant1, e1)
    ensures mant == mant1 && e == e1
  {
    hide *;
    CandidateCases(x, radix, p, e0, mant, e);
    CandidateCases(x, radix, p, e0, mant1, e1);
  }

  lemma CandidateCases(x: real, radix: nat, p: int, e0: int, mant: nat, e: int)
    requires radix > 0 && p >= 0 && Candidate(x, radix, p, e0, mant, e)
    ensures if Digits(x, radix, p - e0) < Pow(radix, p) then e == e0 && mant == Digits(x, radix, p - e0)
      else e == e0 + 1 && mant == Digits(x, radix, p - (e0 + 1))
  {
    hide Digits, Pow;
    if e == e0 {
    } else {
      assert p - e == p - (e0 + 1);
    }
  }

  /** A number and its exponent estimate: radix^(E0 - 1) <= 2^(e - 1) <= x < 2^e, 2^(e - 1) < radix^E0. */
  ghost predicate Estimated(x: real, e: int, radix: nat, e0: int)
    requires radix > 0
  {
    InBinade(x, e) && IsLogFloor(e0 - 1, e - 1, radix)
  }

  lemma DecodedBinade(a: nat, m: nat, e: int)
    requires Decoded(a, m, e)
    ensures InBinade(ValueOf(a), e) && MANT <= m < 2 * MANT && -1073 <= e <= 1024
  {
    hide PowR, Encode, Sig, Scale;
    PowRPos(2, e - 53);
    PowRAdd(2, 52, e - 53);
    PowRAdd(2, 53, e - 53);
    Pow52();
    PowRNext(2, 52);
    var u := PowR(2, e - 53);
    IntGap(m, 2 * MANT);
    IntGap(m, MANT);
    RealMono(m as real, (2 * MANT) as real, u);
    RealMono(MANT as real, m as real, u);
  }

  lemma EstimateBounds(x: real, e: int, radix: nat, e0: int)
    requires radix >= 2 && Estimated(x, e, radix, e0)
    ensures PowR(radix, e0 - 1) <= x < 2.0 * PowR(radix, e0)
    ensures radix == 2 ==> e0 == e && x < PowR(radix, e0)
  {
    hide PowR;
    PowRNext(2, e - 1);
    if radix == 2 {
      if e0 < e {
        if e0 < e - 1 { PowRMono(2, e0, e - 1); }
      } else if e0 > e {
        PowRMono(2, e - 1, e0 - 1);
      }
    }
  }

  /** Multiplying a bound by a power. */
  lemma Scaled(x: real, y: real, radix: nat, i: int, j: int, k: int)
    requires radix > 0 && y == x * PowR(radix, j) && k == i + j
    ensures PowR(radix, i) <= x ==> PowR(radix, k) <= y
    ensures x < PowR(radix, i) ==> y < PowR(radix, k)
    ensures x < 2.0 * PowR(radix, i) ==> y < 2.0 * PowR(radix, k)
  {
    hide PowR;
    PowRPos(radix, j);
    PowRAdd(radix, i, j);
    var p, q := PowR(radix, i), PowR(radix, j);
    RealMono(p, x, q);
    RealMono(x, p, q);
    RealMono(x, 2.0 * p, q);
    assert (2.0 * p) * q == 2.0 * (p * q);
  }

  /** The first estimate gives at least P digits, and fewer than 2 * radix^P. */
  lemma FirstTry(x: real, e: int, radix: nat, e0: int, p: int)
    requires radix >= 2 && Estimated(x, e, radix, e0) && p >= 1
    ensures Pow(radix, p - 1) <= Digits(x, radix, p - e0) <= 2 * Pow(radix, p)
  {
    hide Pow, PowR, RoundReal, Estimated;
    EstimateBounds(x, e, radix, e0);
    var y := x * PowR(radix, p - e0);
    Scaled(x, y, radix, e0 - 1, p - e0, p - 1);
    Scaled(x, y, radix, e0, p - e0, p);
    PowRNat(radix, p - 1);
    PowRNat(radix, p);
    assert (2 * Pow(radix, p)) as real == 2.0 * Pow(radix, p) as real;
    RoundMono(Pow(radix, p - 1) as real, y, NearestEven);
    RoundInteger(Pow(radix, p - 1), NearestEven);
    RoundMono(y, (2 * Pow(radix, p)) as real, NearestEven);
    RoundInteger(2 * Pow(radix, p), NearestEven);
  }

  /** The second estimate is needed only if there are too many digits, and then it fits. */
  lemma SecondTry(x: real, e: int, radix: nat, e0: int, p: int)
    requires radix >= 2 && Estimated(x, e, radix, e0) && p >= 1 && Digits(x, radix, p - e0) >= Pow(radix, p)
    ensures Pow(radix, p - 1) <= Digits(x, radix, p - (e0 + 1)) < Pow(radix, p)
    ensures x * PowR(radix, p - e0) >= Pow(radix, p) as real - 0.5
  {
    hide Pow, PowR, RoundReal, Estimated;
    EstimateBounds(x, e, radix, e0);
    var y := x * PowR(radix, p - e0);
    var z := x * PowR(radix, p - (e0 + 1));
    Scaled(x, z, radix, e0, p - (e0 + 1), p - 1);
    PowRNat(radix, p - 1);
    PowRNext(radix, p - (e0 + 1));
    PowR1(radix, p);
    PowPos(radix, p - 1);
    RealAssoc(x, PowR(radix, p - (e0 + 1)), radix as real);
    RoundPicksNearest(y, 0);
    IntGap(Digits(x, radix, p - e0), Pow(radix, p));
    SecondCore(y, z, radix, Pow(radix, p - 1), Pow(radix, p));
  }

  lemma PowR1(radix: nat, p: nat)
    requires p >= 1
    ensures Pow(radix, p) == radix * Pow(radix, p - 1)
  {
  }

  lemma SecondCore(y: real, z: real, radix: nat, q: nat, r: nat)
    requires radix >= 2 && r == radix * q && q >= 1 && y == z * radix as real && y >= r as real - 0.5
    requires z < 2.0 * q as real && (radix == 2 ==> z < q as real)
    ensures q <= RoundReal(z, NearestEven) < r
  {
    hide RoundReal;
    BelowByLess(z, q, radix, y);
    RoundPicksNearest(z, q);
    var n := RoundReal(z, NearestEven);
    if n < q { IntGap(n, q); }
    if radix == 2 {
      RoundMono(z, q as real, NearestEven);
      RoundInteger(q, NearestEven);
    } else {
      RoundMono(z, (2 * q) as real, NearestEven);
      RoundInteger(2 * q, NearestEven);
      MulMono(3, radix, q);
    }
  }

  lemma BelowByLess(z: real, q: nat, radix: nat, y: real)
    requires radix >= 2 && y == z * radix as real && y >= (radix * q) as real - 0.5
    ensures z > q as real - 0.5
  {
    var r, d := radix as real, z - q as real;
    RealProduct(radix, q);
    assert d * r == z * r - q as real * r;
    if d <= -0.5 {
      RealMono(d, -0.5, r);
    }
  }

  // --- DTOA_MAX_DIGITS digits always read back ---

  /** Rounding to a multiple of radix^-i moves a number by at most half of it. */
  lemma RoundingError(x: real, radix: nat, i: int, n: int, v: real)
    requires radix > 0 && n == Digits(x, radix, i) && v == n as real * PowR(radix, -i)
    ensures 2.0 * Abs(v - x) <= PowR(radix, -i)
  {
    hide PowR, RoundReal;
    var q, u := x * PowR(radix, i), PowR(radix, -i);
    PowRPos(radix, -i);
    PowRAdd(radix, i, -i);
    PowROne(radix);
    UndoScale(x, PowR(radix, i), u, q);
    RoundPicksNearest(q, 0);
    ErrorCore(x, u, q, n as real, v);
  }

  lemma UndoScale(x: real, p: real, w: real, q: real)
    requires q == x * p && p * w == 1.0
    ensures q * w == x
  {
    assert q * w == x * (p * w);
  }

  lemma ErrorCore(x: real, u: real, q: real, n: real, v: real)
    requires u > 0.0 && q * u == x && v == n * u && Abs(q - n) <= 0.5
    ensures 2.0 * Abs(v - x) <= u
  {
    MultipleDistance(x, u, q, n);
    HalfUnit(Abs(q - n), u, Abs(x - v));
  }

  lemma HalfUnit(s: real, u: real, w: real)
    requires u > 0.0 && s <= 0.5 && w == u * s
    ensures 2.0 * w <= u
  {
    RealMono(s, 0.5, u);
  }

  lemma StepBelow(d: real, t: real, b: real, g: real, s: real)
    requires d * t == b && t > 0.0 && b < s && s <= g * t
    ensures d < g
  {
    RealMono(g, d, t);
  }

  lemma GapTimes(m: nat, e: int, t: nat)
    requires MANT <= m < 2 * MANT && t > 2 * MANT
    ensures m as real * PowR(2, e - 53) + Quarter(e) < Gap(m, e) * t as real
  {
    hide PowR, Quarter;
    QuarterParts(e);
    GapCore(m, t, Quarter(e), PowR(2, e - 53), Gap(m, e));
  }

  lemma GapCore(m: nat, t: nat, u: real, q: real, g: real)
    requires MANT <= m < 2 * MANT && t > 2 * MANT && u > 0.0 && q == 4.0 * u && g == if m > MANT then 4.0 * u else 2.0 * u
    ensures m as real * q + u < g * t as real
  {
    FourTimes(m, u, q);
    if m > MANT {
      FourMore(m, t, u, g);
    } else {
      TwoTimes(t, u, g);
    }
  }

  lemma FourMore(m: nat, t: nat, u: real, g: real)
    requires m < t && u > 0.0 && g == 4.0 * u
    ensures (4 * m) as real * u + u < g * t as real
  {
    FourTimes(t, u, g);
    RealMono((4 * m + 1) as real, (4 * t) as real, u);
    assert (4 * m + 1) as real * u == (4 * m) as real * u + u;
  }

  lemma FourTimes(m: nat, u: real, q: real)
    requires q == 4.0 * u
    ensures m as real * q == (4 * m) as real * u
  {
    assert (4 * m) as real == 4.0 * m as real;
  }

  lemma TwoTimes(t: nat, u: real, g: real)
    requires u > 0.0 && t > 2 * MANT && g == 2.0 * u
    ensures g * t as real > (4 * MANT) as real * u + u
  {
    assert t as real >= 2.0 * MANT as real + 1.0;
    RealMono(2.0 * MANT as real + 1.0, t as real, g);
  }

  /** A unit in the last of p digits is smaller than the gap to the next number. */
  lemma LastDigitBelowGap(a: nat, m: nat, e: int, radix: nat, e0: int, p: nat, mant: nat, e1: int)
    requires Decoded(a, m, e) && radix >= 2 && p >= 1 && Pow(radix, p - 1) > 2 * MANT
    requires Estimated(ValueOf(a), e, radix, e0) && Candidate(ValueOf(a), radix, p, e0, mant, e1)
    ensures PowR(radix, e1 - p) < Gap(m, e)
  {
    hide Pow, PowR, RoundReal, Decoded, ValueOf, Gap, Estimated, Digits;
    var x, t := ValueOf(a), Pow(radix, p - 1);
    DecodedValue(a, m, e);
    GapTimes(m, e, t);
    QuarterParts(e);
    PowRNat(radix, p - 1);
    PowRAdd(radix, p - 1, e1 - p);
    if e1 == e0 {
      EstimateBounds(x, e, radix, e0);
    } else {
      SecondTry(x, e, radix, e0, p);
      SecondBelow(x, m, e, radix, e0, p);
    }
    assert PowR(radix, e1 - 1) <= x + Quarter(e);
    StepBelow(PowR(radix, e1 - p), t as real, PowR(radix, e1 - 1), Gap(m, e), Gap(m, e) * t as real);
  }

  lemma DecodedValue(a: nat, m: nat, e: int)
    requires Decoded(a, m, e)
    ensures ValueOf(a) == m as real * PowR(2, e - 53) && MANT <= m < 2 * MANT
  {
  }

  lemma SecondBelow(x: real, m: nat, e: int, radix: nat, e0: int, p: nat)
    requires radix >= 2 && p >= 1 && Pow(radix, p - 1) > 2 * MANT && Estimated(x, e, radix, e0)
    requires x * PowR(radix, p - e0) >= Pow(radix, p) as real - 0.5
    ensures PowR(radix, e0) <= x + Quarter(e)
  {
    hide Pow, PowR;
    var d := PowR(radix, e0 - p);
    PowRPos(radix, e0 - p);
    var q := x * PowR(radix, p - e0);
    PowRAdd(radix, p - e0, e0 - p);
    PowROne(radix);
    RealAssoc(x, PowR(radix, p - e0), d);
    PowRNat(radix, p);
    PowRAdd(radix, p, e0 - p);
    UnderByHalf(q, PowR(radix, p), d, x, PowR(radix, e0));
    // the last digit is worth less than half a quarter
    PowRNat(radix, p - 1);
    PowRAdd(radix, p - 1, e0 - p);
    QuarterParts(e);
    PowRAdd(2, 54, e - 55);
    Pow53();
    PowRNat(2, 54);
    PowAdd(2, 53, 1);
    PowOne(2);
    HalfLast(d, Pow(radix, p - 1), PowR(radix, e0 - 1), Quarter(e), PowR(2, e - 1));
  }

  lemma UnderByHalf(q: real, r: real, d: real, x: real, b: real)
    requires d > 0.0 && q >= r - 0.5 && q * d == x && r * d == b
    ensures b <= x + 0.5 * d
  {
    RealMono(r - 0.5, q, d);
    assert (r - 0.5) * d == r * d - 0.5 * d;
  }

  lemma HalfLast(d: real, t: nat, b: real, u: real, h: real)
    requires u > 0.0 && t > 2 * MANT && t as real * d == b && b <= h && h == (4 * MANT) as real * u
    ensures d < 2.0 * u
  {
    var g := 2.0 * u;
    TwoTimes(t, u, g);
    RealMono(g, d, t as real);
  }

  /** The first precision tried is enough: the source takes it without reading it back. */
  lemma FullPrecision(a: nat, m: nat, e: int, radix: int, e0: int, mant: nat, e1: int, v: real)
    requires Decoded(a, m, e) && ValidRadix(radix)
    requires Estimated(ValueOf(a), e, radix, e0)
    requires Candidate(ValueOf(a), radix, DTOA_MAX_DIGITS[radix - 2], e0, mant, e1)
    requires v == mant as real * PowR(radix, e1 - DTOA_MAX_DIGITS[radix - 2])
    ensures IsNearest(a, v)
  {
    hide Pow, PowR, RoundReal, Decoded, ValueOf, Gap, Estimated, IsNearest;
    var p := DTOA_MAX_DIGITS[radix - 2];
    var x := ValueOf(a);
    PrintDigitsRange(radix);
    if radix == 2 {
      BinaryIsExact(a, m, e, e0, mant, e1, v);
    } else {
      PrintDigits(radix);
      RoundingError(x, radix, p - e1, mant, v);
      LastDigitBelowGap(a, m, e, radix, e0, p, mant, e1);
      CloseIsNearest(a, m, e, v);
    }
  }

  /** 54 binary digits are exact. */
  lemma BinaryIsExact(a: nat, m: nat, e: int, e0: int, mant: nat, e1: int, v: real)
    requires Decoded(a, m, e) && Estimated(ValueOf(a), e, 2, e0) && Candidate(ValueOf(a), 2, 54, e0, mant, e1)
    requires v == mant as real * PowR(2, e1 - 54)
    ensures IsNearest(a, v)
  {
    hide Pow, PowR, RoundReal, Decoded, ValueOf, Gap, Estimated, IsNearest;
    var x := ValueOf(a);
    DecodedValue(a, m, e);
    EstimateBounds(x, e, 2, e0);
    PowRAdd(2, e - 53, 54 - e);
    PowROne(2);
    hide Digits;
    var y := x * PowR(2, 54 - e);
    RealTimesEq(x, m as real, PowR(2, e - 53), PowR(2, 54 - e), y, 2.0);
    DigitsInteger(x, 2, 54 - e, 2 * m, y);
    Pow53();
    PowAdd(2, 53, 1);
    PowOne(2);
    assert e1 == e && mant == 2 * m;
    PowRNext(2, e - 54);
    DoubleHalf(m, PowR(2, e - 54));
    GapPositive(m, e);
    CloseIsNearest(a, m, e, v);
  }

  lemma DigitsInteger(x: real, radix: nat, i: int, n: int, y: real)
    requires radix > 0 && y == x * PowR(radix, i) && y == n as real
    ensures Digits(x, radix, i) == n
  {
    hide PowR;
    RoundInteger(n, NearestEven);
  }

  lemma RealTimesEq(x: real, a: real, b: real, c: real, y: real, d: real)
    requires x == a * b && y == x * c && d == b * c
    ensures y == a * d
  {
    assert y == a * (b * c);
  }

  lemma DoubleHalf(m: nat, q: real)
    ensures (2 * m) as real * q == m as real * (2.0 * q)
  {
    assert (2 * m) as real == m as real * 2.0;
  }

  lemma GapPositive(m: nat, e: int)
    ensures Gap(m, e) > 0.0
  {
    QuarterParts(e);
  }

  // --- room for the powers ---

  lemma ExponentBounds(x: real, e: int, radix: int, e0: int)
    requires ValidRadix(radix) && Estimated(x, e, radix, e0) && -1073 <= e <= 1024
    ensures MIN_EXPONENT[radix - 2] < e0 <= MAX_EXPONENT[radix - 2]
  {
    hide Pow, PowR;
    var max, min: int := MAX_EXPONENT[radix - 2], MIN_EXPONENT[radix - 2];
    MaxExponent(radix);
    MinExponent(radix);
    PowRCompare(radix, max, 1024);
    PowRCompare(radix, -min, 1075);
    if e0 > max {
      PowRAtLeast(radix, e0 - 1, max);
      PowRMono(2, e - 1, 1024);
    }
    if e0 <= min {
      PowRAtLeast(radix, min, e0);
      PowRMono(2, -1075, e - 1);
    }
  }

  lemma DigitsOrder(radix: int)
    requires ValidRadix(radix)
    ensures DTOA_MAX_DIGITS[radix - 2] <= ATOD_MAX_DIGITS[radix - 2]
  {
  }

  /** The power of the odd part takes at most 43 limbs. */
  lemma FewLimbs(x: real, e: int, radix: int, e0: int, p: nat, e1: int)
    requires ValidRadix(radix) && Estimated(x, e, radix, e0) && -1073 <= e <= 1024
    requires 1 <= p <= DTOA_MAX_DIGITS[radix - 2] && e0 <= e1 <= e0 + 1
    ensures ValidOddRadix(OddPart(radix))
    ensures DigitLimbs(OddPart(radix), if p - e1 >= 0 then p - e1 else e1 - p) <= 43
  {
    hide Estimated, OddPart;
    ExponentBounds(x, e, radix, e0);
    DigitsOrder(radix);
    var odd := OddPart(radix);
    PowersAreShort(radix);
    OddIsOdd(radix);
    if odd != 1 {
      DigitsRange(odd);
      ChunksWithin(if p - e1 >= 0 then p - e1 else e1 - p, DIGITS_PER_LIMB[odd - 2]);
    }
  }

  lemma OddIsOdd(radix: int)
    requires ValidRadix(radix)
    ensures ValidOddRadix(OddPart(radix))
  {
  }

  lemma AtLeastOne(odd: nat, f: int)
    requires odd > 0 && (f >= 0 || odd == 1)
    ensures PowR(odd, f) >= 1.0
  {
    hide Pow;
    if f >= 0 {
      PowPos(odd, f);
    } else {
      OnePowR(f);
    }
  }

  /** If nothing is divided, the exact product has few bits: hardly any shift up. */
  lemma SmallShift(x: real, e: int, radix: int, e0: int, p: nat, e1: int)
    requires ValidRadix(radix) && Estimated(x, e, radix, e0)
    requires 1 <= p <= DTOA_MAX_DIGITS[radix - 2] && e0 <= e1 <= e0 + 1
    requires p - e1 >= 0 || OddPart(radix) == 1
    ensures (e - 53) + (p - e1) * RadixShift(radix) < 32
  {
    hide Pow, PowR, OddPart, RadixShift;
    var f, bits := p - e1, RadixShift(radix);
    var y := x * PowR(radix, f);
    EstimateBounds(x, e, radix, e0);
    Scaled(x, y, radix, e0, f, e0 + p - e1);
    PowRAtLeast(radix, p, e0 + p - e1);
    PowMono(radix, p, DTOA_MAX_DIGITS[radix - 2]);
    PrintDigitsFit(radix);
    PowRNat(radix, p);
    assert y < PowR(2, 64) by {
      Pow64();
      PowRNat(2, 64);
      IntGap(2 * Pow(radix, p), BASE * BASE);
      assert (2 * Pow(radix, p)) as real == 2.0 * Pow(radix, p) as real;
    }
    AboveBinary(radix, f);
    PowRPos(2, f * bits);
    PowRPos(2, e - 1);
    AtLeastProduct(x, PowR(2, e - 1), PowR(radix, f), PowR(2, f * bits), y);
    PowRAdd(2, e - 1, f * bits);
    if e - 1 + f * bits >= 64 { PowRAtLeast(2, e - 1 + f * bits, 64); }
  }

  /** radix^f >= 2^(f * shift), unless the odd part is divided by. */
  lemma AboveBinary(radix: int, f: int)
    requires ValidRadix(radix) && (f >= 0 || OddPart(radix) == 1)
    ensures PowR(radix, f) >= PowR(2, f * RadixShift(radix))
  {
    hide Pow, PowR, OddPart, RadixShift;
    var bits := RadixShift(radix);
    RadixParts(radix);
    RadixPower(OddPart(radix), bits, f);
    AtLeastOne(OddPart(radix), f);
    PowRPos(2, f * bits);
    FactorAbove(PowR(OddPart(radix), f), PowR(2, f * bits));
  }

  lemma FactorAbove(a: real, b: real)
    requires a >= 1.0 && b > 0.0
    ensures a * b >= b
  {
    RealMono(1.0, a, b);
    assert 1.0 * b == b;
  }

  lemma AtLeastProduct(x: real, a: real, p: real, b: real, y: real)
    requires a <= x && b <= p && b > 0.0 && a > 0.0 && y == x * p
    ensures a * b <= y
  {
    RealMono(a, x, b);
    RealMono(b, p, x);
  }

  lemma Pow64()
    ensures Pow(2, 64) == BASE * BASE
  {
    Pow32();
    PowAdd(2, 32, 32);
  }

  /** DBIGNUM_LEN_MAX limbs are enough for mul_pow_round. */
  lemma RoomFits(x: real, e: int, radix: int, e0: int, p: nat, e1: int)
    requires ValidRadix(radix) && Estimated(x, e, radix, e0) && -1073 <= e <= 1024
    requires 1 <= p <= DTOA_MAX_DIGITS[radix - 2] && e0 <= e1 <= e0 + 1
    ensures ValidOddRadix(OddPart(radix)) && PowerRoom(OddPart(radix), RadixShift(radix), p - e1, e - 53) <= 49
  {
    hide Estimated, OddPart, RadixShift, DigitLimbs;
    FewLimbs(x, e, radix, e0, p, e1);
    if p - e1 >= 0 || OddPart(radix) == 1 {
      SmallShift(x, e, radix, e0, p, e1);
    } else {
      MulNonneg(e1 - p, RadixShift(radix));
      assert (p - e1) * RadixShift(radix) == 0 - (e1 - p) * RadixShift(radix);
    }
  }

  // --- the search ---

  /** The number that `mant` stands for, with its last digit at e - p. */
  ghost function DecimalValue(mant: nat, radix: nat, i: int): real
    requires radix > 0
  {
    mant as real * PowR(radix, i)
  }

  /** Before and after multiplying by a power of the radix. */
  lemma RoundedDigits(x: real, m: nat, e: int, radix: int, f: int, y: real)
    requires ValidRadix(radix) && x == m as real * PowR(2, e) && y == x * PowR(radix, f)
    ensures OddPart(radix) * Pow(2, RadixShift(radix)) == radix
    ensures y == m as real * PowR(radix, f) * PowR(2, e) && Digits(x, radix, f) == RoundReal(y, NearestEven)
  {
    hide Pow, PowR, OddPart, RadixShift, RoundReal, Digits;
    RadixParts(radix);
    SwapFactors(x, m as real, PowR(2, e), PowR(radix, f), y);
    DigitsAre(x, radix, f, y);
  }

  lemma DigitsAre(x: real, radix: nat, f: int, y: real)
    requires radix > 0 && y == x * PowR(radix, f)
    ensures Digits(x, radix, f) == RoundReal(y, NearestEven)
  {
  }

  lemma SwapFactors(x: real, m: real, b: real, p: real, y: real)
    requires x == m * b && y == x * p
    ensures y == m * p * b
  {
  }

  /** One precision: the inner loop of the search, with the exponent corrected if the estimate
      gives too many digits. */
  method FindMantissa(tmp: Bignum, m: nat, e: int, radix: int, p: nat, e0: int, ghost a: nat) returns (mant: nat, e1: int)
    requires ValidRadix(radix) && Decoded(a, m, e) && Estimated(ValueOf(a), e, radix, e0)
    requires 1 <= p <= DTOA_MAX_DIGITS[radix - 2] && tmp.Valid() && tmp.tab.Length == DBIGNUM_LEN_MAX
    modifies tmp, tmp.tab
    ensures tmp.Normal() && Candidate(ValueOf(a), radix, p, e0, mant, e1) && mant >= Pow(radix, p - 1)
  {
    hide Pow, PowR, Decoded, Estimated, ValueOf, Value, OddPart, RadixShift, PowerRoom, Digits, RoundReal;
    ghost var x := ValueOf(a);
    DecodedValue(a, m, e);
    DecodedBinade(a, m, e);
    PrintPowers(radix, p);
    var mantMax := PowUi(radix, p);
    e1 := e0;
    FirstTry(x, e, radix, e0, p);
    while true
      invariant tmp.Valid() && (e1 == e0 || (e1 == e0 + 1 && Digits(x, radix, p - e0) >= Pow(radix, p)))
      decreases e0 + 1 - e1
    {
      RoomFits(x, e, radix, e0, p, e1);
      ghost var y := x * PowR(radix, p - e1);
      RoundedDigits(x, m, e - 53, radix, p - e1, y);
      if e1 != e0 { SecondTry(x, e, radix, e0, p); }
      MulPowRound(tmp, m, e - 53, OddPart(radix), RadixShift(radix), p - e1, NearestEven, y);
      mant := tmp.GetU64();
      if mant < mantMax {
        break;
      }
      e1 := e1 + 1;
    }
  }

  lemma PrintPowers(radix: int, p: nat)
    requires ValidRadix(radix) && p <= DTOA_MAX_DIGITS[radix - 2]
    ensures 2 * Pow(radix, p) < BASE * BASE
  {
    hide Pow;
    PrintDigitsFit(radix);
    PowMono(radix, p, DTOA_MAX_DIGITS[radix - 2]);
  }

  /** Removes zeros at the end. */
  method StripZeros(mant0: nat, p0: nat, radix: int, ghost e: int) returns (mant: nat, p: nat)
    requires ValidRadix(radix) && p0 >= 1 && Pow(radix, p0 - 1) <= mant0 < Pow(radix, p0)
    ensures mant % radix != 0 && 1 <= p <= p0 && Pow(radix, p - 1) <= mant < Pow(radix, p)
    ensures mant0 == mant * Pow(radix, p0 - p)
    ensures DecimalValue(mant, radix, e - p) == DecimalValue(mant0, radix, e - p0)
  {
    hide Pow;
    mant, p := mant0, p0;
    PowOne(radix);
    PowPos(radix, p0 - 1);
    while mant % radix == 0
      invariant 1 <= p <= p0 && Pow(radix, p - 1) <= mant < Pow(radix, p) && mant > 0
      invariant mant0 == mant * Pow(radix, p0 - p)
      decreases p
    {
      StripOne(mant0, mant, p0, p, radix);
      mant := mant / radix;
      p := p - 1;
    }
    SameDecimal(mant, mant0, radix, e, p0, p);
  }

  lemma StripOne(mant0: nat, mant: nat, p0: nat, p: nat, radix: nat)
    requires radix >= 2 && 1 <= p <= p0 && Pow(radix, p - 1) <= mant < Pow(radix, p) && mant % radix == 0 && mant > 0
    requires mant0 == mant * Pow(radix, p0 - p)
    ensures p >= 2 && Pow(radix, p - 2) <= mant / radix < Pow(radix, p - 1) && mant / radix > 0
    ensures mant0 == (mant / radix) * Pow(radix, p0 - (p - 1))
  {
    var q := mant / radix;
    DivMod(mant, radix);
    PowOne(radix);
    PowR1(radix, p);
    PowR1(radix, p0 - p + 1);
    if p > 1 { PowR1(radix, p - 1); }
    hide Pow;
    StripSome(q, mant, radix);
    if p > 1 {
      StripBounds(q, mant, radix, Pow(radix, p - 2), Pow(radix, p - 1));
    }
    StripFactor(q, mant, radix, Pow(radix, p0 - p));
  }

  lemma StripSome(q: nat, mant: nat, radix: nat)
    requires mant == radix * q && mant > 0
    ensures q >= 1 && mant >= radix
  {
    MulMono(1, q, radix);
  }

  lemma StripBounds(q: nat, mant: nat, radix: nat, lo: nat, hi: nat)
    requires radix >= 2 && mant == radix * q && hi == radix * lo && hi <= mant < radix * hi && mant > 0
    ensures lo <= q < hi && q > 0
  {
    MulCancel(q, hi, radix);
    MulCancel(lo, q, radix);
  }

  lemma StripFactor(q: nat, mant: nat, radix: nat, p: nat)
    requires mant == radix * q
    ensures mant * p == q * (radix * p)
  {
  }

  lemma SameDecimal(mant: nat, mant0: nat, radix: nat, e: int, p0: nat, p: nat)
    requires radix > 0 && p <= p0 && mant0 == mant * Pow(radix, p0 - p)
    ensures DecimalValue(mant, radix, e - p) == DecimalValue(mant0, radix, e - p0)
  {
    hide Pow, PowR;
    PowRNat(radix, p0 - p);
    PowRAdd(radix, p0 - p, e - p0);
    RealProduct(mant, Pow(radix, p0 - p));
    RealAssoc(mant as real, PowR(radix, p0 - p), PowR(radix, e - p0));
  }

  /** A number nearest to x with p0 digits, without its final zeros, is nearest to x with as
      many digits as it has. */
  lemma StrippedIsRounded(x: real, radix: nat, e: int, p0: nat, mant0: nat, p: nat, mant: nat)
    requires radix >= 2 && 1 <= p <= p0 && mant0 == Digits(x, radix, p0 - e) && mant0 == mant * Pow(radix, p0 - p)
    ensures mant == Digits(x, radix, p - e)
  {
    hide Pow, PowR, RoundReal;
    PowOne(radix);
    if p < p0 {
      var k := p0 - p;
      PowerStep(x, radix, p - e, k);
      RealProduct(mant, Pow(radix, k));
      RoundedByDivision(x * PowR(radix, p - e), mant, Pow(radix, k) as real, x * PowR(radix, p0 - e), mant0);
    }
  }

  lemma PowerStep(x: real, radix: nat, i: int, k: nat)
    requires radix >= 2 && k >= 1
    ensures x * PowR(radix, i + k) == (x * PowR(radix, i)) * Pow(radix, k) as real && Pow(radix, k) as real >= 2.0
  {
    hide *;
    PowRAdd(radix, i, k);
    PowRNat(radix, k);
    RealAssoc(x, PowR(radix, i), PowR(radix, k));
    PowMono(radix, 1, k);
    PowOne(radix);
    IntGap(Pow(radix, k), 2);
  }

  lemma RoundedByDivision(y: real, n: int, f: real, y0: real, n0: int)
    requires f >= 2.0 && y0 == y * f && n0 as real == n as real * f && n0 == RoundReal(y0, NearestEven)
    ensures n == RoundReal(y, NearestEven)
  {
    hide RoundReal;
    RoundPicksNearest(y0, 0);
    CloserByDivision(y, n as real, f, y0, n0 as real);
    RoundUnique(y, n);
  }

  lemma CloserByDivision(y: real, n: real, p: real, y0: real, n0: real)
    requires p >= 2.0 && y0 == y * p && n0 == n * p && Abs(y0 - n0) <= 0.5
    ensures Abs(y - n) < 0.5
  {
    DistanceScales(y, n, p);
    FactorLess(Abs(y - n), p);
  }

  lemma FactorLess(s: real, p: real)
    requires p >= 2.0 && p * s <= 0.5
    ensures s < 0.5
  {
    RealMono(0.5, s, p);
  }

  /** Whether digits read back: the conversion of the search. */
  method ReadsBackTest(tmp: Bignum, mant: nat, radix: int, p: nat, e1: int, m: nat, e: int, ghost e0: int, ghost a: nat)
    returns (ok: bool)
    requires ValidRadix(radix) && Decoded(a, m, e) && Estimated(ValueOf(a), e, radix, e0) && e0 <= e1 <= e0 + 1
    requires 1 <= p <= DTOA_MAX_DIGITS[radix - 2] && Pow(radix, p - 1) <= mant < Pow(radix, p)
    requires tmp.Valid() && tmp.tab.Length == DBIGNUM_LEN_MAX
    modifies tmp, tmp.tab
    ensures tmp.Valid() && (ok <==> IsNearest(a, DecimalValue(mant, radix, e1 - p)))
  {
    hide Pow, PowR, Decoded, Estimated, ValueOf, Value, OddPart, RadixShift, DigitLimbs, RoundsTo, IsNearest;
    PrintPowers(radix, p);
    PowPos(radix, p - 1);
    RadixParts(radix);
    DecodedBinade(a, m, e);
    FewLimbs(ValueOf(a), e, radix, e0, p, e1);
    ghost var v := DecimalValue(mant, radix, e1 - p);
    DecimalNotTiny(mant, radix, p, e1, ValueOf(a), e, e0);
    tmp.SetU64(mant);
    var m1, f1 := MulPowRoundToD(tmp, OddPart(radix), RadixShift(radix), e1 - p, NearestEven, v);
    ok := m1 == m && f1 == e;
    SameIfNearest(a, m, e, m1, f1, v);
  }

  lemma DecimalNotTiny(mant: nat, radix: int, p: nat, e1: int, x: real, e: int, e0: int)
    requires ValidRadix(radix) && p >= 1 && mant >= Pow(radix, p - 1) && e1 >= e0 && Estimated(x, e, radix, e0) && -1073 <= e <= 1024
    ensures DecimalValue(mant, radix, e1 - p) >= PowR(2, -1085)
  {
    hide Pow, PowR, Estimated;
    ExponentBounds(x, e, radix, e0);
    var min: int := MIN_EXPONENT[radix - 2];
    MinExponentNotTiny(radix);
    PowRCompare(radix, -min, 1085);
    PowRAtLeast(radix, e1 - 1, min);
    PowRNat(radix, p - 1);
    PowRAdd(radix, p - 1, e1 - p);
    PowRPos(radix, e1 - p);
    IntGap(mant, Pow(radix, p - 1));
    RealMono(PowR(radix, p - 1), mant as real, PowR(radix, e1 - p));
  }

  /** Comparing the rounded significand and exponent is comparing the nearest numbers. */
  lemma SameIfNearest(a: nat, m: nat, e: int, m1: nat, e1: int, v: real)
    requires Decoded(a, m, e) && RoundsTo(m1, e1, v, NearestEven)
    ensures m1 == m && e1 == e <==> IsNearest(a, v)
  {
    hide PowR, ValueOf, RoundsTo, IsNearest, Canonical;
    RoundsToNearest(m1, e1, v);
    if IsNearest(a, v) {
      NearestUnique(a, Encode(m1, e1), v);
      RoundsToCanonical(m1, e1, v);
      EncodeInjective(m, e, m1, e1);
    }
  }

  /** What the search promises: the digits read back, they are those of the nearest number with
      so many digits, and the nearest number with one digit fewer does not read back. */
  ghost predicate IsFreeFormat(a: nat, radix: int, e0: int, mant: nat, p: nat, e: int)
    requires ValidRadix(radix)
  {
    1 <= p <= DTOA_MAX_DIGITS[radix - 2] && Pow(radix, p - 1) <= mant < Pow(radix, p) && mant % radix != 0 &&
    e0 <= e <= e0 + 1 && mant == Digits(ValueOf(a), radix, p - e) &&
    IsNearest(a, DecimalValue(mant, radix, e - p))
  }

  ghost predicate ShorterFails(a: nat, radix: int, e0: int, p: nat)
    requires ValidRadix(radix)
  {
    p > 1 ==> NoneReadsBack(a, radix, e0, p - 1)
  }

  /** The nearest number with p digits does not read back. */
  ghost predicate NoneReadsBack(a: nat, radix: int, e0: int, p: nat)
    requires ValidRadix(radix)
  {
    forall mant: nat, e: int :: Candidate(ValueOf(a), radix, p, e0, mant, e) ==> !IsNearest(a, DecimalValue(mant, radix, e - p))
  }

  /** The descending search of the free format. */
  method FindShort(tmp: Bignum, m: nat, e: int, radix: int, e0: int, ghost a: nat) returns (mantFound: nat, pFound: nat, eFound: int)
    requires ValidRadix(radix) && Decoded(a, m, e) && Estimated(ValueOf(a), e, radix, e0)
    requires tmp.Valid() && tmp.tab.Length == DBIGNUM_LEN_MAX
    modifies tmp, tmp.tab
    ensures tmp.Valid() && IsFreeFormat(a, radix, e0, mantFound, pFound, eFound) && ShorterFails(a, radix, e0, pFound)
  {
    hide Pow, PowR, Decoded, Estimated, ValueOf, Value, Digits, IsNearest, Candidate, DecimalValue, IsFreeFormat, ShorterFails;
    PrintDigitsRange(radix);
    var p: nat := DTOA_MAX_DIGITS[radix - 2];
    eFound, pFound, mantFound := 0, 0, 0;
    while true
      invariant tmp.Valid() && 1 <= p <= DTOA_MAX_DIGITS[radix - 2]
      invariant if pFound == 0 then p == DTOA_MAX_DIGITS[radix - 2]
        else p == pFound - 1 && IsFreeFormat(a, radix, e0, mantFound, pFound, eFound)
      decreases p
    {
      var mant0, e1 := FindMantissa(tmp, m, e, radix, p, e0, a);
      CandidateExponent(ValueOf(a), radix, p, e0, mant0, e1);
      var mant, p1 := StripZeros(mant0, p, radix, e1);
      if pFound != 0 {
        var ok := ReadsBackTest(tmp, mant, radix, p1, e1, m, e, e0, a);
        if !ok {
          CandidateFails(a, radix, p, e0, mant0, e1);
          break;
        }
      } else {
        FullPrecisionReadsBack(a, m, e, radix, e0, mant0, e1);
      }
      Accepted(a, radix, e0, p, mant0, p1, mant, e1);
      pFound, eFound, mantFound := p1, e1, mant;
      if p1 == 1 {
        NoShorter(a, radix, e0);
        break;
      }
      p := p1 - 1;
    }
  }

  lemma CandidateExponent(x: real, radix: nat, p: nat, e0: int, mant: nat, e: int)
    requires radix > 0 && Candidate(x, radix, p, e0, mant, e)
    ensures e0 <= e <= e0 + 1 && mant < Pow(radix, p) && mant == Digits(x, radix, p - e)
  {
  }

  lemma FullPrecisionReadsBack(a: nat, m: nat, e: int, radix: int, e0: int, mant: nat, e1: int)
    requires ValidRadix(radix) && Decoded(a, m, e) && Estimated(ValueOf(a), e, radix, e0)
    requires Candidate(ValueOf(a), radix, DTOA_MAX_DIGITS[radix - 2], e0, mant, e1)
    ensures IsNearest(a, DecimalValue(mant, radix, e1 - DTOA_MAX_DIGITS[radix - 2]))
  {
    FullPrecision(a, m, e, radix, e0, mant, e1, DecimalValue(mant, radix, e1 - DTOA_MAX_DIGITS[radix - 2]));
    hide IsNearest, Candidate, Decoded, Estimated, PowR, ValueOf;
  }

  lemma Accepted(a: nat, radix: int, e0: int, p0: nat, mant0: nat, p: nat, mant: nat, e: int)
    requires ValidRadix(radix) && 1 <= p <= p0 <= DTOA_MAX_DIGITS[radix - 2] && Pow(radix, p - 1) <= mant < Pow(radix, p)
    requires mant % radix != 0 && e0 <= e <= e0 + 1 && mant0 == Digits(ValueOf(a), radix, p0 - e) && mant0 == mant * Pow(radix, p0 - p)
    requires IsNearest(a, DecimalValue(mant, radix, e - p))
    ensures IsFreeFormat(a, radix, e0, mant, p, e)
  {
    hide IsNearest, Pow, ValueOf, Digits, DecimalValue;
    StrippedIsRounded(ValueOf(a), radix, e, p0, mant0, p, mant);
  }

  lemma CandidateFails(a: nat, radix: int, p: nat, e0: int, mant: nat, e: int)
    requires ValidRadix(radix) && p >= 1 && Candidate(ValueOf(a), radix, p, e0, mant, e)
    requires !IsNearest(a, DecimalValue(mant, radix, e - p))
    ensures ShorterFails(a, radix, e0, p + 1)
  {
    hide Candidate, IsNearest, DecimalValue, ValueOf;
    forall mant1: nat, e1: int | Candidate(ValueOf(a), radix, p, e0, mant1, e1)
      ensures !IsNearest(a, DecimalValue(mant1, radix, e1 - p))
    {
      CandidateUnique(ValueOf(a), radix, p, e0, mant, e, mant1, e1);
    }
  }

  lemma NoShorter(a: nat, radix: int, e0: int)
    requires ValidRadix(radix)
    ensures ShorterFails(a, radix, e0, 1)
  {
  }
}
