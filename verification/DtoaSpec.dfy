/** What the conversions have to compute, in real numbers: rounding, binary64 values, and the
    binary64 number nearest to a real (roundTiesToEven, section 4.3.1 of IEEE 754-2019). */
module DtoaSpec {
  import opened DtoaArith
  import opened DtoaReal

  // --- rounding ---

  /** x rounded to an integer. */
  function RoundReal(x: real, mode: Rounding): int {
    var q := x.Floor;
    var r := x - q as real;
    match mode
    case TowardZero => q
    case NearestAway => if r >= 0.5 then q + 1 else q
    case NearestEven => if r > 0.5 || (r == 0.5 && q % 2 == 1) then q + 1 else q
  }

  /** A fraction is rounded by integer division. */
  lemma RoundRatio(n: nat, d: nat, x: real, mode: Rounding)
    requires d > 0 && x * d as real == n as real
    ensures RoundReal(x, mode) == RoundDiv(n, d, mode)
  {
    DivMod(n, d);
    var q, r := n / d, n % d;
    var y := x - q as real;
    assert y * d as real == r as real by {
      assert (q * d) as real == q as real * d as real;
      assert q * d == d * q;
    }
    FractionOf(x, q, y, r, d);
  }

  lemma FractionOf(x: real, q: int, y: real, r: nat, d: nat)
    requires d > 0 && r < d && y * d as real == r as real && y == x - q as real
    ensures x.Floor == q
    ensures y > 0.5 <==> 2 * r > d
    ensures y == 0.5 <==> 2 * r == d
  {
    IntGap(r, d);
    UnitFraction(y, r as real, d as real);
    TwiceReal(r, d);
  }

  lemma UnitFraction(y: real, r: real, c: real)
    requires c > 0.0 && r == y * c && 0.0 <= r && r < c
    ensures 0.0 <= y < 1.0
    ensures y > 0.5 <==> r + r > c
    ensures y == 0.5 <==> r + r == c
  {
    AboveHalfR(y, c, r);
    BelowHalfR(y, c, r);
    BelowOne(y, c, r);
    if y < 0.0 { ProductPos(-y, c); }
  }

  lemma TwiceReal(r: nat, d: nat)
    ensures 2 * r > d <==> r as real + r as real > d as real
    ensures 2 * r == d <==> r as real + r as real == d as real
  {
    assert (r + r) as real == r as real + r as real;
  }

  /** Rounding to nearest picks a nearest integer, and an even one if there are two. */
  lemma RoundPicksNearest(x: real, y: int)
    ensures var n := RoundReal(x, NearestEven) as real;
      Abs(x - n) <= Abs(x - y as real) <= Abs(x - n) + Abs(n - y as real)
    ensures var n := RoundReal(x, NearestEven);
      Abs(x - n as real) <= 0.5 && (y != n && Abs(x - n as real) == Abs(x - y as real) ==> n % 2 == 0)
  {
    var q := x.Floor;
    if y <= q {
      assert y as real <= q as real;
    } else {
      assert y as real >= q as real + 1.0;
    }
  }

  /** An integer close to x is the rounding of x. */
  lemma RoundUnique(x: real, y: int)
    requires Abs(x - y as real) < 0.5
    ensures RoundReal(x, NearestEven) == y
  {
    RoundPicksNearest(x, y);
    var n := RoundReal(x, NearestEven);
    IntGap(n, y);
    IntGap(y, n);
  }

  lemma RoundMono(x: real, y: real, mode: Rounding)
    requires x <= y
    ensures RoundReal(x, mode) <= RoundReal(y, mode)
  {
    IntGap(y.Floor, x.Floor);
  }

  lemma RoundInteger(n: int, mode: Rounding)
    ensures RoundReal(n as real, mode) == n
  {
  }

  // --- binary64 ---

  const MANT := 0x10_0000_0000_0000

  /** Positive infinity; as a candidate for rounding it stands for 2^1024. */
  const INF := 0x7ff * MANT

  /** The significand and the exponent of a bit pattern: the value is Sig * 2^(Scale - 53). */
  function Sig(a: nat): nat {
    if a < MANT then a else MANT + a % MANT
  }

  function Scale(a: nat): int {
    if a < MANT then -1021 else a / MANT - 1022
  }

  /** The number a nonnegative bit pattern stands for. */
  function ValueOf(a: nat): real {
    Sig(a) as real * PowR(2, Scale(a) - 53)
  }

  lemma ValueGrows(a: nat)
    ensures ValueOf(a) < ValueOf(a + 1)
  {
    if a + 1 < MANT {
      SameScaleGrows(a);
    } else if (a + 1) % MANT == 0 {
      NextBinade(a);
    } else {
      DivUnique(a + 1, MANT, a / MANT, a % MANT + 1);
      SameScaleGrows(a);
    }
  }

  lemma SameScaleGrows(a: nat)
    requires Scale(a + 1) == Scale(a) && Sig(a + 1) == Sig(a) + 1
    ensures ValueOf(a) < ValueOf(a + 1)
  {
    hide PowR, Scale, Sig;
    PowRPos(2, Scale(a) - 53);
    RealMono(Sig(a) as real, Sig(a + 1) as real, PowR(2, Scale(a) - 53));
  }

  /** From the last significand of a binade to the first of the next one. */
  lemma SigGrows(s: nat, s1: nat, p: real)
    requires s < s1 && p > 0.0
    ensures s as real * p < s1 as real * p
  {
    RealMono(s as real, s1 as real, p);
  }

  lemma BinadeEnd(a: nat)
    requires (a + 1) % MANT == 0
    ensures a >= MANT ==> Sig(a) == 2 * MANT - 1 && Sig(a + 1) == MANT && Scale(a + 1) == Scale(a) + 1
    ensures a < MANT ==> Sig(a) == MANT - 1 && Sig(a + 1) == MANT && Scale(a + 1) == Scale(a)
  {
    DivUnique(a, MANT, (a + 1) / MANT - 1, MANT - 1);
  }

  lemma NextBinade(a: nat)
    requires (a + 1) % MANT == 0
    ensures ValueOf(a) < ValueOf(a + 1)
  {
    BinadeEnd(a);
    PowRPos(2, Scale(a) - 53);
    PowRNext(2, Scale(a) - 53);
    var p, p1 := PowR(2, Scale(a) - 53), PowR(2, Scale(a + 1) - 53);
    if a >= MANT {
      hide PowR, Sig, Scale;
      DoubledScale(p, p1);
      SigGrows(2 * MANT - 1, 2 * MANT, p);
    } else {
      hide PowR, Sig, Scale;
      SigGrows(MANT - 1, MANT, p);
    }
  }

  lemma {:induction false} ValueMono(a: nat, b: nat)
    requires a < b
    ensures ValueOf(a) < ValueOf(b)
    decreases b - a
  {
    hide ValueOf;
    ValueGrows(b - 1);
    if a < b - 1 { ValueMono(a, b - 1); }
  }

  /** `a` is at least as close to x as `b`, and even if it is only as close. */
  predicate IsCloser(x: real, a: nat, b: nat) {
    Abs(x - ValueOf(a)) <= Abs(x - ValueOf(b)) &&
    (b != a && Abs(x - ValueOf(a)) == Abs(x - ValueOf(b)) ==> a % 2 == 0)
  }

  /** `a` is nearest to x among all bit patterns; of two nearest ones it is the even one. */
  ghost predicate IsNearest(a: nat, x: real) {
    a <= INF &&
    forall b: nat :: b <= INF ==> IsCloser(x, a, b)
  }

  /** At most one bit pattern is nearest. */
  lemma NearestUnique(a: nat, b: nat, x: real)
    requires IsNearest(a, x) && IsNearest(b, x)
    ensures a == b
  {
    hide ValueOf;
    NearestAt(a, x, b);
    NearestAt(b, x, a);
    if a < b {
      NearestAt(a, x, a + 1);
      BetweenIsCloser(a, b, x);
    } else if b < a {
      NearestAt(b, x, b + 1);
      BetweenIsCloser(b, a, x);
    }
  }

  lemma NearestAt(a: nat, x: real, b: nat)
    requires IsNearest(a, x) && b <= INF
    ensures IsCloser(x, a, b)
  {
  }

  lemma BetweenIsCloser(a: nat, b: nat, x: real)
    requires a < b && Abs(x - ValueOf(a)) == Abs(x - ValueOf(b))
    ensures a + 1 < b ==> Abs(x - ValueOf(a + 1)) < Abs(x - ValueOf(a))
  {
    hide ValueOf;
    ValueMono(a, b);
    if a + 1 < b {
      ValueMono(a, a + 1);
      ValueMono(a + 1, b);
    }
  }

  /** Bit patterns stand for numbers as binary64 says: with the biased exponent e and the 52 bits
      m behind the binary point (section 3.4 of IEEE 754-2019). */
  lemma PatternValue(e: nat, m: nat)
    requires m < 0x10_0000_0000_0000
    ensures e == 0 ==> ValueOf(m) == m as real * PowR(2, -1074)
    ensures e > 0 ==> ValueOf(e * 0x10_0000_0000_0000 + m) == (1.0 + m as real / 4503599627370496.0) * PowR(2, e - 1023)
  {
    hide PowR, Sig, Scale;
    if e > 0 {
      NormalParts(e, m);
      PowRAdd(2, 52, e - 1075);
      Pow52();
      Fraction(m as real, PowR(2, e - 1075));
      assert (MANT + m) as real == 4503599627370496.0 + m as real;
    } else {
      SubnormalParts(m);
    }
  }

  lemma NormalParts(e: nat, m: nat)
    requires e > 0 && m < MANT
    ensures Sig(e * MANT + m) == MANT + m && Scale(e * MANT + m) == e - 1022
  {
    DivUnique(e * MANT + m, MANT, e, m);
  }

  lemma SubnormalParts(m: nat)
    requires m < MANT
    ensures Sig(m) == m && Scale(m) == -1021
  {
  }

  lemma Fraction(m: real, q: real)
    ensures (4503599627370496.0 + m) * q == (1.0 + m / 4503599627370496.0) * (4503599627370496.0 * q)
  {
    var y := m / 4503599627370496.0;
    assert m == y * 4503599627370496.0;
  }

  /** Only the two neighbours have to be compared. */
  lemma NearestByNeighbours(a: nat, x: real)
    requires a <= INF
    ensures IsNearest(a, x) <==> (a > 0 ==> IsCloser(x, a, a - 1)) && (a < INF ==> IsCloser(x, a, a + 1))
  {
    hide ValueOf;
    if (a > 0 ==> IsCloser(x, a, a - 1)) && (a < INF ==> IsCloser(x, a, a + 1)) {
      forall b: nat | b <= INF
        ensures IsCloser(x, a, b)
      {
        if b < a {
          ValueMono(b, a);
          ValueMono(a - 1, a);
          if b < a - 1 { ValueMono(b, a - 1); }
        } else if a < b {
          ValueMono(a, b);
          ValueMono(a, a + 1);
          if a + 1 < b { ValueMono(a + 1, b); }
        }
      }
    }
  }

  /** The bit pattern of X quanta in the binade k (counted from the smallest one). */
  function BitsAt(k: int, x: int): int {
    (k + 1021) * MANT + x
  }

  lemma BitsAtValue(k: int, x: nat)
    requires -1021 <= k && x <= 2 * MANT && (k > -1021 ==> x >= MANT)
    ensures BitsAt(k, x) >= 0 && ValueOf(BitsAt(k, x)) == x as real * PowR(2, k - 53)
  {
    var a := BitsAt(k, x);
    if x == 2 * MANT {
      DivUnique(a, MANT, k + 1023, 0);
      assert a >= MANT && Sig(a) == MANT && Scale(a) == k + 1;
      PowRNext(2, k - 53);
      DoubledScale(PowR(2, k - 53), PowR(2, k - 52));
    } else if x >= MANT {
      DivUnique(a, MANT, k + 1022, x - MANT);
      assert a >= MANT && Sig(a) == x && Scale(a) == k;
    }
    hide PowR, Sig, Scale;
  }

  lemma DoubledScale(p: real, p1: real)
    requires p1 == 2.0 * p
    ensures MANT as real * p1 == (2 * MANT) as real * p
  {
  }

  /** In a higher binade the value is a multiple of the quantum; in a lower one it is below
      the binade. */
  lemma CandidateParts(b: nat, k: int) returns (y: nat)
    requires k >= -1021
    ensures Scale(b) >= k ==> ValueOf(b) == y as real * PowR(2, k - 53)
    ensures Scale(b) < k ==> ValueOf(b) < PowR(2, k - 1) == MANT as real * PowR(2, k - 53)
  {
    hide PowR, Sig;
    var s := Scale(b);
    PowRAdd(2, 52, k - 53);
    Pow52();
    if s >= k {
      PowRAdd(2, s - k, k - 53);
      y := Sig(b) * Pow(2, s - k);
      HigherBinade(Sig(b), s - k, PowR(2, k - 53));
    } else {
      y := 0;
      PowRAdd(2, 53, s - 53);
      SigBelow(b);
      PowRPos(2, s - 53);
      RealMono(Sig(b) as real, PowR(2, 53), PowR(2, s - 53));
      if s < k - 1 { PowRMono(2, s, k - 1); }
    }
  }

  lemma HigherBinade(x: nat, i: nat, q: real)
    ensures x as real * (PowR(2, i) * q) == (x * Pow(2, i)) as real * q
  {
    assert (x * Pow(2, i)) as real == x as real * Pow(2, i) as real;
  }

  lemma SigBelow(b: nat)
    ensures Sig(b) as real < PowR(2, 53)
  {
    Pow52();
    PowRNext(2, 52);
  }

  lemma Pow52()
    ensures Pow(2, 52) == MANT && PowR(2, 52) == MANT as real
  {
    PowAdd(2, 26, 26);
    PowAdd(2, 13, 13);
    PowAdd(2, 6, 7);
    PowAdd(2, 3, 4);
    PowAdd(2, 3, 3);
    PowAdd(2, 2, 2);
    PowAdd(2, 1, 2);
    PowOne(2);
  }

  // --- the nearest bit pattern ---

  /** 2^(e-1) <= x < 2^e */
  predicate InBinade(x: real, e: int) {
    PowR(2, e - 1) <= x < PowR(2, e)
  }

  /** The binade whose quantum applies: subnormal numbers share the smallest one. */
  function Quantum(e: int): int {
    if e < -1021 then -1021 else e
  }

  /** The bit pattern computed by rounding x to quanta of its binade; not yet clamped. */
  function RoundedBits(x: real, e: int): int {
    PowRPos(2, Quantum(e) - 53);
    BitsAt(Quantum(e), RoundReal(x / PowR(2, Quantum(e) - 53), NearestEven))
  }

  /** How many quanta there are in a binade. */
  lemma QuantaRange(x: real, e: int)
    requires InBinade(x, e)
    ensures PowR(2, Quantum(e) - 53) > 0.0
    ensures var q := x / PowR(2, Quantum(e) - 53);
      0.0 < q < 2.0 * MANT as real && (e >= -1021 ==> q >= MANT as real) &&
      0 <= RoundReal(q, NearestEven) <= 2 * MANT && (e >= -1021 ==> RoundReal(q, NearestEven) >= MANT)
  {
    hide PowR, RoundReal;
    var k := Quantum(e);
    var u := PowR(2, k - 53);
    PowRPos(2, k - 53);
    PowRPos(2, e - 1);
    PowRAdd(2, 52, k - 53);
    PowRNext(2, k - 1);
    Pow52();
    if e < k { PowRMono(2, e, k); }
    var q := x / u;
    assert q * u == x;
    FactorPos(q, u);
    assert (2.0 * MANT as real) * u == 2.0 * (MANT as real * u);
    BoundBelow(q, u, x, 2.0 * MANT as real, 2.0 * (MANT as real * u));
    RoundMono(q, (2 * MANT) as real, NearestEven);
    RoundInteger(2 * MANT, NearestEven);
    RoundMono(0.0, q, NearestEven);
    RoundInteger(0, NearestEven);
    if e >= -1021 {
      BoundAtLeast(q, u, x, MANT as real);
      RoundMono(MANT as real, q, NearestEven);
      RoundInteger(MANT, NearestEven);
    }
  }

  /** Against one candidate: the rounded multiple of the quantum is at least as close. */
  lemma RoundedIsCloser(x: real, e: int, b: nat)
    requires InBinade(x, e)
    ensures RoundedBits(x, e) >= 0
    ensures IsCloser(x, RoundedBits(x, e), b)
  {
    hide PowR, RoundReal, ValueOf, IsCloser, BitsAt;
    var k := Quantum(e);
    QuantaRange(x, e);
    var q := x / PowR(2, k - 53);
    var n := RoundReal(q, NearestEven);
    BitsAtValue(k, n);
    CandidateIsFurther(x, q, k, n, b);
  }

  lemma CandidateIsFurther(x: real, q: real, k: int, n: nat, b: nat)
    requires k >= -1021 && PowR(2, k - 53) > 0.0 && q * PowR(2, k - 53) == x
    requires k > -1021 ==> PowR(2, k - 1) <= x
    requires n == RoundReal(q, NearestEven) && BitsAt(k, n) >= 0 && ValueOf(BitsAt(k, n)) == n as real * PowR(2, k - 53)
    ensures IsCloser(x, BitsAt(k, n), b)
  {
    hide PowR, RoundReal, ValueOf, Scale, Sig, IsCloser, BitsAt;
    var y := CandidateParts(b, k);
    if Scale(b) >= k {
      MultipleIsCloser(x, q, PowR(2, k - 53), k, n, b, y);
    } else {
      LowestScale(b);
      LowerIsFurther(x, q, PowR(2, k - 53), k, n, b);
    }
  }

  lemma MultipleIsCloser(x: real, q: real, u: real, k: int, n: nat, b: nat, y: nat)
    requires u > 0.0 && q * u == x && n == RoundReal(q, NearestEven) && k >= -1021
    requires ValueOf(BitsAt(k, n)) == n as real * u && ValueOf(b) == y as real * u
    ensures IsCloser(x, BitsAt(k, n), b)
  {
    hide RoundReal, ValueOf, BitsAt, Abs;
    BitsParity(k, n);
    var a := BitsAt(k, n);
    if b < a { ValueMono(b, a); }
    if a < b { ValueMono(a, b); }
    RoundPicksNearest(q, y);
    CloserMultiple(x, u, q, n as real, y as real);
    SameMultiple(n, y, u);
  }

  lemma BitsParity(k: int, n: int)
    ensures BitsAt(k, n) % 2 == n % 2
    ensures k >= -1021 && n >= 0 ==> BitsAt(k, n) >= 0
  {
    assert BitsAt(k, n) == 2 * ((k + 1021) * 0x8_0000_0000_0000) + n;
  }

  lemma SameMultiple(n: nat, y: nat, u: real)
    ensures n == y ==> n as real * u == y as real * u
  {
  }

  lemma LowerIsFurther(x: real, q: real, u: real, k: int, n: nat, b: nat)
    requires u > 0.0 && q * u == x && n == RoundReal(q, NearestEven) && k >= -1021
    requires ValueOf(BitsAt(k, n)) == n as real * u && ValueOf(b) < MANT as real * u <= x
    ensures IsCloser(x, BitsAt(k, n), b)
  {
    hide RoundReal, ValueOf, BitsAt;
    RoundPicksNearest(q, MANT);
    CloserMultiple(x, u, q, n as real, MANT as real);
    FurtherBelow(x, MANT as real * u, ValueOf(b));
  }

  lemma LowestScale(b: nat)
    ensures Scale(b) >= -1021
  {
  }

  lemma FurtherBelow(x: real, y: real, z: real)
    requires z < y <= x
    ensures Abs(x - y) < Abs(x - z)
  {
  }

  /** The rounded bit pattern, clamped at infinity, is the nearest one. */
  lemma RoundedIsNearest(x: real, e: int)
    requires InBinade(x, e)
    ensures RoundedBits(x, e) >= 0
    ensures IsNearest(if RoundedBits(x, e) <= INF then RoundedBits(x, e) else INF, x)
  {
    hide ValueOf, RoundedBits;
    RoundedIsCloser(x, e, 0);
    var a := RoundedBits(x, e);
    if a <= INF {
      forall b: nat | b <= INF
        ensures IsCloser(x, a, b)
      {
        RoundedIsCloser(x, e, b);
      }
    } else {
      BeyondInfinity(x, e);
      InfinityIsNearest(x);
    }
  }

  lemma BeyondInfinity(x: real, e: int)
    requires InBinade(x, e) && RoundedBits(x, e) > INF
    ensures x >= ValueOf(INF)
  {
    QuantaRange(x, e);
    assert Quantum(e) > 1024;
    InfinityValue();
    if 1024 < e - 1 { PowRMono(2, 1024, e - 1); }
  }

  lemma InfinityValue()
    ensures ValueOf(INF) == PowR(2, 1024)
  {
    DivUnique(INF, MANT, 0x7ff, 0);
    PowRAdd(2, 52, 972);
    Pow52();
  }

  lemma InfinityIsNearest(x: real)
    requires x >= ValueOf(INF)
    ensures IsNearest(INF, x)
  {
    hide ValueOf;
    forall b: nat | b <= INF
      ensures IsCloser(x, INF, b)
    {
      if b < INF { ValueMono(b, INF); }
    }
  }

  /** At most half the smallest subnormal number rounds to zero. */
  lemma TinyIsZero(x: real)
    requires 0.0 <= x <= PowR(2, -1075)
    ensures IsNearest(0, x)
  {
    hide ValueOf;
    SmallestValues();
    forall b: nat | b <= INF
      ensures IsCloser(x, 0, b)
    {
      if b > 1 { ValueMono(1, b); }
    }
  }

  lemma SmallestValues()
    ensures ValueOf(0) == 0.0 && ValueOf(1) == 2.0 * PowR(2, -1075)
  {
    PowRNext(2, -1075);
  }
}
