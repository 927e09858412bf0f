/** Real numbers: powers with integer exponents, and small facts about products. */
module DtoaReal {
  import opened DtoaArith

  /** b^n for any integer n. */
  function PowR(b: nat, n: int): real
    requires b > 0
  {
    PowPos(b, if n >= 0 then n else -n);
    if n >= 0 then Pow(b, n) as real else 1.0 / Pow(b, -n) as real
  }

  lemma PowRPos(b: nat, n: int)
    requires b > 0
    ensures PowR(b, n) > 0.0
  {
    PowPos(b, if n >= 0 then n else -n);
  }

  lemma {:induction false} PowRNext(b: nat, n: int)
    requires b > 0
    ensures PowR(b, n + 1) == b as real * PowR(b, n)
  {
    if n < 0 {
      var p, q := Pow(b, -n - 1), Pow(b, -n);
      PowPos(b, -n - 1);
      PowPos(b, -n);
      assert q == b * p;
      assert q as real == b as real * p as real;
    }
  }

  lemma {:induction false} PowRAdd(b: nat, i: int, j: int)
    requires b > 0
    ensures PowR(b, i + j) == PowR(b, i) * PowR(b, j)
    decreases if j >= 0 then j else -j
  {
    hide PowR;
    PowROne(b);
    var x, c := PowR(b, i), b as real;
    if j > 0 {
      PowRAdd(b, i, j - 1);
      PowRNext(b, i + j - 1);
      PowRNext(b, j - 1);
      ProductUp(c, x, PowR(b, j - 1), PowR(b, j), PowR(b, i + j - 1), PowR(b, i + j));
    } else if j < 0 {
      PowRAdd(b, i, j + 1);
      PowRNext(b, i + j);
      PowRNext(b, j);
      ProductDown(c, x, PowR(b, j), PowR(b, j + 1), PowR(b, i + j), PowR(b, i + j + 1));
    }
  }

  /** One more factor c on both sides of z0 == x * y0. */
  lemma ProductUp(c: real, x: real, y0: real, y: real, z0: real, z: real)
    requires z0 == x * y0 && y == c * y0 && z == c * z0
    ensures z == x * y
  {
    ScaleProduct(c, x, y0);
  }

  /** One factor c less on both sides of z1 == x * y1. */
  lemma ProductDown(c: real, x: real, y: real, y1: real, z: real, z1: real)
    requires c > 0.0 && z1 == x * y1 && y1 == c * y && z1 == c * z
    ensures z == x * y
  {
    ScaleProduct(c, x, y);
    CancelFactor(c, z, x * y);
  }

  lemma ScaleProduct(c: real, x: real, y: real)
    ensures c * (x * y) == x * (c * y)
  {
  }

  lemma CancelFactor(c: real, x: real, y: real)
    requires c > 0.0 && c * x == c * y
    ensures x == y
  {
    assert c * (x - y) == 0.0;
  }

  lemma RealMono(x: real, y: real, c: real)
    requires c > 0.0
    ensures x < y <==> x * c < y * c
    ensures x <= y <==> x * c <= y * c
  {
    if x < y { assert (y - x) * c > 0.0; }
    if x > y { assert (x - y) * c > 0.0; }
  }

  lemma IntGap(m: int, n: int)
    ensures m < n <==> m as real < n as real
    ensures m < n <==> m as real <= n as real - 1.0
  {
  }

  lemma PowROne(b: nat)
    requires b > 0
    ensures PowR(b, 0) == 1.0 && PowR(b, 1) == b as real
  {
    PowOne(b);
  }

  lemma InverseProduct(a: real, b: real)
    requires a > 0.0 && b > 0.0
    ensures a * b > 0.0 && 1.0 / (a * b) == (1.0 / a) * (1.0 / b)
  {
    var x, y := 1.0 / a, 1.0 / b;
    assert a * b > 0.0;
    assert x * a == 1.0 && y * b == 1.0;
    assert (x * y) * (a * b) == (x * a) * (y * b);
  }

  /** (a b)^f = a^f b^f */
  lemma PowRProduct(a: nat, b: nat, f: int)
    requires a > 0 && b > 0
    ensures a * b > 0 && PowR(a * b, f) == PowR(a, f) * PowR(b, f)
  {
    hide Pow;
    MulPos(a, b);
    var n := if f >= 0 then f else -f;
    PowDistributes(a, b, n);
    PowPos(a, n);
    PowPos(b, n);
    RealProduct(Pow(a, n), Pow(b, n));
    if f < 0 { InverseProduct(Pow(a, n) as real, Pow(b, n) as real); }
  }

  lemma RealProduct(a: int, b: int)
    ensures (a * b) as real == a as real * b as real
  {
  }

  /** (b^i)^f = b^(f i) */
  lemma PowRPow(b: nat, i: nat, f: int)
    requires b > 0
    ensures Pow(b, i) > 0 && PowR(Pow(b, i), f) == PowR(b, f * i)
  {
    hide Pow, PowR;
    PowPos(b, i);
    if f >= 0 {
      PowRPowNat(b, i, f, f * i);
    } else {
      assert (0 - f) * i == 0 - f * i;
      PowRPowNat(b, i, 0 - f, (0 - f) * i);
    }
  }

  lemma PowRPowNat(b: nat, i: nat, n: nat, e: nat)
    requires b > 0 && Pow(b, i) > 0 && e == n * i
    ensures PowR(Pow(b, i), n) == PowR(b, e) && PowR(Pow(b, i), 0 - n) == PowR(b, 0 - e)
  {
    hide Pow, PowR;
    PowPow(b, i, n);
    PowRNat(Pow(b, i), n);
    PowRNat(b, e);
  }

  lemma PowRNat(b: nat, n: nat)
    requires b > 0
    ensures Pow(b, n) > 0 && PowR(b, n) == Pow(b, n) as real && PowR(b, 0 - n) == 1.0 / Pow(b, n) as real
  {
    PowPos(b, n);
    PowOne(b);
  }

  lemma {:induction false} PowRMono(b: nat, i: int, j: int)
    requires b > 1 && i < j
    ensures PowR(b, i) < PowR(b, j)
    decreases j - i
  {
    hide PowR;
    PowRNext(b, j - 1);
    PowRPos(b, j - 1);
    RealMono(1.0, b as real, PowR(b, j - 1));
    if i < j - 1 { PowRMono(b, i, j - 1); }
  }

  lemma BoundAtLeast(q: real, u: real, x: real, m: real)
    requires u > 0.0 && q * u == x && m * u <= x
    ensures m <= q
  {
    RealMono(m, q, u);
  }

  lemma BoundBelow(q: real, u: real, x: real, m: real, y: real)
    requires u > 0.0 && q * u == x && m * u == y && x < y
    ensures q < m
  {
    RealMono(q, m, u);
  }

  lemma ProductPos(a: real, b: real)
    requires a > 0.0 && b > 0.0
    ensures a * b > 0.0
  {}
  lemma FactorPos(q: real, u: real)
    requires u > 0.0 && q * u > 0.0
    ensures q > 0.0
  {
    if q < 0.0 { ProductPos(-q, u); }
  }

  lemma AboveHalf(y: real, c: real)
    requires c > 0.0
    ensures y + y > 1.0 <==> y * c + y * c > c
  {
    RealMono(1.0, y + y, c);
    assert (y + y) * c == y * c + y * c;
    assert 1.0 * c == c;
  }

  lemma AboveHalfR(y: real, c: real, r: real)
    requires c > 0.0 && r == y * c
    ensures y + y > 1.0 <==> r + r > c
  {
    AboveHalf(y, c);
  }

  lemma BelowHalf(y: real, c: real)
    requires c > 0.0
    ensures y + y < 1.0 <==> y * c + y * c < c
  {
    RealMono(y + y, 1.0, c);
    assert (y + y) * c == y * c + y * c;
    assert 1.0 * c == c;
  }

  lemma BelowOne(y: real, c: real, r: real)
    requires c > 0.0 && r == y * c && r < c
    ensures y < 1.0
  {
    RealMono(y, 1.0, c);
    assert 1.0 * c == c;
  }

  lemma BelowHalfR(y: real, c: real, r: real)
    requires c > 0.0 && r == y * c
    ensures y + y < 1.0 <==> r + r < c
  {
    BelowHalf(y, c);
  }

  function Abs(x: real): real {
    if x < 0.0 then -x else x
  }

  lemma ScaleAbs(z: real, u: real)
    requires u > 0.0
    ensures Abs(z * u) == u * Abs(z)
  {
    if z < 0.0 { ProductPos(-z, u); }
    if z > 0.0 { ProductPos(z, u); }
  }

  lemma DistanceScales(q: real, n: real, u: real)
    requires u > 0.0
    ensures Abs(q * u - n * u) == u * Abs(q - n)
  {
    ScaleAbs(q - n, u);
    assert (q - n) * u == q * u - n * u;
  }

  lemma MultipleDistance(x: real, u: real, q: real, n: real)
    requires u > 0.0 && q * u == x
    ensures Abs(x - n * u) == u * Abs(q - n)
  {
    DistanceScales(q, n, u);
  }

  lemma CompareScaled(s: real, t: real, u: real)
    requires u > 0.0
    ensures u * s <= u * t <==> s <= t
    ensures u * s == u * t <==> s == t
  {
    RealMono(s, t, u);
    RealMono(t, s, u);
  }

  lemma CloserMultiple(x: real, u: real, q: real, n: real, y: real)
    requires u > 0.0 && q * u == x
    ensures Abs(q - n) <= Abs(q - y) <==> Abs(x - n * u) <= Abs(x - y * u)
    ensures Abs(q - n) == Abs(q - y) <==> Abs(x - n * u) == Abs(x - y * u)
  {
    MultipleDistance(x, u, q, n);
    MultipleDistance(x, u, q, y);
    CompareScaled(Abs(q - n), Abs(q - y), u);
    hide Abs;
  }

  lemma RealAssoc(a: real, b: real, c: real)
    ensures (a * b) * c == a * (b * c)
  {
  }

  lemma PowRCompare(r: nat, i: nat, j: nat)
    requires r > 0
    ensures Pow(r, i) >= Pow(2, j) ==> PowR(r, i) >= PowR(2, j) && PowR(r, 0 - i) <= PowR(2, 0 - j)
    ensures Pow(r, i) <= Pow(2, j) ==> PowR(r, 0 - i) >= PowR(2, 0 - j)
  {
    hide Pow, PowR;
    PowRNat(r, i);
    PowRNat(2, j);
    if Pow(r, i) >= Pow(2, j) { InverseOrder(Pow(2, j) as real, Pow(r, i) as real); }
    if Pow(r, i) <= Pow(2, j) { InverseOrder(Pow(r, i) as real, Pow(2, j) as real); }
  }

  lemma InverseOrder(a: real, b: real)
    requires 0.0 < a <= b
    ensures 1.0 / b <= 1.0 / a
  {
    var x, y := 1.0 / a, 1.0 / b;
    assert x * a == 1.0 && y * b == 1.0;
    FactorPos(x, a);
    FactorPos(y, b);
    ProductPos(x, y);
    assert x == (x * y) * b && y == (x * y) * a;
    RealMono(a, b, x * y);
  }

  lemma PowRAtLeast(r: nat, i: int, j: int)
    requires r > 1 && i >= j
    ensures PowR(r, i) >= PowR(r, j)
  {
    hide PowR;
    if i > j { PowRMono(r, j, i); }
  }
}
