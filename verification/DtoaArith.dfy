/** Powers, exact division and rounded division of natural numbers. */
module DtoaArith {

  function Pow(b: nat, n: nat): nat {
    if n == 0 then 1 else b * Pow(b, n - 1)
  }

  lemma {:induction false} PowPos(b: nat, n: nat)
    requires b > 0
    ensures Pow(b, n) > 0
  {
    if n > 0 {
      PowPos(b, n - 1);
      MulPos(b, Pow(b, n - 1));
    }
  }

  lemma {:induction false} PowAdd(b: nat, i: nat, j: nat)
    ensures Pow(b, i + j) == Pow(b, i) * Pow(b, j)
    decreases i
  {
    if i > 0 {
      PowAdd(b, i - 1, j);
      MulAssoc(b, Pow(b, i - 1), Pow(b, j));
    }
  }

  /** (a b)^n = a^n b^n */
  lemma {:induction false} PowDistributes(a: nat, b: nat, n: nat)
    ensures Pow(a * b, n) == Pow(a, n) * Pow(b, n)
  {
    if n > 0 {
      PowDistributes(a, b, n - 1);
      var x, y := Pow(a, n - 1), Pow(b, n - 1);
      assert (a * b) * (x * y) == (a * x) * (b * y) by { MulSwap(a, b, x, y); }
    }
  }

  /** (b^i)^n = b^(i n) */
  lemma {:induction false} PowPow(b: nat, i: nat, n: nat)
    ensures Pow(Pow(b, i), n) == Pow(b, i * n)
  {
    if n > 0 {
      PowPow(b, i, n - 1);
      PowAdd(b, i, i * (n - 1));
      assert i + i * (n - 1) == i * n;
    } else {
      assert i * n == 0;
    }
  }

  lemma {:induction false} PowMono(b: nat, i: nat, j: nat)
    requires b > 0 && i <= j
    ensures Pow(b, i) <= Pow(b, j)
  {
    PowAdd(b, i, j - i);
    PowPos(b, j - i);
    MulMono(1, Pow(b, j - i), Pow(b, i));
  }

  lemma {:induction false} PowStrict(b: nat, i: nat, j: nat)
    requires b > 1 && i < j
    ensures Pow(b, i) < Pow(b, j)
  {
    PowMono(b, i, j - 1);
    PowPos(b, j - 1);
    MulMono(2, b, Pow(b, j - 1));
  }

  lemma {:induction false} PowBaseMono(a: nat, b: nat, n: nat)
    requires a <= b
    ensures Pow(a, n) <= Pow(b, n)
  {
    if n > 0 {
      PowBaseMono(a, b, n - 1);
      MulMono(a, b, Pow(a, n - 1));
      MulMono(Pow(a, n - 1), Pow(b, n - 1), b);
    }
  }

  lemma PowOne(b: nat)
    ensures Pow(b, 0) == 1 && Pow(b, 1) == b && Pow(b, 2) == b * b
  {
    assert Pow(b, 1) == b * Pow(b, 0);
    assert Pow(b, 2) == b * Pow(b, 1);
  }

  lemma {:induction false} OnePow(n: nat)
    ensures Pow(1, n) == 1
  {
    if n > 0 {
      OnePow(n - 1);
    }
  }

  // --- multiplication ---

  lemma MulAssoc(a: int, b: int, c: int)
    ensures (a * b) * c == a * (b * c)
  {
  }

  lemma MulSwap(a: int, b: int, x: int, y: int)
    ensures (a * b) * (x * y) == (a * x) * (b * y)
  {
  }

  lemma MulPos(a: int, b: int)
    requires a > 0 && b > 0
    ensures a * b > 0
  {
  }

  lemma MulNonneg(a: int, b: int)
    requires a >= 0 && b >= 0
    ensures a * b >= 0
  {
  }

  lemma MulMono(a: int, b: int, c: int)
    requires a <= b && c >= 0
    ensures a * c <= b * c
  {
    MulNonneg(b - a, c);
  }

  lemma MulStrict(a: int, b: int, c: int)
    requires a < b && c > 0
    ensures a * c < b * c
  {
    MulPos(b - a, c);
  }

  /** Comparing products is comparing their other factors. */
  lemma MulCancel(a: int, b: int, c: int)
    requires c > 0
    ensures a * c < b * c <==> a < b
    ensures a * c <= b * c <==> a <= b
    ensures a * c == b * c <==> a == b
  {
    if a < b { MulStrict(a, b, c); }
    if b < a { MulStrict(b, a, c); }
  }

  // --- division ---

  lemma DivMod(n: int, d: int)
    requires d > 0
    ensures n == d * (n / d) + n % d && 0 <= n % d < d
  {
  }

  /** A quotient and a remainder in range are the quotient and the remainder. */
  lemma DivUnique(n: int, d: int, q: int, r: int)
    requires d > 0 && n == d * q + r && 0 <= r < d
    ensures n / d == q && n % d == r
  {
    DivMod(n, d);
    var k := n / d - q;
    assert d * k == r - n % d;
    if k > 0 { MulMono(1, k, d); }
    if k < 0 { MulMono(1, -k, d); }
  }

  /** Dividing twice is dividing by the product; the remainders say whether it is exact. */
  lemma DivDiv(n: nat, a: nat, b: nat)
    requires a > 0 && b > 0
    ensures a * b > 0 && n / (a * b) == (n / a) / b
    ensures n % (a * b) == 0 <==> n % a == 0 && (n / a) % b == 0
  {
    MulPos(a, b);
    var q, r := n / a, n % a;
    var q2, r2 := q / b, q % b;
    DivMod(n, a);
    DivMod(q, b);
    assert n == (a * b) * q2 + (a * r2 + r) by {
      MulAssoc(a, b, q2);
      assert a * q == a * (b * q2) + a * r2;
    }
    MulMono(r2, b - 1, a);
    MulNonneg(a, r2);
    assert a * r2 + r < a * b by { assert a * (b - 1) == a * b - a; }
    DivUnique(n, a * b, q2, a * r2 + r);
    if r2 > 0 { MulPos(a, r2); }
  }

  lemma DivExact(q: int, d: int)
    requires d > 0
    ensures (q * d) / d == q && (q * d) % d == 0
  {
    DivUnique(q * d, d, q, 0);
  }

  // --- rounded division ---

  /** JS_RNDN, JS_RNDNA, JS_RNDZ */
  datatype Rounding = NearestEven | NearestAway | TowardZero

  /** n / d rounded to an integer. */
  function RoundDiv(n: nat, d: nat, mode: Rounding): nat
    requires d > 0
  {
    var q, r := n / d, n % d;
    match mode
    case TowardZero => q
    case NearestAway => if 2 * r >= d then q + 1 else q
    case NearestEven => if 2 * r > d || (2 * r == d && q % 2 == 1) then q + 1 else q
  }

  /** What rounding to nearest means: the result is at most half a unit away, and exactly
      half a unit away only if the mode says so. */
  lemma RoundNearest(n: nat, d: nat)
    requires d > 0
    ensures var x := RoundDiv(n, d, NearestEven);
      2 * n <= 2 * (d * x) + d && 2 * (d * x) <= 2 * n + d &&
      (2 * n == 2 * (d * x) + d || 2 * (d * x) == 2 * n + d ==> x % 2 == 0)
  {
    DivMod(n, d);
    var q := n / d;
    assert d * (q + 1) == d * q + d;
  }

  // --- sticky bits ---

  /** The quotient, made odd if the division is not exact. */
  function Sticky(n: nat, d: nat): nat
    requires d > 0
  {
    var q := n / d;
    if n % d == 0 || q % 2 == 1 then q else q + 1
  }

  /** Rounding away at least two bits of a sticky quotient rounds the exact quotient. */
  lemma StickyRounds(n: nat, d: nat, s: nat, mode: Rounding)
    requires d > 0 && s >= 2
    ensures Pow(2, s) > 0 && d * Pow(2, s) > 0
    ensures RoundDiv(Sticky(n, d), Pow(2, s), mode) == RoundDiv(n, d * Pow(2, s), mode)
  {
    var p := Pow(2, s);
    var h := Pow(2, s - 2);
    PowPos(2, s);
    PowPos(2, s - 2);
    PowAdd(2, 2, s - 2);
    PowOne(2);
    MulPos(d, p);
    hide Pow, Sticky;
    StickyParts(n, d, p, h);
  }

  lemma StickyParts(n: nat, d: nat, p: nat, h: nat)
    requires d > 0 && p == 4 * h && h > 0
    ensures d * p > 0
    ensures Sticky(n, d) / p == n / (d * p)
    ensures 2 * (Sticky(n, d) % p) > p <==> 2 * (n % (d * p)) > d * p
    ensures 2 * (Sticky(n, d) % p) == p <==> 2 * (n % (d * p)) == d * p
    ensures 2 * (Sticky(n, d) % p) >= p <==> 2 * (n % (d * p)) >= d * p
  {
    MulPos(d, p);
    DivDiv(n, d, p);
    RemainderOfProduct(n, d, p);
    DivMod(n, d);
    var q, r := n / d, n % d;
    DivMod(q, p);
    EvenPart(q, p, 2 * h);
    var t := Sticky(n, d);
    StickyStays(q, t, p, 2 * h);
    StickyCompares(d, q % p, r, t - q, p, h);
  }

  lemma RemainderOfProduct(n: nat, a: nat, b: nat)
    requires a > 0 && b > 0
    ensures a * b > 0 && n % (a * b) == a * ((n / a) % b) + n % a
  {
    MulPos(a, b);
    var q, r := n / a, n % a;
    var q2, r2 := q / b, q % b;
    DivMod(n, a);
    DivMod(q, b);
    assert n == (a * b) * q2 + (a * r2 + r) by {
      MulAssoc(a, b, q2);
      assert a * q == a * (b * q2) + a * r2;
    }
    MulMono(r2, b - 1, a);
    MulNonneg(a, r2);
    assert a * r2 + r < a * b by { assert a * (b - 1) == a * b - a; }
    DivUnique(n, a * b, q2, a * r2 + r);
  }

  /** The parity of a number is that of its remainder by an even number. */
  lemma EvenPart(q: nat, p: nat, half: nat)
    requires p > 0 && p == 2 * half
    ensures (q % p) % 2 == q % 2
  {
    DivMod(q, p);
    var k := half * (q / p);
    assert q == 2 * k + q % p by { MulAssoc(2, half, q / p); }
  }

  lemma StickyStays(q: nat, t: nat, p: nat, half: nat)
    requires p > 0 && p == 2 * half && (t == q || (t == q + 1 && q % 2 == 0))
    ensures t / p == q / p && t % p == q % p + (t - q)
  {
    DivMod(q, p);
    EvenPart(q, p, half);
    DivUnique(t, p, q / p, q % p + (t - q));
  }

  /** Comparing with one half, before and after the sticky bit. */
  lemma StickyCompares(d: nat, u: nat, r: nat, b: nat, p: nat, h: nat)
    requires d > 0 && r < d && u < p && p == 4 * h && h > 0
    requires b == if r == 0 || u % 2 == 1 then 0 else 1
    ensures 2 * (u + b) > p <==> 2 * (d * u + r) > d * p
    ensures 2 * (u + b) == p <==> 2 * (d * u + r) == d * p
  {
    var x: int := 2 * u - p;
    var z := d * x;
    assert 2 * (d * u + r) - d * p == z + 2 * r by {
      assert d * x == 2 * (d * u) - d * p;
    }
    assert x % 2 == 0;
    assert (x >= 2 ==> z >= 2 * d) && (x <= -2 ==> z <= -2 * d) && (x == 0 ==> z == 0) by {
      if x >= 2 { MulMono(2, x, d); }
      if x <= -2 { MulMono(x, -2, d); }
    }
    HalfCompares(d, u, r, b, p, z, d * u, d * p);
  }

  lemma HalfCompares(d: nat, u: nat, r: nat, b: nat, p: nat, z: int, du: int, dp: int)
    requires d > 0 && r < d && p % 4 == 0 && (b == if r == 0 || u % 2 == 1 then 0 else 1)
    requires var x := 2 * u - p; (x >= 2 ==> z >= 2 * d) && (x <= -2 ==> z <= -2 * d) && (x == 0 ==> z == 0)
    requires 2 * (du + r) - dp == z + 2 * r
    ensures 2 * (u + b) > p <==> 2 * (du + r) > dp
    ensures 2 * (u + b) == p <==> 2 * (du + r) == dp
  {
  }
}
