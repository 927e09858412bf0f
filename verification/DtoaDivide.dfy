/** Division of limb arrays by a normalised divisor with a precomputed reciprocal. The
    wrap-around of the 32-bit and 64-bit words is written out. */
module DtoaDivide {
  import opened DtoaArith
  import opened DtoaLimbs

  const HALF := 0x8000_0000

  /** The reciprocal: floor((2^64 - 1) / d) - 2^32. */
  ghost predicate IsReciprocal(d: limb, v: limb) {
    0 < BASE * BASE - (BASE + v) * d <= d
  }

  /** udiv1norm_init */
  method Udiv1normInit(d: limb) returns (v: limb)
    requires d >= HALF
    ensures IsReciprocal(d, v)
  {
    var a1 := U32(U32(0 - d) - 1);
    var a0 := U32(-1);
    var n := BASE * a1 + a0;
    Complement(d);
    hide *;
    QuotientBound(a1, a0, d);
    DivMod(n, d);
    v := n / d;
    ReciprocalBounds(d, v, d * v, n % d);
  }

  lemma Complement(d: limb)
    requires d > 0
    ensures U32(U32(0 - d) - 1) == BASE - d - 1 && U32(-1) == BASE - 1
  {
    assert U32(0 - d) == BASE - d;
  }

  lemma ReciprocalBounds(d: limb, v: limb, dv: int, r: int)
    requires dv == d * v && BASE * (BASE - d - 1) + (BASE - 1) == dv + r && 0 <= r < d
    ensures IsReciprocal(d, v)
  {
    assert (BASE + v) * d == BASE * d + dv;
  }

  /** The numerator of the quotient estimate, and how far the estimate can be off. */
  lemma EstimateBounds(a1: nat, a0: nat, d: limb, v: limb, bit: nat, t: nat, q1: nat)
    requires HALF <= d < BASE && a1 < d && a0 < BASE && bit == a0 / HALF
    requires IsReciprocal(d, v)
    requires t == v * (a1 + bit) + (a0 + bit * (d - BASE)) && q1 == a1 + t / BASE
    ensures 0 <= BASE * a1 + a0 - q1 * d < 2 * d
  {
    var k: int := BASE * BASE - (BASE + v) * d;
    var n, f := BASE * a1 + a0, t % BASE;
    DivMod(t, BASE);
    FloorTimes(q1, BASE * a1 + t, f, d);
    EstimateExpands(a1, a0, d, v, bit, t, k);
    ErrorBelow(a1, a0, d, bit, k);
    ErrorAbove(a1, a0, d, bit, k, f);
    MulNonneg(f, d);
    var e := BASE - d;
    var error := a1 * k + a0 * e - bit * (e * e - k);
    assert (BASE * a1 + t) * d == BASE * n - error;
    assert BASE * q1 == BASE * a1 + t - f;
    hide *;
    EstimateGap(n, q1 * d, d, error, f * d);
  }

  lemma FloorTimes(q: nat, x: nat, f: nat, d: nat)
    requires BASE * q == x - f
    ensures BASE * (q * d) == x * d - f * d
  {
    assert BASE * (q * d) == (BASE * q) * d;
  }

  lemma EstimateGap(n: nat, qd: nat, d: nat, error: int, fd: nat)
    requires BASE * n - BASE * qd == error + fd && error >= 0 && error + fd < BASE * (2 * d)
    ensures 0 <= n - qd < 2 * d
  {
  }

  /** BASE * (n - estimate), expanded: k is what (BASE + v) d lacks to BASE^2. */
  lemma EstimateExpands(a1: nat, a0: nat, d: nat, v: nat, bit: nat, t: nat, k: int)
    requires k == BASE * BASE - (BASE + v) * d && (bit == 0 || bit == 1)
    requires t == v * (a1 + bit) + (a0 + bit * (d - BASE))
    ensures var e := BASE - d;
      (BASE * a1 + t) * d == BASE * (BASE * a1 + a0) - (a1 * k + a0 * e - bit * (e * e - k))
  {
    var e := BASE - d;
    assert v * d == BASE * BASE - k - BASE * d;
    assert t * d == (v * a1 + v * bit + a0 - bit * e) * d;
    assert (v * a1) * d == a1 * (v * d);
    assert a1 * (v * d) == a1 * (BASE * BASE) - a1 * k - a1 * (BASE * d);
    if bit == 1 {
      assert (v - e) * d == v * d - e * d;
      assert e * d == BASE * d - d * d;
      assert e * e == BASE * BASE - 2 * (BASE * d) + d * d;
    }
    assert a0 * e == a0 * BASE - a0 * d;
    assert (BASE * a1) * d == a1 * (BASE * d);
  }

  lemma ErrorBelow(a1: nat, a0: nat, d: nat, bit: nat, k: int)
    requires HALF <= d < BASE && a1 < d && a0 < BASE && bit == a0 / HALF && 0 < k <= d
    ensures var e := BASE - d; a1 * k + a0 * e - bit * (e * e - k) >= 0
  {
    var e := BASE - d;
    MulNonneg(a1, k);
    if bit == 1 {
      MulMono(e, a0, e);
    } else {
      MulNonneg(a0, e);
      assert bit * (e * e - k) == 0;
    }
  }

  lemma ErrorAbove(a1: nat, a0: nat, d: nat, bit: nat, k: int, f: nat)
    requires HALF <= d < BASE && a1 < d && a0 < BASE && bit == a0 / HALF && 0 < k <= d && f < BASE
    ensures var e := BASE - d; a1 * k + a0 * e - bit * (e * e - k) + f * d < BASE * (2 * d)
  {
    var e := BASE - d;
    MulMono(k, d, a1);
    MulMono(a1, d - 1, d);
    MulMono(f, BASE - 1, d);
    assert a1 * k <= (d - 1) * d && f * d <= (BASE - 1) * d;
    if bit == 1 {
      MulMono(a0 - e, d - 1, e);
      assert (a0 - e) * e == a0 * e - e * e;
    } else {
      MulMono(a0, d - 1, e);
      assert bit * (e * e - k) == 0;
    }
    assert (d - 1) * e == d * e - e && d * e == BASE * d - d * d;
    assert (d - 1) * d == d * d - d;
  }

  /** udiv1norm: the exact quotient and remainder in spite of all wrap-around. */
  method Udiv1norm(a1: limb, a0: limb, d: limb, dInv: limb) returns (q: limb, r: limb)
    requires d >= HALF && a1 < d && IsReciprocal(d, dInv)
    ensures q * d + r == BASE * a1 + a0 && r < d
  {
    hide *;
    EstimateStep(a1, a0, d, dInv);
    // n1m is 0 or all ones
    var n1m := if a0 >= HALF then U32(-1) else 0;
    var nAdj := U32(a0 + (if n1m != 0 then d else 0));
    var t := U64(dInv * U32(a1 - n1m) + nAdj);
    q := U32(t / BASE + a1);
    FinalStep(BASE * a1 + a0, q, d, a1);
    var a := U64((BASE * a1 + a0) - q * d - d);
    var ah := U32(a / BASE);
    q := U32(q + 1 + ah);
    r := U32(U32(a) + (if ah != 0 then d else 0));
  }

  /** The estimate is right, or one too small. */
  lemma EstimateStep(a1: limb, a0: limb, d: limb, dInv: limb)
    requires d >= HALF && a1 < d && IsReciprocal(d, dInv)
    ensures var n1m := if a0 >= HALF then U32(-1) else 0;
      var nAdj := U32(a0 + (if n1m != 0 then d else 0));
      var q := U32(U64(dInv * U32(a1 - n1m) + nAdj) / BASE + a1);
      0 <= BASE * a1 + a0 - q * d < 2 * d
  {
    EstimateWords(a1, a0, d, dInv);
    hide U32, U64;
    var n1m := if a0 >= HALF then U32(-1) else 0;
    var nAdj := U32(a0 + (if n1m != 0 then d else 0));
    var t := U64(dInv * U32(a1 - n1m) + nAdj);
    EstimateBounds(a1, a0, d, dInv, a0 / HALF, t, a1 + t / BASE);
    hide IsReciprocal;
    EstimateBelow(BASE * a1 + a0, a1 + t / BASE, d, a1);
    SmallWord(a1 + t / BASE);
  }

  /** From the estimate q1 to the quotient. */
  lemma FinalStep(n: nat, q1: limb, d: limb, a1: nat)
    requires 0 <= n - q1 * d < 2 * d && n < BASE * a1 + BASE && a1 < d
    ensures var a := U64(n - q1 * d - d);
      var ah := U32(a / BASE);
      var q, r := U32(q1 + 1 + ah), U32(U32(a) + (if ah != 0 then d else 0));
      q * d + r == n && r < d
  {
    var x := n - q1 * d - d;
    WrapFacts(x, d);
    hide U32, U64;
    if x >= 0 { NextQuotient(n, q1, d, a1); }
    FinalWords(x, d, q1, n);
  }

  lemma SmallWord(x: nat)
    ensures x < BASE ==> U32(x) == x
  {
  }

  /** The difference n - q d - d as a 64-bit word, and its halves. */
  lemma WrapFacts(x: int, d: limb)
    requires 0 <= x + d && x < d
    ensures x >= 0 ==> U64(x) == x && U32(U64(x) / BASE) == 0
    ensures x < 0 ==> U64(x) == BASE * BASE + x && U32(U64(x) / BASE) == BASE - 1
  {
    if x < 0 {
      DivUnique(BASE * BASE + x, BASE, BASE - 1, BASE + x);
    }
  }

  lemma FinalWords(x: int, d: limb, q1: limb, n: nat)
    requires x == n - q1 * d - d && 0 <= x + d && x < d && (x >= 0 ==> q1 + 1 < BASE)
    ensures x >= 0 ==> U32(q1 + 1) == q1 + 1 && U32(U32(U64(x))) == x && (q1 + 1) * d + x == n
    ensures x < 0 ==> U32(q1 + 1 + (BASE - 1)) == q1 && U32(U32(U64(x)) + d) == x + d && q1 * d + (x + d) == n
  {
    assert (q1 + 1) * d == q1 * d + d;
    WrapFacts(x, d);
    if x >= 0 {
      SmallWord(q1 + 1);
      SmallWord(x);
      hide U32, U64;
    } else {
      WrappedWords(x, d, q1);
      hide U32, U64;
    }
  }

  /** One less, or d more, modulo 2^32. */
  lemma WrappedWords(x: int, d: limb, q1: limb)
    requires x < 0 <= x + d
    ensures U32(q1 + 1 + (BASE - 1)) == q1 && U32(U32(BASE * BASE + x) + d) == x + d
  {
    DivUnique(BASE * BASE + x, BASE, BASE - 1, BASE + x);
    DivUnique(BASE + x + d, BASE, 1, x + d);
    DivUnique(q1 + 1 + (BASE - 1), BASE, 1, q1);
  }

  /** The words of the estimate do not wrap, but for n_adj when a0 has its top bit set. */
  lemma EstimateWords(a1: limb, a0: limb, d: limb, v: limb)
    requires d >= HALF && a1 < d
    ensures var bit := a0 / HALF;
      var n1m := if a0 >= HALF then U32(-1) else 0;
      var nAdj := U32(a0 + (if n1m != 0 then d else 0));
      U64(v * U32(a1 - n1m) + nAdj) == v * (a1 + bit) + (a0 + bit * (d - BASE))
  {
    var bit := a0 / HALF;
    var n1m := if a0 >= HALF then U32(-1) else 0;
    var nAdj := U32(a0 + (if n1m != 0 then d else 0));
    AdjustedWord(a0, d);
    RaisedWord(a1, a0, d);
    hide U32;
    ghost var x: nat := a1 + bit;
    EstimateFits(v, x, nAdj);
    InRange64(v * x + nAdj);
    hide U64;
    assert U64(v * x + nAdj) == v * x + nAdj;
  }

  lemma AdjustedWord(a0: limb, d: limb)
    requires d >= HALF
    ensures U32(a0 + (if (if a0 >= HALF then U32(-1) else 0) != 0 then d else 0)) == a0 + (a0 / HALF) * (d - BASE)
  {
  }

  lemma RaisedWord(a1: limb, a0: limb, d: limb)
    requires a1 < d
    ensures U32(a1 - (if a0 >= HALF then U32(-1) else 0)) == a1 + a0 / HALF
    ensures a0 / HALF == if a0 >= HALF then 1 else 0
  {
  }

  lemma InRange64(x: nat)
    requires x < BASE * BASE
    ensures U64(x) == x
  {
  }

  lemma EstimateFits(v: limb, x: nat, y: limb)
    requires x < BASE
    ensures 0 <= v * x + y < BASE * BASE
  {
    MulMono(v, BASE - 1, x);
    MulNonneg(v, x);
  }

  lemma EstimateBelow(n: nat, q1: nat, d: nat, a1: nat)
    requires q1 * d <= n < BASE * a1 + BASE && a1 < d && d > 0
    ensures q1 < BASE
  {
    if q1 >= BASE {
      MulMono(BASE, q1, d);
      MulMono(a1 + 1, d, BASE);
    }
  }

  lemma NextQuotient(n: nat, q1: nat, d: nat, a1: nat)
    requires q1 * d + d <= n < BASE * a1 + BASE && a1 < d && d > 0
    ensures q1 + 1 < BASE
  {
    assert (q1 + 1) * d == q1 * d + d;
    EstimateBelow(n, q1 + 1, d, a1);
  }

  /** The number whose lower n limbs have the value v, below the limb high. */
  function WithHigh(high: nat, n: nat, v: nat): nat {
    PowPos(BASE, n);
    MulNonneg(high, Pow(BASE, n));
    high * Pow(BASE, n) + v
  }

  /** mp_div1norm in place: the exact quotient and remainder of the division by `b0`, given
      b0 << shift, its reciprocal and the shift. */
  method MpDiv1norm(tab: array<limb>, n: nat, b: limb, r0: limb, bInv: limb, shift: nat, ghost b0: nat) returns (r: limb)
    requires n <= tab.Length && shift <= 31 && b == b0 * Pow(2, shift) && b >= HALF && IsReciprocal(b, bInv) && r0 < b0
    modifies tab
    ensures WithHigh(r0, n, old(Value(tab[..n]))) == Value(tab[..n]) * b0 + r && r < b0
    ensures tab[n..] == old(tab[n..])
  {
    hide *;
    ShiftPowers(shift);
    ghost var total, p := WithHigh(r0, n, Value(tab[..n])), Pow(2, shift);
    r := ShiftNumerator(tab, n, b, r0, shift, b0);
    ghost var scaled := WithHigh(r, n, Value(tab[..n]));
    r := DivideNormalised(tab, n, b, r, bInv);
    UnscaledRemainder(total, scaled, Value(tab[..n]), b0, p, b, r);
    ShrIs(r, shift);
    r := Shr32(r, shift);
  }

  lemma ShrIs(r: limb, shift: nat)
    ensures Pow(2, shift) > 0 && Shr32(r, shift) == r / Pow(2, shift)
  {
    PowPos(2, shift);
  }

  /** The numerator (r0, tab) << shift. */
  method ShiftNumerator(tab: array<limb>, n: nat, b: limb, r0: limb, shift: nat, ghost b0: nat) returns (r: limb)
    requires n <= tab.Length && shift <= 31 && b == b0 * Pow(2, shift) && r0 < b0
    modifies tab
    ensures WithHigh(r, n, Value(tab[..n])) == WithHigh(r0, n, old(Value(tab[..n]))) * Pow(2, shift)
    ensures tab[n..] == old(tab[n..]) && r < b
  {
    hide Value, Pow;
    r := r0;
    PowOne(2);
    ShiftPowers(shift);
    if shift != 0 {
      ghost var v0 := Value(tab[..n]);
      var low := MpShl(tab, n, shift, 0);
      ShiftedRemainder(r0, low, b0, Pow(2, shift), b);
      r := Shl32(r0, shift) + low;
      ScaledNumber(r0, low, Pow(2, shift), Pow(BASE, n), v0, Value(tab[..n]));
    }
  }

  lemma ShiftedRemainder(r0: nat, low: nat, b0: nat, p: nat, b: nat)
    requires r0 < b0 && low < p && b == b0 * p && b < BASE
    ensures r0 * p + low < b && U32(r0 * p) == r0 * p
  {
    MulMono(r0 + 1, b0, p);
    MulNonneg(r0, p);
    assert (r0 + 1) * p == r0 * p + p;
  }

  lemma ScaledNumber(r0: nat, low: nat, p: nat, w: nat, v0: nat, v1: nat)
    requires v1 + w * low == v0 * p
    ensures (r0 * p + low) * w + v1 == (r0 * w + v0) * p
  {
    assert (r0 * p + low) * w == (r0 * w) * p + w * low;
  }

  /** Dividing a multiple of p by a multiple of p leaves a multiple of p. */
  lemma UnscaledRemainder(n: nat, scaled: nat, q: nat, b0: nat, p: nat, b: nat, r: nat)
    requires p > 0 && b == b0 * p && scaled == n * p && scaled == q * b + r && r < b
    ensures n == q * b0 + r / p && r / p < b0
  {
    var x: int := n - q * b0;
    assert x * p == r by { assert (q * b0) * p == q * (b0 * p); }
    DivExact(x, p);
    MulCancel(x, b0, p);
  }

  /** The division loop of mp_div1norm. */
  method DivideNormalised(tab: array<limb>, n: nat, b: limb, r0: limb, bInv: limb) returns (r: limb)
    requires n <= tab.Length && b >= HALF && IsReciprocal(b, bInv) && r0 < b
    modifies tab
    ensures WithHigh(r0, n, old(Value(tab[..n]))) == Value(tab[..n]) * b + r && r < b
    ensures tab[n..] == old(tab[n..])
  {
    hide Value, Pow, IsReciprocal;
    NoValue();
    ghost var s0 := tab[..n];
    r := r0;
    var i := n;
    assert s0[n..] == [] && tab[n..n] == [];
    while i > 0
      invariant 0 <= i <= n && tab[n..] == old(tab[n..]) && r < b
      invariant tab[..i] == s0[..i]
      invariant r0 * Pow(BASE, n - i) + Value(s0[i..]) == Value(tab[i..n]) * b + r
    {
      ghost var done, rr := tab[i..n], r;
      i := i - 1;
      assert s0[i] == s0[..i + 1][i] == tab[..i + 1][i];
      SuffixNext(s0, i);
      var q;
      q, r := Udiv1norm(r, tab[i], b, bInv);
      tab[i] := q;
      ValueCons(tab[i], done);
      assert tab[i..n] == [tab[i]] + done;
      PowNext(n - i - 1);
      DivideStep(Pow(BASE, n - i - 1), r0, Value(s0[i + 1..]), Value(done), s0[i], b, rr, tab[i], r);
    }
    assert s0[0..] == s0 && tab[0..n] == tab[..n];
  }
}
