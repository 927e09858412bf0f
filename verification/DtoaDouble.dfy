/** round_to_d, mul_pow_round_to_d and the final encoding of js_atod: the nearest binary64
    number, with subnormal numbers, underflow to zero and overflow to infinity. */
module DtoaDouble {
  import opened DtoaArith
  import opened DtoaReal
  import opened DtoaLimbs
  import opened DtoaBignum
  import opened DtoaTables
  import opened DtoaPower
  import opened DtoaRound
  import opened DtoaSpec

  /** How many of the 53 bits a subnormal number lacks. */
  function Lost(e: int): nat {
    Quantum(e) - e
  }

  /** The significand of x quanta in the binade e0, shifted to 53 bits, and its exponent after
      a carry into the next binade. */
  function Normalised(x: nat, e0: int): (nat, int) {
    var m := x * Pow(2, Lost(e0));
    if m >= 2 * MANT then (m / 2, e0 + 1) else (m, e0)
  }

  /** What a shift by s rounds v to. */
  function Shifted(v: nat, s: int, mode: Rounding): nat {
    PowPos(2, if s > 0 then s else 0);
    if s > 0 then RoundDiv(v, Pow(2, s), mode) else v * Pow(2, -s)
  }

  /** A rounded number has at most as many bits as were kept, and one more value. */
  lemma ShiftedBound(v: nat, s: int, lost: nat, mode: Rounding)
    requires s + 53 - lost >= 0 && v < Pow(2, s + 53 - lost)
    ensures Shifted(v, s, mode) * Pow(2, lost) <= Pow(2, 53)
  {
    hide Pow, RoundDiv;
    var prec := 53 - lost;
    if s <= 0 {
      PowAdd(2, s + prec, -s);
      PowPos(2, -s);
      MulStrict(v, Pow(2, s + prec), Pow(2, -s));
      KeptBits(v * Pow(2, -s), lost);
    } else if prec >= 0 {
      PowAdd(2, prec, s);
      PowPos(2, s);
      RoundBelow(v, Pow(2, s), Pow(2, prec), mode);
      KeptBits(Shifted(v, s, mode), lost);
    } else {
      PowMono(2, s + prec, s - 1);
      PowPos(2, s - 1);
      assert Pow(2, s) == 2 * Pow(2, s - 1) by { PowAdd(2, 1, s - 1); PowOne(2); }
      RoundBelowHalf(v, Pow(2, s), mode);
      PowPos(2, 53);
      assert 0 * Pow(2, lost) == 0;
    }
  }

  lemma KeptBits(x: nat, lost: nat)
    requires lost <= 53 && x <= Pow(2, 53 - lost)
    ensures x * Pow(2, lost) <= Pow(2, 53)
  {
    hide Pow;
    PowAdd(2, 53 - lost, lost);
    MulMono(x, Pow(2, 53 - lost), Pow(2, lost));
  }

  lemma RoundBelow(v: nat, p: nat, q: nat, mode: Rounding)
    requires p > 0 && v < q * p
    ensures RoundDiv(v, p, mode) <= q
  {
    DivMod(v, p);
    if v / p >= q { MulMono(q, v / p, p); }
  }

  lemma RoundBelowHalf(v: nat, p: nat, mode: Rounding)
    requires 2 * v < p
    ensures RoundDiv(v, p, mode) == 0
  {
    DivUnique(v, p, 0, v);
  }

  /** round_to_d */
  method RoundToD(a: Bignum, eOffset: int, mode: Rounding) returns (m: nat, e: int, ghost e0: int)
    requires a.Normal() && (a.Val() > 0 && eOffset >= 1085 ==> a.Val() >= Pow(2, eOffset - 1085))
    requires a.tab.Length >= a.len + 3
    modifies a, a.tab
    ensures a.Valid() && (old(a.Val()) == 0 ==> m == 0)
    ensures old(a.Val()) > 0 ==>
      e0 + eOffset > 0 && Pow(2, e0 + eOffset - 1) <= old(a.Val()) < Pow(2, e0 + eOffset) && Lost(e0) <= 63
    ensures old(a.Val()) > 0 ==> (m, e) == Normalised(Shifted(old(a.Val()), eOffset + Quantum(e0) - 53, mode), e0)
  {
    hide Pow, Value, RoundDiv, Normalised, Shifted, Quantum, Lost;
    m, e, e0 := 0, 0, 0;
    if a.tab[0] == 0 && a.len == 1 {
      TopOfOne(a.tab[..a.len]);
    } else {
      TopLimb(a.tab[..a.len]);
      PowPos(BASE, a.len - 1);
      TopOfOne(a.tab[..a.len]);
      ghost var v := a.Val();
      assert v > 0;
      var log := a.FloorLog2();
      e := log + 1 - eOffset;
      e0 := e;
      var prec := if e < -1021 then 53 - (-1021 - e) else 53;
      var s := e + eOffset - prec;
      RoundPlan(v, log, eOffset, prec, s, mode);
      a.ShrRound(s, mode);
      ShiftedIs(v, s, mode);
      m := a.GetU64();
      m := m * Pow(2, 53 - prec);
      if m >= 2 * MANT {
        m := m / 2;
        e := e + 1;
      }
    }
  }

  /** What round_to_d shifts out, and what it has to make up for. */
  lemma RoundPlan(v: nat, log: nat, eOffset: int, prec: int, s: int, mode: Rounding)
    requires Pow(2, log) <= v < Pow(2, log + 1) && (eOffset >= 1085 ==> v >= Pow(2, eOffset - 1085))
    requires prec == (if log + 1 - eOffset < -1021 then 53 - (-1021 - (log + 1 - eOffset)) else 53) && s == log + 1 - prec
    ensures var e := log + 1 - eOffset;
      53 - prec == Lost(e) <= 63 && s == eOffset + Quantum(e) - 53 && (s < 0 ==> -s <= 52 && (-s) / 32 <= 1) &&
      Shifted(v, s, mode) < BASE * BASE &&
      Normalised(Shifted(v, s, mode), e) == (var m := Shifted(v, s, mode) * Pow(2, 53 - prec); if m >= 2 * MANT then (m / 2, e + 1) else (m, e))
  {
    var e := log + 1 - eOffset;
    LostFits(v, log, eOffset);
    LostNarrow(log, s);
    hide Pow, Shifted;
    ShiftedBound(v, s, Lost(e), mode);
    Pow53();
    ShiftedSmall(Shifted(v, s, mode), Lost(e));
  }

  lemma ShiftedIs(v: nat, s: int, mode: Rounding)
    ensures s > 0 ==> Pow(2, s) > 0 && Shifted(v, s, mode) == RoundDiv(v, Pow(2, s), mode)
    ensures s <= 0 ==> Shifted(v, s, mode) == v * Pow(2, -s)
  {
    if s > 0 { PowPos(2, s); }
  }

  lemma Pow53()
    ensures Pow(2, 53) == 2 * MANT
  {
    hide Pow;
    Pow52();
    PowAdd(2, 52, 1);
    PowOne(2);
  }

  lemma ShiftedSmall(x: nat, lost: nat)
    requires x * Pow(2, lost) <= 2 * MANT
    ensures x <= 2 * MANT < BASE * BASE
  {
    hide Pow;
    PowPos(2, lost);
    MulMono(1, Pow(2, lost), x);
  }

  lemma LostNarrow(log: nat, s: int)
    requires s == log + 1 - 53 || s > log + 1 - 53
    ensures s < 0 ==> -s <= 52 && (-s) / 32 <= 1
  {
  }

  lemma LostFits(v: nat, log: nat, eOffset: int)
    requires Pow(2, log) <= v < Pow(2, log + 1) && (eOffset >= 1085 ==> v >= Pow(2, eOffset - 1085))
    ensures Lost(log + 1 - eOffset) <= 63
  {
    hide Pow;
    if eOffset >= 1085 && log + 1 <= eOffset - 1085 {
      PowMono(2, log + 1, eOffset - 1085);
    }
  }

  // --- what the result stands for ---

  /** (m, e) is x rounded to binary64 precision, before the exponent range is checked. */
  ghost predicate RoundsTo(m: nat, e: int, x: real, mode: Rounding) {
    exists e0: int :: RoundsIn(m, e, x, e0, mode)
  }

  ghost predicate RoundsIn(m: nat, e: int, x: real, e0: int, mode: Rounding) {
    InBinade(x, e0) && Quanta(x, e0, mode) >= 0 && (m, e) == Normalised(Quanta(x, e0, mode), e0)
  }

  lemma RoundsWitness(m: nat, e: int, x: real, e0: int, mode: Rounding)
    requires RoundsIn(m, e, x, e0, mode)
    ensures RoundsTo(m, e, x, mode)
  {
  }

  /** x in quanta of its binade, rounded. */
  ghost function Quanta(x: real, e0: int, mode: Rounding): int {
    PowRPos(2, Quantum(e0) - 53);
    RoundReal(x / PowR(2, Quantum(e0) - 53), mode)
  }

  lemma RatioBounds(n: nat, d: nat, y: real, lo: nat, hi: nat)
    requires d > 0 && y * d as real == n as real && d * lo <= n < d * hi
    ensures lo as real <= y < hi as real
  {
    RealProduct(d, lo);
    RealProduct(d, hi);
    var c := d as real;
    IntGap(d * lo, n);
    IntGap(n, d * lo);
    IntGap(n, d * hi);
    BoundAtLeast(y, c, n as real, lo as real);
    BoundBelow(y, c, n as real, hi as real, (d * hi) as real);
  }

  /** A sticky quotient has as many bits as the exact one. */
  lemma StickyBinade(n: nat, d: nat, l: nat)
    requires d > 0 && l >= 1 && Pow(2, l) <= Sticky(n, d) < Pow(2, l + 1)
    ensures d * Pow(2, l) <= n < d * Pow(2, l + 1)
  {
    hide *;
    PowAdd(2, 1, l - 1);
    PowOne(2);
    StickyQuotient(n, d, Pow(2, l - 1));
    DivMod(n, d);
    var q := n / d;
    MulMono(Pow(2, l), q, d);
    MulMono(q + 1, Pow(2, l + 1), d);
  }

  /** The quotient is at least an even bound if the sticky quotient is. */
  lemma StickyQuotient(n: nat, d: nat, half: nat)
    requires d > 0
    ensures n / d <= Sticky(n, d) && (2 * half <= Sticky(n, d) ==> 2 * half <= n / d)
  {
  }

  /** The number a pair (v, eOffset) stands for lies in the binade of v. */
  lemma PoweredBinade(v: nat, eOffset: int, k: nat, n: nat, radix1: nat, radixShift: nat, f: int, e0: int, x: real)
    requires radix1 > 0 && Powered(v, eOffset, k, n, radix1, radixShift, f) && e0 + eOffset > 0
    requires Pow(2, e0 + eOffset - 1) <= v < Pow(2, e0 + eOffset)
    requires f < 0 && radix1 != 1 ==> e0 + eOffset >= 2
    requires radix1 * Pow(2, radixShift) > 0 && x == n as real * PowR(radix1 * Pow(2, radixShift), f)
    ensures InBinade(x, e0)
  {
    hide Pow, PowR, Sticky;
    var y := n as real * PowR(radix1, f);
    SplitRadix(n, radix1, radixShift, f, eOffset, y);
    var t := f * radixShift + eOffset;
    var z := y * PowR(2, t);
    SameProductReal(x, n as real, PowR(radix1 * Pow(2, radixShift), f), PowR(2, eOffset));
    if f >= 0 || radix1 == 1 {
      ExactBinade(v, eOffset, k, n, radix1, radixShift, f, e0, y, t, z);
    } else {
      DividedBinade(v, eOffset, k, n, radix1, radixShift, f, e0, y, t, z);
    }
    ScaleBinade(x, eOffset, z, e0);
  }

  lemma SameProductReal(x: real, a: real, b: real, c: real)
    requires x == a * b
    ensures a * b * c == x * c
  {
  }

  lemma ExactBinade(v: nat, eOffset: int, k: nat, n: nat, radix1: nat, radixShift: nat, f: int, e0: int, y: real, t: int, z: real)
    requires radix1 > 0 && Powered(v, eOffset, k, n, radix1, radixShift, f) && e0 + eOffset > 0
    requires Pow(2, e0 + eOffset - 1) <= v < Pow(2, e0 + eOffset)
    requires f >= 0 || radix1 == 1
    requires y == n as real * PowR(radix1, f) && t == f * radixShift + eOffset && z == y * PowR(2, t)
    ensures PowR(2, e0 + eOffset - 1) <= z < PowR(2, e0 + eOffset)
  {
    hide Pow, PowR, Sticky;
    ExactProduct(v, n, radix1, f);
    PowROne(2);
    assert t == 0 && z == v as real;
    PowRNat(2, e0 + eOffset - 1);
    PowRNat(2, e0 + eOffset);
  }

  lemma DividedBinade(v: nat, eOffset: int, k: nat, n: nat, radix1: nat, radixShift: nat, f: int, e0: int, y: real, t: int, z: real)
    requires radix1 > 0 && Powered(v, eOffset, k, n, radix1, radixShift, f) && e0 + eOffset >= 2
    requires Pow(2, e0 + eOffset - 1) <= v < Pow(2, e0 + eOffset)
    requires f < 0 && radix1 != 1
    requires y == n as real * PowR(radix1, f) && t == f * radixShift + eOffset && z == y * PowR(2, t)
    ensures PowR(2, e0 + eOffset - 1) <= z < PowR(2, e0 + eOffset)
  {
    hide Pow, PowR, Sticky;
    var l := e0 + eOffset - 1;
    var d := Pow(radix1, -f);
    PowRNat(radix1, -f);
    InverseTimes(n as real, d as real);
    StickyBinade(n * Pow(2, k), d, l);
    assert t == k;
    PowRNat(2, k);
    RealProduct(n, Pow(2, k));
    MoveFactor(y, PowR(2, t), d as real);
    RatioBounds(n * Pow(2, k), d, z, Pow(2, l), Pow(2, l + 1));
    PowRNat(2, l);
    PowRNat(2, l + 1);
  }

  lemma MoveFactor(y: real, p: real, d: real)
    ensures (y * p) * d == (y * d) * p
  {
  }

  lemma ScaleBinade(x: real, eOffset: int, z: real, e0: int)
    requires x * PowR(2, eOffset) == z && PowR(2, e0 + eOffset - 1) <= z < PowR(2, e0 + eOffset)
    ensures InBinade(x, e0)
  {
    hide PowR;
    PowRPos(2, eOffset);
    PowRAdd(2, e0 - 1, eOffset);
    PowRAdd(2, e0, eOffset);
    BoundAtLeast(x, PowR(2, eOffset), z, PowR(2, e0 - 1));
    BoundBelow(x, PowR(2, eOffset), z, PowR(2, e0), PowR(2, e0 + eOffset));
  }

  lemma DivideByPower(x: real, t: int, u: int, z: real)
    requires t + u == 0 && z == x * PowR(2, u)
    ensures PowR(2, t) > 0.0 && x / PowR(2, t) == z
  {
    hide PowR;
    PowRPos(2, t);
    PowRAdd(2, t, u);
    PowROne(2);
    DivideUnique(x, PowR(2, t), PowR(2, u));
  }

  lemma DivideUnique(x: real, p: real, q: real)
    requires p > 0.0 && p * q == 1.0
    ensures x / p == x * q
  {
    var y := x / p;
    assert y * p == x;
    assert x * q == (y * p) * q == y * (p * q);
  }

  /** The integer rounding of round_to_d is the rounding of the real number. */
  lemma ShiftedIsQuanta(v: nat, eOffset: int, k: nat, n: nat, radix1: nat, radixShift: nat, f: int, e0: int, x: real, mode: Rounding)
    requires radix1 > 0 && Powered(v, eOffset, k, n, radix1, radixShift, f)
    requires f >= 0 || radix1 == 1 || eOffset + Quantum(e0) - 53 >= 2
    requires radix1 * Pow(2, radixShift) > 0 && x == n as real * PowR(radix1 * Pow(2, radixShift), f)
    ensures Quanta(x, e0, mode) == Shifted(v, eOffset + Quantum(e0) - 53, mode)
  {
    hide Pow, PowR, RoundReal, RoundDiv, Powered;
    var s := eOffset + Quantum(e0) - 53;
    var t := 53 - Quantum(e0);
    var z := n as real * PowR(radix1 * Pow(2, radixShift), f) * PowR(2, t);
    SameProductReal(x, n as real, PowR(radix1 * Pow(2, radixShift), f), PowR(2, t));
    PoweredRounds(v, eOffset, k, n, radix1, radixShift, f, s, t, z, mode);
    QuantaAs(x, e0, z, t, mode);
  }

  lemma QuantaAs(x: real, e0: int, z: real, t: int, mode: Rounding)
    requires t == 53 - Quantum(e0) && z == x * PowR(2, t)
    ensures Quanta(x, e0, mode) == RoundReal(z, mode)
  {
    hide PowR, RoundReal;
    DivideByPower(x, Quantum(e0) - 53, t, z);
  }

  /** The last part of js_atod: the bit pattern of a rounded significand and its exponent. */
  function Encode(m: nat, e: int): nat {
    if m == 0 then 0
    else if e > 1024 then INF
    else if e < -1073 then 0
    else if e < -1021 then
      PowPos(2, -e - 1021);
      m / Pow(2, -e - 1021)
    else (e + 1022) * MANT + m % MANT
  }

  /** The encoding of a rounded number is its bit pattern, clamped at infinity. */
  lemma EncodeRounded(x: nat, e0: int)
    requires x * Pow(2, Lost(e0)) <= 2 * MANT && (e0 >= -1021 ==> x >= MANT)
    ensures BitsAt(Quantum(e0), x) >= 0
    ensures var (m, e) := Normalised(x, e0); var a := BitsAt(Quantum(e0), x); Encode(m, e) == if a <= INF then a else INF
  {
    PowOne(2);
    if e0 >= -1021 {
      EncodeNormal(x, e0);
    } else {
      EncodeSubnormal(x, e0);
    }
  }

  lemma EncodeNormal(x: nat, e0: int)
    requires e0 >= -1021 && MANT <= x <= 2 * MANT
    ensures BitsAt(Quantum(e0), x) >= 0
    ensures var (m, e) := Normalised(x, e0); var a := BitsAt(Quantum(e0), x); Encode(m, e) == if a <= INF then a else INF
  {
    PowOne(2);
    hide Pow;
    if x < 2 * MANT {
      DivUnique(x, MANT, 1, x - MANT);
    }
  }

  lemma EncodeSubnormal(x: nat, e0: int)
    requires e0 < -1021 && x * Pow(2, Lost(e0)) <= 2 * MANT
    ensures var (m, e) := Normalised(x, e0); x <= INF && BitsAt(Quantum(e0), x) == x && Encode(m, e) == x
  {
    var j := Lost(e0);
    var p := Pow(2, j);
    PowPos(2, j);
    MulMono(1, p, x);
    Pow53();
    if x > 0 {
      MulMono(1, x, p);
      if j > 53 { PowStrict(2, 53, j); }
    }
    var h := Pow(2, j - 1);
    PowPos(2, j - 1);
    assert p == 2 * h;
    hide Pow;
    DivExact(x, p);
    if x * p >= 2 * MANT {
      assert x * p == (x * h) * 2;
      DivExact(x * h, 2);
      DivExact(x, h);
      if e0 == -1022 { PowOne(2); }
    }
  }

  /** Quanta of a number stay within 53 bits, even when some of them are lost. */
  lemma QuantaBound(x: real, e0: int)
    requires InBinade(x, e0)
    ensures 0 <= Quanta(x, e0, NearestEven) && Quanta(x, e0, NearestEven) * Pow(2, Lost(e0)) <= 2 * MANT
    ensures e0 >= -1021 ==> Quanta(x, e0, NearestEven) >= MANT
    ensures Quanta(x, e0, NearestEven) > 0 ==> Quanta(x, e0, NearestEven) * Pow(2, Lost(e0)) >= MANT
  {
    hide Pow, PowR, RoundReal;
    QuantaRange(x, e0);
    PowOne(2);
    if e0 < -1021 {
      FewerQuanta(x, e0);
    }
  }

  lemma FewerQuanta(x: real, e0: int)
    requires InBinade(x, e0) && e0 < -1021
    ensures 0 <= Quanta(x, e0, NearestEven) && Quanta(x, e0, NearestEven) * Pow(2, Lost(e0)) <= 2 * MANT
    ensures Quanta(x, e0, NearestEven) > 0 ==> Quanta(x, e0, NearestEven) * Pow(2, Lost(e0)) >= MANT
  {
    hide Pow, PowR, RoundReal;
    var j: int := Lost(e0);
    QuantaRange(x, e0);
    var u := PowR(2, -1074);
    var q := x / u;
    assert q * u == x;
    PowRAdd(2, 53 - j, -1074);
    BoundBelow(q, u, x, PowR(2, 53 - j), PowR(2, e0));
    Pow53();
    if j <= 53 {
      PowRNat(2, 53 - j);
      RoundMono(q, Pow(2, 53 - j) as real, NearestEven);
      RoundInteger(Pow(2, 53 - j), NearestEven);
      KeptBits(Quanta(x, e0, NearestEven), j);
      AtLeastHalf(x, q, e0);
    } else {
      if j > 54 { PowRMono(2, 53 - j, -1); }
      PowRNext(2, -1);
      PowROne(2);
      assert q < 0.5;
      RoundUnique(q, 0);
      assert 0 * Pow(2, j) == 0;
    }
  }

  /** A subnormal number does not round below the start of its binade, unless to zero. */
  lemma AtLeastHalf(x: real, q: real, e0: int)
    requires InBinade(x, e0) && e0 < -1021 && Lost(e0) <= 53 && q * PowR(2, -1074) == x && q == x / PowR(2, -1074)
    requires Quanta(x, e0, NearestEven) >= 0
    ensures Quanta(x, e0, NearestEven) > 0 ==> Quanta(x, e0, NearestEven) * Pow(2, Lost(e0)) >= MANT
  {
    hide Pow, PowR, RoundReal;
    var j := Lost(e0);
    var n := Quanta(x, e0, NearestEven);
    PowPos(2, j);
    Pow52();
    if j <= 52 {
      PowRPos(2, -1074);
      PowRAdd(2, 52 - j, -1074);
      BoundAtLeast(q, PowR(2, -1074), x, PowR(2, 52 - j));
      PowRNat(2, 52 - j);
      RoundMono(Pow(2, 52 - j) as real, q, NearestEven);
      RoundInteger(Pow(2, 52 - j), NearestEven);
      MulMono(Pow(2, 52 - j), n, Pow(2, j));
      PowAdd(2, 52 - j, j);
    } else if n > 0 {
      PowMono(2, 52, j);
      MulMono(1, n, Pow(2, j));
    }
  }

  /** Rounding to binary64 and encoding gives the nearest bit pattern. */
  lemma RoundsToNearest(m: nat, e: int, x: real)
    requires RoundsTo(m, e, x, NearestEven)
    ensures IsNearest(Encode(m, e), x)
  {
    hide Normalised, Encode, Pow, PowR, RoundReal, IsNearest, InBinade;
    var e0: int :| RoundsIn(m, e, x, e0, NearestEven);
    QuantaBound(x, e0);
    EncodeRounded(Quanta(x, e0, NearestEven), e0);
    RoundedIsNearest(x, e0);
  }

  /** A significand of 53 bits that an exponent can have. */
  ghost predicate Canonical(m: nat, e: int) {
    PowPos(2, Lost(e));
    MANT <= m < 2 * MANT && -1073 <= e <= 1024 && m % Pow(2, Lost(e)) == 0
  }

  lemma CanonicalParts(m: nat, e: int) returns (x: nat)
    requires Canonical(m, e)
    ensures m == x * Pow(2, Lost(e)) && Encode(m, e) == BitsAt(Quantum(e), x)
    ensures e >= -1021 ==> x == m
  {
    var p := Pow(2, Lost(e));
    PowPos(2, Lost(e));
    DivMod(m, p);
    x := m / p;
    PowOne(2);
    if e >= -1021 {
      DivUnique(m, MANT, 1, m - MANT);
    }
  }

  /** Different canonical pairs have different encodings. */
  lemma EncodeInjective(m: nat, e: int, m1: nat, e1: int)
    requires Canonical(m, e) && Canonical(m1, e1) && Encode(m, e) == Encode(m1, e1)
    ensures m == m1 && e == e1
  {
    hide Pow, Encode;
    var x := CanonicalParts(m, e);
    var x1 := CanonicalParts(m1, e1);
    if e < -1021 { BelowMant(x, m, e); }
    if e1 < -1021 { BelowMant(x1, m1, e1); }
    if e < -1021 && e1 < -1021 {
      assert x == x1;
      if e < e1 {
        SmallerScale(x, e, m, e1, m1);
      } else if e1 < e {
        SmallerScale(x, e1, m1, e, m);
      }
    }
  }

  lemma BelowMant(x: nat, m: nat, e: int)
    requires e < -1021 && m == x * Pow(2, Lost(e)) && m < 2 * MANT
    ensures x < MANT
  {
    PowMono(2, 1, Lost(e));
    PowOne(2);
    hide Pow;
    MulMono(2, Pow(2, Lost(e)), x);
  }

  lemma SmallerScale(x: nat, e: int, m: nat, e1: int, m1: nat)
    requires e < e1 < -1021 && m == x * Pow(2, Lost(e)) && m1 == x * Pow(2, Lost(e1))
    ensures m >= 2 * m1
  {
    PowAdd(2, e1 - e, Lost(e1));
    PowMono(2, 1, e1 - e);
    PowOne(2);
    hide Pow;
    MulMono(2, Pow(2, e1 - e), Pow(2, Lost(e1)));
    MulMono(2 * Pow(2, Lost(e1)), Pow(2, Lost(e)), x);
    assert x * (2 * Pow(2, Lost(e1))) == 2 * (x * Pow(2, Lost(e1)));
  }

  /** What is rounded is canonical, unless it is zero or too large. */
  lemma RoundsToCanonical(m: nat, e: int, x: real)
    requires RoundsTo(m, e, x, NearestEven) && m > 0 && e <= 1024
    ensures Canonical(m, e)
  {
    hide PowR, RoundReal, InBinade;
    var e0: int :| RoundsIn(m, e, x, e0, NearestEven);
    QuantaBound(x, e0);
    NormalisedCanonical(Quanta(x, e0, NearestEven), e0);
  }

  lemma NormalisedCanonical(x: nat, e0: int)
    requires x * Pow(2, Lost(e0)) <= 2 * MANT && (x > 0 ==> x * Pow(2, Lost(e0)) >= MANT)
    ensures var (m, e) := Normalised(x, e0); m > 0 && e <= 1024 && e0 <= 1024 ==> Canonical(m, e)
  {
    hide Pow;
    var j := Lost(e0);
    var p := Pow(2, j);
    PowPos(2, j);
    Pow53();
    if x > 0 {
      MulMono(1, x, p);
      if j > 53 { PowStrict(2, 53, j); }
      DivExact(x, p);
      if x * p >= 2 * MANT {
        Pow52();
        var l := Lost(e0 + 1);
        PowAdd(2, 52 - l, l);
        PowPos(2, l);
        DivExact(Pow(2, 52 - l), Pow(2, l));
      } else if j == 53 {
        MulMono(1, x, p);
      }
    } else {
      assert 0 * p == 0;
    }
  }

  // --- mul_pow_round_to_d ---

  /** A power of the odd radix fits the limbs that are reserved for it. */
  lemma PowerLimbs(radix1: int, f: nat)
    requires ValidOddRadix(radix1) && radix1 != 1
    ensures Pow(radix1, f) <= Pow(2, DigitLimbs(radix1, f) * 32)
  {
    hide Pow;
    DigitsRange(radix1);
    LimbBase(radix1);
    var d := DIGITS_PER_LIMB[radix1 - 2];
    var l := Chunks(f, d);
    ChunksCover(f, d);
    PowMono(radix1, f, d * l);
    PowPow(radix1, d, l);
    PowPow(2, 32, l);
    Pow32();
    PowBaseMono(Pow(radix1, d), BASE, l);
  }

  lemma ChunksCover(f: nat, d: nat)
    requires d > 0
    ensures f <= d * Chunks(f, d)
  {
    DivMod(f + d - 1, d);
  }

  /** A quotient for which 55 bits were kept has at least 56 bits. */
  lemma QuotientBits(v: nat, n: nat, k: nat, radix1: int, f: nat)
    requires ValidOddRadix(radix1) && radix1 != 1 && Pow(radix1, f) > 0 && v == Sticky(n * Pow(2, k), Pow(radix1, f))
    requires k >= DigitLimbs(radix1, f) * 32 && n * Pow(2, k - DigitLimbs(radix1, f) * 32) >= Pow(2, 55)
    ensures v >= Pow(2, 55)
  {
    hide Pow, DigitLimbs;
    var w := DigitLimbs(radix1, f) * 32;
    PowerLimbs(radix1, f);
    PowAdd(2, k - w, w);
    PowPos(2, w);
    var d := Pow(radix1, f);
    LargeQuotient(n, Pow(2, k - w), Pow(2, w), d, Pow(2, 55), n * Pow(2, k));
  }

  lemma LargeQuotient(n: nat, p: nat, w: nat, d: nat, m: nat, total: nat)
    requires d > 0 && d <= w && n * p >= m && total == n * (p * w)
    ensures total / d >= m
  {
    assert total == (n * p) * w;
    MulMono(m, n * p, w);
    MulMono(d, w, m);
    DivMod(total, d);
    if total / d < m { MulMono(total / d + 1, m, d); }
  }

  /** A number that is not tiny leaves mul_pow with enough bits above its offset. */
  lemma NotTiny(v: nat, eOffset: int, k: nat, n: nat, radix1: nat, radixShift: nat, f: int, x: real)
    requires radix1 > 0 && Powered(v, eOffset, k, n, radix1, radixShift, f) && eOffset >= 1085
    requires radix1 * Pow(2, radixShift) > 0 && x == n as real * PowR(radix1 * Pow(2, radixShift), f)
    requires x >= PowR(2, -1085)
    ensures v >= Pow(2, eOffset - 1085)
  {
    hide Pow, PowR, Sticky;
    var y := n as real * PowR(radix1, f);
    SplitRadix(n, radix1, radixShift, f, eOffset, y);
    SameProductReal(x, n as real, PowR(radix1 * Pow(2, radixShift), f), PowR(2, eOffset));
    var z := y * PowR(2, f * radixShift + eOffset);
    AboveScaled(x, z, eOffset);
    if f >= 0 || radix1 == 1 {
      ExactProduct(v, n, radix1, f);
      PowROne(2);
      IntGap(v, Pow(2, eOffset - 1085));
    } else {
      DividedNotTiny(v, eOffset, k, n, radix1, radixShift, f, y, z);
    }
  }

  lemma AboveScaled(x: real, z: real, eOffset: int)
    requires eOffset >= 1085 && x >= PowR(2, -1085) && z == x * PowR(2, eOffset)
    ensures z >= Pow(2, eOffset - 1085) as real
  {
    hide Pow, PowR;
    PowRPos(2, eOffset);
    PowRAdd(2, -1085, eOffset);
    RealMono(PowR(2, -1085), x, PowR(2, eOffset));
    PowRNat(2, eOffset - 1085);
  }

  lemma DividedNotTiny(v: nat, eOffset: int, k: nat, n: nat, radix1: nat, radixShift: nat, f: int, y: real, z: real)
    requires radix1 > 0 && Powered(v, eOffset, k, n, radix1, radixShift, f) && eOffset >= 1085 && f < 0 && radix1 != 1
    requires y == n as real * PowR(radix1, f) && z == y * PowR(2, f * radixShift + eOffset)
    requires z >= Pow(2, eOffset - 1085) as real
    ensures v >= Pow(2, eOffset - 1085)
  {
    hide Pow, PowR, Sticky;
    var d := Pow(radix1, -f);
    PowRNat(radix1, -f);
    InverseTimes(n as real, d as real);
    PowRNat(2, k);
    RealProduct(n, Pow(2, k));
    MoveFactor(y, PowR(2, k), d as real);
    QuotientAbove(n * Pow(2, k), d, z, Pow(2, eOffset - 1085));
  }

  lemma QuotientAbove(n: nat, d: nat, z: real, lo: nat)
    requires d > 0 && z * d as real == n as real && z >= lo as real
    ensures Sticky(n, d) >= lo
  {
    RealProduct(lo, d);
    RealMono(lo as real, z, d as real);
    IntGap(n, lo * d);
    DivMod(n, d);
    if n / d < lo { MulMono(n / d + 1, lo, d); }
  }

  /** mul_pow_round_to_d: a * radix^f rounded to binary64. */
  method MulPowRoundToD(a: Bignum, radix1: int, radixShift: nat, f: int, mode: Rounding, ghost x: real) returns (m: nat, e: int)
    requires a.Normal() && a.Val() > 0 && ValidOddRadix(radix1) && radix1 * Pow(2, radixShift) > 0
    requires x == a.Val() as real * PowR(radix1 * Pow(2, radixShift), f) && x >= PowR(2, -1085)
    requires a.tab.Length >= a.len + DigitLimbs(radix1, if f >= 0 then f else -f) + 5
    modifies a, a.tab
    ensures a.Valid() && RoundsTo(m, e, x, mode)
  {
    hide Pow, PowR, Sticky, Powered, Value, DigitLimbs, Normalised, Shifted, RoundReal, RoundsTo;
    ghost var n := a.Val();
    var eOffset, k := MulPow(a, radix1, radixShift, f, false, 55);
    ghost var v := a.Val();
    PoweredFacts(v, eOffset, k, n, radix1, radixShift, f, x);
    ghost var e0;
    m, e, e0 := RoundToD(a, eOffset, mode);
    EnoughAboveCut(v, e0, eOffset, f, radix1);
    PoweredBinade(v, eOffset, k, n, radix1, radixShift, f, e0, x);
    ShiftedIsQuanta(v, eOffset, k, n, radix1, radixShift, f, e0, x, mode);
    RoundsWitness(m, e, x, e0, mode);
  }

  lemma EnoughAboveCut(v: nat, e0: int, eOffset: int, f: int, radix1: int)
    requires e0 + eOffset > 0 && v < Pow(2, e0 + eOffset) && (f < 0 && radix1 != 1 ==> v >= Pow(2, 55))
    ensures f < 0 && radix1 != 1 ==> e0 + eOffset >= 56
  {
    hide Pow;
    if e0 + eOffset < 56 { PowMono(2, e0 + eOffset, 55); }
  }

  lemma PoweredFacts(v: nat, eOffset: int, k: nat, n: nat, radix1: int, radixShift: nat, f: int, x: real)
    requires ValidOddRadix(radix1) && Powered(v, eOffset, k, n, radix1, radixShift, f) && n > 0
    requires radix1 * Pow(2, radixShift) > 0 && x == n as real * PowR(radix1 * Pow(2, radixShift), f)
    requires x >= PowR(2, -1085)
    requires f < 0 && radix1 != 1 ==>
      k >= DigitLimbs(radix1, -f) * 32 && n * Pow(2, k - DigitLimbs(radix1, -f) * 32) >= Pow(2, 55)
    ensures v > 0 && (eOffset >= 1085 ==> v >= Pow(2, eOffset - 1085))
    ensures f < 0 && radix1 != 1 ==> v >= Pow(2, 55)
  {
    hide Pow, PowR, Sticky, DigitLimbs;
    if f >= 0 || radix1 == 1 {
      ExactProduct(v, n, radix1, f);
    } else {
      QuotientBits(v, n, k, radix1, -f);
      PowPos(2, 55);
    }
    if eOffset >= 1085 {
      NotTiny(v, eOffset, k, n, radix1, radixShift, f, x);
    }
  }
}
