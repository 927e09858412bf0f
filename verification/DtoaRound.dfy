/** mul_pow_round and round_to_d: a number times a power of the radix, rounded exactly once. */
module DtoaRound {
  import opened DtoaArith
  import opened DtoaReal
  import opened DtoaLimbs
  import opened DtoaBignum
  import opened DtoaPower
  import opened DtoaSpec

  /** (radix1 * 2^shift)^f */
  lemma RadixPower(radix1: nat, radixShift: nat, f: int)
    requires radix1 > 0
    ensures Pow(2, radixShift) > 0 && radix1 * Pow(2, radixShift) > 0
    ensures PowR(radix1 * Pow(2, radixShift), f) == PowR(radix1, f) * PowR(2, f * radixShift)
  {
    hide Pow, PowR;
    PowPos(2, radixShift);
    PowRProduct(radix1, Pow(2, radixShift), f);
    PowRPow(2, radixShift, f);
  }

  /** The power of two that is left when the radix is split into its odd part and 2^shift. */
  lemma SplitRadix(n: nat, radix1: nat, radixShift: nat, f: int, t: int, y: real)
    requires radix1 > 0 && y == n as real * PowR(radix1, f)
    ensures radix1 * Pow(2, radixShift) > 0
    ensures n as real * PowR(radix1 * Pow(2, radixShift), f) * PowR(2, t) == y * PowR(2, f * radixShift + t)
  {
    hide Pow, PowR;
    RadixPower(radix1, radixShift, f);
    PowRAdd(2, f * radixShift, t);
    var a, b, c := PowR(radix1, f), PowR(2, f * radixShift), PowR(2, t);
    assert n as real * (a * b) * c == (n as real * a) * (b * c);
  }

  lemma OnePowR(f: int)
    ensures PowR(1, f) == 1.0
  {
    OnePow(if f >= 0 then f else -f);
  }

  /** An exact integer times a power of two, rounded. */
  lemma RoundExactly(v: nat, y: real, s: int, t: int, x: real, mode: Rounding)
    requires y == v as real && t == -s && x == y * PowR(2, t)
    ensures s > 0 ==> Pow(2, s) > 0 && RoundDiv(v, Pow(2, s), mode) == RoundReal(x, mode)
    ensures s <= 0 ==> v * Pow(2, -s) == RoundReal(x, mode)
  {
    hide Pow, PowR, RoundReal, RoundDiv;
    if s > 0 {
      PowRNat(2, s);
      InverseTimes(y, Pow(2, s) as real);
      RoundRatio(v, Pow(2, s), x, mode);
    } else {
      PowRNat(2, -s);
      RealProduct(v, Pow(2, -s));
      RoundInteger(v * Pow(2, -s), mode);
      assert x == (v * Pow(2, -s)) as real;
    }
  }

  lemma InverseTimes(v: real, p: real)
    requires p > 0.0
    ensures (v * (1.0 / p)) * p == v
  {
    var y := 1.0 / p;
    assert y * p == 1.0;
    assert (v * y) * p == v * (y * p);
  }

  /** A sticky quotient, with at least two bits to go, rounds as the exact quotient. */
  lemma RoundSticky(n: nat, k: nat, d: nat, s: nat, z: real, t: int, x: real, mode: Rounding)
    requires d > 0 && s >= 2 && z * d as real == n as real && t == k - s && x == z * PowR(2, t)
    ensures Pow(2, s) > 0
    ensures RoundDiv(Sticky(n * Pow(2, k), d), Pow(2, s), mode) == RoundReal(x, mode)
  {
    hide Pow, PowR, RoundReal, RoundDiv, Sticky;
    StickyRounds(n * Pow(2, k), d, s, mode);
    ScaledRatio(n, k, d, s, z, t);
    RoundRatio(n * Pow(2, k), d * Pow(2, s), x, mode);
  }

  lemma ScaledRatio(n: nat, k: nat, d: nat, s: nat, z: real, t: int)
    requires z * d as real == n as real && t == k - s
    ensures (z * PowR(2, t)) * (d * Pow(2, s)) as real == (n * Pow(2, k)) as real
  {
    hide Pow, PowR;
    PowRNat(2, k);
    PowRNat(2, s);
    PowRAdd(2, t, s);
    RealProduct(n, Pow(2, k));
    RealProduct(d, Pow(2, s));
    CrossProduct(z, PowR(2, t), d as real, PowR(2, s));
  }

  lemma CrossProduct(z: real, q: real, c: real, p: real)
    ensures (z * q) * (c * p) == (z * c) * (q * p)
  {
  }

  lemma ExactProduct(v: nat, n: nat, radix1: nat, f: int)
    requires radix1 > 0 && (f >= 0 || radix1 == 1) && v == n * Pow(radix1, if f >= 0 then f else 0)
    ensures v as real == n as real * PowR(radix1, f)
    ensures n > 0 ==> v > 0
  {
    hide Pow, PowR;
    var i := if f >= 0 then f else 0;
    PowPos(radix1, i);
    RealProduct(n, Pow(radix1, i));
    if f >= 0 {
      PowRNat(radix1, f);
    } else {
      OnePowR(f);
      PowOne(radix1);
    }
    if n > 0 { MulPos(n, Pow(radix1, i)); }
  }

  /** Shifting out s bits of what mul_pow left rounds n * radix^f * 2^t, t = eOffset - s. */
  lemma PoweredRounds(v: nat, eOffset: int, k: nat, n: nat, radix1: nat, radixShift: nat, f: int, s: int, t: int,
        x: real, mode: Rounding)
    requires radix1 > 0 && Powered(v, eOffset, k, n, radix1, radixShift, f) && t == eOffset - s
    requires s >= 2 || f >= 0 || radix1 == 1
    requires radix1 * Pow(2, radixShift) > 0 && x == n as real * PowR(radix1 * Pow(2, radixShift), f) * PowR(2, t)
    ensures s > 0 ==> Pow(2, s) > 0 && RoundDiv(v, Pow(2, s), mode) == RoundReal(x, mode)
    ensures s <= 0 ==> v * Pow(2, -s) == RoundReal(x, mode)
  {
    hide Pow, PowR, RoundReal, RoundDiv, Sticky;
    var y := n as real * PowR(radix1, f);
    SplitRadix(n, radix1, radixShift, f, t, y);
    if f >= 0 || radix1 == 1 {
      ExactRounds(v, eOffset, k, n, radix1, radixShift, f, s, t, y, x, mode);
    } else {
      DividedRounds(v, eOffset, k, n, radix1, radixShift, f, s, t, y, x, mode);
    }
  }

  lemma DividedRounds(v: nat, eOffset: int, k: nat, n: nat, radix1: nat, radixShift: nat, f: int, s: int, t: int,
        y: real, x: real, mode: Rounding)
    requires radix1 > 0 && Powered(v, eOffset, k, n, radix1, radixShift, f) && t == eOffset - s
    requires f < 0 && radix1 != 1 && s >= 2
    requires y == n as real * PowR(radix1, f) && x == y * PowR(2, f * radixShift + t)
    ensures Pow(2, s) > 0 && RoundDiv(v, Pow(2, s), mode) == RoundReal(x, mode)
  {
    hide Pow, PowR, RoundReal, RoundDiv, Sticky;
    PowRNat(radix1, -f);
    InverseTimes(n as real, Pow(radix1, -f) as real);
    RoundSticky(n, k, Pow(radix1, -f), s, y, f * radixShift + t, x, mode);
  }

  lemma ExactRounds(v: nat, eOffset: int, k: nat, n: nat, radix1: nat, radixShift: nat, f: int, s: int, t: int,
        y: real, x: real, mode: Rounding)
    requires radix1 > 0 && Powered(v, eOffset, k, n, radix1, radixShift, f) && t == eOffset - s
    requires f >= 0 || radix1 == 1
    requires y == n as real * PowR(radix1, f) && x == y * PowR(2, f * radixShift + t)
    ensures s > 0 ==> Pow(2, s) > 0 && RoundDiv(v, Pow(2, s), mode) == RoundReal(x, mode)
    ensures s <= 0 ==> v * Pow(2, -s) == RoundReal(x, mode)
  {
    hide Pow, PowR, RoundReal, RoundDiv, Sticky;
    ExactProduct(v, n, radix1, f);
    RoundExactly(v, y, s, f * radixShift + t, x, mode);
  }

  /** Limbs for a power and for the bits kept by a division, or for a final shift up. */
  function PowerRoom(radix1: int, radixShift: nat, f: int, e: int): nat
    requires ValidOddRadix(radix1)
  {
    if f < 0 && radix1 != 1 then
      DigitLimbs(radix1, -f) + ExtraLimbs(radixShift, f, DigitLimbs(radix1, -f), true, e)
    else
      DigitLimbs(radix1, if f >= 0 then f else -f) + if e + f * radixShift > 0 then (e + f * radixShift) / 32 else 0
  }

  /** mul_pow_round: round(m * 2^e * radix^f), for every sign of e and f. */
  method MulPowRound(tmp: Bignum, m: nat, e: int, radix1: int, radixShift: nat, f: int, mode: Rounding, ghost x: real)
    requires tmp.Valid() && 0 < m < BASE * BASE && ValidOddRadix(radix1)
    requires tmp.tab.Length >= 3 + PowerRoom(radix1, radixShift, f, e)
    modifies tmp, tmp.tab
    requires radix1 * Pow(2, radixShift) > 0 && x == m as real * PowR(radix1 * Pow(2, radixShift), f) * PowR(2, e)
    ensures tmp.Normal() && tmp.Val() == RoundReal(x, mode)
  {
    hide Pow, PowR, RoundReal, RoundDiv, Sticky, Powered, Value;
    tmp.SetU64(m);
    var eOffset, k := MulPow(tmp, radix1, radixShift, f, true, e);
    var s := -e + eOffset;
    ShiftRoom(eOffset, k, tmp.Val(), m, e, radix1, radixShift, f);
    PoweredRounds(tmp.Val(), eOffset, k, m, radix1, radixShift, f, s, e, x, mode);
    tmp.ShrRound(s, mode);
  }

  /** How far a result can be shifted up, which happens only if nothing was divided. */
  lemma ShiftRoom(eOffset: int, k: nat, v: nat, m: nat, e: int, radix1: int, radixShift: nat, f: int)
    requires ValidOddRadix(radix1) && Powered(v, eOffset, k, m, radix1, radixShift, f)
    requires f < 0 && radix1 != 1 ==> eOffset >= 2 + e
    ensures e - eOffset > 0 ==> e - eOffset == e + f * radixShift && (f >= 0 || radix1 == 1) && (m > 0 ==> v > 0)
  {
    hide Pow, Sticky;
    if e - eOffset > 0 {
      ExactProduct(v, m, radix1, f);
    }
  }
}
