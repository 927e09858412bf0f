/** pow_ui, pow_ui_inv and mul_pow: multiplication and division of a big number by a power of
    the radix, with the sticky bit that keeps later rounding exact. */
module DtoaPower {
  import opened DtoaArith
  import opened DtoaLimbs
  import opened DtoaDivide
  import opened DtoaBignum
  import opened DtoaTables

  /** The bits of b from bit i on. */
  lemma BitsFrom(b: nat, i: nat)
    ensures Pow(2, i) > 0 && Pow(2, i + 1) > 0
    ensures b / Pow(2, i) == 2 * (b / Pow(2, i + 1)) + (b / Pow(2, i)) % 2
  {
    PowPos(2, i);
    DivDiv(b, Pow(2, i), 2);
    assert Pow(2, i) * 2 == Pow(2, i + 1);
  }

  /** pow_ui: a^b, by table for powers of 5 and 10 and by squaring otherwise; 64 bits suffice. */
  method PowUi(a: nat, b: nat) returns (r: nat)
    requires a < BASE && b < BASE && Pow(a, b) < BASE * BASE
    ensures r == Pow(a, b)
  {
    PowOne(a);
    if b == 0 {
      return 1;
    }
    if b == 1 {
      return a;
    }
    if (a == 5 || a == 10) && b <= 17 {
      PowersOfFive(b);
      PowDistributes(5, 2, b);
      hide Pow;
      r := POW5[b - 1];
      if b >= 14 {
        r := r + BASE * POW5H[b - 14];
      }
      if a == 10 {
        r := r * Pow(2, b);
      }
      return;
    }
    r := SquareAndMultiply(a, b);
  }

  /** The squaring loop, from the second highest bit of b down. */
  method SquareAndMultiply(a: nat, b: nat) returns (r: nat)
    requires a < BASE && 2 <= b < BASE && Pow(a, b) < BASE * BASE
    ensures r == Pow(a, b)
  {
    hide Pow, Clz32;
    r := a;
    var i: int := 31 - Clz32(b);
    TopBit(b, i);
    PowOne(a);
    while i > 0
      invariant 0 <= i <= 31 && Pow(2, i) > 0 && r == Pow(a, b / Pow(2, i))
      decreases i
    {
      i := i - 1;
      BitsFrom(b, i);
      ghost var h, bit := b / Pow(2, i + 1), (b / Pow(2, i)) % 2;
      PowAdd(a, h, h);
      PowAdd(a, h + h, bit);
      NoOverflow(a, b, h + h, i);
      NoOverflow(a, b, h + h + bit, i);
      r := U64(r * r);
      if (b / Pow(2, i)) % 2 == 1 {
        r := U64(r * a);
      }
    }
    PowOne(2);
  }

  lemma TopBit(b: limb, i: int)
    requires b >= 2 && i == 31 - Clz32(b)
    ensures 0 <= i && Pow(2, i) > 0 && b / Pow(2, i) == 1
  {
    var n := Clz32(b);
    PowPos(2, n);
    PowPos(2, i);
    PowAdd(2, n, i);
    Pow32();
    assert Pow(2, 32) == 2 * Pow(2, 31);
    TopBitCore(b, Pow(2, n), Pow(2, i));
  }

  /** No intermediate power exceeds the result. */
  lemma NoOverflow(a: nat, b: nat, e: nat, i: nat)
    requires Pow(2, i) > 0 && e <= b / Pow(2, i) && Pow(a, b) < BASE * BASE
    ensures Pow(a, e) < BASE * BASE && U64(Pow(a, e)) == Pow(a, e)
  {
    hide Pow;
    DivMod(b, Pow(2, i));
    MulMono(1, Pow(2, i), b / Pow(2, i));
    if a > 0 {
      PowMono(a, e, b);
    } else {
      ZeroPow(e);
    }
  }

  lemma ZeroPow(e: nat)
    ensures Pow(0, e) <= 1
  {
    if e > 0 {
      assert Pow(0, e) == 0 * Pow(0, e - 1);
    }
  }

  /** pow_ui_inv: a^b normalised, its reciprocal and the shift. */
  method PowUiInv(a: nat, b: nat) returns (r: limb, rInv: limb, shift: nat)
    requires a > 0 && a < BASE && b < BASE && Pow(a, b) < BASE
    ensures shift <= 31 && r == Pow(a, b) * Pow(2, shift) && r >= HALF && IsReciprocal(r, rInv)
  {
    hide Pow, Clz32, IsReciprocal;
    PowPos(a, b);
    if a == 5 && 1 <= b <= 13 {
      PowersOfFive(b);
      FiveReciprocals(b);
      var p := POW5[b - 1];
      shift := Clz32(p);
      r := p * Pow(2, shift);
      rInv := POW5_INV[b - 1];
    } else {
      var p := PowUi(a, b);
      shift := Clz32(p);
      r := p * Pow(2, shift);
      rInv := Udiv1normInit(r);
    }
  }

  /** The result of mul_pow: `v` and `eOffset` stand for n * (radix1 * 2^shift)^f, where v is
      exact or, for a division, has its lowest bit set if it is not (k more bits were kept). */
  ghost predicate Powered(v: nat, eOffset: int, k: nat, n: nat, radix1: nat, radixShift: nat, f: int)
    requires radix1 > 0
  {
    if f >= 0 || radix1 == 1 then
      k == 0 && eOffset == -f * radixShift && v == n * Pow(radix1, if f >= 0 then f else 0)
    else
      eOffset == -f * radixShift + k && Pow(radix1, -f) > 0 && v == Sticky(n * Pow(2, k), Pow(radix1, -f))
  }

  predicate ValidOddRadix(radix1: int) {
    1 <= radix1 <= JS_RADIX_MAX && radix1 % 2 == 1
  }

  /** The number of chunks of d digits. */
  function Chunks(f: nat, d: nat): nat
    requires d > 0
  {
    (f + d - 1) / d
  }

  /** Limbs taken by f digits of the radix. */
  function DigitLimbs(radix1: int, f: nat): nat
    requires ValidOddRadix(radix1)
  {
    if radix1 == 1 || DIGITS_PER_LIMB[radix1 - 2] == 0 then 0 else Chunks(f, DIGITS_PER_LIMB[radix1 - 2])
  }

  lemma OddChunk(radix1: int, n: nat)
    requires ValidOddRadix(radix1) && radix1 != 1 && n <= DIGITS_PER_LIMB[radix1 - 2]
    ensures Pow(radix1, n) < BASE
  {
    hide Pow;
    LimbBase(radix1);
    OddBase(radix1);
    PowMono(radix1, n, DIGITS_PER_LIMB[radix1 - 2]);
  }

  /** mul_pow, multiplication: digits_per_limb digits of the power at a time. */
  method MultiplyPower(a: Bignum, radix1: int, f0: nat)
    requires a.Normal() && a.Val() > 0 && ValidOddRadix(radix1) && radix1 != 1
    requires a.len + DigitLimbs(radix1, f0) <= a.tab.Length
    modifies a, a.tab
    ensures a.Normal() && a.Val() == old(a.Val()) * Pow(radix1, f0)
    ensures a.len <= old(a.len) + DigitLimbs(radix1, f0)
  {
    hide Pow, Value, Chunks;
    var d := DIGITS_PER_LIMB[radix1 - 2];
    DigitsRange(radix1);
    PowOne(radix1);
    var f: nat, b: nat, n0: nat := f0, 0, 0;
    ghost var v0 := a.Val();
    while f != 0
      invariant f <= f0 && a.Normal() && a.Val() > 0
      invariant n0 == 0 || (n0 <= d && b == Pow(radix1, n0) && b < BASE)
      invariant a.Val() == v0 * Pow(radix1, f0 - f)
      invariant a.len + Chunks(f, d) <= old(a.len) + DigitLimbs(radix1, f0)
      decreases f
    {
      var n: nat := if f < d then f else d;
      OddChunk(radix1, n);
      if n != n0 {
        b := PowUi(radix1, n);
        n0 := n;
      }
      PowerStep(v0, radix1, f0 - f, n);
      NextChunk(f, d, n);
      a.MulLimb(b);
      f := f - n;
    }
  }

  lemma PowerStep(v0: nat, radix1: nat, done: nat, n: nat)
    requires v0 > 0 && radix1 > 0
    ensures (v0 * Pow(radix1, done)) * Pow(radix1, n) == v0 * Pow(radix1, done + n)
    ensures Pow(radix1, n) > 0 && v0 * Pow(radix1, done + n) > 0
  {
    PowAdd(radix1, done, n);
    PowPos(radix1, n);
    PowPos(radix1, done + n);
    hide Pow;
    MulAssoc(v0, Pow(radix1, done), Pow(radix1, n));
    MulPos(v0, Pow(radix1, done + n));
  }

  lemma NextChunk(f: nat, d: nat, n: nat)
    requires d > 0 && f > 0 && n == if f < d then f else d
    ensures n > 0 && Chunks(f - n, d) + 1 == Chunks(f, d)
  {
    DivMod(f + d - 1, d);
    var q, r := (f + d - 1) / d, (f + d - 1) % d;
    if f < d {
      DivUnique(f + d - 1, d, 1, f - 1);
      DivUnique(d - 1, d, 0, d - 1);
    } else {
      assert f - d + d - 1 == d * (q - 1) + r;
      DivUnique(f - d + d - 1, d, q - 1, r);
    }
  }

  /** mul_pow, division: room for the quotient is made below, and what is lost of it is
      remembered in the lowest bit. */
  method DividePower(a: Bignum, radix1: int, f0: nat, extraBits: nat) returns (ghost k: nat)
    requires a.Normal() && a.Val() > 0 && ValidOddRadix(radix1) && radix1 != 1 && f0 > 0
    requires a.len + DigitLimbs(radix1, f0) + extraBits / 32 + 1 <= a.tab.Length
    modifies a, a.tab
    ensures a.Normal() && k == DigitLimbs(radix1, f0) * 32 + extraBits
    ensures Pow(radix1, f0) > 0 && a.Val() == Sticky(old(a.Val()) * Pow(2, k), Pow(radix1, f0))
    ensures a.len <= old(a.len) + DigitLimbs(radix1, f0) + extraBits / 32 + 1
  {
    hide Pow, Value, Sticky, IsReciprocal;
    var d := DIGITS_PER_LIMB[radix1 - 2];
    DigitsRange(radix1);
    var l := (f0 + d - 1) / d;
    k := l * 32 + extraBits;
    DivUnique(k, 32, l + extraBits / 32, extraBits % 32);
    PowPos(2, k);
    MulPos(a.Val(), Pow(2, k));
    a.ShrRound(-(l * 32 + extraBits), TowardZero);
    ghost var v := a.Val();
    var rem := DivideChunks(a, radix1, f0, d);
    PowPos(radix1, f0);
    if rem {
      a.SetLowBit();
    }
    StickyIs(v, Pow(radix1, f0));
  }

  lemma StickyIs(n: nat, d: nat)
    requires d > 0
    ensures n % d == 0 ==> Sticky(n, d) == n / d
    ensures n % d != 0 ==> Sticky(n, d) == if (n / d) % 2 == 1 then n / d else n / d + 1
  {
  }

  /** Divides by the power, chunk by chunk; `rem` says whether anything is left over. */
  method DivideChunks(a: Bignum, radix1: int, f0: nat, d: nat) returns (rem: bool)
    requires a.Normal() && ValidOddRadix(radix1) && radix1 != 1 && d == DIGITS_PER_LIMB[radix1 - 2] && d > 0
    modifies a, a.tab
    ensures a.Normal() && a.len <= old(a.len) && Pow(radix1, f0) > 0
    ensures a.Val() == old(a.Val()) / Pow(radix1, f0) && (rem <==> old(a.Val()) % Pow(radix1, f0) != 0)
  {
    hide Pow, Value, IsReciprocal;
    PowOne(radix1);
    var f: nat, n0: nat := f0, 0;
    var b: limb, bInv: limb, shift: nat := 0, 0, 0;
    ghost var v := a.Val();
    rem := false;
    while f != 0
      invariant f <= f0 && a.Normal() && a.len <= old(a.len) && Pow(radix1, f0 - f) > 0
      invariant n0 == 0 || (n0 <= d && shift <= 31 && b == Pow(radix1, n0) * Pow(2, shift) && b >= HALF && IsReciprocal(b, bInv))
      invariant a.Val() == v / Pow(radix1, f0 - f) && (rem <==> v % Pow(radix1, f0 - f) != 0)
      decreases f
    {
      var n: nat := if f < d then f else d;
      OddChunk(radix1, n);
      PowPos(radix1, n);
      if n != n0 {
        b, bInv, shift := PowUiInv(radix1, n);
        n0 := n;
      }
      PowAdd(radix1, f0 - f, n);
      DivDiv(v, Pow(radix1, f0 - f), Pow(radix1, n));
      var r := a.DivNorm(b, bInv, shift, Pow(radix1, n));
      rem := rem || r != 0;
      f := f - n;
    }
  }

  /** mul_pow */
  method MulPow(a: Bignum, radix1: int, radixShift: nat, f: int, isInt: bool, e: int) returns (eOffset: int, ghost k: nat)
    requires a.Normal() && a.Val() > 0 && ValidOddRadix(radix1)
    requires f >= 0 ==> a.len + DigitLimbs(radix1, f) <= a.tab.Length
    requires f < 0 && radix1 != 1 ==>
      a.len + DigitLimbs(radix1, -f) + ExtraLimbs(radixShift, f, DigitLimbs(radix1, -f), isInt, e) <= a.tab.Length
    modifies a, a.tab
    ensures a.Normal() && Powered(a.Val(), eOffset, k, old(a.Val()), radix1, radixShift, f)
    ensures a.len <= old(a.len) + DigitLimbs(radix1, if f >= 0 then f else -f) +
      if f < 0 && radix1 != 1 then ExtraLimbs(radixShift, f, DigitLimbs(radix1, -f), isInt, e) else 0
    ensures f < 0 && radix1 != 1 && isInt ==> eOffset >= 2 + e
    ensures f < 0 && radix1 != 1 && !isInt ==>
      k >= DigitLimbs(radix1, -f) * 32 && old(a.Val()) * Pow(2, k - DigitLimbs(radix1, -f) * 32) >= Pow(2, if e > 0 then e else 0)
  {
    hide Pow, Value, Sticky;
    eOffset := -f * radixShift;
    k := 0;
    if radix1 != 1 {
      if f >= 0 {
        MultiplyPower(a, radix1, f);
      } else {
        var d := DIGITS_PER_LIMB[radix1 - 2];
        DigitsRange(radix1);
        var l := (-f + d - 1) / d;
        eOffset := eOffset + l * 32;
        var extraBits: nat;
        if !isInt {
          var log := a.FloorLog2();
          extraBits := if e - log > 0 then e - log else 0;
          EnoughBits(a.Val(), log, e, extraBits);
        } else {
          extraBits := if 2 + e - eOffset > 0 then 2 + e - eOffset else 0;
        }
        eOffset := eOffset + extraBits;
        ExtraFits(extraBits, radixShift, f, l, isInt, e);
        k := DividePower(a, radix1, -f, extraBits);
      }
    } else {
      OnePow(if f >= 0 then f else 0);
    }
  }

  /** Limbs for the extra bits that a division keeps. */
  function ExtraLimbs(radixShift: nat, f: int, limbs: nat, isInt: bool, e: int): nat {
    var bits := if isInt then 2 + e + f * radixShift - limbs * 32 else e;
    (if bits > 0 then bits else 0) / 32 + 1
  }

  lemma ExtraFits(extraBits: nat, radixShift: nat, f: int, limbs: nat, isInt: bool, e: int)
    requires !isInt ==> extraBits <= if e > 0 then e else 0
    requires isInt ==> extraBits <= if 2 + e + f * radixShift - limbs * 32 > 0 then 2 + e + f * radixShift - limbs * 32 else 0
    ensures extraBits / 32 + 1 <= ExtraLimbs(radixShift, f, limbs, isInt, e)
  {
  }

  lemma EnoughBits(v: nat, log: int, e: int, extraBits: nat)
    requires log >= 0 && Pow(2, log) <= v && extraBits == if e - log > 0 then e - log else 0
    ensures v * Pow(2, extraBits) >= Pow(2, if e > 0 then e else 0)
  {
    hide Pow;
    PowAdd(2, log, extraBits);
    PowPos(2, extraBits);
    MulMono(Pow(2, log), v, Pow(2, extraBits));
    PowMono(2, if e > 0 then e else 0, log + extraBits);
  }

  lemma ChunksWithin(f: nat, d: nat)
    requires d > 0 && f <= 43 * d
    ensures Chunks(f, d) <= 43
  {
    DivMod(f + d - 1, d);
    if Chunks(f, d) > 43 { MulMono(44, Chunks(f, d), d); }
  }
}
