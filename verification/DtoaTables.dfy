/** The constant tables of dtoa.c, and what each of them has to satisfy. All entries are
    indexed by radix - 2. */
module DtoaTables {
  import opened DtoaArith
  import opened DtoaLimbs
  import opened DtoaDivide

  const JS_RADIX_MAX := 36

  predicate ValidRadix(radix: int) {
    2 <= radix <= JS_RADIX_MAX
  }

  type nonpositive = x: int | x <= 0

  /** How many digits fit a limb. */
  const DIGITS_PER_LIMB: seq<nat> := [
    32, 20, 16, 13, 12, 11, 10, 10, 9, 9, 8, 8,
    8, 8, 8, 7, 7, 7, 7, 7, 7, 7, 6, 6,
    6, 6, 6, 6, 6, 6, 6, 6, 6, 6, 6
  ]

  /** radix ^ DIGITS_PER_LIMB; 0 stands for 2^32. */
  const RADIX_BASE: seq<limb> := [
    0x00000000, 0xcfd41b91, 0x00000000, 0x48c27395, 0x81bf1000, 0x75db9c97, 0x40000000, 0xcfd41b91,
    0x3b9aca00, 0x8c8b6d2b, 0x19a10000, 0x309f1021, 0x57f6c100, 0x98c29b81, 0x00000000, 0x18754571,
    0x247dbc80, 0x3547667b, 0x4c4b4000, 0x6b5a6e1d, 0x94ace180, 0xcaf18367, 0x0b640000, 0x0e8d4a51,
    0x1269ae40, 0x17179149, 0x1cb91000, 0x23744899, 0x2b73a840, 0x34e63b41, 0x40000000, 0x4cfa3cc1,
    0x5c13d840, 0x6d91b519, 0x81bf1000
  ]

  /** Digits that always suffice to identify a binary64 number. */
  const DTOA_MAX_DIGITS: seq<nat> := [
    54, 35, 28, 24, 22, 20, 19, 18, 17, 17, 16, 16,
    15, 15, 15, 14, 14, 14, 14, 14, 13, 13, 13, 13,
    13, 13, 13, 12, 12, 12, 12, 12, 12, 12, 12
  ]

  /** Significant digits that are kept when parsing. */
  const ATOD_MAX_DIGITS: seq<nat> := [
    64, 80, 32, 55, 49, 45, 21, 40, 38, 37, 35, 34,
    33, 32, 16, 31, 30, 30, 29, 29, 28, 28, 27, 27,
    27, 26, 26, 26, 26, 25, 12, 25, 25, 24, 24
  ]

  /** From radix ^ MAX_EXPONENT on, a number overflows. */
  const MAX_EXPONENT: seq<nat> := [
    1024, 647, 512, 442, 397, 365, 342, 324, 309, 297, 286, 277,
    269, 263, 256, 251, 246, 242, 237, 234, 230, 227, 224, 221,
    218, 216, 214, 211, 209, 207, 205, 203, 202, 200, 199
  ]

  /** Up to radix ^ MIN_EXPONENT, a number underflows. */
  const MIN_EXPONENT: seq<nonpositive> := [
    -1075, -679, -538, -463, -416, -383, -359, -340, -324, -311, -300, -291,
    -283, -276, -269, -263, -258, -254, -249, -245, -242, -238, -235, -232,
    -229, -227, -224, -222, -220, -217, -215, -214, -212, -210, -208
  ]

  /** Low words of 5^1 ... 5^17, high words of 5^14 ... 5^17, reciprocals of 5^1 ... 5^13. */
  const POW5: seq<limb> := [
    0x00000005, 0x00000019, 0x0000007d, 0x00000271, 0x00000c35, 0x00003d09, 0x0001312d, 0x0005f5e1,
    0x001dcd65, 0x009502f9, 0x02e90edd, 0x0e8d4a51, 0x48c27395, 0x6bcc41e9, 0x1afd498d, 0x86f26fc1,
    0xa2bc2ec5
  ]

  const POW5H: seq<limb> := [1, 7, 35, 177]

  const POW5_INV: seq<limb> := [
    0x99999999, 0x47ae147a, 0x0624dd2f, 0xa36e2eb1, 0x4f8b588e, 0x0c6f7a0b, 0xad7f29ab, 0x5798ee23,
    0x12e0be82, 0xb7cdfd9d, 0x5fd7fe17, 0x19799812, 0xc25c2684
  ]

  // --- evaluating powers ---

  /** a * b^n */
  function FastPow(b: int, n: int, a: int): int
    decreases n
  {
    if n <= 0 then a
    else if n % 2 == 0 then FastPow(b * b, n / 2, a)
    else FastPow(b * b, n / 2, a * b)
  }

  lemma {:induction false} FastPowIsPow(b: nat, n: nat, a: nat)
    ensures FastPow(b, n, a) == a * Pow(b, n)
    decreases n
  {
    if n > 0 {
      var h := n / 2;
      PowDistributes(b, b, h);
      PowAdd(b, h, h);
      assert n == h + h + n % 2;
      if n % 2 == 1 {
        FastPowIsPow(b * b, h, a * b);
        MulAssoc(a, b, Pow(b * b, h));
      } else {
        FastPowIsPow(b * b, h, a);
      }
    }
  }

  lemma DigitsRange(radix: int)
    requires ValidRadix(radix)
    ensures 6 <= DIGITS_PER_LIMB[radix - 2] <= 32
  {
  }

  lemma OddBase(radix: int)
    requires ValidRadix(radix) && radix % 2 == 1
    ensures RADIX_BASE[radix - 2] != 0
  {
  }

  lemma ExponentRange(radix: int)
    requires ValidRadix(radix)
    ensures 199 <= MAX_EXPONENT[radix - 2] <= 1024
    ensures -1075 <= MIN_EXPONENT[radix - 2]
  {
  }

  lemma PrintDigitsRange(radix: int)
    requires ValidRadix(radix)
    ensures 12 <= DTOA_MAX_DIGITS[radix - 2] <= 54
  {
  }

  lemma ParseDigitsRange(radix: int)
    requires ValidRadix(radix)
    ensures 12 <= ATOD_MAX_DIGITS[radix - 2] <= 80
  {
  }

  lemma LimbBaseFrom2()
    ensures FastPow(2, 32, 1) == 0x100000000
    ensures FastPow(3, 20, 1) == 0xcfd41b91
    ensures FastPow(4, 16, 1) == 0x100000000
    ensures FastPow(5, 13, 1) == 0x48c27395
    ensures FastPow(6, 12, 1) == 0x81bf1000
    ensures FastPow(7, 11, 1) == 0x75db9c97
    ensures FastPow(8, 10, 1) == 0x40000000
    ensures FastPow(9, 10, 1) == 0xcfd41b91
    ensures FastPow(10, 9, 1) == 0x3b9aca00
  {
  }

  lemma LimbBaseFrom11()
    ensures FastPow(11, 9, 1) == 0x8c8b6d2b
    ensures FastPow(12, 8, 1) == 0x19a10000
    ensures FastPow(13, 8, 1) == 0x309f1021
    ensures FastPow(14, 8, 1) == 0x57f6c100
    ensures FastPow(15, 8, 1) == 0x98c29b81
    ensures FastPow(16, 8, 1) == 0x100000000
    ensures FastPow(17, 7, 1) == 0x18754571
    ensures FastPow(18, 7, 1) == 0x247dbc80
    ensures FastPow(19, 7, 1) == 0x3547667b
  {
  }

  lemma LimbBaseFrom20()
    ensures FastPow(20, 7, 1) == 0x4c4b4000
    ensures FastPow(21, 7, 1) == 0x6b5a6e1d
    ensures FastPow(22, 7, 1) == 0x94ace180
    ensures FastPow(23, 7, 1) == 0xcaf18367
    ensures FastPow(24, 6, 1) == 0xb640000
    ensures FastPow(25, 6, 1) == 0xe8d4a51
    ensures FastPow(26, 6, 1) == 0x1269ae40
    ensures FastPow(27, 6, 1) == 0x17179149
    ensures FastPow(28, 6, 1) == 0x1cb91000
  {
  }

  lemma LimbBaseFrom29()
    ensures FastPow(29, 6, 1) == 0x23744899
    ensures FastPow(30, 6, 1) == 0x2b73a840
    ensures FastPow(31, 6, 1) == 0x34e63b41
    ensures FastPow(32, 6, 1) == 0x40000000
    ensures FastPow(33, 6, 1) == 0x4cfa3cc1
    ensures FastPow(34, 6, 1) == 0x5c13d840
    ensures FastPow(35, 6, 1) == 0x6d91b519
    ensures FastPow(36, 6, 1) == 0x81bf1000
  {
  }

  /** A limb holds DIGITS_PER_LIMB digits, and RADIX_BASE is their base. */
  lemma LimbBase(radix: int)
    requires 2 <= radix <= 36
    ensures Pow(radix, DIGITS_PER_LIMB[radix - 2]) == if RADIX_BASE[radix - 2] == 0 then BASE else RADIX_BASE[radix - 2]
  {
    hide *;
    if radix < 11 {
      LimbEntryFrom2(radix);
    } else if radix < 20 {
      LimbEntryFrom11(radix);
    } else if radix < 29 {
      LimbEntryFrom20(radix);
    } else {
      LimbEntryFrom29(radix);
    }
  }

  lemma LimbEntryFrom2(radix: int)
    requires 2 <= radix < 11
    ensures Pow(radix, DIGITS_PER_LIMB[radix - 2]) == if RADIX_BASE[radix - 2] == 0 then BASE else RADIX_BASE[radix - 2]
  {
    hide Pow, FastPow;
    LimbBaseFrom2();
    FastPowIsPow(radix, DIGITS_PER_LIMB[radix - 2], 1);
  }

  lemma LimbEntryFrom11(radix: int)
    requires 11 <= radix < 20
    ensures Pow(radix, DIGITS_PER_LIMB[radix - 2]) == if RADIX_BASE[radix - 2] == 0 then BASE else RADIX_BASE[radix - 2]
  {
    hide Pow, FastPow;
    LimbBaseFrom11();
    FastPowIsPow(radix, DIGITS_PER_LIMB[radix - 2], 1);
  }

  lemma LimbEntryFrom20(radix: int)
    requires 20 <= radix < 29
    ensures Pow(radix, DIGITS_PER_LIMB[radix - 2]) == if RADIX_BASE[radix - 2] == 0 then BASE else RADIX_BASE[radix - 2]
  {
    hide Pow, FastPow;
    LimbBaseFrom20();
    FastPowIsPow(radix, DIGITS_PER_LIMB[radix - 2], 1);
  }

  lemma LimbEntryFrom29(radix: int)
    requires 29 <= radix < 37
    ensures Pow(radix, DIGITS_PER_LIMB[radix - 2]) == if RADIX_BASE[radix - 2] == 0 then BASE else RADIX_BASE[radix - 2]
  {
    hide Pow, FastPow;
    LimbBaseFrom29();
    FastPowIsPow(radix, DIGITS_PER_LIMB[radix - 2], 1);
  }

  lemma MaxExponentFrom2()
    ensures FastPow(2, 1024, 1) >= FastPow(2, 1024, 1)
    ensures FastPow(3, 647, 1) >= FastPow(2, 1024, 1)
    ensures FastPow(4, 512, 1) >= FastPow(2, 1024, 1)
    ensures FastPow(5, 442, 1) >= FastPow(2, 1024, 1)
  {
  }

  lemma MaxExponentFrom6()
    ensures FastPow(6, 397, 1) >= FastPow(2, 1024, 1)
    ensures FastPow(7, 365, 1) >= FastPow(2, 1024, 1)
    ensures FastPow(8, 342, 1) >= FastPow(2, 1024, 1)
    ensures FastPow(9, 324, 1) >= FastPow(2, 1024, 1)
  {
  }

  lemma MaxExponentFrom10()
    ensures FastPow(10, 309, 1) >= FastPow(2, 1024, 1)
    ensures FastPow(11, 297, 1) >= FastPow(2, 1024, 1)
    ensures FastPow(12, 286, 1) >= FastPow(2, 1024, 1)
    ensures FastPow(13, 277, 1) >= FastPow(2, 1024, 1)
  {
  }

  lemma MaxExponentFrom14()
    ensures FastPow(14, 269, 1) >= FastPow(2, 1024, 1)
    ensures FastPow(15, 263, 1) >= FastPow(2, 1024, 1)
    ensures FastPow(16, 256, 1) >= FastPow(2, 1024, 1)
    ensures FastPow(17, 251, 1) >= FastPow(2, 1024, 1)
  {
  }

  lemma MaxExponentFrom18()
    ensures FastPow(18, 246, 1) >= FastPow(2, 1024, 1)
    ensures FastPow(19, 242, 1) >= FastPow(2, 1024, 1)
    ensures FastPow(20, 237, 1) >= FastPow(2, 1024, 1)
    ensures FastPow(21, 234, 1) >= FastPow(2, 1024, 1)
  {
  }

  lemma MaxExponentFrom22()
    ensures FastPow(22, 230, 1) >= FastPow(2, 1024, 1)
    ensures FastPow(23, 227, 1) >= FastPow(2, 1024, 1)
    ensures FastPow(24, 224, 1) >= FastPow(2, 1024, 1)
    ensures FastPow(25, 221, 1) >= FastPow(2, 1024, 1)
  {
  }

  lemma MaxExponentFrom26()
    ensures FastPow(26, 218, 1) >= FastPow(2, 1024, 1)
    ensures FastPow(27, 216, 1) >= FastPow(2, 1024, 1)
    ensures FastPow(28, 214, 1) >= FastPow(2, 1024, 1)
    ensures FastPow(29, 211, 1) >= FastPow(2, 1024, 1)
  {
  }

  lemma MaxExponentFrom30()
    ensures FastPow(30, 209, 1) >= FastPow(2, 1024, 1)
    ensures FastPow(31, 207, 1) >= FastPow(2, 1024, 1)
    ensures FastPow(32, 205, 1) >= FastPow(2, 1024, 1)
    ensures FastPow(33, 203, 1) >= FastPow(2, 1024, 1)
  {
  }

  lemma MaxExponentFrom34()
    ensures FastPow(34, 202, 1) >= FastPow(2, 1024, 1)
    ensures FastPow(35, 200, 1) >= FastPow(2, 1024, 1)
    ensures FastPow(36, 199, 1) >= FastPow(2, 1024, 1)
  {
  }

  /** From MAX_EXPONENT on every number overflows. */
  lemma MaxExponent(radix: int)
    requires 2 <= radix <= 36
    ensures Pow(radix, MAX_EXPONENT[radix - 2]) >= Pow(2, 1024)
  {
    hide Pow, FastPow;
    FastPowIsPow(radix, MAX_EXPONENT[radix - 2], 1);
    FastPowIsPow(2, 1024, 1);
    MaxExponentFrom2();
    MaxExponentFrom6();
    MaxExponentFrom10();
    MaxExponentFrom14();
    MaxExponentFrom18();
    MaxExponentFrom22();
    MaxExponentFrom26();
    MaxExponentFrom30();
    MaxExponentFrom34();
  }

  lemma MinExponentFrom2()
    ensures FastPow(2, 1075, 1) >= FastPow(2, 1075, 1)
    ensures FastPow(3, 679, 1) >= FastPow(2, 1075, 1)
    ensures FastPow(4, 538, 1) >= FastPow(2, 1075, 1)
    ensures FastPow(5, 463, 1) >= FastPow(2, 1075, 1)
  {
  }

  lemma MinExponentFrom6()
    ensures FastPow(6, 416, 1) >= FastPow(2, 1075, 1)
    ensures FastPow(7, 383, 1) >= FastPow(2, 1075, 1)
    ensures FastPow(8, 359, 1) >= FastPow(2, 1075, 1)
    ensures FastPow(9, 340, 1) >= FastPow(2, 1075, 1)
  {
  }

  lemma MinExponentFrom10()
    ensures FastPow(10, 324, 1) >= FastPow(2, 1075, 1)
    ensures FastPow(11, 311, 1) >= FastPow(2, 1075, 1)
    ensures FastPow(12, 300, 1) >= FastPow(2, 1075, 1)
    ensures FastPow(13, 291, 1) >= FastPow(2, 1075, 1)
  {
  }

  lemma MinExponentFrom14()
    ensures FastPow(14, 283, 1) >= FastPow(2, 1075, 1)
    ensures FastPow(15, 276, 1) >= FastPow(2, 1075, 1)
    ensures FastPow(16, 269, 1) >= FastPow(2, 1075, 1)
    ensures FastPow(17, 263, 1) >= FastPow(2, 1075, 1)
  {
  }

  lemma MinExponentFrom18()
    ensures FastPow(18, 258, 1) >= FastPow(2, 1075, 1)
    ensures FastPow(19, 254, 1) >= FastPow(2, 1075, 1)
    ensures FastPow(20, 249, 1) >= FastPow(2, 1075, 1)
    ensures FastPow(21, 245, 1) >= FastPow(2, 1075, 1)
  {
  }

  lemma MinExponentFrom22()
    ensures FastPow(22, 242, 1) >= FastPow(2, 1075, 1)
    ensures FastPow(23, 238, 1) >= FastPow(2, 1075, 1)
    ensures FastPow(24, 235, 1) >= FastPow(2, 1075, 1)
    ensures FastPow(25, 232, 1) >= FastPow(2, 1075, 1)
  {
  }

  lemma MinExponentFrom26()
    ensures FastPow(26, 229, 1) >= FastPow(2, 1075, 1)
    ensures FastPow(27, 227, 1) >= FastPow(2, 1075, 1)
    ensures FastPow(28, 224, 1) >= FastPow(2, 1075, 1)
    ensures FastPow(29, 222, 1) >= FastPow(2, 1075, 1)
  {
  }

  lemma MinExponentFrom30()
    ensures FastPow(30, 220, 1) >= FastPow(2, 1075, 1)
    ensures FastPow(31, 217, 1) >= FastPow(2, 1075, 1)
    ensures FastPow(32, 215, 1) >= FastPow(2, 1075, 1)
    ensures FastPow(33, 214, 1) >= FastPow(2, 1075, 1)
  {
  }

  lemma MinExponentFrom34()
    ensures FastPow(34, 212, 1) >= FastPow(2, 1075, 1)
    ensures FastPow(35, 210, 1) >= FastPow(2, 1075, 1)
    ensures FastPow(36, 208, 1) >= FastPow(2, 1075, 1)
  {
  }

  /** Up to MIN_EXPONENT every number underflows. */
  lemma MinExponent(radix: int)
    requires 2 <= radix <= 36
    ensures var m: int := MIN_EXPONENT[radix - 2]; m <= 0 && Pow(radix, -m) >= Pow(2, 1075)
  {
    hide Pow, FastPow;
    var m: int := MIN_EXPONENT[radix - 2];
    FastPowIsPow(radix, -m, 1);
    FastPowIsPow(2, 1075, 1);
    MinExponentFrom2();
    MinExponentFrom6();
    MinExponentFrom10();
    MinExponentFrom14();
    MinExponentFrom18();
    MinExponentFrom22();
    MinExponentFrom26();
    MinExponentFrom30();
    MinExponentFrom34();
  }

  lemma MinExponentNotTinyFrom2()
    ensures FastPow(2, 1075, 1) <= FastPow(2, 1085, 1)
    ensures FastPow(3, 679, 1) <= FastPow(2, 1085, 1)
    ensures FastPow(4, 538, 1) <= FastPow(2, 1085, 1)
    ensures FastPow(5, 463, 1) <= FastPow(2, 1085, 1)
  {
  }

  lemma MinExponentNotTinyFrom6()
    ensures FastPow(6, 416, 1) <= FastPow(2, 1085, 1)
    ensures FastPow(7, 383, 1) <= FastPow(2, 1085, 1)
    ensures FastPow(8, 359, 1) <= FastPow(2, 1085, 1)
    ensures FastPow(9, 340, 1) <= FastPow(2, 1085, 1)
  {
  }

  lemma MinExponentNotTinyFrom10()
    ensures FastPow(10, 324, 1) <= FastPow(2, 1085, 1)
    ensures FastPow(11, 311, 1) <= FastPow(2, 1085, 1)
    ensures FastPow(12, 300, 1) <= FastPow(2, 1085, 1)
    ensures FastPow(13, 291, 1) <= FastPow(2, 1085, 1)
  {
  }

  lemma MinExponentNotTinyFrom14()
    ensures FastPow(14, 283, 1) <= FastPow(2, 1085, 1)
    ensures FastPow(15, 276, 1) <= FastPow(2, 1085, 1)
    ensures FastPow(16, 269, 1) <= FastPow(2, 1085, 1)
    ensures FastPow(17, 263, 1) <= FastPow(2, 1085, 1)
  {
  }

  lemma MinExponentNotTinyFrom18()
    ensures FastPow(18, 258, 1) <= FastPow(2, 1085, 1)
    ensures FastPow(19, 254, 1) <= FastPow(2, 1085, 1)
    ensures FastPow(20, 249, 1) <= FastPow(2, 1085, 1)
    ensures FastPow(21, 245, 1) <= FastPow(2, 1085, 1)
  {
  }

  lemma MinExponentNotTinyFrom22()
    ensures FastPow(22, 242, 1) <= FastPow(2, 1085, 1)
    ensures FastPow(23, 238, 1) <= FastPow(2, 1085, 1)
    ensures FastPow(24, 235, 1) <= FastPow(2, 1085, 1)
    ensures FastPow(25, 232, 1) <= FastPow(2, 1085, 1)
  {
  }

  lemma MinExponentNotTinyFrom26()
    ensures FastPow(26, 229, 1) <= FastPow(2, 1085, 1)
    ensures FastPow(27, 227, 1) <= FastPow(2, 1085, 1)
    ensures FastPow(28, 224, 1) <= FastPow(2, 1085, 1)
    ensures FastPow(29, 222, 1) <= FastPow(2, 1085, 1)
  {
  }

  lemma MinExponentNotTinyFrom30()
    ensures FastPow(30, 220, 1) <= FastPow(2, 1085, 1)
    ensures FastPow(31, 217, 1) <= FastPow(2, 1085, 1)
    ensures FastPow(32, 215, 1) <= FastPow(2, 1085, 1)
    ensures FastPow(33, 214, 1) <= FastPow(2, 1085, 1)
  {
  }

  lemma MinExponentNotTinyFrom34()
    ensures FastPow(34, 212, 1) <= FastPow(2, 1085, 1)
    ensures FastPow(35, 210, 1) <= FastPow(2, 1085, 1)
    ensures FastPow(36, 208, 1) <= FastPow(2, 1085, 1)
  {
  }

  /** MIN_EXPONENT is close enough to the smallest number to leave room for rounding. */
  lemma MinExponentNotTiny(radix: int)
    requires 2 <= radix <= 36
    ensures var m: int := MIN_EXPONENT[radix - 2]; m <= 0 && Pow(radix, -m) <= Pow(2, 1085)
  {
    hide Pow, FastPow;
    var m: int := MIN_EXPONENT[radix - 2];
    FastPowIsPow(radix, -m, 1);
    FastPowIsPow(2, 1085, 1);
    MinExponentNotTinyFrom2();
    MinExponentNotTinyFrom6();
    MinExponentNotTinyFrom10();
    MinExponentNotTinyFrom14();
    MinExponentNotTinyFrom18();
    MinExponentNotTinyFrom22();
    MinExponentNotTinyFrom26();
    MinExponentNotTinyFrom30();
    MinExponentNotTinyFrom34();
  }

  lemma PrintDigitsFrom3()
    ensures FastPow(3, 34, 1) > 0x20000000000000
    ensures FastPow(4, 27, 1) > 0x20000000000000
    ensures FastPow(5, 23, 1) > 0x20000000000000
    ensures FastPow(6, 21, 1) > 0x20000000000000
    ensures FastPow(7, 19, 1) > 0x20000000000000
    ensures FastPow(8, 18, 1) > 0x20000000000000
    ensures FastPow(9, 17, 1) > 0x20000000000000
  {
  }

  lemma PrintDigitsFrom10()
    ensures FastPow(10, 16, 1) > 0x20000000000000
    ensures FastPow(11, 16, 1) > 0x20000000000000
    ensures FastPow(12, 15, 1) > 0x20000000000000
    ensures FastPow(13, 15, 1) > 0x20000000000000
    ensures FastPow(14, 14, 1) > 0x20000000000000
    ensures FastPow(15, 14, 1) > 0x20000000000000
    ensures FastPow(16, 14, 1) > 0x20000000000000
  {
  }

  lemma PrintDigitsFrom17()
    ensures FastPow(17, 13, 1) > 0x20000000000000
    ensures FastPow(18, 13, 1) > 0x20000000000000
    ensures FastPow(19, 13, 1) > 0x20000000000000
    ensures FastPow(20, 13, 1) > 0x20000000000000
    ensures FastPow(21, 13, 1) > 0x20000000000000
    ensures FastPow(22, 12, 1) > 0x20000000000000
    ensures FastPow(23, 12, 1) > 0x20000000000000
  {
  }

  lemma PrintDigitsFrom24()
    ensures FastPow(24, 12, 1) > 0x20000000000000
    ensures FastPow(25, 12, 1) > 0x20000000000000
    ensures FastPow(26, 12, 1) > 0x20000000000000
    ensures FastPow(27, 12, 1) > 0x20000000000000
    ensures FastPow(28, 12, 1) > 0x20000000000000
    ensures FastPow(29, 11, 1) > 0x20000000000000
    ensures FastPow(30, 11, 1) > 0x20000000000000
  {
  }

  lemma PrintDigitsFrom31()
    ensures FastPow(31, 11, 1) > 0x20000000000000
    ensures FastPow(32, 11, 1) > 0x20000000000000
    ensures FastPow(33, 11, 1) > 0x20000000000000
    ensures FastPow(34, 11, 1) > 0x20000000000000
    ensures FastPow(35, 11, 1) > 0x20000000000000
    ensures FastPow(36, 11, 1) > 0x20000000000000
  {
  }

  /** DTOA_MAX_DIGITS digits separate all binary64 numbers (for radix 2 they are exact). */
  lemma PrintDigits(radix: int)
    requires 3 <= radix <= 36
    ensures DTOA_MAX_DIGITS[radix - 2] > 0 && Pow(radix, DTOA_MAX_DIGITS[radix - 2] - 1) > 0x20_0000_0000_0000
  {
    hide Pow, FastPow;
    PrintDigitsRange(radix);
    FastPowIsPow(radix, DTOA_MAX_DIGITS[radix - 2] - 1, 1);
    PrintDigitsFrom3();
    PrintDigitsFrom10();
    PrintDigitsFrom17();
    PrintDigitsFrom24();
    PrintDigitsFrom31();
  }

  lemma PrintDigitsFitFrom2()
    ensures 2 * FastPow(2, 54, 1) < 0x1_0000_0000_0000_0000
    ensures 2 * FastPow(3, 35, 1) < 0x1_0000_0000_0000_0000
    ensures 2 * FastPow(4, 28, 1) < 0x1_0000_0000_0000_0000
    ensures 2 * FastPow(5, 24, 1) < 0x1_0000_0000_0000_0000
    ensures 2 * FastPow(6, 22, 1) < 0x1_0000_0000_0000_0000
    ensures 2 * FastPow(7, 20, 1) < 0x1_0000_0000_0000_0000
    ensures 2 * FastPow(8, 19, 1) < 0x1_0000_0000_0000_0000
  {
  }

  lemma PrintDigitsFitFrom9()
    ensures 2 * FastPow(9, 18, 1) < 0x1_0000_0000_0000_0000
    ensures 2 * FastPow(10, 17, 1) < 0x1_0000_0000_0000_0000
    ensures 2 * FastPow(11, 17, 1) < 0x1_0000_0000_0000_0000
    ensures 2 * FastPow(12, 16, 1) < 0x1_0000_0000_0000_0000
    ensures 2 * FastPow(13, 16, 1) < 0x1_0000_0000_0000_0000
    ensures 2 * FastPow(14, 15, 1) < 0x1_0000_0000_0000_0000
    ensures 2 * FastPow(15, 15, 1) < 0x1_0000_0000_0000_0000
  {
  }

  lemma PrintDigitsFitFrom16()
    ensures 2 * FastPow(16, 15, 1) < 0x1_0000_0000_0000_0000
    ensures 2 * FastPow(17, 14, 1) < 0x1_0000_0000_0000_0000
    ensures 2 * FastPow(18, 14, 1) < 0x1_0000_0000_0000_0000
    ensures 2 * FastPow(19, 14, 1) < 0x1_0000_0000_0000_0000
    ensures 2 * FastPow(20, 14, 1) < 0x1_0000_0000_0000_0000
    ensures 2 * FastPow(21, 14, 1) < 0x1_0000_0000_0000_0000
    ensures 2 * FastPow(22, 13, 1) < 0x1_0000_0000_0000_0000
  {
  }

  lemma PrintDigitsFitFrom23()
    ensures 2 * FastPow(23, 13, 1) < 0x1_0000_0000_0000_0000
    ensures 2 * FastPow(24, 13, 1) < 0x1_0000_0000_0000_0000
    ensures 2 * FastPow(25, 13, 1) < 0x1_0000_0000_0000_0000
    ensures 2 * FastPow(26, 13, 1) < 0x1_0000_0000_0000_0000
    ensures 2 * FastPow(27, 13, 1) < 0x1_0000_0000_0000_0000
    ensures 2 * FastPow(28, 13, 1) < 0x1_0000_0000_0000_0000
    ensures 2 * FastPow(29, 12, 1) < 0x1_0000_0000_0000_0000
  {
  }

  lemma PrintDigitsFitFrom30()
    ensures 2 * FastPow(30, 12, 1) < 0x1_0000_0000_0000_0000
    ensures 2 * FastPow(31, 12, 1) < 0x1_0000_0000_0000_0000
    ensures 2 * FastPow(32, 12, 1) < 0x1_0000_0000_0000_0000
    ensures 2 * FastPow(33, 12, 1) < 0x1_0000_0000_0000_0000
    ensures 2 * FastPow(34, 12, 1) < 0x1_0000_0000_0000_0000
    ensures 2 * FastPow(35, 12, 1) < 0x1_0000_0000_0000_0000
    ensures 2 * FastPow(36, 12, 1) < 0x1_0000_0000_0000_0000
  {
  }

  /** DTOA_MAX_DIGITS digits, and one bit more, fit 64 bits. */
  lemma PrintDigitsFit(radix: int)
    requires 2 <= radix <= 36
    ensures 2 * Pow(radix, DTOA_MAX_DIGITS[radix - 2]) < 0x1_0000_0000_0000_0000
  {
    hide Pow, FastPow;
    FastPowIsPow(radix, DTOA_MAX_DIGITS[radix - 2], 1);
    if radix < 9 {
      PrintDigitsFitFrom2();
    } else if radix < 16 {
      PrintDigitsFitFrom9();
    } else if radix < 23 {
      PrintDigitsFitFrom16();
    } else if radix < 30 {
      PrintDigitsFitFrom23();
    } else {
      PrintDigitsFitFrom30();
    }
  }

  lemma ParseDigitsFrom2()
    ensures FastPow(2, 64, 1) <= 0x100000000000000000000000000000000
    ensures FastPow(3, 80, 1) <= 0x100000000000000000000000000000000
    ensures FastPow(4, 32, 1) <= 0x100000000000000000000000000000000
    ensures FastPow(5, 55, 1) <= 0x100000000000000000000000000000000
    ensures FastPow(6, 49, 1) <= 0x100000000000000000000000000000000
  {
  }

  lemma ParseDigitsFrom7()
    ensures FastPow(7, 45, 1) <= 0x100000000000000000000000000000000
    ensures FastPow(8, 21, 1) <= 0x100000000000000000000000000000000
    ensures FastPow(9, 40, 1) <= 0x100000000000000000000000000000000
    ensures FastPow(10, 38, 1) <= 0x100000000000000000000000000000000
    ensures FastPow(11, 37, 1) <= 0x100000000000000000000000000000000
  {
  }

  lemma ParseDigitsFrom12()
    ensures FastPow(12, 35, 1) <= 0x100000000000000000000000000000000
    ensures FastPow(13, 34, 1) <= 0x100000000000000000000000000000000
    ensures FastPow(14, 33, 1) <= 0x100000000000000000000000000000000
    ensures FastPow(15, 32, 1) <= 0x100000000000000000000000000000000
    ensures FastPow(16, 16, 1) <= 0x100000000000000000000000000000000
  {
  }

  lemma ParseDigitsFrom17()
    ensures FastPow(17, 31, 1) <= 0x100000000000000000000000000000000
    ensures FastPow(18, 30, 1) <= 0x100000000000000000000000000000000
    ensures FastPow(19, 30, 1) <= 0x100000000000000000000000000000000
    ensures FastPow(20, 29, 1) <= 0x100000000000000000000000000000000
    ensures FastPow(21, 29, 1) <= 0x100000000000000000000000000000000
  {
  }

  lemma ParseDigitsFrom22()
    ensures FastPow(22, 28, 1) <= 0x100000000000000000000000000000000
    ensures FastPow(23, 28, 1) <= 0x100000000000000000000000000000000
    ensures FastPow(24, 27, 1) <= 0x100000000000000000000000000000000
    ensures FastPow(25, 27, 1) <= 0x100000000000000000000000000000000
    ensures FastPow(26, 27, 1) <= 0x100000000000000000000000000000000
  {
  }

  lemma ParseDigitsFrom27()
    ensures FastPow(27, 26, 1) <= 0x100000000000000000000000000000000
    ensures FastPow(28, 26, 1) <= 0x100000000000000000000000000000000
    ensures FastPow(29, 26, 1) <= 0x100000000000000000000000000000000
    ensures FastPow(30, 26, 1) <= 0x100000000000000000000000000000000
    ensures FastPow(31, 25, 1) <= 0x100000000000000000000000000000000
  {
  }

  lemma ParseDigitsFrom32()
    ensures FastPow(32, 12, 1) <= 0x100000000000000000000000000000000
    ensures FastPow(33, 25, 1) <= 0x100000000000000000000000000000000
    ensures FastPow(34, 25, 1) <= 0x100000000000000000000000000000000
    ensures FastPow(35, 24, 1) <= 0x100000000000000000000000000000000
    ensures FastPow(36, 24, 1) <= 0x100000000000000000000000000000000
  {
  }

  /** ATOD_MAX_DIGITS digits fit four limbs. */
  lemma ParseDigits(radix: int)
    requires 2 <= radix <= 36
    ensures Pow(radix, ATOD_MAX_DIGITS[radix - 2]) <= 0x100000000000000000000000000000000
  {
    hide Pow, FastPow;
    FastPowIsPow(radix, ATOD_MAX_DIGITS[radix - 2], 1);
    if radix < 7 {
      ParseDigitsFrom2();
    } else if radix < 12 {
      ParseDigitsFrom7();
    } else if radix < 17 {
      ParseDigitsFrom12();
    } else if radix < 22 {
      ParseDigitsFrom17();
    } else if radix < 27 {
      ParseDigitsFrom22();
    } else if radix < 32 {
      ParseDigitsFrom27();
    } else {
      ParseDigitsFrom32();
    }
  }

  lemma PowersOfFiveFrom1()
    ensures FastPow(5, 1, 1) == 5
    ensures FastPow(5, 2, 1) == 25
    ensures FastPow(5, 3, 1) == 125
    ensures FastPow(5, 4, 1) == 625
    ensures FastPow(5, 5, 1) == 3125
    ensures FastPow(5, 6, 1) == 15625
    ensures FastPow(5, 7, 1) == 78125
    ensures FastPow(5, 8, 1) == 390625
    ensures FastPow(5, 9, 1) == 1953125
  {
  }

  lemma PowersOfFiveFrom10()
    ensures FastPow(5, 10, 1) == 9765625
    ensures FastPow(5, 11, 1) == 48828125
    ensures FastPow(5, 12, 1) == 244140625
    ensures FastPow(5, 13, 1) == 1220703125
    ensures FastPow(5, 14, 1) == 6103515625
    ensures FastPow(5, 15, 1) == 30517578125
    ensures FastPow(5, 16, 1) == 152587890625
    ensures FastPow(5, 17, 1) == 762939453125
  {
  }

  /** The stored powers of five. */
  lemma PowersOfFive(b: int)
    requires 1 <= b <= 17
    ensures Pow(5, b) == POW5[b - 1] + (if b >= 14 then BASE * POW5H[b - 14] else 0)
  {
    hide Pow, FastPow;
    FastPowIsPow(5, b, 1);
    PowersOfFiveFrom1();
    PowersOfFiveFrom10();
  }

  /** radix1 of the source: the radix without its factors of two. */
  function OddPart(radix: nat): (r: nat)
    requires radix > 0
    ensures 0 < r <= radix && r % 2 == 1
  {
    if radix % 2 == 0 then OddPart(radix / 2) else radix
  }

  /** ctz32: the number of factors of two. */
  function RadixShift(radix: nat): nat
    requires radix > 0
  {
    if radix % 2 == 0 then RadixShift(radix / 2) + 1 else 0
  }

  lemma DoubledProduct(a: nat, b: nat)
    ensures a * (2 * b) == 2 * (a * b)
  {
  }

  lemma {:induction false} RadixParts(radix: nat)
    requires radix > 0
    ensures radix == OddPart(radix) * Pow(2, RadixShift(radix))
    ensures OddPart(radix) == 1 ==> radix == Pow(2, RadixShift(radix))
    decreases radix
  {
    if radix % 2 == 0 {
      RadixParts(radix / 2);
      DoubledProduct(OddPart(radix / 2), Pow(2, RadixShift(radix / 2)));
    }
  }

  /** How many limbs the longest power of the radix takes when parsing: at most 43. */
  predicate ShortPowers(radix: int, odd: int)
    requires ValidRadix(radix) && 1 <= odd <= JS_RADIX_MAX
  {
    odd == 1 || (MAX_EXPONENT[radix - 2] <= 43 * DIGITS_PER_LIMB[odd - 2] &&
                 ATOD_MAX_DIGITS[radix - 2] - 1 <= 43 * DIGITS_PER_LIMB[odd - 2] + MIN_EXPONENT[radix - 2])
  }

  lemma OddPartsFrom2()
    ensures OddPart(2) == 1
    ensures OddPart(3) == 3
    ensures OddPart(4) == 1
    ensures OddPart(5) == 5
    ensures OddPart(6) == 3
    ensures OddPart(7) == 7
    ensures OddPart(8) == 1
    ensures OddPart(9) == 9
    ensures OddPart(10) == 5
    ensures OddPart(11) == 11
    ensures OddPart(12) == 3
    ensures OddPart(13) == 13
  {
  }

  lemma OddPartsFrom14()
    ensures OddPart(14) == 7
    ensures OddPart(15) == 15
    ensures OddPart(16) == 1
    ensures OddPart(17) == 17
    ensures OddPart(18) == 9
    ensures OddPart(19) == 19
    ensures OddPart(20) == 5
    ensures OddPart(21) == 21
    ensures OddPart(22) == 11
    ensures OddPart(23) == 23
    ensures OddPart(24) == 3
    ensures OddPart(25) == 25
  {
  }

  lemma OddPartsFrom26()
    ensures OddPart(26) == 13
    ensures OddPart(27) == 27
    ensures OddPart(28) == 7
    ensures OddPart(29) == 29
    ensures OddPart(30) == 15
    ensures OddPart(31) == 31
    ensures OddPart(32) == 1
    ensures OddPart(33) == 33
    ensures OddPart(34) == 17
    ensures OddPart(35) == 35
    ensures OddPart(36) == 9
  {
  }

  lemma ShortPowersFrom2()
    ensures ShortPowers(2, 1)
    ensures ShortPowers(3, 3)
    ensures ShortPowers(4, 1)
    ensures ShortPowers(5, 5)
  {
  }

  lemma ShortPowersFrom6()
    ensures ShortPowers(6, 3)
    ensures ShortPowers(7, 7)
    ensures ShortPowers(8, 1)
    ensures ShortPowers(9, 9)
  {
  }

  lemma ShortPowersFrom10()
    ensures ShortPowers(10, 5)
    ensures ShortPowers(11, 11)
    ensures ShortPowers(12, 3)
    ensures ShortPowers(13, 13)
  {
  }

  lemma ShortPowersFrom14()
    ensures ShortPowers(14, 7)
    ensures ShortPowers(15, 15)
    ensures ShortPowers(16, 1)
    ensures ShortPowers(17, 17)
  {
  }

  lemma ShortPowersFrom18()
    ensures ShortPowers(18, 9)
    ensures ShortPowers(19, 19)
    ensures ShortPowers(20, 5)
    ensures ShortPowers(21, 21)
  {
  }

  lemma ShortPowersFrom22()
    ensures ShortPowers(22, 11)
    ensures ShortPowers(23, 23)
    ensures ShortPowers(24, 3)
    ensures ShortPowers(25, 25)
  {
  }

  lemma ShortPowersFrom26()
    ensures ShortPowers(26, 13)
    ensures ShortPowers(27, 27)
    ensures ShortPowers(28, 7)
    ensures ShortPowers(29, 29)
  {
  }

  lemma ShortPowersFrom30()
    ensures ShortPowers(30, 15)
    ensures ShortPowers(31, 31)
    ensures ShortPowers(32, 1)
    ensures ShortPowers(33, 33)
  {
  }

  lemma ShortPowersFrom34()
    ensures ShortPowers(34, 17)
    ensures ShortPowers(35, 35)
    ensures ShortPowers(36, 9)
  {
  }

  /** The radixes that are powers of two. */
  lemma PowerOfTwoRadix(radix: int)
    requires ValidRadix(radix) && OddPart(radix) == 1
    ensures radix == 2 || radix == 4 || radix == 8 || radix == 16 || radix == 32
  {
    hide OddPart;
    OddPartsFrom2();
    OddPartsFrom14();
    OddPartsFrom26();
  }

  lemma BinaryShift(radix: int)
    requires ValidRadix(radix) && OddPart(radix) == 1
    ensures (radix == 2 && RadixShift(radix) == 1) || (radix == 4 && RadixShift(radix) == 2) ||
      (radix == 8 && RadixShift(radix) == 3) || (radix == 16 && RadixShift(radix) == 4) || (radix == 32 && RadixShift(radix) == 5)
  {
    PowerOfTwoRadix(radix);
    hide OddPart;
    assert RadixShift(1) == 0;
    assert RadixShift(2) == 1;
    assert RadixShift(4) == 2;
    assert RadixShift(8) == 3;
    assert RadixShift(16) == 4;
  }

  lemma SmallRadixShort(radix: int)
    requires 2 <= radix <= 17
    ensures ShortPowers(radix, OddPart(radix))
  {
    hide ShortPowers, OddPart;
    OddPartsFrom2();
    OddPartsFrom14();
    ShortPowersFrom2();
    ShortPowersFrom6();
    ShortPowersFrom10();
    ShortPowersFrom14();
  }

  lemma LargeRadixShort(radix: int)
    requires 18 <= radix <= 36
    ensures ShortPowers(radix, OddPart(radix))
  {
    hide ShortPowers, OddPart;
    OddPartsFrom14();
    OddPartsFrom26();
    ShortPowersFrom18();
    ShortPowersFrom22();
    ShortPowersFrom26();
    ShortPowersFrom30();
    ShortPowersFrom34();
  }

  lemma PowersAreShort(radix: int)
    requires ValidRadix(radix)
    ensures ShortPowers(radix, OddPart(radix))
  {
    hide ShortPowers, OddPart;
    if radix <= 17 {
      SmallRadixShort(radix);
    } else {
      LargeRadixShort(radix);
    }
  }

  /** The number of leading zero bits. */
  function Clz32(x: limb): (n: nat)
    requires x > 0
    ensures n <= 31 && HALF <= x * Pow(2, n) < BASE
    decreases BASE - x
  {
    PowOne(2);
    if x >= HALF then 0
    else
      var n := Clz32(2 * x);
      ClzNext(x, n);
      1 + n
  }

  lemma ClzNext(x: limb, n: nat)
    requires 0 < x < HALF && n <= 31 && HALF <= (2 * x) * Pow(2, n) < BASE
    ensures n < 31 && (2 * x) * Pow(2, n) == x * Pow(2, n + 1)
  {
    assert (2 * x) * Pow(2, n) == x * (2 * Pow(2, n));
    Pow32();
    MulMono(1, x, Pow(2, n + 1));
  }

  lemma PowDoubles(x: nat, i: nat, j: nat)
    requires i < j
    ensures x * Pow(2, j) >= 2 * (x * Pow(2, i))
  {
    PowMono(2, i, j - 1);
    assert Pow(2, j) == 2 * Pow(2, j - 1);
    hide Pow;
    MulMono(2 * Pow(2, i), Pow(2, j), x);
  }

  lemma ClzIs(x: limb, n: nat)
    requires x > 0 && n <= 31 && HALF <= x * Pow(2, n) < BASE
    ensures Clz32(x) == n
  {
    hide Pow;
    var c := Clz32(x);
    if c < n {
      PowDoubles(x, c, n);
    } else if n < c {
      PowDoubles(x, n, c);
    }
  }

  /** A power of five, shifted left until its top bit is set, and its reciprocal. */
  predicate NormalFive(x: limb, n: nat, v: limb) {
    0 < x && n <= 31 && HALF <= x * FastPow(2, n, 1) < BASE && 0 < BASE * BASE - (BASE + v) * (x * FastPow(2, n, 1)) <= x * FastPow(2, n, 1)
  }

  lemma NormalisedFives()
    ensures NormalFive(0x5, 29, 0x99999999)
    ensures NormalFive(0x19, 27, 0x47ae147a)
    ensures NormalFive(0x7d, 25, 0x624dd2f)
    ensures NormalFive(0x271, 22, 0xa36e2eb1)
    ensures NormalFive(0xc35, 20, 0x4f8b588e)
    ensures NormalFive(0x3d09, 18, 0xc6f7a0b)
    ensures NormalFive(0x1312d, 15, 0xad7f29ab)
    ensures NormalFive(0x5f5e1, 13, 0x5798ee23)
    ensures NormalFive(0x1dcd65, 11, 0x12e0be82)
    ensures NormalFive(0x9502f9, 8, 0xb7cdfd9d)
    ensures NormalFive(0x2e90edd, 6, 0x5fd7fe17)
    ensures NormalFive(0xe8d4a51, 4, 0x19799812)
    ensures NormalFive(0x48c27395, 1, 0xc25c2684)
  {
  }

  lemma ReciprocalStored(x: limb, n: nat, v: limb)
    requires NormalFive(x, n, v)
    ensures x * Pow(2, Clz32(x)) < BASE && IsReciprocal(x * Pow(2, Clz32(x)), v)
  {
    hide Pow, FastPow;
    FastPowIsPow(2, n, 1);
    ClzIs(x, n);
  }

  /** The stored reciprocals are those of the normalised powers of five. */
  lemma FiveReciprocals(b: int)
    requires 1 <= b <= 13
    ensures POW5[b - 1] > 0 && POW5[b - 1] * Pow(2, Clz32(POW5[b - 1])) < BASE
    ensures IsReciprocal(POW5[b - 1] * Pow(2, Clz32(POW5[b - 1])), POW5_INV[b - 1])
  {
    hide Pow, FastPow, Clz32, NormalFive, IsReciprocal;
    NormalisedFives();
    var shifts := [29, 27, 25, 22, 20, 18, 15, 13, 11, 8, 6, 4, 1];
    ReciprocalStored(POW5[b - 1], shifts[b - 1], POW5_INV[b - 1]);
  }
}
