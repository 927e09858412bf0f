/** The numbers of digits in the tables of dtoa.c are the least that suffice for printing and the
    most that there is room for when parsing. */
module DtoaTight {
  import opened DtoaArith
  import opened DtoaTables

  lemma PrintTooFewFrom2()
    ensures FastPow(2, 52, 1) < 0x20_0000_0000_0000
    ensures FastPow(3, 33, 1) < 0x20_0000_0000_0000
    ensures FastPow(4, 26, 1) < 0x20_0000_0000_0000
    ensures FastPow(5, 22, 1) < 0x20_0000_0000_0000
    ensures FastPow(6, 20, 1) < 0x20_0000_0000_0000
    ensures FastPow(7, 18, 1) < 0x20_0000_0000_0000
    ensures FastPow(8, 17, 1) < 0x20_0000_0000_0000
  {
  }

  lemma PrintTooFewFrom9()
    ensures FastPow(9, 16, 1) < 0x20_0000_0000_0000
    ensures FastPow(10, 15, 1) < 0x20_0000_0000_0000
    ensures FastPow(11, 15, 1) < 0x20_0000_0000_0000
    ensures FastPow(12, 14, 1) < 0x20_0000_0000_0000
    ensures FastPow(13, 14, 1) < 0x20_0000_0000_0000
    ensures FastPow(14, 13, 1) < 0x20_0000_0000_0000
    ensures FastPow(15, 13, 1) < 0x20_0000_0000_0000
  {
  }

  lemma PrintTooFewFrom16()
    ensures FastPow(16, 13, 1) < 0x20_0000_0000_0000
    ensures FastPow(17, 12, 1) < 0x20_0000_0000_0000
    ensures FastPow(18, 12, 1) < 0x20_0000_0000_0000
    ensures FastPow(19, 12, 1) < 0x20_0000_0000_0000
    ensures FastPow(20, 12, 1) < 0x20_0000_0000_0000
    ensures FastPow(21, 12, 1) < 0x20_0000_0000_0000
    ensures FastPow(22, 11, 1) < 0x20_0000_0000_0000
  {
  }

  lemma PrintTooFewFrom23()
    ensures FastPow(23, 11, 1) < 0x20_0000_0000_0000
    ensures FastPow(24, 11, 1) < 0x20_0000_0000_0000
    ensures FastPow(25, 11, 1) < 0x20_0000_0000_0000
    ensures FastPow(26, 11, 1) < 0x20_0000_0000_0000
    ensures FastPow(27, 11, 1) < 0x20_0000_0000_0000
    ensures FastPow(28, 11, 1) < 0x20_0000_0000_0000
    ensures FastPow(29, 10, 1) < 0x20_0000_0000_0000
  {
  }

  lemma PrintTooFewFrom30()
    ensures FastPow(30, 10, 1) < 0x20_0000_0000_0000
    ensures FastPow(31, 10, 1) < 0x20_0000_0000_0000
    ensures FastPow(32, 10, 1) < 0x20_0000_0000_0000
    ensures FastPow(33, 10, 1) < 0x20_0000_0000_0000
    ensures FastPow(34, 10, 1) < 0x20_0000_0000_0000
    ensures FastPow(35, 10, 1) < 0x20_0000_0000_0000
    ensures FastPow(36, 10, 1) < 0x20_0000_0000_0000
  {
  }

  /** One digit less than DTOA_MAX_DIGITS would not be enough to tell all integers up to 2^53
      apart: with the lower bound of PrintDigits, the entries have no other choice. */
  lemma PrintTight(radix: int)
    requires 2 <= radix <= 36
    ensures DTOA_MAX_DIGITS[radix - 2] >= 2
    ensures Pow(radix, DTOA_MAX_DIGITS[radix - 2] - 2) < 0x20_0000_0000_0000 <= Pow(radix, DTOA_MAX_DIGITS[radix - 2] - 1)
  {
    hide Pow, FastPow;
    PrintDigitsRange(radix);
    FastPowIsPow(radix, DTOA_MAX_DIGITS[radix - 2] - 2, 1);
    if radix == 2 { PowTwo53(); } else { PrintDigits(radix); }
    if radix < 9 {
      PrintTooFewFrom2();
    } else if radix < 16 {
      PrintTooFewFrom9();
    } else if radix < 23 {
      PrintTooFewFrom16();
    } else if radix < 30 {
      PrintTooFewFrom23();
    } else {
      PrintTooFewFrom30();
    }
  }

  lemma PowTwo53()
    ensures Pow(2, 53) == 0x20_0000_0000_0000
  {
    FastPowIsPow(2, 53, 1);
    assert FastPow(2, 53, 1) == 0x20_0000_0000_0000;
  }

  lemma ParseTooManyFrom2()
    ensures FastPow(2, 65, 1) > 0x1_0000_0000_0000_0000
    ensures FastPow(3, 81, 1) > 0x1_0000_0000_0000_0000_0000_0000_0000_0000
    ensures FastPow(4, 33, 1) > 0x1_0000_0000_0000_0000
    ensures FastPow(5, 56, 1) > 0x1_0000_0000_0000_0000_0000_0000_0000_0000
    ensures FastPow(6, 50, 1) > 0x1_0000_0000_0000_0000_0000_0000_0000_0000
  {
  }

  lemma ParseTooManyFrom7()
    ensures FastPow(7, 46, 1) > 0x1_0000_0000_0000_0000_0000_0000_0000_0000
    ensures FastPow(8, 22, 1) > 0x1_0000_0000_0000_0000
    ensures FastPow(9, 41, 1) > 0x1_0000_0000_0000_0000_0000_0000_0000_0000
    ensures FastPow(10, 39, 1) > 0x1_0000_0000_0000_0000_0000_0000_0000_0000
    ensures FastPow(11, 38, 1) > 0x1_0000_0000_0000_0000_0000_0000_0000_0000
  {
  }

  lemma ParseTooManyFrom12()
    ensures FastPow(12, 36, 1) > 0x1_0000_0000_0000_0000_0000_0000_0000_0000
    ensures FastPow(13, 35, 1) > 0x1_0000_0000_0000_0000_0000_0000_0000_0000
    ensures FastPow(14, 34, 1) > 0x1_0000_0000_0000_0000_0000_0000_0000_0000
    ensures FastPow(15, 33, 1) > 0x1_0000_0000_0000_0000_0000_0000_0000_0000
    ensures FastPow(16, 17, 1) > 0x1_0000_0000_0000_0000
  {
  }

  lemma ParseTooManyFrom17()
    ensures FastPow(17, 32, 1) > 0x1_0000_0000_0000_0000_0000_0000_0000_0000
    ensures FastPow(18, 31, 1) > 0x1_0000_0000_0000_0000_0000_0000_0000_0000
    ensures FastPow(19, 31, 1) > 0x1_0000_0000_0000_0000_0000_0000_0000_0000
    ensures FastPow(20, 30, 1) > 0x1_0000_0000_0000_0000_0000_0000_0000_0000
    ensures FastPow(21, 30, 1) > 0x1_0000_0000_0000_0000_0000_0000_0000_0000
  {
  }

  lemma ParseTooManyFrom22()
    ensures FastPow(22, 29, 1) > 0x1_0000_0000_0000_0000_0000_0000_0000_0000
    ensures FastPow(23, 29, 1) > 0x1_0000_0000_0000_0000_0000_0000_0000_0000
    ensures FastPow(24, 28, 1) > 0x1_0000_0000_0000_0000_0000_0000_0000_0000
    ensures FastPow(25, 28, 1) > 0x1_0000_0000_0000_0000_0000_0000_0000_0000
    ensures FastPow(26, 28, 1) > 0x1_0000_0000_0000_0000_0000_0000_0000_0000
  {
  }

  lemma ParseTooManyFrom27()
    ensures FastPow(27, 27, 1) > 0x1_0000_0000_0000_0000_0000_0000_0000_0000
    ensures FastPow(28, 27, 1) > 0x1_0000_0000_0000_0000_0000_0000_0000_0000
    ensures FastPow(29, 27, 1) > 0x1_0000_0000_0000_0000_0000_0000_0000_0000
    ensures FastPow(30, 27, 1) > 0x1_0000_0000_0000_0000_0000_0000_0000_0000
    ensures FastPow(31, 26, 1) > 0x1_0000_0000_0000_0000_0000_0000_0000_0000
  {
  }

  lemma ParseTooManyFrom32()
    ensures FastPow(32, 13, 1) > 0x1_0000_0000_0000_0000
    ensures FastPow(33, 26, 1) > 0x1_0000_0000_0000_0000_0000_0000_0000_0000
    ensures FastPow(34, 26, 1) > 0x1_0000_0000_0000_0000_0000_0000_0000_0000
    ensures FastPow(35, 25, 1) > 0x1_0000_0000_0000_0000_0000_0000_0000_0000
    ensures FastPow(36, 25, 1) > 0x1_0000_0000_0000_0000_0000_0000_0000_0000
  {
  }

  lemma ParseBinary()
    ensures FastPow(2, 64, 1) <= 0x1_0000_0000_0000_0000
    ensures FastPow(4, 32, 1) <= 0x1_0000_0000_0000_0000
    ensures FastPow(8, 21, 1) <= 0x1_0000_0000_0000_0000
    ensures FastPow(16, 16, 1) <= 0x1_0000_0000_0000_0000
    ensures FastPow(32, 12, 1) <= 0x1_0000_0000_0000_0000
  {
  }

  predicate PowerOfTwo(radix: int) {
    radix == 2 || radix == 4 || radix == 8 || radix == 16 || radix == 32
  }

  /** ATOD_MAX_DIGITS digits fit two limbs for a power of two and four limbs otherwise, and one
      digit more would not. */
  lemma ParseTight(radix: int)
    requires 2 <= radix <= 36
    ensures ATOD_MAX_DIGITS[radix - 2] >= 0
    ensures var limit := if PowerOfTwo(radix) then 0x1_0000_0000_0000_0000 else 0x1_0000_0000_0000_0000_0000_0000_0000_0000;
      Pow(radix, ATOD_MAX_DIGITS[radix - 2]) <= limit < Pow(radix, ATOD_MAX_DIGITS[radix - 2] + 1)
  {
    hide Pow, FastPow;
    ParseDigits(radix);
    ParseDigitsRange(radix);
    FastPowIsPow(radix, ATOD_MAX_DIGITS[radix - 2], 1);
    FastPowIsPow(radix, ATOD_MAX_DIGITS[radix - 2] + 1, 1);
    if PowerOfTwo(radix) { ParseBinary(); }
    if radix < 7 {
      ParseTooManyFrom2();
    } else if radix < 12 {
      ParseTooManyFrom7();
    } else if radix < 17 {
      ParseTooManyFrom12();
    } else if radix < 22 {
      ParseTooManyFrom17();
    } else if radix < 27 {
      ParseTooManyFrom22();
    } else if radix < 32 {
      ParseTooManyFrom27();
    } else {
      ParseTooManyFrom32();
    }
  }
}
