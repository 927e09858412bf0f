/** What js_atod loses when it drops digits: whether the number it rounds is the number the
    text denotes, and whether the result is nearest to the latter all the same. */
module DtoaTruncation {
  import opened DtoaArith
  import opened DtoaReal
  import opened DtoaTables
  import opened DtoaSpec
  import opened DtoaDigits
  import opened DtoaPrint
  import opened DtoaRoundTrip
  import opened DtoaAtod
  import Text = DtoaText

  /** The number that a text denotes, with all its digits. */
  ghost function Denoted(m: Text.Mantissa, x: Text.Exponent, radix: int): real
    requires ValidRadix(radix)
  {
    Text.DigitsValue(m.digits, radix) as real * PowR(radix, 0 - m.fraction) *
    PowR(if x.Exponent? && x.binary then 2 else radix, ExponentOf(x))
  }

  /** The digits that js_atod drops. */
  function Dropped(m: Text.Mantissa, radix: int): seq<nat>
    requires ValidRadix(radix)
  {
    var sig := Significant(m.digits);
    sig[|Kept(sig, radix)|..]
  }

  // --- which texts are read exactly ---

  /** Some of the digits, and the others, as one number. */
  lemma SplitValue(sig: seq<nat>, n: nat, fraction: nat, radix: nat)
    requires n <= |sig| && radix > 0
    ensures Text.DigitsValue(sig, radix) as real * PowR(radix, 0 - fraction) ==
      Text.DigitsValue(sig[..n], radix) as real * PowR(radix, |sig| - n - fraction) +
      Text.DigitsValue(sig[n..], radix) as real * PowR(radix, 0 - fraction)
  {
    hide Pow, PowR, Text.DigitsValue;
    var rest := |sig| - n;
    Text.ValueAppend(sig[..n], sig[n..], radix);
    assert sig[..n] + sig[n..] == sig;
    PowRAdd(radix, rest, 0 - fraction);
    PowRNat(radix, rest);
    RealProduct(Text.DigitsValue(sig[..n], radix), Pow(radix, rest));
    SplitProduct(Text.DigitsValue(sig[..n], radix) as real, Text.DigitsValue(sig[n..], radix) as real, Pow(radix, rest) as real,
      PowR(radix, 0 - fraction));
  }

  lemma SplitProduct(a: real, b: real, p: real, q: real)
    ensures (a * p + b) * q == a * (p * q) + b * q
  {
  }

  /** One in the last place of a text. */
  ghost function LastUnit(m: Text.Mantissa, x: Text.Exponent, radix: int): real
    requires ValidRadix(radix)
  {
    PowR(radix, 0 - m.fraction) * PowR(if x.Exponent? && x.binary then 2 else radix, ExponentOf(x))
  }

  lemma UnitPos(m: Text.Mantissa, x: Text.Exponent, radix: int)
    requires ValidRadix(radix)
    ensures LastUnit(m, x, radix) > 0.0
  {
    hide PowR, ExponentOf;
    var b := if x.Exponent? && x.binary then 2 else radix;
    PowRPos(radix, 0 - m.fraction);
    PowRPos(b, ExponentOf(x));
    ProductPos(PowR(radix, 0 - m.fraction), PowR(b, ExponentOf(x)));
  }

  /** What js_atod loses: the dropped digits in their places. */
  lemma TruncationLoss(m: Text.Mantissa, x: Text.Exponent, radix: int)
    requires ValidRadix(radix) && OddPart(radix) != 1
    ensures Denoted(m, x, radix) ==
      TextValue(m, x, radix) + Text.DigitsValue(Dropped(m, radix), radix) as real * LastUnit(m, x, radix)
  {
    hide Pow, PowR, Text.DigitsValue, OddPart, Kept, ExponentOf;
    var sig := Significant(m.digits);
    var n := |Kept(sig, radix)|;
    KeptPrefix(sig, radix);
    SignificantValue(m.digits, radix);
    SplitValue(sig, n, m.fraction, radix);
    var p := PowR(if x.Exponent? && x.binary then 2 else radix, ExponentOf(x));
    SplitProduct(Text.DigitsValue(sig[..n], radix) as real, Text.DigitsValue(sig[n..], radix) as real * PowR(radix, 0 - m.fraction),
      PowR(radix, |sig| - n - m.fraction), p);
    RealAssoc(Text.DigitsValue(sig[n..], radix) as real, PowR(radix, 0 - m.fraction), p);
    TextValueKept(m, x, radix, sig[..n], n);
    hide TextValue;
    RealAssoc(Text.DigitsValue(sig[..n], radix) as real, PowR(radix, |sig| - n - m.fraction), p);
  }

  lemma TextValueKept(m: Text.Mantissa, x: Text.Exponent, radix: int, ds: seq<nat>, n: nat)
    requires ValidRadix(radix) && OddPart(radix) != 1 && ds == Kept(Significant(m.digits), radix) && n == |ds|
    ensures TextValue(m, x, radix) ==
      Text.DigitsValue(ds, radix) as real * PowR(radix, |Significant(m.digits)| - n - m.fraction) *
      PowR(if x.Exponent? && x.binary then 2 else radix, ExponentOf(x))
  {
    hide PowR, Text.DigitsValue, OddPart, Kept, ExponentOf, Significant;
    assert Counted(Significant(m.digits), radix) == ds;
    hide Counted;
  }

  /** js_atod rounds exactly the number that the text denotes if the radix is a power of two or
      no digit but zero is dropped, and otherwise a smaller one: by less than one in the last
      place that is kept. */
  lemma TextValueExact(m: Text.Mantissa, x: Text.Exponent, radix: int)
    requires ValidRadix(radix) && Text.AreDigits(m.digits, radix)
    ensures TextValue(m, x, radix) == Denoted(m, x, radix) <==> OddPart(radix) == 1 || Text.AllZero(Dropped(m, radix))
    ensures TextValue(m, x, radix) <= Denoted(m, x, radix)
    ensures OddPart(radix) != 1 ==>
      Denoted(m, x, radix) < TextValue(m, x, radix) + Pow(radix, |Dropped(m, radix)|) as real * LastUnit(m, x, radix)
  {
    hide TextValue, Denoted, LastUnit, Dropped, OddPart, Pow, PowR, Text.DigitsValue, Text.AllZero, Text.AreDigits;
    if OddPart(radix) == 1 {
      BinaryExact(m, x, radix);
    } else {
      TruncationLoss(m, x, radix);
      UnitPos(m, x, radix);
      DroppedDigits(m, radix);
      var d := Dropped(m, radix);
      Text.ZeroValue(d, radix);
      Text.ValueBelow(d, radix);
      ScaledLoss(Text.DigitsValue(d, radix), Pow(radix, |d|), LastUnit(m, x, radix));
    }
  }

  lemma ScaledLoss(n: nat, p: nat, u: real)
    requires n < p && u > 0.0
    ensures 0.0 <= n as real * u < p as real * u
    ensures n as real * u == 0.0 <==> n == 0
  {
    RealMono(n as real, p as real, u);
    RealMono(0.0, n as real, u);
  }

  lemma DroppedDigits(m: Text.Mantissa, radix: int)
    requires ValidRadix(radix) && Text.AreDigits(m.digits, radix)
    ensures Text.AreDigits(Dropped(m, radix), radix)
  {
    SignificantDigits(m.digits, radix);
  }

  lemma BinaryExact(m: Text.Mantissa, x: Text.Exponent, radix: int)
    requires ValidRadix(radix) && OddPart(radix) == 1
    ensures TextValue(m, x, radix) == Denoted(m, x, radix)
  {
    hide Pow, PowR, OddPart, ExponentOf, Kept, Significant, Text.DigitsValue;
    SignificantValue(m.digits, radix);
    assert |Significant(m.digits)| - |Counted(Significant(m.digits), radix)| - m.fraction == 0 - m.fraction;
  }

  lemma KeptPrefix(sig: seq<nat>, radix: int)
    requires ValidRadix(radix)
    ensures |Kept(sig, radix)| <= |sig| && Kept(sig, radix) == sig[..|Kept(sig, radix)|]
  {
    ParseDigitsRange(radix);
  }

  // --- which texts are rounded correctly ---

  /** If a is nearest to the truncated number, it is nearest to the denoted one too unless the
      dropped digits reach beyond the middle between a and its successor, or, for an odd a,
      up to it. */
  lemma TruncationRounds(m: Text.Mantissa, x: Text.Exponent, radix: int, a: nat)
    requires ValidRadix(radix) && Text.AreDigits(m.digits, radix) && IsNearest(a, TextValue(m, x, radix))
    ensures IsNearest(a, Denoted(m, x, radix)) <==>
      a == INF || (var twice := Denoted(m, x, radix) + Denoted(m, x, radix); var ends := ValueOf(a) + ValueOf(a + 1);
                   twice < ends || (twice == ends && a % 2 == 0))
  {
    hide *;
    TextValueExact(m, x, radix);
    NearestAbove(a, TextValue(m, x, radix), Denoted(m, x, radix));
  }

  /** The nearest pattern of a smaller number is the nearest one of a larger number only below
      the middle of the gap above it. */
  lemma NearestAbove(a: nat, t: real, x: real)
    requires IsNearest(a, t) && t <= x
    ensures IsNearest(a, x) <==>
      a == INF || (var ends := ValueOf(a) + ValueOf(a + 1); x + x < ends || (x + x == ends && a % 2 == 0))
  {
    hide ValueOf;
    NearestByNeighbours(a, t);
    NearestByNeighbours(a, x);
    if a > 0 { ValueMono(a - 1, a); }
    if a < INF { ValueMono(a, a + 1); }
  }

  // --- a text that is not rounded correctly ---

  /** The digits of 2^53 + 1. */
  const HEAD: seq<nat> := [9, 0, 0, 7] + [1, 9, 9, 2] + [5, 4, 7, 4] + [0, 9, 9, 3]

  /** 39 digits, of which 38 are kept. */
  function LongDigits(): (ds: seq<nat>)
    ensures |ds| == 39 && ds[..16] == HEAD && ds[16..38] == ZeroDigits(22) && ds[38..] == [1] && ds[..38] == HEAD + ZeroDigits(22)
  {
    HEAD + ZeroDigits(22) + [1]
  }

  function LongText(): string {
    "9007199254740993." + Zeros(22) + "1"
  }

  /** The bit pattern of 2^53. */
  const TWO53 := 1076 * MANT

  /** 9007199254740993.(22 zeros)1 lies above the middle between 9007199254740992 and
      9007199254740994, but js_atod rounds the middle itself, and that to the even one. */
  lemma TruncationRoundsDown()
    ensures var n := Text.ScanNumber(LongText(), 10, false, false);
      n.Number? && n.radix == 10 && n.end == |LongText()| && ExponentFits(n.mantissa, n.exponent, 10) &&
      TextValue(n.mantissa, n.exponent, 10) == 9007199254740993.0 < Denoted(n.mantissa, n.exponent, 10) &&
      IsNearest(TWO53, TextValue(n.mantissa, n.exponent, 10)) && !IsNearest(TWO53, Denoted(n.mantissa, n.exponent, 10))
    ensures ValueOf(TWO53) == 9007199254740992.0 && ValueOf(TWO53 + 1) == 9007199254740994.0
  {
    hide LongDigits, LongText, TextValue, Denoted, LastUnit, Dropped, OddPart, Pow, PowR, ValueOf, IsNearest, ExponentFits, Text.DigitsValue,
      Text.AllZero, Text.ScanNumber, Chars, Significant, Kept;
    LongScan();
    var m := Text.Mantissa(LongDigits(), 23, |LongText()|);
    LongParts(m);
    LongValue(m);
    Middle53();
    Ten();
    TextValueExact(m, Text.NoExponent, 10);
    TruncationRounds(m, Text.NoExponent, 10, TWO53);
    LongFits(m);
  }

  lemma LongScan()
    ensures Text.ScanNumber(LongText(), 10, false, false) ==
      Text.Number(false, 10, Text.Mantissa(LongDigits(), 23, |LongText()|), Text.NoExponent, |LongText()|)
    ensures Text.AreDigits(LongDigits(), 10)
  {
    hide Text.ScanNumber, Chars, DigitChar, Text.ToDigit;
    HeadChars();
    ZeroChars(22);
    OneChar();
    CharsAppend(HEAD, ZeroDigits(22));
    CharsAppend(HEAD + ZeroDigits(22), [1]);
    var s := Chars(LongDigits());
    assert s[..16] == "9007199254740993" && s[16..] == Zeros(22) + "1";
    assert LongText() == SignText(false) + (WithDot(s, 16) + Tail(false, 0, 10));
    hide *;
    ScanPrinted(LongText(), false, LongDigits(), 16, false, 0, 10, false, false);
  }

  lemma OneChar()
    ensures Chars([1]) == "1"
  {
  }

  lemma HeadChars()
    ensures Chars(HEAD) == "9007199254740993"
  {
    assert HEAD == [9, 0, 0, 7, 1, 9, 9, 2, 5, 4, 7, 4, 0, 9, 9, 3];
  }

  lemma LongParts(m: Text.Mantissa)
    requires m.digits == LongDigits()
    ensures Significant(m.digits) == m.digits && Kept(m.digits, 10) == HEAD + ZeroDigits(22)
    ensures Dropped(m, 10) == [1] && !Text.AllZero(Dropped(m, 10))
  {
    hide LongDigits;
    assert m.digits[0] == m.digits[..16][0];
    hide Significant, Kept;
    FirstDigit(m.digits);
    assert Dropped(m, 10) == m.digits[38..];
    assert Dropped(m, 10)[0] != 0;
  }

  lemma LeadingDigit(ds: seq<nat>)
    requires ds != [] && ds[0] != 0
    ensures Significant(ds) == ds
  {
  }

  lemma KeptDigits(ds: seq<nat>, n: nat)
    requires |ds| > n == ATOD_MAX_DIGITS[8]
    ensures Kept(ds, 10) == ds[..n]
  {
  }

  lemma FirstDigit(ds: seq<nat>)
    requires |ds| == 39 && ds[0] != 0
    ensures Significant(ds) == ds && Kept(ds, 10) == ds[..38]
  {
    hide Significant;
    LeadingDigit(ds);
    KeptDigits(ds, 38);
  }

  lemma LongValue(m: Text.Mantissa)
    requires m.digits == LongDigits() && m.fraction == 23
    ensures TextValue(m, Text.NoExponent, 10) == 9007199254740993.0
  {
    hide PowR, Text.DigitsValue, OddPart, LongDigits, Significant, Kept;
    LongParts(m);
    Ten();
    KeptValue();
    PowRNat(10, 22);
    PowROne(10);
    RealProduct(9007199254740993, Pow(10, 22));
    hide Pow;
    assert Counted(m.digits, 10) == HEAD + ZeroDigits(22);
    var p := Pow(10, 22) as real;
    assert PowR(10, -22) == 1.0 / p;
    assert TextValue(m, Text.NoExponent, 10) == (9007199254740993.0 * p) * (1.0 / p) * 1.0;
    Cancelled(9007199254740993.0, p);
  }

  lemma Cancelled(x: real, p: real)
    requires p > 0.0
    ensures (x * p) * (1.0 / p) * 1.0 == x
  {
    assert (x * p) / p == x;
  }

  lemma KeptValue()
    ensures Text.DigitsValue(HEAD + ZeroDigits(22), 10) == 9007199254740993 * Pow(10, 22)
  {
    hide Pow, Text.DigitsValue;
    Text.ValueAppend(HEAD, ZeroDigits(22), 10);
    Text.ZeroValue(ZeroDigits(22), 10);
    HeadValue();
  }

  lemma HeadValue()
    ensures Text.DigitsValue(HEAD, 10) == 9007199254740993
  {
    FourDigits(9, 0, 0, 7);
    FourDigits(1, 9, 9, 2);
    FourDigits(5, 4, 7, 4);
    FourDigits(0, 9, 9, 3);
    assert Pow(10, 4) == 10000;
    hide Pow, Text.DigitsValue;
    Text.ValueAppend([9, 0, 0, 7], [1, 9, 9, 2], 10);
    Text.ValueAppend([9, 0, 0, 7] + [1, 9, 9, 2], [5, 4, 7, 4], 10);
    Text.ValueAppend([9, 0, 0, 7] + [1, 9, 9, 2] + [5, 4, 7, 4], [0, 9, 9, 3], 10);
  }

  lemma FourDigits(a: nat, b: nat, c: nat, d: nat)
    ensures Text.DigitsValue([a, b, c, d], 10) == 1000 * a + 100 * b + 10 * c + d
  {
    assert [a] == [] + [a] && [a, b] == [a] + [b] && [a, b, c] == [a, b] + [c] && [a, b, c, d] == [a, b, c] + [d];
    Text.ValueSnoc([], a, 10);
    Text.ValueSnoc([a], b, 10);
    Text.ValueSnoc([a, b], c, 10);
    Text.ValueSnoc([a, b, c], d, 10);
  }

  lemma Middle53()
    ensures ValueOf(TWO53) == 9007199254740992.0 && ValueOf(TWO53 + 1) == 9007199254740994.0
    ensures TWO53 < INF && IsNearest(TWO53, 9007199254740993.0) && TWO53 % 2 == 0
  {
    DivUnique(TWO53, MANT, 1076, 0);
    DivUnique(TWO53 + 1, MANT, 1076, 1);
    PowROne(2);
    hide PowR;
    ValueMono(TWO53 - 1, TWO53);
    NearestByNeighbours(TWO53, 9007199254740993.0);
  }

  lemma LongFits(m: Text.Mantissa)
    requires m.digits == LongDigits() && m.fraction == 23
    ensures ExponentFits(m, Text.NoExponent, 10)
  {
    LongParts(m);
    Ten();
    hide OddPart, Significant, Kept, LongDigits;
  }
}
