/** js_atod: the digits of a number accumulated in a big number, and the number rounded to
    binary64. Digit separators are not part of this model. */
module DtoaAtod {
  import opened Words
  import opened DtoaArith
  import opened DtoaReal
  import opened DtoaLimbs
  import opened DtoaBignum
  import opened DtoaTables
  import opened DtoaPower
  import opened DtoaRound
  import opened DtoaSpec
  import opened DtoaDouble
  import Text = DtoaText

  const DBIGNUM_LEN_MAX := 52

  /** The digits of a mantissa without its leading zeros. */
  function Significant(ds: seq<nat>): seq<nat> {
    if ds != [] && ds[0] == 0 then Significant(ds[1..]) else ds
  }

  lemma {:induction false} SignificantParts(zeros: seq<nat>, sig: seq<nat>)
    requires Text.AllZero(zeros) && (sig == [] || sig[0] != 0)
    ensures Significant(zeros + sig) == sig
  {
    if zeros == [] {
      assert zeros + sig == sig;
    } else {
      assert (zeros + sig)[1..] == zeros[1..] + sig;
      SignificantParts(zeros[1..], sig);
    }
  }

  /** The digits that are kept, and the others. */
  function Kept(sig: seq<nat>, radix: int): seq<nat>
    requires ValidRadix(radix)
  {
    if |sig| <= ATOD_MAX_DIGITS[radix - 2] then sig else sig[..ATOD_MAX_DIGITS[radix - 2]]
  }

  /** The part of the number that the limbs hold while the digits of a mantissa arrive:
      `cur` collects digits until a limb is full. */
  ghost predicate Holds(val: nat, cur: nat, limbDigits: nat, kept: seq<nat>, radix: int)
    requires ValidRadix(radix)
  {
    limbDigits < DIGITS_PER_LIMB[radix - 2] && cur < Pow(radix, limbDigits) &&
    val * Pow(radix, limbDigits) + cur == Text.DigitsValue(kept, radix)
  }

  lemma NextDigit(val: nat, cur: nat, limbDigits: nat, kept: seq<nat>, radix: int, c: nat)
    requires ValidRadix(radix) && c < radix && Holds(val, cur, limbDigits, kept, radix)
    ensures cur * radix + c < Pow(radix, limbDigits + 1) <= BASE
    ensures val * Pow(radix, limbDigits + 1) + (cur * radix + c) == Text.DigitsValue(kept + [c], radix)
  {
    Text.PowNext(radix, limbDigits);
    PowMono(radix, limbDigits + 1, DIGITS_PER_LIMB[radix - 2]);
    LimbBase(radix);
    hide Pow;
    Text.LastPlace(cur, c, Pow(radix, limbDigits), radix);
    Text.ValueSnoc(kept, c, radix);
    Text.NextPlace(val, Pow(radix, limbDigits), cur, radix);
  }

  lemma HoldsNext(val: nat, cur: nat, limbDigits: nat, kept: seq<nat>, radix: int, c: nat)
    requires ValidRadix(radix) && c < radix && Holds(val, cur, limbDigits, kept, radix)
    ensures cur * radix + c < BASE
    ensures limbDigits + 1 != DIGITS_PER_LIMB[radix - 2] ==> Holds(val, cur * radix + c, limbDigits + 1, kept + [c], radix)
    ensures limbDigits + 1 == DIGITS_PER_LIMB[radix - 2] ==>
      Holds(val * (if RADIX_BASE[radix - 2] == 0 then BASE else RADIX_BASE[radix - 2]) + (cur * radix + c), 0, 0, kept + [c], radix)
  {
    NextDigit(val, cur, limbDigits, kept, radix, c);
    LimbBase(radix);
    PowOne(radix);
    hide Pow, Text.DigitsValue;
  }

  /** One digit of the mantissa. */
  method AddDigit(tmp: Bignum, cur0: limb, limbDigits0: nat, radix: int, c: nat, ghost kept: seq<nat>)
    returns (cur: limb, limbDigits: nat)
    requires tmp.Normal() && ValidRadix(radix) && c < radix && Holds(tmp.Val(), cur0, limbDigits0, kept, radix)
    requires tmp.len + 2 <= tmp.tab.Length
    modifies tmp, tmp.tab
    ensures tmp.Normal() && Holds(tmp.Val(), cur, limbDigits, kept + [c], radix)
    ensures tmp.len <= old(tmp.len) + 1 && (limbDigits != 0 ==> tmp.len == old(tmp.len))
  {
    hide Pow, Value, Holds;
    HoldsNext(tmp.Val(), cur0, limbDigits0, kept, radix, c);
    cur := cur0 * radix + c;
    limbDigits := limbDigits0 + 1;
    if limbDigits == DIGITS_PER_LIMB[radix - 2] {
      tmp.Mul1Base(RADIX_BASE[radix - 2], cur);
      cur := 0;
      limbDigits := 0;
    }
  }

  /** How far a scan has come: `done` has been read, with the dot in front of its last
      `pos - dotPos` digits if it has been seen. */
  ghost predicate Scanning(s: string, first: nat, start: nat, radix: nat, p: nat, pos: nat, dotPos: int, done: seq<nat>) {
    var all := Text.ScanMantissa(s, first, start, false, radix);
    var rest := Text.ScanMantissa(s, p, start, dotPos >= 0, radix);
    first <= p <= |s| && |done| == pos && dotPos <= pos &&
    all.digits == done + rest.digits && all.end == rest.end &&
    all.fraction == (if dotPos >= 0 then pos - dotPos else 0) + rest.fraction
  }

  lemma ScanningDot(s: string, first: nat, start: nat, radix: int, p: nat, pos: nat, dotPos: int, done: seq<nat>)
    requires 2 <= radix <= 36 && Scanning(s, first, start, radix, p, pos, dotPos, done)
    requires dotPos < 0 && Text.DotAt(s, p, start, radix)
    ensures Scanning(s, first, start, radix, p + 1, pos, pos, done)
  {
  }

  lemma ScanningDigit(s: string, first: nat, start: nat, radix: int, p: nat, pos: nat, dotPos: int, done: seq<nat>)
    requires 2 <= radix <= 36 && Scanning(s, first, start, radix, p, pos, dotPos, done)
    requires Text.DigitAt(s, p, radix)
    ensures Scanning(s, first, start, radix, p + 1, pos + 1, dotPos, done + [Text.ToDigit(s[p])])
  {
    var d := Text.ToDigit(s[p]);
    var rest := Text.ScanMantissa(s, p + 1, start, dotPos >= 0, radix);
    assert done + ([d] + rest.digits) == (done + [d]) + rest.digits;
  }

  lemma ScanningEnds(s: string, first: nat, start: nat, radix: int, p: nat, pos: nat, dotPos: int, done: seq<nat>)
    requires 2 <= radix <= 36 && Scanning(s, first, start, radix, p, pos, dotPos, done)
    requires !Text.DigitAt(s, p, radix) && (dotPos >= 0 || !Text.DotAt(s, p, start, radix))
    ensures var all := Text.ScanMantissa(s, first, start, false, radix);
      all.digits == done && all.end == p && all.fraction == if dotPos >= 0 then pos - dotPos else 0
  {
    assert done + [] == done;
  }

  /** The loop over leading zeros. */
  method SkipZeros(s: string, first: nat, start: nat, radix: int) returns (p: nat, pos: nat, dotPos: int, ghost zeros: seq<nat>)
    requires ValidRadix(radix) && first <= |s|
    ensures Scanning(s, first, start, radix, p, pos, dotPos, zeros) && Text.AllZero(zeros) && dotPos >= -1
    ensures Text.At(s, p) != '0' && (dotPos < 0 ==> !Text.DotAt(s, p, start, radix))
  {
    hide Scanning;
    p, pos, dotPos, zeros := first, 0, -1, [];
    ScanningStarts(s, first, start, radix);
    while true
      invariant first <= p <= |s| && dotPos >= -1
      invariant Scanning(s, first, start, radix, p, pos, dotPos, zeros) && Text.AllZero(zeros)
      decreases |s| - p
    {
      if Text.DotAt(s, p, start, radix) {
        if dotPos >= 0 {
          return;
        }
        ScanningDot(s, first, start, radix, p, pos, dotPos, zeros);
        dotPos := pos;
        p := p + 1;
      }
      if Text.At(s, p) != '0' {
        return;
      }
      ScanningDigit(s, first, start, radix, p, pos, dotPos, zeros);
      zeros := zeros + [0];
      p := p + 1;
      pos := pos + 1;
    }
  }

  lemma ScanningStarts(s: string, first: nat, start: nat, radix: nat)
    requires first <= |s|
    ensures Scanning(s, first, start, radix, first, 0, -1, [])
  {
    var r := Text.ScanMantissa(s, first, start, false, radix);
    assert [] + r.digits == r.digits;
  }

  /** The significant digits read so far: those in `kept` are in the limbs, of the others it
      is known whether all are zero. */
  ghost predicate Collected(val: nat, cur: nat, limbDigits: nat, sig: seq<nat>, digitCount: nat, extra: bool, radix: int)
    requires ValidRadix(radix)
  {
    digitCount == |Kept(sig, radix)| && Holds(val, cur, limbDigits, Kept(sig, radix), radix) &&
    (extra <==> !Text.AllZero(sig[digitCount..]))
  }

  lemma KeepDigit(val: nat, cur: nat, limbDigits: nat, sig: seq<nat>, digitCount: nat, extra: bool, radix: int, c: nat)
    requires ValidRadix(radix) && Collected(val, cur, limbDigits, sig, digitCount, extra, radix)
    ensures digitCount < ATOD_MAX_DIGITS[radix - 2] ==>
      sig == Kept(sig, radix) && Kept(sig + [c], radix) == sig + [c] && !extra && (sig + [c])[digitCount + 1..] == []
    ensures digitCount >= ATOD_MAX_DIGITS[radix - 2] ==>
      Kept(sig + [c], radix) == Kept(sig, radix) && (sig + [c])[digitCount..] == sig[digitCount..] + [c]
  {
    ParseDigitsRange(radix);
    hide Holds;
  }

  /** The limbs never hold more than four limbs' worth of digits. */
  lemma KeptFits(val: nat, cur: nat, limbDigits: nat, kept: seq<nat>, radix: int)
    requires ValidRadix(radix) && Holds(val, cur, limbDigits, kept, radix)
    requires Text.AreDigits(kept, radix) && |kept| <= ATOD_MAX_DIGITS[radix - 2]
    ensures val < Pow(BASE, 4)
  {
    hide Pow, Text.DigitsValue;
    Text.ValueBelow(kept, radix);
    PowMono(radix, |kept|, ATOD_MAX_DIGITS[radix - 2]);
    ParseDigits(radix);
    PowPos(radix, limbDigits);
    FactorBelow(val, Pow(radix, limbDigits), cur, Text.DigitsValue(kept, radix));
    BaseToFour();
  }

  lemma FactorBelow(val: nat, p: nat, cur: nat, total: nat)
    requires p > 0 && val * p + cur == total
    ensures val <= total
  {
    MulMono(1, p, val);
  }

  lemma BaseToFour()
    ensures Pow(BASE, 4) == 0x1_0000_0000_0000_0000_0000_0000_0000_0000
  {
    PowAdd(BASE, 2, 2);
    PowOne(BASE);
  }

  lemma LenFits(s: seq<limb>, n: nat)
    requires s != [] && (|s| == 1 || s[|s| - 1] != 0) && Value(s) < Pow(BASE, n) && n >= 1
    ensures |s| <= n
  {
    TopLimb(s);
    if |s| > n { PowMono(BASE, n, |s| - 1); }
  }

  /** One digit of the mantissa, kept or not. */
  method TakeDigit(tmp: Bignum, cur0: limb, limbDigits0: nat, digitCount0: nat, extra0: bool, radix: int, c: nat, ghost sig: seq<nat>)
    returns (cur: limb, limbDigits: nat, digitCount: nat, extra: bool)
    requires tmp.Normal() && ValidRadix(radix) && c < radix && Text.AreDigits(sig, radix)
    requires Collected(tmp.Val(), cur0, limbDigits0, sig, digitCount0, extra0, radix)
    requires tmp.len <= 4 && tmp.tab.Length >= DBIGNUM_LEN_MAX
    modifies tmp, tmp.tab
    ensures tmp.Normal() && tmp.len <= 4
    ensures Collected(tmp.Val(), cur, limbDigits, sig + [c], digitCount, extra, radix)
  {
    hide Holds, Value, Pow;
    cur, limbDigits, digitCount, extra := cur0, limbDigits0, digitCount0, extra0;
    KeepDigit(tmp.Val(), cur0, limbDigits0, sig, digitCount0, extra0, radix, c);
    if digitCount < ATOD_MAX_DIGITS[radix - 2] {
      cur, limbDigits := AddDigit(tmp, cur0, limbDigits0, radix, c, sig);
      KeptFits(tmp.Val(), cur, limbDigits, sig + [c], radix);
      LenFits(tmp.tab[..tmp.len], 4);
      digitCount := digitCount + 1;
    } else {
      extra := extra || c != 0;
      NotAllZero(sig[digitCount..], c);
    }
  }

  lemma NotAllZero(ds: seq<nat>, c: nat)
    ensures Text.AllZero(ds + [c]) <==> Text.AllZero(ds) && c == 0
  {
    assert (ds + [c])[|ds|] == c;
    assert forall i :: 0 <= i < |ds| ==> (ds + [c])[i] == ds[i];
  }

  /** The loop over the significant digits. */
  method ReadDigits(tmp: Bignum, s: string, first: nat, start: nat, radix: int, p0: nat, pos0: nat, dotPos0: int, ghost zeros: seq<nat>)
    returns (p: nat, pos: nat, dotPos: int, cur: limb, limbDigits: nat, digitCount: nat, extra: bool, ghost sig: seq<nat>)
    requires tmp.Normal() && tmp.Val() == 0 && tmp.len <= 4 && tmp.tab.Length >= DBIGNUM_LEN_MAX && ValidRadix(radix)
    requires Scanning(s, first, start, radix, p0, pos0, dotPos0, zeros) && Text.AllZero(zeros) && dotPos0 >= -1
    requires Text.At(s, p0) != '0' && (dotPos0 < 0 ==> !Text.DotAt(s, p0, start, radix))
    modifies tmp, tmp.tab
    ensures tmp.Normal() && tmp.len <= 4 && dotPos >= -1 && pos == pos0 + |sig|
    ensures Collected(tmp.Val(), cur, limbDigits, sig, digitCount, extra, radix)
    ensures Text.AreDigits(sig, radix) && (sig != [] ==> sig[0] != 0)
    ensures var all := Text.ScanMantissa(s, first, start, false, radix);
      all.digits == zeros + sig && all.end == p && all.fraction == if dotPos >= 0 then pos - dotPos else 0
  {
    hide Scanning, Collected, Value, Pow;
    p, pos, dotPos, cur, limbDigits, digitCount, extra, sig := p0, pos0, dotPos0, 0, 0, 0, false, [];
    NothingCollected(radix);
    assert zeros + sig == zeros;
    ScanningBounds(s, first, start, radix, p, pos, dotPos, zeros);
    while true
      invariant first <= p <= |s| && dotPos >= -1 && pos == pos0 + |sig|
      invariant tmp.Normal() && tmp.len <= 4
      invariant Scanning(s, first, start, radix, p, pos, dotPos, zeros + sig)
      invariant Collected(tmp.Val(), cur, limbDigits, sig, digitCount, extra, radix)
      invariant Text.AreDigits(sig, radix) && (sig != [] ==> sig[0] != 0)
      invariant sig == [] ==> Text.At(s, p) != '0' && (dotPos < 0 ==> !Text.DotAt(s, p, start, radix))
      decreases |s| - p
    {
      if Text.DotAt(s, p, start, radix) {
        if dotPos >= 0 {
          break;
        }
        ScanningDot(s, first, start, radix, p, pos, dotPos, zeros + sig);
        dotPos := pos;
        p := p + 1;
      }
      var c := Text.ToDigit(Text.At(s, p));
      if c >= radix {
        break;
      }
      ScanningDigit(s, first, start, radix, p, pos, dotPos, zeros + sig);
      cur, limbDigits, digitCount, extra := TakeDigit(tmp, cur, limbDigits, digitCount, extra, radix, c, sig);
      assert zeros + sig + [c] == zeros + (sig + [c]);
      sig := sig + [c];
      p := p + 1;
      pos := pos + 1;
    }
    ScanningEnds(s, first, start, radix, p, pos, dotPos, zeros + sig);
  }

  lemma NothingCollected(radix: int)
    requires ValidRadix(radix)
    ensures Collected(0, 0, 0, [], 0, false, radix)
  {
    DigitsRange(radix);
    PowOne(radix);
  }

  lemma ScanningBounds(s: string, first: nat, start: nat, radix: nat, p: nat, pos: nat, dotPos: int, done: seq<nat>)
    requires Scanning(s, first, start, radix, p, pos, dotPos, done)
    ensures first <= p <= |s| && |done| == pos && dotPos <= pos
  {
  }

  // --- radixes that are powers of two ---

  /** round_to_d of a sticky quotient rounds the exact one. */
  lemma StickyRoundsTo(v: nat, n: nat, d: nat, y: real, eOffset: int, e0: int, x: real)
    requires d > 0 && y * d as real == n as real && v == Sticky(n, d)
    requires e0 + eOffset > 0 && Pow(2, e0 + eOffset - 1) <= v < Pow(2, e0 + eOffset)
    requires d == 1 || e0 + eOffset >= 56
    requires x * PowR(2, eOffset) == y
    ensures InBinade(x, e0) && Quanta(x, e0, NearestEven) == Shifted(v, eOffset + Quantum(e0) - 53, NearestEven)
  {
    hide Pow, PowR, Sticky, RoundReal, RoundDiv;
    StickyQuotientBinade(v, n, d, y, e0 + eOffset - 1);
    ScaleBinade(x, eOffset, y, e0);
    var s, t := eOffset + Quantum(e0) - 53, 53 - Quantum(e0);
    var z := y * PowR(2, t - eOffset);
    ScaleTwice(x, eOffset, t, y, z);
    QuantaAs(x, e0, z, t, NearestEven);
    if d == 1 {
      ExactQuotient(v, n, y);
      RoundExactly(v, y, s, t - eOffset, z, NearestEven);
    } else {
      PowOne(2);
      RoundSticky(n, 0, d, s, y, t - eOffset, z, NearestEven);
    }
  }

  lemma StickyQuotientBinade(v: nat, n: nat, d: nat, y: real, l: nat)
    requires d > 0 && y * d as real == n as real && v == Sticky(n, d) && (d == 1 || l >= 1)
    requires Pow(2, l) <= v < Pow(2, l + 1)
    ensures PowR(2, l) <= y < PowR(2, l + 1)
  {
    hide Pow, PowR, Sticky;
    PowRNat(2, l);
    PowRNat(2, l + 1);
    if d == 1 {
      ExactQuotient(v, n, y);
    } else {
      StickyBinade(n, d, l);
      RatioBounds(n, d, y, Pow(2, l), Pow(2, l + 1));
    }
  }

  lemma ExactQuotient(v: nat, n: nat, y: real)
    requires v == Sticky(n, 1) && y * 1 as real == n as real
    ensures v == n && y == v as real
  {
    DivUnique(n, 1, n, 0);
  }

  lemma ScaleTwice(x: real, eOffset: int, t: int, y: real, z: real)
    requires x * PowR(2, eOffset) == y && z == y * PowR(2, t - eOffset)
    ensures z == x * PowR(2, t)
  {
    hide PowR;
    PowRAdd(2, eOffset, t - eOffset);
    RealAssoc(x, PowR(2, eOffset), PowR(2, t - eOffset));
  }

  /** Beyond the limits the nearest number is infinity or zero. */
  lemma TooLarge(x: real, y: real, e: int, low: int)
    requires y >= PowR(2, low) && x == y * PowR(2, e) && low + e >= 1024
    ensures IsNearest(INF, x)
  {
    hide PowR, IsNearest;
    PowRPos(2, e);
    PowRAdd(2, low, e);
    RealMono(PowR(2, low), y, PowR(2, e));
    InfinityValue();
    if low + e > 1024 { PowRMono(2, 1024, low + e); }
    InfinityIsNearest(x);
  }

  lemma TooSmall(x: real, y: real, e: int, high: int)
    requires 0.0 <= y < PowR(2, high) && x == y * PowR(2, e) && high + e <= -1075
    ensures IsNearest(0, x)
  {
    hide PowR, IsNearest;
    PowRPos(2, e);
    PowRAdd(2, high, e);
    RealMono(y, PowR(2, high), PowR(2, e));
    if y > 0.0 { ProductPos(y, PowR(2, e)); }
    if high + e < -1075 { PowRMono(2, high + e, -1075); }
    TinyIsZero(x);
  }

  /** The conversion for a radix 2^bits; `y` is the mantissa as an integer with all its digits,
      n / d, of which the limbs hold a sticky quotient of `digitCount` digits. */
  method ConvertBinary(tmp: Bignum, expn: int, bits: nat, digitCount: nat, ghost n: nat, ghost d: nat, ghost y: real, ghost x: real)
    returns (a: nat)
    requires tmp.Normal() && tmp.len <= 4 && tmp.tab.Length >= DBIGNUM_LEN_MAX && 1 <= bits <= 5 && digitCount >= 1
    requires d > 0 && y * d as real == n as real && tmp.Val() == Sticky(n, d)
    requires d == 1 || tmp.Val() >= Pow(2, 55)
    requires tmp.Val() >= Pow(2, (digitCount - 1) * bits)
    requires PowR(2, (digitCount - 1) * bits) <= y < PowR(2, digitCount * bits)
    requires x == y * PowR(2, expn)
    modifies tmp, tmp.tab
    ensures IsNearest(a, x)
  {
    hide Pow, PowR, Sticky, Value, IsNearest, Normalised, Shifted, Encode, RoundReal;
    ghost var low, high := (digitCount - 1) * bits, digitCount * bits;
    assert high == low + bits;
    var expn1 := expn + digitCount * bits;
    if expn1 >= 1024 + bits {
      TooLarge(x, y, expn, low);
      return INF;
    }
    if expn1 <= -1075 {
      PowRPos(2, low);
      TooSmall(x, y, expn, high);
      return 0;
    }
    ghost var v := tmp.Val();
    InRange(v, low, -expn);
    var m, e;
    ghost var e0;
    m, e, e0 := RoundToD(tmp, -expn, NearestEven);
    if d != 1 { EnoughBits55(v, e0 - expn); }
    ScaleBack(x, y, expn);
    StickyRoundsTo(v, n, d, y, -expn, e0, x);
    assert RoundsIn(m, e, x, e0, NearestEven);
    RoundsToNearest(m, e, x);
    a := Encode(m, e);
  }

  lemma InRange(v: nat, low: nat, eOffset: int)
    requires v >= Pow(2, low) && (eOffset >= 1085 ==> eOffset - 1085 <= low)
    ensures v > 0 && (eOffset >= 1085 ==> v >= Pow(2, eOffset - 1085))
  {
    PowPos(2, low);
    if eOffset >= 1085 { PowMono(2, eOffset - 1085, low); }
  }

  lemma EnoughBits55(v: nat, top: int)
    requires v >= Pow(2, 55) && top > 0 && v < Pow(2, top)
    ensures top >= 56
  {
    hide Pow;
    if top < 56 { PowMono(2, top, 55); }
  }

  lemma ScaleBack(x: real, y: real, e: int)
    requires x == y * PowR(2, e)
    ensures x * PowR(2, -e) == y
  {
    hide PowR;
    PowRAdd(2, e, -e);
    PowROne(2);
    RealAssoc(y, PowR(2, e), PowR(2, -e));
  }

  // --- the other radixes ---

  /** How large a number with `digitCount` digits and an exponent is. */
  lemma NumberBounds(v: nat, radix: int, expn: int, digitCount: nat, x: real)
    requires radix > 1 && digitCount >= 1 && Pow(radix, digitCount - 1) <= v < Pow(radix, digitCount)
    requires x == v as real * PowR(radix, expn)
    ensures PowR(radix, expn + digitCount - 1) <= x < PowR(radix, expn + digitCount)
  {
    hide Pow, PowR;
    PowRNat(radix, digitCount - 1);
    PowRNat(radix, digitCount);
    PowRPos(radix, expn);
    PowRAdd(radix, digitCount - 1, expn);
    PowRAdd(radix, digitCount, expn);
    IntGap(v, Pow(radix, digitCount));
    IntGap(v, Pow(radix, digitCount - 1));
    IntGap(Pow(radix, digitCount - 1), v);
    RealMono(v as real, PowR(radix, digitCount), PowR(radix, expn));
    RealMono(PowR(radix, digitCount - 1), v as real, PowR(radix, expn));
  }

  lemma AtLeastInfinity(x: real)
    requires x >= PowR(2, 1024)
    ensures IsNearest(INF, x)
  {
    hide PowR, IsNearest;
    InfinityValue();
    InfinityIsNearest(x);
  }

  /** The limbs that mul_pow needs stay within DBIGNUM_LEN_MAX. */
  lemma PowersFit(radix: int, expn: int, digitCount: nat)
    requires ValidRadix(radix) && 1 <= digitCount <= ATOD_MAX_DIGITS[radix - 2]
    requires MIN_EXPONENT[radix - 2] < expn + digitCount <= MAX_EXPONENT[radix - 2]
    ensures ValidOddRadix(OddPart(radix))
    ensures DigitLimbs(OddPart(radix), if expn >= 0 then expn else -expn) <= 43
  {
    var odd := OddPart(radix);
    PowersAreShort(radix);
    if odd != 1 {
      DigitsRange(odd);
      ChunksWithin(if expn >= 0 then expn else -expn, DIGITS_PER_LIMB[odd - 2]);
    }
  }

  lemma RadixOverflows(x: real, radix: int, expn1: int)
    requires ValidRadix(radix) && x >= PowR(radix, expn1 - 1) && expn1 > MAX_EXPONENT[radix - 2]
    ensures IsNearest(INF, x)
  {
    hide Pow, PowR, IsNearest;
    MaxExponent(radix);
    PowRCompare(radix, MAX_EXPONENT[radix - 2], 1024);
    PowRAtLeast(radix, expn1 - 1, MAX_EXPONENT[radix - 2]);
    AtLeastInfinity(x);
  }

  lemma RadixUnderflows(x: real, radix: int, expn1: int)
    requires ValidRadix(radix) && PowR(radix, expn1 - 1) <= x < PowR(radix, expn1) && expn1 <= MIN_EXPONENT[radix - 2]
    ensures IsNearest(0, x)
  {
    hide Pow, PowR, IsNearest;
    var min: int := MIN_EXPONENT[radix - 2];
    PowRPos(radix, expn1 - 1);
    MinExponent(radix);
    PowRCompare(radix, -min, 1075);
    PowRAtLeast(radix, min, expn1);
    TinyIsZero(x);
  }

  lemma RadixNotTiny(x: real, radix: int, expn1: int)
    requires ValidRadix(radix) && x >= PowR(radix, expn1 - 1) && expn1 > MIN_EXPONENT[radix - 2]
    ensures x >= PowR(2, -1085)
  {
    hide Pow, PowR;
    var min: int := MIN_EXPONENT[radix - 2];
    MinExponentNotTiny(radix);
    PowRCompare(radix, -min, 1085);
    PowRAtLeast(radix, expn1 - 1, min);
  }

  /** The conversion for the other radixes. */
  method ConvertRadix(tmp: Bignum, radix: int, expn: int, digitCount: nat, ghost x: real) returns (a: nat)
    requires tmp.Normal() && tmp.len <= 4 && tmp.tab.Length >= DBIGNUM_LEN_MAX && ValidRadix(radix)
    requires 1 <= digitCount <= ATOD_MAX_DIGITS[radix - 2]
    requires Pow(radix, digitCount - 1) <= tmp.Val() < Pow(radix, digitCount)
    requires x == tmp.Val() as real * PowR(radix, expn)
    modifies tmp, tmp.tab
    ensures IsNearest(a, x)
  {
    hide Pow, PowR, Value, IsNearest, Encode, DigitLimbs, OddPart, RadixShift, RoundsTo;
    NumberBounds(tmp.Val(), radix, expn, digitCount, x);
    PowPos(radix, digitCount - 1);
    var expn1 := expn + digitCount;
    var max, min: int := MAX_EXPONENT[radix - 2], MIN_EXPONENT[radix - 2];
    if expn1 >= max + 1 {
      RadixOverflows(x, radix, expn1);
      return INF;
    }
    if expn1 <= min {
      RadixUnderflows(x, radix, expn1);
      return 0;
    }
    RadixNotTiny(x, radix, expn1);
    PowersFit(radix, expn, digitCount);
    RadixParts(radix);
    var m, e := MulPowRoundToD(tmp, OddPart(radix), RadixShift(radix), expn, NearestEven, x);
    RoundsToNearest(m, e, x);
    a := Encode(m, e);
  }

  // --- mantissa and exponent ---

  /** The mantissa in the limbs: exact, or for a power of two a sticky quotient. */
  ghost function MantissaValue(sig: seq<nat>, radix: int): nat
    requires ValidRadix(radix)
  {
    var rest := |sig| - |Kept(sig, radix)|;
    PowPos(radix, rest);
    if OddPart(radix) == 1 then Sticky(Text.DigitsValue(sig, radix), Pow(radix, rest))
    else Text.DigitsValue(Kept(sig, radix), radix)
  }

  /** Digits that were not kept make the quotient sticky. */
  lemma StickyDigits(sig: seq<nat>, n: nat, radix: nat)
    requires n <= |sig| && radix > 0 && Text.AreDigits(sig, radix)
    ensures Pow(radix, |sig| - n) > 0
    ensures Text.DigitsValue(sig, radix) / Pow(radix, |sig| - n) == Text.DigitsValue(sig[..n], radix)
    ensures Text.DigitsValue(sig, radix) % Pow(radix, |sig| - n) == 0 <==> Text.AllZero(sig[n..])
  {
    hide Pow, Text.DigitsValue;
    PowPos(radix, |sig| - n);
    Text.ValueAppend(sig[..n], sig[n..], radix);
    assert sig[..n] + sig[n..] == sig;
    Text.ValueBelow(sig[n..], radix);
    Text.ZeroValue(sig[n..], radix);
    var p := Pow(radix, |sig| - n);
    DivUnique(Text.DigitsValue(sig, radix), p, Text.DigitsValue(sig[..n], radix), Text.DigitsValue(sig[n..], radix));
  }

  /** The mantissa of js_atod, up to the exponent. */
  method ReadMantissa(tmp: Bignum, s: string, first: nat, start: nat, radix: int) returns (p: nat, digitCount: nat, expnOffset: int)
    requires tmp.Normal() && tmp.Val() == 0 && tmp.len == 1 && tmp.tab.Length == DBIGNUM_LEN_MAX
    requires ValidRadix(radix) && first <= |s|
    modifies tmp, tmp.tab
    ensures tmp.Normal() && tmp.len <= 4
    ensures var all := Text.ScanMantissa(s, first, start, false, radix); var sig := Significant(all.digits);
      p == all.end && digitCount == |Kept(sig, radix)| && tmp.Val() == MantissaValue(sig, radix) &&
      (digitCount > 0 ==> expnOffset == all.fraction - (|sig| - digitCount))
  {
    hide Value, Pow, Scanning, Collected, Sticky, MantissaValue;
    var sigPos, pos, dotPos, cur, limbDigits, extra;
    ghost var zeros, sig;
    p, sigPos, dotPos, zeros := SkipZeros(s, first, start, radix);
    p, pos, dotPos, cur, limbDigits, digitCount, extra, sig := ReadDigits(tmp, s, first, start, radix, p, sigPos, dotPos, zeros);
    SignificantParts(zeros, sig);
    FinishMantissa(tmp, cur, limbDigits, radix, sig, digitCount, extra);
    if digitCount == 0 {
      expnOffset := 0;
    } else {
      if dotPos < 0 {
        dotPos := pos;
      }
      expnOffset := sigPos + digitCount - dotPos;
    }
  }

  /** The last limb, and the bit that stands for further digits. */
  method FinishMantissa(tmp: Bignum, cur: limb, limbDigits: nat, radix: int, ghost sig: seq<nat>, ghost digitCount: nat, extra: bool)
    requires tmp.Normal() && tmp.len <= 4 && tmp.tab.Length >= DBIGNUM_LEN_MAX && ValidRadix(radix)
    requires Collected(tmp.Val(), cur, limbDigits, sig, digitCount, extra, radix) && Text.AreDigits(sig, radix)
    modifies tmp, tmp.tab
    ensures tmp.Normal() && tmp.len <= 4 && tmp.Val() == MantissaValue(sig, radix)
    ensures digitCount == |Kept(sig, radix)|
  {
    hide Value, Pow, Sticky, OddPart, Collected;
    FlushLimb(tmp, cur, limbDigits, radix, sig, digitCount, extra);
    StickyDigits(sig, digitCount, radix);
    StickyIs(Text.DigitsValue(sig, radix), Pow(radix, |sig| - digitCount));
    if OddPart(radix) == 1 && extra {
      tmp.SetLowBit();
    }
  }

  /** The digits that did not fill a limb. */
  method FlushLimb(tmp: Bignum, cur: limb, limbDigits: nat, radix: int, ghost sig: seq<nat>, ghost digitCount: nat, ghost extra: bool)
    requires tmp.Normal() && tmp.len <= 4 && tmp.tab.Length >= DBIGNUM_LEN_MAX && ValidRadix(radix)
    requires Collected(tmp.Val(), cur, limbDigits, sig, digitCount, extra, radix) && Text.AreDigits(sig, radix)
    modifies tmp, tmp.tab
    ensures tmp.Normal() && tmp.len <= 4 && tmp.Val() == Text.DigitsValue(Kept(sig, radix), radix)
    ensures Kept(sig, radix) == sig[..digitCount] && digitCount <= |sig| && (extra <==> !Text.AllZero(sig[digitCount..]))
  {
    hide Value, Pow;
    PowOne(radix);
    if limbDigits != 0 {
      LimbPower(radix, limbDigits);
      var base := PowUi(radix, limbDigits);
      PowPos(radix, limbDigits);
      tmp.Mul1Base(base, cur);
    }
    hide Collected, Kept, Text.DigitsValue, Text.AllZero;
    KeptFits(tmp.Val(), 0, 0, Kept(sig, radix), radix);
    LenFits(tmp.tab[..tmp.len], 4);
  }

  lemma LimbPower(radix: int, n: nat)
    requires ValidRadix(radix) && n < DIGITS_PER_LIMB[radix - 2]
    ensures Pow(radix, n) < BASE
  {
    hide Pow;
    LimbBase(radix);
    PowStrict(radix, n, DIGITS_PER_LIMB[radix - 2]);
  }

  /** The decimal digits of the exponent; `overflow` once they exceed what an int can take. */
  method ReadExponent(s: string, p0: nat) returns (expn: nat, overflow: bool, p: nat)
    requires p0 <= |s| && Text.ScanDecimal(s, p0) != []
    ensures p == p0 + |Text.ScanDecimal(s, p0)|
    ensures var n := Text.DigitsValue(Text.ScanDecimal(s, p0), 10);
      if overflow then n >= 2147483640 else expn == n <= 2147483639
  {
    ghost var all := Text.ScanDecimal(s, p0);
    expn := Text.ToDigit(s[p0]);
    overflow := false;
    p := p0 + 1;
    ghost var done := [expn];
    DecimalStarts(s, p0);
    while true
      invariant p0 < p <= |s| && p == p0 + |done| && all == done + Text.ScanDecimal(s, p)
      invariant if overflow then Text.DigitsValue(done, 10) >= 2147483640
        else expn == Text.DigitsValue(done, 10) <= 2147483639
      decreases |s| - p
    {
      var c := Text.ToDigit(Text.At(s, p));
      if c >= 10 {
        break;
      }
      Text.ValueSnoc(done, c, 10);
      if !overflow {
        if expn > (INT32_MAX - 2 - 9) / 10 {
          overflow := true;
        } else {
          expn := expn * 10 + c;
        }
      }
      assert done + ([c] + Text.ScanDecimal(s, p + 1)) == (done + [c]) + Text.ScanDecimal(s, p + 1);
      done := done + [c];
      p := p + 1;
    }
    assert done + [] == done;
  }

  lemma DecimalStarts(s: string, p: nat)
    requires p <= |s| && Text.ScanDecimal(s, p) != []
    ensures p < |s| && Text.ToDigit(s[p]) < 10 && Text.DigitsValue([Text.ToDigit(s[p])], 10) == Text.ToDigit(s[p])
    ensures Text.ScanDecimal(s, p) == [Text.ToDigit(s[p])] + Text.ScanDecimal(s, p + 1)
  {
    var d := Text.ToDigit(s[p]);
    assert [d][..0] == [];
    assert Text.DigitsValue([], 10) == 0;
  }

  // --- the whole number ---

  /** The value of the exponent digits, with their sign. */
  function ExponentOf(x: Text.Exponent): int {
    if x.Exponent? then (if x.negative then 0 - Text.DigitsValue(x.digits, 10) else Text.DigitsValue(x.digits, 10)) else 0
  }

  /** The digits that count: all of them for a power of two, otherwise those that are kept. */
  function Counted(sig: seq<nat>, radix: int): seq<nat>
    requires ValidRadix(radix)
  {
    if OddPart(radix) == 1 then sig else Kept(sig, radix)
  }

  /** The number denoted by the significant digits that count, some of them behind the dot, and
      an exponent. */
  ghost function PartsValue(sig: seq<nat>, fraction: nat, radix: int, binary: bool, e: int): real
    requires ValidRadix(radix)
  {
    var ds := Counted(sig, radix);
    Text.DigitsValue(ds, radix) as real * PowR(radix, |sig| - |ds| - fraction) * PowR(if binary then 2 else radix, e)
  }

  predicate Int32(x: int) {
    -0x8000_0000 <= x <= 0x7fff_ffff
  }

  /** No signed overflow in the exponent arithmetic. */
  predicate PartsFit(sig: seq<nat>, fraction: nat, radix: int, binary: bool, e: int)
    requires ValidRadix(radix)
  {
    var count := |Kept(sig, radix)|;
    var offset := fraction - (|sig| - count);
    if OddPart(radix) == 1 then
      var bits := RadixShift(radix);
      var e1 := if binary then e else e * bits;
      Int32(e1) && Int32(e1 - offset * bits) && Int32(e1 - offset * bits + count * bits)
    else Int32(e - offset) && Int32(e - offset + count)
  }

  /** The number that js_atod rounds: the one that a text denotes, or what is left of it
      without the digits that do not count. */
  ghost function TextValue(m: Text.Mantissa, x: Text.Exponent, radix: int): real
    requires ValidRadix(radix)
  {
    PartsValue(Significant(m.digits), m.fraction, radix, x.Exponent? && x.binary, ExponentOf(x))
  }

  lemma {:induction false} SignificantValue(ds: seq<nat>, radix: nat)
    requires radix > 0
    ensures Text.DigitsValue(Significant(ds), radix) == Text.DigitsValue(ds, radix)
    ensures |Significant(ds)| <= |ds|
    decreases |ds|
  {
    if ds != [] && ds[0] == 0 {
      SignificantValue(ds[1..], radix);
      Text.ValueAppend([0], ds[1..], radix);
      Text.ZeroValue([0], radix);
      assert [0] + ds[1..] == ds;
      assert 0 * Pow(radix, |ds| - 1) == 0;
    }
  }

  /** No signed overflow in the exponent arithmetic of js_atod. */
  predicate ExponentFits(m: Text.Mantissa, x: Text.Exponent, radix: int)
    requires ValidRadix(radix)
  {
    var sig := Significant(m.digits);
    var e := ExponentOf(x);
    sig == [] || e > 2147483639 || e < -2147483639 || PartsFit(sig, m.fraction, radix, x.Exponent? && x.binary, e)
  }

  datatype AtodResult = NotANumber | Float64(negative: bool, bits: nat, end: nat) | SignedOverflow

  // --- conversion of a mantissa and an exponent ---

  /** The mantissa as an integer with all its digits, over the digits that are not kept. */
  lemma MantissaQuotient(sig: seq<nat>, radix: int) returns (y: real)
    requires ValidRadix(radix) && Text.AreDigits(sig, radix) && sig != [] && sig[0] != 0
    ensures var rest := |sig| - |Kept(sig, radix)|; var count := |Kept(sig, radix)|; var n := Text.DigitsValue(sig, radix);
      count >= 1 && Pow(radix, rest) > 0 && y * Pow(radix, rest) as real == n as real &&
      y == n as real * PowR(radix, 0 - rest) &&
      PowR(radix, count - 1) <= y < PowR(radix, count) && Pow(radix, count - 1) <= n / Pow(radix, rest)
  {
    hide Pow, PowR, Text.DigitsValue;
    ParseDigitsRange(radix);
    var count := |Kept(sig, radix)|;
    var rest := |sig| - count;
    var n := Text.DigitsValue(sig, radix);
    PowRNat(radix, rest);
    InverseTimes(n as real, Pow(radix, rest) as real);
    y := n as real * PowR(radix, 0 - rest);
    Text.ValueBelow(sig, radix);
    Text.ValueAtLeast(sig, radix);
    NumberBounds(n, radix, 0 - rest, |sig|, y);
    StickyDigits(sig, count, radix);
    Text.ValueAtLeast(sig[..count], radix);
  }

  /** Powers of a radix 2^bits. */
  lemma BinaryPower(radix: int, n: int)
    requires ValidRadix(radix) && OddPart(radix) == 1
    ensures PowR(radix, n) == PowR(2, n * RadixShift(radix))
    ensures n >= 0 ==> n * RadixShift(radix) >= 0 && Pow(radix, n) == Pow(2, n * RadixShift(radix))
  {
    hide Pow, PowR, OddPart, RadixShift;
    RadixParts(radix);
    var bits := RadixShift(radix);
    PowRPow(2, bits, n);
    if n >= 0 {
      PowPow(2, bits, n);
      MulNonneg(n, bits);
      assert bits * n == n * bits;
    }
  }

  /** Five radixes are powers of two; the digits that are kept have at least 56 bits. */
  lemma BinaryRadixes(radix: int)
    requires ValidRadix(radix) && OddPart(radix) == 1
    ensures 1 <= RadixShift(radix) <= 5 && (ATOD_MAX_DIGITS[radix - 2] - 1) * RadixShift(radix) >= 55
  {
    BinaryShift(radix);
    hide OddPart, RadixShift;
    BinaryDigits();
    hide *;
    if radix == 2 {
    } else if radix == 4 {
    } else if radix == 8 {
    } else if radix == 16 {
    } else {
      assert radix == 32;
    }
  }

  lemma BinaryDigits()
    ensures ATOD_MAX_DIGITS[0] == 64 && ATOD_MAX_DIGITS[2] == 32 && ATOD_MAX_DIGITS[6] == 21 && ATOD_MAX_DIGITS[14] == 16 &&
      ATOD_MAX_DIGITS[30] == 12
  {
  }

  lemma BinaryValue(sig: seq<nat>, fraction: nat, radix: int, binary: bool, e: int, y: real, e2: int)
    requires ValidRadix(radix) && OddPart(radix) == 1
    requires var rest := |sig| - |Kept(sig, radix)|; var bits := RadixShift(radix);
      y == Text.DigitsValue(sig, radix) as real * PowR(radix, 0 - rest) &&
      e2 == (if binary then e else e * bits) - (fraction - rest) * bits
    ensures PartsValue(sig, fraction, radix, binary, e) == y * PowR(2, e2)
  {
    hide PowR, OddPart, RadixShift, Text.DigitsValue;
    var rest, bits := |sig| - |Kept(sig, radix)|, RadixShift(radix);
    var n := Text.DigitsValue(sig, radix) as real;
    var e1 := if binary then e else e * bits;
    var f := (rest - fraction) * bits;
    BinaryPower(radix, rest - fraction);
    BinaryPower(radix, e);
    PowRAdd(radix, 0 - rest, rest - fraction);
    PowRAdd(2, f, e1);
    assert (fraction - rest) * bits == 0 - f;
    RealAssoc(n, PowR(radix, 0 - rest), PowR(radix, rest - fraction));
    RealAssoc(y, PowR(2, f), PowR(2, e1));
    assert |sig| - |sig| - fraction == 0 - rest + (rest - fraction);
  }

  lemma RadixValue(sig: seq<nat>, fraction: nat, radix: int, e: int, v: nat, e1: int)
    requires ValidRadix(radix) && OddPart(radix) != 1 && v == Text.DigitsValue(Kept(sig, radix), radix)
    requires e1 == e - (fraction - (|sig| - |Kept(sig, radix)|))
    ensures PartsValue(sig, fraction, radix, false, e) == v as real * PowR(radix, e1)
  {
    hide PowR, OddPart, Text.DigitsValue;
    var t := |sig| - |Kept(sig, radix)| - fraction;
    PowRAdd(radix, t, e);
    RealAssoc(v as real, PowR(radix, t), PowR(radix, e));
  }

  datatype Conversion = Bits(a: nat) | Overflow

  /** The arithmetic at the end of js_atod. */
  method Convert(tmp: Bignum, radix: int, expn0: int, isBinExp: bool, expnOffset: int, digitCount: nat, ghost sig: seq<nat>, ghost fraction: nat)
    returns (c: Conversion)
    requires ValidRadix(radix) && Text.AreDigits(sig, radix) && sig != [] && sig[0] != 0 && (isBinExp ==> OddPart(radix) == 1)
    requires tmp.Normal() && tmp.len <= 4 && tmp.tab.Length == DBIGNUM_LEN_MAX && tmp.Val() == MantissaValue(sig, radix)
    requires digitCount == |Kept(sig, radix)| && expnOffset == fraction - (|sig| - digitCount)
    modifies tmp, tmp.tab
    ensures c.Bits? <==> PartsFit(sig, fraction, radix, isBinExp, expn0)
    ensures c.Bits? ==> IsNearest(c.a, PartsValue(sig, fraction, radix, isBinExp, expn0))
  {
    hide OddPart, Kept, PartsFit, PartsValue, MantissaValue, IsNearest;
    if OddPart(radix) == 1 {
      c := ConvertPowerOfTwo(tmp, radix, expn0, isBinExp, expnOffset, digitCount, sig, fraction);
    } else {
      c := ConvertOther(tmp, radix, expn0, expnOffset, digitCount, sig, fraction);
    }
  }

  method ConvertPowerOfTwo(tmp: Bignum, radix: int, expn0: int, isBinExp: bool, expnOffset: int, digitCount: nat,
        ghost sig: seq<nat>, ghost fraction: nat)
    returns (c: Conversion)
    requires ValidRadix(radix) && Text.AreDigits(sig, radix) && sig != [] && sig[0] != 0
    requires tmp.Normal() && tmp.len <= 4 && tmp.tab.Length == DBIGNUM_LEN_MAX && tmp.Val() == MantissaValue(sig, radix)
    requires digitCount == |Kept(sig, radix)| && expnOffset == fraction - (|sig| - digitCount)
    modifies tmp, tmp.tab
    requires OddPart(radix) == 1
    ensures c.Bits? <==> PartsFit(sig, fraction, radix, isBinExp, expn0)
    ensures c.Bits? ==> IsNearest(c.a, PartsValue(sig, fraction, radix, isBinExp, expn0))
  {
    hide Pow, PowR, Value, IsNearest, OddPart, RadixShift, Text.DigitsValue, PartsValue, Sticky, Kept, Int32;
    BinaryRadixes(radix);
    KeptParts(sig, radix);
    var bits := RadixShift(radix);
    var expn := expn0;
    if !isBinExp {
      expn := expn * bits;
    }
    if !Int32(expn) {
      return Overflow;
    }
    expn := expn - expnOffset * bits;
    if !Int32(expn) || !Int32(expn + digitCount * bits) {
      return Overflow;
    }
    ghost var y := MantissaQuotient(sig, radix);
    BinaryValue(sig, fraction, radix, isBinExp, expn0, y, expn);
    MantissaEnough(sig, radix, bits, tmp.Val());
    BinaryPower(radix, digitCount - 1);
    BinaryPower(radix, digitCount);
    var a := ConvertBinary(tmp, expn, bits, digitCount, Text.DigitsValue(sig, radix), Pow(radix, |sig| - digitCount), y,
      PartsValue(sig, fraction, radix, isBinExp, expn0));
    c := Bits(a);
  }

  method ConvertOther(tmp: Bignum, radix: int, expn0: int, expnOffset: int, digitCount: nat, ghost sig: seq<nat>, ghost fraction: nat)
    returns (c: Conversion)
    requires ValidRadix(radix) && Text.AreDigits(sig, radix) && sig != [] && sig[0] != 0
    requires tmp.Normal() && tmp.len <= 4 && tmp.tab.Length == DBIGNUM_LEN_MAX && tmp.Val() == MantissaValue(sig, radix)
    requires digitCount == |Kept(sig, radix)| && expnOffset == fraction - (|sig| - digitCount)
    modifies tmp, tmp.tab
    requires OddPart(radix) != 1
    ensures c.Bits? <==> PartsFit(sig, fraction, radix, false, expn0)
    ensures c.Bits? ==> IsNearest(c.a, PartsValue(sig, fraction, radix, false, expn0))
  {
    hide Pow, PowR, Value, IsNearest, OddPart, Text.DigitsValue, PartsValue, Kept, Int32;
    var expn := expn0 - expnOffset;
    if !Int32(expn) || !Int32(expn + digitCount) {
      return Overflow;
    }
    KeptParts(sig, radix);
    RadixValue(sig, fraction, radix, expn0, tmp.Val(), expn);
    Text.ValueBelow(Kept(sig, radix), radix);
    Text.ValueAtLeast(Kept(sig, radix), radix);
    var a := ConvertRadix(tmp, radix, expn, digitCount, PartsValue(sig, fraction, radix, false, expn0));
    c := Bits(a);
  }

  lemma KeptParts(sig: seq<nat>, radix: int)
    requires ValidRadix(radix) && Text.AreDigits(sig, radix) && sig != [] && sig[0] != 0
    ensures var k := Kept(sig, radix);
      k != [] && k[0] != 0 && Text.AreDigits(k, radix) && 1 <= |k| <= |sig| && |k| <= ATOD_MAX_DIGITS[radix - 2] && k == sig[..|k|] &&
      (|k| < |sig| ==> |k| == ATOD_MAX_DIGITS[radix - 2])
  {
    ParseDigitsRange(radix);
  }

  /** A sticky mantissa has at least 56 bits; in any case it has all its digits. */
  lemma MantissaEnough(sig: seq<nat>, radix: int, bits: nat, v: nat)
    requires ValidRadix(radix) && OddPart(radix) == 1 && Text.AreDigits(sig, radix) && sig != [] && sig[0] != 0
    requires v == MantissaValue(sig, radix) && bits == RadixShift(radix)
    ensures var count := |Kept(sig, radix)|; var d := Pow(radix, |sig| - count);
      count >= 1 && (count - 1) * bits >= 0 && v >= Pow(2, (count - 1) * bits) && (d == 1 || v >= Pow(2, 55))
  {
    hide Pow, PowR, OddPart, RadixShift, Text.DigitsValue, Kept;
    KeptParts(sig, radix);
    var count := |Kept(sig, radix)|;
    var y := MantissaQuotient(sig, radix);
    BinaryPower(radix, count - 1);
    BinaryRadixes(radix);
    PowOne(radix);
    if count < |sig| {
      PowMono(2, 55, (count - 1) * bits);
    }
  }

  // --- exponents that an int cannot take ---

  /** Strings shorter than this leave room for the digit positions. */
  const MAX_LENGTH := 0x1000_0000

  /** An exponent that js_atod gives up on decides between zero and infinity alone. */
  lemma HugeExponent(sig: seq<nat>, fraction: nat, radix: int, binary: bool, e: int)
    requires ValidRadix(radix) && Text.AreDigits(sig, radix) && sig != [] && sig[0] != 0 && (binary ==> OddPart(radix) == 1)
    requires |sig| < MAX_LENGTH && fraction < MAX_LENGTH
    ensures e >= 2147483640 ==> IsNearest(INF, PartsValue(sig, fraction, radix, binary, e))
    ensures e <= -2147483640 ==> IsNearest(0, PartsValue(sig, fraction, radix, binary, e))
  {
    hide IsNearest, OddPart, PartsValue;
    if OddPart(radix) == 1 {
      HugeBinary(sig, fraction, radix, binary, e);
    } else {
      HugeRadix(sig, fraction, radix, e);
    }
  }

  lemma HugeBinary(sig: seq<nat>, fraction: nat, radix: int, binary: bool, e: int)
    requires ValidRadix(radix) && Text.AreDigits(sig, radix) && sig != [] && sig[0] != 0 && OddPart(radix) == 1
    requires |sig| < MAX_LENGTH && fraction < MAX_LENGTH
    ensures e >= 2147483640 ==> IsNearest(INF, PartsValue(sig, fraction, radix, binary, e))
    ensures e <= -2147483640 ==> IsNearest(0, PartsValue(sig, fraction, radix, binary, e))
  {
    hide Pow, PowR, IsNearest, OddPart, RadixShift, Text.DigitsValue, PartsValue, Kept;
    KeptParts(sig, radix);
    var count := |Kept(sig, radix)|;
    var offset := fraction - (|sig| - count);
    BinaryRadixes(radix);
    var bits := RadixShift(radix);
    var e2 := (if binary then e else e * bits) - offset * bits;
    var y := MantissaQuotient(sig, radix);
    BinaryValue(sig, fraction, radix, binary, e, y, e2);
    BinaryPower(radix, count - 1);
    BinaryPower(radix, count);
    HugeShift(e, bits, binary, offset, count, e2);
    if e >= 2147483640 {
      TooLarge(PartsValue(sig, fraction, radix, binary, e), y, e2, (count - 1) * bits);
    } else if e <= -2147483640 {
      PowRPos(2, (count - 1) * bits);
      TooSmall(PartsValue(sig, fraction, radix, binary, e), y, e2, count * bits);
    }
  }

  lemma HugeRadix(sig: seq<nat>, fraction: nat, radix: int, e: int)
    requires ValidRadix(radix) && Text.AreDigits(sig, radix) && sig != [] && sig[0] != 0 && OddPart(radix) != 1
    requires |sig| < MAX_LENGTH && fraction < MAX_LENGTH
    ensures e >= 2147483640 ==> IsNearest(INF, PartsValue(sig, fraction, radix, false, e))
    ensures e <= -2147483640 ==> IsNearest(0, PartsValue(sig, fraction, radix, false, e))
  {
    hide Pow, PowR, IsNearest, OddPart, Text.DigitsValue, PartsValue, Kept;
    KeptParts(sig, radix);
    var count := |Kept(sig, radix)|;
    var offset := fraction - (|sig| - count);
    var x := PartsValue(sig, fraction, radix, false, e);
    var v := Text.DigitsValue(Kept(sig, radix), radix);
    RadixValue(sig, fraction, radix, e, v, e - offset);
    Text.ValueBelow(Kept(sig, radix), radix);
    Text.ValueAtLeast(Kept(sig, radix), radix);
    NumberBounds(v, radix, e - offset, count, x);
    ExponentRange(radix);
    if e >= 2147483640 {
      RadixOverflows(x, radix, e - offset + count);
    } else if e <= -2147483640 {
      RadixUnderflows(x, radix, e - offset + count);
    }
  }

  lemma HugeShift(e: int, bits: nat, binary: bool, offset: int, count: nat, e2: int)
    requires 1 <= bits <= 5 && count >= 1 && -MAX_LENGTH < offset < MAX_LENGTH && count - offset < MAX_LENGTH + 80 && count <= 80
    requires e2 == (if binary then e else e * bits) - offset * bits
    ensures e >= 2147483640 ==> (count - 1) * bits + e2 >= 1024
    ensures e <= -2147483640 ==> count * bits + e2 <= -1075
  {
    if bits == 1 {
    } else if bits == 2 {
    } else if bits == 3 {
    } else if bits == 4 {
    } else {
    }
  }

  // --- js_atod ---

  /** The digits without leading zeros. */
  lemma {:induction false} SignificantDigits(ds: seq<nat>, radix: nat)
    requires Text.AreDigits(ds, radix)
    ensures var sig := Significant(ds);
      Text.AreDigits(sig, radix) && |sig| <= |ds| && (sig != [] ==> sig[0] != 0) && (sig == [] <==> Text.AllZero(ds))
    decreases |ds|
  {
    if ds != [] && ds[0] == 0 {
      SignificantDigits(ds[1..], radix);
      assert ds == [0] + ds[1..];
    }
  }

  /** A text without significant digits denotes zero. */
  lemma ZeroText(m: Text.Mantissa, x: Text.Exponent, radix: int)
    requires ValidRadix(radix) && Significant(m.digits) == []
    ensures IsNearest(0, TextValue(m, x, radix))
  {
    hide PowR, IsNearest, OddPart;
    assert Text.DigitsValue([], radix) == 0;
    PowRPos(2, -1075);
    var p, q := PowR(radix, 0 - m.fraction), PowR(if x.Exponent? && x.binary then 2 else radix, ExponentOf(x));
    assert TextValue(m, x, radix) == 0.0 * p * q;
    TinyIsZero(0.0);
  }

  /** Only powers of two have binary exponents. */
  lemma BinaryMark(s: string, p: nat, start: nat, radix: int)
    requires ValidRadix(radix)
    ensures var x := Text.ScanExponent(s, p, start, radix);
      x.Exponent? && x.binary ==> OddPart(radix) == 1
  {
    assert OddPart(2) == OddPart(1) && OddPart(4) == OddPart(2) && OddPart(8) == OddPart(4) && OddPart(16) == OddPart(8);
  }

  /** The radix prefix. */
  method ReadPrefix(s: string, p: nat, radix: int, binOct: bool, legacyOctal: bool) returns (r: Text.Prefix)
    requires (radix == 0 || ValidRadix(radix)) && p <= |s|
    ensures r == Text.ScanPrefix(s, p, radix, binOct, legacyOctal)
    ensures r.Prefix? ==> ValidRadix(r.radix) && p <= r.first <= |s| && (r.first > p ==> Text.DigitAt(s, r.first, r.radix))
  {
    var r1, p1 := radix, p;
    var c := Text.At(s, p + 1);
    if Text.At(s, p) == '0' {
      if (c == 'x' || c == 'X') && (radix == 0 || radix == 16) {
        p1, r1 := p + 2, 16;
      } else if (c == 'o' || c == 'O') && radix == 0 && binOct {
        p1, r1 := p + 2, 8;
      } else if (c == 'b' || c == 'B') && radix == 0 && binOct {
        p1, r1 := p + 2, 2;
      } else if '0' <= c <= '9' && radix == 0 && legacyOctal {
        var i := p + 1;
        while '0' <= Text.At(s, i) <= '7'
          invariant p + 1 <= i && Text.OctalEnd(s, i) == Text.OctalEnd(s, p + 1)
          decreases |s| - i
        {
          i := i + 1;
        }
        if Text.At(s, i) != '8' && Text.At(s, i) != '9' {
          p1, r1 := p + 1, 8;
        }
      }
      if p1 > p && Text.ToDigit(Text.At(s, p1)) >= r1 {
        return Text.BadPrefix;
      }
    }
    r := Text.Prefix(if r1 == 0 then 10 else r1, p1);
  }

  /** The exponent that a text has behind the mantissa. */
  method ReadExponentPart(s: string, p0: nat, start: nat, radix: int)
    returns (bad: bool, expn: int, overflow: bool, isBinExp: bool, isNegExp: bool, p: nat)
    requires ValidRadix(radix) && p0 <= |s|
    ensures var x := Text.ScanExponent(s, p0, start, radix);
      (bad <==> x.BadExponent?) &&
      (!bad ==> (p == (if x.Exponent? then x.end else p0) && p >= p0 && isBinExp == (x.Exponent? && x.binary) &&
        (if overflow then (if isNegExp then ExponentOf(x) <= -2147483640 else ExponentOf(x) >= 2147483640)
         else expn == ExponentOf(x) && -2147483639 <= expn <= 2147483639)))
  {
    hide Text.DigitsValue;
    bad, expn, overflow, isBinExp, isNegExp, p := false, 0, false, false, false, p0;
    if Text.ExponentMark(Text.At(s, p), radix) && p > start {
      isBinExp := Text.At(s, p) == 'p' || Text.At(s, p) == 'P';
      p := p + 1;
      if Text.At(s, p) == '+' {
        p := p + 1;
      } else if Text.At(s, p) == '-' {
        isNegExp := true;
        p := p + 1;
      }
      if Text.ToDigit(Text.At(s, p)) >= 10 {
        bad := true;
        return;
      }
      expn, overflow, p := ReadExponent(s, p);
      if isNegExp {
        expn := -expn;
      }
    }
  }

  /** js_atod. The result is the number written with the digits that count, correctly rounded,
      unless the exponent arithmetic overflows an int (which C leaves undefined). */
  method JsAtod(s: string, radix0: int, binOct: bool, legacyOctal: bool) returns (r: AtodResult)
    requires (radix0 == 0 || ValidRadix(radix0)) && |s| < MAX_LENGTH
    ensures match Text.ScanNumber(s, radix0, binOct, legacyOctal)
      case NotNumber => r.NotANumber?
      case Infinite(negative, end) => r == Float64(negative, INF, end)
      case Number(negative, radix, m, x, end) =>
        ValidRadix(radix) && (r.SignedOverflow? <==> !ExponentFits(m, x, radix)) &&
        (!r.SignedOverflow? ==> r.Float64? && r.negative == negative && r.end == end && IsNearest(r.bits, TextValue(m, x, radix)))
  {
    hide Text.ScanMantissa, Text.ScanExponent, TextValue, ExponentFits, IsNearest;
    var start: nat, negative := 0, false;
    if Text.At(s, 0) == '+' {
      start := 1;
    } else if Text.At(s, 0) == '-' {
      negative := true;
      start := 1;
    }
    if Text.At(s, start) != '0' && Text.StartsWith(s, start, "Infinity") {
      return Float64(negative, INF, start + 8);
    }
    var prefix := ReadPrefix(s, start, radix0, binOct, legacyOctal);
    if prefix.BadPrefix? {
      return NotANumber;
    }
    r := ReadNumber(s, prefix.first, start, negative, prefix.radix);
  }

  /** js_atod behind the prefix. */
  method ReadNumber(s: string, first: nat, start: nat, negative: bool, radix: int) returns (r: AtodResult)
    requires ValidRadix(radix) && start <= first <= |s| < MAX_LENGTH && (first > start ==> Text.DigitAt(s, first, radix))
    ensures var m := Text.ScanMantissa(s, first, start, false, radix);
      var x := Text.ScanExponent(s, m.end, start, radix);
      if m.end == start || x.BadExponent? then r.NotANumber?
      else
        (r.SignedOverflow? <==> !ExponentFits(m, x, radix)) &&
        (!r.SignedOverflow? ==> (r.Float64? && r.negative == negative && r.end == (if x.Exponent? then x.end else m.end) &&
                                 IsNearest(r.bits, TextValue(m, x, radix))))
  {
    hide Pow, PowR, Value, IsNearest, OddPart, RadixShift, Text.DigitsValue, PartsFit, PartsValue, MantissaValue, Kept, ExponentOf,
      Text.ScanMantissa, Text.ScanExponent;
    var tmp := new Bignum(DBIGNUM_LEN_MAX);
    var p, digitCount, expnOffset := ReadMantissa(tmp, s, first, start, radix);
    ghost var m := Text.ScanMantissa(s, first, start, false, radix);
    ghost var sig := Significant(m.digits);
    Text.ScanBounds(s, first, start, false, radix);
    SignificantDigits(m.digits, radix);
    SomeKept(sig, radix);
    BinaryMark(s, p, start, radix);
    ghost var x := Text.ScanExponent(s, p, start, radix);
    var bad, expn, overflow, isBinExp, isNegExp, p1 := ReadExponentPart(s, p, start, radix);
    if bad {
      return NotANumber;
    }
    EndsAtStart(s, p, start, radix);
    if p1 == start {
      return NotANumber;
    }
    var a := 0;
    if digitCount == 0 {
      ZeroText(m, x, radix);
    } else if overflow {
      HugeExponent(sig, m.fraction, radix, isBinExp, ExponentOf(x));
      a := if isNegExp then 0 else INF;
    } else {
      var c := Convert(tmp, radix, expn, isBinExp, expnOffset, digitCount, sig, m.fraction);
      if c.Overflow? {
        return SignedOverflow;
      }
      a := c.a;
    }
    r := Float64(negative, a, p1);
  }

  lemma SomeKept(sig: seq<nat>, radix: int)
    requires ValidRadix(radix)
    ensures |Kept(sig, radix)| == 0 <==> sig == []
  {
    ParseDigitsRange(radix);
  }

  /** There is no exponent without a mantissa. */
  lemma EndsAtStart(s: string, p: nat, start: nat, radix: nat)
    requires p >= start
    ensures var x := Text.ScanExponent(s, p, start, radix);
      (x.Exponent? ==> x.end > p > start) && (p == start ==> x.NoExponent?)
  {
  }
}
