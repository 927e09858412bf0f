/** js_atod reads what js_dtoa prints. */
module DtoaRoundTrip {
  import opened DtoaArith
  import opened DtoaReal
  import opened DtoaTables
  import opened DtoaSpec
  import opened DtoaFree
  import opened DtoaLength
  import opened DtoaDigits
  import opened DtoaPrint
  import Atod = DtoaAtod
  import Text = DtoaText

  // --- scanning digits ---

  /** Digits are read one by one. */
  lemma {:induction false} ScanDigits(s: string, p: nat, start: nat, dotSeen: bool, radix: nat, ds: seq<nat>)
    requires radix <= 36 && Text.AreDigits(ds, radix) && Text.AreDigits(ds, 36)
    requires p + |ds| <= |s| && s[p..p + |ds|] == Chars(ds)
    ensures var r := Text.ScanMantissa(s, p + |ds|, start, dotSeen, radix);
      Text.ScanMantissa(s, p, start, dotSeen, radix) ==
      Text.Mantissa(ds + r.digits, if dotSeen then r.fraction + |ds| else r.fraction, r.end)
    decreases |ds|
  {
    hide Text.ScanMantissa, DigitChar, Chars;
    if ds == [] {
      var r := Text.ScanMantissa(s, p, start, dotSeen, radix);
      assert [] + r.digits == r.digits;
    } else {
      TailChars(s, p, ds);
      ScanDigits(s, p + 1, start, dotSeen, radix, ds[1..]);
      ScanOne(s, p, start, dotSeen, radix, ds[0]);
      var r := Text.ScanMantissa(s, p + |ds|, start, dotSeen, radix);
      assert [ds[0]] + (ds[1..] + r.digits) == ds + r.digits;
    }
  }

  lemma ScanOne(s: string, p: nat, start: nat, dotSeen: bool, radix: nat, d: nat)
    requires d < radix <= 36 && p < |s| && s[p] == DigitChar(d)
    ensures var r := Text.ScanMantissa(s, p + 1, start, dotSeen, radix);
      Text.ScanMantissa(s, p, start, dotSeen, radix) == Text.Mantissa([d] + r.digits, if dotSeen then r.fraction + 1 else r.fraction, r.end)
  {
    NotDot(d);
    hide DigitChar, Text.ToDigit;
  }

  lemma TailChars(s: string, p: nat, ds: seq<nat>)
    requires Text.AreDigits(ds, 36) && ds != [] && p + |ds| <= |s| && s[p..p + |ds|] == Chars(ds)
    ensures Text.AreDigits(ds[1..], 36) && s[p + 1..p + |ds|] == Chars(ds[1..]) && s[p] == DigitChar(ds[0])
  {
    assert s[p] == s[p..p + |ds|][0];
    assert s[p + 1..p + |ds|] == s[p..p + |ds|][1..];
  }

  lemma NotDot(d: nat)
    requires d < 36
    ensures DigitChar(d) != '.' && DigitChar(d) != 'I' && Text.ToDigit(DigitChar(d)) == d
    ensures d != 0 ==> DigitChar(d) != '0'
  {
  }

  /** A tail that does not continue a mantissa. */
  predicate Stops(tail: string, radix: nat) {
    tail == "" || (tail[0] != '.' && Text.ToDigit(tail[0]) >= radix)
  }

  lemma ScanStops(s: string, p: nat, start: nat, dotSeen: bool, radix: nat)
    requires p <= |s| && Stops(s[p..], radix)
    ensures Text.ScanMantissa(s, p, start, dotSeen, radix) == Text.Mantissa([], 0, p)
  {
    if p < |s| { assert s[p..][0] == s[p]; }
  }

  /** A mantissa with a dot in it. */
  lemma ScanWithDot(s: string, start: nat, full: seq<nat>, dot: nat, tail: string, radix: nat)
    requires radix <= 36 && Text.AreDigits(full, radix) && Text.AreDigits(full, 36) && 1 <= dot <= |full|
    requires start <= |s| && s[start..] == WithDot(Chars(full), dot) + tail && Stops(tail, radix)
    ensures Text.ScanMantissa(s, start, start, false, radix) == Text.Mantissa(full, |full| - dot, |s| - |tail|)
  {
    hide Text.ScanMantissa, Chars, Stops;
    if dot == |full| {
      ScanPlain(s, start, full, tail, radix);
    } else {
      var a, b := full[..dot], full[dot..];
      CharsSplit(full, dot);
      assert a + b == full;
      ScanDotted(s, start, a, b, tail, radix);
    }
  }

  lemma ScanPlain(s: string, start: nat, full: seq<nat>, tail: string, radix: nat)
    requires radix <= 36 && Text.AreDigits(full, radix) && Text.AreDigits(full, 36)
    requires start <= |s| && s[start..] == Chars(full) + tail && Stops(tail, radix)
    ensures Text.ScanMantissa(s, start, start, false, radix) == Text.Mantissa(full, 0, |s| - |tail|)
  {
    hide Text.ScanMantissa, Chars, Stops;
    var rest := s[start..];
    assert s[start..start + |full|] == rest[..|full|];
    assert s[start + |full|..] == rest[|full|..] == tail;
    ScanDigits(s, start, start, false, radix, full);
    ScanStops(s, start + |full|, start, false, radix);
    assert full + [] == full;
  }

  lemma ScanDotted(s: string, start: nat, a: seq<nat>, b: seq<nat>, tail: string, radix: nat)
    requires radix <= 36 && Text.AreDigits(a, radix) && Text.AreDigits(a, 36) && Text.AreDigits(b, radix) && Text.AreDigits(b, 36)
    requires |a| >= 1 && start <= |s| && s[start..] == Chars(a) + "." + Chars(b) + tail && Stops(tail, radix)
    ensures Text.ScanMantissa(s, start, start, false, radix) == Text.Mantissa(a + b, |b|, |s| - |tail|)
  {
    hide Text.ScanMantissa, Chars, Stops;
    DotParts(s, start, Chars(a), Chars(b), tail);
    ScanDigits(s, start, start, false, radix, a);
    ScanDot(s, start + |a|, start, radix);
    ScanDigits(s, start + |a| + 1, start, true, radix, b);
    ScanStops(s, start + |a| + 1 + |b|, start, true, radix);
    assert b + [] == b;
  }

  lemma CharsSplit(full: seq<nat>, dot: nat)
    requires Text.AreDigits(full, 36) && dot <= |full|
    ensures Text.AreDigits(full[..dot], 36) && Text.AreDigits(full[dot..], 36)
    ensures Chars(full)[..dot] == Chars(full[..dot]) && Chars(full)[dot..] == Chars(full[dot..])
  {
  }

  lemma DotParts(s: string, start: nat, a: string, b: string, tail: string)
    requires start <= |s| && s[start..] == a + "." + b + tail
    ensures start + |a| + 1 + |b| + |tail| == |s|
    ensures s[start..start + |a|] == a && s[start + |a|] == '.' && s[start + |a| + 1..start + |a| + 1 + |b|] == b
    ensures s[start + |a| + 1 + |b|..] == tail
  {
    var r := s[start..];
    assert s[start..start + |a|] == r[..|a|];
    assert s[start + |a|] == r[|a|];
    assert s[start + |a| + 1..start + |a| + 1 + |b|] == r[|a| + 1..|a| + 1 + |b|];
    assert s[start + |a| + 1 + |b|..] == r[|a| + 1 + |b|..];
  }

  lemma ScanDot(s: string, p: nat, start: nat, radix: nat)
    requires start < p < |s| && s[p] == '.'
    ensures Text.ScanMantissa(s, p, start, false, radix) == Text.ScanMantissa(s, p + 1, start, true, radix)
  {
  }

  // --- scanning exponents ---

  lemma {:induction false} ScanDecimals(s: string, p: nat, ds: seq<nat>)
    requires Text.AreDigits(ds, 10) && Text.AreDigits(ds, 36) && p <= |s| && s[p..] == Chars(ds)
    ensures Text.ScanDecimal(s, p) == ds
    decreases |ds|
  {
    if ds != [] {
      assert s[p..p + |ds|] == s[p..];
      hide Text.ToDigit, DigitChar;
      TailChars(s, p, ds);
      assert s[p + 1..] == s[p + 1..p + |ds|];
      ScanDecimals(s, p + 1, ds[1..]);
      NotDot(ds[0]);
      assert [ds[0]] + ds[1..] == ds;
    }
  }

  /** The exponent that PutExponent writes. */
  lemma ScanWritten(s: string, p: nat, start: nat, e: int, radix: int)
    requires ValidRadix(radix) && start < p <= |s| && s[p..] == ExponentText(e, radix)
    ensures var e1 := WrittenExponent(e, radix);
      Text.ScanExponent(s, p, start, radix) ==
      Text.Exponent(Text.BinaryRadix(radix), e1 < 0, Numeral(if e1 < 0 then 0 - e1 else e1, 10), |s|)
  {
    hide Text.ScanDecimal, RadixShift, Numeral, Chars;
    var e1 := WrittenExponent(e, radix);
    var n := if e1 < 0 then 0 - e1 else e1;
    var t := s[p..];
    assert s[p] == t[0] == Mark(radix);
    assert s[p + 1] == t[1];
    assert s[p + 2..] == t[2..] == NumeralText(n, 10);
    DigitsBelow36(Numeral(n, 10), 10);
    ScanDecimals(s, p + 2, Numeral(n, 10));
  }

  lemma NumeralValue(n: nat, radix: nat)
    requires radix >= 2
    ensures Text.DigitsValue(Numeral(n, radix), radix) == n
  {
    hide Numeral, DigitsOf, Pow;
    NumeralLength(n, radix);
    DigitsExact(n, radix, |Numeral(n, radix)|);
  }

  lemma WrittenValue(e: int, radix: int, end: nat)
    requires ValidRadix(radix)
    ensures var e1 := WrittenExponent(e, radix);
      Atod.ExponentOf(Text.Exponent(Text.BinaryRadix(radix), e1 < 0, Numeral(if e1 < 0 then 0 - e1 else e1, 10), end)) == e1
  {
    hide Numeral, RadixShift, Text.DigitsValue;
    var e1 := WrittenExponent(e, radix);
    NumeralValue(if e1 < 0 then 0 - e1 else e1, 10);
  }

  lemma MarkStops(e: int, radix: int)
    requires ValidRadix(radix)
    ensures |ExponentText(e, radix)| >= 1 && Stops(ExponentText(e, radix), radix)
  {
    hide NumeralText, RadixShift;
  }

  // --- the layout, taken apart ---

  function ZeroDigits(n: nat): (ds: seq<nat>)
    ensures |ds| == n && Text.AllZero(ds) && Text.AreDigits(ds, 1)
  {
    seq(n, i => 0)
  }

  /** All digits of a layout, in front of the dot and behind it. */
  function FullDigits(ds: seq<nat>, e: int, radix: int, mode: ExpMode): seq<nat>
    requires ValidRadix(radix)
  {
    if Exponential(e, radix, mode) then ds
    else if e <= 0 then [0] + ZeroDigits(-e) + ds
    else ds + ZeroDigits(if e > |ds| then e - |ds| else 0)
  }

  function DotPosition(ds: seq<nat>, e: int, radix: int, mode: ExpMode): int
    requires ValidRadix(radix)
  {
    if Exponential(e, radix, mode) || e <= 0 then 1 else e
  }

  function TailText(e: int, radix: int, mode: ExpMode): string
    requires ValidRadix(radix)
  {
    if Exponential(e, radix, mode) then ExponentText(e - 1, radix) else ""
  }

  lemma FullAreDigits(ds: seq<nat>, e: int, radix: int, mode: ExpMode)
    requires ValidRadix(radix) && Text.AreDigits(ds, radix) && |ds| >= 1
    ensures var full := FullDigits(ds, e, radix, mode);
      Text.AreDigits(full, radix) && Text.AreDigits(full, 36) && 1 <= DotPosition(ds, e, radix, mode) <= |full|
  {
    DigitsBelow36(ds, radix);
  }

  lemma ZeroChars(n: nat)
    ensures Text.AreDigits(ZeroDigits(n), 36) && Chars(ZeroDigits(n)) == Zeros(n)
  {
    assert DigitChar(0) == '0';
    hide DigitChar;
  }

  lemma LayoutParts(ds: seq<nat>, e: int, radix: int, mode: ExpMode)
    requires ValidRadix(radix) && Text.AreDigits(ds, radix) && Text.AreDigits(ds, 36) && |ds| >= 1
    ensures var full := FullDigits(ds, e, radix, mode);
      Text.AreDigits(full, 36) && 1 <= DotPosition(ds, e, radix, mode) <= |full| &&
      Layout(Chars(ds), e, radix, mode) == WithDot(Chars(full), DotPosition(ds, e, radix, mode)) + TailText(e, radix, mode)
  {
    hide Chars, ExponentText, Zeros, ZeroDigits;
    FullAreDigits(ds, e, radix, mode);
    if Exponential(e, radix, mode) {
    } else if e <= 0 {
      FractionParts(ds, -e);
    } else {
      var k := if e > |ds| then e - |ds| else 0;
      ZeroChars(k);
      CharsAppend(ds, ZeroDigits(k));
      WholeParts(Chars(ds), Zeros(k), e);
    }
  }

  lemma FractionParts(ds: seq<nat>, n: nat)
    requires Text.AreDigits(ds, 36) && |ds| >= 1
    ensures var full := [0] + ZeroDigits(n) + ds;
      Text.AreDigits(full, 36) && "0." + Zeros(n) + Chars(ds) == WithDot(Chars(full), 1) + ""
  {
    ZeroChars(n);
    ZeroChars(1);
    assert ZeroDigits(1) == [0] && Zeros(1) == "0";
    CharsAppend([0], ZeroDigits(n));
    CharsAppend([0] + ZeroDigits(n), ds);
    LeadingZeroDot(Zeros(n), Chars(ds));
    hide Chars, Zeros, ZeroDigits;
  }

  lemma LeadingZeroDot(zeros: string, cs: string)
    requires |cs| >= 1
    ensures "0." + zeros + cs == WithDot("0" + zeros + cs, 1) + ""
  {
    var c := "0" + zeros + cs;
    assert c[1..] == zeros + cs && c[..1] == "0";
    assert "0" + "." + (zeros + cs) == "0." + zeros + cs;
  }

  lemma WholeParts(c: string, z: string, e: nat)
    requires |z| == (if e > |c| then e - |c| else 0) && |c| >= 1 && e >= 1
    ensures WithDot(c, if |c| < e then |c| else e) + z == WithDot(c + z, e) + ""
  {
    if e >= |c| {
    } else {
      assert c + z == c;
    }
  }

  // --- the whole text ---

  lemma NoPrefix(s: string, start: nat, radix: int, binOct: bool, legacyOctal: bool)
    requires ValidRadix(radix) && start < |s|
    requires s[start] == '0' ==> Text.At(s, start + 1) != 'x' && Text.At(s, start + 1) != 'X'
    ensures Text.ScanPrefix(s, start, radix, binOct, legacyOctal) == Text.Prefix(radix, start)
  {
  }

  /** The characters at the start of the number. */
  lemma FirstCharacters(s: string, start: nat, full: seq<nat>, dot: nat, tail: string)
    requires Text.AreDigits(full, 36) && 1 <= dot <= |full| && (full[0] == 0 ==> dot == 1)
    requires start <= |s| && s[start..] == WithDot(Chars(full), dot) + tail
    requires tail == "" || (tail[0] != 'x' && tail[0] != 'X')
    ensures start < |s| && s[start] == DigitChar(full[0])
    ensures s[start] == '0' ==> Text.At(s, start + 1) != 'x' && Text.At(s, start + 1) != 'X'
    ensures !Text.StartsWith(s, start, "Infinity") && s[start] != '-' && s[start] != '+'
  {
    hide Chars, DigitChar, WithDot, Text.StartsWith;
    var body := WithDot(Chars(full), dot) + tail;
    FirstTwo(full, dot, tail);
    assert s[start] == s[start..][0] == body[0];
    if |s| > start + 1 { assert s[start + 1] == s[start..][1] == body[1]; }
    NotDot(full[0]);
    SignFree(full[0]);
    NotInfinity(s, start);
  }

  lemma FirstTwo(full: seq<nat>, dot: nat, tail: string)
    requires Text.AreDigits(full, 36) && 1 <= dot <= |full| && (full[0] == 0 ==> dot == 1)
    requires tail == "" || (tail[0] != 'x' && tail[0] != 'X')
    ensures var body := WithDot(Chars(full), dot) + tail;
      |body| >= 1 && body[0] == DigitChar(full[0]) && (full[0] == 0 && |body| >= 2 ==> body[1] != 'x' && body[1] != 'X')
  {
    var c := Chars(full);
    hide Chars, DigitChar;
    WithDotStart(c, dot);
    hide WithDot;
    var d := WithDot(c, dot);
    if |d| >= 2 {
      assert (d + tail)[1] == d[1];
    } else if tail != "" {
      assert (d + tail)[1] == tail[0];
    }
  }

  lemma WithDotStart(c: string, dot: nat)
    requires 1 <= dot <= |c|
    ensures var d := WithDot(c, dot); |d| >= 1 && d[0] == c[0] && (dot == 1 && |d| >= 2 ==> d[1] == '.')
  {
  }

  lemma NotInfinity(s: string, start: nat)
    requires start < |s| && s[start] != 'I'
    ensures !Text.StartsWith(s, start, "Infinity")
  {
    if start + 8 <= |s| { assert s[start..start + 8][0] == s[start]; }
  }

  lemma NoExponentAtEnd(s: string, start: nat, radix: int)
    requires ValidRadix(radix)
    ensures Text.ScanExponent(s, |s|, start, radix) == Text.NoExponent
  {
  }

  lemma SignFree(d: nat)
    requires d < 36
    ensures DigitChar(d) != '-' && DigitChar(d) != '+'
  {
  }

  /** The exponent part of a text. */
  function Tail(hasExponent: bool, e: int, radix: int): string
    requires ValidRadix(radix)
  {
    if hasExponent then ExponentText(e, radix) else ""
  }

  function TailRead(hasExponent: bool, e: int, radix: int, end: nat): Text.Exponent
    requires ValidRadix(radix)
  {
    var e1 := WrittenExponent(e, radix);
    if hasExponent then Text.Exponent(Text.BinaryRadix(radix), e1 < 0, Numeral(if e1 < 0 then 0 - e1 else e1, 10), end)
    else Text.NoExponent
  }

  /** js_atod's grammar takes a printed text apart as it was put together. */
  lemma ScanPrinted(s: string, negative: bool, full: seq<nat>, dot: nat, hasExponent: bool, e: int, radix: int, binOct: bool, legacyOctal: bool)
    requires ValidRadix(radix) && Text.AreDigits(full, radix) && Text.AreDigits(full, 36)
    requires 1 <= dot <= |full| && (full[0] == 0 ==> dot == 1)
    requires s == SignText(negative) + (WithDot(Chars(full), dot) + Tail(hasExponent, e, radix))
    ensures |s| >= |Tail(hasExponent, e, radix)|
    ensures Text.ScanNumber(s, radix, binOct, legacyOctal) ==
      Text.Number(negative, radix, Text.Mantissa(full, |full| - dot, |s| - |Tail(hasExponent, e, radix)|),
        TailRead(hasExponent, e, radix, |s|), |s|)
  {
    hide *;
    var tail := Tail(hasExponent, e, radix);
    var start, body := |SignText(negative)|, WithDot(Chars(full), dot);
    BehindSign(s, negative, body + tail);
    TailStops(hasExponent, e, radix);
    FirstCharacters(s, start, full, dot, tail);
    NoPrefix(s, start, radix, binOct, legacyOctal);
    RadixBelow36(radix);
    ScanWithDot(s, start, full, dot, tail, radix);
    WithDotLength(Chars(full), dot);
    TailPosition(s, start, body, tail);
    TailScan(s, |s| - |tail|, start, hasExponent, e, radix);
    Assembled(s, negative, radix, binOct, legacyOctal, Text.Mantissa(full, |full| - dot, |s| - |tail|),
      TailRead(hasExponent, e, radix, |s|));
  }

  lemma BehindSign(s: string, negative: bool, rest: string)
    requires s == SignText(negative) + rest
    ensures |SignText(negative)| <= |s| && s[|SignText(negative)|..] == rest && (negative ==> |s| > 0 && s[0] == '-')
  {
  }

  lemma RadixBelow36(radix: int)
    requires ValidRadix(radix)
    ensures 2 <= radix <= 36
  {
  }

  /** The exponent part, or none. */
  lemma TailScan(s: string, p: nat, start: nat, hasExponent: bool, e: int, radix: int)
    requires ValidRadix(radix) && start < p <= |s| && s[p..] == Tail(hasExponent, e, radix)
    ensures var x := TailRead(hasExponent, e, radix, |s|);
      Text.ScanExponent(s, p, start, radix) == x && !x.BadExponent? && (if x.Exponent? then x.end else p) == |s|
  {
    hide Text.ScanExponent, ExponentText, Numeral, RadixShift;
    if hasExponent {
      ScanWritten(s, p, start, e, radix);
    } else {
      NoExponentAtEnd(s, start, radix);
    }
  }

  /** The parts that js_atod's grammar finds, put together. */
  lemma Assembled(s: string, negative: bool, radix: nat, binOct: bool, legacyOctal: bool, m: Text.Mantissa, x: Text.Exponent)
    requires var start := |SignText(negative)|;
      start < |s| && (negative ==> s[0] == '-') && s[start] != '-' && s[start] != '+' && !Text.StartsWith(s, start, "Infinity") &&
      Text.ScanPrefix(s, start, radix, binOct, legacyOctal) == Text.Prefix(radix, start) &&
      m == Text.ScanMantissa(s, start, start, false, radix) && x == Text.ScanExponent(s, m.end, start, radix) &&
      m.end > start && !x.BadExponent? && (if x.Exponent? then x.end else m.end) == |s|
    ensures Text.ScanNumber(s, radix, binOct, legacyOctal) == Text.Number(negative, radix, m, x, |s|)
  {
    hide Text.ScanMantissa, Text.ScanExponent, Text.ScanPrefix, Text.StartsWith;
  }

  lemma TailPosition(s: string, start: nat, body: string, tail: string)
    requires start <= |s| && s[start..] == body + tail
    ensures |s| == start + |body| + |tail| && s[|s| - |tail|..] == tail
  {
    assert s[start..][|body|..] == s[start + |body|..];
  }

  lemma TailStops(hasExponent: bool, e: int, radix: int)
    requires ValidRadix(radix)
    ensures var tail := Tail(hasExponent, e, radix);
      Stops(tail, radix) && (tail == "" || (tail[0] != 'x' && tail[0] != 'X')) && (!hasExponent ==> tail == "")
  {
    MarkStops(e, radix);
    hide NumeralText, RadixShift;
  }

  // --- its value ---

  /** Zeros behind the digits that are kept do not count. */
  lemma DroppedZeros(sig: seq<nat>, radix: int)
    requires ValidRadix(radix) && Text.AreDigits(sig, radix)
    requires forall i :: ATOD_MAX_DIGITS[radix - 2] <= i < |sig| ==> sig[i] == 0
    ensures var ds := Atod.Counted(sig, radix);
      |ds| <= |sig| && Text.DigitsValue(sig, radix) == Text.DigitsValue(ds, radix) * Pow(radix, |sig| - |ds|)
  {
    hide Pow, Text.DigitsValue, OddPart;
    PowOne(radix);
    var ds := Atod.Counted(sig, radix);
    if |ds| < |sig| {
      var n := ATOD_MAX_DIGITS[radix - 2];
      Text.ValueAppend(sig[..n], sig[n..], radix);
      assert sig[..n] + sig[n..] == sig;
      Text.ZeroValue(sig[n..], radix);
    }
  }

  /** The denoted number: all digits, and the exponent. */
  lemma PrintedValue(full: seq<nat>, fraction: nat, radix: int, binary: bool, e1: int, e: int)
    requires ValidRadix(radix) && Text.AreDigits(full, radix) && fraction <= |full|
    requires forall i :: ATOD_MAX_DIGITS[radix - 2] <= i < |Atod.Significant(full)| ==> Atod.Significant(full)[i] == 0
    requires if binary then Text.BinaryRadix(radix) && e1 == e * RadixShift(radix) else e1 == e
    ensures Atod.PartsValue(Atod.Significant(full), fraction, radix, binary, e1) == DecimalValue(Text.DigitsValue(full, radix), radix, e - fraction)
  {
    hide Pow, PowR, Text.DigitsValue, OddPart, RadixShift, Atod.Counted;
    var sig := Atod.Significant(full);
    Atod.SignificantDigits(full, radix);
    Atod.SignificantValue(full, radix);
    DroppedZeros(sig, radix);
    var ds := Atod.Counted(sig, radix);
    var k: nat := |sig| - |ds|;
    ExponentPower(radix, binary, e1, e);
    PowRAdd(radix, k, e - fraction);
    PowRAdd(radix, k - fraction, e);
    PowRNat(radix, k);
    var v := Text.DigitsValue(ds, radix);
    RealProduct(v, Pow(radix, k));
    RealAssoc(v as real, PowR(radix, k - fraction), PowR(radix, e));
    RealAssoc(v as real, PowR(radix, k), PowR(radix, e - fraction));
    assert k + (e - fraction) == k - fraction + e;
  }

  lemma ExponentPower(radix: int, binary: bool, e1: int, e: int)
    requires ValidRadix(radix) && if binary then Text.BinaryRadix(radix) && e1 == e * RadixShift(radix) else e1 == e
    ensures PowR(if binary then 2 else radix, e1) == PowR(radix, e)
  {
    hide PowR, OddPart, RadixShift;
    if binary {
      ShiftIsBinary(radix);
      Atod.BinaryPower(radix, e);
    }
  }

  /** Printed exponents are far from overflowing. */
  lemma PrintedFits(sig: seq<nat>, fraction: nat, radix: int, binary: bool, e: int)
    requires ValidRadix(radix) && |sig| <= 10000 && fraction <= 10000 && -10000 <= e <= 10000
    ensures Atod.PartsFit(sig, fraction, radix, binary, e)
  {
    hide OddPart, RadixShift;
    if OddPart(radix) == 1 {
      Atod.BinaryRadixes(radix);
      var count, bits := |Atod.Kept(sig, radix)|, RadixShift(radix);
      var offset := fraction - (|sig| - count);
      ScaledBounds(e, bits);
      ScaledBounds(offset, bits);
      ScaledBounds(count, bits);
    }
  }

  lemma ScaledBounds(x: int, bits: nat)
    requires -20000 <= x <= 20000 && bits <= 5
    ensures -100000 <= x * bits <= 100000
  {
    MulMono(x, 20000, bits);
    MulMono(-20000, x, bits);
    MulMono(bits, 5, 20000);
  }

  /** What js_atod makes of a printed text. */
  lemma PrintedReads(full: seq<nat>, dot: nat, hasExponent: bool, e: int, radix: int, at: nat, end: nat)
    requires ValidRadix(radix) && Text.AreDigits(full, radix) && dot <= |full| <= 2000 && -2000 <= e <= 2000 && (!hasExponent ==> e == 0)
    requires forall i :: ATOD_MAX_DIGITS[radix - 2] <= i < |Atod.Significant(full)| ==> Atod.Significant(full)[i] == 0
    ensures var m, x := Text.Mantissa(full, |full| - dot, at), TailRead(hasExponent, e, radix, end);
      Atod.ExponentFits(m, x, radix) &&
      Atod.TextValue(m, x, radix) == DecimalValue(Text.DigitsValue(full, radix), radix, e - (|full| - dot))
  {
    hide Text.DigitsValue, RadixShift, OddPart, Atod.PartsValue, Atod.PartsFit, DecimalValue, Numeral;
    ShiftIsBinary(radix);
    var x := TailRead(hasExponent, e, radix, end);
    var binary := hasExponent && Text.BinaryRadix(radix);
    if hasExponent { WrittenValue(e, radix, end); }
    if binary { SmallProduct(e, RadixShift(radix)); }
    var e1 := Atod.ExponentOf(x);
    Atod.SignificantDigits(full, radix);
    PrintedFits(Atod.Significant(full), |full| - dot, radix, binary, e1);
    PrintedValue(full, |full| - dot, radix, binary, e1, e);
  }

  // --- the round trip ---

  /** js_atod takes the text to be the whole of a number with this sign and these bits. */
  ghost predicate ReadsAs(text: string, negative: bool, a: nat, radix: int, binOct: bool, legacyOctal: bool)
    requires ValidRadix(radix)
  {
    var n := Text.ScanNumber(text, radix, binOct, legacyOctal);
    n.Number? && n.negative == negative && n.radix == radix && n.end == |text| &&
    Atod.ExponentFits(n.mantissa, n.exponent, radix) && IsNearest(a, Atod.TextValue(n.mantissa, n.exponent, radix))
  }

  lemma PrintedReadsAs(text: string, negative: bool, full: seq<nat>, dot: nat, hasExponent: bool, e: int, radix: int,
        binOct: bool, legacyOctal: bool, a: nat)
    requires ValidRadix(radix) && Text.AreDigits(full, radix) && Text.AreDigits(full, 36)
    requires 1 <= dot <= |full| <= 2000 && (full[0] == 0 ==> dot == 1) && -2000 <= e <= 2000 && (!hasExponent ==> e == 0)
    requires forall i :: ATOD_MAX_DIGITS[radix - 2] <= i < |Atod.Significant(full)| ==> Atod.Significant(full)[i] == 0
    requires text == SignText(negative) + (WithDot(Chars(full), dot) + Tail(hasExponent, e, radix))
    requires IsNearest(a, DecimalValue(Text.DigitsValue(full, radix), radix, e - (|full| - dot)))
    ensures ReadsAs(text, negative, a, radix, binOct, legacyOctal)
  {
    hide IsNearest, Atod.TextValue, Atod.ExponentFits, DecimalValue, Text.DigitsValue, Chars, WithDot, Text.ScanNumber, Tail, TailRead;
    ScanPrinted(text, negative, full, dot, hasExponent, e, radix, binOct, legacyOctal);
    PrintedReads(full, dot, hasExponent, e, radix, |text| - |Tail(hasExponent, e, radix)|, |text|);
  }

  /** The digits of a layout have the value of the digits that are laid out. */
  lemma LayoutValue(ds: seq<nat>, e: int, radix: int, mode: ExpMode)
    requires ValidRadix(radix) && Text.AreDigits(ds, radix) && 1 <= |ds| <= DTOA_MAX_DIGITS[radix - 2]
    requires ds[0] != 0 || (ds == [0] && e == 1)
    ensures var full := FullDigits(ds, e, radix, mode);
      DecimalValue(Text.DigitsValue(full, radix), radix, (if Exponential(e, radix, mode) then e - 1 else 0) - (|full| - DotPosition(ds, e, radix, mode))) ==
      DecimalValue(Text.DigitsValue(ds, radix), radix, e - |ds|)
  {
    hide Text.DigitsValue, DecimalValue, Pow;
    if Exponential(e, radix, mode) {
    } else if e <= 0 {
      LeadingZeros(ds, -e, radix);
    } else {
      var k: nat := if e > |ds| then e - |ds| else 0;
      Text.ValueAppend(ds, ZeroDigits(k), radix);
      Text.ZeroValue(ZeroDigits(k), radix);
      var v, w := Text.DigitsValue(ds, radix), Text.DigitsValue(ds + ZeroDigits(k), radix);
      SameDecimal(v, w, radix, e - |ds|, 0 - k);
    }
  }

  lemma SameDecimal(v: nat, w: nat, radix: nat, i: int, minusK: int)
    requires radix > 0 && minusK <= 0 && w == v * Pow(radix, -minusK)
    ensures DecimalValue(w, radix, i + minusK) == DecimalValue(v, radix, i)
  {
    hide Pow, PowR;
    PowRNat(radix, -minusK);
    PowRAdd(radix, -minusK, i + minusK);
    RealProduct(v, Pow(radix, -minusK));
    RealAssoc(v as real, PowR(radix, -minusK), PowR(radix, i + minusK));
  }

  lemma LeadingZeros(ds: seq<nat>, n: nat, radix: nat)
    requires radix > 0 && ds != [] && ds[0] != 0
    ensures Text.DigitsValue([0] + ZeroDigits(n) + ds, radix) == Text.DigitsValue(ds, radix)
    ensures Atod.Significant([0] + ZeroDigits(n) + ds) == ds
  {
    hide Text.DigitsValue;
    Atod.SignificantParts([0] + ZeroDigits(n), ds);
    Atod.SignificantValue([0] + ZeroDigits(n) + ds, radix);
  }

  /** Only zeros stand behind the digits that js_atod keeps. */
  lemma OnlyZerosDropped(ds: seq<nat>, e: int, radix: int, mode: ExpMode)
    requires ValidRadix(radix) && Text.AreDigits(ds, radix) && 1 <= |ds| <= DTOA_MAX_DIGITS[radix - 2]
    requires ds[0] != 0 || (ds == [0] && e == 1)
    ensures var sig := Atod.Significant(FullDigits(ds, e, radix, mode));
      forall i :: ATOD_MAX_DIGITS[radix - 2] <= i < |sig| ==> sig[i] == 0
  {
    DigitsOrder(radix);
    hide Text.DigitsValue;
    if Exponential(e, radix, mode) {
      Atod.SignificantDigits(ds, radix);
    } else if e <= 0 {
      LeadingZeros(ds, -e, radix);
    } else if ds[0] != 0 {
      assert Atod.Significant(ds + ZeroDigits(if e > |ds| then e - |ds| else 0)) == ds + ZeroDigits(if e > |ds| then e - |ds| else 0);
    } else {
      assert ds + ZeroDigits(0) == ds;
      Atod.SignificantDigits(ds, radix);
    }
  }

  /** A laid out digit string reads back if its number does. */
  lemma LayoutReads(text: string, negative: bool, ds: seq<nat>, e: int, radix: int, mode: ExpMode, binOct: bool, legacyOctal: bool, a: nat)
    requires ValidRadix(radix) && Text.AreDigits(ds, radix) && Text.AreDigits(ds, 36) && 1 <= |ds| <= DTOA_MAX_DIGITS[radix - 2]
    requires (ds[0] != 0 || (ds == [0] && e == 1)) && -1080 <= e <= 1080
    requires text == SignText(negative) + Layout(Chars(ds), e, radix, mode)
    requires IsNearest(a, DecimalValue(Text.DigitsValue(ds, radix), radix, e - |ds|))
    ensures ReadsAs(text, negative, a, radix, binOct, legacyOctal)
  {
    hide IsNearest, DecimalValue, Text.DigitsValue, Chars, WithDot, ReadsAs, Layout, Atod.Significant, ExponentText;
    PrintDigitsRange(radix);
    LayoutParts(ds, e, radix, mode);
    FullAreDigits(ds, e, radix, mode);
    LayoutValue(ds, e, radix, mode);
    OnlyZerosDropped(ds, e, radix, mode);
    FirstIsZero(ds, e, radix, mode);
    PrintedReadsAs(text, negative, FullDigits(ds, e, radix, mode), DotPosition(ds, e, radix, mode), Exponential(e, radix, mode),
      if Exponential(e, radix, mode) then e - 1 else 0, radix, binOct, legacyOctal, a);
  }

  lemma FirstIsZero(ds: seq<nat>, e: int, radix: int, mode: ExpMode)
    requires ValidRadix(radix) && 1 <= |ds| <= 54 && (ds[0] != 0 || (ds == [0] && e == 1)) && -1080 <= e <= 1080
    ensures var full := FullDigits(ds, e, radix, mode);
      1 <= |full| <= 2000 && (full[0] == 0 ==> DotPosition(ds, e, radix, mode) == 1)
  {
  }

  lemma ExactIsNearest(a: nat)
    requires a <= INF
    ensures IsNearest(a, ValueOf(a))
  {
    hide ValueOf;
    forall b: nat | b <= INF
      ensures IsCloser(ValueOf(a), a, b)
    {
      if a < b { ValueMono(a, b); }
      if b < a { ValueMono(b, a); }
    }
  }

  lemma IntegerReads(text: string, negative: bool, n: nat, radix: int, binOct: bool, legacyOctal: bool, a: nat)
    requires ValidRadix(radix) && a < INF && IsInteger(a, n) && text == SignText(negative) + NumeralText(n, radix)
    ensures ReadsAs(text, negative, a, radix, binOct, legacyOctal)
  {
    hide IsNearest, DecimalValue, Text.DigitsValue, Chars, ReadsAs, Numeral, Atod.Significant, DigitsOf, ValueOf, ExponentText;
    var full := Numeral(n, radix);
    PrintDigitsRange(radix);
    DigitsOrder(radix);
    DigitsBelow36(full, radix);
    IntegerLength(n, radix);
    NumeralTextSize(n, radix);
    NumeralValue(n, radix);
    NumeralLeads(n, radix);
    Atod.SignificantDigits(full, radix);
    ExactIsNearest(a);
    WholeValue(n, radix);
    assert NumeralText(n, radix) == WithDot(Chars(full), |full|) + Tail(false, 0, radix);
    PrintedReadsAs(text, negative, full, |full|, false, 0, radix, binOct, legacyOctal, a);
  }

  lemma NumeralLeads(n: nat, radix: nat)
    requires radix >= 2 && n > 0
    ensures Numeral(n, radix)[0] != 0
  {
    hide Numeral, DigitsOf, Pow;
    NumeralLength(n, radix);
    var len := |Numeral(n, radix)|;
    if len == 1 { PowOne(radix); }
    LeadingDigit(n, radix, len);
  }

  lemma WholeValue(n: nat, radix: nat)
    requires radix > 0
    ensures DecimalValue(n, radix, 0) == n as real
  {
    hide PowR;
    PowROne(radix);
    var x := n as real;
    assert x * 1.0 == x;
  }

  /** Every printed number reads back as itself; minus zero only with JS_DTOA_MINUS_ZERO. */
  lemma FreeTextReads(text: string, negative: bool, a: nat, radix: int, mode: ExpMode, minusZero: bool, log: int, binOct: bool, legacyOctal: bool)
    requires ValidRadix(radix) && a < INF && IsFreeText(text, negative, a, radix, mode, minusZero, log)
    requires 0 < a ==> IsLogFloor(log, BinaryExponent(a) - 1, radix)
    ensures ReadsAs(text, negative && (a != 0 || minusZero), a, radix, binOct, legacyOctal)
  {
    hide ReadsAs, Layout, DigitText, NumeralText, IsInteger, IsShortText, IsLogFloor, BinaryExponent;
    if a == 0 {
      ZeroReads(text, negative && minusZero, radix, mode, binOct, legacyOctal);
    } else if mode != ExpEnabled && (exists n: nat :: IsInteger(a, n)) {
      var n: nat :| IsInteger(a, n);
      IntegerReads(text, negative, n, radix, binOct, legacyOctal, a);
    } else {
      ShortTextReads(text, negative, a, radix, mode, log + 1, binOct, legacyOctal);
    }
  }

  lemma ZeroReads(text: string, negative: bool, radix: int, mode: ExpMode, binOct: bool, legacyOctal: bool)
    requires ValidRadix(radix) && text == SignText(negative) + Layout(DigitText(0, radix, 1), 1, radix, mode)
    ensures ReadsAs(text, negative, 0, radix, binOct, legacyOctal)
  {
    hide Layout, Chars, PowR;
    PrintDigitsRange(radix);
    assert DigitsOf(0, radix, 1) == DigitsOf(0, radix, 0) + [0] == [0];
    Text.ZeroValue([0], radix);
    PowRPos(2, -1075);
    assert 0.0 * PowR(radix, 0) == 0.0;
    TinyIsZero(0.0);
    hide ReadsAs, IsNearest;
    LayoutReads(text, negative, [0], 1, radix, mode, binOct, legacyOctal, 0);
  }

  lemma ShortTextReads(text: string, negative: bool, a: nat, radix: int, mode: ExpMode, e0: int, binOct: bool, legacyOctal: bool)
    requires ValidRadix(radix) && 0 < a < INF && IsShortText(text, negative, a, radix, mode, e0)
    requires IsLogFloor(e0 - 1, BinaryExponent(a) - 1, radix)
    ensures ReadsAs(text, negative, a, radix, binOct, legacyOctal)
  {
    hide ReadsAs, Layout, DigitText, IsFreeFormat, ShorterFails, IsLogFloor, BinaryExponent;
    var mant: nat, p: nat, e: int :| IsShort(text, negative, a, radix, mode, e0, mant, p, e);
    ShortReads(text, negative, a, radix, mode, e0, mant, p, e, binOct, legacyOctal);
  }

  lemma ShortReads(text: string, negative: bool, a: nat, radix: int, mode: ExpMode, e0: int, mant: nat, p: nat, e: int,
        binOct: bool, legacyOctal: bool)
    requires ValidRadix(radix) && 0 < a < INF && IsShort(text, negative, a, radix, mode, e0, mant, p, e)
    requires IsLogFloor(e0 - 1, BinaryExponent(a) - 1, radix)
    ensures ReadsAs(text, negative, a, radix, binOct, legacyOctal)
  {
    hide ReadsAs, Layout, DigitsOf, ShorterFails, IsLogFloor, BinaryExponent, IsNearest, Pow, Text.DigitsValue, Chars, DecimalValue;
    EstimateInRange(a, radix, e0);
    var ds := DigitsOf(mant, radix, p);
    DigitsBelow36(ds, radix);
    DigitsExact(mant, radix, p);
    LeadingDigit(mant, radix, p);
    LayoutReads(text, negative, ds, e, radix, mode, binOct, legacyOctal, a);
  }

  lemma EstimateInRange(a: nat, radix: int, e0: int)
    requires ValidRadix(radix) && 0 < a < INF && IsLogFloor(e0 - 1, BinaryExponent(a) - 1, radix)
    ensures -1075 <= e0 <= 1024
  {
    hide Decoded, ValueOf;
    var m, e := DecodedSome(a);
    DecodedExponent(a, m, e);
    DecodedBinade(a, m, e);
    ExponentBounds(ValueOf(a), e, radix, e0);
    ExponentRange(radix);
  }

  lemma DecodedSome(a: nat) returns (m: nat, e: int)
    requires 0 < a < INF
    ensures Decoded(a, m, e)
  {
    hide Decoded;
    if a < MANT {
      m := SubnormalDecoded(a);
      e := -1021 - LeadingShift(a);
    } else {
      DecodedNormal(a);
      m, e := MANT + a % MANT, a / MANT - 1022;
    }
  }

  lemma InfinityReads(text: string, negative: bool, radix: int, binOct: bool, legacyOctal: bool)
    requires ValidRadix(radix) && text == SignText(negative) + "Infinity"
    ensures Text.ScanNumber(text, radix, binOct, legacyOctal) == Text.Infinite(negative, |text|)
  {
    var start := |SignText(negative)|;
    assert text[start..start + 8] == "Infinity";
    assert text[start] == 'I';
  }

  /** js_dtoa followed by js_atod gives back every number, infinity included. */
  method PrintAndParse(negative: bool, a: nat, radix: int, mode: ExpMode, minusZero: bool, log: int, lenLog: int, binOct: bool,
        legacyOctal: bool)
    returns (text: string, r: Atod.AtodResult)
    requires ValidRadix(radix) && a <= INF
    requires a < INF ==> IsLogFloor(lenLog, a / MANT - 1024, radix)
    requires 0 < a < INF ==> IsLogFloor(log, BinaryExponent(a) - 1, radix)
    ensures r == Atod.Float64(negative && (a != 0 || minusZero), a, |text|)
  {
    hide IsLogFloor, BinaryExponent, MaxLen, IsFreeText, Text.ScanNumber;
    LongestText(radix, mode, a, lenLog);
    var buf := new char[MaxLen(radix, mode, a, lenLog) + 1](i => ' ');
    var len := JsDtoa(buf, negative, a, radix, mode, minusZero, log, lenLog);
    text := buf[..len];
    r := Atod.JsAtod(text, radix, binOct, legacyOctal);
    if a < INF {
      FreeTextReads(text, negative, a, radix, mode, minusZero, log, binOct, legacyOctal);
      SameNumber(text, negative && (a != 0 || minusZero), a, radix, binOct, legacyOctal, r);
    } else {
      InfinityPrinted(text, negative, radix, mode, minusZero, log);
      InfinityReads(text, negative, radix, binOct, legacyOctal);
    }
  }

  lemma LongestText(radix: int, mode: ExpMode, a: nat, lenLog: int)
    requires ValidRadix(radix) && (a < INF ==> IsLogFloor(lenLog, a / MANT - 1024, radix))
    ensures MaxLen(radix, mode, a, lenLog) <= 1150
  {
    hide IsLogFloor;
    PrintDigitsRange(radix);
    if a < INF { LogRange(radix, lenLog, a / MANT - 1024); }
  }

  lemma InfinityPrinted(text: string, negative: bool, radix: int, mode: ExpMode, minusZero: bool, log: int)
    requires ValidRadix(radix) && IsFreeText(text, negative, INF, radix, mode, minusZero, log)
    ensures text == SignText(negative) + "Infinity"
  {
  }

  /** What js_atod promises about such a text determines its result. */
  lemma SameNumber(text: string, negative: bool, a: nat, radix: int, binOct: bool, legacyOctal: bool, r: Atod.AtodResult)
    requires ValidRadix(radix) && ReadsAs(text, negative, a, radix, binOct, legacyOctal)
    requires var n := Text.ScanNumber(text, radix, binOct, legacyOctal);
      (n.Number? ==> (ValidRadix(n.radix) &&
        (r.SignedOverflow? <==> !Atod.ExponentFits(n.mantissa, n.exponent, n.radix)) &&
        (!r.SignedOverflow? ==> (r.Float64? && r.negative == n.negative && r.end == n.end &&
                                 IsNearest(r.bits, Atod.TextValue(n.mantissa, n.exponent, n.radix))))))
    ensures r == Atod.Float64(negative, a, |text|)
  {
    hide Text.ScanNumber, Atod.ExponentFits, Atod.TextValue, IsNearest;
    var n := Text.ScanNumber(text, radix, binOct, legacyOctal);
    NearestUnique(a, r.bits, Atod.TextValue(n.mantissa, n.exponent, radix));
  }

  /** The exponent arithmetic of js_atod does overflow an int: for 1@+e in radix 32, with any
      of these exponents, all of which it takes. */
  lemma ExponentOverflows(e: int)
    requires 429496730 <= e <= 2147483639
    ensures var text := "1" + ExponentText(e, 32);
      var n := Text.ScanNumber(text, 32, false, false);
      n.Number? && n.end == |text| && !Atod.ExponentFits(n.mantissa, n.exponent, 32)
  {
    hide Text.ScanNumber, Numeral, ExponentText, Text.DigitsValue, RadixShift, OddPart;
    var text := "1" + ExponentText(e, 32);
    assert Chars([1]) == "1";
    hide Chars;
    assert text == SignText(false) + (WithDot("1", 1) + Tail(true, e, 32));
    ScanPrinted(text, false, [1], 1, true, e, 32, false, false);
    NumeralValue(e, 10);
    assert Atod.Significant([1]) == [1];
    ThirtyTwo();
  }

  /** The same for a radix that is no power of two: digits with an exponent overflow exactly if
      the exponent and the place of the dot, or what is left of them without the digits that are
      kept, leave the range of an int. */
  lemma RadixExponentOverflows(full: seq<nat>, dot: nat, e: int, radix: int)
    requires ValidRadix(radix) && OddPart(radix) != 1 && Text.AreDigits(full, radix) && 1 <= dot <= |full| && full[0] != 0
    requires -2147483639 <= e <= 2147483639
    ensures Text.AreDigits(full, 36)
    ensures var text := WithDot(Chars(full), dot) + ExponentText(e, radix);
      var kept := if |full| <= ATOD_MAX_DIGITS[radix - 2] then |full| else ATOD_MAX_DIGITS[radix - 2];
      var n := Text.ScanNumber(text, radix, false, false);
      n.Number? && n.radix == radix && n.end == |text| &&
      (Atod.ExponentFits(n.mantissa, n.exponent, radix) <==>
        -0x8000_0000 <= e + dot <= 0x7fff_ffff && -0x8000_0000 <= e + dot - kept <= 0x7fff_ffff)
  {
    hide Text.ScanNumber, Numeral, Chars, WithDot, ExponentText, Text.DigitsValue, RadixShift, OddPart;
    var text := WithDot(Chars(full), dot) + ExponentText(e, radix);
    assert text == SignText(false) + (WithDot(Chars(full), dot) + Tail(true, e, radix));
    ScanPrinted(text, false, full, dot, true, e, radix, false, false);
    NotBinary(radix);
    WrittenValue(e, radix, |text|);
    KeptLength(full, radix);
    ParseDigitsRange(radix);
    hide Atod.Kept, Atod.Significant;
  }

  lemma KeptLength(ds: seq<nat>, radix: int)
    requires ValidRadix(radix) && ds != [] && ds[0] != 0
    ensures Atod.Significant(ds) == ds
    ensures |Atod.Kept(ds, radix)| == if |ds| <= ATOD_MAX_DIGITS[radix - 2] then |ds| else ATOD_MAX_DIGITS[radix - 2]
  {
    ParseDigitsRange(radix);
  }

  lemma NotBinary(radix: int)
    requires ValidRadix(radix) && OddPart(radix) != 1
    ensures !Text.BinaryRadix(radix)
  {
    assert OddPart(2) == OddPart(1) && OddPart(4) == OddPart(2) && OddPart(8) == OddPart(4) && OddPart(16) == OddPart(8);
  }

  /** A decimal text whose exponent arithmetic overflows. */
  lemma DecimalExponentOverflows()
    ensures var n := Text.ScanNumber("100000000e+2147483639", 10, false, false);
      n.Number? && n.end == 21 && !Atod.ExponentFits(n.mantissa, n.exponent, 10)
  {
    hide Text.ScanNumber, OddPart, WithDot, Chars, ExponentText, Atod.ExponentFits;
    var full := [1, 0, 0, 0, 0, 0, 0, 0, 0];
    Ten();
    RadixExponentOverflows(full, 9, 2147483639, 10);
    HundredMillion(full);
    LargestExponent();
    assert "100000000e+2147483639" == "100000000" + "e+2147483639";
  }

  lemma Ten()
    ensures OddPart(10) == 5
  {
    assert OddPart(10) == OddPart(5);
  }

  lemma HundredMillion(full: seq<nat>)
    requires full == [1, 0, 0, 0, 0, 0, 0, 0, 0]
    ensures WithDot(Chars(full), 9) == "100000000"
  {
  }

  lemma LargestExponent()
    ensures ExponentText(2147483639, 10) == "e+2147483639"
  {
    hide Numeral, Chars;
    OneDigit(2);
    MoreDigits(2, 1);
    MoreDigits(21, 4);
    MoreDigits(214, 7);
    MoreDigits(2147, 4);
    MoreDigits(21474, 8);
    MoreDigits(214748, 3);
    MoreDigits(2147483, 6);
    MoreDigits(21474836, 3);
    MoreDigits(214748363, 9);
    assert "e+2147483639" == "e" + "+" + "2147483639";
  }

  lemma OneDigit(d: nat)
    requires d < 10
    ensures NumeralText(d, 10) == ['0' + d as char]
  {
  }

  lemma MoreDigits(n: nat, d: nat)
    requires 0 < n && d < 10
    ensures NumeralText(10 * n + d, 10) == NumeralText(n, 10) + ['0' + d as char]
  {
    DivUnique(10 * n + d, 10, n, d);
    DigitsBelow36(Numeral(n, 10), 10);
    DigitsBelow36([d], 10);
    CharsAppend(Numeral(n, 10), [d]);
  }

  lemma ThirtyTwo()
    ensures OddPart(32) == 1 && RadixShift(32) == 5
  {
    assert OddPart(2) == OddPart(1) && OddPart(4) == OddPart(2) && OddPart(8) == OddPart(4) && OddPart(16) == OddPart(8);
    BinaryShift(32);
  }
}
