/** Digit strings and the notation of numbers that js_atod reads. */
module DtoaText {
  import opened DtoaArith

  /** to_digit: the value of a digit or letter; 36 for anything else. */
  function ToDigit(c: char): nat {
    if '0' <= c <= '9' then c as int - '0' as int
    else if 'A' <= c <= 'Z' then c as int - 'A' as int + 10
    else if 'a' <= c <= 'z' then c as int - 'a' as int + 10
    else 36
  }

  /** Strings end with a zero character. */
  function At(s: string, p: nat): char {
    if p < |s| then s[p] else '\0'
  }

  /** The number written with these digits. */
  function DigitsValue(ds: seq<nat>, radix: nat): nat {
    if ds == [] then 0 else DigitsValue(ds[..|ds| - 1], radix) * radix + ds[|ds| - 1]
  }

  predicate AreDigits(ds: seq<nat>, radix: nat) {
    forall i :: 0 <= i < |ds| ==> ds[i] < radix
  }

  lemma ValueSnoc(ds: seq<nat>, d: nat, radix: nat)
    ensures DigitsValue(ds + [d], radix) == DigitsValue(ds, radix) * radix + d
  {
    assert (ds + [d])[..|ds|] == ds;
  }

  lemma PowNext(b: nat, n: nat)
    ensures Pow(b, n + 1) == b * Pow(b, n)
  {
  }

  lemma NextPlace(x: nat, p: nat, y: nat, radix: nat)
    ensures (x * p + y) * radix == x * (radix * p) + y * radix
  {
  }

  lemma {:induction false} ValueAppend(a: seq<nat>, b: seq<nat>, radix: nat)
    ensures DigitsValue(a + b, radix) == DigitsValue(a, radix) * Pow(radix, |b|) + DigitsValue(b, radix)
    decreases |b|
  {
    if b == [] {
      assert a + b == a;
      PowOne(radix);
    } else {
      hide DigitsValue;
      var n := |b| - 1;
      ValueAppend(a, b[..n], radix);
      assert a + b == (a + b[..n]) + [b[n]];
      assert b == b[..n] + [b[n]];
      ValueSnoc(a + b[..n], b[n], radix);
      ValueSnoc(b[..n], b[n], radix);
      PowNext(radix, n);
      hide Pow;
      NextPlace(DigitsValue(a, radix), Pow(radix, n), DigitsValue(b[..n], radix), radix);
    }
  }

  lemma LastPlace(x: nat, d: nat, p: nat, radix: nat)
    requires x < p && d < radix
    ensures x * radix + d < radix * p
  {
    MulMono(x + 1, p, radix);
  }

  lemma {:induction false} ValueBelow(ds: seq<nat>, radix: nat)
    requires AreDigits(ds, radix) && radix > 0
    ensures DigitsValue(ds, radix) < Pow(radix, |ds|)
  {
    if ds != [] {
      var n := |ds| - 1;
      ValueBelow(ds[..n], radix);
      PowNext(radix, n);
      LastPlace(DigitsValue(ds[..n], radix), ds[n], Pow(radix, n), radix);
    }
  }

  lemma {:induction false} ValueAtLeast(ds: seq<nat>, radix: nat)
    requires ds != [] && ds[0] > 0
    ensures DigitsValue(ds, radix) >= Pow(radix, |ds| - 1)
  {
    var n := |ds| - 1;
    PowOne(radix);
    if n > 0 {
      ValueAtLeast(ds[..n], radix);
      MulMono(Pow(radix, n - 1), DigitsValue(ds[..n], radix), radix);
    }
  }

  predicate AllZero(ds: seq<nat>) {
    forall i :: 0 <= i < |ds| ==> ds[i] == 0
  }

  lemma {:induction false} ZeroValue(ds: seq<nat>, radix: nat)
    requires radix > 0
    ensures DigitsValue(ds, radix) == 0 <==> AllZero(ds)
  {
    if ds != [] {
      var n := |ds| - 1;
      ZeroValue(ds[..n], radix);
      if DigitsValue(ds[..n], radix) > 0 { MulPos(DigitsValue(ds[..n], radix), radix); }
      assert AllZero(ds) <==> AllZero(ds[..n]) && ds[n] == 0;
    }
  }

  // --- the notation ---

  /** A mantissa: all its digits, how many of them stand behind the dot, and where it ends. */
  datatype Mantissa = Mantissa(digits: seq<nat>, fraction: nat, end: nat)

  /** A dot is part of the number behind a digit or before one. */
  predicate DotAt(s: string, p: nat, start: nat, radix: nat) {
    At(s, p) == '.' && (p > start || ToDigit(At(s, p + 1)) < radix)
  }

  predicate DigitAt(s: string, p: nat, radix: nat) {
    p < |s| && ToDigit(s[p]) < radix
  }

  /** The digits from p on, with at most one dot among them (none if `dotSeen`). */
  function ScanMantissa(s: string, p: nat, start: nat, dotSeen: bool, radix: nat): Mantissa
    decreases |s| - p
  {
    if !dotSeen && DotAt(s, p, start, radix) then ScanMantissa(s, p + 1, start, true, radix)
    else if DigitAt(s, p, radix) then
      var r := ScanMantissa(s, p + 1, start, dotSeen, radix);
      Mantissa([ToDigit(s[p])] + r.digits, if dotSeen then r.fraction + 1 else r.fraction, r.end)
    else Mantissa([], 0, p)
  }

  lemma {:induction false} ScanBounds(s: string, p: nat, start: nat, dotSeen: bool, radix: nat)
    requires p <= |s|
    ensures var r := ScanMantissa(s, p, start, dotSeen, radix);
      AreDigits(r.digits, radix) && r.fraction <= |r.digits| && p <= r.end <= |s| && |r.digits| <= r.end - p
    ensures dotSeen ==> ScanMantissa(s, p, start, dotSeen, radix).fraction == |ScanMantissa(s, p, start, dotSeen, radix).digits|
    decreases |s| - p
  {
    if !dotSeen && DotAt(s, p, start, radix) {
      ScanBounds(s, p + 1, start, true, radix);
    } else if DigitAt(s, p, radix) {
      ScanBounds(s, p + 1, start, dotSeen, radix);
    }
  }

  /** The decimal digits from p on. */
  function ScanDecimal(s: string, p: nat): seq<nat>
    decreases |s| - p
  {
    if DigitAt(s, p, 10) then [ToDigit(s[p])] + ScanDecimal(s, p + 1) else []
  }

  // --- exponents ---

  /** What follows the mantissa: nothing, an exponent, or an exponent mark without digits. */
  datatype Exponent = NoExponent | BadExponent | Exponent(binary: bool, negative: bool, digits: seq<nat>, end: nat)

  function ExponentMark(c: char, radix: nat): bool {
    if radix == 10 then c == 'e' || c == 'E'
    else c == '@' || (BinaryRadix(radix) && (c == 'p' || c == 'P'))
  }

  /** Radixes 2, 4, 8 and 16 also know exponents of two. */
  predicate BinaryRadix(radix: nat) {
    radix == 2 || radix == 4 || radix == 8 || radix == 16
  }

  function ScanExponent(s: string, p: nat, start: nat, radix: nat): Exponent {
    if !(p > start && ExponentMark(At(s, p), radix)) then NoExponent
    else
      var q := if At(s, p + 1) == '+' || At(s, p + 1) == '-' then p + 2 else p + 1;
      var ds := ScanDecimal(s, q);
      if ds == [] then BadExponent
      else Exponent(At(s, p) == 'p' || At(s, p) == 'P', At(s, p + 1) == '-', ds, q + |ds|)
  }

  lemma {:induction false} DecimalBounds(s: string, p: nat)
    requires p <= |s|
    ensures AreDigits(ScanDecimal(s, p), 10) && p + |ScanDecimal(s, p)| <= |s|
    decreases |s| - p
  {
    if DigitAt(s, p, 10) {
      DecimalBounds(s, p + 1);
    }
  }

  // --- signs and prefixes ---

  /** A radix and where its digits start; a prefix must be followed by a digit. */
  datatype Prefix = Prefix(radix: nat, first: nat) | BadPrefix

  function DigitFollows(s: string, radix: nat, first: nat): Prefix {
    if ToDigit(At(s, first)) < radix then Prefix(radix, first) else BadPrefix
  }

  /** The end of a run of octal digits. */
  function OctalEnd(s: string, p: nat): nat
    decreases |s| - p
  {
    if p < |s| && '0' <= s[p] <= '7' then OctalEnd(s, p + 1) else p
  }

  /** 0x for radix 16; without a radix also 0o, 0b and a leading zero, if they are accepted. */
  function ScanPrefix(s: string, p: nat, radix: nat, binOct: bool, legacyOctal: bool): Prefix {
    var none := Prefix(if radix == 0 then 10 else radix, p);
    var c := At(s, p + 1);
    if At(s, p) != '0' then none
    else if (c == 'x' || c == 'X') && (radix == 0 || radix == 16) then DigitFollows(s, 16, p + 2)
    else if (c == 'o' || c == 'O') && radix == 0 && binOct then DigitFollows(s, 8, p + 2)
    else if (c == 'b' || c == 'B') && radix == 0 && binOct then DigitFollows(s, 2, p + 2)
    else if '0' <= c <= '9' && radix == 0 && legacyOctal then
      var end := At(s, OctalEnd(s, p + 1));
      if end == '8' || end == '9' then none else DigitFollows(s, 8, p + 1)
    else none
  }

  predicate StartsWith(s: string, p: nat, word: string) {
    p + |word| <= |s| && s[p..p + |word|] == word
  }

  datatype Notation = NotNumber | Infinite(negative: bool, end: nat)
    | Number(negative: bool, radix: nat, mantissa: Mantissa, exponent: Exponent, end: nat)

  /** The number at the start of a text. */
  function ScanNumber(s: string, radix: nat, binOct: bool, legacyOctal: bool): Notation {
    var negative := At(s, 0) == '-';
    var start := if negative || At(s, 0) == '+' then 1 else 0;
    if At(s, start) != '0' && StartsWith(s, start, "Infinity") then Infinite(negative, start + 8)
    else
      match ScanPrefix(s, start, radix, binOct, legacyOctal)
      case BadPrefix => NotNumber
      case Prefix(r, first) =>
        var m := ScanMantissa(s, first, start, false, r);
        var x := ScanExponent(s, m.end, start, r);
        if m.end == start || x.BadExponent? then NotNumber
        else Number(negative, r, m, x, if x.Exponent? then x.end else m.end)
  }
}
