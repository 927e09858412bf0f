/** The characters of numbers, written out: which letters are which digits, that their case does
    not matter, and how dots, exponents, prefixes and infinity are spelt. */
module DtoaLetters {
  import opened Letters
  import opened DtoaArith
  import opened DtoaReal
  import opened DtoaTables
  import opened DtoaSpec
  import opened DtoaAtod
  import opened DtoaTruncation
  import Text = DtoaText

  // --- digits ---

  /** The place of a character in the alphabet is its value; others are no digits in any radix. */
  lemma DigitValues(c: char)
    ensures forall i :: 0 <= i < 10 && c == DIGITS[i] ==> Text.ToDigit(c) == i
    ensures forall i :: 0 <= i < 26 && (c == UPPER[i] || c == LOWER[i]) ==> Text.ToDigit(c) == 10 + i
    ensures !Among(c as int, DIGITS) && !Among(c as int, UPPER) && !Among(c as int, LOWER) ==> Text.ToDigit(c) >= 36
  {
    AmongRanges(c as int);
    forall i | 0 <= i < 10 && c == DIGITS[i] ensures Text.ToDigit(c) == i { DigitAt(i); }
    forall i | 0 <= i < 26 && (c == UPPER[i] || c == LOWER[i]) ensures Text.ToDigit(c) == 10 + i {
      UpperAt(i);
      LowerAt(i);
    }
  }

  /** A digit, with upper-case letters. */
  function UpperDigit(d: nat): char
    requires d < 36
  {
    if d < 10 then DIGITS[d] else UPPER[d - 10]
  }

  function UpperText(ds: seq<nat>): (s: string)
    requires Text.AreDigits(ds, 36)
    ensures |s| == |ds| && forall i :: 0 <= i < |ds| ==> s[i] == UpperDigit(ds[i])
  {
    seq(|ds|, i requires 0 <= i < |ds| => UpperDigit(ds[i]))
  }

  lemma UpperValue(d: nat)
    requires d < 36
    ensures Text.ToDigit(UpperDigit(d)) == d && UpperDigit(d) != '.' && UpperDigit(d) != '+' && UpperDigit(d) != '-'
  {
    if d < 10 { DigitAt(d); } else { UpperAt(d - 10); }
  }

  // --- upper and lower case ---

  /** The same character, or the same letter in the other case. */
  predicate SameLetter(c: char, d: char) {
    c == d || exists i :: 0 <= i < 26 && ((c == UPPER[i] && d == LOWER[i]) || (c == LOWER[i] && d == UPPER[i]))
  }

  predicate SameLetters(s: string, t: string) {
    |s| == |t| && forall i :: 0 <= i < |s| ==> SameLetter(s[i], t[i])
  }

  /** Nothing that the grammar asks about a character depends on its case. */
  lemma LetterFacts(c: char, d: char)
    requires SameLetter(c, d)
    ensures Text.ToDigit(c) == Text.ToDigit(d)
    ensures (c == '.') == (d == '.') && (c == '+') == (d == '+') && (c == '-') == (d == '-') && (c == '@') == (d == '@')
    ensures c == d || (c > '9' && d > '9')
    ensures (c == 'x' || c == 'X') == (d == 'x' || d == 'X') && (c == 'o' || c == 'O') == (d == 'o' || d == 'O')
    ensures (c == 'b' || c == 'B') == (d == 'b' || d == 'B') && (c == 'e' || c == 'E') == (d == 'e' || d == 'E')
    ensures (c == 'p' || c == 'P') == (d == 'p' || d == 'P')
  {
    if c != d { LetterCodes(c, d); }
    hide SameLetter;
  }

  lemma LetterCodes(c: char, d: char)
    requires SameLetter(c, d) && c != d
    ensures (65 <= c as int <= 90 && d as int == c as int + 32) || (65 <= d as int <= 90 && c as int == d as int + 32)
  {
    var i :| 0 <= i < 26 && ((c == UPPER[i] && d == LOWER[i]) || (c == LOWER[i] && d == UPPER[i]));
    UpperAt(i);
    LowerAt(i);
  }

  lemma LetterAt(s: string, t: string, p: nat)
    requires SameLetters(s, t)
    ensures SameLetter(Text.At(s, p), Text.At(t, p))
  {
    hide SameLetter;
    SameItself('\0');
  }

  lemma SameItself(c: char)
    ensures SameLetter(c, c)
  {
  }

  lemma {:induction false} SameMantissa(s: string, t: string, p: nat, start: nat, dotSeen: bool, radix: nat)
    requires SameLetters(s, t)
    ensures Text.ScanMantissa(s, p, start, dotSeen, radix) == Text.ScanMantissa(t, p, start, dotSeen, radix)
    decreases |s| - p
  {
    hide SameLetter, Text.ToDigit;
    SameParts(s, t, p);
    SameParts(s, t, p + 1);
    if !dotSeen && Text.DotAt(s, p, start, radix) {
      SameMantissa(s, t, p + 1, start, true, radix);
    } else if Text.DigitAt(s, p, radix) {
      SameMantissa(s, t, p + 1, start, dotSeen, radix);
    }
  }

  lemma SameParts(s: string, t: string, p: nat)
    requires SameLetters(s, t)
    ensures var c, d := Text.At(s, p), Text.At(t, p);
      Text.ToDigit(c) == Text.ToDigit(d) && (c == '.') == (d == '.') && (c == d || (c > '9' && d > '9')) &&
      (c == '+') == (d == '+') && (c == '-') == (d == '-') && (c == '@') == (d == '@') &&
      (c == 'x' || c == 'X') == (d == 'x' || d == 'X') && (c == 'o' || c == 'O') == (d == 'o' || d == 'O') &&
      (c == 'b' || c == 'B') == (d == 'b' || d == 'B') && (c == 'e' || c == 'E') == (d == 'e' || d == 'E') &&
      (c == 'p' || c == 'P') == (d == 'p' || d == 'P')
  {
    hide SameLetter, Text.ToDigit, Text.At;
    LetterAt(s, t, p);
    LetterFacts(Text.At(s, p), Text.At(t, p));
  }

  lemma {:induction false} SameDecimal(s: string, t: string, p: nat)
    requires SameLetters(s, t)
    ensures Text.ScanDecimal(s, p) == Text.ScanDecimal(t, p)
    decreases |s| - p
  {
    hide SameLetter, Text.ToDigit;
    SameParts(s, t, p);
    if Text.DigitAt(s, p, 10) {
      SameDecimal(s, t, p + 1);
    }
  }

  lemma {:induction false} SameOctal(s: string, t: string, p: nat)
    requires SameLetters(s, t)
    ensures Text.OctalEnd(s, p) == Text.OctalEnd(t, p)
    decreases |s| - p
  {
    hide SameLetter, Text.ToDigit;
    SameParts(s, t, p);
    if p < |s| && '0' <= s[p] <= '7' {
      SameOctal(s, t, p + 1);
    }
  }

  lemma SameExponent(s: string, t: string, p: nat, start: nat, radix: nat)
    requires SameLetters(s, t)
    ensures Text.ScanExponent(s, p, start, radix) == Text.ScanExponent(t, p, start, radix)
  {
    hide SameLetters, Text.At, Text.ScanDecimal, Text.ToDigit;
    SameParts(s, t, p);
    SameParts(s, t, p + 1);
    SameDecimal(s, t, p + 1);
    SameDecimal(s, t, p + 2);
  }

  lemma SamePrefix(s: string, t: string, p: nat, radix: nat, binOct: bool, legacyOctal: bool)
    requires SameLetters(s, t)
    ensures Text.ScanPrefix(s, p, radix, binOct, legacyOctal) == Text.ScanPrefix(t, p, radix, binOct, legacyOctal)
  {
    hide SameLetters, Text.At, Text.ToDigit, Text.OctalEnd;
    SameParts(s, t, p);
    SameParts(s, t, p + 1);
    SameParts(s, t, p + 2);
    SameOctal(s, t, p + 1);
    SameParts(s, t, Text.OctalEnd(s, p + 1));
  }

  /** Texts that differ in the case of letters only are the same number, unless one of them is
      the word for infinity. */
  lemma CaseIgnored(s: string, t: string, radix: nat, binOct: bool, legacyOctal: bool)
    requires SameLetters(s, t)
    requires !Text.ScanNumber(s, radix, binOct, legacyOctal).Infinite? && !Text.ScanNumber(t, radix, binOct, legacyOctal).Infinite?
    ensures Text.ScanNumber(s, radix, binOct, legacyOctal) == Text.ScanNumber(t, radix, binOct, legacyOctal)
  {
    hide SameLetters, Text.At, Text.ScanPrefix, Text.ScanMantissa, Text.ScanExponent, Text.StartsWith;
    SameParts(s, t, 0);
    var negative := Text.At(s, 0) == '-';
    var start := if negative || Text.At(s, 0) == '+' then 1 else 0;
    SamePrefix(s, t, start, radix, binOct, legacyOctal);
    match Text.ScanPrefix(s, start, radix, binOct, legacyOctal)
    case BadPrefix =>
    case Prefix(r, first) =>
      SameMantissa(s, t, first, start, false, r);
      SameExponent(s, t, Text.ScanMantissa(s, first, start, false, r).end, start, r);
  }

  // --- infinity ---

  /** Exactly the word, with or without a sign, is infinity. */
  lemma InfinityRead(s: string, radix: nat, binOct: bool, legacyOctal: bool)
    ensures var n := Text.ScanNumber(s, radix, binOct, legacyOctal);
      if "Infinity" <= s then n == Text.Infinite(false, 8)
      else if "+Infinity" <= s then n == Text.Infinite(false, 9)
      else if "-Infinity" <= s then n == Text.Infinite(true, 9)
      else !n.Infinite?
  {
    hide *;
    InfiniteAt(s, radix, binOct, legacyOctal);
    PlainWord(s);
    PlusWord(s);
    MinusWord(s);
  }

  lemma PlainWord(s: string)
    ensures "Infinity" <= s <==> Text.StartsWith(s, 0, "Infinity")
    ensures "Infinity" <= s ==> Text.At(s, 0) != '+' && Text.At(s, 0) != '-'
  {
    WordAt(s, "", "Infinity");
    assert "" + "Infinity" == "Infinity";
  }

  lemma PlusWord(s: string)
    ensures "+Infinity" <= s <==> Text.At(s, 0) == '+' && Text.StartsWith(s, 1, "Infinity")
  {
    hide *;
    FirstOf(s);
    WordAt(s, "+", "Infinity");
    assert "+" + "Infinity" == "+Infinity";
  }

  lemma MinusWord(s: string)
    ensures "-Infinity" <= s <==> Text.At(s, 0) == '-' && Text.StartsWith(s, 1, "Infinity")
  {
    hide *;
    FirstOf(s);
    WordAt(s, "-", "Infinity");
    assert "-" + "Infinity" == "-Infinity";
  }

  lemma InfiniteAt(s: string, radix: nat, binOct: bool, legacyOctal: bool)
    ensures var negative := Text.At(s, 0) == '-';
      var start := if negative || Text.At(s, 0) == '+' then 1 else 0;
      var n := Text.ScanNumber(s, radix, binOct, legacyOctal);
      if Text.StartsWith(s, start, "Infinity") then n == Text.Infinite(negative, start + 8) else !n.Infinite?
  {
    hide Text.ScanPrefix, Text.ScanMantissa, Text.ScanExponent;
  }

  lemma FirstOf(s: string)
    ensures s != "" ==> Text.At(s, 0) == s[0]
    ensures "+" <= s <==> Text.At(s, 0) == '+'
    ensures "-" <= s <==> Text.At(s, 0) == '-'
  {
  }

  lemma WordAt(s: string, sign: string, word: string)
    ensures sign + word <= s <==> sign <= s && Text.StartsWith(s, |sign|, word)
    ensures sign + word <= s && word != "" ==> s[|sign|] == word[0]
    ensures sign <= s && sign != "" ==> s[0] == sign[0]
  {
    var n := |sign| + |word|;
    if sign + word <= s {
      assert s[..n] == sign + word;
      assert s[|sign|..n] == s[..n][|sign|..] == word;
      assert s[..|sign|] == s[..n][..|sign|] == sign;
      if word != "" { assert s[|sign|] == s[..n][|sign|] == word[0]; }
    }
    if sign <= s && Text.StartsWith(s, |sign|, word) {
      assert s[..n] == s[..|sign|] + s[|sign|..n];
    }
  }

  // --- mantissas ---

  /** The digits at p are read one by one. */
  lemma {:induction false} DigitsRead(s: string, p: nat, start: nat, dotSeen: bool, radix: nat, ds: seq<nat>)
    requires radix <= 36 && Text.AreDigits(ds, radix) && Text.AreDigits(ds, 36)
    requires p + |ds| <= |s| && s[p..p + |ds|] == UpperText(ds)
    ensures var r := Text.ScanMantissa(s, p + |ds|, start, dotSeen, radix);
      Text.ScanMantissa(s, p, start, dotSeen, radix) ==
      Text.Mantissa(ds + r.digits, if dotSeen then r.fraction + |ds| else r.fraction, r.end)
    decreases |ds|
  {
    hide Text.ScanMantissa, UpperDigit, UpperText;
    var r := Text.ScanMantissa(s, p + |ds|, start, dotSeen, radix);
    if ds == [] {
      assert [] + r.digits == r.digits;
    } else {
      UpperTail(s, p, ds);
      DigitsRead(s, p + 1, start, dotSeen, radix, ds[1..]);
      DigitRead(s, p, start, dotSeen, radix, ds[0]);
      assert [ds[0]] + (ds[1..] + r.digits) == ds + r.digits;
    }
  }

  lemma UpperTail(s: string, p: nat, ds: seq<nat>)
    requires Text.AreDigits(ds, 36) && ds != [] && p + |ds| <= |s| && s[p..p + |ds|] == UpperText(ds)
    ensures s[p] == UpperDigit(ds[0]) && Text.AreDigits(ds[1..], 36) && s[p + 1..p + |ds|] == UpperText(ds[1..])
  {
    var t := s[p..p + |ds|];
    assert s[p] == t[0] && s[p + 1..p + |ds|] == t[1..];
    assert t[1..] == UpperText(ds[1..]);
  }

  lemma DigitRead(s: string, p: nat, start: nat, dotSeen: bool, radix: nat, d: nat)
    requires d < radix <= 36 && p < |s| && s[p] == UpperDigit(d)
    ensures var r := Text.ScanMantissa(s, p + 1, start, dotSeen, radix);
      Text.ScanMantissa(s, p, start, dotSeen, radix) ==
      Text.Mantissa([d] + r.digits, if dotSeen then r.fraction + 1 else r.fraction, r.end)
  {
    UpperValue(d);
    hide Text.ToDigit, UpperDigit;
  }

  /** What does not continue a mantissa. */
  predicate EndsMantissa(rest: string, radix: nat) {
    rest == "" || (rest[0] != '.' && Text.ToDigit(rest[0]) >= radix)
  }

  lemma MantissaStops(s: string, p: nat, start: nat, dotSeen: bool, radix: nat)
    requires p <= |s| && EndsMantissa(s[p..], radix)
    ensures Text.ScanMantissa(s, p, start, dotSeen, radix) == Text.Mantissa([], 0, p)
  {
    if p < |s| { assert s[p..][0] == s[p]; }
  }

  /** Digits, a dot and further digits: a dot may be the first or the last character, but does
      not stand alone. */
  lemma MantissaRead(head: string, a: seq<nat>, b: seq<nat>, rest: string, radix: nat)
    requires radix <= 36 && Text.AreDigits(a + b, radix) && Text.AreDigits(a, 36) && Text.AreDigits(b, 36) && EndsMantissa(rest, radix)
    ensures var s := head + UpperText(a) + "." + UpperText(b) + rest; var p := |head|;
      Text.ScanMantissa(s, p, p, false, radix) ==
      if a + b == [] then Text.Mantissa([], 0, p) else Text.Mantissa(a + b, |b|, p + |a| + 1 + |b|)
  {
    hide Text.ScanMantissa, UpperText, UpperDigit;
    var s := head + UpperText(a) + "." + UpperText(b) + rest;
    var p := |head|;
    var dot := p + |a|;
    Pieces(head, UpperText(a), UpperText(b), rest);
    AreDigitsSplit(a, b, radix);
    DigitsRead(s, p, p, false, radix, a);
    DotRead(s, p, dot, radix, b, rest);
    if a + b != [] {
      DigitsRead(s, dot + 1, p, true, radix, b);
      MantissaStops(s, dot + 1 + |b|, p, true, radix);
      assert a + (b + []) == a + b;
    }
  }

  lemma AreDigitsSplit(a: seq<nat>, b: seq<nat>, radix: nat)
    requires Text.AreDigits(a + b, radix)
    ensures Text.AreDigits(a, radix) && Text.AreDigits(b, radix)
  {
    forall i | 0 <= i < |a| ensures a[i] < radix { assert (a + b)[i] == a[i]; }
    forall i | 0 <= i < |b| ensures b[i] < radix { assert (a + b)[|a| + i] == b[i]; }
  }

  lemma Pieces(head: string, a: string, b: string, rest: string)
    ensures var s := head + a + "." + b + rest; var dot := |head| + |a|;
      |s| == dot + 1 + |b| + |rest| && s[|head|..dot] == a && s[dot] == '.' && s[dot + 1..dot + 1 + |b|] == b && s[dot + 1 + |b|..] == rest
  {
    var s, dot := head + a + "." + b + rest, |head| + |a|;
    assert s[dot + 1..] == b + rest;
    assert s[dot + 1..][..|b|] == b && s[dot + 1..][|b|..] == rest;
  }

  /** The dot behind a digit or before one is passed over; a lone one is not. */
  lemma DotRead(s: string, start: nat, dot: nat, radix: nat, b: seq<nat>, rest: string)
    requires start <= dot < |s| && s[dot] == '.' && dot + 1 + |b| <= |s| && radix <= 36
    requires Text.AreDigits(b, radix) && Text.AreDigits(b, 36) && s[dot + 1..dot + 1 + |b|] == UpperText(b)
    requires s[dot + 1 + |b|..] == rest && EndsMantissa(rest, radix)
    ensures Text.ScanMantissa(s, dot, start, false, radix) ==
      if dot > start || b != [] then Text.ScanMantissa(s, dot + 1, start, true, radix) else Text.Mantissa([], 0, dot)
  {
    hide Text.ScanMantissa, UpperText, UpperDigit;
    if b != [] {
      UpperTail(s, dot + 1, b);
      UpperValue(b[0]);
    } else if rest != "" {
      assert s[dot + 1] == rest[0];
    }
    DotCases(s, dot, start, radix);
  }

  lemma DotCases(s: string, dot: nat, start: nat, radix: nat)
    requires dot < |s| && s[dot] == '.' && radix <= 36
    ensures Text.ScanMantissa(s, dot, start, false, radix) ==
      if dot > start || (dot + 1 < |s| && Text.ToDigit(s[dot + 1]) < radix) then Text.ScanMantissa(s, dot + 1, start, true, radix)
      else Text.Mantissa([], 0, dot)
  {
  }

  // --- exponents ---

  /** The characters that start an exponent. */
  function Marks(radix: nat): string {
    if radix == 10 then "eE" else if radix == 2 || radix == 4 || radix == 8 || radix == 16 then "@pP" else "@"
  }

  lemma MarksAre(c: char, radix: nat)
    ensures Text.ExponentMark(c, radix) <==> c in Marks(radix)
  {
  }

  /** Behind a mantissa, one of these characters, a sign or none, and decimal digits: the powers
      of the radix or, behind a p, of two. Any other character ends the number. */
  lemma ExponentRead(head: string, start: nat, mark: char, sign: string, ds: seq<nat>, rest: string, radix: nat)
    requires start < |head| && (sign == "" || sign == "+" || sign == "-") && ds != [] && Text.AreDigits(ds, 10) && Text.AreDigits(ds, 36)
    requires rest == "" || rest[0] !in "0123456789"
    ensures Text.ScanExponent(head + [mark] + sign + UpperText(ds) + rest, |head|, start, radix) ==
      if mark in Marks(radix) then Text.Exponent(mark in "pP", sign == "-", ds, |head| + 1 + |sign| + |ds|) else Text.NoExponent
  {
    hide UpperText, UpperDigit, Text.ToDigit, Text.ScanDecimal, Marks;
    var s, p := head + [mark] + sign + UpperText(ds) + rest, |head|;
    var q := p + 1 + |sign|;
    ExponentPieces(head, mark, sign, UpperText(ds), rest);
    MarksAre(mark, radix);
    UpperTail(s, q, ds);
    UpperValue(ds[0]);
    DecimalRead(s, q, ds, rest);
  }

  lemma ExponentPieces(head: string, mark: char, sign: string, t: string, rest: string)
    ensures var s := head + [mark] + sign + t + rest; var p := |head|; var q := p + 1 + |sign|;
      |s| == q + |t| + |rest| && s[p] == mark && s[p + 1..q] == sign && s[q..q + |t|] == t && s[q + |t|..] == rest &&
      (|sign| == 1 ==> s[p + 1] == sign[0])
  {
    var s, p := head + [mark] + sign + t + rest, |head|;
    var q := p + 1 + |sign|;
    assert s[q..] == t + rest;
    assert s[q..][..|t|] == t && s[q..][|t|..] == rest;
  }

  lemma {:induction false} DecimalRead(s: string, p: nat, ds: seq<nat>, rest: string)
    requires Text.AreDigits(ds, 10) && Text.AreDigits(ds, 36) && p + |ds| <= |s| && s[p..p + |ds|] == UpperText(ds) && s[p + |ds|..] == rest
    requires rest == "" || rest[0] !in "0123456789"
    ensures Text.ScanDecimal(s, p) == ds
    decreases |ds|
  {
    hide UpperText, UpperDigit, Text.ToDigit;
    if ds == [] {
      if rest != "" {
        assert s[p] == rest[0];
        NoDecimal(rest[0]);
      }
    } else {
      UpperTail(s, p, ds);
      UpperValue(ds[0]);
      DecimalRead(s, p + 1, ds[1..], rest);
      assert [ds[0]] + ds[1..] == ds;
    }
  }

  lemma NoDecimal(c: char)
    ensures Text.ToDigit(c) < 10 ==> c in "0123456789"
  {
    if Text.ToDigit(c) < 10 {
      DigitAt(c as int - 48);
      assert DIGITS[c as int - 48] == c;
    }
  }

  // --- prefixes ---

  /** The radix that a letter behind a leading zero stands for. */
  predicate PrefixLetter(c: char, radix: nat) {
    (c in "xX" && radix == 16) || (c in "oO" && radix == 8) || (c in "bB" && radix == 2)
  }

  /** The number that digits stand for: each counts as much as its place says. */
  function Positional(ds: seq<nat>, radix: nat): nat {
    if ds == [] then 0 else ds[0] * Pow(radix, |ds| - 1) + Positional(ds[1..], radix)
  }

  lemma {:induction false} PositionalValue(ds: seq<nat>, radix: nat)
    ensures Positional(ds, radix) == Text.DigitsValue(ds, radix)
  {
    if ds != [] {
      PositionalValue(ds[1..], radix);
      assert [ds[0]] + ds[1..] == ds;
      assert [ds[0]] == [] + [ds[0]];
      Text.ValueSnoc([], ds[0], radix);
      hide Pow, Text.DigitsValue;
      Text.ValueAppend([ds[0]], ds[1..], radix);
      assert Text.DigitsValue([], radix) == 0 by { NoDigits(radix); }
    }
  }

  lemma NoDigits(radix: nat)
    ensures Text.DigitsValue([], radix) == 0
  {
  }

  /** A prefix and digits, with letters in upper case. */
  lemma PrefixedRead(c: char, radix: nat, ds: seq<nat>, legacyOctal: bool)
    requires PrefixLetter(c, radix) && ds != [] && Text.AreDigits(ds, radix) && Text.AreDigits(ds, 36)
    ensures var s := "0" + [c] + UpperText(ds);
      Text.ScanNumber(s, 0, true, legacyOctal) == Text.Number(false, radix, Text.Mantissa(ds, 0, |s|), Text.NoExponent, |s|) &&
      (radix == 16 ==> Text.ScanNumber(s, 16, false, legacyOctal) == Text.ScanNumber(s, 0, true, legacyOctal))
  {
    hide UpperText, UpperDigit, Text.ScanMantissa, Text.ToDigit;
    var s := "0" + [c] + UpperText(ds);
    assert s[0] == '0' && s[1] == c && s[2..] == UpperText(ds) && s[2..2 + |ds|] == UpperText(ds);
    UpperTail(s, 2, ds);
    UpperValue(ds[0]);
    DigitsRead(s, 2, 0, false, radix, ds);
    MantissaStops(s, |s|, 0, false, radix);
    assert ds + [] == ds;
    NothingAtEnd(s, radix);
    hide Text.ScanExponent;
  }

  lemma NothingAtEnd(s: string, radix: nat)
    ensures Text.ScanExponent(s, |s|, 0, radix) == Text.NoExponent
  {
  }

  /** Such a text denotes the number that its digits stand for. */
  lemma PrefixedValue(ds: seq<nat>, radix: nat, end: nat)
    requires (radix == 16 || radix == 8 || radix == 2) && Text.AreDigits(ds, radix) && |ds| < MAX_LENGTH
    ensures var m := Text.Mantissa(ds, 0, end);
      ExponentFits(m, Text.NoExponent, radix) && TextValue(m, Text.NoExponent, radix) == Positional(ds, radix) as real
  {
    hide *;
    BinaryRadix(radix);
    SignificantShort(ds, radix);
    WholeFits(Text.Mantissa(ds, 0, end), radix);
    BinaryExact(Text.Mantissa(ds, 0, end), Text.NoExponent, radix);
    WholeDenoted(ds, radix, end);
    PositionalValue(ds, radix);
  }

  lemma SignificantShort(ds: seq<nat>, radix: nat)
    requires Text.AreDigits(ds, radix)
    ensures |Significant(ds)| <= |ds|
  {
    SignificantDigits(ds, radix);
  }

  /** Without an exponent there is no overflow. */
  lemma WholeFits(m: Text.Mantissa, radix: nat)
    requires (radix == 16 || radix == 8 || radix == 2) && m.fraction == 0 && |Significant(m.digits)| < MAX_LENGTH
    ensures ExponentFits(m, Text.NoExponent, radix)
  {
    BinaryRadix(radix);
    hide OddPart, RadixShift, Significant, Kept;
    var sig := Significant(m.digits);
    KeptPrefix(sig, radix);
    var count, bits := |Kept(sig, radix)|, RadixShift(radix);
    BitsBounded(|sig| - count, bits);
    BitsBounded(count, bits);
    assert (0 - (|sig| - count)) * bits == -((|sig| - count) * bits);
  }

  lemma BitsBounded(x: nat, bits: nat)
    requires x < MAX_LENGTH && 1 <= bits <= 4
    ensures 0 <= x * bits < 0x4000_0000
  {
  }

  lemma WholeDenoted(ds: seq<nat>, radix: nat, end: nat)
    requires ValidRadix(radix)
    ensures Denoted(Text.Mantissa(ds, 0, end), Text.NoExponent, radix) == Text.DigitsValue(ds, radix) as real
  {
    hide PowR, Text.DigitsValue;
    PowROne(radix);
    var v := Text.DigitsValue(ds, radix) as real;
    assert v * 1.0 * 1.0 == v;
  }

  lemma BinaryRadix(radix: nat)
    requires radix == 16 || radix == 8 || radix == 2
    ensures ValidRadix(radix) && OddPart(radix) == 1 && 1 <= RadixShift(radix) <= 4
  {
    assert OddPart(2) == OddPart(1) && OddPart(4) == OddPart(2) && OddPart(8) == OddPart(4) && OddPart(16) == OddPart(8);
    BinaryShift(radix);
  }

  /** js_atod on a hexadecimal, octal or binary literal in upper case: the binary64 number
      nearest to what its digits stand for. */
  method ReadPrefixed(c: char, radix: nat, ds: seq<nat>, legacyOctal: bool) returns (r: AtodResult)
    requires PrefixLetter(c, radix) && ds != [] && Text.AreDigits(ds, radix) && Text.AreDigits(ds, 36) && |ds| + 2 < MAX_LENGTH
    ensures r.Float64? && !r.negative && r.end == 2 + |ds| && IsNearest(r.bits, Positional(ds, radix) as real)
  {
    hide UpperText, Text.ScanNumber, TextValue, ExponentFits, IsNearest, Positional;
    var s := "0" + [c] + UpperText(ds);
    PrefixedRead(c, radix, ds, legacyOctal);
    PrefixedValue(ds, radix, |s|);
    r := JsAtod(s, 0, true, legacyOctal);
  }
}
