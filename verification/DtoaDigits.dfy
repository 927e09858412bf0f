/** Digits as text: limb_to_a, u64toa_bin_len, u32toa, u64toa, u64toa_radix and output_digits. */
module DtoaDigits {
  import opened DtoaArith
  import opened DtoaLimbs
  import opened DtoaBignum
  import opened DtoaTables
  import Text = DtoaText

  /** The last `len` digits of n. */
  function DigitsOf(n: nat, radix: nat, len: nat): (ds: seq<nat>)
    requires radix >= 2
    ensures |ds| == len && Text.AreDigits(ds, radix)
  {
    if len == 0 then [] else DigitsOf(n / radix, radix, len - 1) + [n % radix]
  }

  /** All digits of n, without leading zeros. */
  function Numeral(n: nat, radix: nat): (ds: seq<nat>)
    requires radix >= 2
    ensures |ds| >= 1 && Text.AreDigits(ds, radix)
  {
    if n < radix then [n]
    else
      QuotientLess(n, radix);
      Numeral(n / radix, radix) + [n % radix]
  }

  lemma QuotientLess(n: nat, radix: nat)
    requires radix >= 2 && n >= radix
    ensures n / radix < n
  {
    DivMod(n, radix);
    MulMono(2, radix, n / radix);
  }

  function DigitChar(d: nat): (c: char)
    requires d < 36
    ensures Text.ToDigit(c) == d
  {
    if d < 10 then '0' + d as char else 'a' + (d - 10) as char
  }

  function Chars(ds: seq<nat>): (s: string)
    requires Text.AreDigits(ds, 36)
    ensures |s| == |ds| && forall i :: 0 <= i < |ds| ==> s[i] == DigitChar(ds[i])
  {
    seq(|ds|, i requires 0 <= i < |ds| => DigitChar(ds[i]))
  }

  lemma CharsAppend(a: seq<nat>, b: seq<nat>)
    requires Text.AreDigits(a, 36) && Text.AreDigits(b, 36)
    ensures Text.AreDigits(a + b, 36) && Chars(a + b) == Chars(a) + Chars(b)
  {
    hide DigitChar;
  }

  // --- what the digits mean ---

  lemma QuotientSplit(n: nat, radix: nat, p: nat)
    requires radix >= 1 && p >= 1
    ensures radix * p > 0 && n % (radix * p) == ((n / radix) % p) * radix + n % radix
  {
    RemainderOfProduct(n, radix, p);
  }

  /** Digits and their value are inverse to each other. */
  lemma {:induction false} DigitsValueOf(n: nat, radix: nat, len: nat)
    requires radix >= 2
    ensures Pow(radix, len) > 0 && Text.DigitsValue(DigitsOf(n, radix, len), radix) == n % Pow(radix, len)
    decreases len
  {
    PowPos(radix, len);
    if len > 0 {
      DigitsValueOf(n / radix, radix, len - 1);
      Text.ValueSnoc(DigitsOf(n / radix, radix, len - 1), n % radix, radix);
      Text.PowNext(radix, len - 1);
      hide Pow;
      PowPos(radix, len - 1);
      QuotientSplit(n, radix, Pow(radix, len - 1));
    }
  }

  lemma {:induction false} DigitsOfValue(ds: seq<nat>, radix: nat)
    requires radix >= 2 && Text.AreDigits(ds, radix)
    ensures DigitsOf(Text.DigitsValue(ds, radix), radix, |ds|) == ds
  {
    if ds != [] {
      var n := |ds| - 1;
      DigitsOfValue(ds[..n], radix);
      var v := Text.DigitsValue(ds[..n], radix);
      assert Text.DigitsValue(ds, radix) == v * radix + ds[n];
      DivUnique(v * radix + ds[n], radix, v, ds[n]);
      assert ds == ds[..n] + [ds[n]];
    }
  }

  lemma DigitsExact(n: nat, radix: nat, len: nat)
    requires radix >= 2 && n < Pow(radix, len)
    ensures Text.DigitsValue(DigitsOf(n, radix, len), radix) == n
  {
    DigitsValueOf(n, radix, len);
    DivUnique(n, Pow(radix, len), 0, n);
  }

  /** The digits of a number of exactly `len` digits start with a nonzero one. */
  lemma LeadingDigit(n: nat, radix: nat, len: nat)
    requires radix >= 2 && len >= 1 && Pow(radix, len - 1) <= n < Pow(radix, len)
    ensures DigitsOf(n, radix, len)[0] > 0
  {
    hide Pow, DigitsOf;
    var ds := DigitsOf(n, radix, len);
    DigitsExact(n, radix, len);
    Text.ValueBelow(ds[1..], radix);
    if ds[0] == 0 { LeadingZero(ds, radix); }
  }

  lemma LeadingZero(ds: seq<nat>, radix: nat)
    requires radix > 0 && ds != [] && ds[0] == 0
    ensures Text.DigitsValue(ds, radix) == Text.DigitsValue(ds[1..], radix)
  {
    hide Pow, Text.DigitsValue;
    Text.ValueAppend([0], ds[1..], radix);
    Text.ZeroValue([0], radix);
    assert [0] + ds[1..] == ds;
    assert 0 * Pow(radix, |ds| - 1) == 0;
  }

  /** The upper and the lower digits. */
  lemma {:induction false} DigitsSplit(n: nat, radix: nat, j: nat, k: nat)
    requires radix >= 2
    ensures Pow(radix, k) > 0 && DigitsOf(n, radix, j + k) == DigitsOf(n / Pow(radix, k), radix, j) + DigitsOf(n, radix, k)
    decreases k
  {
    PowPos(radix, k);
    if k == 0 {
      assert DigitsOf(n, radix, j) == DigitsOf(n, radix, j) + [];
    } else {
      DigitsSplit(n / radix, radix, j, k - 1);
      Text.PowNext(radix, k - 1);
      DivDiv(n, radix, Pow(radix, k - 1));
    }
  }

  /** The lower digits depend only on the remainder. */
  lemma DigitsLow(n: nat, m: nat, radix: nat, k: nat)
    requires radix >= 2 && Pow(radix, k) > 0 && n % Pow(radix, k) == m % Pow(radix, k)
    ensures DigitsOf(n, radix, k) == DigitsOf(m, radix, k)
  {
    hide Pow, DigitsOf;
    DigitsValueOf(n, radix, k);
    DigitsValueOf(m, radix, k);
    DigitsOfValue(DigitsOf(n, radix, k), radix);
    DigitsOfValue(DigitsOf(m, radix, k), radix);
  }

  /** A multiple of a higher power does not change the lower digits. */
  lemma DigitsOfSum(low: nat, high: nat, radix: nat, i: nat, k: nat)
    requires radix >= 2 && k <= i
    ensures DigitsOf(high * Pow(radix, i) + low, radix, k) == DigitsOf(low, radix, k)
  {
    PowAdd(radix, i - k, k);
    PowPos(radix, k);
    hide Pow;
    var p, c := Pow(radix, k), high * Pow(radix, i - k);
    DivMod(low, p);
    assert high * Pow(radix, i) + low == p * (c + low / p) + low % p by {
      MulAssoc(high, Pow(radix, i - k), p);
      assert p * (c + low / p) == c * p + p * (low / p);
    }
    DivUnique(high * Pow(radix, i) + low, p, c + low / p, low % p);
    DigitsLow(high * Pow(radix, i) + low, low, radix, k);
  }

  /** A numeral is the digits of a number that has exactly so many. */
  lemma {:induction false} NumeralIs(n: nat, radix: nat, len: nat)
    requires radix >= 2 && len >= 1 && n < Pow(radix, len) && (len > 1 ==> n >= Pow(radix, len - 1))
    ensures Numeral(n, radix) == DigitsOf(n, radix, len)
    decreases len
  {
    PowOne(radix);
    if len == 1 {
      assert n < radix;
      DivUnique(n, radix, 0, n);
      assert DigitsOf(n / radix, radix, 0) == [];
    } else {
      Text.PowNext(radix, len - 1);
      Text.PowNext(radix, len - 2);
      PowPos(radix, len - 2);
      var p, q := Pow(radix, len - 1), Pow(radix, len - 2);
      assert n >= radix by { MulMono(1, q, radix); }
      QuotientRange(n, radix, q, p);
      NumeralIs(n / radix, radix, len - 1);
    }
  }

  lemma QuotientRange(n: nat, radix: nat, lo: nat, hi: nat)
    requires radix >= 1 && radix * lo <= n < radix * hi
    ensures lo <= n / radix < hi
  {
    DivMod(n, radix);
    if n / radix < lo { MulMono(n / radix + 1, lo, radix); }
    if n / radix >= hi { MulMono(hi, n / radix, radix); }
  }

  /** How many digits a numeral has. */
  lemma {:induction false} NumeralLength(n: nat, radix: nat)
    requires radix >= 2
    ensures n < Pow(radix, |Numeral(n, radix)|) && (|Numeral(n, radix)| > 1 ==> n >= Pow(radix, |Numeral(n, radix)| - 1))
    ensures Numeral(n, radix) == DigitsOf(n, radix, |Numeral(n, radix)|)
    decreases n
  {
    hide Pow, DigitsOf;
    PowOne(radix);
    if n >= radix {
      QuotientLess(n, radix);
      var len := |Numeral(n / radix, radix)|;
      NumeralLength(n / radix, radix);
      Text.PowNext(radix, len);
      Text.PowNext(radix, len - 1);
      LengthStep(n, radix, Pow(radix, len), Pow(radix, len - 1), len);
    }
    NumeralIs(n, radix, |Numeral(n, radix)|);
  }

  lemma LengthStep(n: nat, radix: nat, p: nat, q: nat, len: nat)
    requires radix >= 2 && n >= radix && n / radix < p && (len > 1 ==> n / radix >= q)
    ensures n < radix * p && (len > 1 ==> n >= radix * q)
  {
    DivMod(n, radix);
    MulMono(n / radix + 1, p, radix);
    if len > 1 { MulMono(q, n / radix, radix); }
  }

  // --- writing digits into a buffer ---

  lemma DigitsBelow36(ds: seq<nat>, radix: nat)
    requires Text.AreDigits(ds, radix) && radix <= 36
    ensures Text.AreDigits(ds, 36)
  {
  }

  /** The text of the last `len` digits. */
  function DigitText(n: nat, radix: nat, len: nat): (s: string)
    requires 2 <= radix <= 36
    ensures |s| == len
  {
    DigitsBelow36(DigitsOf(n, radix, len), radix);
    Chars(DigitsOf(n, radix, len))
  }

  function NumeralText(n: nat, radix: nat): (s: string)
    requires 2 <= radix <= 36
    ensures |s| == |Numeral(n, radix)|
  {
    DigitsBelow36(Numeral(n, radix), radix);
    Chars(Numeral(n, radix))
  }

  /** n % radix, as a character. */
  function LastChar(n: nat, radix: nat): char
    requires 2 <= radix <= 36
  {
    DigitChar(n % radix)
  }

  /** n / radix */
  function Upper(n: nat, radix: nat): nat
    requires radix >= 2
  {
    n / radix
  }

  lemma DigitTextNext(n: nat, radix: nat, len: nat)
    requires 2 <= radix <= 36 && len > 0
    ensures DigitText(n, radix, len) == DigitText(Upper(n, radix), radix, len - 1) + [LastChar(n, radix)]
  {
    var ds := DigitsOf(Upper(n, radix), radix, len - 1);
    CharsAppend(ds, [n % radix]);
    assert Chars([n % radix]) == [LastChar(n, radix)];
    hide DigitChar;
  }

  lemma DigitTextSplit(n: nat, radix: nat, j: nat, k: nat, p: nat)
    requires 2 <= radix <= 36 && p > 0 && p == Pow(radix, k)
    ensures DigitText(n, radix, j + k) == DigitText(n / p, radix, j) + DigitText(n, radix, k)
  {
    hide Pow, DigitsOf, DigitChar;
    DigitsSplit(n, radix, j, k);
    DigitsBelow36(DigitsOf(n / p, radix, j), radix);
    DigitsBelow36(DigitsOf(n, radix, k), radix);
    CharsAppend(DigitsOf(n / p, radix, j), DigitsOf(n, radix, k));
  }

  lemma NumeralTextIs(n: nat, radix: nat, len: nat)
    requires 2 <= radix <= 36 && len >= 1 && n < Pow(radix, len) && (len > 1 ==> n >= Pow(radix, len - 1))
    ensures NumeralText(n, radix) == DigitText(n, radix, len)
  {
    NumeralIs(n, radix, len);
  }

  /** limb_to_a and u32toa_len; for a radix that is a power of two also u64toa_bin_len: `len`
      digits, from the last one. */
  method LimbToA(buf: array<char>, at: nat, n0: nat, radix: nat, len: nat)
    requires 2 <= radix <= 36 && at + len <= buf.Length
    modifies buf
    ensures buf[at..at + len] == DigitText(n0, radix, len)
    ensures buf[..at] == old(buf[..at]) && buf[at + len..] == old(buf[at + len..])
  {
    hide DigitText, LastChar, Upper, Patched, Written;
    var n: nat, i: nat := n0, len;
    ghost var was, done := buf[..], "";
    PatchNothing(was, at + len);
    NothingWritten(n0, radix, len);
    while i > 0
      invariant i <= len && |done| == len - i && Written(n0, radix, len, n, i, done)
      invariant buf[..] == Patched(was, at + i, done, at + len)
    {
      OneMore(n0, radix, len, n, i, done);
      i := i - 1;
      PutBefore(buf, at + i, LastChar(n, radix), was, done, at + len);
      done := [LastChar(n, radix)] + done;
      n := Upper(n, radix);
    }
    AllWritten(n0, radix, len, n, done);
    PatchParts(was, at, done, at + len);
  }

  /** A text with `done` written in front of `end`. */
  function Patched(was: string, at: nat, done: string, end: nat): (s: string)
    requires at + |done| == end <= |was|
    ensures |s| == |was|
  {
    was[..at] + done + was[end..]
  }

  lemma PatchNothing(was: string, end: nat)
    requires end <= |was|
    ensures Patched(was, end, "", end) == was
  {
  }

  lemma PatchOne(was: string, at: nat, done: string, end: nat, c: char)
    requires at + 1 + |done| == end <= |was|
    ensures Patched(was, at + 1, done, end)[at := c] == Patched(was, at, [c] + done, end)
  {
  }

  /** buf[at] = c, in front of what is written. */
  method PutBefore(buf: array<char>, at: nat, c: char, ghost was: string, ghost done: string, ghost end: nat)
    requires at + 1 + |done| == end <= |was| && buf[..] == Patched(was, at + 1, done, end)
    modifies buf
    ensures buf[..] == Patched(was, at, [c] + done, end)
  {
    PatchOne(was, at, done, end, c);
    buf[at] := c;
  }

  lemma PatchParts(was: string, at: nat, done: string, end: nat)
    requires at + |done| == end <= |was|
    ensures var s := Patched(was, at, done, end); s[at..end] == done && s[..at] == was[..at] && s[end..] == was[end..]
  {
  }

  /** The text of n0 is that of its upper digits, `left` digits of v, and what is written. */
  ghost predicate Written(v0: nat, radix: nat, n0: nat, v: nat, left: nat, done: string)
    requires 2 <= radix <= 36
  {
    left <= n0 && |done| == n0 - left && DigitText(v0, radix, n0) == DigitText(v, radix, left) + done
  }

  lemma NothingWritten(v0: nat, radix: nat, n0: nat)
    requires 2 <= radix <= 36
    ensures Written(v0, radix, n0, v0, n0, "")
  {
    assert DigitText(v0, radix, n0) + "" == DigitText(v0, radix, n0);
  }

  lemma AllWritten(v0: nat, radix: nat, n0: nat, v: nat, done: string)
    requires 2 <= radix <= 36 && Written(v0, radix, n0, v, 0, done)
    ensures done == DigitText(v0, radix, n0)
  {
    assert "" + done == done;
  }

  lemma OneMore(v0: nat, radix: nat, n0: nat, v: nat, left: nat, done: string)
    requires 2 <= radix <= 36 && left > 0 && Written(v0, radix, n0, v, left, done)
    ensures Written(v0, radix, n0, Upper(v, radix), left - 1, [LastChar(v, radix)] + done)
  {
    hide DigitText, DigitChar;
    DigitTextNext(v, radix, left);
    var c := LastChar(v, radix);
    assert DigitText(Upper(v, radix), radix, left - 1) + [c] + done == DigitText(Upper(v, radix), radix, left - 1) + ([c] + done);
  }

  /** The do-while loop of u32toa and u64toa_radix: backwards into a local buffer. */
  method NumeralBackward(buf1: array<char>, n0: nat, radix: nat) returns (q: nat)
    requires 2 <= radix <= 36 && |Numeral(n0, radix)| <= buf1.Length
    modifies buf1
    ensures q == buf1.Length - |Numeral(n0, radix)| && buf1[q..] == NumeralText(n0, radix)
  {
    hide NumeralText, LastChar, Upper, Numeral, Counting, Patched;
    ghost var was := buf1[..];
    ghost var done := [LastChar(n0, radix)];
    FirstDigit(n0, radix);
    q := buf1.Length - 1;
    PatchNothing(was, buf1.Length);
    PutBefore(buf1, q, LastChar(n0, radix), was, "", buf1.Length);
    assert done + "" == done;
    var n: nat := Upper(n0, radix);
    while n != 0
      invariant q == buf1.Length - |done| && |done| <= |Numeral(n0, radix)|
      invariant buf1[..] == Patched(was, q, done, buf1.Length) && Counting(n0, radix, n, done)
      decreases n
    {
      NextDigitBack(n0, radix, n, done);
      q := q - 1;
      PutBefore(buf1, q, LastChar(n, radix), was, done, buf1.Length);
      done := [LastChar(n, radix)] + done;
      n := Upper(n, radix);
    }
    LastDigitBack(n0, radix, done);
    PatchParts(was, q, done, buf1.Length);
  }

  ghost predicate Counting(n0: nat, radix: nat, n: nat, done: string)
    requires 2 <= radix <= 36
  {
    NumeralText(n0, radix) == UpperText(n, radix) + done
  }

  lemma FirstDigit(n: nat, radix: nat)
    requires 2 <= radix <= 36
    ensures |Numeral(n, radix)| >= 1 && Counting(n, radix, Upper(n, radix), [LastChar(n, radix)])
  {
    NumeralTextNext(n, radix);
    NumeralTextSize(n, radix);
    hide NumeralText, Numeral, UpperText, LastChar, Upper;
  }

  lemma NextDigitBack(n0: nat, radix: nat, n: nat, done: string)
    requires 2 <= radix <= 36 && n > 0 && Counting(n0, radix, n, done)
    ensures |done| < |Numeral(n0, radix)| && Upper(n, radix) < n && Counting(n0, radix, Upper(n, radix), [LastChar(n, radix)] + done)
  {
    hide NumeralText, LastChar, Upper, Numeral, UpperText;
    NumeralTextSize(n0, radix);
    UpperTextNext(n, radix);
    AppendAssoc(UpperText(Upper(n, radix), radix), [LastChar(n, radix)], done);
  }

  lemma LastDigitBack(n0: nat, radix: nat, done: string)
    requires 2 <= radix <= 36 && Counting(n0, radix, 0, done)
    ensures done == NumeralText(n0, radix) && |done| == |Numeral(n0, radix)|
  {
    hide NumeralText, LastChar, Upper, Numeral, UpperText;
    NumeralTextSize(n0, radix);
    UpperTextEmpty(radix, done);
  }

  lemma AppendAssoc(a: string, b: string, c: string)
    ensures a + b + c == a + (b + c)
  {
  }

  /** The digits that are still to be written. */
  function UpperText(n: nat, radix: nat): string
    requires 2 <= radix <= 36
  {
    if n == 0 then "" else NumeralText(n, radix)
  }

  lemma UpperTextNext(n: nat, radix: nat)
    requires 2 <= radix <= 36 && n > 0
    ensures |UpperText(n, radix)| >= 1 && UpperText(n, radix) == UpperText(Upper(n, radix), radix) + [LastChar(n, radix)] && Upper(n, radix) < n
  {
    hide NumeralText, DigitChar;
    NumeralTextNext(n, radix);
    if n >= radix { QuotientLess(n, radix); } else { DivUnique(n, radix, 0, n); }
  }

  lemma UpperTextEmpty(radix: nat, done: string)
    requires 2 <= radix <= 36
    ensures UpperText(0, radix) + done == done
  {
  }

  /** memcpy */
  method CopyChars(buf: array<char>, at: nat, src: array<char>, from: nat, len: nat)
    requires at + len <= buf.Length && from + len <= src.Length && buf != src
    modifies buf
    ensures buf[at..at + len] == src[from..from + len] && buf[..at] == old(buf[..at])
  {
    var i := 0;
    while i < len
      invariant 0 <= i <= len && buf[..at] == old(buf[..at])
      invariant forall k :: at <= k < at + i ==> buf[k] == src[from + (k - at)]
    {
      buf[at + i] := src[from + i];
      i := i + 1;
    }
  }

  /** u32toa, and u64toa_radix for a radix that is not a power of two. */
  method NumeralToA(buf: array<char>, at: nat, n: nat, radix: nat, size: nat) returns (len: nat)
    requires 2 <= radix <= 36 && size >= 1 && n < Pow(radix, size) && at + |Numeral(n, radix)| <= buf.Length
    modifies buf
    ensures len == |Numeral(n, radix)| && buf[at..at + len] == NumeralText(n, radix) && buf[..at] == old(buf[..at])
  {
    hide NumeralText, Pow, Numeral;
    var buf1 := new char[size](i => '0');
    NumeralShort(n, radix, size);
    var q := NumeralBackward(buf1, n, radix);
    len := size - q;
    CopyChars(buf, at, buf1, q, len);
    assert buf1[q..q + len] == buf1[q..];
  }

  lemma NumeralTextSize(n: nat, radix: nat)
    requires 2 <= radix <= 36
    ensures |NumeralText(n, radix)| == |Numeral(n, radix)| >= 1
  {
  }

  /** The last digit, and the numeral of the others. */
  lemma NumeralTextNext(n: nat, radix: nat)
    requires 2 <= radix <= 36
    ensures NumeralText(n, radix) == UpperText(Upper(n, radix), radix) + [LastChar(n, radix)]
  {
    DivMod(n, radix);
    assert Chars([n % radix]) == [LastChar(n, radix)];
    hide DigitChar;
    if n < radix {
      DivUnique(n, radix, 0, n);
    } else {
      if Upper(n, radix) == 0 { assert false; }
      DigitsBelow36(Numeral(Upper(n, radix), radix), radix);
      CharsAppend(Numeral(Upper(n, radix), radix), [n % radix]);
    }
  }

  lemma NumeralShort(n: nat, radix: nat, size: nat)
    requires radix >= 2 && size >= 1 && n < Pow(radix, size)
    ensures |Numeral(n, radix)| <= size
  {
    hide Pow, Numeral;
    NumeralLength(n, radix);
    if |Numeral(n, radix)| > size { PowMono(radix, size, |Numeral(n, radix)| - 1); }
  }

  const BILLION := 1_000_000_000

  lemma Billion()
    ensures Pow(10, 9) == BILLION && Pow(10, 10) == 10 * BILLION
  {
    PowOne(10);
    PowAdd(10, 2, 2);
    PowAdd(10, 4, 4);
    PowAdd(10, 8, 1);
    PowAdd(10, 9, 1);
  }

  /** The last k digits, and the numeral of the others. */
  lemma NumeralSplit(n: nat, radix: nat, k: nat, p: nat, q: nat)
    requires 2 <= radix <= 36 && p == Pow(radix, k) && n >= p > 0 && q == n / p
    ensures NumeralText(n, radix) == NumeralText(q, radix) + DigitText(n, radix, k)
    ensures |Numeral(n, radix)| == |Numeral(q, radix)| + k
  {
    hide Pow, DigitText, NumeralText, Numeral;
    var len := |Numeral(n, radix)|;
    NumeralLength(n, radix);
    if len <= k { PowMono(radix, len, k); }
    DigitTextSplit(n, radix, len - k, k, p);
    NumeralTextIs(n, radix, len);
    SplitRange(n, radix, len, k, p, q);
    NumeralTextIs(q, radix, len - k);
    NumeralTextSize(n, radix);
    NumeralTextSize(q, radix);
  }

  lemma SplitRange(n: nat, radix: nat, len: nat, k: nat, p: nat, q: nat)
    requires 2 <= radix && p == Pow(radix, k) && n >= p > 0 && q == n / p && len > k
    requires n < Pow(radix, len) && (len > 1 ==> n >= Pow(radix, len - 1))
    ensures q < Pow(radix, len - k) && (len - k > 1 ==> q >= Pow(radix, len - k - 1))
  {
    hide Pow;
    PowAdd(radix, k, len - k);
    if len - k > 1 {
      PowAdd(radix, k, len - k - 1);
      QuotientRange(n, p, Pow(radix, len - k - 1), Pow(radix, len - k));
    } else {
      QuotientRange(n, p, 0, Pow(radix, len - k));
    }
  }

  /** u64toa */
  method U64toa(buf: array<char>, at: nat, n: nat) returns (len: nat)
    requires n < BASE * BASE && at + |Numeral(n, 10)| <= buf.Length
    modifies buf
    ensures len == |Numeral(n, 10)| && buf[at..at + len] == NumeralText(n, 10) && buf[..at] == old(buf[..at])
  {
    hide Pow, Numeral, NumeralText, DigitText;
    Billion();
    if n < BASE {
      len := NumeralToA(buf, at, n, 10, 10);
      return;
    }
    NumeralSplit(n, 10, 9, BILLION, n / BILLION);
    var n1 := n / BILLION;
    if n1 >= BASE {
      NumeralSplit(n1, 10, 9, BILLION, n1 / BILLION);
      len := TwoDigits(buf, at, n1 / BILLION);
      NineDigits(buf, at, len, n1, NumeralText(n1 / BILLION, 10));
      len := len + 9;
    } else {
      len := NumeralToA(buf, at, n1, 10, 10);
    }
    NineDigits(buf, at, len, n, NumeralText(n1, 10));
    len := len + 9;
  }

  /** Nine more digits. */
  method NineDigits(buf: array<char>, at: nat, len: nat, n: nat, ghost upper: string)
    requires at + len + 9 <= buf.Length && buf[at..at + len] == upper
    modifies buf
    ensures buf[at..at + len + 9] == upper + DigitText(n, 10, 9) && buf[..at] == old(buf[..at])
  {
    hide DigitText;
    DigitsOfLow9(n);
    LimbToA(buf, at + len, n % BILLION, 10, 9);
    assert buf[at..at + len] == buf[..at + len][at..];
    assert buf[..at] == buf[..at + len][..at];
    Concat(buf[at..at + len], buf[at + len..at + len + 9], buf[at..at + len + 9]);
  }

  lemma Concat(a: string, b: string, c: string)
    requires |c| == |a| + |b| && c[..|a|] == a && c[|a|..] == b
    ensures c == a + b
  {
  }

  lemma DigitsOfLow9(n: nat)
    ensures DigitText(n, 10, 9) == DigitText(n % BILLION, 10, 9)
  {
    hide Pow, DigitsOf;
    Billion();
    DivUnique(n % BILLION, BILLION, 0, n % BILLION);
    DigitsLow(n, n % BILLION, 10, 9);
  }

  /** The top of u64toa: at most two digits. */
  method TwoDigits(buf: array<char>, at: nat, n0: nat) returns (len: nat)
    requires n0 < 100 && at + |Numeral(n0, 10)| <= buf.Length
    modifies buf
    ensures len == |Numeral(n0, 10)| && buf[at..at + len] == NumeralText(n0, 10) && buf[..at] == old(buf[..at])
  {
    var n2 := n0;
    len := 0;
    if n2 >= 10 {
      buf[at] := '0' + (n2 / 10) as char;
      n2 := n2 % 10;
      len := 1;
    }
    buf[at + len] := '0' + n2 as char;
    len := len + 1;
  }

  // --- radixes that are powers of two ---

  /** 64 - clz64(n) */
  function BitLength(n: nat): nat {
    if n == 0 then 0 else BitLength(n / 2) + 1
  }

  lemma {:induction false} BitLengthBounds(n: nat)
    requires n > 0
    ensures BitLength(n) >= 1 && Pow(2, BitLength(n) - 1) <= n < Pow(2, BitLength(n))
  {
    PowOne(2);
    if n > 1 {
      BitLengthBounds(n / 2);
      Text.PowNext(2, BitLength(n / 2));
      Text.PowNext(2, BitLength(n / 2) - 1);
    }
  }

  /** The number of digits of `bits` bits. */
  lemma BinaryLength(n: nat, bits: nat, radix: nat, l: nat)
    requires bits >= 1 && n >= 1 && radix == Pow(2, bits) && l == (BitLength(n) + bits - 1) / bits
    ensures l >= 1 && n < Pow(radix, l) && (l > 1 ==> n >= Pow(radix, l - 1))
  {
    hide Pow, BitLength;
    var b := BitLength(n);
    BitLengthBounds(n);
    DivMod(b + bits - 1, bits);
    AtLeastOneDigit(b, bits, l);
    PowPow(2, bits, l);
    PowMono(2, b, bits * l);
    if l > 1 {
      PowPow(2, bits, l - 1);
      assert bits * (l - 1) == bits * l - bits;
      PowMono(2, bits * (l - 1), b - 1);
    }
  }

  lemma BinaryNumeral(n: nat, bits: nat, radix: nat, l: nat)
    requires 1 <= bits && 2 <= radix <= 36 && radix == Pow(2, bits)
    requires l == if n == 0 then 1 else (BitLength(n) + bits - 1) / bits
    ensures NumeralText(n, radix) == DigitText(n, radix, l) && |Numeral(n, radix)| == l
  {
    hide Pow, Numeral, DigitText, NumeralText, BitLength;
    PowOne(radix);
    if n > 0 { BinaryLength(n, bits, radix, l); }
    NumeralTextIs(n, radix, l);
    NumeralTextSize(n, radix);
  }

  lemma AtLeastOneDigit(b: nat, bits: nat, l: nat)
    requires b >= 1 && bits >= 1 && b + bits - 1 < bits * l + bits
    ensures l >= 1
  {
    assert l == 0 ==> bits * l == 0;
  }

  lemma ThreePower()
    ensures Pow(3, 41) > 0x1_0000_0000_0000_0000
  {
    hide Pow, FastPow;
    FastPowIsPow(3, 41, 1);
    ThreePowerValue();
  }

  lemma ThreePowerValue()
    ensures FastPow(3, 41, 1) > 0x1_0000_0000_0000_0000
  {
  }

  /** u64toa_radix */
  method U64toaRadix(buf: array<char>, at: nat, n: nat, radix: int) returns (len: nat)
    requires ValidRadix(radix) && n < BASE * BASE && at + |Numeral(n, radix)| <= buf.Length
    modifies buf
    ensures len == |Numeral(n, radix)| && buf[at..at + len] == NumeralText(n, radix) && buf[..at] == old(buf[..at])
  {
    hide Pow, Numeral, NumeralText, DigitText, OddPart, RadixShift, BitLength;
    if radix == 10 {
      len := U64toa(buf, at, n);
    } else if OddPart(radix) == 1 {
      RadixParts(radix);
      PowOne(2);
      var bits := RadixShift(radix);
      len := if n == 0 then 1 else (BitLength(n) + bits - 1) / bits;
      BinaryNumeral(n, bits, radix, len);
      LimbToA(buf, at, n, radix, len);
    } else {
      ThreePower();
      OddAboveTwo(radix);
      PowBaseMono(3, radix, 41);
      len := NumeralToA(buf, at, n, radix, 41);
    }
  }

  lemma OddAboveTwo(radix: int)
    requires ValidRadix(radix) && OddPart(radix) != 1
    ensures radix >= 3
  {
    assert OddPart(2) == OddPart(1);
  }

  // --- output_digits ---

  /** Text with a dot in front of position `dot`, unless that is its end. */
  function WithDot(s: string, dot: nat): string
    requires dot <= |s|
  {
    if dot == |s| then s else s[..dot] + "." + s[dot..]
  }

  /** The low limb has the digits that are written next. */
  lemma LowLimbDigits(low: nat, rest: nat, radix: nat, bits: nat, n: nat, v: nat)
    requires 2 <= radix <= 36 && radix == Pow(2, bits) && n * bits <= 32 && v == low + BASE * rest
    ensures DigitText(v, radix, n) == DigitText(low, radix, n)
  {
    hide Pow, DigitsOf;
    PowPow(2, bits, n);
    assert bits * n == n * bits;
    PowAdd(2, 32 - n * bits, n * bits);
    Pow32();
    PowPos(2, n * bits);
    var p, c := Pow(radix, n), Pow(2, 32 - n * bits);
    DivMod(low, p);
    assert v == p * (c * rest + low / p) + low % p by {
      assert BASE * rest == (c * p) * rest == p * (c * rest);
    }
    DivUnique(v, p, c * rest + low / p, low % p);
    DigitsLow(v, low, radix, n);
  }

  lemma LimbBits(radix: int)
    requires ValidRadix(radix) && OddPart(radix) == 1
    ensures 1 <= RadixShift(radix) <= 5 && DIGITS_PER_LIMB[radix - 2] * RadixShift(radix) <= 32
  {
    BinaryShift(radix);
    hide OddPart, RadixShift;
  }

  lemma WriteMore(v0: nat, radix: nat, n0: nat, v: nat, left: nat, done: string, n: nat, v1: nat)
    requires 2 <= radix <= 36 && Written(v0, radix, n0, v, left + n, done)
    requires DigitText(v, radix, left + n) == DigitText(v1, radix, left) + DigitText(v, radix, n)
    ensures Written(v0, radix, n0, v1, left, DigitText(v, radix, n) + done)
  {
    hide DigitText;
    assert DigitText(v1, radix, left) + DigitText(v, radix, n) + done == DigitText(v1, radix, left) + (DigitText(v, radix, n) + done);
  }

  /** output_digits for a radix that is a power of two: the low limb has the next digits. */
  method BinaryDigits(buf: array<char>, at: nat, a: Bignum, radix: int, n0: nat)
    requires ValidRadix(radix) && OddPart(radix) == 1 && a.Normal() && n0 >= 1 && at + n0 <= buf.Length
    modifies buf, a, a.tab
    ensures buf[at..at + n0] == DigitText(old(a.Val()), radix, n0) && buf[..at] == old(buf[..at])
  {
    hide Pow, Value, DigitText, OddPart, RadixShift, Written;
    LimbBits(radix);
    RadixParts(radix);
    var bits, perLimb := RadixShift(radix), DIGITS_PER_LIMB[radix - 2];
    ghost var v0 := a.Val();
    ghost var done := "";
    var left: nat := n0;
    NothingWritten(v0, radix, n0);
    while true
      invariant a.Normal() && 1 <= left <= n0 && Written(v0, radix, n0, a.Val(), left, done)
      invariant buf[at + left..at + n0] == done && buf[..at] == old(buf[..at])
      decreases left
    {
      var n: nat := if left < perLimb then left else perLimb;
      left := left - n;
      ghost var v := a.Val();
      LowDigits(a.tab[..a.len], radix, bits, perLimb, n);
      ghost var p, v1 := Chunk(v, radix, n);
      WriteChunk(v0, radix, n0, v, left, done, n, p, v1);
      ghost var old1 := buf[..];
      LimbToA(buf, at + left, a.tab[0], radix, n);
      WrittenBefore(buf[..], old1, at, left, n, n0, DigitText(v, radix, n), done);
      done := DigitText(v, radix, n) + done;
      if left == 0 {
        break;
      }
      ShiftDigits(a, radix, bits, perLimb);
    }
  }

  lemma LowDigits(s: seq<limb>, radix: nat, bits: nat, perLimb: nat, n: nat)
    requires s != [] && 2 <= radix <= 36 && radix == Pow(2, bits) && n <= perLimb && perLimb * bits <= 32
    ensures DigitText(Value(s), radix, n) == DigitText(s[0], radix, n)
  {
    hide Pow, Value, DigitText;
    LowLimb(s);
    FewBits(n, perLimb, bits);
    LowLimbDigits(s[0], Value(s[1..]), radix, bits, n, Value(s));
  }

  /** Shifts out the digits of one limb. */
  method ShiftDigits(a: Bignum, radix: nat, bits: nat, perLimb: nat)
    requires a.Normal() && radix == Pow(2, bits) && perLimb > 0 && bits > 0
    modifies a, a.tab
    ensures a.Normal() && Pow(radix, perLimb) > 0 && a.Val() == old(a.Val()) / Pow(radix, perLimb)
  {
    hide Pow, Value;
    PowPow(2, bits, perLimb);
    MulPos(perLimb, bits);
    assert bits * perLimb == perLimb * bits;
    PowPos(2, perLimb * bits);
    TruncatedDivision(a.Val(), Pow(2, perLimb * bits));
    a.ShrRound(perLimb * bits, TowardZero);
  }

  lemma Chunk(v: nat, radix: nat, n: nat) returns (p: nat, v1: nat)
    requires radix > 0
    ensures p > 0 && p == Pow(radix, n) && v1 == v / p
  {
    PowPos(radix, n);
    p := Pow(radix, n);
    DivMod(v, p);
    v1 := Quotient(v, p);
  }

  function Quotient(v: nat, p: nat): (q: nat)
    requires p > 0
    ensures q == v / p
  {
    v / p
  }

  lemma TruncatedDivision(v: nat, p: nat)
    requires p > 0
    ensures RoundDiv(v, p, TowardZero) == v / p
  {
  }

  lemma LowLimb(s: seq<limb>)
    requires s != []
    ensures Value(s) == s[0] + BASE * Value(s[1..])
  {
    hide Pow;
    ValueCons(s[0], s[1..]);
    assert s == [s[0]] + s[1..];
  }

  lemma FewBits(n: nat, perLimb: nat, bits: nat)
    requires n <= perLimb && perLimb * bits <= 32
    ensures n * bits <= 32
  {
    MulMono(n, perLimb, bits);
  }

  /** New digits in front of those already written. */
  lemma WrittenBefore(now: string, was: string, at: nat, left: nat, n: nat, n0: nat, digits: string, done: string)
    requires |now| == |was| && left + n <= n0 && at + n0 <= |now|
    requires now[at + left..at + left + n] == digits && now[..at + left] == was[..at + left] && now[at + left + n..] == was[at + left + n..]
    requires was[at + left + n..at + n0] == done
    ensures now[at + left..at + n0] == digits + done && now[..at] == was[..at]
  {
    assert now[at + left + n..at + n0] == now[at + left + n..][..n0 - left - n];
    assert was[at + left + n..at + n0] == was[at + left + n..][..n0 - left - n];
    assert now[..at] == now[..at + left][..at];
    assert was[..at] == was[..at + left][..at];
    assert now[at + left..at + n0] == now[at + left..at + left + n] + now[at + left + n..at + n0];
  }

  /** mp_div1 and mpb_renorm */
  method DivideLimbs(a: Bignum, base: limb) returns (r: limb)
    requires a.Valid() && base > 0
    modifies a, a.tab
    ensures a.Normal() && a.Val() == old(a.Val()) / base && old(a.Val()) == a.Val() * base + r
  {
    hide Value, Pow;
    ghost var v := a.Val();
    r := MpDiv1(a.tab, a.len, base, 0);
    ghost var q := Value(a.tab[..a.len]);
    a.Renorm();
    DivUnique(v, base, q, r);
  }

  /** output_digits for the other radixes: division by the largest power that fits a limb. */
  method DividedDigits(buf: array<char>, at: nat, a: Bignum, radix: int, n0: nat)
    requires ValidRadix(radix) && OddPart(radix) != 1 && a.Normal() && at + n0 <= buf.Length
    modifies buf, a, a.tab
    ensures buf[at..at + n0] == DigitText(old(a.Val()), radix, n0) && buf[..at] == old(buf[..at])
  {
    hide Pow, Value, DigitText, OddPart, Written;
    NonzeroBase(radix);
    var base, perLimb := RADIX_BASE[radix - 2], DIGITS_PER_LIMB[radix - 2];
    ghost var v0 := a.Val();
    ghost var done := "";
    var left: nat := n0;
    NothingWritten(v0, radix, n0);
    EmptyDigits(v0, radix);
    while left != 0
      invariant a.Normal() && left <= n0
      invariant left != 0 ==> Written(v0, radix, n0, a.Val(), left, done)
      invariant left == 0 ==> done == DigitText(v0, radix, n0)
      invariant buf[at + left..at + n0] == done && buf[..at] == old(buf[..at])
      decreases left
    {
      var n: nat := if left < perLimb then left else perLimb;
      left := left - n;
      ghost var v := a.Val();
      var r := DivideLimbs(a, base);
      DigitsOfRemainder(v, v / base, r, radix, perLimb, n);
      ghost var p, v1 := Chunk(v, radix, n);
      WriteChunk(v0, radix, n0, v, left, done, n, p, v1);
      ghost var old1 := buf[..];
      LimbToA(buf, at + left, r, radix, n);
      WrittenBefore(buf[..], old1, at, left, n, n0, DigitText(v, radix, n), done);
      done := DigitText(v, radix, n) + done;
    }
  }

  lemma WriteChunk(v0: nat, radix: nat, n0: nat, v: nat, left: nat, done: string, n: nat, p: nat, v1: nat)
    requires 2 <= radix <= 36 && Written(v0, radix, n0, v, left + n, done) && p > 0 && p == Pow(radix, n) && v1 == v / p
    ensures Written(v0, radix, n0, v1, left, DigitText(v, radix, n) + done)
    ensures left == 0 ==> DigitText(v, radix, n) + done == DigitText(v0, radix, n0)
  {
    hide Pow, DigitText, Written;
    DigitTextSplit(v, radix, left, n, p);
    WriteMore(v0, radix, n0, v, left, done, n, v1);
    if left == 0 { AllWritten(v0, radix, n0, v1, DigitText(v, radix, n) + done); }
  }

  lemma EmptyDigits(n: nat, radix: nat)
    requires 2 <= radix <= 36
    ensures DigitText(n, radix, 0) == ""
  {
  }

  lemma NonzeroBase(radix: int)
    requires ValidRadix(radix) && OddPart(radix) != 1
    ensures RADIX_BASE[radix - 2] > 0 && RADIX_BASE[radix - 2] == Pow(radix, DIGITS_PER_LIMB[radix - 2]) && DIGITS_PER_LIMB[radix - 2] > 0
  {
    hide Pow;
    LimbBase(radix);
    DigitsRange(radix);
    if RADIX_BASE[radix - 2] == 0 { ZeroBases(radix); }
    assert OddPart(2) == OddPart(1) && OddPart(4) == OddPart(2) && OddPart(8) == OddPart(4) && OddPart(16) == OddPart(8);
  }

  lemma ZeroBases(radix: int)
    requires ValidRadix(radix) && RADIX_BASE[radix - 2] == 0
    ensures radix == 2 || radix == 4 || radix == 16
  {
  }

  /** The remainder has the digits of the number. */
  lemma DigitsOfRemainder(v: nat, q: nat, r: nat, radix: nat, i: nat, n: nat)
    requires 2 <= radix <= 36 && n <= i && v == q * Pow(radix, i) + r
    ensures DigitText(v, radix, n) == DigitText(r, radix, n)
  {
    hide DigitsOf, Pow;
    DigitsOfSum(r, q, radix, i, n);
  }

  /** output_digits: n digits of a, with a dot in front of digit `dotPos`. */
  method OutputDigits(buf: array<char>, at: nat, a: Bignum, radix: int, n: nat, dotPos: nat) returns (len: nat)
    requires ValidRadix(radix) && a.Normal() && 1 <= n && dotPos <= n
    requires at + n + (if dotPos != n then 1 else 0) <= buf.Length
    modifies buf, a, a.tab
    ensures len == n + (if dotPos != n then 1 else 0)
    ensures buf[at..at + len] == WithDot(DigitText(old(a.Val()), radix, n), dotPos) && buf[..at] == old(buf[..at])
  {
    hide DigitText, OddPart, Value;
    ghost var s := DigitText(a.Val(), radix, n);
    if OddPart(radix) == 1 {
      BinaryDigits(buf, at, a, radix, n);
    } else {
      DividedDigits(buf, at, a, radix, n);
    }
    len := n;
    if dotPos != n {
      InsertDot(buf, at, n, dotPos, s);
      len := len + 1;
    }
  }

  /** The memmove that makes room for the dot. */
  method InsertDot(buf: array<char>, at: nat, n: nat, dotPos: nat, ghost s: string)
    requires dotPos < n && at + n + 1 <= buf.Length && |s| == n && buf[at..at + n] == s
    modifies buf
    ensures buf[at..at + n + 1] == WithDot(s, dotPos) && buf[..at] == old(buf[..at])
  {
    ghost var was := buf[..];
    ghost var b := buf[at..at + n];
    assert forall k :: at <= k < at + n ==> buf[k] == b[k - at];
    var i := n;
    while i > dotPos
      invariant dotPos <= i <= n
      invariant forall k :: 0 <= k < at ==> buf[k] == was[k]
      invariant forall k :: at <= k < at + i ==> buf[k] == s[k - at]
      invariant forall k :: at + i < k < at + n + 1 ==> buf[k] == s[k - at - 1]
    {
      i := i - 1;
      buf[at + i + 1] := buf[at + i];
    }
    buf[at + dotPos] := '.';
    DotInserted(buf[..], was, at, n, dotPos, s);
  }

  lemma DotInserted(now: string, was: string, at: nat, n: nat, dotPos: nat, s: string)
    requires dotPos < n == |s| && at + n + 1 <= |now| == |was| && now[at + dotPos] == '.'
    requires forall k :: 0 <= k < at ==> now[k] == was[k]
    requires forall k :: at <= k < at + dotPos ==> now[k] == s[k - at]
    requires forall k :: at + dotPos < k < at + n + 1 ==> now[k] == s[k - at - 1]
    ensures now[at..at + n + 1] == WithDot(s, dotPos) && now[..at] == was[..at]
  {
  }
}
