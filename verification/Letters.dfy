/** The digits and letters of ASCII, written out. */
module Letters {

  const DIGITS := "0123456789"
  const UPPER := "ABCDEFGHIJKLMNOPQRSTUVWXYZ"
  const LOWER := "abcdefghijklmnopqrstuvwxyz"

  lemma DigitAt(i: nat)
    requires i < 10
    ensures |DIGITS| == 10 && DIGITS[i] as int == 48 + i
  {
  }

  lemma UpperAt(i: nat)
    requires i < 26
    ensures |UPPER| == 26 && UPPER[i] as int == 65 + i
  {
  }

  lemma LowerAt(i: nat)
    requires i < 26
    ensures |LOWER| == 26 && LOWER[i] as int == 97 + i
  {
  }

  /** The code points of the characters of s include c. */
  predicate Among(c: int, s: string) {
    exists i :: 0 <= i < |s| && s[i] as int == c
  }

  /** Which code points these are. */
  lemma AmongRanges(c: int)
    ensures Among(c, DIGITS) <==> 48 <= c <= 57
    ensures Among(c, UPPER) <==> 65 <= c <= 90
    ensures Among(c, LOWER) <==> 97 <= c <= 122
  {
    if 48 <= c <= 57 { DigitAt(c - 48); }
    if 65 <= c <= 90 { UpperAt(c - 65); }
    if 97 <= c <= 122 { LowerAt(c - 97); }
    forall i | 0 <= i < |DIGITS| ensures DIGITS[i] as int == 48 + i { DigitAt(i); }
    forall i | 0 <= i < |UPPER| ensures UPPER[i] as int == 65 + i { UpperAt(i); }
    forall i | 0 <= i < |LOWER| ensures LOWER[i] as int == 97 + i { LowerAt(i); }
  }

  lemma AmongAppend(c: int, s: string, t: string)
    ensures Among(c, s + t) <==> Among(c, s) || Among(c, t)
  {
    if Among(c, s) {
      var i :| 0 <= i < |s| && s[i] as int == c;
      assert (s + t)[i] == s[i];
    }
    if Among(c, t) {
      var i :| 0 <= i < |t| && t[i] as int == c;
      assert (s + t)[|s| + i] == t[i];
    }
  }
}
