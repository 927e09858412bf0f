/** What atoms and flags mean, with the characters and the bits written out: which characters
    stand where in a text, which of them end lines or belong to words, and which bit is which
    flag. */
module RegexAtoms {
  import opened Letters
  import opened CharPoints
  import opened RegexInput
  import opened RegexTerm
  import opened RegexMatcher
  import opened RegexCompile

  // --- characters in a text ---

  /** The UTF-16 code units of a code point. */
  function Units(c: int): seq<int> {
    if c < 0x10000 then [c] else [0xD800 + (c - 0x10000) / 0x400, 0xDC00 + (c - 0x10000) % 0x400]
  }

  /** Position p does not lie between the two halves of a surrogate pair. */
  predicate Whole(inp: Input, p: int) {
    0 <= p <= |inp.units| &&
    (inp.utf16 && 0 < p < |inp.units| ==>
      !(0xD800 <= inp.units[p - 1] <= 0xDBFF && 0xDC00 <= inp.units[p] <= 0xDFFF))
  }

  /** The character c stands between the positions p and q. */
  predicate Stands(inp: Input, p: int, c: int, q: int) {
    Whole(inp, p) && Whole(inp, q) && p < q && 0 <= c <= 0x10FFFF &&
    inp.units[p..q] == if inp.utf16 then Units(c) else [c]
  }

  lemma WholeIsBoundary(inp: Input, p: int)
    ensures Whole(inp, p) <==> Boundary(inp, p)
  {
  }

  /** A character is read as what stands there, in both directions. */
  lemma CharacterRead(inp: Input, p: int, c: int, q: int)
    requires Stands(inp, p, c, q)
    ensures p < |inp.units| && CharAt(inp, p, |inp.units|) == c && NextPos(inp, p, |inp.units|) == q
    ensures q > 0 && PrevCharAt(inp, q, 0) == c && PrevPos(inp, q, 0) == p
  {
    var part := inp.units[p..q];
    assert part[0] == inp.units[p];
    if inp.utf16 && c >= 0x10000 {
      assert q == p + 2 && part[1] == inp.units[p + 1];
    } else {
      assert q == p + 1;
    }
  }

  /** Before the end of a text there is a character. */
  lemma CharacterAfter(inp: Input, p: int) returns (c: int, q: int)
    requires ValidInput(inp) && Whole(inp, p) && p < |inp.units|
    ensures Stands(inp, p, c, q)
  {
    c, q := CharAt(inp, p, |inp.units|), NextPos(inp, p, |inp.units|);
    if q == p + 2 {
      assert inp.units[p..q] == [inp.units[p], inp.units[p + 1]];
    } else {
      assert inp.units[p..q] == [inp.units[p]];
    }
  }

  lemma CharacterBefore(inp: Input, q: int) returns (p: int, c: int)
    requires ValidInput(inp) && Whole(inp, q) && 0 < q
    ensures Stands(inp, p, c, q)
  {
    p, c := PrevPos(inp, q, 0), PrevCharAt(inp, q, 0);
    if q == p + 2 {
      assert inp.units[p..q] == [inp.units[p], inp.units[p + 1]];
    } else {
      assert inp.units[p..q] == [inp.units[p]];
    }
  }

  // --- single characters ---

  /** The characters that end a line. */
  const TERMINATORS := {0x000A, 0x000D, 0x2028, 0x2029}

  /** The character c satisfies the test x. */
  ghost predicate Accepted(f: Flags, x: CharTest, c: int) {
    match x
    case Exactly(e) => if f.ignoreCase then f.canonicalize(e) == f.canonicalize(c) else e == c
    case Points(pts) =>
      var v := if f.ignoreCase then f.canonicalize(c) else c;
      exists k: nat :: 2 * k + 1 < |pts| && InPair(pts, k, v)
    case Dot => f.dotAll || c !in TERMINATORS
  }

  /** v lies in the pair of points number k. */
  predicate InPair(pts: seq<nat>, k: nat, v: int)
    requires 2 * k + 1 < |pts|
  {
    pts[2 * k] <= v < pts[2 * k + 1]
  }

  lemma PointsByPair(pts: seq<nat>, v: int)
    ensures InPoints(pts, v) <==> exists k: nat :: 2 * k + 1 < |pts| && InPair(pts, k, v)
  {
    if InPoints(pts, v) {
      var i :| 0 <= i < |pts| - 1 && i % 2 == 0 && pts[i] <= v < pts[i + 1];
      assert InPair(pts, i / 2, v);
    }
    if exists k: nat :: 2 * k + 1 < |pts| && InPair(pts, k, v) {
      var k: nat :| 2 * k + 1 < |pts| && InPair(pts, k, v);
      assert 0 <= 2 * k < |pts| - 1 && 2 * k % 2 == 0 && pts[2 * k] <= v < pts[2 * k + 1];
    }
  }

  /** A test takes exactly the character that stands at the cursor, in the direction of travel,
      if it accepts it. */
  lemma CharacterOutcomes(env: Env, x: CharTest, cc: nat, caps: seq<int>, p: int, c: int, q: int)
    requires Stands(env.input, p, c, q)
    ensures TermOutcomes(env, One(x), false, cc, Outcome(p, caps)) == if Accepted(env.flags, x, c) then [Outcome(q, caps)] else []
    ensures TermOutcomes(env, One(x), true, cc, Outcome(q, caps)) == if Accepted(env.flags, x, c) then [Outcome(p, caps)] else []
  {
    CharacterRead(env.input, p, c, q);
    if x.Points? { PointsByPair(x.points, if env.flags.ignoreCase then env.flags.canonicalize(c) else c); }
    hide CharAt, NextPos, PrevCharAt, PrevPos, Stands, InPoints;
  }

  /** At the ends of the text there is nothing to take. */
  lemma NoCharacterOutcomes(env: Env, x: CharTest, cc: nat, caps: seq<int>)
    ensures TermOutcomes(env, One(x), false, cc, Outcome(|env.input.units|, caps)) == []
    ensures TermOutcomes(env, One(x), true, cc, Outcome(0, caps)) == []
  {
  }

  // --- assertions ---

  /** The character before a position, if any. */
  ghost predicate Before(inp: Input, q: int, cs: seq<int>) {
    (q == 0 && cs == []) || (|cs| == 1 && exists p :: Stands(inp, p, cs[0], q))
  }

  /** The character after a position, if any. */
  ghost predicate After(inp: Input, p: int, cs: seq<int>) {
    (p == |inp.units| && cs == []) || (|cs| == 1 && exists q :: Stands(inp, p, cs[0], q))
  }

  /** At every position that splits no pair there is a character, or the text ends. */
  lemma Neighbours(inp: Input, p: int) returns (before: seq<int>, after: seq<int>)
    requires ValidInput(inp) && Whole(inp, p)
    ensures Before(inp, p, before) && After(inp, p, after)
  {
    before, after := [], [];
    if p > 0 {
      var p0, c := CharacterBefore(inp, p);
      before := [c];
      assert Stands(inp, p0, before[0], p);
    }
    if p < |inp.units| {
      var c, q := CharacterAfter(inp, p);
      after := [c];
      assert Stands(inp, p, after[0], q);
    }
  }

  /** There is a character, and it is a letter or digit of ASCII or the underscore. */
  predicate OfWord(cs: seq<int>) {
    cs != [] && Among(cs[0], "0123456789" + "ABCDEFGHIJKLMNOPQRSTUVWXYZ" + "abcdefghijklmnopqrstuvwxyz" + "_")
  }

  lemma OfWordIs(cs: seq<int>)
    ensures OfWord(cs) <==> cs != [] && IsWordChar(cs[0])
  {
    if cs != [] {
      hide Among;
      AmongRanges(cs[0]);
      AmongAppend(cs[0], DIGITS, UPPER);
      AmongAppend(cs[0], DIGITS + UPPER, LOWER);
      AmongAppend(cs[0], DIGITS + UPPER + LOWER, "_");
      AmongOne(cs[0]);
    }
  }

  lemma AmongOne(c: int)
    ensures Among(c, "_") <==> c == 0x5F
  {
    assert "_"[0] as int == 0x5F;
  }

  /** The outcomes of the assertions ^, $, \b and \B, from the characters around the cursor. */
  lemma AssertionOutcomes(env: Env, back: bool, cc: nat, o: Outcome, before: seq<int>, after: seq<int>, neg: bool)
    requires Whole(env.input, o.pos) && Before(env.input, o.pos, before) && After(env.input, o.pos, after)
    ensures TermOutcomes(env, LineStart, back, cc, o) ==
      if before == [] || (env.flags.multiLine && before[0] in TERMINATORS) then [o] else []
    ensures TermOutcomes(env, LineEnd, back, cc, o) ==
      if after == [] || (env.flags.multiLine && after[0] in TERMINATORS) then [o] else []
    ensures TermOutcomes(env, WordBoundary(neg), back, cc, o) ==
      if (OfWord(before) != OfWord(after)) != neg then [o] else []
  {
    OfWordIs(before);
    OfWordIs(after);
    ReadBefore(env.input, o.pos, before);
    ReadAfter(env.input, o.pos, after);
    hide CharAt, PrevCharAt, Stands, OfWord, Before, After, IsWordChar;
  }

  lemma ReadBefore(inp: Input, q: int, cs: seq<int>)
    requires Before(inp, q, cs)
    ensures if cs == [] then q == 0 else 0 < q <= |inp.units| && PrevCharAt(inp, q, 0) == cs[0]
  {
    if cs != [] {
      var p :| Stands(inp, p, cs[0], q);
      CharacterRead(inp, p, cs[0], q);
    }
  }

  lemma ReadAfter(inp: Input, p: int, cs: seq<int>)
    requires After(inp, p, cs)
    ensures if cs == [] then p == |inp.units| else 0 <= p < |inp.units| && CharAt(inp, p, |inp.units|) == cs[0]
  {
    if cs != [] {
      var q :| Stands(inp, p, cs[0], q);
      CharacterRead(inp, p, cs[0], q);
    }
  }

  // --- flags ---

  function Bit(b: bool): nat {
    if b then 1 else 0
  }

  /** The flag word with the flags d, g, i, m, s, u, v, y, and the one for named groups. */
  function FlagWord(g: bool, i: bool, m: bool, s: bool, u: bool, y: bool, d: bool, named: bool, v: bool): nat {
    Bit(g) + 2 * Bit(i) + 4 * Bit(m) + 8 * Bit(s) + 16 * Bit(u) + 32 * Bit(y) + 64 * Bit(d) + 128 * Bit(named) + 256 * Bit(v)
  }

  /** Each bit means what it should, whatever the others are. */
  lemma FlagWordRead(g: bool, i: bool, m: bool, s: bool, u: bool, y: bool, d: bool, named: bool, v: bool, canon: Canonicalizer, units: seq<int>)
    ensures var word := FlagWord(g, i, m, s, u, y, d, named, v); var f := FlagsOf(word, canon);
      f.ignoreCase == i && f.multiLine == m && f.dotAll == s && (forall c :: f.canonicalize(c) == canon(c, u)) && IsSticky(word) == y &&
      TextOf(units, 0, word) == Input(units, false) && TextOf(units, 1, word) == Input(units, u) && TextOf(units, 2, word) == Input(units, true)
  {
    WordBits(g, i, m, s, u, y, d, named, v);
    hide FlagWord, FlagSet;
  }

  lemma WordBits(g: bool, i: bool, m: bool, s: bool, u: bool, y: bool, d: bool, named: bool, v: bool)
    ensures var word := FlagWord(g, i, m, s, u, y, d, named, v);
      FlagSet(word, 2) == i && FlagSet(word, 4) == m && FlagSet(word, 8) == s && FlagSet(word, 16) == u && FlagSet(word, 32) == y
  {
    hide Bit, FlagSet;
    IsBit(g);
    IsBit(i);
    IsBit(m);
    IsBit(s);
    IsBit(u);
    IsBit(y);
    var last := Bit(d) + 2 * (Bit(named) + 2 * Bit(v));
    var rest := Bit(y) + 2 * last;
    LowBits(Bit(g), Bit(i), Bit(m), Bit(s), Bit(u), rest, FlagWord(g, i, m, s, u, y, d, named, v));
    OddHalf(Bit(y), last);
    FiveFlags(FlagWord(g, i, m, s, u, y, d, named, v));
  }

  lemma IsBit(b: bool)
    ensures Bit(b) <= 1 && (Bit(b) == 1 <==> b)
  {
  }

  lemma FiveFlags(word: nat)
    ensures FlagSet(word, 2) == (word / 2 % 2 == 1) && FlagSet(word, 4) == (word / 4 % 2 == 1) && FlagSet(word, 8) == (word / 8 % 2 == 1)
    ensures FlagSet(word, 16) == (word / 16 % 2 == 1) && FlagSet(word, 32) == (word / 32 % 2 == 1)
  {
  }

  lemma OddHalf(b: nat, r: nat)
    requires b <= 1
    ensures (b + 2 * r) % 2 == b && (b + 2 * r) / 2 == r
  {
  }

  lemma LowBits(b0: nat, b1: nat, b2: nat, b3: nat, b4: nat, rest: nat, word: nat)
    requires b0 <= 1 && b1 <= 1 && b2 <= 1 && b3 <= 1 && b4 <= 1
    requires word == b0 + 2 * b1 + 4 * b2 + 8 * b3 + 16 * b4 + 32 * rest
    ensures word / 2 % 2 == b1 && word / 4 % 2 == b2 && word / 8 % 2 == b3 && word / 16 % 2 == b4 && word / 32 == rest
  {
    var r4 := b4 + 2 * rest;
    var r3 := b3 + 2 * r4;
    var r2 := b2 + 2 * r3;
    var r1 := b1 + 2 * r2;
    OddHalf(b0, r1);
    OddHalf(b1, r2);
    OddHalf(b2, r3);
    OddHalf(b3, r4);
    OddHalf(b4, rest);
    assert word == b0 + 2 * r1 && word / 4 == word / 2 / 2 && word / 8 == word / 4 / 2 && word / 16 == word / 8 / 2 && word / 32 == word / 16 / 2;
  }
}
