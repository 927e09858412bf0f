/** Nested counted quantifiers: the atom of each is copied, so that the program doubles with
    every level, while the size checks of the compiler see none of it. */
module RegexNested {
  import opened Words
  import opened RegexTerm
  import opened RegexCode
  import opened RegexEncodable
  import opened RegexScan
  import opened RegexStack
  import opened RegexCounts
  import opened RegexEmitter
  import opened RegexCompile

  /** (?:t) */
  function Grouped(t: Term): Term {
    Group(Only(Then(Empty, t)))
  }

  /** . with n lazy quantifiers {2,}? around it */
  function Nested(n: nat): Term {
    if n == 0 then One(Dot) else Quantified(Grouped(Nested(n - 1)), 2, INT32_MAX, false)
  }

  function Power(n: nat): nat {
    if n == 0 then 1 else 2 * Power(n - 1)
  }

  lemma {:induction false} NestedValid(n: nat)
    ensures ValidTerm(Nested(n)) && TermCaptures(Nested(n)) == 0 && FewRanges(Nested(n))
  {
    if n > 0 {
      NestedValid(n - 1);
      GroupedValid(Nested(n - 1));
    }
  }

  lemma GroupedValid(t: Term)
    requires ValidTerm(t) && FewRanges(t)
    ensures ValidTerm(Grouped(t)) && FewRanges(Grouped(t)) && TermCaptures(Grouped(t)) == TermCaptures(t)
  {
    assert AlternativeCaptures(Then(Empty, t)) == TermCaptures(t);
    assert AlternativeFewRanges(Then(Empty, t));
    assert ValidAlternative(Then(Empty, t));
  }

  lemma GroupedCode(f: Flags, t: Term, cc: nat)
    requires ValidTerm(t)
    ensures ValidTerm(Grouped(t)) && TermCode(f, Grouped(t), false, cc) == TermCode(f, t, false, cc)
  {
    assert ValidAlternative(Then(Empty, t));
    assert AlternativeCaptures(Empty) == 0;
    assert AlternativeCode(f, Then(Empty, t), false, cc) == [] + TermCode(f, t, false, cc);
  }

  lemma GroupedRoom(f: Flags, t: Term, cc: nat, size: nat)
    requires ValidTerm(t) && TermRoom(f, t, false, cc, size)
    ensures ValidTerm(Grouped(t)) && TermRoom(f, Grouped(t), false, cc, size)
  {
    assert ValidAlternative(Then(Empty, t));
    assert AlternativeCaptures(Empty) == 0 && CodeSize(AlternativeCode(f, Empty, false, cc)) == 0;
    assert AlternativeRoom(f, Then(Empty, t), false, cc, size);
  }

  /** Everything is emitted before the first quantifier code is inserted. */
  lemma {:induction false} NestedRoom(f: Flags, n: nat, cc: nat, size: nat)
    requires size < 0x400_0000
    ensures ValidTerm(Nested(n)) && TermRoom(f, Nested(n), false, cc, size)
  {
    NestedValid(n);
    if n > 0 {
      NestedRoom(f, n - 1, cc, size);
      GroupedRoom(f, Nested(n - 1), cc, size);
    }
  }

  lemma QuantifierDoubles(atom: Code, cc: nat)
    ensures CodeSize(QuantifierCode(atom, 2, INT32_MAX, false, cc, 0)) >= 2 * CodeSize(atom)
  {
    var check := NeedCheckAdvance(atom);
    var body := Guarded(atom, check);
    hide NeedCheckAdvance, CodeSize;
    CodeSizeAppend([PushI32(2)] + atom, [Loop(-(CodeSize(atom) + 5)), Drop]);
    CodeSizeAppend([PushI32(2)], atom);
    CodeSizeAppend([PushCharPos] + atom, [CheckAdvance]);
    CodeSizeAppend([PushCharPos], atom);
    CodeSizeAppend([Split(false, CodeSize(body) + 5)] + body, [Goto(-(CodeSize(body) + 10))]);
    CodeSizeAppend([Split(false, CodeSize(body) + 5)], body);
    CodeSizeAppend(RepeatCode(atom, 2), FurtherCode(atom, 2, INT32_MAX, false));
  }

  /** n quantifiers make at least 2^n bytes of code. */
  lemma {:induction false} NestedDoubles(f: Flags, n: nat, cc: nat)
    ensures ValidTerm(Nested(n)) && CodeSize(TermCode(f, Nested(n), false, cc)) >= Power(n)
  {
    hide QuantifierCode;
    NestedValid(n);
    if n > 0 {
      NestedDoubles(f, n - 1, cc);
      NestedValid(n - 1);
      GroupedValid(Nested(n - 1));
      GroupedCode(f, Nested(n - 1), cc);
      QuantifierDoubles(TermCode(f, Nested(n - 1), false, cc), cc);
    }
  }

  // --- the stack they need ---

  /** How far the stack rises. */
  function Peak(code: Code): nat {
    if code == [] then 0
    else
      var top := StackEffect(code[0]) + Peak(code[1..]);
      if top > 0 then top else 0
  }

  lemma {:induction false} PeakBounds(code: Code, depth: int, max: nat)
    ensures MaxDepthFrom(code, depth, max) <= max || MaxDepthFrom(code, depth, max) <= depth + Peak(code)
    decreases |code|
  {
    if code != [] {
      var next := depth + StackEffect(code[0]);
      PeakBounds(code[1..], next, if next > max then next else max);
    }
  }

  lemma {:induction false} PeakAppend(a: Code, b: Code)
    ensures Peak(a + b) <= Peak(a) || Peak(a + b) <= TotalEffect(a) + Peak(b)
    decreases |a|
  {
    if a == [] {
      assert a + b == b;
    } else {
      assert (a + b)[1..] == a[1..] + b;
      PeakAppend(a[1..], b);
    }
  }

  /** Code with something around it. */
  lemma PeakWrap(first: Code, body: Code, last: Code, rise: nat)
    requires TotalEffect(body) == 0 && TotalEffect(first) == rise && Peak(first) <= rise && Peak(last) == 0
    ensures Peak(first + body + last) <= rise + Peak(body)
    ensures TotalEffect(first + body + last) == rise + TotalEffect(last)
  {
    hide Peak, TotalEffect;
    PeakAppend(first, body);
    PeakAppend(first + body, last);
    EffectAppend(first, body);
    EffectAppend(first + body, last);
  }

  lemma OnePeak(i: Instr)
    ensures TotalEffect([i]) == StackEffect(i) && Peak([i]) == if StackEffect(i) > 0 then StackEffect(i) else 0
  {
    assert [i][1..] == [];
  }

  lemma TwoPeak(i: Instr, j: Instr)
    requires StackEffect(i) == 0 && StackEffect(j) <= 0
    ensures TotalEffect([i, j]) == StackEffect(j) && Peak([i, j]) == 0
  {
    assert [i, j][1..] == [j];
    OnePeak(j);
  }

  lemma GuardedPeak(atom: Code, check: bool)
    requires TotalEffect(atom) == 0
    ensures Peak(Guarded(atom, check)) <= 1 + Peak(atom) && TotalEffect(Guarded(atom, check)) == 0
  {
    OnePeak(PushCharPos);
    OnePeak(CheckAdvance);
    hide Peak, TotalEffect;
    PeakWrap([PushCharPos], atom, [CheckAdvance], 1);
  }

  lemma QuantifierShape(atom: Code, cc: nat)
    ensures var body := Guarded(atom, NeedCheckAdvance(atom));
      QuantifierCode(atom, 2, INT32_MAX, false, cc, 0) ==
        ([PushI32(2)] + atom + [Loop(-(CodeSize(atom) + 5)), Drop]) +
        ([Split(false, CodeSize(body) + 5)] + body + [Goto(-(CodeSize(body) + 10))])
  {
    hide CodeSize, Guarded, NeedCheckAdvance;
  }

  /** One more quantifier, one more entry. */
  lemma QuantifierPeak(atom: Code, cc: nat)
    requires TotalEffect(atom) == 0
    ensures var code := QuantifierCode(atom, 2, INT32_MAX, false, cc, 0);
      Peak(code) <= 1 + Peak(atom) && TotalEffect(code) == 0
  {
    hide Peak, TotalEffect, Guarded, NeedCheckAdvance, CodeSize, QuantifierCode;
    var body := Guarded(atom, NeedCheckAdvance(atom));
    var split, back, loop := Split(false, CodeSize(body) + 5), Goto(-(CodeSize(body) + 10)), Loop(-(CodeSize(atom) + 5));
    GuardedPeak(atom, NeedCheckAdvance(atom));
    OnePeak(split);
    OnePeak(back);
    OnePeak(PushI32(2));
    TwoPeak(loop, Drop);
    QuantifierShape(atom, cc);
    PeakWrap([split], body, [back], 0);
    PeakWrap([PushI32(2)], atom, [loop, Drop], 1);
    PeakAppend([PushI32(2)] + atom + [loop, Drop], [split] + body + [back]);
    EffectAppend([PushI32(2)] + atom + [loop, Drop], [split] + body + [back]);
  }

  lemma {:induction false} NestedPeak(f: Flags, n: nat, cc: nat)
    ensures ValidTerm(Nested(n))
    ensures var code := TermCode(f, Nested(n), false, cc); Peak(code) <= n && TotalEffect(code) == 0
  {
    hide QuantifierCode;
    NestedValid(n);
    if n > 0 {
      NestedPeak(f, n - 1, cc);
      NestedValid(n - 1);
      GroupedValid(Nested(n - 1));
      GroupedCode(f, Nested(n - 1), cc);
      QuantifierPeak(TermCode(f, Nested(n - 1), false, cc), cc);
    } else {
      OnePeak(TestInstr(f, Dot));
    }
  }

  // --- the program ---

  lemma ProgramParts(f: Flags, d: Disjunction, sticky: bool)
    requires ValidDisjunction(d) && TotalEffect(DisjunctionCode(f, d, false, 1)) == 0
    ensures CodeSize(ProgramCode(f, d, sticky)) >= CodeSize(DisjunctionCode(f, d, false, 1))
    ensures MaxDepth(ProgramCode(f, d, sticky)) <= Peak(DisjunctionCode(f, d, false, 1))
  {
    var prefix := if sticky then [] else [Split(false, 6), AnyOp, Goto(-11)];
    var first, body, last := prefix + [SaveStart(0)], DisjunctionCode(f, d, false, 1), [SaveEnd(0), Match];
    assert [Split(false, 6), AnyOp, Goto(-11)] == [Split(false, 6)] + [AnyOp] + [Goto(-11)];
    OnePeak(Split(false, 6));
    OnePeak(AnyOp);
    OnePeak(Goto(-11));
    OnePeak(SaveStart(0));
    TwoPeak(SaveEnd(0), Match);
    PeakWrap([Split(false, 6)], [AnyOp], [Goto(-11)], 0);
    assert Peak(prefix) == 0 && TotalEffect(prefix) == 0;
    hide Peak, TotalEffect, DisjunctionCode, CodeSize, MaxDepthFrom;
    PeakAppend(prefix, [SaveStart(0)]);
    EffectAppend(prefix, [SaveStart(0)]);
    PeakWrap(first, body, last, 0);
    CodeSizeAppend(first + body, last);
    CodeSizeAppend(first, body);
    assert ProgramCode(f, d, sticky) == first + body + last;
    PeakBounds(first + body + last, 0, 0);
  }

  /** An expression that lre_compile cannot refuse, because it has few captures, no classes and a
      shallow stack and passes all size checks, but whose program has at least 2^n bytes: what
      lre_exec needs of the length of a program does not follow from its having been compiled. */
  lemma NestedQuantifiers(f: Flags, n: nat, sticky: bool)
    ensures var d := Only(Then(Empty, Nested(n)));
      ValidDisjunction(d) && DisjunctionCaptures(d) == 0 && DisjunctionFewRanges(d) && ProgramRoom(f, d, sticky) &&
      MaxDepth(ProgramCode(f, d, sticky)) <= n && CodeSize(ProgramCode(f, d, sticky)) >= Power(n)
  {
    var t := Nested(n);
    var d := Only(Then(Empty, t));
    NestedValid(n);
    GroupedValid(t);
    GroupedCode(f, t, 1);
    NestedDoubles(f, n, 1);
    NestedPeak(f, n, 1);
    NestedRoom(f, n, 1, RE_HEADER_LEN + (if sticky then 0 else 11) + 2);
    GroupedRoom(f, t, 1, RE_HEADER_LEN + (if sticky then 0 else 11) + 2);
    GroupedParts(f, d, 1, RE_HEADER_LEN + (if sticky then 0 else 11) + 2);
    hide Nested, TermCode, TermRoom, TermCaptures, FewRanges, Peak, CodeSize, TotalEffect, ProgramCode;
    ProgramParts(f, d, sticky);
  }

  lemma GroupedParts(f: Flags, d: Disjunction, cc: nat, size: nat)
    requires ValidTerm(Group(d)) && TermRoom(f, Group(d), false, cc, size) && FewRanges(Group(d))
    ensures ValidDisjunction(d) && DisjunctionRoom(f, d, false, cc, size) && DisjunctionFewRanges(d)
    ensures TermCode(f, Group(d), false, cc) == DisjunctionCode(f, d, false, cc) && TermCaptures(Group(d)) == DisjunctionCaptures(d)
  {
  }

  lemma EightMore(n: nat)
    ensures Power(n + 8) == 256 * Power(n)
  {
    assert Power(n + 2) == 4 * Power(n);
    assert Power(n + 4) == 4 * Power(n + 2);
    assert Power(n + 6) == 4 * Power(n + 4);
  }

  lemma Power31()
    ensures Power(31) == 0x8000_0000
  {
    EightMore(0);
    EightMore(8);
    EightMore(16);
    assert Power(27) == 8 * Power(24);
  }

  /** With 31 of them the program is too long for its 32-bit jumps to be trusted. */
  lemma NotSmall(f: Flags, sticky: bool)
    ensures var d := Only(Then(Empty, Nested(31)));
      ValidDisjunction(d) && 1 + DisjunctionCaptures(d) <= 255 && DisjunctionFewRanges(d) && ProgramRoom(f, d, sticky) &&
      MaxDepth(ProgramCode(f, d, sticky)) <= 255 && !Small(ProgramCode(f, d, sticky))
  {
    hide Nested, ProgramCode, MaxDepth, CodeSize, ProgramRoom, ValidDisjunction, DisjunctionCaptures, DisjunctionFewRanges;
    NestedQuantifiers(f, 31, sticky);
    Power31();
  }
}
