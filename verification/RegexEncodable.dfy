/** Compiled code fits the operand fields of its byte form, so the bytes decode to it. */
module RegexEncodable {
  import opened Words
  import opened RegexTerm
  import opened RegexCode
  import opened RegexBytes
  import opened RegexRanges
  import opened RegexQuantifier
  import opened RegexCorrect
  import opened RegexProgram

  /** No class has more ranges than re_emit_range accepts. */
  predicate FewRanges(t: Term) {
    match t
    case One(x) => x.Points? ==> |x.points| / 2 < 65535
    case Group(d) => DisjunctionFewRanges(d)
    case Capture(d) => DisjunctionFewRanges(d)
    case Look(_, _, d) => DisjunctionFewRanges(d)
    case Quantified(a, _, _, _) => FewRanges(a)
    case _ => true
  }

  predicate AlternativeFewRanges(a: Alternative) {
    match a
    case Empty => true
    case Then(init, last) => AlternativeFewRanges(init) && FewRanges(last)
  }

  predicate DisjunctionFewRanges(d: Disjunction) {
    match d
    case Only(a) => AlternativeFewRanges(a)
    case Or(l, a) => DisjunctionFewRanges(l) && AlternativeFewRanges(a)
  }

  predicate AllFit(code: Code) {
    forall k :: 0 <= k < |code| ==> Fits(code[k])
  }

  lemma FitAppend(a: Code, b: Code)
    requires AllFit(a) && AllFit(b)
    ensures AllFit(a + b)
  {
  }

  lemma FitOne(i: Instr)
    requires Fits(i)
    ensures AllFit([i])
  {
  }

  /** Code sizes below 2^31 keep every jump below 2^31. */
  predicate Small(code: Code) {
    CodeSize(code) + 16 < 0x8000_0000
  }

  lemma SmallParts(a: Code, b: Code)
    requires Small(a + b)
    ensures Small(a) && Small(b) && CodeSize(a + b) == CodeSize(a) + CodeSize(b)
  {
    CodeSizeAppend(a, b);
  }

  lemma {:induction false} CharCountBound(code: Code)
    ensures CharOpCount(code) <= CodeSize(code)
  {
    if code != [] {
      CharCountBound(code[1..]);
    }
  }

  lemma RangeFits(points: seq<nat>)
    requires CanonicalPoints(points) && points != [] && |points| / 2 < 65535
    ensures Fits(RangeInstr(points))
  {
    RangePairsAt(points, true);
    RangePairsAt(points, false);
    hide RangePairs, CanonicalPoints, FitsPairs, SortedRanges;
    if HighPoint(points) <= 0xffff {
      NarrowFits(points);
    } else {
      WideFits(points);
    }
  }

  lemma NarrowFits(points: seq<nat>)
    requires CanonicalPoints(points) && points != [] && |points| / 2 < 65535 && HighPoint(points) <= 0xffff
    ensures FitsPairs(RangePairs(points, false), false) && SortedRanges(RangePairs(points, false))
  {
    hide RangePairs, HighPoint, SortedRanges, FitsPairs, NarrowForm;
    var r := RangePairs(points, false);
    hide *;
    NarrowPairs(points);
    NarrowSorted(points, r);
    forall k | 0 <= k < |r| ensures 0 <= r[k].0 < 0x1_0000 && 0 <= r[k].1 < 0x1_0000 {
      NarrowPairBounds(points, r, k);
    }
    NarrowPairsFit(points, r);
  }

  lemma NarrowPairBounds(points: seq<nat>, r: seq<(int, int)>, k: nat)
    requires CanonicalPoints(points) && points != [] && HighPoint(points) <= 0xffff && NarrowForm(points, r) && k < |r|
    ensures 0 <= r[k].0 < 0x1_0000 && 0 <= r[k].1 < 0x1_0000
  {
    hide CanonicalPoints, HighPoint;
    NarrowBounds(points, k);
  }

  lemma NarrowPairsFit(points: seq<nat>, r: seq<(int, int)>)
    requires NarrowForm(points, r) && |points| / 2 < 65535
    requires forall k :: 0 <= k < |r| ==> 0 <= r[k].0 < 0x1_0000 && 0 <= r[k].1 < 0x1_0000
    ensures FitsPairs(r, false)
  {
  }

  lemma WideFits(points: seq<nat>)
    requires CanonicalPoints(points) && points != [] && |points| / 2 < 65535
    ensures FitsPairs(RangePairs(points, true), true) && SortedRanges(RangePairs(points, true))
  {
    RangePairsAt(points, true);
    hide RangePairs, SortedRanges;
    var r := RangePairs(points, true);
    forall k | 0 <= k < |r| ensures FitsWord(r[k].0) && FitsWord(r[k].1) && r[k] == (points[2 * k], points[2 * k + 1] as int - 1) {
      assert 0 <= points[2 * k] < points[2 * k + 1] <= UINT32_MAX;
    }
    WideSorted(points, r);
  }

  lemma NarrowSorted(points: seq<nat>, r: seq<(int, int)>)
    requires CanonicalPoints(points) && points != [] && HighPoint(points) <= 0xffff
    requires NarrowForm(points, r)
    ensures SortedRanges(r)
  {
    var n := |r|;
    assert points[2 * n - 2] <= 0xffff;
    forall k | 0 <= k < n ensures r[k].0 <= r[k].1 {
      assert points[2 * k] < points[2 * k + 1];
    }
    forall j, k | 0 <= j < k < n ensures r[j].1 < r[k].0 {
      assert points[2 * j + 1] < points[2 * k];
    }
  }

  lemma WideSorted(points: seq<nat>, r: seq<(int, int)>)
    requires CanonicalPoints(points) && points != [] && |points| == 2 * |r|
    requires forall k :: 0 <= k < |r| ==> r[k] == (points[2 * k], points[2 * k + 1] as int - 1)
    ensures SortedRanges(r)
  {
    forall k | 0 <= k < |r| ensures r[k].0 <= r[k].1 {
      assert points[2 * k] < points[2 * k + 1];
    }
    forall j, k | 0 <= j < k < |r| ensures r[j].1 < r[k].0 {
      assert points[2 * j + 1] < points[2 * k];
    }
  }

  /** In the 16-bit form all bounds but a final infinity fit 16 bits. */
  lemma NarrowBounds(points: seq<nat>, k: nat)
    requires CanonicalPoints(points) && 2 * k + 1 < |points| && HighPoint(points) <= 0xffff
    ensures 0 <= points[2 * k] <= 0xffff && 0 < points[2 * k + 1]
    ensures points[2 * k + 1] <= 0xffff || (2 * k + 1 == |points| - 1 && points[2 * k + 1] == UINT32_MAX)
  {
    var n := |points|;
    assert points[2 * k] < points[2 * k + 1];
    assert 2 * k + 1 < n - 1 ==> points[2 * k + 1] <= points[n - 2];
    assert 2 * k < n - 2 ==> points[2 * k] <= points[n - 2];
  }

  lemma TestFits(f: Flags, x: CharTest)
    requires ValidTest(x) && ValidFlags(f) && (x.Points? ==> |x.points| / 2 < 65535)
    ensures Fits(TestInstr(f, x))
  {
    match x
    case Exactly(c) => assert 0 <= f.canonicalize(c) <= 0x10FFFF;
    case Dot =>
    case Points(pts) =>
      if pts != [] {
        RangeFits(pts);
      }
  }

  lemma FitThree(first: Code, body: Code, last: Code)
    requires AllFit(first) && AllFit(body) && AllFit(last)
    ensures AllFit(first + body + last)
  {
  }

  lemma SmallThree(first: Code, body: Code, last: Code)
    requires Small(first + body + last)
    ensures CodeSize(body) + CodeSize(first) + CodeSize(last) + 16 < 0x8000_0000
  {
    SmallParts(first + body, last);
    SmallParts(first, body);
  }

  lemma StarFits(body: Code, greedy: bool)
    requires AllFit(body) && Small(StarCode(body, greedy))
    ensures AllFit(StarCode(body, greedy))
  {
    SmallThree([Split(greedy, CodeSize(body) + 5)], body, [Goto(-(CodeSize(body) + 10))]);
    hide CodeSize;
    FitOne(Split(greedy, CodeSize(body) + 5));
    FitOne(Goto(-(CodeSize(body) + 10)));
    FitThree([Split(greedy, CodeSize(body) + 5)], body, [Goto(-(CodeSize(body) + 10))]);
  }

  lemma UpToFits(body: Code, n: int, greedy: bool)
    requires AllFit(body) && Small(UpToCode(body, n, greedy)) && 0 <= n <= INT32_MAX
    ensures AllFit(UpToCode(body, n, greedy))
  {
    var first, last := [PushI32(n), Split(greedy, CodeSize(body) + 5)], [Loop(-(CodeSize(body) + 10)), Drop];
    SmallThree(first, body, last);
    hide CodeSize;
    assert AllFit(first) && AllFit(last);
    FitThree(first, body, last);
  }

  lemma RepeatFits(atom: Code, n: int)
    requires AllFit(atom) && Small(RepeatCode(atom, n)) && 0 <= n <= INT32_MAX
    ensures AllFit(RepeatCode(atom, n))
  {
    if n != 1 {
      var first, last := [PushI32(n)], [Loop(-(CodeSize(atom) + 5)), Drop];
      SmallThree(first, atom, last);
      hide CodeSize;
      assert AllFit(first) && AllFit(last);
      FitThree(first, atom, last);
    }
  }

  lemma GuardedFits(atom: Code, check: bool)
    requires AllFit(atom)
    ensures AllFit(Guarded(atom, check))
  {
    FitThree([PushCharPos], atom, [CheckAdvance]);
  }

  lemma ZeroMinFits(atom: Code, max: int, greedy: bool)
    requires max > 0 ==> AllFit(atom)
    requires 0 <= max <= INT32_MAX && Small(ZeroMinCode(atom, max, greedy))
    ensures AllFit(ZeroMinCode(atom, max, greedy))
  {
    hide CodeSize, NeedCheckAdvance, StarCode, UpToCode;
    if max > 0 {
      var body := Guarded(atom, NeedCheckAdvance(atom));
      GuardedFits(atom, NeedCheckAdvance(atom));
      if max == 1 {
        SmallParts([Split(greedy, CodeSize(body))], body);
        FitOne(Split(greedy, CodeSize(body)));
        FitAppend([Split(greedy, CodeSize(body))], body);
      } else if max == INT32_MAX {
        StarFits(body, greedy);
      } else {
        UpToFits(body, max, greedy);
      }
    }
  }

  lemma FurtherFits(atom: Code, min: int, max: int, greedy: bool)
    requires AllFit(atom) && 0 <= min <= max <= INT32_MAX && Small(FurtherCode(atom, min, max, greedy))
    ensures AllFit(FurtherCode(atom, min, max, greedy))
  {
    hide CodeSize, NeedCheckAdvance, StarCode, UpToCode;
    var body := Guarded(atom, NeedCheckAdvance(atom));
    GuardedFits(atom, NeedCheckAdvance(atom));
    if max == INT32_MAX {
      StarFits(body, greedy);
    } else if max > min {
      UpToFits(body, max - min, greedy);
    }
  }

  lemma QuantifierFits(atom: Code, min: int, max: int, greedy: bool, cc: nat, captures: nat)
    requires max > 0 ==> AllFit(atom)
    requires 0 <= min <= max <= INT32_MAX && cc + captures <= 255
    requires Small(QuantifierCode(atom, min, max, greedy, cc, captures))
    ensures AllFit(QuantifierCode(atom, min, max, greedy, cc, captures))
  {
    hide CodeSize, NeedCheckAdvance, RepeatCode, ZeroMinCode, FurtherCode, CharOpCount, AllSimple, QuantifierCode;
    QuantifierCodeCases(atom, min, max, greedy, cc, captures);
    if greedy && max > 0 && SimpleQuantifier(atom) > 0 {
      var i := SimpleGreedyQuant(CodeSize(atom) + 1, min, max, SimpleQuantifier(atom));
      SmallParts([i], atom + [Match]);
      SmallParts(atom, [Match]);
      CharCountBound(atom);
      FitOne(i);
      FitOne(Match);
      FitAppend(atom, [Match]);
      FitAppend([i], atom + [Match]);
    } else if min == 0 {
      SmallParts(ResetCode(cc, captures), ZeroMinCode(atom, max, greedy));
      ZeroMinFits(atom, max, greedy);
      if captures > 0 { FitOne(SaveReset(cc, cc + captures - 1)); }
      FitAppend(ResetCode(cc, captures), ZeroMinCode(atom, max, greedy));
    } else if min == 1 && max == INT32_MAX && !NeedCheckAdvance(atom) {
      var last := Split(!greedy, -(CodeSize(atom) + 5));
      SmallParts(atom, [last]);
      FitOne(last);
      FitAppend(atom, [last]);
    } else {
      SmallParts(RepeatCode(atom, min), FurtherCode(atom, min, max, greedy));
      RepeatFits(atom, min);
      FurtherFits(atom, min, max, greedy);
      FitAppend(RepeatCode(atom, min), FurtherCode(atom, min, max, greedy));
    }
  }

  /** The code of a repeated atom is part of the code of the quantifier. */
  lemma AtomSmall(atom: Code, min: int, max: int, greedy: bool, cc: nat, captures: nat)
    requires 0 <= min <= max <= INT32_MAX && max > 0
    requires Small(QuantifierCode(atom, min, max, greedy, cc, captures))
    ensures Small(atom)
  {
    hide CodeSize, NeedCheckAdvance, CharOpCount, AllSimple, QuantifierCode, Guarded;
    QuantifierCodeCases(atom, min, max, greedy, cc, captures);
    var body := Guarded(atom, NeedCheckAdvance(atom));
    GuardedSize(atom, NeedCheckAdvance(atom));
    if greedy && max > 0 && SimpleQuantifier(atom) > 0 {
      SmallParts([SimpleGreedyQuant(CodeSize(atom) + 1, min, max, SimpleQuantifier(atom))], atom + [Match]);
      SmallParts(atom, [Match]);
    } else if min == 0 {
      SmallParts(ResetCode(cc, captures), ZeroMinCode(atom, max, greedy));
      if max == 1 {
        SmallParts([Split(greedy, CodeSize(body))], body);
      } else if max == INT32_MAX {
        SmallThree([Split(greedy, CodeSize(body) + 5)], body, [Goto(-(CodeSize(body) + 10))]);
      } else {
        SmallThree([PushI32(max), Split(greedy, CodeSize(body) + 5)], body, [Loop(-(CodeSize(body) + 10)), Drop]);
      }
    } else if min == 1 && max == INT32_MAX && !NeedCheckAdvance(atom) {
      SmallParts(atom, [Split(!greedy, -(CodeSize(atom) + 5))]);
    } else {
      SmallParts(RepeatCode(atom, min), FurtherCode(atom, min, max, greedy));
      if min != 1 {
        SmallThree([PushI32(min)], atom, [Loop(-(CodeSize(atom) + 5)), Drop]);
      }
    }
  }

  lemma {:induction false} TermFits(f: Flags, t: Term, back: bool, cc: nat)
    requires ValidTerm(t) && ValidFlags(f) && FewRanges(t) && cc + TermCaptures(t) <= 255
    requires Small(TermCode(f, t, back, cc))
    ensures AllFit(TermCode(f, t, back, cc))
    decreases t
  {
    hide CodeSize, QuantifierCode, AllFit, Small, ValidFlags;
    match t
    case One(x) =>
      TestFits(f, x);
      FitOne(Prev);
      FitOne(TestInstr(f, x));
      FitThree([Prev], [TestInstr(f, x)], [Prev]);
      assert [Prev] + [TestInstr(f, x)] + [Prev] == [Prev, TestInstr(f, x), Prev];
    case LineStart => FitOne(LineStartOp);
    case LineEnd => FitOne(LineEndOp);
    case WordBoundary(neg) => FitOne(WordBoundaryOp(neg));
    case Group(d) => DisjunctionFits(f, d, back, cc);
    case Capture(d) =>
      var body := DisjunctionCode(f, d, back, cc + 1);
      var first, last := if back then SaveEnd(cc) else SaveStart(cc), if back then SaveStart(cc) else SaveEnd(cc);
      SmallParts([first] + body, [last]);
      SmallParts([first], body);
      DisjunctionFits(f, d, back, cc + 1);
      FitOne(first);
      FitOne(last);
      FitThree([first], body, [last]);
    case BackReference(i) => FitOne(BackRef(back, i));
    case Look(neg, b, d) =>
      var body := DisjunctionCode(f, d, b, cc);
      var first := Lookahead(neg, CodeSize(body) + 1);
      SmallParts([first] + body, [Match]);
      SmallParts([first], body);
      SmallSize(body);
      DisjunctionFits(f, d, b, cc);
      FitOne(first);
      FitOne(Match);
      FitThree([first], body, [Match]);
    case Quantified(a, min, max, greedy) =>
      var atom := TermCode(f, a, back, cc);
      if max > 0 {
        AtomSmall(atom, min, max, greedy, cc, TermCaptures(a));
        TermFits(f, a, back, cc);
      }
      QuantifierFits(atom, min, max, greedy, cc, TermCaptures(a));
  }

  lemma SmallSize(code: Code)
    requires Small(code)
    ensures CodeSize(code) + 16 < 0x8000_0000
  {
  }

  lemma {:induction false} AlternativeFits(f: Flags, a: Alternative, back: bool, cc: nat)
    requires ValidAlternative(a) && ValidFlags(f) && AlternativeFewRanges(a) && cc + AlternativeCaptures(a) <= 255
    requires Small(AlternativeCode(f, a, back, cc))
    ensures AllFit(AlternativeCode(f, a, back, cc))
    decreases a
  {
    hide CodeSize, Small, ValidFlags, TermCode;
    match a
    case Empty =>
    case Then(init, last) =>
      var first := AlternativeCode(f, init, back, cc);
      var term := TermCode(f, last, back, cc + AlternativeCaptures(init));
      if back { SmallParts(term, first); } else { SmallParts(first, term); }
      AlternativeFits(f, init, back, cc);
      TermFits(f, last, back, cc + AlternativeCaptures(init));
      FitAppend(first, term);
      FitAppend(term, first);
  }

  lemma {:induction false} DisjunctionFits(f: Flags, d: Disjunction, back: bool, cc: nat)
    requires ValidDisjunction(d) && ValidFlags(f) && DisjunctionFewRanges(d) && cc + DisjunctionCaptures(d) <= 255
    requires Small(DisjunctionCode(f, d, back, cc))
    ensures AllFit(DisjunctionCode(f, d, back, cc))
    decreases d
  {
    hide CodeSize, Small, ValidFlags, AlternativeCode, AllFit;
    match d
    case Only(a) => AlternativeFits(f, a, back, cc);
    case Or(l, a) =>
      var left := DisjunctionCode(f, l, back, cc);
      var right := AlternativeCode(f, a, back, cc + DisjunctionCaptures(l));
      var first, mid := Split(true, CodeSize(left) + 5), Goto(CodeSize(right));
      SmallParts([first] + left + [mid], right);
      SmallParts([first] + left, [mid]);
      SmallParts([first], left);
      SmallSize(left);
      SmallSize(right);
      SmallSize([first] + left + [mid]);
      DisjunctionFits(f, l, back, cc);
      AlternativeFits(f, a, back, cc + DisjunctionCaptures(l));
      FitOne(first);
      FitOne(mid);
      FitThree([first], left, [mid]);
      FitAppend([first] + left + [mid], right);
  }

  /** The program of a valid expression fits its byte form if it is shorter than 2^31 bytes. */
  lemma ProgramFits(f: Flags, d: Disjunction, sticky: bool)
    requires ValidDisjunction(d) && ValidFlags(f) && DisjunctionFewRanges(d) && 1 + DisjunctionCaptures(d) <= 255
    requires Small(ProgramCode(f, d, sticky))
    ensures AllFit(ProgramCode(f, d, sticky))
  {
    hide CodeSize, Small, ValidFlags, TermCode, AllFit;
    var core := TermCode(f, Capture(d), false, 0);
    ProgramParts(f, d, sticky);
    if !sticky { SmallParts(SearchPrefix, core + [Match]); }
    SmallParts(core, [Match]);
    TermFits(f, Capture(d), false, 0);
    FitOne(Match);
    FitAppend(core, [Match]);
    FitOne(Split(false, 6));
    FitOne(AnyOp);
    FitOne(Goto(-11));
    FitThree([Split(false, 6)], [AnyOp], [Goto(-11)]);
    assert SearchPrefix == [Split(false, 6)] + [AnyOp] + [Goto(-11)];
    FitAppend(SearchPrefix, core + [Match]);
  }

  // --- the bytes of a program decode to its layout ---

  lemma {:induction false} BytesDecode(bc: Bytes, code: Code, pc: int, k: int)
    requires Stands(bc, pc, EncodeAll(code)) && AllFit(code) && k in Layout(code, pc)
    ensures Decode(bc, k) == Instruction(Layout(code, pc)[k])
    decreases |code|
  {
    hide Stands, Fits, Encode, Decode;
    var i, rest := code[0], code[1..];
    StandsAppend(bc, pc, Encode(i), EncodeAll(rest));
    EncodeSize(i);
    if k == pc {
      DecodeEncoded(bc, pc, i);
    } else {
      BytesDecode(bc, rest, pc + InstrSize(i), k);
    }
  }
}
