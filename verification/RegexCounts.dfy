/** The range counts of compiled code fit their field, so the scans can step over classes. */
module RegexCounts {
  import opened Words
  import opened RegexTerm
  import opened RegexCode
  import opened RegexRanges
  import opened RegexCorrect
  import opened RegexEncodable
  import opened RegexScan

  lemma CountsAppend(a: Code, b: Code)
    requires RangeCountsFit(a) && RangeCountsFit(b)
    ensures RangeCountsFit(a + b)
  {
  }

  lemma CountsPlain(code: Code)
    requires forall k :: 0 <= k < |code| ==> !code[k].Range? && !code[k].Range32?
    ensures RangeCountsFit(code)
  {
  }

  lemma CountsWrap(first: Code, body: Code, last: Code)
    requires forall k :: 0 <= k < |first| ==> !first[k].Range? && !first[k].Range32?
    requires forall k :: 0 <= k < |last| ==> !last[k].Range? && !last[k].Range32?
    requires RangeCountsFit(body)
    ensures RangeCountsFit(first + body + last)
  {
    CountsPlain(first);
    CountsPlain(last);
    CountsAppend(first, body);
    CountsAppend(first + body, last);
  }

  lemma LoopsCounts(body: Code, n: int, greedy: bool)
    requires RangeCountsFit(body)
    ensures RangeCountsFit(StarCode(body, greedy)) && RangeCountsFit(UpToCode(body, n, greedy))
    ensures RangeCountsFit(RepeatCode(body, n)) && RangeCountsFit([Split(greedy, CodeSize(body))] + body)
    ensures RangeCountsFit(body + [Split(!greedy, -(CodeSize(body) + 5))])
  {
    hide RangeCountsFit, CodeSize;
    var s: int := CodeSize(body);
    CountsWrap([Split(greedy, s + 5)], body, [Goto(-(s + 10))]);
    CountsWrap([PushI32(n), Split(greedy, s + 5)], body, [Loop(-(s + 10)), Drop]);
    CountsWrap([PushI32(n)], body, [Loop(-(s + 5)), Drop]);
    CountsPlain([Split(greedy, s)]);
    CountsAppend([Split(greedy, s)], body);
    CountsPlain([Split(!greedy, -(s + 5))]);
    CountsAppend(body, [Split(!greedy, -(s + 5))]);
  }

  lemma QuantifierCounts(atom: Code, min: int, max: int, greedy: bool, cc: nat, captures: nat)
    requires RangeCountsFit(atom) && 0 <= min <= max <= INT32_MAX
    ensures RangeCountsFit(QuantifierCode(atom, min, max, greedy, cc, captures))
  {
    hide RangeCountsFit, CodeSize, NeedCheckAdvance, SimpleQuantifier, StarCode, UpToCode, RepeatCode, QuantifierCode;
    var body := Guarded(atom, NeedCheckAdvance(atom));
    CountsWrap([PushCharPos], atom, [CheckAdvance]);
    LoopsCounts(body, max, greedy);
    LoopsCounts(body, max - min, greedy);
    LoopsCounts(atom, min, greedy);
    CountsPlain([]);
    CountsPlain(ResetCode(cc, captures));
    CountsAppend(ResetCode(cc, captures), ZeroMinCode(atom, max, greedy));
    CountsAppend(RepeatCode(atom, min), FurtherCode(atom, min, max, greedy));
    var i := SimpleGreedyQuant(CodeSize(atom) + 1, min, max, SimpleQuantifier(atom));
    CountsWrap([i], atom, [Match]);
    assert [i] + atom + [Match] == [i] + (atom + [Match]);
    QuantifierCodeCases(atom, min, max, greedy, cc, captures);
  }

  lemma {:induction false} TermCounts(f: Flags, t: Term, back: bool, cc: nat)
    requires ValidTerm(t) && FewRanges(t)
    ensures RangeCountsFit(TermCode(f, t, back, cc))
    decreases t
  {
    hide QuantifierCode, CodeSize, RangeCountsFit, ValidTest;
    match t
    case One(x) => TestCounts(f, x, back);
    case Group(d) => DisjunctionCounts(f, d, back, cc);
    case Capture(d) =>
      DisjunctionCounts(f, d, back, cc + 1);
      var body := DisjunctionCode(f, d, back, cc + 1);
      if back { CountsWrap([SaveEnd(cc)], body, [SaveStart(cc)]); } else { CountsWrap([SaveStart(cc)], body, [SaveEnd(cc)]); }
    case Look(neg, b, d) =>
      DisjunctionCounts(f, d, b, cc);
      var body := DisjunctionCode(f, d, b, cc);
      CountsWrap([Lookahead(neg, CodeSize(body) + 1)], body, [Match]);
    case Quantified(a, min, max, greedy) =>
      TermCounts(f, a, back, cc);
      QuantifierCounts(TermCode(f, a, back, cc), min, max, greedy, cc, TermCaptures(a));
    case _ => CountsPlain(TermCode(f, t, back, cc));
  }

  lemma TestCounts(f: Flags, x: CharTest, back: bool)
    requires ValidTest(x) && (x.Points? ==> |x.points| / 2 < 65535)
    ensures RangeCountsFit([TestInstr(f, x)]) && RangeCountsFit([Prev, TestInstr(f, x), Prev])
  {
    if x.Points? {
      RangePairsAt(x.points, false);
      RangePairsAt(x.points, true);
    }
    var i := TestInstr(f, x);
    hide TestInstr, ValidTest;
    CountsPlain([Prev]);
    CountsWrap([Prev], [i], [Prev]);
    assert [Prev] + [i] + [Prev] == [Prev, i, Prev];
    hide RangeCountsFit;
  }

  lemma {:induction false} AlternativeCounts(f: Flags, a: Alternative, back: bool, cc: nat)
    requires ValidAlternative(a) && AlternativeFewRanges(a)
    ensures RangeCountsFit(AlternativeCode(f, a, back, cc))
    decreases a
  {
    hide RangeCountsFit, TermCode;
    match a
    case Empty => CountsPlain([]);
    case Then(init, last) =>
      var first := AlternativeCode(f, init, back, cc);
      var term := TermCode(f, last, back, cc + AlternativeCaptures(init));
      AlternativeCounts(f, init, back, cc);
      TermCounts(f, last, back, cc + AlternativeCaptures(init));
      CountsAppend(first, term);
      CountsAppend(term, first);
  }

  lemma {:induction false} DisjunctionCounts(f: Flags, d: Disjunction, back: bool, cc: nat)
    requires ValidDisjunction(d) && DisjunctionFewRanges(d)
    ensures RangeCountsFit(DisjunctionCode(f, d, back, cc))
    decreases d
  {
    hide RangeCountsFit, CodeSize, AlternativeCode;
    match d
    case Only(a) => AlternativeCounts(f, a, back, cc);
    case Or(l, a) =>
      var left := DisjunctionCode(f, l, back, cc);
      var right := AlternativeCode(f, a, back, cc + DisjunctionCaptures(l));
      DisjunctionCounts(f, l, back, cc);
      AlternativeCounts(f, a, back, cc + DisjunctionCaptures(l));
      CountsWrap([Split(true, CodeSize(left) + 5)], left, [Goto(CodeSize(right))]);
      CountsAppend([Split(true, CodeSize(left) + 5)] + left + [Goto(CodeSize(right))], right);
  }
}
