/** Compiler correctness: the machine running the emitted code of a regular expression
    stops, and its verdict and captures are those of the reference matcher. */
module RegexCorrect {
  import opened Words
  import opened RegexTerm
  import opened RegexCode
  import opened RegexMatcher
  import opened RegexMachine
  import opened RegexEnumerates
  import opened RegexInvariants
  import opened RegexGreedy
  import opened RegexGreedyQuant
  import opened RegexQuantifier
  import opened RegexSimulation

  // --- quantifiers: the cases of QuantifierCode ---

  lemma ZeroMinYields(m: Machine, pc: int, a: Term, max: int, greedy: bool, back: bool, cc: nat, stack: seq<int>, o: Outcome)
    requires ValidTerm(a) && TermRuns(m, a, back, cc) && Ready(m.env, o) && 0 <= max <= INT32_MAX
    requires Holds(m, pc, ZeroMinCode(TermCode(m.env.flags, a, back, cc), max, greedy))
    ensures Yields(m, pc, stack, o, Optional(m.env, a, max, greedy, back, cc, o),
      pc + CodeSize(ZeroMinCode(TermCode(m.env.flags, a, back, cc), max, greedy)), stack)
  {
    hide Yields, TermRuns, TermOutcomes, Holds, Guarded, TermCode, Optional, NeedCheckAdvance, CodeSize, StarCode, UpToCode;
    var atom := TermCode(m.env.flags, a, back, cc);
    var body := Guarded(atom, NeedCheckAdvance(atom));
    if max == 0 {
      OptionalNone(m.env, a, greedy, back, cc, o);
      NoSize();
      YieldsSelf(m, pc, stack, o);
    } else if max == 1 {
      CodeSizeAppend([Split(greedy, CodeSize(body))], body);
      OneSize(Split(greedy, CodeSize(body)));
      AtMostOneYields(m, pc, a, greedy, back, cc, o, stack);
    } else if max == INT32_MAX {
      StarLayout(m, pc, body, greedy);
      StarYields(m, pc, a, greedy, back, cc, o, stack);
    } else {
      UpToLayout(m, pc, body, max, greedy);
      UpToYields(m, pc, a, max, greedy, back, cc, o, stack);
    }
  }

  lemma NoSize()
    ensures CodeSize([]) == 0
  {
  }

  lemma FurtherYields(m: Machine, pc: int, a: Term, min: int, max: int, greedy: bool, back: bool, cc: nat, stack: seq<int>, o: Outcome)
    requires ValidTerm(a) && TermRuns(m, a, back, cc) && Ready(m.env, o) && 1 <= min <= max <= INT32_MAX
    requires Holds(m, pc, FurtherCode(TermCode(m.env.flags, a, back, cc), min, max, greedy))
    ensures Yields(m, pc, stack, o, Optional(m.env, a, Further(min, max), greedy, back, cc, o),
      pc + CodeSize(FurtherCode(TermCode(m.env.flags, a, back, cc), min, max, greedy)), stack)
  {
    hide Yields, TermRuns, TermOutcomes, Holds, Guarded, TermCode, Optional, NeedCheckAdvance, CodeSize, StarCode, UpToCode;
    var atom := TermCode(m.env.flags, a, back, cc);
    var body := Guarded(atom, NeedCheckAdvance(atom));
    if max == INT32_MAX {
      StarLayout(m, pc, body, greedy);
      StarYields(m, pc, a, greedy, back, cc, o, stack);
    } else if max > min {
      UpToLayout(m, pc, body, max - min, greedy);
      UpToYields(m, pc, a, max - min, greedy, back, cc, o, stack);
    } else {
      OptionalNone(m.env, a, greedy, back, cc, o);
      NoSize();
      YieldsSelf(m, pc, stack, o);
    }
  }

  lemma ResetYields(m: Machine, pc: int, a: Term, cc: nat, stack: seq<int>, o: Outcome, outs: Outcomes, exit: int, stackOut: seq<int>)
    requires cc + TermCaptures(a) <= m.env.captureCount
    requires Holds(m, pc, ResetCode(cc, TermCaptures(a)))
    requires Yields(m, pc + CodeSize(ResetCode(cc, TermCaptures(a))), stack, Reset(a, cc, o), outs, exit, stackOut)
    ensures Yields(m, pc, stack, o, outs, exit, stackOut)
  {
    hide Yields;
    if TermCaptures(a) > 0 {
      var i := SaveReset(cc, cc + TermCaptures(a) - 1);
      HoldsOne(m, pc, i);
      OneSize(i);
      YieldsStep(m, pc, stack, o, outs, exit, stackOut, pc + 3, stack, Reset(a, cc, o));
    }
  }

  lemma ResetReady(env: Env, a: Term, cc: nat, o: Outcome)
    requires Ready(env, o)
    ensures Ready(env, Reset(a, cc, o))
  {
  }

  lemma {:induction false} ZeroMinOutcomes(env: Env, a: Term, max: int, greedy: bool, back: bool, cc: nat, o: Outcome)
    requires InText(env, o.pos)
    ensures TermOutcomes(env, Quantified(a, 0, max, greedy), back, cc, o) ==
      Optional(env, a, max, greedy, back, cc, Reset(a, cc, o))
  {
    QuantifiedParts(env, a, 0, max, greedy, back, cc, o);
    var o1 := Reset(a, cc, o);
    MandatoryNone(env, a, back, cc, o1);
    FlattenOne(AfterMandatory(env, a, 0, max, greedy, back, cc, [o1]));
    hide *;
  }

  lemma QuantifierZero(m: Machine, pc: int, a: Term, max: int, greedy: bool, back: bool, cc: nat, stack: seq<int>, o: Outcome)
    requires ValidTerm(a) && TermRuns(m, a, back, cc) && Ready(m.env, o) && 0 <= max <= INT32_MAX
    requires cc + TermCaptures(a) <= m.env.captureCount
    requires var atom := TermCode(m.env.flags, a, back, cc);
      Holds(m, pc, ResetCode(cc, TermCaptures(a)) + ZeroMinCode(atom, max, greedy))
    ensures var code := ResetCode(cc, TermCaptures(a)) + ZeroMinCode(TermCode(m.env.flags, a, back, cc), max, greedy);
      Yields(m, pc, stack, o, TermOutcomes(m.env, Quantified(a, 0, max, greedy), back, cc, o), pc + CodeSize(code), stack)
  {
    hide Yields, TermRuns, TermOutcomes, Holds, TermCode, Optional, CodeSize, ZeroMinCode, ResetCode, Reset;
    var reset := ResetCode(cc, TermCaptures(a));
    var rest := ZeroMinCode(TermCode(m.env.flags, a, back, cc), max, greedy);
    var o1 := Reset(a, cc, o);
    ZeroMinOutcomes(m.env, a, max, greedy, back, cc, o);
    CodeSizeAppend(reset, rest);
    HoldsAppend(m, pc, reset, rest);
    ResetReady(m.env, a, cc, o);
    ZeroMinYields(m, pc + CodeSize(reset), a, max, greedy, back, cc, stack, o1);
    ResetYields(m, pc, a, cc, stack, o, Optional(m.env, a, max, greedy, back, cc, o1), pc + CodeSize(reset + rest), stack);
  }

  lemma MandatoryReady(env: Env, a: Term, n: nat, back: bool, cc: nat, o: Outcome, k: nat)
    requires Ready(env, o) && k < |Mandatory(env, a, n, back, cc, o)|
    ensures Ready(env, Mandatory(env, a, n, back, cc, o)[k])
  {
    hide Mandatory, TermOutcomes;
    MandatoryGood(env, a, n, back, cc, o);
    GoodAt(env, back, o.pos, Mandatory(env, a, n, back, cc, o), k);
  }

  lemma QuantifierRepeat(m: Machine, pc: int, a: Term, min: nat, max: int, greedy: bool, back: bool, cc: nat, stack: seq<int>, o: Outcome)
    requires ValidTerm(a) && TermRuns(m, a, back, cc) && Ready(m.env, o) && 1 <= min <= max <= INT32_MAX
    requires var atom := TermCode(m.env.flags, a, back, cc);
      Holds(m, pc, RepeatCode(atom, min) + FurtherCode(atom, min, max, greedy))
    ensures var atom := TermCode(m.env.flags, a, back, cc);
      Yields(m, pc, stack, o, TermOutcomes(m.env, Quantified(a, min, max, greedy), back, cc, o),
        pc + CodeSize(RepeatCode(atom, min) + FurtherCode(atom, min, max, greedy)), stack)
  {
    hide Yields, TermRuns, TermOutcomes, Holds, TermCode, Optional, Mandatory, CodeSize, FurtherCode, RepeatCode, Flatten;
    var atom := TermCode(m.env.flags, a, back, cc);
    var first, rest := RepeatCode(atom, min), FurtherCode(atom, min, max, greedy);
    var outs := Mandatory(m.env, a, min, back, cc, o);
    var fs := AfterMandatory(m.env, a, min, max, greedy, back, cc, outs);
    var mid, exit := pc + CodeSize(first), pc + CodeSize(first + rest);
    CodeSizeAppend(first, rest);
    HoldsAppend(m, pc, first, rest);
    RepeatYields(m, pc, a, min, back, cc, o, stack);
    forall k | 0 <= k < |outs| ensures Yields(m, mid, stack, outs[k], fs[k], exit, stack) {
      MandatoryReady(m.env, a, min, back, cc, o, k);
      FurtherYields(m, mid, a, min, max, greedy, back, cc, stack, outs[k]);
    }
    YieldsBind(m, pc, stack, o, outs, fs, mid, stack, exit, stack);
    QuantifiedParts(m.env, a, min, max, greedy, back, cc, o);
  }

  lemma QuantifierPlus(m: Machine, pc: int, a: Term, greedy: bool, back: bool, cc: nat, stack: seq<int>, o: Outcome)
    requires ValidTerm(a) && TermRuns(m, a, back, cc) && Ready(m.env, o)
    requires var atom := TermCode(m.env.flags, a, back, cc);
      !NeedCheckAdvance(atom) && Holds(m, pc, atom + [Split(!greedy, -(CodeSize(atom) + 5))])
    ensures var atom := TermCode(m.env.flags, a, back, cc);
      Yields(m, pc, stack, o, TermOutcomes(m.env, Quantified(a, 1, INT32_MAX, greedy), back, cc, o),
        pc + CodeSize(atom + [Split(!greedy, -(CodeSize(atom) + 5))]), stack)
  {
    hide Yields, TermRuns, TermOutcomes, Holds, TermCode, Optional, Mandatory, CodeSize, Flatten, NeedCheckAdvance;
    var atom := TermCode(m.env.flags, a, back, cc);
    var outs := TermOutcomes(m.env, a, back, cc, o);
    var fs := AfterMandatory(m.env, a, 1, INT32_MAX, greedy, back, cc, outs);
    var mid, exit := pc + CodeSize(atom), pc + CodeSize(atom) + 5;
    SplitSize(!greedy, -(CodeSize(atom) + 5));
    TailLayout(m, pc, atom, Split(!greedy, -(CodeSize(atom) + 5)));
    TermRunsAt(m, a, back, cc, pc, stack, o);
    forall k | 0 <= k < |outs| ensures Yields(m, mid, stack, outs[k], fs[k], exit, stack) {
      OutcomeReady(m.env, a, back, cc, o, k);
      PlusTailYields(m, pc, a, greedy, back, cc, outs[k], stack);
    }
    YieldsBind(m, pc, stack, o, outs, fs, mid, stack, exit, stack);
    RepeatOnce(m.env, a, back, cc, o);
    QuantifiedParts(m.env, a, 1, INT32_MAX, greedy, back, cc, o);
  }

  lemma QuantifierCodeCases(atom: Code, min: int, max: int, greedy: bool, cc: nat, captures: nat)
    requires 0 <= min <= max <= INT32_MAX
    ensures QuantifierCode(atom, min, max, greedy, cc, captures) ==
      if greedy && max > 0 && SimpleQuantifier(atom) > 0 then
        [SimpleGreedyQuant(CodeSize(atom) + 1, min, max, SimpleQuantifier(atom))] + (atom + [Match])
      else if min == 0 then ResetCode(cc, captures) + ZeroMinCode(atom, max, greedy)
      else if min == 1 && max == INT32_MAX && !NeedCheckAdvance(atom) then atom + [Split(!greedy, -(CodeSize(atom) + 5))]
      else RepeatCode(atom, min) + FurtherCode(atom, min, max, greedy)
  {
    hide CodeSize, SimpleQuantifier, NeedCheckAdvance, ResetCode, ZeroMinCode, RepeatCode, FurtherCode;
  }

  lemma QuantifierYields(m: Machine, pc: int, a: Term, min: nat, max: int, greedy: bool, back: bool, cc: nat, stack: seq<int>, o: Outcome)
    requires ValidTerm(a) && TermRuns(m, a, back, cc) && Ready(m.env, o) && 0 <= min <= max <= INT32_MAX
    requires cc + TermCaptures(a) <= m.env.captureCount
    requires Holds(m, pc, QuantifierCode(TermCode(m.env.flags, a, back, cc), min, max, greedy, cc, TermCaptures(a)))
    ensures Yields(m, pc, stack, o, TermOutcomes(m.env, Quantified(a, min, max, greedy), back, cc, o),
      pc + CodeSize(QuantifierCode(TermCode(m.env.flags, a, back, cc), min, max, greedy, cc, TermCaptures(a))), stack)
  {
    hide Yields, TermRuns, TermOutcomes, Holds, TermCode, CodeSize, QuantifierCode, SimpleQuantifier, NeedCheckAdvance,
      ResetCode, ZeroMinCode, RepeatCode, FurtherCode;
    var atom := TermCode(m.env.flags, a, back, cc);
    QuantifierCodeCases(atom, min, max, greedy, cc, TermCaptures(a));
    if greedy && max > 0 && SimpleQuantifier(atom) > 0 {
      if back {
        BackwardNotSimple(m.env.flags, a, cc);
      }
      SimpleGreedyYields(m, pc, a, min, max, cc, o, stack);
      var i := SimpleGreedyQuant(CodeSize(atom) + 1, min, max, SimpleQuantifier(atom));
      CodeSizeAppend([i], atom + [Match]);
      CodeSizeAppend(atom, [Match]);
      OneSize(i);
      OneSize(Match);
    } else if min == 0 {
      QuantifierZero(m, pc, a, max, greedy, back, cc, stack, o);
    } else if min == 1 && max == INT32_MAX && !NeedCheckAdvance(atom) {
      QuantifierPlus(m, pc, a, greedy, back, cc, stack, o);
    } else {
      QuantifierRepeat(m, pc, a, min, max, greedy, back, cc, stack, o);
    }
  }

  // --- sequences and alternatives ---

  /** Two pieces of code in sequence. */
  lemma SequenceYields(m: Machine, pc: int, a: Code, b: Code, o: Outcome, outs: Outcomes, fs: seq<Outcomes>, stack: seq<int>)
    requires Holds(m, pc, a + b) && |fs| == |outs|
    requires Yields(m, pc, stack, o, outs, pc + CodeSize(a), stack)
    requires forall k :: 0 <= k < |outs| ==> Yields(m, pc + CodeSize(a), stack, outs[k], fs[k], pc + CodeSize(a) + CodeSize(b), stack)
    ensures Yields(m, pc, stack, o, Flatten(fs), pc + CodeSize(a + b), stack)
  {
    hide Yields, Holds, CodeSize, Flatten;
    CodeSizeAppend(a, b);
    YieldsBind(m, pc, stack, o, outs, fs, pc + CodeSize(a), stack, pc + CodeSize(a + b), stack);
  }

  lemma OrLayout(m: Machine, pc: int, left: Code, right: Code)
    requires Holds(m, pc, [Split(true, CodeSize(left) + 5)] + left + [Goto(CodeSize(right))] + right)
    ensures pc in m.program && m.program[pc] == Split(true, CodeSize(left) + 5)
    ensures Holds(m, pc + 5, left)
    ensures var mid := pc + 5 + CodeSize(left); mid in m.program && m.program[mid] == Goto(CodeSize(right))
    ensures Holds(m, pc + 10 + CodeSize(left), right)
    ensures CodeSize([Split(true, CodeSize(left) + 5)] + left + [Goto(CodeSize(right))] + right) ==
      10 + CodeSize(left) + CodeSize(right)
  {
    hide Holds, CodeSize;
    var split, jump := Split(true, CodeSize(left) + 5), Goto(CodeSize(right));
    assert [split] + left + [jump] + right == [split] + (left + ([jump] + right));
    HoldsHead(m, pc, split, left + ([jump] + right));
    HoldsAppend(m, pc + 5, left, [jump] + right);
    HoldsHead(m, pc + 5 + CodeSize(left), jump, right);
    CodeSizeAppend([split], left + ([jump] + right));
    CodeSizeAppend(left, [jump] + right);
    CodeSizeAppend([jump], right);
    OneSize(split);
    OneSize(jump);
  }

  /** split; left; goto end; right. */
  lemma OrYields(m: Machine, pc: int, left: Code, right: Code, o: Outcome, first: Outcomes, second: Outcomes, stack: seq<int>)
    requires Holds(m, pc, [Split(true, CodeSize(left) + 5)] + left + [Goto(CodeSize(right))] + right)
    requires Yields(m, pc + 5, stack, o, first, pc + 5 + CodeSize(left), stack)
    requires Yields(m, pc + 10 + CodeSize(left), stack, o, second, pc + 10 + CodeSize(left) + CodeSize(right), stack)
    ensures Yields(m, pc, stack, o, first + second, pc + 10 + CodeSize(left) + CodeSize(right), stack)
  {
    hide Yields, Holds, CodeSize, Flatten;
    OrLayout(m, pc, left, right);
    var mid, exit := pc + 5 + CodeSize(left), pc + 10 + CodeSize(left) + CodeSize(right);
    var fs := seq(|first|, i requires 0 <= i < |first| => [first[i]]);
    forall k | 0 <= k < |first| ensures Yields(m, mid, stack, first[k], fs[k], exit, stack) {
      YieldsSelf(m, exit, stack, first[k]);
      GotoYields(m, mid, stack, first[k], [first[k]], exit, stack);
    }
    YieldsBind(m, pc + 5, stack, o, first, fs, mid, stack, exit, stack);
    FlattenSingletons(first, fs);
    YieldsSplit(m, pc, stack, o, first, second, pc + 5, pc + 10 + CodeSize(left), exit, stack);
  }

  // --- the induction over terms ---

  lemma {:induction false} TermYields(m: Machine, pc: int, t: Term, back: bool, cc: nat, stack: seq<int>, o: Outcome)
    requires ValidTerm(t) && Ready(m.env, o) && cc + TermCaptures(t) <= m.env.captureCount
    requires Holds(m, pc, TermCode(m.env.flags, t, back, cc))
    ensures Yields(m, pc, stack, o, TermOutcomes(m.env, t, back, cc, o), pc + CodeSize(TermCode(m.env.flags, t, back, cc)), stack)
    decreases t, 0
  {
    hide *;
    TermParts(t);
    match t
    case Group(d) =>
      GroupParts(m.env, d, back, cc, o);
      DisjunctionYields(m, pc, d, back, cc, stack, o);
    case Capture(d) => CaptureTermYields(m, pc, d, back, cc, stack, o);
    case Look(neg, b, d) => LookTermYields(m, pc, neg, b, d, back, cc, stack, o);
    case Quantified(a, min, max, greedy) =>
      QuantifiedCode(m.env.flags, a, min, max, greedy, back, cc);
      QuantifiedTermYields(m, pc, a, min, max, greedy, back, cc, stack, o);
    case _ => LeafYields(m, pc, t, back, cc, stack, o);
  }

  lemma TermParts(t: Term)
    ensures t.Group? || t.Capture? || t.Look? ==> (ValidTerm(t) <==> ValidDisjunction(t.body))
    ensures t.Group? || t.Look? ==> TermCaptures(t) == DisjunctionCaptures(t.body)
    ensures t.Quantified? ==> (ValidTerm(t) <==> ValidTerm(t.atom) && 0 <= t.min <= t.max <= INT32_MAX)
    ensures t.Quantified? ==> TermCaptures(t) == TermCaptures(t.atom)
  {
  }

  lemma GroupParts(env: Env, d: Disjunction, back: bool, cc: nat, o: Outcome)
    requires ValidDisjunction(d) && ValidTerm(Group(d)) && Ready(env, o)
    ensures TermCode(env.flags, Group(d), back, cc) == DisjunctionCode(env.flags, d, back, cc)
    ensures TermOutcomes(env, Group(d), back, cc, o) == DisjunctionOutcomes(env, d, back, cc, o)
  {
    hide DisjunctionCode, DisjunctionOutcomes;
  }

  lemma QuantifiedCode(f: Flags, a: Term, min: int, max: int, greedy: bool, back: bool, cc: nat)
    requires ValidTerm(a) && ValidTerm(Quantified(a, min, max, greedy)) && 0 <= min <= max <= INT32_MAX
    ensures TermCode(f, Quantified(a, min, max, greedy), back, cc) ==
      QuantifierCode(TermCode(f, a, back, cc), min, max, greedy, cc, TermCaptures(a))
  {
    hide QuantifierCode, TermCaptures;
  }

  /** Terms without parts. */
  lemma LeafYields(m: Machine, pc: int, t: Term, back: bool, cc: nat, stack: seq<int>, o: Outcome)
    requires t.One? || t.LineStart? || t.LineEnd? || t.WordBoundary? || t.BackReference?
    requires ValidTerm(t) && Ready(m.env, o) && Holds(m, pc, TermCode(m.env.flags, t, back, cc))
    ensures Yields(m, pc, stack, o, TermOutcomes(m.env, t, back, cc, o), pc + CodeSize(TermCode(m.env.flags, t, back, cc)), stack)
  {
    hide Yields, Holds, CodeSize, AtLineStart, AtLineEnd, AtWordBoundary;
    match t
    case One(x) =>
      if back { OneBackward(m, pc, x, cc, stack, o); } else { OneForward(m, pc, x, cc, stack, o); }
    case LineStart => AssertionYields(m, pc, LineStartOp, stack, o);
    case LineEnd => AssertionYields(m, pc, LineEndOp, stack, o);
    case WordBoundary(neg) => AssertionYields(m, pc, WordBoundaryOp(neg), stack, o);
    case BackReference(i) => BackReferenceYields(m, pc, i, back, cc, stack, o);
  }

  lemma {:induction false} QuantifiedTermYields(m: Machine, pc: int, a: Term, min: int, max: int, greedy: bool, back: bool, cc: nat, stack: seq<int>, o: Outcome)
    requires ValidTerm(a) && Ready(m.env, o) && cc + TermCaptures(a) <= m.env.captureCount && 0 <= min <= max <= INT32_MAX
    requires Holds(m, pc, QuantifierCode(TermCode(m.env.flags, a, back, cc), min, max, greedy, cc, TermCaptures(a)))
    ensures Yields(m, pc, stack, o, TermOutcomes(m.env, Quantified(a, min, max, greedy), back, cc, o),
      pc + CodeSize(QuantifierCode(TermCode(m.env.flags, a, back, cc), min, max, greedy, cc, TermCaptures(a))), stack)
    decreases Quantified(a, min, max, greedy), -1
  {
    hide Yields, Holds, CodeSize, QuantifierCode, TermCode, TermOutcomes, TermCaptures;
    forall pc1, stack1, o1
      ensures TermRunsHere(m, a, back, cc, pc1, stack1, o1)
    {
      if Ready(m.env, o1) && Holds(m, pc1, TermCode(m.env.flags, a, back, cc)) {
        TermYields(m, pc1, a, back, cc, stack1, o1);
      }
    }
    QuantifierYields(m, pc, a, min, max, greedy, back, cc, stack, o);
  }

  lemma AssertionYields(m: Machine, pc: int, i: Instr, stack: seq<int>, o: Outcome)
    requires IsAssertion(i) && InText(m.env, o.pos) && Holds(m, pc, [i])
    ensures Yields(m, pc, stack, o, if TestPos(m.env, i, o.pos) < 0 then [] else [o], pc + CodeSize([i]), stack)
  {
    hide Yields;
    HoldsOne(m, pc, i);
    OneSize(i);
    TestYields(m, pc, stack, o);
  }

  lemma {:induction false} CaptureTermYields(m: Machine, pc: int, d: Disjunction, back: bool, cc: nat, stack: seq<int>, o: Outcome)
    requires ValidDisjunction(d) && Ready(m.env, o) && cc + TermCaptures(Capture(d)) <= m.env.captureCount
    requires Holds(m, pc, TermCode(m.env.flags, Capture(d), back, cc))
    ensures Yields(m, pc, stack, o, TermOutcomes(m.env, Capture(d), back, cc, o),
      pc + CodeSize(TermCode(m.env.flags, Capture(d), back, cc)), stack)
    decreases d, 1
  {
    hide Yields, Holds, CodeSize, DisjunctionOutcomes, DisjunctionCode;
    var body := DisjunctionCode(m.env.flags, d, back, cc + 1);
    var first, last := if back then SaveEnd(cc) else SaveStart(cc), if back then SaveStart(cc) else SaveEnd(cc);
    assert TermCode(m.env.flags, Capture(d), back, cc) == [first] + body + [last];
    CaptureLayout(m, pc, first, body, last);
    var o1 := o.(caps := SetCapture(o.caps, 2 * cc + (if back then 1 else 0), o.pos));
    assert Ready(m.env, o1);
    DisjunctionYields(m, pc + 2, d, back, cc + 1, stack, o1);
    DisjunctionGood(m.env, d, back, cc + 1, o1);
    CaptureYields(m, pc, body, DisjunctionOutcomes(m.env, d, back, cc + 1, o1), cc, back, stack, o);
  }

  lemma {:induction false} LookTermYields(m: Machine, pc: int, neg: bool, b: bool, d: Disjunction, back: bool, cc: nat, stack: seq<int>, o: Outcome)
    requires ValidDisjunction(d) && Ready(m.env, o) && cc + DisjunctionCaptures(d) <= m.env.captureCount
    requires Holds(m, pc, TermCode(m.env.flags, Look(neg, b, d), back, cc))
    ensures Yields(m, pc, stack, o, TermOutcomes(m.env, Look(neg, b, d), back, cc, o),
      pc + CodeSize(TermCode(m.env.flags, Look(neg, b, d), back, cc)), stack)
    decreases d, 1
  {
    hide Yields, Holds, CodeSize, DisjunctionOutcomes, DisjunctionCode;
    var body := DisjunctionCode(m.env.flags, d, b, cc);
    assert TermCode(m.env.flags, Look(neg, b, d), back, cc) == [Lookahead(neg, CodeSize(body) + 1)] + body + [Match];
    LookLayout(m, pc, neg, body);
    DisjunctionYields(m, pc + 5, d, b, cc, stack, o);
    LookYields(m, pc, neg, body, DisjunctionOutcomes(m.env, d, b, cc, o), stack, o);
  }

  lemma {:induction false} AlternativeYields(m: Machine, pc: int, a: Alternative, back: bool, cc: nat, stack: seq<int>, o: Outcome)
    requires ValidAlternative(a) && Ready(m.env, o) && cc + AlternativeCaptures(a) <= m.env.captureCount
    requires Holds(m, pc, AlternativeCode(m.env.flags, a, back, cc))
    ensures Yields(m, pc, stack, o, AlternativeOutcomes(m.env, a, back, cc, o),
      pc + CodeSize(AlternativeCode(m.env.flags, a, back, cc)), stack)
    decreases a, 0
  {
    hide *;
    match a
    case Empty => EmptyYields(m, pc, back, cc, stack, o);
    case Then(init, last) =>
      ThenParts(init, last);
      if back {
        ThenBackwardYields(m, pc, init, last, cc, stack, o);
      } else {
        ThenForwardYields(m, pc, init, last, cc, stack, o);
      }
  }

  lemma EmptyYields(m: Machine, pc: int, back: bool, cc: nat, stack: seq<int>, o: Outcome)
    requires Holds(m, pc, AlternativeCode(m.env.flags, Empty, back, cc))
    ensures Yields(m, pc, stack, o, AlternativeOutcomes(m.env, Empty, back, cc, o),
      pc + CodeSize(AlternativeCode(m.env.flags, Empty, back, cc)), stack)
  {
    hide Yields, Holds, CodeSize;
    NoSize();
    YieldsSelf(m, pc, stack, o);
  }

  lemma ThenParts(init: Alternative, last: Term)
    ensures ValidAlternative(Then(init, last)) <==> ValidAlternative(init) && ValidTerm(last)
    ensures AlternativeCaptures(Then(init, last)) == AlternativeCaptures(init) + TermCaptures(last)
  {
  }

  lemma ThenForwardCode(f: Flags, init: Alternative, last: Term, cc: nat)
    requires ValidAlternative(init) && ValidTerm(last)
    ensures ValidAlternative(Then(init, last))
    ensures AlternativeCode(f, Then(init, last), false, cc) == AlternativeCode(f, init, false, cc) + TermCode(f, last, false, cc + AlternativeCaptures(init))
  {
  }

  lemma {:induction false} ThenForwardYields(m: Machine, pc: int, init: Alternative, last: Term, cc: nat, stack: seq<int>, o: Outcome)
    requires ValidAlternative(init) && ValidTerm(last) && Ready(m.env, o)
    requires cc + AlternativeCaptures(init) + TermCaptures(last) <= m.env.captureCount
    requires Holds(m, pc, AlternativeCode(m.env.flags, Then(init, last), false, cc))
    ensures Yields(m, pc, stack, o, AlternativeOutcomes(m.env, Then(init, last), false, cc, o),
      pc + CodeSize(AlternativeCode(m.env.flags, Then(init, last), false, cc)), stack)
    decreases Then(init, last), -1
  {
    hide Yields, Holds, CodeSize, TermOutcomes, AlternativeOutcomes, TermCode, AlternativeCode, AlternativeCaptures, TermCaptures, Flatten, TermEach, Distance;
    ThenForwardCode(m.env.flags, init, last, cc);
    var lastCc := cc + AlternativeCaptures(init);
    var first, term := AlternativeCode(m.env.flags, init, false, cc), TermCode(m.env.flags, last, false, lastCc);
    var outs := AlternativeOutcomes(m.env, init, false, cc, o);
    var fs := TermEach(m.env, last, false, lastCc, outs);
    HoldsAppend(m, pc, first, term);
    AlternativeYields(m, pc, init, false, cc, stack, o);
    AlternativeGood(m.env, init, false, cc, o);
    forall k | 0 <= k < |outs|
      ensures Yields(m, pc + CodeSize(first), stack, outs[k], fs[k], pc + CodeSize(first) + CodeSize(term), stack)
    {
      GoodAt(m.env, false, o.pos, outs, k);
      TermYields(m, pc + CodeSize(first), last, false, lastCc, stack, outs[k]);
    }
    SequenceYields(m, pc, first, term, o, outs, fs, stack);
    ThenForward(m.env, init, last, cc, o);
  }

  lemma {:induction false} ThenBackwardYields(m: Machine, pc: int, init: Alternative, last: Term, cc: nat, stack: seq<int>, o: Outcome)
    requires ValidAlternative(init) && ValidTerm(last) && Ready(m.env, o)
    requires cc + AlternativeCaptures(init) + TermCaptures(last) <= m.env.captureCount
    requires Holds(m, pc, AlternativeCode(m.env.flags, Then(init, last), true, cc))
    ensures Yields(m, pc, stack, o, AlternativeOutcomes(m.env, Then(init, last), true, cc, o),
      pc + CodeSize(AlternativeCode(m.env.flags, Then(init, last), true, cc)), stack)
    decreases Then(init, last), -1
  {
    hide Yields, Holds, CodeSize, TermOutcomes, AlternativeOutcomes, TermCode, Flatten;
    var lastCc := cc + AlternativeCaptures(init);
    var first, term := AlternativeCode(m.env.flags, init, true, cc), TermCode(m.env.flags, last, true, lastCc);
    var outs := TermOutcomes(m.env, last, true, lastCc, o);
    var fs := AlternativeEach(m.env, init, true, cc, outs);
    HoldsAppend(m, pc, term, first);
    TermYields(m, pc, last, true, lastCc, stack, o);
    TermGood(m.env, last, true, lastCc, o);
    forall k | 0 <= k < |outs|
      ensures Yields(m, pc + CodeSize(term), stack, outs[k], fs[k], pc + CodeSize(term) + CodeSize(first), stack)
    {
      GoodAt(m.env, true, o.pos, outs, k);
      AlternativeYields(m, pc + CodeSize(term), init, true, cc, stack, outs[k]);
    }
    SequenceYields(m, pc, term, first, o, outs, fs, stack);
    ThenBackward(m.env, init, last, cc, o);
  }

  lemma OnlyParts(env: Env, a: Alternative, back: bool, cc: nat, o: Outcome)
    ensures ValidDisjunction(Only(a)) <==> ValidAlternative(a)
    ensures DisjunctionCaptures(Only(a)) == AlternativeCaptures(a)
    ensures DisjunctionOutcomes(env, Only(a), back, cc, o) == AlternativeOutcomes(env, a, back, cc, o)
    ensures ValidAlternative(a) ==> DisjunctionCode(env.flags, Only(a), back, cc) == AlternativeCode(env.flags, a, back, cc)
  {
  }

  lemma OrParts(env: Env, l: Disjunction, a: Alternative, back: bool, cc: nat, o: Outcome)
    ensures ValidDisjunction(Or(l, a)) <==> ValidDisjunction(l) && ValidAlternative(a)
    ensures DisjunctionCaptures(Or(l, a)) == DisjunctionCaptures(l) + AlternativeCaptures(a)
    ensures DisjunctionOutcomes(env, Or(l, a), back, cc, o) ==
      DisjunctionOutcomes(env, l, back, cc, o) + AlternativeOutcomes(env, a, back, cc + DisjunctionCaptures(l), o)
  {
    hide AlternativeOutcomes, AlternativeCaptures, ValidAlternative, DisjunctionCaptures, ValidDisjunction;
    OrCounts(l, a);
  }

  lemma OrCounts(l: Disjunction, a: Alternative)
    ensures ValidDisjunction(Or(l, a)) <==> ValidDisjunction(l) && ValidAlternative(a)
    ensures DisjunctionCaptures(Or(l, a)) == DisjunctionCaptures(l) + AlternativeCaptures(a)
  {
    hide AlternativeCaptures, ValidAlternative;
  }

  lemma OrCodeIs(env: Env, l: Disjunction, a: Alternative, back: bool, cc: nat)
    requires ValidDisjunction(Or(l, a)) && ValidDisjunction(l) && ValidAlternative(a)
    ensures var left := DisjunctionCode(env.flags, l, back, cc);
      var right := AlternativeCode(env.flags, a, back, cc + DisjunctionCaptures(l));
      DisjunctionCode(env.flags, Or(l, a), back, cc) == [Split(true, CodeSize(left) + 5)] + left + [Goto(CodeSize(right))] + right
  {
    hide CodeSize, AlternativeCode, ValidDisjunction, ValidAlternative, DisjunctionCaptures;
  }

  lemma {:induction false} DisjunctionYields(m: Machine, pc: int, d: Disjunction, back: bool, cc: nat, stack: seq<int>, o: Outcome)
    requires ValidDisjunction(d) && Ready(m.env, o) && cc + DisjunctionCaptures(d) <= m.env.captureCount
    requires Holds(m, pc, DisjunctionCode(m.env.flags, d, back, cc))
    ensures Yields(m, pc, stack, o, DisjunctionOutcomes(m.env, d, back, cc, o),
      pc + CodeSize(DisjunctionCode(m.env.flags, d, back, cc)), stack)
    decreases d, 0
  {
    hide *;
    match d
    case Only(a) =>
      OnlyParts(m.env, a, back, cc, o);
      AlternativeYields(m, pc, a, back, cc, stack, o);
    case Or(l, a) =>
      OrParts(m.env, l, a, back, cc, o);
      OrCodeIs(m.env, l, a, back, cc);
      var left := DisjunctionCode(m.env.flags, l, back, cc);
      var right := AlternativeCode(m.env.flags, a, back, cc + DisjunctionCaptures(l));
      OrLayout(m, pc, left, right);
      DisjunctionYields(m, pc + 5, l, back, cc, stack, o);
      AlternativeYields(m, pc + 10 + CodeSize(left), a, back, cc + DisjunctionCaptures(l), stack, o);
      OrYields(m, pc, left, right, o, DisjunctionOutcomes(m.env, l, back, cc, o),
        AlternativeOutcomes(m.env, a, back, cc + DisjunctionCaptures(l), o), stack);
  }
}
