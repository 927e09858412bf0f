/** The simple greedy quantifier: matching a straight-line atom as often as possible and
    then stepping back a fixed number of characters per pass tries exactly the end
    positions of the general loop, in the same order. */
module RegexGreedy {
  import opened Words
  import opened RegexInput
  import opened RegexTerm
  import opened RegexCode
  import opened RegexMatcher
  import opened RegexMachine
  import opened RegexEnumerates
  import opened RegexInvariants
  import opened RegexRanges

  /** The cursor after straight-line code, or -1. */
  ghost function RunSimple(env: Env, code: Code, pos: int): int
    requires AllSimple(code)
    decreases |code|
  {
    if code == [] then pos
    else
      var p := TestPos(env, code[0], pos);
      if p < 0 then -1 else RunSimple(env, code[1..], p)
  }

  lemma {:induction false} SimpleAppend(env: Env, a: Code, b: Code, pos: int)
    ensures AllSimple(a + b) == (AllSimple(a) && AllSimple(b))
    ensures CharOpCount(a + b) == CharOpCount(a) + CharOpCount(b)
    ensures AllSimple(a + b) && pos >= 0 ==>
      RunSimple(env, a + b, pos) ==
      if RunSimple(env, a, pos) < 0 then -1 else RunSimple(env, b, RunSimple(env, a, pos))
    decreases |a|
  {
    if a == [] {
      assert a + b == b;
    } else {
      assert (a + b)[1..] == a[1..] + b;
      SimpleAppend(env, a[1..], b, if IsCharOp(a[0]) || IsAssertion(a[0]) then TestPos(env, a[0], pos) else pos);
    }
  }

  lemma SimpleOne(env: Env, i: Instr, pos: int)
    ensures AllSimple([i]) == (IsCharOp(i) || IsAssertion(i))
    ensures CharOpCount([i]) == if IsCharOp(i) then 1 else 0
    ensures AllSimple([i]) ==> RunSimple(env, [i], pos) == if TestPos(env, i, pos) < 0 then -1 else TestPos(env, i, pos)
  {
    assert [i][1..] == [];
  }

  /** A pass stays on boundaries, and stepping back its number of characters undoes it. */
  lemma {:induction false} SimpleBack(env: Env, code: Code, pos: int)
    requires AllSimple(code) && Boundary(env.input, pos) && RunSimple(env, code, pos) >= 0
    ensures var p := RunSimple(env, code, pos);
            Boundary(env.input, p) && pos <= p && Back(env.input, p, CharOpCount(code)) == pos &&
            CanBack(env.input, p, CharOpCount(code)) &&
            (CharOpCount(code) > 0 ==> pos < p)
    decreases |code|
  {
    if code != [] {
      var p1 := TestPos(env, code[0], pos);
      if IsCharOp(code[0]) {
        PrevInvertsNext(env.input, pos);
      }
      SimpleBack(env, code[1..], p1);
      if IsCharOp(code[0]) {
        BackAdd(env.input, RunSimple(env, code, pos), CharOpCount(code[1..]), 1);
        assert Back(env.input, p1, 1) == Back(env.input, PrevPos(env.input, p1, 0), 0);
        assert CanBack(env.input, p1, 1);
      }
    }
  }

  /** The no_recurse run executes straight-line code up to its `match`. */
  lemma {:induction false} RunAtomSimple(m: Machine, code: Code, pc: int, pos: int)
    requires AllSimple(code) && Holds(m, pc, code + [Match]) && pos >= 0
    ensures RunAtom(m, pc, pos) ==
      if RunSimple(m.env, code, pos) < 0 then AtomFail else AtomOk(RunSimple(m.env, code, pos))
    decreases |code|
  {
    HoldsHead(m, pc, (code + [Match])[0], (code + [Match])[1..]);
    assert code + [Match] == [(code + [Match])[0]] + (code + [Match])[1..];
    if code != [] {
      var p := TestPos(m.env, code[0], pos);
      assert (code + [Match])[1..] == code[1..] + [Match];
      if p >= 0 {
        RunAtomSimple(m, code[1..], pc + InstrSize(code[0]), p);
      }
    }
  }

  // --- terms with straight-line code ---

  lemma NotSimple(a: Code, i: Instr, b: Code)
    requires !IsCharOp(i) && !IsAssertion(i)
    ensures !AllSimple(a + ([i] + b)) && !AllSimple(a + [i] + b)
  {
    assert ([i] + b)[0] == i;
    assert a + [i] + b == a + ([i] + b);
    var env := Env(Flags(false, false, false, x => x), Input([], false), 0);
    SimpleAppend(env, a, [i] + b, 0);
  }

  lemma LoopsNotSimple(pre: Code, body: Code, n: int, greedy: bool)
    ensures !AllSimple(pre + StarCode(body, greedy))
    ensures !AllSimple(pre + UpToCode(body, n, greedy))
    ensures !AllSimple(pre + ([Split(greedy, CodeSize(body))] + body))
    ensures !AllSimple(pre + [Split(greedy, -(CodeSize(body) + 5))])
  {
    var off := CodeSize(body) + 10;
    NotSimple(pre, Split(greedy, CodeSize(body) + 5), body + [Goto(-off)]);
    assert StarCode(body, greedy) == [Split(greedy, CodeSize(body) + 5)] + (body + [Goto(-off)]);
    NotSimple(pre, PushI32(n), [Split(greedy, CodeSize(body) + 5)] + body + [Loop(-off), Drop]);
    assert UpToCode(body, n, greedy) == [PushI32(n)] + ([Split(greedy, CodeSize(body) + 5)] + body + [Loop(-off), Drop]);
    NotSimple(pre, Split(greedy, CodeSize(body)), body);
    NotSimple(pre, Split(greedy, -(CodeSize(body) + 5)), []);
    assert [Split(greedy, -(CodeSize(body) + 5))] == [Split(greedy, -(CodeSize(body) + 5))] + [];
  }

  lemma RepeatNotSimple(atom: Code, n: int, rest: Code)
    requires n != 1
    ensures !AllSimple(RepeatCode(atom, n) + rest)
  {
    var tail := [Loop(-(CodeSize(atom) + 5)), Drop];
    NotSimple([], PushI32(n), atom + tail + rest);
    assert RepeatCode(atom, n) + rest == [] + [PushI32(n)] + (atom + tail + rest);
  }

  lemma ResetNotSimple(cc: nat, captures: nat)
    ensures AllSimple(ResetCode(cc, captures) + []) ==> captures == 0 && ResetCode(cc, captures) + [] == []
  {
    NotSimple([], SaveReset(cc, cc + captures - 1), []);
    assert ResetCode(cc, captures) + [] == ResetCode(cc, captures);
    assert [] + [SaveReset(cc, cc + captures - 1)] + [] == [SaveReset(cc, cc + captures - 1)];
  }

  lemma GreedyNotSimple(code: Code)
    ensures code != [] && code[0].SimpleGreedyQuant? ==> !AllSimple(code)
  {
  }

  /** A quantifier with straight-line code is {1}, or {0} over an atom without captures. */
  lemma SimpleQuantifierShape(atom: Code, min: int, max: int, greedy: bool, cc: nat, captures: nat)
    requires 0 <= min <= max <= INT32_MAX
    requires AllSimple(QuantifierCode(atom, min, max, greedy, cc, captures))
    ensures (min == max == 1 && QuantifierCode(atom, min, max, greedy, cc, captures) == atom) ||
            (min == max == 0 && captures == 0 && QuantifierCode(atom, min, max, greedy, cc, captures) == [])
  {
    var body := Guarded(atom, NeedCheckAdvance(atom));
    LoopsNotSimple(ResetCode(cc, captures), body, max, greedy);
    LoopsNotSimple(atom, atom, max, !greedy);
    LoopsNotSimple(RepeatCode(atom, min), body, max - min, greedy);
    ResetNotSimple(cc, captures);
    if min != 1 { RepeatNotSimple(atom, min, []); }
    GreedyNotSimple(QuantifierCode(atom, min, max, greedy, cc, captures));
    QuantifierShapes(atom, min, max, greedy, cc, captures);
    hide *;
  }

  /** `p` is where the single outcome of a straight-line term ends; -1 if there is none. */
  predicate SingleOutcome(o: Outcome, p: int, outs: Outcomes) {
    outs == if p < 0 then [] else [o.(pos := p)]
  }

  lemma FlattenOne(fs: seq<Outcomes>)
    requires |fs| == 1
    ensures Flatten(fs) == fs[0]
  {
    assert fs[1..] == [];
    assert fs[0] + [] == fs[0];
  }

  ghost predicate Ready(env: Env, o: Outcome) {
    ValidFlags(env.flags) && ValidInput(env.input) && Good(env, o)
  }

  lemma SimpleTestOutcome(env: Env, x: CharTest, cc: nat, o: Outcome)
    requires Ready(env, o) && ValidTest(x)
    ensures AllSimple([TestInstr(env.flags, x)])
    ensures SingleOutcome(o, RunSimple(env, [TestInstr(env.flags, x)], o.pos), TermOutcomes(env, One(x), false, cc, o))
  {
    TestInstrExact(env.flags, x, 0);
    SimpleOne(env, TestInstr(env.flags, x), o.pos);
    if o.pos < |env.input.units| {
      CharInRange(env.input, o.pos, |env.input.units|);
      TestInstrExact(env.flags, x, CharAt(env.input, o.pos, |env.input.units|));
    }
  }

  /** A term with straight-line code has at most one outcome: the end of the run of that code. */
  lemma {:induction false} SimpleTermOutcome(env: Env, t: Term, cc: nat, o: Outcome)
    requires Ready(env, o) && ValidTerm(t) && AllSimple(TermCode(env.flags, t, false, cc))
    ensures SingleOutcome(o, RunSimple(env, TermCode(env.flags, t, false, cc), o.pos), TermOutcomes(env, t, false, cc, o))
    decreases t
  {
    match t
    case One(x) => SimpleTestOutcome(env, x, cc, o);
    case LineStart => SimpleOne(env, LineStartOp, o.pos);
    case LineEnd => SimpleOne(env, LineEndOp, o.pos);
    case WordBoundary(neg) => SimpleOne(env, WordBoundaryOp(neg), o.pos);
    case Group(d) => SimpleDisjunctionOutcome(env, d, cc, o);
    case Capture(d) =>
    case BackReference(i) =>
    case Look(neg, b, d) =>
    case Quantified(a, min, max, greedy) =>
      var atom := TermCode(env.flags, a, false, cc);
      SimpleQuantifierShape(atom, min, max, greedy, cc, TermCaptures(a));
      if min == 1 {
        OnceIsAtom(env, a, greedy, false, cc, o);
        SimpleTermOutcome(env, a, cc, o);
      } else {
        ExactlyMin(env, a, 0, greedy, false, cc, [o]);
      }
  }

  lemma {:induction false} SimpleAlternativeOutcome(env: Env, a: Alternative, cc: nat, o: Outcome)
    requires Ready(env, o) && ValidAlternative(a) && AllSimple(AlternativeCode(env.flags, a, false, cc))
    ensures SingleOutcome(o, RunSimple(env, AlternativeCode(env.flags, a, false, cc), o.pos), AlternativeOutcomes(env, a, false, cc, o))
    decreases a
  {
    hide AllSimple, RunSimple, SingleOutcome, Flatten, TermOutcomes, AlternativeOutcomes, ValidInput, ValidFlags, Good;
    match a
    case Empty =>
      ReadyInText(env, o);
      SimpleEmpty(env, cc, o);
    case Then(init, last) =>
      var lastCc := cc + AlternativeCaptures(init);
      var outs := AlternativeOutcomes(env, init, false, cc, o);
      SimpleAppend(env, AlternativeCode(env.flags, init, false, cc), TermCode(env.flags, last, false, lastCc), o.pos);
      SimpleAlternativeOutcome(env, init, cc, o);
      if outs != [] {
        AlternativeGood(env, init, false, cc, o);
        GoodAt(env, false, o.pos, outs, 0);
        ReadyAt(env, o, outs[0]);
        SimpleTermOutcome(env, last, lastCc, outs[0]);
      }
      SimpleThen(env, init, last, cc, o);
  }

  lemma ReadyInText(env: Env, o: Outcome)
    requires Ready(env, o)
    ensures InText(env, o.pos)
  {
  }

  lemma SimpleEmpty(env: Env, cc: nat, o: Outcome)
    requires o.pos >= 0
    ensures SingleOutcome(o, RunSimple(env, [], o.pos), AlternativeOutcomes(env, Empty, false, cc, o))
  {
  }

  lemma SimpleThen(env: Env, init: Alternative, last: Term, cc: nat, o: Outcome)
    requires Ready(env, o) && ValidAlternative(init) && ValidTerm(last)
    requires AllSimple(AlternativeCode(env.flags, init, false, cc))
    requires AllSimple(TermCode(env.flags, last, false, cc + AlternativeCaptures(init)))
    requires var outs := AlternativeOutcomes(env, init, false, cc, o);
      SingleOutcome(o, RunSimple(env, AlternativeCode(env.flags, init, false, cc), o.pos), outs) &&
      (outs != [] ==>
        SingleOutcome(outs[0], RunSimple(env, TermCode(env.flags, last, false, cc + AlternativeCaptures(init)), outs[0].pos),
          TermOutcomes(env, last, false, cc + AlternativeCaptures(init), outs[0])))
    ensures AllSimple(AlternativeCode(env.flags, Then(init, last), false, cc))
    ensures SingleOutcome(o, RunSimple(env, AlternativeCode(env.flags, Then(init, last), false, cc), o.pos),
      AlternativeOutcomes(env, Then(init, last), false, cc, o))
  {
    hide TermOutcomes, AlternativeOutcomes, RunSimple, SingleOutcome, AllSimple, Flatten;
    var outs := AlternativeOutcomes(env, init, false, cc, o);
    var fs := TermEach(env, last, false, cc + AlternativeCaptures(init), outs);
    ThenForward(env, init, last, cc, o);
    SimpleSequence(env, AlternativeCode(env.flags, init, false, cc),
      TermCode(env.flags, last, false, cc + AlternativeCaptures(init)), o, outs, fs);
  }

  lemma ReadyAt(env: Env, o: Outcome, o1: Outcome)
    requires Ready(env, o) && Good(env, o1)
    ensures Ready(env, o1)
  {
  }

  /** A straight-line part followed by a straight-line part. */
  lemma SimpleSequence(env: Env, first: Code, term: Code, o: Outcome, outs: Outcomes, fs: seq<Outcomes>)
    requires AllSimple(first) && AllSimple(term) && Good(env, o) && |fs| == |outs|
    requires SingleOutcome(o, RunSimple(env, first, o.pos), outs)
    requires outs != [] ==> SingleOutcome(outs[0], RunSimple(env, term, outs[0].pos), fs[0])
    ensures AllSimple(first + term)
    ensures SingleOutcome(o, RunSimple(env, first + term, o.pos), Flatten(fs))
  {
    SimpleAppend(env, first, term, o.pos);
    if outs != [] { FlattenOne(fs); }
  }

  lemma {:induction false} SimpleDisjunctionOutcome(env: Env, d: Disjunction, cc: nat, o: Outcome)
    requires Ready(env, o) && ValidDisjunction(d) && AllSimple(DisjunctionCode(env.flags, d, false, cc))
    ensures SingleOutcome(o, RunSimple(env, DisjunctionCode(env.flags, d, false, cc), o.pos), DisjunctionOutcomes(env, d, false, cc, o))
    decreases d
  {
    match d
    case Only(a) => SimpleAlternativeOutcome(env, a, cc, o);
    case Or(l, a) =>
  }

  // --- backward terms are never simple, unless they read no character ---

  lemma {:induction false} BackwardNotSimple(f: Flags, t: Term, cc: nat)
    requires ValidTerm(t)
    ensures SimpleQuantifier(TermCode(f, t, true, cc)) <= 0
    decreases t
  {
    var env := Env(f, Input([], false), 0);
    match t
    case One(_) =>
    case LineStart => SimpleOne(env, LineStartOp, 0);
    case LineEnd => SimpleOne(env, LineEndOp, 0);
    case WordBoundary(neg) => SimpleOne(env, WordBoundaryOp(neg), 0);
    case Group(d) => BackwardDisjunctionNotSimple(f, d, cc);
    case Capture(d) =>
    case BackReference(_) =>
    case Look(_, _, _) =>
    case Quantified(a, min, max, greedy) =>
      var atom := TermCode(f, a, true, cc);
      if AllSimple(TermCode(f, t, true, cc)) {
        SimpleQuantifierShape(atom, min, max, greedy, cc, TermCaptures(a));
        BackwardNotSimple(f, a, cc);
      }
  }

  lemma {:induction false} BackwardAlternativeNotSimple(f: Flags, a: Alternative, cc: nat)
    requires ValidAlternative(a)
    ensures SimpleQuantifier(AlternativeCode(f, a, true, cc)) <= 0
    decreases a
  {
    match a
    case Empty =>
    case Then(init, last) =>
      hide SimpleQuantifier, TermCode;
      BackwardAlternativeNotSimple(f, init, cc);
      BackwardNotSimple(f, last, cc + AlternativeCaptures(init));
      NotSimpleAppend(TermCode(f, last, true, cc + AlternativeCaptures(init)), AlternativeCode(f, init, true, cc));
  }

  lemma NotSimpleAppend(a: Code, b: Code)
    requires SimpleQuantifier(a) <= 0 && SimpleQuantifier(b) <= 0
    ensures SimpleQuantifier(a + b) <= 0
  {
    hide AllSimple, CharOpCount, RunSimple;
    SimpleAppend(Env(Flags(false, false, false, c => c), Input([], false), 0), a, b, 0);
  }

  lemma {:induction false} BackwardDisjunctionNotSimple(f: Flags, d: Disjunction, cc: nat)
    requires ValidDisjunction(d)
    ensures SimpleQuantifier(DisjunctionCode(f, d, true, cc)) <= 0
    decreases d
  {
    match d
    case Only(a) => BackwardAlternativeNotSimple(f, a, cc);
    case Or(l, a) =>
  }
}
