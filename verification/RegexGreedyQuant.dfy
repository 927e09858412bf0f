/** The run of simple_greedy_quant against the reference quantifier. */
module RegexGreedyQuant {
  import opened Words
  import opened RegexInput
  import opened RegexTerm
  import opened RegexCode
  import opened RegexMatcher
  import opened RegexMachine
  import opened RegexEnumerates
  import opened RegexInvariants
  import opened RegexGreedy

  /** The cursor after `k` passes. */
  ghost function Iter(env: Env, code: Code, pos: int, k: nat): int
    requires AllSimple(code)
    decreases k
  {
    if k == 0 then pos
    else
      var p := RunSimple(env, code, pos);
      if p < 0 then -1 else Iter(env, code, p, k - 1)
  }

  ghost predicate CanPass(env: Env, code: Code, pos: int, k: nat)
    requires AllSimple(code)
    decreases k
  {
    k == 0 || (RunSimple(env, code, pos) >= 0 && CanPass(env, code, RunSimple(env, code, pos), k - 1))
  }

  /** The largest number of passes, at most `m`. */
  ghost function Passes(env: Env, code: Code, pos: int, m: int): nat
    requires AllSimple(code)
    decreases Distance(env, false, pos)
  {
    if m <= 0 then 0
    else
      var p := RunSimple(env, code, pos);
      if p < 0 || !Advances(env, false, pos, p) then 0 else 1 + Passes(env, code, p, Fewer(m))
  }

  /** The outcomes below the longest one: j - 1, ..., 0 passes. */
  ghost function Below(env: Env, code: Code, o: Outcome, j: nat): Outcomes
    requires AllSimple(code)
  {
    if j == 0 then []
    else [o.(pos := Iter(env, code, o.pos, j - 1))] + Below(env, code, o, j - 1)
  }

  ghost predicate SimpleAtom(env: Env, code: Code) {
    AllSimple(code) && CharOpCount(code) > 0
  }

  lemma PassAdvances(env: Env, code: Code, pos: int)
    requires SimpleAtom(env, code) && Boundary(env.input, pos) && RunSimple(env, code, pos) >= 0
    ensures Boundary(env.input, RunSimple(env, code, pos))
    ensures Advances(env, false, pos, RunSimple(env, code, pos))
  {
    SimpleBack(env, code, pos);
  }

  lemma {:induction false} IterAdd(env: Env, code: Code, pos: int, a: nat, b: nat)
    requires AllSimple(code) && CanPass(env, code, pos, a)
    ensures Iter(env, code, pos, a + b) == Iter(env, code, Iter(env, code, pos, a), b)
    decreases a
  {
    if a > 0 {
      IterAdd(env, code, RunSimple(env, code, pos), a - 1, b);
    }
  }

  lemma {:induction false} IterBoundary(env: Env, code: Code, pos: int, k: nat)
    requires SimpleAtom(env, code) && Boundary(env.input, pos) && CanPass(env, code, pos, k)
    ensures Boundary(env.input, Iter(env, code, pos, k))
    decreases k
  {
    if k > 0 {
      PassAdvances(env, code, pos);
      IterBoundary(env, code, RunSimple(env, code, pos), k - 1);
    }
  }

  lemma {:induction false} PassesCan(env: Env, code: Code, pos: int, m: int, k: nat)
    requires SimpleAtom(env, code) && Boundary(env.input, pos) && k <= Passes(env, code, pos, m)
    ensures CanPass(env, code, pos, k)
    decreases k
  {
    if k > 0 {
      PassAdvances(env, code, pos);
      PassesCan(env, code, RunSimple(env, code, pos), Fewer(m), k - 1);
    }
  }

  /** Counting all passes is counting `k` of them and then the others. */
  lemma {:induction false} PassesSplit(env: Env, code: Code, pos: int, k: nat, max: int)
    requires SimpleAtom(env, code) && Boundary(env.input, pos) && k <= max <= INT32_MAX
    ensures if CanPass(env, code, pos, k)
            then Passes(env, code, pos, max) == k + Passes(env, code, Iter(env, code, pos, k), Further(k, max))
            else Passes(env, code, pos, max) < k
    decreases k
  {
    if k > 0 {
      var p := RunSimple(env, code, pos);
      if p >= 0 {
        PassAdvances(env, code, pos);
        PassesSplit(env, code, p, k - 1, Fewer(max));
      }
    }
  }

  lemma {:induction false} BelowSnoc(env: Env, code: Code, o: Outcome, j: nat)
    requires AllSimple(code) && RunSimple(env, code, o.pos) >= 0
    ensures Below(env, code, o, j + 1) == Below(env, code, o.(pos := RunSimple(env, code, o.pos)), j) + [o]
  {
    if j > 0 {
      BelowSnoc(env, code, o, j - 1);
    }
  }

  // --- the reference quantifier over a simple atom ---

  lemma SimplePassOutcome(env: Env, a: Term, cc: nat, o: Outcome)
    requires Ready(env, o) && ValidTerm(a) && SimpleAtom(env, TermCode(env.flags, a, false, cc))
    ensures var p := RunSimple(env, TermCode(env.flags, a, false, cc), o.pos);
      TermOutcomes(env, a, false, cc, o) == (if p < 0 then [] else [o.(pos := p)]) &&
      (p >= 0 ==> Ready(env, o.(pos := p)) && Advances(env, false, o.pos, p))
  {
    var code := TermCode(env.flags, a, false, cc);
    SimpleTermOutcome(env, a, cc, o);
    if RunSimple(env, code, o.pos) >= 0 {
      PassAdvances(env, code, o.pos);
    }
  }

  /** The optional iterations: the longest run first, then one pass fewer each. */
  lemma {:induction false} OptionalPasses(env: Env, a: Term, m: int, cc: nat, o: Outcome)
    requires Ready(env, o) && ValidTerm(a) && SimpleAtom(env, TermCode(env.flags, a, false, cc))
    ensures var code := TermCode(env.flags, a, false, cc);
      var n := Passes(env, code, o.pos, m);
      Optional(env, a, m, true, false, cc, o) == [o.(pos := Iter(env, code, o.pos, n))] + Below(env, code, o, n)
    decreases Distance(env, false, o.pos)
  {
    hide TermOutcomes, Optional, RunSimple, AllSimple, CharOpCount, TermCode, ValidTerm, ValidFlags, ValidInput;
    if m > 0 {
      var code := TermCode(env.flags, a, false, cc);
      var outs := TermOutcomes(env, a, false, cc, o);
      var fs := OptionalEach(env, a, Fewer(m), true, false, cc, o, outs);
      SimplePassOutcome(env, a, cc, o);
      var p := RunSimple(env, code, o.pos);
      OptionalStep(env, a, m, true, false, cc, o);
      if p >= 0 {
        var n := Passes(env, code, p, Fewer(m));
        OptionalPasses(env, a, Fewer(m), cc, outs[0]);
        FlattenOne(fs);
        BelowSnoc(env, code, o, n);
      }
    } else {
      OptionalAtMost(env, a, m, cc, o);
    }
  }

  lemma {:induction false} OptionalAtMost(env: Env, a: Term, m: int, cc: nat, o: Outcome)
    requires m <= 0
    ensures Optional(env, a, m, true, false, cc, o) == [o]
  {
  }

  lemma {:induction false} MandatoryPasses(env: Env, a: Term, k: nat, cc: nat, o: Outcome)
    requires Ready(env, o) && ValidTerm(a) && SimpleAtom(env, TermCode(env.flags, a, false, cc))
    ensures var code := TermCode(env.flags, a, false, cc);
      Mandatory(env, a, k, false, cc, o) ==
      if CanPass(env, code, o.pos, k) then [o.(pos := Iter(env, code, o.pos, k))] else []
    decreases k
  {
    hide TermOutcomes, Mandatory, RunSimple, AllSimple, CharOpCount, Good, ValidInput, ValidFlags, TermCode, ValidTerm;
    if k > 0 {
      var code := TermCode(env.flags, a, false, cc);
      var outs := TermOutcomes(env, a, false, cc, o);
      var fs := MandatoryEach(env, a, k - 1, false, cc, outs);
      SimplePassOutcome(env, a, cc, o);
      MandatoryStep(env, a, k - 1, false, cc, o);
      if outs != [] {
        MandatoryPasses(env, a, k - 1, cc, outs[0]);
        FlattenOne(fs);
      }
    } else {
      MandatoryNone(env, a, false, cc, o);
    }
  }

  /** All outcomes of the greedy quantifier: the longest run first, down to `min` passes. */
  lemma SimpleQuantifiedOutcomes(env: Env, a: Term, min: nat, max: int, cc: nat, o: Outcome)
    requires Ready(env, o) && ValidTerm(a) && SimpleAtom(env, TermCode(env.flags, a, false, cc))
    requires min <= max <= INT32_MAX && TermCaptures(a) == 0
    ensures var code := TermCode(env.flags, a, false, cc);
      var n := Passes(env, code, o.pos, max);
      TermOutcomes(env, Quantified(a, min, max, true), false, cc, o) ==
      if n < min then []
      else
        var base := o.(pos := Iter(env, code, o.pos, min));
        [o.(pos := Iter(env, code, o.pos, n))] + Below(env, code, base, n - min)
  {
    hide TermOutcomes, Mandatory, Optional, RunSimple, Passes, Iter, Below, CanPass, AllSimple, CharOpCount, TermCode, ValidTerm;
    var code := TermCode(env.flags, a, false, cc);
    var outs := Mandatory(env, a, min, false, cc, o);
    var fs := AfterMandatory(env, a, min, max, true, false, cc, outs);
    MandatoryPasses(env, a, min, cc, o);
    PassesSplit(env, code, o.pos, min, max);
    QuantifiedParts(env, a, min, max, true, false, cc, o);
    if CanPass(env, code, o.pos, min) {
      IterBoundary(env, code, o.pos, min);
      OptionalPasses(env, a, Further(min, max), cc, outs[0]);
      FlattenOne(fs);
      IterAdd(env, code, o.pos, min, Passes(env, code, o.pos, max) - min);
    }
  }

  lemma {:induction false} SimpleHasNoCaptures(f: Flags, t: Term, cc: nat)
    requires ValidTerm(t) && AllSimple(TermCode(f, t, false, cc))
    ensures TermCaptures(t) == 0
    decreases t
  {
    match t
    case Group(d) => SimpleDisjunctionHasNoCaptures(f, d, cc);
    case Quantified(a, min, max, greedy) =>
      var atom := TermCode(f, a, false, cc);
      SimpleQuantifierShape(atom, min, max, greedy, cc, TermCaptures(a));
      if min == 1 { SimpleHasNoCaptures(f, a, cc); }
    case _ =>
  }

  lemma {:induction false} SimpleAlternativeHasNoCaptures(f: Flags, a: Alternative, cc: nat)
    requires ValidAlternative(a) && AllSimple(AlternativeCode(f, a, false, cc))
    ensures AlternativeCaptures(a) == 0
    decreases a
  {
    match a
    case Empty =>
    case Then(init, last) =>
      SimpleAppend(Env(f, Input([], false), 0), AlternativeCode(f, init, false, cc),
        TermCode(f, last, false, cc + AlternativeCaptures(init)), 0);
      SimpleAlternativeHasNoCaptures(f, init, cc);
      SimpleHasNoCaptures(f, last, cc + AlternativeCaptures(init));
  }

  lemma {:induction false} SimpleDisjunctionHasNoCaptures(f: Flags, d: Disjunction, cc: nat)
    requires ValidDisjunction(d) && AllSimple(DisjunctionCode(f, d, false, cc))
    ensures DisjunctionCaptures(d) == 0
    decreases d
  {
    match d
    case Only(a) => SimpleAlternativeHasNoCaptures(f, a, cc);
    case Or(l, a) =>
  }

  // --- the machine ---

  lemma {:induction false} RunGreedyPasses(m: Machine, code: Code, pc: int, pos: int, q: nat, max: int)
    requires SimpleAtom(m.env, code) && Holds(m, pc, code + [Match]) && Boundary(m.env.input, pos)
    requires q < max <= INT32_MAX || max == INT32_MAX
    ensures var n := Passes(m.env, code, pos, if max == INT32_MAX then max else max - q);
      RunGreedy(m, pc, pos, q, max) == GreedyEnd(q + n, Iter(m.env, code, pos, n))
    decreases Distance(m.env, false, pos)
  {
    RunAtomSimple(m, code, pc, pos);
    var p := RunSimple(m.env, code, pos);
    if p >= 0 {
      PassAdvances(m.env, code, pos);
      if q + 1 >= max && max != INT32_MAX {
        assert Passes(m.env, code, p, 0) == 0;
      } else {
        RunGreedyPasses(m, code, pc, p, q + 1, max);
      }
    }
  }

  function GreedyStateAt(pc: int, o: Outcome, stack: seq<int>, count: int): Saved {
    Saved(GreedyState(count), At(pc, o, stack))
  }

  /** What stays on the state stack while `count` passes can still be taken back. */
  function GreedyRest(pc: int, o: Outcome, stack: seq<int>, count: int): States {
    if count == 0 then [] else [GreedyStateAt(pc, o, stack, count)]
  }

  lemma GreedyRestParts(pc: int, o: Outcome, stack: seq<int>, count: int, ss: States)
    ensures NoLook(GreedyRest(pc, o, stack, count))
    ensures count == 0 ==> ss + GreedyRest(pc, o, stack, count) == ss
    ensures count != 0 ==> GreedyRest(pc, o, stack, count) == [GreedyStateAt(pc, o, stack, count)]
  {
  }

  /** The greedy-quantifier state, on failure, delivers one pass fewer each time. */
  lemma {:induction false} GreedyUnwinds(m: Machine, i: Instr, code: Code, pc: int, o: Outcome, stack: seq<int>, j: nat, ss: States)
    requires SimpleAtom(m.env, code) && Good(m.env, o) && CanPass(m.env, code, o.pos, j) && j > 0
    requires pc in m.program && m.program[pc] == i && i.SimpleGreedyQuant? && i.chars == CharOpCount(code)
    ensures Enumerates(m, Fail(ss + [GreedyStateAt(pc, o.(pos := Iter(m.env, code, o.pos, j)), stack, j)]),
      Below(m.env, code, o, j), pc + 17 + i.length, stack, ss)
    decreases j
  {
    hide Step, Passes, Iter, Below, Enumerates, Reaches, Holds, AllSimple, CharOpCount, CanPass, RunSimple, NoLook, GreedyRest, GreedyStateAt, Boundary;
    var here := o.(pos := Iter(m.env, code, o.pos, j));
    var less := o.(pos := Iter(m.env, code, o.pos, j - 1));
    var exit := pc + 17 + i.length;
    var c := Fail(ss + [GreedyStateAt(pc, here, stack, j)]);
    var extra := GreedyRest(pc, less, stack, j - 1);
    CanPassFewer(m.env, code, o.pos, j);
    GreedyStep(m, i, code, pc, o, stack, j, ss);
    ReachesStep(m, c);
    GreedyRestParts(pc, less, stack, j - 1, ss);
    BelowParts(m.env, code, o, j);
    if j == 1 {
      ReachesSelf(m, Fail(ss));
      EnumeratesNone(m, Fail(ss + extra), exit, stack, ss);
    } else {
      GreedyUnwinds(m, i, code, pc, o, stack, j - 1, ss);
    }
    EnumeratesCons(m, c, less, Below(m.env, code, o, j - 1), exit, stack, ss, extra);
  }

  lemma BelowParts(env: Env, code: Code, o: Outcome, j: nat)
    requires AllSimple(code) && j > 0 && CanPass(env, code, o.pos, j)
    ensures CanPass(env, code, o.pos, j - 1)
    ensures Below(env, code, o, j) == [o.(pos := Iter(env, code, o.pos, j - 1))] + Below(env, code, o, j - 1)
    ensures Below(env, code, o, 0) == []
  {
    CanPassFewer(env, code, o.pos, j);
  }

  lemma {:induction false} CanPassFewer(env: Env, code: Code, pos: int, j: nat)
    requires AllSimple(code) && CanPass(env, code, pos, j) && j > 0
    ensures CanPass(env, code, pos, j - 1)
    ensures RunSimple(env, code, Iter(env, code, pos, j - 1)) >= 0
    ensures RunSimple(env, code, Iter(env, code, pos, j - 1)) == Iter(env, code, pos, j)
    decreases j
  {
    if j > 1 {
      CanPassFewer(env, code, RunSimple(env, code, pos), j - 1);
    }
  }

  /** One backtracking step of the greedy state steps back over exactly one pass. */
  lemma GreedyStep(m: Machine, i: Instr, code: Code, pc: int, o: Outcome, stack: seq<int>, j: nat, ss: States)
    requires SimpleAtom(m.env, code) && Good(m.env, o) && CanPass(m.env, code, o.pos, j) && j > 0
    requires pc in m.program && m.program[pc] == i && i.SimpleGreedyQuant? && i.chars == CharOpCount(code)
    ensures var here := o.(pos := Iter(m.env, code, o.pos, j));
      var less := o.(pos := Iter(m.env, code, o.pos, j - 1));
      var extra := GreedyRest(pc, less, stack, j - 1);
      Step(m, Fail(ss + [GreedyStateAt(pc, here, stack, j)])) == Run(At(pc + 17 + i.length, less, stack), ss + extra)
  {
    CanPassFewer(m.env, code, o.pos, j);
    IterBoundary(m.env, code, o.pos, j - 1);
    SimpleBack(m.env, code, Iter(m.env, code, o.pos, j - 1));
    var here := o.(pos := Iter(m.env, code, o.pos, j));
    var top := GreedyStateAt(pc, here, stack, j);
    assert (ss + [top])[..|ss + [top]| - 1] == ss;
    assert ss + [] == ss;
  }

  lemma GreedyFirst(m: Machine, i: Instr, code: Code, pc: int, o: Outcome, stack: seq<int>, ss: States)
    requires SimpleAtom(m.env, code) && Good(m.env, o)
    requires pc in m.program && m.program[pc] == i && i.SimpleGreedyQuant?
    requires 0 <= i.min <= i.max <= INT32_MAX && i.max > 0 && Holds(m, pc + 17, code + [Match])
    ensures var n := Passes(m.env, code, o.pos, i.max);
      var last := o.(pos := Iter(m.env, code, o.pos, n));
      var extra := GreedyRest(pc, last, stack, n - i.min);
      Step(m, Run(At(pc, o, stack), ss)) ==
      if n < i.min then Fail(ss) else Run(At(pc + 17 + i.length, last, stack), ss + extra)
  {
    RunGreedyPasses(m, code, pc + 17, o.pos, 0, i.max);
    hide Holds, Passes, Iter, AllSimple, CharOpCount, RunGreedy;
    assert Step(m, Run(At(pc, o, stack), ss)) == ExecGreedy(m, i, At(pc, o, stack), ss);
    assert ss + [] == ss;
  }

  /** The instruction itself: all passes, then the state that takes them back. */
  lemma GreedyEnumerates(m: Machine, i: Instr, code: Code, pc: int, o: Outcome, stack: seq<int>, ss: States)
    requires SimpleAtom(m.env, code) && Good(m.env, o)
    requires pc in m.program && m.program[pc] == i && i.SimpleGreedyQuant? && i.chars == CharOpCount(code)
    requires 0 <= i.min <= i.max <= INT32_MAX && i.max > 0 && Holds(m, pc + 17, code + [Match])
    ensures var n := Passes(m.env, code, o.pos, i.max);
      var outs := if n < i.min then [] else
        [o.(pos := Iter(m.env, code, o.pos, n))] + Below(m.env, code, o.(pos := Iter(m.env, code, o.pos, i.min)), n - i.min);
      Enumerates(m, Run(At(pc, o, stack), ss), outs, pc + 17 + i.length, stack, ss)
  {
    hide Step, Passes, Iter, Below, Enumerates, Reaches, Holds, AllSimple, CharOpCount, CanPass, RunSimple, NoLook, GreedyRest, GreedyStateAt, Boundary;
    var n := Passes(m.env, code, o.pos, i.max);
    var c := Run(At(pc, o, stack), ss);
    var exit := pc + 17 + i.length;
    GreedyFirst(m, i, code, pc, o, stack, ss);
    ReachesStep(m, c);
    if n < i.min {
      EnumeratesNone(m, c, exit, stack, ss);
    } else {
      var last := o.(pos := Iter(m.env, code, o.pos, n));
      var base := o.(pos := Iter(m.env, code, o.pos, i.min));
      var extra := GreedyRest(pc, last, stack, n - i.min);
      PassesFromBase(m.env, code, o.pos, i.min, n, i.max);
      BaseGood(m.env, code, o, i.min);
      GreedyRestParts(pc, last, stack, n - i.min, ss);
      if n == i.min {
        ReachesSelf(m, Fail(ss));
        BelowNone(m.env, code, base);
        EnumeratesNone(m, Fail(ss + extra), exit, stack, ss);
      } else {
        GreedyUnwinds(m, i, code, pc, base, stack, n - i.min, ss);
      }
      EnumeratesCons(m, c, last, Below(m.env, code, base, n - i.min), exit, stack, ss, extra);
    }
  }

  lemma BelowNone(env: Env, code: Code, o: Outcome)
    requires AllSimple(code)
    ensures CanPass(env, code, o.pos, 0) && Below(env, code, o, 0) == []
  {
  }

  lemma BaseGood(env: Env, code: Code, o: Outcome, k: nat)
    requires SimpleAtom(env, code) && Good(env, o) && CanPass(env, code, o.pos, k)
    ensures Good(env, o.(pos := Iter(env, code, o.pos, k)))
  {
    hide Iter, CanPass, AllSimple, Boundary, CharOpCount;
    IterBoundary(env, code, o.pos, k);
  }

  lemma PassesFromBase(env: Env, code: Code, pos: int, k: nat, n: nat, max: int)
    requires SimpleAtom(env, code) && Boundary(env.input, pos) && k <= max <= INT32_MAX
    requires n == Passes(env, code, pos, max) && k <= n
    ensures CanPass(env, code, pos, k) && CanPass(env, code, Iter(env, code, pos, k), n - k)
    ensures Iter(env, code, Iter(env, code, pos, k), n - k) == Iter(env, code, pos, n)
  {
    PassesCan(env, code, pos, max, k);
    PassesSplit(env, code, pos, k, max);
    IterAdd(env, code, pos, k, n - k);
    IterBoundary(env, code, pos, k);
    PassesCan(env, code, Iter(env, code, pos, k), Further(k, max), n - k);
  }

  /** The greedy-quantifier optimisation produces the outcomes of the quantifier, in order. */
  lemma SimpleGreedyYields(m: Machine, pc: int, a: Term, min: nat, max: int, cc: nat, o: Outcome, stack: seq<int>)
    requires Ready(m.env, o) && ValidTerm(a) && 0 <= min <= max <= INT32_MAX && max > 0
    requires SimpleQuantifier(TermCode(m.env.flags, a, false, cc)) > 0
    requires Holds(m, pc, QuantifierCode(TermCode(m.env.flags, a, false, cc), min, max, true, cc, TermCaptures(a)))
    ensures Yields(m, pc, stack, o, TermOutcomes(m.env, Quantified(a, min, max, true), false, cc, o),
      pc + 18 + CodeSize(TermCode(m.env.flags, a, false, cc)), stack)
  {
    hide TermOutcomes, Holds, Passes, Iter, Below, Enumerates, TermCode, QuantifierCode, CodeSize;
    var code := TermCode(m.env.flags, a, false, cc);
    var i := SimpleGreedyQuant(CodeSize(code) + 1, min, max, SimpleQuantifier(code));
    GreedyCode(code, min, max, cc, TermCaptures(a));
    HoldsHead(m, pc, i, code + [Match]);
    SimpleHasNoCaptures(m.env.flags, a, cc);
    SimpleQuantifiedOutcomes(m.env, a, min, max, cc, o);
    forall ss ensures Enumerates(m, Run(At(pc, o, stack), ss),
      TermOutcomes(m.env, Quantified(a, min, max, true), false, cc, o), pc + 18 + CodeSize(code), stack, ss)
    {
      GreedyEnumerates(m, i, code, pc, o, stack, ss);
    }
  }

  lemma GreedyCode(code: Code, min: int, max: int, cc: nat, captures: nat)
    requires max > 0 && SimpleQuantifier(code) > 0
    ensures QuantifierCode(code, min, max, true, cc, captures) ==
      [SimpleGreedyQuant(CodeSize(code) + 1, min, max, SimpleQuantifier(code))] + (code + [Match])
  {
    hide CodeSize, SimpleQuantifier, Guarded, StarCode, UpToCode, RepeatCode, ResetCode, ZeroMinCode, FurtherCode;
  }
}
