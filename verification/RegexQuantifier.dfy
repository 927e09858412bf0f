/** The loops emitted for quantifiers produce the outcomes of the reference quantifier. */
module RegexQuantifier {
  import opened Words
  import opened RegexTerm
  import opened RegexCode
  import opened RegexMatcher
  import opened RegexMachine
  import opened RegexEnumerates
  import opened RegexInvariants
  import opened RegexGreedy

  lemma OneSize(i: Instr)
    ensures CodeSize([i]) == InstrSize(i)
  {
    assert [i][1..] == [];
  }

  /** The code of term `a`, wherever it is placed, produces the outcomes of `a`. */
  ghost predicate TermRuns(m: Machine, a: Term, back: bool, cc: nat)
    requires ValidTerm(a)
  {
    forall pc, stack, o :: TermRunsHere(m, a, back, cc, pc, stack, o)
  }

  ghost predicate TermRunsHere(m: Machine, a: Term, back: bool, cc: nat, pc: int, stack: seq<int>, o: Outcome)
    requires ValidTerm(a)
  {
    Ready(m.env, o) && Holds(m, pc, TermCode(m.env.flags, a, back, cc)) ==>
    Yields(m, pc, stack, o, TermOutcomes(m.env, a, back, cc, o), pc + CodeSize(TermCode(m.env.flags, a, back, cc)), stack)
  }

  lemma TermRunsAt(m: Machine, a: Term, back: bool, cc: nat, pc: int, stack: seq<int>, o: Outcome)
    requires ValidTerm(a) && TermRuns(m, a, back, cc)
    requires Ready(m.env, o) && Holds(m, pc, TermCode(m.env.flags, a, back, cc))
    ensures Yields(m, pc, stack, o, TermOutcomes(m.env, a, back, cc, o), pc + CodeSize(TermCode(m.env.flags, a, back, cc)), stack)
  {
    hide Yields, Holds, TermOutcomes, TermCode, Ready, CodeSize;
    assert TermRunsHere(m, a, back, cc, pc, stack, o);
  }

  lemma OutcomeReady(env: Env, t: Term, back: bool, cc: nat, o: Outcome, k: nat)
    requires Ready(env, o) && k < |TermOutcomes(env, t, back, cc, o)|
    ensures var p := TermOutcomes(env, t, back, cc, o)[k];
            Ready(env, p) && Distance(env, back, p.pos) <= Distance(env, back, o.pos) &&
            (Advances(env, back, o.pos, p.pos) <==> p.pos != o.pos)
  {
    TermGood(env, t, back, cc, o);
    GoodAt(env, back, o.pos, TermOutcomes(env, t, back, cc, o), k);
  }

  // --- single instructions ---

  lemma GotoYields(m: Machine, pc: int, stack: seq<int>, o: Outcome, outs: Outcomes, exit: int, stackOut: seq<int>)
    requires pc in m.program && m.program[pc].Goto?
    requires Yields(m, pc + 5 + m.program[pc].offset, stack, o, outs, exit, stackOut)
    ensures Yields(m, pc, stack, o, outs, exit, stackOut)
  {
    hide Yields;
    YieldsStep(m, pc, stack, o, outs, exit, stackOut, pc + 5 + m.program[pc].offset, stack, o);
  }

  lemma DropYields(m: Machine, pc: int, stack: seq<int>, n: int, o: Outcome)
    requires pc in m.program && m.program[pc].Drop?
    ensures Yields(m, pc, stack + [n], o, [o], pc + 1, stack)
  {
    hide Yields;
    YieldsSelf(m, pc + 1, stack, o);
    assert (stack + [n])[..|stack + [n]| - 1] == stack;
    YieldsStep(m, pc, stack + [n], o, [o], pc + 1, stack, pc + 1, stack, o);
  }

  lemma PushYields(m: Machine, pc: int, stack: seq<int>, o: Outcome, outs: Outcomes, exit: int, stackOut: seq<int>)
    requires pc in m.program && m.program[pc].PushI32?
    requires Yields(m, pc + 5, stack + [m.program[pc].value], o, outs, exit, stackOut)
    ensures Yields(m, pc, stack, o, outs, exit, stackOut)
  {
    hide Yields;
    YieldsStep(m, pc, stack, o, outs, exit, stackOut, pc + 5, stack + [m.program[pc].value], o);
  }

  /** loop: jump while the counter is not exhausted, else fall through. */
  lemma LoopYields(m: Machine, pc: int, stack: seq<int>, n: int, o: Outcome, outs: Outcomes, exit: int, stackOut: seq<int>)
    requires pc in m.program && m.program[pc].Loop?
    requires Yields(m, if n - 1 != 0 then pc + 5 + m.program[pc].offset else pc + 5, stack + [n - 1], o, outs, exit, stackOut)
    ensures Yields(m, pc, stack + [n], o, outs, exit, stackOut)
  {
    hide Yields;
    assert (stack + [n])[|stack + [n]| - 1 := n - 1] == stack + [n - 1];
    YieldsStep(m, pc, stack + [n], o, outs, exit, stackOut,
      if n - 1 != 0 then pc + 5 + m.program[pc].offset else pc + 5, stack + [n - 1], o);
  }

  lemma PushPosYields(m: Machine, pc: int, stack: seq<int>, o: Outcome, outs: Outcomes, exit: int, stackOut: seq<int>)
    requires pc in m.program && m.program[pc].PushCharPos?
    requires Yields(m, pc + 1, stack + [o.pos], o, outs, exit, stackOut)
    ensures Yields(m, pc, stack, o, outs, exit, stackOut)
  {
    hide Yields;
    YieldsStep(m, pc, stack, o, outs, exit, stackOut, pc + 1, stack + [o.pos], o);
  }

  /** check_advance: fail unless the cursor has left `pos0`. */
  lemma CheckYields(m: Machine, pc: int, stack: seq<int>, pos0: int, o: Outcome, outs: Outcomes, exit: int, stackOut: seq<int>)
    requires pc in m.program && m.program[pc].CheckAdvance?
    requires if o.pos == pos0 then outs == [] else Yields(m, pc + 1, stack, o, outs, exit, stackOut)
    ensures Yields(m, pc, stack + [pos0], o, outs, exit, stackOut)
  {
    hide Yields;
    assert (stack + [pos0])[..|stack + [pos0]| - 1] == stack;
    if o.pos == pos0 {
      YieldsFail(m, pc, stack + [pos0], o, exit, stackOut);
    } else {
      YieldsStep(m, pc, stack + [pos0], o, outs, exit, stackOut, pc + 1, stack, o);
    }
  }

  // --- one guarded iteration ---

  lemma GuardedSize(atom: Code, check: bool)
    ensures CodeSize(Guarded(atom, check)) == CodeSize(atom) + if check then 2 else 0
  {
    CodeSizeAppend([PushCharPos] + atom, [CheckAdvance]);
    CodeSizeAppend([PushCharPos], atom);
    OneSize(PushCharPos);
    OneSize(CheckAdvance);
  }

  lemma GuardedHolds(m: Machine, pc: int, atom: Code)
    requires Holds(m, pc, Guarded(atom, true))
    ensures pc in m.program && m.program[pc] == PushCharPos && Holds(m, pc + 1, atom)
    ensures var mid := pc + 1 + CodeSize(atom); mid in m.program && m.program[mid] == CheckAdvance
  {
    hide Holds, CodeSize;
    var tail := atom + [CheckAdvance];
    assert Guarded(atom, true) == [PushCharPos] + tail;
    HoldsHead(m, pc, PushCharPos, tail);
    HoldsAppend(m, pc + 1, atom, [CheckAdvance]);
    HoldsOne(m, pc + 1 + CodeSize(atom), CheckAdvance);
  }

  /** Each continuation of an iteration that has advanced; none for one that has not. */
  ghost predicate Continued(m: Machine, back: bool, pos: int, outs: Outcomes, fs: seq<Outcomes>, mid: int, stackMid: seq<int>, exit: int, stackOut: seq<int>) {
    |fs| == |outs| &&
    forall k :: 0 <= k < |outs| ==>
      if Advances(m.env, back, pos, outs[k].pos)
      then Yields(m, mid, stackMid, outs[k], fs[k], exit, stackOut)
      else fs[k] == []
  }

  lemma ContinuedIs(m: Machine, back: bool, pos: int, outs: Outcomes, fs: seq<Outcomes>, mid: int, stackMid: seq<int>, exit: int, stackOut: seq<int>)
    requires |fs| == |outs|
    requires forall k :: 0 <= k < |outs| && Advances(m.env, back, pos, outs[k].pos) ==>
      Yields(m, mid, stackMid, outs[k], fs[k], exit, stackOut)
    requires forall k :: 0 <= k < |outs| && !Advances(m.env, back, pos, outs[k].pos) ==> fs[k] == []
    ensures Continued(m, back, pos, outs, fs, mid, stackMid, exit, stackOut)
  {
    hide Yields, Advances;
  }

  lemma AdvanceNearer(env: Env, back: bool, from: int, to: int)
    requires Advances(env, back, from, to)
    ensures Distance(env, back, to) < Distance(env, back, from)
  {
  }

  /** An optional iteration: the atom, then only those outcomes that have advanced. With
      the check left out by the compiler, all of them have. */
  lemma GuardedYields(m: Machine, pc: int, a: Term, back: bool, cc: nat, o: Outcome, fs: seq<Outcomes>, stack: seq<int>, exit: int, stackOut: seq<int>)
    requires ValidTerm(a) && TermRuns(m, a, back, cc) && Ready(m.env, o)
    requires var atom := TermCode(m.env.flags, a, back, cc);
      Holds(m, pc, Guarded(atom, NeedCheckAdvance(atom))) &&
      Continued(m, back, o.pos, TermOutcomes(m.env, a, back, cc, o), fs,
        pc + CodeSize(Guarded(atom, NeedCheckAdvance(atom))), stack, exit, stackOut)
    ensures Yields(m, pc, stack, o, Flatten(fs), exit, stackOut)
  {
    hide *;
    var atom := TermCode(m.env.flags, a, back, cc);
    if NeedCheckAdvance(atom) {
      CheckedYields(m, pc, a, back, cc, o, fs, stack, exit, stackOut);
    } else {
      UncheckedYields(m, pc, a, back, cc, o, fs, stack, exit, stackOut);
    }
  }

  lemma CheckedYields(m: Machine, pc: int, a: Term, back: bool, cc: nat, o: Outcome, fs: seq<Outcomes>, stack: seq<int>, exit: int, stackOut: seq<int>)
    requires ValidTerm(a) && TermRuns(m, a, back, cc) && Ready(m.env, o)
    requires var atom := TermCode(m.env.flags, a, back, cc);
      Holds(m, pc, Guarded(atom, true)) &&
      Continued(m, back, o.pos, TermOutcomes(m.env, a, back, cc, o), fs, pc + CodeSize(Guarded(atom, true)), stack, exit, stackOut)
    ensures Yields(m, pc, stack, o, Flatten(fs), exit, stackOut)
  {
    hide Yields, TermRuns, TermOutcomes, Flatten, Distance;
    var atom := TermCode(m.env.flags, a, back, cc);
    var outs := TermOutcomes(m.env, a, back, cc, o);
    GuardedSize(atom, true);
    GuardedHolds(m, pc, atom);
    var mid := pc + 1 + CodeSize(atom);
    TermRunsAt(m, a, back, cc, pc + 1, stack + [o.pos], o);
    forall k | 0 <= k < |outs|
      ensures Yields(m, mid, stack + [o.pos], outs[k], fs[k], exit, stackOut)
    {
      OutcomeReady(m.env, a, back, cc, o, k);
      CheckYields(m, mid, stack, o.pos, outs[k], fs[k], exit, stackOut);
    }
    YieldsBind(m, pc + 1, stack + [o.pos], o, outs, fs, mid, stack + [o.pos], exit, stackOut);
    PushPosYields(m, pc, stack, o, Flatten(fs), exit, stackOut);
  }

  /** The check was left out because every pass advances. */
  lemma UncheckedYields(m: Machine, pc: int, a: Term, back: bool, cc: nat, o: Outcome, fs: seq<Outcomes>, stack: seq<int>, exit: int, stackOut: seq<int>)
    requires ValidTerm(a) && TermRuns(m, a, back, cc) && Ready(m.env, o)
    requires var atom := TermCode(m.env.flags, a, back, cc);
      !NeedCheckAdvance(atom) && Holds(m, pc, Guarded(atom, false)) &&
      Continued(m, back, o.pos, TermOutcomes(m.env, a, back, cc, o), fs, pc + CodeSize(Guarded(atom, false)), stack, exit, stackOut)
    ensures Yields(m, pc, stack, o, Flatten(fs), exit, stackOut)
  {
    hide Yields, TermRuns, TermOutcomes, Flatten, Distance;
    var atom := TermCode(m.env.flags, a, back, cc);
    var outs := TermOutcomes(m.env, a, back, cc, o);
    GuardedSize(atom, false);
    TermAdvances(m.env, a, back, cc, o);
    TermRunsAt(m, a, back, cc, pc, stack, o);
    YieldsBind(m, pc, stack, o, outs, fs, pc + CodeSize(atom), stack, exit, stackOut);
  }

  // --- layout of the loops ---

  lemma StarLayout(m: Machine, pc: int, body: Code, greedy: bool)
    requires Holds(m, pc, StarCode(body, greedy))
    ensures CodeSize(StarCode(body, greedy)) == CodeSize(body) + 10
    ensures pc in m.program && m.program[pc] == Split(greedy, CodeSize(body) + 5)
    ensures Holds(m, pc + 5, body)
    ensures var mid := pc + 5 + CodeSize(body); mid in m.program && m.program[mid] == Goto(-(CodeSize(body) + 10))
  {
    hide Holds, CodeSize;
    var head, last := Split(greedy, CodeSize(body) + 5), Goto(-(CodeSize(body) + 10));
    assert StarCode(body, greedy) == [head] + (body + [last]);
    HoldsHead(m, pc, head, body + [last]);
    HoldsAppend(m, pc + 5, body, [last]);
    HoldsOne(m, pc + 5 + CodeSize(body), last);
    OneSize(head);
    OneSize(last);
    CodeSizeAppend([head] + body, [last]);
    CodeSizeAppend([head], body);
  }

  lemma UpToLayout(m: Machine, pc: int, body: Code, n: int, greedy: bool)
    requires Holds(m, pc, UpToCode(body, n, greedy))
    ensures CodeSize(UpToCode(body, n, greedy)) == CodeSize(body) + 16
    ensures pc in m.program && m.program[pc] == PushI32(n)
    ensures pc + 5 in m.program && m.program[pc + 5] == Split(greedy, CodeSize(body) + 5)
    ensures Holds(m, pc + 10, body)
    ensures var mid := pc + 10 + CodeSize(body);
      mid in m.program && m.program[mid] == Loop(-(CodeSize(body) + 10)) &&
      mid + 5 in m.program && m.program[mid + 5] == Drop
  {
    hide Holds, CodeSize;
    var push, head, last := PushI32(n), Split(greedy, CodeSize(body) + 5), Loop(-(CodeSize(body) + 10));
    var rest := [head] + (body + [last, Drop]);
    assert UpToCode(body, n, greedy) == [push] + rest;
    assert InstrSize(push) == 5 && InstrSize(head) == 5 && InstrSize(last) == 5 && InstrSize(Drop) == 1;
    hide *;
    HoldsHead(m, pc, push, rest);
    HoldsHead(m, pc + 5, head, body + [last, Drop]);
    HoldsAppend(m, pc + 10, body, [last, Drop]);
    assert [last, Drop] == [last] + [Drop];
    HoldsHead(m, pc + 10 + CodeSize(body), last, [Drop]);
    HoldsOne(m, pc + 15 + CodeSize(body), Drop);
    OneSize(push);
    OneSize(head);
    OneSize(last);
    OneSize(Drop);
    CodeSizeAppend([push], rest);
    CodeSizeAppend([head], body + [last, Drop]);
    CodeSizeAppend(body, [last, Drop]);
    CodeSizeAppend([last], [Drop]);
  }

  lemma RepeatLayout(m: Machine, pc: int, atom: Code, n: int)
    requires Holds(m, pc, RepeatCode(atom, n)) && n != 1
    ensures CodeSize(RepeatCode(atom, n)) == CodeSize(atom) + 11
    ensures pc in m.program && m.program[pc] == PushI32(n)
    ensures Holds(m, pc + 5, atom)
    ensures var mid := pc + 5 + CodeSize(atom);
      mid in m.program && m.program[mid] == Loop(-(CodeSize(atom) + 5)) &&
      mid + 5 in m.program && m.program[mid + 5] == Drop
  {
    hide Holds, CodeSize;
    var push, last := PushI32(n), Loop(-(CodeSize(atom) + 5));
    assert RepeatCode(atom, n) == [push] + (atom + [last, Drop]);
    HoldsHead(m, pc, push, atom + [last, Drop]);
    HoldsAppend(m, pc + 5, atom, [last, Drop]);
    assert [last, Drop] == [last] + [Drop];
    HoldsHead(m, pc + 5 + CodeSize(atom), last, [Drop]);
    HoldsOne(m, pc + 10 + CodeSize(atom), Drop);
    OneSize(push);
    OneSize(last);
    OneSize(Drop);
    CodeSizeAppend([push], atom + [last, Drop]);
    CodeSizeAppend(atom, [last, Drop]);
    CodeSizeAppend([last], [Drop]);
  }

  // --- optional iterations ---

  /** The outcomes of an optional iteration and of stopping here, in the order of a split. */
  lemma ChoiceYields(m: Machine, pc: int, stack: seq<int>, o: Outcome, more: Outcomes, greedy: bool, off: int, exit: int, stackOut: seq<int>)
    requires pc in m.program && m.program[pc] == Split(greedy, off)
    requires Yields(m, pc + 5, stack, o, more, exit, stackOut)
    requires Yields(m, pc + 5 + off, stack, o, [o], exit, stackOut)
    ensures Yields(m, pc, stack, o, if greedy then more + [o] else [o] + more, exit, stackOut)
  {
    hide Yields;
    if greedy {
      YieldsSplit(m, pc, stack, o, more, [o], pc + 5, pc + 5 + off, exit, stackOut);
    } else {
      YieldsSplit(m, pc, stack, o, [o], more, pc + 5 + off, pc + 5, exit, stackOut);
    }
  }

  lemma FewerIs(m: int)
    ensures Fewer(m) == (if m == INT32_MAX then m else m - 1) && INT32_MAX > 0
  {
  }

  /** An optional iteration behind a split: the outcomes that continue it, and stopping here. */
  lemma GuardedChoice(m: Machine, pc: int, a: Term, greedy: bool, back: bool, cc: nat, o: Outcome, fs: seq<Outcomes>, stack: seq<int>, exit: int, stackOut: seq<int>)
    requires ValidTerm(a) && TermRuns(m, a, back, cc) && Ready(m.env, o)
    requires var atom := TermCode(m.env.flags, a, back, cc);
      var body := Guarded(atom, NeedCheckAdvance(atom));
      Holds(m, pc + 5, body) && pc in m.program && m.program[pc] == Split(greedy, CodeSize(body) + 5) &&
      Continued(m, back, o.pos, TermOutcomes(m.env, a, back, cc, o), fs, pc + 5 + CodeSize(body), stack, exit, stackOut) &&
      Yields(m, pc + 10 + CodeSize(body), stack, o, [o], exit, stackOut)
    ensures Yields(m, pc, stack, o, if greedy then Flatten(fs) + [o] else [o] + Flatten(fs), exit, stackOut)
  {
    hide *;
    var atom := TermCode(m.env.flags, a, back, cc);
    GuardedYields(m, pc + 5, a, back, cc, o, fs, stack, exit, stackOut);
    ChoiceYields(m, pc, stack, o, Flatten(fs), greedy, CodeSize(Guarded(atom, NeedCheckAdvance(atom))) + 5, exit, stackOut);
  }

  /** split; guarded atom; goto: any number of further iterations. */
  lemma {:induction false} StarYields(m: Machine, pc: int, a: Term, greedy: bool, back: bool, cc: nat, o: Outcome, stack: seq<int>)
    requires ValidTerm(a) && TermRuns(m, a, back, cc) && Ready(m.env, o)
    requires var atom := TermCode(m.env.flags, a, back, cc);
      Holds(m, pc, StarCode(Guarded(atom, NeedCheckAdvance(atom)), greedy))
    ensures var atom := TermCode(m.env.flags, a, back, cc);
      Yields(m, pc, stack, o, Optional(m.env, a, INT32_MAX, greedy, back, cc, o),
        pc + CodeSize(Guarded(atom, NeedCheckAdvance(atom))) + 10, stack)
    decreases Distance(m.env, back, o.pos)
  {
    hide *;
    var atom := TermCode(m.env.flags, a, back, cc);
    var body := Guarded(atom, NeedCheckAdvance(atom));
    var outs := TermOutcomes(m.env, a, back, cc, o);
    var fs := OptionalEach(m.env, a, INT32_MAX, greedy, back, cc, o, outs);
    FewerIs(INT32_MAX);
    var exit := pc + CodeSize(body) + 10;
    StarLayout(m, pc, body, greedy);
    StarContinues(m, pc, a, greedy, back, cc, o, stack);
    YieldsSelf(m, exit, stack, o);
    GuardedChoice(m, pc, a, greedy, back, cc, o, fs, stack, exit, stack);
    OptionalStep(m.env, a, INT32_MAX, greedy, back, cc, o);
  }

  lemma {:induction false} StarContinues(m: Machine, pc: int, a: Term, greedy: bool, back: bool, cc: nat, o: Outcome, stack: seq<int>)
    requires ValidTerm(a) && TermRuns(m, a, back, cc) && Ready(m.env, o)
    requires var atom := TermCode(m.env.flags, a, back, cc);
      Holds(m, pc, StarCode(Guarded(atom, NeedCheckAdvance(atom)), greedy))
    ensures var atom := TermCode(m.env.flags, a, back, cc);
      var size := CodeSize(Guarded(atom, NeedCheckAdvance(atom)));
      var outs := TermOutcomes(m.env, a, back, cc, o);
      Continued(m, back, o.pos, outs, OptionalEach(m.env, a, INT32_MAX, greedy, back, cc, o, outs),
        pc + 5 + size, stack, pc + size + 10, stack)
    decreases Distance(m.env, back, o.pos), -1
  {
    hide *;
    var atom := TermCode(m.env.flags, a, back, cc);
    var body := Guarded(atom, NeedCheckAdvance(atom));
    var outs := TermOutcomes(m.env, a, back, cc, o);
    var fs := OptionalEach(m.env, a, INT32_MAX, greedy, back, cc, o, outs);
    var mid, exit := pc + 5 + CodeSize(body), pc + CodeSize(body) + 10;
    StarLayout(m, pc, body, greedy);
    forall k | 0 <= k < |outs| && Advances(m.env, back, o.pos, outs[k].pos)
      ensures Yields(m, mid, stack, outs[k], fs[k], exit, stack)
    {
      OutcomeReady(m.env, a, back, cc, o, k);
      AdvanceNearer(m.env, back, o.pos, outs[k].pos);
      StarYields(m, pc, a, greedy, back, cc, outs[k], stack);
      GotoYields(m, mid, stack, outs[k], fs[k], exit, stack);
    }
    ContinuedIs(m, back, o.pos, outs, fs, mid, stack, exit, stack);
  }

  /** split; guarded atom; loop; drop, entered with the counter `n`: up to `n` iterations. */
  lemma {:induction false} CountdownYields(m: Machine, pc: int, a: Term, n: int, n0: int, greedy: bool, back: bool, cc: nat, o: Outcome, stack: seq<int>)
    requires ValidTerm(a) && TermRuns(m, a, back, cc) && Ready(m.env, o) && 1 <= n < INT32_MAX
    requires var atom := TermCode(m.env.flags, a, back, cc);
      Holds(m, pc, UpToCode(Guarded(atom, NeedCheckAdvance(atom)), n0, greedy))
    ensures var atom := TermCode(m.env.flags, a, back, cc);
      Yields(m, pc + 5, stack + [n], o, Optional(m.env, a, n, greedy, back, cc, o),
        pc + CodeSize(Guarded(atom, NeedCheckAdvance(atom))) + 16, stack)
    decreases n
  {
    hide *;
    var atom := TermCode(m.env.flags, a, back, cc);
    var body := Guarded(atom, NeedCheckAdvance(atom));
    var outs := TermOutcomes(m.env, a, back, cc, o);
    var fs := OptionalEach(m.env, a, n - 1, greedy, back, cc, o, outs);
    FewerIs(n);
    var exit := pc + CodeSize(body) + 16;
    UpToLayout(m, pc, body, n0, greedy);
    CountdownContinues(m, pc, a, n, n0, greedy, back, cc, o, stack);
    DropYields(m, pc + 15 + CodeSize(body), stack, n, o);
    GuardedChoice(m, pc + 5, a, greedy, back, cc, o, fs, stack + [n], exit, stack);
    OptionalStep(m.env, a, n, greedy, back, cc, o);
  }

  lemma {:induction false} CountdownContinues(m: Machine, pc: int, a: Term, n: int, n0: int, greedy: bool, back: bool, cc: nat, o: Outcome, stack: seq<int>)
    requires ValidTerm(a) && TermRuns(m, a, back, cc) && Ready(m.env, o) && 1 <= n < INT32_MAX
    requires var atom := TermCode(m.env.flags, a, back, cc);
      Holds(m, pc, UpToCode(Guarded(atom, NeedCheckAdvance(atom)), n0, greedy))
    ensures var atom := TermCode(m.env.flags, a, back, cc);
      var size := CodeSize(Guarded(atom, NeedCheckAdvance(atom)));
      var outs := TermOutcomes(m.env, a, back, cc, o);
      Continued(m, back, o.pos, outs, OptionalEach(m.env, a, n - 1, greedy, back, cc, o, outs),
        pc + 10 + size, stack + [n], pc + size + 16, stack)
    decreases n, -1
  {
    hide *;
    var atom := TermCode(m.env.flags, a, back, cc);
    var body := Guarded(atom, NeedCheckAdvance(atom));
    var outs := TermOutcomes(m.env, a, back, cc, o);
    var fs := OptionalEach(m.env, a, n - 1, greedy, back, cc, o, outs);
    var mid, exit := pc + 10 + CodeSize(body), pc + CodeSize(body) + 16;
    UpToLayout(m, pc, body, n0, greedy);
    forall k | 0 <= k < |outs| && Advances(m.env, back, o.pos, outs[k].pos)
      ensures Yields(m, mid, stack + [n], outs[k], fs[k], exit, stack)
    {
      OutcomeReady(m.env, a, back, cc, o, k);
      if n - 1 != 0 {
        CountdownYields(m, pc, a, n - 1, n0, greedy, back, cc, outs[k], stack);
      } else {
        OptionalNone(m.env, a, greedy, back, cc, outs[k]);
        DropYields(m, mid + 5, stack, n - 1, outs[k]);
      }
      LoopYields(m, mid, stack, n, outs[k], fs[k], exit, stack);
    }
    ContinuedIs(m, back, o.pos, outs, fs, mid, stack + [n], exit, stack);
  }

  /** push n; split; guarded atom; loop; drop: up to `n` iterations. */
  lemma UpToYields(m: Machine, pc: int, a: Term, n: int, greedy: bool, back: bool, cc: nat, o: Outcome, stack: seq<int>)
    requires ValidTerm(a) && TermRuns(m, a, back, cc) && Ready(m.env, o) && 1 <= n < INT32_MAX
    requires var atom := TermCode(m.env.flags, a, back, cc);
      Holds(m, pc, UpToCode(Guarded(atom, NeedCheckAdvance(atom)), n, greedy))
    ensures var atom := TermCode(m.env.flags, a, back, cc);
      Yields(m, pc, stack, o, Optional(m.env, a, n, greedy, back, cc, o),
        pc + CodeSize(Guarded(atom, NeedCheckAdvance(atom))) + 16, stack)
  {
    hide Yields, TermRuns, TermOutcomes, Holds, Guarded, TermCode, Optional, NeedCheckAdvance;
    var atom := TermCode(m.env.flags, a, back, cc);
    var body := Guarded(atom, NeedCheckAdvance(atom));
    UpToLayout(m, pc, body, n, greedy);
    CountdownYields(m, pc, a, n, n, greedy, back, cc, o, stack);
    PushYields(m, pc, stack, o, Optional(m.env, a, n, greedy, back, cc, o), pc + CodeSize(body) + 16, stack);
  }

  /** split; guarded atom: at most one iteration. */
  lemma AtMostOneYields(m: Machine, pc: int, a: Term, greedy: bool, back: bool, cc: nat, o: Outcome, stack: seq<int>)
    requires ValidTerm(a) && TermRuns(m, a, back, cc) && Ready(m.env, o)
    requires var atom := TermCode(m.env.flags, a, back, cc);
      var body := Guarded(atom, NeedCheckAdvance(atom));
      Holds(m, pc, [Split(greedy, CodeSize(body))] + body)
    ensures var atom := TermCode(m.env.flags, a, back, cc);
      Yields(m, pc, stack, o, Optional(m.env, a, 1, greedy, back, cc, o),
        pc + CodeSize(Guarded(atom, NeedCheckAdvance(atom))) + 5, stack)
  {
    hide Yields, TermRuns, TermOutcomes, Flatten, Holds, Guarded, TermCode, Optional, NeedCheckAdvance;
    var atom := TermCode(m.env.flags, a, back, cc);
    var body := Guarded(atom, NeedCheckAdvance(atom));
    var outs := TermOutcomes(m.env, a, back, cc, o);
    var fs := OptionalEach(m.env, a, 0, greedy, back, cc, o, outs);
    var exit := pc + CodeSize(body) + 5;
    HoldsHead(m, pc, Split(greedy, CodeSize(body)), body);
    forall k | 0 <= k < |outs| && Advances(m.env, back, o.pos, outs[k].pos)
      ensures Yields(m, exit, stack, outs[k], fs[k], exit, stack)
    {
      OptionalNone(m.env, a, greedy, back, cc, outs[k]);
      YieldsSelf(m, exit, stack, outs[k]);
    }
    GuardedYields(m, pc + 5, a, back, cc, o, fs, stack, exit, stack);
    YieldsSelf(m, exit, stack, o);
    ChoiceYields(m, pc, stack, o, Flatten(fs), greedy, CodeSize(body), exit, stack);
    OptionalStep(m.env, a, 1, greedy, back, cc, o);
  }

  // --- mandatory iterations ---

  /** atom; loop; drop, entered with the counter `n`: exactly `n` iterations. */
  lemma {:induction false} RepeatCountdown(m: Machine, pc: int, a: Term, n: nat, n0: int, back: bool, cc: nat, o: Outcome, stack: seq<int>)
    requires ValidTerm(a) && TermRuns(m, a, back, cc) && Ready(m.env, o) && n >= 1 && n0 != 1
    requires Holds(m, pc, RepeatCode(TermCode(m.env.flags, a, back, cc), n0))
    ensures Yields(m, pc + 5, stack + [n], o, Mandatory(m.env, a, n, back, cc, o),
        pc + CodeSize(TermCode(m.env.flags, a, back, cc)) + 11, stack)
    decreases n
  {
    hide Yields, TermRuns, TermOutcomes, Flatten, Holds, TermCode, Mandatory;
    var atom := TermCode(m.env.flags, a, back, cc);
    var outs := TermOutcomes(m.env, a, back, cc, o);
    var fs := MandatoryEach(m.env, a, n - 1, back, cc, outs);
    var mid, exit := pc + 5 + CodeSize(atom), pc + CodeSize(atom) + 11;
    RepeatLayout(m, pc, atom, n0);
    forall k | 0 <= k < |outs| ensures Yields(m, mid, stack + [n], outs[k], fs[k], exit, stack) {
      OutcomeReady(m.env, a, back, cc, o, k);
      if n - 1 != 0 {
        RepeatCountdown(m, pc, a, n - 1, n0, back, cc, outs[k], stack);
      } else {
        MandatoryNone(m.env, a, back, cc, outs[k]);
        DropYields(m, mid + 5, stack, n - 1, outs[k]);
      }
      LoopYields(m, mid, stack, n, outs[k], fs[k], exit, stack);
    }
    TermRunsAt(m, a, back, cc, pc + 5, stack + [n], o);
    YieldsBind(m, pc + 5, stack + [n], o, outs, fs, mid, stack + [n], exit, stack);
    MandatoryStep(m.env, a, n - 1, back, cc, o);
  }

  /** The mandatory part: exactly `n` iterations. */
  lemma RepeatYields(m: Machine, pc: int, a: Term, n: nat, back: bool, cc: nat, o: Outcome, stack: seq<int>)
    requires ValidTerm(a) && TermRuns(m, a, back, cc) && Ready(m.env, o) && n >= 1
    requires Holds(m, pc, RepeatCode(TermCode(m.env.flags, a, back, cc), n))
    ensures Yields(m, pc, stack, o, Mandatory(m.env, a, n, back, cc, o),
        pc + CodeSize(RepeatCode(TermCode(m.env.flags, a, back, cc), n)), stack)
  {
    hide Yields, TermRuns, TermOutcomes, Holds, TermCode, Mandatory;
    var atom := TermCode(m.env.flags, a, back, cc);
    if n == 1 {
      RepeatOnce(m.env, a, back, cc, o);
      TermRunsAt(m, a, back, cc, pc, stack, o);
    } else {
      RepeatLayout(m, pc, atom, n);
      RepeatCountdown(m, pc, a, n, n, back, cc, o, stack);
      PushYields(m, pc, stack, o, Mandatory(m.env, a, n, back, cc, o), pc + CodeSize(atom) + 11, stack);
    }
  }

  /** atom; split to atom: entered at the split, any number of further iterations. */
  lemma {:induction false} PlusTailYields(m: Machine, pc: int, a: Term, greedy: bool, back: bool, cc: nat, o: Outcome, stack: seq<int>)
    requires ValidTerm(a) && TermRuns(m, a, back, cc) && Ready(m.env, o)
    requires var atom := TermCode(m.env.flags, a, back, cc);
      !NeedCheckAdvance(atom) && Holds(m, pc, atom + [Split(!greedy, -(CodeSize(atom) + 5))])
    ensures var atom := TermCode(m.env.flags, a, back, cc);
      Yields(m, pc + CodeSize(atom), stack, o, Optional(m.env, a, INT32_MAX, greedy, back, cc, o), pc + CodeSize(atom) + 5, stack)
    decreases Distance(m.env, back, o.pos)
  {
    hide Yields, TermRuns, TermOutcomes, Flatten, Holds, TermCode, Optional, NeedCheckAdvance;
    var atom := TermCode(m.env.flags, a, back, cc);
    var outs := TermOutcomes(m.env, a, back, cc, o);
    var fs := OptionalEach(m.env, a, INT32_MAX, greedy, back, cc, o, outs);
    var mid, exit := pc + CodeSize(atom), pc + CodeSize(atom) + 5;
    SplitSize(!greedy, -(CodeSize(atom) + 5));
    TailLayout(m, pc, atom, Split(!greedy, -(CodeSize(atom) + 5)));
    TermAdvances(m.env, a, back, cc, o);
    forall k | 0 <= k < |outs| ensures Yields(m, mid, stack, outs[k], fs[k], exit, stack) {
      OutcomeReady(m.env, a, back, cc, o, k);
      assert Advances(m.env, back, o.pos, outs[k].pos);
      PlusTailYields(m, pc, a, greedy, back, cc, outs[k], stack);
    }
    TermRunsAt(m, a, back, cc, pc, stack, o);
    YieldsBind(m, pc, stack, o, outs, fs, mid, stack, exit, stack);
    YieldsSelf(m, exit, stack, o);
    if greedy {
      YieldsSplit(m, mid, stack, o, Flatten(fs), [o], pc, exit, exit, stack);
    } else {
      YieldsSplit(m, mid, stack, o, [o], Flatten(fs), exit, pc, exit, stack);
    }
    OptionalStep(m.env, a, INT32_MAX, greedy, back, cc, o);
  }

  lemma SplitSize(nextFirst: bool, off: int)
    ensures InstrSize(Split(nextFirst, off)) == 5
  {
  }

  lemma TailLayout(m: Machine, pc: int, atom: Code, last: Instr)
    requires Holds(m, pc, atom + [last])
    ensures Holds(m, pc, atom)
    ensures pc + CodeSize(atom) in m.program && m.program[pc + CodeSize(atom)] == last
    ensures CodeSize(atom + [last]) == CodeSize(atom) + InstrSize(last)
  {
    hide *;
    HoldsAppend(m, pc, atom, [last]);
    HoldsOne(m, pc + CodeSize(atom), last);
    CodeSizeAppend(atom, [last]);
    OneSize(last);
  }
}
