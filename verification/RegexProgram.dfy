/** Whole programs: lre_compile wraps the expression, lre_exec runs it. */
module RegexProgram {
  import opened RegexInput
  import opened RegexTerm
  import opened RegexCode
  import opened RegexMatcher
  import opened RegexMachine
  import opened RegexEnumerates
  import opened RegexInvariants
  import opened RegexGreedy
  import opened RegexQuantifier
  import opened RegexSimulation
  import opened RegexFrame
  import opened RegexCorrect

  /** The instructions of a piece of code by byte offset. */
  function Layout(code: Code, pc: int): map<int, Instr>
    decreases |code|
  {
    if code == [] then map[] else Layout(code[1..], pc + InstrSize(code[0]))[pc := code[0]]
  }

  lemma {:induction false} LayoutKeys(code: Code, pc: int, k: int)
    requires k in Layout(code, pc)
    ensures pc <= k && k + InstrSize(Layout(code, pc)[k]) <= pc + CodeSize(code)
    decreases |code|
  {
    if k != pc {
      LayoutKeys(code[1..], pc + InstrSize(code[0]), k);
    }
  }

  lemma {:induction false} LayoutHolds(m: Machine, code: Code, pc: int)
    requires 0 <= pc && pc + CodeSize(code) <= m.size
    requires forall k :: k in Layout(code, pc) ==> k in m.program && m.program[k] == Layout(code, pc)[k]
    ensures Holds(m, pc, code)
    decreases |code|
  {
    if code != [] {
      var rest := Layout(code[1..], pc + InstrSize(code[0]));
      forall k | k in rest ensures k in m.program && m.program[k] == rest[k] {
        LayoutKeys(code[1..], pc + InstrSize(code[0]), k);
        assert k in Layout(code, pc);
      }
      assert pc in Layout(code, pc);
      LayoutHolds(m, code[1..], pc + InstrSize(code[0]));
    }
  }

  /** The machine lre_exec sets up for a compiled expression. */
  function Compiled(env: Env, d: Disjunction, sticky: bool): Machine
    requires ValidDisjunction(d)
  {
    var code := ProgramCode(env.flags, d, sticky);
    Machine(env, Layout(code, 0), CodeSize(code))
  }

  function UnsetCaptures(n: nat): seq<int> {
    seq(2 * n, k => -1)
  }

  function StartConfig(env: Env, start: int): Config {
    Run(Regs(0, start, UnsetCaptures(env.captureCount), []), [])
  }

  /** The outcomes of the expression as group 0, matched at one position. */
  ghost function MatchesAt(env: Env, d: Disjunction, p: int): Outcomes {
    TermOutcomes(env, Capture(d), false, 0, Outcome(p, UnsetCaptures(env.captureCount)))
  }

  /** The outcomes at `p`, then those at the following positions. */
  ghost function SearchFrom(env: Env, d: Disjunction, p: int): Outcomes
    decreases Distance(env, false, p)
  {
    MatchesAt(env, d, p) +
    if 0 <= p < |env.input.units| then SearchFrom(env, d, NextPos(env.input, p, |env.input.units|)) else []
  }

  /** What the engine must return: no match, or the captures of the first outcome. */
  ghost function Verdict(env: Env, d: Disjunction, sticky: bool, start: int): Outcomes {
    if sticky then MatchesAt(env, d, start) else SearchFrom(env, d, start)
  }

  ghost predicate ValidProgram(env: Env, d: Disjunction) {
    ValidDisjunction(d) && ValidFlags(env.flags) && ValidInput(env.input) &&
    env.captureCount == 1 + DisjunctionCaptures(d)
  }

  lemma StartReady(env: Env, d: Disjunction, p: int)
    requires ValidProgram(env, d) && Boundary(env.input, p)
    ensures Ready(env, Outcome(p, UnsetCaptures(env.captureCount)))
  {
  }

  lemma CoreYields(m: Machine, pc: int, d: Disjunction, p: int)
    requires ValidProgram(m.env, d) && Boundary(m.env.input, p)
    requires Holds(m, pc, TermCode(m.env.flags, Capture(d), false, 0))
    ensures Yields(m, pc, [], Outcome(p, UnsetCaptures(m.env.captureCount)), MatchesAt(m.env, d, p),
      pc + CodeSize(TermCode(m.env.flags, Capture(d), false, 0)), [])
  {
    hide Yields, Holds, CodeSize, TermCode, TermOutcomes;
    StartReady(m.env, d, p);
    TermYields(m, pc, Capture(d), false, 0, [], Outcome(p, UnsetCaptures(m.env.captureCount)));
  }

  const SearchPrefix: Code := [Split(false, 6), AnyOp, Goto(-11)]

  lemma PrefixLayout(m: Machine, core: Code)
    requires Holds(m, 0, SearchPrefix + core)
    ensures 0 in m.program && m.program[0] == Split(false, 6)
    ensures 5 in m.program && m.program[5] == AnyOp
    ensures 6 in m.program && m.program[6] == Goto(-11)
    ensures Holds(m, 11, core) && CodeSize(SearchPrefix + core) == 11 + CodeSize(core)
  {
    hide Holds, CodeSize;
    var tail := [Goto(-11)] + core;
    assert SearchPrefix + core == [Split(false, 6)] + ([AnyOp] + tail);
    HoldsHead(m, 0, Split(false, 6), [AnyOp] + tail);
    HoldsHead(m, 5, AnyOp, tail);
    HoldsHead(m, 6, Goto(-11), core);
    CodeSizeAppend([Split(false, 6)], [AnyOp] + tail);
    CodeSizeAppend([AnyOp], tail);
    CodeSizeAppend([Goto(-11)], core);
    OneSize(Split(false, 6));
    OneSize(AnyOp);
    OneSize(Goto(-11));
  }

  /** The search loop tries the positions from `p` on, one character at a time. */
  lemma {:induction false} SearchYields(m: Machine, d: Disjunction, p: int, rest: Code)
    requires ValidProgram(m.env, d) && Boundary(m.env.input, p)
    requires Holds(m, 0, SearchPrefix + (TermCode(m.env.flags, Capture(d), false, 0) + rest))
    ensures Yields(m, 0, [], Outcome(p, UnsetCaptures(m.env.captureCount)), SearchFrom(m.env, d, p),
      11 + CodeSize(TermCode(m.env.flags, Capture(d), false, 0)), [])
    decreases Distance(m.env, false, p)
  {
    hide Yields, Holds, CodeSize, TermCode, MatchesAt;
    var core := TermCode(m.env.flags, Capture(d), false, 0);
    var exit := 11 + CodeSize(core);
    var o := Outcome(p, UnsetCaptures(m.env.captureCount));
    PrefixLayout(m, core + rest);
    HoldsAppend(m, 11, core, rest);
    CoreYields(m, 11, d, p);
    TestYields(m, 5, [], o);
    if p < |m.env.input.units| {
      var q := NextPos(m.env.input, p, |m.env.input.units|);
      var o1 := Outcome(q, o.caps);
      PrevInvertsNext(m.env.input, p);
      SearchYields(m, d, q, rest);
      var more := SearchFrom(m.env, d, q);
      GotoYields(m, 6, [], o1, more, exit, []);
      AnyStep(m, o, more, exit);
      YieldsSplit(m, 0, [], o, MatchesAt(m.env, d, p), more, 11, 5, exit, []);
    } else {
      YieldsRetarget(m, 5, [], o, 6, [], exit, []);
      YieldsSplit(m, 0, [], o, MatchesAt(m.env, d, p), [], 11, 5, exit, []);
    }
  }

  lemma AnyStep(m: Machine, o: Outcome, outs: Outcomes, exit: int)
    requires 5 in m.program && m.program[5] == AnyOp && 0 <= o.pos < |m.env.input.units|
    requires Yields(m, 6, [], o.(pos := NextPos(m.env.input, o.pos, |m.env.input.units|)), outs, exit, [])
    ensures Yields(m, 5, [], o, outs, exit, [])
  {
    hide Yields;
    YieldsStep(m, 5, [], o, outs, exit, [], 6, [], o.(pos := NextPos(m.env.input, o.pos, |m.env.input.units|)));
  }

  /** A match with nothing but choices on the state stack ends the run. */
  lemma {:induction false} FinalMatch(m: Machine, r: Regs, extra: States)
    requires NoLook(extra)
    ensures Reaches(m, Succeed(r, extra), Halted(true, r))
    decreases |extra|
  {
    ReachesStep(m, Succeed(r, extra));
    if extra != [] {
      var less := extra[..|extra| - 1];
      FinalMatch(m, r, less);
      ReachesTrans(m, Succeed(r, extra), Succeed(r, less), Halted(true, r));
    }
  }

  /** How a program ends whose code yields `outs` in front of its final `match`. */
  lemma ProgramEnds(m: Machine, start: int, outs: Outcomes, exit: int)
    requires exit in m.program && m.program[exit].Match?
    requires Yields(m, 0, [], Outcome(start, UnsetCaptures(m.env.captureCount)), outs, exit, [])
    ensures Reaches(m, StartConfig(m.env, start),
      if outs == [] then Halted(false, NoRegs) else Halted(true, At(exit, outs[0], [])))
  {
    hide Enumerates, Reaches;
    var o := Outcome(start, UnsetCaptures(m.env.captureCount));
    var c := StartConfig(m.env, start);
    assert c == Run(At(0, o, []), []);
    YieldsElim(m, 0, [], o, outs, exit, [], []);
    if outs == [] {
      EnumeratesEnd(m, c, outs, exit, [], []);
      ReachesStep(m, Fail([]));
      ReachesTrans(m, c, Fail([]), Halted(false, NoRegs));
    } else {
      var extra := EnumeratesUncons(m, c, outs, exit, [], []);
      var r := At(exit, outs[0], []);
      assert [] + extra == extra;
      ReachesStep(m, Run(r, extra));
      FinalMatch(m, r, extra);
      ReachesTrans(m, Run(r, extra), Succeed(r, extra), Halted(true, r));
      ReachesTrans(m, c, Run(r, extra), Halted(true, r));
    }
  }

  /** Compiler correctness and termination: from every start position the compiled program
      stops, without a match exactly when the reference matcher has no outcome, and
      otherwise with the cursor and the captures of its first outcome. */
  lemma CompiledRunsAsSpecified(env: Env, d: Disjunction, sticky: bool, start: int)
    requires ValidProgram(env, d) && Boundary(env.input, start)
    ensures var m := Compiled(env, d, sticky);
      var outs := Verdict(env, d, sticky, start);
      Reaches(m, StartConfig(env, start),
        if outs == [] then Halted(false, NoRegs) else Halted(true, At(m.size - 1, outs[0], [])))
  {
    hide Yields, Holds, CodeSize, MatchesAt, SearchFrom, Reaches, Layout;
    var m := Compiled(env, d, sticky);
    var core := TermCode(env.flags, Capture(d), false, 0);
    var code := ProgramCode(env.flags, d, sticky);
    ProgramParts(env.flags, d, sticky);
    LayoutHolds(m, code, 0);
    OneSize(Match);
    CodeSizeAppend(core, [Match]);
    if sticky {
      HoldsAppend(m, 0, core, [Match]);
      HoldsOne(m, CodeSize(core), Match);
      CoreYields(m, 0, d, start);
      ProgramEnds(m, start, MatchesAt(env, d, start), CodeSize(core));
    } else {
      PrefixLayout(m, core + [Match]);
      HoldsAppend(m, 11, core, [Match]);
      HoldsOne(m, 11 + CodeSize(core), Match);
      SearchYields(m, d, start, [Match]);
      ProgramEnds(m, start, SearchFrom(env, d, start), 11 + CodeSize(core));
    }
  }

  lemma ProgramParts(f: Flags, d: Disjunction, sticky: bool)
    requires ValidDisjunction(d)
    ensures var core := TermCode(f, Capture(d), false, 0) + [Match];
      ProgramCode(f, d, sticky) == if sticky then core else SearchPrefix + core
  {
    var body := DisjunctionCode(f, d, false, 1);
    assert [SaveStart(0)] + body + [SaveEnd(0), Match] == ([SaveStart(0)] + body + [SaveEnd(0)]) + [Match];
  }

  /** No run of a compiled program gets stuck, however long it is observed. */
  lemma CompiledNeverStuck(env: Env, d: Disjunction, sticky: bool, start: int, n: nat)
    requires ValidProgram(env, d) && Boundary(env.input, start)
    ensures !Steps(Compiled(env, d, sticky), n, StartConfig(env, start)).Stuck?
  {
    var m := Compiled(env, d, sticky);
    var c := StartConfig(env, start);
    CompiledRunsAsSpecified(env, d, sticky, start);
    var outs := Verdict(env, d, sticky, start);
    var e := if outs == [] then Halted(false, NoRegs) else Halted(true, At(m.size - 1, outs[0], []));
    if Steps(m, n, c).Stuck? {
      assert Reaches(m, c, Stuck);
      HaltsOnce(m, c, Stuck, e);
    }
  }

  // --- where the match starts ---

  /** A character never ends beyond the next boundary. */
  lemma NextIsNearest(inp: Input, p: int, q: int)
    requires Boundary(inp, p) && Boundary(inp, q) && p < q
    ensures NextPos(inp, p, |inp.units|) <= q
  {
  }

  /** The unanchored search returns the first outcome at the smallest position at or after
      the start that has one, and finds nothing only if no position has one. */
  lemma {:induction false} SearchIsLeftmost(env: Env, d: Disjunction, p: int)
    requires ValidProgram(env, d) && Boundary(env.input, p)
    ensures SearchFrom(env, d, p) == [] ==>
      forall q :: p <= q && Boundary(env.input, q) ==> MatchesAt(env, d, q) == []
    ensures SearchFrom(env, d, p) != [] ==>
      exists q :: p <= q && Boundary(env.input, q) && MatchesAt(env, d, q) != [] &&
        SearchFrom(env, d, p)[0] == MatchesAt(env, d, q)[0] &&
        forall r :: p <= r < q && Boundary(env.input, r) ==> MatchesAt(env, d, r) == []
    decreases Distance(env, false, p)
  {
    hide MatchesAt;
    if MatchesAt(env, d, p) == [] {
      if p < |env.input.units| {
        var next := NextPos(env.input, p, |env.input.units|);
        PrevInvertsNext(env.input, p);
        SearchIsLeftmost(env, d, next);
        assert SearchFrom(env, d, p) == SearchFrom(env, d, next);
        forall q | p < q && Boundary(env.input, q) ensures next <= q {
          NextIsNearest(env.input, p, q);
        }
      }
    } else {
      assert SearchFrom(env, d, p)[0] == MatchesAt(env, d, p)[0];
    }
  }

  /** Every outcome records its start and end as group 0. */
  lemma GroupZero(env: Env, d: Disjunction, p: int, k: nat)
    requires ValidProgram(env, d) && Boundary(env.input, p) && k < |MatchesAt(env, d, p)|
    ensures var o := MatchesAt(env, d, p)[k];
      |o.caps| == 2 * env.captureCount && o.caps[0] == p && o.caps[1] == o.pos && p <= o.pos <= |env.input.units|
  {
    var o0 := Outcome(p, UnsetCaptures(env.captureCount));
    var o1 := o0.(caps := SetCapture(o0.caps, 0, p));
    var outs := DisjunctionOutcomes(env, d, false, 1, o1);
    StartReady(env, d, p);
    assert Good(env, o1);
    DisjunctionFrame(env, d, false, 1, o1);
    DisjunctionGood(env, d, false, 1, o1);
    GoodAt(env, false, p, outs, k);
    assert SameOutside(2, 2 * (1 + DisjunctionCaptures(d)), o1.caps, outs[k].caps);
    hide DisjunctionOutcomes;
    assert MatchesAt(env, d, p) == CloseCapture(outs, 1);
  }
}
