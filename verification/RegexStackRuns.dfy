/** The depths of the linear pass hold in every configuration of every run. */
module RegexStackRuns {
  import opened RegexInput
  import opened RegexTerm
  import opened RegexCode
  import opened RegexMatcher
  import opened RegexMachine
  import opened RegexStack
  import opened RegexProgram

  /** A program is sound code followed by the final `match`. */
  predicate IsProgram(m: Machine, core: Code) {
    Sound(core) && m.program == Layout(core + [Match], 0) && m.size == CodeSize(core) + 1
  }

  lemma {:induction false} LayoutAppend(a: Code, b: Code, pc: int, k: int)
    ensures k in Layout(a, pc) ==> k in Layout(a + b, pc) && Layout(a + b, pc)[k] == Layout(a, pc)[k]
    ensures k in Layout(b, pc + CodeSize(a)) ==> k in Layout(a + b, pc) && Layout(a + b, pc)[k] == Layout(b, pc + CodeSize(a))[k]
    decreases |a|
  {
    if a == [] {
      assert a + b == b;
    } else {
      assert (a + b)[1..] == a[1..] + b;
      LayoutAppend(a[1..], b, pc + InstrSize(a[0]), k);
      if k in Layout(b, pc + CodeSize(a)) {
        LayoutKeys(b, pc + CodeSize(a), k);
      }
      if k in Layout(a, pc) && k != pc {
        LayoutKeys(a[1..], pc + InstrSize(a[0]), k);
      }
    }
  }

  /** Every boundary before the end carries an instruction, which the linear pass has checked. */
  lemma {:induction false} BoundaryInstr(code: Code, done: Code, rest: Code, off: int)
    requires code == done + rest && AllOk(code, done, rest)
    requires IsBoundary(rest, off) && off < CodeSize(rest)
    ensures var pc := CodeSize(done) + off;
      pc in Layout(rest, CodeSize(done)) &&
      var i := Layout(rest, CodeSize(done))[pc];
      InstrOk(code, pc, i) && IsBoundary(code, pc + InstrSize(i)) &&
      DepthAt(code, pc + InstrSize(i)) == DepthAt(code, pc) + StackEffect(i) &&
      pc + InstrSize(i) <= CodeSize(code)
    decreases |rest|
  {
    if off == 0 {
      hide InstrOk, StackEffect, InstrSize;
      CodeSizeAppend(done, rest);
      var tail := rest[1..];
      assert rest == [rest[0]] + tail;
      InnerDepth(done, rest[0], tail);
      DepthAppend(done, rest, 0);
    } else {
      hide InstrOk, StackEffect, InstrSize, DepthAt;
      var pc := CodeSize(done) + off;
      CodeSizeAppend(done, [rest[0]]);
      assert [rest[0]][1..] == [];
      assert done + [rest[0]] + rest[1..] == code;
      BoundaryInstr(code, done + [rest[0]], rest[1..], off - InstrSize(rest[0]));
    }
  }

  ghost predicate RegsOk(core: Code, r: Regs) {
    IsBoundary(core, r.pc) && 0 <= r.pc <= CodeSize(core) && |r.stack| == DepthAt(core, r.pc)
  }

  ghost predicate StatesOk(core: Code, ss: States) {
    forall k :: 0 <= k < |ss| ==> RegsOk(core, ss[k].regs)
  }

  /** The depth at the program counter, of the registers and of every saved state. */
  ghost predicate ConfigOk(core: Code, c: Config) {
    match c
    case Run(r, ss) => RegsOk(core, r) && StatesOk(core, ss)
    case Fail(ss) => StatesOk(core, ss)
    case Succeed(_, ss) => StatesOk(core, ss)
    case _ => true
  }

  /** Instruction `i` at `pc` is right, and so is the depth behind it. */
  predicate Proceeds(core: Code, pc: int, i: Instr) {
    var next := pc + InstrSize(i);
    InstrOk(core, pc, i) && IsBoundary(core, next) && next <= CodeSize(core) &&
    DepthAt(core, next) == DepthAt(core, pc) + StackEffect(i)
  }

  lemma ProgramInstr(m: Machine, core: Code, r: Regs)
    requires IsProgram(m, core) && RegsOk(core, r)
    ensures r.pc in m.program
    ensures var i := m.program[r.pc];
      if r.pc == CodeSize(core) then i == Match else Proceeds(core, r.pc, i)
  {
    hide AllOk, Layout, IsBoundary, DepthAt, InstrOk, InstrSize, StackEffect, CodeSize, TotalEffect;
    LayoutAppend(core, [Match], 0, r.pc);
    if r.pc == CodeSize(core) {
      MatchAlone(r.pc);
    } else {
      assert core == [] + core;
      NoSize();
      BoundaryInstr(core, [], core, r.pc);
    }
  }

  lemma MatchAlone(pc: int)
    ensures pc in Layout([Match], pc) && Layout([Match], pc)[pc] == Match
  {
    assert [Match][1..] == [];
  }

  lemma NoSize()
    ensures CodeSize([]) == 0
  {
  }

  lemma PushOk(core: Code, ss: States, s: Saved)
    requires StatesOk(core, ss) && RegsOk(core, s.regs)
    ensures StatesOk(core, ss + [s])
  {
  }

  lemma PopOk(core: Code, ss: States)
    requires StatesOk(core, ss) && ss != []
    ensures StatesOk(core, ss[..|ss| - 1]) && RegsOk(core, ss[|ss| - 1].regs)
  {
  }

  /** The instructions that continue in sequence. */
  lemma SequentialKeepsDepth(m: Machine, core: Code, i: Instr, r: Regs, ss: States)
    requires StatesOk(core, ss) && RegsOk(core, r) && Proceeds(core, r.pc, i) && !HasTarget(i)
    ensures ConfigOk(core, Exec(m, i, r, ss))
  {
    hide IsBoundary, DepthAt, CodeSize, StatesOk, TestPos, BackRefPos;
  }

  lemma GreedyKeepsDepth(m: Machine, core: Code, i: Instr, r: Regs, ss: States)
    requires StatesOk(core, ss) && RegsOk(core, r) && Proceeds(core, r.pc, i) && i.SimpleGreedyQuant?
    ensures ConfigOk(core, ExecGreedy(m, i, r, ss))
  {
    var t := Target(i, r.pc);
    DepthPrefix(core, [], t);
    hide IsBoundary, DepthAt, CodeSize, StatesOk, RunGreedy;
    match RunGreedy(m, r.pc + 17, r.pos, 0, i.max) {
      case GreedyStuck =>
      case GreedyEnd(q, p) =>
        PushOk(core, ss, Saved(GreedyState(q - i.min), r.(pos := p)));
    }
  }

  /** The instructions that may jump. */
  lemma JumpKeepsDepth(m: Machine, core: Code, i: Instr, r: Regs, ss: States)
    requires StatesOk(core, ss) && RegsOk(core, r) && Proceeds(core, r.pc, i) && HasTarget(i)
    ensures ConfigOk(core, Exec(m, i, r, ss))
  {
    TargetOk(core, i, r);
    hide IsBoundary, DepthAt, CodeSize, StatesOk, ExecGreedy;
    if i.SimpleGreedyQuant? {
      GreedyKeepsDepth(m, core, i, r, ss);
    } else if i.Split? {
      SplitKeepsDepth(m, core, i, r, ss);
    } else if i.Lookahead? {
      PushOk(core, ss, Saved(LookState(i.negated), r.(pc := Target(i, r.pc))));
    }
  }

  /** The target of a jump has the depth of the jump. */
  lemma TargetOk(core: Code, i: Instr, r: Regs)
    requires RegsOk(core, r) && InstrOk(core, r.pc, i) && HasTarget(i)
    ensures RegsOk(core, r.(pc := Target(i, r.pc)))
  {
    DepthPrefix(core, [], Target(i, r.pc));
    hide IsBoundary, DepthAt, CodeSize;
  }

  lemma SplitKeepsDepth(m: Machine, core: Code, i: Instr, r: Regs, ss: States)
    requires StatesOk(core, ss) && RegsOk(core, r) && Proceeds(core, r.pc, i) && i.Split?
    requires RegsOk(core, r.(pc := Target(i, r.pc)))
    ensures ConfigOk(core, Exec(m, i, r, ss))
  {
    var next := r.(pc := r.pc + InstrSize(i));
    assert RegsOk(core, next);
    PushOk(core, ss, Saved(SplitState, next.(pc := Target(i, r.pc))));
    PushOk(core, ss, Saved(SplitState, next));
    hide RegsOk, StatesOk;
  }

  lemma BacktrackKeepsDepth(m: Machine, core: Code, ss: States)
    requires IsProgram(m, core) && StatesOk(core, ss)
    ensures ConfigOk(core, Backtrack(m, ss))
  {
    if ss != [] {
      hide IsBoundary, DepthAt, CodeSize, StatesOk, Sound, Layout;
      var top, rest := ss[|ss| - 1], ss[..|ss| - 1];
      PopOk(core, ss);
      if top.kind.GreedyState? {
        GreedyBacktrackKeepsDepth(m, core, ss);
      }
    }
  }

  lemma GreedyBacktrackKeepsDepth(m: Machine, core: Code, ss: States)
    requires IsProgram(m, core) && StatesOk(core, ss) && ss != [] && ss[|ss| - 1].kind.GreedyState?
    ensures ConfigOk(core, Backtrack(m, ss))
  {
    hide IsBoundary, DepthAt, CodeSize, StatesOk, Sound, Layout, IsProgram, Back;
    var top, rest := ss[|ss| - 1], ss[..|ss| - 1];
    PopOk(core, ss);
    ProgramInstr(m, core, top.regs);
    var i := m.program[top.regs.pc];
    if i.SimpleGreedyQuant? && InText(m.env, top.regs.pos) && i.chars >= 0 {
      DepthPrefix(core, [], Target(i, top.regs.pc));
      PushOk(core, rest, Saved(GreedyState(top.kind.count - 1), top.regs.(pos := Back(m.env.input, top.regs.pos, i.chars))));
    }
  }

  lemma CommitKeepsDepth(core: Code, r: Regs, ss: States)
    requires StatesOk(core, ss)
    ensures ConfigOk(core, Commit(r, ss))
  {
    if ss != [] {
      PopOk(core, ss);
    }
  }

  lemma StepKeepsDepth(m: Machine, core: Code, c: Config)
    requires IsProgram(m, core) && ConfigOk(core, c)
    ensures ConfigOk(core, Step(m, c))
  {
    hide Exec, Backtrack, Commit, IsBoundary, DepthAt, CodeSize, Sound, Layout, StatesOk;
    match c
    case Run(r, ss) =>
      ProgramInstr(m, core, r);
      var i := m.program[r.pc];
      if r.pc == CodeSize(core) {
        MatchSucceeds(m, r, ss);
      } else if HasTarget(i) {
        JumpKeepsDepth(m, core, i, r, ss);
      } else {
        SequentialKeepsDepth(m, core, i, r, ss);
      }
    case Fail(ss) => BacktrackKeepsDepth(m, core, ss);
    case Succeed(r, ss) => CommitKeepsDepth(core, r, ss);
    case _ =>
  }

  lemma MatchSucceeds(m: Machine, r: Regs, ss: States)
    ensures Exec(m, Match, r, ss) == Succeed(r, ss)
  {
  }

  lemma {:induction false} RunsKeepDepth(m: Machine, core: Code, n: nat, c: Config)
    requires IsProgram(m, core) && ConfigOk(core, c)
    ensures ConfigOk(core, Steps(m, n, c))
    decreases n
  {
    hide Step, ConfigOk, IsProgram;
    if n > 0 {
      StepKeepsDepth(m, core, c);
      RunsKeepDepth(m, core, n - 1, Step(m, c));
    }
  }

  // --- the recorded size ---

  lemma {:induction false} MaxDepthBounds(code: Code, depth: int, max: nat, off: int)
    requires depth <= max && IsBoundary(code, off)
    ensures depth + DepthAt(code, off) <= MaxDepthFrom(code, depth, max) && max <= MaxDepthFrom(code, depth, max)
    decreases |code|
  {
    if code != [] {
      var next := depth + StackEffect(code[0]);
      MaxDepthBounds(code[1..], next, if next > max then next else max, if off == 0 then 0 else off - InstrSize(code[0]));
    }
  }

  /** In every configuration of every run of a compiled program the operand stack has
      exactly the depth that the linear pass assigns to the program counter, so it never
      underflows and never exceeds the recorded stack size; so do all saved stacks. */
  lemma StackAnalysisExact(env: Env, d: Disjunction, sticky: bool, start: int, n: nat)
    requires ValidDisjunction(d)
    ensures var code := ProgramCode(env.flags, d, sticky);
      var c := Steps(Compiled(env, d, sticky), n, StartConfig(env, start));
      (c.Run? ==>
        IsBoundary(code, c.regs.pc) && |c.regs.stack| == DepthAt(code, c.regs.pc) <= MaxDepth(code) &&
        forall k :: 0 <= k < |c.states| ==>
          IsBoundary(code, c.states[k].regs.pc) &&
          |c.states[k].regs.stack| == DepthAt(code, c.states[k].regs.pc) <= MaxDepth(code))
  {
    hide Steps, Sound, IsBoundary, DepthAt, AllOk, CodeSize, Layout, MaxDepthFrom;
    var m := Compiled(env, d, sticky);
    var core := CoreCode(env.flags, d, sticky);
    CoreIsSound(env.flags, d, sticky);
    var code := core + [Match];
    CodeSizeAppend(core, [Match]);
    OneMatch();
    StartIsBoundary(core);
    RunsKeepDepth(m, core, n, StartConfig(env, start));
    var c := Steps(m, n, StartConfig(env, start));
    if c.Run? {
      DepthTransfers(core, c.regs);
      forall k | 0 <= k < |c.states|
        ensures IsBoundary(code, c.states[k].regs.pc) &&
          |c.states[k].regs.stack| == DepthAt(code, c.states[k].regs.pc) <= MaxDepth(code)
      {
        DepthTransfers(core, c.states[k].regs);
      }
    }
  }

  lemma OneMatch()
    ensures CodeSize([Match]) == 1
  {
    assert [Match][1..] == [];
  }

  lemma DepthTransfers(core: Code, r: Regs)
    requires RegsOk(core, r)
    ensures var code := core + [Match];
      IsBoundary(code, r.pc) && |r.stack| == DepthAt(code, r.pc) <= MaxDepth(code)
  {
    DepthPrefix(core, [Match], r.pc);
    MaxDepthBounds(core + [Match], 0, 0, r.pc);
  }

  /** The program without its final `match`. */
  function CoreCode(f: Flags, d: Disjunction, sticky: bool): Code
    requires ValidDisjunction(d)
  {
    (if sticky then [] else SearchPrefix) + TermCode(f, Capture(d), false, 0)
  }

  lemma PrefixIsSound()
    ensures Sound(SearchPrefix)
  {
    var a, b, c := Split(false, 6), AnyOp, Goto(-11);
    assert SearchPrefix == [a] + [b] + [c] && [a] + [b] == [a, b];
    OneEffect(a);
    OneEffect(b);
    OneEffect(c);
    EffectAppend([a], [b]);
    EffectAppend([a, b], [c]);
    TwoEffect(a, b);
    assert [c][1..] == [];
    CodeSizeAppend([a, b], [c]);
    DepthEnd(SearchPrefix);
    NothingOk(SearchPrefix, []);
    assert SearchPrefix == [] + ([a] + [b, c]);
    InnerDepth([], a, [b, c]);
    assert SearchPrefix == [a, b] + [c];
    DepthAppend([a, b], [c], 0);
    StartIsBoundary(SearchPrefix);
    hide IsBoundary, DepthAt, AllOk, CodeSize, TotalEffect;
    TwoOk(SearchPrefix, [], a, b);
    OneOk(SearchPrefix, [a, b], c);
    assert [] + [a, b] == [a, b];
    AllOkAppend(SearchPrefix, [], [a, b], [c]);
  }

  lemma CoreIsSound(f: Flags, d: Disjunction, sticky: bool)
    requires ValidDisjunction(d)
    ensures Sound(CoreCode(f, d, sticky)) && ProgramCode(f, d, sticky) == CoreCode(f, d, sticky) + [Match]
  {
    hide Sound, TermCode;
    var term := TermCode(f, Capture(d), false, 0);
    SoundTerm(f, Capture(d), false, 0);
    PrefixIsSound();
    SoundAppend(SearchPrefix, term);
    ProgramParts(f, d, sticky);
    assert [] + term == term;
    assert SearchPrefix + (term + [Match]) == SearchPrefix + term + [Match];
  }
}
