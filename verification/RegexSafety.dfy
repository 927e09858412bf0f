/** In every configuration of every run the cursor and the captures, current and saved,
    point into the text. */
module RegexSafety {
  import opened RegexInput
  import opened RegexCode
  import opened RegexMatcher
  import opened RegexMachine

  predicate TextRegs(env: Env, r: Regs) {
    InText(env, r.pos) && |r.caps| == 2 * env.captureCount &&
    forall k :: 0 <= k < |r.caps| ==> -1 <= r.caps[k] <= |env.input.units|
  }

  predicate TextStates(env: Env, ss: States) {
    forall k :: 0 <= k < |ss| ==> TextRegs(env, ss[k].regs)
  }

  predicate TextOk(env: Env, c: Config) {
    match c
    case Run(r, ss) => TextRegs(env, r) && TextStates(env, ss)
    case Fail(ss) => TextStates(env, ss)
    case Succeed(r, ss) => TextRegs(env, r) && TextStates(env, ss)
    case _ => true
  }

  lemma {:induction false} ForwardInText(env: Env, q: int, end: int, pos: int)
    requires 0 <= q && end <= |env.input.units| && InText(env, pos)
    ensures BackRefForward(env, q, end, pos) <= |env.input.units|
    decreases end - q
  {
    if q < end && pos < |env.input.units| {
      ForwardInText(env, NextPos(env.input, q, end), end, NextPos(env.input, pos, |env.input.units|));
    }
  }

  lemma {:induction false} BackwardInText(env: Env, q: int, start: int, pos: int)
    requires 0 <= start && q <= |env.input.units| && InText(env, pos)
    ensures BackRefBackward(env, q, start, pos) <= |env.input.units|
    decreases q - start
  {
    if q > start && pos > 0 {
      BackwardInText(env, PrevPos(env.input, q, start), start, PrevPos(env.input, pos, 0));
    }
  }

  lemma BackRefInText(env: Env, i: Instr, pos: int, caps: seq<int>)
    requires i.BackRef? && InText(env, pos)
    ensures BackRefPos(env, i, pos, caps) <= |env.input.units|
  {
    if 0 <= i.index < env.captureCount && 2 * i.index + 1 < |caps| {
      var start, end := caps[2 * i.index], caps[2 * i.index + 1];
      if 0 <= start <= |env.input.units| && 0 <= end <= |env.input.units| {
        ForwardInText(env, start, end, pos);
        BackwardInText(env, end, start, pos);
      }
    }
  }

  lemma TestInText(env: Env, i: Instr, pos: int)
    requires IsCharOp(i) || IsAssertion(i)
    ensures TestPos(env, i, pos) <= |env.input.units|
  {
  }

  lemma {:induction false} AtomInText(m: Machine, pc: int, pos: int)
    requires InText(m.env, pos)
    ensures var r := RunAtom(m, pc, pos); r.AtomOk? ==> InText(m.env, r.pos)
    decreases m.size - pc
  {
    hide TestPos;
    if pc in m.program && pc < m.size {
      var i := m.program[pc];
      if IsCharOp(i) || IsAssertion(i) {
        TestInText(m.env, i, pos);
        if TestPos(m.env, i, pos) >= 0 {
          AtomInText(m, pc + InstrSize(i), TestPos(m.env, i, pos));
        }
      }
    }
  }

  lemma {:induction false} GreedyInText(m: Machine, pc: int, pos: int, q: nat, max: int)
    requires InText(m.env, pos)
    ensures var r := RunGreedy(m, pc, pos, q, max); r.GreedyEnd? ==> InText(m.env, r.pos)
    decreases Distance(m.env, false, pos)
  {
    hide RunAtom;
    AtomInText(m, pc, pos);
    var r := RunAtom(m, pc, pos);
    if r.AtomOk? && Advances(m.env, false, pos, r.pos) {
      GreedyInText(m, pc, r.pos, q + 1, max);
    }
  }

  lemma PushText(env: Env, ss: States, s: Saved)
    requires TextStates(env, ss) && TextRegs(env, s.regs)
    ensures TextStates(env, ss + [s])
  {
  }

  lemma PopText(env: Env, ss: States)
    requires TextStates(env, ss) && ss != []
    ensures TextStates(env, ss[..|ss| - 1]) && TextRegs(env, ss[|ss| - 1].regs)
  {
  }

  lemma TestKeepsText(m: Machine, i: Instr, r: Regs, ss: States)
    requires TextRegs(m.env, r) && TextStates(m.env, ss) && (IsCharOp(i) || IsAssertion(i) || i.BackRef? || i.Prev?)
    ensures TextOk(m.env, Exec(m, i, r, ss))
  {
    hide TextStates, TestPos, BackRefPos;
    if i.BackRef? {
      BackRefInText(m.env, i, r.pos, r.caps);
    } else if !i.Prev? {
      TestInText(m.env, i, r.pos);
    }
  }

  lemma ChoiceKeepsText(m: Machine, i: Instr, r: Regs, ss: States)
    requires TextRegs(m.env, r) && TextStates(m.env, ss) && (i.Split? || i.Lookahead? || i.SimpleGreedyQuant?)
    ensures TextOk(m.env, Exec(m, i, r, ss))
  {
    hide TextStates, RunGreedy;
    var next := r.(pc := r.pc + InstrSize(i));
    if i.Split? {
      PushText(m.env, ss, Saved(SplitState, next.(pc := next.pc + i.offset)));
      PushText(m.env, ss, Saved(SplitState, next));
    } else if i.Lookahead? {
      PushText(m.env, ss, Saved(LookState(i.negated), next.(pc := next.pc + i.offset)));
    } else {
      GreedyInText(m, r.pc + 17, r.pos, 0, i.max);
      var g := RunGreedy(m, r.pc + 17, r.pos, 0, i.max);
      if g.GreedyEnd? {
        PushText(m.env, ss, Saved(GreedyState(g.count - i.min), r.(pos := g.pos)));
      }
    }
  }

  lemma OtherKeepsText(m: Machine, i: Instr, r: Regs, ss: States)
    requires TextRegs(m.env, r) && TextStates(m.env, ss)
    requires !IsCharOp(i) && !IsAssertion(i) && !i.BackRef? && !i.Prev? && !i.Split? && !i.Lookahead? && !i.SimpleGreedyQuant?
    ensures TextOk(m.env, Exec(m, i, r, ss))
  {
    hide TextStates, TestPos, BackRefPos, ExecGreedy;
  }

  lemma BacktrackKeepsText(m: Machine, ss: States)
    requires TextStates(m.env, ss)
    ensures TextOk(m.env, Backtrack(m, ss))
  {
    if ss != [] {
      PopText(m.env, ss);
      var top, rest := ss[|ss| - 1], ss[..|ss| - 1];
      hide TextStates;
      if top.kind.GreedyState? && top.regs.pc in m.program && m.program[top.regs.pc].SimpleGreedyQuant?
         && m.program[top.regs.pc].chars >= 0 {
        var p := Back(m.env.input, top.regs.pos, m.program[top.regs.pc].chars);
        PushText(m.env, rest, Saved(GreedyState(top.kind.count - 1), top.regs.(pos := p)));
      }
    }
  }

  lemma CommitKeepsText(env: Env, r: Regs, ss: States)
    requires TextRegs(env, r) && TextStates(env, ss)
    ensures TextOk(env, Commit(r, ss))
  {
    if ss != [] {
      PopText(env, ss);
    }
  }

  /** No step takes the cursor or a capture out of the text. */
  lemma StepKeepsText(m: Machine, c: Config)
    requires TextOk(m.env, c)
    ensures TextOk(m.env, Step(m, c))
  {
    hide Exec, Backtrack, Commit, TextRegs, TextStates;
    match c
    case Run(r, ss) =>
      if r.pc in m.program {
        var i := m.program[r.pc];
        if IsCharOp(i) || IsAssertion(i) || i.BackRef? || i.Prev? {
          TestKeepsText(m, i, r, ss);
        } else if i.Split? || i.Lookahead? || i.SimpleGreedyQuant? {
          ChoiceKeepsText(m, i, r, ss);
        } else {
          OtherKeepsText(m, i, r, ss);
        }
      }
    case Fail(ss) => BacktrackKeepsText(m, ss);
    case Succeed(r, ss) => CommitKeepsText(m.env, r, ss);
    case _ =>
  }
}
