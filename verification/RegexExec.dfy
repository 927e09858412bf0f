/** lre_exec and lre_exec_backtrack as they work: a loop over the bytes of the program that
    updates program counter, cursor, capture array, operand stack and state stack in place.
    Every instruction is proved to be one step of RegexMachine. */
module RegexExec {
  import opened Words
  import opened RegexInput
  import opened RegexTerm
  import opened RegexCode
  import opened RegexMatcher
  import opened RegexMachine
  import opened RegexBytes
  import opened RegexStack
  import opened RegexProgram
  import opened RegexStackRuns
  import opened RegexSafety
  import opened RegexFetch

  /** How an instruction ends: fall through, goto no_match, goto recurse with ret = 1, or
      return LRE_RET_BYTECODE_ERROR. */
  datatype Flow = Next | NoMatch | Matched | BytecodeError

  /** The configuration `c` that the machine must be in after an instruction that ended with
      `flow` in registers `r` and states `ss`. */
  predicate Follows(flow: Flow, c: Config, r: Regs, ss: States) {
    match flow
    case Next => c == Run(r, ss)
    case NoMatch => c == Fail(ss)
    case Matched => c == Succeed(r, ss)
    case BytecodeError => c == Stuck
  }

  /** What all configurations of a run of compiled code have in common. */
  ghost predicate Sane(m: Machine, core: Code, c: Config) {
    ConfigOk(core, c) && TextOk(m.env, c)
  }

  lemma SaneStep(m: Machine, core: Code, c: Config)
    requires IsProgram(m, core) && Sane(m, core, c)
    ensures Sane(m, core, Step(m, c))
  {
    hide Step, IsProgram, ConfigOk, TextOk;
    StepKeepsDepth(m, core, c);
    StepKeepsText(m, c);
  }

  /** The operand stack, current or saved, never outgrows the recorded size. */
  lemma DepthFits(core: Code, r: Regs)
    requires RegsOk(core, r)
    ensures |r.stack| <= MaxDepth(core + [Match])
  {
    hide RegsOk, IsBoundary, DepthAt, MaxDepthFrom;
    DepthTransfers(core, r);
  }

  /** A run that halts within `n` steps: it is not stuck, and one step uses one of them. */
  lemma StepCounts(m: Machine, n: nat, c: Config)
    requires Steps(m, n, c).Halted? && !c.Halted?
    ensures n > 0 && Steps(m, n, c) == Steps(m, n - 1, Step(m, c)) && !c.Stuck? && !Step(m, c).Stuck?
  {
    hide Step;
    if c.Stuck? {
      StoppedStays(m, n, c);
    } else if Step(m, c).Stuck? {
      StoppedStays(m, n - 1, Step(m, c));
    }
  }

  class Executor {
    const bc: Bytes
    const env: Env
    const capture: array<int>
    const stack: array<int>
    var pc: nat
    var cptr: nat
    var stackLen: nat
    var stateStack: States
    ghost const m: Machine
    ghost const core: Code

    /** The set-up of lre_exec: all captures unset, both stacks empty. */
    constructor (bytes: Bytes, e: Env, stackSizeMax: nat, cindex: nat, ghost machine: Machine, ghost code: Code)
      requires machine.env == e
      ensures bc == bytes && env == e && m == machine && core == code
      ensures fresh(capture) && fresh(stack) && stack.Length == stackSizeMax
      ensures Valid() && Cfg() == StartConfig(e, cindex)
    {
      bc, env, m, core := bytes, e, machine, code;
      pc, cptr, stackLen, stateStack := 0, cindex, 0, [];
      capture := new int[2 * e.captureCount](k => -1);
      stack := new int[stackSizeMax](k => 0);
    }

    ghost predicate Valid()
      reads this, capture, stack
    {
      capture != stack && stackLen <= stack.Length && capture.Length == 2 * env.captureCount && m.env == env
    }

    ghost function CurrentRegs(): Regs
      requires Valid()
      reads this, capture, stack
    {
      Regs(pc, cptr, capture[..], stack[..stackLen])
    }

    ghost function Cfg(): Config
      requires Valid()
      reads this, capture, stack
    {
      Run(CurrentRegs(), stateStack)
    }

    /** The instruction about to be executed is `i`, and `c` is where it leads. */
    ghost predicate At(i: Instr, c: Config)
      reads this, capture, stack
    {
      Valid() && pc in m.program && m.program[pc] == i && Decode(bc, pc) == Instruction(i) && Fits(i) &&
      c == Exec(m, i, CurrentRegs(), stateStack) && TextRegs(env, CurrentRegs()) &&
      (c.Run? ==> |c.regs.stack| <= stack.Length)
    }

    ghost predicate Done(flow: Flow, c: Config)
      reads this, capture, stack
    {
      Valid() && Follows(flow, c, CurrentRegs(), stateStack)
    }

    // --- the state stack ---

    method PushState(kind: Kind, pc1: nat)
      requires Valid()
      modifies this`stateStack
      ensures stateStack == old(stateStack) + [Saved(kind, CurrentRegs().(pc := pc1))]
    {
      stateStack := stateStack + [Saved(kind, Regs(pc1, cptr, capture[..], stack[..stackLen]))];
    }

    /** pop_state: captures, then the other registers. */
    method RestoreCaptures(r: Regs)
      requires Valid() && |r.caps| == capture.Length
      modifies capture
      ensures capture[..] == r.caps
    {
      forall i | 0 <= i < capture.Length {
        capture[i] := r.caps[i];
      }
    }

    /** pop_state1: operand stack, program counter and cursor. */
    method RestoreStack(r: Regs)
      requires Valid() && |r.stack| <= stack.Length && r.pos >= 0 && r.pc >= 0
      modifies this`pc, this`cptr, this`stackLen, stack
      ensures Valid() && CurrentRegs() == r.(caps := capture[..])
    {
      pc, cptr := r.pc, r.pos;
      stackLen := |r.stack|;
      forall i | 0 <= i < |r.stack| {
        stack[i] := r.stack[i];
      }
      assert stack[..stackLen] == r.stack;
    }

    // --- instructions ---

    method ExecTest(ghost i: Instr, ghost c: Config) returns (flow: Flow)
      requires At(i, c) && (IsCharOp(i) || IsAssertion(i))
      modifies this`pc, this`cptr
      ensures Done(flow, c)
    {
      hide Decode, TestPos, Fits, InstrSize;
      var ok, next, cptr1 := MatchTest(bc, pc, env, cptr, i);
      if !ok {
        return NoMatch;
      }
      pc, cptr := next, cptr1;
      return Next;
    }

    method ExecJump(ghost i: Instr, ghost c: Config) returns (flow: Flow)
      requires At(i, c) && (i.Goto? || i.Split? || i.Lookahead?)
      requires pc + 5 + i.offset >= 0
      modifies this`pc, this`stateStack
      ensures Done(flow, c)
    {
      FetchOpcode(bc, pc, i);
      FetchOperands(bc, pc, i);
      hide Decode, GetI32, Fits, TextRegs;
      var opcode := bc[pc];
      var val := GetI32(bc, pc + 1);
      var next := pc + 5;
      if opcode == 8 {
        pc := next + val;
      } else if opcode == 10 {
        PushState(SplitState, next + val);
        pc := next;
      } else if opcode == 9 {
        PushState(SplitState, next);
        pc := next + val;
      } else {
        PushState(LookState(opcode == 25), next + val);
        pc := next;
      }
      return Next;
    }

    method ExecSave(ghost i: Instr, ghost c: Config) returns (flow: Flow)
      requires At(i, c) && (i.SaveStart? || i.SaveEnd?)
      modifies this`pc, capture
      ensures Done(flow, c)
    {
      FetchOpcode(bc, pc, i);
      FetchOperands(bc, pc, i);
      hide Decode;
      var opcode := bc[pc];
      var val: int := bc[pc + 1];
      if val >= env.captureCount {
        return BytecodeError;
      }
      capture[2 * val + opcode - 12] := cptr;
      pc := pc + 2;
      return Next;
    }

    method ExecReset(ghost i: Instr, ghost c: Config) returns (flow: Flow)
      requires At(i, c) && i.SaveReset?
      modifies this`pc, capture
      ensures Done(flow, c)
    {
      FetchOpcode(bc, pc, i);
      FetchOperands(bc, pc, i);
      hide Decode, Fits;
      var val: int := bc[pc + 1];
      var val2: int := bc[pc + 2];
      if val2 >= env.captureCount {
        return BytecodeError;
      }
      ClearCaptures(val, val2);
      pc := pc + 3;
      return Next;
    }

    method ClearCaptures(first: nat, last: nat)
      requires Valid() && last < env.captureCount
      modifies capture
      ensures capture[..] == ResetCaptures(old(capture[..]), first, last)
    {
      ghost var caps0 := capture[..];
      var val := first;
      while val <= last
        invariant first <= val && (val <= last + 1 || val == first)
        invariant forall k :: 0 <= k < capture.Length ==>
          capture[k] == if 2 * first <= k < 2 * val then -1 else caps0[k]
        decreases last - val
      {
        capture[2 * val] := -1;
        capture[2 * val + 1] := -1;
        val := val + 1;
      }
    }

    method ExecPush(ghost i: Instr, ghost c: Config) returns (flow: Flow)
      requires At(i, c) && (i.PushI32? || i.PushCharPos?)
      modifies this`pc, this`stackLen, stack
      ensures Done(flow, c)
    {
      FetchOpcode(bc, pc, i);
      FetchOperands(bc, pc, i);
      hide Decode, GetI32, GetU32, Fits, TextRegs;
      var val, len: int := cptr, 1;
      if bc[pc] == 16 {
        val, len := GetU32(bc, pc + 1), 5;
      }
      assert |stack[..stackLen] + [val]| == stackLen + 1;
      stack[stackLen] := val;
      stackLen := stackLen + 1;
      assert stack[..stackLen] == old(stack[..stackLen]) + [val];
      pc := pc + len;
      return Next;
    }

    method ExecDrop(ghost i: Instr, ghost c: Config) returns (flow: Flow)
      requires At(i, c) && (i.Drop? || i.CheckAdvance?) && stackLen > 0
      modifies this`pc, this`stackLen
      ensures Done(flow, c)
    {
      FetchOpcode(bc, pc, i);
      hide Decode, Fits, TextRegs;
      stackLen := stackLen - 1;
      if bc[pc] == 27 && stack[stackLen] == cptr {
        return NoMatch;
      }
      pc := pc + 1;
      assert stack[..stackLen] == old(stack[..stackLen])[..old(stackLen) - 1];
      return Next;
    }

    method ExecLoop(ghost i: Instr, ghost c: Config) returns (flow: Flow)
      requires At(i, c) && i.Loop? && stackLen > 0 && pc + 5 + i.offset >= 0
      modifies this`pc, stack
      ensures Done(flow, c)
    {
      FetchOpcode(bc, pc, i);
      FetchOperands(bc, pc, i);
      hide Decode, GetI32, Fits, TextRegs;
      var val := GetI32(bc, pc + 1);
      stack[stackLen - 1] := stack[stackLen - 1] - 1;
      ghost var s0 := old(stack[..stackLen]);
      assert stack[..stackLen] == s0[|s0| - 1 := s0[|s0| - 1] - 1];
      pc := pc + 5;
      if stack[stackLen - 1] != 0 {
        pc := pc + val;
      }
      return Next;
    }

    method ExecPrev(ghost i: Instr, ghost c: Config) returns (flow: Flow)
      requires At(i, c) && i.Prev?
      modifies this`pc, this`cptr
      ensures Done(flow, c)
    {
      if cptr == 0 {
        return NoMatch;
      }
      cptr := PrevPos(env.input, cptr, 0);
      pc := pc + 1;
      return Next;
    }

    /** back_reference and backward_back_reference. */
    method ExecBackRef(ghost i: Instr, ghost c: Config) returns (flow: Flow)
      requires At(i, c) && i.BackRef?
      modifies this`pc, this`cptr
      ensures Done(flow, c)
    {
      FetchOpcode(bc, pc, i);
      FetchOperands(bc, pc, i);
      hide Decode, Fits, BackRefForward, BackRefBackward;
      var opcode := bc[pc];
      var val: int := bc[pc + 1];
      if val >= env.captureCount {
        return NoMatch;
      }
      var start, end := capture[2 * val], capture[2 * val + 1];
      if start >= 0 && end >= 0 {
        var p: int;
        if opcode == 20 {
          p := CompareForward(start, end);
        } else {
          p := CompareBackward(start, end);
        }
        if p < 0 {
          return NoMatch;
        }
        cptr := p;
      }
      pc := pc + 2;
      return Next;
    }

    method CompareForward(start: nat, end: nat) returns (p: int)
      requires start <= |env.input.units| && end <= |env.input.units| && InText(env, cptr)
      ensures p == BackRefForward(env, start, end, cptr)
    {
      var cptr1 := start;
      p := cptr;
      while cptr1 < end
        invariant 0 <= cptr1 <= |env.input.units| && InText(env, p)
        invariant BackRefForward(env, start, end, cptr) == BackRefForward(env, cptr1, end, p)
        decreases end - cptr1
      {
        if p >= |env.input.units| {
          return -1;
        }
        var c1, c2 := CharAt(env.input, cptr1, end), CharAt(env.input, p, |env.input.units|);
        cptr1, p := NextPos(env.input, cptr1, end), NextPos(env.input, p, |env.input.units|);
        if Canon(env.flags, c1) != Canon(env.flags, c2) {
          return -1;
        }
      }
    }

    method CompareBackward(start: nat, end: nat) returns (p: int)
      requires start <= |env.input.units| && end <= |env.input.units| && InText(env, cptr)
      ensures p == BackRefBackward(env, end, start, cptr)
    {
      var cptr1 := end;
      p := cptr;
      while cptr1 > start
        invariant 0 <= cptr1 <= |env.input.units| && InText(env, p)
        invariant BackRefBackward(env, end, start, cptr) == BackRefBackward(env, cptr1, start, p)
        decreases cptr1 - start
      {
        if p == 0 {
          return -1;
        }
        var c1, c2 := PrevCharAt(env.input, cptr1, start), PrevCharAt(env.input, p, 0);
        cptr1, p := PrevPos(env.input, cptr1, start), PrevPos(env.input, p, 0);
        if Canon(env.flags, c1) != Canon(env.flags, c2) {
          return -1;
        }
      }
    }

    // --- simple_greedy_quant ---

    /** The run of lre_exec_backtrack with no_recurse set: one pass of the atom at `pc1`
        from `from`. */
    method RunAtomOnce(pc1: nat, from: nat) returns (ok: bool, end: nat)
      requires Valid() && Loaded(bc, m) && InText(env, from) && !RunAtom(m, pc1, from).AtomStuck?
      ensures RunAtom(m, pc1, from) == if ok then AtomOk(end) else AtomFail
    {
      hide Decode, TestPos, Fits;
      var p := pc1;
      end := from;
      while true
        invariant InText(env, end) && RunAtom(m, p, end) == RunAtom(m, pc1, from)
        decreases m.size - p
      {
        ghost var i := m.program[p];
        FetchOpcode(bc, p, i);
        if bc[p] == 11 {
          return true, end;
        }
        TestInText(env, i, end);
        var pass, next, e := MatchTest(bc, p, env, end, i);
        if !pass {
          return false, end;
        }
        p, end := next, e;
      }
    }

    /** All passes of the atom: how many, and where the cursor ends. */
    method RunAllPasses(pc1: nat, quantMax: int) returns (q: nat, end: nat)
      requires Valid() && Loaded(bc, m) && InText(env, cptr) && !RunGreedy(m, pc1, cptr, 0, quantMax).GreedyStuck?
      ensures RunGreedy(m, pc1, cptr, 0, quantMax) == GreedyEnd(q, end)
    {
      hide RunAtom, Loaded;
      q, end := 0, cptr;
      while true
        invariant InText(env, end) && RunGreedy(m, pc1, end, q, quantMax) == RunGreedy(m, pc1, cptr, 0, quantMax)
        decreases Distance(env, false, end)
      {
        AtomInText(m, pc1, end);
        var ok, e := RunAtomOnce(pc1, end);
        if !ok {
          return;
        }
        ghost var before := end;
        end, q := e, q + 1;
        if q >= quantMax && quantMax != INT32_MAX {
          return;
        }
      }
    }

    method ExecGreedyQuant(ghost i: Instr, ghost c: Config) returns (flow: Flow)
      requires At(i, c) && i.SimpleGreedyQuant? && Loaded(bc, m) && !c.Stuck?
      requires pc + 17 + i.length >= 0
      modifies this`pc, this`cptr, this`stateStack
      ensures Done(flow, c)
    {
      ghost var r := CurrentRegs();
      assert InText(env, cptr) && r.pos == cptr && r.pc == pc && c == Exec(m, i, r, stateStack) && Decode(bc, pc) == Instruction(i);
      hide *;
      FetchGreedy(bc, pc, i);
      GreedyExec(m, i, r, stateStack);
      GreedyNotStuck(m, i, r, stateStack);
      var nextPos, quantMin, quantMax := GetI32(bc, pc + 1), GetU32(bc, pc + 5), GetU32(bc, pc + 9);
      var q, end := RunAllPasses(pc + 17, quantMax);
      GreedyCases(m, i, r, stateStack, q, end);
      flow := FinishGreedy(q, end, quantMin, nextPos, c);
    }

    /** The rest of the instruction, when the passes have been counted. */
    method FinishGreedy(q: nat, end: nat, quantMin: int, nextPos: int, ghost c: Config) returns (flow: Flow)
      requires Valid() && pc + 17 + nextPos >= 0
      requires var r := CurrentRegs();
        var next := r.(pc := r.pc + 17 + nextPos, pos := end);
        c == if q < quantMin then Fail(stateStack)
          else if q > quantMin then Run(next, stateStack + [Saved(GreedyState(q - quantMin), r.(pos := end))])
          else Run(next, stateStack)
      modifies this`pc, this`cptr, this`stateStack
      ensures Done(flow, c)
    {
      cptr := end;
      if q < quantMin {
        return NoMatch;
      }
      if q > quantMin {
        PushState(GreedyState(q - quantMin), pc);
      }
      pc := pc + 17 + nextPos;
      return Next;
    }

    // --- the main loop ---

    ghost predicate Ready()
      reads this, capture, stack
    {
      Valid() && IsProgram(m, core) && Loaded(bc, m) && stack.Length == MaxDepth(core + [Match])
    }

    /** The dispatch on the opcode. */
    method ExecInstr(ghost c: Config) returns (flow: Flow)
      requires Ready() && Sane(m, core, Cfg()) && c == Step(m, Cfg()) && !c.Stuck?
      modifies this, capture, stack
      ensures Done(flow, c)
    {
      ghost var r := CurrentRegs();
      ghost var i := Executable(m, core, r, stateStack);
      FetchOpcode(bc, pc, i);
      hide Decode, Sane, Fits, Exec, Step, Loaded, IsProgram, TextRegs, CurrentRegs;
      var opcode := bc[pc];
      if opcode == 11 {
        MatchSucceeds(m, r, stateStack);
        flow := Matched;
      } else if IsTestOpcode(opcode) {
        flow := ExecTest(i, c);
      } else if opcode == 8 || opcode == 9 || opcode == 10 || opcode == 24 || opcode == 25 {
        flow := ExecJump(i, c);
      } else if opcode == 12 || opcode == 13 {
        flow := ExecSave(i, c);
      } else if opcode == 14 {
        flow := ExecReset(i, c);
      } else if opcode == 15 {
        flow := ExecLoop(i, c);
      } else if opcode == 16 || opcode == 26 {
        flow := ExecPush(i, c);
      } else if opcode == 17 || opcode == 27 {
        flow := ExecDrop(i, c);
      } else if opcode == 20 || opcode == 21 {
        flow := ExecBackRef(i, c);
      } else if opcode == 28 {
        flow := ExecPrev(i, c);
      } else {
        flow := ExecGreedyQuant(i, c);
      }
    }

    /** The state stack is being unwound with `ret`; `c` is the configuration of the machine. */
    ghost predicate Unwinding(ret: bool, c: Config)
      reads this, capture
    {
      if ret then c.Succeed? && c.regs.caps == capture[..] && c.states == stateStack else c == Fail(stateStack)
    }

    /** pop_state, or pop_state1 when the captures are kept. */
    method PopState(keepCaptures: bool, ghost c: Config)
      requires Ready() && stateStack != [] && c.Run? && Sane(m, core, c)
      requires var rs := stateStack[|stateStack| - 1];
        |rs.regs.caps| == capture.Length &&
        c == Run(if keepCaptures then rs.regs.(caps := capture[..]) else rs.regs, stateStack[..|stateStack| - 1])
      modifies this, capture, stack
      ensures Ready() && Cfg() == c
    {
      RunFits(m, core, c);
      hide Sane, IsProgram, Loaded, MaxDepth;
      var rs := stateStack[|stateStack| - 1];
      if !keepCaptures {
        RestoreCaptures(rs.regs);
      }
      RestoreStack(rs.regs);
      stateStack := stateStack[..|stateStack| - 1];
    }

    /** A failure finds a greedy-quantifier state: go back by the characters of one pass. */
    method ResumeGreedy(ghost c: Config)
      requires Ready() && stateStack != [] && stateStack[|stateStack| - 1].kind.GreedyState?
      requires c == Backtrack(m, stateStack) && c.Run? && Sane(m, core, c) && Sane(m, core, Fail(stateStack))
      modifies this, capture, stack
      ensures Ready() && Cfg() == c
    {
      var rs := stateStack[|stateStack| - 1];
      ghost var i := GreedyInstr(bc, m, core, stateStack, c);
      RunFits(m, core, c);
      hide Sane, IsProgram, Loaded, MaxDepth, Decode, Fits, GetI32, GetU32, TextRegs;
      RestoreCaptures(rs.regs);
      var p := GoBack(rs.regs.pos, GetU32(bc, rs.regs.pc + 13));
      var count := rs.kind.count - 1;
      var regs := rs.regs.(pos := p);
      RestoreStack(regs.(pc := rs.regs.pc + 17 + GetI32(bc, rs.regs.pc + 1)));
      stateStack := stateStack[..|stateStack| - 1];
      if count != 0 {
        stateStack := stateStack + [Saved(GreedyState(count), regs)];
      }
    }

    /** PREV_CHAR, `charCount` times; never beyond the start of the text. */
    method GoBack(from: nat, charCount: nat) returns (p: nat)
      requires from <= |env.input.units| && CanBack(env.input, from, charCount)
      ensures p == Back(env.input, from, charCount)
    {
      p := from;
      var k := 0;
      while k < charCount
        invariant 0 <= k <= charCount && 0 <= p <= |env.input.units|
        invariant Back(env.input, from, charCount) == Back(env.input, p, charCount - k)
        invariant CanBack(env.input, p, charCount - k)
      {
        p := PrevPos(env.input, p, 0);
        k := k + 1;
      }
    }

    /** The inner loop behind `recurse`, entered with `ret`; `left` of the `n` steps remain. */
    method Unwind(ret0: bool, ghost n: nat, ghost c0: Config) returns (ret: bool, stopped: bool, ghost left: nat)
      requires Ready() && Sane(m, core, c0) && Unwinding(ret0, c0) && Steps(m, n, c0).Halted?
      modifies this, capture, stack
      ensures Ready() && left < n
      ensures stopped ==> Steps(m, n, c0).matched == ret && (ret ==> Steps(m, n, c0).regs.caps == capture[..])
      ensures !stopped ==> Sane(m, core, Cfg()) && Steps(m, n, c0) == Steps(m, left, Cfg())
    {
      hide IsProgram, Loaded, MaxDepth, Steps, CurrentRegs;
      ret, left := ret0, n;
      ghost var c := c0;
      while stateStack != []
        invariant Ready() && Sane(m, core, c) && Unwinding(ret, c) && left <= n
        invariant Steps(m, n, c0) == Steps(m, left, c)
        decreases |stateStack|
      {
        var rs := stateStack[|stateStack| - 1];
        ghost var next := Step(m, c);
        StepCounts(m, left, c);
        SaneStep(m, core, c);
        TopCaps(m, core, c);
        left := left - 1;
        match rs.kind {
          case SplitState =>
            if !ret {
              PopState(false, next);
              return ret, false, left;
            }
          case GreedyState(_) =>
            if !ret {
              ResumeGreedy(next);
              return ret, false, left;
            }
          case LookState(negated) =>
            ret := (!negated && ret) || (negated && !ret);
            if ret {
              PopState(!negated, next);
              return ret, false, left;
            }
        }
        stateStack := stateStack[..|stateStack| - 1];
        c := next;
      }
      StepCounts(m, left, c);
      FinalStep(m, left, c);
      stopped := true;
      left := left - 1;
    }

    /** lre_exec_backtrack: the result is that of the machine. */
    method Backtracking(ghost n: nat) returns (ret: bool)
      requires Ready() && Sane(m, core, Cfg()) && Steps(m, n, Cfg()).Halted?
      modifies this, capture, stack
      ensures Steps(m, n, old(Cfg())).matched == ret
      ensures ret ==> Steps(m, n, old(Cfg())).regs.caps == capture[..]
    {
      hide IsProgram, Loaded, MaxDepth, Steps, Sane;
      ghost var fin := Steps(m, n, Cfg());
      ghost var left := n;
      while true
        invariant Ready() && Sane(m, core, Cfg()) && Steps(m, left, Cfg()) == fin
        decreases left
      {
        ghost var c := Step(m, Cfg());
        StepCounts(m, left, Cfg());
        SaneStep(m, core, Cfg());
        left := left - 1;
        var flow := ExecInstr(c);
        if flow != Next {
          var stopped;
          ret, stopped, left := Unwind(flow == Matched, left, c);
          if stopped {
            return;
          }
        }
      }
    }
  }

  predicate IsTestOpcode(op: byte) {
    1 <= op <= 7 || op == 18 || op == 19 || op == 22 || op == 23
  }

  /** A sane running configuration has an instruction that finds its operands and jumps
      to a proper place. */
  lemma Executable(m: Machine, core: Code, r: Regs, ss: States) returns (i: Instr)
    requires IsProgram(m, core) && Sane(m, core, Run(r, ss))
    ensures r.pc in m.program && i == m.program[r.pc] && Step(m, Run(r, ss)) == Exec(m, i, r, ss) && TextRegs(m.env, r)
    ensures i.Drop? || i.CheckAdvance? || i.Loop? ==> r.stack != []
    ensures HasTarget(i) ==> Target(i, r.pc) >= 0
    ensures var c := Exec(m, i, r, ss); c.Run? ==> |c.regs.stack| <= MaxDepth(core + [Match])
    ensures IsTestOpcode(Opcode(i)) <==> IsCharOp(i) || IsAssertion(i)
  {
    ProgramInstr(m, core, r);
    SaneStep(m, core, Run(r, ss));
    i := m.program[r.pc];
    RunFits(m, core, Step(m, Run(r, ss)));
    hide MaxDepth, DepthAt, Exec, InstrSize, IsProgram;
  }

  lemma RunFits(m: Machine, core: Code, c: Config)
    requires Sane(m, core, c)
    ensures c.Run? ==> |c.regs.stack| <= MaxDepth(core + [Match]) && c.regs.pos >= 0 && c.regs.pc >= 0
  {
    hide MaxDepth, DepthAt, IsBoundary;
    if c.Run? {
      DepthFits(core, c.regs);
    }
  }

  /** The captures of the topmost saved state have the right number. */
  lemma TopCaps(m: Machine, core: Code, c: Config)
    requires Sane(m, core, c) && (c.Fail? || c.Succeed?) && c.states != []
    ensures |c.states[|c.states| - 1].regs.caps| == 2 * m.env.captureCount
  {
  }

  /** With an empty state stack one more step ends the run. */
  lemma FinalStep(m: Machine, n: nat, c: Config)
    requires n > 0 && (c.Fail? || c.Succeed?) && c.states == []
    ensures Steps(m, n, c) == if c.Succeed? then Halted(true, c.regs) else Halted(false, NoRegs)
  {
    StoppedStays(m, n - 1, Step(m, c));
  }

  /** The instruction a greedy-quantifier state belongs to, and where the state leads. */
  lemma GreedyInstr(bc: Bytes, m: Machine, core: Code, ss: States, c: Config) returns (i: Instr)
    requires Loaded(bc, m) && ss != [] && ss[|ss| - 1].kind.GreedyState?
    requires c == Backtrack(m, ss) && c.Run? && Sane(m, core, Fail(ss))
    ensures var rs := ss[|ss| - 1]; var pc, pos := rs.regs.pc, rs.regs.pos;
      i.SimpleGreedyQuant? && i.chars >= 0 && 0 <= pc && pc + 17 <= |bc| && |rs.regs.caps| == 2 * m.env.captureCount &&
      i.length == GetI32(bc, pc + 1) && i.chars == GetU32(bc, pc + 13) &&
      InText(m.env, pos) && CanBack(m.env.input, pos, i.chars) &&
      var regs := rs.regs.(pos := Back(m.env.input, pos, i.chars));
      var rest := ss[..|ss| - 1];
      c == Run(regs.(pc := pc + 17 + i.length),
        if rs.kind.count - 1 == 0 then rest else rest + [Saved(GreedyState(rs.kind.count - 1), regs)])
  {
    var rs := ss[|ss| - 1];
    i := m.program[rs.regs.pc];
    TopCaps(m, core, Fail(ss));
    hide Sane, Fits, Decode, GetI32, GetU32, Back, CanBack;
    FetchOpcode(bc, rs.regs.pc, i);
    FetchOperands(bc, rs.regs.pc, i);
  }

  lemma FetchGreedy(bc: Bytes, pc: int, i: Instr)
    requires Decode(bc, pc) == Instruction(i) && i.SimpleGreedyQuant?
    ensures 0 <= pc && pc + 17 <= |bc|
    ensures i.length == GetI32(bc, pc + 1) && i.min == GetU32(bc, pc + 5) && i.max == GetU32(bc, pc + 9)
  {
    hide Decode, GetI32, GetU32;
    FetchOpcode(bc, pc, i);
    FetchOperands(bc, pc, i);
  }

  /** What the instruction does when the passes have been counted. */
  lemma GreedyCases(m: Machine, i: Instr, r: Regs, ss: States, q: nat, end: nat)
    requires i.SimpleGreedyQuant? && RunGreedy(m, r.pc + 17, r.pos, 0, i.max) == GreedyEnd(q, end)
    ensures var next := r.(pc := r.pc + 17 + i.length, pos := end);
      ExecGreedy(m, i, r, ss) ==
      if q < i.min then Fail(ss)
      else if q > i.min then Run(next, ss + [Saved(GreedyState(q - i.min), r.(pos := end))])
      else Run(next, ss)
  {
    hide RunGreedy;
  }

  lemma GreedyNotStuck(m: Machine, i: Instr, r: Regs, ss: States)
    requires i.SimpleGreedyQuant? && !ExecGreedy(m, i, r, ss).Stuck?
    ensures !RunGreedy(m, r.pc + 17, r.pos, 0, i.max).GreedyStuck?
  {
    hide RunGreedy;
  }

  lemma GreedyExec(m: Machine, i: Instr, r: Regs, ss: States)
    requires i.SimpleGreedyQuant?
    ensures Exec(m, i, r, ss) == ExecGreedy(m, i, r, ss)
  {
  }
}
