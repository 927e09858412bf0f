/** The backtracking machine of lre_exec_backtrack as a transition function: one step per
    executed instruction, and one step per examined entry of the state stack. */
module RegexMachine {
  import opened Words
  import opened RegexInput
  import opened RegexTerm
  import opened RegexCode
  import opened RegexMatcher

  /** The registers: program counter, cursor, captures, operand stack. */
  datatype Regs = Regs(pc: int, pos: int, caps: seq<int>, stack: seq<int>)

  datatype Kind = SplitState | LookState(negated: bool) | GreedyState(count: int)

  /** REExecState */
  datatype Saved = Saved(kind: Kind, regs: Regs)

  type States = seq<Saved>

  /** Running; unwinding the state stack after a failure or after a match; stopped. `Stuck`
      is any behaviour the C code leaves undefined or reports as a bytecode error. */
  datatype Config =
    | Run(regs: Regs, states: States)
    | Fail(states: States)
    | Succeed(regs: Regs, states: States)
    | Halted(matched: bool, regs: Regs)
    | Stuck

  /** The decoded program: instructions by byte offset. */
  datatype Machine = Machine(env: Env, program: map<int, Instr>, size: int)

  const NoRegs := Regs(0, 0, [], [])

  ghost predicate InRanges(ranges: seq<(int, int)>, c: int) {
    exists i :: 0 <= i < |ranges| && ranges[i].0 <= c <= ranges[i].1
  }

  /** The character tests. In `Range`, a last upper bound of 0xffff stands for infinity. */
  ghost predicate InstrAccepts(f: Flags, i: Instr, c: int)
    requires IsCharOp(i)
  {
    match i
    case Char8(e) => e == Canon(f, c)
    case Char16(e) => e == Canon(f, c)
    case Char32(e) => e == Canon(f, c)
    case DotOp => !IsLineTerminator(c)
    case AnyOp => true
    case Range(r) =>
      var x := Canon(f, c);
      |r| > 0 && x >= r[0].0 && ((x >= 0xffff && r[|r| - 1].1 == 0xffff) || InRanges(r, x))
    case Range32(r) => InRanges(r, Canon(f, c))
  }

  /** The cursor after a character instruction or an assertion, or -1 for no match. */
  ghost function TestPos(env: Env, i: Instr, pos: int): int
    requires IsCharOp(i) || IsAssertion(i)
  {
    if !InText(env, pos) then -1
    else if IsCharOp(i) then
      if pos < |env.input.units| && InstrAccepts(env.flags, i, CharAt(env.input, pos, |env.input.units|))
      then NextPos(env.input, pos, |env.input.units|) else -1
    else if i.LineStartOp? then (if AtLineStart(env, pos) then pos else -1)
    else if i.LineEndOp? then (if AtLineEnd(env, pos) then pos else -1)
    else (if AtWordBoundary(env, pos) != i.negated then pos else -1)
  }

  /** The comparison loop of a back reference with its two cursors `q` and `pos`. */
  function BackRefForward(env: Env, q: int, end: int, pos: int): int
    requires 0 <= q && end <= |env.input.units| && InText(env, pos)
    decreases end - q
  {
    var inp := env.input;
    if q >= end then pos
    else if pos >= |inp.units| then -1
    else if Canon(env.flags, CharAt(inp, q, end)) != Canon(env.flags, CharAt(inp, pos, |inp.units|)) then -1
    else BackRefForward(env, NextPos(inp, q, end), end, NextPos(inp, pos, |inp.units|))
  }

  function BackRefBackward(env: Env, q: int, start: int, pos: int): int
    requires 0 <= start && q <= |env.input.units| && InText(env, pos)
    decreases q - start
  {
    var inp := env.input;
    if q <= start then pos
    else if pos == 0 then -1
    else if Canon(env.flags, PrevCharAt(inp, q, start)) != Canon(env.flags, PrevCharAt(inp, pos, 0)) then -1
    else BackRefBackward(env, PrevPos(inp, q, start), start, PrevPos(inp, pos, 0))
  }

  function BackRefPos(env: Env, i: Instr, pos: int, caps: seq<int>): int
    requires i.BackRef? && InText(env, pos)
  {
    if i.index < 0 || i.index >= env.captureCount || 2 * i.index + 1 >= |caps| then -1
    else
      var start, end := caps[2 * i.index], caps[2 * i.index + 1];
      if start < 0 || end < 0 then pos
      else if start > |env.input.units| || end > |env.input.units| then -1
      else if i.backward then BackRefBackward(env, end, start, pos)
      else BackRefForward(env, start, end, pos)
  }

  /** One pass of the atom of a simple greedy quantifier: the recursive call of
      lre_exec_backtrack with no_recurse set. */
  datatype AtomResult = AtomOk(pos: int) | AtomFail | AtomStuck

  ghost function RunAtom(m: Machine, pc: int, pos: int): AtomResult
    decreases m.size - pc
  {
    if pc !in m.program || pc >= m.size then AtomStuck
    else
      var i := m.program[pc];
      if i.Match? then AtomOk(pos)
      else if IsCharOp(i) || IsAssertion(i) then
        var p := TestPos(m.env, i, pos);
        if p < 0 then AtomFail else RunAtom(m, pc + InstrSize(i), p)
      else AtomStuck
  }

  /** The repetition loop of simple_greedy_quant: how often the atom matches (at most
      `max` times) and where the cursor ends. A pass that does not advance would repeat
      for ever. */
  datatype GreedyResult = GreedyEnd(count: nat, pos: int) | GreedyStuck

  ghost function RunGreedy(m: Machine, pc: int, pos: int, q: nat, max: int): GreedyResult
    decreases Distance(m.env, false, pos)
  {
    match RunAtom(m, pc, pos)
    case AtomStuck => GreedyStuck
    case AtomFail => GreedyEnd(q, pos)
    case AtomOk(p) =>
      if q + 1 >= max && max != INT32_MAX then GreedyEnd(q + 1, p)
      else if !Advances(m.env, false, pos, p) then GreedyStuck
      else RunGreedy(m, pc, p, q + 1, max)
  }

  ghost function ExecGreedy(m: Machine, i: Instr, r: Regs, ss: States): Config
    requires i.SimpleGreedyQuant?
  {
    var next := r.(pc := r.pc + 17 + i.length);
    match RunGreedy(m, r.pc + 17, r.pos, 0, i.max)
    case GreedyStuck => Stuck
    case GreedyEnd(q, p) =>
      if q < i.min then Fail(ss)
      else if q > i.min then
        Run(next.(pos := p), ss + [Saved(GreedyState(q - i.min), r.(pos := p))])
      else Run(next.(pos := p), ss)
  }

  function Top(r: Regs): int
    requires r.stack != []
  {
    r.stack[|r.stack| - 1]
  }

  function Pop(r: Regs): Regs
    requires r.stack != []
  {
    r.(stack := r.stack[..|r.stack| - 1])
  }

  /** One instruction. */
  ghost function Exec(m: Machine, i: Instr, r: Regs, ss: States): Config {
    var next := r.(pc := r.pc + InstrSize(i));
    if IsCharOp(i) || IsAssertion(i) then
      var p := TestPos(m.env, i, r.pos);
      if p < 0 then Fail(ss) else Run(next.(pos := p), ss)
    else
      match i
      case Match => Succeed(r, ss)
      case Goto(off) => Run(next.(pc := next.pc + off), ss)
      case Split(nextFirst, off) =>
        var jump := next.(pc := next.pc + off);
        if nextFirst then Run(next, ss + [Saved(SplitState, jump)])
        else Run(jump, ss + [Saved(SplitState, next)])
      case Lookahead(neg, off) => Run(next, ss + [Saved(LookState(neg), next.(pc := next.pc + off))])
      case SaveStart(k) =>
        if !(0 <= k < m.env.captureCount && 2 * k + 1 < |r.caps|) then Stuck
        else Run(next.(caps := r.caps[2 * k := r.pos]), ss)
      case SaveEnd(k) =>
        if !(0 <= k < m.env.captureCount && 2 * k + 1 < |r.caps|) then Stuck
        else Run(next.(caps := r.caps[2 * k + 1 := r.pos]), ss)
      case SaveReset(k, l) =>
        if !(0 <= k && l < m.env.captureCount) then Stuck
        else Run(next.(caps := ResetCaptures(r.caps, k, l)), ss)
      case PushI32(v) => Run(next.(stack := r.stack + [v]), ss)
      case PushCharPos => Run(next.(stack := r.stack + [r.pos]), ss)
      case Drop => if r.stack == [] then Stuck else Run(Pop(next), ss)
      case CheckAdvance =>
        if r.stack == [] then Stuck
        else if Top(r) == r.pos then Fail(ss) else Run(Pop(next), ss)
      case Loop(off) =>
        if r.stack == [] then Stuck
        else
          var n := Top(r) - 1;
          var counted := next.(stack := r.stack[|r.stack| - 1 := n]);
          Run(if n != 0 then counted.(pc := next.pc + off) else counted, ss)
      case BackRef(_, _) =>
        if !InText(m.env, r.pos) then Stuck
        else
          var p := BackRefPos(m.env, i, r.pos, r.caps);
          if p < 0 then Fail(ss) else Run(next.(pos := p), ss)
      case Prev =>
        if !InText(m.env, r.pos) then Stuck
        else if r.pos == 0 then Fail(ss)
        else Run(next.(pos := PrevPos(m.env.input, r.pos, 0)), ss)
      case SimpleGreedyQuant(_, _, _, _) => ExecGreedy(m, i, r, ss)
      case _ => Stuck
  }

  /** Failure: resume the most recent choice. Stepping back over the start of the text is
      not defined. */
  ghost function Backtrack(m: Machine, ss: States): Config {
    if ss == [] then Halted(false, NoRegs)
    else
      var top, rest := ss[|ss| - 1], ss[..|ss| - 1];
      match top.kind
      case SplitState => Run(top.regs, rest)
      case LookState(neg) => if neg then Run(top.regs, rest) else Fail(rest)
      case GreedyState(count) =>
        if top.regs.pc !in m.program || !m.program[top.regs.pc].SimpleGreedyQuant? || !InText(m.env, top.regs.pos)
           || m.program[top.regs.pc].chars < 0
           || !CanBack(m.env.input, top.regs.pos, m.program[top.regs.pc].chars) then Stuck
        else
          var i := m.program[top.regs.pc];
          var p := Back(m.env.input, top.regs.pos, i.chars);
          var regs := top.regs.(pos := p);
          Run(regs.(pc := regs.pc + 17 + i.length),
              if count - 1 == 0 then rest else rest + [Saved(GreedyState(count - 1), regs)])
  }

  /** A match: discard choices down to the lookaround being evaluated, if any. */
  ghost function Commit(r: Regs, ss: States): Config {
    if ss == [] then Halted(true, r)
    else
      var top, rest := ss[|ss| - 1], ss[..|ss| - 1];
      match top.kind
      case LookState(neg) => if neg then Fail(rest) else Run(top.regs.(caps := r.caps), rest)
      case _ => Succeed(r, rest)
  }

  ghost function Step(m: Machine, c: Config): Config {
    match c
    case Run(r, ss) => if r.pc in m.program then Exec(m, m.program[r.pc], r, ss) else Stuck
    case Fail(ss) => Backtrack(m, ss)
    case Succeed(r, ss) => Commit(r, ss)
    case _ => c
  }

  ghost function Steps(m: Machine, n: nat, c: Config): Config {
    if n == 0 then c else Steps(m, n - 1, Step(m, c))
  }

  /** The configuration `d` occurs in the run that starts at `c`. */
  ghost predicate Reaches(m: Machine, c: Config, d: Config) {
    exists n: nat :: Steps(m, n, c) == d
  }

  lemma {:induction false} StepsAdd(m: Machine, a: nat, b: nat, c: Config)
    ensures Steps(m, a + b, c) == Steps(m, b, Steps(m, a, c))
  {
    if a > 0 {
      StepsAdd(m, a - 1, b, Step(m, c));
    }
  }

  lemma ReachesSelf(m: Machine, c: Config)
    ensures Reaches(m, c, c)
  {
    assert Steps(m, 0, c) == c;
  }

  lemma ReachesStep(m: Machine, c: Config)
    ensures Reaches(m, c, Step(m, c))
  {
    assert Steps(m, 0, Step(m, c)) == Step(m, c);
    assert Steps(m, 1, c) == Step(m, c);
  }

  lemma ReachesTrans(m: Machine, c: Config, d: Config, e: Config)
    requires Reaches(m, c, d) && Reaches(m, d, e)
    ensures Reaches(m, c, e)
  {
    var a: nat :| Steps(m, a, c) == d;
    var b: nat :| Steps(m, b, d) == e;
    StepsAdd(m, a, b, c);
    assert Steps(m, a + b, c) == e;
  }

  /** A stopped machine stays as it is. */
  lemma {:induction false} StoppedStays(m: Machine, n: nat, c: Config)
    requires c.Halted? || c.Stuck?
    ensures Steps(m, n, c) == c
  {
    if n > 0 {
      StoppedStays(m, n - 1, c);
    }
  }

  /** A run stops in at most one way. */
  lemma HaltsOnce(m: Machine, c: Config, d: Config, e: Config)
    requires Reaches(m, c, d) && Reaches(m, c, e)
    requires (d.Halted? || d.Stuck?) && (e.Halted? || e.Stuck?)
    ensures d == e
  {
    var a: nat :| Steps(m, a, c) == d;
    var b: nat :| Steps(m, b, c) == e;
    if a <= b {
      StepsAdd(m, a, b - a, c);
      StoppedStays(m, b - a, d);
    } else {
      StepsAdd(m, b, a - b, c);
      StoppedStays(m, a - b, e);
    }
  }
}
