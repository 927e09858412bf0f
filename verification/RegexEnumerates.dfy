/** What it means for a machine to produce a list of outcomes by backtracking, and how
    such behaviours compose. */
module RegexEnumerates {
  import opened RegexCode
  import opened RegexMatcher
  import opened RegexMachine

  /** States that a match inside a lookaround discards. */
  predicate NoLook(ss: States) {
    forall i :: 0 <= i < |ss| ==> !ss[i].kind.LookState?
  }

  function At(pc: int, o: Outcome, stack: seq<int>): Regs {
    Regs(pc, o.pos, o.caps, stack)
  }

  /** From `c` the machine arrives at `exit` with the first outcome; each failure
      thereafter makes it arrive with the next one; after the last one it fails with the
      state stack `ss`. */
  ghost predicate Enumerates(m: Machine, c: Config, outs: Outcomes, exit: int, stack: seq<int>, ss: States)
    decreases |outs|
  {
    if outs == [] then Reaches(m, c, Fail(ss))
    else exists extra: States ::
      NoLook(extra) &&
      Reaches(m, c, Run(At(exit, outs[0], stack), ss + extra)) &&
      Enumerates(m, Fail(ss + extra), outs[1..], exit, stack, ss)
  }

  /** The code at `pc`, entered with outcome `o`, produces `outs` at `exit`, whatever is
      on the state stack. */
  ghost predicate Yields(m: Machine, pc: int, stackIn: seq<int>, o: Outcome, outs: Outcomes, exit: int, stackOut: seq<int>) {
    forall ss :: Enumerates(m, Run(At(pc, o, stackIn), ss), outs, exit, stackOut, ss)
  }

  lemma YieldsElim(m: Machine, pc: int, stackIn: seq<int>, o: Outcome, outs: Outcomes, exit: int, stackOut: seq<int>, ss: States)
    requires Yields(m, pc, stackIn, o, outs, exit, stackOut)
    ensures Enumerates(m, Run(At(pc, o, stackIn), ss), outs, exit, stackOut, ss)
  {
  }

  lemma EnumeratesHere(m: Machine, o: Outcome, exit: int, stack: seq<int>, ss: States)
    ensures Enumerates(m, Run(At(exit, o, stack), ss), [o], exit, stack, ss)
  {
    var c := Run(At(exit, o, stack), ss);
    ReachesSelf(m, c);
    ReachesSelf(m, Fail(ss));
    assert ss + [] == ss;
    assert NoLook([]);
    assert [o][1..] == [];
    assert Enumerates(m, Fail(ss + []), [o][1..], exit, stack, ss);
  }

  lemma EnumeratesCons(m: Machine, c: Config, o: Outcome, outs: Outcomes, exit: int, stack: seq<int>, ss: States, extra: States)
    requires NoLook(extra)
    requires Reaches(m, c, Run(At(exit, o, stack), ss + extra))
    requires Enumerates(m, Fail(ss + extra), outs, exit, stack, ss)
    ensures Enumerates(m, c, [o] + outs, exit, stack, ss)
  {
    assert ([o] + outs)[1..] == outs;
  }

  lemma EnumeratesNone(m: Machine, c: Config, exit: int, stack: seq<int>, ss: States)
    requires Reaches(m, c, Fail(ss))
    ensures Enumerates(m, c, [], exit, stack, ss)
  {
  }

  lemma EnumeratesFrom(m: Machine, c: Config, d: Config, outs: Outcomes, exit: int, stack: seq<int>, ss: States)
    requires Reaches(m, c, d) && Enumerates(m, d, outs, exit, stack, ss)
    ensures Enumerates(m, c, outs, exit, stack, ss)
  {
    if outs == [] {
      ReachesTrans(m, c, d, Fail(ss));
    } else {
      var extra: States :| NoLook(extra) &&
        Reaches(m, d, Run(At(exit, outs[0], stack), ss + extra)) &&
        Enumerates(m, Fail(ss + extra), outs[1..], exit, stack, ss);
      ReachesTrans(m, c, d, Run(At(exit, outs[0], stack), ss + extra));
    }
  }

  lemma EnumeratesUncons(m: Machine, c: Config, outs: Outcomes, exit: int, stack: seq<int>, ss: States) returns (extra: States)
    requires outs != [] && Enumerates(m, c, outs, exit, stack, ss)
    ensures NoLook(extra)
    ensures Reaches(m, c, Run(At(exit, outs[0], stack), ss + extra))
    ensures Enumerates(m, Fail(ss + extra), outs[1..], exit, stack, ss)
  {
    extra :| NoLook(extra) &&
      Reaches(m, c, Run(At(exit, outs[0], stack), ss + extra)) &&
      Enumerates(m, Fail(ss + extra), outs[1..], exit, stack, ss);
  }

  lemma StatesAppend(ss: States, x: States, extra: States)
    requires NoLook(x) && NoLook(extra)
    ensures (ss + x) + extra == ss + (x + extra) && NoLook(x + extra)
  {
  }

  lemma EnumeratesEnd(m: Machine, c: Config, outs: Outcomes, exit: int, stack: seq<int>, ss: States)
    requires outs == [] && Enumerates(m, c, outs, exit, stack, ss)
    ensures Reaches(m, c, Fail(ss))
  {
  }

  /** First all of `a` (over a taller state stack), then, when they are exhausted, all of `b`. */
  lemma {:induction false} EnumeratesThen(m: Machine, c: Config, a: Outcomes, b: Outcomes, exit: int, stack: seq<int>, ss: States, x: States)
    requires NoLook(x)
    requires Enumerates(m, c, a, exit, stack, ss + x)
    requires Enumerates(m, Fail(ss + x), b, exit, stack, ss)
    ensures Enumerates(m, c, a + b, exit, stack, ss)
    decreases |a|
  {
    hide Enumerates, NoLook, Reaches;
    if a == [] {
      assert a + b == b;
      EnumeratesEnd(m, c, a, exit, stack, ss + x);
      EnumeratesFrom(m, c, Fail(ss + x), b, exit, stack, ss);
    } else {
      var extra := EnumeratesUncons(m, c, a, exit, stack, ss + x);
      StatesAppend(ss, x, extra);
      EnumeratesThen(m, Fail((ss + x) + extra), a[1..], b, exit, stack, ss, x);
      EnumeratesCons(m, c, a[0], a[1..] + b, exit, stack, ss, x + extra);
      assert a + b == [a[0]] + (a[1..] + b);
    }
  }

  /** Sequencing: every outcome of the first part is continued by the second part. */
  lemma {:induction false} EnumeratesBind(m: Machine, c: Config, outs: Outcomes, fs: seq<Outcomes>, mid: int, stackMid: seq<int>, exit: int, stack: seq<int>, ss: States)
    requires Enumerates(m, c, outs, mid, stackMid, ss)
    requires |fs| == |outs|
    requires forall k :: 0 <= k < |outs| ==> Yields(m, mid, stackMid, outs[k], fs[k], exit, stack)
    ensures Enumerates(m, c, Flatten(fs), exit, stack, ss)
    decreases |outs|
  {
    hide Enumerates, Reaches, NoLook;
    if outs == [] {
      EnumeratesEnd(m, c, outs, mid, stackMid, ss);
      EnumeratesNone(m, c, exit, stack, ss);
    } else {
      var extra := EnumeratesUncons(m, c, outs, mid, stackMid, ss);
      forall k | 0 <= k < |outs[1..]| ensures Yields(m, mid, stackMid, outs[1..][k], fs[1..][k], exit, stack) {
        assert outs[1..][k] == outs[k + 1] && fs[1..][k] == fs[k + 1];
      }
      EnumeratesBind(m, Fail(ss + extra), outs[1..], fs[1..], mid, stackMid, exit, stack, ss);
      YieldsElim(m, mid, stackMid, outs[0], fs[0], exit, stack, ss + extra);
      EnumeratesThen(m, Run(At(mid, outs[0], stackMid), ss + extra), fs[0], Flatten(fs[1..]), exit, stack, ss, extra);
      EnumeratesFrom(m, c, Run(At(mid, outs[0], stackMid), ss + extra), fs[0] + Flatten(fs[1..]), exit, stack, ss);
    }
  }

  lemma YieldsBind(m: Machine, pc: int, stackIn: seq<int>, o: Outcome, outs: Outcomes, fs: seq<Outcomes>, mid: int, stackMid: seq<int>, exit: int, stack: seq<int>)
    requires Yields(m, pc, stackIn, o, outs, mid, stackMid)
    requires |fs| == |outs|
    requires forall k :: 0 <= k < |outs| ==> Yields(m, mid, stackMid, outs[k], fs[k], exit, stack)
    ensures Yields(m, pc, stackIn, o, Flatten(fs), exit, stack)
  {
    hide Enumerates;
    forall ss ensures Enumerates(m, Run(At(pc, o, stackIn), ss), Flatten(fs), exit, stack, ss) {
      YieldsElim(m, pc, stackIn, o, outs, mid, stackMid, ss);
      EnumeratesBind(m, Run(At(pc, o, stackIn), ss), outs, fs, mid, stackMid, exit, stack, ss);
    }
  }

  /** Nothing to execute. */
  lemma YieldsSelf(m: Machine, pc: int, stack: seq<int>, o: Outcome)
    ensures Yields(m, pc, stack, o, [o], pc, stack)
  {
    forall ss ensures Enumerates(m, Run(At(pc, o, stack), ss), [o], pc, stack, ss) {
      EnumeratesHere(m, o, pc, stack, ss);
    }
  }

  /** The code of a program fragment is in place at `pc`. */
  ghost predicate Holds(m: Machine, pc: int, code: Code)
    decreases |code|
  {
    code == [] ||
    (0 <= pc && pc in m.program && m.program[pc] == code[0] && pc + InstrSize(code[0]) <= m.size &&
     Holds(m, pc + InstrSize(code[0]), code[1..]))
  }

  lemma {:induction false} HoldsAppend(m: Machine, pc: int, a: Code, b: Code)
    requires Holds(m, pc, a + b)
    ensures Holds(m, pc, a) && Holds(m, pc + CodeSize(a), b)
    decreases |a|
  {
    if a == [] {
      assert a + b == b;
    } else {
      assert (a + b)[1..] == a[1..] + b;
      HoldsAppend(m, pc + InstrSize(a[0]), a[1..], b);
    }
  }

  lemma HoldsHead(m: Machine, pc: int, i: Instr, rest: Code)
    requires Holds(m, pc, [i] + rest)
    ensures pc in m.program && m.program[pc] == i && Holds(m, pc + InstrSize(i), rest)
    ensures 0 <= pc && pc + InstrSize(i) <= m.size
  {
    assert ([i] + rest)[1..] == rest;
  }

  lemma HoldsOne(m: Machine, pc: int, i: Instr)
    requires Holds(m, pc, [i])
    ensures pc in m.program && m.program[pc] == i
    ensures 0 <= pc && pc + InstrSize(i) <= m.size
  {
  }

  /** One step leads from `c` to `d`. */
  lemma YieldsStep(m: Machine, pc: int, stack: seq<int>, o: Outcome, outs: Outcomes, exit: int, stackOut: seq<int>, pc1: int, stack1: seq<int>, o1: Outcome)
    requires pc in m.program
    requires forall ss :: Exec(m, m.program[pc], At(pc, o, stack), ss) == Run(At(pc1, o1, stack1), ss)
    requires Yields(m, pc1, stack1, o1, outs, exit, stackOut)
    ensures Yields(m, pc, stack, o, outs, exit, stackOut)
  {
    hide Enumerates, Reaches;
    forall ss ensures Enumerates(m, Run(At(pc, o, stack), ss), outs, exit, stackOut, ss) {
      YieldsElim(m, pc1, stack1, o1, outs, exit, stackOut, ss);
      ReachesStep(m, Run(At(pc, o, stack), ss));
      EnumeratesFrom(m, Run(At(pc, o, stack), ss), Run(At(pc1, o1, stack1), ss), outs, exit, stackOut, ss);
    }
  }

  lemma YieldsFail(m: Machine, pc: int, stack: seq<int>, o: Outcome, exit: int, stackOut: seq<int>)
    requires pc in m.program
    requires forall ss :: Exec(m, m.program[pc], At(pc, o, stack), ss) == Fail(ss)
    ensures Yields(m, pc, stack, o, [], exit, stackOut)
  {
    hide Enumerates, Reaches;
    forall ss ensures Enumerates(m, Run(At(pc, o, stack), ss), [], exit, stackOut, ss) {
      ReachesStep(m, Run(At(pc, o, stack), ss));
      EnumeratesNone(m, Run(At(pc, o, stack), ss), exit, stackOut, ss);
    }
  }

  /** A split: the code entered first and the code entered on failure. */
  lemma YieldsSplit(m: Machine, pc: int, stack: seq<int>, o: Outcome, first: Outcomes, second: Outcomes, pc1: int, pc2: int, exit: int, stackOut: seq<int>)
    requires pc in m.program && m.program[pc].Split?
    requires var next := pc + 5; var jump := next + m.program[pc].offset;
             if m.program[pc].nextFirst then pc1 == next && pc2 == jump else pc1 == jump && pc2 == next
    requires Yields(m, pc1, stack, o, first, exit, stackOut)
    requires Yields(m, pc2, stack, o, second, exit, stackOut)
    ensures Yields(m, pc, stack, o, first + second, exit, stackOut)
  {
    hide Enumerates, Reaches;
    forall ss ensures Enumerates(m, Run(At(pc, o, stack), ss), first + second, exit, stackOut, ss) {
      var x := [Saved(SplitState, At(pc2, o, stack))];
      ReachesStep(m, Run(At(pc, o, stack), ss));
      YieldsElim(m, pc1, stack, o, first, exit, stackOut, ss + x);
      ReachesStep(m, Fail(ss + x));
      assert (ss + x)[..|ss + x| - 1] == ss;
      YieldsElim(m, pc2, stack, o, second, exit, stackOut, ss);
      EnumeratesFrom(m, Fail(ss + x), Run(At(pc2, o, stack), ss), second, exit, stackOut, ss);
      EnumeratesThen(m, Run(At(pc1, o, stack), ss + x), first, second, exit, stackOut, ss, x);
      EnumeratesFrom(m, Run(At(pc, o, stack), ss), Run(At(pc1, o, stack), ss + x), first + second, exit, stackOut, ss);
    }
  }
}
