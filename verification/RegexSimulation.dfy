/** The code of every term produces the outcomes of the term. */
module RegexSimulation {
  import opened RegexInput
  import opened RegexTerm
  import opened RegexCode
  import opened RegexMatcher
  import opened RegexMachine
  import opened RegexEnumerates
  import opened RegexInvariants
  import opened RegexRanges
  import opened RegexGreedy
  import opened RegexQuantifier

  // --- one character, assertions ---

  lemma TestYields(m: Machine, pc: int, stack: seq<int>, o: Outcome)
    requires pc in m.program && (IsCharOp(m.program[pc]) || IsAssertion(m.program[pc]))
    ensures var i := m.program[pc]; var p := TestPos(m.env, i, o.pos);
      Yields(m, pc, stack, o, if p < 0 then [] else [o.(pos := p)], pc + InstrSize(i), stack)
  {
    hide Yields;
    var i := m.program[pc];
    var p := TestPos(m.env, i, o.pos);
    if p < 0 {
      YieldsFail(m, pc, stack, o, pc + InstrSize(i), stack);
    } else {
      YieldsSelf(m, pc + InstrSize(i), stack, o.(pos := p));
      YieldsStep(m, pc, stack, o, [o.(pos := p)], pc + InstrSize(i), stack, pc + InstrSize(i), stack, o.(pos := p));
    }
  }

  lemma PrevYields(m: Machine, pc: int, stack: seq<int>, o: Outcome, outs: Outcomes, exit: int, stackOut: seq<int>)
    requires pc in m.program && m.program[pc].Prev? && InText(m.env, o.pos)
    requires if o.pos == 0 then outs == []
      else Yields(m, pc + 1, stack, o.(pos := PrevPos(m.env.input, o.pos, 0)), outs, exit, stackOut)
    ensures Yields(m, pc, stack, o, outs, exit, stackOut)
  {
    hide Yields;
    if o.pos == 0 {
      YieldsFail(m, pc, stack, o, exit, stackOut);
    } else {
      YieldsStep(m, pc, stack, o, outs, exit, stackOut, pc + 1, stack, o.(pos := PrevPos(m.env.input, o.pos, 0)));
    }
  }

  lemma OneForward(m: Machine, pc: int, x: CharTest, cc: nat, stack: seq<int>, o: Outcome)
    requires Ready(m.env, o) && ValidTest(x) && Holds(m, pc, TermCode(m.env.flags, One(x), false, cc))
    ensures Yields(m, pc, stack, o, TermOutcomes(m.env, One(x), false, cc, o),
      pc + CodeSize(TermCode(m.env.flags, One(x), false, cc)), stack)
  {
    hide *;
    var i := TestInstr(m.env.flags, x);
    OneCode(m.env, x, cc, o);
    HoldsOne(m, pc, i);
    OneSize(i);
    TestYields(m, pc, stack, o);
  }

  lemma OneCode(env: Env, x: CharTest, cc: nat, o: Outcome)
    requires Ready(env, o) && ValidTest(x)
    ensures ValidTerm(One(x)) && TermCode(env.flags, One(x), false, cc) == [TestInstr(env.flags, x)]
    ensures var i := TestInstr(env.flags, x); var p := TestPos(env, i, o.pos);
      (IsCharOp(i) || IsAssertion(i)) &&
      TermOutcomes(env, One(x), false, cc, o) == if p < 0 then [] else [o.(pos := p)]
  {
    var i := TestInstr(env.flags, x);
    SimpleTestOutcome(env, x, cc, o);
    SimpleOne(env, i, o.pos);
    hide TestInstr, TestPos, TermOutcomes, RunSimple, AllSimple;
  }

  /** prev; test; prev: the character before the cursor, ending before it. */
  lemma OneBackward(m: Machine, pc: int, x: CharTest, cc: nat, stack: seq<int>, o: Outcome)
    requires Ready(m.env, o) && ValidTest(x) && Holds(m, pc, TermCode(m.env.flags, One(x), true, cc))
    ensures Yields(m, pc, stack, o, TermOutcomes(m.env, One(x), true, cc, o),
      pc + CodeSize(TermCode(m.env.flags, One(x), true, cc)), stack)
  {
    hide Yields, Holds, InstrAccepts, ValidTest, CodeSize, PrevPos, CharAt;
    var i := TestInstr(m.env.flags, x);
    assert [Prev, i, Prev] == [Prev] + ([i] + [Prev]);
    HoldsHead(m, pc, Prev, [i] + [Prev]);
    HoldsHead(m, pc + 1, i, [Prev]);
    HoldsOne(m, pc + 1 + InstrSize(i), Prev);
    CodeSizeAppend([Prev], [i] + [Prev]);
    CodeSizeAppend([i], [Prev]);
    OneSize(Prev);
    OneSize(i);
    var exit := pc + 2 + InstrSize(i);
    if o.pos > 0 {
      var q := PrevPos(m.env.input, o.pos, 0);
      var o1 := o.(pos := q);
      NextInvertsPrev(m.env.input, o.pos);
      CharInRange(m.env.input, q, |m.env.input.units|);
      TestInstrExact(m.env.flags, x, CharAt(m.env.input, q, |m.env.input.units|));
      var mid := pc + 1 + InstrSize(i);
      TestInstrExact(m.env.flags, x, 0);
      TestYields(m, pc + 1, stack, o1);
      if TestPos(m.env, i, q) < 0 {
        assert TermOutcomes(m.env, One(x), true, cc, o) == [];
        YieldsRetarget(m, pc + 1, stack, o1, mid, stack, exit, stack);
        PrevYields(m, pc, stack, o, [], exit, stack);
      } else {
        assert TestPos(m.env, i, q) == o.pos;
        assert TermOutcomes(m.env, One(x), true, cc, o) == [o1];
        YieldsSelf(m, exit, stack, o1);
        PrevYields(m, mid, stack, o, [o1], exit, stack);
        FlattenSingletons([o1], [[o1]]);
        YieldsBind(m, pc + 1, stack, o1, [o], [[o1]], mid, stack, exit, stack);
        PrevYields(m, pc, stack, o, [o1], exit, stack);
      }
    } else {
      PrevYields(m, pc, stack, o, [], exit, stack);
    }
  }

  /** Code without an outcome has none at any exit. */
  lemma YieldsRetarget(m: Machine, pc: int, stack: seq<int>, o: Outcome, mid: int, stackMid: seq<int>, exit: int, stackOut: seq<int>)
    requires Yields(m, pc, stack, o, [], mid, stackMid)
    ensures Yields(m, pc, stack, o, [], exit, stackOut)
  {
    assert Flatten([]) == [];
    YieldsBind(m, pc, stack, o, [], [], mid, stackMid, exit, stackOut);
  }

  // --- back references ---

  lemma {:induction false} BackRefForwardExact(env: Env, q: int, end: int, pos: int)
    requires 0 <= q && end <= |env.input.units| && InText(env, pos)
    ensures BackRefForward(env, q, end, pos) == MatchChars(env, Chars(env.input, q, end), false, pos)
    decreases end - q
  {
    if q < end && pos < |env.input.units| {
      assert Chars(env.input, q, end)[1..] == Chars(env.input, NextPos(env.input, q, end), end);
      BackRefForwardExact(env, NextPos(env.input, q, end), end, NextPos(env.input, pos, |env.input.units|));
    }
  }

  lemma {:induction false} BackRefBackwardExact(env: Env, q: int, start: int, pos: int)
    requires 0 <= start && q <= |env.input.units| && InText(env, pos)
    ensures BackRefBackward(env, q, start, pos) == MatchChars(env, CharsBack(env.input, start, q), true, pos)
    decreases q - start
  {
    if start < q && pos > 0 {
      assert CharsBack(env.input, start, q)[1..] == CharsBack(env.input, start, PrevPos(env.input, q, start));
      BackRefBackwardExact(env, PrevPos(env.input, q, start), start, PrevPos(env.input, pos, 0));
    }
  }

  /** The two-cursor comparison loop matches exactly a copy of the captured characters. */
  lemma BackRefExact(env: Env, i: nat, back: bool, o: Outcome)
    requires InText(env, o.pos)
    ensures BackRefPos(env, BackRef(back, i), o.pos, o.caps) == BackReferenceEnd(env, i, back, o)
  {
    if i < env.captureCount && 2 * i + 1 < |o.caps| {
      var start, end := o.caps[2 * i], o.caps[2 * i + 1];
      if 0 <= start <= |env.input.units| && 0 <= end <= |env.input.units| {
        BackRefForwardExact(env, start, end, o.pos);
        BackRefBackwardExact(env, end, start, o.pos);
      }
    }
  }

  lemma BackReferenceYields(m: Machine, pc: int, i: nat, back: bool, cc: nat, stack: seq<int>, o: Outcome)
    requires Ready(m.env, o) && Holds(m, pc, [BackRef(back, i)])
    ensures Yields(m, pc, stack, o, TermOutcomes(m.env, BackReference(i), back, cc, o), pc + CodeSize([BackRef(back, i)]), stack)
  {
    hide Yields;
    HoldsOne(m, pc, BackRef(back, i));
    OneSize(BackRef(back, i));
    BackRefExact(m.env, i, back, o);
    var p := BackReferenceEnd(m.env, i, back, o);
    if p < 0 {
      YieldsFail(m, pc, stack, o, pc + 2, stack);
    } else {
      YieldsSelf(m, pc + 2, stack, o.(pos := p));
      YieldsStep(m, pc, stack, o, [o.(pos := p)], pc + 2, stack, pc + 2, stack, o.(pos := p));
    }
  }

  // --- captures ---

  lemma SaveYields(m: Machine, pc: int, k: nat, start: bool, stack: seq<int>, o: Outcome, outs: Outcomes, exit: int, stackOut: seq<int>)
    requires pc in m.program && m.program[pc] == (if start then SaveStart(k) else SaveEnd(k))
    requires k < m.env.captureCount && |o.caps| == 2 * m.env.captureCount
    requires Yields(m, pc + 2, stack, o.(caps := SetCapture(o.caps, 2 * k + (if start then 0 else 1), o.pos)), outs, exit, stackOut)
    ensures Yields(m, pc, stack, o, outs, exit, stackOut)
  {
    hide Yields;
    YieldsStep(m, pc, stack, o, outs, exit, stackOut, pc + 2, stack,
      o.(caps := SetCapture(o.caps, 2 * k + (if start then 0 else 1), o.pos)));
  }

  lemma CapsLength(env: Env, back: bool, pos: int, outs: Outcomes, k: nat)
    requires AllGood(env, back, pos, outs) && k < |outs|
    ensures |outs[k].caps| == 2 * env.captureCount
  {
    GoodAt(env, back, pos, outs, k);
  }

  /** The save after the body of a group closes the group in every outcome. */
  lemma CloseYields(m: Machine, pc: int, mid: int, outs: Outcomes, k: nat, back: bool, stack: seq<int>, pos: int, o1: Outcome)
    requires k < m.env.captureCount && AllGood(m.env, back, pos, outs)
    requires mid in m.program && m.program[mid] == (if back then SaveStart(k) else SaveEnd(k))
    requires Yields(m, pc, stack, o1, outs, mid, stack)
    ensures Yields(m, pc, stack, o1, CloseCapture(outs, 2 * k + (if back then 0 else 1)), mid + 2, stack)
  {
    hide Yields, AllGood, Flatten;
    var closed := CloseCapture(outs, 2 * k + (if back then 0 else 1));
    var fs := seq(|outs|, i requires 0 <= i < |outs| => [closed[i]]);
    forall i | 0 <= i < |outs| ensures Yields(m, mid, stack, outs[i], fs[i], mid + 2, stack) {
      CapsLength(m.env, back, pos, outs, i);
      YieldsSelf(m, mid + 2, stack, closed[i]);
      SaveYields(m, mid, k, back, stack, outs[i], [closed[i]], mid + 2, stack);
    }
    YieldsBind(m, pc, stack, o1, outs, fs, mid, stack, mid + 2, stack);
    FlattenSingletons(closed, fs);
  }

  lemma CaptureLayout(m: Machine, pc: int, first: Instr, body: Code, last: Instr)
    requires InstrSize(first) == InstrSize(last) == 2
    requires Holds(m, pc, [first] + body + [last])
    ensures pc in m.program && m.program[pc] == first && Holds(m, pc + 2, body)
    ensures var mid := pc + 2 + CodeSize(body); mid in m.program && m.program[mid] == last
    ensures CodeSize([first] + body + [last]) == CodeSize(body) + 4
  {
    hide Holds, CodeSize;
    assert [first] + body + [last] == [first] + (body + [last]);
    HoldsHead(m, pc, first, body + [last]);
    HoldsAppend(m, pc + 2, body, [last]);
    HoldsOne(m, pc + 2 + CodeSize(body), last);
    CodeSizeAppend([first], body + [last]);
    CodeSizeAppend(body, [last]);
    OneSize(first);
    OneSize(last);
  }

  /** save; body; save. */
  lemma CaptureYields(m: Machine, pc: int, body: Code, outs: Outcomes, k: nat, back: bool, stack: seq<int>, o: Outcome)
    requires Ready(m.env, o) && k < m.env.captureCount && AllGood(m.env, back, o.pos, outs)
    requires var first, last := if back then SaveEnd(k) else SaveStart(k), if back then SaveStart(k) else SaveEnd(k);
      Holds(m, pc, [first] + body + [last])
    requires var o1 := o.(caps := SetCapture(o.caps, 2 * k + (if back then 1 else 0), o.pos));
      Holds(m, pc + 2, body) ==> Yields(m, pc + 2, stack, o1, outs, pc + 2 + CodeSize(body), stack)
    ensures Yields(m, pc, stack, o, CloseCapture(outs, 2 * k + (if back then 0 else 1)), pc + 4 + CodeSize(body), stack)
  {
    hide Yields, Holds, AllGood, CodeSize;
    var first, last := if back then SaveEnd(k) else SaveStart(k), if back then SaveStart(k) else SaveEnd(k);
    CaptureLayout(m, pc, first, body, last);
    var mid := pc + 2 + CodeSize(body);
    var o1 := o.(caps := SetCapture(o.caps, 2 * k + (if back then 1 else 0), o.pos));
    CloseYields(m, pc + 2, mid, outs, k, back, stack, o.pos, o1);
    SaveYields(m, pc, k, !back, stack, o, CloseCapture(outs, 2 * k + (if back then 0 else 1)), mid + 2, stack);
  }

  // --- lookarounds ---

  /** A lookaround body that has an outcome: the match discards every state it left behind. */
  lemma {:induction false} CommitDiscards(m: Machine, r: Regs, ss: States, look: Saved, extra: States)
    requires NoLook(extra) && look.kind.LookState?
    ensures Reaches(m, Succeed(r, ss + [look] + extra),
      if look.kind.negated then Fail(ss) else Run(look.regs.(caps := r.caps), ss))
    decreases |extra|
  {
    var all := ss + [look] + extra;
    ReachesStep(m, Succeed(r, all));
    if extra == [] {
      assert all == ss + [look];
      assert all[..|all| - 1] == ss;
    } else {
      var less := extra[..|extra| - 1];
      assert all[..|all| - 1] == ss + [look] + less;
      assert all[|all| - 1] == extra[|extra| - 1];
      CommitDiscards(m, r, ss, look, less);
      ReachesTrans(m, Succeed(r, all), Succeed(r, ss + [look] + less),
        if look.kind.negated then Fail(ss) else Run(look.regs.(caps := r.caps), ss));
    }
  }

  lemma LookLayout(m: Machine, pc: int, neg: bool, body: Code)
    requires Holds(m, pc, [Lookahead(neg, CodeSize(body) + 1)] + body + [Match])
    ensures pc in m.program && m.program[pc] == Lookahead(neg, CodeSize(body) + 1)
    ensures Holds(m, pc + 5, body)
    ensures var mid := pc + 5 + CodeSize(body); mid in m.program && m.program[mid] == Match
    ensures CodeSize([Lookahead(neg, CodeSize(body) + 1)] + body + [Match]) == CodeSize(body) + 6
  {
    hide Holds, CodeSize;
    var head := Lookahead(neg, CodeSize(body) + 1);
    assert [head] + body + [Match] == [head] + (body + [Match]);
    HoldsHead(m, pc, head, body + [Match]);
    HoldsAppend(m, pc + 5, body, [Match]);
    HoldsOne(m, pc + 5 + CodeSize(body), Match);
    OneSize(head);
    OneSize(Match);
    CodeSizeAppend([head], body + [Match]);
    CodeSizeAppend(body, [Match]);
  }

  /** Where the decision of a lookaround leads, given the outcomes of its body. */
  function LookResult(look: Saved, outs: Outcomes, ss: States): Config
    requires look.kind.LookState?
  {
    if outs == [] then (if look.kind.negated then Run(look.regs, ss) else Fail(ss))
    else if look.kind.negated then Fail(ss) else Run(look.regs.(caps := outs[0].caps), ss)
  }

  /** The run of a lookaround body up to its decision. */
  lemma LookDecides(m: Machine, pc: int, neg: bool, body: Code, outs: Outcomes, stack: seq<int>, o: Outcome, ss: States)
    requires Holds(m, pc, [Lookahead(neg, CodeSize(body) + 1)] + body + [Match])
    requires Holds(m, pc + 5, body) ==> Yields(m, pc + 5, stack, o, outs, pc + 5 + CodeSize(body), stack)
    ensures Reaches(m, Run(At(pc, o, stack), ss),
      LookResult(Saved(LookState(neg), At(pc + 6 + CodeSize(body), o, stack)), outs, ss))
  {
    hide Holds, Enumerates, Yields, Reaches, CodeSize, Step, LookResult, At;
    LookLayout(m, pc, neg, body);
    var look := Saved(LookState(neg), At(pc + 6 + CodeSize(body), o, stack));
    var c := Run(At(pc, o, stack), ss);
    var d := Run(At(pc + 5, o, stack), ss + [look]);
    LookStep(m, pc, neg, CodeSize(body) + 1, o, stack, ss);
    YieldsElim(m, pc + 5, stack, o, outs, pc + 5 + CodeSize(body), stack, ss + [look]);
    BodyDecides(m, d, outs, pc + 5 + CodeSize(body), stack, ss, look);
    ReachesTrans(m, c, d, LookResult(look, outs, ss));
  }

  lemma BodyDecides(m: Machine, d: Config, outs: Outcomes, mid: int, stack: seq<int>, ss: States, look: Saved)
    requires look.kind.LookState? && Enumerates(m, d, outs, mid, stack, ss + [look])
    requires mid in m.program && m.program[mid] == Match
    ensures Reaches(m, d, LookResult(look, outs, ss))
  {
    hide Enumerates, Reaches, NoLook, Step;
    if outs == [] {
      EnumeratesEnd(m, d, outs, mid, stack, ss + [look]);
      LookFails(m, ss, look);
      ReachesTrans(m, d, Fail(ss + [look]), LookResult(look, outs, ss));
    } else {
      var extra := EnumeratesUncons(m, d, outs, mid, stack, ss + [look]);
      var r := At(mid, outs[0], stack);
      LookSucceeds(m, r, ss, look, extra);
      ReachesTrans(m, d, Run(r, ss + [look] + extra), LookResult(look, outs, ss));
    }
  }

  lemma LookStep(m: Machine, pc: int, neg: bool, offset: int, o: Outcome, stack: seq<int>, ss: States)
    requires pc in m.program && m.program[pc] == Lookahead(neg, offset)
    ensures Reaches(m, Run(At(pc, o, stack), ss),
      Run(At(pc + 5, o, stack), ss + [Saved(LookState(neg), At(pc + 5 + offset, o, stack))]))
  {
    ReachesStep(m, Run(At(pc, o, stack), ss));
  }

  lemma LookFails(m: Machine, ss: States, look: Saved)
    requires look.kind.LookState?
    ensures Reaches(m, Fail(ss + [look]), if look.kind.negated then Run(look.regs, ss) else Fail(ss))
  {
    assert (ss + [look])[..|ss + [look]| - 1] == ss;
    ReachesStep(m, Fail(ss + [look]));
  }

  lemma LookSucceeds(m: Machine, r: Regs, ss: States, look: Saved, extra: States)
    requires look.kind.LookState? && NoLook(extra) && r.pc in m.program && m.program[r.pc] == Match
    ensures Reaches(m, Run(r, ss + [look] + extra),
      if look.kind.negated then Fail(ss) else Run(look.regs.(caps := r.caps), ss))
  {
    var c := Run(r, ss + [look] + extra);
    ReachesStep(m, c);
    assert Step(m, c) == Succeed(r, ss + [look] + extra);
    hide Reaches, Step, NoLook;
    CommitDiscards(m, r, ss, look, extra);
    ReachesTrans(m, c, Succeed(r, ss + [look] + extra),
      if look.kind.negated then Fail(ss) else Run(look.regs.(caps := r.caps), ss));
  }

  /** Lookarounds are atomic, keep the captures of a positive body and never move the cursor. */
  lemma LookYields(m: Machine, pc: int, neg: bool, body: Code, outs: Outcomes, stack: seq<int>, o: Outcome)
    requires Holds(m, pc, [Lookahead(neg, CodeSize(body) + 1)] + body + [Match])
    requires Holds(m, pc + 5, body) ==> Yields(m, pc + 5, stack, o, outs, pc + 5 + CodeSize(body), stack)
    ensures Yields(m, pc, stack, o,
      if outs == [] then (if neg then [o] else []) else (if neg then [] else [o.(caps := outs[0].caps)]),
      pc + 6 + CodeSize(body), stack)
  {
    hide Holds, Enumerates, Reaches, NoLook, CodeSize;
    var exit := pc + 6 + CodeSize(body);
    var result := if outs == [] then (if neg then [o] else []) else (if neg then [] else [o.(caps := outs[0].caps)]);
    forall ss ensures Enumerates(m, Run(At(pc, o, stack), ss), result, exit, stack, ss) {
      LookDecides(m, pc, neg, body, outs, stack, o, ss);
      if result == [] {
        EnumeratesNone(m, Run(At(pc, o, stack), ss), exit, stack, ss);
      } else {
        EnumeratesHere(m, result[0], exit, stack, ss);
        EnumeratesFrom(m, Run(At(pc, o, stack), ss), Run(At(exit, result[0], stack), ss), [result[0]], exit, stack, ss);
      }
    }
  }
}
