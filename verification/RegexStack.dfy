/** The static stack analysis of lre_compute_stack_size is exact: in every run of compiled
    code the operand stack at each instruction has the depth that one linear pass assigns. */
module RegexStack {
  import opened RegexTerm
  import opened RegexCode
  import opened RegexQuantifier

  function StackEffect(i: Instr): int {
    if i.PushI32? || i.PushCharPos? then 1 else if i.Drop? || i.CheckAdvance? then -1 else 0
  }

  function TotalEffect(code: Code): int {
    if code == [] then 0 else StackEffect(code[0]) + TotalEffect(code[1..])
  }

  /** `off` is the start of an instruction, or the end of the code. */
  predicate IsBoundary(code: Code, off: int)
    decreases |code|
  {
    off == 0 ||
    (code != [] && off >= InstrSize(code[0]) && IsBoundary(code[1..], off - InstrSize(code[0])))
  }

  /** The stack depth the linear pass has when it arrives at `off`. */
  function DepthAt(code: Code, off: int): int
    decreases |code|
  {
    if off == 0 || code == [] then 0 else StackEffect(code[0]) + DepthAt(code[1..], off - InstrSize(code[0]))
  }

  /** The largest depth of the linear pass. */
  function MaxDepth(code: Code): nat {
    MaxDepthFrom(code, 0, 0)
  }

  function MaxDepthFrom(code: Code, depth: int, max: nat): nat
    decreases |code|
  {
    if code == [] then max
    else
      var next := depth + StackEffect(code[0]);
      MaxDepthFrom(code[1..], next, if next > max then next else max)
  }

  predicate HasTarget(i: Instr) {
    i.Goto? || i.Split? || i.Loop? || i.Lookahead? || i.SimpleGreedyQuant?
  }

  function Target(i: Instr, off: int): int
    requires HasTarget(i)
  {
    off + InstrSize(i) + if i.SimpleGreedyQuant? then i.length else i.offset
  }

  /** Instruction `i` at `off` finds what it needs and jumps to code of the same depth. */
  predicate InstrOk(code: Code, off: int, i: Instr) {
    var d := DepthAt(code, off);
    d >= 0 && (i.Drop? || i.CheckAdvance? || i.Loop? ==> d >= 1) &&
    (HasTarget(i) ==> IsBoundary(code, Target(i, off)) && DepthAt(code, Target(i, off)) == d)
  }

  /** The instructions `rest`, placed after `done`, are right in the program `code`. */
  predicate AllOk(code: Code, done: Code, rest: Code)
    decreases |rest|
  {
    rest == [] || (InstrOk(code, CodeSize(done), rest[0]) && AllOk(code, done + [rest[0]], rest[1..]))
  }

  /** Code that leaves the depth as it found it, with all its jumps inside. */
  predicate Sound(code: Code) {
    TotalEffect(code) == 0 && AllOk(code, [], code)
  }

  lemma {:induction false} EffectAppend(a: Code, b: Code)
    ensures TotalEffect(a + b) == TotalEffect(a) + TotalEffect(b)
    decreases |a|
  {
    if a == [] {
      assert a + b == b;
    } else {
      assert (a + b)[1..] == a[1..] + b;
      EffectAppend(a[1..], b);
    }
  }

  lemma {:induction false} DepthAppend(a: Code, b: Code, t: nat)
    ensures DepthAt(a + b, CodeSize(a) + t) == TotalEffect(a) + DepthAt(b, t)
    ensures IsBoundary(a + b, CodeSize(a) + t) == IsBoundary(b, t)
    decreases |a|
  {
    if a == [] {
      assert a + b == b;
    } else {
      assert (a + b)[1..] == a[1..] + b;
      DepthAppend(a[1..], b, t);
    }
  }

  lemma {:induction false} DepthPrefix(a: Code, b: Code, t: int)
    requires IsBoundary(a, t)
    ensures IsBoundary(a + b, t) && DepthAt(a + b, t) == DepthAt(a, t) && 0 <= t <= CodeSize(a)
    decreases |a|
  {
    if t != 0 {
      assert (a + b)[1..] == a[1..] + b;
      DepthPrefix(a[1..], b, t - InstrSize(a[0]));
    }
  }

  lemma DepthEnd(a: Code)
    ensures IsBoundary(a, CodeSize(a)) && DepthAt(a, CodeSize(a)) == TotalEffect(a)
  {
    assert a + [] == a;
    DepthAppend(a, [], 0);
  }

  lemma {:induction false} AllOkAppend(code: Code, done: Code, a: Code, b: Code)
    ensures AllOk(code, done, a + b) <==> AllOk(code, done, a) && AllOk(code, done + a, b)
    decreases |a|
  {
    if a == [] {
      assert a + b == b && done + a == done;
    } else {
      assert (a + b)[1..] == a[1..] + b;
      assert done + [a[0]] + a[1..] == done + a;
      AllOkAppend(code, done + [a[0]], a[1..], b);
    }
  }

  /** What is right in `body` is right where `body` is embedded. */
  lemma InstrEmbed(pre: Code, body: Code, post: Code, off: int, i: Instr)
    requires InstrOk(body, off, i) && IsBoundary(body, off) && TotalEffect(pre) >= 0
    ensures InstrOk(pre + body + post, CodeSize(pre) + off, i)
  {
    hide DepthAt, IsBoundary, CodeSize, TotalEffect;
    DepthEmbed(pre, body, post, off);
    if HasTarget(i) {
      TargetMoves(i, off, CodeSize(pre));
      hide Target;
      DepthEmbed(pre, body, post, Target(i, off));
    }
  }

  lemma DepthEmbed(pre: Code, body: Code, post: Code, t: int)
    requires IsBoundary(body, t)
    ensures var code, u := pre + body + post, CodeSize(pre) + t;
      IsBoundary(code, u) && DepthAt(code, u) == TotalEffect(pre) + DepthAt(body, t)
  {
    assert pre + body + post == pre + (body + post);
    DepthPrefix(body, post, t);
    hide *;
    DepthAppend(pre, body + post, t);
  }

  lemma TargetMoves(i: Instr, off: int, base: int)
    requires HasTarget(i)
    ensures Target(i, base + off) == base + Target(i, off)
  {
  }

  lemma {:induction false} Embed(pre: Code, body: Code, post: Code, done: Code, rest: Code)
    requires body == done + rest && AllOk(body, done, rest) && TotalEffect(pre) >= 0
    ensures AllOk(pre + body + post, pre + done, rest)
    decreases |rest|
  {
    if rest != [] {
      DepthAppend(done, rest, 0);
      InstrEmbed(pre, body, post, CodeSize(done), rest[0]);
      CodeSizeAppend(pre, done);
      assert done + [rest[0]] + rest[1..] == done + rest;
      Embed(pre, body, post, done + [rest[0]], rest[1..]);
      assert pre + (done + [rest[0]]) == pre + done + [rest[0]];
    }
  }

  lemma EmbedAll(pre: Code, body: Code, post: Code)
    requires Sound(body) && TotalEffect(pre) >= 0
    ensures AllOk(pre + body + post, pre, body)
  {
    assert body == [] + body && pre + [] == pre;
    Embed(pre, body, post, [], body);
  }

  lemma OneOk(code: Code, done: Code, i: Instr)
    requires InstrOk(code, CodeSize(done), i)
    ensures AllOk(code, done, [i])
  {
  }

  lemma OneEffect(i: Instr)
    ensures TotalEffect([i]) == StackEffect(i)
  {
    assert [i][1..] == [];
  }

  lemma SoundAppend(a: Code, b: Code)
    requires Sound(a) && Sound(b)
    ensures Sound(a + b)
  {
    hide AllOk, InstrOk, IsBoundary, DepthAt;
    EffectAppend(a, b);
    EmbedAll([], a, b);
    EmbedAll(a, b, []);
    assert [] + a + b == a + b && a + b + [] == a + b && [] + a == a;
    AllOkAppend(a + b, [], a, b);
  }

  lemma SoundOne(i: Instr)
    requires StackEffect(i) == 0 && !HasTarget(i)
    ensures Sound([i])
  {
    OneEffect(i);
  }

  lemma SoundEmpty()
    ensures Sound([])
  {
  }

  /** [first] + body + [last], where only `first` and `last` remain to be checked. */
  lemma SoundWrap(first: Code, body: Code, last: Code)
    requires Sound(body) && TotalEffect(first) >= 0 && TotalEffect(first) + TotalEffect(last) == 0
    requires AllOk(first + body + last, [], first)
    requires AllOk(first + body + last, first + body, last)
    ensures Sound(first + body + last)
  {
    hide AllOk, InstrOk, IsBoundary, DepthAt;
    var code := first + body + last;
    EffectAppend(first + body, last);
    EffectAppend(first, body);
    EmbedAll(first, body, last);
    assert [] + first == first && [] + (first + body) == first + body;
    AllOkAppend(code, [], first, body);
    AllOkAppend(code, [], first + body, last);
  }

  /** Depths at the edges of first + body + last. */
  lemma WrapDepths(first: Code, body: Code, last: Code)
    requires Sound(body)
    ensures var code := first + body + last;
      var mid := CodeSize(first) + CodeSize(body);
      CodeSize(first + body) == mid && CodeSize(code) == mid + CodeSize(last) &&
      DepthAt(code, 0) == 0 && IsBoundary(code, 0) &&
      DepthAt(code, CodeSize(first)) == TotalEffect(first) && IsBoundary(code, CodeSize(first)) &&
      DepthAt(code, mid) == TotalEffect(first) && IsBoundary(code, mid) &&
      DepthAt(code, CodeSize(code)) == TotalEffect(first) + TotalEffect(last) && IsBoundary(code, CodeSize(code))
  {
    hide IsBoundary, DepthAt, TotalEffect, CodeSize, Sound;
    var code := first + body + last;
    SoundEffect(body);
    StartIsBoundary(code);
    StartIsBoundary(last);
    StartIsBoundary(body + last);
    CodeSizeAppend(first + body, last);
    CodeSizeAppend(first, body);
    EffectAppend(first, body);
    EffectAppend(first + body, last);
    DepthAppend(first + body, last, 0);
    assert code == first + (body + last);
    DepthAppend(first, body + last, 0);
    DepthEnd(code);
  }

  lemma SoundCapture(first: Instr, body: Code, last: Instr)
    requires Sound(body) && StackEffect(first) == StackEffect(last) == 0 && !HasTarget(first) && !HasTarget(last)
    ensures Sound([first] + body + [last])
  {
    SoundOne(first);
    SoundOne(last);
    SoundAppend([first], body);
    SoundAppend([first] + body, [last]);
  }

  lemma SoundGuarded(atom: Code, check: bool)
    requires Sound(atom)
    ensures Sound(Guarded(atom, check))
  {
    if check {
      hide Sound, IsBoundary, DepthAt, TotalEffect;
      WrapDepths([PushCharPos], atom, [CheckAdvance]);
      OneEffect(PushCharPos);
      OneEffect(CheckAdvance);
      var code := [PushCharPos] + atom + [CheckAdvance];
      OneOk(code, [], PushCharPos);
      OneOk(code, [PushCharPos] + atom, CheckAdvance);
      SoundWrap([PushCharPos], atom, [CheckAdvance]);
    }
  }

  lemma SoundStar(body: Code, greedy: bool)
    requires Sound(body)
    ensures Sound(StarCode(body, greedy))
  {
    hide Sound, IsBoundary, DepthAt, TotalEffect;
    var split, jump := Split(greedy, CodeSize(body) + 5), Goto(-(CodeSize(body) + 10));
    WrapDepths([split], body, [jump]);
    OneSize(split);
    OneSize(jump);
    OneEffect(split);
    OneEffect(jump);
    var code := [split] + body + [jump];
    OneOk(code, [], split);
    OneOk(code, [split] + body, jump);
    SoundWrap([split], body, [jump]);
  }

  lemma SoundAtMostOne(body: Code, greedy: bool)
    requires Sound(body)
    ensures Sound([Split(greedy, CodeSize(body))] + body)
  {
    hide Sound, IsBoundary, DepthAt, TotalEffect;
    var split := Split(greedy, CodeSize(body));
    WrapDepths([split], body, []);
    OneSize(split);
    OneEffect(split);
    NothingOk([split] + body + [], [split] + body);
    var code := [split] + body + [];
    OneOk(code, [], split);
    SoundWrap([split], body, []);
    assert code == [split] + body;
  }

  lemma NothingOk(code: Code, done: Code)
    ensures AllOk(code, done, []) && CodeSize([]) == 0 && TotalEffect([]) == 0
  {
  }

  lemma TwoOk(code: Code, done: Code, i: Instr, j: Instr)
    requires InstrOk(code, CodeSize(done), i) && InstrOk(code, CodeSize(done) + InstrSize(i), j)
    ensures AllOk(code, done, [i, j])
  {
    CodeSizeAppend(done, [i]);
    OneSize(i);
    OneOk(code, done, i);
    OneOk(code, done + [i], j);
    AllOkAppend(code, done, [i], [j]);
    assert [i] + [j] == [i, j];
  }

  lemma TwoEffect(i: Instr, j: Instr)
    ensures TotalEffect([i, j]) == StackEffect(i) + StackEffect(j)
    ensures CodeSize([i, j]) == InstrSize(i) + InstrSize(j)
  {
    OneEffect(i);
    OneEffect(j);
    OneSize(i);
    OneSize(j);
    EffectAppend([i], [j]);
    CodeSizeAppend([i], [j]);
    assert [i] + [j] == [i, j];
  }

  /** Depth between two instructions that open or close a wrapper. */
  lemma InnerDepth(done: Code, i: Instr, rest: Code)
    ensures DepthAt(done + ([i] + rest), CodeSize(done) + InstrSize(i)) == TotalEffect(done) + StackEffect(i)
    ensures IsBoundary(done + ([i] + rest), CodeSize(done) + InstrSize(i))
  {
    OneEffect(i);
    OneSize(i);
    DepthAppend(done, [i] + rest, InstrSize(i));
    DepthAppend([i], rest, 0);
  }

  lemma SoundUpTo(body: Code, n: int, greedy: bool)
    requires Sound(body)
    ensures Sound(UpToCode(body, n, greedy))
  {
    hide Sound, IsBoundary, DepthAt, TotalEffect, CodeSize;
    var push, split, loop := PushI32(n), Split(greedy, CodeSize(body) + 5), Loop(-(CodeSize(body) + 10));
    var first, last := [push, split], [loop, Drop];
    var code := first + body + last;
    WrapDepths(first, body, last);
    TwoEffect(push, split);
    TwoEffect(loop, Drop);
    NothingOk(code, []);
    InnerDepth([], push, [split] + body + last);
    assert code == [] + ([push] + ([split] + body + last));
    InnerDepth(first + body, loop, [Drop]);
    assert code == (first + body) + ([loop] + [Drop]);
    SoundEffect(body);
    EffectAppend(first, body);
    TwoOk(code, [], push, split);
    TwoOk(code, first + body, loop, Drop);
    SoundWrap(first, body, last);
    assert code == UpToCode(body, n, greedy);
  }

  lemma SoundEffect(code: Code)
    requires Sound(code)
    ensures TotalEffect(code) == 0
  {
  }

  lemma SoundRepeat(atom: Code, n: int)
    requires Sound(atom)
    ensures Sound(RepeatCode(atom, n))
  {
    if n != 1 {
      hide Sound, IsBoundary, DepthAt, TotalEffect, CodeSize;
      var push, loop := PushI32(n), Loop(-(CodeSize(atom) + 5));
      var first, last := [push], [loop, Drop];
      var code := first + atom + last;
      WrapDepths(first, atom, last);
      OneEffect(push);
      OneSize(push);
      TwoEffect(loop, Drop);
      NothingOk(code, []);
      InnerDepth(first + atom, loop, [Drop]);
      assert code == (first + atom) + ([loop] + [Drop]);
      SoundEffect(atom);
      EffectAppend(first, atom);
      OneOk(code, [], push);
      TwoOk(code, first + atom, loop, Drop);
      SoundWrap(first, atom, last);
    }
  }

  lemma SoundPlus(atom: Code, greedy: bool)
    requires Sound(atom)
    ensures Sound(atom + [Split(!greedy, -(CodeSize(atom) + 5))])
  {
    hide Sound, IsBoundary, DepthAt, TotalEffect;
    var split := Split(!greedy, -(CodeSize(atom) + 5));
    var code := [] + atom + [split];
    WrapDepths([], atom, [split]);
    NothingOk(code, []);
    OneSize(split);
    OneEffect(split);
    OneOk(code, [] + atom, split);
    SoundWrap([], atom, [split]);
    assert code == atom + [split];
  }

  lemma SoundGreedy(atom: Code, min: int, max: int)
    requires Sound(atom)
    ensures Sound([SimpleGreedyQuant(CodeSize(atom) + 1, min, max, SimpleQuantifier(atom))] + atom + [Match])
  {
    hide Sound, IsBoundary, DepthAt, TotalEffect;
    var quant := SimpleGreedyQuant(CodeSize(atom) + 1, min, max, SimpleQuantifier(atom));
    var code := [quant] + atom + [Match];
    WrapDepths([quant], atom, [Match]);
    OneSize(quant);
    OneSize(Match);
    OneEffect(quant);
    OneEffect(Match);
    OneOk(code, [], quant);
    OneOk(code, [quant] + atom, Match);
    SoundWrap([quant], atom, [Match]);
  }

  lemma SoundLook(neg: bool, body: Code)
    requires Sound(body)
    ensures Sound([Lookahead(neg, CodeSize(body) + 1)] + body + [Match])
  {
    hide Sound, IsBoundary, DepthAt, TotalEffect;
    var look := Lookahead(neg, CodeSize(body) + 1);
    var code := [look] + body + [Match];
    WrapDepths([look], body, [Match]);
    OneSize(look);
    OneSize(Match);
    OneEffect(look);
    OneEffect(Match);
    OneOk(code, [], look);
    OneOk(code, [look] + body, Match);
    SoundWrap([look], body, [Match]);
  }

  lemma SoundOr(left: Code, right: Code)
    requires Sound(left) && Sound(right)
    ensures Sound([Split(true, CodeSize(left) + 5)] + left + [Goto(CodeSize(right))] + right)
  {
    hide Sound, IsBoundary, DepthAt, TotalEffect, AllOk, CodeSize;
    var split, jump := Split(true, CodeSize(left) + 5), Goto(CodeSize(right));
    var head := [split] + left + [jump];
    var code := head + right;
    SoundEffect(left);
    SoundEffect(right);
    OneEffect(split);
    OneEffect(jump);
    OneSize(split);
    OneSize(jump);
    EffectAppend([split], left);
    EffectAppend([split] + left, [jump]);
    EffectAppend(head, right);
    CodeSizeAppend([split], left);
    CodeSizeAppend([split] + left, [jump]);
    CodeSizeAppend(head, right);
    NothingOk(code, []);
    assert code == [split] + left + ([jump] + right);
    WrapDepths([split], left, [jump] + right);
    DepthAppend(head, right, 0);
    DepthEnd(code);
    StartIsBoundary(right);
    OneOk(code, [], split);
    EmbedAll([split], left, [jump] + right);
    OneOk(code, [split] + left, jump);
    EmbedAll(head, right, []);
    assert head + right + [] == code && [] + [split] == [split] && [] + ([split] + left) == [split] + left && [] + head == head;
    AllOkAppend(code, [], [split], left);
    AllOkAppend(code, [], [split] + left, [jump]);
    AllOkAppend(code, [], head, right);
    SoundIntro(code);
  }

  lemma StartIsBoundary(code: Code)
    ensures IsBoundary(code, 0) && DepthAt(code, 0) == 0
  {
  }

  lemma SoundIntro(code: Code)
    requires TotalEffect(code) == 0 && AllOk(code, [], code)
    ensures Sound(code)
  {
  }

  lemma SoundQuantifier(atom: Code, min: int, max: int, greedy: bool, cc: nat, captures: nat)
    requires Sound(atom)
    ensures Sound(QuantifierCode(atom, min, max, greedy, cc, captures))
  {
    hide Sound, StarCode, UpToCode, RepeatCode, CodeSize, NeedCheckAdvance, SimpleQuantifier;
    var check := NeedCheckAdvance(atom);
    var body := Guarded(atom, check);
    SoundGuarded(atom, check);
    SoundEmpty();
    SoundGreedy(atom, min, max);
    SoundStar(body, greedy);
    SoundAtMostOne(body, greedy);
    SoundUpTo(body, max, greedy);
    SoundUpTo(body, max - min, greedy);
    SoundRepeat(atom, min);
    SoundPlus(atom, greedy);
    SoundOne(SaveReset(cc, cc + captures - 1));
    SoundAppend(ResetCode(cc, captures), ZeroMinCode(atom, max, greedy));
    SoundAppend(RepeatCode(atom, min), FurtherCode(atom, min, max, greedy));
  }

  lemma {:induction false} SoundTerm(f: Flags, t: Term, back: bool, cc: nat)
    requires ValidTerm(t)
    ensures Sound(TermCode(f, t, back, cc))
    decreases t
  {
    hide Sound, QuantifierCode, CodeSize;
    match t
    case One(x) =>
      TestHasNoTarget(f, x);
      var i := TestInstr(f, x);
      SoundOne(i);
      SoundOne(Prev);
      SoundAppend([Prev], [i]);
      SoundAppend([Prev] + [i], [Prev]);
      assert [Prev] + [i] + [Prev] == [Prev, i, Prev];
    case LineStart => SoundOne(LineStartOp);
    case LineEnd => SoundOne(LineEndOp);
    case WordBoundary(neg) => SoundOne(WordBoundaryOp(neg));
    case Group(d) => SoundDisjunction(f, d, back, cc);
    case Capture(d) =>
      SoundDisjunction(f, d, back, cc + 1);
      SoundCapture(SaveEnd(cc), DisjunctionCode(f, d, back, cc + 1), SaveStart(cc));
      SoundCapture(SaveStart(cc), DisjunctionCode(f, d, back, cc + 1), SaveEnd(cc));
    case BackReference(i) => SoundOne(BackRef(back, i));
    case Look(neg, b, d) =>
      SoundDisjunction(f, d, b, cc);
      SoundLook(neg, DisjunctionCode(f, d, b, cc));
    case Quantified(a, min, max, greedy) =>
      SoundTerm(f, a, back, cc);
      SoundQuantifier(TermCode(f, a, back, cc), min, max, greedy, cc, TermCaptures(a));
  }

  lemma TestHasNoTarget(f: Flags, x: CharTest)
    requires ValidTest(x)
    ensures StackEffect(TestInstr(f, x)) == 0 && !HasTarget(TestInstr(f, x))
  {
  }

  lemma {:induction false} SoundAlternative(f: Flags, a: Alternative, back: bool, cc: nat)
    requires ValidAlternative(a)
    ensures Sound(AlternativeCode(f, a, back, cc))
    decreases a
  {
    hide Sound, CodeSize, TermCode;
    match a
    case Empty => SoundEmpty();
    case Then(init, last) =>
      var first := AlternativeCode(f, init, back, cc);
      var term := TermCode(f, last, back, cc + AlternativeCaptures(init));
      SoundAlternative(f, init, back, cc);
      SoundTerm(f, last, back, cc + AlternativeCaptures(init));
      SoundAppend(first, term);
      SoundAppend(term, first);
  }

  lemma {:induction false} SoundDisjunction(f: Flags, d: Disjunction, back: bool, cc: nat)
    requires ValidDisjunction(d)
    ensures Sound(DisjunctionCode(f, d, back, cc))
    decreases d
  {
    hide Sound, CodeSize, AlternativeCode;
    match d
    case Only(a) => SoundAlternative(f, a, back, cc);
    case Or(l, a) =>
      SoundDisjunction(f, l, back, cc);
      SoundAlternative(f, a, back, cc + DisjunctionCaptures(l));
      SoundOr(DisjunctionCode(f, l, back, cc), AlternativeCode(f, a, back, cc + DisjunctionCaptures(l)));
  }
}
