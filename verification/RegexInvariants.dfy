/** Invariants of the reference semantics: cursors stay on code-point boundaries inside the
    text, captures stay inside the text, and a term never moves the cursor against its
    direction. Where the compiler leaves out the zero-advance check, every outcome moves it. */
module RegexInvariants {
  import opened Words
  import opened RegexInput
  import opened RegexTerm
  import opened RegexCode
  import opened RegexMatcher

  predicate Good(env: Env, o: Outcome) {
    Boundary(env.input, o.pos) && |o.caps| == 2 * env.captureCount &&
    forall k :: 0 <= k < |o.caps| ==> -1 <= o.caps[k] <= |env.input.units|
  }

  predicate AllGood(env: Env, back: bool, pos: int, outs: Outcomes) {
    forall k :: 0 <= k < |outs| ==>
      Good(env, outs[k]) && Distance(env, back, outs[k].pos) <= Distance(env, back, pos)
  }

  lemma {:induction false} FlattenGood(env: Env, back: bool, pos: int, fs: seq<Outcomes>)
    requires forall i :: 0 <= i < |fs| ==> AllGood(env, back, pos, fs[i])
    ensures AllGood(env, back, pos, Flatten(fs))
  {
    if fs != [] {
      forall i | 0 <= i < |fs[1..]| ensures AllGood(env, back, pos, fs[1..][i]) {
        assert fs[1..][i] == fs[i + 1];
      }
      FlattenGood(env, back, pos, fs[1..]);
      assert AllGood(env, back, pos, fs[0]);
    }
  }

  lemma GoodAt(env: Env, back: bool, pos: int, outs: Outcomes, i: nat)
    requires AllGood(env, back, pos, outs) && i < |outs|
    ensures Good(env, outs[i]) && Distance(env, back, outs[i].pos) <= Distance(env, back, pos)
  {
  }

  lemma AllGoodTrans(env: Env, back: bool, pos: int, pos1: int, outs: Outcomes)
    requires AllGood(env, back, pos1, outs)
    requires Distance(env, back, pos1) <= Distance(env, back, pos)
    ensures AllGood(env, back, pos, outs)
  {
  }

  lemma {:induction false} MatchCharsGood(env: Env, cs: seq<int>, back: bool, pos: int)
    requires Boundary(env.input, pos)
    ensures var p := MatchChars(env, cs, back, pos);
            p < 0 || (Boundary(env.input, p) && Distance(env, back, p) <= Distance(env, back, pos))
    decreases |cs|
  {
    if cs == [] {
    } else if back {
      if pos > 0 {
        NextInvertsPrev(env.input, pos);
        MatchCharsGood(env, cs[1..], back, PrevPos(env.input, pos, 0));
      }
    } else if pos < |env.input.units| {
      PrevInvertsNext(env.input, pos);
      MatchCharsGood(env, cs[1..], back, NextPos(env.input, pos, |env.input.units|));
    }
  }

  lemma OneGood(env: Env, x: CharTest, back: bool, cc: nat, o: Outcome)
    requires Good(env, o)
    ensures AllGood(env, back, o.pos, TermOutcomes(env, One(x), back, cc, o))
  {
    if back {
      if o.pos > 0 { NextInvertsPrev(env.input, o.pos); }
    } else {
      if o.pos < |env.input.units| { PrevInvertsNext(env.input, o.pos); }
    }
  }

  lemma BackReferenceGood(env: Env, i: nat, back: bool, o: Outcome)
    requires Good(env, o)
    ensures var p := BackReferenceEnd(env, i, back, o);
            p < 0 || (Boundary(env.input, p) && Distance(env, back, p) <= Distance(env, back, o.pos))
  {
    if i < env.captureCount {
      var start, end := o.caps[2 * i], o.caps[2 * i + 1];
      if start >= 0 && end >= 0 {
        MatchCharsGood(env, CharsBack(env.input, start, end), true, o.pos);
        MatchCharsGood(env, Chars(env.input, start, end), false, o.pos);
      }
    }
  }

  lemma {:induction false} TermGood(env: Env, t: Term, back: bool, cc: nat, o: Outcome)
    requires Good(env, o)
    ensures AllGood(env, back, o.pos, TermOutcomes(env, t, back, cc, o))
    decreases t, 0, 0, 0
  {
    hide AllGood, Good;
    OwnGood(env, back, o);
    match t
    case One(x) => OneGood(env, x, back, cc, o);
    case LineStart =>
    case LineEnd =>
    case WordBoundary(_) =>
    case Group(d) => DisjunctionGood(env, d, back, cc, o);
    case Capture(d) =>
      var o1 := o.(caps := SetCapture(o.caps, 2 * cc + (if back then 1 else 0), o.pos));
      OpenGood(env, 2 * cc + (if back then 1 else 0), o);
      DisjunctionGood(env, d, back, cc + 1, o1);
      CloseGood(env, back, o.pos, DisjunctionOutcomes(env, d, back, cc + 1, o1), 2 * cc + (if back then 0 else 1));
    case BackReference(i) =>
      if i >= 0 { BackReferenceOutcomesGood(env, i, back, cc, o); }
    case Look(neg, b, d) =>
      DisjunctionGood(env, d, b, cc, o);
      if DisjunctionOutcomes(env, d, b, cc, o) != [] {
        LookGood(env, back, b, o, DisjunctionOutcomes(env, d, b, cc, o));
      }
    case Quantified(a, min, max, greedy) =>
      if min >= 0 { QuantifiedGood(env, a, min, max, greedy, back, cc, o); }
  }

  lemma OwnGood(env: Env, back: bool, o: Outcome)
    requires Good(env, o)
    ensures AllGood(env, back, o.pos, [o]) && AllGood(env, back, o.pos, [])
  {
  }

  lemma OpenGood(env: Env, k: nat, o: Outcome)
    requires Good(env, o)
    ensures Good(env, o.(caps := SetCapture(o.caps, k, o.pos)))
  {
  }

  lemma CloseGood(env: Env, back: bool, pos: int, outs: Outcomes, k: nat)
    requires AllGood(env, back, pos, outs)
    ensures AllGood(env, back, pos, CloseCapture(outs, k))
  {
  }

  lemma BackReferenceOutcomesGood(env: Env, i: nat, back: bool, cc: nat, o: Outcome)
    requires Good(env, o)
    ensures AllGood(env, back, o.pos, TermOutcomes(env, BackReference(i), back, cc, o))
  {
    hide BackReferenceEnd;
    BackReferenceGood(env, i, back, o);
  }

  lemma LookGood(env: Env, back: bool, b: bool, o: Outcome, outs: Outcomes)
    requires Good(env, o) && AllGood(env, b, o.pos, outs) && outs != []
    ensures AllGood(env, back, o.pos, [o.(caps := outs[0].caps)])
  {
  }

  lemma {:induction false} QuantifiedGood(env: Env, a: Term, min: nat, max: int, greedy: bool, back: bool, cc: nat, o: Outcome)
    requires Good(env, o)
    ensures AllGood(env, back, o.pos, TermOutcomes(env, Quantified(a, min, max, greedy), back, cc, o))
    decreases a, 2, 0, 0
  {
    var o1 := if min == 0 then Reset(a, cc, o) else o;
    MandatoryGood(env, a, min, back, cc, o1);
    var outs := Mandatory(env, a, min, back, cc, o1);
    var fs := AfterMandatory(env, a, min, max, greedy, back, cc, outs);
    forall i | 0 <= i < |fs| ensures AllGood(env, back, o.pos, fs[i]) {
      OptionalGood(env, a, Further(min, max), greedy, back, cc, outs[i]);
      AllGoodTrans(env, back, o.pos, outs[i].pos, fs[i]);
    }
    FlattenGood(env, back, o.pos, fs);
  }

  lemma {:induction false} MandatoryGood(env: Env, a: Term, k: nat, back: bool, cc: nat, o: Outcome)
    requires Good(env, o)
    ensures AllGood(env, back, o.pos, Mandatory(env, a, k, back, cc, o))
    decreases a, 1, k, 0
  {
    if k > 0 {
      TermGood(env, a, back, cc, o);
      var outs := TermOutcomes(env, a, back, cc, o);
      var fs := MandatoryEach(env, a, k - 1, back, cc, outs);
      forall i | 0 <= i < |fs| ensures AllGood(env, back, o.pos, fs[i]) {
        MandatoryGood(env, a, k - 1, back, cc, outs[i]);
        AllGoodTrans(env, back, o.pos, outs[i].pos, fs[i]);
      }
      FlattenGood(env, back, o.pos, fs);
    }
  }

  lemma {:induction false} OptionalGood(env: Env, a: Term, m: int, greedy: bool, back: bool, cc: nat, o: Outcome)
    requires Good(env, o)
    ensures AllGood(env, back, o.pos, Optional(env, a, m, greedy, back, cc, o))
    decreases a, 1, Distance(env, back, o.pos), 0
  {
    if m > 0 {
      TermGood(env, a, back, cc, o);
      var outs := TermOutcomes(env, a, back, cc, o);
      var fs := OptionalEach(env, a, Fewer(m), greedy, back, cc, o, outs);
      forall i | 0 <= i < |fs| ensures AllGood(env, back, o.pos, fs[i]) {
        if Advances(env, back, o.pos, outs[i].pos) {
          OptionalGood(env, a, Fewer(m), greedy, back, cc, outs[i]);
          AllGoodTrans(env, back, o.pos, outs[i].pos, fs[i]);
        }
      }
      FlattenGood(env, back, o.pos, fs);
    }
  }

  lemma {:induction false} AlternativeGood(env: Env, a: Alternative, back: bool, cc: nat, o: Outcome)
    requires Good(env, o)
    ensures AllGood(env, back, o.pos, AlternativeOutcomes(env, a, back, cc, o))
    decreases a, 0, 0, 0
  {
    match a
    case Empty =>
    case Then(init, last) =>
      var lastCc := cc + AlternativeCaptures(init);
      if back {
        TermGood(env, last, back, lastCc, o);
        var outs := TermOutcomes(env, last, back, lastCc, o);
        var fs := AlternativeEach(env, init, back, cc, outs);
        forall i | 0 <= i < |fs| ensures AllGood(env, back, o.pos, fs[i]) {
          AlternativeGood(env, init, back, cc, outs[i]);
          AllGoodTrans(env, back, o.pos, outs[i].pos, fs[i]);
        }
        FlattenGood(env, back, o.pos, fs);
      } else {
        AlternativeGood(env, init, back, cc, o);
        var outs := AlternativeOutcomes(env, init, back, cc, o);
        var fs := TermEach(env, last, back, lastCc, outs);
        forall i | 0 <= i < |fs| ensures AllGood(env, back, o.pos, fs[i]) {
          TermGood(env, last, back, lastCc, outs[i]);
          AllGoodTrans(env, back, o.pos, outs[i].pos, fs[i]);
        }
        FlattenGood(env, back, o.pos, fs);
      }
  }

  lemma {:induction false} DisjunctionGood(env: Env, d: Disjunction, back: bool, cc: nat, o: Outcome)
    requires Good(env, o)
    ensures AllGood(env, back, o.pos, DisjunctionOutcomes(env, d, back, cc, o))
    decreases d, 0, 0, 0
  {
    hide AllGood, AlternativeOutcomes;
    match d
    case Only(a) => AlternativeGood(env, a, back, cc, o);
    case Or(l, a) =>
      var rest := AlternativeOutcomes(env, a, back, cc + DisjunctionCaptures(l), o);
      DisjunctionGood(env, l, back, cc, o);
      AlternativeGood(env, a, back, cc + DisjunctionCaptures(l), o);
      AllGoodAppend(env, back, o.pos, DisjunctionOutcomes(env, l, back, cc, o), rest);
  }

  lemma AllGoodAppend(env: Env, back: bool, pos: int, a: Outcomes, b: Outcomes)
    requires AllGood(env, back, pos, a) && AllGood(env, back, pos, b)
    ensures AllGood(env, back, pos, a + b)
  {
  }

  // --- code that certainly advances ---

  lemma {:induction false} PredictableAppend(a: Code, b: Code)
    ensures AllPredictable(a + b) == (AllPredictable(a) && AllPredictable(b))
    ensures HasCharOp(a + b) == (HasCharOp(a) || HasCharOp(b))
    decreases |a|
  {
    if a == [] {
      assert a + b == b;
    } else {
      assert (a + b)[1..] == a[1..] + b;
      PredictableAppend(a[1..], b);
    }
  }

  lemma {:induction false} FlattenSingletons(outs: Outcomes, fs: seq<Outcomes>)
    requires |fs| == |outs|
    requires forall i :: 0 <= i < |outs| ==> fs[i] == [outs[i]]
    ensures Flatten(fs) == outs
  {
    if outs != [] {
      forall i | 0 <= i < |outs[1..]| ensures fs[1..][i] == [outs[1..][i]] {
        assert fs[1..][i] == fs[i + 1];
      }
      FlattenSingletons(outs[1..], fs[1..]);
    }
  }

  /** One iteration of a term is the term. */
  lemma RepeatOnce(env: Env, a: Term, back: bool, cc: nat, o: Outcome)
    ensures Mandatory(env, a, 1, back, cc, o) == TermOutcomes(env, a, back, cc, o)
  {
    var outs := TermOutcomes(env, a, back, cc, o);
    FlattenSingletons(outs, MandatoryEach(env, a, 0, back, cc, outs));
  }

  /** Exactly `min` iterations: nothing is left for the optional part. */
  lemma ExactlyMin(env: Env, a: Term, min: nat, greedy: bool, back: bool, cc: nat, outs: Outcomes)
    requires min < INT32_MAX
    ensures Flatten(AfterMandatory(env, a, min, min, greedy, back, cc, outs)) == outs
  {
    FlattenSingletons(outs, AfterMandatory(env, a, min, min, greedy, back, cc, outs));
  }

  predicate AllAdvance(env: Env, back: bool, pos: int, outs: Outcomes) {
    forall k :: 0 <= k < |outs| ==> Advances(env, back, pos, outs[k].pos)
  }

  lemma {:induction false} FlattenAdvance(env: Env, back: bool, pos: int, fs: seq<Outcomes>)
    requires forall i :: 0 <= i < |fs| ==> AllAdvance(env, back, pos, fs[i])
    ensures AllAdvance(env, back, pos, Flatten(fs))
  {
    if fs != [] {
      forall i | 0 <= i < |fs[1..]| ensures AllAdvance(env, back, pos, fs[1..][i]) {
        assert fs[1..][i] == fs[i + 1];
      }
      FlattenAdvance(env, back, pos, fs[1..]);
      assert AllAdvance(env, back, pos, fs[0]);
    }
  }

  lemma OneInstr(i: Instr)
    ensures AllPredictable([i]) == IsPredictable(i)
    ensures HasCharOp([i]) == IsCharOp(i)
  {
    assert [i][1..] == [];
  }

  lemma NeedCheckEither(a: Code, b: Code)
    requires !NeedCheckAdvance(a + b)
    ensures AllPredictable(a) && AllPredictable(b)
    ensures !NeedCheckAdvance(a) || !NeedCheckAdvance(b)
  {
    PredictableAppend(a, b);
  }

  lemma LoopsNeedCheck(pre: Code, body: Code, n: int, greedy: bool)
    ensures NeedCheckAdvance(pre + StarCode(body, greedy))
    ensures NeedCheckAdvance(pre + UpToCode(body, n, greedy))
    ensures NeedCheckAdvance(pre + ([Split(greedy, CodeSize(body))] + body))
    ensures NeedCheckAdvance(pre + [Split(greedy, -(CodeSize(body) + 5))])
  {
    OneInstr(PushI32(n));
    PredictableAppend(pre, StarCode(body, greedy));
    PredictableAppend(pre, UpToCode(body, n, greedy));
    PredictableAppend(pre, [Split(greedy, CodeSize(body))] + body);
    PredictableAppend(pre, [Split(greedy, -(CodeSize(body) + 5))]);
  }

  lemma RepeatNeedsCheck(body: Code, n: int)
    requires n != 1
    ensures NeedCheckAdvance(RepeatCode(body, n) + [])
  {
    var tail := [Loop(-(CodeSize(body) + 5)), Drop];
    PredictableAppend([PushI32(n)] + body, tail);
    assert RepeatCode(body, n) + [] == [PushI32(n)] + body + tail;
  }

  lemma ResetNeedsCheck(cc: nat, captures: nat)
    ensures NeedCheckAdvance(ResetCode(cc, captures) + [])
  {
    assert ResetCode(cc, captures) + [] == ResetCode(cc, captures);
    OneInstr(SaveReset(cc, cc + captures - 1));
  }

  lemma GreedyNeedsCheck(code: Code)
    ensures code != [] && code[0].SimpleGreedyQuant? ==> NeedCheckAdvance(code)
  {
  }

  /** The only quantifier whose code passes the test is {1}, and its code is the atom. */
  lemma CertainQuantifier(atom: Code, min: int, max: int, greedy: bool, cc: nat, captures: nat)
    requires 0 <= min <= max <= INT32_MAX
    requires !NeedCheckAdvance(QuantifierCode(atom, min, max, greedy, cc, captures))
    ensures min == max == 1 && QuantifierCode(atom, min, max, greedy, cc, captures) == atom
  {
    var body := Guarded(atom, NeedCheckAdvance(atom));
    var reset := ResetCode(cc, captures);
    LoopsNeedCheck(reset, body, max, greedy);
    LoopsNeedCheck(atom, atom, max, !greedy);
    LoopsNeedCheck(RepeatCode(atom, min), body, max - min, greedy);
    ResetNeedsCheck(cc, captures);
    if min != 1 { RepeatNeedsCheck(atom, min); }
    QuantifierShapes(atom, min, max, greedy, cc, captures);
    GreedyNeedsCheck(QuantifierCode(atom, min, max, greedy, cc, captures));
    hide *;
  }

  lemma QuantifierShapes(atom: Code, min: int, max: int, greedy: bool, cc: nat, captures: nat)
    requires 0 <= min <= max <= INT32_MAX
    ensures var code := QuantifierCode(atom, min, max, greedy, cc, captures);
            var reset := ResetCode(cc, captures);
            var body := Guarded(atom, NeedCheckAdvance(atom));
            (code != [] && code[0].SimpleGreedyQuant?) ||
            (min == max == 1 && code == atom) ||
            (max == 0 && code == reset + []) ||
            code == reset + ([Split(greedy, CodeSize(body))] + body) ||
            code == reset + StarCode(body, greedy) ||
            code == reset + UpToCode(body, max, greedy) ||
            code == atom + [Split(!greedy, -(CodeSize(atom) + 5))] ||
            code == RepeatCode(atom, min) + StarCode(body, greedy) ||
            code == RepeatCode(atom, min) + UpToCode(body, max - min, greedy) ||
            (min != 1 && code == RepeatCode(atom, min) + [])
  {
  }

  lemma OneAdvances(env: Env, x: CharTest, back: bool, cc: nat, o: Outcome)
    requires Good(env, o)
    ensures AllAdvance(env, back, o.pos, TermOutcomes(env, One(x), back, cc, o))
  {
    if back {
      if o.pos > 0 { NextInvertsPrev(env.input, o.pos); }
    } else {
      if o.pos < |env.input.units| { PrevInvertsNext(env.input, o.pos); }
    }
  }

  /** The term x{1} has the outcomes of x. */
  lemma OnceIsAtom(env: Env, a: Term, greedy: bool, back: bool, cc: nat, o: Outcome)
    requires Good(env, o)
    ensures TermOutcomes(env, Quantified(a, 1, 1, greedy), back, cc, o) == TermOutcomes(env, a, back, cc, o)
  {
    RepeatOnce(env, a, back, cc, o);
    ExactlyMin(env, a, 1, greedy, back, cc, TermOutcomes(env, a, back, cc, o));
  }

  lemma CaptureCodeCertain(first: Instr, body: Code, last: Instr)
    requires !NeedCheckAdvance([first] + body + [last]) && !IsCharOp(first) && !IsCharOp(last)
    ensures !NeedCheckAdvance(body)
  {
    OneInstr(first);
    OneInstr(last);
    PredictableAppend([first] + body, [last]);
    PredictableAppend([first], body);
  }

  lemma CloseAdvance(env: Env, back: bool, pos: int, outs: Outcomes, k: nat)
    requires AllAdvance(env, back, pos, outs)
    ensures AllAdvance(env, back, pos, CloseCapture(outs, k))
  {
  }

  /** re_need_check_advance is right: when it returns false, every successful pass of the
      code's term moves the cursor. */
  lemma {:induction false} TermAdvances(env: Env, t: Term, back: bool, cc: nat, o: Outcome)
    requires ValidTerm(t) && Good(env, o)
    requires !NeedCheckAdvance(TermCode(env.flags, t, back, cc))
    ensures AllAdvance(env, back, o.pos, TermOutcomes(env, t, back, cc, o))
    decreases t, 0
  {
    hide AllAdvance, NeedCheckAdvance, CodeSize;
    match t
    case One(x) => OneAdvances(env, x, back, cc, o);
    case LineStart => NoCharOp(LineStartOp);
    case LineEnd => NoCharOp(LineEndOp);
    case WordBoundary(neg) => NoCharOp(WordBoundaryOp(neg));
    case Group(d) => DisjunctionAdvances(env, d, back, cc, o);
    case Capture(d) => CaptureAdvances(env, d, back, cc, o);
    case BackReference(i) => NoCharOp(BackRef(back, i));
    case Look(neg, b, d) => LookNeedsCheck(env.flags, neg, b, d, cc);
    case Quantified(a, min, max, greedy) =>
      CertainQuantifier(TermCode(env.flags, a, back, cc), min, max, greedy, cc, TermCaptures(a));
      TermAdvances(env, a, back, cc, o);
      OnceIsAtom(env, a, greedy, back, cc, o);
  }

  lemma NoCharOp(i: Instr)
    requires !IsCharOp(i)
    ensures NeedCheckAdvance([i])
  {
    OneInstr(i);
  }

  lemma {:induction false} CaptureAdvances(env: Env, d: Disjunction, back: bool, cc: nat, o: Outcome)
    requires ValidDisjunction(d) && Good(env, o)
    requires !NeedCheckAdvance(TermCode(env.flags, Capture(d), back, cc))
    ensures AllAdvance(env, back, o.pos, TermOutcomes(env, Capture(d), back, cc, o))
    decreases d, 1
  {
    hide *;
    var body := DisjunctionCode(env.flags, d, back, cc + 1);
    var first, last := if back then SaveEnd(cc) else SaveStart(cc), if back then SaveStart(cc) else SaveEnd(cc);
    var start, finish := 2 * cc + (if back then 1 else 0), 2 * cc + (if back then 0 else 1);
    var o1 := o.(caps := SetCapture(o.caps, start, o.pos));
    CaptureCode(env.flags, d, back, cc);
    CaptureOutcomes(env, d, back, cc, o);
    CaptureCodeCertain(first, body, last);
    OpenGood(env, start, o);
    DisjunctionAdvances(env, d, back, cc + 1, o1);
    CloseAdvance(env, back, o.pos, DisjunctionOutcomes(env, d, back, cc + 1, o1), finish);
  }

  lemma CaptureCode(f: Flags, d: Disjunction, back: bool, cc: nat)
    requires ValidDisjunction(d)
    ensures !IsCharOp(SaveStart(cc)) && !IsCharOp(SaveEnd(cc))
    ensures TermCode(f, Capture(d), back, cc) ==
      [if back then SaveEnd(cc) else SaveStart(cc)] + DisjunctionCode(f, d, back, cc + 1) +
      [if back then SaveStart(cc) else SaveEnd(cc)]
  {
  }

  lemma CaptureOutcomes(env: Env, d: Disjunction, back: bool, cc: nat, o: Outcome)
    requires ValidDisjunction(d) && Good(env, o)
    ensures ValidTerm(Capture(d))
    ensures var start, finish := 2 * cc + (if back then 1 else 0), 2 * cc + (if back then 0 else 1);
      TermOutcomes(env, Capture(d), back, cc, o) ==
      CloseCapture(DisjunctionOutcomes(env, d, back, cc + 1, o.(caps := SetCapture(o.caps, start, o.pos))), finish)
  {
  }

  lemma LookNeedsCheck(f: Flags, neg: bool, b: bool, d: Disjunction, cc: nat)
    requires ValidDisjunction(d)
    ensures NeedCheckAdvance(TermCode(f, Look(neg, b, d), false, cc)) && NeedCheckAdvance(TermCode(f, Look(neg, b, d), true, cc))
  {
    hide NeedCheckAdvance, CodeSize;
    var body := DisjunctionCode(f, d, b, cc);
    var head := Lookahead(neg, CodeSize(body) + 1);
    assert [head] + body + [Match] == [head] + (body + [Match]);
    UnpredictableHead(head, body + [Match]);
  }

  lemma UnpredictableHead(i: Instr, rest: Code)
    requires !IsPredictable(i)
    ensures NeedCheckAdvance([i] + rest)
  {
  }

  /** Two parts in sequence advance if one of them does. */
  lemma BindAdvance(env: Env, back: bool, pos: int, outs: Outcomes, fs: seq<Outcomes>)
    requires |fs| == |outs| && AllGood(env, back, pos, outs)
    requires forall i :: 0 <= i < |fs| ==> AllGood(env, back, outs[i].pos, fs[i])
    requires AllAdvance(env, back, pos, outs) || forall i :: 0 <= i < |fs| ==> AllAdvance(env, back, outs[i].pos, fs[i])
    ensures AllAdvance(env, back, pos, Flatten(fs))
  {
    forall i | 0 <= i < |fs| ensures AllAdvance(env, back, pos, fs[i]) {
      assert AllGood(env, back, outs[i].pos, fs[i]);
      if !AllAdvance(env, back, pos, outs) {
        assert AllAdvance(env, back, outs[i].pos, fs[i]);
      }
    }
    FlattenAdvance(env, back, pos, fs);
  }

  lemma {:induction false} AlternativeAdvances(env: Env, a: Alternative, back: bool, cc: nat, o: Outcome)
    requires ValidAlternative(a) && Good(env, o)
    requires !NeedCheckAdvance(AlternativeCode(env.flags, a, back, cc))
    ensures AllAdvance(env, back, o.pos, AlternativeOutcomes(env, a, back, cc, o))
    decreases a, 0
  {
    match a
    case Empty =>
    case Then(init, last) =>
      hide *;
      ThenUnfolds(env, init, last, back, cc, o);
      if back {
        ThenAdvancesBack(env, init, last, cc, o);
      } else {
        ThenAdvances(env, init, last, cc, o);
      }
  }

  lemma ThenUnfolds(env: Env, init: Alternative, last: Term, back: bool, cc: nat, o: Outcome)
    requires ValidAlternative(Then(init, last))
    ensures ValidAlternative(init) && ValidTerm(last)
    ensures var lastCc := cc + AlternativeCaptures(init);
      var first, term := AlternativeCode(env.flags, init, back, cc), TermCode(env.flags, last, back, lastCc);
      AlternativeCode(env.flags, Then(init, last), back, cc) == (if back then term + first else first + term) &&
      AlternativeOutcomes(env, Then(init, last), back, cc, o) ==
        if back then Flatten(AlternativeEach(env, init, back, cc, TermOutcomes(env, last, back, lastCc, o)))
        else Flatten(TermEach(env, last, back, lastCc, AlternativeOutcomes(env, init, back, cc, o)))
  {
    hide Flatten, AlternativeEach, TermEach;
  }

  lemma {:induction false} ThenAdvancesBack(env: Env, init: Alternative, last: Term, cc: nat, o: Outcome)
    requires ValidAlternative(init) && ValidTerm(last) && Good(env, o)
    requires !NeedCheckAdvance(TermCode(env.flags, last, true, cc + AlternativeCaptures(init)) + AlternativeCode(env.flags, init, true, cc))
    ensures AllAdvance(env, true, o.pos,
      Flatten(AlternativeEach(env, init, true, cc, TermOutcomes(env, last, true, cc + AlternativeCaptures(init), o))))
    decreases Then(init, last), -1
  {
    hide *;
    var lastCc := cc + AlternativeCaptures(init);
    var first, term := AlternativeCode(env.flags, init, true, cc), TermCode(env.flags, last, true, lastCc);
    NeedCheckEither(term, first);
    var outs := TermOutcomes(env, last, true, lastCc, o);
    var fs := AlternativeEach(env, init, true, cc, outs);
    TermGood(env, last, true, lastCc, o);
    if !NeedCheckAdvance(term) { TermAdvances(env, last, true, lastCc, o); }
    forall i | 0 <= i < |fs|
      ensures AllGood(env, true, outs[i].pos, fs[i])
      ensures !NeedCheckAdvance(term) || AllAdvance(env, true, outs[i].pos, fs[i])
    {
      GoodAt(env, true, o.pos, outs, i);
      AlternativeGood(env, init, true, cc, outs[i]);
      if !NeedCheckAdvance(first) { AlternativeAdvances(env, init, true, cc, outs[i]); }
    }
    BindAdvance(env, true, o.pos, outs, fs);
  }

  lemma {:induction false} ThenAdvances(env: Env, init: Alternative, last: Term, cc: nat, o: Outcome)
    requires ValidAlternative(init) && ValidTerm(last) && Good(env, o)
    requires !NeedCheckAdvance(AlternativeCode(env.flags, init, false, cc) + TermCode(env.flags, last, false, cc + AlternativeCaptures(init)))
    ensures AllAdvance(env, false, o.pos,
      Flatten(TermEach(env, last, false, cc + AlternativeCaptures(init), AlternativeOutcomes(env, init, false, cc, o))))
    decreases Then(init, last), -1
  {
    hide *;
    var lastCc := cc + AlternativeCaptures(init);
    var first, term := AlternativeCode(env.flags, init, false, cc), TermCode(env.flags, last, false, lastCc);
    NeedCheckEither(first, term);
    var outs := AlternativeOutcomes(env, init, false, cc, o);
    var fs := TermEach(env, last, false, lastCc, outs);
    AlternativeGood(env, init, false, cc, o);
    if !NeedCheckAdvance(first) { AlternativeAdvances(env, init, false, cc, o); }
    forall i | 0 <= i < |fs|
      ensures AllGood(env, false, outs[i].pos, fs[i])
      ensures !NeedCheckAdvance(first) || AllAdvance(env, false, outs[i].pos, fs[i])
    {
      GoodAt(env, false, o.pos, outs, i);
      TermGood(env, last, false, lastCc, outs[i]);
      if !NeedCheckAdvance(term) { TermAdvances(env, last, false, lastCc, outs[i]); }
    }
    BindAdvance(env, false, o.pos, outs, fs);
  }

  lemma {:induction false} DisjunctionAdvances(env: Env, d: Disjunction, back: bool, cc: nat, o: Outcome)
    requires ValidDisjunction(d) && Good(env, o)
    requires !NeedCheckAdvance(DisjunctionCode(env.flags, d, back, cc))
    ensures AllAdvance(env, back, o.pos, DisjunctionOutcomes(env, d, back, cc, o))
    decreases d, 0
  {
    match d
    case Only(a) => AlternativeAdvances(env, a, back, cc, o);
    case Or(l, a) =>
  }
}
