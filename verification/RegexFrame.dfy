/** A term sets no captures but its own. */
module RegexFrame {
  import opened RegexTerm
  import opened RegexMatcher

  /** `b` agrees with `a` except possibly on the entries lo..hi-1. */
  ghost predicate SameOutside(lo: int, hi: int, a: seq<int>, b: seq<int>) {
    |a| == |b| && forall k :: 0 <= k < |a| && !(lo <= k < hi) ==> a[k] == b[k]
  }

  ghost predicate Framed(lo: int, hi: int, caps: seq<int>, outs: Outcomes) {
    forall i :: 0 <= i < |outs| ==> SameOutside(lo, hi, caps, outs[i].caps)
  }

  lemma {:induction false} FlattenFramed(lo: int, hi: int, caps: seq<int>, fs: seq<Outcomes>)
    requires forall i :: 0 <= i < |fs| ==> Framed(lo, hi, caps, fs[i])
    ensures Framed(lo, hi, caps, Flatten(fs))
  {
    if fs != [] {
      forall i | 0 <= i < |fs[1..]| ensures Framed(lo, hi, caps, fs[1..][i]) {
        assert fs[1..][i] == fs[i + 1];
      }
      FlattenFramed(lo, hi, caps, fs[1..]);
      assert Framed(lo, hi, caps, fs[0]);
    }
  }

  /** Composition of two framed parts, each inside lo..hi-1. */
  lemma BindFramed(lo: int, hi: int, caps: seq<int>, outs: Outcomes, fs: seq<Outcomes>)
    requires |fs| == |outs| && Framed(lo, hi, caps, outs)
    requires forall i :: 0 <= i < |outs| ==> Framed(lo, hi, outs[i].caps, fs[i])
    ensures Framed(lo, hi, caps, Flatten(fs))
  {
    forall i | 0 <= i < |fs| ensures Framed(lo, hi, caps, fs[i]) {
      assert SameOutside(lo, hi, caps, outs[i].caps) && Framed(lo, hi, outs[i].caps, fs[i]);
      forall j | 0 <= j < |fs[i]| ensures SameOutside(lo, hi, caps, fs[i][j].caps) {
        assert SameOutside(lo, hi, outs[i].caps, fs[i][j].caps);
      }
    }
    FlattenFramed(lo, hi, caps, fs);
  }

  lemma FramedWider(lo: int, hi: int, lo1: int, hi1: int, caps: seq<int>, outs: Outcomes)
    requires Framed(lo1, hi1, caps, outs) && lo <= lo1 && hi1 <= hi
    ensures Framed(lo, hi, caps, outs)
  {
    forall i | 0 <= i < |outs| ensures SameOutside(lo, hi, caps, outs[i].caps) {
      assert SameOutside(lo1, hi1, caps, outs[i].caps);
    }
  }

  lemma CloseFramed(lo: int, hi: int, caps: seq<int>, outs: Outcomes, start: nat, pos: int, finish: nat)
    requires lo <= start < hi && lo <= finish < hi
    requires Framed(lo, hi, SetCapture(caps, start, pos), outs)
    ensures Framed(lo, hi, caps, CloseCapture(outs, finish))
  {
    var closed := CloseCapture(outs, finish);
    forall i | 0 <= i < |closed| ensures SameOutside(lo, hi, caps, closed[i].caps) {
      assert SameOutside(lo, hi, SetCapture(caps, start, pos), outs[i].caps);
    }
  }

  lemma {:induction false} TermFrame(env: Env, t: Term, back: bool, cc: nat, o: Outcome)
    ensures Framed(2 * cc, 2 * (cc + TermCaptures(t)), o.caps, TermOutcomes(env, t, back, cc, o))
    decreases t, 0, 0, 0
  {
    hide Framed, SameOutside, Flatten;
    var hi := 2 * (cc + TermCaptures(t));
    FramedSelf(2 * cc, hi, o);
    FramedNone(2 * cc, hi, o.caps);
    match t
    case Group(d) => DisjunctionFrame(env, d, back, cc, o);
    case Capture(d) =>
      var start, finish := 2 * cc + (if back then 1 else 0), 2 * cc + (if back then 0 else 1);
      var o1 := o.(caps := SetCapture(o.caps, start, o.pos));
      DisjunctionFrame(env, d, back, cc + 1, o1);
      FramedWider(2 * cc, hi, 2 * (cc + 1), hi, o1.caps, DisjunctionOutcomes(env, d, back, cc + 1, o1));
      CloseFramed(2 * cc, hi, o.caps, DisjunctionOutcomes(env, d, back, cc + 1, o1), start, o.pos, finish);
    case Look(neg, b, d) =>
      DisjunctionFrame(env, d, b, cc, o);
      var r := DisjunctionOutcomes(env, d, b, cc, o);
      if r != [] { FramedFirst(2 * cc, hi, o, r); }
    case Quantified(a, min, max, greedy) =>
      if InText(env, o.pos) && min >= 0 {
        QuantifiedFrame(env, a, min, max, greedy, back, cc, o);
      }
    case _ =>
      SingleFramed(2 * cc, hi, env, t, back, cc, o);
  }

  lemma FramedNone(lo: int, hi: int, caps: seq<int>)
    ensures Framed(lo, hi, caps, [])
  {
  }

  lemma FramedSelf(lo: int, hi: int, o: Outcome)
    ensures Framed(lo, hi, o.caps, [o])
  {
  }

  lemma FramedFirst(lo: int, hi: int, o: Outcome, r: Outcomes)
    requires Framed(lo, hi, o.caps, r) && r != []
    ensures Framed(lo, hi, o.caps, [o.(caps := r[0].caps)])
  {
    assert SameOutside(lo, hi, o.caps, r[0].caps);
  }

  lemma SingleFramed(lo: int, hi: int, env: Env, t: Term, back: bool, cc: nat, o: Outcome)
    requires t.One? || t.LineStart? || t.LineEnd? || t.WordBoundary? || t.BackReference?
    ensures Framed(lo, hi, o.caps, TermOutcomes(env, t, back, cc, o))
  {
  }

  lemma {:induction false} QuantifiedFrame(env: Env, a: Term, min: nat, max: int, greedy: bool, back: bool, cc: nat, o: Outcome)
    requires InText(env, o.pos)
    ensures Framed(2 * cc, 2 * (cc + TermCaptures(a)), o.caps, TermOutcomes(env, Quantified(a, min, max, greedy), back, cc, o))
    decreases a, 2, 0, 0
  {
    hide Framed, SameOutside, TermOutcomes, Mandatory, Optional, Flatten;
    var lo, hi := 2 * cc, 2 * (cc + TermCaptures(a));
    var o1 := if min == 0 then Reset(a, cc, o) else o;
    var outs := Mandatory(env, a, min, back, cc, o1);
    var fs := AfterMandatory(env, a, min, max, greedy, back, cc, outs);
    MandatoryFrame(env, a, min, back, cc, o1);
    forall i | 0 <= i < |outs| ensures Framed(lo, hi, outs[i].caps, fs[i]) {
      OptionalFrame(env, a, Further(min, max), greedy, back, cc, outs[i]);
    }
    ResetFramed(a, cc, o, outs);
    FramedTrans(lo, hi, o.caps, o1.caps, outs);
    BindFramed(lo, hi, o.caps, outs, fs);
    QuantifiedParts(env, a, min, max, greedy, back, cc, o);
  }

  lemma ResetFramed(a: Term, cc: nat, o: Outcome, outs: Outcomes)
    ensures SameOutside(2 * cc, 2 * (cc + TermCaptures(a)), o.caps, Reset(a, cc, o).caps)
    ensures SameOutside(2 * cc, 2 * (cc + TermCaptures(a)), o.caps, o.caps)
  {
  }

  lemma FramedTrans(lo: int, hi: int, caps: seq<int>, caps1: seq<int>, outs: Outcomes)
    requires SameOutside(lo, hi, caps, caps1) && Framed(lo, hi, caps1, outs)
    ensures Framed(lo, hi, caps, outs)
  {
    forall i | 0 <= i < |outs| ensures SameOutside(lo, hi, caps, outs[i].caps) {
      assert SameOutside(lo, hi, caps1, outs[i].caps);
    }
  }

  lemma {:induction false} MandatoryFrame(env: Env, a: Term, k: nat, back: bool, cc: nat, o: Outcome)
    ensures Framed(2 * cc, 2 * (cc + TermCaptures(a)), o.caps, Mandatory(env, a, k, back, cc, o))
    decreases a, 1, k, 0
  {
    hide Framed, SameOutside, TermOutcomes, Flatten;
    var lo, hi := 2 * cc, 2 * (cc + TermCaptures(a));
    if k > 0 {
      TermFrame(env, a, back, cc, o);
      var outs := TermOutcomes(env, a, back, cc, o);
      var fs := MandatoryEach(env, a, k - 1, back, cc, outs);
      forall i | 0 <= i < |outs| ensures Framed(lo, hi, outs[i].caps, fs[i]) {
        MandatoryFrame(env, a, k - 1, back, cc, outs[i]);
      }
      BindFramed(lo, hi, o.caps, outs, fs);
    } else {
      FramedSelf(lo, hi, o);
    }
  }

  lemma {:induction false} OptionalFrame(env: Env, a: Term, m: int, greedy: bool, back: bool, cc: nat, o: Outcome)
    ensures Framed(2 * cc, 2 * (cc + TermCaptures(a)), o.caps, Optional(env, a, m, greedy, back, cc, o))
    decreases a, 1, Distance(env, back, o.pos), 0
  {
    hide Framed, SameOutside, TermOutcomes, Flatten, Optional;
    var lo, hi := 2 * cc, 2 * (cc + TermCaptures(a));
    FramedSelf(lo, hi, o);
    if m > 0 {
      OneMoreFrame(env, a, m, greedy, back, cc, o);
    } else {
      OptionalStop(env, a, m, greedy, back, cc, o);
    }
  }

  lemma {:induction false} OneMoreFrame(env: Env, a: Term, m: int, greedy: bool, back: bool, cc: nat, o: Outcome)
    requires m > 0
    ensures Framed(2 * cc, 2 * (cc + TermCaptures(a)), o.caps, Optional(env, a, m, greedy, back, cc, o))
    decreases a, 1, Distance(env, back, o.pos), -1
  {
    hide Framed, SameOutside, TermOutcomes, Flatten, Optional, Distance;
    var lo, hi := 2 * cc, 2 * (cc + TermCaptures(a));
    FramedSelf(lo, hi, o);
    TermFrame(env, a, back, cc, o);
    var outs := TermOutcomes(env, a, back, cc, o);
    var fs := OptionalEach(env, a, Fewer(m), greedy, back, cc, o, outs);
    forall i | 0 <= i < |outs| ensures Framed(lo, hi, outs[i].caps, fs[i]) {
      if Advances(env, back, o.pos, outs[i].pos) {
        OptionalFrame(env, a, Fewer(m), greedy, back, cc, outs[i]);
      } else {
        FramedNone(lo, hi, outs[i].caps);
      }
    }
    BindFramed(lo, hi, o.caps, outs, fs);
    OptionalStep(env, a, m, greedy, back, cc, o);
    FramedJoin(lo, hi, o.caps, Flatten(fs), [o]);
    FramedJoin(lo, hi, o.caps, [o], Flatten(fs));
  }

  lemma {:induction false} OptionalStop(env: Env, a: Term, m: int, greedy: bool, back: bool, cc: nat, o: Outcome)
    requires m <= 0
    ensures Optional(env, a, m, greedy, back, cc, o) == [o]
  {
  }

  lemma FramedJoin(lo: int, hi: int, caps: seq<int>, a: Outcomes, b: Outcomes)
    requires Framed(lo, hi, caps, a) && Framed(lo, hi, caps, b)
    ensures Framed(lo, hi, caps, a + b)
  {
  }

  lemma {:induction false} AlternativeFrame(env: Env, a: Alternative, back: bool, cc: nat, o: Outcome)
    ensures Framed(2 * cc, 2 * (cc + AlternativeCaptures(a)), o.caps, AlternativeOutcomes(env, a, back, cc, o))
    decreases a, 0, 0, 0
  {
    match a
    case Empty =>
      hide Framed, SameOutside;
      FramedSelf(2 * cc, 2 * cc, o);
    case Then(init, last) =>
      hide *;
      if back {
        BackwardFrame(env, init, last, cc, o);
      } else {
        ForwardFrame(env, init, last, cc, o);
      }
  }

  lemma ThenCaptures(init: Alternative, last: Term)
    ensures AlternativeCaptures(Then(init, last)) == AlternativeCaptures(init) + TermCaptures(last)
  {
  }

  lemma {:induction false} BackwardFrame(env: Env, init: Alternative, last: Term, cc: nat, o: Outcome)
    ensures Framed(2 * cc, 2 * (cc + AlternativeCaptures(Then(init, last))), o.caps, AlternativeOutcomes(env, Then(init, last), true, cc, o))
    decreases Then(init, last), 0, 0, -1
  {
    var mid := cc + AlternativeCaptures(init);
    var lo, hi := 2 * cc, 2 * (cc + AlternativeCaptures(Then(init, last)));
    ThenCaptures(init, last);
    hide *;
    var outs := TermOutcomes(env, last, true, mid, o);
    var fs := AlternativeEach(env, init, true, cc, outs);
    TermFrame(env, last, true, mid, o);
    FramedWider(lo, hi, 2 * mid, hi, o.caps, outs);
    forall i | 0 <= i < |outs|
      ensures Framed(lo, hi, outs[i].caps, fs[i])
    {
      AlternativeFrame(env, init, true, cc, outs[i]);
      FramedWider(lo, hi, lo, 2 * mid, outs[i].caps, fs[i]);
    }
    BindFramed(lo, hi, o.caps, outs, fs);
    ThenBackward(env, init, last, cc, o);
  }

  lemma {:induction false} ForwardFrame(env: Env, init: Alternative, last: Term, cc: nat, o: Outcome)
    ensures Framed(2 * cc, 2 * (cc + AlternativeCaptures(Then(init, last))), o.caps, AlternativeOutcomes(env, Then(init, last), false, cc, o))
    decreases Then(init, last), 0, 0, -1
  {
    var mid := cc + AlternativeCaptures(init);
    var lo, hi := 2 * cc, 2 * (cc + AlternativeCaptures(Then(init, last)));
    ThenCaptures(init, last);
    hide *;
    var outs := AlternativeOutcomes(env, init, false, cc, o);
    var fs := TermEach(env, last, false, mid, outs);
    AlternativeFrame(env, init, false, cc, o);
    FramedWider(lo, hi, lo, 2 * mid, o.caps, outs);
    forall i | 0 <= i < |outs|
      ensures Framed(lo, hi, outs[i].caps, fs[i])
    {
      TermFrame(env, last, false, mid, outs[i]);
      FramedWider(lo, hi, 2 * mid, hi, outs[i].caps, fs[i]);
    }
    BindFramed(lo, hi, o.caps, outs, fs);
    ThenForward(env, init, last, cc, o);
  }

  lemma {:induction false} DisjunctionFrame(env: Env, d: Disjunction, back: bool, cc: nat, o: Outcome)
    ensures Framed(2 * cc, 2 * (cc + DisjunctionCaptures(d)), o.caps, DisjunctionOutcomes(env, d, back, cc, o))
    decreases d, 0, 0, 0
  {
    hide Framed, SameOutside, AlternativeOutcomes;
    var lo, hi := 2 * cc, 2 * (cc + DisjunctionCaptures(d));
    match d
    case Only(a) => AlternativeFrame(env, a, back, cc, o);
    case Or(l, a) =>
      var mid := cc + DisjunctionCaptures(l);
      DisjunctionFrame(env, l, back, cc, o);
      AlternativeFrame(env, a, back, mid, o);
      FramedWider(lo, hi, lo, 2 * mid, o.caps, DisjunctionOutcomes(env, l, back, cc, o));
      FramedWider(lo, hi, 2 * mid, hi, o.caps, AlternativeOutcomes(env, a, back, mid, o));
      FramedJoin(lo, hi, o.caps, DisjunctionOutcomes(env, l, back, cc, o), AlternativeOutcomes(env, a, back, mid, o));
  }
}
