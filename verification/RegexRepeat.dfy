/** The reference matcher with the captures of an atom cleared before every iteration, as in
    RepeatMatcher (section 22.2.2.3.1 of ECMA-262), against the one that follows the code, which
    clears them once, before a quantifier that may be skipped. */
module RegexRepeat {
  import opened Words
  import opened RegexInput
  import opened RegexTerm
  import opened RegexMatcher
  import opened RegexFrame
  import opened RegexProgram

  // --- clearing before every iteration ---

  ghost function TermRepeats(env: Env, t: Term, back: bool, cc: nat, o: Outcome): Outcomes
    decreases t, 0, 0, 0
  {
    if !InText(env, o.pos) then [] else
    match t
    case Group(d) => DisjunctionRepeats(env, d, back, cc, o)
    case Capture(d) =>
      var start, finish := 2 * cc + (if back then 1 else 0), 2 * cc + (if back then 0 else 1);
      CloseCapture(DisjunctionRepeats(env, d, back, cc + 1, o.(caps := SetCapture(o.caps, start, o.pos))), finish)
    case Look(neg, b, d) =>
      var r := DisjunctionRepeats(env, d, b, cc, o);
      if neg then (if r == [] then [o] else [])
      else (if r == [] then [] else [o.(caps := r[0].caps)])
    case Quantified(a, min, max, greedy) =>
      if min < 0 then [] else
      Flatten(FurtherRepeats(env, a, Further(min, max), greedy, back, cc, MandatoryRepeats(env, a, min, back, cc, o)))
    case _ => TermOutcomes(env, t, back, cc, o)
  }

  /** Exactly `k` iterations of the atom. */
  ghost function MandatoryRepeats(env: Env, a: Term, k: nat, back: bool, cc: nat, o: Outcome): Outcomes
    decreases a, 1, k, 0
  {
    if k == 0 then [o]
    else Flatten(MandatoryRepeatsEach(env, a, k - 1, back, cc, TermRepeats(env, a, back, cc, Reset(a, cc, o))))
  }

  ghost function MandatoryRepeatsEach(env: Env, a: Term, k: nat, back: bool, cc: nat, outs: Outcomes): (r: seq<Outcomes>)
    ensures |r| == |outs|
    ensures forall i :: 0 <= i < |outs| ==> r[i] == MandatoryRepeats(env, a, k, back, cc, outs[i])
    decreases a, 1, k, 1 + |outs|
  {
    if outs == [] then []
    else [MandatoryRepeats(env, a, k, back, cc, outs[0])] + MandatoryRepeatsEach(env, a, k, back, cc, outs[1..])
  }

  /** Up to `m` further iterations (any number if m is INT32_MAX); each of them must advance. */
  ghost function OptionalRepeats(env: Env, a: Term, m: int, greedy: bool, back: bool, cc: nat, o: Outcome): Outcomes
    decreases a, 1, Distance(env, back, o.pos)
  {
    if m <= 0 then [o]
    else
      var more := Flatten(OptionalRepeatsEach(env, a, Fewer(m), greedy, back, cc, o, TermRepeats(env, a, back, cc, Reset(a, cc, o))));
      if greedy then more + [o] else [o] + more
  }

  ghost function OptionalRepeatsEach(env: Env, a: Term, m: int, greedy: bool, back: bool, cc: nat, o: Outcome, outs: Outcomes): (r: seq<Outcomes>)
    ensures |r| == |outs|
    ensures forall i :: 0 <= i < |outs| ==>
      r[i] == if Advances(env, back, o.pos, outs[i].pos) then OptionalRepeats(env, a, m, greedy, back, cc, outs[i]) else []
    decreases a, 1, Distance(env, back, o.pos), |outs|
  {
    hide Flatten, TermRepeats, InText, Reset, OptionalRepeats;
    if outs == [] then []
    else
      [if Advances(env, back, o.pos, outs[0].pos) then OptionalRepeats(env, a, m, greedy, back, cc, outs[0]) else []] +
      OptionalRepeatsEach(env, a, m, greedy, back, cc, o, outs[1..])
  }

  ghost function FurtherRepeats(env: Env, a: Term, m: int, greedy: bool, back: bool, cc: nat, outs: Outcomes): (r: seq<Outcomes>)
    ensures |r| == |outs|
    ensures forall i :: 0 <= i < |outs| ==> r[i] == OptionalRepeats(env, a, m, greedy, back, cc, outs[i])
    decreases a, 2, |outs|, 0
  {
    if outs == [] then []
    else [OptionalRepeats(env, a, m, greedy, back, cc, outs[0])] + FurtherRepeats(env, a, m, greedy, back, cc, outs[1..])
  }

  ghost function TermRepeatsEach(env: Env, t: Term, back: bool, cc: nat, outs: Outcomes): (r: seq<Outcomes>)
    ensures |r| == |outs|
    ensures forall i :: 0 <= i < |outs| ==> r[i] == TermRepeats(env, t, back, cc, outs[i])
    decreases t, 1, |outs|, 0
  {
    if outs == [] then []
    else [TermRepeats(env, t, back, cc, outs[0])] + TermRepeatsEach(env, t, back, cc, outs[1..])
  }

  ghost function AlternativeRepeatsEach(env: Env, a: Alternative, back: bool, cc: nat, outs: Outcomes): (r: seq<Outcomes>)
    ensures |r| == |outs|
    ensures forall i :: 0 <= i < |outs| ==> r[i] == AlternativeRepeats(env, a, back, cc, outs[i])
    decreases a, 1, |outs|, 0
  {
    hide Flatten, TermRepeatsEach, TermRepeats, InText;
    if outs == [] then []
    else [AlternativeRepeats(env, a, back, cc, outs[0])] + AlternativeRepeatsEach(env, a, back, cc, outs[1..])
  }

  ghost function AlternativeRepeats(env: Env, a: Alternative, back: bool, cc: nat, o: Outcome): Outcomes
    decreases a, 0, 0, 0
  {
    match a
    case Empty => [o]
    case Then(init, last) =>
      var lastCc := cc + AlternativeCaptures(init);
      if back then Flatten(AlternativeRepeatsEach(env, init, back, cc, TermRepeats(env, last, back, lastCc, o)))
      else Flatten(TermRepeatsEach(env, last, back, lastCc, AlternativeRepeats(env, init, back, cc, o)))
  }

  ghost function DisjunctionRepeats(env: Env, d: Disjunction, back: bool, cc: nat, o: Outcome): Outcomes
    decreases d, 0, 0, 0
  {
    match d
    case Only(a) => AlternativeRepeats(env, a, back, cc, o)
    case Or(l, a) =>
      DisjunctionRepeats(env, l, back, cc, o) + AlternativeRepeats(env, a, back, cc + DisjunctionCaptures(l), o)
  }

  // --- expressions without back references ---

  predicate PlainTerm(t: Term) {
    match t
    case Group(d) => PlainDisjunction(d)
    case Capture(d) => PlainDisjunction(d)
    case BackReference(_) => false
    case Look(_, _, d) => PlainDisjunction(d)
    case Quantified(a, _, _, _) => PlainTerm(a)
    case _ => true
  }

  predicate PlainAlternative(a: Alternative) {
    match a
    case Empty => true
    case Then(init, last) => PlainAlternative(init) && PlainTerm(last)
  }

  predicate PlainDisjunction(d: Disjunction) {
    match d
    case Only(a) => PlainAlternative(a)
    case Or(l, a) => PlainDisjunction(l) && PlainAlternative(a)
  }

  // --- captures that every pass overwrites ---

  /** The entries of n groups from cc on. */
  function Groups(cc: nat, n: nat): (r: set<int>)
    ensures forall k :: k in r <==> 2 * cc <= k < 2 * (cc + n)
  {
    if n == 0 then {} else Groups(cc, n - 1) + {2 * (cc + n - 1), 2 * (cc + n - 1) + 1}
  }

  /** The capture entries that every successful pass sets or clears. */
  function TermFresh(t: Term, cc: nat): set<int> {
    match t
    case Group(d) => DisjunctionFresh(d, cc)
    case Capture(d) => {2 * cc, 2 * cc + 1} + DisjunctionFresh(d, cc + 1)
    case Look(neg, _, d) => if neg then {} else DisjunctionFresh(d, cc)
    case Quantified(a, min, _, _) => if min == 0 then Groups(cc, TermCaptures(a)) else TermFresh(a, cc)
    case _ => {}
  }

  function AlternativeFresh(a: Alternative, cc: nat): set<int> {
    match a
    case Empty => {}
    case Then(init, last) => AlternativeFresh(init, cc) + TermFresh(last, cc + AlternativeCaptures(init))
  }

  function DisjunctionFresh(d: Disjunction, cc: nat): set<int> {
    match d
    case Only(a) => AlternativeFresh(a, cc)
    case Or(l, a) => DisjunctionFresh(l, cc) * AlternativeFresh(a, cc + DisjunctionCaptures(l))
  }

  /** A pass of the atom depends on no captures of an earlier pass, and leaves none of them. */
  predicate Repeatable(a: Term, cc: nat) {
    Groups(cc, TermCaptures(a)) <= TermFresh(a, cc) && (TermCaptures(a) == 0 || PlainTerm(a))
  }

  /** All atoms that may be run more than once are repeatable. */
  predicate TameTerm(t: Term, cc: nat) {
    match t
    case Group(d) => TameDisjunction(d, cc)
    case Capture(d) => TameDisjunction(d, cc + 1)
    case Look(_, _, d) => TameDisjunction(d, cc)
    case Quantified(a, min, max, _) => TameTerm(a, cc) && (Repeatable(a, cc) || (min <= 1 && max <= 1))
    case _ => true
  }

  predicate TameAlternative(a: Alternative, cc: nat) {
    match a
    case Empty => true
    case Then(init, last) => TameAlternative(init, cc) && TameTerm(last, cc + AlternativeCaptures(init))
  }

  predicate TameDisjunction(d: Disjunction, cc: nat) {
    match d
    case Only(a) => TameAlternative(a, cc)
    case Or(l, a) => TameDisjunction(l, cc) && TameAlternative(a, cc + DisjunctionCaptures(l))
  }

  // --- outcomes that agree ---

  ghost predicate SameBut(x: set<int>, a: seq<int>, b: seq<int>) {
    |a| == |b| && forall k :: 0 <= k < |a| && k !in x ==> a[k] == b[k]
  }

  ghost predicate Alike(x: set<int>, o: Outcome, p: Outcome) {
    o.pos == p.pos && SameBut(x, o.caps, p.caps)
  }

  /** The same outcomes in the same order, up to the entries in x; those on the right change
      nothing outside lo..hi-1. */
  ghost predicate Follow(x: set<int>, lo: int, hi: int, caps: seq<int>, outs: Outcomes, reps: Outcomes) {
    |outs| == |reps| && (forall i :: 0 <= i < |outs| ==> Alike(x, outs[i], reps[i])) && Framed(lo, hi, caps, reps)
  }

  lemma {:induction false} FlattenAlike(x: set<int>, fs: seq<Outcomes>, gs: seq<Outcomes>)
    requires |fs| == |gs|
    requires forall i :: 0 <= i < |fs| ==> |fs[i]| == |gs[i]| && forall j :: 0 <= j < |fs[i]| ==> Alike(x, fs[i][j], gs[i][j])
    ensures |Flatten(fs)| == |Flatten(gs)|
    ensures forall j :: 0 <= j < |Flatten(fs)| ==> Alike(x, Flatten(fs)[j], Flatten(gs)[j])
    decreases |fs|
  {
    if fs != [] {
      hide Alike;
      forall i | 0 <= i < |fs[1..]|
        ensures |fs[1..][i]| == |gs[1..][i]| && forall j :: 0 <= j < |fs[1..][i]| ==> Alike(x, fs[1..][i][j], gs[1..][i][j])
      {
        assert fs[1..][i] == fs[i + 1] && gs[1..][i] == gs[i + 1];
      }
      FlattenAlike(x, fs[1..], gs[1..]);
    }
  }

  lemma BindFollow(x: set<int>, lo: int, hi: int, caps: seq<int>, reps: Outcomes, fs: seq<Outcomes>, gs: seq<Outcomes>)
    requires |fs| == |gs| == |reps| && Framed(lo, hi, caps, reps)
    requires forall i :: 0 <= i < |fs| ==> Follow(x, lo, hi, reps[i].caps, fs[i], gs[i])
    ensures Follow(x, lo, hi, caps, Flatten(fs), Flatten(gs))
  {
    hide Alike, Framed, SameOutside, Flatten;
    forall i | 0 <= i < |fs|
      ensures |fs[i]| == |gs[i]| && (forall j :: 0 <= j < |fs[i]| ==> Alike(x, fs[i][j], gs[i][j])) && Framed(lo, hi, reps[i].caps, gs[i])
    {
      assert Follow(x, lo, hi, reps[i].caps, fs[i], gs[i]);
    }
    FlattenAlike(x, fs, gs);
    BindFramed(lo, hi, caps, reps, gs);
  }

  lemma FollowWider(x: set<int>, y: set<int>, lo: int, hi: int, lo1: int, hi1: int, caps: seq<int>, outs: Outcomes, reps: Outcomes)
    requires Follow(x, lo1, hi1, caps, outs, reps) && x <= y && lo <= lo1 && hi1 <= hi
    ensures Follow(y, lo, hi, caps, outs, reps)
  {
    FramedWider(lo, hi, lo1, hi1, caps, reps);
    forall i | 0 <= i < |outs| ensures Alike(y, outs[i], reps[i]) {
      assert Alike(x, outs[i], reps[i]);
    }
  }

  lemma FollowJoin(x: set<int>, lo: int, hi: int, caps: seq<int>, a: Outcomes, b: Outcomes, a1: Outcomes, b1: Outcomes)
    requires Follow(x, lo, hi, caps, a, b) && Follow(x, lo, hi, caps, a1, b1)
    ensures Follow(x, lo, hi, caps, a + a1, b + b1)
  {
    hide Alike, SameOutside;
  }

  lemma FollowNone(x: set<int>, lo: int, hi: int, caps: seq<int>)
    ensures Follow(x, lo, hi, caps, [], [])
  {
  }

  lemma FollowOne(x: set<int>, lo: int, hi: int, o: Outcome, p: Outcome)
    requires Alike(x, o, p)
    ensures Follow(x, lo, hi, p.caps, [o], [p])
  {
  }

  // --- both matchers side by side ---

  predicate Unset(caps: seq<int>, cc: nat, n: nat) {
    forall k :: 0 <= k < |caps| && 2 * cc <= k < 2 * (cc + n) ==> caps[k] == -1
  }

  /** The entries of x that may still differ after a pass. If `exact`, the captures are compared;
      otherwise only the positions and the captures of other terms. */
  function Left(exact: bool, x: set<int>, overwritten: set<int>): set<int> {
    if exact then x - overwritten else x
  }

  ghost predicate Ready(exact: bool, x: set<int>, caps: seq<int>, cc: nat, n: nat) {
    if exact then Unset(caps, cc, n) else Groups(cc, n) <= x
  }

  ghost predicate TermReady(t: Term, cc: nat, exact: bool, x: set<int>, caps: seq<int>) {
    (exact ==> TameTerm(t, cc)) && ((exact && x == {}) || PlainTerm(t)) && Ready(exact, x, caps, cc, TermCaptures(t))
  }

  ghost predicate AlternativeReady(a: Alternative, cc: nat, exact: bool, x: set<int>, caps: seq<int>) {
    (exact ==> TameAlternative(a, cc)) && ((exact && x == {}) || PlainAlternative(a)) && Ready(exact, x, caps, cc, AlternativeCaptures(a))
  }

  ghost predicate DisjunctionReady(d: Disjunction, cc: nat, exact: bool, x: set<int>, caps: seq<int>) {
    (exact ==> TameDisjunction(d, cc)) && ((exact && x == {}) || PlainDisjunction(d)) && Ready(exact, x, caps, cc, DisjunctionCaptures(d))
  }

  /** What is proved of every term. */
  ghost predicate TermFollows(env: Env, t: Term, back: bool, cc: nat, o: Outcome, p: Outcome, exact: bool, x: set<int>) {
    Follow(Left(exact, x, TermFresh(t, cc)), 2 * cc, 2 * (cc + TermCaptures(t)), p.caps,
      TermOutcomes(env, t, back, cc, o), TermRepeats(env, t, back, cc, p))
  }

  ghost predicate AlternativeFollows(env: Env, a: Alternative, back: bool, cc: nat, o: Outcome, p: Outcome, exact: bool, x: set<int>) {
    Follow(Left(exact, x, AlternativeFresh(a, cc)), 2 * cc, 2 * (cc + AlternativeCaptures(a)), p.caps,
      AlternativeOutcomes(env, a, back, cc, o), AlternativeRepeats(env, a, back, cc, p))
  }

  ghost predicate DisjunctionFollows(env: Env, d: Disjunction, back: bool, cc: nat, o: Outcome, p: Outcome, exact: bool, x: set<int>) {
    Follow(Left(exact, x, DisjunctionFresh(d, cc)), 2 * cc, 2 * (cc + DisjunctionCaptures(d)), p.caps,
      DisjunctionOutcomes(env, d, back, cc, o), DisjunctionRepeats(env, d, back, cc, p))
  }

  lemma {:induction false} TermAgrees(env: Env, t: Term, back: bool, cc: nat, o: Outcome, p: Outcome, exact: bool, x: set<int>)
    requires TermReady(t, cc, exact, x, p.caps) && Alike(x, o, p)
    ensures TermFollows(env, t, back, cc, o, p, exact, x)
    decreases t, 0, 0, 0
  {
    hide *;
    if !InText(env, o.pos) {
      OutsideFollows(env, t, back, cc, o, p, exact, x);
    } else {
      match t
      case Group(d) =>
        GroupReady(d, cc, exact, x, p.caps);
        DisjunctionAgrees(env, d, back, cc, o, p, exact, x);
        GroupFollows(env, d, back, cc, o, p, exact, x);
      case Capture(d) =>
        CaptureAgrees(env, d, back, cc, o, p, exact, x);
      case Look(neg, b, d) =>
        LookReady(neg, b, d, cc, exact, x, p.caps);
        DisjunctionAgrees(env, d, b, cc, o, p, exact, x);
        LookFollows(env, neg, b, d, back, cc, o, p, exact, x);
      case Quantified(a, min, max, greedy) =>
        if min >= 0 {
          QuantifiedAgrees(env, a, min, max, greedy, back, cc, o, p, exact, x);
        } else {
          NegativeMin(env, a, min, max, greedy, back, cc, o, p, exact, x);
        }
      case _ =>
        SingleFollows(env, t, back, cc, o, p, exact, x);
    }
  }

  lemma OutsideFollows(env: Env, t: Term, back: bool, cc: nat, o: Outcome, p: Outcome, exact: bool, x: set<int>)
    requires !InText(env, o.pos) && Alike(x, o, p)
    ensures TermFollows(env, t, back, cc, o, p, exact, x)
  {
    hide TermFresh;
  }

  lemma SingleFollows(env: Env, t: Term, back: bool, cc: nat, o: Outcome, p: Outcome, exact: bool, x: set<int>)
    requires t.One? || t.LineStart? || t.LineEnd? || t.WordBoundary? || t.BackReference?
    requires TermReady(t, cc, exact, x, p.caps) && Alike(x, o, p)
    ensures TermFollows(env, t, back, cc, o, p, exact, x)
  {
    hide CharAt, PrevCharAt, NextPos, PrevPos, TestAccepts, AtLineStart, AtLineEnd, AtWordBoundary, BackReferenceEnd;
    assert TermFresh(t, cc) == {} && Left(exact, x, {}) == x;
    if t.BackReference? {
      assert o.caps == p.caps;
    }
  }

  lemma GroupReady(d: Disjunction, cc: nat, exact: bool, x: set<int>, caps: seq<int>)
    requires TermReady(Group(d), cc, exact, x, caps)
    ensures DisjunctionReady(d, cc, exact, x, caps)
  {
    hide Ready, TameDisjunction, PlainDisjunction, DisjunctionCaptures;
  }

  lemma GroupFollows(env: Env, d: Disjunction, back: bool, cc: nat, o: Outcome, p: Outcome, exact: bool, x: set<int>)
    requires InText(env, o.pos) && Alike(x, o, p) && DisjunctionFollows(env, d, back, cc, o, p, exact, x)
    ensures TermFollows(env, Group(d), back, cc, o, p, exact, x)
  {
    hide Follow, Left, DisjunctionOutcomes, DisjunctionRepeats, DisjunctionCaptures, DisjunctionFresh;
  }

  lemma LookReady(neg: bool, b: bool, d: Disjunction, cc: nat, exact: bool, x: set<int>, caps: seq<int>)
    requires TermReady(Look(neg, b, d), cc, exact, x, caps)
    ensures DisjunctionReady(d, cc, exact, x, caps)
  {
    hide Ready, TameDisjunction, PlainDisjunction, DisjunctionCaptures;
  }

  lemma LookFollows(env: Env, neg: bool, b: bool, d: Disjunction, back: bool, cc: nat, o: Outcome, p: Outcome, exact: bool, x: set<int>)
    requires InText(env, o.pos) && Alike(x, o, p) && DisjunctionFollows(env, d, b, cc, o, p, exact, x)
    ensures TermFollows(env, Look(neg, b, d), back, cc, o, p, exact, x)
  {
    hide Left, DisjunctionOutcomes, DisjunctionRepeats, DisjunctionCaptures, DisjunctionFresh;
    var outs, reps := DisjunctionOutcomes(env, d, b, cc, o), DisjunctionRepeats(env, d, b, cc, p);
    if reps != [] {
      assert Alike(Left(exact, x, DisjunctionFresh(d, cc)), outs[0], reps[0]);
    }
    NothingFresh(exact, x);
  }

  lemma NothingFresh(exact: bool, x: set<int>)
    ensures Left(exact, x, {}) == x
  {
  }

  lemma {:induction false} CaptureAgrees(env: Env, d: Disjunction, back: bool, cc: nat, o: Outcome, p: Outcome, exact: bool, x: set<int>)
    requires TermReady(Capture(d), cc, exact, x, p.caps) && Alike(x, o, p) && InText(env, o.pos)
    ensures TermFollows(env, Capture(d), back, cc, o, p, exact, x)
    decreases Capture(d), 0, 0, -1
  {
    hide *;
    var start, finish := 2 * cc + (if back then 1 else 0), 2 * cc + (if back then 0 else 1);
    var o1, p1 := o.(caps := SetCapture(o.caps, start, o.pos)), p.(caps := SetCapture(p.caps, start, p.pos));
    var y := Left(exact, x, {start});
    OpenedReady(d, cc, o, p, exact, x, start);
    DisjunctionAgrees(env, d, back, cc + 1, o1, p1, exact, y);
    ClosedFollows(env, d, back, cc, o, p, exact, x, start, finish);
  }

  /** Behind the start of a group. */
  lemma OpenedReady(d: Disjunction, cc: nat, o: Outcome, p: Outcome, exact: bool, x: set<int>, start: nat)
    requires TermReady(Capture(d), cc, exact, x, p.caps) && Alike(x, o, p) && 2 * cc <= start <= 2 * cc + 1
    ensures DisjunctionReady(d, cc + 1, exact, Left(exact, x, {start}), SetCapture(p.caps, start, p.pos))
    ensures Alike(Left(exact, x, {start}), o.(caps := SetCapture(o.caps, start, o.pos)), p.(caps := SetCapture(p.caps, start, p.pos)))
  {
    hide TameDisjunction, PlainDisjunction, DisjunctionCaptures;
  }

  lemma ClosedFollows(env: Env, d: Disjunction, back: bool, cc: nat, o: Outcome, p: Outcome, exact: bool, x: set<int>, start: nat, finish: nat)
    requires InText(env, o.pos) && Alike(x, o, p)
    requires start == 2 * cc + (if back then 1 else 0) && finish == 2 * cc + (if back then 0 else 1)
    requires DisjunctionFollows(env, d, back, cc + 1, o.(caps := SetCapture(o.caps, start, o.pos)),
      p.(caps := SetCapture(p.caps, start, p.pos)), exact, Left(exact, x, {start}))
    ensures TermFollows(env, Capture(d), back, cc, o, p, exact, x)
  {
    hide DisjunctionOutcomes, DisjunctionRepeats, DisjunctionCaptures, DisjunctionFresh, CloseCapture, SetCapture, Follow, Left;
    var o1, p1 := o.(caps := SetCapture(o.caps, start, o.pos)), p.(caps := SetCapture(p.caps, start, p.pos));
    var outs, reps := DisjunctionOutcomes(env, d, back, cc + 1, o1), DisjunctionRepeats(env, d, back, cc + 1, p1);
    var hi := 2 * (cc + 1 + DisjunctionCaptures(d));
    CloseFollow(exact, x, DisjunctionFresh(d, cc + 1), 2 * cc, hi, p.caps, start, p.pos, finish, outs, reps);
    assert {start, finish} == {2 * cc, 2 * cc + 1};
  }

  lemma CloseFollow(exact: bool, x: set<int>, overwritten: set<int>, lo: nat, hi: int, caps: seq<int>, start: nat, pos: int, finish: nat,
        outs: Outcomes, reps: Outcomes)
    requires lo <= start < lo + 2 <= hi && lo <= finish < lo + 2
    requires Follow(Left(exact, Left(exact, x, {start}), overwritten), lo + 2, hi, SetCapture(caps, start, pos), outs, reps)
    ensures Follow(Left(exact, x, {start, finish} + overwritten), lo, hi, caps, CloseCapture(outs, finish), CloseCapture(reps, finish))
  {
    hide Framed, SameOutside, CloseCapture;
    FramedWider(lo, hi, lo + 2, hi, SetCapture(caps, start, pos), reps);
    CloseFramed(lo, hi, caps, reps, start, pos, finish);
    var y := Left(exact, Left(exact, x, {start}), overwritten);
    forall i | 0 <= i < |outs|
      ensures Alike(Left(exact, x, {start, finish} + overwritten), CloseCapture(outs, finish)[i], CloseCapture(reps, finish)[i])
    {
      assert Alike(y, outs[i], reps[i]);
    }
  }

  lemma NegativeMin(env: Env, a: Term, min: int, max: int, greedy: bool, back: bool, cc: nat, o: Outcome, p: Outcome, exact: bool, x: set<int>)
    requires min < 0 && InText(env, o.pos) && Alike(x, o, p)
    ensures TermFollows(env, Quantified(a, min, max, greedy), back, cc, o, p, exact, x)
  {
    hide TermFresh;
  }

  // --- iterations ---

  /** Another pass of an atom; `once` if no pass went before it and none follows. */
  ghost predicate PassReady(a: Term, cc: nat, exact: bool, x: set<int>, caps: seq<int>, once: bool) {
    (exact ==> TameTerm(a, cc) && (Repeatable(a, cc) || (once && Unset(caps, cc, TermCaptures(a))))) &&
    ((exact && x == {}) || PlainTerm(a)) && (!exact ==> Groups(cc, TermCaptures(a)) <= x)
  }

  /** The second matcher starts a pass with cleared captures, the first one with any. */
  lemma PassStart(a: Term, cc: nat, o: Outcome, p: Outcome, exact: bool, x: set<int>, once: bool) returns (y: set<int>)
    requires PassReady(a, cc, exact, x, p.caps, once) && Alike(x, o, p)
    ensures TermReady(a, cc, exact, y, Reset(a, cc, p).caps) && Alike(y, o, Reset(a, cc, p))
    ensures Left(exact, y, TermFresh(a, cc)) <= Left(exact, x, TermFresh(a, cc))
    ensures SameOutside(2 * cc, 2 * (cc + TermCaptures(a)), p.caps, Reset(a, cc, p).caps)
  {
    hide TameTerm, PlainTerm, TermCaptures, TermFresh;
    y := if exact && Repeatable(a, cc) then x + Groups(cc, TermCaptures(a)) else x;
    if exact && TermCaptures(a) == 0 {
      assert y == x;
    }
  }

  lemma {:induction false} PassAgrees(env: Env, a: Term, back: bool, cc: nat, o: Outcome, p: Outcome, exact: bool, x: set<int>, once: bool)
    requires PassReady(a, cc, exact, x, p.caps, once) && Alike(x, o, p)
    ensures Follow(Left(exact, x, TermFresh(a, cc)), 2 * cc, 2 * (cc + TermCaptures(a)), p.caps,
              TermOutcomes(env, a, back, cc, o), TermRepeats(env, a, back, cc, Reset(a, cc, p)))
    decreases a, 0, 0, 1
  {
    hide *;
    var p1 := Reset(a, cc, p);
    var y := PassStart(a, cc, o, p, exact, x, once);
    TermAgrees(env, a, back, cc, o, p1, exact, y);
    PassFollows(env, a, back, cc, o, p, p1, exact, x, y);
  }

  lemma PassFollows(env: Env, a: Term, back: bool, cc: nat, o: Outcome, p: Outcome, p1: Outcome, exact: bool, x: set<int>, y: set<int>)
    requires TermFollows(env, a, back, cc, o, p1, exact, y)
    requires Left(exact, y, TermFresh(a, cc)) <= Left(exact, x, TermFresh(a, cc))
    requires SameOutside(2 * cc, 2 * (cc + TermCaptures(a)), p.caps, p1.caps)
    ensures Follow(Left(exact, x, TermFresh(a, cc)), 2 * cc, 2 * (cc + TermCaptures(a)), p.caps,
              TermOutcomes(env, a, back, cc, o), TermRepeats(env, a, back, cc, p1))
  {
    hide Left, TermFresh, TermCaptures, TermOutcomes, TermRepeats, SameOutside, Framed, Alike;
    var lo, hi := 2 * cc, 2 * (cc + TermCaptures(a));
    var outs, reps := TermOutcomes(env, a, back, cc, o), TermRepeats(env, a, back, cc, p1);
    FollowWider(Left(exact, y, TermFresh(a, cc)), Left(exact, x, TermFresh(a, cc)), lo, hi, lo, hi, p1.caps, outs, reps);
    FramedTrans(lo, hi, p.caps, p1.caps, reps);
  }

  /** After a pass that may be repeated, another one may follow. */
  lemma NextPass(a: Term, cc: nat, exact: bool, x: set<int>, y: set<int>, caps: seq<int>, caps1: seq<int>, once: bool)
    requires PassReady(a, cc, exact, x, caps, false) && (if exact then y <= x else x <= y)
    ensures PassReady(a, cc, exact, y, caps1, once)
  {
    hide TameTerm, PlainTerm, TermCaptures, TermFresh;
  }

  lemma LeftTwice(exact: bool, x: set<int>, w: set<int>)
    ensures Left(exact, Left(exact, x, w), w) == Left(exact, x, w) <= x
    ensures !exact ==> Left(exact, x, w) == x
  {
  }

  lemma FollowAt(x: set<int>, lo: int, hi: int, caps: seq<int>, outs: Outcomes, reps: Outcomes, i: nat)
    requires Follow(x, lo, hi, caps, outs, reps) && i < |outs|
    ensures |outs| == |reps| && Alike(x, outs[i], reps[i]) && outs[i].pos == reps[i].pos && SameOutside(lo, hi, caps, reps[i].caps)
  {
  }

  lemma FollowParts(x: set<int>, lo: int, hi: int, caps: seq<int>, outs: Outcomes, reps: Outcomes)
    requires Follow(x, lo, hi, caps, outs, reps)
    ensures |outs| == |reps| && Framed(lo, hi, caps, reps)
  {
  }

  lemma WiderAlike(x: set<int>, y: set<int>, o: Outcome, p: Outcome)
    requires Alike(x, o, p) && x <= y
    ensures Alike(y, o, p)
  {
  }

  lemma {:induction false} MandatoryRepeatsStep(env: Env, a: Term, k: nat, back: bool, cc: nat, o: Outcome)
    ensures MandatoryRepeats(env, a, k + 1, back, cc, o) ==
      Flatten(MandatoryRepeatsEach(env, a, k, back, cc, TermRepeats(env, a, back, cc, Reset(a, cc, o))))
  {
    hide Reset;
  }

  lemma {:induction false} NoneMandatory(env: Env, a: Term, back: bool, cc: nat, o: Outcome)
    ensures MandatoryRepeats(env, a, 0, back, cc, o) == [o]
  {
  }

  lemma {:induction false} MandatoryAgrees(env: Env, a: Term, k: nat, back: bool, cc: nat, o: Outcome, p: Outcome, exact: bool, x: set<int>)
    requires Alike(x, o, p) && (k > 0 ==> PassReady(a, cc, exact, x, p.caps, k == 1))
    ensures Follow(if k > 0 then Left(exact, x, TermFresh(a, cc)) else x, 2 * cc, 2 * (cc + TermCaptures(a)), p.caps,
              Mandatory(env, a, k, back, cc, o), MandatoryRepeats(env, a, k, back, cc, p))
    decreases a, 1, k, 0
  {
    hide *;
    var lo, hi := 2 * cc, 2 * (cc + TermCaptures(a));
    if k == 0 {
      FollowOne(x, lo, hi, o, p);
      MandatoryNone(env, a, back, cc, o);
      NoneMandatory(env, a, back, cc, p);
    } else {
      var w := TermFresh(a, cc);
      var z := Left(exact, x, w);
      LeftTwice(exact, x, w);
      PassAgrees(env, a, back, cc, o, p, exact, x, k == 1);
      var outs, reps := TermOutcomes(env, a, back, cc, o), TermRepeats(env, a, back, cc, Reset(a, cc, p));
      var fs, gs := MandatoryEach(env, a, k - 1, back, cc, outs), MandatoryRepeatsEach(env, a, k - 1, back, cc, reps);
      FollowParts(z, lo, hi, p.caps, outs, reps);
      forall i | 0 <= i < |outs| ensures Follow(z, lo, hi, reps[i].caps, fs[i], gs[i]) {
        FollowAt(z, lo, hi, p.caps, outs, reps, i);
        if k > 1 { NextPass(a, cc, exact, x, z, p.caps, reps[i].caps, k - 1 == 1); }
        MandatoryAgrees(env, a, k - 1, back, cc, outs[i], reps[i], exact, z);
      }
      BindFollow(z, lo, hi, p.caps, reps, fs, gs);
      MandatoryStep(env, a, k - 1, back, cc, o);
      MandatoryRepeatsStep(env, a, k - 1, back, cc, p);
    }
  }

  lemma {:induction false} OptionalRepeatsStep(env: Env, a: Term, m: int, greedy: bool, back: bool, cc: nat, o: Outcome)
    requires m > 0
    ensures var more := Flatten(OptionalRepeatsEach(env, a, Fewer(m), greedy, back, cc, o, TermRepeats(env, a, back, cc, Reset(a, cc, o))));
      OptionalRepeats(env, a, m, greedy, back, cc, o) == if greedy then more + [o] else [o] + more
  {
    hide Reset;
  }

  lemma {:induction false} OptionalRepeatsStop(env: Env, a: Term, m: int, greedy: bool, back: bool, cc: nat, o: Outcome)
    requires m <= 0
    ensures OptionalRepeats(env, a, m, greedy, back, cc, o) == [o]
  {
  }

  lemma {:induction false} OptionalAgrees(env: Env, a: Term, m: int, greedy: bool, back: bool, cc: nat, o: Outcome, p: Outcome, exact: bool, x: set<int>)
    requires Alike(x, o, p) && (m > 0 ==> PassReady(a, cc, exact, x, p.caps, m == 1))
    ensures Follow(x, 2 * cc, 2 * (cc + TermCaptures(a)), p.caps,
              Optional(env, a, m, greedy, back, cc, o), OptionalRepeats(env, a, m, greedy, back, cc, p))
    decreases a, 1, Distance(env, back, o.pos), 0
  {
    hide *;
    if m > 0 {
      OneMoreAgrees(env, a, m, greedy, back, cc, o, p, exact, x);
    } else {
      FollowOne(x, 2 * cc, 2 * (cc + TermCaptures(a)), o, p);
      OptionalStop(env, a, m, greedy, back, cc, o);
      OptionalRepeatsStop(env, a, m, greedy, back, cc, p);
    }
  }

  lemma AdvancesLess(env: Env, back: bool, from: int, to: int)
    ensures Advances(env, back, from, to) ==> Distance(env, back, to) < Distance(env, back, from)
  {
  }

  lemma FewerReady(m: int)
    requires m > 0
    ensures Fewer(m) > 0 ==> m != 1
  {
  }

  lemma {:induction false} OneMoreAgrees(env: Env, a: Term, m: int, greedy: bool, back: bool, cc: nat, o: Outcome, p: Outcome, exact: bool, x: set<int>)
    requires m > 0 && Alike(x, o, p) && PassReady(a, cc, exact, x, p.caps, m == 1)
    ensures Follow(x, 2 * cc, 2 * (cc + TermCaptures(a)), p.caps,
              Optional(env, a, m, greedy, back, cc, o), OptionalRepeats(env, a, m, greedy, back, cc, p))
    decreases a, 1, Distance(env, back, o.pos), -1
  {
    hide *;
    var lo, hi := 2 * cc, 2 * (cc + TermCaptures(a));
    var z := Left(exact, x, TermFresh(a, cc));
    LeftTwice(exact, x, TermFresh(a, cc));
    PassAgrees(env, a, back, cc, o, p, exact, x, m == 1);
    SamePos(x, o, p);
    var outs, reps := TermOutcomes(env, a, back, cc, o), TermRepeats(env, a, back, cc, Reset(a, cc, p));
    var fs := OptionalEach(env, a, Fewer(m), greedy, back, cc, o, outs);
    var gs := OptionalRepeatsEach(env, a, Fewer(m), greedy, back, cc, p, reps);
    FollowParts(z, lo, hi, p.caps, outs, reps);
    FewerReady(m);
    forall i | 0 <= i < |outs| ensures Follow(x, lo, hi, reps[i].caps, fs[i], gs[i]) {
      FollowAt(z, lo, hi, p.caps, outs, reps, i);
      WiderAlike(z, x, outs[i], reps[i]);
      AdvancesLess(env, back, o.pos, outs[i].pos);
      if Advances(env, back, o.pos, outs[i].pos) {
        if Fewer(m) > 0 { NextPass(a, cc, exact, x, x, p.caps, reps[i].caps, Fewer(m) == 1); }
        OptionalAgrees(env, a, Fewer(m), greedy, back, cc, outs[i], reps[i], exact, x);
      } else {
        FollowNone(x, lo, hi, reps[i].caps);
      }
    }
    BindFollow(x, lo, hi, p.caps, reps, fs, gs);
    OptionalStep(env, a, m, greedy, back, cc, o);
    OptionalRepeatsStep(env, a, m, greedy, back, cc, p);
    FollowOne(x, lo, hi, o, p);
    FollowJoin(x, lo, hi, p.caps, Flatten(fs), Flatten(gs), [o], [p]);
    FollowJoin(x, lo, hi, p.caps, [o], [p], Flatten(fs), Flatten(gs));
  }

  lemma SamePos(x: set<int>, o: Outcome, p: Outcome)
    requires Alike(x, o, p)
    ensures o.pos == p.pos
  {
  }

  /** Before the first pass. */
  lemma QuantifiedStart(a: Term, min: nat, max: int, greedy: bool, cc: nat, o: Outcome, p: Outcome, exact: bool, x: set<int>)
    requires TermReady(Quantified(a, min, max, greedy), cc, exact, x, p.caps) && Alike(x, o, p)
    ensures TermFresh(Quantified(a, min, max, greedy), cc) == if min == 0 then Groups(cc, TermCaptures(a)) else TermFresh(a, cc)
    ensures min == 0 ==> Alike(Left(exact, x, Groups(cc, TermCaptures(a))), Reset(a, cc, o), p)
    ensures min == 0 && Further(min, max) > 0 ==>
      PassReady(a, cc, exact, Left(exact, x, Groups(cc, TermCaptures(a))), p.caps, Further(min, max) == 1)
    ensures min > 0 ==> PassReady(a, cc, exact, x, p.caps, min == 1)
    ensures min > 0 && Further(min, max) > 0 ==> PassReady(a, cc, exact, x, p.caps, false)
  {
    hide TameTerm, PlainTerm, TermCaptures, TermFresh, Repeatable;
    QuantifierParts(a, min, max, greedy, cc);
  }

  lemma QuantifierParts(a: Term, min: nat, max: int, greedy: bool, cc: nat)
    ensures var t := Quantified(a, min, max, greedy);
      TermCaptures(t) == TermCaptures(a) && PlainTerm(t) == PlainTerm(a) &&
      TermFresh(t, cc) == (if min == 0 then Groups(cc, TermCaptures(a)) else TermFresh(a, cc)) &&
      (TameTerm(t, cc) <==> TameTerm(a, cc) && (Repeatable(a, cc) || (min <= 1 && max <= 1)))
  {
  }

  lemma {:induction false} QuantifiedRepeats(env: Env, a: Term, min: nat, max: int, greedy: bool, back: bool, cc: nat, o: Outcome)
    requires InText(env, o.pos)
    ensures TermRepeats(env, Quantified(a, min, max, greedy), back, cc, o) ==
      Flatten(FurtherRepeats(env, a, Further(min, max), greedy, back, cc, MandatoryRepeats(env, a, min, back, cc, o)))
  {
  }

  lemma {:induction false} QuantifiedAgrees(env: Env, a: Term, min: nat, max: int, greedy: bool, back: bool, cc: nat, o: Outcome, p: Outcome,
        exact: bool, x: set<int>)
    requires TermReady(Quantified(a, min, max, greedy), cc, exact, x, p.caps) && Alike(x, o, p) && InText(env, o.pos)
    ensures TermFollows(env, Quantified(a, min, max, greedy), back, cc, o, p, exact, x)
    decreases a, 2, 0, 0
  {
    hide *;
    var lo, hi := 2 * cc, 2 * (cc + TermCaptures(a));
    QuantifiedStart(a, min, max, greedy, cc, o, p, exact, x);
    var o1 := if min == 0 then Reset(a, cc, o) else o;
    var w := if min == 0 then Groups(cc, TermCaptures(a)) else TermFresh(a, cc);
    var z := Left(exact, x, w);
    LeftTwice(exact, x, w);
    var m := Further(min, max);
    MandatoryAgrees(env, a, min, back, cc, o1, p, exact, if min == 0 then z else x);
    var outs, reps := Mandatory(env, a, min, back, cc, o1), MandatoryRepeats(env, a, min, back, cc, p);
    var fs, gs := AfterMandatory(env, a, min, max, greedy, back, cc, outs), FurtherRepeats(env, a, m, greedy, back, cc, reps);
    if min == 0 { NoneMandatory(env, a, back, cc, p); }
    FollowParts(z, lo, hi, p.caps, outs, reps);
    forall i | 0 <= i < |outs| ensures Follow(z, lo, hi, reps[i].caps, fs[i], gs[i]) {
      FollowAt(z, lo, hi, p.caps, outs, reps, i);
      if min > 0 && m > 0 { NextPass(a, cc, exact, x, z, p.caps, reps[i].caps, m == 1); }
      OptionalAgrees(env, a, m, greedy, back, cc, outs[i], reps[i], exact, z);
    }
    BindFollow(z, lo, hi, p.caps, reps, fs, gs);
    SamePos(x, o, p);
    QuantifiedParts(env, a, min, max, greedy, back, cc, o);
    QuantifiedRepeats(env, a, min, max, greedy, back, cc, p);
    QuantifiedFollows(env, a, min, max, greedy, back, cc, o, p, exact, x);
  }

  lemma QuantifiedFollows(env: Env, a: Term, min: nat, max: int, greedy: bool, back: bool, cc: nat, o: Outcome, p: Outcome, exact: bool, x: set<int>)
    requires var t := Quantified(a, min, max, greedy);
      Follow(Left(exact, x, TermFresh(t, cc)), 2 * cc, 2 * (cc + TermCaptures(a)), p.caps,
        TermOutcomes(env, t, back, cc, o), TermRepeats(env, t, back, cc, p))
    ensures TermFollows(env, Quantified(a, min, max, greedy), back, cc, o, p, exact, x)
  {
    hide Follow, Left, TermFresh, TermOutcomes, TermRepeats;
  }

  // --- sequences and alternatives ---

  lemma {:induction false} ThenRepeatsForward(env: Env, init: Alternative, last: Term, cc: nat, o: Outcome)
    ensures AlternativeRepeats(env, Then(init, last), false, cc, o) ==
      Flatten(TermRepeatsEach(env, last, false, cc + AlternativeCaptures(init), AlternativeRepeats(env, init, false, cc, o)))
  {
    hide Flatten, TermRepeatsEach, TermRepeats, InText;
  }

  lemma {:induction false} ThenRepeatsBackward(env: Env, init: Alternative, last: Term, cc: nat, o: Outcome)
    ensures AlternativeRepeats(env, Then(init, last), true, cc, o) ==
      Flatten(AlternativeRepeatsEach(env, init, true, cc, TermRepeats(env, last, true, cc + AlternativeCaptures(init), o)))
  {
    hide Flatten, AlternativeRepeatsEach, TermRepeats, InText;
  }

  lemma {:induction false} AlternativeAgrees(env: Env, a: Alternative, back: bool, cc: nat, o: Outcome, p: Outcome, exact: bool, x: set<int>)
    requires AlternativeReady(a, cc, exact, x, p.caps) && Alike(x, o, p)
    ensures AlternativeFollows(env, a, back, cc, o, p, exact, x)
    decreases a, 0, 0, 0
  {
    hide *;
    match a
    case Empty =>
      EmptyFollows(env, back, cc, o, p, exact, x);
    case Then(init, last) =>
      if back {
        BackwardAgrees(env, init, last, cc, o, p, exact, x);
      } else {
        ForwardAgrees(env, init, last, cc, o, p, exact, x);
      }
  }

  lemma EmptyFollows(env: Env, back: bool, cc: nat, o: Outcome, p: Outcome, exact: bool, x: set<int>)
    requires Alike(x, o, p)
    ensures AlternativeFollows(env, Empty, back, cc, o, p, exact, x)
  {
    NothingFresh(exact, x);
  }

  /** The parts of an alternative, and what the one that runs first leaves to the other. */
  lemma ThenReady(init: Alternative, last: Term, cc: nat, exact: bool, x: set<int>, caps: seq<int>)
    requires AlternativeReady(Then(init, last), cc, exact, x, caps)
    ensures AlternativeReady(init, cc, exact, x, caps) && TermReady(last, cc + AlternativeCaptures(init), exact, x, caps)
  {
    hide TameAlternative, TameTerm, PlainAlternative, PlainTerm, AlternativeCaptures, TermCaptures;
    ThenParts(init, last, cc);
  }

  lemma ThenParts(init: Alternative, last: Term, cc: nat)
    ensures var a := Then(init, last); var mid := cc + AlternativeCaptures(init);
      AlternativeCaptures(a) == AlternativeCaptures(init) + TermCaptures(last) &&
      (PlainAlternative(a) <==> PlainAlternative(init) && PlainTerm(last)) &&
      (TameAlternative(a, cc) <==> TameAlternative(init, cc) && TameTerm(last, mid)) &&
      AlternativeFresh(a, cc) == AlternativeFresh(init, cc) + TermFresh(last, mid)
  {
  }

  lemma TermStays(t: Term, cc: nat, exact: bool, x: set<int>, w: set<int>, caps: seq<int>, caps1: seq<int>, lo: int, hi: int)
    requires TermReady(t, cc, exact, x, caps) && SameOutside(lo, hi, caps, caps1)
    requires hi <= 2 * cc || 2 * (cc + TermCaptures(t)) <= lo
    ensures TermReady(t, cc, exact, Left(exact, x, w), caps1)
  {
    hide TameTerm, PlainTerm, TermCaptures;
  }

  lemma AlternativeStays(a: Alternative, cc: nat, exact: bool, x: set<int>, w: set<int>, caps: seq<int>, caps1: seq<int>, lo: int, hi: int)
    requires AlternativeReady(a, cc, exact, x, caps) && SameOutside(lo, hi, caps, caps1)
    requires hi <= 2 * cc || 2 * (cc + AlternativeCaptures(a)) <= lo
    ensures AlternativeReady(a, cc, exact, Left(exact, x, w), caps1)
  {
    hide TameAlternative, PlainAlternative, AlternativeCaptures;
  }

  lemma LeftBoth(exact: bool, x: set<int>, v: set<int>, w: set<int>)
    ensures Left(exact, Left(exact, x, v), w) == Left(exact, x, v + w) == Left(exact, Left(exact, x, w), v)
  {
  }

  lemma TermFollowing(env: Env, t: Term, back: bool, cc: nat, o: Outcome, p: Outcome, exact: bool, x: set<int>)
    requires TermFollows(env, t, back, cc, o, p, exact, x)
    ensures Follow(Left(exact, x, TermFresh(t, cc)), 2 * cc, 2 * (cc + TermCaptures(t)), p.caps,
      TermOutcomes(env, t, back, cc, o), TermRepeats(env, t, back, cc, p))
  {
  }

  lemma AlternativeFollowing(env: Env, a: Alternative, back: bool, cc: nat, o: Outcome, p: Outcome, exact: bool, x: set<int>)
    requires AlternativeFollows(env, a, back, cc, o, p, exact, x)
    ensures Follow(Left(exact, x, AlternativeFresh(a, cc)), 2 * cc, 2 * (cc + AlternativeCaptures(a)), p.caps,
      AlternativeOutcomes(env, a, back, cc, o), AlternativeRepeats(env, a, back, cc, p))
  {
  }

  lemma ThenFollows(env: Env, a: Alternative, back: bool, cc: nat, o: Outcome, p: Outcome, exact: bool, x: set<int>)
    requires Follow(Left(exact, x, AlternativeFresh(a, cc)), 2 * cc, 2 * (cc + AlternativeCaptures(a)), p.caps,
      AlternativeOutcomes(env, a, back, cc, o), AlternativeRepeats(env, a, back, cc, p))
    ensures AlternativeFollows(env, a, back, cc, o, p, exact, x)
  {
  }

  lemma {:induction false} ForwardAgrees(env: Env, init: Alternative, last: Term, cc: nat, o: Outcome, p: Outcome, exact: bool, x: set<int>)
    requires AlternativeReady(Then(init, last), cc, exact, x, p.caps) && Alike(x, o, p)
    ensures AlternativeFollows(env, Then(init, last), false, cc, o, p, exact, x)
    decreases Then(init, last), 0, 0, -1
  {
    hide *;
    var mid := cc + AlternativeCaptures(init);
    var lo, hi := 2 * cc, 2 * (cc + AlternativeCaptures(Then(init, last)));
    ThenParts(init, last, cc);
    ThenReady(init, last, cc, exact, x, p.caps);
    var v, w := AlternativeFresh(init, cc), TermFresh(last, mid);
    var y, z := Left(exact, x, v), Left(exact, x, v + w);
    LeftBoth(exact, x, v, w);
    AlternativeAgrees(env, init, false, cc, o, p, exact, x);
    AlternativeFollowing(env, init, false, cc, o, p, exact, x);
    var outs, reps := AlternativeOutcomes(env, init, false, cc, o), AlternativeRepeats(env, init, false, cc, p);
    FollowParts(y, lo, 2 * mid, p.caps, outs, reps);
    FramedWider(lo, hi, lo, 2 * mid, p.caps, reps);
    var fs, gs := TermEach(env, last, false, mid, outs), TermRepeatsEach(env, last, false, mid, reps);
    forall i | 0 <= i < |outs| ensures Follow(z, lo, hi, reps[i].caps, fs[i], gs[i]) {
      FollowAt(y, lo, 2 * mid, p.caps, outs, reps, i);
      TermStays(last, mid, exact, x, v, p.caps, reps[i].caps, lo, 2 * mid);
      TermAgrees(env, last, false, mid, outs[i], reps[i], exact, y);
      TermFollowing(env, last, false, mid, outs[i], reps[i], exact, y);
      FollowWider(Left(exact, y, w), z, lo, hi, 2 * mid, hi, reps[i].caps, fs[i], gs[i]);
    }
    BindFollow(z, lo, hi, p.caps, reps, fs, gs);
    ThenForward(env, init, last, cc, o);
    ThenRepeatsForward(env, init, last, cc, p);
    ThenFollows(env, Then(init, last), false, cc, o, p, exact, x);
  }

  lemma {:induction false} BackwardAgrees(env: Env, init: Alternative, last: Term, cc: nat, o: Outcome, p: Outcome, exact: bool, x: set<int>)
    requires AlternativeReady(Then(init, last), cc, exact, x, p.caps) && Alike(x, o, p)
    ensures AlternativeFollows(env, Then(init, last), true, cc, o, p, exact, x)
    decreases Then(init, last), 0, 0, -1
  {
    hide *;
    var mid := cc + AlternativeCaptures(init);
    var lo, hi := 2 * cc, 2 * (cc + AlternativeCaptures(Then(init, last)));
    ThenParts(init, last, cc);
    ThenReady(init, last, cc, exact, x, p.caps);
    var v, w := AlternativeFresh(init, cc), TermFresh(last, mid);
    var y, z := Left(exact, x, w), Left(exact, x, v + w);
    LeftBoth(exact, x, v, w);
    TermAgrees(env, last, true, mid, o, p, exact, x);
    TermFollowing(env, last, true, mid, o, p, exact, x);
    var outs, reps := TermOutcomes(env, last, true, mid, o), TermRepeats(env, last, true, mid, p);
    FollowParts(y, 2 * mid, hi, p.caps, outs, reps);
    FramedWider(lo, hi, 2 * mid, hi, p.caps, reps);
    var fs, gs := AlternativeEach(env, init, true, cc, outs), AlternativeRepeatsEach(env, init, true, cc, reps);
    forall i | 0 <= i < |outs| ensures Follow(z, lo, hi, reps[i].caps, fs[i], gs[i]) {
      FollowAt(y, 2 * mid, hi, p.caps, outs, reps, i);
      AlternativeStays(init, cc, exact, x, w, p.caps, reps[i].caps, 2 * mid, hi);
      AlternativeAgrees(env, init, true, cc, outs[i], reps[i], exact, y);
      AlternativeFollowing(env, init, true, cc, outs[i], reps[i], exact, y);
      FollowWider(Left(exact, y, v), z, lo, hi, lo, 2 * mid, reps[i].caps, fs[i], gs[i]);
    }
    BindFollow(z, lo, hi, p.caps, reps, fs, gs);
    ThenBackward(env, init, last, cc, o);
    ThenRepeatsBackward(env, init, last, cc, p);
    ThenFollows(env, Then(init, last), true, cc, o, p, exact, x);
  }

  lemma {:induction false} DisjunctionAgrees(env: Env, d: Disjunction, back: bool, cc: nat, o: Outcome, p: Outcome, exact: bool, x: set<int>)
    requires DisjunctionReady(d, cc, exact, x, p.caps) && Alike(x, o, p)
    ensures DisjunctionFollows(env, d, back, cc, o, p, exact, x)
    decreases d, 0, 0, 0
  {
    hide *;
    match d
    case Only(a) =>
      OnlyReady(a, cc, exact, x, p.caps);
      AlternativeAgrees(env, a, back, cc, o, p, exact, x);
      OnlyFollows(env, a, back, cc, o, p, exact, x);
    case Or(l, a) =>
      OrReady(l, a, cc, exact, x, p.caps);
      DisjunctionAgrees(env, l, back, cc, o, p, exact, x);
      AlternativeAgrees(env, a, back, cc + DisjunctionCaptures(l), o, p, exact, x);
      OrFollows(env, l, a, back, cc, o, p, exact, x);
  }

  lemma OnlyReady(a: Alternative, cc: nat, exact: bool, x: set<int>, caps: seq<int>)
    requires DisjunctionReady(Only(a), cc, exact, x, caps)
    ensures AlternativeReady(a, cc, exact, x, caps)
  {
    hide Ready, TameAlternative, PlainAlternative, AlternativeCaptures;
  }

  lemma OnlyFollows(env: Env, a: Alternative, back: bool, cc: nat, o: Outcome, p: Outcome, exact: bool, x: set<int>)
    requires AlternativeFollows(env, a, back, cc, o, p, exact, x)
    ensures DisjunctionFollows(env, Only(a), back, cc, o, p, exact, x)
  {
    hide Follow, Left, AlternativeOutcomes, AlternativeRepeats, AlternativeCaptures, AlternativeFresh;
  }

  lemma OrReady(l: Disjunction, a: Alternative, cc: nat, exact: bool, x: set<int>, caps: seq<int>)
    requires DisjunctionReady(Or(l, a), cc, exact, x, caps)
    ensures DisjunctionReady(l, cc, exact, x, caps) && AlternativeReady(a, cc + DisjunctionCaptures(l), exact, x, caps)
  {
    hide TameAlternative, PlainAlternative, AlternativeCaptures;
  }

  lemma OrFollows(env: Env, l: Disjunction, a: Alternative, back: bool, cc: nat, o: Outcome, p: Outcome, exact: bool, x: set<int>)
    requires DisjunctionFollows(env, l, back, cc, o, p, exact, x)
    requires AlternativeFollows(env, a, back, cc + DisjunctionCaptures(l), o, p, exact, x)
    ensures DisjunctionFollows(env, Or(l, a), back, cc, o, p, exact, x)
  {
    hide Follow, AlternativeOutcomes, AlternativeRepeats, AlternativeCaptures, AlternativeFresh;
    var mid := cc + DisjunctionCaptures(l);
    var lo, hi := 2 * cc, 2 * (cc + DisjunctionCaptures(Or(l, a)));
    var z := Left(exact, x, DisjunctionFresh(Or(l, a), cc));
    FollowWider(Left(exact, x, DisjunctionFresh(l, cc)), z, lo, hi, lo, 2 * mid, p.caps,
      DisjunctionOutcomes(env, l, back, cc, o), DisjunctionRepeats(env, l, back, cc, p));
    FollowWider(Left(exact, x, AlternativeFresh(a, mid)), z, lo, hi, 2 * mid, hi, p.caps,
      AlternativeOutcomes(env, a, back, mid, o), AlternativeRepeats(env, a, back, mid, p));
    FollowJoin(z, lo, hi, p.caps, DisjunctionOutcomes(env, l, back, cc, o), DisjunctionRepeats(env, l, back, cc, p),
      AlternativeOutcomes(env, a, back, mid, o), AlternativeRepeats(env, a, back, mid, p));
  }

  // --- whole programs ---

  ghost function MatchesRepeat(env: Env, d: Disjunction, p: int): Outcomes {
    TermRepeats(env, Capture(d), false, 0, Outcome(p, UnsetCaptures(env.captureCount)))
  }

  ghost function SearchRepeats(env: Env, d: Disjunction, p: int): Outcomes
    decreases Distance(env, false, p)
  {
    MatchesRepeat(env, d, p) +
    if 0 <= p < |env.input.units| then SearchRepeats(env, d, NextPos(env.input, p, |env.input.units|)) else []
  }

  /** `Verdict` with the captures cleared before every iteration. */
  ghost function VerdictRepeats(env: Env, d: Disjunction, sticky: bool, start: int): Outcomes {
    if sticky then MatchesRepeat(env, d, start) else SearchRepeats(env, d, start)
  }

  ghost predicate SameMatches(x: set<int>, env: Env, d: Disjunction, outs: Outcomes, reps: Outcomes) {
    Follow(x, 0, 2 * (1 + DisjunctionCaptures(d)), UnsetCaptures(env.captureCount), outs, reps)
  }

  lemma ExactMatches(env: Env, d: Disjunction, p: int)
    requires TameDisjunction(d, 1)
    ensures SameMatches({}, env, d, MatchesAt(env, d, p), MatchesRepeat(env, d, p))
  {
    hide TameDisjunction, PlainDisjunction, TermOutcomes, TermRepeats, Follow;
    var o := Outcome(p, UnsetCaptures(env.captureCount));
    TermAgrees(env, Capture(d), false, 0, o, o, true, {});
    assert Left(true, {}, TermFresh(Capture(d), 0)) == {};
  }

  lemma PlainMatches(env: Env, d: Disjunction, p: int)
    requires PlainDisjunction(d)
    ensures SameMatches(Groups(1, DisjunctionCaptures(d)), env, d, MatchesAt(env, d, p), MatchesRepeat(env, d, p))
  {
    hide PlainDisjunction, DisjunctionOutcomes, DisjunctionRepeats, Follow, SetCapture, CloseCapture, DisjunctionCaptures;
    var caps := UnsetCaptures(env.captureCount);
    var x := Groups(1, DisjunctionCaptures(d));
    if InText(env, p) {
      var o1 := Outcome(p, SetCapture(caps, 0, p));
      DisjunctionAgrees(env, d, false, 1, o1, o1, false, x);
      CloseFollow(false, x, DisjunctionFresh(d, 1), 0, 2 * (1 + DisjunctionCaptures(d)), caps, 0, p, 1,
        DisjunctionOutcomes(env, d, false, 1, o1), DisjunctionRepeats(env, d, false, 1, o1));
    } else {
      FollowNone(x, 0, 2 * (1 + DisjunctionCaptures(d)), caps);
    }
  }

  /** What holds at every position holds of the search. */
  lemma {:induction false} SearchAgrees(x: set<int>, env: Env, d: Disjunction, p: int)
    requires forall q :: SameMatches(x, env, d, MatchesAt(env, d, q), MatchesRepeat(env, d, q))
    ensures SameMatches(x, env, d, SearchFrom(env, d, p), SearchRepeats(env, d, p))
    decreases Distance(env, false, p)
  {
    hide Follow, MatchesAt, MatchesRepeat;
    var hi, caps := 2 * (1 + DisjunctionCaptures(d)), UnsetCaptures(env.captureCount);
    assert SameMatches(x, env, d, MatchesAt(env, d, p), MatchesRepeat(env, d, p));
    if 0 <= p < |env.input.units| {
      var q := NextPos(env.input, p, |env.input.units|);
      SearchAgrees(x, env, d, q);
      FollowJoin(x, 0, hi, caps, MatchesAt(env, d, p), MatchesRepeat(env, d, p), SearchFrom(env, d, q), SearchRepeats(env, d, q));
    } else {
      FollowNone(x, 0, hi, caps);
      FollowJoin(x, 0, hi, caps, MatchesAt(env, d, p), MatchesRepeat(env, d, p), [], []);
    }
  }

  /** Clearing the captures of an atom once is as good as clearing them before every iteration
      if no atom that is repeated can skip one of its groups or refer back: same matches, same
      captures, same order. */
  lemma ClearedOnce(env: Env, d: Disjunction, sticky: bool, start: int)
    requires TameDisjunction(d, 1)
    ensures Verdict(env, d, sticky, start) == VerdictRepeats(env, d, sticky, start)
  {
    hide TameDisjunction, MatchesAt, MatchesRepeat, SearchFrom, SearchRepeats, SameMatches;
    forall q ensures SameMatches({}, env, d, MatchesAt(env, d, q), MatchesRepeat(env, d, q)) {
      ExactMatches(env, d, q);
    }
    SearchAgrees({}, env, d, start);
    SameExactly(env, d, Verdict(env, d, sticky, start), VerdictRepeats(env, d, sticky, start));
  }

  lemma SameExactly(env: Env, d: Disjunction, outs: Outcomes, reps: Outcomes)
    requires SameMatches({}, env, d, outs, reps)
    ensures outs == reps
  {
    forall i | 0 <= i < |outs| ensures outs[i] == reps[i] {
      assert Alike({}, outs[i], reps[i]);
      assert outs[i].caps == reps[i].caps;
    }
  }

  /** Without back references, the matches are the same in any case: their ends and group 0;
      only the captures of other groups may differ. */
  lemma ClearedOnceSpans(env: Env, d: Disjunction, sticky: bool, start: int)
    requires PlainDisjunction(d)
    ensures var outs, reps := Verdict(env, d, sticky, start), VerdictRepeats(env, d, sticky, start);
      |outs| == |reps| &&
      forall i :: 0 <= i < |outs| ==>
        outs[i].pos == reps[i].pos && |outs[i].caps| == |reps[i].caps| &&
        forall k :: 0 <= k < |outs[i].caps| && k < 2 ==> outs[i].caps[k] == reps[i].caps[k]
  {
    hide PlainDisjunction, MatchesAt, MatchesRepeat, SearchFrom, SearchRepeats, SameMatches;
    var x := Groups(1, DisjunctionCaptures(d));
    forall q ensures SameMatches(x, env, d, MatchesAt(env, d, q), MatchesRepeat(env, d, q)) {
      PlainMatches(env, d, q);
    }
    SearchAgrees(x, env, d, start);
    SameSpans(env, d, Verdict(env, d, sticky, start), VerdictRepeats(env, d, sticky, start));
  }

  lemma SameSpans(env: Env, d: Disjunction, outs: Outcomes, reps: Outcomes)
    requires SameMatches(Groups(1, DisjunctionCaptures(d)), env, d, outs, reps)
    ensures |outs| == |reps|
    ensures forall i :: 0 <= i < |outs| ==>
        outs[i].pos == reps[i].pos && |outs[i].caps| == |reps[i].caps| &&
        forall k :: 0 <= k < |outs[i].caps| && k < 2 ==> outs[i].caps[k] == reps[i].caps[k]
  {
    forall i | 0 <= i < |outs|
      ensures outs[i].pos == reps[i].pos && |outs[i].caps| == |reps[i].caps| &&
        forall k :: 0 <= k < |outs[i].caps| && k < 2 ==> outs[i].caps[k] == reps[i].caps[k]
    {
      assert Alike(Groups(1, DisjunctionCaptures(d)), outs[i], reps[i]);
    }
  }

  // --- where it does make a difference ---

  function Single(t: Term): Alternative {
    Then(Empty, t)
  }

  /** (?:(a)|b) */
  function EitherAtom(): Term {
    Group(Or(Only(Single(Capture(Only(Single(One(Exactly(97))))))), Single(One(Exactly(98)))))
  }

  /** (?:(a)|b)* */
  function EitherRepeated(): Disjunction {
    Only(Single(Quantified(EitherAtom(), 0, INT32_MAX, true)))
  }

  const AB := Input([97, 98], false)

  lemma {:induction false} SingleOutcomes(env: Env, t: Term, cc: nat, o: Outcome)
    ensures AlternativeOutcomes(env, Single(t), false, cc, o) == TermOutcomes(env, t, false, cc, o)
    ensures AlternativeRepeats(env, Single(t), false, cc, o) == TermRepeats(env, t, false, cc, o)
  {
    hide TermOutcomes, TermRepeats;
    assert AlternativeOutcomes(env, Empty, false, cc, o) == [o] && AlternativeRepeats(env, Empty, false, cc, o) == [o];
    FlattenOne(TermOutcomes(env, t, false, cc, o));
    FlattenOne(TermRepeats(env, t, false, cc, o));
    assert TermEach(env, t, false, cc, [o]) == [TermOutcomes(env, t, false, cc, o)];
    assert TermRepeatsEach(env, t, false, cc, [o]) == [TermRepeats(env, t, false, cc, o)];
  }

  lemma FlattenOne(xs: Outcomes)
    ensures Flatten([xs]) == xs
  {
    assert [xs][1..] == [];
    assert xs + [] == xs;
  }

  lemma CharacterOutcomes(env: Env, c: int, o: Outcome)
    requires env.input == AB && !env.flags.ignoreCase && 0 <= o.pos <= 2
    ensures TermOutcomes(env, One(Exactly(c)), false, 1, o) == TermOutcomes(env, One(Exactly(c)), false, 2, o) ==
      TermRepeats(env, One(Exactly(c)), false, 1, o) == TermRepeats(env, One(Exactly(c)), false, 2, o) ==
      if o.pos < 2 && AB.units[o.pos] == c then [o.(pos := o.pos + 1)] else []
  {
  }

  lemma GroupOutcomes(env: Env, o: Outcome)
    requires env.input == AB && !env.flags.ignoreCase && 0 <= o.pos <= 2 && |o.caps| == 4
    ensures var t := Capture(Only(Single(One(Exactly(97)))));
      TermOutcomes(env, t, false, 1, o) == TermRepeats(env, t, false, 1, o) ==
      if o.pos == 0 then [Outcome(1, o.caps[2 := 0][3 := 1])] else []
  {
    hide AlternativeOutcomes, AlternativeRepeats, Single;
    var x := One(Exactly(97));
    var o1 := o.(caps := SetCapture(o.caps, 2, o.pos));
    CharacterOutcomes(env, 97, o1);
    SingleOutcomes(env, x, 2, o1);
    assert DisjunctionOutcomes(env, Only(Single(x)), false, 2, o1) == AlternativeOutcomes(env, Single(x), false, 2, o1);
    assert DisjunctionRepeats(env, Only(Single(x)), false, 2, o1) == AlternativeRepeats(env, Single(x), false, 2, o1);
  }

  /** The atom on "ab": at 0 it takes the a and sets group 1, at 1 it takes the b. */
  lemma EitherOutcomes(env: Env, o: Outcome)
    requires env.input == AB && !env.flags.ignoreCase && 0 <= o.pos <= 2 && |o.caps| == 4
    ensures TermOutcomes(env, EitherAtom(), false, 1, o) == TermRepeats(env, EitherAtom(), false, 1, o) ==
      if o.pos == 0 then [Outcome(1, o.caps[2 := 0][3 := 1])] else if o.pos == 1 then [o.(pos := 2)] else []
  {
    hide AlternativeOutcomes, AlternativeRepeats, Single;
    var g, b := Capture(Only(Single(One(Exactly(97))))), One(Exactly(98));
    var l := Only(Single(g));
    GroupOutcomes(env, o);
    CharacterOutcomes(env, 98, o);
    SingleOutcomes(env, g, 1, o);
    SingleOutcomes(env, b, 2, o);
    AtomCaptures();
    assert DisjunctionOutcomes(env, l, false, 1, o) == TermOutcomes(env, g, false, 1, o);
    assert DisjunctionRepeats(env, l, false, 1, o) == TermRepeats(env, g, false, 1, o);
    assert DisjunctionCaptures(l) == 1;
    assert DisjunctionOutcomes(env, Or(l, Single(b)), false, 1, o) ==
      TermOutcomes(env, g, false, 1, o) + TermOutcomes(env, b, false, 2, o);
    assert DisjunctionRepeats(env, Or(l, Single(b)), false, 1, o) ==
      TermRepeats(env, g, false, 1, o) + TermRepeats(env, b, false, 2, o);
  }

  lemma AtomCaptures()
    ensures AlternativeCaptures(Single(Capture(Only(Single(One(Exactly(97))))))) == 1
    ensures TermCaptures(EitherAtom()) == 1
  {
    assert AlternativeCaptures(Single(One(Exactly(97)))) == 0;
    assert AlternativeCaptures(Single(One(Exactly(98)))) == 0;
    assert DisjunctionCaptures(Only(Single(One(Exactly(97))))) == 0;
    assert TermCaptures(Capture(Only(Single(One(Exactly(97)))))) == 1;
  }

  /** One more pass with one outcome, whose own first outcome comes first. */
  lemma {:induction false} FirstOptional(env: Env, a: Term, o: Outcome, o1: Outcome)
    requires TermOutcomes(env, a, false, 1, o) == [o1] && Advances(env, false, o.pos, o1.pos)
    requires Optional(env, a, INT32_MAX, true, false, 1, o1) != []
    ensures var outs := Optional(env, a, INT32_MAX, true, false, 1, o);
      outs != [] && outs[0] == Optional(env, a, INT32_MAX, true, false, 1, o1)[0]
  {
    hide TermOutcomes, Optional, Advances;
    OptionalStep(env, a, INT32_MAX, true, false, 1, o);
    var next := Optional(env, a, INT32_MAX, true, false, 1, o1);
    assert OptionalEach(env, a, INT32_MAX, true, false, 1, o, [o1]) == [next];
    FlattenOne(next);
  }

  lemma {:induction false} NoOptional(env: Env, a: Term, o: Outcome)
    requires TermOutcomes(env, a, false, 1, o) == []
    ensures Optional(env, a, INT32_MAX, true, false, 1, o) == [o]
  {
    hide TermOutcomes, Optional, Advances;
    OptionalStep(env, a, INT32_MAX, true, false, 1, o);
    assert OptionalEach(env, a, INT32_MAX, true, false, 1, o, []) == [];
  }

  lemma {:induction false} FirstRepeats(env: Env, a: Term, o: Outcome, o1: Outcome)
    requires TermRepeats(env, a, false, 1, Reset(a, 1, o)) == [o1] && Advances(env, false, o.pos, o1.pos)
    requires OptionalRepeats(env, a, INT32_MAX, true, false, 1, o1) != []
    ensures var outs := OptionalRepeats(env, a, INT32_MAX, true, false, 1, o);
      outs != [] && outs[0] == OptionalRepeats(env, a, INT32_MAX, true, false, 1, o1)[0]
  {
    hide TermRepeats, OptionalRepeats, Advances, Reset;
    OptionalRepeatsStep(env, a, INT32_MAX, true, false, 1, o);
    var next := OptionalRepeats(env, a, INT32_MAX, true, false, 1, o1);
    assert OptionalRepeatsEach(env, a, INT32_MAX, true, false, 1, o, [o1]) == [next];
    FlattenOne(next);
  }

  lemma {:induction false} NoRepeats(env: Env, a: Term, o: Outcome)
    requires TermRepeats(env, a, false, 1, Reset(a, 1, o)) == []
    ensures OptionalRepeats(env, a, INT32_MAX, true, false, 1, o) == [o]
  {
    hide TermRepeats, OptionalRepeats, Advances, Reset;
    OptionalRepeatsStep(env, a, INT32_MAX, true, false, 1, o);
    assert OptionalRepeatsEach(env, a, INT32_MAX, true, false, 1, o, []) == [];
  }

  /** The outcomes of the star from captures without group 1. */
  lemma {:induction false} StarOutcomes(env: Env, a: Term, o: Outcome)
    requires InText(env, o.pos) && Reset(a, 1, o) == o
    ensures TermOutcomes(env, Quantified(a, 0, INT32_MAX, true), false, 1, o) == Optional(env, a, INT32_MAX, true, false, 1, o)
    ensures TermRepeats(env, Quantified(a, 0, INT32_MAX, true), false, 1, o) == OptionalRepeats(env, a, INT32_MAX, true, false, 1, o)
  {
    hide Optional, OptionalRepeats, TermOutcomes, TermRepeats, Reset, InText;
    QuantifiedParts(env, a, 0, INT32_MAX, true, false, 1, o);
    QuantifiedRepeats(env, a, 0, INT32_MAX, true, false, 1, o);
    MandatoryNone(env, a, false, 1, o);
    NoneMandatory(env, a, false, 1, o);
    var next, next1 := Optional(env, a, INT32_MAX, true, false, 1, o), OptionalRepeats(env, a, INT32_MAX, true, false, 1, o);
    assert AfterMandatory(env, a, 0, INT32_MAX, true, false, 1, [o]) == [next];
    assert FurtherRepeats(env, a, INT32_MAX, true, false, 1, [o]) == [next1];
    FlattenOne(next);
    FlattenOne(next1);
  }

  /** The first outcomes of the whole expression. */
  lemma WholeOutcomes(env: Env, t: Term, first: Outcome, first1: Outcome)
    requires env.input == AB && env.captureCount == 2 && |first.caps| == |first1.caps| == 4
    requires var o0 := Outcome(0, [0, -1, -1, -1]);
      var outs, reps := TermOutcomes(env, t, false, 1, o0), TermRepeats(env, t, false, 1, o0);
      outs != [] && outs[0] == first && reps != [] && reps[0] == first1
    ensures var outs, reps := Verdict(env, Only(Single(t)), true, 0), VerdictRepeats(env, Only(Single(t)), true, 0);
      outs != [] && reps != [] &&
      outs[0] == Outcome(first.pos, first.caps[1 := first.pos]) && reps[0] == Outcome(first1.pos, first1.caps[1 := first1.pos])
  {
    hide AlternativeOutcomes, AlternativeRepeats, Single;
    var o0 := Outcome(0, [0, -1, -1, -1]);
    assert SetCapture(UnsetCaptures(2), 0, 0) == o0.caps;
    SingleOutcomes(env, t, 1, o0);
    assert DisjunctionOutcomes(env, Only(Single(t)), false, 1, o0) == TermOutcomes(env, t, false, 1, o0);
    assert DisjunctionRepeats(env, Only(Single(t)), false, 1, o0) == TermRepeats(env, t, false, 1, o0);
  }

  /** The first iteration of (?:(a)|b)* on "ab" sets group 1, the second one does not. The code
      returns "a" for the group; cleared before every iteration, it stays unset. */
  lemma ClearedOnceDiffers(f: Flags)
    requires !f.ignoreCase
    ensures var env := Env(f, AB, 2);
      var outs, reps := Verdict(env, EitherRepeated(), true, 0), VerdictRepeats(env, EitherRepeated(), true, 0);
      outs != [] && reps != [] && outs[0] == Outcome(2, [0, 2, 0, 1]) && reps[0] == Outcome(2, [0, 2, -1, -1])
    ensures !TameDisjunction(EitherRepeated(), 1) && PlainDisjunction(EitherRepeated())
  {
    hide TermOutcomes, TermRepeats, Optional, OptionalRepeats, Reset, EitherAtom, Verdict, VerdictRepeats, Single,
      TameDisjunction, PlainDisjunction;
    var env, a := Env(f, AB, 2), EitherAtom();
    var o0, o1, o2 := Outcome(0, [0, -1, -1, -1]), Outcome(1, [0, -1, 0, 1]), Outcome(2, [0, -1, 0, 1]);
    var p1, p2 := Outcome(1, [0, -1, -1, -1]), Outcome(2, [0, -1, -1, -1]);
    GroupCleared(o0, o1, p1, p2);
    EitherOutcomes(env, o0);
    EitherOutcomes(env, o1);
    EitherOutcomes(env, o2);
    EitherOutcomes(env, p1);
    EitherOutcomes(env, p2);
    assert o0.caps[2 := 0][3 := 1] == o1.caps;
    NoOptional(env, a, o2);
    FirstOptional(env, a, o1, o2);
    FirstOptional(env, a, o0, o1);
    NoRepeats(env, a, p2);
    FirstRepeats(env, a, o1, p2);
    FirstRepeats(env, a, o0, o1);
    StarOutcomes(env, a, o0);
    WholeOutcomes(env, Quantified(a, 0, INT32_MAX, true), o2, p2);
    assert o2.caps[1 := 2] == [0, 2, 0, 1] && p2.caps[1 := 2] == [0, 2, -1, -1];
    NotTame();
  }

  lemma GroupCleared(o0: Outcome, o1: Outcome, p1: Outcome, p2: Outcome)
    requires o0 == Outcome(0, [0, -1, -1, -1]) && o1 == Outcome(1, [0, -1, 0, 1])
    requires p1 == Outcome(1, [0, -1, -1, -1]) && p2 == Outcome(2, [0, -1, -1, -1])
    ensures var a := EitherAtom(); Reset(a, 1, o0) == o0 && Reset(a, 1, o1) == p1 && Reset(a, 1, p2) == p2
  {
    hide EitherAtom;
    AtomCaptures();
    assert ResetCaptures(o0.caps, 1, 1) == o0.caps && ResetCaptures(o1.caps, 1, 1) == p1.caps && ResetCaptures(p2.caps, 1, 1) == p2.caps;
  }

  lemma NotTame()
    ensures !TameDisjunction(EitherRepeated(), 1) && PlainDisjunction(EitherRepeated())
  {
    hide TermFresh, PlainTerm, TameTerm, Single, TermCaptures, EitherAtom;
    EitherParts();
    var a := EitherAtom();
    assert 2 in Groups(1, 1);
    QuantifierParts(a, 0, INT32_MAX, true, 1);
    SingleParts(Quantified(a, 0, INT32_MAX, true));
  }

  lemma SingleParts(t: Term)
    ensures TameDisjunction(Only(Single(t)), 1) == TameTerm(t, 1) && PlainDisjunction(Only(Single(t))) == PlainTerm(t)
    ensures DisjunctionFresh(Only(Single(t)), 1) == TermFresh(t, 1)
  {
    hide TermFresh, PlainTerm, TameTerm;
    assert AlternativeCaptures(Empty) == 0 && AlternativeFresh(Empty, 1) == {} && TameAlternative(Empty, 1) && PlainAlternative(Empty);
    assert TameAlternative(Then(Empty, t), 1) == TameTerm(t, 1);
    assert PlainAlternative(Then(Empty, t)) == PlainTerm(t);
    assert AlternativeFresh(Then(Empty, t), 1) == {} + TermFresh(t, 1);
  }

  lemma EitherParts()
    ensures TermFresh(EitherAtom(), 1) == {} && PlainTerm(EitherAtom()) && TermCaptures(EitherAtom()) == 1
  {
    AtomCaptures();
    var g, b := Capture(Only(Single(One(Exactly(97))))), One(Exactly(98));
    assert PlainTerm(g) && PlainDisjunction(Only(Single(g)));
    assert AlternativeFresh(Single(b), 2) == {};
    hide TermCaptures;
    var l := Only(Single(g));
    assert DisjunctionFresh(Or(l, Single(b)), 1) == DisjunctionFresh(l, 1) * AlternativeFresh(Single(b), 1 + DisjunctionCaptures(l));
    assert DisjunctionCaptures(l) == 1;
  }
}
