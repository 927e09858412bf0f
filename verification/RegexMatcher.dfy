/** The reference semantics: a term maps a situation (cursor and captures) to the list of
    its outcomes in order of priority. No code, no stack, no jumps. */
module RegexMatcher {
  import opened Words
  import opened RegexInput
  import opened RegexTerm

  datatype Env = Env(flags: Flags, input: Input, captureCount: nat)

  /** A cursor position and the capture array: entries 2i and 2i+1 delimit group i, -1 is unset. */
  datatype Outcome = Outcome(pos: int, caps: seq<int>)

  type Outcomes = seq<Outcome>

  function Flatten(xs: seq<Outcomes>): Outcomes {
    if xs == [] then [] else xs[0] + Flatten(xs[1..])
  }

  /** What is left of the text in the direction of travel. */
  function Distance(env: Env, back: bool, pos: int): nat {
    if back then (if pos < 0 then 0 else pos)
    else if pos > |env.input.units| then 0 else |env.input.units| - pos
  }

  predicate Advances(env: Env, back: bool, from: int, to: int) {
    Distance(env, back, to) < Distance(env, back, from)
  }

  ghost predicate TestAccepts(f: Flags, x: CharTest, c: int) {
    match x
    case Exactly(e) => Canon(f, e) == Canon(f, c)
    case Points(pts) => InPoints(pts, Canon(f, c))
    case Dot => f.dotAll || !IsLineTerminator(c)
  }

  predicate InText(env: Env, pos: int) {
    0 <= pos <= |env.input.units|
  }

  predicate AtLineStart(env: Env, pos: int) {
    InText(env, pos) &&
    (pos == 0 || (env.flags.multiLine && IsLineTerminator(PrevCharAt(env.input, pos, 0))))
  }

  predicate AtLineEnd(env: Env, pos: int) {
    InText(env, pos) &&
    (pos == |env.input.units| ||
     (env.flags.multiLine && IsLineTerminator(CharAt(env.input, pos, |env.input.units|))))
  }

  predicate WordBefore(env: Env, pos: int) {
    InText(env, pos) && pos > 0 && IsWordChar(PrevCharAt(env.input, pos, 0))
  }

  predicate WordAfter(env: Env, pos: int) {
    InText(env, pos) && pos < |env.input.units| && IsWordChar(CharAt(env.input, pos, |env.input.units|))
  }

  predicate AtWordBoundary(env: Env, pos: int) {
    WordBefore(env, pos) != WordAfter(env, pos)
  }

  function SetCapture(caps: seq<int>, k: int, v: int): seq<int> {
    if 0 <= k < |caps| then caps[k := v] else caps
  }

  /** Clears the groups first..last. */
  function ResetCaptures(caps: seq<int>, first: nat, last: int): (r: seq<int>)
    ensures |r| == |caps|
    ensures forall k :: 0 <= k < |caps| ==> r[k] == if 2 * first <= k <= 2 * last + 1 then -1 else caps[k]
  {
    seq(|caps|, k requires 0 <= k < |caps| => if 2 * first <= k <= 2 * last + 1 then -1 else caps[k])
  }

  // --- back references ---

  /** The characters between two positions, read forward. */
  function Chars(inp: Input, start: int, end: int): seq<int>
    requires 0 <= start && end <= |inp.units|
    decreases end - start
  {
    if start >= end then [] else [CharAt(inp, start, end)] + Chars(inp, NextPos(inp, start, end), end)
  }

  /** The characters between two positions, last one first. */
  function CharsBack(inp: Input, start: int, end: int): seq<int>
    requires 0 <= start && end <= |inp.units|
    decreases end - start
  {
    if start >= end then [] else [PrevCharAt(inp, end, start)] + CharsBack(inp, start, PrevPos(inp, end, start))
  }

  /** The position after the characters `cs` in the direction of travel, or -1. */
  function MatchChars(env: Env, cs: seq<int>, back: bool, pos: int): int
    requires InText(env, pos)
    decreases |cs|
  {
    var inp := env.input;
    if cs == [] then pos
    else if back then
      if pos == 0 || Canon(env.flags, cs[0]) != Canon(env.flags, PrevCharAt(inp, pos, 0)) then -1
      else MatchChars(env, cs[1..], back, PrevPos(inp, pos, 0))
    else
      if pos == |inp.units| || Canon(env.flags, cs[0]) != Canon(env.flags, CharAt(inp, pos, |inp.units|)) then -1
      else MatchChars(env, cs[1..], back, NextPos(inp, pos, |inp.units|))
  }

  /** The position after a back reference to group `i`, or -1. An unset group matches the
      empty string; a group that does not exist never matches. */
  function BackReferenceEnd(env: Env, i: nat, back: bool, o: Outcome): int
    requires InText(env, o.pos)
  {
    if i >= env.captureCount || 2 * i + 1 >= |o.caps| then -1
    else
      var start, end := o.caps[2 * i], o.caps[2 * i + 1];
      if start < 0 || end < 0 then o.pos
      else if start > |env.input.units| || end > |env.input.units| then -1
      else if back then MatchChars(env, CharsBack(env.input, start, end), true, o.pos)
      else MatchChars(env, Chars(env.input, start, end), false, o.pos)
  }

  // --- terms ---

  ghost function TermOutcomes(env: Env, t: Term, back: bool, cc: nat, o: Outcome): Outcomes
    decreases t, 0, 0, 0
  {
    if !InText(env, o.pos) then [] else
    var end := |env.input.units|;
    match t
    case One(x) =>
      if back then
        if o.pos > 0 && TestAccepts(env.flags, x, PrevCharAt(env.input, o.pos, 0))
        then [o.(pos := PrevPos(env.input, o.pos, 0))] else []
      else
        if o.pos < end && TestAccepts(env.flags, x, CharAt(env.input, o.pos, end))
        then [o.(pos := NextPos(env.input, o.pos, end))] else []
    case LineStart => if AtLineStart(env, o.pos) then [o] else []
    case LineEnd => if AtLineEnd(env, o.pos) then [o] else []
    case WordBoundary(neg) => if AtWordBoundary(env, o.pos) != neg then [o] else []
    case Group(d) => DisjunctionOutcomes(env, d, back, cc, o)
    case Capture(d) =>
      var start, finish := 2 * cc + (if back then 1 else 0), 2 * cc + (if back then 0 else 1);
      CloseCapture(DisjunctionOutcomes(env, d, back, cc + 1, o.(caps := SetCapture(o.caps, start, o.pos))), finish)
    case BackReference(i) =>
      if i < 0 then [] else
      var p := BackReferenceEnd(env, i, back, o);
      if p < 0 then [] else [o.(pos := p)]
    case Look(neg, b, d) =>
      var r := DisjunctionOutcomes(env, d, b, cc, o);
      if neg then (if r == [] then [o] else [])
      else (if r == [] then [] else [o.(caps := r[0].caps)])
    case Quantified(a, min, max, greedy) =>
      var o1 := if min == 0 then Reset(a, cc, o) else o;
      if min < 0 then [] else
      Flatten(AfterMandatory(env, a, min, max, greedy, back, cc, Mandatory(env, a, min, back, cc, o1)))
  }

  /** Positions at which a group is closed, one per outcome of its body. */
  function CloseCapture(outs: Outcomes, k: nat): (r: Outcomes)
    ensures |r| == |outs|
    ensures forall i :: 0 <= i < |outs| ==> r[i] == outs[i].(caps := SetCapture(outs[i].caps, k, outs[i].pos))
  {
    if outs == [] then []
    else [outs[0].(caps := SetCapture(outs[0].caps, k, outs[0].pos))] + CloseCapture(outs[1..], k)
  }

  /** The captures of the atom are unset once, before a quantifier with min = 0. */
  function Reset(a: Term, cc: nat, o: Outcome): Outcome {
    if TermCaptures(a) == 0 then o
    else o.(caps := ResetCaptures(o.caps, cc, cc + TermCaptures(a) - 1))
  }

  /** Exactly `k` iterations of the atom. */
  ghost function Mandatory(env: Env, a: Term, k: nat, back: bool, cc: nat, o: Outcome): Outcomes
    decreases a, 1, k, 0
  {
    if k == 0 then [o]
    else Flatten(MandatoryEach(env, a, k - 1, back, cc, TermOutcomes(env, a, back, cc, o)))
  }

  ghost function MandatoryEach(env: Env, a: Term, k: nat, back: bool, cc: nat, outs: Outcomes): (r: seq<Outcomes>)
    ensures |r| == |outs|
    ensures forall i :: 0 <= i < |outs| ==> r[i] == Mandatory(env, a, k, back, cc, outs[i])
    decreases a, 1, k, 1 + |outs|
  {
    if outs == [] then []
    else [Mandatory(env, a, k, back, cc, outs[0])] + MandatoryEach(env, a, k, back, cc, outs[1..])
  }

  /** Up to `m` further iterations (any number if m is INT32_MAX); each of them must advance. */
  ghost function Optional(env: Env, a: Term, m: int, greedy: bool, back: bool, cc: nat, o: Outcome): Outcomes
    decreases a, 1, Distance(env, back, o.pos)
  {
    if m <= 0 then [o]
    else
      var more := Flatten(OptionalEach(env, a, Fewer(m), greedy, back, cc, o, TermOutcomes(env, a, back, cc, o)));
      if greedy then more + [o] else [o] + more
  }

  function Fewer(m: int): int {
    if m == 0x7fff_ffff then m else m - 1
  }

  ghost function OptionalEach(env: Env, a: Term, m: int, greedy: bool, back: bool, cc: nat, o: Outcome, outs: Outcomes): (r: seq<Outcomes>)
    ensures |r| == |outs|
    ensures forall i :: 0 <= i < |outs| ==>
      r[i] == if Advances(env, back, o.pos, outs[i].pos) then Optional(env, a, m, greedy, back, cc, outs[i]) else []
    decreases a, 1, Distance(env, back, o.pos), |outs|
  {
    if outs == [] then []
    else
      [if Advances(env, back, o.pos, outs[0].pos) then Optional(env, a, m, greedy, back, cc, outs[0]) else []] +
      OptionalEach(env, a, m, greedy, back, cc, o, outs[1..])
  }

  ghost function AfterMandatory(env: Env, a: Term, min: int, max: int, greedy: bool, back: bool, cc: nat, outs: Outcomes): (r: seq<Outcomes>)
    ensures |r| == |outs|
    ensures forall i :: 0 <= i < |outs| ==> r[i] == Optional(env, a, Further(min, max), greedy, back, cc, outs[i])
    decreases a, 2, |outs|, 0
  {
    if outs == [] then []
    else [Optional(env, a, Further(min, max), greedy, back, cc, outs[0])] +
         AfterMandatory(env, a, min, max, greedy, back, cc, outs[1..])
  }

  /** How many optional iterations follow `min` mandatory ones. */
  function Further(min: int, max: int): int {
    if max == 0x7fff_ffff then 0x7fff_ffff else max - min
  }

  ghost function TermEach(env: Env, t: Term, back: bool, cc: nat, outs: Outcomes): (r: seq<Outcomes>)
    ensures |r| == |outs|
    ensures forall i :: 0 <= i < |outs| ==> r[i] == TermOutcomes(env, t, back, cc, outs[i])
    decreases t, 1, |outs|, 0
  {
    if outs == [] then []
    else [TermOutcomes(env, t, back, cc, outs[0])] + TermEach(env, t, back, cc, outs[1..])
  }

  ghost function AlternativeEach(env: Env, a: Alternative, back: bool, cc: nat, outs: Outcomes): (r: seq<Outcomes>)
    ensures |r| == |outs|
    ensures forall i :: 0 <= i < |outs| ==> r[i] == AlternativeOutcomes(env, a, back, cc, outs[i])
    decreases a, 1, |outs|, 0
  {
    hide Flatten, TermEach, TermOutcomes, InText;
    if outs == [] then []
    else [AlternativeOutcomes(env, a, back, cc, outs[0])] + AlternativeEach(env, a, back, cc, outs[1..])
  }

  /** The terms of an alternative one after the other; right to left when going backward. */
  ghost function AlternativeOutcomes(env: Env, a: Alternative, back: bool, cc: nat, o: Outcome): Outcomes
    decreases a, 0, 0, 0
  {
    match a
    case Empty => [o]
    case Then(init, last) =>
      var lastCc := cc + AlternativeCaptures(init);
      if back then Flatten(AlternativeEach(env, init, back, cc, TermOutcomes(env, last, back, lastCc, o)))
      else Flatten(TermEach(env, last, back, lastCc, AlternativeOutcomes(env, init, back, cc, o)))
  }

  /** The alternatives in the order in which they are written. */
  ghost function DisjunctionOutcomes(env: Env, d: Disjunction, back: bool, cc: nat, o: Outcome): Outcomes
    decreases d, 0, 0, 0
  {
    match d
    case Only(a) => AlternativeOutcomes(env, a, back, cc, o)
    case Or(l, a) =>
      DisjunctionOutcomes(env, l, back, cc, o) +
      AlternativeOutcomes(env, a, back, cc + DisjunctionCaptures(l), o)
  }

  // --- the last term of an alternative ---

  lemma {:induction false} ThenForward(env: Env, init: Alternative, last: Term, cc: nat, o: Outcome)
    ensures AlternativeOutcomes(env, Then(init, last), false, cc, o) ==
      Flatten(TermEach(env, last, false, cc + AlternativeCaptures(init), AlternativeOutcomes(env, init, false, cc, o)))
  {
    hide Flatten, TermEach, TermOutcomes, InText;
  }

  lemma {:induction false} ThenBackward(env: Env, init: Alternative, last: Term, cc: nat, o: Outcome)
    ensures AlternativeOutcomes(env, Then(init, last), true, cc, o) ==
      Flatten(AlternativeEach(env, init, true, cc, TermOutcomes(env, last, true, cc + AlternativeCaptures(init), o)))
  {
    hide Flatten, AlternativeEach, TermOutcomes, InText;
  }

  lemma {:induction false} MandatoryStep(env: Env, a: Term, k: nat, back: bool, cc: nat, o: Outcome)
    ensures Mandatory(env, a, k + 1, back, cc, o) ==
      Flatten(MandatoryEach(env, a, k, back, cc, TermOutcomes(env, a, back, cc, o)))
  {
  }

  lemma {:induction false} MandatoryNone(env: Env, a: Term, back: bool, cc: nat, o: Outcome)
    ensures Mandatory(env, a, 0, back, cc, o) == [o]
  {
  }

  lemma {:induction false} OptionalNone(env: Env, a: Term, greedy: bool, back: bool, cc: nat, o: Outcome)
    ensures Optional(env, a, 0, greedy, back, cc, o) == [o]
  {
  }

  lemma {:induction false} OptionalStep(env: Env, a: Term, m: int, greedy: bool, back: bool, cc: nat, o: Outcome)
    requires m > 0
    ensures var more := Flatten(OptionalEach(env, a, Fewer(m), greedy, back, cc, o, TermOutcomes(env, a, back, cc, o)));
      Optional(env, a, m, greedy, back, cc, o) == if greedy then more + [o] else [o] + more
  {
  }

  lemma {:induction false} QuantifiedParts(env: Env, a: Term, min: nat, max: int, greedy: bool, back: bool, cc: nat, o: Outcome)
    requires InText(env, o.pos)
    ensures TermOutcomes(env, Quantified(a, min, max, greedy), back, cc, o) ==
      Flatten(AfterMandatory(env, a, min, max, greedy, back, cc,
        Mandatory(env, a, min, back, cc, if min == 0 then Reset(a, cc, o) else o)))
  {
  }
}
