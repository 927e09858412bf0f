/** Regular expression terms as the parser of libregexp.c recognises them, and the
    machine instructions its compiler emits. */
module RegexTerm {
  import opened Words
  import opened CharPoints

  const CAPTURE_COUNT_MAX := 255

  /** The compilation and execution flags. `canonicalize` stands for lre_canonicalize
      with the is_unicode flag of the expression. */
  datatype Flags = Flags(ignoreCase: bool, multiLine: bool, dotAll: bool, canonicalize: int -> int)

  /** Canonicalisation maps code points to code points. */
  ghost predicate ValidFlags(f: Flags) {
    forall c :: 0 <= c <= 0x10FFFF ==> 0 <= f.canonicalize(c) <= 0x10FFFF
  }

  function Canon(f: Flags, c: int): int {
    if f.ignoreCase then f.canonicalize(c) else c
  }

  /** What one character must satisfy. `Points` is a CharRange. */
  datatype CharTest =
    | Exactly(c: int)
    | Points(points: seq<nat>)
    | Dot

  /** Alternatives and disjunctions are left-nested, in the order in which the loops of
      re_parse_alternative and re_parse_disjunction extend them. */
  datatype Term =
    | One(test: CharTest)
    | LineStart
    | LineEnd
    | WordBoundary(negated: bool)
    | Group(body: Disjunction)
    | Capture(body: Disjunction)
    | BackReference(index: int)
    | Look(negated: bool, backward: bool, body: Disjunction)
    | Quantified(atom: Term, min: int, max: int, greedy: bool)

  datatype Alternative = Empty | Then(init: Alternative, last: Term)

  datatype Disjunction = Only(alt: Alternative) | Or(left: Disjunction, alt: Alternative)

  /** Number of capture groups opened inside a term. */
  function TermCaptures(t: Term): nat {
    match t
    case Group(d) => DisjunctionCaptures(d)
    case Capture(d) => 1 + DisjunctionCaptures(d)
    case Look(_, _, d) => DisjunctionCaptures(d)
    case Quantified(a, _, _, _) => TermCaptures(a)
    case _ => 0
  }

  function AlternativeCaptures(a: Alternative): nat {
    match a
    case Empty => 0
    case Then(init, last) => AlternativeCaptures(init) + TermCaptures(last)
  }

  function DisjunctionCaptures(d: Disjunction): nat {
    match d
    case Only(a) => AlternativeCaptures(a)
    case Or(l, a) => DisjunctionCaptures(l) + AlternativeCaptures(a)
  }

  ghost predicate InPoints(points: seq<nat>, c: int) {
    c >= 0 && Contains(points, c)
  }

  /** A canonical CharRange of 32-bit points. */
  predicate CanonicalPoints(points: seq<nat>) {
    Canonical(points) && forall i :: 0 <= i < |points| ==> points[i] <= UINT32_MAX
  }

  predicate ValidTest(x: CharTest) {
    match x
    case Exactly(c) => 0 <= c <= 0x10FFFF
    case Points(pts) => CanonicalPoints(pts)
    case _ => true
  }

  /** What the parser guarantees of a term it compiles: code points in range, canonical
      classes, repetition counts with min <= max <= INT32_MAX (which also stands for infinity),
      back references below 256. */
  predicate ValidTerm(t: Term) {
    match t
    case One(x) => ValidTest(x)
    case Group(d) => ValidDisjunction(d)
    case Capture(d) => ValidDisjunction(d)
    case BackReference(i) => 0 <= i <= 255
    case Look(_, _, d) => ValidDisjunction(d)
    case Quantified(a, min, max, _) => ValidTerm(a) && 0 <= min <= max <= INT32_MAX
    case _ => true
  }

  predicate ValidAlternative(a: Alternative) {
    match a
    case Empty => true
    case Then(init, last) => ValidAlternative(init) && ValidTerm(last)
  }

  predicate ValidDisjunction(d: Disjunction) {
    match d
    case Only(a) => ValidAlternative(a)
    case Or(l, a) => ValidDisjunction(l) && ValidAlternative(a)
  }
}
