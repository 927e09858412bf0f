/** The instruction set (libregexp-opcode.h) and the code each term compiles to, as the
    finished result of the in-place emission of libregexp.c. Jump operands are byte
    offsets relative to the end of the instruction. */
module RegexCode {
  import opened Words
  import opened RegexTerm

  datatype Instr =
    | Char8(c: int)
    | Char16(c: int)
    | Char32(c: int)
    | DotOp
    | AnyOp
    | LineStartOp
    | LineEndOp
    | Goto(offset: int)
    | Split(nextFirst: bool, offset: int)
    | Match
    | SaveStart(index: int)
    | SaveEnd(index: int)
    | SaveReset(first: int, last: int)
    | Loop(offset: int)
    | PushI32(value: int)
    | Drop
    | WordBoundaryOp(negated: bool)
    | BackRef(backward: bool, index: int)
    | Range(ranges: seq<(int, int)>)
    | Range32(ranges: seq<(int, int)>)
    | Lookahead(negated: bool, offset: int)
    | PushCharPos
    | CheckAdvance
    | Prev
    | SimpleGreedyQuant(length: int, min: int, max: int, chars: int)

  /** reopcode_info[].size, with the variable part of the range instructions. */
  function InstrSize(i: Instr): (n: nat)
    ensures n > 0
  {
    match i
    case Char8(_) => 2
    case Char16(_) => 3
    case Char32(_) => 5
    case Goto(_) => 5
    case Split(_, _) => 5
    case SaveStart(_) => 2
    case SaveEnd(_) => 2
    case SaveReset(_, _) => 3
    case Loop(_) => 5
    case PushI32(_) => 5
    case BackRef(_, _) => 2
    case Range(r) => 3 + 4 * |r|
    case Range32(r) => 3 + 8 * |r|
    case Lookahead(_, _) => 5
    case SimpleGreedyQuant(_, _, _, _) => 17
    case _ => 1
  }

  type Code = seq<Instr>

  function CodeSize(code: Code): nat {
    if code == [] then 0 else InstrSize(code[0]) + CodeSize(code[1..])
  }

  lemma {:induction false} CodeSizeAppend(a: Code, b: Code)
    ensures CodeSize(a + b) == CodeSize(a) + CodeSize(b)
  {
    if a == [] {
      assert a + b == b;
    } else {
      assert (a + b)[1..] == a[1..] + b;
      CodeSizeAppend(a[1..], b);
    }
  }

  /** The instructions that read one character. */
  predicate IsCharOp(i: Instr) {
    i.Char8? || i.Char16? || i.Char32? || i.DotOp? || i.AnyOp? || i.Range? || i.Range32?
  }

  predicate IsAssertion(i: Instr) {
    i.LineStartOp? || i.LineEndOp? || i.WordBoundaryOp?
  }

  /** The instructions whose effect on the cursor re_need_check_advance can predict. */
  predicate IsPredictable(i: Instr) {
    IsCharOp(i) || IsAssertion(i) || i.PushI32? || i.PushCharPos? || i.Drop? || i.Prev? ||
    i.SaveStart? || i.SaveEnd? || i.SaveReset? || i.BackRef?
  }

  predicate HasCharOp(code: Code) {
    code != [] && (IsCharOp(code[0]) || HasCharOp(code[1..]))
  }

  predicate AllPredictable(code: Code) {
    code == [] || (IsPredictable(code[0]) && AllPredictable(code[1..]))
  }

  /** re_need_check_advance: true unless the code certainly moves the cursor. */
  predicate NeedCheckAdvance(code: Code) {
    !AllPredictable(code) || !HasCharOp(code)
  }

  predicate AllSimple(code: Code) {
    code == [] || ((IsCharOp(code[0]) || IsAssertion(code[0])) && AllSimple(code[1..]))
  }

  function CharOpCount(code: Code): nat {
    if code == [] then 0 else (if IsCharOp(code[0]) then 1 else 0) + CharOpCount(code[1..])
  }

  /** re_is_simple_quantifier: the number of characters of a straight-line atom, or -1. */
  function SimpleQuantifier(code: Code): int {
    if AllSimple(code) then CharOpCount(code) else -1
  }

  // --- emission ---

  function RangePairs(points: seq<int>, wide: bool): seq<(int, int)>
    requires |points| % 2 == 0
  {
    if points == [] then []
    else
      var high := points[1] - 1;
      [(points[0], if !wide && high == UINT32_MAX - 1 then 0xffff else high)] + RangePairs(points[2..], wide)
  }

  /** re_emit_range */
  function RangeInstr(points: seq<int>): Instr
    requires |points| % 2 == 0
  {
    if points == [] then Char32(UINT32_MAX)
    else
      var last := points[|points| - 1];
      var high := if last == UINT32_MAX then points[|points| - 2] else last;
      if high <= 0xffff then Range(RangePairs(points, false)) else Range32(RangePairs(points, true))
  }

  function CharInstr(c: int): Instr {
    if c <= 0x7f then Char8(c) else if c <= 0xffff then Char16(c) else Char32(c)
  }

  function TestInstr(f: Flags, x: CharTest): Instr
    requires ValidTest(x)
  {
    match x
    case Exactly(c) => CharInstr(Canon(f, c))
    case Points(pts) => RangeInstr(pts)
    case Dot => if f.dotAll then AnyOp else DotOp
  }

  /** The code of a term compiled in the given direction when `cc` captures are already
      open (re_parse_term). */
  function TermCode(f: Flags, t: Term, back: bool, cc: nat): Code
    requires ValidTerm(t)
  {
    match t
    case One(x) => if back then [Prev, TestInstr(f, x), Prev] else [TestInstr(f, x)]
    case LineStart => [LineStartOp]
    case LineEnd => [LineEndOp]
    case WordBoundary(neg) => [WordBoundaryOp(neg)]
    case Group(d) => DisjunctionCode(f, d, back, cc)
    case Capture(d) =>
      var body := DisjunctionCode(f, d, back, cc + 1);
      if back then [SaveEnd(cc)] + body + [SaveStart(cc)] else [SaveStart(cc)] + body + [SaveEnd(cc)]
    case BackReference(i) => [BackRef(back, i)]
    case Look(neg, b, d) =>
      var body := DisjunctionCode(f, d, b, cc);
      [Lookahead(neg, CodeSize(body) + 1)] + body + [Match]
    case Quantified(a, min, max, greedy) =>
      QuantifierCode(TermCode(f, a, back, cc), min, max, greedy, cc, TermCaptures(a))
  }

  function AlternativeCode(f: Flags, a: Alternative, back: bool, cc: nat): Code
    requires ValidAlternative(a)
  {
    match a
    case Empty => []
    case Then(init, last) =>
      var first := AlternativeCode(f, init, back, cc);
      var term := TermCode(f, last, back, cc + AlternativeCaptures(init));
      if back then term + first else first + term
  }

  function DisjunctionCode(f: Flags, d: Disjunction, back: bool, cc: nat): Code
    requires ValidDisjunction(d)
  {
    match d
    case Only(a) => AlternativeCode(f, a, back, cc)
    case Or(l, a) =>
      var left := DisjunctionCode(f, l, back, cc);
      var right := AlternativeCode(f, a, back, cc + DisjunctionCaptures(l));
      [Split(true, CodeSize(left) + 5)] + left + [Goto(CodeSize(right))] + right
  }

  /** An optional iteration of the atom, with the zero-advance check around it if `check`. */
  function Guarded(atom: Code, check: bool): Code {
    if check then [PushCharPos] + atom + [CheckAdvance] else atom
  }

  /** split; body; goto split */
  function StarCode(body: Code, greedy: bool): Code {
    [Split(greedy, CodeSize(body) + 5)] + body + [Goto(-(CodeSize(body) + 10))]
  }

  /** push n; split; body; loop split; drop */
  function UpToCode(body: Code, n: int, greedy: bool): Code {
    [PushI32(n), Split(greedy, CodeSize(body) + 5)] + body + [Loop(-(CodeSize(body) + 10)), Drop]
  }

  /** push n; atom; loop atom; drop */
  function RepeatCode(atom: Code, n: int): Code {
    if n == 1 then atom else [PushI32(n)] + atom + [Loop(-(CodeSize(atom) + 5)), Drop]
  }

  function ResetCode(cc: nat, captures: nat): Code {
    if captures == 0 then [] else [SaveReset(cc, cc + captures - 1)]
  }

  /** The optional part that follows the reset of a quantifier with min = 0. */
  function ZeroMinCode(atom: Code, max: int, greedy: bool): Code {
    var body := Guarded(atom, NeedCheckAdvance(atom));
    if max == 0 then []
    else if max == 1 then [Split(greedy, CodeSize(body))] + body
    else if max == INT32_MAX then StarCode(body, greedy)
    else UpToCode(body, max, greedy)
  }

  /** The optional part that follows the mandatory iterations. */
  function FurtherCode(atom: Code, min: int, max: int, greedy: bool): Code {
    var body := Guarded(atom, NeedCheckAdvance(atom));
    if max == INT32_MAX then StarCode(body, greedy)
    else if max > min then UpToCode(body, max - min, greedy)
    else []
  }

  /** The quantifier part of re_parse_term, given the code of the atom. */
  function QuantifierCode(atom: Code, min: int, max: int, greedy: bool, cc: nat, captures: nat): Code {
    if greedy && max > 0 && SimpleQuantifier(atom) > 0 then
      [SimpleGreedyQuant(CodeSize(atom) + 1, min, max, SimpleQuantifier(atom))] + atom + [Match]
    else if min == 0 then ResetCode(cc, captures) + ZeroMinCode(atom, max, greedy)
    else if min == 1 && max == INT32_MAX && !NeedCheckAdvance(atom) then
      atom + [Split(!greedy, -(CodeSize(atom) + 5))]
    else RepeatCode(atom, min) + FurtherCode(atom, min, max, greedy)
  }

  /** lre_compile: the search prefix (unless sticky), then group 0. */
  function ProgramCode(f: Flags, d: Disjunction, sticky: bool): Code
    requires ValidDisjunction(d)
  {
    (if sticky then [] else [Split(false, 6), AnyOp, Goto(-11)]) +
    [SaveStart(0)] + DisjunctionCode(f, d, false, 1) + [SaveEnd(0), Match]
  }
}
