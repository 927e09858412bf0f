/** The byte form of the instructions (libregexp-opcode.h; operands little-endian). */
module RegexBytes {
  import opened Words
  import opened RegexCode

  type Bytes = seq<byte>

  function Low(v: int): byte {
    v % 0x100
  }

  function Rest(v: int): int {
    v / 0x100
  }

  function U8(v: int): Bytes {
    [Low(v)]
  }

  function U16(v: int): Bytes {
    [Low(v), Low(Rest(v))]
  }

  /** A 32-bit word; negative numbers in two's complement. */
  function U32(v: int): Bytes {
    [Low(v), Low(Rest(v)), Low(Rest(Rest(v))), Low(Rest(Rest(Rest(v))))]
  }

  function GetU16(bc: Bytes, p: int): int
    requires 0 <= p && p + 2 <= |bc|
  {
    bc[p] as int + 0x100 * bc[p + 1] as int
  }

  function GetU32(bc: Bytes, p: int): int
    requires 0 <= p && p + 4 <= |bc|
  {
    bc[p] as int + 0x100 * bc[p + 1] as int + 0x1_0000 * bc[p + 2] as int + 0x100_0000 * bc[p + 3] as int
  }

  /** The cast to int of a 32-bit word. */
  function GetI32(bc: Bytes, p: int): int
    requires 0 <= p && p + 4 <= |bc|
  {
    var v := GetU32(bc, p);
    if v >= 0x8000_0000 then v - 0x1_0000_0000 else v
  }

  lemma LowRest(v: int)
    ensures v == Low(v) + 0x100 * Rest(v)
  {
  }

  lemma U16RoundTrip(v: int)
    requires 0 <= v < 0x1_0000
    ensures GetU16(U16(v), 0) == v
  {
    LowRest(v);
    LowRest(Rest(v));
  }

  /** Writing a word and reading it back, unsigned or signed. */
  lemma U32RoundTrip(v: int)
    requires -0x8000_0000 <= v < 0x1_0000_0000
    ensures GetU32(U32(v), 0) == if v < 0 then v + 0x1_0000_0000 else v
    ensures v < 0x8000_0000 ==> GetI32(U32(v), 0) == v
  {
    var a := Rest(v);
    var b := Rest(a);
    var c := Rest(b);
    LowRest(v);
    LowRest(a);
    LowRest(b);
    LowRest(c);
    hide Low, Rest;
    assert v == GetU32(U32(v), 0) + 0x1_0000_0000 * Rest(c);
  }

  function EncodePairs(r: seq<(int, int)>, wide: bool): Bytes {
    if r == [] then []
    else (if wide then U32(r[0].0) + U32(r[0].1) else U16(r[0].0) + U16(r[0].1)) + EncodePairs(r[1..], wide)
  }

  function Opcode(i: Instr): byte {
    match i
    case Char8(_) => 1
    case Char16(_) => 2
    case Char32(_) => 3
    case DotOp => 4
    case AnyOp => 5
    case LineStartOp => 6
    case LineEndOp => 7
    case Goto(_) => 8
    case Split(nextFirst, _) => if nextFirst then 10 else 9
    case Match => 11
    case SaveStart(_) => 12
    case SaveEnd(_) => 13
    case SaveReset(_, _) => 14
    case Loop(_) => 15
    case PushI32(_) => 16
    case Drop => 17
    case WordBoundaryOp(neg) => if neg then 19 else 18
    case BackRef(back, _) => if back then 21 else 20
    case Range(_) => 22
    case Range32(_) => 23
    case Lookahead(neg, _) => if neg then 25 else 24
    case PushCharPos => 26
    case CheckAdvance => 27
    case Prev => 28
    case SimpleGreedyQuant(_, _, _, _) => 29
  }

  function Operands(i: Instr): Bytes {
    match i
    case Char8(c) => U8(c)
    case Char16(c) => U16(c)
    case Char32(c) => U32(c)
    case Goto(off) => U32(off)
    case Split(_, off) => U32(off)
    case SaveStart(k) => U8(k)
    case SaveEnd(k) => U8(k)
    case SaveReset(k, l) => U8(k) + U8(l)
    case Loop(off) => U32(off)
    case PushI32(v) => U32(v)
    case BackRef(_, k) => U8(k)
    case Range(r) => U16(|r|) + EncodePairs(r, false)
    case Range32(r) => U16(|r|) + EncodePairs(r, true)
    case Lookahead(_, off) => U32(off)
    case SimpleGreedyQuant(len, min, max, chars) => U32(len) + U32(min) + U32(max) + U32(chars)
    case _ => []
  }

  function Encode(i: Instr): Bytes {
    [Opcode(i)] + Operands(i)
  }

  function EncodeAll(code: Code): Bytes {
    if code == [] then [] else Encode(code[0]) + EncodeAll(code[1..])
  }

  lemma {:induction false} PairsSize(r: seq<(int, int)>, wide: bool)
    ensures |EncodePairs(r, wide)| == (if wide then 8 else 4) * |r|
  {
    if r != [] {
      PairsSize(r[1..], wide);
    }
  }

  lemma EncodeSize(i: Instr)
    ensures |Encode(i)| == InstrSize(i)
  {
    match i
    case Range(r) => PairsSize(r, false);
    case Range32(r) => PairsSize(r, true);
    case _ =>
  }

  lemma {:induction false} EncodeAllAppend(a: Code, b: Code)
    ensures EncodeAll(a + b) == EncodeAll(a) + EncodeAll(b)
    decreases |a|
  {
    if a == [] {
      assert a + b == b;
    } else {
      assert (a + b)[1..] == a[1..] + b;
      EncodeAllAppend(a[1..], b);
    }
  }

  lemma EncodeOne(i: Instr)
    ensures EncodeAll([i]) == Encode(i)
  {
    assert [i][1..] == [];
    assert Encode(i) + [] == Encode(i);
  }

  lemma {:induction false} EncodeAllSize(code: Code)
    ensures |EncodeAll(code)| == CodeSize(code)
  {
    if code != [] {
      EncodeSize(code[0]);
      EncodeAllSize(code[1..]);
    }
  }

  // --- decoding ---

  function DecodePairs(bc: Bytes, p: int, n: nat, wide: bool): seq<(int, int)>
    requires 0 <= p && p + (if wide then 8 else 4) * n <= |bc|
    decreases n
  {
    if n == 0 then []
    else if wide then [(GetU32(bc, p), GetU32(bc, p + 4))] + DecodePairs(bc, p + 8, n - 1, wide)
    else [(GetU16(bc, p), GetU16(bc, p + 2))] + DecodePairs(bc, p + 4, n - 1, wide)
  }

  /** Operands that fit their fields. */
  predicate FitsOffset(v: int) { -0x8000_0000 <= v < 0x8000_0000 }

  predicate FitsWord(v: int) { 0 <= v < 0x1_0000_0000 }

  predicate FitsPairs(r: seq<(int, int)>, wide: bool) {
    |r| < 0x1_0000 &&
    forall k :: 0 <= k < |r| ==>
      if wide then FitsWord(r[k].0) && FitsWord(r[k].1)
      else 0 <= r[k].0 < 0x1_0000 && 0 <= r[k].1 < 0x1_0000
  }

  /** What the binary search of the class instructions relies on. */
  predicate SortedRanges(r: seq<(int, int)>) {
    r != [] && (forall k :: 0 <= k < |r| ==> r[k].0 <= r[k].1) &&
    forall j, k :: 0 <= j < k < |r| ==> r[j].1 < r[k].0
  }

  predicate Fits(i: Instr) {
    match i
    case Char8(c) => 0 <= c < 0x100
    case Char16(c) => 0 <= c < 0x1_0000
    case Char32(c) => FitsWord(c)
    case Goto(off) => FitsOffset(off)
    case Split(_, off) => FitsOffset(off)
    case SaveStart(k) => 0 <= k < 0x100
    case SaveEnd(k) => 0 <= k < 0x100
    case SaveReset(k, l) => 0 <= k < 0x100 && 0 <= l < 0x100
    case Loop(off) => FitsOffset(off)
    case PushI32(v) => FitsWord(v)
    case BackRef(_, k) => 0 <= k < 0x100
    case Range(r) => FitsPairs(r, false) && SortedRanges(r)
    case Range32(r) => FitsPairs(r, true) && SortedRanges(r)
    case Lookahead(_, off) => FitsOffset(off)
    case SimpleGreedyQuant(len, min, max, chars) => FitsOffset(len) && FitsWord(min) && FitsWord(max) && FitsWord(chars)
    case _ => true
  }

  datatype Fetched = Instruction(i: Instr) | Invalid

  /** The instruction at `pc`, as the dispatch of lre_exec_backtrack reads it. */
  function Decode(bc: Bytes, pc: int): Fetched {
    if pc < 0 || pc >= |bc| then Invalid else DecodeOp(bc, bc[pc], pc + 1)
  }

  function DecodeOp(bc: Bytes, op: byte, p: int): Fetched
    requires 0 < p <= |bc|
  {
    var left := |bc| - p;
    if op == 4 then Instruction(DotOp)
    else if op == 5 then Instruction(AnyOp)
    else if op == 6 then Instruction(LineStartOp)
    else if op == 7 then Instruction(LineEndOp)
    else if op == 11 then Instruction(Match)
    else if op == 17 then Instruction(Drop)
    else if op == 18 then Instruction(WordBoundaryOp(false))
    else if op == 19 then Instruction(WordBoundaryOp(true))
    else if op == 26 then Instruction(PushCharPos)
    else if op == 27 then Instruction(CheckAdvance)
    else if op == 28 then Instruction(Prev)
    else if left < 1 then Invalid
    else if op == 1 then Instruction(Char8(bc[p]))
    else if op == 12 then Instruction(SaveStart(bc[p]))
    else if op == 13 then Instruction(SaveEnd(bc[p]))
    else if op == 20 then Instruction(BackRef(false, bc[p]))
    else if op == 21 then Instruction(BackRef(true, bc[p]))
    else if left < 2 then Invalid
    else if op == 2 then Instruction(Char16(GetU16(bc, p)))
    else if op == 14 then Instruction(SaveReset(bc[p], bc[p + 1]))
    else if op == 22 then
      if left < 2 + 4 * GetU16(bc, p) then Invalid else Instruction(Range(DecodePairs(bc, p + 2, GetU16(bc, p), false)))
    else if op == 23 then
      if left < 2 + 8 * GetU16(bc, p) then Invalid else Instruction(Range32(DecodePairs(bc, p + 2, GetU16(bc, p), true)))
    else if left < 4 then Invalid
    else if op == 3 then Instruction(Char32(GetU32(bc, p)))
    else if op == 8 then Instruction(Goto(GetI32(bc, p)))
    else if op == 9 then Instruction(Split(false, GetI32(bc, p)))
    else if op == 10 then Instruction(Split(true, GetI32(bc, p)))
    else if op == 15 then Instruction(Loop(GetI32(bc, p)))
    else if op == 16 then Instruction(PushI32(GetU32(bc, p)))
    else if op == 24 then Instruction(Lookahead(false, GetI32(bc, p)))
    else if op == 25 then Instruction(Lookahead(true, GetI32(bc, p)))
    else if left < 16 then Invalid
    else if op == 29 then
      Instruction(SimpleGreedyQuant(GetI32(bc, p), GetU32(bc, p + 4), GetU32(bc, p + 8), GetU32(bc, p + 12)))
    else Invalid
  }

  /** `part` stands at `p` in `bc`. */
  predicate Stands(bc: Bytes, p: int, part: Bytes) {
    0 <= p && p + |part| <= |bc| && bc[p..p + |part|] == part
  }

  lemma StandsAppend(bc: Bytes, p: int, a: Bytes, b: Bytes)
    requires Stands(bc, p, a + b)
    ensures Stands(bc, p, a) && Stands(bc, p + |a|, b)
  {
    var s := bc[p..p + |a + b|];
    assert bc[p..p + |a|] == s[..|a|] == (a + b)[..|a|] == a;
    assert bc[p + |a|..p + |a| + |b|] == s[|a|..] == (a + b)[|a|..] == b;
  }

  lemma GetU16At(bc: Bytes, p: int, v: int)
    requires Stands(bc, p, U16(v)) && 0 <= v < 0x1_0000
    ensures GetU16(bc, p) == v
  {
    U16RoundTrip(v);
    assert bc[p] == bc[p..p + 2][0] && bc[p + 1] == bc[p..p + 2][1];
  }

  lemma GetU32At(bc: Bytes, p: int, v: int)
    requires Stands(bc, p, U32(v))
    ensures FitsWord(v) ==> GetU32(bc, p) == v
    ensures FitsOffset(v) ==> GetI32(bc, p) == v
  {
    var s := bc[p..p + 4];
    assert bc[p] == s[0] && bc[p + 1] == s[1] && bc[p + 2] == s[2] && bc[p + 3] == s[3];
    if FitsWord(v) || FitsOffset(v) { U32RoundTrip(v); }
  }

  lemma FitsTail(r: seq<(int, int)>, wide: bool)
    requires FitsPairs(r, wide) && r != []
    ensures FitsPairs(r[1..], wide)
    ensures if wide then FitsWord(r[0].0) && FitsWord(r[0].1)
      else 0 <= r[0].0 < 0x1_0000 && 0 <= r[0].1 < 0x1_0000
  {
  }

  lemma {:induction false} DecodePairsAt(bc: Bytes, p: int, r: seq<(int, int)>, wide: bool)
    requires Stands(bc, p, EncodePairs(r, wide)) && FitsPairs(r, wide)
    ensures 0 <= p && p + (if wide then 8 else 4) * |r| <= |bc|
    ensures DecodePairs(bc, p, |r|, wide) == r
    decreases |r|
  {
    PairsSize(r, wide);
    StandsRange(bc, p, EncodePairs(r, wide));
    hide Stands, FitsPairs, GetU16, GetU32, U16, U32;
    if r != [] {
      var tail := EncodePairs(r[1..], wide);
      FitsTail(r, wide);
      if wide {
        assert EncodePairs(r, wide) == U32(r[0].0) + U32(r[0].1) + tail;
        DecodeWidePair(bc, p, r[0].0, r[0].1, tail);
        DecodePairsAt(bc, p + 8, r[1..], wide);
      } else {
        assert EncodePairs(r, wide) == U16(r[0].0) + U16(r[0].1) + tail;
        DecodeNarrowPair(bc, p, r[0].0, r[0].1, tail);
        DecodePairsAt(bc, p + 4, r[1..], wide);
      }
    }
  }

  lemma DecodeWidePair(bc: Bytes, p: int, lo: int, hi: int, tail: Bytes)
    requires Stands(bc, p, U32(lo) + U32(hi) + tail) && FitsWord(lo) && FitsWord(hi)
    ensures 0 <= p && p + 8 <= |bc| && GetU32(bc, p) == lo && GetU32(bc, p + 4) == hi && Stands(bc, p + 8, tail)
  {
    StandsRange(bc, p, U32(lo) + U32(hi) + tail);
    StandsAppend(bc, p, U32(lo) + U32(hi), tail);
    StandsAppend(bc, p, U32(lo), U32(hi));
    hide Stands, GetU32, Low, Rest;
    GetU32At(bc, p, lo);
    GetU32At(bc, p + 4, hi);
  }

  lemma DecodeNarrowPair(bc: Bytes, p: int, lo: int, hi: int, tail: Bytes)
    requires Stands(bc, p, U16(lo) + U16(hi) + tail) && 0 <= lo < 0x1_0000 && 0 <= hi < 0x1_0000
    ensures 0 <= p && p + 4 <= |bc| && GetU16(bc, p) == lo && GetU16(bc, p + 2) == hi && Stands(bc, p + 4, tail)
  {
    StandsRange(bc, p, U16(lo) + U16(hi) + tail);
    StandsAppend(bc, p, U16(lo) + U16(hi), tail);
    StandsAppend(bc, p, U16(lo), U16(hi));
    hide Stands, GetU16, Low, Rest;
    GetU16At(bc, p, lo);
    GetU16At(bc, p + 2, hi);
  }

  /** Reading back an instruction whose operands fit. */
  lemma DecodeEncoded(bc: Bytes, pc: int, i: Instr)
    requires Stands(bc, pc, Encode(i)) && Fits(i)
    ensures Decode(bc, pc) == Instruction(i)
  {
    var p := pc + 1;
    StandsAppend(bc, pc, [Opcode(i)], Operands(i));
    assert bc[pc] == bc[pc..pc + 1][0] == Opcode(i);
    DecodeOperands(bc, p, i);
  }

  lemma DecodeOperands(bc: Bytes, p: int, i: Instr)
    requires 0 < p && Stands(bc, p, Operands(i)) && Fits(i)
    ensures DecodeOp(bc, Opcode(i), p) == Instruction(i)
  {
    hide Stands, GetU16, GetU32, GetI32, DecodePairs, EncodePairs, FitsPairs, U16, U32;
    match i
    case Range(r) => DecodeRangeAt(bc, p, r, false);
    case Range32(r) => DecodeRangeAt(bc, p, r, true);
    case SimpleGreedyQuant(len, min, max, chars) => DecodeQuantAt(bc, p, len, min, max, chars);
    case _ => DecodeShortOperands(bc, p, i);
  }

  lemma DecodeShortOperands(bc: Bytes, p: int, i: Instr)
    requires 0 < p && Stands(bc, p, Operands(i)) && Fits(i)
    requires !i.Range? && !i.Range32? && !i.SimpleGreedyQuant?
    ensures DecodeOp(bc, Opcode(i), p) == Instruction(i)
  {
    hide Stands, GetU16, GetU32, GetI32, DecodePairs, EncodePairs, FitsPairs;
    StandsRange(bc, p, Operands(i));
    if i.SaveReset? {
      StandsAppend(bc, p, U8(i.first), U8(i.last));
      ByteAt(bc, p, i.first);
      ByteAt(bc, p + 1, i.last);
    } else if |Operands(i)| == 1 {
      var v := if i.Char8? then i.c else i.index;
      ByteAt(bc, p, v);
    } else if i.Char16? {
      GetU16At(bc, p, i.c);
    } else if |Operands(i)| == 4 {
      var v := if i.Char32? then i.c else if i.PushI32? then i.value else i.offset;
      GetU32At(bc, p, v);
    }
  }

  lemma StandsRange(bc: Bytes, p: int, part: Bytes)
    requires Stands(bc, p, part)
    ensures 0 <= p && p + |part| <= |bc|
  {
  }

  lemma ByteAt(bc: Bytes, p: int, v: int)
    requires Stands(bc, p, U8(v)) && 0 <= v < 0x100
    ensures 0 <= p < |bc| && bc[p] == v
  {
    assert bc[p] == bc[p..p + 1][0];
  }

  lemma DecodeRangeAt(bc: Bytes, p: int, r: seq<(int, int)>, wide: bool)
    requires Stands(bc, p, U16(|r|) + EncodePairs(r, wide)) && FitsPairs(r, wide)
    ensures 0 <= p && p + 2 <= |bc| && GetU16(bc, p) == |r|
    ensures p + 2 + (if wide then 8 else 4) * |r| <= |bc|
    ensures DecodePairs(bc, p + 2, |r|, wide) == r
  {
    StandsAppend(bc, p, U16(|r|), EncodePairs(r, wide));
    GetU16At(bc, p, |r|);
    DecodePairsAt(bc, p + 2, r, wide);
  }

  lemma DecodeQuantAt(bc: Bytes, p: int, len: int, min: int, max: int, chars: int)
    requires Stands(bc, p, U32(len) + U32(min) + U32(max) + U32(chars))
    requires FitsOffset(len) && FitsWord(min) && FitsWord(max) && FitsWord(chars)
    ensures 0 <= p && p + 16 <= |bc|
    ensures GetI32(bc, p) == len && GetU32(bc, p + 4) == min && GetU32(bc, p + 8) == max && GetU32(bc, p + 12) == chars
  {
    StandsAppend(bc, p, U32(len) + U32(min) + U32(max), U32(chars));
    StandsAppend(bc, p, U32(len) + U32(min), U32(max));
    StandsAppend(bc, p, U32(len), U32(min));
    GetU32At(bc, p, len);
    GetU32At(bc, p + 4, min);
    GetU32At(bc, p + 8, max);
    GetU32At(bc, p + 12, chars);
  }
}
