/** The compiler of libregexp.c as it works: terms are emitted into one growing byte buffer,
    into which splits are inserted, whose operands are patched, and parts of which are
    copied and moved. Every method is proved to leave the buffer as the compositional code
    of RegexCode says. */
module RegexEmitter {
  import opened Words
  import opened RegexTerm
  import opened RegexCode
  import opened RegexBytes
  import opened RegexRanges
  import opened RegexEncodable
  import opened RegexScan
  import opened RegexCounts
  import opened RegexQuantifier

  datatype EmitResult = Done | TooManyCaptures | TooManyRanges | OutOfMemory

  /** lre_check_size */
  const SIZE_MAX := 64 * 1024 * 1024

  lemma EncodePair(i: Instr, rest: Code)
    ensures EncodeAll([i] + rest) == Encode(i) + EncodeAll(rest)
  {
    EncodeAllAppend([i], rest);
    EncodeOne(i);
  }

  lemma EncodeThree(a: Code, b: Code, c: Code)
    ensures EncodeAll(a + b + c) == EncodeAll(a) + EncodeAll(b) + EncodeAll(c)
  {
    EncodeAllAppend(a + b, c);
    EncodeAllAppend(a, b);
  }

  lemma EncodeTwo(i: Instr, j: Instr)
    ensures EncodeAll([i, j]) == Encode(i) + Encode(j)
  {
    assert [i, j] == [i] + [j];
    EncodePair(i, [j]);
    EncodeOne(j);
  }

  function CheckSize(check: bool): nat {
    if check then 1 else 0
  }

  /** An iteration in bytes: the atom, between push_char_pos and check_advance if `check`. */
  function GuardedBytes(a: Bytes, check: bool): Bytes {
    if check then [26] + a + [27] else a
  }

  lemma EncodeGuarded(atom: Code, check: bool)
    ensures EncodeAll(Guarded(atom, check)) == GuardedBytes(EncodeAll(atom), check)
    ensures |EncodeAll(atom)| == CodeSize(atom) && CodeSize(Guarded(atom, check)) == CodeSize(atom) + 2 * CheckSize(check)
  {
    hide EncodeAll, CodeSize;
    if check {
      EncodeThree([PushCharPos], atom, [CheckAdvance]);
      EncodeOne(PushCharPos);
      EncodeOne(CheckAdvance);
    }
    EncodeAllSize(atom);
    GuardedSize(atom, check);
  }

  /** split and goto around the bytes of an iteration. */
  lemma EncodeStar(body: Code, greedy: bool)
    ensures EncodeAll(StarCode(body, greedy)) ==
      ([if greedy then 10 else 9] + U32(CodeSize(body) + 5)) + EncodeAll(body) + ([8] + U32(-(CodeSize(body) + 10)))
  {
    hide EncodeAll, CodeSize, U32;
    EncodeThree([Split(greedy, CodeSize(body) + 5)], body, [Goto(-(CodeSize(body) + 10))]);
    EncodeOne(Split(greedy, CodeSize(body) + 5));
    EncodeOne(Goto(-(CodeSize(body) + 10)));
  }

  lemma EncodeUpTo(body: Code, n: int, greedy: bool)
    ensures EncodeAll(UpToCode(body, n, greedy)) ==
      (([16] + U32(n)) + ([if greedy then 10 else 9] + U32(CodeSize(body) + 5))) + EncodeAll(body) +
      (([15] + U32(-(CodeSize(body) + 10))) + [17])
  {
    hide EncodeAll, CodeSize, U32;
    var push, split, loop := PushI32(n), Split(greedy, CodeSize(body) + 5), Loop(-(CodeSize(body) + 10));
    EncodeThree([push, split], body, [loop, Drop]);
    EncodeTwo(push, split);
    EncodeTwo(loop, Drop);
  }

  lemma EncodeAtMostOne(body: Code, greedy: bool)
    ensures EncodeAll([Split(greedy, CodeSize(body))] + body) ==
      ([if greedy then 10 else 9] + U32(CodeSize(body))) + EncodeAll(body)
  {
    hide EncodeAll, CodeSize, U32;
    EncodePair(Split(greedy, CodeSize(body)), body);
  }

  lemma EncodeRepeat(atom: Code, n: int)
    requires n != 1
    ensures EncodeAll(RepeatCode(atom, n)) ==
      ([16] + U32(n)) + EncodeAll(atom) + (([15] + U32(-(CodeSize(atom) + 5))) + [17])
  {
    hide EncodeAll, CodeSize, U32;
    EncodeThree([PushI32(n)], atom, [Loop(-(CodeSize(atom) + 5)), Drop]);
    EncodeOne(PushI32(n));
    EncodeTwo(Loop(-(CodeSize(atom) + 5)), Drop);
  }

  lemma RepeatBytes(pre: Bytes, atom: Code, n: int)
    requires n != 1
    ensures pre + EncodeAll(RepeatCode(atom, n)) ==
      pre + ([16] + U32(n)) + EncodeAll(atom) + (([15] + U32(-(|EncodeAll(atom)| + 5))) + [17])
  {
    hide *;
    EncodeAllSize(atom);
    EncodeRepeat(atom, n);
    var push, loop := [16] + U32(n), ([15] + U32(-(|EncodeAll(atom)| + 5))) + [17];
    Regroup(pre, push, EncodeAll(atom), loop);
  }

  /** The bytes of a quantifier without the greedy optimisation. */
  function LoopBytes(atom: Code, min: int, max: int, greedy: bool, cc: nat, captures: nat): Bytes {
    if min == 0 then EncodeAll(ResetCode(cc, captures)) + EncodeAll(ZeroMinCode(atom, max, greedy))
    else if min == 1 && max == INT32_MAX && !NeedCheckAdvance(atom) then
      EncodeAll(atom + [Split(!greedy, -(CodeSize(atom) + 5))])
    else EncodeAll(RepeatCode(atom, min)) + EncodeAll(FurtherCode(atom, min, max, greedy))
  }

  lemma QuantifierBytes(pre: Bytes, atom: Code, min: int, max: int, greedy: bool, cc: nat, captures: nat)
    requires 0 <= min <= max <= INT32_MAX
    ensures EncodeAll(QuantifierCode(atom, min, max, greedy, cc, captures)) ==
      if greedy && max > 0 && SimpleQuantifier(atom) > 0 then
        EncodeAll([SimpleGreedyQuant(CodeSize(atom) + 1, min, max, SimpleQuantifier(atom))] + atom + [Match])
      else LoopBytes(atom, min, max, greedy, cc, captures)
  {
    EncodeAllAppend(ResetCode(cc, captures), ZeroMinCode(atom, max, greedy));
    EncodeAllAppend(RepeatCode(atom, min), FurtherCode(atom, min, max, greedy));
    hide EncodeAll, CodeSize, RepeatCode, FurtherCode, ZeroMinCode, ResetCode, NeedCheckAdvance, SimpleQuantifier;
  }

  // --- the size checks ---

  /** lre_check_size finds the buffer below its limit of 64 MiB before the term and everywhere inside it,
      if `size` bytes have been emitted before. */
  predicate TermRoom(f: Flags, t: Term, back: bool, cc: nat, size: nat)
    requires ValidTerm(t)
  {
    size < 0x400_0000 &&
    match t
    case Group(d) => DisjunctionRoom(f, d, back, cc, size)
    case Capture(d) => DisjunctionRoom(f, d, back, cc + 1, size + 2)
    case Look(_, b, d) => DisjunctionRoom(f, d, b, cc, size + 5)
    case Quantified(a, _, _, _) => TermRoom(f, a, back, cc, size)
    case _ => true
  }

  predicate AlternativeRoom(f: Flags, a: Alternative, back: bool, cc: nat, size: nat)
    requires ValidAlternative(a)
  {
    match a
    case Empty => size < 0x400_0000
    case Then(init, last) =>
      AlternativeRoom(f, init, back, cc, size) &&
      TermRoom(f, last, back, cc + AlternativeCaptures(init), size + CodeSize(AlternativeCode(f, init, back, cc)))
  }

  predicate DisjunctionRoom(f: Flags, d: Disjunction, back: bool, cc: nat, size: nat)
    requires ValidDisjunction(d)
  {
    match d
    case Only(a) => size < 0x400_0000 && AlternativeRoom(f, a, back, cc, size)
    case Or(l, a) =>
      DisjunctionRoom(f, l, back, cc, size) &&
      AlternativeRoom(f, a, back, cc + DisjunctionCaptures(l), size + CodeSize(DisjunctionCode(f, l, back, cc)) + 10)
  }

  lemma ZeroMinParts(atom: Code, max: int, greedy: bool)
    ensures var body := Guarded(atom, NeedCheckAdvance(atom));
      ZeroMinCode(atom, max, greedy) ==
        if max == 0 then []
        else if max == 1 || max == INT32_MAX then (if max == INT32_MAX then StarCode(body, greedy) else [Split(greedy, CodeSize(body))] + body)
        else UpToCode(body, max, greedy)
  {
    hide CodeSize, Guarded, StarCode, UpToCode, NeedCheckAdvance;
  }

  /** The outcome of emitting something that compiles to `code` and opens `captures` groups:
      on success exactly that code has been appended; each error says what is wrong. */
  ghost predicate Emitted(r: EmitResult, bytes0: Bytes, count0: nat, bytes: Bytes, count: nat, code: Code, captures: nat,
        few: bool, room: bool) {
    count0 <= count <= 255 &&
    (r.Done? ==> few && room && count == count0 + captures && bytes == bytes0 + EncodeAll(code)) &&
    (r.TooManyCaptures? ==> count0 + captures > 255) &&
    (r.TooManyRanges? ==> !few) &&
    (r.OutOfMemory? ==> !room && |bytes| >= 0x400_0000)
  }

  /** REParseState: the byte code, and the number of captures opened so far. */
  class Emitter {
    var byteCode: Bytes
    var captureCount: nat
    const flags: Flags

    constructor (f: Flags)
      ensures flags == f && byteCode == [] && captureCount == 1
    {
      flags := f;
      byteCode := [];
      captureCount := 1;
    }

    // --- the buffer ---

    method EmitOp(op: byte)
      modifies this`byteCode
      ensures byteCode == old(byteCode) + [op]
    {
      byteCode := byteCode + [op];
    }

    method EmitOpU8(op: byte, v: int)
      modifies this`byteCode
      ensures byteCode == old(byteCode) + ([op] + U8(v))
    {
      byteCode := byteCode + [op];
      byteCode := byteCode + U8(v);
    }

    /** Returns the offset of the operand. */
    method EmitOpU32(op: byte, v: int) returns (pos: nat)
      modifies this`byteCode
      ensures byteCode == old(byteCode) + ([op] + U32(v)) && pos == |old(byteCode)| + 1
    {
      byteCode := byteCode + [op];
      pos := |byteCode|;
      byteCode := byteCode + U32(v);
    }

    /** A jump to the absolute offset `target`. */
    method EmitGoto(op: byte, target: int)
      modifies this`byteCode
      ensures byteCode == old(byteCode) + ([op] + U32(target - (|old(byteCode)| + 5)))
    {
      byteCode := byteCode + [op];
      var pos := |byteCode|;
      byteCode := byteCode + U32(target - (pos + 4));
    }

    /** Opens a gap of `len` bytes at `pos`; what the gap holds does not matter. */
    method DbufInsert(pos: nat, len: nat, ghost a: Bytes, ghost b: Bytes) returns (ghost gap: Bytes)
      requires byteCode == a + b && |a| == pos
      modifies this`byteCode
      ensures |gap| == len && byteCode == a + gap + b
    {
      var s := byteCode;
      var hole: Bytes := seq(len, k requires 0 <= k => if pos + k < |s| then s[pos + k] else 0);
      gap := hole;
      byteCode := s[..pos] + hole + s[pos..];
    }

    method PutU8(pos: nat, v: byte, ghost a: Bytes, ghost gap: Bytes, ghost b: Bytes)
      requires byteCode == a + gap + b && |a| == pos && |gap| == 1
      modifies this`byteCode
      ensures byteCode == a + [v] + b
    {
      byteCode := byteCode[pos := v];
    }

    method PutU32(pos: nat, v: int, ghost a: Bytes, ghost gap: Bytes, ghost b: Bytes)
      requires byteCode == a + gap + b && |a| == pos && |gap| == 4
      modifies this`byteCode
      ensures byteCode == a + U32(v) + b
    {
      byteCode := byteCode[..pos] + U32(v) + byteCode[pos + 4..];
    }

    /** Appends a copy of a part of the buffer. */
    method DbufPutSelf(offset: nat, len: nat, ghost a: Bytes, ghost part: Bytes, ghost b: Bytes)
      requires byteCode == a + part + b && |a| == offset && |part| == len
      modifies this`byteCode
      ensures byteCode == a + part + b + part
    {
      assert byteCode[offset..offset + len] == part;
      byteCode := byteCode + byteCode[offset..offset + len];
    }

    /** Writes opcode and operand of a jump or push into a gap of 5 bytes. */
    method FillOpU32(pos: nat, op: byte, v: int, ghost a: Bytes, ghost gap: Bytes, ghost b: Bytes)
      requires byteCode == a + gap + b && |a| == pos && |gap| == 5
      modifies this`byteCode
      ensures byteCode == a + ([op] + U32(v)) + b
    {
      assert a + gap + b == a + gap[..1] + (gap[1..] + b);
      PutU8(pos, op, a, gap[..1], gap[1..] + b);
      assert a + [op] + (gap[1..] + b) == (a + [op]) + gap[1..] + b;
      PutU32(pos + 1, v, a + [op], gap[1..], b);
      assert (a + [op]) + U32(v) + b == a + ([op] + U32(v)) + b;
    }

    // --- quantifiers ---

    /** The iteration in place: a gap for push_char_pos is open before the atom. */
    method GuardAtom(pos: nat, check: bool, ghost a: Bytes, ghost gap: Bytes, ghost atom: Bytes)
      requires byteCode == a + gap + atom && |a| == pos && |gap| == CheckSize(check)
      modifies this`byteCode
      ensures byteCode == a + GuardedBytes(atom, check)
    {
      if check {
        PutU8(pos, 26, a, gap, atom);
        EmitOp(27);
        assert a + [26] + atom + [27] == a + ([26] + atom + [27]);
      } else {
        assert a + gap + atom == a + atom;
      }
    }

    /** simple_greedy_quant, inserted before a straight-line atom. */
    method EmitSimpleGreedy(start: nat, min: int, max: int, chars: int, ghost pre: Bytes, ghost atom: Code)
      requires byteCode == pre + EncodeAll(atom) && |pre| == start
      modifies this`byteCode
      ensures byteCode == pre + EncodeAll([SimpleGreedyQuant(CodeSize(atom) + 1, min, max, chars)] + atom + [Match])
    {
      ghost var i := SimpleGreedyQuant(CodeSize(atom) + 1, min, max, chars);
      EncodeThree([i], atom, [Match]);
      EncodeOne(i);
      EncodeOne(Match);
      EncodeAllSize(atom);
      hide EncodeAll, Encode, U32, CodeSize;
      ghost var b := EncodeAll(atom) + [11];
      EmitOp(11);
      assert byteCode == pre + b;
      ghost var gap := DbufInsert(start, 17, pre, b);
      FillSimpleGreedy(start, |byteCode| - start - 17, min, max, chars, pre, gap, b);
      EncodeQuant(i);
      assert byteCode == pre + (Encode(i) + EncodeAll(atom) + [11]);
      MatchByte();
    }

    method FillSimpleGreedy(start: nat, len: int, min: int, max: int, chars: int, ghost pre: Bytes, ghost gap: Bytes, ghost b: Bytes)
      requires byteCode == pre + gap + b && |pre| == start && |gap| == 17
      modifies this`byteCode
      ensures byteCode == pre + ([29] + (U32(len) + U32(min) + U32(max) + U32(chars))) + b
    {
      WordSize(len);
      WordSize(min);
      WordSize(max);
      hide U32;
      var pos := start;
      ghost var h1, h2, h3 := gap[..5], gap[5..9], gap[9..13];
      assert pre + gap + b == pre + h1 + (gap[5..] + b);
      FillOpU32(pos, 29, len, pre, h1, gap[5..] + b);
      ghost var a1 := pre + ([29] + U32(len));
      assert a1 + (gap[5..] + b) == a1 + h2 + (gap[9..] + b);
      PutU32(pos + 5, min, a1, h2, gap[9..] + b);
      ghost var a2 := a1 + U32(min);
      assert a2 + (gap[9..] + b) == a2 + h3 + (gap[13..] + b);
      PutU32(pos + 9, max, a2, h3, gap[13..] + b);
      ghost var a3 := a2 + U32(max);
      assert a3 + (gap[13..] + b) == a3 + gap[13..] + b;
      PutU32(pos + 13, chars, a3, gap[13..], b);
      assert a3 + U32(chars) == pre + ([29] + (U32(len) + U32(min) + U32(max) + U32(chars)));
    }

    /** save_reset, inserted before the atom if it has captures. */
    method EmitReset(start0: nat, lastCaptureCount: nat, ghost pre: Bytes, ghost atom: Code) returns (start: nat)
      requires byteCode == pre + EncodeAll(atom) && |pre| == start0 && lastCaptureCount <= captureCount <= 255
      modifies this`byteCode
      ensures var reset := EncodeAll(ResetCode(lastCaptureCount, captureCount - lastCaptureCount));
        byteCode == pre + reset + EncodeAll(atom) && start == |pre + reset|
    {
      start := start0;
      ResetBytes(lastCaptureCount, captureCount - lastCaptureCount);
      hide EncodeAll, Low, ResetCode;
      ghost var b := EncodeAll(atom);
      if lastCaptureCount != captureCount {
        ghost var gap := DbufInsert(start, 3, pre, b);
        FillReset(start, lastCaptureCount, captureCount - 1, pre, gap, b);
        start := start + 3;
      } else {
        assert pre + [] == pre;
      }
    }

    method FillReset(start: nat, first: nat, last: nat, ghost pre: Bytes, ghost gap: Bytes, ghost b: Bytes)
      requires byteCode == pre + gap + b && |pre| == start && |gap| == 3
      modifies this`byteCode
      ensures byteCode == pre + [14, Low(first), Low(last)] + b
    {
      hide Low;
      assert pre + gap + b == pre + gap[..1] + (gap[1..] + b);
      PutU8(start, 14, pre, gap[..1], gap[1..] + b);
      ghost var a1 := pre + [14];
      assert a1 + (gap[1..] + b) == a1 + gap[1..2] + (gap[2..] + b);
      PutU8(start + 1, Low(first), a1, gap[1..2], gap[2..] + b);
      ghost var a2 := a1 + [Low(first)];
      assert a2 + (gap[2..] + b) == a2 + gap[2..] + b;
      PutU8(start + 2, Low(last), a2, gap[2..], b);
      assert a2 + [Low(last)] == pre + [14, Low(first), Low(last)];
    }

    /** max is 1 or infinity: split before the atom, goto behind it if it is a loop. */
    method EmitOptional(start: nat, check: bool, greedy: bool, hasGoto: bool, ghost pre: Bytes, ghost atom: Code)
      requires byteCode == pre + EncodeAll(atom) && |pre| == start
      modifies this`byteCode
      ensures var body := Guarded(atom, check);
        byteCode == pre + EncodeAll(if hasGoto then StarCode(body, greedy) else [Split(greedy, CodeSize(body))] + body)
    {
      EncodeGuarded(atom, check);
      ghost var body := Guarded(atom, check);
      EncodeStar(body, greedy);
      EncodeAtMostOne(body, greedy);
      hide EncodeAll, U32, CodeSize, StarCode, Guarded;
      ghost var b := EncodeAll(atom);
      var len := |byteCode| - start;
      var op := if greedy then 10 else 9;
      var z := CheckSize(check);
      ghost var gap := DbufInsert(start, 5 + z, pre, b);
      var off := len + (if hasGoto then 5 else 0) + z * 2;
      assert pre + gap + b == pre + gap[..5] + (gap[5..] + b);
      FillOpU32(start, op, off, pre, gap[..5], gap[5..] + b);
      ghost var a1 := pre + ([op] + U32(off));
      WordSize(off);
      assert a1 + (gap[5..] + b) == a1 + gap[5..] + b;
      GuardAtom(start + 5, check, a1, gap[5..], b);
      if hasGoto {
        EmitGoto(8, start);
        assert start - (|a1 + GuardedBytes(b, check)| + 5) == -(CodeSize(body) + 10);
        assert byteCode == pre + (([op] + U32(off)) + GuardedBytes(b, check) + ([8] + U32(-(CodeSize(body) + 10))));
      } else {
        assert byteCode == pre + (([op] + U32(off)) + GuardedBytes(b, check));
      }
    }

    /** A finite max after min = 0: push and split before the atom, loop and drop behind it. */
    method EmitCounted(start: nat, max: int, check: bool, greedy: bool, ghost pre: Bytes, ghost atom: Code)
      requires byteCode == pre + EncodeAll(atom) && |pre| == start
      modifies this`byteCode
      ensures byteCode == pre + EncodeAll(UpToCode(Guarded(atom, check), max, greedy))
    {
      EncodeGuarded(atom, check);
      ghost var body := Guarded(atom, check);
      EncodeUpTo(body, max, greedy);
      hide EncodeAll, U32, CodeSize, UpToCode, Guarded;
      ghost var b := EncodeAll(atom);
      var len := |byteCode| - start;
      var op := if greedy then 10 else 9;
      var z := CheckSize(check);
      ghost var gap := DbufInsert(start, 10 + z, pre, b);
      assert pre + gap + b == pre + gap[..5] + (gap[5..] + b);
      FillOpU32(start, 16, max, pre, gap[..5], gap[5..] + b);
      ghost var a1 := pre + ([16] + U32(max));
      WordSize(max);
      assert a1 + (gap[5..] + b) == a1 + gap[5..10] + (gap[10..] + b);
      var off := len + 5 + z * 2;
      FillOpU32(start + 5, op, off, a1, gap[5..10], gap[10..] + b);
      ghost var a2 := a1 + ([op] + U32(off));
      WordSize(off);
      assert a2 + (gap[10..] + b) == a2 + gap[10..] + b;
      GuardAtom(start + 10, check, a2, gap[10..], b);
      EmitGoto(15, start + 5);
      EmitOp(17);
      assert start + 5 - (|a2 + GuardedBytes(b, check)| + 5) == -(CodeSize(body) + 10);
      ghost var tail := ([15] + U32(-(CodeSize(body) + 10))) + [17];
      assert byteCode == a2 + GuardedBytes(b, check) + tail;
      assert a2 == pre + (([16] + U32(max)) + ([op] + U32(off)));
      Regroup(pre, ([16] + U32(max)) + ([op] + U32(off)), GuardedBytes(b, check), tail);
    }

    /** The mandatory iterations, min > 1: push before the atom, loop and drop behind it. */
    method EmitRepeat(start0: nat, min: int, ghost pre: Bytes, ghost atom: Code) returns (start: nat, ghost tail: Bytes)
      requires byteCode == pre + EncodeAll(atom) && |pre| == start0 && min != 1
      modifies this`byteCode
      ensures byteCode == pre + EncodeAll(RepeatCode(atom, min))
      ensures start == start0 + 5 && byteCode == pre + ([16] + U32(min)) + EncodeAll(atom) + tail
    {
      hide EncodeAll, U32, CodeSize, RepeatCode;
      ghost var b := EncodeAll(atom);
      ghost var gap := DbufInsert(start0, 5, pre, b);
      FillOpU32(start0, 16, min, pre, gap, b);
      ghost var head := pre + ([16] + U32(min));
      WordSize(min);
      start := start0 + 5;
      EmitLoop(start, head, b);
      tail := ([15] + U32(-(|b| + 5))) + [17];
      RepeatBytes(pre, atom, min);
    }

    /** loop back to `start`, the end of `head`; drop. */
    method EmitLoop(start: nat, ghost head: Bytes, ghost b: Bytes)
      requires byteCode == head + b && |head| == start
      modifies this`byteCode
      ensures byteCode == head + b + (([15] + U32(-(|b| + 5))) + [17])
    {
      hide U32;
      EmitGoto(15, start);
      EmitOp(17);
      assert start - (|head + b| + 5) == -(|b| + 5);
      Assoc(head + b, [15] + U32(-(|b| + 5)), [17]);
    }

    /** The iterations beyond min: a copy of the atom in a loop of its own. */
    method EmitFurther(start: nat, len: nat, min: int, max: int, check: bool, greedy: bool, ghost atom: Code, ghost head: Bytes, ghost tail: Bytes)
      requires byteCode == head + EncodeAll(atom) + tail && |head| == start && len == CodeSize(atom)
      requires 0 <= min <= max <= INT32_MAX
      modifies this`byteCode
      ensures var body := Guarded(atom, check);
        byteCode == old(byteCode) + EncodeAll(
          if max == INT32_MAX then StarCode(body, greedy) else if max > min then UpToCode(body, max - min, greedy) else [])
    {
      hide EncodeAll, U32, CodeSize, UpToCode, StarCode, Guarded;
      if max == INT32_MAX {
        EmitFurtherStar(start, len, check, greedy, atom, head, tail);
      } else if max > min {
        EmitFurtherCounted(start, len, max - min, check, greedy, atom, head, tail);
      } else {
        NoBytes();
        assert byteCode == byteCode + [];
      }
    }

    method EmitFurtherStar(start: nat, len: nat, check: bool, greedy: bool, ghost atom: Code, ghost head: Bytes, ghost tail: Bytes)
      requires byteCode == head + EncodeAll(atom) + tail && |head| == start && len == CodeSize(atom)
      modifies this`byteCode
      ensures byteCode == old(byteCode) + EncodeAll(StarCode(Guarded(atom, check), greedy))
    {
      EncodeGuarded(atom, check);
      ghost var body := Guarded(atom, check);
      EncodeStar(body, greedy);
      hide EncodeAll, U32, CodeSize, StarCode, Guarded;
      ghost var s0, a := byteCode, EncodeAll(atom);
      var op := if greedy then 10 else 9;
      var off := len + 5 + CheckSize(check) * 2;
      WordSize(off);
      var pos := |byteCode|;
      var _ := EmitOpU32(op, off);
      CopyAtom(start, len, check, head, a, tail);
      EmitGoto(8, pos);
      Regroup(s0, [op] + U32(off), GuardedBytes(a, check), [8] + U32(-(CodeSize(body) + 10)));
    }

    method EmitFurtherCounted(start: nat, len: nat, n: nat, check: bool, greedy: bool, ghost atom: Code, ghost head: Bytes, ghost tail: Bytes)
      requires byteCode == head + EncodeAll(atom) + tail && |head| == start && len == CodeSize(atom)
      modifies this`byteCode
      ensures byteCode == old(byteCode) + EncodeAll(UpToCode(Guarded(atom, check), n, greedy))
    {
      EncodeGuarded(atom, check);
      ghost var body := Guarded(atom, check);
      EncodeUpTo(body, n, greedy);
      hide EncodeAll, U32, CodeSize, UpToCode, Guarded;
      ghost var s0, a := byteCode, EncodeAll(atom);
      var op := if greedy then 10 else 9;
      var off := len + 5 + CheckSize(check) * 2;
      WordSize(n);
      WordSize(off);
      var _ := EmitOpU32(16, n);
      var pos := |byteCode|;
      var _ := EmitOpU32(op, off);
      Assoc(s0, [16] + U32(n), [op] + U32(off));
      CopyAtom(start, len, check, head, a, tail);
      EmitGoto(15, pos);
      EmitOp(17);
      ghost var loop := [15] + U32(-(CodeSize(body) + 10));
      ghost var open := ([16] + U32(n)) + ([op] + U32(off));
      Assoc(s0 + open + GuardedBytes(a, check), loop, [17]);
      Regroup(s0, open, GuardedBytes(a, check), loop + [17]);
    }

    /** The copied iteration, appended. */
    method CopyAtom(start: nat, len: nat, check: bool, ghost head: Bytes, ghost a: Bytes, ghost tail: Bytes)
      requires head + a + tail <= byteCode && |head| == start && |a| == len
      modifies this`byteCode
      ensures byteCode == old(byteCode) + GuardedBytes(a, check)
    {
      ghost var s0 := byteCode;
      ghost var more := byteCode[|head + a|..];
      assert byteCode == head + a + more;
      if check {
        EmitOp(26);
        more := more + [26];
      }
      assert byteCode == head + a + more;
      DbufPutSelf(start, len, head, a, more);
      if check { EmitOp(27); }
      assert byteCode == s0 + GuardedBytes(a, check);
    }

    /** The quantifier behind the atom that stands at the end of the buffer. */
    method EmitQuantifier(start0: nat, lastCaptureCount: nat, min: int, max: int, greedy: bool, ghost pre: Bytes, ghost atom: Code)
      requires byteCode == pre + EncodeAll(atom) && |pre| == start0 && RangeCountsFit(atom)
      requires 0 <= min <= max <= INT32_MAX && lastCaptureCount <= captureCount <= 255
      modifies this`byteCode
      ensures byteCode == pre + EncodeAll(QuantifierCode(atom, min, max, greedy, lastCaptureCount, captureCount - lastCaptureCount))
    {
      hide *;
      ghost var captures := captureCount - lastCaptureCount;
      var chars := -1;
      if greedy && max > 0 {
        chars := AtomIsSimple(start0, pre, atom);
      }
      if chars > 0 {
        EmitSimpleGreedy(start0, min, max, chars, pre, atom);
      } else {
        EmitLoops(start0, lastCaptureCount, min, max, greedy, pre, atom);
      }
      QuantifierBytes(pre, atom, min, max, greedy, lastCaptureCount, captures);
    }

    method AtomNeedsCheck(start0: nat, ghost pre: Bytes, ghost atom: Code) returns (check: bool)
      requires byteCode == pre + EncodeAll(atom) && |pre| == start0 && RangeCountsFit(atom)
      ensures check == NeedCheckAdvance(atom)
    {
      hide EncodeAll, RangeCountsFit, NeedCheckAdvance;
      Suffix(pre, EncodeAll(atom));
      check := ScanNeedCheckAdvance(byteCode[start0..], atom);
    }

    method AtomIsSimple(start0: nat, ghost pre: Bytes, ghost atom: Code) returns (chars: int)
      requires byteCode == pre + EncodeAll(atom) && |pre| == start0 && RangeCountsFit(atom)
      ensures chars == SimpleQuantifier(atom)
    {
      hide EncodeAll, RangeCountsFit, SimpleQuantifier;
      Suffix(pre, EncodeAll(atom));
      chars := ScanSimpleQuantifier(byteCode[start0..], atom);
    }

    /** A quantifier without the greedy optimisation. */
    method EmitLoops(start0: nat, lastCaptureCount: nat, min: int, max: int, greedy: bool, ghost pre: Bytes, ghost atom: Code)
      requires byteCode == pre + EncodeAll(atom) && |pre| == start0 && RangeCountsFit(atom)
      requires 0 <= min <= max <= INT32_MAX && lastCaptureCount <= captureCount <= 255
      modifies this`byteCode
      ensures byteCode == pre + LoopBytes(atom, min, max, greedy, lastCaptureCount, captureCount - lastCaptureCount)
    {
      hide EncodeAll, CodeSize, RangeCountsFit, RepeatCode, FurtherCode, ZeroMinCode, ResetCode, NeedCheckAdvance, U32;
      var check := AtomNeedsCheck(start0, pre, atom);
      EncodeAllSize(atom);
      var len := |byteCode| - start0;
      if min == 0 {
        EmitZeroMin(start0, lastCaptureCount, max, check, greedy, pre, atom);
      } else if min == 1 && max == INT32_MAX && !check {
        EmitGoto(if greedy then 9 else 10, start0);
        PlusBytes(pre, atom, greedy);
      } else {
        EmitAtLeastOne(start0, len, min, max, check, greedy, pre, atom);
      }
    }

    method EmitZeroMin(start0: nat, lastCaptureCount: nat, max: int, check: bool, greedy: bool, ghost pre: Bytes, ghost atom: Code)
      requires byteCode == pre + EncodeAll(atom) && |pre| == start0 && check == NeedCheckAdvance(atom)
      requires 0 <= max <= INT32_MAX && lastCaptureCount <= captureCount <= 255
      modifies this`byteCode
      ensures byteCode == pre + (EncodeAll(ResetCode(lastCaptureCount, captureCount - lastCaptureCount)) +
        EncodeAll(ZeroMinCode(atom, max, greedy)))
    {
      hide *;
      ghost var reset := EncodeAll(ResetCode(lastCaptureCount, captureCount - lastCaptureCount));
      NoBytes();
      ZeroMinParts(atom, max, greedy);
      var start := EmitReset(start0, lastCaptureCount, pre, atom);
      if max == 0 {
        byteCode := byteCode[..start];
        assert byteCode == pre + reset + [];
      } else if max == 1 || max == INT32_MAX {
        EmitOptional(start, check, greedy, max == INT32_MAX, pre + reset, atom);
      } else {
        EmitCounted(start, max, check, greedy, pre + reset, atom);
      }
      Assoc(pre, reset, EncodeAll(ZeroMinCode(atom, max, greedy)));
    }

    method EmitAtLeastOne(start0: nat, len: nat, min: int, max: int, check: bool, greedy: bool, ghost pre: Bytes, ghost atom: Code)
      requires byteCode == pre + EncodeAll(atom) && |pre| == start0 && check == NeedCheckAdvance(atom) && len == CodeSize(atom)
      requires 1 <= min <= max <= INT32_MAX
      modifies this`byteCode
      ensures byteCode == pre + (EncodeAll(RepeatCode(atom, min)) + EncodeAll(FurtherCode(atom, min, max, greedy)))
    {
      OnceBytes(atom);
      hide EncodeAll, CodeSize, Guarded, StarCode, UpToCode, RepeatCode, NeedCheckAdvance, U32;
      if min == 1 {
        assert byteCode == pre + EncodeAll(atom) + [];
        EmitFurther(start0, len, min, max, check, greedy, atom, pre, []);
      } else {
        var start, tail := EmitRepeat(start0, min, pre, atom);
        WordSize(min);
        EmitFurther(start, len, min, max, check, greedy, atom, pre + ([16] + U32(min)), tail);
      }
      Assoc(pre, EncodeAll(RepeatCode(atom, min)), EncodeAll(FurtherCode(atom, min, max, greedy)));
    }

    // --- terms ---

    /** re_emit_range */
    method EmitRange(points: seq<nat>) returns (r: EmitResult)
      requires CanonicalPoints(points)
      modifies this`byteCode
      ensures r.Done? || r.TooManyRanges?
      ensures r.Done? <==> |points| / 2 < 65535
      ensures r.Done? ==> byteCode == old(byteCode) + Encode(RangeInstr(points))
      ensures r.TooManyRanges? ==> byteCode == old(byteCode)
    {
      ghost var s0 := byteCode;
      var len := |points| / 2;
      if len >= 65535 {
        return TooManyRanges;
      }
      if len == 0 {
        var _ := EmitOpU32(3, UINT32_MAX);
        return Done;
      }
      var high := points[|points| - 1];
      if high == UINT32_MAX {
        high := points[|points| - 2];
      }
      var wide := high > 0xffff;
      hide U16, U32, EncodePairs;
      byteCode := byteCode + [if wide then 23 else 22];
      byteCode := byteCode + U16(len);
      EmitPairs(points, wide);
      RangeBytes(s0, points, wide);
      return Done;
    }

    method EmitPairs(points: seq<int>, wide: bool)
      requires |points| % 2 == 0
      modifies this`byteCode
      ensures byteCode == old(byteCode) + EncodePairs(RangePairs(points, wide), wide)
    {
      hide U16, U32, EncodePairs, RangePairs;
      ghost var head, all := byteCode, EncodePairs(RangePairs(points, wide), wide);
      var i := 0;
      assert points[0..] == points;
      while i < |points|
        invariant 0 <= i <= |points| && i % 2 == 0
        invariant head + all == byteCode + EncodePairs(RangePairs(points[i..], wide), wide)
      {
        ghost var rest := points[i..];
        assert rest[2..] == points[i + 2..];
        PairsHead(rest, wide);
        ghost var before, tail := byteCode, EncodePairs(RangePairs(rest[2..], wide), wide);
        var high := points[i + 1] - 1;
        if wide {
          byteCode := byteCode + (U32(points[i]) + U32(high));
        } else {
          if high == UINT32_MAX - 1 {
            high := 0xffff;
          }
          byteCode := byteCode + (U16(points[i]) + U16(high));
        }
        Assoc(before, byteCode[|before|..], tail);
        assert byteCode == before + byteCode[|before|..];
        i := i + 2;
      }
      assert points[i..] == [];
      NoPairs(wide);
    }

    /** One character test. */
    method EmitTest(x: CharTest) returns (r: EmitResult)
      requires ValidTest(x)
      modifies this`byteCode
      ensures r.Done? || r.TooManyRanges?
      ensures r.Done? <==> (x.Points? ==> |x.points| / 2 < 65535)
      ensures r.Done? ==> byteCode == old(byteCode) + Encode(TestInstr(flags, x))
    {
      match x
      case Points(points) => r := EmitRange(points);
      case Dot =>
        EmitOp(if flags.dotAll then 5 else 4);
        r := Done;
      case Exactly(c0) =>
        var c := c0;
        if flags.ignoreCase {
          c := flags.canonicalize(c);
        }
        if c <= 0x7f {
          EmitOpU8(1, c);
        } else if c <= 0xffff {
          byteCode := byteCode + [2];
          byteCode := byteCode + U16(c);
        } else {
          var _ := EmitOpU32(3, c);
        }
        r := Done;
    }

    /** re_parse_term, for one term. */
    method EmitTerm(t: Term, back: bool) returns (r: EmitResult)
      requires ValidTerm(t) && captureCount <= 255
      modifies this
      ensures Emitted(r, old(byteCode), old(captureCount), byteCode, captureCount,
        TermCode(flags, t, back, old(captureCount)), TermCaptures(t), FewRanges(t),
        TermRoom(flags, t, back, old(captureCount), |old(byteCode)|))
      decreases t, 1
    {
      if |byteCode| >= SIZE_MAX {
        return OutOfMemory;
      }
      hide Emitted, EncodeAll, QuantifierCode, CodeSize;
      match t
      case Group(d) => r := EmitDisjunction(d, back);
      case Capture(d) => r := EmitCapture(d, back);
      case Look(neg, b, d) => r := EmitLook(neg, b, d);
      case Quantified(a, min, max, greedy) => r := EmitQuantified(a, min, max, greedy, back);
      case _ => r := EmitAtom(t, back);
    }

    /** Terms without a body. */
    method EmitAtom(t: Term, back: bool) returns (r: EmitResult)
      requires t.One? || t.LineStart? || t.LineEnd? || t.WordBoundary? || t.BackReference?
      requires ValidTerm(t) && captureCount <= 255
      modifies this`byteCode
      ensures Emitted(r, old(byteCode), old(captureCount), byteCode, captureCount,
        TermCode(flags, t, back, old(captureCount)), TermCaptures(t), FewRanges(t), true)
    {
      hide EncodeAll, Encode, U8;
      PlainBytes();
      match t
      case One(x) => r := EmitOne(x, back);
      case LineStart =>
        EmitOp(6);
        r := Done;
      case LineEnd =>
        EmitOp(7);
        r := Done;
      case WordBoundary(neg) =>
        EmitOp(if neg then 19 else 18);
        r := Done;
      case BackReference(i) =>
        EmitOpU8(if back then 21 else 20, i);
        BackRefBytes(back, i);
        r := Done;
    }

    method EmitQuantified(a: Term, min: int, max: int, greedy: bool, back: bool) returns (r: EmitResult)
      requires ValidTerm(a) && 0 <= min <= max <= INT32_MAX && captureCount <= 255
      modifies this
      ensures Emitted(r, old(byteCode), old(captureCount), byteCode, captureCount,
        QuantifierCode(TermCode(flags, a, back, old(captureCount)), min, max, greedy, old(captureCount), TermCaptures(a)),
        TermCaptures(a), FewRanges(a), TermRoom(flags, a, back, old(captureCount), |old(byteCode)|))
      decreases a, 2
    {
      hide EncodeAll, TermCode, QuantifierCode, RangeCountsFit;
      var start, lastCaptureCount := |byteCode|, captureCount;
      ghost var pre := byteCode;
      r := EmitTerm(a, back);
      if r.Done? {
        TermCounts(flags, a, back, lastCaptureCount);
        EmitQuantifier(start, lastCaptureCount, min, max, greedy, pre, TermCode(flags, a, back, lastCaptureCount));
      }
    }

    method EmitOne(x: CharTest, back: bool) returns (r: EmitResult)
      requires ValidTest(x)
      modifies this`byteCode
      ensures r.Done? || r.TooManyRanges?
      ensures r.Done? <==> (x.Points? ==> |x.points| / 2 < 65535)
      ensures r.Done? ==>
        byteCode == old(byteCode) + EncodeAll(if back then [Prev, TestInstr(flags, x), Prev] else [TestInstr(flags, x)])
    {
      ghost var i, s0 := TestInstr(flags, x), byteCode;
      hide ValidTest, EncodeAll, Encode;
      EncodeOne(i);
      if back { EmitOp(28); }
      r := EmitTest(x);
      if r.Done? && back {
        EmitOp(28);
        TestBytes(s0, i);
      }
    }

    method EmitCapture(d: Disjunction, back: bool) returns (r: EmitResult)
      requires ValidDisjunction(d) && captureCount <= 255
      modifies this
      ensures Emitted(r, old(byteCode), old(captureCount), byteCode, captureCount,
        TermCode(flags, Capture(d), back, old(captureCount)), 1 + DisjunctionCaptures(d), DisjunctionFewRanges(d),
        DisjunctionRoom(flags, d, back, old(captureCount) + 1, |old(byteCode)| + 2))
      decreases d, 2
    {
      if captureCount >= CAPTURE_COUNT_MAX {
        return TooManyCaptures;
      }
      r := EmitGroup(d, back);
    }

    /** The saves around the body of a group. */
    method EmitGroup(d: Disjunction, back: bool) returns (r: EmitResult)
      requires ValidDisjunction(d) && captureCount < 255
      modifies this
      ensures Emitted(r, old(byteCode), old(captureCount), byteCode, captureCount,
        TermCode(flags, Capture(d), back, old(captureCount)), 1 + DisjunctionCaptures(d), DisjunctionFewRanges(d),
        DisjunctionRoom(flags, d, back, old(captureCount) + 1, |old(byteCode)| + 2))
      decreases d, 1
    {
      hide *;
      ghost var s0, f := byteCode, flags;
      var index := captureCount;
      SaveSize(index);
      CaptureWraps(s0, f, d, back, index);
      captureCount := captureCount + 1;
      var z := if back then 1 else 0;
      EmitOpU8(12 + z, index);
      r := EmitDisjunction(d, back);
      EmittedAround(r, s0, [12 + z] + U8(index), byteCode, [13 - z] + U8(index), index, captureCount, DisjunctionCode(f, d, back, index + 1),
        TermCode(f, Capture(d), back, index), DisjunctionCaptures(d), DisjunctionFewRanges(d), DisjunctionRoom(f, d, back, index + 1, |s0| + 2));
      if r.Done? {
        EmitOpU8(13 - z, index);
      }
    }

    method EmitLook(neg: bool, b: bool, d: Disjunction) returns (r: EmitResult)
      requires ValidDisjunction(d) && captureCount <= 255
      modifies this
      ensures Emitted(r, old(byteCode), old(captureCount), byteCode, captureCount,
        TermCode(flags, Look(neg, b, d), b, old(captureCount)), DisjunctionCaptures(d), DisjunctionFewRanges(d),
        DisjunctionRoom(flags, d, b, old(captureCount), |old(byteCode)| + 5))
      decreases d, 1
    {
      hide EncodeAll, DisjunctionCode, U32, CodeSize;
      ghost var s0 := byteCode;
      ghost var body := DisjunctionCode(flags, d, b, captureCount);
      var op := if neg then 25 else 24;
      WordSize(0);
      var pos := EmitOpU32(op, 0);
      r := EmitDisjunction(d, b);
      if r.Done? {
        EmitOp(11);
        EncodeAllSize(body);
        ghost var rest := EncodeAll(body) + [11];
        assert byteCode == (s0 + [op]) + U32(0) + rest;
        PutU32(pos, |byteCode| - (pos + 4), s0 + [op], U32(0), rest);
        var look := Lookahead(neg, CodeSize(body) + 1);
        LookBytes(s0, look, body);
      }
    }

    /** re_parse_alternative: backward, each new term is moved in front of the previous ones. */
    method EmitAlternative(a: Alternative, back: bool) returns (r: EmitResult)
      requires ValidAlternative(a) && captureCount <= 255
      modifies this
      ensures Emitted(r, old(byteCode), old(captureCount), byteCode, captureCount,
        AlternativeCode(flags, a, back, old(captureCount)), AlternativeCaptures(a), AlternativeFewRanges(a),
        AlternativeRoom(flags, a, back, old(captureCount), |old(byteCode)|))
      decreases a, 0
    {
      hide EncodeAll, TermCode;
      match a
      case Empty =>
        if |byteCode| >= SIZE_MAX {
          return OutOfMemory;
        }
        NoBytes();
        r := Done;
      case Then(init, last) =>
        var start := |byteCode|;
        ghost var s0, cc := byteCode, captureCount;
        r := EmitAlternative(init, back);
        if r.Done? {
          var termStart := |byteCode|;
          ghost var first := AlternativeCode(flags, init, back, cc);
          ghost var term := TermCode(flags, last, back, captureCount);
          EncodeAllSize(first);
          r := EmitTerm(last, back);
          if r.Done? {
            if back {
              MoveTerm(start, termStart, s0, EncodeAll(first), EncodeAll(term));
              EncodeAllAppend(term, first);
            } else {
              EncodeAllAppend(first, term);
              Assoc(s0, EncodeAll(first), EncodeAll(term));
            }
          }
        }
    }

    /** The term at the end of the buffer is moved to `start`. */
    method MoveTerm(start: nat, termStart: nat, ghost pre: Bytes, ghost first: Bytes, ghost term: Bytes)
      requires byteCode == pre + first + term && |pre| == start && |pre + first| == termStart
      modifies this`byteCode
      ensures byteCode == pre + (term + first)
    {
      assert byteCode[..start] == pre && byteCode[start..termStart] == first && byteCode[termStart..] == term;
      byteCode := byteCode[..start] + byteCode[termStart..] + byteCode[start..termStart];
    }

    /** re_parse_disjunction: a split is inserted before what has been emitted so far, a goto
        behind it skips the next alternative and is patched when that one is complete. */
    method EmitDisjunction(d: Disjunction, back: bool) returns (r: EmitResult)
      requires ValidDisjunction(d) && captureCount <= 255
      modifies this
      ensures Emitted(r, old(byteCode), old(captureCount), byteCode, captureCount,
        DisjunctionCode(flags, d, back, old(captureCount)), DisjunctionCaptures(d), DisjunctionFewRanges(d),
        DisjunctionRoom(flags, d, back, old(captureCount), |old(byteCode)|))
      decreases d, 0
    {
      hide EncodeAll, AlternativeCode, U32, CodeSize;
      match d
      case Only(a) =>
        if |byteCode| >= SIZE_MAX {
          return OutOfMemory;
        }
        r := EmitAlternative(a, back);
      case Or(l, a) =>
        var start := |byteCode|;
        ghost var s0, cc := byteCode, captureCount;
        r := EmitDisjunction(l, back);
        if r.Done? {
          ghost var left := DisjunctionCode(flags, l, back, cc);
          ghost var right := AlternativeCode(flags, a, back, captureCount);
          EncodeAllSize(left);
          WordSize(|EncodeAll(left)| + 5);
          WordSize(0);
          var pos := OpenAlternative(start, s0, EncodeAll(left));
          r := EmitAlternative(a, back);
          if r.Done? {
            EncodeAllSize(right);
            CloseAlternative(pos, s0, EncodeAll(left), EncodeAll(right));
            OrBytes(s0, left, right);
          }
        }
    }

    /** Returns the offset of the goto operand to patch. */
    method OpenAlternative(start: nat, ghost pre: Bytes, ghost left: Bytes) returns (pos: nat)
      requires byteCode == pre + left && |pre| == start
      modifies this`byteCode
      ensures byteCode == pre + ([10] + U32(|left| + 5)) + left + ([8] + U32(0))
      ensures pos == |pre| + |left| + 6
    {
      hide U32;
      var len := |byteCode| - start;
      ghost var gap := DbufInsert(start, 5, pre, left);
      FillOpU32(start, 10, len + 5, pre, gap, left);
      WordSize(len + 5);
      pos := EmitOpU32(8, 0);
    }

    method CloseAlternative(pos: nat, ghost pre: Bytes, ghost left: Bytes, ghost right: Bytes)
      requires byteCode == pre + ([10] + U32(|left| + 5)) + left + ([8] + U32(0)) + right
      requires pos == |pre| + |left| + 6
      modifies this`byteCode
      ensures byteCode == pre + ([10] + U32(|left| + 5)) + left + ([8] + U32(|right|)) + right
    {
      hide U32;
      WordSize(0);
      WordSize(|left| + 5);
      ghost var head := pre + ([10] + U32(|left| + 5)) + left + [8];
      assert byteCode == head + U32(0) + right;
      PutU32(pos, |byteCode| - (pos + 4), head, U32(0), right);
    }
  }

  lemma PlainBytes()
    ensures EncodeAll([LineStartOp]) == [6] && EncodeAll([LineEndOp]) == [7]
    ensures EncodeAll([WordBoundaryOp(false)]) == [18] && EncodeAll([WordBoundaryOp(true)]) == [19]
    ensures EncodeAll([Prev]) == [28]
  {
    EncodeOne(LineStartOp);
    EncodeOne(LineEndOp);
    EncodeOne(WordBoundaryOp(false));
    EncodeOne(WordBoundaryOp(true));
    EncodeOne(Prev);
  }

  lemma BackRefBytes(back: bool, i: int)
    ensures EncodeAll([BackRef(back, i)]) == [if back then 21 else 20] + U8(i)
  {
    EncodeOne(BackRef(back, i));
  }

  /** first; body; last */
  lemma WrapBytes(s0: Bytes, first: Instr, body: Code, last: Instr)
    ensures s0 + Encode(first) + EncodeAll(body) + Encode(last) == s0 + EncodeAll([first] + body + [last])
  {
    EncodeThree([first], body, [last]);
    EncodeOne(first);
    EncodeOne(last);
    hide EncodeAll, Encode;
    Regroup(s0, Encode(first), EncodeAll(body), Encode(last));
  }

  lemma SaveSize(k: int)
    ensures |U8(k)| == 1
  {
  }

  /** `whole` is the code `body` with these bytes around it. */
  ghost predicate Wraps(s0: Bytes, first: Bytes, body: Code, last: Bytes, whole: Code) {
    s0 + first + EncodeAll(body) + last == s0 + EncodeAll(whole)
  }

  lemma CaptureWraps(s0: Bytes, f: Flags, d: Disjunction, back: bool, cc: nat)
    requires ValidDisjunction(d)
    ensures ValidTerm(Capture(d))
    ensures Wraps(s0, [if back then 13 else 12] + U8(cc), DisjunctionCode(f, d, back, cc + 1), [if back then 12 else 13] + U8(cc),
      TermCode(f, Capture(d), back, cc))
  {
    hide EncodeAll, Encode, U8, DisjunctionCode, TermCode;
    var body := DisjunctionCode(f, d, back, cc + 1);
    CaptureParts(f, d, back, cc);
    SaveBytes(cc);
    if back {
      WrapBytes(s0, SaveEnd(cc), body, SaveStart(cc));
    } else {
      WrapBytes(s0, SaveStart(cc), body, SaveEnd(cc));
    }
  }

  /** What is emitted around the body of a group turns it into the group. */
  lemma EmittedAround(r: EmitResult, s0: Bytes, first: Bytes, bytes: Bytes, last: Bytes, index: nat, count: nat, body: Code, whole: Code,
        captures: nat, few: bool, room: bool)
    requires Emitted(r, s0 + first, index + 1, bytes, count, body, captures, few, room) && Wraps(s0, first, body, last, whole)
    ensures Emitted(r, s0, index, if r.Done? then bytes + last else bytes, count, whole, 1 + captures, few, room)
  {
    hide EncodeAll;
  }

  lemma CaptureParts(f: Flags, d: Disjunction, back: bool, cc: nat)
    requires ValidDisjunction(d)
    ensures ValidTerm(Capture(d))
    ensures var body := DisjunctionCode(f, d, back, cc + 1);
      TermCode(f, Capture(d), back, cc) == if back then [SaveEnd(cc)] + body + [SaveStart(cc)] else [SaveStart(cc)] + body + [SaveEnd(cc)]
    ensures TermCaptures(Capture(d)) == 1 + DisjunctionCaptures(d)
  {
    hide DisjunctionCode, DisjunctionCaptures;
  }

  lemma SaveBytes(k: int)
    ensures [12] + U8(k) == Encode(SaveStart(k)) && [13] + U8(k) == Encode(SaveEnd(k))
  {
  }

  lemma TestBytes(s0: Bytes, i: Instr)
    ensures s0 + [28] + Encode(i) + [28] == s0 + EncodeAll([Prev, i, Prev])
  {
    EncodeOne(Prev);
    PrevByte();
    hide EncodeAll, Encode;
    EncodeThree([Prev], [i], [Prev]);
    EncodeOne(i);
    assert [Prev] + [i] + [Prev] == [Prev, i, Prev];
    Regroup(s0, [28], Encode(i), [28]);
  }

  lemma PlusBytes(pre: Bytes, atom: Code, greedy: bool)
    ensures pre + EncodeAll(atom) + ([if greedy then 9 else 10] + U32(|pre| - (|pre + EncodeAll(atom)| + 5))) ==
      pre + EncodeAll(atom + [Split(!greedy, -(CodeSize(atom) + 5))])
  {
    hide *;
    PlusTail(pre, atom, greedy);
    AppendBytes(pre, atom, Split(!greedy, -(CodeSize(atom) + 5)),
      [if greedy then 9 else 10] + U32(|pre| - (|pre + EncodeAll(atom)| + 5)));
  }

  lemma PlusTail(pre: Bytes, atom: Code, greedy: bool)
    ensures [if greedy then 9 else 10] + U32(|pre| - (|pre + EncodeAll(atom)| + 5)) == Encode(Split(!greedy, -(CodeSize(atom) + 5)))
  {
    EncodeAllSize(atom);
    hide *;
    SplitBytes(greedy, -(CodeSize(atom) + 5));
  }

  lemma AppendBytes(pre: Bytes, code: Code, i: Instr, tail: Bytes)
    requires tail == Encode(i)
    ensures pre + EncodeAll(code) + tail == pre + EncodeAll(code + [i])
  {
    hide *;
    EncodeAllAppend(code, [i]);
    EncodeOne(i);
    Assoc(pre, EncodeAll(code), tail);
  }

  lemma SplitBytes(greedy: bool, off: int)
    ensures Encode(Split(!greedy, off)) == [if greedy then 9 else 10] + U32(off)
  {
    hide U32;
  }

  lemma OnceBytes(atom: Code)
    ensures EncodeAll(RepeatCode(atom, 1)) == EncodeAll(atom)
  {
  }

  lemma NoPairs(wide: bool)
    ensures EncodePairs(RangePairs([], wide), wide) == []
  {
  }

  lemma RangeBytes(s0: Bytes, points: seq<nat>, wide: bool)
    requires CanonicalPoints(points) && points != []
    requires var last := points[|points| - 1];
      wide <==> (if last == UINT32_MAX then points[|points| - 2] else last) > 0xffff
    ensures s0 + [if wide then 23 else 22] + U16(|points| / 2) + EncodePairs(RangePairs(points, wide), wide) ==
      s0 + Encode(RangeInstr(points))
  {
    RangePairsAt(points, wide);
    hide U16, EncodePairs, RangePairs, CanonicalPoints;
    Regroup(s0, [if wide then 23 else 22], U16(|points| / 2), EncodePairs(RangePairs(points, wide), wide));
    Assoc([if wide then 23 else 22], U16(|points| / 2), EncodePairs(RangePairs(points, wide), wide));
  }

  lemma PairsHead(points: seq<int>, wide: bool)
    requires |points| % 2 == 0 && points != []
    ensures var high := StoredHigh(points[1] - 1, wide);
      EncodePairs(RangePairs(points, wide), wide) ==
      (if wide then U32(points[0]) + U32(high) else U16(points[0]) + U16(high)) + EncodePairs(RangePairs(points[2..], wide), wide)
  {
  }

  lemma LookBytes(s0: Bytes, look: Instr, body: Code)
    requires look.Lookahead?
    ensures s0 + [if look.negated then 25 else 24] + U32(look.offset) + (EncodeAll(body) + [11]) ==
      s0 + EncodeAll([look] + body + [Match])
  {
    EncodeThree([look], body, [Match]);
    EncodeOne(look);
    EncodeOne(Match);
    hide EncodeAll, U32;
  }

  lemma OrBytes(s0: Bytes, left: Code, right: Code)
    ensures s0 + ([10] + U32(|EncodeAll(left)| + 5)) + EncodeAll(left) + ([8] + U32(|EncodeAll(right)|)) + EncodeAll(right) ==
      s0 + EncodeAll([Split(true, CodeSize(left) + 5)] + left + [Goto(CodeSize(right))] + right)
  {
    var split, jump := Split(true, CodeSize(left) + 5), Goto(CodeSize(right));
    EncodeAllSize(left);
    EncodeAllSize(right);
    EncodeThree([split], left, [jump]);
    EncodeAllAppend([split] + left + [jump], right);
    EncodeOne(split);
    EncodeOne(jump);
    hide EncodeAll, U32, CodeSize;
    Regroup(s0, Encode(split), EncodeAll(left), Encode(jump));
    Assoc(s0, Encode(split) + EncodeAll(left) + Encode(jump), EncodeAll(right));
  }

  lemma ResetBytes(first: nat, captures: nat)
    ensures EncodeAll(ResetCode(first, captures)) ==
      if captures == 0 then [] else [14, Low(first), Low(first + captures - 1)]
  {
    hide Low;
    if captures != 0 {
      EncodeOne(SaveReset(first, first + captures - 1));
    }
  }

  lemma WordSize(v: int)
    ensures |U32(v)| == 4
  {
  }

  lemma Suffix(a: Bytes, b: Bytes)
    ensures (a + b)[|a|..] == b
  {
  }

  lemma Assoc(a: Bytes, b: Bytes, c: Bytes)
    ensures a + b + c == a + (b + c)
  {
  }

  lemma Regroup(a: Bytes, b: Bytes, c: Bytes, d: Bytes)
    ensures (a + b) + c + d == a + (b + c + d)
  {
  }

  lemma PrevByte()
    ensures Encode(Prev) == [28]
  {
  }

  lemma MatchByte()
    ensures Encode(Match) == [11]
  {
  }

  lemma NoBytes()
    ensures EncodeAll([]) == []
  {
  }

  lemma EncodeQuant(i: Instr)
    requires i.SimpleGreedyQuant?
    ensures Encode(i) == [29] + (U32(i.length) + U32(i.min) + U32(i.max) + U32(i.chars))
  {
  }
}
