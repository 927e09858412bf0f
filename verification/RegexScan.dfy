/** The linear scans over emitted bytes: re_need_check_advance, re_is_simple_quantifier and
    lre_compute_stack_size. */
module RegexScan {
  import opened Words
  import opened RegexCode
  import opened RegexBytes
  import opened RegexStack

  /** reopcode_info[op].size: the size without the ranges of a class. */
  function OpSize(op: byte): nat {
    if op == 1 || op == 12 || op == 13 || op == 20 || op == 21 then 2
    else if op == 2 || op == 14 || op == 22 || op == 23 then 3
    else if op == 3 || op == 8 || op == 9 || op == 10 || op == 15 || op == 16 || op == 24 || op == 25 then 5
    else if op == 29 then 17
    else 1
  }

  /** The range counts of all classes fit their 16-bit field. */
  predicate RangeCountsFit(code: Code) {
    forall k :: 0 <= k < |code| ==>
      (code[k].Range? ==> |code[k].ranges| < 0x1_0000) && (code[k].Range32? ==> |code[k].ranges| < 0x1_0000)
  }

  /** `rest` is what remains of the code from position `pos` on. */
  predicate Remaining(bc: Bytes, pos: int, rest: Code) {
    Stands(bc, pos, EncodeAll(rest)) && pos + CodeSize(rest) == |bc| && RangeCountsFit(rest)
  }

  lemma RemainingAll(bc: Bytes, code: Code)
    requires bc == EncodeAll(code) && RangeCountsFit(code)
    ensures Remaining(bc, 0, code)
  {
    EncodeAllSize(code);
  }

  lemma RemainingNone(bc: Bytes, pos: int, rest: Code)
    requires Remaining(bc, pos, rest) && pos >= |bc|
    ensures rest == []
  {
  }

  function RangePart(i: Instr): nat {
    if i.Range? then 4 * |i.ranges| else if i.Range32? then 8 * |i.ranges| else 0
  }

  /** What the scan sees at the start of an instruction. */
  lemma ScanHead(bc: Bytes, pos: int, rest: Code)
    requires Remaining(bc, pos, rest) && pos < |bc|
    ensures 0 <= pos && rest != [] && bc[pos] == Opcode(rest[0])
    ensures pos + InstrSize(rest[0]) <= |bc| && Remaining(bc, pos + InstrSize(rest[0]), rest[1..])
    ensures bc[pos] == 22 || bc[pos] == 23 ==> pos + 3 <= |bc|
    ensures InstrSize(rest[0]) == OpSize(bc[pos]) +
      (if bc[pos] == 22 then 4 * GetU16(bc, pos + 1) else if bc[pos] == 23 then 8 * GetU16(bc, pos + 1) else 0)
  {
    hide Encode, EncodePairs, U16, GetU16, U32;
    var i := rest[0];
    EncodeSize(i);
    EncodeAllSize(rest[1..]);
    StandsAppend(bc, pos, Encode(i), EncodeAll(rest[1..]));
    hide Stands;
    StandsRange(bc, pos, Encode(i));
    ReadHead(bc, pos, i);
    SizeByOpcode(i);
  }

  lemma SizeByOpcode(i: Instr)
    ensures InstrSize(i) == OpSize(Opcode(i)) + RangePart(i)
  {
  }

  lemma ReadHead(bc: Bytes, pos: int, i: Instr)
    requires Stands(bc, pos, Encode(i))
    requires (i.Range? || i.Range32?) ==> |i.ranges| < 0x1_0000
    ensures 0 <= pos < |bc| && bc[pos] == Opcode(i)
    ensures i.Range? || i.Range32? ==> pos + 3 <= |bc| && GetU16(bc, pos + 1) == |i.ranges|
  {
    hide U16, GetU16, U32, EncodePairs;
    StandsAppend(bc, pos, [Opcode(i)], Operands(i));
    assert bc[pos] == bc[pos..pos + 1][0];
    hide Stands;
    if i.Range? || i.Range32? {
      StandsAppend(bc, pos + 1, U16(|i.ranges|), EncodePairs(i.ranges, i.Range32?));
      StandsRange(bc, pos + 1, U16(|i.ranges|));
      TwoBytes(|i.ranges|);
      GetU16At(bc, pos + 1, |i.ranges|);
    }
  }

  lemma TwoBytes(v: int)
    ensures |U16(v)| == 2
  {
  }

  /** re_need_check_advance: true if the code may leave the cursor where it is. */
  method ScanNeedCheckAdvance(bc: Bytes, ghost code: Code) returns (ret: bool)
    requires bc == EncodeAll(code) && RangeCountsFit(code)
    ensures ret == NeedCheckAdvance(code)
  {
    hide Remaining, EncodeAll, RangeCountsFit, GetU16;
    RemainingAll(bc, code);
    ret := true;
    var pos := 0;
    ghost var rest := code;
    while pos < |bc|
      invariant 0 <= pos <= |bc| && Remaining(bc, pos, rest)
      invariant NeedCheckAdvance(code) == (!AllPredictable(rest) || (ret && !HasCharOp(rest)))
    {
      ScanHead(bc, pos, rest);
      var opcode := bc[pos];
      var len := OpSize(opcode);
      if opcode == 22 {
        len := len + GetU16(bc, pos + 1) * 4;
        ret := false;
      } else if opcode == 23 {
        len := len + GetU16(bc, pos + 1) * 8;
        ret := false;
      } else if 1 <= opcode <= 5 {
        ret := false;
      } else if opcode == 6 || opcode == 7 || opcode == 16 || opcode == 26 || opcode == 17 || opcode == 18 ||
                opcode == 19 || opcode == 28 {
      } else if 12 <= opcode <= 14 || opcode == 20 || opcode == 21 {
      } else {
        return true;
      }
      pos := pos + len;
      rest := rest[1..];
    }
    RemainingNone(bc, pos, rest);
  }

  /** re_is_simple_quantifier: the number of characters of a straight-line atom, or -1. */
  method ScanSimpleQuantifier(bc: Bytes, ghost code: Code) returns (count: int)
    requires bc == EncodeAll(code) && RangeCountsFit(code)
    ensures count == SimpleQuantifier(code)
  {
    hide Remaining, EncodeAll, RangeCountsFit, GetU16;
    RemainingAll(bc, code);
    count := 0;
    var pos := 0;
    ghost var rest := code;
    while pos < |bc|
      invariant 0 <= pos <= |bc| && Remaining(bc, pos, rest)
      invariant count >= 0 && AllSimple(code) == AllSimple(rest) && CharOpCount(code) == count + CharOpCount(rest)
    {
      ScanHead(bc, pos, rest);
      var opcode := bc[pos];
      var len := OpSize(opcode);
      if opcode == 22 {
        len := len + GetU16(bc, pos + 1) * 4;
        count := count + 1;
      } else if opcode == 23 {
        len := len + GetU16(bc, pos + 1) * 8;
        count := count + 1;
      } else if 1 <= opcode <= 5 {
        count := count + 1;
      } else if opcode == 6 || opcode == 7 || opcode == 18 || opcode == 19 {
      } else {
        return -1;
      }
      pos := pos + len;
      rest := rest[1..];
    }
    RemainingNone(bc, pos, rest);
  }

  const STACK_SIZE_MAX := 255

  lemma EffectByOpcode(i: Instr)
    ensures var op := Opcode(i);
      StackEffect(i) == if op == 16 || op == 26 then 1 else if op == 17 || op == 27 then -1 else 0
    ensures i.Drop? || i.CheckAdvance? <==> Opcode(i) == 17 || Opcode(i) == 27
  {
  }

  lemma NextDepth(code: Code, done: Code, rest: Code)
    requires code == done + rest && rest != [] && AllOk(code, done, rest)
    ensures rest[0].Drop? || rest[0].CheckAdvance? ==> TotalEffect(done) >= 1
    ensures code == done + [rest[0]] + rest[1..] && AllOk(code, done + [rest[0]], rest[1..])
    ensures TotalEffect(done + [rest[0]]) == TotalEffect(done) + StackEffect(rest[0])
  {
    DepthAppend(done, rest, 0);
    EffectAppend(done, [rest[0]]);
    OneEffect(rest[0]);
  }

  /** lre_compute_stack_size: the maximum depth of the linear pass, or -1 if it exceeds what
      one byte can record. The assertion on the stack size before a pop holds for sound code. */
  method ScanStackSize(bc: Bytes, ghost code: Code) returns (stackSizeMax: int)
    requires bc == EncodeAll(code) && RangeCountsFit(code) && Sound(code)
    ensures stackSizeMax == if MaxDepth(code) > 255 then -1 else MaxDepth(code)
  {
    hide Remaining, EncodeAll, RangeCountsFit, GetU16, CodeSize, AllOk, TotalEffect, StackEffect, Opcode, InstrSize;
    RemainingAll(bc, code);
    NothingOk(code, []);
    var stackSize := 0;
    stackSizeMax := 0;
    var pos := 0;
    ghost var done, rest: Code := [], code;
    while pos < |bc|
      invariant 0 <= pos <= |bc| && Remaining(bc, pos, rest)
      invariant code == done + rest && AllOk(code, done, rest) && stackSize == TotalEffect(done)
      invariant 0 <= stackSizeMax <= STACK_SIZE_MAX && stackSize <= stackSizeMax
      invariant MaxDepth(code) == MaxDepthFrom(rest, stackSize, stackSizeMax)
      decreases |bc| - pos
    {
      ScanHead(bc, pos, rest);
      NextDepth(code, done, rest);
      EffectByOpcode(rest[0]);
      var opcode := bc[pos];
      var len := OpSize(opcode);
      if opcode == 16 || opcode == 26 {
        stackSize := stackSize + 1;
        if stackSize > stackSizeMax {
          if stackSize > STACK_SIZE_MAX {
            MaxDepthGrows(rest[1..], stackSize, stackSize);
            return -1;
          }
          stackSizeMax := stackSize;
        }
      } else if opcode == 17 || opcode == 27 {
        assert stackSize > 0;
        stackSize := stackSize - 1;
      } else if opcode == 22 {
        len := len + GetU16(bc, pos + 1) * 4;
      } else if opcode == 23 {
        len := len + GetU16(bc, pos + 1) * 8;
      }
      pos := pos + len;
      done, rest := done + [rest[0]], rest[1..];
    }
    RemainingNone(bc, pos, rest);
  }

  lemma {:induction false} MaxDepthGrows(code: Code, depth: int, max: nat)
    ensures MaxDepthFrom(code, depth, max) >= max
    decreases |code|
  {
    if code != [] {
      var next := depth + StackEffect(code[0]);
      MaxDepthGrows(code[1..], next, if next > max then next else max);
    }
  }
}
