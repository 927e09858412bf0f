/** Reading instructions and character classes from the bytes of a program. */
module RegexFetch {
  import opened RegexInput
  import opened RegexTerm
  import opened RegexCode
  import opened RegexMatcher
  import opened RegexMachine
  import opened RegexBytes
  import opened RegexScan
  import opened RegexEncodable
  import opened RegexProgram

  /** Every instruction of the machine is read back from the bytes, and can be searched. */
  ghost predicate Loaded(bc: Bytes, m: Machine) {
    forall k :: k in m.program ==> Decode(bc, k) == Instruction(m.program[k]) && Fits(m.program[k])
  }

  lemma {:induction false} LayoutFits(code: Code, pc: int, k: int)
    requires AllFit(code) && k in Layout(code, pc)
    ensures Fits(Layout(code, pc)[k])
    decreases |code|
  {
    hide Fits;
    if k != pc {
      LayoutFits(code[1..], pc + InstrSize(code[0]), k);
    }
  }

  lemma ProgramLoaded(env: Env, d: Disjunction, sticky: bool)
    requires ValidDisjunction(d) && ValidFlags(env.flags) && DisjunctionFewRanges(d) && 1 + DisjunctionCaptures(d) <= 255
    requires Small(ProgramCode(env.flags, d, sticky))
    ensures Loaded(EncodeAll(ProgramCode(env.flags, d, sticky)), Compiled(env, d, sticky))
  {
    hide EncodeAll, ProgramCode, AllFit, Fits, Layout, Decode, Small;
    var code := ProgramCode(env.flags, d, sticky);
    var bc := EncodeAll(code);
    ProgramFits(env.flags, d, sticky);
    forall k | k in Layout(code, 0) ensures Decode(bc, k) == Instruction(Layout(code, 0)[k]) && Fits(Layout(code, 0)[k]) {
      BytesDecode(bc, code, 0, k);
      LayoutFits(code, 0, k);
    }
  }

  /** The opcode of the instruction at `pc`, and room for its fixed operands. */
  lemma FetchOpcode(bc: Bytes, pc: int, i: Instr)
    requires Decode(bc, pc) == Instruction(i)
    ensures 0 <= pc < |bc| && bc[pc] == Opcode(i) && pc + OpSize(bc[pc]) <= |bc|
  {
    hide GetU16, GetU32, GetI32, DecodePairs;
  }

  /** The operands of the instruction at `pc`. */
  lemma FetchOperands(bc: Bytes, pc: int, i: Instr)
    requires Decode(bc, pc) == Instruction(i) && 0 <= pc && pc + OpSize(Opcode(i)) <= |bc|
    ensures i.SaveStart? || i.SaveEnd? || i.BackRef? ==> i.index == bc[pc + 1]
    ensures i.SaveReset? ==> i.first == bc[pc + 1] && i.last == bc[pc + 2]
    ensures i.Goto? || i.Split? || i.Loop? || i.Lookahead? ==> i.offset == GetI32(bc, pc + 1)
    ensures i.PushI32? ==> i.value == GetU32(bc, pc + 1)
    ensures i.SimpleGreedyQuant? ==>
      i.length == GetI32(bc, pc + 1) && i.min == GetU32(bc, pc + 5) && i.max == GetU32(bc, pc + 9) && i.chars == GetU32(bc, pc + 13)
  {
    hide GetU16, GetU32, GetI32, DecodePairs;
  }

  lemma FetchCharOperands(bc: Bytes, pc: int, i: Instr)
    requires Decode(bc, pc) == Instruction(i) && 0 <= pc && pc + OpSize(Opcode(i)) <= |bc|
    ensures i.Char8? ==> i.c == bc[pc + 1]
    ensures i.Char16? ==> i.c == GetU16(bc, pc + 1)
    ensures i.Char32? ==> i.c == GetU32(bc, pc + 1)
    ensures i.Range? || i.Range32? ==>
      var wide := i.Range32?; var n := GetU16(bc, pc + 1);
      n >= 0 && pc + 3 + (if wide then 8 else 4) * n <= |bc| && i.ranges == DecodePairs(bc, pc + 3, n, wide)
  {
    hide GetU32, GetI32, DecodePairs;
  }

  function PairLow(bc: Bytes, p: int, k: int, wide: bool): int
    requires 0 <= p && 0 <= k && p + (if wide then 8 else 4) * (k + 1) <= |bc|
  {
    if wide then GetU32(bc, p + 8 * k) else GetU16(bc, p + 4 * k)
  }

  function PairHigh(bc: Bytes, p: int, k: int, wide: bool): int
    requires 0 <= p && 0 <= k && p + (if wide then 8 else 4) * (k + 1) <= |bc|
  {
    if wide then GetU32(bc, p + 8 * k + 4) else GetU16(bc, p + 4 * k + 2)
  }

  lemma {:induction false} PairAtIndex(bc: Bytes, p: int, n: nat, wide: bool, k: nat)
    requires 0 <= p && p + (if wide then 8 else 4) * n <= |bc| && k < n
    ensures |DecodePairs(bc, p, n, wide)| == n
    ensures DecodePairs(bc, p, n, wide)[k] == (PairLow(bc, p, k, wide), PairHigh(bc, p, k, wide))
    decreases n
  {
    hide GetU16, GetU32;
    var w := if wide then 8 else 4;
    if n > 1 {
      PairAtIndex(bc, p + w, n - 1, wide, if k == 0 then 0 else k - 1);
    }
    if k > 0 {
      assert DecodePairs(bc, p, n, wide)[k] == DecodePairs(bc, p + w, n - 1, wide)[k - 1];
    }
  }

  /** The binary search of REOP_range and REOP_range32. The unsigned indices never wrap:
      `idx` is positive whenever it is decremented. */
  method SearchRanges(bc: Bytes, p: nat, n: nat, wide: bool, c: int) returns (found: bool)
    requires p + (if wide then 8 else 4) * n <= |bc| && SortedRanges(DecodePairs(bc, p, n, wide))
    requires n > 0 && PairLow(bc, p, 0, wide) <= c <= PairHigh(bc, p, n - 1, wide)
    ensures found <==> InRanges(DecodePairs(bc, p, n, wide), c)
  {
    hide GetU16, GetU32, DecodePairs, PairLow, PairHigh;
    ghost var r := DecodePairs(bc, p, n, wide);
    PairAtIndex(bc, p, n, wide, 0);
    PairAtIndex(bc, p, n, wide, n - 1);
    var idxMin: nat := 0;
    var idxMax: nat := n - 1;
    while idxMin <= idxMax
      invariant idxMin <= n && idxMax < n && idxMin <= idxMax + 1
      invariant forall k :: 0 <= k < idxMin ==> r[k].1 < c
      invariant forall k :: idxMax < k < n ==> c < r[k].0
      decreases n + idxMax - idxMin
    {
      var idx := (idxMin + idxMax) / 2;
      PairAtIndex(bc, p, n, wide, idx);
      var low, high := PairLow(bc, p, idx, wide), PairHigh(bc, p, idx, wide);
      if c < low {
        idxMax := idx - 1;
      } else if c > high {
        idxMin := idx + 1;
      } else {
        return true;
      }
    }
    return false;
  }

  /** REOP_range; `p` is behind the opcode. */
  method MatchRange(bc: Bytes, p: nat, wide: bool, c: int, ghost i: Instr) returns (ok: bool)
    requires if wide then i.Range32? else i.Range?
    requires p + 2 <= |bc| && GetU16(bc, p) >= 0 && p + 2 + (if wide then 8 else 4) * GetU16(bc, p) <= |bc|
    requires i.ranges == DecodePairs(bc, p + 2, GetU16(bc, p), wide) && SortedRanges(i.ranges)
    ensures if wide then ok <==> InRanges(i.ranges, c)
      else ok <==> c >= i.ranges[0].0 && ((c >= 0xffff && i.ranges[|i.ranges| - 1].1 == 0xffff) || InRanges(i.ranges, c))
  {
    hide GetU16, GetU32, DecodePairs, PairLow, PairHigh;
    ghost var r := i.ranges;
    var n := GetU16(bc, p);
    RangeCount(bc, p + 2, n, wide);
    PairAtIndex(bc, p + 2, n, wide, 0);
    PairAtIndex(bc, p + 2, n, wide, n - 1);
    var low := PairLow(bc, p + 2, 0, wide);
    if c < low {
      return false;
    }
    var high := PairHigh(bc, p + 2, n - 1, wide);
    if !wide && c >= 0xffff && high == 0xffff {
      return true;
    }
    if c > high {
      return false;
    }
    ok := SearchRanges(bc, p + 2, n, wide, c);
  }

  lemma RangeCount(bc: Bytes, p: int, n: nat, wide: bool)
    requires 0 <= p && p + (if wide then 8 else 4) * n <= |bc| && DecodePairs(bc, p, n, wide) != []
    ensures n > 0
  {
  }

  /** A character instruction applied to the character `c`; on success also the next
      program counter. */
  method MatchChar(bc: Bytes, pc: nat, f: Flags, c: int, ghost i: Instr) returns (ok: bool, next: nat)
    requires Decode(bc, pc) == Instruction(i) && Fits(i) && IsCharOp(i)
    ensures ok <==> InstrAccepts(f, i, c)
    ensures ok ==> next == pc + InstrSize(i)
  {
    FetchOpcode(bc, pc, i);
    FetchCharOperands(bc, pc, i);
    SizeByOpcode(i);
    if i.Range? || i.Range32? {
      RangeSize(bc, pc + 3, GetU16(bc, pc + 1), i.Range32?);
    }
    hide GetU16, GetU32, DecodePairs, Decode, InRanges, InstrSize, FitsPairs, SortedRanges;
    var opcode := bc[pc];
    next := pc + 1;
    ok := true;
    if opcode == 1 {
      next := next + 1;
      ok := bc[pc + 1] == Canon(f, c);
    } else if opcode == 2 {
      next := next + 2;
      ok := GetU16(bc, pc + 1) == Canon(f, c);
    } else if opcode == 3 {
      next := next + 4;
      ok := GetU32(bc, pc + 1) == Canon(f, c);
    } else if opcode == 4 {
      ok := !IsLineTerminator(c);
    } else if opcode == 5 {
    } else {
      ok := MatchRange(bc, next, opcode == 23, Canon(f, c), i);
      next := next + 2 + (if opcode == 23 then 8 else 4) * GetU16(bc, pc + 1);
    }
  }

  lemma {:induction false} RangeSize(bc: Bytes, p: int, n: nat, wide: bool)
    requires 0 <= p && p + (if wide then 8 else 4) * n <= |bc|
    ensures |DecodePairs(bc, p, n, wide)| == n
  {
    if n > 0 {
      PairAtIndex(bc, p, n, wide, 0);
    }
  }

  /** The instructions that only read the text at the cursor `cptr`: the new cursor and
      program counter, or failure. */
  method MatchTest(bc: Bytes, pc: nat, env: Env, cptr: nat, ghost i: Instr) returns (ok: bool, next: nat, cptr1: nat)
    requires Decode(bc, pc) == Instruction(i) && Fits(i) && (IsCharOp(i) || IsAssertion(i)) && InText(env, cptr)
    ensures ok <==> TestPos(env, i, cptr) >= 0
    ensures ok ==> cptr1 == TestPos(env, i, cptr) && next == pc + InstrSize(i)
  {
    FetchOpcode(bc, pc, i);
    hide Decode, Fits;
    var opcode := bc[pc];
    next, cptr1 := pc + 1, cptr;
    if opcode == 6 {
      ok := cptr == 0 || (env.flags.multiLine && IsLineTerminator(PrevCharAt(env.input, cptr, 0)));
    } else if opcode == 7 {
      ok := cptr == |env.input.units| ||
        (env.flags.multiLine && IsLineTerminator(CharAt(env.input, cptr, |env.input.units|)));
    } else if opcode == 18 || opcode == 19 {
      var v1 := cptr != 0 && IsWordChar(PrevCharAt(env.input, cptr, 0));
      var v2 := cptr < |env.input.units| && IsWordChar(CharAt(env.input, cptr, |env.input.units|));
      ok := (v1 != v2) != (opcode == 19);
    } else if cptr >= |env.input.units| {
      ok := false;
    } else {
      var c := CharAt(env.input, cptr, |env.input.units|);
      cptr1 := NextPos(env.input, cptr, |env.input.units|);
      hide InstrAccepts, InstrSize;
      ok, next := MatchChar(bc, pc, env.flags, c, i);
    }
  }
}
