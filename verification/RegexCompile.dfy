/** lre_compile and lre_exec: the byte code with its header, and the engine run on it. */
module RegexCompile {
  import opened RegexInput
  import opened RegexTerm
  import opened RegexCode
  import opened RegexMatcher
  import opened RegexMachine
  import opened RegexBytes
  import opened RegexEncodable
  import opened RegexScan
  import opened RegexStack
  import opened RegexCounts
  import opened RegexProgram
  import opened RegexStackRuns
  import opened RegexFetch
  import opened RegexExec
  import opened RegexEmitter

  datatype CompileResult =
    | CompiledTo(bytes: Bytes)
    | CompileError(emission: EmitResult)
    | TooManyQuantifiers

  const RE_HEADER_LEN := 8

  // --- the flag word ---

  predicate FlagSet(reFlags: int, bit: int)
    requires bit > 0
  {
    reFlags / bit % 2 == 1
  }

  const LRE_FLAG_IGNORECASE := 2
  const LRE_FLAG_MULTILINE := 4
  const LRE_FLAG_DOTALL := 8
  const LRE_FLAG_UNICODE := 16
  const LRE_FLAG_STICKY := 32

  /** lre_canonicalize, with and without the unicode flag. */
  type Canonicalizer = (int, bool) -> int

  ghost predicate ValidCanonicalizer(canon: Canonicalizer) {
    forall c, u :: 0 <= c <= 0x10FFFF ==> 0 <= canon(c, u) <= 0x10FFFF
  }

  function MakeFlags(ignoreCase: bool, multiLine: bool, dotAll: bool, unicode: bool, canon: Canonicalizer): Flags {
    Flags(ignoreCase, multiLine, dotAll, c => canon(c, unicode))
  }

  /** The flags that a flag word stands for. */
  function FlagsOf(reFlags: int, canon: Canonicalizer): Flags {
    MakeFlags(FlagSet(reFlags, LRE_FLAG_IGNORECASE), FlagSet(reFlags, LRE_FLAG_MULTILINE), FlagSet(reFlags, LRE_FLAG_DOTALL),
      FlagSet(reFlags, LRE_FLAG_UNICODE), canon)
  }

  predicate IsSticky(reFlags: int) {
    FlagSet(reFlags, LRE_FLAG_STICKY)
  }

  /** 16-bit text (type 1) is read as UTF-16 (type 2) with the unicode flag. */
  function TextOf(units: seq<int>, cbufType: int, reFlags: int): Input {
    Input(units, cbufType == 2 || (cbufType == 1 && FlagSet(reFlags, LRE_FLAG_UNICODE)))
  }

  /** The header has room for the low 16 bits of the flag word, and they decide all flags. */
  lemma FlagsRoundTrip(bc: Bytes, reFlags: int, rest: Bytes, canon: Canonicalizer, units: seq<int>, cbufType: int)
    requires bc == U16(reFlags) + rest
    ensures |bc| >= 2 && FlagsOf(GetU16(bc, 0), canon) == FlagsOf(reFlags, canon)
    ensures TextOf(units, cbufType, GetU16(bc, 0)) == TextOf(units, cbufType, reFlags)
  {
    LowRest(reFlags);
    LowRest(Rest(reFlags));
    var w := GetU16(bc, 0);
    assert bc[0] == Low(reFlags) && bc[1] == Low(Rest(reFlags));
    SameBits(w, reFlags, Rest(Rest(reFlags)));
  }

  lemma SameBits(w: int, v: int, q: int)
    requires v == w + 0x1_0000 * q
    ensures FlagSet(w, 2) == FlagSet(v, 2) && FlagSet(w, 4) == FlagSet(v, 4) && FlagSet(w, 8) == FlagSet(v, 8)
    ensures FlagSet(w, 16) == FlagSet(v, 16) && FlagSet(w, 32) == FlagSet(v, 32)
  {
    SameBit(w, v, 2, 0x4000 * q);
    SameBit(w, v, 4, 0x2000 * q);
    SameBit(w, v, 8, 0x1000 * q);
    SameBit(w, v, 16, 0x800 * q);
    SameBit(w, v, 32, 0x400 * q);
  }

  lemma SameBit(w: int, v: int, bit: int, j: int)
    requires bit == 2 || bit == 4 || bit == 8 || bit == 16 || bit == 32
    requires v == w + bit * (j + j)
    ensures FlagSet(w, bit) == FlagSet(v, bit)
  {
    assert v / bit == w / bit + (j + j);
  }

  /** Flags, number of captures, stack size, length. */
  function Header(reFlags: int, captureCount: int, stackSize: int, length: int): Bytes {
    U16(reFlags) + (U8(captureCount) + U8(stackSize)) + U32(length)
  }

  /** `bytes` is the result of compiling `d`. */
  ghost predicate IsCompiled(bytes: Bytes, reFlags: int, f: Flags, d: Disjunction, sticky: bool)
    requires ValidDisjunction(d)
  {
    var code := ProgramCode(f, d, sticky);
    bytes == Header(reFlags, 1 + DisjunctionCaptures(d), MaxDepth(code), CodeSize(code)) + EncodeAll(code) &&
    1 + DisjunctionCaptures(d) <= 255 && MaxDepth(code) <= 255 && DisjunctionFewRanges(d)
  }

  lemma HeaderSize(reFlags: int, captureCount: int, stackSize: int, length: int)
    ensures |Header(reFlags, captureCount, stackSize, length)| == RE_HEADER_LEN
    ensures 0 <= captureCount < 256 ==> Header(reFlags, captureCount, stackSize, length)[2] == captureCount
    ensures 0 <= stackSize < 256 ==> Header(reFlags, captureCount, stackSize, length)[3] == stackSize
  {
  }

  lemma ProgramScans(f: Flags, d: Disjunction, sticky: bool)
    requires ValidDisjunction(d) && DisjunctionFewRanges(d)
    ensures RangeCountsFit(ProgramCode(f, d, sticky)) && Sound(ProgramCode(f, d, sticky))
  {
    hide RangeCountsFit, Sound, TermCode, CodeSize;
    var core := CoreCode(f, d, sticky);
    CoreIsSound(f, d, sticky);
    MatchIsSound();
    SoundAppend(core, [Match]);
    TermCounts(f, Capture(d), false, 0);
    CountsPlain(SearchPrefix);
    CountsPlain([]);
    CountsAppend(if sticky then [] else SearchPrefix, TermCode(f, Capture(d), false, 0));
    CountsPlain([Match]);
    CountsAppend(core, [Match]);
  }

  lemma MatchIsSound()
    ensures Sound([Match])
  {
    OneEffect(Match);
    assert [Match][1..] == [];
  }

  lemma PrefixBytes(head: Bytes)
    ensures head + ([9] + U32(6)) + [5] + ([8] + U32(-11)) == head + EncodeAll(SearchPrefix)
  {
    hide EncodeAll, U32;
    EncodeThree([Split(false, 6)], [AnyOp], [Goto(-11)]);
    EncodeOne(Split(false, 6));
    EncodeOne(AnyOp);
    EncodeOne(Goto(-11));
    assert [Split(false, 6)] + [AnyOp] + [Goto(-11)] == SearchPrefix;
    Regroup(head, [9] + U32(6), [5], [8] + U32(-11));
  }

  /** The pieces of a program in the order in which they are emitted. */
  lemma ProgramBytes(head: Bytes, f: Flags, d: Disjunction, sticky: bool)
    requires ValidDisjunction(d)
    ensures var prefix := if sticky then [] else SearchPrefix;
      head + EncodeAll(prefix) + EncodeAll([SaveStart(0)] + DisjunctionCode(f, d, false, 1) + [SaveEnd(0)]) + [11] ==
      head + EncodeAll(ProgramCode(f, d, sticky))
  {
    hide EncodeAll, DisjunctionCode;
    var prefix := if sticky then [] else SearchPrefix;
    var core := [SaveStart(0)] + DisjunctionCode(f, d, false, 1) + [SaveEnd(0)];
    assert ProgramCode(f, d, sticky) == prefix + core + [Match];
    EncodeThree(prefix, core, [Match]);
    EncodeOne(Match);
    MatchByte();
    Regroup(head, EncodeAll(prefix), EncodeAll(core), [11]);
  }

  lemma ProgramSize(f: Flags, d: Disjunction, sticky: bool)
    requires ValidDisjunction(d)
    ensures |EncodeAll(ProgramCode(f, d, sticky))| == CodeSize(ProgramCode(f, d, sticky))
  {
    EncodeAllSize(ProgramCode(f, d, sticky));
  }

  lemma HeaderParts(reFlags: int)
    ensures U16(reFlags) + [0] + [0] + U32(0) == Header(reFlags, 0, 0, 0)
  {
    assert U8(0) == [0];
  }

  /** The bytes of the search loop in front of the expression. */
  method EmitSearchPrefix(e: Emitter)
    modifies e`byteCode
    ensures e.byteCode == old(e.byteCode) + EncodeAll(SearchPrefix)
  {
    ghost var head := e.byteCode;
    hide U32, EncodeAll;
    var _ := e.EmitOpU32(9, 6);
    e.EmitOp(5);
    var _ := e.EmitOpU32(8, -11);
    PrefixBytes(head);
  }

  lemma PrefixSize()
    ensures |EncodeAll(SearchPrefix)| == 11
  {
    EncodeAllSize(SearchPrefix);
  }

  /** save_start 0; the expression; save_end 0; match. */
  method EmitExpression(e: Emitter, d: Disjunction, ghost head: Bytes, ghost sticky: bool) returns (r: EmitResult)
    requires ValidDisjunction(d) && e.captureCount == 1
    requires e.byteCode == head + EncodeAll(if sticky then [] else SearchPrefix)
    modifies e
    ensures e.captureCount <= 255
    ensures r.Done? ==> DisjunctionFewRanges(d) && e.captureCount == 1 + DisjunctionCaptures(d)
    ensures r.Done? ==> e.byteCode == head + EncodeAll(ProgramCode(e.flags, d, sticky))
    ensures r.Done? ==> DisjunctionRoom(e.flags, d, false, 1, |old(e.byteCode)| + 2)
    ensures r.TooManyCaptures? ==> 1 + DisjunctionCaptures(d) > 255
    ensures r.TooManyRanges? ==> !DisjunctionFewRanges(d)
    ensures r.OutOfMemory? ==> !DisjunctionRoom(e.flags, d, false, 1, |old(e.byteCode)| + 2)
  {
    hide EncodeAll, Encode, DisjunctionCode, DisjunctionRoom, DisjunctionFewRanges, DisjunctionCaptures, ProgramCode, U8;
    ghost var s0 := e.byteCode;
    OneByte(0);
    SaveBytes(0);
    e.EmitOpU8(12, 0);
    r := e.EmitDisjunction(d, false);
    if r.Done? {
      e.EmitOpU8(13, 0);
      WrapBytes(s0, SaveStart(0), DisjunctionCode(e.flags, d, false, 1), SaveEnd(0));
      e.EmitOp(11);
      ProgramBytes(head, e.flags, d, sticky);
    }
  }

  /** The buffer stays below 64 MiB wherever lre_check_size looks. */
  predicate ProgramRoom(f: Flags, d: Disjunction, sticky: bool)
    requires ValidDisjunction(d)
  {
    DisjunctionRoom(f, d, false, 1, RE_HEADER_LEN + (if sticky then 0 else 11) + 2)
  }

  /** lre_compile, after parsing: the program behind its header. It fails only for a cause, and
      succeeds only if there is none. */
  method LreCompile(d: Disjunction, reFlags: int, canon: Canonicalizer) returns (r: CompileResult)
    requires ValidDisjunction(d)
    ensures r.CompiledTo? ==> IsCompiled(r.bytes, reFlags, FlagsOf(reFlags, canon), d, IsSticky(reFlags))
    ensures r.CompiledTo? ==> ProgramRoom(FlagsOf(reFlags, canon), d, IsSticky(reFlags))
    ensures r == CompileError(TooManyCaptures) ==> 1 + DisjunctionCaptures(d) > 255
    ensures r == CompileError(TooManyRanges) ==> !DisjunctionFewRanges(d)
    ensures r == CompileError(OutOfMemory) ==> !ProgramRoom(FlagsOf(reFlags, canon), d, IsSticky(reFlags))
    ensures r != CompileError(Done)
    ensures r == TooManyQuantifiers ==> MaxDepth(ProgramCode(FlagsOf(reFlags, canon), d, IsSticky(reFlags))) > 255
  {
    var f, sticky := FlagsOf(reFlags, canon), IsSticky(reFlags);
    hide EncodeAll, U32, U16, U8, ProgramCode, DisjunctionFewRanges, DisjunctionCaptures, Sound, RangeCountsFit, MaxDepth, CodeSize, Header,
      FlagsOf, IsSticky, DisjunctionRoom;
    var e := new Emitter(f);
    e.byteCode := U16(reFlags) + [0] + [0] + U32(0);
    HeaderParts(reFlags);
    ghost var head := e.byteCode;
    HeaderSize(reFlags, 0, 0, 0);
    ghost var code := ProgramCode(f, d, sticky);
    if sticky {
      NoBytes();
      assert head == head + [];
    } else {
      EmitSearchPrefix(e);
      PrefixSize();
    }
    var emitted := EmitExpression(e, d, head, sticky);
    if !emitted.Done? {
      return CompileError(emitted);
    }
    ProgramScans(f, d, sticky);
    ProgramSize(f, d, sticky);
    assert e.byteCode[RE_HEADER_LEN..] == EncodeAll(code);
    var stackSize := ScanStackSize(e.byteCode[RE_HEADER_LEN..], code);
    if stackSize < 0 {
      return TooManyQuantifiers;
    }
    PatchHeader(e, e.captureCount, stackSize, |e.byteCode| - RE_HEADER_LEN, reFlags, EncodeAll(code));
    return CompiledTo(e.byteCode);
  }

  /** Writes the number of captures, the stack size and the length into the header. */
  method PatchHeader(e: Emitter, captureCount: int, stackSize: int, length: int, ghost reFlags: int, ghost rest: Bytes)
    requires e.byteCode == Header(reFlags, 0, 0, 0) + rest
    modifies e`byteCode
    ensures e.byteCode == Header(reFlags, captureCount, stackSize, length) + rest
  {
    ghost var flagBytes := U16(reFlags);
    WordSize(0);
    TwoBytes(reFlags);
    OneByte(0);
    OneByte(captureCount);
    hide U16, U32, U8;
    assert e.byteCode == flagBytes + U8(0) + (U8(0) + U32(0) + rest);
    e.PutU8(2, Low(captureCount), flagBytes, U8(0), U8(0) + U32(0) + rest);
    ghost var a1 := flagBytes + U8(captureCount);
    assert e.byteCode == a1 + U8(0) + (U32(0) + rest);
    e.PutU8(3, Low(stackSize), a1, U8(0), U32(0) + rest);
    OneByte(stackSize);
    ghost var a2 := a1 + U8(stackSize);
    assert e.byteCode == a2 + U32(0) + rest;
    e.PutU32(4, length, a2, U32(0), rest);
    assert a2 + U32(length) + rest == Header(reFlags, captureCount, stackSize, length) + rest;
  }

  lemma OneByte(v: int)
    ensures |U8(v)| == 1 && U8(v) == [Low(v)]
  {
  }

  /** lre_exec on the compiled bytes: 1 exactly when the reference matcher has an outcome,
      and then with the captures of its first outcome. */
  method LreExec(bcBuf: Bytes, units: seq<int>, cbufType: int, cindex: nat, canon: Canonicalizer, ghost d: Disjunction, ghost reFlags: int)
    returns (ret: bool, captures: seq<int>)
    requires ValidDisjunction(d) && ValidCanonicalizer(canon)
    requires ValidInput(TextOf(units, cbufType, reFlags)) && Boundary(TextOf(units, cbufType, reFlags), cindex)
    requires IsCompiled(bcBuf, reFlags, FlagsOf(reFlags, canon), d, IsSticky(reFlags))
    requires Small(ProgramCode(FlagsOf(reFlags, canon), d, IsSticky(reFlags)))
    ensures var env := Env(FlagsOf(reFlags, canon), TextOf(units, cbufType, reFlags), 1 + DisjunctionCaptures(d));
      var outs := Verdict(env, d, IsSticky(reFlags), cindex);
      (ret <==> outs != []) && (ret ==> captures == outs[0].caps)
  {
    hide FlagsOf, IsSticky, TextOf, Small, ProgramCode, Verdict, EncodeAll, CodeSize, Header, DisjunctionCaptures, DisjunctionFewRanges, Boundary,
         ValidFlags, MaxDepth, Loaded, IsProgram, Sane, Steps, TermCode;
    ghost var code := ProgramCode(FlagsOf(reFlags, canon), d, IsSticky(reFlags));
    HeaderSize(reFlags, 1 + DisjunctionCaptures(d), MaxDepth(code), CodeSize(code));
    HeaderFlags(bcBuf, reFlags, d, canon, units, cbufType);
    CanonicalizerFlags(reFlags, canon);
    var f, inp := FlagsOf(GetU16(bcBuf, 0), canon), TextOf(units, cbufType, GetU16(bcBuf, 0));
    ghost var sticky := IsSticky(reFlags);
    var captureCount: nat := bcBuf[2];
    var stackSizeMax: nat := bcBuf[3];
    var env := Env(f, inp, captureCount);
    ghost var m, core := Compiled(env, d, sticky), CoreCode(f, d, sticky);
    assert bcBuf[RE_HEADER_LEN..] == EncodeAll(code);
    ProgramLoaded(env, d, sticky);
    CompiledIsProgram(env, d, sticky);
    var x := new Executor(bcBuf[RE_HEADER_LEN..], env, stackSizeMax, cindex, m, core);
    StartSane(env, d, sticky, cindex);
    ghost var n := StepsToEnd(env, d, sticky, cindex);
    ret := x.Backtracking(n);
    captures := x.capture[..];
  }

  /** What lre_exec reads from the header are the flags of the expression. */
  lemma HeaderFlags(bc: Bytes, reFlags: int, d: Disjunction, canon: Canonicalizer, units: seq<int>, cbufType: int)
    requires ValidDisjunction(d) && IsCompiled(bc, reFlags, FlagsOf(reFlags, canon), d, IsSticky(reFlags))
    ensures |bc| >= 2 && FlagsOf(GetU16(bc, 0), canon) == FlagsOf(reFlags, canon)
    ensures TextOf(units, cbufType, GetU16(bc, 0)) == TextOf(units, cbufType, reFlags)
  {
    hide U16, U32, U8, EncodeAll, ProgramCode, FlagsOf, IsSticky, TextOf, DisjunctionCaptures, MaxDepth, CodeSize, GetU16, DisjunctionFewRanges;
    assert bc == U16(reFlags) + bc[|U16(reFlags)|..];
    FlagsRoundTrip(bc, reFlags, bc[|U16(reFlags)|..], canon, units, cbufType);
  }

  lemma CanonicalizerFlags(reFlags: int, canon: Canonicalizer)
    requires ValidCanonicalizer(canon)
    ensures ValidFlags(FlagsOf(reFlags, canon))
  {
  }

  lemma CompiledIsProgram(env: Env, d: Disjunction, sticky: bool)
    requires ValidDisjunction(d)
    ensures IsProgram(Compiled(env, d, sticky), CoreCode(env.flags, d, sticky))
    ensures CoreCode(env.flags, d, sticky) + [Match] == ProgramCode(env.flags, d, sticky)
  {
    hide Sound, TermCode, CodeSize, Layout;
    CoreIsSound(env.flags, d, sticky);
    CodeSizeAppend(CoreCode(env.flags, d, sticky), [Match]);
    OneMatch();
  }

  lemma StartSane(env: Env, d: Disjunction, sticky: bool, start: int)
    requires ValidDisjunction(d) && Boundary(env.input, start)
    ensures Sane(Compiled(env, d, sticky), CoreCode(env.flags, d, sticky), StartConfig(env, start))
  {
    hide TermCode, Layout, CodeSize;
    StartIsBoundary(CoreCode(env.flags, d, sticky));
  }

  /** The number of steps after which the run has halted, with the specified result. */
  lemma StepsToEnd(env: Env, d: Disjunction, sticky: bool, start: int) returns (n: nat)
    requires ValidProgram(env, d) && Boundary(env.input, start)
    ensures var outs := Verdict(env, d, sticky, start);
      var fin := Steps(Compiled(env, d, sticky), n, StartConfig(env, start));
      fin.Halted? && (fin.matched <==> outs != []) && (fin.matched ==> fin.regs.caps == outs[0].caps)
  {
    hide Steps, Verdict, Compiled;
    CompiledRunsAsSpecified(env, d, sticky, start);
    var m := Compiled(env, d, sticky);
    var outs := Verdict(env, d, sticky, start);
    var fin := if outs == [] then Halted(false, NoRegs) else Halted(true, RegexEnumerates.At(m.size - 1, outs[0], []));
    n :| Steps(m, n, StartConfig(env, start)) == fin;
  }
}
