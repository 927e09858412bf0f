# Verified models of the QuickJS-ng support libraries

The support libraries vendored in `priv/c_src` hold five pieces of code whose correctness is not visible in
any one function. Each of them is modelled here with the branches, constants and error cases of the C code,
and proved against an independent statement of what it is for.

1. **Regular expressions** (`Regex*.dfy`, `libregexp.c`). A term tree is compiled to bytecode in a buffer that
   is inserted into, copied and patched (class `Emitter`), and the bytes are run by the backtracking machine
   (class `Executor`). Between the two stands an abstract machine on decoded instructions; beside it stands a
   matcher that lists all outcomes of a term in priority order. Compiling and running gives exactly the first
   outcome, always stops, never leaves the text and never exceeds the recorded stack size. The greedy
   instruction, the omitted advance check and the linear stack analysis are proved right on the way.
2. **Numbers as text** (`Dtoa*.dfy`, `dtoa.c`). Limb arrays, division by a reciprocal with all wrap-around,
   sticky rounding, printing in the free format and parsing. Numbers are bit patterns, and "correctly rounded"
   is stated over `real`: no other bit pattern is closer, and of two equally close ones the even one is meant.
   Printing and parsing in any radix gives back every number.
3. **Sorting and transcoding** (`Sort*.dfy`, `Utf*.dfy`, `cutils.h`). The three-way quicksort in place with its
   50 stack entries, and UTF-8 / UTF-16 conversion in both directions for strings with lone surrogates and for
   arbitrary bytes.
4. **Character sets and tables** (`Char*.dfy`, `libunicode.c`, `libunicode.h`). Sets as lists of points, case
   folding of a whole set, indexed look-up in run-length tables, canonical ordering and decomposition. The
   generated tables are parameters with a stated well-formedness predicate. `RegexClass.dfy` joins these
   classes to the instructions that the regular expression compiler emits for them.
5. **The worker message pipe** (`Worker*.dfy`, `quickjs-libc.c`, `list.h`). Any number of threads take atomic
   steps in any order: they post, receive, pass references to other threads and give them up. The linked list
   behind the queue is a separate, heap-based model.

Code that changes things in place is a class or a method over an array; what those methods promise is stated
with functions, and the lemmas are about these functions.

Where the code and its specification share a definition (digits, letters, flags, line ends, word characters, formats
of tables), its values are pinned down by laws that do not mention it: they write the characters and numbers out, or
start from an encoder of their own (`RegexAtoms`, `DtoaLetters`, `DtoaFormat`, `DtoaTight`, `CharFoldLaws`,
`CharTables`).

## Findings

- `priv/c_src/dtoa.c:1571-1583`: the exponent arithmetic of `js_atod` overflows an `int` for some texts that its
  digit loops accept. Among decimal texts `100000000e+2147483639` does so
  (`DtoaRoundTrip.DecimalExponentOverflows`); with a radix that is no power of two, digits with an exponent
  overflow exactly if the exponent plus the place of the dot leaves the range of an `int`, before or after the
  digits that are kept are taken off (`DtoaRoundTrip.RadixExponentOverflows`). With radix 32 `1@+e` overflows
  for every `e` from 429496730 to 2147483639, because of `expn *= radix_bits`
  (`DtoaRoundTrip.ExponentOverflows`). `DtoaAtod.JsAtod` returns `SignedOverflow` if and only if `ExponentFits`
  is false, a condition on the digits, the place of the dot and the exponent; for all other texts the result is
  the correctly rounded one. No text that `js_dtoa` prints is affected.
- `priv/c_src/dtoa.c:1506-1510`: for a radix that is no power of two, digits beyond `atod_max_digits_table` are
  dropped, and the result is the rounding of the truncated number. That is the number the text denotes if and
  only if the radix is a power of two or all dropped digits are zero (`DtoaTruncation.TextValueExact`), and if it
  is not, the result is still nearest to the denoted number if and only if the dropped digits do not reach beyond
  the middle of the gap above it, or up to it from an odd pattern (`DtoaTruncation.TruncationRounds`). They do for
  `9007199254740993.` followed by 22 zeros and a 1: 38 of the 39 digits are kept, the middle itself is rounded,
  and the result is 9007199254740992 and not 9007199254740994 (`DtoaTruncation.TruncationRoundsDown`).
- `priv/c_src/libregexp.c:1579-1588`: the captures of an atom are cleared once, before a quantifier with
  `min == 0`, and not before every iteration as in RepeatMatcher (section 22.2.2.3.1 of ECMA-262). For
  `(?:(a)|b)*` on `ab` the code returns `a` for group 1, which RepeatMatcher leaves unset
  (`RegexRepeat.ClearedOnceDiffers`). If no atom that may be repeated can skip one of its groups or contains
  both groups and back references, the two agree in all matches, captures and their order
  (`RegexRepeat.ClearedOnce`); in an expression without back references, the ends of all matches agree in any case
  (`RegexRepeat.ClearedOnceSpans`).
- `priv/c_src/libregexp.c:398-403`: the size checks of the compiler stand at the start of terms, alternatives and
  disjunctions, and see nothing of the code that quantifiers insert and copy afterwards. n nested quantifiers
  `{2,}?` pass all of them with at least 2^n bytes of code (`RegexNested.NestedQuantifiers`).
- `priv/c_src/libunicode.c:847-852`: in the longest form of a run of combining classes, two of the three parts of the
  length are OR-ed into the same eight bits. A run never has more than 67632 code points, and different bytes
  stand for the same run (`CharTables.LongRunsCollide`). Tables whose first part is always 0 are read correctly
  (`CharTables.ClassesDecoded`).
- `priv/c_src/cutils.h:949-1035`: decoding replaces bytes that encode nothing by U+FFFD, and accepts surrogates.
  `UtfStrings.DecodeThenEncode` gives the exact condition under which encoding restores the bytes.

## Model

| member | source | states |
|---|---|---|
| RegexProgram.CompiledRunsAsSpecified | priv/c_src/libregexp.c:2074-2492 | for every valid expression, flags, text and start boundary the compiled program halts: without a match exactly when the reference matcher has no outcome, and otherwise with the end and the captures of its first outcome |
| RegexProgram.SearchIsLeftmost | priv/c_src/libregexp.c:1830-1852 | without the sticky flag the result is the first outcome at the smallest boundary at or after the start that has one, and there is none only if no boundary has one |
| RegexProgram.GroupZero | priv/c_src/libregexp.c:1839-1852 | every outcome records its start and its end as group 0, inside the text |
| RegexProgram.CompiledNeverStuck | priv/c_src/libregexp.c:2074-2492 | no run of a compiled program, however many steps are taken, meets a missing instruction, an empty operand stack or an illegal group |
| RegexMachine.HaltsOnce | priv/c_src/libregexp.c:2074-2492 | a run ends in at most one way, so that the result above is the only one |
| RegexCorrect.DisjunctionYields | priv/c_src/libregexp.c:1715-1748 | the code of a disjunction delivers all outcomes of the left alternatives and, when they are exhausted, all of the last one |
| RegexCorrect.AlternativeYields | priv/c_src/libregexp.c:1679-1713 | the code of an alternative delivers the outcomes of its terms in sequence; in a lookbehind the terms run from right to left |
| RegexCorrect.TermYields | priv/c_src/libregexp.c:1185-1677 | the code of every kind of term, forward or backward, delivers exactly the outcomes of the term in priority order |
| RegexCorrect.QuantifierYields | priv/c_src/libregexp.c:1528-1666 | in each of the layouts that the quantifier code chooses between (greedy instruction, reset, option, star, counted loop, plus, mandatory part and copied atom) exactly the iterations between min and max are tried, later ones only if they advance |
| RegexSimulation.LookYields | priv/c_src/libregexp.c:2104-2158 | a lookaround has at most one outcome, leaves the cursor where it was, keeps the captures of a positive body and discards the states that the body left behind |
| RegexSimulation.BackRefExact | priv/c_src/libregexp.c:2318-2361 | the two-cursor loops accept exactly a copy of the captured characters, up to canonicalization, forward and backward; an unset group is the empty string |
| RegexInvariants.TermAdvances | priv/c_src/libregexp.c:942-994 | if the scan says that no check is needed, every successful pass of the term changes the cursor |
| RegexGreedyQuant.SimpleGreedyYields | priv/c_src/libregexp.c:1537-1564 | the greedy instruction delivers the outcomes of the general quantifier, in the same order |
| RegexGreedyQuant.SimpleQuantifiedOutcomes | priv/c_src/libregexp.c:2445-2487 | the outcomes of a greedy quantifier over straight-line code are the end of the longest run of passes and then one pass fewer each, down to min |
| RegexGreedyQuant.GreedyUnwinds | priv/c_src/libregexp.c:2124-2146 | the saved greedy state delivers, failure by failure, the remaining end positions and then disappears |
| RegexGreedy.SimpleBack | priv/c_src/libregexp.c:998-1036 | going back as many characters as a pass of straight-line code reads undoes the pass, and the pass stays on code-point boundaries |
| RegexInput.PrevInvertsNext | priv/c_src/libregexp.c:1905-1986 | from a code-point boundary, reading a character and stepping back returns to it and reads the same character, whatever lone surrogates are around |
| RegexInput.NextInvertsPrev | priv/c_src/libregexp.c:1905-1986 | the same for stepping back and reading forward |
| RegexAtoms.CharacterRead | priv/c_src/libregexp.c:1905-1986 | wherever the UTF-16 code units of a code point stand between two positions that split no pair (or a single unit, in text that is not UTF-16), reading forward and backward gives that code point and the other position |
| RegexAtoms.CharacterOutcomes | priv/c_src/libregexp.c:2162-2249 | a character, a class and the dot take exactly the character that stands at the cursor, in both directions, if it is equal up to canonicalization, lies in a pair of points of the class, or is none of U+000A, U+000D, U+2028, U+2029 |
| RegexAtoms.AssertionOutcomes | priv/c_src/libregexp.c:2220-2316 | the outcomes of the assertions follow from the characters around the cursor: lines end at those four characters, and words consist of the 63 characters that are written out |
| RegexAtoms.FlagWordRead | priv/c_src/libregexp.h:36-44 | for every combination of the nine flag bits, each one means its flag and nothing else, and 16-bit text is UTF-16 exactly with the unicode flag |
| RegexStackRuns.StackAnalysisExact | priv/c_src/libregexp.c:1751-1793 | in every configuration of every run, and in every saved state, the operand stack has exactly the depth that one linear pass assigns to the program counter, and it is at most the recorded maximum |
| RegexStackRuns.RunsKeepDepth | priv/c_src/libregexp.c:2272-2295 | the steps keep that property, over loops, copied atoms, splits, lookarounds and restored states |
| RegexSafety.StepKeepsText | priv/c_src/libregexp.c:2087-2491 | no step takes the cursor, a capture or a saved position out of the text |
| RegexFrame.DisjunctionFrame | priv/c_src/libregexp.c:1311-1324 | an expression changes no captures but those of the groups it opens |
| RegexRanges.RangeInstrExact | priv/c_src/libregexp.c:784-820 | for every canonical class the emitted instruction (16-bit with 0xffff as infinity, 32-bit, or always false) accepts a code point exactly if its canonical form is in the class |
| RegexClass.ClassInstrExact | priv/c_src/libregexp.c:917-926 | after canonicalizing and inverting, the instruction accepts c exactly if some member of the class as written has the canonical form of c, or, for an inverted class, if none has |
| RegexClass.FinishClass | priv/c_src/libregexp.c:917-924 | cr_regexp_canonicalize and cr_invert leave a canonical 32-bit class with the members just described |
| RegexClass.EmitClass | priv/c_src/libregexp.c:917-926 | the bytes of that instruction are appended, or the class has 65535 ranges or more |
| RegexFetch.SearchRanges | priv/c_src/libregexp.c:2362-2438 | the binary search on the stored bytes finds c exactly if one of the sorted ranges has it, and its unsigned indices never wrap |
| RegexFetch.MatchTest | priv/c_src/libregexp.c:2162-2249 | character, class and assertion instructions, decoded from their bytes, do what the instruction says and move the program counter past the operands |
| RegexScan.ScanNeedCheckAdvance | priv/c_src/libregexp.c:942-994 | the loop over the bytes computes the predicate on instructions that TermAdvances is about |
| RegexScan.ScanSimpleQuantifier | priv/c_src/libregexp.c:998-1036 | the loop over the bytes returns the number of characters of straight-line code, or -1 |
| RegexScan.ScanStackSize | priv/c_src/libregexp.c:1751-1793 | the loop over the bytes returns the largest depth, or -1 if it exceeds what one byte records; it never pops an empty stack |
| RegexBytes.U32RoundTrip | priv/c_src/libregexp.c:1553-1560 | a word written to the buffer reads back, unsigned and signed |
| RegexBytes.DecodeEncoded | priv/c_src/libregexp.c:2089-2489 | reading an instruction at its offset gives back the instruction that was emitted, for all operands that fit |
| RegexEncodable.ProgramFits | priv/c_src/libregexp.c:1830-1873 | all operands of a compiled program fit their fields if the program is shorter than 2^31 bytes |
| RegexEncodable.BytesDecode | priv/c_src/libregexp.c:1870-1873 | every instruction of a program decodes at its offset |
| RegexEmitter.Emitter.EmitQuantifier | priv/c_src/libregexp.c:1528-1666 | inserting, filling gaps, copying the atom and truncating leaves behind the prefix exactly the bytes of the quantifier code |
| RegexEmitter.Emitter.EmitRange | priv/c_src/libregexp.c:784-820 | appends the bytes of the class instruction; refuses exactly 65535 ranges or more, and then leaves the buffer alone |
| RegexEmitter.Emitter.EmitTerm | priv/c_src/libregexp.c:1185-1677 | appends the bytes of the term's code and counts its groups, or reports too many groups, too many ranges or a failed size check, each only for that cause |
| RegexEmitter.Emitter.EmitAlternative | priv/c_src/libregexp.c:1679-1713 | the same for an alternative; backward, each new term is moved in front |
| RegexEmitter.Emitter.EmitDisjunction | priv/c_src/libregexp.c:1715-1748 | the same for a disjunction: the inserted split and the patched goto have the right offsets |
| RegexCompile.LreCompile | priv/c_src/libregexp.c:1799-1890 | for every flag word: the result is the program for its flags behind a header with the flags, the number of captures, the stack size and the length; each error has its cause (too many captures, too many ranges, a size check that fails, too deep a stack), and a program is returned only if there is none |
| RegexCompile.FlagsRoundTrip | priv/c_src/libregexp.c:2505-2515 | the 16 bits of the flag word in the header decide the same flags, and the same reading of 16-bit text, as the flag word given to lre_compile |
| RegexRepeat.ClearedOnce | priv/c_src/libregexp.c:1579-1588 | for every expression in which atoms that may be repeated set or clear all their groups in every pass and do not combine groups with back references, the outcomes are those of the matcher that clears the captures before every iteration: same ends, same captures, same order |
| RegexRepeat.ClearedOnceSpans | priv/c_src/libregexp.c:1579-1588 | for every expression without back references both matchers have the same number of outcomes with the same ends and the same group 0, in the same order |
| RegexRepeat.ClearedOnceDiffers | priv/c_src/libregexp.c:1579-1588 | an iterated choice between the group (a) and b, on "ab": in the first outcome group 1 is "a" for the code and unset if captures are cleared before every iteration |
| RegexNested.NestedQuantifiers | priv/c_src/libregexp.c:1616-1648 | n nested quantifiers compile without an error (for n up to 255), but to at least 2^n bytes: the length that lre_exec needs does not follow from compilation |
| RegexExec.Executor.PopState | priv/c_src/libregexp.c:2110-2123 | restores registers, operand stack and, unless a lookahead succeeded, captures of the topmost state |
| RegexExec.Executor.ExecGreedyQuant | priv/c_src/libregexp.c:2445-2487 | the loop of no_recurse runs and the pushed state do what the abstract instruction does |
| RegexExec.Executor.GoBack | priv/c_src/libregexp.c:2134-2138 | steps back the given number of characters |
| RegexExec.Executor.ExecInstr | priv/c_src/libregexp.c:2087-2491 | one dispatch on the opcode byte makes exactly the step of the abstract machine |
| RegexExec.Executor.Unwind | priv/c_src/libregexp.c:2098-2158 | the inner loop pops states until one continues or none is left, with the result of the abstract machine |
| RegexExec.Executor.Backtracking | priv/c_src/libregexp.c:2074-2492 | the interpreter on bytes terminates with the result and the captures of the abstract machine |
| RegexCompile.LreExec | priv/c_src/libregexp.c:2497-2534 | executing compiled bytes, with the flags read from their header, returns 1 exactly when the reference matcher has an outcome, and then with its captures |
| DtoaLimbs.MpMul1 | priv/c_src/dtoa.c:91-104 | in place, limbs and carry are the product plus the incoming limb |
| DtoaLimbs.MpShl | priv/c_src/dtoa.c:169-183 | in place, limbs and the bits shifted out are the number times 2^shift plus the bits shifted in |
| DtoaLimbs.MpShr | priv/c_src/dtoa.c:151-167 | in place, the exact quotient by 2^shift, and the bits shifted out |
| DtoaLimbs.MpDiv1 | priv/c_src/dtoa.c:136-148 | in place, the exact quotient and remainder by one limb |
| DtoaDivide.Udiv1normInit | priv/c_src/dtoa.c:106-114 | the reciprocal v has 0 < 2^64 - (2^32 + v) d <= d, despite 32-bit wrap-around |
| DtoaDivide.Udiv1norm | priv/c_src/dtoa.c:116-134 | q d + r == a1 2^32 + a0 with r < d for every normalised d and a1 < d, despite 32-bit and 64-bit wrap-around |
| DtoaDivide.MpDiv1norm | priv/c_src/dtoa.c:185-198 | in place, the exact multi-limb quotient and remainder by the divisor before normalisation, for every shift from 0 to 31 |
| DtoaBignum.Bignum.ShrRound | priv/c_src/dtoa.c:312-397 | round(a / 2^shift) for rounding to nearest even, to nearest away and to zero, a 2^-shift for a negative shift; normal form is kept but for a zero shifted up |
| DtoaBignum.Bignum.GetBit | priv/c_src/dtoa.c:299-309 | the bit of the number, zero beyond its limbs |
| DtoaBignum.Bignum.FloorLog2 | priv/c_src/dtoa.c:447-455 | the position of the highest set bit |
| DtoaBignum.Bignum.Mul1Base | priv/c_src/dtoa.c:1332-1350 | r times the base plus a limb, where the base 0 stands for 2^32 |
| DtoaPower.PowUi | priv/c_src/dtoa.c:241-268 | a^b, by the stored powers of 5 and by squaring, whenever it fits 64 bits |
| DtoaPower.PowUiInv | priv/c_src/dtoa.c:270-291 | a^b normalised, its shift and its reciprocal |
| DtoaPower.MulPow | priv/c_src/dtoa.c:892-955 | a radix1^f 2^k exactly, or for a negative f its sticky quotient with the stated number of extra bits, and the exponent that is left |
| DtoaArith.RoundNearest | priv/c_src/dtoa.c:338-372 | rounding to nearest is off by at most one half, and by exactly one half only for an even result |
| DtoaArith.StickyRounds | priv/c_src/dtoa.c:927-951 | a quotient with its remainder or-ed into the lowest bit, rounded by at least two bits, is the rounding of the exact quotient, in every mode |
| DtoaRound.MulPowRound | priv/c_src/dtoa.c:957-966 | exactly round(m 2^e radix^f) in the requested mode, for every sign of e and f |
| DtoaDouble.RoundToD | priv/c_src/dtoa.c:968-1000 | mantissa and exponent of the number rounded, in the given mode, at the last bit that its exponent leaves, with the bits below the smallest subnormal number |
| DtoaDouble.MulPowRoundToD | priv/c_src/dtoa.c:1002-1012 | a radix^f rounded in the given mode to a binary64 mantissa and exponent as a real number |
| DtoaSpec.RoundedIsNearest | priv/c_src/dtoa.c:1593-1606 | the rounded bit pattern, clamped at infinity, is nearest among all bit patterns, ties to even, for normal and subnormal numbers |
| DtoaSpec.PatternValue | priv/c_src/dtoa.c:1593-1606 | bit patterns stand for the numbers that binary64 assigns to biased exponent and fraction |
| DtoaSpec.NearestUnique | priv/c_src/dtoa.c:1593-1606 | at most one bit pattern is nearest |
| DtoaSpec.TinyIsZero | priv/c_src/dtoa.c:1578-1579 | at most half the smallest subnormal number rounds to zero |
| DtoaSpec.InfinityIsNearest | priv/c_src/dtoa.c:1593-1596 | from 2^1024 on infinity is nearest |
| DtoaTables.LimbBase | priv/c_src/dtoa.c:701-720 | digits_per_limb_table and radix_base_table belong together |
| DtoaTables.MaxExponent | priv/c_src/dtoa.c:734-741 | from max_exponent on every number overflows |
| DtoaTables.MinExponent | priv/c_src/dtoa.c:743-750 | up to min_exponent every number underflows |
| DtoaTables.PrintDigits | priv/c_src/dtoa.c:721-724 | radix^(P_max - 1) > 2^53 for every radix but 2 |
| DtoaTables.ParseDigits | priv/c_src/dtoa.c:726-732 | the digits that are kept fit four limbs |
| DtoaTight.PrintTight | priv/c_src/dtoa.c:722-724 | radix^(P_max - 2) < 2^53 <= radix^(P_max - 1) for every radix: no other entry is possible |
| DtoaTight.ParseTight | priv/c_src/dtoa.c:726-732 | the digits that are kept fit 64 bits for a power of two and 128 bits otherwise, and one more would not |
| DtoaTables.FiveReciprocals | priv/c_src/dtoa.c:219-238 | the stored reciprocals are those of the normalised powers of 5 |
| DtoaFree.FindMantissa | priv/c_src/dtoa.c:1196-1206 | the estimate is raised at most once, and the mantissa is the number rounded to exactly P digits |
| DtoaFree.CandidateUnique | priv/c_src/dtoa.c:1196-1206 | for each number of digits there is one such mantissa and exponent |
| DtoaFree.StripZeros | priv/c_src/dtoa.c:1207-1211 | the number without trailing zeros is the same number |
| DtoaFree.ReadsBackTest | priv/c_src/dtoa.c:1215-1221 | the test succeeds exactly if the original bit pattern is nearest to the decimal number |
| DtoaFree.FullPrecision | priv/c_src/dtoa.c:1186-1214 | with P_max digits the number always reads back, which the code does not test |
| DtoaFree.FindShort | priv/c_src/dtoa.c:1179-1235 | the digits found read back, they are the nearest number with so many digits, and the nearest number with one digit fewer does not read back |
| DtoaDigits.DigitsValueOf | priv/c_src/dtoa.c:846-888 | the value of the last n digits of a number is the number modulo radix^n |
| DtoaDigits.DigitsOfValue | priv/c_src/dtoa.c:1460-1505 | the digits of the value of a digit string are that string |
| DtoaDigits.OutputDigits | priv/c_src/dtoa.c:846-888 | writes exactly the n digits of a bignum, with the dot where it belongs, and nothing before them |
| DtoaDigits.U64toa | priv/c_src/dtoa.c:615-644 | writes the decimal numeral of every 64-bit number |
| DtoaDigits.U64toaRadix | priv/c_src/dtoa.c:657-688 | writes the numeral of every 64-bit number in every radix |
| DtoaPrint.FastInteger | priv/c_src/dtoa.c:1167-1177 | the test of the fast path succeeds exactly for the integers in its range |
| DtoaPrint.ShortRoom | priv/c_src/dtoa.c:1033-1080 | js_dtoa_max_len is a bound for the text, also without exponents and for subnormal numbers |
| DtoaPrint.JsDtoa | priv/c_src/dtoa.c:1107-1317 | the text in the free format: sign, NaN, infinity, zero, integers, and otherwise the digits of FindShort laid out by the exponent mode; never longer than js_dtoa_max_len |
| DtoaFormat.DecimalPrinted | priv/c_src/dtoa.c:1278-1312 | in radix 10 the text of every number is that of Number::toString (section 6.1.6.1.20 of ECMA-262), with the thresholds 21 and -6 written out, for digits without zeros at either end whose number is nearest to it |
| DtoaFormat.ExponentPrinted | priv/c_src/dtoa.c:1281-1283 | such a text has an exponent if and only if the decimal is below 0.000001 or at least 1000000000000000000000 |
| DtoaFormat.ZeroPrinted | priv/c_src/dtoa.c:1278-1312 | zero is a single digit, with a sign only on demand |
| DtoaFormat.TextPrinted | priv/c_src/dtoa.c:531-586 | every character that is put out for a digit is the one at its place among 0 to 9 and a to z |
| DtoaFormat.AnnouncedLength | priv/c_src/dtoa.c:1033-1061 | js_dtoa_max_len announces the number of digits, found from its meaning, and 8 characters, or 10 and the estimated magnitude without exponents |
| DtoaAtod.ReadPrefix | priv/c_src/dtoa.c:1384-1419 | the radix prefixes, and that a digit follows them |
| DtoaAtod.ReadMantissa | priv/c_src/dtoa.c:1441-1510 | the limbs hold the value of the digits that are kept, sticky if the radix is a power of two, and the offset of the dot |
| DtoaAtod.ReadExponent | priv/c_src/dtoa.c:1532-1551 | the value of the decimal exponent, or that it exceeds 2147483639 |
| DtoaAtod.RadixOverflows | priv/c_src/dtoa.c:1584-1585 | where the code gives up on a large exponent, infinity is nearest |
| DtoaAtod.RadixUnderflows | priv/c_src/dtoa.c:1586-1587 | where the code gives up on a small exponent, zero is nearest |
| DtoaAtod.ConvertBinary | priv/c_src/dtoa.c:1571-1606 | for a power-of-two radix the result is nearest to the number with all its digits |
| DtoaAtod.ConvertRadix | priv/c_src/dtoa.c:1581-1606 | for other radixes the result is nearest to the kept digits times the power |
| DtoaTruncation.TextValueExact | priv/c_src/dtoa.c:1506-1510 | the number that is rounded is the one the text denotes if and only if the radix is a power of two or all digits beyond those kept are zero; otherwise it is smaller, by less than one in the last place kept |
| DtoaTruncation.TruncationRounds | priv/c_src/dtoa.c:1479-1491 | the result is nearest to the denoted number if and only if that number does not lie beyond the middle between the result and its successor, nor on it for an odd result |
| DtoaTruncation.TruncationRoundsDown | priv/c_src/dtoa.c:1479-1491 | a decimal text of 39 digits whose result is not nearest to the number it denotes |
| DtoaAtod.JsAtod | priv/c_src/dtoa.c:1353-1619 | the grammar is followed, the end of the number is returned, and the result is the nearest bit pattern, overflow, underflow and subnormal numbers included, if and only if the exponent arithmetic fits an int |
| DtoaLetters.DigitValues | priv/c_src/dtoa.c:1319-1330 | the value of a character is its place in the alphabet, written out in both cases; all other characters are no digits |
| DtoaLetters.CaseIgnored | priv/c_src/dtoa.c:1353-1570 | texts that differ in the case of letters only are scanned as the same sign, radix, digits, fraction, exponent and end, unless one is the word for infinity |
| DtoaLetters.InfinityRead | priv/c_src/dtoa.c:1415-1418 | exactly the texts that start with Infinity, +Infinity or -Infinity are infinite |
| DtoaLetters.MantissaRead | priv/c_src/dtoa.c:1447-1492 | digits with a dot among them, in front of them or behind them are read as these digits, and a dot alone is no number |
| DtoaLetters.ExponentRead | priv/c_src/dtoa.c:1515-1556 | for every radix the characters that start an exponent are written out; any other character ends the number |
| DtoaLetters.ReadPrefixed | priv/c_src/dtoa.c:1384-1414 | for all digits, with letters in upper case, behind 0x, 0o or 0b js_atod returns the binary64 number nearest to their positional value in radix 16, 8 or 2 |
| DtoaRoundTrip.ScanPrinted | priv/c_src/dtoa.c:1277-1311 | the parser's grammar takes every printed text apart into the sign, digits, dot and exponent it was put together from |
| DtoaRoundTrip.FreeTextReads | priv/c_src/dtoa.c:1179-1311 | every text of the free format denotes a number whose nearest bit pattern is the printed one; minus zero only with JS_DTOA_MINUS_ZERO |
| DtoaRoundTrip.PrintAndParse | priv/c_src/dtoa.c:1107-1619 | js_dtoa into a buffer of js_dtoa_max_len, then js_atod, gives back the sign and the bits of every number, infinity included, in every radix and exponent mode, and consumes the whole text |
| DtoaRoundTrip.ExponentOverflows | priv/c_src/dtoa.c:1571-1575 | texts in radix 32 for which the exponent arithmetic overflows |
| DtoaRoundTrip.RadixExponentOverflows | priv/c_src/dtoa.c:1581-1583 | in a radix that is no power of two, digits with an exponent overflow if and only if the exponent plus the place of the dot, or that without the digits kept, is no int |
| DtoaRoundTrip.DecimalExponentOverflows | priv/c_src/dtoa.c:1581-1583 | a decimal text for which the exponent arithmetic overflows |
| SortQuick.Med3 | priv/c_src/cutils.h:1413-1418 | the index of a median of three elements |
| SortQuick.SwapBlock | priv/c_src/cutils.h:1489-1508 | exchanges two blocks, element by element, and nothing else |
| SortQuick.Partition | priv/c_src/cutils.h:1451-1514 | a permutation of the segment with the smaller elements first, then those equal to the pivot, then the larger ones |
| SortQuick.DepthsFit | priv/c_src/cutils.h:1423-1450 | depths on the stack increase and are at most 50, so that 50 entries suffice |
| SortQuick.PartitionLoop | priv/c_src/cutils.h:1444-1531 | pushes the larger sides only; the segments stay disjoint, everything outside them is in place, and the stack does not overflow |
| SortHeap.HeapSort | priv/c_src/cutils.h:1379-1411 | the fallback sorts its segment and permutes nothing else |
| SortHeap.SiftDown | priv/c_src/cutils.h:1391-1397 | repairs a heap with one element out of place |
| SortHeap.InsertionSort | priv/c_src/cutils.h:1532-1536 | sorts a short segment in place |
| SortQuick.RqSort | priv/c_src/cutils.h:1421-1538 | for every total preorder the array is afterwards an ordered permutation of what it was |
| Utf.Utf8EncodeLen | priv/c_src/cutils.h:884-891 | the number of bytes that are written |
| Utf.Utf8Encode | priv/c_src/cutils.h:905-940 | writes the bytes of one code point and changes nothing else |
| Utf.StartsUnique | priv/c_src/cutils.h:905-1015 | no encoding is the beginning of another one (section 3 of RFC 3629, extended to surrogates) |
| Utf.Utf8Decode | priv/c_src/cutils.h:949-1010 | the code point whose encoding stands at the position, or U+FFFD and one byte if none does; a zero byte stops it before the end |
| Utf.Utf8DecodeLen | priv/c_src/cutils.h:1017-1040 | the same without a zero byte: it never looks beyond the given length |
| UtfStrings.PairUp | priv/c_src/cutils.h:529-552 | the two surrogates of a code point give it back |
| UtfStrings.PairApart | priv/c_src/cutils.h:529-552 | a pair of surrogates gives a code point with exactly these surrogates |
| UtfStrings.EncodeThenDecode | priv/c_src/cutils.h:1129-1237 | every UTF-16 string, lone surrogates included, survives encoding and decoding |
| UtfStrings.DecodeThenEncode | priv/c_src/cutils.h:1129-1237 | decoding and encoding gives back a byte string if and only if it is well formed |
| UtfStrings.Utf8Scan | priv/c_src/cutils.h:1053-1091 | the length is that of the decoded string, and each bit of the result is set exactly if there is a character or an error of that kind |
| UtfStrings.Utf8DecodeBuf16 | priv/c_src/cutils.h:1129-1153 | returns the full length whatever the buffer length is, writes as many units as there is room for, and nothing behind them |
| UtfStrings.Utf8EncodeBuf16 | priv/c_src/cutils.h:1199-1237 | returns the full length whatever the buffer length is, writes whole characters only and as many as leave room for the zero, and nothing behind it; with room for everything the bytes decode to the string |
| CharRanges.ContainsIsOdd | priv/c_src/libunicode.c:455-505 | a point is in a set exactly if an odd number of its boundaries has been passed |
| CharRanges.CanonicalUnique | priv/c_src/libunicode.c:426-453 | equal sets have equal canonical lists |
| CharRanges.CharRange.AddPoint | priv/c_src/libunicode.h:70-78 | appends a point |
| CharRanges.CharRange.AddInterval | priv/c_src/libunicode.h:80-89 | appends an interval |
| CharRanges.CharRange.Compress | priv/c_src/libunicode.c:426-453 | in place, the canonical list of the same set, for lists with empty and touching intervals |
| CharRanges.CharRange.Apply | priv/c_src/libunicode.c:455-505 | the canonical list of the exact union, intersection or symmetric difference |
| CharRanges.CharRange.UnionInterval | priv/c_src/libunicode.h:93-99 | adds exactly the closed interval |
| CharRanges.CharRange.Invert | priv/c_src/libunicode.c:519-531 | the canonical list of the complement within [0, 2^32 - 1) |
| CharRanges.InvertTwice | priv/c_src/libunicode.c:519-531 | inverting twice gives back a canonical list |
| CharCase.LreCanonicalize | priv/c_src/libunicode.c:228-262 | the binary search finds the entry of a code point, and the result is its folding |
| CharCase.UnaffectedFold | priv/c_src/libunicode.c:60-150 | where the run type does not affect a code point, folding leaves it alone |
| CharCase.UnicodeCase1 | priv/c_src/libunicode.c:1280-1341 | exactly the code points that a conversion of the mask affects |
| CharFoldLaws.AffectedExact | priv/c_src/libunicode.c:1280-1341 | a code point of a run counts as affected if and only if the conversion changes it for some table with such a run |
| CharFoldLaws.PairFolded | priv/c_src/libunicode.c:77-82 | the two code points of a pair have one canonical form, the second one in unicode mode and the first one otherwise |
| CharFoldLaws.TripleFolded | priv/c_src/libunicode.c:83-90 | the three code points of a triple have one canonical form, the last or the first |
| CharFoldLaws.RunFolded | priv/c_src/libunicode.c:68-76 | plain runs are carried in order onto the run they refer to, those for folding in unicode mode and those for capitals otherwise, but not into ASCII |
| CharFoldLaws.SingleFolded | priv/c_src/libunicode.c:91-115 | code points with data of their own fold to them, 32 or 1 behind them where the kind says so |
| CharFoldLaws.SeveralFolded | priv/c_src/libunicode.c:193-226 | code points that become several ones stay, but for three |
| CharFoldLaws.AsciiFolded | priv/c_src/libunicode.c:228-262 | letters of ASCII fold to the small letters, written out, in unicode mode and to the capitals otherwise |
| CharFoldLaws.NoneIntoAscii | priv/c_src/libunicode.c:212-222 | outside unicode mode nothing from 128 on folds below 128 |
| CharFold.MaskCovers | priv/c_src/libunicode.c:1398-1409 | outside the mask nothing is changed by folding |
| CharFold.FindForward | priv/c_src/libunicode.c:1423-1431 | the forward-only cursor always finds the entry: the assertion of the source holds |
| CharFold.FoldMembers | priv/c_src/libunicode.c:1411-1449 | the intervals put out are exactly the folded members |
| CharFold.CrSortAndRemoveOverlap | priv/c_src/libunicode.c:1350-1384 | in place, the canonical list of arbitrary unsorted and overlapping intervals |
| CharFold.CrRegexpCanonicalize | priv/c_src/libunicode.c:1388-1470 | exactly the canonicalized members of the set, as a canonical list of 32-bit points, for every well-formed case table |
| CharIndex.GetIndexPos | priv/c_src/libunicode.c:272-303 | the entry of the index that c falls under, and whether c is beyond the table |
| CharIndex.MemberFrom | priv/c_src/libunicode.c:305-338 | decoding may start at any run boundary the plain decoder reaches |
| CharIndex.LreIsInTable | priv/c_src/libunicode.c:305-338 | the indexed look-up agrees with decoding from the start, for every well-formed table and index |
| CharIndex.UnicodeProp1 | priv/c_src/libunicode.c:1232-1269 | the list of intervals contains exactly the members of the table |
| CharIndex.CcSame | priv/c_src/libunicode.c:827-876 | the same as MemberFrom for combining classes |
| CharIndex.UnicodeGetCc | priv/c_src/libunicode.c:827-876 | the indexed combining class is that of the unindexed scan |
| CharTables.TableDecoded | priv/c_src/libunicode.c:305-341 | for every list of run lengths, written in any of the four forms by an independent encoder, exactly the code points in runs of odd number are in the table |
| CharTables.IndexDecoded | priv/c_src/libunicode.c:264-304 | an index that the encoder writes for such a table meets what the indexed look-up requires |
| CharTables.ClassesDecoded | priv/c_src/libunicode.c:827-876 | for every list of runs of combining classes, written by an independent encoder, each code point has the class of its run, and 0 beyond them |
| CharTables.LongRunsCollide | priv/c_src/libunicode.c:847-852 | the longest form of a run ORs two bytes into one place |
| CharNormal.OrderUnique | priv/c_src/libunicode.c:878-905 | there is only one canonical order of a string (section 3.11 of The Unicode Standard) |
| CharNormal.SortCc | priv/c_src/libunicode.c:878-905 | in place, a stable permutation that orders every run of nonzero classes and moves no starter |
| CharNormal.ToNfdRec | priv/c_src/libunicode.c:907-933 | appends the full decomposition, Hangul syllables included, and terminates for every well-founded table |
| CharNormal.HangulDecomposed | priv/c_src/libunicode.c:916-926 | the syllable 0xAC00 + (l 21 + v) 28 + t is decomposed into the l-th, v-th and t-th jamo, and into two if t is 0 |
| CharNormal.HangulParts | priv/c_src/libunicode.c:916-926 | all code points from U+AC00 to U+D7A3 are such syllables, and no others are decomposed but by the table |
| CharNormal.NormalizeNfd | priv/c_src/libunicode.c:983-998 | decomposition followed by canonical ordering |
| CharNormal.NfdIdempotent | priv/c_src/libunicode.c:983-998 | normalising a normalised string changes nothing |
| WorkerPipe.NextKeepsInv | priv/c_src/quickjs-libc.c:3955-4029 | every step of any thread keeps the invariant on the mutex, the wake-up bytes, the references, the buffer counts and the order of messages |
| WorkerPipe.GiveStep | priv/c_src/quickjs-libc.c:4188-4202 | so does passing the reference in the thread arguments to the new thread |
| WorkerPipe.WakeUpExact | priv/c_src/quickjs-libc.c:4276-4282 | over all interleavings, while the pipe has references and its mutex is free, exactly one wake-up is pending if the queue is nonempty, and none otherwise |
| WorkerPipe.ClearNeverBlocks | priv/c_src/quickjs-libc.c:2689-2696 | a thread that has to clear the wake-up finds exactly one byte |
| WorkerPipe.FirstInFirstOut | priv/c_src/quickjs-libc.c:2684-2696 | what was received is a prefix of what was posted, in order; everything else is queued or was freed with the pipe |
| WorkerPipe.MutualExclusion | priv/c_src/quickjs-libc.c:4276-4282 | two threads are never inside the mutex |
| WorkerPipe.NoDeadlock | priv/c_src/quickjs-libc.c:2675-2710 | as long as a thread is busy, some thread can go on with what it does |
| WorkerPipe.ReleaseCounted | priv/c_src/quickjs-libc.c:3955-3965 | whoever releases a reference to a shared buffer finds it counted: the assertion of js_sab_free holds |
| WorkerPipe.AllReleased | priv/c_src/quickjs-libc.c:4271-4274 | with nothing queued and nobody busy, exactly the references that messages contributed have been released |
| WorkerPipe.DestroyedIsClean | priv/c_src/quickjs-libc.c:4009-4029 | when the pipe has been freed every message was received or freed, no thread has a reference, and the buffers keep only the references of other code |
| WorkerPipe.ThreadsMeet | priv/c_src/quickjs-libc.c:4188-4202 | for any two messages there is a run in which one thread waits for the mutex that another one holds, enters it later and receives the other's message |
| WorkerList.ListAddTail | priv/c_src/list.h:52-71 | links a node in before the head; all other links of the ring stay |
| WorkerList.ListDel | priv/c_src/list.h:73-82 | the ring without the node, whose own links are null |
| WorkerList.ListEmpty | priv/c_src/list.h:84-87 | exactly if the head is alone |
| WorkerList.MessageQueue.constructor | priv/c_src/list.h:45-50 | a head linked to itself is the empty queue |
| WorkerList.MessageQueue.IsEmpty | priv/c_src/quickjs-libc.c:4279-4279 | the test before a wake-up is sent: exactly if no message is queued |
| WorkerList.MessageQueue.Append | priv/c_src/quickjs-libc.c:4281-4281 | the message becomes the last one of the queue, as in the step Append of the pipe |
| WorkerList.MessageQueue.TakeFirst | priv/c_src/quickjs-libc.c:2685-2690 | the first message is returned and the others remain, as in the step Test of the pipe |

## Left out

- The text parser of regular expressions (escapes, named groups, Annex B, unicode property names, class set operations): the model starts from term trees with canonical classes, whose literal characters the parser has canonicalized.
- Error texts, the time-out poll, stack-overflow checks and failing allocations; the size checks of lre_check_size are modelled.
- RegexCompile.LreExec: assumes that the program is shorter than 2^31 - 16 bytes, because longer jumps do not fit their operands. Compilation does not ensure this: `RegexNested.NotSmall` names a longer program that passes all checks.
- RegexRepeat.ClearedOnce: a sufficient condition on the expression; one that does not meet it agrees on some texts, for instance where no atom is run twice.
- RegexCompile.LreCompile: names of groups behind the program, and LRE_FLAG_NAMED_GROUPS in the header, belong to the text parser.
- The recursive call of the interpreter with no_recurse set is a method of its own that runs straight-line code, the only code it is called for; the program counter of a greedy state is stored as the start of its instruction.
- Input is UTF-16 (or, below 0x100, Latin-1) with a start index on a code-point boundary; words in the bytecode are little-endian.
- RegexInput.PrevInvertsNext: for positions inside a surrogate pair nothing is stated, because no run starting on a boundary reaches them.
- DtoaPrint.JsDtoa: the fixed and the fraction format, and n_digits.
- DtoaAtod.JsAtod: digit separators (JS_ATOD_ACCEPT_UNDERSCORES), JS_ATOD_INT_ONLY and strings of 2^28 characters or more are left out. For a radix that is no power of two, digits beyond atod_max_digits_table are truncated as in the code, and TextValue is the truncated number; what a C compiler makes of the signed overflow is not modelled.
- mul_log2_radix is a parameter with its contract radix^k <= 2^a < radix^(k + 1) (`IsLogFloor`), for js_dtoa and for js_dtoa_max_len.
- DtoaBignum.Bignum.ShrRound: a zero shifted up does not keep normal form, as in the code, which never does this.
- Bit-wise `|` of disjoint bits is written as addition, shifts as multiplication and division by powers of two.
- rqsort exchanges elements, not bytes: exchange_func and element sizes are not modelled.
- utf8_decode_buf8 and utf8_encode_buf8.
- The generated Unicode tables are parameters with well-formedness predicates; that the shipped tables satisfy them is not proved. General categories, scripts and the composition half of unicode_normalize are left out, and unicode_decomp_char is a parameter.
- CharCase.LreCanonicalize: of conversions to several code points only that they are several is modelled, which is all that folding uses.
- CharFold.CrSortAndRemoveOverlap: rqsort is called on the points as pairs, which the code has by its element size; the loop that joins the intervals works on the points in place.
- WorkerPipe.NextKeepsInv: the mutex is taken and released in one step each; whole message objects are values, and JS_ReadObject, JS_WriteObject2 and the event loop are opaque. A reference is passed on only to a thread that is between operations, as a starting thread is. One pipe is modelled; pipes share only the buffers, whose other references may change at any time.
- Retry loops around read and write, the Windows waker, and the rest of quickjs-libc.c.
