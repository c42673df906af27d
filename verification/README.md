# Regular expressions, exact number conversion and sorting

This project models three components of a JavaScript engine and proves what each is for.

**The regular expression compiler and interpreter** (`src/deps/libregexp.c`). The compiler walks a pattern in the order
of the parser and appends, inserts, moves and patches bytes in one buffer (`CodeBuffer`, `Parser`, `QuantEmission`,
`Analysis`, `RegisterPass`, `Compile`). The interpreter is a class with the stack buffer, the frame pointer and the undo
log of the original (`Backtracker`, `Engine`). The specification is the backtracking semantics of ECMA-262, section
22.2.2, as a list of successes (`RegexpSemantics`), written without reference to the code; `Laws` says what its atoms
match, with the characters written out. The way from one to the other:

1. the compiler leaves the bytes of the instruction sequence `CodeGen.Gen` gives the pattern (`Compile.LreCompile`);
2. decoding undoes encoding (`Encoding.FetchEmit`), so the bytes are a program for the machine of `Machine`, which
   keeps a full snapshot in every choice point;
3. the code of a node produces the outcomes of its denotation on the memory of the engine (`CodeOutcomes.CodeProduces`);
4. the denotation agrees with the semantics (`Faithful.NodeFaithful`), including the captures that are deliberately
   not reset (`Stale`) and the zero-advance checks that are left out (`Advance`);
5. the interpreter with its undo log refines the snapshot machine (`Backtracker.Execution.Backtrack`).

**Exact printing and parsing of binary64 numbers** (`src/deps/dtoa.c`). Bignums are sequences of 32-bit limbs changed in
place (`Bignum`, `BignumOps`, `Scaling`); division by a precomputed reciprocal is modelled with its wrapping 32 and
64-bit arithmetic (`Reciprocal`). Numbers are fractions of naturals compared by cross multiplication. The specification
of rounding is roundTiesToEven of IEEE 754-2019, section 4.3.1: `Doubles.NearestDouble` quantifies over the bits of all
doubles and infinity. The printer's search ends with the digits that `PrintParse.Owed` describes, laid out by the rules
of `NumeralLayout.LaidOut`, on every path through it; printer and parser meet in `PrintParse.PrintAndParse`, and with
the tables of dtoa.c, for every radix, in `Conversions.FormatAndParse`.

**The introsort** (`src/deps/cutils.c`) with its partition into four regions, its explicit stack of 50 entries, and
heapsort as the way out (`QuickSort`, `Partition`, `HeapSort`), for any comparison, and for total preorders.

## Findings

Three properties do not hold of the code everywhere. For each there is an input that shows it, and the exact condition.

- **Shortest digits.** The search of `js_dtoa` rounds to one digit less until the rounded number no longer reads back.
  At a power of two the rounding interval is wider above than below, so the nearest number may fail below the double
  while the next one above it reads back. `MinimalDigits.ShortestIff`: the digits are as few as possible if and only if
  for every number of digits below P_max the nearest number reads back whenever the next one does. This is always so
  when the mantissa is not 2^52 (`EvenlySpaced`). `FreeFormatSearch.NotShortest`: for 2^-44 the search ends with
  seventeen decimal digits, although 5.684341886080802e-14 reads back.
- **Unbounded quantifiers with a minimum.** The iteration counter starts at INT32_MAX. An atom that can be empty may use
  it up on the demanded iterations. `Counters.CounterSuffices` gives the exact condition for an atom that prefers to be
  empty: the minimum and one iteration per remaining character fit INT32_MAX. `CounterGivesOut`: with a minimum of
  2147483640 and twelve characters, seven are matched instead of twelve. `RegexpSyntax.CountersFit`, which the main
  theorems require, asks for this sum only when the atom can be empty, as far as its syntax tells; an atom that always
  consumes a character only needs a subject shorter than INT32_MAX, which the source assumes of all strings (line 2341).
- **Emptied string tables.** A string added to a hash table from which all strings have been removed goes to the first
  chain. `StringList.REStringList.Find2Add` says exactly when the table stays valid, and `StringList.EmptiedTable` runs
  into it. The class parser adds before it removes.

## Model

| member | source | states |
|---|---|---|
| `Compile.LreCompile` | src/deps/libregexp.c:2522-2614 | compilation fails exactly when the pattern has more than 254 groups, a class of 65535 intervals or more, more than 255 registers, or too much code; otherwise the image holds the program of the pattern, with its registers allocated, and a header with the flags, both counts and the length of the code |
| `Engine.LreExec` | src/deps/libregexp.c:3326-3364 | on every compiled pattern and every subject: a match is reported exactly when the backtracking semantics of ECMA-262 section 22.2.2 has one, and then the captures are those of its first success |
| `Engine.ImageRuns` | src/deps/libregexp.c:2774-3321 | the bytes of an image decode to a program whose run on the snapshot machine ends in the match the semantics expects |
| `Engine.ProgramDecodes` | src/deps/libregexp.c:2839-2849 | at every address of the program the interpreter decodes the instruction the compiler meant |
| `ProgramCorrect.RunCorrect` | src/deps/libregexp.c:2774-3321 | on the machine with full snapshots every run of a compiled program ends, with the first success of the semantics or without a match when there is none |
| `ProgramCorrect.SearchFaithful` | src/deps/libregexp.c:2554-2563 | the emitted search loop tries the start positions in the order of the specification, and its outcomes are those of the specification at every one |
| `CodeOutcomes.CodeProduces` | src/deps/libregexp.c:1845-2440 | the code of every node, wherever it is placed, produces exactly the outcomes of the denotation, in order, and then fails into the older choice points: every run of generated code ends |
| `Faithful.NodeFaithful` | src/deps/libregexp.c:1845-2440 | the outcomes of the generated code, on the memory of the engine, are those of the backtracking semantics: same positions, same captures, same order |
| `Faithful.LoopFaithful` | src/deps/libregexp.c:3061-3126 | a counted loop agrees with RepeatMatcher, also when the counter stands for an infinite bound |
| `Faithful.StarFaithful` | src/deps/libregexp.c:2298-2316 | an unbounded quantifier with or without its zero-advance check agrees with RepeatMatcher |
| `Faithful.QuantFaithful` | src/deps/libregexp.c:2248-2360 | every form of quantifier code agrees with RepeatMatcher of the specification |
| `Stale.SimpleFaithful` | src/deps/libregexp.c:2271-2283 | an atom the analysis finds straight-line and free of back references overwrites all its captures, so that not resetting them before an iteration cannot be observed |
| `Stale.AnalysisSimple` | src/deps/libregexp.c:1557-1628 | when the analysis sees no need to reset captures, the atom is straight-line and free of back references |
| `Laws.DotMatches` | src/deps/libregexp.c:2616-2619 | the dot matches one character, except at the end and at the characters 10, 13, 0x2028 and 0x2029 |
| `Laws.LiteralMatches` | src/deps/libregexp.c:2931-2944 | a character matches itself, and, ignoring case, what has the same canonical character |
| `Laws.SpaceMatches` | src/deps/libunicode.c:1885-1916 | the white space matches exactly the white space and line terminators of ECMA-262, or exactly the others |
| `Laws.ClassMatches` | src/deps/libregexp.c:3229-3307 | a class matches exactly what one of its intervals holds, after canonicalization when ignoring case |
| `Laws.LineStartMatches` | src/deps/libregexp.c:2985-2994 | the start of a line: the start of the subject, or, if multiline, behind one of the four line terminators |
| `Laws.LineEndMatches` | src/deps/libregexp.c:2995-3004 | the end of a line: the end of the subject, or, if multiline, in front of one of the four line terminators |
| `Laws.WordBoundaryMatches` | src/deps/libregexp.c:3138-3171 | a word boundary: a digit, an ASCII letter or the underscore on exactly one side, where 0x17f and 0x212a count too when ignoring case |
| `Laws.BackReferenceMatches` | src/deps/libregexp.c:3172-3228 | a back reference takes, in either direction, a stretch that reads as the first of its groups that is set, character by character or up to canonicalization, and has no other match |
| `Laws.UnsetMatches` | src/deps/libregexp.c:3172-3228 | a back reference to groups none of which is set matches the empty string |
| `Laws.DoubledOnly` | src/deps/libregexp.c:3172-3228 | every match of a group and a back reference to it is a match of the group with the same stretch behind it |
| `Laws.DoubledAll` | src/deps/libregexp.c:3172-3228 | every match of a group with the same stretch behind it is a match of the group and a back reference to it |
| `Advance.AnalysisMustAdvance` | src/deps/libregexp.c:1557-1628 | when the analysis of the emitted code asks for no zero-advance check, every match of the atom consumes a character |
| `Advance.OutAdvances` | src/deps/libregexp.c:2257-2266 | every outcome of such an atom lies strictly ahead, forwards or backwards |
| `Analysis.NeedCheckAdvAndCaptureInit` | src/deps/libregexp.c:1557-1628 | the scan of the bytes of an atom computes both analyses of its instructions |
| `Counters.CounterSuffices` | src/deps/libregexp.c:2334-2355 | for the pattern of an atom that is skipped or takes one character, skipped first, at least min times: the preferred match of the engine is that of the specification if and only if min and one iteration per remaining character fit INT32_MAX |
| `Counters.CounterGivesOut` | src/deps/libregexp.c:2334-2355 | on twelve characters with min 2147483640 the engine takes seven of them where the specification takes all |
| `DenotationFrame.OutFramed` | src/deps/libregexp.c:2442-2505 | an outcome of a piece of code changes no capture of other groups and no register below its own, and stays in the subject |
| `SemanticsFrame.MatchFramed` | src/deps/libregexp.c:1845-2440 | in the semantics a match changes no capture outside the pattern matched |
| `Parser.ParseState.ParseDisjunction` | src/deps/libregexp.c:2406-2440 | succeeds exactly within the limits, and appends the code of the pattern: the split is inserted before the first alternatives, the goto patched behind them |
| `Parser.ParseState.ParseAlternative` | src/deps/libregexp.c:2372-2404 | appends the code of the terms, in reverse order inside a lookbehind, by rotating each new term to the front |
| `Parser.ParseState.ParseTerm` | src/deps/libregexp.c:1845-2370 | appends the code of one term, or fails at a limit |
| `Parser.ParseState.ParseCapture` | src/deps/libregexp.c:2009-2027 | appends the code of a group, with the two save instructions exchanged when matching backwards |
| `Parser.ParseState.ParseLookaround` | src/deps/libregexp.c:1963-1981 | appends the code of a lookaround, with the jump over its body patched in |
| `Parser.ParseState.ParseQuantified` | src/deps/libregexp.c:2248-2360 | appends the code of a quantified atom, chosen by the two analyses of the bytes of the atom |
| `Parser.ParseState.ParseTest` | src/deps/libregexp.c:2164-2196 | appends the code of one character test, between two steps back when matching backwards |
| `Parser.ParseState.ParseBackReference` | src/deps/libregexp.c:2140-2141 | appends a back reference to all the groups of its name |
| `Parser.ParseState.ParseAssertion` | src/deps/libregexp.c:1857-1864 | appends the opcode of an assertion |
| `Parser.ParseState.EmitRange` | src/deps/libregexp.c:1225-1259 | fails exactly on too many ranges; otherwise appends the range instruction of the class, in 16 or 32 bits |
| `Parser.ParseState.OpenAlternative` | src/deps/libregexp.c:2422-2429 | inserts the split before the code of the alternatives so far, which moves unchanged, and returns where to patch the goto |
| `QuantEmission.Quantify` | src/deps/libregexp.c:2268-2357 | turns the code of an atom in the buffer into the code of its quantifier, by insertions before it and emissions after it |
| `QuantEmission.Optional` | src/deps/libregexp.c:2286-2333 | the forms of a quantifier whose minimum is zero, including the removal of the atom for a maximum of zero |
| `QuantEmission.Counted` | src/deps/libregexp.c:2338-2355 | the counted loop around an atom |
| `QuantEmission.Bounded` | src/deps/libregexp.c:2317-2332 | the split and the counted loop around an optional atom |
| `CodeBuffer.Buffer.Insert` | src/deps/libregexp.c:123-130 | opens a gap; the bytes before and behind it are unchanged |
| `CodeBuffer.Buffer.Rotate` | src/deps/libregexp.c:2388-2400 | moves the last block in front of the blocks from start on, all unchanged |
| `CodeBuffer.Buffer.EmitGoto` | src/deps/libregexp.c:631-638 | appends a jump whose offset is relative to its end |
| `CodeSized.GenSized` | src/deps/libregexp.c:1231-1232 | the counts of variable-length instructions fit their fields in all generated code |
| `Encoding.FetchEmit` | src/deps/libregexp-opcode.h:27-71 | decoding a stored instruction gives the instruction that was encoded, for every opcode |
| `Image.GenGood` | src/deps/libregexp.c:616-671 | every operand of all generated code fits its field |
| `TestCode.TestAccepts` | src/deps/libregexp.c:1225-1259 | the instruction emitted for a character test lets through exactly the characters that pass the test |
| `TestCode.RangeAccepts` | src/deps/libregexp.c:1225-1259 | for every strictly increasing interval list the emitted pairs hold a character exactly when an interval does, in the 16-bit form with 0xffff as infinity and in the 32-bit form |
| `RangeSearch.InRange` | src/deps/libregexp.c:3229-3307 | the binary search finds a character exactly when some pair holds it, and its unsigned indices never pass below zero |
| `Closedness.GenClosed` | src/deps/libregexp.c:2285-2440 | every jump of every block the parser emits lands on an instruction of the block or at its end |
| `Closedness.ProgramClosed` | src/deps/libregexp.c:2554-2576 | so does every jump of a whole program |
| `Closedness.ClosedAnywhere` | src/deps/libregexp.c:123-130 | a closed block stays closed wherever insertions move it |
| `Closedness.ClosedQuant` | src/deps/libregexp.c:2285-2358 | the code of every quantifier form around a closed atom is closed |
| `Registers.GenAllocates` | src/deps/libregexp.c:2442-2505 | the allocation never underflows on generated code, gives each loop the registers of its depth, returns to the depth it started from, and its maximum is the nesting depth |
| `Registers.AllocatesSize` | src/deps/libregexp.c:2444-2505 | the allocation changes no instruction size, so that all jumps stay right |
| `RegisterPass.ComputeRegisterCount` | src/deps/libregexp.c:2444-2505 | the pass over the bytes performs the allocation in place and returns the most registers in use, or fails exactly when they are too many |
| `Backtracker.Execution.Backtrack` | src/deps/libregexp.c:2774-3321 | the interpreter with its flat stack and undo log ends as the machine with full snapshots does, with the same position and the same captures and registers |
| `Backtracker.Execution.ExecOne` | src/deps/libregexp.c:2849-3319 | every instruction of the interpreter is one step of the snapshot machine |
| `Backtracker.Execution.Turn` | src/deps/libregexp.c:2839-2873 | one turn of the interpreter brings the run of the snapshot machine nearer to its end |
| `Backtracker.Execution.SaveCapture` | src/deps/libregexp.c:2805-2812 | sets a cell and logs its old value; no snapshot of an older choice point changes |
| `Backtracker.Execution.SaveCaptureCheck` | src/deps/libregexp.c:2815-2833 | sets a cell, and skips the log when the cell is in it; no snapshot of an older choice point changes |
| `Backtracker.Execution.PushFrame` | src/deps/libregexp.c:2958-2966 | pushes a choice point whose snapshot is the memory at that moment |
| `Backtracker.Execution.UndoCaptures` | src/deps/libregexp.c:2857-2861 | undoes the newest log, without changing any snapshot: the memory is then the snapshot of the newest choice point |
| `Backtracker.Execution.NoMatch` | src/deps/libregexp.c:2852-2873 | takes up the newest choice point that is not a lookahead, with exactly the memory held when it was pushed, or ends |
| `Backtracker.Execution.LookaheadMatch` | src/deps/libregexp.c:2874-2906 | drops the choice points of a lookahead, keeps the memory and leaves every older snapshot as it was, through the compaction in place |
| `Backtracker.Execution.KeepUndoInfo` | src/deps/libregexp.c:2895-2904 | the compaction leaves exactly the concatenation of the logs of the dropped choice points, and reads every link before overwriting it |
| `Backtracker.Execution.CopyLog` | src/deps/libregexp.c:2899-2902 | copies one log down the stack |
| `Backtracker.Execution.FindLookahead` | src/deps/libregexp.c:2882-2894 | goes down to the frame of the lookahead, and leaves in each frame passed the end of its log |
| `Backtracker.Execution.NegativeLookaheadMatch` | src/deps/libregexp.c:2907-2925 | drops every choice point down to the negative lookahead, and leaves the older snapshots as they were |
| `Backtracker.Execution.ExecLoop` | src/deps/libregexp.c:3061-3137 | the loop and check instructions, with the 32-bit decrement of the counter |
| `Backtracker.Execution.TestBackReference` | src/deps/libregexp.c:3172-3228 | the comparison with the first group both ends of which are set, in both directions |
| `UndoLog.SnapshotsWritten` | src/deps/libregexp.c:2805-2833 | logging a write keeps the snapshots of all choice points |
| `UndoLog.UndoSkip` | src/deps/libregexp.c:2814-2833 | a log that already has a cell restores it whatever is written to the cell |
| `UndoLog.SnapshotsCollapsed` | src/deps/libregexp.c:2874-2906 | merging the logs of dropped choice points into the log below keeps the snapshots of those that stay |
| `StringList.REStringList.Combine` | src/deps/libregexp.c:303-349 | one clause for each operation: union, intersection and difference in place are those of the sets of strings, of the code points, and of both together |
| `StringList.REStringList.Add` | src/deps/libregexp.c:292-301 | adds a string to the set, one-character strings to the code points |
| `StringList.REStringList.Find2Add` | src/deps/libregexp.c:227-281 | adds a string unless it is there, growing the table; the table stays valid if and only if it has strings, or is not allocated, or the first chain is the right one |
| `StringList.REStringList.Grow` | src/deps/libregexp.c:245-268 | the table of twice the size has the same strings, each in the chain its hash selects |
| `StringList.REStringList.Lookup` | src/deps/libregexp.c:227-241 | a string is found exactly when it is in its chain, which in a valid table means that it is in the set |
| `StringList.REStringList.ExactCount` | src/deps/libregexp.c:227-281 | the count of strings is exact, and none of them has one character |
| `StringList.EmptiedTable` | src/deps/libregexp.c:231-241 | a run of the operations after which a string of the set is not found |
| `StringList.StringHash` | src/deps/libregexp.c:150-158 | the 32-bit hash of a string |
| `QuickSort.Rqsort` | src/deps/cutils.c:522-639 | for every length and every comparison the sort ends, within its stack of 50 entries, with a permutation of the array; for every total preorder the array is sorted |
| `QuickSort.Narrow` | src/deps/cutils.c:545-632 | the inner loop leaves a fragment of at most six elements; everything else that is unsorted is on the stack, whose entries never exceed the depth |
| `QuickSort.PushLarger` | src/deps/cutils.c:616-631 | the larger part is pushed, and the stack stays below the depth |
| `QuickSort.InsertionSort` | src/deps/cutils.c:633-637 | sorts a fragment and permutes nothing else |
| `Partition.PartitionStep` | src/deps/cutils.c:552-615 | smaller elements, elements equal to the pivot and greater ones end up in three consecutive parts, each side shorter than the whole |
| `Partition.Scan` | src/deps/cutils.c:561-583 | the two scans leave four regions: equal, smaller, greater, equal |
| `Partition.SwapBlock` | src/deps/cutils.c:589-609 | exchanges two blocks element by element |
| `Partition.Med3` | src/deps/cutils.c:514-519 | a median of three for a total preorder, one of the three for any comparison |
| `HeapSort.Sort` | src/deps/cutils.c:480-512 | heapsort permutes the range for any comparison and sorts it for a total preorder |
| `HeapSort.SiftDown` | src/deps/cutils.c:492-498 | restores the heap below one position |
| `Reciprocal.UDiv1Norm` | src/deps/dtoa.c:119-139 | the wrapping 32 and 64-bit arithmetic returns the exact quotient and remainder for every normalized divisor and every high limb below it |
| `Reciprocal.ReciprocalMeaning` | src/deps/dtoa.c:110-117 | the precomputed reciprocal brackets 2^64 / d |
| `Bignum.Mpb.DivNorm` | src/deps/dtoa.c:190-203 | division in place by a shifted divisor with its reciprocal agrees with plain long division |
| `Bignum.Mpb.DivSmall` | src/deps/dtoa.c:141-152 | long division in place: exact quotient and remainder |
| `Bignum.Mpb.MulSmall` | src/deps/dtoa.c:95-108 | multiplication in place by a limb, with the carry out |
| `Bignum.Mpb.AddSmall` | src/deps/dtoa.c:79-93 | addition in place of a limb, with the carry out |
| `Bignum.Mpb.ShiftRightBits` | src/deps/dtoa.c:154-170 | shift right in place by part of a limb, with the bits shifted out |
| `Bignum.Mpb.ShiftLeftBits` | src/deps/dtoa.c:172-188 | shift left in place by part of a limb, with the bits carried out |
| `Bignum.Mpb.Renorm` | src/deps/dtoa.c:218-222 | drops zero limbs at the top without changing the value |
| `BignumOps.ShrRound` | src/deps/dtoa.c:317-402 | for every bignum and every shift, negative or past the end: the value times 2^-shift, rounded as the mode says, final carry included |
| `BignumOps.AddOne` | src/deps/dtoa.c:317-402 | from the bits cut off, whether the rounded value is one larger than the truncated one |
| `BignumOps.FloorLog2` | src/deps/dtoa.c:452-461 | the position of the highest bit, or -1 for zero |
| `BignumOps.Cmp` | src/deps/dtoa.c:405-421 | the order of the values |
| `BignumOps.SetU64` | src/deps/dtoa.c:423-436 | sets a 64-bit value |
| `BignumOps.GetU64` | src/deps/dtoa.c:438-450 | returns the value when it fits 64 bits |
| `BignumOps.MulBase` | src/deps/dtoa.c:1336-1354 | r * base + a, with 0 standing for 2^32 |
| `Rounding.RoundNearest` | src/deps/dtoa.c:298-302 | rounding to nearest: no integer is closer, and a tie goes to the even one or away from zero |
| `Rounding.RoundDown` | src/deps/dtoa.c:298-302 | truncation |
| `Rounding.StickyRound` | src/deps/dtoa.c:955-956 | with at least two more bits, the quotient with a sticky last bit rounds as the exact quotient does, in every mode |
| `Bits.RoundByBits` | src/deps/dtoa.c:317-402 | how the half bit and the bits below it decide rounding |
| `Scaling.MulPow` | src/deps/dtoa.c:895-960 | the bignum times the power of the radix, or its quotient with a sticky last bit, with two more bits than an integer needs or at least e bits |
| `Scaling.DivDown` | src/deps/dtoa.c:939-954 | chunked floor divisions compose to one, and the ORed remainders are non-zero exactly when it is inexact |
| `Scaling.MulUp` | src/deps/dtoa.c:904-920 | chunked multiplication by a power |
| `Scaling.PowUi` | src/deps/dtoa.c:245-273 | the power, by squaring |
| `Scaling.PowUiInv` | src/deps/dtoa.c:275-296 | the normalized power, its shift and its reciprocal |
| `ScaledRounding.MulPowRound` | src/deps/dtoa.c:962-971 | m * 2^e * radix^f rounded exactly, in every mode and for every sign of e and f |
| `ScaledRounding.ScaledRound` | src/deps/dtoa.c:962-971 | rounding what mul_pow leaves rounds the exact value |
| `RoundToDouble.RoundToD` | src/deps/dtoa.c:973-1003 | the mantissa and exponent of the number a bignum stands for, rounded to nearest even with 53 bits, fewer below 2^-1021 |
| `FreeDigits.MulPowRoundToD` | src/deps/dtoa.c:1005-1017 | a * radix^f rounded to a double |
| `FreeDigits.MulLog2RadixMeaning` | src/deps/dtoa.c:477-493 | the estimate is the floor of a / log2(radix) |
| `FreeFormatSearch.FreeFormat` | src/deps/dtoa.c:1184-1245 | the digits read back to exactly the double, are the double rounded to their number, the closest of it, and have no trailing zero; the search ends where the nearest number of one digit less does not read back; and they are as few as possible unless the mantissa is 2^52 |
| `FreeFormatSearch.OneRound` | src/deps/dtoa.c:1201-1225 | one round leaves the double rounded to at most p digits, without trailing zeros, and settles for all the digits it makes superfluous whether the nearest numbers read back |
| `FreeFormatSearch.RoundToDigits` | src/deps/dtoa.c:1207-1217 | the double rounded to p digits, at one of two exponents |
| `FreeFormatSearch.StripZeros` | src/deps/dtoa.c:1218-1222 | the same number without trailing zeros |
| `FreeFormatSearch.ReadBack` | src/deps/dtoa.c:1226-1231 | tells exactly whether digits read back as the double |
| `FreeFormatSearch.FirstReads` | src/deps/dtoa.c:1223-1225 | the first try, which is not checked, reads back: radix^(P_max - 1) >= 2^53 suffices |
| `FreeFormatSearch.NotShortest` | src/deps/dtoa.c:1201-1240 | for 2^-44 in decimal the search must end with seventeen digits although sixteen read back |
| `MinimalDigits.ShortestIff` | src/deps/dtoa.c:1201-1240 | where the search ends there are as few digits as possible if and only if, for every number of digits below P_max, the nearest number reads back whenever the next one after it does |
| `MinimalDigits.EvenlySpaced` | src/deps/dtoa.c:1201-1240 | which is always so when the mantissa is not 2^52, or is that of a denormal |
| `MinimalDigits.OneReads` | src/deps/dtoa.c:1201-1240 | if any number of q digits reads back, the nearest one or the one after it does |
| `MinimalDigits.StrippedNearest` | src/deps/dtoa.c:1207-1222 | the number a round finds is the nearest one for every number of digits that stripping its zeros makes superfluous |
| `MinimalDigits.StrippedReads` | src/deps/dtoa.c:1207-1231 | so that all these nearest numbers read back, or none does |
| `MinimalDigits.NearestClosest` | src/deps/dtoa.c:1207-1217 | of all numbers of p digits, at any exponent, none is closer to the double than the double rounded to p digits |
| `FastIntegers.IntegerSearch` | src/deps/dtoa.c:1172-1182 | for an integer below 2^53 the search would end with its digits, without the zeros behind them: printing it without a search changes nothing |
| `MinimalDigits.StrippedClosest` | src/deps/dtoa.c:1207-1222 | no number of as many digits is closer to the double |
| `Reading.ReadsIff` | src/deps/dtoa.c:973-1003 | reading gives a double exactly on its rounding interval, which is lopsided at powers of two |
| `Reading.CloserReads` | src/deps/dtoa.c:973-1003 | what is no farther away than something read as a double is read as it too, unless it crosses to the denser side |
| `FreeDigits.FoundClosest` | src/deps/dtoa.c:1207-1217 | what a round of the search finds is closest among all numbers of its digits |
| `FreeDigits.ReadsUnique` | src/deps/dtoa.c:1226-1231 | a fraction is read as one double only |
| `OutputDigits.PrintDigits` | src/deps/dtoa.c:851-884 | the last digits of a bignum, in power-of-two and other radices |
| `OutputDigits.PrintAndRead` | src/deps/dtoa.c:851-884 | printing a bignum below radix^n with n digits and accumulating the digits as js_atod does gives the bignum back |
| `OutputDigits.PutDigits` | src/deps/dtoa.c:547-592 | the last digits of a word |
| `PrintParse.PrintFree` | src/deps/dtoa.c:1112-1318 | for every double that is not negative and every exponent mode, on every path: the number written denotes it for any parser that keeps enough digits; it has as many significant digits as the search ends with, is the double rounded to that many, the closest of them, with as few as possible unless the mantissa is 2^52; and it is laid out by the rules: whether there is an exponent part, of which kind, and no needless zero |
| `NumeralLayout.LayoutWrites` | src/deps/dtoa.c:1282-1316 | each of the layouts writes the number that digits and exponent stand for, with zeros around the digits |
| `NumeralLayout.LayoutRules` | src/deps/dtoa.c:1282-1316 | the layout chosen keeps the rules: an exponent part when asked for, or, when left to the printer, exactly for numbers below radix^-6 or from radix^(P_max + 4) on; then one digit, not zero, in front of the point, and an exponent of two exactly for radix 2, 4, 8 and 16; otherwise digits in front of the point and no needless zeros |
| `NumeralLayout.BelowIff` | src/deps/dtoa.c:1287-1288 | the test on the exponent is a comparison of the number written with a power of the radix |
| `PrintParse.IntegerDigits` | src/deps/dtoa.c:662-693 | the digits of an integer, without leading zeros |
| `PrintParse.PrintAndParse` | src/deps/dtoa.c:1112-1612 | the parser undoes the printer, for every double that is not negative, every radix and every exponent mode, with any tables that meet what both rely on |
| `Atod.ParseNumber` | src/deps/dtoa.c:1423-1612 | the double nearest to the written value, ties to even, with denormals, underflow and overflow: for a power-of-two radix at any number of digits, otherwise for the digits kept |
| `Atod.FinishBinary` | src/deps/dtoa.c:1510-1514 | for a power-of-two radix the digits dropped act as a sticky bit |
| `Atod.AtodBinary` | src/deps/dtoa.c:1575-1584 | overflow and underflow checks and rounding, for a power-of-two radix |
| `Atod.AtodOther` | src/deps/dtoa.c:1585-1594 | overflow and underflow checks and rounding, for the other radices |
| `ConversionTables.TablesHold` | src/deps/dtoa.c:726-755 | for every radix from 2 to 36 the entries of the four tables meet what printer and parser rely on: enough digits, digits that fit 64 bits, and exponents past which numbers overflow or round to zero |
| `Conversions.FormatDouble` | src/deps/dtoa.c:1112-1318 | with the tables of dtoa.c, for every radix and every exponent mode: the digits the double is owed, laid out by the rules |
| `Conversions.FormatAndParse` | src/deps/dtoa.c:1112-1612 | with the tables of dtoa.c, for every radix and every exponent mode: every double that is not negative comes back |
| `Atod.FinishNumber` | src/deps/dtoa.c:1569-1612 | the double nearest to the digits kept and the exponent, ties to even, for every radix |
| `DigitStrings.AccumulateDigits` | src/deps/dtoa.c:1484-1500 | the bignum has the value of the digits kept, and the flag tells whether a digit dropped was not zero |
| `Doubles.RoundedNearest` | src/deps/dtoa.c:1595-1607 | the bits assembled from the rounded mantissa and exponent are those of the nearest double, infinity included |
| `Doubles.BitsMeaning` | src/deps/dtoa.c:1595-1607 | what the assembled bits stand for, and that an even mantissa gives even bits |
| `Doubles.Decompose` | src/deps/dtoa.c:1125-1168 | the normalized mantissa and exponent of a positive double have its value |
| `PrintParse.NearestUnique` | src/deps/dtoa.c:1595-1607 | only one double is nearest, so that the contract of the parser determines its result |

## Left out

Regular expressions:

- Parsing of the surface syntax (escapes, group names, modifiers, Annex B, error messages). The model starts from a syntax tree, walked in the order of the parser; a part that would need parentheses stands in a non-capturing group.
- UTF-16 surrogate pairs (`cbuf_type` 2): a subject is a sequence of characters.
- The tables of libunicode for canonicalization, which is an arbitrary function, and for the properties of characters; a CharRange is a strictly increasing list of intervals.
- Strings in character classes (`\q{...}`) and what is emitted for them; only their table is modelled.
- Timeouts, allocation failure, `stack_realloc` and the growth of DynBuf.
- Compile.LreCompile: the limit on the size of the code is checked once, after everything has been emitted, where the original can give up while the buffer grows; the outcome is the same.
- Compile.LreCompile: names of groups in the image, and the flag for them, are not modelled; the flags are stored as given.
- Engine.LreExec: requires CountersFit, see Findings.
- Parser.ParseState.ParseBackReference: a reference to group 255 or above is refused at once, where the original goes on until the count of captures shows that there is no such group.
- StringList.REStringList: chains are sequences, so that relinking a node is replacing the sequence; the number of strings stays below 2^30, as memory does.
- StringList.REStringList.Combine: a union requires that this table has not been emptied, see Findings; the code points of the class are a set.

Numbers:

- The sign, NaN, "Infinity", prefixes, separators and the character-level scanning of `js_atod`; a number is its digits, the place of the point and the exponent part, which is an integer of any size.
- The characters of the output and the point inserted by `output_digits`; the layouts are digits, point and exponent.
- The FRAC and FIXED formats, and the limits of the buffers for bignums.
- Scaling.PowUi: does not model 64-bit wrap-around, because every caller stays below 2^64; the tables of powers of five are computed.
- FreeDigits.MulLog2RadixMeaning: the documented floor is computed, not the multiplication by a table entry.
- The tables of digits per limb and of their weights: both are computed from the radix.
- RoundToDouble.RoundToD: shift counts of 64 and above are mathematical; a mantissa that is zero stays zero.

Sorting:

- Elements are array cells; the exchange functions for the sizes of elements are swaps of cells.
