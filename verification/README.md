# Verification of the binary translator

The repository is a set of Pin tools. The main one copies routines of a running program into a *translation
cache* (TC), re-encodes every branch and every RIP-relative operand so that the copy works where it stands, and
redirects the program to the copy. On top of that it inlines hot callees and reorders blocks by profile; the
profile itself is gathered and stored as CSV files by the same tool. This project models that pipeline in Dafny
and proves that the code in the TC behaves as the original code does.

## How the model is built

* `Words.dfy`, `Instructions.dfy`: 64-bit addresses with wrap-around, sign-extended 32- and 8-bit displacements,
  and an instruction set with a concrete encoder and decoder. Control transfers have their x86-64 opcodes, widths
  and lengths; RIP-relative and absolute operands differ as in section 2.2.1.6 of Intel SDM volume 2A (the
  absolute form has one byte more). All other instructions are length-tagged blocks of bytes. A prefix without
  effect stands for anything that makes an instruction longer than what the encoder makes of it. A displacement
  that does not fit the width it is encoded with is cut off, as the calls that set it do not check it.
* `Machine.dfy`, `Simulation.dfy`: running code. The data state is a type parameter and what instructions do to it
  is a parameter too; the conditions are those of Appendix B of Intel SDM volume 1. Return addresses are kept in a
  stack of locations behind the program counter; what a call and a return do to the data, the stack pointer to begin
  with, is part of the parameter.
* `InstrMap.dfy`, `Translator.dfy`: the instruction map, an array of records updated in place, and the program's
  own loops over it: adding, chaining, fixing displacements in passes, copying into the TC, committing.
* `LinkedCode.dfy` gives the map a meaning, code whose branches go from entry to entry or back to the original
  code, and proves that the bytes in the TC have that meaning; `Encodability.dfy` says from the instructions alone
  when the encodings suffice for that, and `MapMemory.dfy` shows from the layout of the records in memory that a jump
  through a record goes where it should. The three translations are then proved against linked code only:
  `Translation.dfy` (plain), `Reordering.dfy`, `Inlining.dfy` (which allows reordered code around the inlined body,
  as in the one map that both rewrites fill). Each ends in a theorem about the bytes: a process with the TC follows the
  original program through whole runs, with the same data in every state. While an inlined body runs, the original
  data are one stack slot ahead for each inlined frame; `Inlining.StackKept` says what the callee has to meet for
  them to be the same again behind the call, `InliningStack.dfy` how that reads as laws and that it is exact for
  callees without branches, and `StackMachine.dfy` how it can be read off the instructions of a callee with branches
  and loops. `Patched.dfy` adds the jumps that the commit writes over the heads of the routines.
* `ExitTest.dfy`, `MemoryBound.dfy`, `HeaderMerge.dfy`, `Routines.dfy`: the exit test of the pass loop by itself, the
  size of the TC, the search for routine headers, the table of routines.
* `EdgeProfile.dfy`, `CallProfile.dfy`, `LoopProfile.dfy`: the profiles. `Csv.dfy`, `EdgeFile.dfy`, `CalleeFile.dfy`:
  their files, written and read back.

`hide` statements keep proof obligations small; all lemmas switch automatic induction off.

## Where the code does not do what it is meant to

* The displacements hard-coded for reordering are right only for block ends of particular lengths
  (`Reordering.FixedRightIff`), and wrong for the most ordinary block end there is (`Reordering.FixedWrong`). The
  reordering theorem therefore has them as parameters and says exactly which ones are right.
* Reordering loses the end of a block that ends in JRCXZ, or in a LOOP that is mostly taken. The layout is right all the
  same if and only if nothing of the block is left, nothing falls out of it, or what is laid out next stands for the
  lost instruction (`Reordering.BlockRight` in `Reordering.LayoutWellPlacedIff`); `Reordering.LostTail` is a layout in
  address order that is wrong.
* A branch to itself that is kept with a jump behind it is chained to that jump, which has its address. It still goes
  round if and only if another copy of it stands further up (`Reordering.SelfBranchIff`); a LOOP to itself is left
  after one round (`Reordering.KeptLoopLeaves`).
* A RIP-relative operand survives if and only if the instruction kept its length when it was added and its address
  fits a sign-extended 32-bit displacement (`LinkedCode.OperandKeptIff`); `Encodability.FarOperand` and
  `Encodability.ShortenedOperand` are operands that do not.
* A LOOP or JRCXZ is silently cut off if and only if the sizes of the instructions between it and its target, as they
  will be in the TC, add up to more than a byte (`Encodability.BranchLandsIff`, `Encodability.ShortTc`);
  `Encodability.LoopCutOff` is one that was in reach before.
* A direct branch to address 0 is taken for no branch, because 0 is the mark for "no target"
  (`Encodability.ZeroTarget` is one). It still goes to 0 if and
  only if it ends in the TC where it ended in the image (`Encodability.ZeroTargetIff`), which it never does
  (`Encodability.ZeroTargetLost`).
* A branch from elsewhere keeps its meaning if and only if it is not to an inlined instruction
  (`Inlining.OutsideIff`); a second caller of an inlined callee never returns (`InliningStack.SecondCallCaptured`).
* A branch of an inlined callee to another instruction of it keeps its meaning if and only if it is not to the RET,
  which is not in the copy (`Inlining.InsideIff`). The written requirements allow such branches and the test for
  callees accepts them. A conditional one makes the translation fail (`InliningStack.BranchToRetFails`); a jump does
  not, and goes out to the original RET, which returns from the caller (`InliningStack.JumpToRetSkips`,
  `InliningStack.JumpToRetAccepted`).
* The test for callees to inline does not look at the stack. A callee without branches can be inlined if and only if
  it does not notice the return address (`InliningStack.StraightNecessary`, `InliningStack.StraightSufficient`); one
  that reads an argument from the stack does, and is inlined (`StackMachine.StackArgumentLost`).
* In the header sweep a failure marks the routine after the one being translated. If no entry was made for the failing
  instruction and a routine begins with it, that routine is redirected to one past the last entry, a record that is
  all zero (`HeaderMerge.MergeHeaders`, `HeaderMerge.FailingHeader`). Without a failure a routine is redirected if and
  only if its first instruction and those of all routines before it were decoded.
* The length of the TC is an `int`: it is what it should be if and only if that is below 2^31, and negative right
  above (`MemoryBound.EstimateCutIff`, `MemoryBound.EstimateCut`).

## Model

| member | source | states |
|---|---|---|
| Translation.RoutinesPreserveRuns | HW3/ex3.cpp:1051-1164 | Whole translation of a set of routines, each in one piece: entered at the new address of its first instruction, a routine does what the original does for any number of steps, all code addresses corresponding, through exits to untranslated code and returns from it |
| Translation.TranslationPreservesRuns | HW3/ex3.cpp:613-702 | The same from any pair of corresponding configurations: equal data, and each address either the same untranslated one or the new address of an entry made from it |
| Translation.LinkedCodeFollowsOriginal | HW3/ex3.cpp:678-702 | Code linked by chaining follows the original program step by step, whatever entries share an original address |
| Translation.RoutinesStayInside | HW3/ex3.cpp:1066-1140 | If each routine is decodable, contiguous and does not run off its end, every instruction in the map is followed by its own successor |
| LinkedCode.TcFollowsLinkedCode | HW3/ex3.cpp:896-1045 | Layout correctness: after a successful translation a process fetching bytes from the TC runs in step with the linked code, every location at its place, for whole runs |
| LinkedCode.EntryEffect | HW3/ex3.cpp:708-985 | The final instruction of an entry does to the data what the original one does, and sends control to the place of the entry it is chained to or to the original target |
| Encodability.EncodableIff | Project/project.cpp:554-752 | Whether every encoding in the final map can say what it has to is decided by the instructions and the addresses of TC and map alone, before the translation |
| Encodability.BranchLandsIff | Project/project.cpp:694-745 | A chained branch lands on the new address of its target entry if and only if the sizes of the instructions in between, as they will be in the TC, add up to a distance that fits its width |
| Encodability.ShortTc | Project/legacy/rtn-translation.cpp:985-996 | In a TC shorter than 2^31 bytes four bytes always suffice, and a LOOP is cut off exactly if its target ends up more than a byte away |
| Encodability.LoopCutOff | Project/project.cpp:700-712 | A LOOP back over 22 short jumps, in reach before the translation and cut off after it |
| Encodability.ZeroTargetIff | Project/project.cpp:453-455 | A branch to address 0 still goes there if and only if it ends in the TC where the original ended |
| Encodability.ZeroTargetLost | Project/project.cpp:453-455 | So it never does in a TC apart from the image |
| Encodability.FarOperand | Project/project.cpp:503-547 | A valid move with an operand beyond 2^31, which is lost |
| Encodability.ShortenedOperand | Project/project.cpp:503-547 | A valid move that loses a prefix when it is added, whose operand is lost |
| Encodability.FarCell | Project/project.cpp:585-648 | A jump out of the translated code whose cell is too far from the TC |
| LinkedCode.CellReadIff | Project/project.cpp:585-648 | An unchained jump or call reads the cell with its own original target if and only if the displacement to that cell fits 32 bits |
| MapMemory.MapHoldsCells | HW3/ex3.cpp:422-431 | With the records of the map in memory, field by field in the order of their declaration, what is read through the cell of any entry is the original target of that entry |
| MapMemory.CellsApart | HW3/ex3.cpp:818 | The cells of two entries have no byte in common |
| LinkedCode.OperandKeptIff | Project/project.cpp:503-547 | The rewritten operand denotes the original address, wherever it is placed, if and only if the first re-encoding kept the length and the address fits a sign-extended 32-bit displacement |
| LinkedCode.FetchEntry | Project/project.cpp:1098-1115 | Decoding the TC at the place of an entry gives exactly the instruction the entry holds |
| Translator.Translator.AddNewInstrEntry | HW3/ex3.cpp:613-672 | Adds one entry of the decoded instruction at the estimated end of the TC; refuses a wrong length; reports a full map after the entry was added |
| Translator.Translator.ChainAllDirectBrAndCallTargetEntries | HW3/ex3.cpp:678-702 | Every direct branch is chained to the first other entry with its target as original address, or to none if there is none; nothing else changes |
| InstrMap.Resolve | Project/project.cpp:457-468 | The entry found is the least one other than the branch itself whose original address is the target; none is found only if none exists |
| Translator.Translator.FixRipDisplacement | HW3/ex3.cpp:708-778 | A RIP operand becomes absolute with the address cut to 32 bits; branches and everything else stay as they are |
| Translator.Translator.FixDirectBrCallToOrigAddr | HW3/ex3.cpp:784-890 | An unchained jump or call goes through its own cell, with the displacement counted from its final length; fails exactly for conditional branches |
| Translator.Translator.FixDirectBrCallDisplacement | HW3/ex3.cpp:896-983 | A chained branch is aimed at the present address of its target from the end of its final length |
| Translator.Translator.FixEntry | HW3/ex3.cpp:1000-1035 | One round of a pass: the entry moves by the pending difference, gets its final length, never shrinks, and is right for the addresses now in the map |
| Translator.Translator.Pass | HW3/ex3.cpp:994-1036 | A pass leaves the map without gap or overlap, each branch aimed at where its target is if that was reached before it and else at where it was; if it reports no difference every entry is right for the addresses in the map |
| InstrMap.PassStep | Project/project.cpp:772-809 | Mid-pass invariant: entries behind are in place, entries ahead are all off by the same difference, and while that is 0 nothing encoded is stale |
| InstrMap.ShiftedStep | Project/project.cpp:774-808 | The layout half of it: moving one entry and growing it hands the new difference on to the entries ahead |
| Translator.Translator.FixInstructionsDisplacements | HW3/ex3.cpp:989-1045 | Stops within two passes; fails exactly if a conditional branch leaves the translated code; otherwise every entry holds what it must for its final address and that of its target |
| ExitTest.PassError | Project/project.cpp:764-811 | The displacement a pass leaves in a branch is off by exactly the growth up to its target if that is ahead, and not at all if it is behind |
| ExitTest.ExitTestExact | Project/project.cpp:764-811 | For any encoder: after a pass without net change no such error is left if and only if no length changed |
| ExitTest.GrowOnlyExit | Project/project.cpp:764-811 | If lengths only grow, no net change means no change at all |
| ExitTest.ShrinkingCancels | Project/project.cpp:764-811 | Without that, a growth and a shrinking can cancel and leave a forward branch off by one |
| InstrMap.LaidOutOffset | Project/project.cpp:416-427 | In a map without gap or overlap each entry is at the start of the TC plus the sizes before it |
| Translator.Translator.CopyInstrsToTc | HW3/ex3.cpp:1147-1164 | Succeeds exactly if each entry is addressed where the sizes before it put it, and then every entry stands in the TC at its offset and what lies behind is untouched |
| Translator.Translator.AddRoutine | HW3/ex3.cpp:1078-1124 | The instructions up to the first that cannot be decoded as described get into the map, and stay there |
| Translator.Translator.FindCandidateRtnsForTranslation | HW3/ex3.cpp:1051-1141 | The map holds the routines one after the other, and each whole one is recorded with its address and size, the entry it starts at, and as safe to redirect |
| Translator.Translator.ChainFixCopy | HW3/ex3.cpp:1317-1336 | The three steps after collecting fail exactly on a conditional branch without an entry to go to, and otherwise leave map and TC translated |
| Translator.Translator.ImageLoad | HW3/ex3.cpp:1291-1336 | The whole translation from a list of routines |
| Translator.Translator.TranslateItems | Project/project.cpp:1832-1884 | The same from a list of instructions, such as an inlined or reordered routine |
| Translator.Translator.CommitTranslatedRoutines | HW3/ex3.cpp:1170-1211 | Exactly the recorded routines longer than a probe that can be replaced are redirected, each to the new address of the entry recorded for it, which is its own first instruction |
| Translator.Translator.TranslateAndCommit | HW3/ex3.cpp:1291-1343 | From the routines to the commit, told from the routines alone: exactly those that can be decoded whole, are longer than 14 bytes and can be replaced are redirected, each to the start of the TC plus the sizes of all instructions before its first one |
| Patched.PatchedPreservesRuns | HW3/ex3.cpp:1170-1211 | The process whose routine heads jump to their translations follows the original program through whole runs, with one more step for each redirected routine called from outside the TC, as long as control stays out of the middle of the patches |
| Patched.PatchInside | HW3/ex3.cpp:1184 | What is overwritten for a routine that is redirected, the six bytes of the jump and the address behind it, lies inside that routine and outside every other |
| Routines.RecordedEntry | HW3/ex3.cpp:1066-1069 | The entry recorded for a whole routine is that of the instruction at its address |
| Routines.WholeIff | HW3/ex3.cpp:1078-1124 | A routine gets into the map whole if and only if each of its instructions can be decoded with the length given for it |
| Instructions.DecodeEncode | HW3/ex3.cpp:640-650 | Decoding undoes encoding, whatever bytes follow |
| Instructions.DecodeValid | HW3/ex3.cpp:1092-1101 | What is decoded is valid, at most 15 bytes, and no shorter than its own encoding |
| Instructions.DecodeOnly | HW3/ex3.cpp:1092-1100 | The bytes of a decoded instruction are its encoding, at most with the prefix without effect in front |
| Instructions.PrefixIgnored | Project/project.cpp:503-547 | An instruction with that prefix is the same one byte longer, which re-encoding loses |
| Instructions.KnownJumps | Project/project.cpp:694-745 | Encodings from the instruction set reference |
| Words.ReachIff | Project/project.cpp:697-731 | A cut displacement reaches its target if and only if the signed 64-bit distance fits the width |
| Inlining.CanInlineCallee | Project/project.cpp:837-873 | Accepts exactly the callees entered at their head with a single RET at the end |
| Inlining.SpliceCallee | Project/project.cpp:918-1040 | The caller with the call replaced by the callee without its RETs |
| Inlining.SplicedConcat | Project/project.cpp:918-1040 | Splicing goes instruction by instruction, in order, wherever the list is cut |
| Inlining.SplicedShape | Project/legacy/inline.cpp:826-990 | Splicing a caller and a callee, each in one piece, puts the body where the call was and leaves everything else in order |
| Inlining.CombinedShape | Project/project.cpp:1832-1884 | The same in one map with a reordered routine |
| Inlining.StepAnswered | Project/legacy/galRtnTranslationTryTwo.cpp:1526-1534 | Each original step is one step of the spliced code, except that the removed call and the removed RET are none and an added jump is one more |
| Inlining.LaggingStep | Project/legacy/galRtnTranslationTryTwo.cpp:1533-1534 | Items 6 and 7: data that differ by one stack slot for each inlined frame go the same way and still differ by that after every step |
| Inlining.InliningPreservesRuns | Project/legacy/galRtnTranslationTryTwo.cpp:1526-1542 | If nothing else is in the map at an address of the callee, nothing else branches into it, its branches stay in it and off its RET, and the stack requirement is met: for any control flow of the callee including loops, calls and recursion through the caller, the process with the spliced code reaches the corresponding state after any number of original steps and keeps up; the data are the same whenever no inlined frame is open |
| Inlining.InlinedRoutineRuns | Project/project.cpp:883-1092 | The same from the new address of any entry outside the body, called from untranslated code |
| InliningStack.InlinedRunsOneCallBehind | Project/legacy/galRtnTranslationTryTwo.cpp:1533-1534 | If what runs under an inlined frame commutes with a call and a return undoes a call, the original data are those of the spliced code with one call made for each inlined frame open |
| InliningStack.StraightBodyIff | Project/legacy/galRtnTranslationTryTwo.cpp:1533-1534 | Call, body and RET agree with the body alone, for a callee without branches, if and only if the body does not notice the return address |
| InliningStack.StraightNecessary | Project/legacy/galRtnTranslationTryTwo.cpp:1533-1534 | Only such a callee can meet the stack requirement of the theorem |
| InliningStack.StraightSufficient | Project/legacy/galRtnTranslationTryTwo.cpp:1533-1534 | And every such callee meets it |
| StackMachine.BalancedKept | Project/legacy/galRtnTranslationTryTwo.cpp:1533-1534 | On a machine with push, pop and access relative to the stack pointer: a callee in which all ways to an instruction agree on the slots pushed, none at the RET, and no instruction reaches below them, meets the stack requirement whatever its branches and loops |
| StackMachine.StackArgumentLost | Project/project.cpp:837-873 | A callee that is accepted, reads an argument from the stack, and reads another slot once inlined |
| Inlining.OutsideIff | Project/legacy/galRtnTranslationTryTwo.cpp:1528 | A branch from outside the body, whatever its target, goes on where the original does if and only if it is not to an inlined instruction |
| Inlining.InsideIff | Project/project.cpp:1006-1030 | A branch of the inlined callee to another instruction of it goes on where the original does if and only if it is not to the RET |
| InliningStack.JumpToRetSkips | Project/project.cpp:1006-1030 | An inlined jump to the RET returns from the caller and skips the rest of it, whatever the callee and the data |
| InliningStack.JumpToRetAccepted | Project/project.cpp:837-873 | A callee that does so, is accepted, and does not make the translation fail |
| InliningStack.BranchToRetFails | Project/project.cpp:554-659 | A conditional branch to the RET makes the translation fail |
| InliningStack.SecondCallCaptured | Project/legacy/galRtnTranslationTryTwo.cpp:1528 | A caller with two calls of the callee: after one is inlined, control calls into the copy for ever |
| Reordering.ReorderBlocks | Project/project.cpp:1239-1628 | The first block, then the other blocks in the order of the edges, tails inverted by profile and jumps added |
| Reordering.RevertedHolds | Project/project.cpp:1450-1518 | The inverted condition holds exactly when the original does not |
| Machine.UnsignedHolds | Project/project.cpp:1450-1518 | After a comparison the unsigned conditions hold exactly as the numbers compare |
| Machine.SignedHolds | Project/project.cpp:1450-1518 | And the signed ones as the signed numbers do |
| Reordering.ControlFlowIff | Project/project.cpp:1272 | An instruction ends a block if and only if it can do otherwise than fall through, whatever it computes |
| Reordering.CategoryMeans | Project/project.cpp:1430-1450 | What the category of an instruction says about where control goes |
| Reordering.FirstBlock | Project/project.cpp:1264-1375 | What is laid out first is everything up to the first instruction that can do otherwise than fall through, that one, and an added jump |
| Reordering.BlockLaidOut | Project/project.cpp:1378-1628 | Each selected block other than the head is laid out from its head to its end, in the place of its edge; the end is missing only if it is a JRCXZ or a LOOP that is mostly taken, and at most one jump is added |
| Reordering.HeadBlockOnce | Project/project.cpp:1378-1390 | The edge of the head block adds nothing, that block being in place |
| Reordering.HeadLinked | Project/project.cpp:457-468 | A branch to the head of a block that was laid out stays in the layout |
| Reordering.LayoutWellPlacedIff | Project/project.cpp:1373-1628 | For any routine in one piece and any selection and order of its blocks, every entry of the layout goes on as the original does if and only if every displacement resolves to the intended successor, no branch to itself is kept with a jump behind it, and no lost block end is missed |
| Reordering.LostTail | Project/project.cpp:1444-1445 | A block ending in JRCXZ with its successor laid out behind it, which goes on wrong |
| Reordering.TailWellPlacedIff | Project/project.cpp:1430-1628 | The end of a block that is laid out is well placed if and only if its displacements are right and it is not a branch to itself kept with a jump behind it |
| Reordering.TailVisitsIff | Project/project.cpp:1430-1628 | A block end of any kind goes on at the original successor, and an added jump does not count for one, with all data if and only if its displacements are right and a branch to itself that is kept has another copy to go to or no jump behind it |
| Reordering.LayoutVisitsIff | Project/project.cpp:1373-1628 | The same of every block end in the layout of a routine |
| Reordering.SelfBranchIff | Project/project.cpp:457-468 | A branch to itself goes round if and only if another copy stands further up or no added jump stands behind it |
| Reordering.KeptLoopLeaves | Project/project.cpp:1516-1628 | A LOOP to itself that is chained to the jump behind it |
| Reordering.FirstVisitsIff | Project/project.cpp:1280-1372 | The same for the end of the first block |
| Reordering.RarerOutcomeTaken | Project/project.cpp:1444-1518 | Over the profiled visits to a block end, the conditional that is laid down is taken as often as the rarer of the two outcomes occurred |
| Reordering.ReorderingPreservesRuns | Project/project.cpp:1239-1826 | The process with the reordered code goes through the original addresses in the original order for every flag history, with at most one extra step for each original one |
| Reordering.ReorderedRoutineRuns | Project/project.cpp:1832-1884 | The same from the new address of any original instruction of the layout, called from untranslated code, with equal data |
| Reordering.FixedRightIff | Project/project.cpp:1546 | The displacements in the program are right if and only if the block end has a particular length and, when inverted, a target seven bytes on |
| Reordering.FixedWrong | Project/project.cpp:1666 | A two-byte JZ that is mostly not taken, for which they are wrong |
| MemoryBound.EstimateMemory | Project/legacy/rtn-translation.cpp:941-1008 | The bounds are the least address of a counted section and the highest end of one, both 0 only if none is counted; four map entries for each instruction of the counted routines; a TC length of four times the span and twelve pages, cut to 32 bits, which is enough for all their routines unless it was cut |
| MemoryBound.RoutinesOfConcat | Project/legacy/rtn-translation.cpp:941-975 | The routines counted are those of the sections that are executable, not writeable and have an address, in order |
| MemoryBound.EstimateCutIff | Project/legacy/rtn-translation.cpp:985-1000 | The cut changes the length if and only if it is 2^31 or more, and then makes it too small |
| MemoryBound.EstimateCut | Project/legacy/rtn-translation.cpp:985-1000 | With half a gigabyte of text it comes out negative |
| MemoryBound.TcIsLargeEnough | Project/legacy/rtn-translation.cpp:737-863 | Disjoint routines in [low, high), in any order, take at most three times that much in the TC, which the estimate covers |
| HeaderMerge.MergeHeaders | Project/legacy/rtn-translation-inline2.cpp:807-834 | One sweep gives a routine the entry at its own address if and only if it and all routines before it have their first instruction in the list; with a failure, exactly which rows are set, marked and left alone, and the row of the failing instruction is right if and only if its entry was made |
| HeaderMerge.AllRedirected | Project/legacy/rtn-translation-inline2.cpp:807-834 | If every routine has its first instruction in the list, each is redirected to its own |
| HeaderMerge.FailingHeader | Project/legacy/rtn-translation-inline2.cpp:827-834 | Two routines, the first of which cannot be encoded: it is redirected to an entry that was not made, and the second is marked |
| EdgeProfile.Profile.BlockSeen | Project/project.cpp:2004-2083 | Recording a block the first time changes nothing else but the sharing flags, and after it a flag is set exactly if another block goes to the same target and neither of them is the target |
| EdgeProfile.Profile.SetSingleSource | Project/project.cpp:2089-2101 | Clears the flag of a block exactly if two distinct other blocks branch to it |
| EdgeProfile.BatchStep | Project/project.cpp:2052-2069 | Marking the new block and those that jump like it is all the flags need |
| EdgeProfile.OrderDoesNotMatter | Project/project.cpp:2039-2076 | The flags are determined by the set of blocks, not by the order they came up in |
| Csv.NumberRoundTrip | Project/project.cpp:183-194 | Reading a printed 64-bit number, decimal or hexadecimal, gives it back |
| Csv.AdornedNumber | Project/project.cpp:183-194 | Blanks, a sign or the prefix 0x in front, and anything behind that is no digit, are read as the C library does |
| Csv.NoNumber | Project/project.cpp:183-194 | A number of more than 64 bits or without digits cannot be read |
| Csv.DigitsOnly | Project/project.cpp:183-194 | Digits are read in either case, and a text that begins with anything but a blank, a sign or a digit is no number |
| Csv.LinesOfFile | Project/project.cpp:2221-2222 | Reading lines undoes writing them; while the text has not ended, one empty line more |
| Csv.SplitLine | Project/project.cpp:1991-2002 | The loop over the line yields the pieces between its commas |
| Csv.SplitJoin | Project/project.cpp:1976-2002 | Splitting undoes joining with commas |
| Csv.SplitTrailing | Project/project.cpp:1991-2002 | An empty piece behind the last comma is dropped |
| EdgeFile.EdgeRoundTrip | Project/project.cpp:183-194 | Reading a printed edge gives it back for all values of all fields |
| EdgeFile.EdgeText | Project/project.cpp:1976-1989 | What is written of an edge: five addresses in base 16, two counts in base 10 and two flags |
| EdgeFile.FindTargetEdges | Project/project.cpp:2104-2123 | Every recorded edge is printed once, those of a routine in descending order of their taken counts |
| EdgeFile.SortedDescends | Project/project.cpp:2086 | A sort by the comparison the program gives it puts edges in descending order of their taken counts, and loses none |
| EdgeFile.LoadEdges | Project/project.cpp:2255-2283 | From the text of a file: appends each edge on the lines behind the headline, in order, to the list of its routine; lines are read until the text has ended, so there is an empty one behind the last newline; fails exactly if a line cannot be read |
| EdgeFile.EdgesOnEmpty | Project/project.cpp:2272-2277 | An empty line anywhere changes nothing |
| EdgeFile.EdgesInFile | Project/project.cpp:2265-2283 | The text written for any edges, with its headline and the newline behind each line, is read back as exactly those edges |
| EdgeFile.FileRoundTrip | Project/project.cpp:2104-2123 | Loading the text that was written gives each routine exactly its own edges, each once, in descending order |
| CallProfile.RtnData.DoCountRtn | Project/project.cpp:2127-2132 | Counts one call, modulo 2^32, in total and for its caller |
| CallProfile.CallNumIsSum | Project/project.cpp:2127-2132 | Without overflow the call number is the sum of the callers' numbers |
| CallProfile.CalledHasCaller | Project/project.cpp:1934-1942 | A routine over the threshold has a caller, even after an overflow |
| CallProfile.HottestCaller | Project/project.cpp:1940-1951 | The caller chosen has the largest number of calls |
| CalleeFile.PrintTargetCallees | Project/project.cpp:1932-1973 | Exactly the routines over the threshold are printed, each once with a hottest caller |
| CalleeFile.InitInlineData | Project/project.cpp:2205-2253 | From the text of a file: reads the pairs on the lines behind the headline in order, skips lines with an empty field, fails exactly if one cannot be read |
| CalleeFile.PairsOnSkipped | Project/project.cpp:2236-2240 | A line whose first or second field is empty changes nothing, wherever it is |
| Csv.ReadCallee | Project/project.cpp:2227-2249 | The loop over the commas finds the first two fields that end in one |
| Csv.CalleeFields | Project/project.cpp:2227-2249 | A line with two commas is read as the two numbers before them, skipped if one of the fields is empty, and unreadable if one is no number |
| Csv.CalleeTooShort | Project/project.cpp:2227-2249 | A line with fewer commas is unreadable |
| Csv.CalleeText | Project/project.cpp:1932-1973 | What is written of a callee: two addresses in base 16, each with a comma behind it |
| CalleeFile.PairsRoundTrip | Project/project.cpp:2205-2253 | Reading the text written for any pairs back yields exactly those pairs |
| LoopProfile.LoopCount.DocountBranchIfTaken | HW2/ex2.cpp:136-155 | After any history the counters are what its run lengths make them: open run, last completed run, number of runs, and changes between neighbouring non-empty ones |
| LoopProfile.ChangesCount | HW2/ex2.cpp:140-146 | The changes counted are the neighbouring completed runs of different length, the first of them not empty |
| LoopProfile.RunsExtend | HW2/ex2.cpp:140-154 | One more branch lengthens the open run or completes it |
| LoopProfile.RunsAccountForAll | HW2/ex2.cpp:138 | Completed runs, their ends and the open run add up to the branches seen |

## Left out

- Instruction decoding and encoding of the library behind the tool (XED) is not part of this model; the encoder here keeps what the translator depends on, and no encoding error other than a stranded branch occurs.
- Return addresses are kept apart from data: programs that read or change their own return addresses or code are not modelled.
- Inlining.InliningPreservesRuns: the callee may call other routines, which the written requirements allow; indirect jumps in its body and branches out of it are excluded as they require, and branches to its RET because they fail. Its stack requirement is a relation the caller of the theorem supplies: `InliningStack.StraightSufficient` and `StackMachine.BalancedKept` supply it, the latter without calls out of the callee and without a frame pointer.
- Translator.Translator.FindCandidateRtnsForTranslation: the map is assumed large enough for all instructions, as the allocation makes it; writing past its end is not modelled.
- HeaderMerge.MergeHeaders: the sweep stops looking once every routine was found, where the code reads one row past the table; routines are assumed to come in address order.
- The counters `size_diff` and `tc_cursor` are unbounded here; the bound on the TC keeps them below 2^31.
- LoopProfile.LoopCount.DocountBranchIfTaken: the counters are unbounded, and the other increment of `countLoopInvoked`, by branches that jump forward over a loop, is not modelled.
- The hash maps of the profile are visited in any order; the library sort is a parameter that is known to sort.
- Patched.PatchedPreservesRuns: the patch is the jump of six bytes and the address behind it; how the framework writes it, and that it may refuse to, is not modelled.
- Pin's instrumentation callbacks, memory mapping, knobs, dumps, the hard-coded routine addresses and the single-increment counters of HW1 have no logic to prove.
