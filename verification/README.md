# JavaScriptCore's assemblers and keyword matcher, verified

A Dafny model of the parts of JavaScriptCore for iOS that write machine code, of the generator of its keyword matcher,
and of one graph walk of its Objective-C API, with proofs about them. `dafny verify dfyconfig.toml` checks the whole
project.

## What is modelled

**The ARM constant-pool buffer** (`ArmWord`, `ConstantPool`, `PoolRuns`, `ArmRuns`, `PoolTheorems`, `PoolExecution`,
`PoolReservations`, `PoolSharing`, `ArmCopy`, `BufferRuns`, `ArmAssembler`). Loads of constants are emitted with a
provisional index; pools are placed into the instruction stream behind a branch, and the loads are patched then.
`ConstantPool` has each operation as a function on values. `PoolRuns` annotates every word with the role it plays and
every load with the constant it stands for, and proves an invariant; `ArmRuns` composes runs of operations. The
theorems about every run are in `PoolTheorems`, `PoolExecution`, `PoolReservations` and `PoolSharing`, those about the
copy that is executed in `ArmCopy`. `ArmAssembler.Assembler32` is the mutable object: its methods compute those
functions on its fields, and it keeps a history of operations, so that the theorems about runs are theorems about the
object. A word is a record of the bit fields that matter here, its value written out where it is used as a number.

**ARM immediates and addresses** (`ArmImmediates`, `ArmExecution`, `ArmTransfers`). The emitted words are decoded and
run on a register file; the contracts say what the registers hold and which address the final transfer uses.

**ARM64** (`Arm64BitRanges`, `Arm64LogicalImmediate`, `Arm64Branches`). Logical immediates against the architecture's
own decoding, and conditional branches in two-word slots that are linked and relinked.

**Thumb-2** (`ThumbImmediate`, `ThumbCode`, `ThumbWords`, `ThumbJumps`, `ThumbForms`, `ThumbSlots`). Modified
immediates; jumps in all their forms, run by a small interpreter with if-then blocks; jump slots and constants that are
repatched.

**Watchpoints** (`Watchpoints`): the padding of both assemblers. **Bytes** (`AssemblerBytes`): the growing buffer under
all of them. **Keywords** (`KeywordTrie`, `KeywordShape`, `KeywordCompares`, `KeywordMatcher`): from word list to
decision tree. **Protocols** (`Protocols`): the worklist. `Shared` has the two definitions that several of these use.

## Where the code does not do what one would expect

- Relinking an ARM64 slot (`JavaScriptCore/assembler/ARM64Assembler.h:3010` and `:3023`) takes a short branch to eight
  words ahead for an inverted one, although the long form plants a displacement of two. `RelinkedSlotMeans` says exactly
  which histories keep the test, and `RelinkFromEightInverts` gives one that does not.
- An ARM64 branch on the condition that always holds has no long form, since inverting it gives one that always holds
  too: `RelinkedSlotMeans` and `LinkMeans` say exactly when such a slot still goes to its target.
- A reservation of room in an empty constant pool checks nothing: `ReservationHolds` says exactly when it is kept.
- ARM transfers with an offset out of reach use S0 before they read the base: `FarAddressIsRight` and
  `FarIndexedIsRight` say exactly when the address is still right, and `StoreIsRight32` and its peers when a store still
  writes its register.

## Model

| member | source | states |
|---|---|---|
| `PoolTheorems.EveryLoadFindsItsConstant` | JavaScriptCore/assembler/AssemblerBufferWithConstantPool.h:226-303 | after every run of puts, constant loads, jumps, flushes, reservations and links, each waiting load still carries the index of a pool entry that holds its own constant, marker bit set, and each placed load addresses a word inside a pool that holds its own constant, shared entries included |
| `PoolTheorems.EveryFlushFits` | JavaScriptCore/assembler/AssemblerBufferWithConstantPool.h:262-321 | in every reachable state the pool is under 2048 bytes and a flush patches only offsets that fit, although a flush inside a constant load leaves the distance stale |
| `PoolReservations.DistanceGoesNegative` | JavaScriptCore/assembler/AssemblerBufferWithConstantPool.h:281-303 | the stale distance is real: after n unique constant loads it is 2048 - 4n, as negative as one likes, with loads waiting |
| `PoolTheorems.LinkChangesOneLoad` | JavaScriptCore/assembler/ARMAssembler.h:858-931 | linking a jump after any run, before or after its pool is placed, gives that jump its target and leaves every other load the constant it had |
| `PoolSharing.NoConstantWaitsTwice` | JavaScriptCore/assembler/AssemblerBufferWithConstantPool.h:286-294 | after every run no two entries that may be shared hold the same constant |
| `PoolSharing.EveryLoadShares` | JavaScriptCore/assembler/AssemblerBufferWithConstantPool.h:278-303 | after every run, a load that does not flush leaves the pool as it is if it and a waiting entry with its constant are reusable, and else adds exactly its constant; its word carries the index of that entry |
| `PoolSharing.StepKeepsNoneTwice` | JavaScriptCore/assembler/AssemblerBufferWithConstantPool.h:118-321 | every operation keeps that no shareable constant waits twice, linking included |
| `PoolTheorems.CodeRefinesRequests` | JavaScriptCore/assembler/AssemblerBufferWithConstantPool.h:226-259 | after every run the code without barriers, padding and pools is the requested instructions in order; it starts with an instruction; each barrier branches exactly past its pool, to an instruction or the end; each constant stands in an unbroken pool that starts at an eight-byte boundary with no constant before it; padding is one breakpoint right before a pool |
| `PoolTheorems.PoolsAreAligned` | JavaScriptCore/assembler/AssemblerBufferWithConstantPool.h:230-246 | after every run, wherever constants begin in the code, they begin at an eight-byte boundary |
| `PoolExecution.ExecutionIsRequests` | JavaScriptCore/assembler/AssemblerBufferWithConstantPool.h:208-259 | for every run and whichever instructions are taken never to go on to the next word: following the words from any instruction, with every word that is no instruction decoded as the branch it is, executes the requested instructions in order up to one that leaves, and no word of a pool, if and only if every pool placed without a barrier came right behind an instruction that leaves |
| `PoolExecution.FlushAfterJumpIsSafe` | JavaScriptCore/assembler/AssemblerBufferWithConstantPool.h:208-214 | right after an unconditional jump a pool may be placed without a barrier |
| `PoolExecution.BarriersAloneExecute` | JavaScriptCore/assembler/AssemblerBufferWithConstantPool.h:48-62 | a run that uses barriers only is executed, from its first word to its end, as everything that was asked for |
| `PoolExecution.WordsAreAsked` | JavaScriptCore/assembler/AssemblerBufferWithConstantPool.h:173-206 | after every run each instruction in the code is the word asked for, and each constant load finds its own constant |
| `PoolExecution.RunIsGuarded` | JavaScriptCore/assembler/AssemblerBufferWithConstantPool.h:226-246 | a word of a pool directly follows only instructions that leave, if and only if pools without a barrier were placed behind such |
| `PoolExecution.ExecutesEverywhere` | JavaScriptCore/assembler/AssemblerBufferWithConstantPool.h:235-249 | from any word outside the pools, following the words of a guarded code visits no word of a pool and exactly the instructions from there up to one that leaves |
| `PoolReservations.ReservationHolds` | JavaScriptCore/assembler/AssemblerBufferWithConstantPool.h:130-133 | a reservation for n instructions keeps any n of them, with or without constants, from flushing if and only if constants are waiting or n is at most 508 |
| `PoolReservations.LoadsOverflowEmptyPool` | JavaScriptCore/assembler/AssemblerBufferWithConstantPool.h:305-321 | more than 508 unique loads into an empty pool do flush: the reservation the source makes there is not kept |
| `PoolReservations.EnsureSpaceReserves` | JavaScriptCore/assembler/AssemblerBufferWithConstantPool.h:130-133 | after the call the reservation is met |
| `PoolReservations.ReservationFlushesWhenShort` | JavaScriptCore/assembler/AssemblerBufferWithConstantPool.h:124-133 | a reservation flushes only where one load more than the room it asks for would have flushed |
| `PoolReservations.AnyIsReservation` | JavaScriptCore/assembler/AssemblerBufferWithConstantPool.h:130-133 | a reservation for n instructions of any kind is one for n words and 2 n constants |
| `PoolReservations.LoadsFitExactly` | JavaScriptCore/assembler/AssemblerBufferWithConstantPool.h:315-321 | behind a load, n more loads of constants of their own do without a flush if and only if this much distance and this many entries are left |
| `PoolReservations.PlainsFitExactly` | JavaScriptCore/assembler/AssemblerBufferWithConstantPool.h:305-313 | while constants wait, n instructions without any do without a flush if and only if this much distance is left |
| `PoolReservations.FlushAfterJumpWhenFull` | JavaScriptCore/assembler/AssemblerBufferWithConstantPool.h:208-214 | after every run, the flush offered after a jump places the pool, without a barrier, if and only if it is forced or more than 60% of the pool is taken, and else changes nothing |
| `PoolReservations.LabelIsWhereNextLands` | JavaScriptCore/assembler/ARMAssembler.h:775-779 | after any run, a label reserves one instruction, and whatever instruction comes next is added right at the end of the code the label points to |
| `PoolReservations.LabelIsWhereJumpLands` | JavaScriptCore/assembler/ARMAssembler.h:775-816 | a jump planted at a label is recorded at that offset and lands there |
| `PoolReservations.ReservedLoadLandsNext` | JavaScriptCore/assembler/ARMAssembler.h:810-816 | after any run, reserving a load and its constant makes that load the next word of the code, so the recorded jump offset is where it lands |
| `PoolReservations.QuietRequestLandsNext` | JavaScriptCore/assembler/AssemblerBufferWithConstantPool.h:173-206 | an instruction that does not flush adds exactly its own word to the code, stamped with the index of its constant if it is a load |
| `PoolReservations.RoomIsQuiet` | JavaScriptCore/assembler/AssemblerBufferWithConstantPool.h:262-321 | with room for n requests, no sequence of n requests flushes |
| `ArmCopy.EveryLinkedJumpGoesToItsTarget` | JavaScriptCore/assembler/ARMAssembler.cpp:394-421 | after every run, in the copy, every jump that was linked transfers to its last target under its own condition; it has become a direct branch if and only if it need not keep its constant and some branch can reach the target, and is a load of the pc otherwise |
| `ArmCopy.EveryUnlinkedJumpIsLeft` | JavaScriptCore/assembler/ARMAssembler.cpp:403-419 | after every run, in the copy, every jump that was not linked has the word it had and a slot that says so, and when it is linked then, in the copy, it goes to the address it is given under its own condition |
| `ArmCopy.UnlinkedIsLeft` | JavaScriptCore/assembler/ARMAssembler.cpp:409-409 | the whole loop leaves the word and the slot of an unlinked jump alone |
| `ArmCopy.LinkedInCopyGoesThere` | JavaScriptCore/assembler/ARMAssembler.h:868-936 | writing an absolute address into the slot of a jump that is still a load makes it go there |
| `ArmCopy.BranchBounds` | JavaScriptCore/assembler/ARMAssembler.cpp:410-416 | the bounds on the difference are exactly those within which some branch word reaches the target |
| `ArmCopy.OtherLoadsAreUntouched` | JavaScriptCore/assembler/ARMAssembler.cpp:394-421 | every load that is no jump still reads its own constant in the copy |
| `ArmCopy.ResolvedJumpGoesToItsTarget` | JavaScriptCore/assembler/ARMAssembler.cpp:403-419 | one turn of the loop makes one linked jump go to its target |
| `ArmCopy.ResolvedJumpsGoToTheirTargets` | JavaScriptCore/assembler/ARMAssembler.cpp:403-419 | the whole loop makes all linked jumps go to their targets: no turn disturbs another jump or its slot |
| `ArmCopy.ResolveFrame` | JavaScriptCore/assembler/ARMAssembler.cpp:403-419 | the loop changes no word but jumps and their slots |
| `ArmCopy.Finish` | JavaScriptCore/assembler/ARMAssembler.cpp:396-399 | before the loop every pool is placed and the code is padded to eight bytes, after what was there |
| `ArmRuns.Run` | JavaScriptCore/assembler/AssemblerBufferWithConstantPool.h:118-321 | every run keeps the invariant of the buffer, and its instructions are those asked for |
| `ArmRuns.StepIsBufferStep` | JavaScriptCore/assembler/AssemblerBufferWithConstantPool.h:118-321 | the annotated steps do to the buffer what the operations do |
| `PoolRuns.FlushKeepsInv` | JavaScriptCore/assembler/AssemblerBufferWithConstantPool.h:226-259 | a flush places every waiting load and keeps the invariant |
| `PoolRuns.AppendPlainKeepsInv` | JavaScriptCore/assembler/AssemblerBufferWithConstantPool.h:173-178 | a plain put keeps the invariant |
| `PoolRuns.AppendLoadKeepsInv` | JavaScriptCore/assembler/AssemblerBufferWithConstantPool.h:278-303 | a constant load keeps the invariant, sharing an entry or not |
| `PoolRuns.LinkWaitingKeepsInv` | JavaScriptCore/assembler/ARMAssembler.h:858-931 | linking a waiting jump keeps the invariant |
| `PoolRuns.LinkPlacedKeepsInv` | JavaScriptCore/assembler/ARMAssembler.h:840-866 | linking a placed jump keeps the invariant |
| `PoolRuns.InvCanFlush` | JavaScriptCore/assembler/ARMAssembler.cpp:37-50 | what patching a load asserts holds whenever a flush happens |
| `ConstantPool.FlushedCode` | JavaScriptCore/assembler/AssemblerBufferWithConstantPool.h:226-259 | what a flush does to each word: loads patched, the pool behind the code, the barrier in front, all else kept |
| `ConstantPool.BeforePool` | JavaScriptCore/assembler/AssemblerBufferWithConstantPool.h:230-246 | the barrier counts the padding and the pool, and the pool starts where it was computed to start |
| `ConstantPool.SharedEntry` | JavaScriptCore/assembler/AssemblerBufferWithConstantPool.h:286-294 | the first reusable entry with the constant, if there is one |
| `ArmWord.PatchedLoadReadsItsEntry` | JavaScriptCore/assembler/ARMAssembler.cpp:37-50 | a stamped load, patched, addresses the pool entry of its index, also in the case where the offset is negative, and stays the same load otherwise |
| `ArmWord.BranchReaches` | JavaScriptCore/assembler/ARMAssembler.h:1078-1083 | a branch over a number of words decodes to that address, forwards and backwards |
| `ArmWord.PaddingTraps` | JavaScriptCore/assembler/ARMAssembler.h:284-290 | the words used as padding are breakpoints, with the values the source gives them |
| `BufferRuns.ReachesIsRun` | JavaScriptCore/assembler/AssemblerBufferWithConstantPool.h:118-321 | the buffer an object reaches by its operations is the one of the annotated run |
| `BufferRuns.ReachedIsUsable` | JavaScriptCore/assembler/AssemblerBufferWithConstantPool.h:118-321 | what the operations rely on holds in every reached buffer |
| `BufferRuns.ReachedCanBeCopied` | JavaScriptCore/assembler/ARMAssembler.cpp:394-421 | every reached buffer is ready for the loop over its jumps, and the loop computes the copy of the run |
| `ArmAssembler.Assembler32.constructor` | JavaScriptCore/assembler/AssemblerBufferWithConstantPool.h:102-110 | an empty buffer and an empty history |
| `ArmAssembler.Assembler32.PlacePool` | JavaScriptCore/assembler/AssemblerBufferWithConstantPool.h:230-249 | appends barrier, padding and pool |
| `ArmAssembler.Assembler32.PatchWaitingLoads` | JavaScriptCore/assembler/AssemblerBufferWithConstantPool.h:251-255 | the loop patches every waiting load once, as the specification does all at once |
| `ArmAssembler.Assembler32.FlushConstantPool` | JavaScriptCore/assembler/AssemblerBufferWithConstantPool.h:226-259 | computes the specified flush |
| `ArmAssembler.Assembler32.FlushIfNoSpaceFor` | JavaScriptCore/assembler/AssemblerBufferWithConstantPool.h:305-312 | flushes just when the specification does |
| `ArmAssembler.Assembler32.FlushIfNoSpaceForConstant` | JavaScriptCore/assembler/AssemblerBufferWithConstantPool.h:314-321 | flushes just when the specification does |
| `ArmAssembler.Assembler32.CorrectDeltas` | JavaScriptCore/assembler/AssemblerBufferWithConstantPool.h:262-268 | moves the distances by one instruction |
| `ArmAssembler.Assembler32.CorrectDeltasForConstant` | JavaScriptCore/assembler/AssemblerBufferWithConstantPool.h:270-276 | moves the distances by one instruction and its constant |
| `ArmAssembler.Assembler32.FindShared` | JavaScriptCore/assembler/AssemblerBufferWithConstantPool.h:286-294 | the loop finds the first entry that can be shared |
| `ArmAssembler.Assembler32.AppendLoad` | JavaScriptCore/assembler/AssemblerBufferWithConstantPool.h:285-302 | appends a stamped load, with a new entry or a shared one |
| `ArmAssembler.Assembler32.AppendPlain` | JavaScriptCore/assembler/AssemblerBufferWithConstantPool.h:173-178 | flushes if it must, then appends |
| `ArmAssembler.Assembler32.AppendWithConstant` | JavaScriptCore/assembler/AssemblerBufferWithConstantPool.h:278-303 | resets the distance of an empty pool, flushes if it must, then appends a load |
| `ArmAssembler.Assembler32.FlushIfFull` | JavaScriptCore/assembler/AssemblerBufferWithConstantPool.h:209-214 | flushes without barrier when forced or more than 60% full |
| `ArmAssembler.Assembler32.WriteTarget` | JavaScriptCore/assembler/ARMAssembler.h:858-866 | writes a target where the load will find it, in the pool or in the code |
| `ArmAssembler.Assembler32.PutInt` | JavaScriptCore/assembler/AssemblerBufferWithConstantPool.h:173-178 | adds a plain put to the history, so the theorems about runs apply to the object |
| `ArmAssembler.Assembler32.PutIntWithConstantInt` | JavaScriptCore/assembler/AssemblerBufferWithConstantPool.h:203-206 | adds a constant load to the history |
| `ArmAssembler.Assembler32.FlushWithoutBarrier` | JavaScriptCore/assembler/AssemblerBufferWithConstantPool.h:209-214 | adds a flush after a jump to the history |
| `ArmAssembler.Assembler32.EnsureSpace` | JavaScriptCore/assembler/AssemblerBufferWithConstantPool.h:124-128 | adds a reservation to the history |
| `ArmAssembler.Assembler32.LabelIgnoringWatchpoints` | JavaScriptCore/assembler/ARMAssembler.h:775-779 | adds a reservation of one instruction, and returns the end of the code |
| `ArmAssembler.Assembler32.Jmp` | JavaScriptCore/assembler/ARMAssembler.h:810-821 | plants a jump and records it; the label is just after it |
| `ArmAssembler.Assembler32.LinkJump` | JavaScriptCore/assembler/ARMAssembler.h:926-931 | links the jump a label belongs to |
| `ArmAssembler.Assembler32.ResolveAll` | JavaScriptCore/assembler/ARMAssembler.cpp:403-419 | the loop over the jumps computes the specified copy |
| `ArmAssembler.Assembler32.FinishCode` | JavaScriptCore/assembler/ARMAssembler.cpp:396-399 | places the last pool and pads |
| `ArmAssembler.Assembler32.PrepareExecutableCopy` | JavaScriptCore/assembler/ARMAssembler.cpp:394-421 | the code is then the executable copy of the run of the history, about which the theorems above speak |
| `AssemblerBytes.AssemblerBuffer.Grow` | JavaScriptCore/assembler/AssemblerBuffer.h:144-150 | the capacity grows by half and the extra, and the contents stay |
| `AssemblerBytes.AssemblerBuffer.EnsureSpace` | JavaScriptCore/assembler/AssemblerBuffer.h:82-86 | for any size: the contents are kept; it grows, by half, only if the space is not there; the space is there afterwards if and only if it was there before or fits the grown buffer, as at most 64 bytes always do |
| `AssemblerBytes.AssemblerBuffer.PutUnchecked` | JavaScriptCore/assembler/AssemblerBuffer.h:100-106 | appends the bytes, and keeps those before |
| `AssemblerBytes.AssemblerBuffer.PutIntegral` | JavaScriptCore/assembler/AssemblerBuffer.h:93-98 | appends the bytes of a number, whatever the capacity, and grows only if they do not fit |
| `AssemblerBytes.AssemblerBuffer.Append` | JavaScriptCore/assembler/AssemblerBuffer.h:135-142 | appends any number of bytes, and grows, by half and that number, only if they do not fit |
| `AssemblerBytes.AssemblerBuffer.PutInt` | JavaScriptCore/assembler/AssemblerBuffer.h:113-113 | appends a word that can be read back where the label before it points |
| `AssemblerBytes.ReadsBack` | JavaScriptCore/assembler/AssemblerBuffer.h:100-106 | the little-endian bytes of a word give back the word |
| `ArmImmediates.GetOp2` | JavaScriptCore/assembler/ARMAssembler.cpp:54-89 | returns an operand that expands to the number exactly when some operand does (ARMExpandImm, section A5.2.4 of ARM DDI 0406C) |
| `ArmImmediates.GenInt` | JavaScriptCore/assembler/ARMAssembler.cpp:91-198 | two operands that expand and or together to the number, if and only if there are two |
| `ArmImmediates.PairLeavesGap` | JavaScriptCore/assembler/ARMAssembler.cpp:99-126 | a number with two operands has eight zero bits at an even position, so the search for them misses none |
| `ArmImmediates.NoPairTurned` | JavaScriptCore/assembler/ARMAssembler.cpp:128-186 | if the turned number has no two operands, neither has the number |
| `ArmImmediates.FindGapBelowTop` | JavaScriptCore/assembler/ARMAssembler.cpp:99-113 | the first search turns a gap of eight zero bits at an even place to the bottom, or leaves only gaps across the top |
| `ArmImmediates.FindGapAcrossTop` | JavaScriptCore/assembler/ARMAssembler.cpp:109-124 | the second search finds a gap across the top, or there is none at all |
| `ArmImmediates.FindGap` | JavaScriptCore/assembler/ARMAssembler.cpp:93-129 | both searches together find a gap whenever there is one, and turn the number accordingly |
| `ArmImmediates.SplitHigh` | JavaScriptCore/assembler/ARMAssembler.cpp:134-157 | the split with an empty low half of the rest: the pair, or no pair |
| `ArmImmediates.SplitMiddle` | JavaScriptCore/assembler/ARMAssembler.cpp:158-187 | the split around the middle: the pair, or no pair |
| `ArmImmediates.SplitLow` | JavaScriptCore/assembler/ARMAssembler.cpp:131-133 | the split into two bytes always succeeds |
| `ArmExecution.MoveImm` | JavaScriptCore/assembler/ARMAssembler.cpp:220-261 | for every number and on both architectures, running the emitted code leaves the number in the register and changes no other; movw and movt are used if and only if the architecture has them and one operand, plain or inverted, will not do; the pool is used if and only if it has not and two operands will not do either; the number of instructions is exact |
| `ArmExecution.MoveWithHalves` | JavaScriptCore/assembler/ARMAssembler.cpp:242-250 | the movw/movt path: one instruction for sixteen bits, and else two |
| `ArmExecution.MoveWithPairOrConstant` | JavaScriptCore/assembler/ARMAssembler.cpp:251-260 | the older path: mov and orr, or mvn and bic, and a constant from the pool if and only if neither the number nor its complement has two operands |
| `ArmExecution.JoinsPair` | JavaScriptCore/assembler/ARMAssembler.cpp:189-195 | running mov and orr leaves the or of the two operands |
| `ArmExecution.JoinsComplement` | JavaScriptCore/assembler/ARMAssembler.cpp:189-195 | running mvn and bic leaves the complement of it |
| `ArmTransfers.DataTransfer32` | JavaScriptCore/assembler/ARMAssembler.cpp:265-288 | the emitted code ends in one transfer of the register at base plus offset, modulo 2^32, for every offset, changes S0 only, and has only instructions of the given architecture; out of reach the address is the one `FarAddress` gives; what S0 holds at the transfer is stated, since a store of S0 writes it |
| `ArmTransfers.SumOffsetAndIndex` | JavaScriptCore/assembler/ARMAssembler.cpp:306-307 | offset and index are summed in S0, with instructions the architecture has |
| `ArmTransfers.DataTransfer16` | JavaScriptCore/assembler/ARMAssembler.cpp:311-334 | the same for halfwords and signed bytes |
| `ArmTransfers.DataTransferFloat` | JavaScriptCore/assembler/ARMAssembler.cpp:356-386 | the same for floating point, with offsets that are not multiples of four |
| `ArmTransfers.BaseIndexTransfer32` | JavaScriptCore/assembler/ARMAssembler.cpp:290-309 | the transfer is at base plus scaled index plus offset; out of reach as `FarIndexed` gives |
| `ArmTransfers.BaseIndexTransfer16` | JavaScriptCore/assembler/ARMAssembler.cpp:336-354 | the same for halfwords and signed bytes |
| `ArmTransfers.BaseIndexTransferFloat` | JavaScriptCore/assembler/ARMAssembler.cpp:388-392 | base plus scaled index plus offset at any distance, through both scratch registers |
| `ArmTransfers.FarAddressIsRight` | JavaScriptCore/assembler/ARMAssembler.cpp:274-277 | out of reach, the address is base plus offset for all register contents if and only if the base is not S0 |
| `ArmTransfers.FarIndexedIsRight` | JavaScriptCore/assembler/ARMAssembler.cpp:306-308 | out of reach, the indexed address is right for all register contents and every scale below 32 if and only if neither base nor index is S0 |
| `ArmTransfers.StoreIsRight32` | JavaScriptCore/assembler/ARMAssembler.cpp:265-288 | a store writes its register, for all register contents, if and only if that is not S0 or one instruction does it |
| `ArmTransfers.StoreIsRight16` | JavaScriptCore/assembler/ARMAssembler.cpp:311-334 | the same for halfwords |
| `ArmTransfers.StoreIndexedIsRight32` | JavaScriptCore/assembler/ARMAssembler.cpp:290-309 | the same for indexed stores, where one instruction does it only without an offset |
| `ArmTransfers.StoreIndexedIsRight16` | JavaScriptCore/assembler/ARMAssembler.cpp:336-354 | the same for indexed stores of halfwords, where there must be no scale either |
| `ArmTransfers.TransferFar32` | JavaScriptCore/assembler/ARMAssembler.cpp:274-276 | out of reach: the offset in S0 |
| `ArmTransfers.TransferFar16` | JavaScriptCore/assembler/ARMAssembler.cpp:319-322 | out of reach: the offset in S0 |
| `ArmTransfers.TransferNearIndexed32` | JavaScriptCore/assembler/ARMAssembler.cpp:300-304 | base and index summed in S0, and a transfer relative to it |
| `ArmTransfers.TransferNearIndexed16` | JavaScriptCore/assembler/ARMAssembler.cpp:345-349 | base and index summed in S0, and a transfer relative to it |
| `ArmTransfers.TransferFarIndexed32` | JavaScriptCore/assembler/ARMAssembler.cpp:306-308 | out of reach: offset and index summed in S0 |
| `ArmTransfers.TransferFarIndexed16` | JavaScriptCore/assembler/ARMAssembler.cpp:351-353 | out of reach: offset and index summed in S0 |
| `ArmTransfers.TransferUp32` | JavaScriptCore/assembler/ARMAssembler.cpp:267-273 | the upward cases within reach |
| `ArmTransfers.TransferDown32` | JavaScriptCore/assembler/ARMAssembler.cpp:278-283 | the downward cases within reach |
| `ArmTransfers.TransferUp16` | JavaScriptCore/assembler/ARMAssembler.cpp:313-318 | the upward cases within reach |
| `ArmTransfers.TransferDown16` | JavaScriptCore/assembler/ARMAssembler.cpp:324-329 | the downward cases within reach |
| `ArmTransfers.TransferUpFloat` | JavaScriptCore/assembler/ARMAssembler.cpp:360-367 | the upward cases within reach |
| `ArmTransfers.TransferDownFloat` | JavaScriptCore/assembler/ARMAssembler.cpp:368-378 | the downward cases within reach |
| `ArmTransfers.TransferFarFloat` | JavaScriptCore/assembler/ARMAssembler.cpp:382-385 | the whole address in S0 |
| `Arm64LogicalImmediate.Create64` | JavaScriptCore/assembler/ARM64Assembler.h:169-185 | a valid result decodes to the number, an invalid one means that no encoding stands for it (DecodeBitMasks, Arm DDI 0487) |
| `Arm64LogicalImmediate.Create32` | JavaScriptCore/assembler/ARM64Assembler.h:124-167 | the same for 32-bit numbers and encodings with N clear |
| `Arm64LogicalImmediate.CreateAtWidth` | JavaScriptCore/assembler/ARM64Assembler.h:136-164 | one width of the chain: encoded, or not encodable at that width or below |
| `Arm64LogicalImmediate.CreateFromHalves` | JavaScriptCore/assembler/ARM64Assembler.h:139-162 | with unequal halves there is no narrower encoding; with equal ones the lower half decides |
| `Arm64LogicalImmediate.EncodeLogicalImmediate` | JavaScriptCore/assembler/ARM64Assembler.h:294-337 | the fields it packs decode to the range it was given, repeated |
| `Arm64LogicalImmediate.DecodesToPattern` | JavaScriptCore/assembler/ARM64Assembler.h:294-337 | every encoding stands for a range or an inverted range, repeated |
| `Arm64BitRanges.FindBitRange` | JavaScriptCore/assembler/ARM64Assembler.h:257-290 | finds the range just when the number is one |
| `Arm64BitRanges.FindHighestRun` | JavaScriptCore/assembler/ARM64Assembler.h:263-272 | the inversion and the highest run, peeled off |
| `Arm64BitRanges.HighestSetBit` | JavaScriptCore/assembler/ARM64Assembler.h:219-243 | the binary search finds the highest set bit |
| `Arm64BitRanges.MaskIsLow` | JavaScriptCore/assembler/ARM64Assembler.h:209-217 | the mask is the run of low bits |
| `Arm64BitRanges.RotatedRound` | JavaScriptCore/assembler/ARM64Assembler.h:319-325 | a run of bits rotated part of the way is an inverted range |
| `Arm64BitRanges.RotatedFurther` | JavaScriptCore/assembler/ARM64Assembler.h:326-334 | rotated further it is a range again |
| `Arm64BitRanges.RotatedIsPattern` | JavaScriptCore/assembler/ARM64Assembler.h:244-256 | every rotated run is a range or an inverted range |
| `Arm64Branches.RelinkedSlotMeans` | JavaScriptCore/assembler/ARM64Assembler.h:2933-3044 | after linking and any history of relinks that pass the assertions, the slot goes to the last target when its test holds and past itself when not, if and only if the number of relinks that left a short branch to eight words ahead is even; for a test that always holds, if and only if the slot was never made long (and in any case if the target is the code after the slot) |
| `Arm64Branches.RelinkFromEightInverts` | JavaScriptCore/assembler/ARM64Assembler.h:3008-3011 | linked to eight words ahead and then elsewhere, a slot no longer branches on its test |
| `Arm64Branches.LinkMeans` | JavaScriptCore/assembler/ARM64Assembler.h:2954-2973 | for every test and every displacement at all, linking is right if and only if the short form reaches the target, or the long form does from its second word and the test is one that can fail |
| `Arm64Branches.ShortIsInReach` | JavaScriptCore/assembler/ARM64Assembler.h:2960-2971 | targets that the short form reaches also pass the assertion of the second word, so the theorems cover every target that passes the assertions |
| `Arm64Branches.LowestWraps` | JavaScriptCore/assembler/ARM64Assembler.h:3441-3445 | why the second word makes an assertion of its own: the lowest displacement that passes the one of the first word would wrap around to as far forward |
| `Arm64Branches.AlwaysHasNoLongForm` | JavaScriptCore/assembler/ARM64Assembler.h:2969-2972 | the long form of a branch that always holds never branches, since its inverse always holds too |
| `Arm64Branches.StateIsMeant` | JavaScriptCore/assembler/ARM64Assembler.h:2933-2973 | a short and a long slot do the same: test, target, or past the slot |
| `Arm64Branches.RelinkFollowsState` | JavaScriptCore/assembler/ARM64Assembler.h:2997-3044 | relinking the words follows the abstract state of the slot: short, long, and which test |
| `Arm64Branches.StateAfterIs` | JavaScriptCore/assembler/ARM64Assembler.h:2997-3044 | test, form and target after any history, in closed form |
| `Arm64Branches.WordsAfterHistory` | JavaScriptCore/assembler/ARM64Assembler.h:2997-3044 | the words after any history are those of that state |
| `Arm64Branches.DecodesBranch` | JavaScriptCore/assembler/ARM64Assembler.h:3102-3120 | encoding and decoding a conditional or compare branch gives back test and displacement |
| `Arm64Branches.DecodesJump` | JavaScriptCore/assembler/ARM64Assembler.h:3133-3139 | encoding and decoding an unconditional branch gives back the displacement |
| `Arm64Branches.Slot.constructor` | JavaScriptCore/assembler/ARM64Assembler.h:2933-2973 | links a slot |
| `Arm64Branches.Slot.RelinkJump` | JavaScriptCore/assembler/ARM64Assembler.h:2719-2723 | relinks a slot in memory: one more target in its history |
| `Arm64Branches.Slot.RelinkShort` | JavaScriptCore/assembler/ARM64Assembler.h:3000-3028 | the part for a slot with a no-op |
| `ThumbImmediate.MakeEncodedImm` | JavaScriptCore/assembler/ARMv7Assembler.h:334-385 | an encoding that expands to the number, and is not an unpredictable one, just when there is one (ThumbExpandImm, section A6.3.2 of ARM DDI 0406C) |
| `ThumbImmediate.CountLeadingZeros` | JavaScriptCore/assembler/ARMv7Assembler.h:288-308 | the binary search counts the leading zeros |
| `ThumbImmediate.MakeArranged` | JavaScriptCore/assembler/ARMv7Assembler.h:362-382 | the byte arrangements, just when the bytes are so arranged |
| `ThumbJumps.LinkedJumpReachesTarget` | JavaScriptCore/assembler/ARMv7Assembler.h:2046-2106 | for every jump type, location and target, whatever condition an unconditional jump was recorded with, the form that is picked, linked after moving back by the size difference, passes its range check, and running it from where the jump started reaches the target under the condition and otherwise goes past it |
| `ThumbForms.PickedFormIsShortest` | JavaScriptCore/assembler/ARMv7Assembler.h:2064-2106 | for every jump whose size is not fixed, the form that is picked is shorter than any other of its kind that has an encoding from where the jump would then end |
| `ThumbForms.RangeChecksAreExact` | JavaScriptCore/assembler/ARMv7Assembler.h:2544-2586 | each range check holds if and only if some encoding of the form goes from that place to the target, as the architecture decodes it |
| `ThumbForms.LinkHasSize` | JavaScriptCore/assembler/ARMv7Assembler.h:522-539 | the sizes in the enumeration are those of the linked code |
| `ThumbForms.FixedSizeIsKept` | JavaScriptCore/assembler/ARMv7Assembler.h:2069-2073 | a jump of fixed size keeps all of its room |
| `ThumbJumps.RunsT1` | JavaScriptCore/assembler/ARMv7Assembler.h:2588-2604 | form T1: running the linked halfwords reaches the target under the condition |
| `ThumbJumps.RunsT2` | JavaScriptCore/assembler/ARMv7Assembler.h:2606-2622 | form T2: running the linked halfwords reaches the target under the condition |
| `ThumbJumps.RunsT3` | JavaScriptCore/assembler/ARMv7Assembler.h:2624-2637 | form T3: running the linked halfwords reaches the target under the condition |
| `ThumbJumps.RunsT4` | JavaScriptCore/assembler/ARMv7Assembler.h:2639-2655 | form T4, also as the last of an if-then block: running the linked halfwords reaches the target under the condition |
| `ThumbJumps.RunsConditionalT4` | JavaScriptCore/assembler/ARMv7Assembler.h:2657-2665 | if-then and form T4: running the linked halfwords reaches the target under the condition |
| `ThumbJumps.RunsBX` | JavaScriptCore/assembler/ARMv7Assembler.h:2667-2681 | movw, movt and bx, also inside an if-then of three: running the linked halfwords reaches the target under the condition |
| `ThumbJumps.RunsConditionalBX` | JavaScriptCore/assembler/ARMv7Assembler.h:2683-2691 | if-then of three, movw, movt and bx: running the linked halfwords reaches the target under the condition |
| `ThumbWords.DecodesT1` | JavaScriptCore/assembler/ARMv7Assembler.h:2588-2604 | the halfword decodes to the branch with its condition and distance (section A8.8.18 of ARM DDI 0406C) |
| `ThumbWords.DecodesT2` | JavaScriptCore/assembler/ARMv7Assembler.h:2606-2622 | the same for T2 |
| `ThumbWords.DecodesT3` | JavaScriptCore/assembler/ARMv7Assembler.h:2624-2637 | the same for T3 |
| `ThumbWords.DecodesT4` | JavaScriptCore/assembler/ARMv7Assembler.h:2639-2655 | the same for T4, with the two bits below the sign encoded against it |
| `ThumbWords.DecodesMove` | JavaScriptCore/assembler/ARMv7Assembler.h:2724-2738 | a move of a half decodes to its register and number |
| `ThumbWords.DecodesMoveTop` | JavaScriptCore/assembler/ARMv7Assembler.h:2724-2738 | the same for the upper half |
| `ThumbWords.DecodesIfThen` | JavaScriptCore/assembler/ARMv7Assembler.h:801-835 | an if-then of one or of three puts the condition on each of them |
| `ThumbSlots.LinkJumpAbsolute` | JavaScriptCore/assembler/ARMv7Assembler.h:2693-2722 | the slot keeps one of its two recognised shapes, jumps to the new target, and nothing around it changes |
| `ThumbSlots.SlotJumps` | JavaScriptCore/assembler/ARMv7Assembler.h:2693-2722 | running a linked slot jumps to its target; after an if-then of three it does so under the condition, and else goes past |
| `ThumbSlots.LinkManyTimes` | JavaScriptCore/assembler/ARMv7Assembler.h:2693-2722 | after any number of links the slot has one of its shapes and the words of the last target |
| `ThumbSlots.SlotToIsSlot` | JavaScriptCore/assembler/ARMv7Assembler.h:2508-2542 | what is linked is recognised the next time |
| `ThumbSlots.SlotIsBranchIfItCanBe` | JavaScriptCore/assembler/ARMv7Assembler.h:2693-2722 | the slot is a branch if and only if some branch there goes to the target |
| `ThumbSlots.WriteJump` | JavaScriptCore/assembler/ARMv7Assembler.h:2130-2156 | writes the jump in the picked form and nothing else |
| `ThumbSlots.WriteJumpT4` | JavaScriptCore/assembler/ARMv7Assembler.h:2639-2655 | writes form T4 |
| `ThumbSlots.WriteBX` | JavaScriptCore/assembler/ARMv7Assembler.h:2667-2681 | writes movw, movt and bx |
| `ThumbSlots.WritePaddedJump` | JavaScriptCore/assembler/ARMv7Assembler.h:2702-2711 | writes no-ops and form T4 |
| `ThumbSlots.SetInt32` | JavaScriptCore/assembler/ARMv7Assembler.h:2459-2473 | the pair keeps its shape and registers, and holds the new constant |
| `ThumbSlots.ReadInt32` | JavaScriptCore/assembler/ARMv7Assembler.h:2475-2490 | assembled from the four fields of each move: the constant the architecture decodes, and setting it again gives back the very halfwords |
| `ThumbSlots.PairRebuilds` | JavaScriptCore/assembler/ARMv7Assembler.h:2459-2490 | a pair is what setting its own constant makes of it |
| `ThumbSlots.PairKeepsRegisters` | JavaScriptCore/assembler/ARMv7Assembler.h:2459-2473 | setting any constant keeps the registers and can be read back |
| `ThumbSlots.PairMoves` | JavaScriptCore/assembler/ARMv7Assembler.h:2459-2473 | running a pair for one register leaves its constant there and changes no other register |
| `ThumbSlots.ReplaceWithLoad` | JavaScriptCore/assembler/ARMv7Assembler.h:2297-2315 | leaves a load of the same address into the same register |
| `ThumbSlots.ReplaceWithAddressComputation` | JavaScriptCore/assembler/ARMv7Assembler.h:2317-2335 | leaves the computation of that address into the same register |
| `ThumbSlots.AccessDeterminesWords` | JavaScriptCore/assembler/ARMv7Assembler.h:2297-2335 | replacing twice gives back the very halfwords |
| `Watchpoints.RunKeepsApart` | JavaScriptCore/assembler/ARM64Assembler.h:2458-2476 | in every run of emits, labels and watchpoints, the bytes of watchpoints at different places are disjoint and no label points into them |
| `Watchpoints.WatchpointIsSharedOrLabelled` | JavaScriptCore/assembler/ARM64Assembler.h:2458-2466 | after every run, a watchpoint asked for right behind another is at the same place and pads nothing; any other is exactly where a label asked for then would be |
| `Watchpoints.SecondWatchpointShares` | JavaScriptCore/assembler/ARMv7Assembler.h:1997-2005 | two watchpoints in a row are one place and reserve the same bytes |
| `Watchpoints.LabelIsPastWatchpoint` | JavaScriptCore/assembler/ARMv7Assembler.h:2007-2018 | a label is at the end of the code or of the bytes of the last watchpoint, whichever is further |
| `Watchpoints.LabelKeepsInv` | JavaScriptCore/assembler/ARMv7Assembler.h:2007-2018 | a label keeps that |
| `Watchpoints.WatchKeepsInv` | JavaScriptCore/assembler/ARMv7Assembler.h:1997-2005 | a watchpoint keeps that |
| `Watchpoints.RunIsAligned` | JavaScriptCore/assembler/ARMv7Assembler.h:2007-2018 | everything stays a whole number of instructions from the start, so padding can end exactly |
| `Watchpoints.Labeller.PadWithNops` | JavaScriptCore/assembler/ARM64Assembler.h:2470-2475 | the loop ends at exactly the larger of the offset and the end of the last watchpoint |
| `Watchpoints.Labeller.PadWithWideNops` | JavaScriptCore/assembler/ARMv7Assembler.h:2010-2016 | the loop ends there too, with at most one narrow no-op |
| `Watchpoints.Labeller.NewLabel` | JavaScriptCore/assembler/ARMv7Assembler.h:2007-2018 | adds a label to the history at that place |
| `Watchpoints.Labeller.NewWatchpoint` | JavaScriptCore/assembler/ARMv7Assembler.h:1997-2005 | adds a watchpoint to the history: where the assembler is, right behind another watchpoint, and else where a label would be |
| `KeywordMatcher.MatcherFindsKeyword` | JavaScriptCore/KeywordLookupGenerator.py:97-182 | the decision tree gives the token of the keyword that the input starts with and that no identifier character follows, and nothing when there is none, for any word list whose edges fit the macros, any weights, either character type and any machine |
| `KeywordMatcher.MatcherReadsNoFurther` | JavaScriptCore/KeywordLookupGenerator.py:176-191 | nothing at or beyond the maximal token length is read |
| `KeywordMatcher.DecideIsLookup` | JavaScriptCore/KeywordLookupGenerator.py:140-174 | the tree of comparisons, taken without going back, looks up the leading run of identifier characters |
| `KeywordMatcher.TakesEdgeIsPrefix` | JavaScriptCore/KeywordLookupGenerator.py:151-168 | an edge is taken just when its letters come next, also with the overlapping comparison for three letters |
| `KeywordMatcher.MatchIsRun` | JavaScriptCore/KeywordLookupGenerator.py:143-149 | at most one keyword can match: the leading run of identifier characters |
| `KeywordMatcher.WordsAreShort` | JavaScriptCore/KeywordLookupGenerator.py:176-182 | no word is longer than the maximal length |
| `KeywordMatcher.MaxLengthIsLongest` | JavaScriptCore/KeywordLookupGenerator.py:176-190 | the maximal length is the length of the longest word of the list, and zero for an empty list |
| `KeywordCompares.CompareIsEquality` | JavaScriptCore/KeywordLookupGenerator.py:221-302 | every comparison macro, for any number of characters, character type and machine, compares them one by one, also where it compares a character twice |
| `KeywordCompares.Compare4IsEquality` | JavaScriptCore/KeywordLookupGenerator.py:265-279 | four characters read as one number or as two |
| `KeywordTrie.CompileHolds` | JavaScriptCore/KeywordLookupGenerator.py:97-138 | through inserting, merging and sorting, the trie holds exactly the listed words with their last tokens |
| `KeywordTrie.CompileWords` | JavaScriptCore/KeywordLookupGenerator.py:214-219 | the generator's loop builds that trie |
| `KeywordTrie.InsertSets` | JavaScriptCore/KeywordLookupGenerator.py:103-109 | inserting sets one word and no other |
| `KeywordTrie.BuildHolds` | JavaScriptCore/KeywordLookupGenerator.py:215-217 | the words of the built trie are the inserted ones, the last token of each |
| `KeywordTrie.CoalesceKeepsWords` | JavaScriptCore/KeywordLookupGenerator.py:111-126 | merging chains of single children keeps every word |
| `KeywordTrie.FillOutKeeps` | JavaScriptCore/KeywordLookupGenerator.py:128-138 | sorting keeps every word |
| `KeywordTrie.FillOutSorts` | JavaScriptCore/KeywordLookupGenerator.py:128-138 | the children of every node are sorted by weight |
| `KeywordTrie.CompileSpells` | JavaScriptCore/KeywordLookupGenerator.py:97-138 | the edges of the compiled trie consist of letters of the words |
| `KeywordShape.CompileShapes` | JavaScriptCore/KeywordLookupGenerator.py:111-126 | below the root every node without a token has no child or several: all chains are merged; every end is a word |
| `KeywordShape.WordWeighs` | JavaScriptCore/KeywordLookupGenerator.py:128-138 | a word of the trie weighs its weight, once, on every node it goes through |
| `KeywordShape.OtherWeighsNothing` | JavaScriptCore/KeywordLookupGenerator.py:128-138 | a word that does not go through a node does not weigh on it |
| `KeywordShape.NothingWeighs` | JavaScriptCore/KeywordLookupGenerator.py:128-138 | without weights nothing weighs |
| `KeywordShape.WeightAdds` | JavaScriptCore/KeywordLookupGenerator.py:128-138 | the weights of different words add up |
| `Protocols.ForEachProtocolImplementingProtocol` | JavaScriptCore/API/ObjcRuntimeExtras.h:44-75 | terminates on any finite graph, cyclic or with repeated entries, and calls back exactly once for each protocol reachable from the class that lists the target, and for no other |
| `Protocols.ProtocolImplementsProtocol` | JavaScriptCore/API/ObjcRuntimeExtras.h:30-42 | whether the list names an equal protocol |
| `Protocols.WalkIsComplete` | JavaScriptCore/API/ObjcRuntimeExtras.h:58-74 | when the worklist is empty, the visited protocols are the reachable ones |
| `Protocols.Visits` | JavaScriptCore/API/ObjcRuntimeExtras.h:67-73 | visiting a protocol keeps that everything left to visit is on the worklist |

## Left out

- PoolTheorems: the constant-pool buffer is modelled for its ARM instantiation, with checked four-byte puts; unchecked puts, byte and halfword puts and other sizes are not.
- ArmAssembler.Assembler32: the code is a sequence of words; it is not composed with the byte buffer of `AssemblerBytes`, and `loadBranchTarget` is modelled for jumps, that is, for the pc.
- AssemblerBytes.AssemblerBuffer: the 32-bit wrap-around of capacity and index is not modelled, and neither is running out of memory.
- ArmTransfers.DataTransferFloat: a base register that is the pc is excluded, here and in its peers, since the architecture reads the pc two words ahead of each instruction and the emitted words have no addresses.
- ArmTransfers.BaseIndexTransferFloat: a base or index register that is the pc is excluded, here and in its peers, for the same reason.
- ArmExecution.MoveWithPairOrConstant: a load from the constant pool carries its constant; that the pool holds it there is `PoolTheorems.EveryLoadFindsItsConstant`, stated on the other representation of words.
- Arm64Branches: test-bit branches are not modelled, because their decoder compares where its peers shift, and neither are the one-word forms linked by compaction, nor a compare register other than x0 to x30.
- Arm64LogicalImmediate: shifts by a variable are written as that many shifts by one, and the chain over the widths of `create32` as one method for all widths.
- ThumbJumps: the branch compaction that moves jumps is not modelled beyond the move of one jump by its size difference.
- ThumbSlots: `ReplaceWithLoad` and its inverse are modelled for the small offsets the assembler asserts.
- KeywordTrie: the trie is a value; that the generator updates its nodes in place is not modelled, and neither are its file handling, the printed text and the big-endian macros.
- KeywordMatcher: word lists whose merged edges are longer than eight characters have no comparison macro, and are excluded as they are in the generated code.
- Protocols: which protocols the runtime lists and which it takes for equal are parameters; the order of the callbacks is not stated; the worklist relies on every listed protocol having a list of its own.
- Watchpoints: the third assembler's `labelForWatchpoint`, which behaves differently, is not modelled.
- `getImm`, repatching of addresses and compact offsets, ARM64 move sequences and the one-line instruction emitters would only add easy members.
- Cache flushing, probes, processor feature detection and the C and Objective-C wrappers are effects of the platform or code of the virtual machine.
