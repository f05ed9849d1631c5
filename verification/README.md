# door86 in Dafny

door86 runs DOS programs on an emulated 8086. This project models the parts of it that keep state over many calls or
that print what another part reads, and proves what they guarantee. `dafny verify dfyconfig.toml` checks all of it.

- **DOS memory** (`Blocks`, `DosMemory`, `Allocator`, `Fragmentation`, `Placement`, `Cpu`, `DosCalls`). The memory
  manager is a class over a list of blocks; its two calls are proved against `Allocated` and `Released`, and runs of
  calls are folds of those. A client's view is rebuilt from its calls and replies alone and shown to be that of an
  allocator of disjoint areas. INT 21h functions 48h, 49h and 58h sit on top, with their 16-bit wrap-around, behind an
  interrupt that saves the processor's state on the stack in memory and takes it back.
- **Run control** (`Debugger`, `DebuggerRuns`). Interrupt 1 is a class method made of the sections that the CPU thread
  runs undisturbed, with client threads acting before each. The guarantees hold over every interleaving.
- **Hex dump** (`Hex`, `HexDump`, `HexDumpReader`). The printer in `dis` and the reader in the CPU test fixture, and the
  round trip through both. The printer's result has one string for each print.
- **ALU** (`Bits`, `Bytes`, `Alu`, `FlagsWord`, `Rotation`, `Shifts`, `ShiftCounts`, `RotateCounts`, `MultiWord`,
  `Rmm`). Values are natural numbers with bitwise operations defined bit by bit, so masks, shifts and rotates are
  written as in the source and then shown to be arithmetic. `Rmm` is the operand class over a register file or memory of
  bytes; its operators are proved against `Alu`.
- **EXE relocation** (`Relocation`). Placement of the image and the fix-up loop over memory.
- **GDB remote protocol** (`GdbRemote`, `GdbPackets`). Framing, acknowledgement, checksums, and the replies to `g` and
  `m`.

Where the code does not do what its name promises, the model keeps the code, and a lemma says exactly when the promise
holds:

- AH=48h with BX=FFFFh asks for 0 paragraphs, because BX + 1 wraps (`DosCalls.GrantLiesInArenaExactly`,
  `DosCalls.WrappedRequestIsGranted`). Requests for 0 also defeat the bound on the number of blocks
  (`Fragmentation.ZeroRequestsAreUnbounded`).
- The handlers of INT 21h report in CF, but the interrupt (lines 1274-1298 of cpu/x86/cpu.cpp) takes the flags from
  before it back from the stack, so that a program never sees it (`DosCalls.CarrySeenIsRightExactly`, with inputs in
  `DosCalls.RefusalLooksLikeGrant` and `DosCalls.ReleaseLooksRefused`).
- ADC and SBB (lines 102-215 of cpu/x86/cpu.cpp) apply `+=` or `-=` of `Rmm` twice, the second time for the carry that
  came in, and so overwrite the carry of the first (`MultiWord.AdcChainIsExactWhen`, `MultiWord.SbbChainIsExactWhen`).
- OF after additions and after subtractions and comparisons, and CF and OF of NEG (`Alu.OverflowFlagIsRightExactly`,
  `Alu.BorrowingOverflowFlagIsRightExactly`, `Alu.NegInvertsCarry`).
- Shifts and rotates by any count but 1; the count comes from the instruction or from CL. Rotates can go wrong in value
  and CF, and for no rotate in the other flags (`RotateCounts.RolIsRotateExactly`, `RorIsRotateExactly`,
  `RclIsRotateExactly` and `RcrIsRotateExactly`), `shl` and `shr` in CF and, for no shift, in the other flags
  (`ShiftCounts.ShlIsShiftsExactly` and `ShrIsShiftsExactly`), and `sar` in the same flags and, for negative numbers, in
  value (`ShiftCounts.SarIsArithmeticExactly`).
- A GDB payload with a `#` in it is sent unescaped and cannot be read back (`GdbRemote.FrameReadsBackExactly`).
- A line whose checksum does not match is kept, so that a frame that is sent again is added to it
  (`GdbRemote.CorruptionIsNotAcknowledged`, `GdbRemote.RetransmissionIsAppended`). A payload byte that turns into `#`
  can make its beginning pass for the payload (`GdbRemote.ByteChangedToHash`).
- A detach while the program is stopped can let interrupt 1 return in that state: `DebuggerRuns.DetachLeavesStopped` has
  a run that does, and `DebuggerRuns.DetachLeavesStoppedExactly` says when.
- The order of a relocation table matters when two of its words share a byte (`Relocation.OrderIsIrrelevantExactly`).

Clearing CF, OF and AF uses a logical not and so clears every flag (`Alu.LogicLeavesOnlyPsz`), and PF counts all bits of
a word; both are modelled as written.

## Model

| member | source | states |
|---|---|---|
| DosMemory.DosMemoryManager.constructor | dos/dos.cpp:110-119 | the arena starts as one free block that covers it |
| DosMemory.DosMemoryManager.Allocate | dos/dos.cpp:129-168 | a request is refused, and nothing changes, exactly when no free block has that many paragraphs; else the first such block, or the last for last fit, goes whole when at most 256 paragraphs are over, and is split in two else, with the grant at its bottom, or top; no other block changes, and tiling is kept |
| DosMemory.DosMemoryManager.Carve | dos/dos.cpp:133-145 | the chosen block goes whole when at most 256 paragraphs are over, else exactly the paragraphs asked for, with one free block for the others, in the strategy's order |
| DosMemory.DosMemoryManager.Release | dos/dos.cpp:170-180 | frees the first used block with that start, nothing else, and says whether there was one |
| Blocks.AllocationCuts | dos/dos.cpp:129-168 | the block list that the laws below speak of is that of the two rules above, in numbers, for every tiled list, request and strategy |
| Blocks.ReleaseFrees | dos/dos.cpp:170-180 | a release turns the first used block with that start free, changes no other, and fails exactly when there is none |
| Allocator.EveryRunIsLawful | dos/dos.cpp:110-180 | over every run of non-zero requests, frees and strategy changes: grants lie in the arena, apart from all live ones; a free succeeds exactly on a live start; starts increase strictly, the blocks tile the arena, and the used blocks are the live grants with at most 256 paragraphs to spare |
| Allocator.StepIsPermitted | dos/dos.cpp:129-180 | one call from any such state keeps the invariant and the correspondence between used blocks and grants |
| Fragmentation.BlockCountBound | dos/dos.cpp:129-180 | no run leaves more than max(1, N - 256) blocks in N paragraphs and one more for each request for 0 paragraphs, so without those never more |
| Fragmentation.BlockCountBoundIsTight | dos/dos.cpp:148-164 | in every arena some run reaches that bound |
| Fragmentation.StepKeepsPotential | dos/dos.cpp:129-180 | the sum of max(1, size - 256) over the blocks grows by at most one on a request for 0 paragraphs, and on no other call |
| Fragmentation.ZeroRequestsAreUnbounded | dos/dos.cpp:148-164 | k requests for 0 paragraphs leave k + 1 blocks in any arena above 256 paragraphs |
| Fragmentation.SmallArenaIsNeverSplit | dos/dos.cpp:134-138 | an arena of at most 256 paragraphs stays one block over every run |
| Fragmentation.ParagraphsAreConserved | dos/dos.cpp:110-180 | over every run, zero requests included, the blocks tile the arena and used plus free paragraphs are its size |
| Fragmentation.LaterRefinesEarlier | dos/dos.cpp:129-180 | block boundaries never disappear, and every later block lies inside an earlier one |
| Fragmentation.RefusedWhileEmptyIsRefusedForever | dos/dos.cpp:129-180 | without merging, a request refused while nothing is in use is refused for the rest of the run |
| Placement.RefusedExactlyWhenNothingFits | dos/dos.cpp:129-168 | a request is refused exactly when no free block is large enough, so the strategy does not matter to acceptance |
| Placement.FirstFitPlacement | dos/dos.cpp:148-164 | first fit returns the start of the fitting block with the lowest address |
| Placement.LastFitPlacement | dos/dos.cpp:131-147 | last fit cuts from the top of the fitting block with the highest address, or returns its start when the slack is at most 256 |
| Placement.ReuseIsStable | dos/dos.cpp:129-180 | asking, freeing and asking again returns the same area and the same blocks |
| DosCalls.Dos.constructor | dos/dos.h:39-39 | the default arena is 0800h to 9FC0h |
| Cpu.CPU.SaveState | cpu/memory.h:37-55 | flags, CS and IP are pushed, below the stack pointer in 16 bits (lines 1279-1281 and 1399-1407 of cpu/x86/cpu.cpp) |
| Cpu.CPU.RestoreState | cpu/memory.h:37-55 | the three words on top are popped into IP, CS and the flags (lines 1294-1296 and 1409-1417 of cpu/x86/cpu.cpp) |
| Cpu.SavedIsRestored | cpu/memory.h:37-55 | the three words come back as they were pushed, wherever the stack lies and even where its pointer wraps (lines 1279-1296 of cpu/x86/cpu.cpp) |
| DosCalls.Dos.Allocate | dos/dos.cpp:314-325 | the handler of AH=48h leaves AX, CF and blocks as specified, AX untouched on failure |
| DosCalls.Dos.Free | dos/dos.cpp:327-333 | the handler of AH=49h frees the segment below BX and reports it in CF |
| DosCalls.Dos.MemoryStrategy | dos/dos.cpp:335-345 | the handler of AH=58h reads or sets the strategy, with 2 for last fit |
| DosCalls.Dos.Int21 | dos/dos.cpp:206-232 | AH selects among the three handlers; no other AH is modelled |
| DosCalls.Dos.CallInterrupt | dos/dos.cpp:191-232 | unless the program has set the vector of INT 21h, the handler's AX, BX and blocks stay, and flags, CS, IP and SP are as before; else the program's handler is entered with the three words on the stack; no other memory changes (lines 1274-1298 of cpu/x86/cpu.cpp) |
| DosCalls.EveryDosRunIsLawful | dos/dos.cpp:314-345 | over every run with BX below FFFFh on allocation, as the handlers' AX and CF report it: areas [AX, AX+BX) and their control blocks are disjoint and in the arena, no block begins inside one, and a release succeeds exactly on a held area |
| DosCalls.CarrySeenIsRightExactly | dos/dos.cpp:314-333 | after any run the CF that a program sees is the one it started with; it is right about an allocation exactly when it was set and no free block fits BX + 1, or clear and one does, and about a release exactly when it was set and no used block starts at BX - 1, or clear and one does |
| DosCalls.RefusalLooksLikeGrant | dos/dos.cpp:314-325 | from booting with CF clear, BX = FFF0h is refused while the program sees CF clear and 48xxh in AX, inside the arena |
| DosCalls.ReleaseLooksRefused | dos/dos.cpp:327-333 | with CF set, a release that succeeds leaves the program with CF set |
| DosCalls.GrantLiesInArenaExactly | dos/dos.cpp:314-320 | in any tiled arena, after earlier wrapped requests too, a granted area lies in the arena exactly when BX is not FFFFh |
| DosCalls.WrappedRequestIsGranted | dos/dos.cpp:314-320 | right after booting BX = FFFFh is granted, for an area beyond the arena |
| DosCalls.FreeSucceedsExactly | dos/dos.cpp:327-330 | the handler of AH=49h clears CF exactly when BX - 1 starts a used block |
| DosCalls.StrategyReadsBack | dos/dos.cpp:335-345 | AL=0 reads back 2 exactly when AL=1 set 2, after any calls that do not set it, and neither touches the blocks |
| DosCalls.StrategyDecides | dos/dos.cpp:129-168 | a request granted after them is cut from the last fitting block, at its top, exactly when 2 was set |
| Debugger.BlockingQueue.Push | debugger/blocking_queue.h:13-19 | appends one item |
| Debugger.BlockingQueue.Pop | debugger/blocking_queue.h:21-29 | takes the oldest item |
| Debugger.DebuggerBackend.Clients | debugger/debugger.cpp:18-42 | what other threads queue, attach and detach between two sections, in order |
| Debugger.DebuggerBackend.Int1 | debugger/debugger.cpp:49-74 | the loop is the fold of the sections over the arrivals, and has returned exactly when it stands outside |
| DebuggerRuns.Int1IsARun | debugger/debugger.cpp:49-74 | a call of interrupt 1, with its arrivals before its sections, continues any run to a longer one, whose history records a return exactly when the call returned |
| DebuggerRuns.ExitsAreReturns | debugger/debugger.cpp:49-74 | over every interleaving, the returns recorded are as many as the times the CPU thread left interrupt 1 |
| DebuggerRuns.TakenInOrderOnce | debugger/blocking_queue.h:13-29 | over every interleaving, the commands queued are those taken, in order, followed by those still queued |
| DebuggerRuns.PopNeverWaits | debugger/debugger.cpp:51-65 | the CPU thread pops only when a command is there |
| DebuggerRuns.OneReturnPerStep | debugger/debugger.cpp:50-72 | returns that leave the state stepping are as many as the step commands acted upon and the returns that found nobody attached while stepping; without a detach, as many as the step commands |
| DebuggerRuns.FreeRunOnlyAfterCont | debugger/debugger.cpp:54-58 | a return without a command happens only while the last cont or step taken was a cont |
| DebuggerRuns.StoppedOnlyInsideInt1 | debugger/debugger.cpp:59-61 | while nobody detaches, stopped is seen only while the CPU thread is inside interrupt 1 |
| DebuggerRuns.StoppedOutsideExactly | debugger/debugger.cpp:49-74 | over every interleaving, detaches included, it is seen outside exactly when the last return found nobody attached and the state stopped |
| DebuggerRuns.DetachLeavesStoppedExactly | debugger/debugger.cpp:50-72 | at any point of any run where nobody is attached, and over every interleaving without an attach from there: the CPU thread is out by the fourth of its sections, and stopped from then on exactly as section, state and next command before the first of them say |
| DebuggerRuns.LockStepWithoutCont | debugger/debugger.cpp:49-74 | without cont and detach, interrupt 1 returns exactly once per step command taken |
| DebuggerRuns.QueuedCommandResumes | debugger/debugger.cpp:49-74 | behind k other commands, a cont or step is acted upon by section 4k + 4 of the CPU thread, whatever else is queued meanwhile |
| DebuggerRuns.CpuThreadLeavesInt1 | debugger/debugger.cpp:49-74 | with a cont or step queued or being acted upon, from anywhere inside and whatever other threads queue, it leaves with exactly the section that is due, the 4k + 5th at the latest, in the state that the first cont or step tells and with the queue behind it |
| DebuggerRuns.RunningProgramLeaves | debugger/debugger.cpp:49-74 | a running program leaves without any cont or step, within 4 sections and 4 more for each command queued before or meanwhile |
| DebuggerRuns.WaitsForResume | debugger/debugger.cpp:49-74 | a program that is not running stays inside until a cont or step is queued or somebody detaches |
| HexDump.DisasmHex | dis/dis.cpp:61-98 | chunks of 1024 bytes and rows of 16 print one row for every 16 bytes of the rest of the file: its offset in eight lower-case hex digits, then those bytes in two upper-case digits each, then each as itself or a dot, in fixed columns |
| HexDump.PrintChunk | dis/dis.cpp:74-94 | one chunk prints those rows from its offset on, the last one padded, and the row number counts full rows only |
| HexDump.RowsShow | dis/dis.cpp:80-93 | row k begins with start plus 16k, which its eight digits read back as, and shows bytes 16k to 16k + 15 column by column |
| HexDump.RowNumberReadsBack | dis/dis.cpp:84-84 | eight lower-case digits, which read back in base 16 as the offset |
| HexDumpReader.ParseOpcodesFromLine | cpu/x86/cpu_fixture.cpp:21-36 | appends the pairs of characters that each start at a hex digit |
| HexDumpReader.ParseOpcodesFromTextdump | cpu/x86/cpu_fixture.cpp:44-63 | appends the pairs in columns 10 to 57 of every line that starts with a digit and has 60 characters |
| HexDumpReader.LineReadsBack | cpu/x86/cpu_fixture.cpp:49-60 | a dump line reads back as its bytes, for any row number below 2^31 and any text column |
| HexDumpReader.OnlyDumpLinesCount | cpu/x86/cpu_fixture.cpp:48-60 | lines of fewer than 60 characters, or without a decimal digit in front, give nothing, and of the others only columns 10 to 57 matter |
| HexDumpReader.LoneDigitIsDropped | cpu/x86/cpu_fixture.cpp:26-59 | a digit left alone at the end of the column is dropped |
| HexDumpReader.DumpReadsBack | dis/dis.cpp:70-97 | reading the whole dump gives back exactly the bytes, for every content and start row an int can count |
| Hex.ByteReadsBack | cpu/x86/cpu_fixture.cpp:9-19 | the two digits of a byte are hex digits and read back as it |
| Hex.DigitsAre | cpu/x86/cpu_fixture.cpp:9-19 | the digits, upper and lower case, are 0 to 9 and A to F in order, and have the values 0 to 15 |
| Hex.HexDigitsAre | cpu/x86/cpu_fixture.cpp:9-31 | those 22 characters are the hex digits, and any other counts as 0 |
| Bits.KernPopcount | cpu/memory_bits.h:43-49 | the loop ends after as many rounds as bits are set, and returns that number |
| Bits.ClearsOneBit | cpu/memory_bits.h:46-46 | n & (n - 1) is smaller and has one bit less |
| Bits.ParityOfXor | cpu/x86/rmm.h:157-164 | exclusive-or has even parity exactly when its operands have equal parity |
| Alu.FromBigMeans | cpu/x86/rmm.h:95-102 | CF tells whether the double-width value reaches 2^w, OF whether it reaches half of that; PF, ZF and SF are those of the low half |
| Alu.AddIsExact | cpu/x86/rmm.h:104-109 | CF * 2^w plus the result is the true sum; PF, ZF and SF are those of the result |
| Alu.SubIsExact | cpu/x86/rmm.h:115-120 | the result minus CF * 2^w is the true difference; PF, ZF and SF are those of the result, and ZF tells equal operands |
| Alu.ComparisonTells | cpu/x86/rmm.h:126-138 | of the flags of a comparison, CF tells below, ZF equal, and PF, ZF and SF are those of the wrapped difference |
| Alu.SubUndoesAdd | cpu/x86/rmm.h:104-120 | subtracting what was added restores the value with the same CF |
| Alu.LogicLeavesOnlyPsz | cpu/x86/rmm.h:145-178 | after any of the three, only PF, ZF and SF can be set, and they are those of the result |
| Alu.XorLeavesOnlyPsz | cpu/x86/rmm.h:157-164 | after ^= PF tells equal parity of the operands and ZF their equality |
| Alu.OverflowFlagIsRightExactly | cpu/x86/rmm.h:95-97 | OF after an addition is signed overflow exactly when both operands are non-negative, or both negative and overflowing |
| Alu.BorrowingOverflowFlagIsRightExactly | cpu/x86/rmm.h:115-138 | OF after a subtraction or comparison is signed overflow exactly when nothing is borrowed and the signs agree, or a negative number is taken from a non-negative one with a difference of half the range or more |
| Alu.NegInvertsCarry | cpu/x86/rmm.h:183-194 | neg is subtraction from zero but for CF, which is always inverted, and OF, which agrees exactly for 0 < v <= 2^(w-1) and is signed overflow exactly from 2^(w-1) up; the value is that of 2^w - v, CF tells zero, and PF, ZF and SF are those of the result |
| FlagsWord.FlagsStandAt | cpu/x86/regs.h:175-183 | CF, PF, ZF, SF and OF are bits 0, 2, 6, 7 and 11 of the flags word |
| FlagsWord.OnlyPszStandAt | cpu/x86/regs.h:175-183 | the three flags that may be set after the bitwise operators are bits 2, 6 and 7 |
| FlagsWord.ArithmeticKeepsOthers | cpu/x86/rmm.h:83-138 | additions, subtractions, comparisons and negations keep every bit of the flags word but those five: AF, TF, IF and DF among them |
| FlagsWord.ShiftsKeepOthers | cpu/x86/rmm.h:196-273 | the seven shifts and rotates by any count put the top bit, or the lowest, into CF, leave PF, ZF and SF of their result, and keep every other bit, OF included |
| Rotation.RotlIsSteps | cpu/rotate.h:22-33 | rotl by any natural count is that many one-bit rotations |
| Rotation.RotrIsSteps | cpu/rotate.h:35-45 | rotr by any natural count is that many one-bit rotations to the right |
| Rotation.RotationsCompose | cpu/rotate.h:22-45 | counts of either sign add up, rotr is rotl by the negated count, and rotr undoes rotl |
| Rotation.StepsRotate | cpu/x86/rmm.h:205-213 | k one-bit rotations bring the top k bits below the others |
| Shifts.FastRotatesRefineSimple | cpu/x86/rmm.h:205-213 | rotl and rotr give what k times rol(1) and ror(1) give, and PF stays that of the first value, in both directions |
| Shifts.RclIsRotation | cpu/x86/rmm.h:216-224 | rcl(1) rotates CF and value as one register of w + 1 bits |
| Shifts.RcrUndoesRcl | cpu/x86/rmm.h:216-244 | rcr(1) undoes rcl(1) and the other way round, on value and CF |
| Shifts.RotatesThroughCarryArePeriodic | cpu/x86/rmm.h:216-244 | k times rcl(1), or rcr(1), depends only on k modulo 9, or 17 |
| ShiftCounts.ShlMeans | cpu/x86/rmm.h:196-203 | shl multiplies by 2^num modulo 2^w; CF is the top bit, whatever the count |
| ShiftCounts.ShrMeans | cpu/x86/rmm.h:226-233 | shr divides by 2^num; CF is the lowest bit, whatever the count |
| ShiftCounts.ShlIsShiftsExactly | cpu/x86/rmm.h:196-203 | shl by any count gives the value of that many shl(1), and every flag too exactly when the top bit equals the one that leaves last, or, for 0, when the flags show the value already |
| ShiftCounts.ShrIsShiftsExactly | cpu/x86/rmm.h:226-233 | shr likewise, with the lowest bit |
| ShiftCounts.SarIsArithmeticExactly | cpu/x86/rmm.h:257-273 | sar gives the value of the arithmetic shift exactly for non-negative values or no shift, and every flag too exactly when, besides, the lowest bit equals the one that goes last, or, for 0, when the flags show the value already |
| RotateCounts.RolIsRotateExactly | cpu/x86/rmm.h:205-213 | rol by any count gives the value of a rotate exactly when it is by 1, or the bits to bring round are clear, with the exact conditions for 0 and for the width and more; then CF and every other flag are those of that many rol(1), but for 0 exactly when they showed top bit and value before |
| RotateCounts.RorIsRotateExactly | cpu/x86/rmm.h:247-255 | ror likewise, with the lowest bit |
| RotateCounts.RclIsRotateExactly | cpu/x86/rmm.h:216-224 | rcl by any count turns value and CF as that many rcl(1) do exactly when it is by 1, or CF and the bits to bring round are clear, with the exact conditions for 0 and for more than the register; then every other flag is right too, but for 0 exactly when they showed the value before |
| RotateCounts.RcrIsRotateExactly | cpu/x86/rmm.h:236-244 | rcr likewise |
| MultiWord.MultiWordShift | cpu/x86/rmm.h:196-244 | shl(1) then rcl(1) upward doubles a number of any length with CF on top; rcr(1) downward restores every word and clears CF |
| MultiWord.AdcMeans | cpu/x86/rmm.h:104-113 | `+= b` and then, if CF was set before, `+= 1`, which is ADC: the value is the sum, but CF is lost exactly when a carry comes in and the operands carry by themselves (lines 102-154 of cpu/x86/cpu.cpp); PF, ZF and SF are those of the result |
| MultiWord.SbbMeans | cpu/x86/rmm.h:115-124 | `-= b` and then, if CF was set before, `-= 1`, which is SBB: the value is the difference, but CF is lost exactly when a borrow comes in and the operands borrow by themselves (lines 165-214 of cpu/x86/cpu.cpp); PF, ZF and SF are those of the result |
| MultiWord.AdcChainAddsUp | cpu/x86/rmm.h:104-113 | over two numbers of any length, ADC's result, carry and lost carries add up to the true sum (lines 102-154 of cpu/x86/cpu.cpp) |
| MultiWord.AdcChainIsExactWhen | cpu/x86/rmm.h:104-113 | a chain of ADC adds numbers correctly exactly when no carry meets operands that carry by themselves (lines 102-154 of cpu/x86/cpu.cpp) |
| MultiWord.SbbChainAddsUp | cpu/x86/rmm.h:115-124 | over two numbers of any length, SBB's result less its borrow and the lost ones is the true difference (lines 165-214 of cpu/x86/cpu.cpp) |
| MultiWord.SbbChainIsExactWhen | cpu/x86/rmm.h:115-124 | a chain of SBB subtracts numbers correctly exactly when no borrow meets operands that borrow by themselves (lines 165-214 of cpu/x86/cpu.cpp) |
| MultiWord.AdcLosesCarry | cpu/x86/rmm.h:104-113 | FFh + FFh with the carry set leaves FFh and no carry (lines 102-154 of cpu/x86/cpu.cpp) |
| Bytes.StoreMeans | cpu/memory.cpp:58-68 | a stored value is loaded back, and no other byte changes |
| Rmm.Rmm.Register | cpu/x86/regs.h:30-118 | the operand lies at the offset of its number among the eight words or eight halves |
| Rmm.WordIsTwoHalves | cpu/x86/regs.h:70-124 | each of the first four words is made of its two halves |
| Rmm.RegistersAreApart | cpu/x86/regs.h:55-124 | a write to a register is read back from it, and changes no other register of that width and no other word |
| Rmm.Rmm.InMemory | cpu/memory.h:17-17 | a memory operand lies at 16 times the segment plus the offset |
| Rmm.Rmm.Set | cpu/x86/rmm.h:59-71 | writes the operand's bytes, the low one first, and no others |
| Rmm.Rmm.SetFlagsPsz | cpu/x86/rmm.h:83-93 | PF by the Kernighan loop, ZF and SF of a value, other flags kept |
| Rmm.Rmm.AddAssign | cpu/x86/rmm.h:104-109 | in place, result and CF are the true sum, for registers and memory of 8 and 16 bits; PF, ZF and SF are those of the result |
| Rmm.Rmm.SubAssign | cpu/x86/rmm.h:115-120 | in place, result and CF are the true difference; PF, ZF and SF are those of the result, and ZF tells equal operands |
| Rmm.Rmm.Cmp | cpu/x86/rmm.h:126-138 | CF is set exactly for below, ZF exactly for equal, PF and SF are those of the wrapped difference, and no value is written |
| Rmm.Rmm.XorAssign | cpu/x86/rmm.h:157-164 | each bit of the result is set when one of the operands' is, but not both; PF, ZF and SF are those of the result and no other flag is set |
| Rmm.Rmm.OrAssign | cpu/x86/rmm.h:145-152 | each bit of the result is set when either operand's is; PF, ZF and SF are those of the result and no other flag is set |
| Rmm.Rmm.AndAssign | cpu/x86/rmm.h:171-178 | each bit of the result is set when both operands' are; PF, ZF and SF are those of the result and no other flag is set |
| Rmm.Rmm.Negate | cpu/x86/rmm.h:183-194 | in place, 2^w less the operand, or 0; CF tells 0, OF at most half the range, and PF, ZF and SF are those of the result |
| Rmm.Rmm.ShiftLeft | cpu/x86/rmm.h:196-203 | the operand is multiplied by 2^num modulo 2^w and CF is its old top bit, for every count below 32 |
| Rmm.Rmm.RotateLeft | cpu/x86/rmm.h:205-213 | in place rol, for every count below 32 |
| Rmm.Rmm.RotateLeftThroughCarry | cpu/x86/rmm.h:216-224 | in place rcl, for every count below 32 |
| Rmm.Rmm.ShiftRight | cpu/x86/rmm.h:226-233 | the operand is divided by 2^num and CF is its old lowest bit, for every count below 32 |
| Rmm.Rmm.RotateRightThroughCarry | cpu/x86/rmm.h:236-244 | in place rcr, for every count below 32 |
| Rmm.Rmm.RotateRight | cpu/x86/rmm.h:247-255 | in place ror, for every count below 32 |
| Rmm.Rmm.ShiftArithmeticRight | cpu/x86/rmm.h:257-273 | in place sar, for every count below 32 |
| Rmm.Swap | cpu/x86/rmm.h:286-290 | the right operand gets the left value, and the left the right one when they share no byte; bytes of neither stay |
| Relocation.Exe.LoadImage | dos/exe.cpp:100-117 | segments, loaded flag and memory after the image is placed and the table worked through; nothing but the segments changes without a file; in a table whose words lie in the image and share no byte, the word at 16 * segment + offset of each entry is the file's word there plus the image segment |
| Relocation.PlaceImage | dos/exe.cpp:119-139 | the bytes behind the header are placed, and no others change |
| Relocation.EntryMovesItsWord | dos/exe.cpp:109-115 | the same for the memory after loading, byte for byte, from the two fields of an entry |
| Relocation.LoadedWord | dos/exe.cpp:109-115 | a named word is its file word plus the segment, in 16 bits, as often as it is named |
| Relocation.LoadedByte | dos/exe.cpp:109-115 | a byte that no entry covers is as in the file, or as before outside the image |
| Relocation.Rebasing | dos/exe.cpp:100-117 | images loaded at two segments differ at each named word by the difference of the segments, as often as it is named |
| Relocation.RebasingByDifference | dos/exe.cpp:100-117 | with entries that share no byte, a named word is its file word plus the segment, and two images differ there by the difference of the segments |
| Relocation.OrderIsIrrelevant | dos/exe.cpp:109-116 | any order of a table gives the same memory, when its targets are equal or disjoint or the segment's low byte is 0 |
| Relocation.OrderIsIrrelevantExactly | dos/exe.cpp:109-116 | in memory of any size that holds the targets, and at any base, those are exactly the tables and segments for which every order gives the same memory |
| GdbRemote.Response | debugger/gdb_debugger.cpp:62-78 | sends the frame once for every verdict needed, at most ten times, and not after the peer has closed |
| GdbRemote.ChecksumCounts | debugger/gdb_debugger.cpp:63-67 | the checksum is 0 for nothing, and each further character adds itself, modulo 256 |
| GdbRemote.FrameIs | debugger/gdb_debugger.cpp:69-69 | a frame is '$', the payload, '#' and the checksum in two upper-case digits |
| GdbRemote.WaitAckOrNak | debugger/gdb_debugger.cpp:38-55 | the first ack or nak decides, and everything before it is dropped |
| GdbRemote.AcknowledgedExactly | debugger/gdb_debugger.cpp:68-77 | a response succeeds exactly when an ack is among the first ten verdicts, after one frame for each up to it |
| GdbRemote.ValidateChecksum | debugger/gdb_debugger.cpp:94-106 | the field, read as stoul reads two characters, is the byte sum modulo 256 |
| GdbRemote.StoulReads | debugger/gdb_debugger.cpp:94-106 | which two characters are a number, and which: two digits, one digit, or a blank or sign and a digit |
| GdbRemote.Request | debugger/gdb_debugger.cpp:108-140 | the read loop over any stream, with a line that outlives a bad checksum |
| GdbRemote.FrameReadsBackExactly | debugger/gdb_debugger.cpp:62-140 | noise, a frame and more are read back as the payload with the rest left over, exactly when the payload has no '#' |
| GdbRemote.ReceivedAtFirstMatch | debugger/gdb_debugger.cpp:113-139 | on any stream, what is received is all characters but fields up to the first '#' whose field matches them, with the rest left over; with no such '#', nothing |
| GdbRemote.CorruptionIsNotAcknowledged | debugger/gdb_debugger.cpp:94-140 | a frame with one payload byte changed, to anything but '#', is not acknowledged by its own checksum; with anything behind it, reading goes on with the wrong line, and fails exactly when no later field matches |
| GdbRemote.RequestedAtFirstMatch | debugger/gdb_debugger.cpp:108-140 | a frame damaged in any way is read as what stands before the first '#' whose field matches it, and fails exactly when there is none |
| GdbRemote.ByteChangedToHash | debugger/gdb_debugger.cpp:113-139 | a byte changed to '#' makes the beginning of the payload pass for it when the next two characters read as its sum; else these are dropped and reading goes on |
| GdbRemote.HashIsTakenForTheEnd | debugger/gdb_debugger.cpp:94-140 | "Ax41" with its x changed to '#' is acknowledged as "A" |
| GdbRemote.RetransmissionIsAppended | debugger/gdb_debugger.cpp:113-139 | the frame sent again is added to the line that stands, '$' included, and acknowledged exactly when that line and the '$' add up to 0 modulo 256, and then not as its payload |
| GdbPackets.HandleRegisters | debugger/gdb_debugger.cpp:306-330 | the reply to 'g' is 128 digits: ax, cx, dx, bx, sp, bp, si, di, 16 * cs + ip, the flags, and 16 times cs, ss, ds, es, fs and gs, each in 32 bits, lowest byte first |
| GdbPackets.RegistersReadBack | debugger/gdb_debugger.cpp:285-329 | group i reads back, little-endian, as register i, cs:ip, the flags or a segment base |
| GdbPackets.HandleMem | debugger/gdb_debugger.cpp:354-363 | the reply to 'm' is two upper-case digits for each of those bytes, in order |
| GdbPackets.HexBytesReadBack | debugger/gdb_debugger.cpp:357-361 | which reads back as exactly those bytes |

## Left out

- Instruction decoding and execution, but for the ADC and SBB arms: what an instruction does beyond its operand operators is a flat case split.
- DosCalls.Dos.CallInterrupt: functions of INT 21h other than 48h, 49h and 58h, and a stack outside memory, which the source does not check for, are not modelled.
- Owner and program name of a block: only ever zero or empty, and read by nothing but an unused member.
- DosMemory.DosMemoryManager.constructor: an arena that ends before it starts is not modelled; every use gives the lower segment first.
- Best fit, `write_mcb`, `find`, `realloc`, process start-up, PSP and environment: unused, empty or straight-line.
- Rmm.Rmm.ShiftLeft: counts of 32 and more, where the source's shift is undefined, are not modelled, for all seven shifts and rotates.
- Rmm.Rmm.InMemory: an operand that reaches past the end of memory is not modelled; the source does not check for it.
- Relocation.Exe.LoadImage: a header longer than the file, or an image or target past the end of memory, is not modelled; the source does not check for them.
- GdbRemote.Request: `recv` delivers both checksum characters together whenever the stream holds them, and the field is those two characters only; the source hands an unterminated array to a string.
- GdbRemote.Response: the one-second pause between attempts is not modelled, and a closed socket drops what is sent to it.
- GdbPackets.HandleMem: the address and length are numbers already; the helpers that parse them are not part of this model, and the range lies in memory.
- HexDumpReader.ParseOpcodesFromTextdump: splitting at CR or LF without empty pieces, and trimming of white space, stand for string helpers that are not part of this model.
- HexDump.DisasmHex: the file's bytes are a parameter, and row numbers stay below 2^31, where the source counts in an int.
- Debugger.DebuggerBackend.Int1: sleeping is not modelled, reading whether the queue is empty is one undisturbed step though the source takes no lock for it, and the handler table that detach also changes is not modelled.
- Queries, `vCont` and thread packets of the GDB protocol: fixed texts, and polling that depends on time.
- Image loading and clearing in `Memory`, I/O ports, BIOS, interrupt vectors, version and console calls: easy members only.
