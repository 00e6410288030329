# A verified model of the mesh verification environment

The repository generates random tests for a many-core mesh chip, drives them through
four hosts around the chip and predicts what memory must hold at the end. This project
models the parts of it that compute, and proves that they do what the rest relies on.

| module | models |
|---|---|
| `Words`, `Bits`, `Accesses`, `Ranges`, `ChipAddress` | machine words and limbs, bits, access sizes, sorted ranges, mesh addresses |
| `WideDivision`, `WideText`, `WideStrings` | division, formatting, scanning and string packing of wide numbers (verilated.cpp) |
| `MemManager` | igen's allocator of exclusive memory ranges (mem_manager.h) |
| `Registers`, `Machine`, `MachineLaws`, `Tracker` | igen's register manager (regs.h), a semantics of the emitted instructions and what it amounts to, and what the generator knows about registers and flags |
| `DataProcessing`, `RegisterMoves`, `LoadStores` | the three instruction generators |
| `StartCode`, `Programs`, `ProgramRuns` | the start code, filling subroutines (main.cpp), and all runs of the result |
| `Interrupts`, `InterruptRuns` | save and restore code of the interrupt routines, with nesting; interrupted runs and runs of generated routines |
| `DmaTransfer`, `DmaChain` | shapes, simulation and linkage of DMA descriptors (dma.h) |
| `HostMap`, `HostLists`, `HostTraffic`, `HostSchedule` | mgen: ownership of memory slices, the range lists, the hosts' traffic, and the prediction of final memory |
| `DriverQueue`, `HostDriving` | the host driver's queue and host memory (stimulus.h, stimulus.cpp), and the driver at work on a generated file |
| `ByteCoalescer` | the script that turns a byte dump into aligned writes (full.awk) |

Random choices (`scv_smart_ptr::next`, `rand`) are parameters; theorems hold for all of
them that meet the stated constraints. An object whose methods update its fields is a
class, and each method is tied to a function of the old state; the theorems are about
those functions.

The main results: wide division is exact for any number of limbs; whatever igen marks as
known has that value in every run of a generated program, on every round of its loops
and with interrupts between any of its steps, every load and store goes to the address
it was generated for, and never writes into the program's code; a load or store is left
out only where no known register leads to a free address in a way the generator may use;
the allocator loses nothing but short ends of ranges; generated interrupt routines write
only registers they save, so that nested interrupts give the context back; DMA transfers
stay in their buffers; mgen's sequential prediction holds for every interleaving of the
hosts, and, end to end, for what the host drivers put on the wire from the generated
files.

## Where the code does not do what it is for

Six things one would expect are false as the code stands. For each the exact condition
under which they hold is proved, as an if-and-only-if over all inputs.

- Modulus of wide numbers: the copy-out at verilated.cpp:264 reads `un[vw]`, which
  line 202 has not cleared when the divisor fills all words, the dividend is non-zero
  with a zero top word and the normalisation shift is not 0. `DivisionIsExact` is an
  if-and-only-if on that guard (`ReadsUnwrittenCell`); `StaleCounterexample` gives the
  failure.
- Interrupt context: a routine that changes more than NREGS-2 registers stores its last
  one where the status is saved next (`RestoresIff`, `LongListPossible`). The generator
  reaches this with 16 registers when the pointer registers are r14 and r15
  (`GenerateLongIsr`), and never unless the window of pointer registers is just the two
  top registers (`GenerateRandomIsr`).
- DMA ranges: a range whose ends are 8 to 15 apart passes the generator's size check, but
  a transfer may run out of it, both ends of a range belonging to it as they do for the
  allocator; which transfers do not is stated in the exact ends and alignment
  (`ShapeStaysWithin`, `TransferInsideIff`, `SmallBufferCounterexample`). The
  allocator's ranges are always long enough.
- DMA simulation: its assertions on a backwards transfer (dma.h:1019-1020) subtract the
  buffer size from the start address as unsigned numbers, so they fail when the buffer
  is longer than its start address is high (`ChecksHoldIff`, `LowRangeCounterexample`).
- Byte coalescing: a dump whose first address is the start offset plus one joins the
  initial empty group, and a final line that follows on from the last address may leave
  the last group unprinted (`CoalescingFaithful`).
- Printing packed strings: a comment says trailing spaces are dropped, but the loop
  tests the terminator it has just written and drops nothing (`VintToString`). Nothing
  is left to drop exactly when the number is zero or its lowest byte is neither zero nor
  white space (`NoTrailingSpaceIff`, `TrailingSpaceCounterexample`).

## Model

| member | source | states |
|---|---|---|
| `WideDivision.MostSetBitPlus1` | epiphany_models/verilated.cpp:172-174 | position of the highest set bit plus one, 0 exactly for zero |
| `WideDivision.Normalize` | epiphany_models/verilated.cpp:204-219 | the limbs of the shifted number: their value is the input times 2^s, top limb included |
| `WideDivision.TrialDigit` | epiphany_models/verilated.cpp:223-234 | the loop at `again` ends with the quotient of the top three by the top two limbs, capped at one limb; at most two corrections; no 64-bit intermediate overflows |
| `WideDivision.TrialDigitBound` | epiphany_models/verilated.cpp:222-258 | with a normalised divisor that quotient is the true digit or one more |
| `WideDivision.SubtractLimb` | epiphany_models/verilated.cpp:238-243 | one wrapping multiply-subtract step loses nothing: limb and borrow stand for the exact difference |
| `WideDivision.SubtractLimbs` | epiphany_models/verilated.cpp:236-243 | the loop subtracts qhat * vn exactly, in value of the limbs |
| `WideDivision.MultiplySubtract` | epiphany_models/verilated.cpp:236-245 | the same with the top limb; its signed reading t is the exact rest above the limbs |
| `WideDivision.AddBack` | epiphany_models/verilated.cpp:248-258 | adds the divisor exactly, with carry |
| `WideDivision.DivideDigit` | epiphany_models/verilated.cpp:222-259 | one digit: old partial dividend = digit * divisor + new one, which is below the divisor, with a zero top limb |
| `WideDivision.DivideAllDigits` | epiphany_models/verilated.cpp:221-259 | the main loop: dividend = quotient * divisor + remainder, remainder below the divisor |
| `WideDivision.DivideByLimb` | epiphany_models/verilated.cpp:183-195 | single-limb divisor: quotient limbs and remainder put the dividend together, remainder below the divisor |
| `WideDivision.Denormalize` | epiphany_models/verilated.cpp:261-267 | the copy-out divides by 2^s and brings in the low bits of the cell above the remainder |
| `WideDivision.ModDiv` | epiphany_models/verilated.cpp:165-271 | all paths: the output limbs have the value of quotient or remainder, plus the share of the unwritten cell where it is read; 0 for divisor 0 |
| `WideDivision.DivisionIsExact` | epiphany_models/verilated.cpp:165-271 | quotient and modulus put the dividend together with 0 <= r < v, whatever the work buffer held, if and only if the call does not read the unwritten cell |
| `WideDivision.StaleCounterexample` | epiphany_models/verilated.cpp:202-264 | when it does, a work buffer of all ones makes the modulus differ from the remainder |
| `WideText.Format` | epiphany_models/verilated.cpp:343-411 | prints only 0-9 and a-f, enough digits or just enough of them, whose positional value is the number |
| `WideText.PrintDigits` | epiphany_models/verilated.cpp:388-411 | the printing loop from one bit position down: digits whose value is the number below it |
| `WideText.PrintedDigitIs` | epiphany_models/verilated.cpp:393-410 | the printed digit is the bit field at its position, octal digits across limbs included |
| `WideText.TopDigitNonZero` | epiphany_models/verilated.cpp:344-344 | minimal width starts with a non-zero digit unless the number is zero |
| `WideText.SetBits` | epiphany_models/verilated.cpp:468-472 | stores the low bits of a digit at a position, cut off at the width |
| `WideText.Based` | epiphany_models/verilated.cpp:473-498 | adds the value of the digit string modulo 2^obits to a cleared number; other characters are passed over, x, z and ? count as 0 |
| `WideText.DigitsRead` | epiphany_models/verilated.cpp:476-495 | digits count by their place among the sixteen, in either case |
| `WideText.PlacesTaken` | epiphany_models/verilated.cpp:476-495 | no other character takes up a place but x, z and ?, which put nothing in it |
| `WideText.Scan` | epiphany_models/verilated.cpp:473-498 | the value read is the digit string modulo 2^obits |
| `WideText.PrintThenScan` | epiphany_models/verilated.cpp:343-498 | printing a clean number in binary, octal or hexadecimal, padded or minimal, and reading it back gives the same limbs |
| `WideStrings.StringToVint` | epiphany_models/verilated.cpp:648-656 | the first characters that fit, last one lowest, zeros above |
| `WideStrings.VintToString` | epiphany_models/verilated.cpp:631-646 | prints bytes from the top, leading zeros dropped, later ones as spaces, and a terminator; the trailing-space loop then drops nothing |
| `WideStrings.DropTrailing` | epiphany_models/verilated.cpp:645-645 | the loop clears exactly the white space at the end of what it is given |
| `WideStrings.NoTrailingSpaceIff` | epiphany_models/verilated.cpp:631-646 | the printed string has no white space at its end if and only if the number is zero or its lowest byte is neither 0 nor white space |
| `WideStrings.TrailingSpaceCounterexample` | epiphany_models/verilated.cpp:644-645 | the packed string of a letter and a space keeps the space |
| `WideStrings.PackThenShow` | epiphany_models/verilated.cpp:631-656 | a string packed and printed comes back exactly when it fits and has no zero byte |
| `DriverQueue.FirstOrdinary` | epiphany_models/stimulus.h:251-267 | the first entry that is neither a write-back nor a latch write |
| `DriverQueue.WriteBackInserted` | epiphany_models/stimulus.h:251-270 | insertion keeps write-backs ahead of ordinary entries, in arrival order, and the other entries in theirs |
| `DriverQueue.LeadingNotOvertaken` | epiphany_models/stimulus.h:253-266 | a leading latch write is not overtaken by a write-back |
| `DriverQueue.LatchWrite` | epiphany_models/stimulus.h:254-257 | a latch write goes to a register of a core on the driver's own chip, in the quarter of its rows and columns that the base address names |
| `DriverQueue.LatchNotSignedOff` | epiphany_models/stimulus.cpp:226-253 | latch writes are never signed off |
| `DriverQueue.SignedOffIff` | epiphany_models/stimulus.cpp:226-253 | a plain write is read back unless it goes to a register of one of the chip's cores |
| `DriverQueue.RunDisciplined` | epiphany_models/stimulus.h:241-305 | in every reachable queue: no write-back behind an ordinary entry, write-backs driven in arrival order, other entries in theirs, sign-offs derived from exactly the writes driven |
| `DriverQueue.Stimulus.AddStimulus` | epiphany_models/stimulus.h:241-245 | appends |
| `DriverQueue.Stimulus.AddWriteBackStimulus` | epiphany_models/stimulus.h:251-270 | the scan loop inserts before the first ordinary entry |
| `DriverQueue.Stimulus.DriveNext` | epiphany_models/stimulus.cpp:193-253 | pops the first entry and notes its sign-off read |
| `DriverQueue.Stimulus.DispatchSignOff` | epiphany_models/stimulus.h:295-305 | queues the sign-off list in order |
| `DriverQueue.Stimulus.SampleWrite` | epiphany_models/stimulus.cpp:616-633 | a chip write changes exactly its aligned bytes of host memory, low byte first |
| `DriverQueue.Stimulus.SampleRead` | epiphany_models/stimulus.cpp:483-533 | a chip read is answered by inserting one write-back |
| `DriverQueue.AnswerCarriesMemory` | epiphany_models/stimulus.cpp:489-533 | the write-back carries, byte by byte, what host memory holds, zero where nothing is stored |
| `DriverQueue.StoredIsAnswered` | epiphany_models/stimulus.cpp:483-633 | what the chip stored is what a read of the same place returns |
| `ByteCoalescer.Script.Line` | igen/run/full.awk:29-63 | one record of the script, as a step of its state and what it prints |
| `ByteCoalescer.GroupWrite` | igen/run/full.awk:38-48 | closing a group prints one aligned write that covers the group and not the next address |
| `ByteCoalescer.RunProgress` | igen/run/full.awk:29-63 | after any number of lines everything printed is sound and covers all closed groups |
| `ByteCoalescer.CoalescingFaithful` | igen/run/full.awk:18-63 | for increasing addresses the output reproduces every dump at them if and only if the first address is not the start offset plus one, and the final line does not follow on from the last address, or that is the last byte of a word or a second byte without the first |
| `ByteCoalescer.JoinsUnlessCloses` | igen/run/full.awk:36-58 | the script's own state after a dump closes the last group in just these cases |
| `ByteCoalescer.ReplayReproduces` | igen/run/full.awk:29-63 | replaying faithful output leaves every dumped byte at its address; other addresses keep their byte or become zero |
| `MemManager.Manager.ReadInitialRanges` | igen/mem_manager.h:125-180 | sorts the ranges and spreads them over the lists as drawn, the first one for code; fails exactly on an overlap; long ranges give a consistent allocator |
| `MemManager.TakeConsistent` | igen/mem_manager.h:245-289 | carving keeps the lists sorted, disjoint, inside the initial ranges and long, and takes only addresses not handed out before |
| `MemManager.CarvedRemains` | igen/mem_manager.h:254-268 | the carved list holds the other ranges, and exactly the addresses not taken and not in a part of at most 257 bytes |
| `MemManager.Manager.RemoveUpdateRange` | igen/mem_manager.h:245-289 | the imperative carve: other ranges stay, and an address stays free exactly when it is not taken and not in a part too short to keep; the overlap assertion holds |
| `MemManager.Manager.SplitList` | igen/mem_manager.h:254-268 | erase, push pieces, sort: other ranges stay, and of this one all addresses but those taken and those in a part too short to keep |
| `MemManager.Manager.MarkUsed` | igen/mem_manager.h:272-283 | records exactly the addresses of the range, none of them present before |
| `MemManager.Manager.GetRangeIndex` | igen/mem_manager.h:211-231 | finds the first range with room, or reports none |
| `MemManager.Manager.GetGenRangeByJump` | igen/mem_manager.h:301-349 | takes a subroutine range at the solver's choice and moves the start to an even address |
| `MemManager.RequestSolvable` | igen/mem_manager.h:61-61 | the solver has a solution for a subroutine request exactly when the range has at least 257 bytes beyond its start |
| `MemManager.ServedIff` | igen/mem_manager.h:211-349 | a request is served exactly when there is room for it, with the range asked for |
| `MemManager.RunSafe` | igen/mem_manager.h:211-349 | after every sequence of requests the allocator is consistent, no two given ranges share an address, and every fetch range can serve another request |
| `MemManager.RunConserves` | igen/mem_manager.h:211-349 | over every sequence of requests each address that was free is free, given or waste, never two of them; at most two short parts are wasted for a range given |
| `MemManager.Manager.FillStartMemRanges` | igen/mem_manager.h:437-446 | the starts of all free ranges, fetch ranges first |
| `MemManager.Manager.SetMem` | igen/mem_manager.h:449-456 | records a byte at an address that has none |
| `MemManager.Manager.UnifyLSList` | igen/mem_manager.h:351-378 | terminates, covers the same addresses, leaves a gap between neighbours |
| `MemManager.MergedCovers` | igen/mem_manager.h:364-368 | merging two touching ranges covers the same addresses |
| `MemManager.Manager.PrintAssemblySections` | igen/mem_manager.h:393-427 | emits every covered address exactly once, in order, recorded bytes as recorded |
| `Ranges.SortedUnique` | igen/mem_manager.h:268-268 | sorting ranges has one result |
| `Registers.RegManager.Init` | igen/regs.h:140-190 | every register but the loop and the frame register gets a known value |
| `Registers.RegManager.RecordChangedReg` | igen/regs.h:195-207 | adds a register to the changed list once |
| `Registers.RegManager.CreateSetMemPointerReg` | igen/regs.h:223-241 | a new pointer register above the window, then below it; the window never reaches r0 and r1 |
| `Registers.RegManager.SetReg` | igen/regs.h:296-317 | the register is known with this value, the rest of the table as before |
| `Registers.RegManager.GetReg` | igen/regs.h:319-337 | finds a value exactly when the register is known |
| `Registers.RegManager.InvalidateAllRegs` | igen/regs.h:341-358 | only pointer registers stay known, no flag does, the changed list is empty |
| `Registers.RegManager.InvalidateReg` | igen/regs.h:360-377 | the register is unknown, the rest as before |
| `Registers.RegManager.RecordContext` | igen/main.cpp:662-665 | adds exactly r0, r1 and the loop register to the changed list; the frame register never is in it |
| `DataProcessing.ShiftByFill` | igen/data_processing_instr.h:582-585 | shift and bit fill is the arithmetic shift, rounding down |
| `DataProcessing.FilledNext` | igen/data_processing_instr.h:583-585 | one step of the fill |
| `DataProcessing.ReverseBySwaps` | igen/data_processing_instr.h:664-668 | sixteen swaps are the bit reversal |
| `DataProcessing.SwapNext` | igen/data_processing_instr.h:664-668 | one swap |
| `DataProcessing.Evaluate` | igen/data_processing_instr.h:424-683 | the generator computes the one word that is a result of the operation, and so what the machine computes |
| `DataProcessing.Next` | igen/data_processing_instr.h:405-685 | known values, flags and changed registers after an instruction, exactly |
| `Machine.ReverseBits` | igen/data_processing_instr.h:661-683 | bit j of the reversal is bit n-1-j |
| `MachineLaws.ComputeIsResult` | igen/data_processing_instr.h:424-683 | a word is the machine's result if and only if it is the sum or difference up to a carry or borrow, or, for logic, shifts and reversal, has the right bit in every place |
| `MachineLaws.FlagsMean` | igen/data_processing_instr.h:434-683 | zero, sign, carry, overflow and sticky flag after an instruction, as carries and signs of the exact sum or difference |
| `MachineLaws.ConditionsCompare` | igen/reg_move_regular.h:317-440 | after a comparison every integer condition decides exactly the unsigned or signed comparison it is named after |
| `MachineLaws.LoadAfterStore` | igen/load_store_instr.h:747-786 | a load from where a store has been gives back what was stored, for all sizes and modes |
| `MachineLaws.TestAndSet` | igen/load_store_instr.h:768-775 | a test-and-set brings the word in memory and stores the register only over zero |
| `MachineLaws.BaseIsOffsetAddress` | igen/load_store_instr.h:654-699 | post-modification leaves the base where the offset form would have gone |
| `Tracker.DpKnows` | igen/data_processing_instr.h:405-685 | which registers and flags are known after a data processing instruction: the destination exactly when the operands are and no loop repeats it on its own result |
| `Tracker.DpSound` | igen/data_processing_instr.h:418-685 | what is known after a data processing instruction is so in the machine, for every state in which what was known before is so |
| `RegisterMoves.EvaluateCond` | igen/reg_move_regular.h:317-440 | a condition is decided exactly from the known flags |
| `RegisterMoves.Next` | igen/reg_move_regular.h:266-446 | known values and changed registers after a move, exactly: one whose condition is known false is not recorded |
| `Tracker.KnownCondSound` | igen/reg_move_regular.h:317-440 | a decided condition has the machine's outcome |
| `Tracker.DecidedIff` | igen/reg_move_regular.h:317-440 | a condition on integer flags is decided exactly when all flags its outcome can hang on are known |
| `Tracker.MovSound` | igen/reg_move_regular.h:314-444 | conditional moves: known after is so in the machine |
| `Tracker.MovKnows` | igen/reg_move_regular.h:314-444 | which registers are known after a conditional move |
| `RegisterMoves.MoveSound` | igen/reg_move_regular.h:281-446 | all moves: known after is so in the machine |
| `RegisterMoves.MoveKnows` | igen/reg_move_regular.h:281-313 | which registers are known after the other moves |
| `LoadStores.EncodeOffset` | igen/load_store_instr.h:535-650 | for an accepted address: 11-bit immediate and sign with base +/- (immediate << size) equal to the address in 32 bits, sign flip included |
| `LoadStores.FindBase` | igen/load_store_instr.h:306-325 | the first register whose value is a free address, or none holds one |
| `LoadStores.FindIndex` | igen/load_store_instr.h:328-366 | the first register that leads to a free address by addition or subtraction, or none does |
| `LoadStores.FindImmediate` | igen/load_store_instr.h:491-540 | the first base register and try that reach a free, aligned address by the immediate, or none of the fifteen tries from any register does |
| `LoadStores.TriedEncodable` | igen/load_store_instr.h:496-533 | tried addresses are a multiple of the access size away from an aligned base |
| `LoadStores.TriedNear` | igen/load_store_instr.h:495-533 | a try is the first multiple of the access size above the random point, in 32 bits; for bytes the point itself |
| `LoadStores.FreeIff` | igen/mem_manager.h:211-231 | an address is free when one of the free ranges has room for sixteen bytes from it on |
| `LoadStores.Choose` | igen/load_store_instr.h:300-560 | an access is chosen exactly when some known register leads to a free address by an allowed mode; it reaches the address, aligned to its size; index, post-modification and immediate are taken in the order of the source; no pointer register is modified |
| `LoadStores.ChooseFromBase` | igen/load_store_instr.h:334-424 | from the first base register: by index where asked for and found, else by post-modification unless it is a pointer register, else not at all |
| `LoadStores.TakeBuffer` | igen/load_store_instr.h:413-424 | the buffer leaves the free list; its addresses were not handed out before |
| `LoadStores.FillMemory` | igen/load_store_instr.h:721-741 | records eight equal bytes, none recorded before |
| `LoadStores.ReadWord` | igen/load_store_instr.h:761-766 | recorded bytes put together, low byte first |
| `LoadStores.UpdateBase` | igen/load_store_instr.h:654-699 | the base register after post-modification: computed outside loops, forgotten inside; recorded as changed exactly when modified |
| `LoadStores.UpdateDestination` | igen/load_store_instr.h:747-786 | the destination of a load: recorded bytes, or unknown for unprotected loads and test-and-set; recorded as changed, both halves of a double |
| `LoadStores.Next` | igen/load_store_instr.h:277-790 | one load or store, as drawn: address, allocator, recorded memory, known values and changed registers, exactly; or none, exactly when no known register leads to a free address by an allowed mode |
| `LoadStores.GeneratedTakes` | igen/load_store_instr.h:413-424 | a store and a protected load take sixteen fresh bytes for good, a protected load finds its eight bytes recorded; an unprotected load leaves memory as free as it was |
| `Tracker.AddressSound` | igen/load_store_instr.h:372-404 | the machine accesses the address the generator computed |
| `Tracker.AccessSound` | igen/load_store_instr.h:654-786 | what is known after a load or store is so in the machine whose memory holds the recorded bytes |
| `Tracker.AccessKnows` | igen/load_store_instr.h:654-786 | which registers are known after a load or store |
| `Tracker.OthersUntouched` | igen/regs.h:195-207 | wherever what is known is so, an instruction changes no register but those the generator records for it |
| `Tracker.AccessFrame` | igen/load_store_instr.h:747-786 | memory changes only at the accessed bytes, and not by an ordinary load |
| `ProgramRuns.StepSound` | igen/main.cpp:235-345 | one generated instruction keeps everything known true and writes only its own addresses |
| `ProgramRuns.TailSound` | igen/main.cpp:349-357 | the tail of a subroutine keeps the pointer registers |
| `ProgramRuns.TailCounts` | igen/main.cpp:349-357 | the tail counts the loop register down and goes back to the head, or, from one, reloads it and jumps on |
| `ProgramRuns.LoopCounts` | igen/main.cpp:349-357 | a subroutine that does not touch the loop register runs as often as it says, unless a branch leaves it |
| `ProgramRuns.RunsGoOn` | igen/main.cpp:198-357 | from everywhere a run goes on, and a branch may be taken to any subroutine |
| `ProgramRuns.RunSound` | igen/main.cpp:198-357 | in every run, whatever branches are taken and however often subroutines loop, all the generator marked known has its value at that point |
| `ProgramRuns.RunAddresses` | igen/load_store_instr.h:404-424 | in every run a load or store goes to the address it was generated for, and a protected load finds the recorded bytes |
| `ProgramRuns.RunFrame` | igen/main.cpp:198-357 | in every run memory changes only where an instruction was generated to write |
| `StartCode.SetupSets` | igen/regs.h:387-396 | the emitted moves set every listed register to its value, in any state |
| `StartCode.PrintMe` | igen/regs.h:387-400 | the printing loop emits these moves, and those of the loop and the frame register |
| `StartCode.CreatePointers` | igen/main.cpp:401-419 | pointer registers for the first ranges, at most a quarter of all registers |
| `StartCode.StartTest` | igen/main.cpp:399-460 | the whole start code, run in any state, leaves every pointer register, the loop and the frame register with their values and memory alone |
| `Programs.AccessProduced` | igen/load_store_instr.h:654-786 | a generated access is one the run theorem covers |
| `Programs.Program.GenerateInstr` | igen/main.cpp:235-345 | one instruction of a body: it is emitted, except an access for which no known register leads to a free address; known values follow, addresses are fresh, pointer registers stay |
| `Programs.Program.constructor` | igen/main.cpp:107-127 | a program starts with pointer registers at the starts of free ranges and the code that sets them |
| `Programs.Program.GenerateJump` | igen/branch_instr.h:208-240 | a target 2^20 or more bytes away is reached through a register that then is known; a linked branch loses register 14 unless it is a pointer register |
| `Programs.FarIff` | igen/branch_instr.h:208-240 | a target counts as far exactly when no offset below 2^20 either way leads to it |
| `Programs.Program.GenerateBranch` | igen/branch_instr.h:199-245 | a branch goes to an even address in a range that the allocator takes for it: no longer free, and apart from all code before |
| `Programs.Program.FirstJump` | igen/main.cpp:466-482 | the jump that ends the start code leaves pointers and frame register as set, and its target is pending |
| `Programs.Program.Extend` | igen/main.cpp:211-345 | the body grows and stays covered by the run theorem |
| `Programs.Program.StartBody` | igen/main.cpp:198-199 | at the head only the pointer registers are known |
| `Programs.Program.FillSubroutine` | igen/main.cpp:149-376 | a subroutine filled from its draws in order, until space or memory runs out, leaves the whole program covered; the changed list is exactly what its instructions may change and the loop register |
| `Programs.Program.TakeTarget` | igen/mem_manager.h:301-349 | an even address in a range taken for it, apart from all code before; recorded bytes stay |
| `Programs.Program.FillBody` | igen/main.cpp:203-345 | the loop takes the draws in order until space or memory runs out; only branches and accesses may be left out; the body keeps within its size |
| `Programs.Program.ProcessPending` | igen/main.cpp:531-555 | all pending subroutines and those they branch to get their code, in order; terminates |
| `Programs.Program.IsWellFormed` | igen/main.cpp:149-376 | a generated program meets the premises of the run theorem: in particular no instruction writes a byte another relies on |
| `Programs.Program.CodeApart` | igen/main.cpp:149-376 | code and data are apart: each subroutine with its tail fits the range taken for it, which no other shares, no instruction writes and no recorded byte lies in |
| `Programs.Program.RunKeepsCode` | igen/main.cpp:149-376 | no run writes into the code of any subroutine |
| `Programs.Program.LoadedMemory` | igen/mem_manager.h:393-427 | memory loaded from the emitted sections holds every byte relied on |
| `Programs.Program.GeneratedProgramSound` | igen/main.cpp:149-555 | end to end: sections loaded and the start code run in any state, every run of a generated program agrees with the generator |
| `Programs.Program.SubroutineRepeats` | igen/main.cpp:349-357 | a generated subroutine entered with v in the loop register stays in its loop until its tail has been run v times, branches apart |
| `Programs.Program.RecordContext` | igen/main.cpp:662-665 | adds exactly r0, r1 and the loop register; the list is one the save and restore code can take |
| `Programs.Program.GenerateIsr` | igen/main.cpp:637-665 | the saved list of a routine is exactly r0, r1, the loop register and what its subroutine may change; with a pointer register below the two top ones it is short enough to save |
| `Programs.Program.GenerateRandomIsr` | igen/main.cpp:627-725 | all routines: their lists are legal and exact, and short enough to save unless only the two top registers are pointer registers |
| `Programs.Program.GenerateLongIsr` | igen/main.cpp:637-665 | with 16 registers and r14 and r15 as pointer registers a routine can be generated whose list of 15 does not fit: the context is lost |
| `Programs.Program.InterruptedProgramSound` | igen/main.cpp:149-721 | end to end with interrupts: every run of a generated program, whatever interrupts cut into it, agrees with the generator |
| `Programs.Program.GeneratedRoutineRestores` | igen/main.cpp:627-721 | a generated routine, whatever its subroutine does and whatever interrupts it, is a legal body and gives the interrupted context back |
| `Interrupts.PrintSave` | igen/main.cpp:706-721 | prints the save code of the specification |
| `Interrupts.PrintRestore` | igen/main.cpp:682-698 | prints the restore code of the specification |
| `Interrupts.SaveRegsDone` | igen/regs.h:209-214 | the save code stores register after register and nothing else |
| `Interrupts.RestoreRegsDone` | igen/regs.h:216-221 | the restore code loads register after register and nothing else |
| `Interrupts.SaveSaves` | igen/main.cpp:706-721 | after the save part the area holds the whole context, and only the area has changed |
| `Interrupts.RestoreRestores` | igen/main.cpp:682-698 | from an area that holds a context the restore part gives it back |
| `Interrupts.ActRestores` | igen/main.cpp:662-721 | every activation, with any nesting of other interrupts between gie and gid, ends with all registers, status and return address as at entry |
| `Interrupts.BodyKeeps` | igen/main.cpp:681-721 | a body leaves unsaved registers and all active areas alone, nested activations included |
| `Interrupts.ActMemory` | igen/main.cpp:662-721 | outside the save areas an activation changes memory only as its body and nested bodies write |
| `Interrupts.RestoresIff` | igen/regs.h:195-221 | the context always comes back if and only if the routine changes at most NREGS-2 registers |
| `Interrupts.LongListPossible` | igen/main.cpp:662-698 | sixteen registers with fifteen changed do not fit, and a context is lost |
| `InterruptRuns.ActivationEffect` | igen/main.cpp:662-721 | an interrupt leaves registers and flags of the program alone, and memory but for what it writes |
| `InterruptRuns.TracedSound` | igen/main.cpp:198-357 | with interrupts between any steps all the generator marked known still has its value, and the frame register stays |
| `InterruptRuns.RoutineChanges` | igen/regs.h:195-207 | in every run of a subroutine, loops and interrupts included, only registers its instructions touch, the loop register and r0 change |
| `InterruptRuns.EventStores` | igen/load_store_instr.h:654-786 | a step stores only in bytes given to it: none relied on, none in a save area |
| `InterruptRuns.RoutineFits` | igen/main.cpp:643-721 | every run of a generated routine is, step by step, a body the save and restore code is made for |
| `InterruptRuns.EntryHolds` | igen/main.cpp:700-764 | at the head of the routine's subroutine pointer registers and relied-on bytes are in place |
| `InterruptRuns.RoutineRestores` | igen/main.cpp:637-764 | the whole activation may interrupt any run and gives back registers, status and return address |
| `DmaTransfer.BufferInside` | igen/dma.h:682-718 | the aligned buffer lies in the range it is carved from |
| `DmaTransfer.BufferLargest` | igen/dma.h:682-718 | the buffer starts at the first multiple of the access size past the start and is the largest, up to 1024, that leaves eight bytes in both ranges |
| `DmaTransfer.ShapeStaysWithin` | igen/dma.h:840-905 | whatever is drawn, every access ends within the buffer size if and only if one access fits, or two dimensions are drawn with an inner stride that is a multiple of the longer part of the row |
| `DmaTransfer.ShapeFills` | igen/dma.h:836-909 | how much is moved: in one dimension the drawn number of accesses as far apart as fits, in two dimensions rows that fill the buffer but for less than one side, walked until one more step would leave their longer part |
| `DmaTransfer.TransferInsideIff` | igen/dma.h:682-909 | for any two ranges whose ends are 8 or more apart, both ends included as in the allocator, a transfer stays in them if and only if nothing is moved or they are long enough, in exact ends and alignment |
| `DmaTransfer.TwoDimensions` | igen/dma.h:861-876 | the two-dimensional arithmetic behind it |
| `DmaTransfer.ShapeTransfer` | igen/dma.h:836-909 | strides, counts and direction as specified; the generator's assertions hold |
| `DmaTransfer.AccessInside` | igen/dma.h:902-1025 | every access, forwards or backwards, stays in both buffers and at the same distance from their starts |
| `DmaTransfer.SimulateDMA` | igen/dma.h:964-1040 | the simulator's running addresses visit the closed-form accesses; it ends well if and only if its wrapping range assertions hold at all of them, else it stops at the first |
| `DmaTransfer.CopiedAre` | igen/dma.h:992-1040 | the bytes moved are those of all accesses of all rows, and no others |
| `DmaTransfer.ChecksHoldIff` | igen/dma.h:1015-1021 | for any two ranges the assertions hold if and only if the transfer goes forwards or moves nothing, or both ranges start high enough |
| `DmaTransfer.LowRangeCounterexample` | igen/dma.h:1019-1019 | a backwards transfer at the bottom of memory that fails them |
| `DmaTransfer.CopiedInside` | igen/dma.h:992-1040 | every byte moved lies in the buffers |
| `DmaTransfer.TransferInsideRanges` | igen/dma.h:682-1049 | between ranges whose ends are at least 16 apart every byte of every transfer stays inside both |
| `DmaTransfer.SmallBufferCounterexample` | igen/dma.h:707-718 | in a range whose ends are ten apart a double access runs past the last byte |
| `DmaChain.DmaEngine.TakePair` | igen/dma.h:557-585 | finds an internal and an external range, or two external ones of different chips, exactly when there are such, and takes them out of the list |
| `DmaChain.DmaEngine.TakeLocation` | igen/dma.h:728-748 | the place in the first range that starts low enough, taken from the fetch list |
| `DmaChain.DmaEngine.ChooseLink` | igen/dma.h:751-793 | chain and interrupt exclude each other; an interrupt uses up a fetch range |
| `DmaChain.DmaEngine.GoesOnAsDrawn` | igen/dma.h:751-793 | when the chain goes on, engine by engine |
| `DmaChain.DmaEngine.ModesAsDrawn` | igen/dma.h:628-672 | only transfers into internal memory have a mode, where one was drawn |
| `DmaChain.DmaEngine.Append` | igen/dma.h:800-809 | links the last descriptor and appends the new one |
| `DmaChain.DmaEngine.Pass` | igen/dma.h:548-816 | goes on exactly when there is a pair of ranges, a place and a link as drawn; then one transfer is added and a fetch range used up |
| `DmaChain.DmaEngine.GenerateDescrList` | igen/dma.h:546-816 | terminates; a chain is generated exactly when there is a pair of ranges and a place; every descriptor but the last goes on by exactly one of chain and interrupt to the next one's location, the last does neither |
| `DmaChain.LinkedExtended` | igen/dma.h:800-809 | linking one more keeps the chain well formed |
| `DmaChain.ChainMemoryApart` | igen/dma.h:546-816 | no two buffers or tables of a chain overlap, save that buffers of different descriptors may where ranges are used again |
| `DmaChain.DmaEngine.EngineMemoryApart` | igen/dma.h:546-816 | whatever has been generated, all buffers and tables of the first engine are pairwise apart |
| `DmaChain.ChainTransferInside` | igen/dma.h:546-905 | a descriptor of the chain moves bytes only inside its two ranges |
| `ChipAddress.ComposeFields` | mgen/main.cpp:396-411 | a mesh address is determined by its fields |
| `ChipAddress.FieldBits` | mgen/main.cpp:396-411 | the fields are the bits [31:29], [28:26], [25:23], [22:20] and [19:0] |
| `HostMap.HostBeside` | mgen/main.cpp:243-274 | north and south hosts sit in the chip's column, one row up and one down, west and east hosts in its row, one column back and one on |
| `HostMap.SwitchesObeyed` | mgen/main.cpp:448-606 | every switch does what its name says; a host is master exactly of an off-chip slice that the chip may not, or need not, reach itself |
| `HostMap.ExtendedObeyed` | mgen/main.cpp:612-664 | extended ranges are 32 kB on the host's chip, given as drawn and never to that host |
| `HostMap.SlicesCover` | mgen/main.cpp:448-450 | the slices of a core cover its memory from start to end |
| `HostMap.SliceSpan` | mgen/main.cpp:460-605 | a slice as it is given away is, made global, the core's own slice under one chip |
| `HostMap.SlicesDisjoint` | mgen/main.cpp:430-664 | addresses given in different slots are different memory, whatever the choices |
| `HostMap.CopyNotGiven` | mgen/main.cpp:832-834 | the read-back copy lies on no range anyone was given |
| `HostMap.CopiesDistinct` | mgen/main.cpp:832-834 | different owned addresses have different copies |
| `HostMap.PlanExclusive` | mgen/main.cpp:430-664 | the map gives the exclusive ownership that the prediction needs |
| `HostLists.AllSlotsOnce` | mgen/main.cpp:430-664 | every slot is handed out exactly once |
| `HostLists.CoreMemoryMap.DistributeSlice` | mgen/main.cpp:448-606 | one slice, through all the branches, goes to the list of the specified master |
| `HostLists.CoreMemoryMap.DistributeHosts` | mgen/main.cpp:612-664 | the extended ranges of all hosts |
| `HostLists.CoreMemoryMap.GenerateMap` | mgen/main.cpp:414-664 | every list is exactly what its master was given, in order |
| `HostLists.ListsDisjoint` | mgen/main.cpp:430-664 | ranges in different places of the lists share no memory |
| `HostSchedule.ExecuteOwned` | mgen/main.cpp:754-920 | in every interleaving an owned byte is the last one its own host wrote |
| `HostSchedule.ExecuteCopies` | epiphany_models/stimulus.cpp:226-253 | while sign-off reads run, owned bytes stay and copies follow them |
| `HostSchedule.PredictExpected` | mgen/main.cpp:897-921 | running hosts one after another predicts the last byte of each written address and its copy, and nothing else |
| `HostSchedule.PredictionHolds` | mgen/main.cpp:754-920 | for every interleaving and every order of sign-off reads memory ends with the predicted bytes, and each copy equals the last byte written |
| `HostSchedule.ScheduleExists` | mgen/main.cpp:754-920 | any streams can be run to their end |
| `HostSchedule.ExpectedData.Enter` | mgen/main.cpp:899-920 | enters one transaction byte by byte |
| `HostTraffic.BurstInside` | mgen/main.cpp:817-830 | every access of a burst is aligned and lies in the slice; the range assertion holds |
| `HostTraffic.BurstCovers` | mgen/main.cpp:812-834 | a burst moves as many whole accesses as fit its length, one behind the other from its aligned address, or all to the same place |
| `HostTraffic.TranFits` | mgen/main.cpp:817-834 | a transaction in a host's slot is one the prediction covers |
| `HostTraffic.AllAccessesAre` | mgen/main.cpp:812-895 | the accesses of every burst are generated, in order, with the kind, data and delay drawn for each |
| `HostTraffic.PackedWriteSignedOff` | mgen/main.cpp:1075-1122 | the driver signs off every packed write; its sign-off is the line of the read back to the host's copy, and the packed data is the transaction's |
| `HostTraffic.HostGenerator.GenerateBurst` | mgen/main.cpp:812-921 | each access gets its line and its expected bytes |
| `HostTraffic.HostGenerator.GenerateHost` | mgen/main.cpp:754-1000 | all bursts of one host |
| `HostTraffic.GeneratedPredictionHolds` | mgen/main.cpp:754-920 | end to end: for all random choices and all interleavings memory ends with every byte of the generated table |
| `HostDriving.AllDriven` | epiphany_models/stimulus.h:241-305 | once none of its own entries is left in the queue, a host has driven them in the order they came, and noted exactly their sign-offs |
| `HostDriving.LineMeans` | mgen/main.cpp:1075-1122 | the line of an access, read as the driver puts it on the wire, is the access: kind, size, address, bytes, and where a read goes |
| `HostDriving.PerformedAsMeant` | epiphany_models/stimulus.cpp:255-330 | then it does to memory what the transaction does |
| `HostDriving.SignOffLines` | epiphany_models/stimulus.cpp:226-253 | what the driver notes for sign-off of a generated file is, line by line, the read back of each write |
| `HostDriving.ReadsAreSignOffs` | epiphany_models/stimulus.cpp:226-253 | these reads are the sign-off reads of the prediction |
| `HostDriving.DrivenIsStream` | epiphany_models/stimulus.h:241-305 | whatever the chip asks for meanwhile, a host drives its generated file in order, which means the transactions of the prediction, and then entries that mean its sign-off reads |
| `HostDriving.DriveExists` | epiphany_models/stimulus.h:241-305 | any file, and then its sign-off, can be driven to the end |
| `HostDriving.DrivenPredictionHolds` | mgen/main.cpp:754-920 | end to end: four hosts drive their generated files and then their sign-offs, the chip carries out what they drive in any order, and memory ends with every byte of the generated table |

## Left out

- SystemC ports, threads and waits, SCV distributions, command lines, pipes, waveform files, sockets, signals and log output: plumbing.
- Multicast, message mode and `external_prod_mode` of mgen, `isHostMCTarget`, and switched-off single hosts: multicast read-back addresses are built from the multicast id; the mgen theorems are stated with multicast off.
- Host transactions are atomic in `HostSchedule`, and only hosts run in it: the traffic of the cores on their own slices is disjoint from the hosts' by `SlicesDisjoint`.
- The driver's start-up filter for transactions a host sends to itself, auto-DMA polling (`AddFirstStimulus`), the SPI driver, and the checks that end a simulation on a bad address.
- Floating point results are an oracle's; the floating point macro instructions, hardware loops, SWI and configuration registers of igen are not modelled.
- The search for a register that already holds a branch target (igen/branch_instr.h:153-190): it tests an index that may be unset. Branches to a label and far branches through a register are modelled.
- `FillSubroutine` draws instructions until its space is used, and may draw for ever when no load or store can be placed; the model takes a finite list of draws and may stop earlier.
- `ProcessPending` and `RunSound` treat the jump from one subroutine's tail as possible to any subroutine, which includes the one emitted.
- That the save areas lie outside every range igen allocates is the linker's work and a premise of the results on interrupts (`RoutinesPlaced`). So is that no list of changed registers is too long, which `GenerateRandomIsr` ensures unless the pointer registers are just the two top ones.
- The interrupt routines' signature and timer code (igen/main.cpp:723-764) is any sequence of writes to r0, r1, the loop register, the status and memory that is not relied on (`Opening`); DMA interrupts, which save into buffers of their own, are not modelled.
- A store by a routine appears in its body as the bytes it leaves; save areas hold words, all other memory bytes.
- `GenerateDescrList` starts, in the model, from the two lists as they stand after igen/dma.h:509-536 has dealt them out and sorted them; the bytes of the descriptor tables (igen/dma.h:913-948) are not modelled. In message mode engine 0 never reuses a range (the inner test at line 664 cannot hold), so only engine 1 does.
- Scan widths, decimal, time and string conversions of `_vl_vsformat` and `_vl_vsscanf`, `VL_READMEM_W`, random reset and scope tables: library and file work.
- Macros of Verilator's header (`VL_BITBIT_I`, `VL_WORDS_I`, `VL_MULS_MAX_WORDS` and the like) are not part of this model; words have 32 bits, numbers any number of them. The output of the division does not alias its inputs.
- `SetMem` of the DMA generator is not tracked in `Programs`; its bytes come from ranges the allocator no longer has. Instructions have the sizes of the source (`SizeOf`), but their encoding is not modelled, and the start code, which the linker places, has no range.
- The start code of DMA channels and the jump to the end of the test are not part of the start code in `StartCode`.
- Nothing is modelled of timing, of the chip itself, or of the comparison of result files.
