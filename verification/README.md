# Verification of the brickEmu cores

brickEmu emulates the LEGO RCX: an H8/300 processor, its peripherals and the guest
operating systems it can inspect.  This project models the algorithms of the emulator
that are independent of input and output, and proves what they promise.

* **The brickOS heap** (`BrickOsHeap`, `BrickOsHeapLaws`, `BrickOsHistory`, `BrickOs`,
  `BrickOsRequests`):
  the allocator as a function on the sequence of blocks, its laws, and the loops over
  header words in the 64 KB memory proved against that function.  The heap ends at
  address 0x10000, where the 16-bit pointer wraps to 0; the word at address 0 (the high
  half of the reset vector) is nonzero, and the cached word `mm_first_free` lies below
  the heap.
* **The program loader** (`Lx`, `ProgramLoader`): relocation, placement of a program in
  the block it is given, and the promise that the predicted address is the real one.
* **The bibo heap** (`BiboHeap`, `Bibo`): the allocator of the other operating system,
  with its free list, its boundary tags and the links in memory.
* **The symbol table** (`SplayTree`, `SplayLaws`, `SymbolNodes`, `SymbolTable`): the
  top-down splay tree as a function on trees, its laws on the in-order sequence, and the
  pointer version with its stack dummy node proved against it.
* **Processor arithmetic** (`Cpu`, `CcrFormulas`, `MultiByte`): results and condition
  codes of the instructions, the emulator's shift-and-mask formulas, and chains of SUBX
  and ADDX of any width.
* **Division in the ROM** (`RomDivision`): the 32-bit routines, run on those
  instructions, with the exact condition under which they divide.
* **The timers** (`Timer16`, `Timer8`): batch advance against single clocks, the next
  event of the 16-bit timer with the exact condition under which it is late, and the
  sound samples of the 8-bit timer.
* **The profiler** (`HashTable`, `ProfilerFrames`, `ProfilerHistory`, `ProfilerNesting`,
  `ProfilerTables`, `Profiler`, `ProfilerCycles`): the hash table, frame stacks, thread switches, the
  meaning of every number recorded and the conservation of cycles.
* **The LCD link** (`LcdLink`): the ROM routine that bit-bangs a port and the receiver
  that decodes it, composed.
* **Interrupts** (`Interrupts`): interrupt entries closed by RTE, calls closed by RTS and
  words pushed and popped, nested to any depth.

Some branches of the emulator do not do what their surroundings intend.  Each is kept as
it is, with the exact condition under which the intended property holds:

* freeing a brickOS block raises a lower `mm_first_free`: `FreeKeepsLowestIff`,
  `FreeLosesLowest`;
* deleting one of three or more symbols with equal keys can drop two: `RemoveExactIff`,
  `RemoveDropsTwoReachably`;
* looking up a name that also occurs at address 0 depends on the shape of the tree:
  `LookupStableIff`;
* `udivmodsi3` overflows a 16-bit partial remainder for some dividends and divisors
  between 0x8001 and 0xffff: `UDivModSi3`, `SafeDivisors`;
* the 16-bit timer sleeps past compare B after a clear on a silent compare A:
  `NeverLateIff`;
* a profiler frame dropped without a return has its child cycles counted twice:
  `Conservation`, `SomeCyclesCountedTwice`.

## Model

| member | source | states |
|---|---|---|
| `BrickOsHeapLaws.MallocIsFirstFit` | brickos.c:88-130 | malloc answers with the start of the lowest maximal run of adjacent free blocks longer than the request, and with 0 only if there is none |
| `BrickOsHeapLaws.MallocKeepsOwned` | brickos.c:96-129 | looked at from any address, a failed malloc leaves every allocated block in place; a successful one adds exactly one, of at least the requested length, where nothing was allocated |
| `BrickOsHeapLaws.FreeKeepsOwned` | brickos.c:64-84 | free takes the named block out of the allocated ones and no other changes address, length or owner |
| `BrickOsHeapLaws.MallocKeepsLive` | brickos.c:100-124 | after malloc `mm_first_free` is a block header or the wrapped end, never the inside of a merged block |
| `BrickOsHeapLaws.FreeKeepsLive` | brickos.c:67-82 | the same after free |
| `BrickOsHeapLaws.MallocKeepsLowest` | brickos.c:119-124 | malloc never leaves a free block below `mm_first_free` |
| `BrickOsHeapLaws.FreeRaises` | brickos.c:69-70 | free raises an `mm_first_free` that lies below the freed block to that block |
| `BrickOsHeapLaws.FreeKeepsLowestIff` | brickos.c:67-82 | free leaves `mm_first_free` at or below every free block if and only if the freed block and what lay free before it meet `KeepsLowest`, which a caller can check beforehand |
| `BrickOsHeapLaws.FreeLosesLowest` | brickos.c:67-82 | the failing input: a heap of one free and one allocated block, its `mm_first_free` live and lowest, on which freeing the second leaves the first free block below `mm_first_free` |
| `BrickOsHeapLaws.FreeSettles` | brickos.c:57-130 | freeing what malloc returned leaves the heap in which every run up to the first fit is merged, whatever was split or merged |
| `BrickOsHeapLaws.MallocOnSettled` | brickos.c:88-130 | on that heap the same request has the same answer and the same result as on the original one |
| `BrickOsHeapLaws.PredictedAddress` | brickos.c:388-390 | malloc, free, malloc of the same size: the second malloc returns the address of the first, wherever `mm_first_free` stands |
| `BrickOsHistory.HistoryKeepsHeap` | brickos.c:57-130 | over every sequence of malloc and free the blocks tile the heap, `mm_first_free` stays live, and every allocated block not named in a free keeps place, length and owner |
| `BrickOsHistory.AllocationsKeepLowest` | brickos.c:88-130 | over every sequence of mallocs no free block lies below `mm_first_free` |
| `BrickOs.GuestHeap.Malloc` | brickos.c:88-130 | the loops over header words in the memory array compute the value model's heap and answer and terminate; the bytes of every allocated block stay, and below the heap all but `mm_first_free` |
| `BrickOs.GuestHeap.FirstFit` | brickos.c:95-129 | the walk, by the distance to the heap end |
| `BrickOs.GuestHeap.MergeNext` | brickos.c:100-108 | absorbing one free block moves `mm_first_free` with it and writes only the length |
| `BrickOs.GuestHeap.MergeFollowing` | brickos.c:100-108 | the merging loop takes all adjacent free blocks |
| `BrickOs.GuestHeap.Carve` | brickos.c:110-118 | splits a run that is longer than the request by more than 8 words and marks the block taken |
| `BrickOs.GuestHeap.MoveFirstFree` | brickos.c:119-124 | moves `mm_first_free` on to the next free block when it named the block taken |
| `BrickOs.GuestHeap.Free` | brickos.c:57-86 | the loops of free compute the value model's heap for every address, known or not |
| `BrickOs.GuestHeap.ReleaseAt` | brickos.c:67-82 | marks the block free, raises `mm_first_free`, merges what follows |
| `BrickOsRequests.ServeOne` | brickos.c:57-130 | one request: the heap of the value model, and every byte of the blocks it does not name stays |
| `BrickOsRequests.ServeRequests` | brickos.c:57-130 | any sequence of mallocs and frees served in memory ends in the heap of the value model, and every block allocated at the start that no free names keeps all its bytes |
| `Lx.RelocatedOnce` | lx.c:38-45 | with disjoint relocation words, start - base is added modulo 2^16 to exactly those words, once each |
| `Lx.RelocatedElsewhere` | lx.c:38-45 | no byte outside the relocation words changes |
| `Lx.PatchInPlace` | lx.c:41-44 | one word of memory is read, shifted and written back |
| `Lx.Read` | lx.c:28-47 | the image in memory is the relocated text and data; nothing outside it changes |
| `ProgramLoader.Place` | brickos.c:322-328 | text, data, zeroed bss and a second copy of the relocated data, in this order, and nothing outside |
| `ProgramLoader.PlacedInOrder` | brickos.c:322-328 | what the placed bytes are, section by section |
| `ProgramLoader.FillBlock` | brickos.c:307-329 | writes the table entry and the block, keeps every heap header, and nothing else changes |
| `ProgramLoader.Describe` | brickos.c:307-329 | the program table entry |
| `ProgramLoader.FillKeepsOthers` | brickos.c:292-329 | filling the granted block leaves every other allocated block and its data |
| `ProgramLoader.Loader.NewProgramAddress` | brickos.c:377-391 | the address announced is malloc's answer after evicting the old program of the slot, and any later request of that size is answered alike; the bytes of all other blocks, and below the heap all but the table entry and `mm_first_free`, stay |
| `ProgramLoader.Loader.LoadProgram` | brickos.c:289-329 | the old program is freed, the new one placed in the block malloc gives, the table entry filled in, and the heap stays well formed; on failure nothing but the free is done |
| `ProgramLoader.Loader.AskThenLoad` | brickos.c:363-394 | a program loaded after its address was asked for is loaded at that address |
| `ProgramLoader.PredictedAnswer` | brickos.c:388-390 | the heap after asking answers the same request with the same address |
| `SplayLaws.SplayInorder` | symbols.c:47-112 | splaying keeps the in-order sequence exactly, duplicates included |
| `SplayLaws.SplaySearch` | symbols.c:47-112 | it reports success exactly if some entry has the key, and brings that entry, or else the immediate predecessor or successor, to the root |
| `SplayLaws.AddInserts` | symbols.c:114-137 | adding puts exactly one entry into the sequence, at a place that keeps the order |
| `SplayLaws.RemoveAbsent` | symbols.c:167-184 | removing an absent key keeps the sequence |
| `SplayLaws.RemoveDropsOne` | symbols.c:167-184 | removing a key that at most two entries have takes out exactly one of them |
| `SplayLaws.RemoveDropsTwo` | symbols.c:174-176 | any three adjacent entries of one key can be in a tree from which removal drops two |
| `SplayLaws.RemoveDropsTwoReachably` | symbols.c:167-184 | the failing input: four adds, one lookup and one removal from the empty table, after which two entries are gone |
| `SplayLaws.RemoveExactIff` | symbols.c:167-184 | removal takes out exactly one entry whatever the shape of the tree if and only if no three entries share the key |
| `SplayLaws.RemoveKeepsSorted` | symbols.c:167-184 | removal keeps the order in every case |
| `SplayLaws.FirstIsLowest` | symbols.c:147-165 | the first entry of a name in the sorted sequence has the lowest address of that name |
| `SplayLaws.GetAddressIsFirst` | symbols.c:147-165 | with no entry of the name at address 0 the lookup is that address, so no history of splays changes it |
| `SplayLaws.OnlyAtZero` | symbols.c:153-160 | with the name only at address 0 the lookup is 0 |
| `SplayLaws.LookupDependsOnShape` | symbols.c:153-160 | with the name at 0 and elsewhere two trees of the same sequence answer differently |
| `SplayLaws.LookupStableIff` | symbols.c:147-165 | the lookup depends on the sequence alone if and only if the name is not both at 0 and elsewhere |
| `SymbolTable.SplayAt` | symbols.c:47-112 | the pointer loop with the dummy node relinks the nodes to the tree of the value model; no node is lost or shared |
| `SymbolTable.GoLeft` | symbols.c:64-81 | one pass to the left: the nodes of left, middle and right tree stay apart |
| `SymbolTable.GoRight` | symbols.c:82-98 | one pass to the right |
| `SymbolTable.Reassemble` | symbols.c:106-109 | the four assignments that put the three trees together |
| `SymbolTable.Symbols.Add` | symbols.c:114-137 | the node version of adding: one new node, all others kept |
| `SymbolTable.Symbols.Get` | symbols.c:139-145 | the name found, and the splayed tree |
| `SymbolTable.Symbols.GetAddress` | symbols.c:163-165 | reads the tree without changing it |
| `SymbolTable.Symbols.Remove` | symbols.c:167-184 | the join through a second splay: the tree of the value model; an absent key changes no entry, a key at most two entries have loses exactly one, and no node enters the tree |
| `SymbolTable.Symbols.RemoveAll` | symbols.c:186-197 | frees all nodes and ends with an empty root |
| `SymbolTable.FreesEachOnce` | symbols.c:186-197 | the order of the frees holds each entry exactly once |
| `SymbolTable.Symbols.Iterate` | symbols.c:199-212 | visits the in-order sequence while moving `root`, and restores it |
| `SymbolTable.ItemsAscend` | symbols.c:199-212 | in a sorted table no node of that sequence has a smaller key than an earlier one |
| `Cpu.SubMeaning` | h8300.pl:47-67 | SUB and CMP: difference, carry as borrow, overflow as signed overflow |
| `Cpu.SubXMeaning` | h8300.pl:205-226 | SUBX: difference with borrow; Z only stays set |
| `Cpu.AddMeaning` | h8300.pl:112-159 | ADD and ADDX: sum and carry |
| `Cpu.WordMeaning` | h8300.pl:128-135 | ADD.W and SUB.W: sum and difference with carry |
| `Cpu.RotXLMeaning` | h8300.pl:800-815 | ROTXL: the operand doubled with the carry below and above it |
| `CcrFormulas.ByteFormulasAgree` | h8300.pl:40-67 | the exclusive-or and shift formulas on the whole register give the flags of the model, for bytes |
| `CcrFormulas.WordFormulasAgree` | h8300.pl:40-67 | the same for words |
| `CcrFormulas.StickyZero` | h8300.pl:211-225 | masking with the old register makes Z sticky and leaves the other flags |
| `CcrFormulas.MoveFormulaAgrees` | h8300.pl:69-73 | N, Z and V of moves and logic |
| `CcrFormulas.RotateFormulaAgrees` | h8300.pl:800-815 | the rotate through the carry on the register gives the byte and the flags of the model |
| `CcrFormulas.NotFormulaAgrees` | h8300.pl:885-900 | the same for the complement, which keeps C |
| `CcrFormulas.DecFormulaAgrees` | h8300.pl:236-244 | the same for counting down, which sets V only from 0x80 to 0x7f |
| `CcrFormulas.BranchFormulasAgree` | h8300.pl:442-511 | the branch conditions computed on the register are the model's |
| `MultiByte.SubChainMeaning` | h8300.pl:182-226 | SUB then SUBX over any number of bytes: the difference, the borrow, the zero test, and the signed order and overflow of the whole numbers |
| `MultiByte.BranchesCompare` | h8300.pl:442-511 | after such a chain BHI, BLS, BCC, BCS, BGE, BLT, BGT and BLE decide exactly the unsigned and signed comparisons of the whole numbers |
| `MultiByte.AddChainMeaning` | h8300.pl:112-159 | ADD then ADDX over any number of bytes: sum and carry |
| `RomDivision.DividesMeans` | rom.s:299-302 | `Divides` is quotient and remainder in the usual sense |
| `RomDivision.DivXU` | h8300.pl:276-286 | DIVXU: the remainder in the high byte and the quotient modulo 256 in the low one; below 256 times the divisor that is the quotient itself; by zero the register stays |
| `RomDivision.DivideDigit` | rom.s:320-331 | DIVXU with the previous remainder above is one digit of long division; by zero it changes nothing |
| `RomDivision.ByteDivide` | rom.s:306-332 | one-byte divisors, entered past leading zero bytes: quotient and remainder |
| `RomDivision.DividingStep` | rom.s:339-348 | one shift-and-subtract step keeps the state of the division, with inverted quotient bits behind the dividend |
| `RomDivision.WordDivide` | rom.s:334-358 | two-byte divisors: the remainder is below the divisor, and quotient and remainder are right if and only if no partial remainder leaves 16 bits |
| `RomDivision.LongDivide` | rom.s:360-390 | longer divisors: restoring division, right for every dividend |
| `RomDivision.UDivModSi3` | rom.s:299-390 | unsigned division is right if and only if dividend and divisor are `Divisible`; division by zero leaves the dividend |
| `RomDivision.SafeDivisors` | rom.s:299-390 | the divisors right for every dividend are exactly 1 to 0x8000 and 0x10000 up |
| `RomDivision.LargeWordsFail` | rom.s:334-358 | every other two-byte divisor fails on the dividend 0x10000 |
| `RomDivision.TruncatingDivision` | rom.s:216-295 | what truncating division and its remainder are |
| `RomDivision.DivModSi3` | rom.s:216-295 | signed division modulo 2^32 truncates towards zero if and only if the magnitudes are `Divisible` |
| `Timer16.FreeRunningTimer.Pass` | timer16.c:150-173 | one pass of the repeat loop equals the clocks it skips, and the target falls strictly if it repeats |
| `Timer16.FreeRunningTimer.Advance` | timer16.c:143-174 | advancing by n clocks at once is n single clocks, for every n, compare values and clear mode |
| `Timer16.FreeRunningTimer.UpdateTime` | timer16.c:143-182 | the state after an update is that of counting every whole clock, the rest is kept, and the timer wakes before any enabled flag unless `MissesB` |
| `Timer16.FreeRunningTimer.CheckNextCycle` | timer16.c:111-141 | the wake cycle is at once if a flag is pending, and never later than the predicted event or than before |
| `Timer16.AdvanceTwice` | timer16.c:144-145 | stopping on the way makes no difference to the end |
| `Timer16.OneUpdateForMany` | timer16.c:143-182 | any series of updates ends in the state of one update at its last cycle |
| `Timer16.NeverLateIff` | timer16.c:111-141 | no clock before the predicted event raises an enabled flag, if and only if not (compare A clears, only compare B interrupts, the counter is above B and both fit before the overflow) |
| `Timer8.SoundTimer.Advance` | timer8.c:245-273 | batch advance of the 8-bit counter and its flags equals single clocks in all clear modes |
| `Timer8.SoundTimer.IncrTcnt` | timer8.c:160-217 | the flags of a stretch without clear, and sound durations that add up to it |
| `Timer8.SoundTimer.UpdateTime` | timer8.c:219-281 | all whole clocks are counted, and the sound generator is given exactly the cycles by which `last_cycles` advances, in every branch |
| `Timer8.SoundTimer.SetLastCycles` | timer8.c:283-287 | dropping a partial clock still sounds its cycles |
| `HashTable.Table.Get` | hash.c:37-46 | finds data under the key, or no bucket of the table has the key |
| `HashTable.Table.Move` | hash.c:48-64 | renames the first bucket of a key and changes no other; the new key finds it |
| `HashTable.Table.Grow` | hash.c:66-83 | relinking into a longer array keeps the multiset of buckets and puts each on the chain of its key |
| `HashTable.Table.Create` | hash.c:85-101 | adds exactly one bucket, found under its key, after growing a table more than four fifths full |
| `HashTable.Table.Realloc` | hash.c:103-116 | replaces the data of the first bucket of a key in place, or creates one |
| `HashTable.FindInTable` | hash.c:37-46 | looking only at the chain of a key finds it exactly if any bucket of the table has it |
| `ProfilerFrames.TimePasses` | frame.c:369-372 | while time passes exactly the top frame's own cycles grow |
| `ProfilerFrames.BeginKeepsOwn` | frame.c:264-274 | a call changes no frame's own cycles, and starts with none |
| `ProfilerFrames.ResumeKeepsOwn` | frame.c:190-191 | being away costs a thread's frames nothing |
| `ProfilerFrames.FinishRecordsOwn` | frame.c:368-393 | the local cycles recorded are the own cycles of the finished frame; those of all others stay |
| `ProfilerFrames.DropMovesOwn` | frame.c:340-351 | dropping a frame gives its own cycles to the caller, and its child cycles once more |
| `ProfilerHistory.StepConserves` | frame.c:117-471 | what each event adds to the cycles counted |
| `ProfilerHistory.Conservation` | frame.c:117-471 | over every run, matched or not, every cycle is counted exactly once if and only if no dropped frame had child cycles; none is ever lost |
| `ProfilerHistory.SomeCyclesCountedTwice` | frame.c:340-351 | the failing input: a run of the first thread, one cycle long, that counts more than one |
| `ProfilerHistory.AllCyclesCounted` | frame.c:117-471 | from the first thread on, with the recorded cycles as one sum, the record and the open frames together hold all cycles |
| `ProfilerHistory.ClosingRecordsOwn` | frame.c:493-557 | closing a thread records the own cycles of each of its open frames |
| `ProfilerHistory.ClosingConserves` | frame.c:493-557 | and they add up to the cycles counted for the thread |
| `ProfilerNesting.ProfileIsTrue` | frame.c:246-471 | for calls, interrupts and thread switches nested to any depth the profile lists the true local, total and interrupt cycles of every call, and the frames below are untouched |
| `ProfilerNesting.CyclesConserved` | frame.c:368-393 | the elapsed cycles of a function are its local cycles, those of every call and handler nested in it, and the cycles spent in other threads |
| `ProfilerTables.ReturnAddsLocal` | frame.c:461-470 | a return adds its local cycles to one profile |
| `ProfilerTables.ClosingAddsLocal` | frame.c:501-557 | closing a thread adds to every profile the own cycles of its open frames |
| `ProfilerTables.TableFinds` | frame.c:148-153 | the table finds under a stack pointer a thread filed under it, and under 0 the running one |
| `Profiler.FrameProfiler.CurrentIsKeyZero` | frame.c:148-188 | exactly one record has key 0, and it is `current_thread` |
| `Profiler.FrameProfiler.Switch` | frame.c:117-192 | the thread left is filed under the old stack pointer, the one known under the new runs on with its time away charged, or a new one starts; all others stay |
| `Profiler.FrameProfiler.GrowNumFrames` | frame.c:198-209 | a full record is moved to a longer one, which takes over key 0 |
| `Profiler.FrameProfiler.Begin` | frame.c:246-323 | pushes one frame on the running thread and gives its caller a profile |
| `Profiler.FrameProfiler.Unwind` | frame.c:340-351 | drops the frames that should have returned before |
| `Profiler.FrameProfiler.InsertSubframe` | frame.c:216-226 | a bottom frame that returns gets a caller that starts now |
| `Profiler.FrameProfiler.End` | frame.c:325-471 | the stack and the profiles after a return, on the running thread alone |
| `Profiler.FrameProfiler.CloseThread` | frame.c:493-557 | the profiles after closing a thread |
| `ProfilerCycles.ReturnAddsToTable` | frame.c:461-470 | a return adds the local cycles of the frame it ends to the sum over the profile table |
| `ProfilerCycles.ClosingAddsToTable` | frame.c:493-557 | closing a thread moves the own cycles of all its open frames into the table |
| `ProfilerCycles.PassingCounts` | frame.c:368-393 | in the table and the open frames of all registered threads together, every cycle is counted once while some thread runs |
| `ProfilerCycles.SwitchCounted` | frame.c:117-192 | a thread switch in place changes that sum by nothing |
| `ProfilerCycles.BeginCounted` | frame.c:246-323 | nor does a call, even when the record moves |
| `ProfilerCycles.EndCounted` | frame.c:325-471 | a return in place adds exactly the child cycles of the frames it drops |
| `LcdLink.Lcd.SetPort6` | lcd.c:114-191 | a write to clock and data lines: bits, start and stop conditions |
| `LcdLink.Lcd.constructor` | lcd.c:199-203 | the chip starts blank and not listening, a valid state |
| `LcdLink.Lcd.Interpret` | lcd.c:124-168 | the effect of a complete byte |
| `LcdLink.NextBit` | rom-lcd.s:596-605 | the marker bit behind the byte empties the register after exactly eight bits |
| `LcdLink.SendByte` | rom-lcd.s:596-613 | the chip that receives these port writes processes exactly this byte |
| `LcdLink.Start` | rom-lcd.s:590-594 | start condition from any state of the receiver |
| `LcdLink.WriteLcdOutput` | rom-lcd.s:576-624 | round trip: the receiver, whatever it did before, processes exactly the bytes sent, in order, and ends stopped |
| `LcdLink.WrongIdIgnored` | lcd.c:127-132 | after a wrong device id the rest is ignored |
| `LcdLink.RefreshShows` | lcd.c:133-165 | behind the header the k-th data byte lands in `lcd_data[k]`, other cells stay |
| `LcdLink.LcdRefresh` | rom-lcd.s:539-557 | the display area is what the chip shows |
| `Interrupts.Processor.EnterInterrupt` | peripherals.c:357-366 | what interrupt entry saves, masks and reads |
| `Interrupts.Processor.Call` | h8300.pl:83-91 | what a call saves |
| `Interrupts.Processor.RtS` | h8300.pl:558-566 | what RTS restores |
| `Interrupts.Processor.RtE` | h8300.pl:567-580 | what RTE restores |
| `Interrupts.NestRestores` | h8300.pl:83-91 | any well behaved nest of calls, interrupts, and stretches that push words, run a nest and pop them restores the stack pointer and keeps all bytes saved around it |
| `Interrupts.PushedAroundInterrupt` | h8300.pl:567-580 | an interrupt between a push and its pop is such a nest, so the pop finds the word pushed |
| `Interrupts.CallIsTransparent` | h8300.pl:558-566 | a call with any nest as its body ends behind itself |
| `Interrupts.InterruptIsTransparent` | h8300.pl:567-580 | an interrupt with any nest as its handler restores program counter, stack pointer and condition codes |
| `BiboHeap.MallocTakesFirst` | bibo.c:110-126 | malloc takes the first free block that is long enough, and splits it when eight more bytes are left |
| `BiboHeap.MallocFails` | bibo.c:110-129 | with no free block long enough it answers 0 and changes nothing |
| `BiboHeap.MallocTiles` | bibo.c:110-126 | the blocks still tile the heap |
| `BiboHeap.MallocKeepsOwned` | bibo.c:110-129 | one new owned block where none was, every other in place |
| `BiboHeap.GrantedAreaIsOwn` | bibo.c:110-126 | the granted area shares no byte with an area owned before |
| `BiboHeap.FreeAddressesExact` | bibo.c:110-127 | the free list of the value model is exactly the set of headers with owner 0 |
| `BiboHeap.FreeAddressesAscend` | bibo.c:110-127 | and strictly ascends |
| `BiboHeap.NoAdjacentFree` | bibo.c:58-76 | with every header saying whether the block before it is free, and no free block saying so, no two free blocks are adjacent |
| `BiboHeap.FreeKeepsMarked` | bibo.c:58-76 | freeing a block behind a free one restores those marks |
| `BiboHeap.FreeKeepsOwned` | bibo.c:58-76 | and takes exactly the freed block out of the owned ones |
| `Bibo.LinkedIsFreeList` | bibo.c:107-127 | following the links in memory from the list head visits exactly the free list of the value model |
| `Bibo.RcxHeap.Scan` | bibo.c:107-129 | the walk along the links computes the value model's answer, relinks the list and keeps the bytes of every area owned before |
| `Bibo.RcxHeap.Malloc` | bibo.c:104-130 | for every size from 1 to 0xfffe: tiling and ascending exact free list kept, the area at least that long and apart from all others, whose bytes stay |
| `Bibo.RcxHeap.Free` | bibo.c:50-76 | from a fully tagged heap, freeing a block whose header marks the one before it free restores list, marks and boundary tags and keeps the bytes of all other areas |

## Left out

- ProgramLoader.Loader.LoadProgram: the file is a given program in .lx form whose footprint is below 64 KB and whose relocation words lie in its text and data; larger sums, which the emulator truncates to 16 bits, are not modelled, nor is the COFF branch (brickos.c:271-283, brickos.c:301-305). The last table entry (brickos.c:329) is written before the program is placed, which no later step reads.
- ProgramLoader.Loader.NewProgramAddress: program slots are 0 to 7, the digits the host sends; the answer is returned, not printed.
- BrickOs.GuestHeap.Malloc: the memory before the heap is arbitrary except that the word at address 0 is nonzero and `mm_first_free` does not overlap the heap; a start address of 0 (no symbol) is covered.
- SymbolTable.Symbols.Remove: `free` is that the node is no longer part of the tree; memory is not reused.
- SymbolTable.Symbols.Iterate: the callback collects the entries; a callback that changes the table is not modelled.
- Cpu: the half-carry flag and the interrupt mask bit are not part of the flags record, no modelled branch reads them; Z after ADDX is recomputed by the emulator, so only its sum and carry are claimed for chains.
- RomDivision.UDivModSi3: the caller's r0 and r1, saved on the stack around the long loop, are local variables; the zero-extended jumps of the one-byte path become one block per label, entered or not.
- RomDivision.DivXU: the flags it sets are left out, no modelled instruction reads them.
- RomDivision: the 32-bit product is left out, which adds two partial products a second time (rom.s:181-183, rom.s:190-192), and the 16-bit division, whose loop for divisors from 256 up a comment opened at rom.s:152 swallows.
- Timer16.FreeRunningTimer.UpdateTime: at most 2^31 - 1 cycles pass between two updates, and the wake cycle lies within 2^31 of the present, the range of the emulator's signed difference; the input capture flags, which nothing sets, and the register access functions are left out. A write to the compare registers or the counter does not renew the prediction (timer16.c:223-250), so the claim holds from an update on.
- Timer8.SoundTimer.UpdateTime: the output level handed to the sound generator is modelled as written but nothing is claimed of it, since its position is off by one after the first match; the next-event bound of this timer is left out, as it tests status bits for enable bits. The sound generator is a sum of durations.
- HashTable: removal and enumeration are left out; a bucket chain is a sequence, its head first, and the bucket array a sequence of chains, so relinking of `next` pointers is not modelled.
- HashTable.Table.Realloc: the resized copy is passed in; the old block is no longer in the table, and its memory is not reused.
- Profiler.FrameProfiler.Begin: stack pointers are nonzero, as 0 marks the bottom frame and the running thread's key; code addresses are even, and their lowest bit is a separate field.
- Profiler.FrameProfiler.Unwind: a subframe is inserted after the loop instead of in its last pass, which the frame pointer 0 of the bottom frame ends in either case.
- ProfilerHistory.AllCyclesCounted: the profile is one sum and threads are numbered in order of their start; `ProfilerCycles` states the same conservation, call by call, on the records and the table in place.
- Profiler.FrameProfiler.CloseThread: the frames of a closed thread are left in an intermediate state that only the end of the program follows.
- LcdLink.Lcd.SetPort6: the three analog lines and the messages to the display window are left out; a data byte addressed beyond the twelve cells is ignored, a case the emulator does not define.
- LcdLink.SendByte: the data direction register is left out, since the receiver does not see it and the acknowledge bit is not read.
- Interrupts.NestRestores: all of memory is plain RAM, the words saved do not wrap around address 0, and cycles and the profiler hooks are left out.
- Bibo.RcxHeap.Free: a block behind one that is not free (bibo.c:77-101) is left out: that branch stores the list link at `next + 6`, inside the block after, and does not refresh its tag, so the invariant fails there. The last block of the heap is reserved and never freed.
- Bibo.RcxHeap.Malloc: sizes 0 and 0xffff, which round to 0, are left out. Taking a block whole (bibo.c:122-124) leaves the mark of the block behind it set, so marks and tags are not claimed after an allocation.
- Save and load, sockets, real-time synchronisation, graphics, the debugger protocol, the assembly back ends, the S-record and COFF readers, buttons, motors, wait states and A/D conversion are input and output, foreign calls or small.
