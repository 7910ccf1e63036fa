# A verified model of a 16-bit machine simulator's CPU, cache and assembler

The repository simulates a small 16-bit computer. It has 2048 words of
memory, four general-purpose registers R0..R3, three index registers X1..X3,
the registers PC, IR, MAR, MBR, MFR and CC, and a 16-line fully associative,
write-through, write-allocate cache with FIFO replacement. A two-pass
assembler turns source text into `%06o` address/word pairs. This project
models three parts of it in Dafny and proves their behaviour:

- **The cache policy** (`cache_policy.dfy`, module `CachePolicy`). `CPU.java`
  and `Cache.java` share this policy, written as functions on a value of
  sixteen lines and a queue.
  - Two invariants keep the queue and the lines in step. `QueueMatchesValid`
    says the queue lists each valid line's index exactly once. `TagsUnique`
    says at most one valid line holds a given address.
  - `Coherent` says every valid line holds the word memory holds at its tag.
  - Reads, writes and installs preserve all three. The seventeen-read
    scenario shows that the earliest fill is evicted first.
- **The standalone `Cache` class** (`cache.dfy`, module `CacheUnit`). It is
  a class over an array of line values and a queue. Each method is proved
  equal to the policy functions, with the memory passed in as an array.
- **The CPU** (`isa.dfy`, `cpu.dfy`, `cpu_unit.dfy`, `cpu_properties.dfy`).
  - `Isa` holds instruction decoding and the Java integer operations the
    interpreter uses:
    - `signExtend` and the CC bit order;
    - `&`, `|` and `~` on 16-bit values;
    - `<<`, `>>` and `>>>`, and rotation;
    - Java's truncating `/` and `%`.
  - `Cpu` describes the machine as a value (`Machine`). It has one function
    per method of `CPU.java` and one per group of `switch` cases.
  - `CpuUnit.CPU` is the class with the source's fields and arrays. Its
    methods update them in place, with the same loops over the cache lines.
    Each method is proved to produce exactly the machine its `Cpu` function
    describes.
  - `CpuProperties` states, for every case of the `switch`, what one
    instruction does to the registers, memory, PC and MFR, with indexing and
    indirection in general.
- **The assembler** (`javatext.dfy`, `assembler.dfy`,
  `assembler_properties.dfy`, `assembler_runs.dfy`, `assembler_encoding.dfy`).
  - `JavaText` models the `String`, `Integer` and regular-expression calls
    the assembler makes: `trim`, `split`, `matches`, `parseInt`,
    `toBinaryString` and `%Ns`/`%06o`.
  - `Assembler` lifts the per-line string work into functions. Its class
    `Assembler` holds the two static tables and runs both passes as `while`
    loops over the source lines. Each pass is proved equal to a fold of the
    per-line functions.
  - The remaining modules prove properties of single lines, of whole runs,
    and of the machine words the encoding produces.
- **The toolchain** (`toolchain.dfy`, module `Toolchain`). It connects the
  assembler's encoding to the CPU's decoding: an assembled instruction
  decodes back to its fields and is executed by the CPU.

Several behaviours of the source are modelled as written and stated as
properties:

- **LDX and STX opcodes disagree.** The assembler's table gives LDX and STX
  the binary opcodes `100001` and `100010`, which are 33 and 34. The CPU's
  `switch` has the decimal labels 41 and 42. An assembled LDX or STX
  therefore reaches the `default` case, which sets MFR to 4 and stops
  (`Toolchain.AssembledIndexInstructionFaults`).
- **The two passes count lines differently.** Pass 1 advances its counter
  over any operation other than `LOC`. Pass 2 advances only over DATA, HLT
  and table mnemonics. After a line with an unknown mnemonic, a label
  therefore points one word past the word it labels
  (`AssemblerRuns.UnknownMnemonicShiftsLabels`).
- **DATA keeps the first sixteen binary digits.**
  - For a negative value, `toBinaryString` gives 32 digits, so the word is
    `65536 + v / 65536`. That is `0xFFFF` for any value from -65536 to -1.
  - A value from 65536 to 131071 becomes `v / 2`.
- **Reading memory out of range does not stop the instruction.** The read
  sets MFR to 1, answers 0, and the instruction goes on.
- **TRAP does not stop execution.** It sets MFR to 3 and continues.
- **`reset` does not clear the cache data.** It invalidates the cache lines
  but keeps their data words.
- **AMR and SMR read the register before the memory word.**
- **JCC reads CC bit `3 - r`.**
- **MLT or DVD with rx = 3 overruns the register array.** The instruction
  writes R3, then indexes the register array past its end. The model
  reports this as the outcome `OutOfBounds`.

Java's 32-bit `int` is modelled explicitly where it matters:
- the location counter's `++` (`Assembler.Next`);
- `toBinaryString` and `%o` of negative values (`Words.Unsigned32`);
- SOB's decrement, which wraps at 16 bits.

## Model

| member | source | states |
|---|---|---|
| CachePolicy.Empty | src/Cache.java:26-33 | The reset cache satisfies both invariants, holds no valid tag and misses on every address |
| CachePolicy.EmptyIsCoherent | src/Cache.java:26-33 | The reset cache is coherent with any memory |
| CachePolicy.Lookup | src/Cache.java:36-40 | The line search returns the first valid line holding the address, or the line count on a miss |
| CachePolicy.FirstInvalid | src/Cache.java:58-66 | The free-line search returns the lowest invalid line, or the line count when all are valid |
| CachePolicy.Install | src/Cache.java:57-71 | No contract of its own: fills the lowest invalid line and queues it, or overwrites the queue head's line and moves its index to the tail; CachePolicy.InstallIntoFreeLine, InstallIntoFullCache and InstallKeepsWf state this |
| CachePolicy.Probe | src/Cache.java:35-44 | No contract of its own: the hit line's word, else the word memory holds; CachePolicy.FillKeepsInvariants proves a coherent cache answers the memory word |
| CachePolicy.Fill | src/Cache.java:35-44 | A read (hit, or miss then install) keeps both cache invariants |
| CachePolicy.Update | src/Cache.java:46-55 | A write (hit updates the line, miss installs) keeps both cache invariants |
| CachePolicy.FullQueueLength | src/Cache.java:67-70 | With every line valid, the queue holds exactly sixteen indices |
| CachePolicy.InstallIntoFreeLine | src/Cache.java:58-66 | With a free line, installing fills the lowest one and appends exactly its index to the queue |
| CachePolicy.InstallIntoFullCache | src/Cache.java:67-70 | With all lines valid, installing overwrites the queue head's line, moves its index to the tail, keeps sixteen entries, and every line stays valid |
| CachePolicy.InstallKeepsWf | src/Cache.java:57-71 | Installing an address that misses keeps both invariants, makes it a hit holding the word, and adds at most that tag |
| CachePolicy.FillKeepsInvariants | src/Cache.java:35-44 | A read keeps the invariants; a coherent cache stays coherent and the read answers the memory word |
| CachePolicy.UpdateKeepsInvariants | src/Cache.java:46-55 | A write keeps the invariants, makes the address a hit holding the new word, and stays coherent with memory written through |
| CachePolicy.RereadHits | src/Cache.java:35-44 | A read repeated at once is a hit that changes nothing and returns the same word |
| CachePolicy.FillChangesExactlyOnMiss | src/Cache.java:35-44 | A read leaves the cache unchanged if and only if it hits |
| CachePolicy.UpdateOnHit | src/Cache.java:46-55 | A write that hits keeps the queue, the held addresses and every line's valid bit and tag; the line holding the address gets the new word and every other line keeps its word |
| CachePolicy.ReadsFrom | src/Cache.java:35-44 | A run of reads keeps both invariants |
| CachePolicy.FillNextInOrder | src/Cache.java:57-66 | Reading address n into a cache that holds 0..n-1 in lines 0..n-1 fills line n and queues it last |
| CachePolicy.FirstReadsFillInOrder | src/Cache.java:57-66 | The first n ≤ 16 reads of 0..n-1 from an empty cache fill lines 0..n-1 in order and queue them in that order |
| CachePolicy.SeventeenthReadReplacesHead | src/Cache.java:67-70 | The seventeenth read overwrites line 0, the queue head, and rotates the queue |
| CachePolicy.TagsAfterReplacingHead | src/Cache.java:67-70 | Once line 0 of an in-order fill holds address 16, the valid tags are exactly 1..16 |
| CachePolicy.SeventeenReadsEvictFirst | src/Cache.java:57-71 | Seventeen reads of 0..16 from empty leave valid tags exactly 1..16 and the queue 1,2,…,15,0 |
| CacheUnit.Cache.constructor | src/Cache.java:17-24 | Sixteen fresh lines (invalid, tag -1, data 0) and an empty queue |
| CacheUnit.Cache.Reset | src/Cache.java:26-33 | Every line becomes invalid with tag -1 and data 0, and the queue is empty |
| CacheUnit.Cache.Read | src/Cache.java:35-44 | The new cache is the policy's read; the result is the hit word or the memory word; coherence with memory is preserved and then the result is the memory word |
| CacheUnit.Cache.Write | src/Cache.java:46-55 | Memory is written through at the address only; the new cache is the policy's write; coherence is preserved |
| CacheUnit.Cache.AddToCache | src/Cache.java:57-71 | On a miss, the new cache is the policy's install (lowest free line, else the queue head) |
| Isa.DecodeFields | src/CPU.java:239-252 | opcode, r, ix, i and address partition the word: each is in range and they recombine to it; al/lr split ix, count is the low four bits |
| Isa.Opcode | src/CPU.java:239 | No contract of its own: `(IR >> 10) & 0b111111`; Isa.DecodeFields gives its range and how it recombines with the other fields |
| Isa.RField | src/CPU.java:240 | No contract of its own: `(IR >> 8) & 0b11`, also rx; range and recombination in Isa.DecodeFields |
| Isa.IxField | src/CPU.java:241 | No contract of its own: `(IR >> 6) & 0b11`, also ry; range and recombination in Isa.DecodeFields |
| Isa.IField | src/CPU.java:242 | No contract of its own: `(IR >> 5) & 0b1`; range and recombination in Isa.DecodeFields |
| Isa.AddressField | src/CPU.java:243 | No contract of its own: `IR & 0b11111`, also DEVID; range and recombination in Isa.DecodeFields |
| Isa.AlField | src/CPU.java:250 | No contract of its own: `(IR >> 7) & 0b1`; Isa.DecodeFields shows al and lr split ix |
| Isa.LrField | src/CPU.java:251 | No contract of its own: `(IR >> 6) & 0b1`; Isa.DecodeFields shows al and lr split ix |
| Isa.CountField | src/CPU.java:252 | No contract of its own: `IR & 0b1111`; Isa.DecodeFields shows it is the low four bits |
| Isa.Immediate | src/CPU.java:258-261 | No contract of its own: the five-bit field, sign-extended for AIR and SIR only; Isa.ImmediateRange states its range and sign |
| Isa.ImmediateRange | src/CPU.java:258-261 | The AIR/SIR immediate lies in [-16, 15], equals the address field modulo 32, and is negative exactly when bit 4 is set |
| Isa.SignExtend | src/CPU.java:216-221 | A 16-bit value maps into [-32768, 32767], is negative exactly when bit 15 is set, and masks back to itself |
| Isa.SignExtendOfMask | src/CPU.java:216-221 | A signed 16-bit value survives masking followed by sign extension |
| Isa.SignedSumMasks | src/CPU.java:287-295 | Adding two words as signed values gives the same 16 bits as adding them unsigned |
| Isa.SignedDifferenceMasks | src/CPU.java:296-304 | Subtracting two words as signed values gives the same 16 bits as subtracting them unsigned |
| Isa.CCBit | src/CPU.java:103-105 | `getCCBit(bit)` is 0 or 1 |
| Isa.CompareCC | src/CPU.java:94-101 | No contract of its own: the CC value `setCC` assigns; Isa.CompareCCBits states which bits it sets |
| Isa.WithDivZero | src/CPU.java:384 | No contract of its own: `CC | 0b0100`; Isa.DivZeroBit states which bit it sets and which it keeps |
| Isa.CompareCCBits | src/CPU.java:94-101 | After setCC, bit 0 as JCC reads it is set exactly on zero and the other three bits are clear |
| Isa.DivZeroBit | src/CPU.java:380-387 | `CC | 4` sets the bit JCC reads with field value 1 and leaves the other three |
| Isa.Not16 | src/CPU.java:414-418 | `~v & 0xFFFF` is `0xFFFF - v` |
| Isa.And16 | src/CPU.java:402-407 | No contract of its own: `(a & b) & 0xFFFF`; Isa.LogicBits states it bit by bit |
| Isa.Or16 | src/CPU.java:408-413 | No contract of its own: `(a | b) & 0xFFFF`; Isa.LogicBits states it bit by bit |
| Isa.LogicBits | src/CPU.java:402-418 | Bit k (k < 16) of AND is set exactly when both bits k are, of ORR when either is, and NOT flips every bit |
| Isa.MaskKeepsLowBits | src/CPU.java:405 | Masking with 0xFFFF keeps bits 0..15 |
| Isa.ComplementBit | src/CPU.java:414-418 | Each bit of `0xFFFF - v` is the opposite of v's |
| Isa.ShiftLeft | src/CPU.java:426-427 | No contract of its own: `(v << c) & 0xFFFF`; CpuProperties.ShiftRegister states SRC's result |
| Isa.ShiftRightLogical | src/CPU.java:431-432 | `v >>> c` never exceeds v |
| Isa.ShiftRightArithmetic | src/CPU.java:429-430 | No contract of its own: `(signExtend(v) >> c) & 0xFFFF`; Isa.ArithmeticShiftReplicatesSign states its value |
| Isa.RotateLeft | src/CPU.java:440-441 | No contract of its own: Isa.RotateLeftValue gives its value and Isa.RotateRoundTrip its inverse |
| Isa.RotateRight | src/CPU.java:442-443 | No contract of its own: Isa.RotateRightValue gives its value and Isa.RotateRoundTrip shows it undoes RotateLeft |
| Isa.ArithmeticShiftReplicatesSign | src/CPU.java:424-437 | The arithmetic shift equals the logical shift on non-negative words, is the complement of the logical shift of the complement on negative ones, and keeps bit 15 |
| Isa.RotateLeftValue | src/CPU.java:438-447 | Left rotation by c moves the low 16-c bits up and the top c bits to the bottom |
| Isa.RotateRightValue | src/CPU.java:438-447 | Right rotation by c moves the top 16-c bits down and the low c bits to the top |
| Isa.RotateRoundTrip | src/CPU.java:438-447 | Rotating left by c then right by c gives back the word |
| Isa.ProductSplit | src/CPU.java:371-379 | The signed product fits an int, and the stored high half (signed) times 2^16 plus the low half is the product |
| Isa.HighHalf | src/CPU.java:376 | No contract of its own: `(result >> 16) & 0xFFFF`; Isa.ProductSplit recombines it with the low half |
| Isa.LowHalf | src/CPU.java:377 | No contract of its own: `result & 0xFFFF`; Isa.ProductSplit recombines it with the high half |
| Isa.TruncDiv | src/CPU.java:388 | No contract of its own: Java's `/`; Isa.TruncDivision and Isa.QuotientRange state the division identity and the range |
| Isa.TruncRem | src/CPU.java:389 | No contract of its own: Java's `%`; Isa.TruncDivision states its bound and sign |
| Isa.TruncDivision | src/CPU.java:380-391 | Java's quotient and remainder satisfy the division identity; the remainder is smaller than the divisor and signed like the dividend |
| Isa.QuotientRange | src/CPU.java:380-391 | For 16-bit operands the quotient is in 16 signed bits except -32768 / -1, and the remainder always is |
| Cpu.Reset | src/CPU.java:48-68 | Registers, GPRs, index registers and all memory are 0; no address hits; each line keeps its data word; the state is consistent |
| Cpu.PowerOn | src/CPU.java:37-43 | The constructed CPU is consistent with an empty cache and an empty console |
| Cpu.SetGpr | src/CPU.java:75-77 | The register receives `value & 0xFFFF`; nothing else changes |
| Cpu.SetIxr | src/CPU.java:83-87 | X1..X3 receive `value & 0xFFFF`; index 0 or out of range changes nothing |
| Cpu.ReadMem | src/CPU.java:112-132 | In range: answers the memory word, sets MAR/MBR, leaves the address cached, keeps MFR; out of range: MFR 1, answer 0, nothing else changes |
| Cpu.WriteMem | src/CPU.java:137-156 | In range: memory gets `value & 0xFFFF` at that address only, MAR/MBR set, the address cached; out of range: MFR 1 and nothing else |
| Cpu.EffectiveAddress | src/CPU.java:201-213 | The address field plus X1..X3 when ix names one; with i = 1, exactly one read of that address (0 when out of range) |
| Cpu.Step | src/CPU.java:229-485 | One instruction keeps the machine consistent (cache invariants and coherence); CpuProperties.FetchFault, FetchThenExecute and the per-opcode lemmas state its effect |
| Cpu.Execute | src/CPU.java:265-485 | Executing the switch keeps the machine consistent; each case's effect is stated by a CpuProperties lemma named in the rows below |
| Cpu.LoadStore | src/CPU.java:272-318 | LDR..SIR keep the machine consistent; their effects are CpuProperties.LoadFromMemory, StoreToMemory, LoadAddress, AddMemoryToRegister, SubtractMemoryFromRegister and AddImmediate |
| Cpu.AddImmediate | src/CPU.java:305-318 | AIR and SIR keep the machine consistent; CpuProperties.AddImmediate states the result |
| Cpu.LoadRegister | src/CPU.java:272-275 | Register r receives the word at the address (0 outside memory, with MFR 1); besides r only MAR, MBR, MFR and the cache change |
| Cpu.AddMemory | src/CPU.java:287-303 | Register r becomes r plus (AMR) or minus (SMR) the word at the address, modulo 2^16, 0 standing in outside memory with MFR 1; besides r only MAR, MBR, MFR and the cache change |
| Cpu.Transfer | src/CPU.java:319-370 | JZ..JGE keep the machine consistent; their effects are CpuProperties.ConditionalJump, CallSavesReturn, ReturnFromSubroutine and SubtractOneAndBranch |
| Cpu.SubtractOneAndBranch | src/CPU.java:355-363 | SOB keeps the machine consistent; CpuProperties.DecrementEffect states its effect |
| Cpu.Branch | src/CPU.java:358-361 | SOB's taken branch keeps the machine consistent; CpuProperties.SubtractOneAndBranch states where it jumps |
| Cpu.Jump | src/CPU.java:319-370 | The jumps other than RFS and SOB keep the machine consistent; CpuProperties.ConditionalJump and CallSavesReturn state their effects |
| Cpu.RegisterOp | src/CPU.java:371-418 | MLT..NOT keep the machine consistent; their effects are CpuProperties.MultiplySplitsProduct, DivideWritesQuotientAndRemainder, DivideByZeroFaults, TestSetsEqualBit and LogicalOps |
| Cpu.Trap | src/CPU.java:419-423 | TRAP sets MFR to 3 and PC to the word at address 0; besides them only MAR, MBR and the cache change |
| Cpu.ShiftRotate | src/CPU.java:424-447 | SRC and RRC keep the machine consistent; their effects are CpuProperties.ShiftRegister and RotateRegister |
| Cpu.IndexOp | src/CPU.java:448-457 | LDX and STX keep the machine consistent; their effects are CpuProperties.LoadIndexRegister and StoreIndexRegister |
| Cpu.InputOutput | src/CPU.java:458-478 | IN and OUT keep the machine consistent; their effect is CpuProperties.ConsoleTraffic |
| CpuUnit.CPU.constructor | src/CPU.java:37-43 | The object represents `PowerOn()` and is valid |
| CpuUnit.CPU.Reset | src/CPU.java:48-68 | The new state is `Cpu.Reset` of the old one |
| CpuUnit.CPU.ClearRegisterFiles | src/CPU.java:55-58 | All four GPRs and index-register slots become 0 |
| CpuUnit.CPU.ClearMemory | src/CPU.java:59-61 | Every memory word becomes 0 |
| CpuUnit.CPU.InvalidateLines | src/CPU.java:63-66 | Every line becomes invalid with tag -1, its data kept |
| CpuUnit.CPU.SetGPR | src/CPU.java:75-77 | The new state is `Cpu.SetGpr` of the old one |
| CpuUnit.CPU.SetIXR | src/CPU.java:83-87 | The new state is `Cpu.SetIxr` of the old one |
| CpuUnit.CPU.SetCC | src/CPU.java:94-101 | Only CC changes, to 8 on zero and 0 otherwise |
| CpuUnit.CPU.ReadMemory | src/CPU.java:112-132 | The new state and the answer are those of `Cpu.ReadMem`; the invariants hold |
| CpuUnit.CPU.WriteMemory | src/CPU.java:137-156 | The new state is `Cpu.WriteMem` of the old one; the invariants hold |
| CpuUnit.CPU.FindLine | src/CPU.java:120-126 | The loop finds the policy's `Lookup` index |
| CpuUnit.CPU.AddToCache | src/CPU.java:161-178 | On a miss, only the cache changes, to the policy's install |
| CpuUnit.CPU.CalculateEffectiveAddress | src/CPU.java:201-213 | The new state and the address are those of `Cpu.EffectiveAddress` |
| CpuUnit.CPU.ExecuteInstruction | src/CPU.java:229-485 | The new state and the outcome are those of `Cpu.Step`, whose per-opcode effects CpuProperties states; the invariants hold |
| CpuUnit.CPU.Dispatch | src/CPU.java:265-485 | The new state and the outcome are those of `Cpu.Execute`, whose per-opcode effects CpuProperties states |
| CpuUnit.CPU.ExecuteLoadStore | src/CPU.java:272-318 | The new state is `Cpu.LoadStore` of the old one (effects as in CpuProperties.LoadFromMemory..AddImmediate) |
| CpuUnit.CPU.ExecuteAddImmediate | src/CPU.java:305-318 | The new state is `Cpu.AddImmediate` of the old one |
| CpuUnit.CPU.ExecuteLoadRegister | src/CPU.java:272-276 | The new state is `Cpu.LoadRegister` of the old one |
| CpuUnit.CPU.ExecuteAddMemory | src/CPU.java:287-304 | The new state is `Cpu.AddMemory` of the old one: r plus or minus the word at the address, modulo 2^16 |
| CpuUnit.CPU.ExecuteTransfer | src/CPU.java:319-370 | The new state is `Cpu.Transfer` of the old one (effects as in CpuProperties.ConditionalJump, CallSavesReturn, ReturnFromSubroutine, SubtractOneAndBranch) |
| CpuUnit.CPU.ExecuteSubtractOneAndBranch | src/CPU.java:355-363 | The new state is `Cpu.SubtractOneAndBranch` of the old one |
| CpuUnit.CPU.ExecuteBranch | src/CPU.java:358-361 | The new state is `Cpu.Branch` of the old one |
| CpuUnit.CPU.ExecuteJump | src/CPU.java:319-370 | The new state is `Cpu.Jump` of the old one (effects as in CpuProperties.ConditionalJump and CallSavesReturn) |
| CpuUnit.CPU.ExecuteRegisterOp | src/CPU.java:371-418 | The new state and outcome are those of `Cpu.RegisterOp` (effects as in the MLT, DVD, TRR and LogicalOps lemmas of CpuProperties) |
| CpuUnit.CPU.ExecuteShiftRotate | src/CPU.java:424-447 | The new state is `Cpu.ShiftRotate` of the old one |
| CpuUnit.CPU.ExecuteIndexOp | src/CPU.java:448-457 | The new state is `Cpu.IndexOp` of the old one (effects as in CpuProperties.LoadIndexRegister and StoreIndexRegister) |
| CpuUnit.CPU.ExecuteInputOutput | src/CPU.java:458-478 | The new state is `Cpu.InputOutput` of the old one |
| CpuProperties.Fetched | src/CPU.java:235-236 | After the fetch, IR holds the word at PC, PC has advanced by one, MAR/MBR are set, and registers and memory are unchanged |
| CpuProperties.FetchFault | src/CPU.java:231-234 | A PC outside memory sets MFR to 1 and stops with nothing else changed |
| CpuProperties.FetchThenExecute | src/CPU.java:235-243 | Otherwise the step is the switch executed on the fetched machine |
| CpuProperties.EffectiveAddressOf | src/CPU.java:201-213 | The effective address is the address field plus X1..X3 when ix names one, or with I set the word there; only the access registers change, MFR 1 when that read is outside memory |
| CpuProperties.StopsExactlyWhen | src/CPU.java:229-485 | A step stops exactly for HLT, an opcode without a case, or DVD by zero, and overruns the register array exactly for MLT or DVD (non-zero divisor) with rx = 3 |
| CpuProperties.ExecuteOutcome | src/CPU.java:265-485 | The same characterisation of the outcome, for the switch alone |
| CpuProperties.HaltStops | src/CPU.java:269-271 | HLT stops and changes nothing |
| CpuProperties.IllegalOpcodeFaults | src/CPU.java:479-484 | An opcode without a case sets MFR to 4 and stops, nothing else changed |
| CpuProperties.DivideByZeroFaults | src/CPU.java:380-387 | DVD by zero makes CC exactly `CC | 4` (bit 1 as JCC reads it set, bits 0, 2 and 3 kept), sets MFR 2, stops, and changes nothing else |
| CpuProperties.OnlyStoresWriteMemory | src/CPU.java:265-485 | Only STR and STX change memory |
| CpuProperties.ReadAfterWrite | src/CPU.java:112-156 | A word written reads back masked to 16 bits, as a cache hit that leaves the cache as it was |
| CpuProperties.WriteLeavesOthers | src/CPU.java:112-156 | Writing one address leaves every other address reading as before |
| CpuProperties.IndexedIndirectLoad | src/CPU.java:201-213 | `LDR 0,1,5,1` with X1 = 3 and memory[8] = 42 loads memory[42] into R0 |
| CpuProperties.LoadFromMemory | src/CPU.java:272-276 | LDR loads r with the word at the effective address (0 with MFR 1 outside memory); besides r only the access registers change |
| CpuProperties.StoreToMemory | src/CPU.java:277-281 | STR writes r to memory at the effective address and only there; outside memory it writes nothing and sets MFR 1 |
| CpuProperties.LoadAddress | src/CPU.java:282-286 | LDA loads the effective address (indexed, and read through memory when I is set) masked into r; an indirect read outside memory sets MFR 1; with I clear nothing else changes |
| CpuProperties.AddMemoryToRegister | src/CPU.java:287-295 | AMR leaves r holding r plus the word at the effective address (indexed, indirect; 0 outside memory) modulo 2^16; besides r only the access registers change, MFR 1 on an out-of-range read |
| CpuProperties.SubtractMemoryFromRegister | src/CPU.java:296-304 | SMR leaves r holding r minus the word at the effective address modulo 2^16, with the same frame and MFR as AMR |
| CpuProperties.AddMemoryEffect | src/CPU.java:287-304 | After the effective address, `Cpu.AddMemory` leaves r plus or minus the word there modulo 2^16, only the access registers changing besides r, MFR 1 when a read is outside memory |
| CpuProperties.AddImmediate | src/CPU.java:305-318 | AIR/SIR add/subtract the signed immediate in [-16, 15] modulo 2^16 in register r; every other register and every other field keeps its value |
| CpuProperties.MultiplySplitsProduct | src/CPU.java:371-379 | MLT leaves the signed product split across rx and rx + 1; with rx = 3 only R3 changes and the step overruns the register array; every other register and every other field keeps its value |
| CpuProperties.DivideWritesQuotientAndRemainder | src/CPU.java:380-391 | DVD leaves Java's truncated quotient in rx (0x8000 for -32768 / -1) and the remainder in rx + 1, with the division identity; rx = 3 overruns the register array; every other register and every other field keeps its value |
| CpuProperties.TestSetsEqualBit | src/CPU.java:392-401 | TRR sets CC to 8 on equality and 0 otherwise, so bit 0 as JCC reads it is set exactly on equality |
| CpuProperties.LogicalOps | src/CPU.java:402-418 | AND and ORR set bit k of rx from bits k of rx and ry, NOT makes rx `0xFFFF - rx`; nothing else changes |
| CpuProperties.TrapJumpsThroughZero | src/CPU.java:419-423 | TRAP continues with MFR 3 and PC the word at address 0; registers, memory and CC are unchanged |
| CpuProperties.ConditionalJump | src/CPU.java:319-370 | JZ, JNE, JCC, JMA and JGE jump to the effective address exactly when r is zero, non-zero, CC bit 3 - r is set, always, or r is non-negative as signed; only PC and the access registers change |
| CpuProperties.CallSavesReturn | src/CPU.java:345-350 | JSR saves PC (already advanced) in R3 and jumps to the effective address; only R3, PC and the access registers change |
| CpuProperties.ReturnFromSubroutine | src/CPU.java:351-354 | RFS sets PC to R3 and changes nothing else |
| CpuProperties.JumpOnConditionCode | src/CPU.java:333-339 | Direct JCC jumps to the effective address exactly when CC bit 3 - r is set, and changes nothing else |
| CpuProperties.SubtractOneAndBranch | src/CPU.java:355-363 | SOB decrements r modulo 2^16 and, exactly when the signed result is positive or r was 0x8000, branches to the effective address (indexed, indirect), computed only then; nothing else changes |
| CpuProperties.DecrementTest | src/CPU.java:356-358 | The decremented register is positive as signed exactly when the old signed value exceeds 1 or was -32768 |
| CpuProperties.DecrementEffect | src/CPU.java:355-363 | `Cpu.SubtractOneAndBranch` decrements r modulo 2^16 and moves PC to the effective address exactly when the test passes; nothing else changes but the access registers |
| CpuProperties.CallThenReturn | src/CPU.java:345-354 | A JSR at PC, indexed or indirect, saves PC + 1 in R3 and jumps to its effective address; an RFS there returns to PC + 1 with the GPRs as JSR left them |
| CpuProperties.RotateThenRotateBack | src/CPU.java:438-447 | RRC left by c, then RRC right by c on the same register, restores every GPR |
| CpuProperties.RotateRegister | src/CPU.java:438-447 | RRC left moves the low 16 - c bits up and wraps the top c bits to the bottom, RRC right the reverse; only r changes |
| CpuProperties.ShiftRegister | src/CPU.java:424-437 | SRC: left shift masked to 16 bits, logical right shift, and an arithmetic right shift that keeps bit 15; only r changes |
| CpuProperties.LoadIndexRegister | src/CPU.java:448-452 | LDX loads X[ix] with the word at the unindexed, possibly indirect, effective address (0 with MFR 1 outside memory); ix = 0 loads nothing; besides X[ix] only the access registers change |
| CpuProperties.StoreIndexRegister | src/CPU.java:453-457 | STX writes X[ix] (slot 0 when ix = 0) to memory at the unindexed effective address and only there; outside memory it writes nothing and sets MFR 1 |
| CpuProperties.StoreThenLoad | src/CPU.java:272-281 | STR then LDR of the same direct address copies one register into another |
| CpuProperties.ConsoleTraffic | src/CPU.java:458-478 | OUT to device 1 logs the signed register; IN from device 0 stores the masked keyboard integer, or logs its absence; IN from any other device and OUT to any other device change nothing |
| Words.Unsigned32 | src/Assembler.java:194 | The unsigned reading of an int's 32 bits |
| JavaText.Trim | src/Assembler.java:94 | `trim` is empty exactly on all-blank input and otherwise starts and ends with non-blanks |
| JavaText.TrimCharacterised | src/Assembler.java:94 | `trim` is the slice between the leading and trailing blank runs |
| JavaText.TrimIdempotent | src/Assembler.java:103 | Trimming twice is trimming once |
| JavaText.IsBlank | src/Assembler.java:94 | No contract of its own: the characters `trim` removes, those up to U+0020; JavaText.TrimCharacterised uses it |
| JavaText.IsSpace | src/Assembler.java:118 | No contract of its own: the class `\s`; JavaText.SplitAtWhitespace splits at its runs |
| JavaText.IsWordChar | src/Assembler.java:107-110 | No contract of its own: the class `\w`; JavaText.LabelOf and LabelOfLabelled characterise labels by it |
| JavaText.MatchesLabelLine | src/Assembler.java:167 | No contract of its own: `matches("^(\\w+):.*")`; JavaText.LabelTestsAgree relates it to the label search |
| JavaText.IndexOf | src/Assembler.java:102-103 | `indexOf` is the first occurrence, or the length when there is none |
| JavaText.ToUpper | src/Assembler.java:119 | `toUpperCase` keeps the length and maps each ASCII lower-case letter to upper case, leaving other characters |
| JavaText.UpperChar | src/Assembler.java:119 | An ASCII lower-case letter moves down by 32 to its capital; every other character is kept |
| JavaText.LabelOf | src/Assembler.java:107-110 | A `^(\w+):` match is a non-empty run of word characters followed by `:` at the start |
| JavaText.LabelOfLabelled | src/Assembler.java:107-110 | Every such run followed by `:` is found as the label |
| JavaText.LabelTestsAgree | src/Assembler.java:167-168 | On a scanner line, `matches("^(\\w+):.*")` holds exactly when the label search finds one, and the first `:` ends it |
| JavaText.SplitAtWhitespace | src/Assembler.java:118 | `split("\\s+", 2)` gives one part (the string, when it has no whitespace) or two, the first without whitespace |
| JavaText.SplitAtWhitespaceJoins | src/Assembler.java:118 | The two parts and the whitespace run between them make up the string |
| JavaText.JoinSplitOn | src/Assembler.java:200 | Splitting at a character and joining again gives back the string |
| JavaText.SplitOnJoin | src/Assembler.java:200 | Joining pieces free of the character and splitting again gives back the pieces |
| JavaText.SplitComma | src/Assembler.java:200 | `split(",")` drops trailing empty pieces, and no piece holds a comma |
| JavaText.SplitOn | src/Assembler.java:200 | The pieces between occurrences of a character, at least one, none holding it |
| JavaText.DropTrailingEmpty | src/Assembler.java:200 | A prefix of the pieces that ends in a non-empty piece, everything dropped being empty |
| JavaText.ParseInt | src/Assembler.java:122 | `parseInt` fails on the empty string; JavaText.ParseDecimalText shows every int parses back from its decimal text |
| JavaText.ParseDecimalText | src/Assembler.java:122 | Every int parses back from its decimal text |
| JavaText.ToBinaryString | src/Assembler.java:194 | `toBinaryString` is binary digits worth the unsigned reading of the int |
| JavaText.ToBinaryStringLength | src/Assembler.java:194 | Values in 0..65535 take at most 16 digits and negative values take 32 |
| JavaText.Numeral | src/Assembler.java:194 | At least one digit in the base, worth n, without a leading zero |
| JavaText.PadLeft | src/Assembler.java:213-214 | `%Ns` has the string's length when it is at least N wide, and width N otherwise |
| JavaText.SpacesToZeros | src/Assembler.java:213-214 | `replace(' ', '0')` keeps the length, turns each space into '0' and keeps every other character |
| JavaText.ZeroFill | src/Assembler.java:213-214 | No contract of its own: `%Ns` then `replace(' ', '0')`; JavaText.ZeroFillValue states its value and width |
| JavaText.ZeroFillValue | src/Assembler.java:213-214 | `%Ns` with spaces made zeros keeps a binary numeral's value and pads it to N digits |
| JavaText.Octal6 | src/Assembler.java:243-244 | `%06o` gives at least six octal digits worth the unsigned reading |
| Assembler.OpcodesAreBinary | src/Assembler.java:60-80 | Every opcode in the table is a string of binary digits |
| Assembler.Next | src/Assembler.java:125 | The counter's `++` adds one, wrapping from the largest int to the smallest |
| Assembler.Statement | src/Assembler.java:94-104 | No statement exactly for blank lines and lines starting with `;`; otherwise a non-empty text without `;`, starting and ending with non-blanks |
| Assembler.Pass1Label | src/Assembler.java:107-114 | No contract of its own: the `^(\w+):` label and the trimmed rest; AssemblerProperties.LabelStripped and LabelledStatement state what it finds |
| Assembler.Pass2Body | src/Assembler.java:166-169 | No contract of its own: the rest after `matches` and `indexOf(':')`; AssemblerProperties.LabelledStatement shows it is the rest Pass 1 finds |
| Assembler.Operation | src/Assembler.java:118-119 | No contract of its own: the upper-cased first part; AssemblerProperties.SimpleStatement states it on `op text` |
| Assembler.Pass1Classify | src/Assembler.java:94-127 | No contract of its own: what Pass 1 reads from a raw line; AssemblerProperties.SkippedLine, CommentIgnored and ClassifyAgree state it |
| Assembler.Pass1Statement | src/Assembler.java:107-127 | No contract of its own: the label and the rest's effect; AssemblerProperties.LabelledStatement and UnlabelledRest state it |
| Assembler.Pass1Effect | src/Assembler.java:117-127 | No contract of its own: empty, LOC or advance; AssemblerProperties.InstructionAdvancesCounter, LocSetsCounter and EffectsAgree state it |
| Assembler.LocCounter | src/Assembler.java:121-122 | No contract of its own: `parseInt(parts[1])`, a fault when it is missing or not an int; AssemblerProperties.LocOperand reads a numeral back |
| Assembler.Pass1Apply | src/Assembler.java:107-127 | No contract of its own: the label put at the counter, then the counter move; AssemblerRuns.LatestDefinitionWins and UndefinedLabelKept state it |
| Assembler.Pass1Run | src/Assembler.java:93-128 | No contract of its own: the loop as a fold; AssemblerRuns.FaultStops, Pass1RunAppend and NoFaultInPrefix state it |
| Assembler.Pass1Lines | src/Assembler.java:88-130 | No contract of its own: Pass 1 from counter 0; Assembler.Assembler.PerformPass1 is proved equal to it and AssemblerRuns.LabelAddress states its labels |
| Assembler.Field | src/Assembler.java:213-214 | An operand field is binary digits at least the field width long, or the NotANumber fault when the trimmed operand is not an int |
| Assembler.IndirectBit | src/Assembler.java:216-228 | The indirect bit is "1" exactly when there is one operand past the fields and it trims to "1" |
| Assembler.Layout | src/Assembler.java:231 | The five fields side by side are binary digits led by the opcode |
| Assembler.InstructionCode | src/Assembler.java:200-231 | The instruction bits, when they exist, are binary digits led by the opcode and at least 16 long; otherwise the fault is NotANumber |
| Assembler.DataCode | src/Assembler.java:184-194 | DATA's bits, when they exist, are at least 16 binary digits; otherwise the fault is NotANumber |
| Assembler.DataBits | src/Assembler.java:194 | `%16s` of `toBinaryString` zero-filled: at least 16 binary digits worth the unsigned value |
| Assembler.MachineCode | src/Assembler.java:182-232 | The bits are binary and empty exactly for an operation that is not DATA, HLT or in the table |
| Assembler.Fit16 | src/Assembler.java:236-239 | The code becomes exactly 16 digits: its value when it was short, its top 16 digits when it was long |
| Assembler.WordOf | src/Assembler.java:242 | `parseInt(bits, 2)` of 16 binary digits is their value |
| Assembler.Pass2Apply | src/Assembler.java:236-259 | A word is emitted exactly for an emitting line: at the counter, with the listing line, and the counter advances; other lines are listed behind three tabs; LOC sets the counter |
| Assembler.Pass2Classify | src/Assembler.java:150-232 | No contract of its own: what Pass 2 makes of a raw line; AssemblerProperties.SkippedLine, CommentIgnored and ClassifyAgree state it |
| Assembler.Pass2Parts | src/Assembler.java:171-232 | No contract of its own: LOC or the machine code of a statement body; AssemblerProperties.EffectsAgree and AssemblerEncoding.EncodeInstruction state it |
| Assembler.TabbedLine | src/Assembler.java:155-158 | No contract of its own: `"\t\t\t" + line + "\n"`; AssemblerRuns.Pass2TabbedLines states where it appears |
| Assembler.LoadLine | src/Assembler.java:250-252 | No contract of its own: `%06o\t%06o\n`; AssemblerRuns.Pass2LoadInStep ties each load line to its word |
| Assembler.ListingLine | src/Assembler.java:246-248 | No contract of its own: `%s\t%s\t%s\n`; Assembler.Pass2Apply states when it is written |
| Assembler.Append | src/Assembler.java:243-258 | No contract of its own: one line's output added; AssemblerRuns.AppendKeeps states what it keeps and adds |
| Assembler.Pass2Run | src/Assembler.java:150-260 | No contract of its own: the loop as a fold; AssemblerRuns.Pass2KeepsPrefix, Pass2Succeeds and Pass2FirstFault state it |
| Assembler.Pass2Lines | src/Assembler.java:148-260 | No contract of its own: Pass 2 from counter 0; Assembler.Assembler.PerformPass2 is proved equal to it |
| Assembler.AssembleSource | src/Assembler.java:29-44 | No contract of its own: table setup, Pass 1, then Pass 2 with its labels; Assembler.Assembler.Assemble and AssemblerRuns.AssembleAfterPass1 state it |
| Assembler.Assembler.constructor | src/Assembler.java:12-15 | Both static tables start empty |
| Assembler.Assembler.InitializeOpcodeTable | src/Assembler.java:60-80 | The opcode table becomes the eighteen-entry table; the symbol table is untouched |
| Assembler.Assembler.PerformPass1 | src/Assembler.java:88-130 | The loop leaves the symbol table and the fault that the Pass 1 fold gives, and keeps the opcode table |
| Assembler.Assembler.PerformPass2 | src/Assembler.java:142-265 | The loop's result is the Pass 2 fold over the lines against both tables |
| Assembler.Assembler.Assemble | src/Assembler.java:29-44 | From empty tables, the run is table setup, Pass 1, then Pass 2 with Pass 1's labels |
| AssemblerProperties.SkippedLine | src/Assembler.java:97-99 | A blank or `;` line changes nothing in Pass 1 and is only listed by Pass 2 |
| AssemblerProperties.CommentIgnored | src/Assembler.java:101-104 | Everything from the first `;` on is ignored by both passes |
| AssemblerProperties.StatementIgnoresComment | src/Assembler.java:101-104 | A trailing comment does not change a line's statement |
| AssemblerProperties.TrimAfterLeadingBlanks | src/Assembler.java:103 | Leading blanks do not change the trim |
| AssemblerProperties.SimpleStatement | src/Assembler.java:94-119 | `op text` is its own statement, has no label, splits into `op` and `text`, and is upper case |
| AssemblerProperties.CleanStatement | src/Assembler.java:94-104 | A line without `;` that starts and ends with non-blanks is its own statement |
| AssemblerProperties.SplitAtSingleSpace | src/Assembler.java:118 | One space between a word and a text splits there |
| AssemblerProperties.InstructionAdvancesCounter | src/Assembler.java:123-126 | Any mnemonic other than LOC moves Pass 1's counter on by one and defines no label |
| AssemblerProperties.LocSetsCounter | src/Assembler.java:121-122 | `LOC n` sets Pass 1's counter to n, and Pass 2 reads it as the same new counter |
| AssemblerProperties.LocOperand | src/Assembler.java:175-176 | The numeral after LOC reads back as n |
| AssemblerProperties.LabelStripped | src/Assembler.java:107-114 | `name:rest` defines name at the current counter, and the rest has the effect it has on a line of its own, in both passes |
| AssemblerProperties.LabelledStatement | src/Assembler.java:107-114 | Both passes find the label of `name:rest` and go on with the trimmed rest |
| AssemblerProperties.UnlabelledRest | src/Assembler.java:117-119 | A line without `;` or label is classified through its trimmed text by either pass |
| AssemblerProperties.LabelOnlyLine | src/Assembler.java:107-127 | A line holding only `name:` defines the label at the counter, leaves the counter alone, and is only listed by Pass 2 |
| AssemblerProperties.ScannerStatement | src/Assembler.java:94-104 | A scanner line's statement holds no line terminator either |
| AssemblerProperties.EffectsAgree | src/Assembler.java:117-127 | On a statement body, a Pass 1 fault is Pass 2's fault, Pass 2's counter move agrees with Pass 1's, and they disagree exactly on an operation outside LOC, DATA, HLT and the table |
| AssemblerProperties.ClassifyAgree | src/Assembler.java:172-232 | On a whole scanner line, the two passes agree in the same way |
| AssemblerProperties.HaltEmitsZero | src/Assembler.java:196-197 | HLT emits the word 0 whatever its operands |
| AssemblerRuns.FaultStops | src/Assembler.java:122 | Once a fault is recorded the remaining lines change nothing |
| AssemblerRuns.Pass1RunAppend | src/Assembler.java:93-128 | Running two stretches of lines one after the other is running them together |
| AssemblerRuns.NoFaultInPrefix | src/Assembler.java:93-128 | A fault-free run had no fault after any of its first k lines |
| AssemblerRuns.UndefinedLabelKept | src/Assembler.java:109-111 | Lines that do not define a name leave its entry as it was, present or absent |
| AssemblerRuns.LatestDefinitionWins | src/Assembler.java:109-111 | A label maps to the counter in front of its last definition: later definitions overwrite earlier ones |
| AssemblerRuns.LabelAddress | src/Assembler.java:88-130 | Over a source, Pass 1 maps a label to its counter at the line that last defines it |
| AssemblerRuns.AppendKeeps | src/Assembler.java:243-258 | One line adds one listing line and at most one word and load line, keeping the earlier output |
| AssemblerRuns.Pass2KeepsPrefix | src/Assembler.java:150-260 | A successful run keeps the earlier output and adds exactly one listing line per source line |
| AssemblerRuns.Pass2LoadInStep | src/Assembler.java:243-252 | Every load line is the load text of the word beside it |
| AssemblerRuns.Pass2TabbedLines | src/Assembler.java:155-158 | Every line that emits nothing is listed as three tabs and the line as written |
| AssemblerRuns.Pass2Succeeds | src/Assembler.java:150-260 | Pass 2 succeeds when every line is read without a fault |
| AssemblerRuns.Pass2FirstFault | src/Assembler.java:150-260 | Pass 2 ends with the fault of the first line that has one |
| AssemblerRuns.AgreeStep | src/Assembler.java:175-179 | An agreeing line moves both counters alike and places its word at that counter |
| AssemblerRuns.CountersAgree | src/Assembler.java:175-256 | When every line agrees, Pass 1 has no fault, Pass 2 succeeds, both end on the same counter, and every word is at Pass 1's counter for its line |
| AssemblerRuns.PlacedAt | src/Assembler.java:236-256 | The word of line k is at Pass 1's counter after the k lines in front of it |
| AssemblerRuns.LabelledWordPlaced | src/Assembler.java:107-114 | When every line agrees, a labelled line's word sits at the label's final address unless a later line redefines it |
| AssemblerRuns.LabelMarksItsWord | src/Assembler.java:29-44 | Over a source whose lines agree, the assembly succeeds and a labelled line's word sits at the address Pass 1 gave the label |
| AssemblerRuns.AssembleAfterPass1 | src/Assembler.java:35-44 | Without a Pass 1 fault, the assembly is Pass 2 against Pass 1's labels |
| AssemblerRuns.UnknownMnemonicShiftsLabels | src/Assembler.java:123-126 | After a line with an unknown mnemonic, `name: HLT` gets address 1 while its word 0 is emitted at address 0 |
| AssemblerRuns.ShiftedPass1 | src/Assembler.java:117-127 | Pass 1 over those two lines ends at 2 with name at 1 |
| AssemblerRuns.ShiftedPass2 | src/Assembler.java:236-259 | Pass 2 over them emits only the word 0, at address 0 |
| AssemblerRuns.UnknownLine1 | src/Assembler.java:123-126 | An unknown mnemonic advances Pass 1's counter |
| AssemblerRuns.UnknownLine2 | src/Assembler.java:257-259 | An unknown mnemonic is only listed by Pass 2 |
| AssemblerRuns.HaltLine1 | src/Assembler.java:107-127 | `name: HLT` defines name where it stands and advances Pass 1's counter |
| AssemblerRuns.HaltLine2 | src/Assembler.java:196-197 | Pass 2 emits 0 for `name: HLT` |
| AssemblerEncoding.FieldOfText | src/Assembler.java:213-214 | A field is read exactly when its trimmed text is an int, and then holds that int's unsigned value |
| AssemblerEncoding.FieldOfNumber | src/Assembler.java:222-224 | The decimal text of a value below 2^w gives exactly w digits holding the value |
| AssemblerEncoding.LayoutValue | src/Assembler.java:231 | The five fields side by side are worth opcode·1024 + r·256 + ix·64 + i·32 + address |
| AssemblerEncoding.SplitCommaJoin | src/Assembler.java:200 | Comma-free operands joined with commas split back into themselves, unless the last of several is empty |
| AssemblerEncoding.JoinedOperands | src/Assembler.java:200 | Operand texts joined with commas are an operand text |
| AssemblerEncoding.TableShape | src/Assembler.java:60-80 | Every table mnemonic but HLT is an upper-case mnemonic with a six-digit binary opcode |
| AssemblerEncoding.IndirectOperand | src/Assembler.java:216-228 | The indirect bit is 1 exactly when the extra operand "1" is there |
| AssemblerEncoding.RegisterFormBits | src/Assembler.java:220-231 | `r,ix,address[,1]` with fields in range gives 16 digits worth the instruction word of those fields |
| AssemblerEncoding.IndexFormBits | src/Assembler.java:210-218 | LDX/STX `x,address[,1]` gives 16 digits worth the instruction word with r = 0 and ix = x |
| AssemblerEncoding.ShortOperandList | src/Assembler.java:203-207 | With too few operands r, ix, i and address stay zero |
| AssemblerEncoding.SixteenDigits | src/Assembler.java:236-242 | Sixteen digits of code are emitted as their value |
| AssemblerEncoding.EncodeInstruction | src/Assembler.java:198-242 | A table instruction with `r,ix,address[,1]` in range emits its instruction word |
| AssemblerEncoding.EncodeIndexInstruction | src/Assembler.java:210-242 | LDX/STX with `x,address[,1]` in range emits the instruction word with r = 0 |
| AssemblerEncoding.TableCode | src/Assembler.java:198-242 | An instruction whose code has 16 digits emits the value of that code |
| AssemblerEncoding.EncodeInstructionLine | src/Assembler.java:150-242 | The source line `op r,ix,address[,1]` emits its instruction word |
| AssemblerEncoding.DataInRange | src/Assembler.java:190-194 | `DATA v` for a number 0 ≤ v < 65536 emits v |
| AssemblerEncoding.DataLabel | src/Assembler.java:187-189 | `DATA name` for a label emits the label's address |
| AssemblerEncoding.DataNegative | src/Assembler.java:192-194 | `DATA v` for a negative v emits 65536 + v / 65536, which is 0xFFFF for v ≥ -65536 |
| AssemblerEncoding.DataSeventeenDigits | src/Assembler.java:236-238 | `DATA v` for 65536 ≤ v ≤ 131071 emits v / 2 |
| AssemblerEncoding.DataNumberWord | src/Assembler.java:190-242 | `DATA v` emits v's binary digits cut or filled to sixteen |
| AssemblerEncoding.DataFaults | src/Assembler.java:185-192 | DATA without an operand, or with one that is neither a label nor a number, is a fault |
| AssemblerEncoding.InstructionNeedsOperands | src/Assembler.java:200 | A table instruction without operands is the MissingOperand fault |
| Toolchain.InstructionDecodes | src/CPU.java:239-243 | The CPU's shifts and masks read back every field of the instruction format |
| Toolchain.AssembledOpcode | src/Assembler.java:231 | Whatever its operands, an assembled instruction carries the table's opcode in bits 15..10 |
| Toolchain.TableImplemented | src/Assembler.java:60-76 | Every table opcode but LDX and STX has a case in the CPU's switch |
| Toolchain.IndexOpcodesUnimplemented | src/Assembler.java:77-78 | LDX and STX assemble to opcodes 33 and 34, which have no case in the CPU's switch |
| Toolchain.AssembledLineDecodes | src/CPU.java:239-243 | A word assembled from `op r,ix,address[,1]` decodes to the table's opcode and exactly those fields |
| Toolchain.InstructionLineEmits | src/Assembler.java:198-232 | Every such line of a table instruction other than HLT, LDX and STX is assembled to a word |
| Toolchain.AssembledInstructionContinues | src/CPU.java:229-485 | The CPU steps over such an assembled instruction without stopping (an out-of-range read may still set MFR to 1) |
| Toolchain.TableOpcodeNotALU | src/Assembler.java:61-76 | No table opcode other than HLT is 0, 20 or 21 |
| Toolchain.AssembledIndexInstructionFaults | src/CPU.java:479-484 | Executing any word assembled for LDX or STX sets MFR to 4 and stops |
| Toolchain.AssembledHaltStops | src/CPU.java:269-271 | The word assembled for HLT stops the CPU with nothing changed |

## Left out

- `src/SimulatorGUI.java` is not part of this model: the Swing interface, its run loop and its program loader.
- The display helpers `getCacheContents` and `getCacheStateForGUI` only format text for the screen.
- The getters `getGPR` and `getIXR` are plain field reads of the class.
- The assembler's `main` is not modelled: argument handling, file names, `Scanner` and `FileWriter`, and the progress `printf`. The passes run over a sequence of lines that hold no line terminators, and they return the load and listing lines as sequences.
- IN and OUT are modelled without their dialogs. The keyboard entry is an `Option<int>` parameter, and the console text area is a log of what was printed.
- The `Cache` class's pointer back to the CPU is replaced by a memory array passed to each call.
- A Java exception becomes a result, not a thrown exception:
  - a `NumberFormatException`, or a missing `parts[1]`, becomes a `Fault` that ends the pass;
  - MLT or DVD with rx = 3 indexes the register array past its end; the model returns the outcome `OutOfBounds` with the state the write to R3 left.
- Assembler.Assembler.PerformPass2: a fault returns only the fault. In the source the exception leaves `performPass2` before its `close()` calls, so the output files hold only what the unclosed `FileWriter`s had already passed on; which lines that is depends on their buffering, which the model does not describe.
- Assembler.Assembler.InitializeOpcodeTable: requires an empty table. The source is only ever called on a fresh table.
- Assembler.Assembler.PerformPass2: requires the opcode table to be binary, which the table `InitializeOpcodeTable` builds is (`Assembler.OpcodesAreBinary`).
- AssemblerProperties.LabelStripped: requires that the opcode table does not hold the empty mnemonic. The assembler's own table does not.
- The same requirement applies to AssemblerProperties.UnlabelledRest, AssemblerProperties.EffectsAgree, AssemblerProperties.ClassifyAgree and AssemblerProperties.LabelOnlyLine.
- `toUpperCase`, `trim`, `\s`, `\w` and `parseInt` are modelled on their ASCII behaviour. Locale and Unicode case mapping are not modelled, and `parseInt` accepts only the digits '0'..'9', not the other Unicode decimal digits Java's `parseInt` also accepts.
- AssemblerEncoding.RegisterFormBits: an operand wider than its field is encoded as written in the model, shifting the fields after it, but no lemma describes the resulting word. The same holds for AssemblerEncoding.IndexFormBits and AssemblerEncoding.EncodeInstruction.
- Cpu.Step: its own contract states only that the machine stays consistent. What each opcode does is stated by the lemmas of `CpuProperties`, one or more per case of the `switch`. The same holds for Cpu.Execute, Cpu.LoadStore, Cpu.AddImmediate, Cpu.Transfer, Cpu.SubtractOneAndBranch, Cpu.Branch, Cpu.Jump, Cpu.RegisterOp, Cpu.ShiftRotate, Cpu.IndexOp and Cpu.InputOutput.
