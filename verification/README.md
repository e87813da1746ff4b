# urv86t: a verified model

A model of the urv86t RISC-V emulator, RV32IM with the floating-point loads, stores and moves, in Dafny 4.11.
It covers the decoder, the step machine, the segmented memory, the program break, the breakpoint slots and the
image loader, up to the program's main loop. Verify it with `dafny verify dfyconfig.toml`.

## What is proved

**Whole runs.** `isa.dfy` defines a machine from the RISC-V Instruction Set Manual, Volume I (version 20191213):
x0 hard-wired to zero, one flat map of bytes, instructions recognised by their encodings, signed immediates, the
manual's own laws for shifts, bitwise operations, products and division. The emulator instead clears `regs[0]` at
the start of a step, decodes bit-fields, works in wrapping 32- and 64-bit C arithmetic and searches a table of
separately allocated regions. `Refinement.StepRefines` shows that the two agree on every step that conforms and,
where no two address ranges overlap, on no other; `Runs.RunRefines`, `Runs.LockstepExactly` and `Runs.SessionRefines`
carry this to runs of any length, with any steps the user takes at the breakpoint prompt. A step conforms when

- one region is the first to cover all bytes of each access, or the access's first byte is unmapped (only the first
  byte is range-checked); for a load into x0 the first region to cover its first byte need only hold its last;
- the instruction is not a fence, which suspends or stops the emulator;
- DIV and REM do not divide by zero or overflow, and DIVU and REMU do not divide by zero;
- MULHSU has a non-negative rs1 or a zero rs2, and MULH has two non-negative operands, or a zero operand, or
  two operands 0x80000000 (both multiply zero-extended operands); a wrong but defined product written to x0 is harmless.

Nothing is asked of the region table: ranges may overlap or overflow. Where they overlap the condition is still exact
for each instruction (`Contents.ExecExactly`): it agrees for all contents of the memory blocks only if it conforms. `Program.ProgramRefines` starts such a run from
any image with a .bss section that the loader built.

**Decoder.** Decoding inverts the manual's encodings (`DecodeEncode`); every accepted word can be rebuilt from its
record (`RebuildDecode`), so decoding is injective up to bits 25 and 26 of the fused multiply-add words; and
`TakesExactly` says which words count as RV32IM: the legal encodings with all fences but one left out, and also JALR
words with a reserved funct3.
`TakesFloatExactly` and `TakesFloatMovesExactly` do so for the F and D register operations and for the float loads,
stores and moves.

**Memory, break, breakpoints, loader, floats.** See the table.

## How it is laid out

Every C width is a subset type of `int` with wrap-around written out (`words.dfy`). Pure tables and bit
expressions are functions. Objects whose methods update fields are classes over arrays (`Breakpoints.Table`,
`ElfContexts.ElfContext`, `RvStates.RvState`), each method proved to take the old value to the one its
specification function gives; the theorems are about those functions.

| file | contents |
|---|---|
| `words.dfy`, `fields.dfy` | words, bitwise operators, bit-field layouts |
| `insns.dfy`, `decoder.dfy` | decoded records, the decoder |
| `encoding.dfy`, `roundtrip.dfy`, `rebuild.dfy`, `acceptance.dfy`, `float_encoding.dfy`, `float_acceptance.dfy` | encodings and decoder theorems |
| `alu.dfy`, `operations.dfy` | C's arithmetic, the manual's, and where they agree |
| `memory.dfy`, `brk.dfy`, `elf_context.dfy`, `loader.dfy` | region table, program break, loading |
| `breakpoints.dfy` | breakpoint slots |
| `emulator.dfy`, `rvstate.dfy` | the step as a function, and in place |
| `isa.dfy`, `refinement.dfy`, `contents.dfy`, `frame.dfy`, `runs.dfy`, `program.dfy` | the architectural machine, refinement, whole runs |
| `synthesis.dfy`, `floats.dfy` | instruction pairs |
| `float_steps.dfy` | steps over the F and D operations |

Outcomes: `Running` and `Stopped` are a step returning true and false, `Fatal` is a trap of the process, and
`Unspecified` is undefined behaviour in C. Hosts are taken to be little-endian, with GCC's arithmetic right shift and
modular narrowing. Parameters stand for the host's replies to `write` and `fstat`, for the bits its floating-point unit
computes, for the host addresses of allocated blocks, and for what the user does at the breakpoint prompt.

## Findings

- MULH and MULHSU zero-extend both operands, since registers are unsigned, and so differ from section 7.1 of the
  manual outside the conditions above (`Operations.MulhAgrees`, `MulhsuAgrees`; at 0x80000000 times 1, `MulhWitness`,
  `MulhsuWitness`); MULH overflows a signed 64-bit product, which is undefined, from 2^63 on.
- JALR ignores funct3. SLLI words with a nonzero funct7 fall into `__builtin_unreachable`. Decoding a CSR
  instruction aborts the process (`Acceptance.TakesExactly`, `AbnormalVerdicts`; words 0x00001067, 0x02001013 and
  0x00001073, `ReservedWitness`).
- Of the fences, which the manual gives every base implementation, only FENCE IORW, IORW is accepted, and it suspends
  the emulator; all others stop it (`RoundTrip.DecodeEncode`, `Frame.FenceStops`; FENCE RW, RW 0x0330000F,
  `Acceptance.FenceWitness`). No running step over a fence agrees with the manual (`Refinement.ExecFenceExact`).
- FMV.X.D, FMV.D.X, and FMV.W.X with a nonzero funct3 are taken for the single-precision moves
  (`FloatAcceptance.TakesFloatExactly`; words 0xE2000053 and 0xF2000053, `ReservedMoveWitness`).
- Words with the reserved rounding modes 5 and 6 are accepted (`FloatAcceptance.TakesFloatExactly`,
  `TakesFusedExactly`; FADD.S 0x00005053, `RoundingWitness`).
- Conversions from signed and from unsigned integers decode to one type, and no other two operations do; the record
  still tells them apart (`FloatEncoding.TypeTellsOperation`; words 0xD0000053 and 0xD0100053, `ConversionWitness`).
- The dispatcher looks for a format code in `funct`, where the decoder puts funct7 and funct3. Only FADD.S words with
  rounding mode 2 or 3 show it one (`FloatSteps.FormatCodesReached`), mode 3 being computed in double precision;
  minimum, maximum and comparisons write nothing, and most other F and D arithmetic is undefined
  (`FloatSteps.FloatStep`; FADD.D 0x02000053 and FEQ.S 0xA00020D3, `FormatWitness`). Fused operations take their
  format from the rounding mode (`FusedStep`).
- A region whose end overflows 32 bits covers no address (`Memory.WrappedCoversNothing`; a byte at 0xFFFFFFFF,
  `WrapWitness`), and a heap whose end overflows rejects every request (`ProgramBreak.RejectsAllExactly`).
- Where ranges overlap, an access reads and writes the block of the first region to cover its first byte, whatever
  region covers the later addresses. It does what flat memory does for all contents of the blocks if and only if that
  region is the first to cover all its bytes (`Memory.LoadFlatExactly`, `StoreFlatExactly`; a loaded image with two
  overlapping segments, `Loader.OverlapWitness`).
- A breakpoint hit below which another is reported at the same instruction is lost, the next check clearing it
  (`Breakpoints.CheckThenPoll`; two one-shots at one pc, `LostHitWitness`).
- The program-header loop's messages speak of LOAD segments; it selects by memory size, not by type
  (`Loader.TakesLoadSegments`; a note segment, `TakenWitness`), and its extent test adds in 32 bits
  (`Loader.ExtentTest`; offset 0xFFFFFFFF in an empty file, `TakenWitness`).

## Model

| member | source | states |
|---|---|---|
| Runs.RunRefines | src/emu.c:77-91 | a run of any length over RV32IM instructions whose steps all conform ends in the architectural machine's pc, registers, memory, break and halting state, or traps where that machine faults |
| Runs.LockstepExactly | src/emu.c:77-91 | the two machines agree after every step of a run whose steps conform and, where no two ranges overlap, only then |
| Runs.SessionRefines | src/main.c:159-167 | a session of the main loop, with any steps taken at the breakpoint prompt, ends as the architectural machine does under the same calls |
| Runs.QuietSessionRefines | src/main.c:159-167 | a session without steps at the prompt ends as the plain architectural run does |
| Runs.PromptsBounded | src/main.c:159-167 | when all breakpoints in use are one-shot the prompt opens at most once for each |
| Runs.ArmedPrompts | src/main.c:145-167 | with one one-shot on a pc the prompt opens exactly once, after a dispatch there, if the main loop ever dispatches there, and otherwise never |
| Runs.CallsRefine | src/main.c:58-87 | so does every interleaving of polled and bare steps, halted ones included |
| Runs.SessionIsCalls | src/main.c:159-167 | a session is the interleaving in which the prompt opens at each reported breakpoint |
| Runs.SessionTurn | src/main.c:159-167 | a turn whose step leaves a triggered slot in use continues with the user's steps, one whose step leaves none continues as it is whatever the user would do, and one whose step does not go on ends the session |
| Runs.RunIgnoresSlots | src/emu.c:77-91 | the breakpoint slots a run starts with change nothing but the slots it ends with |
| Runs.RunFrame | src/emu.c:77-91 | any run, going on or stopped, keeps the region layout, so the mapped addresses, keeps the table well formed, and keeps pc even from an even entry |
| Runs.StoppedForever | src/emu.c:77-91 | after a step returned false any number of further steps changes nothing |
| Refinement.StepRefines | src/emu.c:77-91 | one step agrees with the manual's machine if it conforms and, where no two ranges overlap, only if |
| Refinement.StepFromExact | src/emu.c:27-34 | the same for a state with x0 cleared, from the fetched word on |
| Refinement.ExecExact | src/dispatch.c:67-332 | executing each legal instruction agrees with the manual where its operands and accesses conform, and only there, given ranges that do not overlap if it accesses memory |
| Contents.ExecExactly | src/dispatch.c:67-332 | for any region table, overlapping or not, each legal instruction agrees with the manual for all contents of the blocks if and only if it conforms |
| Refinement.ExecOp | src/dispatch.c:77-118 | a register-register instruction agrees exactly on conforming operands, a discarded wrong product included |
| Refinement.ImmAgrees | src/dispatch.c:119-136 | immediate arithmetic on the two's-complement immediate is the manual's on the signed one |
| Refinement.ShiftAgrees | src/dispatch.c:122-144 | immediate shifts move bits as the manual says, whatever bit 10 of the immediate holds |
| Refinement.ExecBranchExact | src/dispatch.c:187-236 | branches are taken on the manual's conditions to pc plus the signed offset modulo 2^32 |
| Refinement.ExecJalr | src/dispatch.c:245-254 | JALR reads its base before writing the link, also when they are the same register, and clears bit 0 of the target |
| Refinement.ExecFenceExact | src/dispatch.c:271-276 | a fence never agrees with the manual's unless the emulator is suspended already |
| Refinement.LoadValueAgrees | src/dispatch.c:153-172 | C's conversion from the loaded type copies or clears the upper bits as sign or zero extension demands |
| Refinement.ExecLoadExact | src/dispatch.c:153-172 | loads read the flat memory's bytes when one region first covers them all, and trap when unmapped; without overlap there is no other agreement |
| Refinement.ExecStoreExact | src/dispatch.c:173-184 | stores write the low bytes of rs2 to the flat memory when one region first covers them all; without overlap there is no other agreement |
| Refinement.StoreAgrees | src/emu.c:36-43 | a store through the table changes the flat memory at its bytes only, and no break |
| Refinement.SyscallAgrees | src/dispatch.c:8-57 | each system call does what the environment's specification says, fstat on condition that its buffer lies inside one region |
| Refinement.BrkAgrees | src/syscall.c:36-48 | the wrapped size arithmetic is a move of an absolute break within its limits |
| Refinement.AbsSetReg | src/emu.c:51-61 | writing any register, x0 included, is the hard-wired machine's write |
| Frame.StepIgnoresSlots | src/dispatch.c:70-72 | a step with other breakpoint slots has the same outcome up to the slots, for every step; the slots follow from themselves, pc and the instruction alone |
| Program.ProgramRefines | src/main.c:115-167 | any image with .bss starts in a state with pc at the entry, sp in x2 and zero elsewhere, and its session, prompt included, refines the architectural run |
| Program.PromptsExactly | src/main.c:149-167 | from the program's start state the prompt opens exactly once, after a dispatch at pc 0x10954, if the main loop ever dispatches there, and otherwise never |
| Program.StartExactly | src/emu.c:7-18 | in the start state all registers, floating ones included, are zero but pc and sp, and of sixteen slots only the first is in use, a one-shot at pc 0x10954 |
| Program.FirstMoveIsZero | src/emu.c:11 | FMV.X.W as the first instruction gives zero |
| Program.Emulate | src/main.c:115-167 | load, set up, register the start breakpoint and run: the outcome is the session of the loaded image's start state under the user's prompt steps, or an abort when there is no stack |
| RvStates.RvState.constructor | src/emu.c:7-18 | a fresh emulator is zero but for pc at the entry point and x2 at the stack pointer |
| RvStates.RvState.Step | src/emu.c:77-91 | the step in place takes the whole state where the step function says, with its outcome |
| RvStates.RvState.Dispatch | src/dispatch.c:67-813 | the dispatcher in place does so after checking the breakpoints at the old pc |
| RvStates.RvState.ExecSyscall | src/dispatch.c:8-57 | so do system calls |
| RvStates.RvState.DoArith | src/dispatch.c:77-150 | so do arithmetic instructions |
| RvStates.RvState.DoBranch | src/dispatch.c:187-236 | so do branches |
| RvStates.RvState.DoJumpOrUpper | src/dispatch.c:239-261 | so do jumps and upper immediates |
| RvStates.RvState.DoLoad | src/dispatch.c:153-172 | so do loads |
| RvStates.RvState.DoStore | src/dispatch.c:173-184 | so do stores |
| RvStates.RvState.DoFloatLoad | src/dispatch.c:334-348 | so do float loads |
| RvStates.RvState.DoFloatStore | src/dispatch.c:349-363 | so do float stores |
| RvStates.RvState.DoFloatUnit | src/dispatch.c:364-764 | so does float arithmetic, given the bits the host's unit computes |
| RvStates.RvState.Session | src/main.c:159-167 | the main loop in place is the session function: step, poll, and prompt at a reported breakpoint |
| RvStates.RvState.Prompt | src/main.c:58-87 | the prompt's steps in place, results ignored and breakpoints not polled |
| Frame.StepFrame | src/emu.c:77-91 | a step, float arithmetic included, keeps the region layout, changes at most one register besides x0 (integer or float rd, x10 for a system call, none for branches and stores), and keeps pc even |
| Frame.StopAbsorbs | src/emu.c:77-91 | a step that returns false changes only x0 and the suspended flag, and its state steps to itself whatever the host replies, also where no flag was set |
| Frame.StopsExactly | src/emu.c:77-91 | a step returns false if and only if the emulator is suspended or the word decodes to no instruction |
| Frame.FenceStops | src/dispatch.c:271-276 | a fence moves pc on, changes nothing else and makes every later step return false |
| Frame.StepVerdicts | src/insn/i_ty.c:39-90 | a step over a CSR word traps, and one over an SLLI word with nonzero funct7 is undefined |
| Frame.StopSuspends | src/traceback.c:15-19 | a step that stops on a word suspends the emulator unless the word is a register-register one |
| Frame.StubExecutes | src/dispatch.c:270-286 | dispatching a fence or a CSR instruction suspends the emulator and moves on |
| Frame.BreakWithoutHeap | src/syscall.c:36-48 | a break request without a heap region is undefined |
| Frame.DecodedEven | src/insn/b_ty.c:11-17 | branch and JAL immediates are even |
| Frame.ExecuteEven | src/dispatch.c:187-254 | every instruction takes an even pc to an even pc |
| Emulator.DecodedFits | src/decoder.c:4-62 | decoded register selectors are below 32 |
| RoundTrip.DecodeEncode | src/decoder.c:4-62 | decoding the encoding of any legal RV32IM instruction gives its fields, with the immediate in two's complement, save that fences other than FENCE IORW, IORW are rejected with a diagnostic |
| RoundTrip.EncodeInjective | src/decoder.c:4-62 | an instruction is determined by its encoding |
| RoundTrip.DecodeI | src/insn/i_ty.c:110-137 | I-format words give back the signed 12-bit immediate and all fields |
| RoundTrip.DecodeArith | src/insn/i_ty.c:27-53 | shift words give shamt in the low five bits and funct7 above |
| RoundTrip.DecodeS | src/insn/s_ty.c:33-55 | the split S immediate is reassembled to its signed value |
| RoundTrip.DecodeB | src/insn/b_ty.c:3-35 | the scattered B immediate is reassembled to its even signed value |
| RoundTrip.DecodeJ | src/insn/j_ty.c:4-25 | the scattered J immediate is reassembled to its even signed value |
| RoundTrip.DecodeU | src/insn/u_ty.c:3-22 | U-format words keep the immediate unshifted |
| RoundTrip.DecodeOp | src/insn/r_ty.c:3-31 | each RV32I and M register-register encoding selects its type |
| Words.SignExtValue | include/platform.h:40-41 | SIGNEXT gives a field's two's-complement value |
| Fields.FieldsOfB | include/platform.h:166-176 | the B layout's bits are these parts of rd and funct7, for every word |
| Fields.FieldsOfJ | include/platform.h:183-191 | the J layout's bits are these parts of the U immediate, for every word |
| Rebuild.RebuildDecode | src/decoder.c:4-62 | every accepted word is rebuilt from its record, R4 words up to bits 25 and 26 |
| Rebuild.DecodeInjective | src/decoder.c:4-62 | two accepted words share a record if and only if they are equal or R4 words alike outside those bits |
| Rebuild.DecodedOpcode | src/insn/i_ty.c:122-133 | the decoded type determines the opcode |
| Rebuild.RebuildR4 | src/insn/r_ty.c:134-161 | fused multiply-add words always decode, and lose just the format bits |
| Acceptance.TakesExactly | src/decoder.c:4-62 | a word is taken for RV32IM if and only if it encodes a legal instruction, the other fences excepted, or is a JALR word with nonzero funct3 |
| Acceptance.FenceWitness | src/insn/i_ty.c:55-66 | FENCE RW, RW is rejected |
| Acceptance.AbnormalVerdicts | src/insn/i_ty.c:39-52 | decoding aborts exactly on CSR words and is undefined exactly on SLLI words with nonzero funct7 |
| Acceptance.DiagnExactly | src/insn/r_ty.c:30 | every rejected word sets the diagnostic but a register-register one |
| Acceptance.ReservedJalr | src/insn/i_ty.c:122-133 | the JALR words taken beyond the legal encodings encode nothing |
| Acceptance.ReservedWitness | src/insn/i_ty.c:27-90 | a reserved JALR word, an SLLI word that is undefined, a CSR word that aborts |
| Acceptance.FenceWords | src/insn/i_ty.c:55-66 | FENCE and FENCE.I are one word each; their opcode's other words are rejected with a diagnostic |
| FloatEncoding.DecodeFloatOp | src/insn/r_ty.c:34-106 | each F and D register encoding of the manual decodes to its type and fields |
| FloatEncoding.DecodeFused | src/insn/r_ty.c:149-158 | opcodes select the fused type, rs3 sits above the dropped format bits |
| FloatEncoding.TypeTellsOperation | src/insn/r_ty.c:36-106 | decoded types coincide if and only if the operations do or both convert from integers; records coincide if and only if the encodings do |
| FloatEncoding.ConversionWitness | src/insn/r_ty.c:48-49 | FCVT.S.W and FCVT.S.WU words of one type |
| FloatAcceptance.TakesFloatExactly | src/insn/r_ty.c:34-106 | a word of the register-operation opcode is accepted if and only if it encodes an F or D operation, is a reserved move or has a reserved rounding mode; the latter two encode nothing |
| FloatAcceptance.RoundingWitness | src/insn/r_ty.c:66-70 | an FADD.S word with rounding mode 5 is accepted and encodes nothing |
| FloatAcceptance.TakesFusedExactly | src/insn/r_ty.c:134-161 | every fused word is accepted; it encodes an F or D operation if and only if its format is single or double and its rounding mode valid |
| FloatAcceptance.TakesFloatMovesExactly | src/decoder.c:4-62 | the words executed as float loads, stores and moves are the encodings of FLW, FLD, FSW, FSD, FMV.X.W and FMV.W.X and the reserved moves |
| FloatSteps.FormatCodesReached | src/insn/r_ty.c:109-120 | `funct` holds a format code if and only if the word is FADD.S with rounding mode 2 or 3 |
| FloatSteps.FloatStep | src/dispatch.c:364-764 | what a step over each encoded F and D register operation does |
| FloatSteps.FloatResult | src/ext/rv32fd.c:52-62 | what every register holds after a step over each F and D operation, bit for bit, given the host's 64 bits |
| FloatSteps.FusedStep | src/dispatch.c:433-507 | fused operations take their format from the rounding mode: 2 single, 3 double, otherwise undefined |
| FloatSteps.FusedResult | src/ext/rv32fd.c:52-62 | likewise after a fused operation |
| FloatSteps.FormatArms | src/dispatch.c:364-757 | what the dispatcher's arms write when `funct` holds a format code |
| Operations.RegRegAgrees | src/dispatch.c:77-118 | register-register arithmetic computes the manual's result if and only if the operands avoid the listed cases |
| Operations.HighProducts | src/dispatch.c:294-314 | MULH, MULHSU and MULHU give the unsigned high half for all operands, MULH where the product fits |
| Operations.DivisionUndefined | src/dispatch.c:315-331 | division and remainder are undefined exactly by zero and, signed, on overflow |
| Operations.MulhAgrees | src/dispatch.c:294-300 | MULH as coded is defined and right if and only if both operands are non-negative, or one is zero, or both are 0x80000000 |
| Operations.MulhsuAgrees | src/dispatch.c:301-307 | MULHSU as coded is right if and only if rs1 is non-negative or rs2 is zero |
| Operations.MulhWitness | src/dispatch.c:294-300 | operands on which MULH is wrong, and operands on which it overflows |
| Operations.MulhsuWitness | src/dispatch.c:301-307 | operands on which MULHSU is wrong |
| Operations.HighHalfValue | src/dispatch.c:308-314 | storing the product in an i64 and shifting arithmetically still gives the unsigned high half, for all operands |
| Operations.MulLow | src/dispatch.c:290-293 | the low half of the unsigned product is that of the signed one |
| Operations.TruncIsManual | src/dispatch.c:315-327 | truncated division and remainder obey the manual's law, which determines them |
| Operations.ShlIsShiftLeft | src/dispatch.c:85-88 | a left shift moves every bit up and fills with zeros |
| Operations.ShrIsShiftRight | src/dispatch.c:102-105 | a logical right shift moves every bit down and fills with zeros |
| Operations.SarIsShiftRightArith | src/dispatch.c:106-110 | floor division of the signed value by a power of two copies the sign bit down |
| Memory.VmaRoundTrip | src/elf.c:7-38 | a mapped address goes to the host and back unchanged, even where ranges overlap |
| Memory.HostRoundTrip | src/elf.c:7-38 | a host byte goes to its address and back unchanged if and only if its region does not overflow |
| Memory.NotFound | src/elf.c:20-37 | an address has no host pointer iff no region covers it, and an unhosted pointer has address zero |
| Memory.WrappedCoversNothing | src/elf.c:13-15 | a nonempty region covers no address if and only if its end overflows |
| Memory.InsideExactly | src/elf.c:7-21 | without overlap an access lies inside if and only if the region covering its first byte holds its last |
| Memory.StoredIsRead | src/emu.c:36-43 | bytes stored are read back from the same address, whatever else covers it |
| Memory.LoadFlatExactly | src/emu.c:36-43 | an access lies inside, in any region table, if and only if its load reads the flat memory whatever the blocks hold |
| Memory.StoreFlatExactly | src/emu.c:36-43 | and, for each data, if and only if its store changes the flat memory at its bytes alone whatever the blocks hold |
| Memory.LoadIsFlat | src/emu.c:36-43 | a load traps iff its first byte is unmapped and is defined iff the first region to cover that byte holds its last; if that region first covers all its bytes it reads the flat memory; without overlap these are one condition |
| Memory.StoreIsFlat | src/emu.c:36-43 | stores trap and are defined alike, keep layout and well-formedness, and under that condition change exactly their bytes of the flat memory |
| Memory.OpsRefine | src/emu.c:36-43 | any sequence of accesses inside regions reads the same from the table as from one flat memory and leaves the same contents, overlapping ranges or not |
| ElfContexts.ElfContext.VmaToMem | src/elf.c:7-21 | the search returns the first covering region and the offset in it, or nothing |
| ElfContexts.ElfContext.MemToVma | src/elf.c:23-38 | the search returns the address of the first hosting block's byte, or zero |
| ElfContexts.ElfContext.RegionByTag | src/elf.c:269-280 | the search returns the first region with the tag |
| ElfContexts.ElfContext.LoadBytes | src/emu.c:36-43 | bytes are read from the block the first covering region owns |
| ElfContexts.ElfContext.StoreBytes | src/emu.c:36-43 | only that block's bytes change, and no other region's |
| ElfContexts.ElfContext.Brk | src/syscall.c:36-48 | the heap entry alone changes, as the request function says |
| ProgramBreak.RequestExact | src/syscall.c:36-48 | an accepted request moves the break exactly there, growing or shrinking; any other changes nothing; the current break is returned and never exceeds the reservation |
| ProgramBreak.RequestsLaw | src/syscall.c:36-48 | after any requests the allocation is the last accepted break minus the base |
| ProgramBreak.ReturnsCurrent | src/syscall.c:36-48 | each value returned is the break then in force |
| ProgramBreak.RejectsAllExactly | src/syscall.c:36-48 | every request is rejected if and only if the heap's end overflows |
| ProgramBreak.BelowBreakIsHeap | src/syscall.c:36-48 | without overlap an address from the base to the break resolves into the heap block at its offset if and only if the heap's end does not overflow |
| ProgramBreak.BrkFrame | src/syscall.c:36-48 | requests leave layout and memory contents alone |
| Breakpoints.Table.Add | src/bkpt.c:82-95 | the first inactive slot is overwritten, or nothing |
| Breakpoints.Table.Check | src/bkpt.c:25-80 | each slot in use is toggled or matched, all others are kept |
| Breakpoints.Table.Poll | src/bkpt.c:10-23 | the lowest reportable slot is returned, and retired if one-shot |
| Breakpoints.CheckTriggers | src/bkpt.c:41-79 | a check triggers an untriggered slot in use if and only if pc is equal to, above or below its value, unsigned or signed, or, without a pc condition, type and masked field bits agree |
| Breakpoints.CheckClears | src/bkpt.c:32-39 | a check clears a triggered slot and leaves one not in use alone |
| Breakpoints.InsnConditionBits | src/bkpt.c:47-54 | an instruction condition compares each field under its own mask |
| Breakpoints.MaskedEqualBits | src/bkpt.c:7-8 | masked fields compare equal if and only if the bits under the mask agree |
| Breakpoints.FullMasksMatch | src/bkpt.c:47-54 | under full masks an instruction condition matches its own instruction and no other, rs3 aside |
| Breakpoints.RunSound | src/bkpt.c:10-95 | over any interleaving slots hold their registrations, triggered slots matched at the latest check, and no one-shot registration is reported twice |
| Breakpoints.PollSound | src/bkpt.c:10-23 | a poll reports the lowest triggered slot in use, which matched at the latest check, or nothing when there is none |
| Breakpoints.CheckThenPoll | src/bkpt.c:10-80 | a poll after a check reports a slot if and only if it was in use, untriggered and matching, and no lower one was |
| Breakpoints.LostHitWitness | src/bkpt.c:34-39 | of two one-shots at one pc the higher is cleared unreported |
| Breakpoints.ActOnSlot | src/bkpt.c:25-95 | what each action does to a slot in use: registering nothing, checking toggles by the match, polling retires a reported one-shot |
| Breakpoints.PersistentToggles | src/bkpt.c:34-39 | a persistent event that always matches is triggered after exactly the odd-numbered checks |
| Breakpoints.AddLaw | src/bkpt.c:82-95 | registering fills the first free slot and does nothing when all are in use |
| Loader.ElfInit | src/elf.c:189-267 | the table is the segments taken in order, then heap and stack, or two zero entries without .bss; bp is a mebibyte above the end of .bss and sp the last byte of the mebibyte from there |
| Loader.LoadSegments | src/elf.c:190-228 | the loop fills the first entries with the headers taken and never writes past the array |
| Loader.ExtentTest | src/elf.c:201-211 | for a file of any length the extent test selects headers with memory that lie inside it, save exactly those whose end wraps 32 bits from outside the file to inside it |
| Loader.Taken | src/elf.c:197-211 | the headers taken are exactly the loadable ones, in order |
| Loader.TakesLoadSegments | src/elf.c:197-211 | they are the PT_LOAD headers in order if and only if those are the loadable ones |
| Loader.TakenWitness | src/elf.c:197-211 | a note segment that is taken, and a segment outside its file that is |
| Loader.SeparateExactly | src/elf.c:13-15 | ranges are separate if and only if none overflows and no address is covered twice |
| Loader.LoadedByte | src/elf.c:216-261 | in any loaded image, overlapping or not, an address is mapped iff an entry covers it and holds the byte of the first that does: the segment's file byte, or zero |
| Loader.SeparateVisible | src/elf.c:7-21 | where the ranges are separate every entry is the first to cover each of its addresses |
| Loader.OverlapWitness | src/elf.c:197-223 | an image of two overlapping segments in which a two-byte read and write at 0 miss what address 1 holds |
| Loader.RegionsPlaced | src/elf.c:216-264 | each segment's entry has its header's address and size, and the two entries after them are heap and stack of 0x100000 bytes each, the stack right above the heap |
| Loader.StackUsable | src/elf.c:257-264 | unless the stack's end overflows or an earlier region covers some of it, every address from bp to sp belongs to the stack, and stores there go on |
| Loader.NoBssPlaced | src/elf.c:238-243 | without .bss the two entries after the segments are zero |
| Loader.BootInv | src/emu.c:7-18 | the start state of any image with .bss meets the refinement's invariant, with the break at the heap's base |
| Synthesis.LoadConstant | src/dispatch.c:119-121 | LUI then ADDI, fetched, decoded and executed, leave any 32-bit constant in any register but x0 |
| Synthesis.ReachDisplacement | src/dispatch.c:245-261 | AUIPC then JALR reach every even displacement modulo 2^32 and leave the return address |
| Synthesis.StepEncoded | src/emu.c:77-91 | a step over the encoding of any instruction the decoder knows executes that instruction |
| Synthesis.StoreThenLoad | src/dispatch.c:153-184 | a store that goes on, then a load of its width from the same address, give back the extended low bytes of rs2 |
| Floats.NanBoxValue | src/ext/rv32fd.c:4-8 | boxing sets the upper 32 bits and keeps the value |
| Floats.UnboxBox | src/ext/rv32fd.c:4-14 | unboxing undoes boxing |
| Floats.FloatLoadExactly | src/dispatch.c:334-348 | FLW and FLD trap iff the first byte is unmapped, go on iff its region holds the last, and leave the boxed word or the double word in the register |
| Floats.FloatStoreExactly | src/dispatch.c:349-363 | FSW and FSD trap and go on alike and store the low 32 bits, boxed or not, or all 64 |
| Floats.CopyThroughFloat | src/dispatch.c:334-363 | FLW then FSW, and FLD then FSD, copy the source bytes exactly and change no other byte |
| Floats.MoveThroughFloat | src/dispatch.c:750-757 | FMV.W.X then FMV.X.W give back the integer register |

## Left out

- The values of float arithmetic: the host's floating-point unit is a parameter giving the bits it computes, so rounding and exceptions are not modelled; which operation reaches it, and where the result goes, is.
- Compressed instructions: no decoder exists for them, so their stubs are never reached.
- The host's `write` and `fstat`: their results and the bytes `fstat` writes are parameters; `read` is the stub it is, returning 0.
- ELF identification, the section-name scan and reading headers out of bytes: headers, entry point and .bss extent are inputs.
- `malloc` failure, `realloc` and `free`: allocation succeeds, and the array keeps its first size when the program would shrink it.
- Misaligned host accesses and type punning: byte-exact, as on x86-64.
- Instruction-address-misaligned exceptions: the emulator never raises one, and the architectural machine is taken with two-byte instruction alignment.
- Argument parsing, printing and disassembly output: no state depends on them, save that emitting a CSR instruction aborts; of the prompt's commands only `step` changes state.
- Loader.ElfInit: requires loadable headers to keep their copy inside the file and the block, because outside that the C copy is undefined.
- Breakpoints.RunSound: assumes registrations arrive untriggered, as the program's do; a registration made with its trigger set is reported without a match.
