# A verified model of a MIPS assembler, pipeline and cache hierarchy

The system is a small MIPS32 teaching simulator. It has three sequential parts, and this project models each one in Dafny:

- **The two-pass assembler** (`code/assembler.py`).
  - The first pass walks the source lines from address `0x00400000` and binds every label to the address of the next instruction.
  - The second pass encodes each instruction-bearing line into a 32-bit word, in R, I or J format.
  - Branch operands become PC-relative word offsets and jump operands become absolute word addresses.
- **The five-stage pipeline** (`code/src/pipe.cpp`, `code/src/pipe.h`, `code/src/core.cpp`).
  - The stages are fetch, decode, execute, mem and write-back. They pass one op at a time through four slots, and a stage stalls when its output slot is occupied.
  - Execute forwards from the write-back slot and stalls HI/LO moves while the multiplier is busy.
  - J and JAL get their target and taken flag in decode; conditional branches, JR and JALR get theirs in execute. Every taken branch or jump redirects fetch through recover(3) as it leaves execute.
  - At the end of a cycle the core applies at most one branch recovery, which flushes the slots up to the requested level.
  - Syscalls retire through the core: `v0 = 10` halts, and `v0` in 1..3 starts another core.
- **The cache hierarchy** (`code/src/cache.h`, `code/src/cache.cpp`, and `log2_32`/`undo_little_endian` from `code/src/cache.c`).
  - Each core has blocking L1 caches. They sit in front of a shared L2 of 512 sets × 16 ways of 32-byte blocks.
  - The caches use LRU counters, victim choice, eviction and installation.
  - The L2 has a table of 16 MSHRs (miss status holding registers) and two delay queues towards DRAM.

These are the spellings used throughout:

- A machine word is an `int` in `[0, 2^32)` (`Bits.Word`).
- Bitwise and, or and xor are defined on integers the way Python and C (on `uint32_t`) compute them. Shifts are multiplication and division by powers of two. 32-bit wrap-around is written out (`Wrap`).
- Memory is a map from word address to word. An address never written reads as 0.
- Each imperative part of the source is a class with the source's fields, and its methods update them in place:
  - `MipsAssembler` has `labels` and `instructions`.
  - `Pipeline` has the register array and the slots.
  - `Core` has `isRunning` and its pipeline.
  - `Cache`, `L2Cache` and `L1Cache` have the sets, the MSHR array, the queues and the pending-miss fields.
- Every such method is proved equal to a function on values. The properties are lemmas about those functions.

Where the declarations in `code/src/cache.h` disagree with the definitions in `code/src/cache.cpp`, the model follows `cache.cpp`:
- `complete_mshr` takes the core list and `allocate_mshr` takes the access kind and the core id;
- L1 has a `pending_miss_ready_cycle` field;
- L2 has request and return queues.

`Pipeline`, which `pipe.cpp` uses but `pipe.h` does not declare, is a class with the `Pipe_State` fields. The opcode and function-code constants (`mips.h` is not part of this model) take the MIPS32 values, which are the ones in the assembler's tables.

Three behaviours of the code that the model keeps:
- An unknown mnemonic stops the second pass. The words of earlier lines stay in `instructions`, and only the failing line and those after it produce nothing.
- A branch offset is the floor of `(T - (A + 4)) / 4`, as Python's `>>` computes it, masked to 16 bits.
- A shift amount is packed into the word without a range check, so an amount outside 0..31 corrupts the neighbouring fields (see "## Findings").

## Model

| member | source | states |
|---|---|---|
| Operands.Regs | code/assembler.py:12-32 | every name in the register table maps to an index in 0..31 |
| Operands.RegisterAliasesLow | code/assembler.py:12-32 | `$zero`..`$a3` and `$0`..`$7` map to the same indices 0..7 |
| Operands.RegisterAliasesTemps | code/assembler.py:12-32 | `$t0`..`$t7` and `$8`..`$15` map to the same indices 8..15 |
| Operands.RegisterAliasesSaved | code/assembler.py:12-32 | `$s0`..`$s7` and `$16`..`$23` map to the same indices 16..23 |
| Operands.RegisterAliasesHigh | code/assembler.py:12-32 | `$t8`,`$t9`,`$k0`,`$k1`,`$gp`,`$sp`,`$fp`,`$ra` and `$24`..`$31` map to the same indices 24..31 |
| Operands.ParseReg | code/assembler.py:34-39 | a parsed register is in 0..31, and any name outside the table is an unknown-register error |
| Operands.ParseRegPadded | code/assembler.py:34-39 | surrounding whitespace does not change the register parsed |
| Operands.ParseRegCaseInsensitive | code/assembler.py:34-39 | two names equal up to letter case parse to the same result |
| Operands.ParseImm | code/assembler.py:41-49 | the only way to fail is an invalid-literal error |
| Operands.ParseImmDecimal | code/assembler.py:41-49 | the decimal text of any integer, negative ones included, parses back to that integer |
| Operands.ParseImmHex | code/assembler.py:41-49 | `0x` followed by the hex digits of n parses back to n |
| Operands.ParseImmPadded | code/assembler.py:41-49 | surrounding whitespace does not change the immediate parsed |
| Operands.ParseMemoryOperand | code/assembler.py:93-101 | a parsed base register is in 0..31, and failures are a malformed operand, a bad offset literal or an unknown register |
| Operands.MemoryOperandNoOffset | code/assembler.py:93-101 | `(reg)` without an offset reads as offset 0 with that register |
| Operands.MemoryOperandDecimal | code/assembler.py:93-101 | `n(reg)` reads as offset n and that register, for every decimal n |
| Operands.MemoryOperandHex | code/assembler.py:93-101 | `0x…(reg)` reads as the hex offset and that register |
| PyStr.StripIdempotent | code/assembler.py:34-39 | stripping twice is stripping once |
| PyStr.LowerIdempotent | code/assembler.py:105 | lower-casing twice is lower-casing once |
| PyStr.SplitJoin | code/assembler.py:108-109 | joining the pieces of a split with the separator gives back the text, and there is one more piece than separators |
| PyStr.FindSpec | code/assembler.py:259-260 | `find` returns the first occurrence of the character, or -1 when there is none |
| Encoding.SignExtend16 | code/assembler.py:51-54 | the result is the value's low 16 bits, so -1 becomes 0xFFFF |
| Encoding.EncodeRFields | code/assembler.py:56-58 | `EncodeR`: with fields in range the R-type word is < 2^32 and its opcode, rs, rt, rd, shamt and funct fields are the ones given |
| Encoding.EncodeIFields | code/assembler.py:60-62 | `EncodeI`: with fields in range the I-type word is < 2^32, and its immediate field is the immediate mod 2^16 |
| Encoding.EncodeJFields | code/assembler.py:64-66 | `EncodeJ`: with an opcode in range the J-type word is < 2^32, and its 26-bit field is the target mod 2^26 |
| Encoding.PackR | code/assembler.py:56-58 | `EncodeR`: with fields in range the five ORs of the shifted fields add them, since the fields occupy disjoint bits |
| Encoding.PackI | code/assembler.py:60-62 | `EncodeI`: with opcode, rs and rt in range the word is the sum of the shifted fields and the immediate mod 2^16 |
| Encoding.PackJ | code/assembler.py:64-66 | `EncodeJ`: with the opcode in range the word is the shifted opcode plus the target mod 2^26 |
| Assembler.ParseRegs | code/assembler.py:108-109 | a list of register operands parses to as many indices, all in 0..31, or fails with an unknown register |
| Assembler.BranchOffset | code/assembler.py:157-162 | a branch target fails only when it is neither a label nor a literal |
| Assembler.BranchLabelOffset | code/assembler.py:157-160 | for a label at T the offset is (T - (A + 4)) / 4, so a self-loop encodes 0xFFFF |
| Assembler.JumpAddress | code/assembler.py:180-184 | a jump target fails only when it is neither a label nor a literal |
| Assembler.ShiftWord | code/assembler.py:116-121 | corrected shift encoding, not used by the assembler: a shift amount outside 0..31 is an error |
| Assembler.ShiftWordFields | code/assembler.py:116-121 | the corrected word has rs = 0 and the given rt, rd, shamt and funct, and equals the as-written word whenever shamt < 32 |
| Assembler.ShiftAmountSpillsIntoRd | code/assembler.py:116-121 | as written, an amount s in 32..63 gives the in-range word with rd \| 1 and amount s - 32, so `sll $t0, $t1, 32` produces the word of `sll $t1, $t1, 0` |
| Assembler.NegativeShiftAmount | code/assembler.py:116-121 | as written, a negative shift amount makes the word negative |
| Assembler.AssembleInstruction | code/assembler.py:103-245 | the result is an unknown-instruction error, naming the lower-cased mnemonic, exactly when that mnemonic is in none of the lists |
| Assembler.Dispatch | code/assembler.py:103-105 | only the lower-cased mnemonic decides which group assembles the operands |
| Assembler.AssembleGroup | code/assembler.py:103-243 | a known mnemonic never fails with an unknown-instruction error |
| Assembler.AssembleArith | code/assembler.py:107-113 | the three-register group fails only with an unknown register or a wrong number of operands |
| Assembler.AssembleShift | code/assembler.py:115-121 | the shift group fails only with an unknown register, a bad literal or a wrong number of operands; it never rejects an amount |
| Assembler.AssembleVarShift | code/assembler.py:123-126 | the variable-shift group fails only with an unknown register or a wrong number of operands |
| Assembler.AssembleImmediate | code/assembler.py:128-135 | the I-type ALU group fails only with an unknown register, a bad literal or a missing operand |
| Assembler.AssembleLui | code/assembler.py:137-142 | `lui` fails only with an unknown register, a bad literal or a missing operand |
| Assembler.AssembleMemory | code/assembler.py:144-151 | loads and stores fail only with an unknown register, a missing operand, a malformed memory operand or a bad offset literal |
| Assembler.AssembleBranch2 | code/assembler.py:153-164 | `beq`/`bne` fail only with an unknown register, a bad literal or a missing operand |
| Assembler.AssembleBranch1 | code/assembler.py:166-176 | `bgtz`/`blez` fail only with an unknown register, a bad literal or a missing operand |
| Assembler.AssembleJump | code/assembler.py:178-193 | `j`/`jal` fail only when the target is neither a label nor a literal |
| Assembler.AssembleJr | code/assembler.py:195-197 | `jr` fails only with an unknown register |
| Assembler.AssembleJalr | code/assembler.py:199-205 | `jalr` fails only with an unknown register |
| Assembler.AssembleMove | code/assembler.py:207-211 | `move` fails only with an unknown register or a missing operand |
| Assembler.AssembleHiLo | code/assembler.py:213-228 | `mfhi`/`mflo`/`mthi`/`mtlo` fail only with an unknown register |
| Assembler.AssembleMulDiv | code/assembler.py:230-235 | multiply and divide fail only with an unknown register or a missing operand |
| Assembler.ShiftFields | code/assembler.py:115-121 | a shift assembles exactly when there are three operands and rd, rt and the amount parse, otherwise it is a wrong operand count or the parse error; the word is the unchecked encoding, and an amount in 0..31 lands in its field with rs = 0 |
| Assembler.VarShiftFields | code/assembler.py:123-126 | `sllv rd, rt, rs` assembles exactly when it has three parsable registers, and rs is the last operand |
| Assembler.LuiFields | code/assembler.py:137-142 | `lui rt, imm` assembles exactly when rt and the immediate parse, a bad rt raises first, rs is 0 and the low 16 bits hold the immediate |
| Assembler.MemoryFields | code/assembler.py:144-151 | `op rt, off(base)` assembles exactly when rt and the memory operand parse; a bad rt raises first, a missing second half is a missing operand; the word holds base as rs, rt, and off mod 2^16 |
| Assembler.JrFields | code/assembler.py:195-197 | `jr rs` assembles exactly when the operand text is a register, which lands in rs with every other register field 0 |
| Assembler.HiLoFields | code/assembler.py:213-228 | `mfhi`/`mflo` put their register in rd and `mthi`/`mtlo` in rs, the other fields 0, and assemble exactly when it parses |
| Assembler.MulDivFields | code/assembler.py:230-235 | `mult rs, rt` and the others assemble exactly when both registers parse, with rd 0 and a bad rs raising first |
| Assembler.ArithGroupOf | code/assembler.py:108-113 | `op rd, rs, rt` encodes rs, rt, rd and the funct, with shamt 0, or fails at the first bad register |
| Assembler.ImmediateFields | code/assembler.py:129-135 | an I-type ALU line succeeds exactly when its immediate parses; rt is the first operand, rs the second, and the low 16 bits are the immediate's |
| Assembler.Branch2Fields | code/assembler.py:154-164 | `beq`/`bne` succeeds exactly when the target resolves, with rs, rt and the offset in the right fields; to a label the offset is the PC-relative word distance, 0xFFFF for a self-loop |
| Assembler.Branch1Fields | code/assembler.py:166-176 | `bgtz`/`blez` succeeds exactly when the target resolves, with rt = 0 and the PC-relative offset of a label |
| Assembler.JumpFields | code/assembler.py:179-193 | `j`/`jal` succeeds exactly when the target resolves, and the word is opcode 2/3 with field (T / 4) mod 2^26 |
| Assembler.JalrDefaultsToRa | code/assembler.py:199-205 | one-operand `jalr rs` succeeds exactly when rs parses, and links into rd = 31 |
| Assembler.MoveIsAddu | code/assembler.py:208-211 | `move rd, rs` gives exactly what `addu rd, rs, $zero` gives |
| Assembler.NopIsZero | code/assembler.py:242-243 | `nop` encodes as 0 whatever its operands |
| Assembler.SyscallWord | code/assembler.py:238-239 | `syscall` encodes as 0x0000000C whatever its operands |
| Assembler.UnknownMnemonic | code/assembler.py:245 | the result is the unknown-instruction error exactly when the lower-cased mnemonic is not in the table |
| Assembler.AssembledIsWord | code/assembler.py:103-245 | every word the assembler produces is in 0..2^32 - 1, except for a shift whose amount is outside 0..31 |
| AssemblerPasses.PassesAgree | code/assembler.py:74-91 | the first pass advances the address exactly on the lines from which the second pass takes an instruction |
| AssemblerPasses.FirstPassAddress | code/assembler.py:74-91 | the first pass ends at base + 4 × the number of advancing lines |
| AssemblerPasses.LabelAddress | code/assembler.py:82-88 | a label is bound to base + 4 × the instruction lines before its last definition, so a later definition overwrites an earlier one |
| AssemblerPasses.LabelInText | code/assembler.py:82-88 | every label address lies between the base and the end of the text |
| AssemblerPasses.LabelUntouched | code/assembler.py:74-91 | a name that no line defines keeps whatever binding it had before the pass |
| AssemblerPasses.AssembledCount | code/assembler.py:247-277 | without an error the second pass emits one word per instruction line |
| AssemblerPasses.AssembledStops | code/assembler.py:270-277 | after an error further lines change nothing |
| AssemblerPasses.AssembledPrefix | code/assembler.py:247-277 | the words of a prefix of the program come first, in order, in the words of the whole program |
| AssemblerPasses.LineAssembledAt | code/assembler.py:247-277 | the k-th word is the encoding of the k-th instruction line at address base + 4k, the address the first pass gave that line |
| AssemblerPasses.MipsAssembler.constructor | code/assembler.py:69-72 | no labels, no instructions, base address 0x00400000 |
| AssemblerPasses.MipsAssembler.FirstPassLine | code/assembler.py:76-91 | one line binds its label to the current address and advances by 4 exactly for an instruction line |
| AssemblerPasses.MipsAssembler.FirstPass | code/assembler.py:74-91 | the label table becomes the first-pass binding of all lines, and the instruction list is untouched |
| AssemblerPasses.MipsAssembler.SecondPassLine | code/assembler.py:251-277 | one line appends its word and advances, is skipped, or reports its error and appends nothing |
| AssemblerPasses.MipsAssembler.SecondPass | code/assembler.py:247-277 | the instruction list grows by the second-pass words of the lines, up to the first error, which is returned |
| AssemblerPasses.MipsAssembler.Assemble | code/assembler.py:279-287 | the first pass and then the second pass on the same lines, without the file reading |
| PipeOps.FetchedOp | code/src/pipe.h:62-68 | a new op has no source or destination register (-1) and every flag clear |
| PipeOps.FieldsAreShiftMasks | code/src/pipe.cpp:486-495 | opcode, rs, rt, rd, shamt, funct, imm16 and the jump target are the shift-and-mask extractions of the instruction |
| PipeOps.SignExtend16 | code/src/pipe.cpp:494 | `se_imm16` keeps the low 16 bits and reads as their signed value |
| PipeOps.SignExtendIsMask | code/src/pipe.cpp:494 | sign extension is `imm16 \| 0xFFFF8000` exactly when bit 15 is set, and imm16 otherwise |
| PipeOps.BranchTargetIsOffset | code/src/pipe.cpp:528 | a branch destination is pc + 4 + 4 × the signed offset, mod 2^32 |
| PipeOps.JumpTarget | code/src/pipe.cpp:495 | the jump destination keeps the pc's top four bits and takes the shifted 26-bit field below them |
| PipeOps.JumpTargetIsMask | code/src/pipe.cpp:495 | the jump destination equals `(pc & 0xF0000000) \| targ` |
| PipeOps.DecodeBranchOp | code/src/pipe.cpp:551-561 | `DecodeOp`: a decoded conditional branch reads rs and rt, is conditional, and has the PC-relative destination |
| PipeOps.DecodeJumpOp | code/src/pipe.cpp:538-549 | `DecodeOp`: a decoded `j`/`jal` is taken with the region-relative destination, and `jal` links pc + 4 into register 31 |
| PipeOps.DecodeImmediateOp | code/src/pipe.cpp:563-602 | `DecodeOp`: immediates and loads write rt; stores read rt as the value, are memory writes and write no register |
| RoundTrip.DecodeRType | code/src/pipe.cpp:503-519 | decoding an assembled R-type word gives back its function code, shift amount and registers; a syscall reads v0 and v1 |
| RoundTrip.DecodeIType | code/src/pipe.cpp:563-602 | decoding an assembled I-type word gives back opcode, registers and immediate, and a 16-bit signed immediate is recovered by sign extension |
| RoundTrip.DecodeBranch | code/src/pipe.cpp:551-561 | decoding a branch word encoded for target T at pc gives destination T whenever the offset fits in 16 bits |
| RoundTrip.DecodeJump | code/src/pipe.cpp:538-549 | decoding a jump word encoded for an aligned target in the pc's region gives destination T |
| RoundTrip.BranchToLabel | code/assembler.py:154-164 | assembling `beq`/`bne` to a label at address A and decoding the word at A gives back the label address and both registers |
| RoundTrip.JumpToLabel | code/assembler.py:179-193 | assembling `j`/`jal` to a label and decoding it gives back the label address |
| Alu.RegShiftIsMask | code/src/pipe.cpp:246-256 | the model's variable shift amount, the rs value mod 32, is `v & 0x1F`; the source shifts by the whole value |
| Alu.SpecialResult | code/src/pipe.cpp:237-386 | SPECIAL ops that write a register produce a value; the others (multiply, divide, moves to HI/LO, unknown ones) produce none |
| Alu.AddSubAreSigned | code/src/pipe.cpp:358-368 | ADD equals ADDU and SUB equals SUBU, and without overflow they are signed sum and difference |
| Alu.ArithmeticShiftIsFloorDiv | code/src/pipe.cpp:250-257 | SRA is signed division by 2^k rounded down, and SRL on non-negative values |
| Alu.SetLessThanSigns | code/src/pipe.cpp:380-384 | SLT and SLTU agree when both operands are non-negative and disagree when the signs differ |
| Alu.MultuHiLo | code/src/pipe.cpp:283-292 | HI × 2^32 + LO is the unsigned 64-bit product |
| Alu.MultHiLo | code/src/pipe.cpp:265-282 | signed HI × 2^32 + LO is the signed 64-bit product |
| Alu.TruncDivMod | code/src/pipe.cpp:294-313 | C division truncates: quotient × divisor + remainder is the dividend, and the remainder takes the dividend's sign |
| Alu.DivCorrect | code/src/pipe.cpp:294-313 | signed LO is the truncated quotient and signed HI the remainder |
| Alu.DivuHiLo | code/src/pipe.cpp:315-326 | LO × b + HI = a with HI < b, and both are 0 for a zero divisor |
| Alu.ImmediateResult | code/src/pipe.cpp:418-446 | exactly the eight ALU-immediate opcodes produce a value |
| Alu.LogicalImmediates | code/src/pipe.cpp:430-446 | ANDI keeps only the low half, ORI only changes the low half, and LUI puts the immediate in the high half |
| Alu.AddImmediateIsSigned | code/src/pipe.cpp:418-424 | ADDI equals ADDIU and without overflow is the signed sum with the sign-extended immediate |
| Alu.BranchConditionsComplement | code/src/pipe.cpp:388-416 | BEQ/BNE, BLEZ/BGTZ and BLTZ/BGEZ are complementary, and the linking forms test the same condition |
| Alu.EffectiveAddress | code/src/pipe.cpp:448-461 | a memory address is the base plus the signed offset, mod 2^32 |
| MemAccess.WordAlign | code/src/pipe.cpp:94 | the aligned address is the multiple of 4 at or just below the address |
| MemAccess.WordAlignIsMask | code/src/pipe.cpp:94 | alignment is `addr & 0xFFFFFFFC` |
| MemAccess.SignExtend8IsMask | code/src/pipe.cpp:98-142 | byte sign extension ors 0xFFFFFF80 exactly when bit 7 is set |
| MemAccess.LoadResult | code/src/pipe.cpp:98-142 | LB/LBU select byte addr & 3 and LH/LHU halfword addr & 2, and only LB and LH sign-extend |
| MemAccess.StoreByteLanes | code/src/pipe.cpp:144-153 | `StoreResult` for SB: SB replaces the addressed byte of the word with the value's low byte and keeps the other three |
| MemAccess.StoreHalfLanes | code/src/pipe.cpp:155-168 | `StoreResult` for SH: SH replaces the addressed halfword with the value's low half and keeps the other |
| MemAccess.LoadAfterStoreByte | code/src/pipe.cpp:98-173 | LBU after SB at the same address reads the stored byte, and LW after SW reads the stored word |
| MemAccess.LoadAfterStoreHalf | code/src/pipe.cpp:98-168 | LHU after SH at the same address reads the stored halfword |
| PipeState.Initial | code/src/pipe.h:104-108 | PC = 0x00400000, all registers, HI and LO zero, empty slots, no recovery and no multiplier stall |
| PipeState.RecoverStep | code/src/pipe.cpp:43-54 | a recovery is recorded only when none is pending |
| PipeState.FirstRecoveryWins | code/src/pipe.cpp:43-54 | a second recovery in the same cycle changes nothing, so the first destination stands |
| PipeState.WbWritesOnlyDestination | code/src/pipe.cpp:56-82 | `WbStep`: write-back writes only its destination register and never register 0; nothing else but the empty wb slot changes |
| PipeState.MemStep | code/src/pipe.cpp:84-178 | mem moves its op to the wb slot and changes nothing else of the state; with an empty slot it does nothing |
| PipeState.MemStepMemory | code/src/pipe.cpp:91-173 | a store rewrites only its aligned word, merging the stored lane, and a load passes the extracted value to write-back |
| PipeState.ReadSourceValue | code/src/pipe.cpp:187-228 | register 0 reads 0, the wb slot's result is forwarded to a matching source, and otherwise the register file is read |
| PipeState.SpecialOp | code/src/pipe.cpp:237-386 | `ExecuteOp`: a SPECIAL op changes only its result, destination and taken flag, and JR/JALR are taken to rs |
| PipeState.SpecialOutcome | code/src/pipe.cpp:237-386 | `ExecuteOp`: a SPECIAL op that is not held back completes with its value ready, its source values kept, and HI, LO and the stall counter as `HiLoEffect` gives them |
| PipeState.ExecuteStep | code/src/pipe.cpp:180-470 | `ExecuteOp` within the stage: execute never overwrites an occupied mem slot and never loses its op; registers, PC, wb and decode slots stay |
| PipeState.ExecutedBranchRecovers | code/src/pipe.cpp:464-466 | an op leaving execute taken schedules recover(3, its destination) |
| PipeState.HiLoMoveStalls | code/src/pipe.cpp:183-184 | while the multiplier stall is above 1 an HI/LO move does not progress and the stall counts down |
| PipeState.HiLoEffectLaws | code/src/pipe.cpp:265-356 | MULT/MULTU leave the 64-bit product in HI/LO with stall 4, DIV/DIVU leave quotient and remainder (both 0 for a zero divisor) with stall 32, and MTHI/MTLO set one of them |
| PipeState.ExecuteSpecialHiLo | code/src/pipe.cpp:237-386 | a SPECIAL op that may progress moves on ready, and HI, LO and the stall become its HI/LO effect |
| PipeState.DecodeStep | code/src/pipe.cpp:472-609 | decode stalls when the execute slot is occupied, and otherwise moves the decoded op there |
| PipeState.FetchStep | code/src/pipe.cpp:611-628 | fetch stalls when the decode slot is occupied, and otherwise sends the word at PC and advances PC by 4 |
| PipeState.RecoveryStep | code/src/core.cpp:43-70 | a pending recovery sets PC to its destination, flushes the slots by level and clears the recovery fields |
| PipeState.Stages | code/src/core.cpp:36-70 | mem, execute, decode, fetch and recovery keep the register file and leave no recovery pending |
| PipeState.TakenBranchSquashes | code/src/core.cpp:36-70 | a branch taken in execute redirects PC and squashes the decode and execute slots, keeping the branch in mem |
| PipeState.RegisterZeroStaysZero | code/src/pipe.cpp:56-82 | register 0 stays 0 across a cycle |
| Pipe.Pipeline.constructor | code/src/pipe.cpp:34-39 | the new pipeline is in the initial state |
| Pipe.Pipeline.Recover | code/src/pipe.cpp:43-54 | in-place recover is the recovery step |
| Pipe.Pipeline.Wb | code/src/pipe.cpp:56-82 | in-place write-back is the write-back step, returning the retired op |
| Pipe.Pipeline.Mem | code/src/pipe.cpp:84-178 | in-place mem is the mem step on the memory map |
| Pipe.Pipeline.ReadRegister | code/src/pipe.cpp:187-228 | the value read is the forwarded source value |
| Pipe.Pipeline.Execute | code/src/pipe.cpp:180-470 | in-place execute is the execute step |
| Pipe.Pipeline.Decode | code/src/pipe.cpp:472-609 | in-place decode is the decode step |
| Pipe.Pipeline.Fetch | code/src/pipe.cpp:611-628 | in-place fetch is the fetch step |
| Cores.NoSpawnOnOneCore | code/src/core.cpp:87-103 | `SpawnFires`: with one core a spawn never fires; with four it fires exactly for a target in 1..3 other than the caller that is not running |
| Cores.ParentAfterSyscall | code/src/core.cpp:74-105 | `v0 = 10` sets PC to the syscall's pc, a spawn sets the caller's `$v1` to 0, and anything else leaves the state unchanged |
| Cores.ChildStart | code/src/core.cpp:87-103 | a spawned core starts at pc + 4 with `$v1` = 1 and its other registers kept |
| Cores.CoreCycle | code/src/core.cpp:23-72 | a cycle never leaves a recovery pending |
| Cores.CycleKeepsRegisterZero | code/src/core.cpp:23-72 | register 0 stays 0 across a core cycle |
| Cores.HaltLeavesPcAfterSyscall | code/src/core.cpp:78-82 | after a halt the fetch stage, running in the same cycle, leaves PC just past the syscall |
| Cores.Core.constructor | code/src/core.cpp:16-21 | only core 0 starts running, with its pipeline in the initial state |
| Cores.Core.HandleSyscall | code/src/core.cpp:74-105 | the caller's state and running flag and the target core follow the halt, spawn and no-op cases |
| Cores.Core.Cycle | code/src/core.cpp:23-72 | a stopped core does nothing; a running one runs wb, handles the retired syscall, then runs mem, execute, decode and fetch and applies the recovery |
| Cores.Core.RunStages | code/src/core.cpp:37-40 | the in-place stages are the stage functions in order |
| Cores.Core.ApplyRecovery | code/src/core.cpp:43-70 | the in-place recovery is the recovery step |
| CacheMath.Log2_32 | code/src/cache.c:25-31 | the result is -1 exactly for 0 and lies in -1..31 |
| CacheMath.Log2Bounds | code/src/cache.c:25-31 | for 0 < n < 2^31, 2^r ≤ n < 2^(r+1) |
| CacheMath.Log2OfPow2 | code/src/cache.c:25-31 | log2_32(2^k) = k |
| CacheMath.UndoLittleEndianReverses | code/src/cache.c:34-39 | `UndoLittleEndian`: the four bytes come out in reverse order |
| CacheMath.UndoLittleEndianBytes | code/src/cache.c:34-39 | byte i of the result is byte 3 - i of the input |
| CacheMath.UndoLittleEndianInvolution | code/src/cache.c:34-39 | applying it twice gives back the input |
| CacheBlocks.ReadWordValue | code/src/cache.h:52-58 | `ReadWord`: in range, read_word is little-endian: byte o is the low byte and byte o + 3 the high one |
| CacheBlocks.WriteWordLayout | code/src/cache.h:60-66 | `WriteWord`: in range, write_word stores the bytes little-endian at o..o+3 and changes no other byte or field |
| CacheBlocks.ReadAfterWrite | code/src/cache.h:52-66 | reading a word just written returns it |
| CacheBlocks.WriteLeavesOtherWords | code/src/cache.h:52-66 | a write leaves every non-overlapping word as it was |
| CacheBlocks.OutOfRangeIsInert | code/src/cache.h:53-61 | when offset + 4 > size without wrap-around, `ReadWord` returns 0 and `WriteWord` changes nothing |
| CacheBlocks.GuardLetsWrappedOffsetThrough | code/src/cache.h:53 | the as-written guard lets every offset from 0xFFFFFFFC up through on a block of 3 bytes or more, although such an offset is out of range |
| CacheBlocks.GuardAgreesBelowWrap | code/src/cache.h:53 | when offset + 4 does not wrap, the as-written guard is exactly the corrected range test |
| CacheBlocks.FreshBlockReadsZero | code/src/cache.h:47-49 | a new block reads 0 at every offset |
| CacheBlocks.NewSet | code/src/cache.h:72-77 | a new set holds exactly `ways` new blocks |
| CacheSets.FirstMatch | code/src/cache.cpp:33-41 | the lowest way whose tag matches and is valid, or -1 exactly when there is none |
| CacheSets.FirstInvalid | code/src/cache.cpp:60-65 | the lowest INVALID way, or -1 exactly when every way is valid |
| CacheSets.LastMax | code/src/cache.cpp:66-75 | the way with the largest counter, and every later way has a strictly smaller counter |
| CacheSets.VictimChoice | code/src/cache.cpp:57-76 | the victim is the lowest INVALID way if any, otherwise the largest counter, ties going to the highest way |
| CacheSets.AgeSet | code/src/cache.cpp:43-55 | the touched way's counter becomes 0 and no field other than counters changes |
| CacheSets.AgingKeepsDistinct | code/src/cache.cpp:43-55 | touching a valid way keeps distinct counters among valid ways distinct |
| CacheSets.AgingKeepsOrder | code/src/cache.cpp:43-55 | the touched way becomes the most recent, and the order of the others is kept |
| CacheSets.ZeroPivotAgesNothing | code/src/cache.cpp:146-153 | with the counter zeroed first, as install does, update_lru changes nothing else |
| CacheSets.ProbeKeepsTags | code/src/cache.cpp:78-107 | `Probed`: a probe changes only counters and the dirty bit; every tag is found where it was, and a write hit leaves the way dirty |
| CacheSets.InstallHolds | code/src/cache.cpp:132-156 | `Installed`: after install the set holds the tag at or below the victim, and no other way changes |
| Caches.ClearOffsetValue | code/src/cache.cpp:344 | clearing the block offset of a 32-byte block is subtracting addr mod 32 |
| Caches.SameBlock | code/src/cache.cpp:344 | two addresses have the same block address exactly when they lie in the same 32-byte block |
| Caches.Cache.constructor | code/src/cache.cpp:14-31 | s sets of w new blocks, with the shifts taken from the integer log2 of the sizes |
| Caches.Cache.GetIndex | code/src/cache.h:98-100 | the index is below the number of sets |
| Caches.Cache.GetTag | code/src/cache.h:102-104 | the tag fits in the bits above the index |
| Caches.Cache.GetBlockOffset | code/src/cache.h:106-108 | the offset is below the block size |
| Caches.Cache.FieldsAreDigits | code/src/cache.h:98-108 | with power-of-two sizes tag, index and offset are the digits of the address |
| Caches.Cache.AddressRecombines | code/src/cache.h:98-108 | with power-of-two sizes, (tag << tag_shift) \| (index << index_shift) \| offset is the address |
| Caches.Cache.BlockAddressRoundTrip | code/src/cache.cpp:109-130 | the evicted-block address splits back into its tag, its set and offset 0 |
| Caches.Cache.PowerOfTwoShifts | code/src/cache.cpp:24-30 | with sizes 2^ob and 2^sb the shifts are ob and ob + sb |
| Caches.Cache.SameBlockSameSlot | code/src/cache.h:98-104 | addresses in one 32-byte block map to the same set and tag |
| Caches.Cache.FindBlock | code/src/cache.cpp:33-41 | find_block is the lowest matching valid way, or -1 |
| Caches.Cache.UpdateLru | code/src/cache.cpp:43-55 | update_lru ages the set as specified and changes no other set |
| Caches.Cache.FindVictim | code/src/cache.cpp:57-76 | find_victim is the specified victim |
| Caches.Cache.ProbeRead | code/src/cache.cpp:78-88 | probe_read returns the hit way or -1, and a hit only touches the way's counter |
| Caches.Cache.ProbeWrite | code/src/cache.cpp:90-107 | probe_write returns whether it hit, and a hit touches the counter and sets dirty; a miss changes nothing |
| Caches.Cache.Evict | code/src/cache.cpp:109-130 | the block becomes INVALID and clean, and a dirty eviction is reported exactly for a valid dirty block, at its block address |
| Caches.Cache.Install | code/src/cache.cpp:132-156 | the victim takes the tag, EXCLUSIVE, clean, counter 0, the eviction is reported, and the address is present afterwards |
| L2Caches.FindMshr | code/src/cache.cpp:164-172 | the lowest valid MSHR for the block, or -1 exactly when there is none |
| L2Caches.FirstFree | code/src/cache.cpp:174-188 | the lowest free MSHR, or -1 exactly when all are valid |
| L2Caches.TakeFreeCounts | code/src/cache.cpp:174-188 | taking a free MSHR puts one more in use |
| L2Caches.ReleaseCounts | code/src/cache.cpp:255-260 | releasing an MSHR puts one less in use |
| L2Caches.WaitingIsFilter | code/src/cache.cpp:229-253 | the entries a queue keeps are exactly those not yet ready, and kept plus removed is the whole queue |
| L2Caches.WaitingIdempotent | code/src/cache.cpp:229-253 | draining again at the same cycle removes nothing more |
| L2Caches.L2Cache.constructor | code/src/cache.cpp:160-162 | 512 sets of 16 new 32-byte blocks, empty queues, and every MSHR free |
| L2Caches.L2Cache.BlockAddrValue | code/src/cache.cpp:165 | the block address clears the low five bits, and two block addresses match exactly for one 32-byte block |
| L2Caches.L2Cache.AccessOutcomes | code/src/cache.cpp:190-219 | `AccessStep`: HIT exactly on a hit; BUSY exactly on a miss with no MSHR for the block and all 16 in use, and BUSY changes nothing; a MISS leaves an MSHR for the block and appends one request, ready at now + delay, only when no MSHR held the block |
| L2Caches.L2Cache.AccessKeepsMshrs | code/src/cache.cpp:190-219 | an access keeps the MSHRs distinct, and the MSHRs in use grow exactly by the requests appended |
| L2Caches.L2Cache.RepeatedMissMerges | code/src/cache.cpp:199-203 | a second miss on the same block merges into the MSHR and changes nothing |
| L2Caches.L2Cache.CompletionInstalls | code/src/cache.cpp:255-275 | `CompleteStep`: a completion releases the block's MSHR, frees one slot, installs the block, and the next access hits |
| L2Caches.L2Cache.CheckMshr | code/src/cache.cpp:164-172 | check_mshr is the lowest valid MSHR for the block |
| L2Caches.L2Cache.AllocateMshr | code/src/cache.cpp:174-188 | allocate_mshr fills the lowest free MSHR for the block, or returns -1 and changes nothing |
| L2Caches.L2Cache.Access | code/src/cache.cpp:190-219 | the in-place access is the access step |
| L2Caches.L2Cache.CompleteMshr | code/src/cache.cpp:255-275 | the in-place completion is the completion step |
| L2Caches.L2Cache.DrainRequests | code/src/cache.cpp:230-241 | the request queue keeps exactly the entries not yet ready, in order |
| L2Caches.L2Cache.DrainReturns | code/src/cache.cpp:243-252 | the return queue keeps the entries not yet ready, and the ready ones complete in queue order |
| L2Caches.L2Cache.Cycle | code/src/cache.cpp:229-253 | both queues drain at the cycle, and the ready returns complete in order |
| L1Caches.L1Cache.constructor | code/src/cache.cpp:280-284 | a cache of 32-byte blocks with no miss pending |
| L1Caches.L1Cache.Fill | code/src/cache.cpp:340-359 | with a miss pending and the address in its block, the block is installed and the miss ends; otherwise nothing changes |
| L1Caches.L1Cache.Access | code/src/cache.cpp:286-338 | a pending miss not yet ready stalls with no change; otherwise a ready miss is filled, a hit succeeds, and a miss makes the L2 access and becomes pending unless the L2 is busy |

## Left out

- The assembler's file reading, `write_hex`, the help text, `main` and batch directory mode are input/output. The model takes a sequence of lines and returns words.
- The diagnostics that `second_pass` prints to stderr before re-raising are output. The model returns the error.
- `mem_read_32`/`mem_write_32` come from the simulator shell, which is not part of this model. Memory is a map from word address to word.
- The statistics counters (`stat_inst_fetch`, `stat_squash`, …), `print_op`, the `DEBUG` printfs and the printf of syscall 11 are output only. Syscall 11 therefore changes no state.
- `cycle` hands ready requests to DRAM, which is not part of this model, so `dram_ref->enqueue` and `handle_dram_completion` are left out. Only the removal of ready entries from the queues is modelled.
- L2Caches.L2Cache.CompleteMshr: the wake-up of the requesting core's L1 caches (`fill`) is left out, because it crosses into other objects; `fill` itself is modelled on its own.
- Block data payloads are `nullptr` at every call site, so the `memcpy` copies are left out. Evictions report the block's bytes.
- `cache_init`, `cache_read` and `cache_write` in `code/src/cache.c` are unused by the C++ caches and are not modelled.
- `std::log2` is floating point. The integer `log2_32` is used for the shifts instead.
- The `ReplacementPolicy`/`InclusionPolicy` fields and `isDataCache` are stored or passed but never consulted.
- `code/src/processor.cpp` is orchestration over several cores. The number of cores is a parameter of `HandleSyscall` and `Cycle`, not the constant `NUM_CORES = 1`.
- Alu.DivCorrect: signed division of -2^31 by -1 is undefined behaviour in C++. It is excluded by the lemma's precondition; the model computes the wrapped quotient 0x80000000 and remainder 0 there.
- The mem-slot bypass and stall branch of `execute` is unreachable, because `execute` returns whenever the mem slot is occupied. It is not modelled.
- The L2 `stat_cycles` counter is an unbounded natural number given as a parameter, and the L2-to-DRAM delay and the L2 hit latency are parameters, since their definitions are not part of this model.
- The MSHR table is assumed to start with every entry free, because the source does not initialise it.
- L1Caches.L1Cache.Access: on an L2 miss the pending ready cycle keeps its previous value, because the source does not set it on that path; the model keeps that behaviour as written.
- Caches.Cache.Install: because the counter is zeroed before `update_lru`, no other way ages, so counters of valid ways need not stay distinct after an install. The model states the code's behaviour, not a distinctness invariant.
- There is no concurrency: cores and stages are ticked one after the other.
- Alu.SpecialResult / Alu.RegShiftIsMask: SLLV, SRLV and SRAV in `pipe.cpp` shift by the whole rs value, which C++ leaves undefined at 32 or more. The model shifts by the rs value mod 32, as the MIPS32 instructions do; this is a modelling choice, not the source's behaviour.
- CacheBlocks.ReadWord / WriteWord / OutOfRangeIsInert: the model uses the non-wrapping range test `offset + 4 <= size`, because an offset the wrapping guard lets through (0xFFFFFFFC and above) makes the source access the vector out of bounds, which has no defined result. `get_block_offset` is below the block size, so no offset the caches compute reaches that case.
- Operands.ParseReg, Operands.ParseImm and Operands.ParseMemoryOperand: only ASCII is handled. Python's `lower()`, `int()` and the regex classes `\d` and `\w` also accept other Unicode letters and digits (the Kelvin sign lower-cases to `k`, and `int('٣')` is 3); the model rejects such text.
- Assembler.AssembleInstruction: the mnemonic is lower-cased by the same ASCII-only rule, so the unknown-instruction error for a mnemonic with non-ASCII capitals ("ADDÉ") names "addÉ" where Python's `lower()` gives "addé". The set of accepted mnemonics is unchanged, since no mnemonic contains `k`, the only ASCII letter a non-ASCII capital lower-cases to.

## Findings

| source | as written | input that shows it | evidently intended | confidence | as-written member | corrected member |
|---|---|---|---|---|---|---|
| code/assembler.py:116-121 | the shift amount is or-ed into the word at bit 6 without a range check | `sll $t0, $t1, 32` sets bit 11, so rd becomes 9 and shamt 0: the word of `sll $t1, $t1, 0`; every amount in 32..63 does the same, and a negative amount makes the word negative | shift amounts outside 0..31 are rejected | not executed | Assembler.ShiftAmountSpillsIntoRd | Assembler.ShiftWordFields |
| code/src/cache.h:53 | the guard `offset + 4 > size` is computed on `uint32_t` and wraps | offset 0xFFFFFFFC gives offset + 4 = 0 (and the three offsets above it 1..3), so the guard passes and bytes far outside the block are accessed | an offset is in range only when offset + 4 ≤ size without wrap-around | not executed | CacheBlocks.GuardLetsWrappedOffsetThrough | CacheBlocks.GuardAgreesBelowWrap |

The assembler keeps the shift encoding as written; `ShiftWord` is the corrected encoding, with its property proved on its own. The cache blocks use the corrected range test (see "## Left out").
