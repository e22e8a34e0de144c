# DADAO toolchain: verified model

A Dafny model of the code-producing parts of the DADAO toolchain, and proofs
about them. The instruction set is SimRISC: four banks of 64 registers of 64
bits (`rd`, `rb`, `rf`, `ra`), a byte memory, 32-bit little-endian words of an
8-bit opcode and four 6-bit fields.

- `Bits`, `Machine`, `Cells`, `Bytes`, `Frags`: bit operations, instruction
  decoding and execution, loads and stores in byte memory, stored words, and
  the assembler's output buffer. Instruction behaviour follows the emulator's
  translator; rd0 reads as zero and rb0 as the program counter.
- `Isa`: the meaning of the conditional branches, wyde instructions and
  multi-register accesses by the names the opcode table gives them.
- `SetImm`: the assembler's expansion of 64-bit constants, its correctness and
  its distance from a shortest program.
- `MultiReg`, `MultiRegExact`, `RegMove`: the expansions of multi-register
  loads, stores and moves into single ones, and exactly when they are
  equivalent to the one instruction.
- `Branch`, `Relax`: displacement fields, the inverted-branch-and-jump form,
  and the relaxation of branch frags to the least layout.
- `OpcodeTable`, `SimRisc`, `Encode`, `Disassemble`: the generated opcode
  tables, the lines they are generated from, the encoder, the disassembler, and
  the round trip between them.
- `FillAbs`, `DeleteBytes`: the linker's address slots and byte deletion.
- `Frame`: the compiler's prologue and epilogue.
- `Atomics`: the kernel's load-linked/store-conditional loops, interleaved one
  instruction at a time over any number of CPUs.
- `SelectFold`, `ShiftParts`: two lowerings of the LLVM back end.
- `Console`: number printing, number parsing and the line-buffered console of
  the bare-metal C library.

Code that works in place is modelled in place: the frag buffer, the stored
instruction bytes, fr_var, section contents, relocations and symbols, the insn
stream, the terminal and the digit array are fields or arrays that methods
change, each method proved against a function, and the properties are proved
about that function.

## Where the code falls short of its purpose

Each point is proved with the exact condition or with a concrete input.

- The displacement check accepts [-2^b, 2^b) for a b-bit field that holds
  [-2^(b-1), 2^(b-1)) (`Branch.OffsetExact`). A relaxed branch whose target is
  32 MiB or more away passes it and goes elsewhere when it is taken
  (`Branch.AcceptedOutOfReach`, `Relax.FinalBranch`).
- `setrd` and its kin with a constant and an ra, cp or cr register emit other
  instructions (`SetImm.BeyondRf`).
- The 18-bit branches keep their initial estimate, and distances are taken
  from the start of the frag (`Relax.StaleEstimate`, `Relax.MeasuredFromFrag`).
- The ldm/stm expansion is wrong for base rb0, for index rd0 and when the index
  is transferred after the first step (`MultiRegExact.ExpansionExactly`), and
  for registers of any bank but the one of the mnemonic's first table entry
  (`MultiRegExact.MultiCodeExactly`, `MultiRegExact.OtherBankDiffers`).
- The register-move expansion repeats the first dst - src values when the
  destination overlaps the source from above (`RegMove.MoveCodeExactly`,
  `RegMove.AscendingValues`).
- The encoder takes a symbol in the immediate of an ordinary instruction, or
  any non-constant in a 6-bit immediate, for zero, and accepts negative wyde
  numbers (`Encode.AcceptedEncodesSeen`, `Encode.NegativeWydeBreaks`).
- dd_fill_abs with setow never loads the address, and the R_DADAO_ABS case
  destroys the opcode for sign-extended addresses (`FillAbs.SetowNever`,
  `FillAbs.AbsRelocExact`).
- A place strictly inside deleted bytes moves to the wrong byte and may break
  the order of the relocations (`DeleteBytes.ShiftExactly`,
  `DeleteBytes.SortedExactly`, `DeleteBytes.InsideBreaksOrder`); a symbol with
  two hash entries moves twice (`DeleteBytes.TwoEntries`).
- The epilogue adds frame and pretend size in a 32-bit int
  (`Frame.SpRestoredExactly`).
- LowerSRL_PARTS is wrong from amount 65 on unless the high half is zero
  (`ShiftParts.SrlPartsExactly`); a comment in the code says it relies on
  wrapping shifts, which are what makes it fail.
- The padding of %d comes after the sign (`Console.AtolReadsBack`).

## Model

| member | source | states |
|---|---|---|
| `Machine.FieldsOfWord` | TCH-binutils-gdb/binutils-gdb-0235-newfiles/include/opcode/dadao.h:105-111 | the fields OP, FA, FB, FC, FD read back from the word they were put into |
| `Machine.ValueSplit` | TCH-binutils-gdb/binutils-gdb-0235-newfiles/include/opcode/dadao.h:79-83 | an octa and its four wydes wl, wk, wj, wh determine each other |
| `Machine.RunAppend` | SIM-qemu/qemu-0801-newfiles/target/dadao/translate.c:1125-1145 | running one code sequence after another is running their concatenation, an illegal instruction stopping both |
| `Machine.PutGet` | SIM-qemu/qemu-0801-newfiles/target/dadao/translate.c:1126-1145 | a register reads as it was last written; writes to rd0 and rb0 are dropped, rd0 reads as zero and rb0 as the program counter |
| `SetImm.PseudoSetImm` | TCH-binutils-gdb/binutils-gdb-0235-newfiles/gas/config/tc-dadao.c:410-518 | for every register number and constant the emitted words are the ones of the branch it takes, behind what was emitted before |
| `SetImm.SetRdImm` | TCH-binutils-gdb/binutils-gdb-0235-newfiles/gas/config/tc-dadao.c:419-484 | the rd branch emits the plan that starts from all ones when more upper wydes are 0xFFFF than 0, else from zeros |
| `SetImm.SetRbImm` | TCH-binutils-gdb/binutils-gdb-0235-newfiles/gas/config/tc-dadao.c:485-504 | the rb branch emits the plan that starts from zeros |
| `SetImm.SetRfImm` | TCH-binutils-gdb/binutils-gdb-0235-newfiles/gas/config/tc-dadao.c:505-517 | the rf branch emits four setw |
| `SetImm.WydeWordDecodes` | TCH-binutils-gdb/binutils-gdb-0235-newfiles/gas/config/tc-dadao.c:429-481 | an OR of opcode, register, wyde and immediate decodes as that wyde instruction |
| `SetImm.PlanComputes` | TCH-binutils-gdb/binutils-gdb-0235-newfiles/gas/config/tc-dadao.c:410-518 | the plan builds the constant whatever the register held |
| `SetImm.PlanLooks` | TCH-binutils-gdb/binutils-gdb-0235-newfiles/gas/config/tc-dadao.c:424-517 | the shape of the plan in numbers: ascending wydes, all ones only when more upper wydes are 0xFFFF than zero, and the kinds that follow |
| `SetImm.SetImmCorrect` | TCH-binutils-gdb/binutils-gdb-0235-newfiles/gas/config/tc-dadao.c:410-518 | for every rd, rb and rf register by its symbol, rd0 and rb0 apart: running the emitted words from any state leaves exactly the constant in it and changes nothing else but the pc; their number is 4 minus the larger count of zero or all-ones upper wydes (rd), 4 minus the zero ones (rb), 4 (rf) |
| `SetImm.BeyondRf` | TCH-binutils-gdb/binutils-gdb-0235-newfiles/gas/config/tc-dadao.c:505-517 | ra, cp and cr registers take the rf branch with a number that spills into the opcode: an illegal instruction for ra from every state, four loads of rf registers for cp and cr |
| `SetImm.LowerBound` | TCH-binutils-gdb/binutils-gdb-0235-newfiles/gas/config/tc-dadao.c:419-484 | no program over setzw, setow, orw and andnw that produces the constant from every start value is shorter than `Shortest` |
| `SetImm.ShortestIsExact` | TCH-binutils-gdb/binutils-gdb-0235-newfiles/gas/config/tc-dadao.c:419-484 | `Shortest` is attained: it is the length of a shortest program |
| `SetImm.PlanNearShortest` | TCH-binutils-gdb/binutils-gdb-0235-newfiles/gas/config/tc-dadao.c:419-484 | the rd expansion is at most one longer than a shortest program, and is longer exactly when the low wyde equals a background that is no worse for the upper three |
| `FillAbs.DdFillAbs` | TCH-binutils-gdb/binutils-gdb-0235-newfiles/bfd/elf64-dadao.c:23-63 | the bytes from the start of the slot on become the address sequence, and the result is its length in bytes, at most 16 |
| `FillAbs.FillWyde` | TCH-binutils-gdb/binutils-gdb-0235-newfiles/bfd/elf64-dadao.c:41-56 | each conditional store writes the set or the patch instruction of its wyde behind what was written, or nothing for a zero wyde |
| `FillAbs.FillAbsCorrect` | TCH-binutils-gdb/binutils-gdb-0235-newfiles/bfd/elf64-dadao.c:23-63 | with a setzw opcode the whole slot, remaining filler included, loads exactly the address from every state; the code is max(1, nonzero wydes) words |
| `FillAbs.AbsPlanShape` | TCH-binutils-gdb/binutils-gdb-0235-newfiles/bfd/elf64-dadao.c:38-62 | one operation per nonzero wyde in ascending order, the first a set and the others patches; one set for zero |
| `FillAbs.FillAbsShortest` | TCH-binutils-gdb/binutils-gdb-0235-newfiles/bfd/elf64-dadao.c:23-63 | no setzw/orw program that produces the address is shorter |
| `FillAbs.SetowNever` | TCH-binutils-gdb/binutils-gdb-0235-newfiles/bfd/elf64-dadao.c:37-39 | with the setow opcode the sequence never produces the address, whatever it is |
| `FillAbs.PerformAbs` | TCH-binutils-gdb/binutils-gdb-0235-newfiles/bfd/elf64-dadao.c:521-541 | the R_DADAO_ABS relocation stores one word when the address passes the 16-bit overflow check and the address sequence otherwise |
| `FillAbs.AbsRelocExact` | TCH-binutils-gdb/binutils-gdb-0235-newfiles/bfd/elf64-dadao.c:521-541 | the relocated slot loads the address exactly when the address is below 2^64 - 2^16; a sign-extended one destroys the opcode |
| `Branch.DdSetAddrOffset` | TCH-binutils-gdb/binutils-gdb-0235-newfiles/gas/config/tc-dadao.c:140-170 | which values are accepted, in numbers: aligned ones of an instruction address, twice the signed range of 12, 18 or 24 bits; an accepted value is added into the zero field of the stored word, a rejected one changes nothing |
| `Branch.AcceptedExactly` | TCH-binutils-gdb/binutils-gdb-0235-newfiles/gas/config/tc-dadao.c:142-153 | the acceptance test of the other theorems is that range |
| `Branch.OrFields` | TCH-binutils-gdb/binutils-gdb-0235-newfiles/gas/config/tc-dadao.c:155-170 | the fall-through switch ORs the bits into the bytes of a 24-, 18- or 12-bit field |
| `Branch.OffsetExact` | TCH-binutils-gdb/binutils-gdb-0235-newfiles/gas/config/tc-dadao.c:150-153 | an accepted value reads back from the field exactly when it is in the signed range; otherwise it is off by the field's size |
| `Branch.ConvertFragBranch` | TCH-binutils-gdb/binutils-gdb-0235-newfiles/gas/config/tc-dadao.c:1384-1409 | the stored branch gets the toggled opcode and a jump behind it |
| `Branch.ConvertBranch` | TCH-binutils-gdb/binutils-gdb-0235-newfiles/gas/config/tc-dadao.c:1462-1489 | the BRCC and BRCC12 cases store the long or the short form and report the bytes added; with which displacements they do not stop, in numbers |
| `Branch.FreshBranches` | TCH-binutils-gdb/binutils-gdb-0235-newfiles/gas/config/tc-dadao.c:1384-1409 | all eight branch opcodes, with fields of 18 and of 12 bits, are what the branch theorems are about |
| `Branch.ConvertLong` | TCH-binutils-gdb/binutils-gdb-0235-newfiles/gas/config/tc-dadao.c:1463-1469 | toggled opcode with offset 8, then a jump with the remaining displacement |
| `Branch.InvertedTaken` | TCH-binutils-gdb/binutils-gdb-0235-newfiles/gas/config/tc-dadao.c:1399-1403 | toggling the lowest opcode bit negates the condition, for all eight branches and every state |
| `Branch.LongForm` | TCH-binutils-gdb/binutils-gdb-0235-newfiles/gas/config/tc-dadao.c:1462-1489 | from every state and for every accepted displacement the long form goes on behind itself when the condition fails; when it holds, the target is reached exactly when the displacement is within the jump's signed reach |
| `Branch.AcceptedOutOfReach` | TCH-binutils-gdb/binutils-gdb-0235-newfiles/gas/config/tc-dadao.c:150-153 | which displacements the check lets pass although the jump does not reach them: 32 MiB to 64 MiB either way |
| `Branch.ShortForm` | TCH-binutils-gdb/binutils-gdb-0235-newfiles/gas/config/tc-dadao.c:1470-1488 | from every state the short form falls through when the condition fails; when it holds, the target is reached exactly when the displacement fits the signed field |
| `Relax.NewVarGrows` | TCH-binutils-gdb/binutils-gdb-0235-newfiles/gas/config/tc-dadao.c:1260-1292 | a larger layout never needs shorter branches |
| `Relax.Section.constructor` | TCH-binutils-gdb/binutils-gdb-0235-newfiles/gas/config/tc-dadao.c:1299-1342 | a section whose frags have their initial sizes |
| `Relax.Section.RelaxFrag` | TCH-binutils-gdb/binutils-gdb-0235-newfiles/gas/config/tc-dadao.c:1344-1362 | one call replaces fr_var of one frag by what the measure says and returns the growth |
| `Relax.Section.Relax` | TCH-binutils-gdb/binutils-gdb-0235-newfiles/gas/config/tc-dadao.c:1344-1362 | passing over the frags until none grows terminates in a stable layout |
| `Relax.AllGrow` | TCH-binutils-gdb/binutils-gdb-0235-newfiles/gas/config/tc-dadao.c:1344-1362 | in any order of calls no frag ever shrinks |
| `Relax.GrowsAtMostOnce` | TCH-binutils-gdb/binutils-gdb-0235-newfiles/gas/config/tc-dadao.c:1344-1362 | along any run a frag that has grown keeps its size |
| `Relax.RelaxedIsLeast` | TCH-binutils-gdb/binutils-gdb-0235-newfiles/gas/config/tc-dadao.c:1344-1362 | a stable outcome has room for everything and lies below every layout that has |
| `Relax.OrderIrrelevant` | TCH-binutils-gdb/binutils-gdb-0235-newfiles/gas/config/tc-dadao.c:1344-1362 | all stable outcomes are the same layout, whatever the order of calls |
| `Relax.LengthIsRange` | TCH-binutils-gdb/binutils-gdb-0235-newfiles/gas/config/tc-dadao.c:1265-1289 | the measured length in numbers for every distance; on aligned ones the two C comparisons are the field test |
| `Relax.SettledSizes` | TCH-binutils-gdb/binutils-gdb-0235-newfiles/gas/config/tc-dadao.c:1344-1362 | what a stable outcome of any order of calls gives each frag: 12-bit branches by their distance, address loads 12 bytes, everything else its estimate |
| `Relax.ShortBranchesFit` | TCH-binutils-gdb/binutils-gdb-0235-newfiles/gas/config/tc-dadao.c:1344-1362 | in a stable layout every 12-bit branch left short fits its field, and every other one has its extra word |
| `Relax.FinalBranch` | TCH-binutils-gdb/binutils-gdb-0235-newfiles/gas/config/tc-dadao.c:1462-1489 | exactly when a converted branch frag does what the branch means, in any layout and for every displacement that passes the check: a long form that is not taken or within the jump's reach, a taken short form within its field, an untaken one of the length the layout gave it |
| `Relax.RelaxedBranchWorks` | TCH-binutils-gdb/binutils-gdb-0235-newfiles/gas/config/tc-dadao.c:1344-1489 | in a stable layout a 12-bit branch alone in its fixed part, its target within 64 MiB, converts without an error, and reaches its target or the next frag from a state if and only if it is not taken there or the target is within the jump's reach |
| `Relax.FittingConverts` | TCH-binutils-gdb/binutils-gdb-0235-newfiles/gas/config/tc-dadao.c:1462-1489 | a displacement that fits the field of a short form, or that the jump of a long form reaches, converts |
| `Relax.StaleEstimate` | TCH-binutils-gdb/binutils-gdb-0235-newfiles/gas/config/tc-dadao.c:1347-1352 | an 18-bit branch is never measured again: a stable layout that leaves one short and out of reach, with a displacement that is still accepted |
| `Relax.MeasuredFromFrag` | TCH-binutils-gdb/binutils-gdb-0235-newfiles/gas/config/tc-dadao.c:1282-1283 | the distance is taken from the frag's start: a stable layout in which a branch behind other code does not fit |
| `MultiReg.MultipleToSingle` | TCH-binutils-gdb/binutils-gdb-0235-newfiles/gas/config/tc-dadao.c:949-966 | the emitted words of the ldm/stm expansion |
| `Isa.SteppedBySize` | TCH-binutils-gdb/binutils-gdb-0235-newfiles/gas/config/tc-dadao.c:949-966 | of the 2n emitted words the even ones access one register after the other, the odd ones step the index by 1, 2, 4 or 8 as the letter of the mnemonic tells, and the last one takes the steps back |
| `Isa.EntriesByName` | TCH-binutils-gdb/binutils-gdb-0235-newfiles/gas/config/tc-dadao.c:365-382 | the opcodes that are expanded are the lowest of their names in the table, their bank is that entry's, and a name's banks are those of its entries |
| `MultiReg.BankBitsAbsorbed` | TCH-binutils-gdb/binutils-gdb-0235-newfiles/gas/config/tc-dadao.c:954-962 | the bank bits that stay in the register number fall on opcode bits that are already set |
| `MultiReg.OwnInsnDecodes` | DADAO-opcodes/simrisc.opcodes:33-61 | the instruction that the operands ask for is the one that the mnemonic's entry for their bank encodes |
| `Isa.MultiLoad` | SIM-qemu/qemu-0801-newfiles/target/dadao/translate.c:204-235 | a word of a line named ldm... loads, from every state, consecutive elements of the size, extension and bank that its name and classes tell; nothing else changes |
| `Isa.MultiStore` | SIM-qemu/qemu-0801-newfiles/target/dadao/translate.c:239-264 | the same for stm...: each element in memory is the low part of its register |
| `Isa.MultiIllegal` | SIM-qemu/qemu-0801-newfiles/target/dadao/translate.c:204-264 | exactly a zero count or registers beyond the last are illegal |
| `Isa.ConditionalBranch` | SIM-qemu/qemu-0801-newfiles/target/dadao/translate.c:620-651 | a word of each conditional branch line goes where its name tells of the signed register values, from every state |
| `Isa.WydeInstruction` | SIM-qemu/qemu-0801-newfiles/target/dadao/translate.c:330-390 | a word of each wyde instruction line makes of every wyde of its register what its name tells, bit by bit |
| `Isa.AddImmediate` | SIM-qemu/qemu-0801-newfiles/target/dadao/translate.c:429-440 | addi adds the signed 12-bit immediate to the source modulo 2^64 |
| `MultiReg.MultiCodeRuns` | TCH-binutils-gdb/binutils-gdb-0235-newfiles/gas/config/tc-dadao.c:949-966 | running the words is running n single accesses with index steps and a last step back |
| `MultiReg.ExpansionCorrect` | TCH-binutils-gdb/binutils-gdb-0235-newfiles/gas/config/tc-dadao.c:949-966 | same registers, same memory and the index restored, from every state, when the base is not rb0, the index is not rd0 and no access interferes with it |
| `MultiRegExact.ExpansionExactly` | TCH-binutils-gdb/binutils-gdb-0235-newfiles/gas/config/tc-dadao.c:949-966 | the expansion equals the one instruction from every state if and only if that condition holds, or rb0 and rd0 address octas; for every other operand list a state that shows a difference |
| `MultiRegExact.MultiCodeExactly` | TCH-binutils-gdb/binutils-gdb-0235-newfiles/gas/config/tc-dadao.c:949-966 | the emitted words do from every state what the one instruction of the operands' own bank does if and only if that bank is the mnemonic's first entry's and the expansion is right for it |
| `MultiRegExact.OtherBankDiffers` | TCH-binutils-gdb/binutils-gdb-0235-newfiles/gas/config/tc-dadao.c:954-962 | for operands of any other bank there is a state from which the words and the operands' own instruction differ |
| `RegMove.BlockIsParallel` | SIM-qemu/qemu-0801-newfiles/target/dadao/translate.c:269-297 | the block move reads every source before it is overwritten, overlapping or not |
| `RegMove.MoveToSingle` | TCH-binutils-gdb/binutils-gdb-0235-newfiles/gas/config/tc-dadao.c:969-1005 | the emitted words of the register-move expansion |
| `RegMove.OperandNumber` | TCH-binutils-gdb/binutils-gdb-0235-newfiles/gas/config/tc-dadao.c:384-403 | the symbols of each bank's registers come back as 0 to 63 |
| `RegMove.MoveCodeRuns` | TCH-binutils-gdb/binutils-gdb-0235-newfiles/gas/config/tc-dadao.c:998-1003 | running the words is moving one register after the other, upwards |
| `RegMove.AscendingValues` | TCH-binutils-gdb/binutils-gdb-0235-newfiles/gas/config/tc-dadao.c:998-1003 | every register after the ascending moves: for src < dst < src + n the value of src + i mod (dst - src) at dst + i |
| `RegMove.ExpansionExact` | TCH-binutils-gdb/binutils-gdb-0235-newfiles/gas/config/tc-dadao.c:969-1005 | the expansion is the parallel move from every state if and only if the banks differ, or dst <= src, or dst >= src + n |
| `RegMove.MoveCodeExactly` | TCH-binutils-gdb/binutils-gdb-0235-newfiles/gas/config/tc-dadao.c:969-1005 | the same for running the emitted words |
| `Atomics.EventKeeps` | ENV-linux/linux-0504-newfiles/arch/dadao/include/asm/atomic.h:10-230 | every instruction of every CPU, every call and every return keeps the invariant that ties registers, reservations, log and counter |
| `Atomics.Linearizable` | ENV-linux/linux-0504-newfiles/arch/dadao/include/asm/atomic.h:10-230 | in every interleaving of any calls on any number of CPUs the counter is the fold of the effective calls in log order, each finished call took effect exactly once between invocation and response, returned what it returns alone at that place, and real-time order is kept |
| `Atomics.AluArithmetic` | ENV-linux/linux-0504-newfiles/arch/dadao/include/asm/atomic.h:23-56 | addition and subtraction of the sequential meaning and of the executed instruction, modulo 2^64, the difference being the one number that brings the subtrahend back |
| `Atomics.AluBitwise` | ENV-linux/linux-0504-newfiles/arch/dadao/include/asm/atomic.h:43-56 | and, or and xor at every bit |
| `Atomics.LoneCallCompletes` | ENV-linux/linux-0504-newfiles/arch/dadao/include/asm/atomic.h:19-230 | under either monitor a call that no other CPU's instruction interrupts is over after one turn of its program, with the counter and the result of running it alone |
| `Atomics.EndEnabled` | ENV-linux/linux-0504-newfiles/arch/dadao/include/asm/atomic.h:19-230 | a call at the end of its sequence can always return |
| `Atomics.ScoSees` | SIM-qemu/qemu-0801-newfiles/target/dadao/translate.c:985-1013 | a successful sco finds the counter as lro loaded it, with a reservation as with the emulator's comparison |
| `Atomics.ScoKeeps` | ENV-linux/linux-0504-newfiles/arch/dadao/include/asm/atomic.h:19-52 | a successful sco is the point where the call takes effect; a failed one changes nothing shared |
| `Atomics.LroKeeps` | ENV-linux/linux-0504-newfiles/arch/dadao/include/asm/atomic.h:140-178 | a call that declines the loaded value takes effect at its lro |
| `Atomics.PlainKeeps` | ENV-linux/linux-0504-newfiles/arch/dadao/include/asm/atomic.h:10-17 | atomic64_read and atomic64_set are single steps |
| `Atomics.NeverNegative` | ENV-linux/linux-0504-newfiles/arch/dadao/include/asm/atomic.h:142-158 | with decrements-if-positive and nonnegative additions that do not overflow the counter stays nonnegative, successful decrements plus the counter are the start plus the additions, and a decrement returns a nonnegative number exactly when it took one away |
| `Frame.SavedExactly` | TCH-gcc/gcc-1003-newfiles/gcc/config/dadao/dadao.c:992-1050 | the saved registers are the live ones among 32-63, 96-127 and 160-191, and no others |
| `Frame.SavedAscending` | TCH-gcc/gcc-1003-newfiles/gcc/config/dadao/dadao.c:1032-1050 | they are listed in ascending order, none twice |
| `Frame.SavedAndReloaded` | TCH-gcc/gcc-1003-newfiles/gcc/config/dadao/dadao.c:1032-1121 | the i-th saved register is stored in its bank's mode at the i-th slot of the prologue and reloaded i-th from the last in the epilogue |
| `Frame.Function.ExpandPrologue` | TCH-gcc/gcc-1003-newfiles/gcc/config/dadao/dadao.c:1000-1074 | the emitted RTL of the prologue |
| `Frame.Function.SaveBank` | TCH-gcc/gcc-1003-newfiles/gcc/config/dadao/dadao.c:1032-1047 | the inner loop saves one bank upwards behind what was saved before |
| `Frame.Function.ExpandEpilogue` | TCH-gcc/gcc-1003-newfiles/gcc/config/dadao/dadao.c:1078-1135 | the emitted RTL of the epilogue |
| `Frame.Function.RestoreBank` | TCH-gcc/gcc-1003-newfiles/gcc/config/dadao/dadao.c:1105-1121 | the inner loop restores one bank downwards |
| `Frame.SlotsTile` | TCH-gcc/gcc-1003-newfiles/gcc/config/dadao/dadao.c:1014-1062 | the save slots, the one of FP included, are the consecutive 8-byte cells below the entry stack pointer, each used once |
| `Frame.PrologueCorrect` | TCH-gcc/gcc-1003-newfiles/gcc/config/dadao/dadao.c:1000-1074 | from every state: where SP and FP end up, the save area holds the saved registers, and neither other registers nor memory outside it change |
| `Frame.EpilogueUndoesPrologue` | TCH-gcc/gcc-1003-newfiles/gcc/config/dadao/dadao.c:1000-1135 | after prologue, any body that keeps SP and the save area, and epilogue, SP, FP and every live register among 32-63, 96-127 and 160-191 are back and all else is as the body left it, for every set of live registers, frame and pretend size up to 2 GiB, with and without a frame pointer |
| `Frame.SpRestoredExactly` | TCH-gcc/gcc-1003-newfiles/gcc/config/dadao/dadao.c:1089-1094 | SP is restored if and only if frame and pretend area together are below 2^31: the epilogue adds them in an int |
| `DeleteBytes.Section.DeleteBytes` | TCH-binutils-gdb/binutils-gdb-0235-newfiles/bfd/elf64-dadao.c:1044-1112 | bytes, relocations, local symbols and global symbols after one deletion; a global is adjusted once per hash entry |
| `DeleteBytes.Section.MoveDown` | TCH-binutils-gdb/binutils-gdb-0235-newfiles/bfd/elf64-dadao.c:1065-1067 | the overlapping move towards lower addresses |
| `DeleteBytes.Section.AdjustRelocs` | TCH-binutils-gdb/binutils-gdb-0235-newfiles/bfd/elf64-dadao.c:1070-1077 | every relocation behind the address moves down by count |
| `DeleteBytes.Section.AdjustLocals` | TCH-binutils-gdb/binutils-gdb-0235-newfiles/bfd/elf64-dadao.c:1081-1088 | every local symbol of the section behind the address moves down by count |
| `DeleteBytes.Section.AdjustGlobals` | TCH-binutils-gdb/binutils-gdb-0235-newfiles/bfd/elf64-dadao.c:1090-1110 | every defined global of the section behind the address moves down, once for each entry that points to it |
| `DeleteBytes.OneEntryOnce` | TCH-binutils-gdb/binutils-gdb-0235-newfiles/bfd/elf64-dadao.c:1096-1110 | with one hash entry per symbol the adjustment happens once |
| `DeleteBytes.TwoEntries` | TCH-binutils-gdb/binutils-gdb-0235-newfiles/bfd/elf64-dadao.c:1096-1110 | a second entry moves the symbol again unless the first adjustment took it down to the deleted place |
| `DeleteBytes.BytesAfterDeletions` | TCH-binutils-gdb/binutils-gdb-0235-newfiles/bfd/elf64-dadao.c:1044-1112 | after any sequence of deletions the section is the original bytes without the deleted ranges, in the original order |
| `DeleteBytes.SurvivorsKeepMarks` | TCH-binutils-gdb/binutils-gdb-0235-newfiles/bfd/elf64-dadao.c:1070-1110 | after any sequence a symbol or relocation whose byte survives still marks that byte |
| `DeleteBytes.SymbolsAfterDeletions` | TCH-binutils-gdb/binutils-gdb-0235-newfiles/bfd/elf64-dadao.c:1070-1110 | after any sequence a place that was never strictly inside a deleted range stands between the same surviving bytes |
| `DeleteBytes.ShiftExactly` | TCH-binutils-gdb/binutils-gdb-0235-newfiles/bfd/elf64-dadao.c:1074-1076 | one deletion adjusts a place correctly if and only if the place is not strictly inside the deleted bytes |
| `DeleteBytes.CompareIsOffsetOrder` | TCH-binutils-gdb/binutils-gdb-0235-newfiles/bfd/elf64-dadao.c:962-983 | the two-stage comparison is the order of the offsets |
| `DeleteBytes.SortedExactly` | TCH-binutils-gdb/binutils-gdb-0235-newfiles/bfd/elf64-dadao.c:1070-1077 | one deletion keeps a sorted relocation list sorted if and only if no two of its offsets cross: the later one just behind the deletion, or the earlier one within count and wrapping |
| `DeleteBytes.RelocsStaySorted` | TCH-binutils-gdb/binutils-gdb-0235-newfiles/bfd/elf64-dadao.c:1070-1077 | a sorted relocation list stays sorted through any sequence of deletions that never has one of its offsets strictly inside |
| `DeleteBytes.DeleteEach` | TCH-binutils-gdb/binutils-gdb-0235-newfiles/bfd/elf64-dadao.c:1044-1112 | deleting ranges one after the other leaves the bytes, relocations, local and global symbols that the sequence theorems are about |
| `DeleteBytes.GlobalsMoveAlike` | TCH-binutils-gdb/binutils-gdb-0235-newfiles/bfd/elf64-dadao.c:1090-1110 | with one hash entry a global moves through any sequence like a relocation of the same offset |
| `DeleteBytes.InsideBreaksOrder` | TCH-binutils-gdb/binutils-gdb-0235-newfiles/bfd/elf64-dadao.c:1070-1077 | any offset strictly inside breaks the order of a sorted two-element list |
| `SimRisc.Lines` | DADAO-opcodes/simrisc.opcodes:7-306 | the 169 instructions of the opcode file; no two of them share an 8- or 14-bit opcode |
| `SimRisc.AnyOrder` | DADAO-opcodes/simrisc.opcodes:7-306 | in whatever order they are listed, the lines are a table without ambiguity: the hypothesis of the round trip |
| `OpcodeTable.MatchesOfLine` | DADAO-opcodes/parse-opcodes.py:262-327 | a word matches a generated disassembler entry exactly when it has the line's 8- or 14-bit opcode |
| `Encode.GetInsnCode` | TCH-binutils-gdb/binutils-gdb-0235-newfiles/gas/config/tc-dadao.c:656-875 | return value and word for every entry and every operand list, field by field |
| `Encode.PlainEncodes` | TCH-binutils-gdb/binutils-gdb-0235-newfiles/gas/config/tc-dadao.c:656-875 | every operand list in the fields' own kinds and ranges is accepted and every operand is in its place of the word, `call rb0, rd0, 0` excepted |
| `Encode.ReturnsVerdict` | TCH-binutils-gdb/binutils-gdb-0235-newfiles/gas/config/tc-dadao.c:656-875 | the return value for every line and every operand list: -1 for what is not readable, the line's kind for a label where an address, displacement or offset belongs, else 0 |
| `Encode.LabelIsRelocated` | TCH-binutils-gdb/binutils-gdb-0235-newfiles/gas/config/tc-dadao.c:697-706 | a label in the immediate of a jump, call, branch, load or store returns the line's kind, and the word is the one for zero |
| `Encode.RegisterOperand` | TCH-binutils-gdb/binutils-gdb-0235-newfiles/gas/config/tc-dadao.c:384-403 | the symbol of a register is an operand of exactly the fields of its class, and its number is what the word gets |
| `Encode.AcceptedEncodesSeen` | TCH-binutils-gdb/binutils-gdb-0235-newfiles/gas/config/tc-dadao.c:656-875 | everything that is not rejected, a negative wyde number apart, is encoded as one plain list: labels and missing 6-bit constants count as zero, a shifted third operand replaces the second |
| `Encode.NegativeWydeBreaks` | TCH-binutils-gdb/binutils-gdb-0235-newfiles/gas/config/tc-dadao.c:738-741 | an accepted negative wyde number, from any character that gives one, turns the opcode into 0xFF |
| `Disassemble.ReshuffleReads` | TCH-binutils-gdb/binutils-gdb-0235-newfiles/opcodes/dadao-dis.c:103-108 | the big-endian read and the reshuffle of the fields give back the little-endian word |
| `Disassemble.DisassembleInfo.PrintInsn` | TCH-binutils-gdb/binutils-gdb-0235-newfiles/opcodes/dadao-dis.c:80-173 | a failed read reports the address; otherwise the output of the first matching entry, or nothing, is appended |
| `Disassemble.DisassembleInfo.PrintMatch` | TCH-binutils-gdb/binutils-gdb-0235-newfiles/opcodes/dadao-dis.c:117-168 | one matching entry printed, and the branch target recorded |
| `Disassemble.DisassembleInfo.Scan` | TCH-binutils-gdb/binutils-gdb-0235-newfiles/opcodes/dadao-dis.c:110-171 | the loop over the table prints the first matching entry and records its target, or does nothing |
| `Disassemble.TargetIsPrinted` | TCH-binutils-gdb/binutils-gdb-0235-newfiles/opcodes/dadao-dis.c:128-154 | the target recorded for an encoded branch is the address printed for it, and none is recorded for other instructions |
| `Disassemble.OperandPrinted` | TCH-binutils-gdb/binutils-gdb-0235-newfiles/opcodes/dadao-dis.c:17-77 | a register, immediate or wyde number of an encoded word prints as it was written |
| `Disassemble.OffsetPrinted` | TCH-binutils-gdb/binutils-gdb-0235-newfiles/opcodes/dadao-dis.c:128-154 | the displacement of an encoded branch is four times the signed value that was written |
| `Disassemble.TableFinds` | TCH-binutils-gdb/binutils-gdb-0235-newfiles/opcodes/dadao-dis.c:110-115 | in a table without ambiguity the scan finds the word's own line |
| `Disassemble.RoundTrip` | TCH-binutils-gdb/binutils-gdb-0235-newfiles/opcodes/dadao-dis.c:80-173 | for every format: an accepted instruction stored and disassembled prints its mnemonic and exactly the operands it was taken for |
| `Disassemble.PlainRoundTrip` | TCH-binutils-gdb/binutils-gdb-0235-newfiles/opcodes/dadao-dis.c:80-173 | operands in plain form come back as they were written, branch targets as addresses |
| `Disassemble.ArgsSay` | TCH-binutils-gdb/binutils-gdb-0235-newfiles/opcodes/dadao-dis.c:17-168 | what the printed arguments say: registers by class and number, displacements of jumps and branches as addresses, signed formats in decimal, others in hexadecimal |
| `ShiftParts.ShlPartsCorrect` | TCH-llvm/llvm-1600-newfiles/llvm/lib/Target/Dadao/DadaoISelLowering.cpp:1138-1185 | with amounts taken modulo 64 the pair is the 128-bit left shift for every amount below 128 |
| `ShiftParts.SrlPartsExactly` | TCH-llvm/llvm-1600-newfiles/llvm/lib/Target/Dadao/DadaoISelLowering.cpp:1187-1225 | the pair is the 128-bit logical right shift if and only if the amount is at most 64 or the high half is zero |
| `ShiftParts.BigSrl` | TCH-llvm/llvm-1600-newfiles/llvm/lib/Target/Dadao/DadaoISelLowering.cpp:1207-1222 | from amount 64 on only the carry bits are left in the low half |
| `SelectFold.FoundIsMeaning` | TCH-llvm/llvm-1600-newfiles/llvm/lib/Target/Dadao/DadaoISelLowering.cpp:1250-1301 | what is recognised as conditionally zero or all ones means what the node means, inverted or not |
| `SelectFold.CombineExactly` | TCH-llvm/llvm-1600-newfiles/llvm/lib/Target/Dadao/DadaoISelLowering.cpp:1303-1388 | for every node and all use counts: which operand is folded, into what, and when nothing is done |
| `SelectFold.CombineKeepsValue` | TCH-llvm/llvm-1600-newfiles/llvm/lib/Target/Dadao/DadaoISelLowering.cpp:1320-1388 | one combine keeps the node's value under every environment, whatever the use counts |
| `SelectFold.RunKeepsValue` | TCH-llvm/llvm-1600-newfiles/llvm/lib/Target/Dadao/DadaoISelLowering.cpp:1372-1388 | any number of combines at any nodes of any tree keeps its value under every environment |
| `SelectFold.CombineIsLighter` | TCH-llvm/llvm-1600-newfiles/llvm/lib/Target/Dadao/DadaoISelLowering.cpp:1320-1388 | every combine makes the node lighter in a weight that all contexts respect |
| `SelectFold.RunsAreBounded` | TCH-llvm/llvm-1600-newfiles/llvm/lib/Target/Dadao/DadaoISelLowering.cpp:1372-1388 | a run of combines is no longer than the tree's weight |
| `Console.Terminal.PutChar` | DADAO-testset/dhrystone-bare/common/syscalls.c:99-113 | written bytes followed by the buffer are the characters passed so far, in order; the buffer stays below 64 and is empty after a newline; every write is full or ends in a newline |
| `Console.PrintNum` | DADAO-testset/dhrystone-bare/common/syscalls.c:129-148 | padding up to the width and then the digits of the number are passed to the console, for every number and base from 2 to 16 |
| `Console.TextIs` | DADAO-testset/dhrystone-bare/common/syscalls.c:129-148 | character by character: the padding, then the digits 0 to 9 and a to f |
| `Console.CollectDigits` | DADAO-testset/dhrystone-bare/common/syscalls.c:132-141 | the first loop terminates within the digit array and leaves the digits lowest first |
| `Console.Pad` | DADAO-testset/dhrystone-bare/common/syscalls.c:143-144 | as many padding characters as the width exceeds the digits |
| `Console.PrintDigits` | DADAO-testset/dhrystone-bare/common/syscalls.c:146-147 | the digits, highest first |
| `Console.DigitsStandForNumber` | DADAO-testset/dhrystone-bare/common/syscalls.c:135-141 | the digits are in range, without a leading zero except for zero itself, and stand for the number |
| `Console.DigitsAreUnique` | DADAO-testset/dhrystone-bare/common/syscalls.c:135-141 | no other such digit string stands for it |
| `Console.PrintSigned` | DADAO-testset/dhrystone-bare/common/syscalls.c:270-303 | %d: the sign, then the padded magnitude of the int or long argument |
| `Console.PrintUnsigned` | DADAO-testset/dhrystone-bare/common/syscalls.c:280-303 | %u, %o, %x: the padded digits of the unsigned argument |
| `Console.IntArgument` | DADAO-testset/dhrystone-bare/common/syscalls.c:160-168 | %d prints the int in the low half of its argument word, or the long with a length flag |
| `Console.UintArgument` | DADAO-testset/dhrystone-bare/common/syscalls.c:150-158 | %u, %o and %x print the unsigned int in the low half, or the unsigned long with a length flag |
| `Console.Atol` | DADAO-testset/dhrystone-bare/common/syscalls.c:423-442 | blanks skipped, an optional sign, then every character up to the end counted as a digit |
| `Console.AtolReads` | DADAO-testset/dhrystone-bare/common/syscalls.c:423-442 | any blanks, any sign and decimal digits give the number with its sign |
| `Console.AtolReadsBack` | DADAO-testset/dhrystone-bare/common/syscalls.c:423-442 | parsing printed %ld output gives the number back if and only if the field adds nothing, or zeros, or blanks before a number without a sign (or is `-0`) |
| `Console.AtolStaysLong` | DADAO-testset/dhrystone-bare/common/syscalls.c:436-439 | for |n| < 2^63 the running value never leaves the range of a long |

## Left out

- The parsing of the opcode file and its operand restrictions beyond register
  classes; `SimRisc.Lines` is the table it holds.
- Choosing among the up to five entries of one mnemonic in dadao_md_assemble,
  operand text parsing, options, %hi and %lo, fixups and error messages.
- The register-move case reads exp[3], which a three-operand instruction leaves
  uninitialised, before it expands; the model expands.
- GAS frag allocation and the generic relaxation driver with its stale
  addresses: addresses are the prefix sums of fr_fix + fr_var, and fr_offset
  is 0 or part of the symbol's offset.
- The HI18 and LO12 cases of md_convert_frag pass a width of 30, which
  dd_set_addr_offset always rejects.
- FillAbs.DdFillAbs: only for setzw rd, setzw rb and setow rd; the code leaves
  the follow-up instruction uninitialised for any other opcode.
- FillAbs.PerformAbs: an instruction of another opcode (setw) only where its
  address fits one word, for the same reason.
- The `*unknown*` text of the disassembler, for operand kinds that the table
  generator never emits.
- Link-time BRCC, BRCC12, JUMP and CALL relocations, and the relaxation driver
  dadao_elf_relax_section; its byte deletion is modelled.
- The qsort of the relocations: its comparison is modelled.
- `MultiReg.ExpansionCorrect`: the status that rf0 holds is an ordinary register
  value here, and loading it has no further effect.
- Floating-point arithmetic; rf registers are 64-bit values that are moved,
  loaded and stored.
- `Atomics.Linearizable`: acquire and release suffixes and weak memory order
  are not modelled, all CPUs see one order of steps; that a retry loop
  ends is stated for a call left undisturbed, not under contention. In atomic64_dec_if_positive the text of two
  instructions lacks a separator; they are modelled as two instructions.
- GCC's choice of live registers and frame sizes, and insns that a body may
  use; a body is any change of state that keeps SP and the save area.
- `SelectFold.RunKeepsValue`: sharing in the DAG is modelled as trees with an
  answer for each one-use query, and nodes that getNode folds are kept.
- The rest of vprintfmt: the parser of directives, %s, %c and %p; widths, flags
  and lengths of the integer directives are parameters.
- System calls, counters, memcpy and the other string functions.
