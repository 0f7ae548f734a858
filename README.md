# A verified model of the x86-like processor simulator

The simulator reads a file of 32-bit machine words and decodes each word into an
instruction. It then runs the instructions on a small machine:

- 17 `int` registers: register 6 is the stack pointer %esp and register 16 the flags word;
- a byte-addressed stack memory of 1024 bytes;
- a program counter holding a byte address.

The loop of `main` calls `execute_instruction` until the pc reaches
`num_instructions * 4`. A `ret` that finds %esp at 1024 ends the program with `exit(0)`.

This project models that core in Dafny:

- `words.dfy` (module `Words`): C `int` (32-bit, wrapping), `unsigned int`, `int16_t` and
  bytes on unbounded integers, with every conversion written out.
- `decoder.dfy` (module `Decoder`): the instruction format. Its fields are a 5-bit opcode
  (bits 31:27), two 5-bit register fields (26:22, 21:17) and a 16-bit signed immediate
  (15:0). This file also has `decode_instructions` as a loop over an array.
- `memory.dfy` (module `ByteMemory`): the byte memory and its little-endian 4-byte word
  loads and stores.
- `flags.dfy` (module `Flags`): what `cmpl` computes and how the conditional jumps read
  it back. Both the jump tests as the source writes them and the intended tests are here
  (see Findings).
- `machine.dfy` (module `Machine`): the machine state and one step of
  `execute_instruction`, as pure functions. `Machine.Run` is the loop of `main`, bounded
  by a fuel count. These functions are the specification the imperative code is proved
  against.
- `cpu.dfy` (module `Simulator`): the simulator as an imperative program. A `Cpu` object
  holds the register array (an `array<i32>` updated in place), the memory and the console.
  Each method serves one group of `case`s of the `switch` and is proved to do what the
  matching `Machine` function says: `Arithmetic` the seven arithmetic and register-move
  cases, `Jump` the six jumps, `Console` `printr`, `readr` and the opcodes no case names;
  `Load`, `Store`, `PushRegister`, `PopRegister`, `CompareOperands`, `CallSubroutine` and
  `Return` one case each. `Cpu.Run` is the `while` loop of `main`, and `Simulate` decodes,
  initialises and runs. The jumps `jl`, `jle` and `jge` run the test their comments
  describe, not the one the code writes (see Findings); everything else runs as the code
  does.
- `properties.dfy`, `stack.dfy`, `runs.dfy`: what single instructions, sequences of pushes
  and pops, and whole runs do, each stated against an independent definition.

Modelling decisions that follow the code:

- `call` and `ret` address the stack as `(unsigned int*) memory + %esp`. That is byte
  address 4 · %esp, while `pushl`, `popl` and the `movl` forms use byte address
  `memory + reg`. The model keeps both.
- The memory is a map from byte address to byte. It starts with the 1024 zero bytes, and a
  store anywhere adds its bytes.
- `cmpl` clears register 16 before it reads the operands for the carry test (simulator.c
  lines 178-180). A `cmpl` that names register 16 therefore compares 0 for the carry flag.
  `Machine.CompareStep` does the same.
- A taken jump, `jmp` and `call` add the immediate to the pc and then fall through to the
  common `+ 4`. The target is therefore pc + imm + 4 modulo 2^32. `ret` returns the loaded
  word with no `+ 4`.

## Model

| member | source | states |
|---|---|---|
| Words.UnsignedWrap | simulator.c:146-158 | the bit pattern of a wrapped `int` result is the exact result modulo 2^32 |
| Words.SignedUnsigned | simulator.c:165-169 | storing an `int` as an `unsigned int` word and reading it back as `int` gives the same value |
| Words.UnsignedSigned | simulator.c:165-169 | reading an `unsigned int` word as `int` and storing it back gives the same word |
| Decoder.SignExtend16 | simulator.c:126 | the immediate is the 16-bit two's-complement value of bits 15:0: congruent to them modulo 2^16, negative exactly when bit 15 is set |
| Decoder.Decode | simulator.c:118-127 | the immediate of a decoded word is congruent to its low 16 bits, and negative exactly when bit 15 is set |
| Decoder.DecodeEncode | simulator.c:118-127 | every instruction whose fields are in range survives encoding then decoding: opcode from bits 31:27, registers from 26:22 and 21:17, immediate from 15:0 |
| Decoder.EncodeDecode | simulator.c:118-127 | decoding a word and re-encoding it gives the word back with bit 16 cleared: bit 16 is the only bit the decoder drops |
| Decoder.ImmediateFromLowBits | simulator.c:126 | the immediate depends on bits 15:0 and nothing else |
| Decoder.AllOnesImmediate | simulator.c:126 | a word whose low half-word is 0xFFFF has immediate -1; the word 0xFFFF decodes to opcode 0, registers 0, immediate -1 |
| Decoder.DecodeInstructions | simulator.c:112-130 | the array filled by the loop has one instruction per word, instruction i being word i decoded |
| ByteMemory.LoadWord | simulator.c:165 | a word load succeeds exactly when its four bytes are present |
| ByteMemory.StoreWord | simulator.c:169 | after a word store the same address loads back the stored word, and every byte outside the four written is unchanged and present exactly when it was before |
| ByteMemory.LoadAfterDisjointStore | simulator.c:169 | storing a word leaves every word that does not overlap it loading as before |
| Flags.Compare | simulator.c:175-199 | CF iff unsigned first > unsigned second; ZF iff they are equal; SF iff bit 31 of (second - first) mod 2^32; OF iff the exact difference does not fit in 32 bits |
| Flags.PackExactBits | simulator.c:175-200 | the flags word holds CF, ZF, SF, OF at bits 0, 6, 7, 11, every other bit clear, and the four bits read back as the four flags |
| Flags.CompareThenBranch | simulator.c:175-234 | right after `cmpl first, second`, `je` is taken iff second = first, `jl` iff second < first, `jle` iff second <= first, `jge` iff second >= first (signed), `jbe` iff unsigned second <= unsigned first |
| Flags.AsWrittenTestsSignOrOverflow | simulator.c:207-227 | as written, the exclusive or of the two masks makes `jl`, `jle`, `jge` test "SF or OF" where "SF differs from OF" is meant; the other jumps are as intended |
| Flags.SignedJumpsAsWrittenDisagree | simulator.c:207-227 | whenever second - first overflows upward, the written `jl`, `jle` are taken and `jge` is not, all three the opposite of the comparison |
| Flags.JumpsAsWrittenAgree | simulator.c:207-227 | unless second - first reaches 2^31, every written jump test gives the same answer as the intended one after `cmpl first, second` |
| Flags.AsWrittenDisagreesExactly | simulator.c:207-227 | for any flags word, the written and the intended test of `jl`, `jle` or `jge` disagree exactly when SF and OF are both set and, for `jle`, ZF is clear; for the other jumps they always agree |
| Flags.XorZero | simulator.c:209 | the exclusive or of two values is zero exactly when they are equal |
| StepProperties.ArithmeticWritesDestination | simulator.c:145-174 | `subl`, `addl`, `imull`, `shrl`, `movl` write one register: reg2 for the two-register forms, reg1 otherwise. Its bit pattern is the exact C result mod 2^32, and the exact result itself when that fits. All other registers, the memory and the console are unchanged, and the pc moves to pc + 4 |
| StepProperties.NonControlAdvances | simulator.c:145-200 | every instruction other than a jump, `call` or `ret` that completes moves the pc to pc + 4 and never halts |
| StepProperties.UnknownOpcodeIsNoop | simulator.c:143-144 | an opcode value no case names changes nothing but the pc, which moves to pc + 4 |
| StepProperties.CompareSetsFlags | simulator.c:175-200 | `cmpl` changes only register 16 and the pc; the new flags word is below 0x1000 with bits 1-5 and 8-10 clear, and its four flag bits are the carry (read after the flags word is cleared), zero, sign and overflow tests |
| StepProperties.CompareThenJump | simulator.c:175-237 | with the intended jump tests, a jump right after `cmpl a, b` goes to pc + imm + 4 exactly when the comparison named by the jump holds of b against a, and to pc + 4 otherwise, changing nothing else (operands other than register 16) |
| StepProperties.CompareThenJumpAsWritten | simulator.c:175-227 | with the jump tests as written, right after `cmpl a, b` (operands other than register 16): `je`, `jbe`, `jmp` are taken exactly when their comparison holds; `jl`, `jle`, `jge` too while b - a < 2^31, and exactly when it fails once b - a >= 2^31 |
| StepProperties.LoadAfterStore | simulator.c:163-170 | `movl_deref_reg` at the address a `movl_reg_deref` just wrote loads the stored register back into reg2 |
| StepProperties.StoreKeepsOtherWords | simulator.c:167-170 | `movl_reg_deref` leaves every word that does not overlap the four bytes written as it was |
| StepProperties.CallThenReturn | simulator.c:238-263 | `call` lowers %esp by 4 and jumps to pc + imm + 4; a later `ret` with %esp where the call left it and the slot unchanged resumes at the call's pc + 4 with %esp restored |
| Stack.PushOne | simulator.c:265-272 | `pushl r` lowers %esp by 4, stores r in the new top word, and leaves every other register and every word at or above the old %esp or wholly below the new one as before |
| Stack.PushAllRegisters | simulator.c:265-272 | n pushes lower %esp by 4n and change no other register |
| Stack.PushAllSlots | simulator.c:265-272 | after n pushes the i-th register pushed is in the word at old %esp - 4(i + 1), and no word at or above the old %esp changed |
| Stack.PopAllValues | simulator.c:273-280 | n pops into distinct registers from a stack holding words w0, w1, ... give register i the word wi as `int`, raise %esp by 4n, and change neither memory nor any other register |
| Stack.PushesThenPops | simulator.c:265-280 | n pushes then n pops into distinct registers return the pushed values in reverse order, restore %esp, and leave every register not popped into as it was |
| Runs.InitialState | simulator.c:79-96 | the loop starts at pc 0 with every register 0 but %esp = 1024; every word inside the 1024 stack bytes reads 0, and every word reaching outside them is unmapped |
| Runs.HaltsOnlyAtEmptyReturn | simulator.c:246-257 | a step halts exactly when the instruction is `ret` and %esp is 1024, and then leaves the state unchanged |
| Runs.StepConsole | simulator.c:281-286 | each step only appends to the output (at most one value) and only consumes input (at most one integer) |
| Machine.JumpStep | simulator.c:201-237 | a jump changes only the pc: to pc + imm + 4 when its flag test holds (always for `jmp`), to pc + 4 otherwise |
| Machine.Exec | simulator.c:136-295 | one step of `execute_instruction`: a step that goes on keeps the register file whole, a step that halts leaves the state as it was, and the fetch fails exactly when pc / 4 is past the instruction array |
| Machine.Run | simulator.c:96-102 | the loop of `main`: a run that does not crash ends in a well-formed state, and it finishes exactly when that state's pc is 4 · num_instructions; a crash needs at least one step |
| Runs.RunEnds | simulator.c:99-102 | a run exits only at a `ret` on the empty stack, before the pc reaches 4 · num_instructions |
| Runs.RunConsole | simulator.c:99-102 | over a whole run the output only grows and the input is only consumed from the front |
| Runs.ReturnOnEmptyStackExits | simulator.c:254-257 | at a `ret` with %esp = 1024 the run exits in the state it reached |
| Runs.RunMoreFuel | simulator.c:99-102 | a run that ended without exhausting its fuel ends the same way with any more fuel |
| Simulator.Cpu.constructor | simulator.c:79-96 | the register and memory initialisation loops leave exactly `Machine.Initial`: registers 0, %esp 1024, 1024 zero bytes, pc 0 |
| Simulator.Cpu.Execute | simulator.c:136-143 | one call of `execute_instruction` updates the register array and memory in place to the state `Machine.Exec` gives, and reports the next pc, the exit or the fault |
| Simulator.Cpu.Perform | simulator.c:143-288 | the `switch` dispatches each mnemonic to its case and does what `Machine.Effect` says |
| Simulator.Cpu.Arithmetic | simulator.c:145-174 | the arithmetic and move cases leave the registers as `Machine.ArithmeticStep` says and return pc + 4 |
| Simulator.Cpu.Load | simulator.c:163-166 | `movl_deref_reg` updates the registers as `Machine.LoadStep` says, or faults on an unmapped word |
| Simulator.Cpu.Store | simulator.c:167-170 | `movl_reg_deref` updates the memory as `Machine.StoreStep` says and returns pc + 4 |
| Simulator.Cpu.PushRegister | simulator.c:265-272 | `pushl` updates %esp and memory as `Machine.Push` says and returns pc + 4 |
| Simulator.Cpu.PopRegister | simulator.c:273-280 | `popl` updates the registers as `Machine.PopStep` says, or faults on an unmapped word |
| Simulator.Cpu.CompareOperands | simulator.c:175-200 | the flag-by-flag additions to register 16 leave the flags word `Machine.CompareStep` describes, and return pc + 4 |
| Simulator.Cpu.Jump | simulator.c:201-237 | the jumps change no state and return the pc `Machine.JumpStep` gives (the intended tests for `jl`, `jle`, `jge`) |
| Simulator.Cpu.CallSubroutine | simulator.c:238-245 | `call` updates %esp and memory and returns the pc as `Machine.CallStep` says |
| Simulator.Cpu.Return | simulator.c:246-264 | `ret` exits on the empty stack, or restores the pc and %esp as `Machine.ReturnStep` says |
| Simulator.Cpu.Console | simulator.c:281-286 | `printr` and `readr` change the console and registers as `Machine.ConsoleStep` says, and return pc + 4 |
| Simulator.Cpu.Run | simulator.c:97-102 | the `while` loop ends with the result `Machine.Run` gives from the state the object held |
| Simulator.Simulate | simulator.c:68-102 | decoding, initialisation and the loop together give `Machine.Run` of the decoded program from `Machine.Initial` |

## Left out

- Loading the file, the argument check, `error_exit` and `print_instructions` are not part
  of this model. The program is given as a sequence of words. The word count is therefore
  the file size divided by 4, and the file size is a multiple of 4.
- The `printf` formatting of `printr` is not modelled: the register value is appended to
  an output sequence. `scanf` in `readr` takes the next integer of an input sequence. At
  the end of the input the register is left unchanged. Malformed input text is not
  modelled.
- `exit(0)` is modelled as the `Exited` result of a run, and `malloc` as the initial state.
- What C leaves undefined becomes an explicit fault, not a guess:
  - a register field of 17 or more, in a field the opcode uses, is `BadRegister`;
  - a pc whose index pc / 4 is past the instruction array is `BadFetch`;
  - a word load touching a byte that was never allocated nor written is `UnmappedRead`.

  Stores outside the 1024 bytes succeed and add bytes to the memory. The memory is an
  unbounded map, so it never overlaps the instruction array or anything else the C heap
  holds.
- The `int` results that overflow (signed overflow is undefined in C) are taken to wrap
  modulo 2^32.
- The numbering of the opcodes in `instruction.h`, which is not part of this model, is a
  parameter (`OpcodeTable`); values it does not name are `Unknown`. The immediate is taken
  to be sign-extended from 16 bits, as the `int16_t` field of `instruction_t` makes it.
- Machine.Run: the loop of `main` may run forever. The model runs at most `fuel` steps and
  reports `OutOfFuel` otherwise; `Runs.RunMoreFuel` shows the bound never changes how a
  run that ends does end.
- Stack.PushesThenPops: stated over the `pushl` and `popl` state updates, for the case
  where %esp - 4n does not wrap below -2^31.
- StepProperties.CallThenReturn: stated for a %esp that neither wraps when lowered by 4
  nor lands on 1024 (where the `ret` would exit).
- Machine.JumpStep, Simulator.Cpu.Jump: `jl`, `jle` and `jge` use the test their comments
  describe, SF differing from OF (the corrected half of the finding below). The code as
  written tests SF or OF; the two differ exactly when bits 7 (SF) and 11 (OF) of
  register 16 are both set and, for `jle`, bit 6 (ZF) is clear
  (`Flags.AsWrittenDisagreesExactly`). After a `cmpl` this happens when b - a is at least
  2^31 (`StepProperties.CompareThenJumpAsWritten`, `Flags.SignedJumpsAsWrittenDisagree`);
  any instruction that writes register 16, such as
  `movl_imm_reg` with 0x880, can also produce it.
- StepProperties.CompareThenJump: stated for `cmpl` operands other than register 16, whose
  carry test reads the cleared flags word.

## Findings

| source | as written | input that shows it | evidently intended | confidence | as-written member | corrected member |
|---|---|---|---|---|---|---|
| simulator.c:207-227 | `jl`, `jle` and `jge` test `(r & (1 << 7)) ^ (r & (1 << 11))`. The two masks are different bits, so their exclusive or is non-zero when either flag is set: the jumps test SF or OF | `cmpl` with first = -1 and second = 0x7fffffff: the difference 2^31 sets both SF and OF. As written `jl` and `jle` are taken and `jge` is not, although second > first | SF differs from OF, as the comments on lines 208, 215 and 222 say, i.e. the signed comparisons | not executed | Flags.SignedJumpsAsWrittenDisagree | Flags.CompareThenBranch |
