/** What single instructions do, stated against independent definitions: the exact
    arithmetic result, the comparison a jump is named after, the word just stored, the
    return address just pushed. */
module StepProperties {
  import opened Words
  import opened Decoder
  import opened Flags
  import opened ByteMemory
  import opened Machine

  /** The register an arithmetic or move instruction writes: the second field for the
      two-register forms, the first otherwise. */
  function Destination(op: Opcode, ins: Instruction): int
  {
    if op.AddlRegReg? || op.Imull? || op.MovlRegReg? then ins.reg2 else ins.reg1
  }

  /** The value the C expression denotes in exact arithmetic, before it is stored in an
      `int`. */
  function Exact(op: Opcode, ins: Instruction, regs: seq<i32>): int
    requires |regs| == NUM_REGS && IsArithmetic(op)
    requires ins.reg1 < NUM_REGS && (Arity(op) == 2 ==> ins.reg2 < NUM_REGS)
  {
    match op
    case Subl => regs[ins.reg1] as int - ins.imm
    case AddlRegReg => regs[ins.reg1] as int + regs[ins.reg2]
    case AddlImmReg => regs[ins.reg1] as int + ins.imm
    case Imull => regs[ins.reg1] as int * regs[ins.reg2]
    case Shrl => Unsigned(regs[ins.reg1]) / 2
    case MovlRegReg => regs[ins.reg1]
    case MovlImmReg => ins.imm
  }

  /** Arithmetic and moves write one register, whose bit pattern is the exact result
      modulo 2^32 (the exact result itself when it fits in an `int`); every other
      register, the memory and the console are untouched and the pc moves on by 4. */
  lemma ArithmeticWritesDestination(op: Opcode, ins: Instruction, s: State)
    requires Wf(s) && IsArithmetic(op)
    requires ins.reg1 < NUM_REGS && (Arity(op) == 2 ==> ins.reg2 < NUM_REGS)
    ensures var t := ArithmeticStep(op, ins, s);
      && t.pc == Next(s.pc) && t.mem == s.mem && t.input == s.input && t.output == s.output
      && (forall i :: 0 <= i < NUM_REGS && i != Destination(op, ins) ==> t.regs[i] == s.regs[i])
      && Unsigned(t.regs[Destination(op, ins)]) == Exact(op, ins, s.regs) % WORD
      && (-HALF <= Exact(op, ins, s.regs) < HALF ==> t.regs[Destination(op, ins)] == Exact(op, ins, s.regs))
  {
    var x := Exact(op, ins, s.regs);
    match op
    case Subl | AddlRegReg | AddlImmReg | Imull => UnsignedWrap(x);
    case Shrl | MovlRegReg | MovlImmReg =>
  }

  /** Every instruction other than a jump, `call` or `ret` that completes moves the pc
      to the next instruction. */
  lemma NonControlAdvances(table: OpcodeTable, program: seq<Instruction>, s: State)
    requires Wf(s) && s.pc / 4 < |program|
    requires var op := Classify(table, program[s.pc / 4].opcode);
      !IsJump(op) && !op.Call? && !op.Ret?
    ensures Exec(table, program, s).Running? ==> Exec(table, program, s).next.pc == Next(s.pc)
    ensures !Exec(table, program, s).Halted?
  {
  }

  /** An opcode value no case names changes nothing but the pc. */
  lemma UnknownOpcodeIsNoop(table: OpcodeTable, program: seq<Instruction>, s: State)
    requires Wf(s) && s.pc / 4 < |program| && Classify(table, program[s.pc / 4].opcode) == Unknown
    ensures Exec(table, program, s) == Running(s.(pc := Next(s.pc)))
  {
  }

  /** `cmpl first, second` rebuilds the flags word from nothing: bit 0 (CF) when the
      first operand is above the second as unsigned, read after the flags word is
      cleared; bit 6 (ZF) when they are equal; bit 7 (SF) when bit 31 of the difference
      is set; bit 11 (OF) when the exact difference does not fit in an `int`; every
      other bit clear. Nothing else changes but the pc. */
  lemma CompareSetsFlags(ins: Instruction, s: State)
    requires Wf(s) && ins.reg1 < NUM_REGS && ins.reg2 < NUM_REGS
    ensures var t := CompareStep(ins, s);
      var first, second := s.regs[ins.reg1], s.regs[ins.reg2];
      var f := Unpack(t.regs[FLAGS]);
      && t.pc == Next(s.pc) && t.mem == s.mem && t.input == s.input && t.output == s.output
      && (forall i :: 0 <= i < NUM_REGS && i != FLAGS ==> t.regs[i] == s.regs[i])
      && 0 <= t.regs[FLAGS] < 0x1000
      && t.regs[FLAGS] % 0x40 <= 1 && (t.regs[FLAGS] / 0x100) % 0x8 == 0
      && (f.cf <==> Unsigned(if ins.reg1 == FLAGS then 0 else first)
                      > Unsigned(if ins.reg2 == FLAGS then 0 else second))
      && (f.zf <==> first == second)
      && (f.sf <==> (second - first) % WORD >= HALF)
      && (f.of <==> !(-HALF <= second - first < HALF))
  {
    var regs := s.regs;
    var cleared := regs[FLAGS := 0];
    var f := Compare(regs[ins.reg1], regs[ins.reg2])
               .(cf := Unsigned(cleared[ins.reg1]) > Unsigned(cleared[ins.reg2]));
    assert CompareStep(ins, s).regs[FLAGS] == Pack(f);
    PackExactBits(f);
  }

  /** The comparison each conditional jump is named after, of the second `cmpl` operand
      against the first: signed for `jl`, `jle`, `jge`, unsigned for `jbe`. */
  function Holds(op: Opcode, second: i32, first: i32): bool
    requires IsJump(op)
  {
    match op
    case Je => second == first
    case Jl => second < first
    case Jle => second <= first
    case Jge => second >= first
    case Jbe => Unsigned(second) <= Unsigned(first)
    case Jmp => true
  }

  /** `cmpl a, b` followed by a jump: the jump goes to its target exactly when the
      comparison it is named after holds of b against a, and changes nothing else. */
  lemma CompareThenJump(cmp: Instruction, op: Opcode, jump: Instruction, s: State)
    requires Wf(s) && IsJump(op)
    requires cmp.reg1 < NUM_REGS && cmp.reg2 < NUM_REGS
    requires cmp.reg1 != FLAGS && cmp.reg2 != FLAGS
    ensures var t := CompareStep(cmp, s);
      JumpStep(op, jump, t)
        == t.(pc := if Holds(op, s.regs[cmp.reg2], s.regs[cmp.reg1])
                    then Target(t.pc, jump.imm) else Next(t.pc))
  {
    var a, b := s.regs[cmp.reg1], s.regs[cmp.reg2];
    var t := CompareStep(cmp, s);
    assert t.regs[FLAGS] == Pack(Compare(a, b));
    CompareThenBranch(a, b);
  }

  /** The jump tests as the source writes them, right after `cmpl a, b`: `je`, `jbe`
      and `jmp` are taken exactly when their comparison holds of b against a; `jl`,
      `jle` and `jge` too as long as b - a stays below 2^31, and exactly when it fails
      once b - a reaches 2^31 (sign and overflow both set). */
  lemma CompareThenJumpAsWritten(cmp: Instruction, op: Opcode, s: State)
    requires Wf(s) && IsJump(op)
    requires cmp.reg1 < NUM_REGS && cmp.reg2 < NUM_REGS
    requires cmp.reg1 != FLAGS && cmp.reg2 != FLAGS
    ensures var a, b := s.regs[cmp.reg1], s.regs[cmp.reg2];
      TakenAsWritten(op, CompareStep(cmp, s).regs[FLAGS])
        == if (op.Jl? || op.Jle? || op.Jge?) && b as int - a >= HALF
           then !Holds(op, b, a) else Holds(op, b, a)
  {
    var a, b := s.regs[cmp.reg1], s.regs[cmp.reg2];
    assert CompareStep(cmp, s).regs[FLAGS] == Pack(Compare(a, b));
    CompareThenBranch(a, b);
    if b as int - a >= HALF {
      SignedJumpsAsWrittenDisagree(a, b);
    } else {
      JumpsAsWrittenAgree(op, a, b);
    }
  }

  /** A word stored by `movl_reg_deref` is what `movl_deref_reg` then loads from the same
      address. */
  lemma LoadAfterStore(st: Instruction, ld: Instruction, s: State)
    requires Wf(s)
    requires st.reg1 < NUM_REGS && st.reg2 < NUM_REGS && ld.reg1 < NUM_REGS && ld.reg2 < NUM_REGS
    requires s.regs[ld.reg1] as int + ld.imm == s.regs[st.reg2] as int + st.imm
    ensures var t := StoreStep(st, s);
      LoadStep(ld, t)
        == Running(t.(pc := Next(t.pc), regs := t.regs[ld.reg2 := s.regs[st.reg1]]))
  {
    var a := s.regs[st.reg2] as int + st.imm;
    var v := Unsigned(s.regs[st.reg1]);
    var t := StoreStep(st, s);
    assert LoadWord(t.mem, a) == Some(v);
    SignedUnsigned(s.regs[st.reg1]);
  }

  /** `movl_reg_deref` changes only the four bytes it writes: every word that does not
      overlap them reads as before. */
  lemma StoreKeepsOtherWords(st: Instruction, s: State, b: int)
    requires Wf(s) && st.reg1 < NUM_REGS && st.reg2 < NUM_REGS
    requires b + 4 <= s.regs[st.reg2] as int + st.imm || s.regs[st.reg2] as int + st.imm + 4 <= b
    ensures LoadWord(StoreStep(st, s).mem, b) == LoadWord(s.mem, b)
  {
    var a, v := s.regs[st.reg2] as int + st.imm, Unsigned(s.regs[st.reg1]);
    assert StoreStep(st, s).mem == StoreWord(s.mem, a, v);
    LoadAfterDisjointStore(s.mem, a, v, b);
  }

  /** `call` pushes the address of the next instruction and jumps; a later `ret` that
      finds the stack pointer where the call left it and that slot not overwritten
      resumes right after the call, with the stack pointer restored. */
  lemma CallThenReturn(call: Instruction, s: State, u: State)
    requires Wf(s) && Wf(u)
    requires s.regs[SP] as int - 4 >= -HALF && s.regs[SP] as int - 4 != STACK_SIZE
    requires u.regs[SP] == s.regs[SP] as int - 4
    requires LoadWord(u.mem, 4 * (s.regs[SP] as int - 4))
          == LoadWord(CallStep(call, s).mem, 4 * (s.regs[SP] as int - 4))
    ensures CallStep(call, s).pc == Target(s.pc, call.imm)
    ensures CallStep(call, s).regs == s.regs[SP := s.regs[SP] as int - 4]
    ensures ReturnStep(u) == Running(u.(pc := Next(s.pc), regs := u.regs[SP := s.regs[SP]]))
  {
  }
}
