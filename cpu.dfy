/** The simulator as an imperative program: a register array and a memory updated in
    place by `execute_instruction`, driven by the loop of `main`. Each method is proved to
    do what the functions of `Machine` say; like them, `jl`, `jle` and `jge` run the test
    their comments describe (SF differs from OF), not the one the code writes. */
module Simulator {
  import opened Words
  import opened Decoder
  import opened Flags
  import opened ByteMemory
  import opened Machine

  /** What `execute_instruction` hands back to the loop: the next pc, the `exit(0)` of a
      `ret` on an empty stack, or a fault (the state is then left as it was). */
  datatype Status = Continue(pc: u32) | Exit | Stop(fault: Fault)

  /** `status` and the state `after` (still carrying the old pc) are what the step
      outcome `o` from `before` says: the new state and pc, or nothing changed. */
  predicate Reports(o: Outcome, status: Status, before: State, after: State)
  {
    match o
    case Running(t) => status == Continue(t.pc) && after.(pc := t.pc) == t
    case Halted(_) => status == Exit && after == before
    case Faulted(f) => status == Stop(f) && after == before
  }

  class Cpu {
    const registers: array<i32>
    var memory: Memory
    var input: seq<i32>
    var output: seq<i32>

    ghost predicate Valid()
      reads this
    {
      registers.Length == NUM_REGS
    }

    /** The machine state this object holds, with the pc the loop keeps beside it. */
    function Snapshot(pc: u32): (s: State)
      reads this, registers
      requires Valid()
      ensures Wf(s)
    {
      State(pc, registers[..], memory, input, output)
    }

    /** The set-up of `main`: every register cleared, then %esp at the top of the
        stack, and the 1024 stack bytes cleared. */
    constructor (input: seq<i32>)
      ensures Valid() && fresh(registers)
      ensures Snapshot(0) == Initial(input)
    {
      var regs := new i32[NUM_REGS];
      for i := 0 to NUM_REGS
        invariant forall j :: 0 <= j < i ==> regs[j] == 0
      {
        regs[i] := 0;
      }
      regs[SP] := STACK_SIZE;
      var m: Memory := map[];
      for i := 0 to STACK_SIZE
        invariant m == Zeros(i)
      {
        m := m[i := 0];
      }
      registers := regs;
      memory := m;
      this.input := input;
      output := [];
      new;
      assert registers[..] == Initial(input).regs;
    }

    /** `execute_instruction`: fetch the instruction at index pc / 4, check the register
        fields its opcode uses, and perform it in place; the step `Machine.Exec` takes
        from the state before. */
    method Execute(table: OpcodeTable, program: seq<Instruction>, pc: u32) returns (status: Status)
      requires Valid()
      modifies this, registers
      ensures Valid()
      ensures Reports(Exec(table, program, old(Snapshot(pc))), status, old(Snapshot(pc)), Snapshot(pc))
    {
      if pc / 4 >= |program| {
        return Stop(BadFetch(pc));
      }
      var instr := program[pc / 4];
      var op := Classify(table, instr.opcode);
      if Arity(op) >= 1 && instr.reg1 >= NUM_REGS {
        return Stop(BadRegister(instr.reg1));
      }
      if Arity(op) == 2 && instr.reg2 >= NUM_REGS {
        return Stop(BadRegister(instr.reg2));
      }
      status := Perform(op, instr, pc);
    }

    /** The `switch` of `execute_instruction`, once the register fields the opcode uses
        are known to name registers. */
    method Perform(op: Opcode, instr: Instruction, pc: u32) returns (status: Status)
      requires Valid()
      requires Arity(op) >= 1 ==> instr.reg1 < NUM_REGS
      requires Arity(op) == 2 ==> instr.reg2 < NUM_REGS
      modifies this, registers
      ensures Reports(Effect(op, instr, old(Snapshot(pc))), status, old(Snapshot(pc)), Snapshot(pc))
    {
      match op {
        case Subl | AddlRegReg | AddlImmReg | Imull | Shrl | MovlRegReg | MovlImmReg =>
          status := Arithmetic(op, instr, pc);
        case MovlDerefReg =>
          status := Load(instr, pc);
        case MovlRegDeref =>
          status := Store(instr, pc);
        case Pushl =>
          status := PushRegister(instr, pc);
        case Popl =>
          status := PopRegister(instr, pc);
        case Cmpl =>
          status := CompareOperands(instr, pc);
        case Je | Jl | Jle | Jge | Jbe | Jmp =>
          status := Jump(op, instr, pc);
        case Call =>
          status := CallSubroutine(instr, pc);
        case Ret =>
          status := Return(pc);
        case Printr | Readr | Unknown =>
          status := Console(op, instr, pc);
      }
    }

    /** The register-to-register and immediate instructions. */
    method Arithmetic(op: Opcode, instr: Instruction, pc: u32) returns (status: Status)
      requires Valid()
      requires IsArithmetic(op)
      requires instr.reg1 < NUM_REGS && (Arity(op) == 2 ==> instr.reg2 < NUM_REGS)
      modifies registers
      ensures status == Continue(Next(pc))
      ensures Snapshot(Next(pc)) == ArithmeticStep(op, instr, old(Snapshot(pc)))
    {
      var r1, r2, imm := instr.reg1, instr.reg2, instr.imm;
      match op {
        case Subl =>
          registers[r1] := Wrap(registers[r1] as int - imm);
        case AddlRegReg =>
          registers[r2] := Wrap(registers[r1] as int + registers[r2]);
        case AddlImmReg =>
          registers[r1] := Wrap(registers[r1] as int + imm);
        case Imull =>
          registers[r2] := Wrap(registers[r1] as int * registers[r2]);
        case Shrl =>
          registers[r1] := Unsigned(registers[r1]) / 2;
        case MovlRegReg =>
          registers[r2] := registers[r1];
        case MovlImmReg =>
          registers[r1] := imm;
      }
      return Continue(Next(pc));
    }

    /** `movl_deref_reg`: the word at byte address reg1 + imm goes to reg2. */
    method Load(instr: Instruction, pc: u32) returns (status: Status)
      requires Valid() && instr.reg1 < NUM_REGS && instr.reg2 < NUM_REGS
      modifies registers
      ensures Reports(LoadStep(instr, old(Snapshot(pc))), status, old(Snapshot(pc)), Snapshot(pc))
    {
      var a := registers[instr.reg1] as int + instr.imm;
      var w := LoadWord(memory, a);
      if w.None? {
        return Stop(UnmappedRead(a));
      }
      registers[instr.reg2] := Signed(w.value);
      return Continue(Next(pc));
    }

    /** `movl_reg_deref`: reg1 is stored at byte address reg2 + imm. */
    method Store(instr: Instruction, pc: u32) returns (status: Status)
      requires Valid() && instr.reg1 < NUM_REGS && instr.reg2 < NUM_REGS
      modifies this
      ensures status == Continue(Next(pc))
      ensures Snapshot(Next(pc)) == StoreStep(instr, old(Snapshot(pc)))
    {
      ghost var before := Snapshot(pc);
      var a := registers[instr.reg2] as int + instr.imm;
      memory := StoreWord(memory, a, Unsigned(registers[instr.reg1]));
      assert Snapshot(Next(pc)) == before.(pc := Next(pc), mem := memory);
      return Continue(Next(pc));
    }

    /** `pushl`: %esp goes down by 4, then reg1 is stored at byte address %esp. */
    method PushRegister(instr: Instruction, pc: u32) returns (status: Status)
      requires Valid() && instr.reg1 < NUM_REGS
      modifies this, registers
      ensures status == Continue(Next(pc))
      ensures Snapshot(Next(pc)) == Push(old(Snapshot(pc)), instr.reg1).(pc := Next(pc))
    {
      registers[SP] := Wrap(registers[SP] as int - 4);
      memory := StoreWord(memory, registers[SP], Unsigned(registers[instr.reg1]));
      return Continue(Next(pc));
    }

    /** `popl`: the word at byte address %esp goes to reg1, then %esp goes up by 4. */
    method PopRegister(instr: Instruction, pc: u32) returns (status: Status)
      requires Valid() && instr.reg1 < NUM_REGS
      modifies registers
      ensures Reports(PopStep(instr, old(Snapshot(pc))), status, old(Snapshot(pc)), Snapshot(pc))
    {
      var w := LoadWord(memory, registers[SP]);
      if w.None? {
        return Stop(UnmappedRead(registers[SP]));
      }
      registers[instr.reg1] := Signed(w.value);
      registers[SP] := Wrap(registers[SP] as int + 4);
      return Continue(Next(pc));
    }

    /** `cmpl`: the flags word is cleared, then one bit is added per flag that holds. */
    method CompareOperands(instr: Instruction, pc: u32) returns (status: Status)
      requires Valid()
      requires instr.reg1 < NUM_REGS && instr.reg2 < NUM_REGS
      modifies registers
      ensures status == Continue(Next(pc))
      ensures Snapshot(Next(pc)) == CompareStep(instr, old(Snapshot(pc)))
    {
      ghost var before := Snapshot(pc);
      var r1, r2 := instr.reg1, instr.reg2;
      var longResult := registers[r2] as int - registers[r1];
      registers[FLAGS] := 0;
      ghost var f := Compare(before.regs[r1], before.regs[r2])
                       .(cf := Unsigned(registers[r1]) > Unsigned(registers[r2]));
      if Unsigned(registers[r1]) > Unsigned(registers[r2]) {
        registers[FLAGS] := registers[FLAGS] + 0x1;
      }
      assert registers[FLAGS] == (if f.cf then 0x1 else 0);
      if longResult == 0 {
        registers[FLAGS] := registers[FLAGS] + 0x40;
      }
      assert registers[FLAGS] == (if f.cf then 0x1 else 0) + (if f.zf then 0x40 else 0);
      if Bit(longResult, HALF) {
        registers[FLAGS] := registers[FLAGS] + 0x80;
      }
      if longResult > 0x7fff_ffff || longResult < -0x8000_0000 {
        registers[FLAGS] := registers[FLAGS] + 0x800;
      }
      assert registers[FLAGS] == Pack(f);
      assert Snapshot(Next(pc)) == before.(pc := Next(pc), regs := before.regs[FLAGS := Pack(f)]);
      return Continue(Next(pc));
    }

    /** The jumps: when taken, the immediate is added to the pc before the usual 4. */
    method Jump(op: Opcode, instr: Instruction, pc: u32) returns (status: Status)
      requires Valid() && IsJump(op)
      ensures status == Continue(JumpStep(op, instr, Snapshot(pc)).pc)
      ensures Snapshot(status.pc) == JumpStep(op, instr, Snapshot(pc))
    {
      var counter: u32 := pc;
      if Taken(op, registers[FLAGS]) {
        counter := (counter + instr.imm) % WORD;
        AddMod(pc + instr.imm, 4);
      }
      return Continue((counter + 4) % WORD);
    }

    /** `call`: %esp goes down by 4, the return address pc + 4 is stored in the word
        slot %esp, and the immediate is added to the pc before the usual 4. */
    method CallSubroutine(instr: Instruction, pc: u32) returns (status: Status)
      requires Valid()
      modifies this, registers
      ensures status == Continue(Target(pc, instr.imm))
      ensures Snapshot(status.pc) == CallStep(instr, old(Snapshot(pc)))
    {
      var counter: u32 := pc;
      registers[SP] := Wrap(registers[SP] as int - 4);
      memory := StoreWord(memory, 4 * (registers[SP] as int), (counter + 4) % WORD);
      counter := (counter + instr.imm) % WORD;
      AddMod(pc + instr.imm, 4);
      return Continue((counter + 4) % WORD);
    }

    /** `ret`: on the empty stack the simulation exits; otherwise the pc is the word in
        slot %esp, with no 4 added, and %esp goes up by 4. */
    method Return(pc: u32) returns (status: Status)
      requires Valid()
      modifies registers
      ensures Reports(ReturnStep(old(Snapshot(pc))), status, old(Snapshot(pc)), Snapshot(pc))
    {
      if registers[SP] == STACK_SIZE {
        return Exit;
      }
      var w := LoadWord(memory, 4 * (registers[SP] as int));
      if w.None? {
        return Stop(UnmappedRead(4 * (registers[SP] as int)));
      }
      var counter := w.value;
      registers[SP] := Wrap(registers[SP] as int + 4);
      return Continue(counter);
    }

    /** `printr` appends the register to the output, `readr` takes the next input
        integer if there is one; an opcode no case names changes nothing. */
    method Console(op: Opcode, instr: Instruction, pc: u32) returns (status: Status)
      requires Valid()
      requires op.Printr? || op.Readr? || op.Unknown?
      requires Arity(op) >= 1 ==> instr.reg1 < NUM_REGS
      modifies this, registers
      ensures status == Continue(Next(pc))
      ensures Snapshot(Next(pc)) == ConsoleStep(op, instr, old(Snapshot(pc)))
    {
      match op {
        case Printr =>
          output := output + [registers[instr.reg1]];
        case Readr =>
          if input != [] {
            registers[instr.reg1] := input[0];
            input := input[1..];
          }
        case Unknown =>
      }
      return Continue(Next(pc));
    }

    /** The loop of `main` from pc 0, stopped after `fuel` steps if it has not ended by
        then: it ends as `Machine.Run` says, from the state this object held. */
    method Run(table: OpcodeTable, program: seq<Instruction>, fuel: nat) returns (r: Result)
      requires Valid()
      modifies this, registers
      ensures r == Machine.Run(table, program, old(Snapshot(0)), fuel)
    {
      var pc: u32 := 0;
      var left := fuel;
      while pc != End(program)
        invariant Valid()
        invariant Machine.Run(table, program, old(Snapshot(0)), fuel)
               == Machine.Run(table, program, Snapshot(pc), left)
        decreases left
      {
        if left == 0 {
          return OutOfFuel(Snapshot(pc));
        }
        var status := Execute(table, program, pc);
        match status
        case Continue(next) =>
          pc := next;
          left := left - 1;
        case Exit =>
          return Exited(Snapshot(pc));
        case Stop(f) =>
          return Crashed(f);
      }
      return Finished(Snapshot(pc));
    }
  }

  /** The whole program: decode the words, set the machine up, run the loop. */
  method Simulate(table: OpcodeTable, words: seq<u32>, input: seq<i32>, fuel: nat)
    returns (r: Result)
    ensures r == Machine.Run(table, DecodeAll(words), Initial(input), fuel)
  {
    var program := DecodeInstructions(words);
    assert program == DecodeAll(words);
    var cpu := new Cpu(input);
    r := cpu.Run(table, program, fuel);
  }
}
