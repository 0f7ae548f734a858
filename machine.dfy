/** The machine state and the transition `execute_instruction` performs, as functions of
    the state before: the specification the imperative simulator is proved against. */
module Machine {
  import opened Words
  import opened Decoder
  import opened Flags
  import opened ByteMemory

  const NUM_REGS: int := 17
  const SP: int := 6            // the stack pointer, %esp
  const FLAGS: int := 16        // the flags word
  const STACK_SIZE: int := 1024 // bytes of stack memory, and the initial %esp

  /** Program counter, register file, memory, and the console: the integers `readr` has
      still to read and the values `printr` has printed. */
  datatype State = State(pc: u32, regs: seq<i32>, mem: Memory, input: seq<i32>, output: seq<i32>)

  predicate Wf(s: State)
  {
    |s.regs| == NUM_REGS
  }

  /** What the C program leaves undefined, made an explicit outcome. */
  datatype Fault =
    | BadFetch(pc: u32)          // pc / 4 is past the end of the instruction array
    | BadRegister(index: int)    // a register field the opcode uses names no register
    | UnmappedRead(address: int) // a word load touches a byte never allocated nor written

  /** One step: the machine goes on, or `ret` found the stack empty (`exit(0)`), or the
      step faulted. */
  datatype Outcome = Running(next: State) | Halted(last: State) | Faulted(fault: Fault)

  /** The next instruction's address, in `unsigned int` arithmetic. */
  function Next(pc: u32): u32
  {
    (pc + 4) % WORD
  }

  /** Where a taken jump or a call goes: the immediate is added to the pc and the usual 4
      follows, all in `unsigned int` arithmetic. */
  function Target(pc: u32, imm: i16): u32
  {
    (pc as int + imm + 4) % WORD
  }

  /** How many register fields an opcode uses: the first, or the first and the second. */
  function Arity(op: Opcode): nat
  {
    match op
    case Subl | AddlImmReg | Shrl | MovlImmReg | Pushl | Popl | Printr | Readr => 1
    case AddlRegReg | Imull | MovlRegReg | MovlDerefReg | MovlRegDeref | Cmpl => 2
    case _ => 0
  }

  /** `pushl r`: %esp goes down by 4, then register r (read after that) is stored at byte
      address %esp. */
  function Push(s: State, r: int): (t: State)
    requires Wf(s) && 0 <= r < NUM_REGS
    ensures Wf(t)
  {
    var sp := Wrap(s.regs[SP] as int - 4);
    var regs := s.regs[SP := sp];
    s.(regs := regs, mem := StoreWord(s.mem, sp, Unsigned(regs[r])))
  }

  /** `popl r`: the word at byte address %esp goes to register r, then %esp (read after
      that) goes up by 4. */
  function Pop(s: State, r: int): (t: Option<State>)
    requires Wf(s) && 0 <= r < NUM_REGS
    ensures t.Some? ==> Wf(t.value)
  {
    match LoadWord(s.mem, s.regs[SP])
    case None => None
    case Some(w) =>
      var regs := s.regs[r := Signed(w)];
      Some(s.(regs := regs[SP := Wrap(regs[SP] as int + 4)]))
  }

  /** One instruction whose opcode the dispatch has already classified. */
  function ExecInstr(op: Opcode, ins: Instruction, s: State): (r: Outcome)
    requires Wf(s)
    ensures r.Running? ==> Wf(r.next)
    ensures r.Halted? ==> r.last == s
    ensures r.Faulted? ==> !r.fault.BadFetch?
  {
    if Arity(op) >= 1 && ins.reg1 >= NUM_REGS then Faulted(BadRegister(ins.reg1))
    else if Arity(op) == 2 && ins.reg2 >= NUM_REGS then Faulted(BadRegister(ins.reg2))
    else Effect(op, ins, s)
  }

  /** The body of the `switch`, once the register fields are known to be in range. */
  function Effect(op: Opcode, ins: Instruction, s: State): (r: Outcome)
    requires Wf(s)
    requires Arity(op) >= 1 ==> ins.reg1 < NUM_REGS
    requires Arity(op) == 2 ==> ins.reg2 < NUM_REGS
    ensures r.Running? ==> Wf(r.next)
    ensures r.Halted? ==> r.last == s
    ensures r.Faulted? ==> !r.fault.BadFetch?
  {
    match op
    case Subl | AddlRegReg | AddlImmReg | Imull | Shrl | MovlRegReg | MovlImmReg =>
      Running(ArithmeticStep(op, ins, s))
    case MovlDerefReg => LoadStep(ins, s)
    case MovlRegDeref => Running(StoreStep(ins, s))
    case Pushl => Running(Push(s, ins.reg1).(pc := Next(s.pc)))
    case Popl => PopStep(ins, s)
    case Cmpl => Running(CompareStep(ins, s))
    case Je | Jl | Jle | Jge | Jbe | Jmp => Running(JumpStep(op, ins, s))
    case Call => Running(CallStep(ins, s))
    case Ret => ReturnStep(s)
    case Printr | Readr | Unknown => Running(ConsoleStep(op, ins, s))
  }

  predicate IsArithmetic(op: Opcode)
  {
    op.Subl? || op.AddlRegReg? || op.AddlImmReg? || op.Imull? || op.Shrl?
      || op.MovlRegReg? || op.MovlImmReg?
  }

  /** Arithmetic and register moves: the result, wrapped to 32 bits, goes to one
      register and the pc moves on. */
  function ArithmeticStep(op: Opcode, ins: Instruction, s: State): (t: State)
    requires Wf(s) && IsArithmetic(op)
    requires ins.reg1 < NUM_REGS && (Arity(op) == 2 ==> ins.reg2 < NUM_REGS)
    ensures Wf(t)
  {
    var r1, r2, imm := ins.reg1, ins.reg2, ins.imm;
    var regs := s.regs;
    var regs' := match op
      case Subl => regs[r1 := Wrap(regs[r1] as int - imm)]
      case AddlRegReg => regs[r2 := Wrap(regs[r1] as int + regs[r2])]
      case AddlImmReg => regs[r1 := Wrap(regs[r1] as int + imm)]
      case Imull => regs[r2 := Wrap(regs[r1] as int * regs[r2])]
      case Shrl => regs[r1 := Unsigned(regs[r1]) / 2]
      case MovlRegReg => regs[r2 := regs[r1]]
      case MovlImmReg => regs[r1 := imm];
    s.(pc := Next(s.pc), regs := regs')
  }

  /** `movl_deref_reg`: the word at byte address reg1 + imm goes to reg2. */
  function LoadStep(ins: Instruction, s: State): (r: Outcome)
    requires Wf(s) && ins.reg1 < NUM_REGS && ins.reg2 < NUM_REGS
    ensures r.Running? ==> Wf(r.next)
    ensures !r.Halted?
  {
    var a := s.regs[ins.reg1] as int + ins.imm;
    match LoadWord(s.mem, a)
    case None => Faulted(UnmappedRead(a))
    case Some(w) => Running(s.(pc := Next(s.pc), regs := s.regs[ins.reg2 := Signed(w)]))
  }

  /** `movl_reg_deref`: reg1 is stored at byte address reg2 + imm. */
  function StoreStep(ins: Instruction, s: State): (t: State)
    requires Wf(s) && ins.reg1 < NUM_REGS && ins.reg2 < NUM_REGS
    ensures Wf(t)
  {
    s.(pc := Next(s.pc),
       mem := StoreWord(s.mem, s.regs[ins.reg2] as int + ins.imm, Unsigned(s.regs[ins.reg1])))
  }

  /** `popl`, failing when the stack slot was never written. */
  function PopStep(ins: Instruction, s: State): (r: Outcome)
    requires Wf(s) && ins.reg1 < NUM_REGS
    ensures r.Running? ==> Wf(r.next)
    ensures !r.Halted?
  {
    match Pop(s, ins.reg1)
    case None => Faulted(UnmappedRead(s.regs[SP]))
    case Some(t) => Running(t.(pc := Next(s.pc)))
  }

  /** `cmpl`: the flags of `second - first` go to the flags word. The carry test reads
      the operands after the flags word is cleared. */
  function CompareStep(ins: Instruction, s: State): (t: State)
    requires Wf(s) && ins.reg1 < NUM_REGS && ins.reg2 < NUM_REGS
    ensures Wf(t)
  {
    var regs := s.regs;
    var cleared := regs[FLAGS := 0];
    var f := Compare(regs[ins.reg1], regs[ins.reg2])
               .(cf := Unsigned(cleared[ins.reg1]) > Unsigned(cleared[ins.reg2]));
    s.(pc := Next(s.pc), regs := regs[FLAGS := Pack(f)])
  }

  /** The jumps: to the target when the flags word says so, to the next instruction
      otherwise. */
  function JumpStep(op: Opcode, ins: Instruction, s: State): (t: State)
    requires Wf(s) && IsJump(op)
    ensures Wf(t)
    ensures t == s.(pc := t.pc)
    ensures op.Jmp? ==> t.pc == Target(s.pc, ins.imm)
    ensures Taken(op, s.regs[FLAGS]) ==> t.pc == Target(s.pc, ins.imm)
    ensures !Taken(op, s.regs[FLAGS]) ==> t.pc == Next(s.pc)
  {
    s.(pc := if Taken(op, s.regs[FLAGS]) then Target(s.pc, ins.imm) else Next(s.pc))
  }

  /** `call`: %esp goes down by 4, the address of the next instruction is stored in the
      word slot %esp (`(unsigned int*) memory + %esp`, byte address 4 * %esp), and the pc
      goes to the target. */
  function CallStep(ins: Instruction, s: State): (t: State)
    requires Wf(s)
    ensures Wf(t)
  {
    var sp := Wrap(s.regs[SP] as int - 4);
    s.(pc := Target(s.pc, ins.imm), regs := s.regs[SP := sp],
       mem := StoreWord(s.mem, 4 * (sp as int), Next(s.pc)))
  }

  /** `ret`: on the empty stack the simulation exits; otherwise the pc becomes the word
      in slot %esp, with no 4 added, and %esp goes up by 4. */
  function ReturnStep(s: State): (r: Outcome)
    requires Wf(s)
    ensures r.Running? ==> Wf(r.next)
    ensures r.Halted? ==> r.last == s
  {
    var sp := s.regs[SP];
    if sp == STACK_SIZE then Halted(s)
    else
      match LoadWord(s.mem, 4 * (sp as int))
      case None => Faulted(UnmappedRead(4 * (sp as int)))
      case Some(a) => Running(s.(pc := a, regs := s.regs[SP := Wrap(sp as int + 4)]))
  }

  /** `printr` appends the register to the output; `readr` takes the next input integer
      (at the end of the input `scanf` assigns nothing); other opcodes do nothing. */
  function ConsoleStep(op: Opcode, ins: Instruction, s: State): (t: State)
    requires Wf(s) && (op.Printr? || op.Readr? || op.Unknown?)
    requires Arity(op) >= 1 ==> ins.reg1 < NUM_REGS
    ensures Wf(t)
  {
    var next := Next(s.pc);
    match op
    case Printr => s.(pc := next, output := s.output + [s.regs[ins.reg1]])
    case Readr =>
      if s.input == [] then s.(pc := next)
      else s.(pc := next, regs := s.regs[ins.reg1 := s.input[0]], input := s.input[1..])
    case Unknown => s.(pc := next)
  }

  /** `execute_instruction`: fetch the instruction at index pc / 4, dispatch on its opcode
      through the mnemonic numbering, and perform it. */
  function Exec(table: OpcodeTable, program: seq<Instruction>, s: State): (r: Outcome)
    requires Wf(s)
    ensures r.Running? ==> Wf(r.next)
    ensures r.Halted? ==> r.last == s
    ensures (r.Faulted? && r.fault.BadFetch?) <==> s.pc / 4 >= |program|
  {
    if s.pc / 4 < |program| then
      var ins := program[s.pc / 4];
      ExecInstr(Classify(table, ins.opcode), ins, s)
    else
      Faulted(BadFetch(s.pc))
  }

  /** How a bounded run ends: the pc reached the end of the program, `ret` found the stack
      empty, a step faulted, or the fuel ran out first. */
  datatype Result =
    | Finished(final: State)
    | Exited(final: State)
    | Crashed(fault: Fault)
    | OutOfFuel(final: State)

  /** The address just past the last instruction, `num_instructions * 4` as an
      `unsigned int`. */
  function End(program: seq<Instruction>): u32
  {
    (4 * |program|) % WORD
  }

  /** The loop of `main`, with at most `fuel` steps. */
  function Run(table: OpcodeTable, program: seq<Instruction>, s: State, fuel: nat): (r: Result)
    requires Wf(s)
    ensures !r.Crashed? ==> Wf(r.final)
    ensures r.Finished? <==> !r.Crashed? && r.final.pc == End(program)
    ensures r.Crashed? ==> fuel > 0
    decreases fuel
  {
    if s.pc == End(program) then Finished(s)
    else if fuel == 0 then OutOfFuel(s)
    else
      match Exec(table, program, s)
      case Running(t) => Run(table, program, t, fuel - 1)
      case Halted(t) => Exited(t)
      case Faulted(f) => Crashed(f)
  }

  /** Bytes 0 to n - 1, all zero: the stack memory once `main` has cleared it. */
  function Zeros(n: nat): (m: Memory)
    ensures forall a :: a in m <==> 0 <= a < n
    ensures forall a :: a in m ==> m[a] == 0
  {
    if n == 0 then map[] else Zeros(n - 1)[n - 1 := 0]
  }

  /** The state `main` starts the loop in. */
  function Initial(input: seq<i32>): (s: State)
    ensures Wf(s)
  {
    State(0, seq(NUM_REGS, i => if i == SP then STACK_SIZE else 0),
          Zeros(STACK_SIZE), input, [])
  }
}
