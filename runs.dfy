/** The loop of `main`: where a run can stop, and what stays true along the way. */
module Runs {
  import opened Words
  import opened Decoder
  import opened ByteMemory
  import opened Machine

  /** The state the loop starts in: pc 0, every register 0 but %esp, which is 1024, and
      the 1024 stack bytes zero, so every word inside them reads 0 and every word that
      reaches outside them is unmapped. */
  lemma InitialState(input: seq<i32>)
    ensures var s := Initial(input);
      && s.pc == 0 && s.input == input && s.output == []
      && s.regs[SP] == STACK_SIZE
      && (forall i :: 0 <= i < NUM_REGS && i != SP ==> s.regs[i] == 0)
      && (forall a :: 0 <= a <= STACK_SIZE - 4 ==> LoadWord(s.mem, a) == Some(0))
      && (forall a :: a < 0 || STACK_SIZE - 4 < a ==> LoadWord(s.mem, a).None?)
  {
    var s := Initial(input);
    forall a | 0 <= a <= STACK_SIZE - 4
      ensures LoadWord(s.mem, a) == Some(0)
    {
      assert s.mem[a] == 0 && s.mem[a + 1] == 0 && s.mem[a + 2] == 0 && s.mem[a + 3] == 0;
    }
    forall a | a < 0 || STACK_SIZE - 4 < a
      ensures LoadWord(s.mem, a).None?
    {
      if a < 0 {
        assert a !in s.mem;
      } else {
        assert a + 3 !in s.mem;
      }
    }
  }

  /** A step halts only at a `ret` that finds %esp at 1024, and leaves the state as it
      was; every other instruction goes on or faults. */
  lemma HaltsOnlyAtEmptyReturn(table: OpcodeTable, program: seq<Instruction>, s: State)
    requires Wf(s)
    ensures Exec(table, program, s).Halted? <==>
      && s.pc / 4 < |program|
      && Classify(table, program[s.pc / 4].opcode) == Ret
      && s.regs[SP] == STACK_SIZE
    ensures Exec(table, program, s).Halted? ==> Exec(table, program, s).last == s
  {
    if s.pc / 4 < |program| {
      var ins := program[s.pc / 4];
      var op := Classify(table, ins.opcode);
      if Exec(table, program, s).Halted? {
        assert ExecInstr(op, ins, s).Halted?;
        if Arity(op) == 0 {
          assert Effect(op, ins, s).Halted?;
        }
      }
    }
  }

  /** From `s` to `t` the console was only used forwards: the output of `s` is a
      prefix of that of `t`, and the input of `t` is what remains of that of `s`. */
  predicate ConsoleForward(s: State, t: State)
  {
    s.output <= t.output && |t.input| <= |s.input| && t.input == s.input[|s.input| - |t.input|..]
  }

  lemma ConsoleForwardTransitive(s: State, t: State, u: State)
    requires ConsoleForward(s, t) && ConsoleForward(t, u)
    ensures ConsoleForward(s, u)
  {
    var k := |s.input| - |t.input|;
    var k' := |t.input| - |u.input|;
    assert u.input == s.input[k..][k'..];
    assert s.input[k..][k'..] == s.input[k + k'..];
  }

  /** Every step that goes on keeps the console append-only, adding at most one value
      to the output and taking at most one from the input. */
  lemma StepConsole(table: OpcodeTable, program: seq<Instruction>, s: State)
    requires Wf(s) && Exec(table, program, s).Running?
    ensures var t := Exec(table, program, s).next;
      && ConsoleForward(s, t)
      && |t.output| <= |s.output| + 1 && |s.input| <= |t.input| + 1
  {
    var ins := program[s.pc / 4];
    var op := Classify(table, ins.opcode);
    var t := Exec(table, program, s).next;
    assert Effect(op, ins, s) == Running(t);
    if op.Readr? && s.input != [] {
      assert t.input == s.input[1..];
    } else if !op.Printr? {
      assert t.output == s.output && t.input == s.input;
    }
  }

  /** A run that exits stopped at a `ret` on the empty stack, before the pc reached
      `num_instructions * 4`. */
  lemma {:induction false} RunEnds(table: OpcodeTable, program: seq<Instruction>, s: State, fuel: nat)
    requires Wf(s)
    ensures var r := Run(table, program, s, fuel);
      r.Exited? ==>
        && r.final.pc != End(program)
        && r.final.pc / 4 < |program|
        && Classify(table, program[r.final.pc / 4].opcode) == Ret
        && r.final.regs[SP] == STACK_SIZE
    decreases fuel
  {
    if s.pc != End(program) && fuel > 0 {
      HaltsOnlyAtEmptyReturn(table, program, s);
      match Exec(table, program, s)
      case Running(t) => RunEnds(table, program, t, fuel - 1);
      case Halted(t) =>
      case Faulted(f) =>
    }
  }

  /** The console over a whole run: wherever the run stops, it has only appended to
      the output and only consumed input. */
  lemma {:induction false} RunConsole(table: OpcodeTable, program: seq<Instruction>, s: State, fuel: nat)
    requires Wf(s)
    ensures var r := Run(table, program, s, fuel);
      !r.Crashed? ==> ConsoleForward(s, r.final)
    decreases fuel
  {
    if s.pc != End(program) && fuel > 0 && Exec(table, program, s).Running? {
      var t := Exec(table, program, s).next;
      StepConsole(table, program, s);
      RunConsole(table, program, t, fuel - 1);
      var r := Run(table, program, t, fuel - 1);
      if !r.Crashed? {
        ConsoleForwardTransitive(s, t, r.final);
      }
    } else {
      assert s.input[|s.input| - |s.input|..] == s.input;
    }
  }

  /** `ret` on the empty stack ends the program: with any fuel left, the run exits in
      the state it reached. */
  lemma ReturnOnEmptyStackExits(table: OpcodeTable, program: seq<Instruction>, s: State, fuel: nat)
    requires Wf(s) && s.pc != End(program) && fuel > 0
    requires s.pc / 4 < |program| && Classify(table, program[s.pc / 4].opcode) == Ret
    requires s.regs[SP] == STACK_SIZE
    ensures Run(table, program, s, fuel) == Exited(s)
  {
    HaltsOnlyAtEmptyReturn(table, program, s);
  }

  /** A run that ended without running out of fuel ends the same way with more fuel:
      the bound only cuts runs short, it never changes how they end. */
  lemma {:induction false} RunMoreFuel(table: OpcodeTable, program: seq<Instruction>, s: State,
                                       fuel: nat, more: nat)
    requires Wf(s) && !Run(table, program, s, fuel).OutOfFuel?
    ensures Run(table, program, s, fuel + more) == Run(table, program, s, fuel)
    decreases fuel
  {
    if s.pc != End(program) {
      match Exec(table, program, s)
      case Running(t) =>
        RunMoreFuel(table, program, t, fuel - 1, more);
        assert fuel + more - 1 == fuel - 1 + more;
      case Halted(t) =>
      case Faulted(f) =>
    }
  }
}
