/** Sequences of `pushl` and `popl`: the stack is last in, first out. */
module Stack {
  import opened Words
  import opened ByteMemory
  import opened Machine

  predicate Registers(rs: seq<int>)
  {
    forall i :: 0 <= i < |rs| ==> 0 <= rs[i] < NUM_REGS && rs[i] != SP
  }

  /** The stack pointer as an unbounded integer. */
  function Esp(s: State): int
    requires Wf(s)
  {
    s.regs[SP] as int
  }

  predicate Distinct(rs: seq<int>)
  {
    forall i, j :: 0 <= i < j < |rs| ==> rs[i] != rs[j]
  }

  /** `pushl` of each register of `rs` in turn (the pc left aside). */
  function PushAll(s: State, rs: seq<int>): (t: State)
    requires Wf(s) && Registers(rs)
    ensures Wf(t)
    decreases |rs|
  {
    if rs == [] then s else PushAll(Push(s, rs[0]), rs[1..])
  }

  /** `popl` into each register of `qs` in turn, or None when a slot read was never
      written. */
  function PopAll(s: State, qs: seq<int>): (r: Option<State>)
    requires Wf(s) && Registers(qs)
    ensures r.Some? ==> Wf(r.value)
    decreases |qs|
  {
    if qs == [] then Some(s)
    else
      match Pop(s, qs[0])
      case None => None
      case Some(t) => PopAll(t, qs[1..])
  }

  /** One `pushl` without wrap-around: %esp goes down by 4, the register lands in the
      new top word, and every word at or above the old top, or wholly below the new
      one, is unchanged. */
  lemma PushOne(u: State, r: int)
    requires Wf(u) && 0 <= r < NUM_REGS && r != SP
    requires Esp(u) - 4 >= -HALF
    ensures Push(u, r).regs == u.regs[SP := Esp(u) - 4]
    ensures Push(u, r).pc == u.pc && Push(u, r).input == u.input && Push(u, r).output == u.output
    ensures LoadWord(Push(u, r).mem, Esp(u) - 4) == Some(Unsigned(u.regs[r]))
    ensures forall b: int :: b >= Esp(u) || b + 4 <= Esp(u) - 4 ==>
      LoadWord(Push(u, r).mem, b) == LoadWord(u.mem, b)
  {
    var sp := Esp(u) - 4;
    var v := Unsigned(u.regs[r]);
    assert Push(u, r).mem == StoreWord(u.mem, sp, v);
    forall b: int | b >= Esp(u) || b + 4 <= sp
      ensures LoadWord(Push(u, r).mem, b) == LoadWord(u.mem, b)
    {
      LoadAfterDisjointStore(u.mem, sp, v, b);
    }
  }

  /** Pushing n registers lowers %esp by 4n and changes no other register, nor the pc,
      input or output. */
  lemma {:induction false} PushAllRegisters(s: State, rs: seq<int>)
    requires Wf(s) && Registers(rs)
    requires Esp(s) - 4 * |rs| >= -HALF
    ensures var t := PushAll(s, rs);
      && t.regs == s.regs[SP := Esp(s) - 4 * |rs|]
      && t.pc == s.pc && t.input == s.input && t.output == s.output
    decreases |rs|
  {
    if rs != [] {
      PushOne(s, rs[0]);
      PushAllRegisters(Push(s, rs[0]), rs[1..]);
    }
  }

  /** The inductive step of `PushAllSlots`: `u` is `s` after pushing `rs[0]`, and `t`
      has the slots of `rs[1..]` pushed from `u`. */
  lemma SlotsStep(s: State, u: State, t: State, rs: seq<int>)
    requires Wf(s) && Wf(u) && Registers(rs) && rs != []
    requires Esp(u) == Esp(s) - 4 && u.regs[rs[0]] == s.regs[rs[0]]
    requires forall j :: 0 <= j < NUM_REGS && j != SP ==> u.regs[j] == s.regs[j]
    requires LoadWord(u.mem, Esp(u)) == Some(Unsigned(s.regs[rs[0]]))
    requires forall b: int :: b >= Esp(s) ==> LoadWord(u.mem, b) == LoadWord(s.mem, b)
    requires forall i :: 0 <= i < |rs| - 1 ==>
      LoadWord(t.mem, Esp(u) - 4 * (i + 1)) == Some(Unsigned(u.regs[rs[1..][i]]))
    requires forall b: int :: b >= Esp(u) ==> LoadWord(t.mem, b) == LoadWord(u.mem, b)
    ensures forall i :: 0 <= i < |rs| ==>
      LoadWord(t.mem, Esp(s) - 4 * (i + 1)) == Some(Unsigned(s.regs[rs[i]]))
    ensures forall b: int :: b >= Esp(s) ==> LoadWord(t.mem, b) == LoadWord(s.mem, b)
  {
    forall i | 0 <= i < |rs|
      ensures LoadWord(t.mem, Esp(s) - 4 * (i + 1)) == Some(Unsigned(s.regs[rs[i]]))
    {
      if i > 0 {
        assert rs[1..][i - 1] == rs[i];
        assert Esp(u) - 4 * ((i - 1) + 1) == Esp(s) - 4 * (i + 1);
      } else {
        assert LoadWord(t.mem, Esp(u)) == LoadWord(u.mem, Esp(u));
      }
    }
  }

  /** After n pushes the i-th register pushed is in the word at %esp - 4(i + 1), and no
      word at or above the old %esp has changed. */
  lemma {:induction false} PushAllSlots(s: State, rs: seq<int>)
    requires Wf(s) && Registers(rs)
    requires Esp(s) - 4 * |rs| >= -HALF
    ensures var t := PushAll(s, rs);
      && (forall i :: 0 <= i < |rs| ==>
            LoadWord(t.mem, Esp(s) - 4 * (i + 1)) == Some(Unsigned(s.regs[rs[i]])))
      && (forall b: int :: b >= Esp(s) ==> LoadWord(t.mem, b) == LoadWord(s.mem, b))
    decreases |rs|
  {
    if rs != [] {
      var u := Push(s, rs[0]);
      PushOne(s, rs[0]);
      PushAllSlots(u, rs[1..]);
      SlotsStep(s, u, PushAll(u, rs[1..]), rs);
    }
  }

  /** Popping into distinct registers from a stack whose i-th word from the top is
      `ws[i]`: register `qs[i]` receives `ws[i]`, %esp rises by 4 per pop, memory and
      every other register stay as they were. */
  lemma {:induction false} PopAllValues(u: State, qs: seq<int>, ws: seq<u32>)
    requires Wf(u) && Registers(qs) && Distinct(qs) && |ws| == |qs|
    requires Esp(u) + 4 * |qs| < HALF
    requires forall i :: 0 <= i < |qs| ==> LoadWord(u.mem, Esp(u) + 4 * i) == Some(ws[i])
    ensures PopAll(u, qs).Some?
    ensures var t := PopAll(u, qs).value;
      && t.pc == u.pc && t.mem == u.mem && t.input == u.input && t.output == u.output
      && t.regs[SP] == Esp(u) + 4 * |qs|
      && (forall i :: 0 <= i < |qs| ==> t.regs[qs[i]] == Signed(ws[i]))
      && (forall j :: 0 <= j < NUM_REGS && j != SP && j !in qs ==> t.regs[j] == u.regs[j])
    decreases |qs|
  {
    if qs != [] {
      var q := qs[0];
      assert LoadWord(u.mem, Esp(u)) == Some(ws[0]);
      var v := Pop(u, q).value;
      assert v.regs == u.regs[q := Signed(ws[0])][SP := Esp(u) + 4];
      forall i | 0 <= i < |qs| - 1
        ensures LoadWord(v.mem, Esp(v) + 4 * i) == Some(ws[1..][i])
      {
        assert Esp(v) + 4 * i == Esp(u) + 4 * (i + 1);
      }
      PopAllValues(v, qs[1..], ws[1..]);
      var t := PopAll(u, qs).value;
      assert t == PopAll(v, qs[1..]).value;
      forall i | 0 <= i < |qs|
        ensures t.regs[qs[i]] == Signed(ws[i])
      {
        if i > 0 {
          assert qs[1..][i - 1] == qs[i];
        } else {
          assert q !in qs[1..] by {
            forall k | 0 <= k < |qs| - 1 ensures qs[1..][k] != q {
              assert qs[1..][k] == qs[k + 1];
            }
          }
        }
      }
      forall j | 0 <= j < NUM_REGS && j != SP && j !in qs
        ensures t.regs[j] == u.regs[j]
      {
        assert j !in qs[1..] by {
          forall k | 0 <= k < |qs| - 1 ensures qs[1..][k] != j {
            assert qs[1..][k] == qs[k + 1];
          }
        }
      }
    }
  }

  /** The words n pushes of `rs` lay down, from the top of the stack downwards. */
  function PushedWords(s: State, rs: seq<int>): (ws: seq<u32>)
    requires Wf(s) && Registers(rs)
    ensures |ws| == |rs|
    ensures forall i :: 0 <= i < |rs| ==> ws[i] == Unsigned(s.regs[rs[|rs| - 1 - i]])
  {
    seq(|rs|, i requires 0 <= i < |rs| => Unsigned(s.regs[rs[|rs| - 1 - i]]))
  }

  /** After n pushes from `s`, the i-th word from the new top is the i-th of
      `PushedWords`. */
  lemma PushedWordsOnTop(s: State, u: State, rs: seq<int>)
    requires Wf(s) && Wf(u) && Registers(rs)
    requires u.regs[SP] as int == Esp(s) - 4 * |rs|
    requires forall i :: 0 <= i < |rs| ==>
      LoadWord(u.mem, Esp(s) - 4 * (i + 1)) == Some(Unsigned(s.regs[rs[i]]))
    ensures forall i :: 0 <= i < |rs| ==>
      LoadWord(u.mem, Esp(u) + 4 * i) == Some(PushedWords(s, rs)[i])
  {
    var n := |rs|;
    forall i | 0 <= i < n
      ensures LoadWord(u.mem, Esp(u) + 4 * i) == Some(PushedWords(s, rs)[i])
    {
      var k := n - 1 - i;
      assert Esp(u) + 4 * i == Esp(s) - 4 * (k + 1);
      assert LoadWord(u.mem, Esp(s) - 4 * (k + 1)) == Some(Unsigned(s.regs[rs[k]]));
    }
  }

  /** Registers popped from the words `PushedWords(s, rs)` hold the pushed registers'
      values, the last pushed first. */
  lemma PoppedInReverse(s: State, t: State, rs: seq<int>, qs: seq<int>)
    requires Wf(s) && Wf(t) && Registers(rs) && Registers(qs) && |qs| == |rs|
    requires t.regs[SP] as int == Esp(s)
    requires forall i :: 0 <= i < |qs| ==> t.regs[qs[i]] == Signed(PushedWords(s, rs)[i])
    requires forall j :: 0 <= j < NUM_REGS && j != SP && j !in qs ==> t.regs[j] == s.regs[j]
    ensures t.regs[SP] == s.regs[SP]
    ensures forall i :: 0 <= i < |qs| ==> t.regs[qs[i]] == s.regs[rs[|rs| - 1 - i]]
    ensures forall j :: 0 <= j < NUM_REGS && j !in qs ==> t.regs[j] == s.regs[j]
  {
    forall i | 0 <= i < |qs|
      ensures t.regs[qs[i]] == s.regs[rs[|rs| - 1 - i]]
    {
      SignedUnsigned(s.regs[rs[|rs| - 1 - i]]);
    }
  }

  /** n pushes followed by n pops into distinct registers: the pops return the pushed
      values in reverse order, %esp is back where it started, and every register not
      popped into is as it was. */
  lemma PushesThenPops(s: State, rs: seq<int>, qs: seq<int>)
    requires Wf(s) && Registers(rs) && Registers(qs) && Distinct(qs) && |qs| == |rs|
    requires Esp(s) - 4 * |rs| >= -HALF
    ensures PopAll(PushAll(s, rs), qs).Some?
    ensures var t := PopAll(PushAll(s, rs), qs).value;
      && t.regs[SP] == s.regs[SP]
      && (forall i :: 0 <= i < |qs| ==> t.regs[qs[i]] == s.regs[rs[|rs| - 1 - i]])
      && (forall j :: 0 <= j < NUM_REGS && j !in qs ==> t.regs[j] == s.regs[j])
  {
    var n := |rs|;
    var u := PushAll(s, rs);
    var ws := PushedWords(s, rs);
    PushAllRegisters(s, rs);
    PushAllSlots(s, rs);
    PushedWordsOnTop(s, u, rs);
    PopAllValues(u, qs, ws);
    PoppedInReverse(s, PopAll(u, qs).value, rs, qs);
  }
}
