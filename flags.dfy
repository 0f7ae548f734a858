/** The condition codes: what `cmpl` stores in register 16 and how the conditional
    branches read it back. Bit 0 is the carry flag, bit 6 zero, bit 7 sign, bit 11
    overflow. */
module Flags {
  import opened Words
  import opened Decoder

  datatype Flags = Flags(cf: bool, zf: bool, sf: bool, of: bool)

  /** `cmpl first, second`: the condition codes of `second - first`, the difference taken
      exactly (as a 64-bit `long`, which cannot overflow for two 32-bit operands). */
  function Compare(first: i32, second: i32): (f: Flags)
    ensures f.cf <==> Unsigned(first) > Unsigned(second)
    ensures f.zf <==> first == second
    ensures f.sf <==> (second - first) % WORD >= HALF
    ensures f.of <==> Wrap(second - first) != second - first
  {
    var diff := second - first;
    Bit31(diff);
    Flags(cf := Unsigned(first) > Unsigned(second),
          zf := diff == 0,
          sf := Bit(diff, HALF),
          of := diff > 0x7fff_ffff || diff < -0x8000_0000)
  }

  /** The flags word `cmpl` stores: cleared, then one bit added per flag that holds. */
  function Pack(f: Flags): (r: i32)
  {
    0 + (if f.cf then 0x1 else 0) + (if f.zf then 0x40 else 0)
      + (if f.sf then 0x80 else 0) + (if f.of then 0x800 else 0)
  }

  /** The four flags as the branches test them, one bit of register 16 each. */
  function Unpack(r: i32): Flags
  {
    Flags(cf := Bit(r, 0x1), zf := Bit(r, 0x40), sf := Bit(r, 0x80), of := Bit(r, 0x800))
  }

  /** The flags word holds the four flags at their bit positions and has every other bit
      clear (bits 1 to 5 and 8 to 10, and everything from bit 12 up). */
  lemma PackExactBits(f: Flags)
    ensures Unpack(Pack(f)) == f
    ensures 0 <= Pack(f) < 0x1000
    ensures Pack(f) % 0x40 <= 1 && (Pack(f) / 0x100) % 0x8 == 0
  {
    var v := Pack(f);
    assert Bit(v, 0x1) <==> f.cf;
    assert Bit(v, 0x40) <==> f.zf;
    assert Bit(v, 0x80) <==> f.sf;
    assert Bit(v, 0x800) <==> f.of;
  }

  predicate IsJump(op: Opcode)
  {
    op.Je? || op.Jl? || op.Jle? || op.Jge? || op.Jbe? || op.Jmp?
  }

  /** Whether a jump is taken, given the flags word: `je` on ZF, `jl` when SF and OF
      differ, `jle` when they differ or ZF, `jge` when they agree, `jbe` on CF or ZF,
      `jmp` always. */
  function Taken(op: Opcode, flagsWord: i32): bool
    requires IsJump(op)
  {
    var f := Unpack(flagsWord);
    match op
    case Je => f.zf
    case Jl => f.sf != f.of
    case Jle => f.sf != f.of || f.zf
    case Jge => f.sf == f.of
    case Jbe => f.cf || f.zf
    case Jmp => true
  }

  /** Right after `cmpl first, second`, each conditional jump is the comparison its name
      says of `second` against `first`: signed for `jl`, `jle`, `jge`, unsigned for `jbe`. */
  lemma CompareThenBranch(first: i32, second: i32)
    ensures Taken(Je, Pack(Compare(first, second))) <==> second == first
    ensures Taken(Jl, Pack(Compare(first, second))) <==> second < first
    ensures Taken(Jle, Pack(Compare(first, second))) <==> second <= first
    ensures Taken(Jge, Pack(Compare(first, second))) <==> second >= first
    ensures Taken(Jbe, Pack(Compare(first, second))) <==> Unsigned(second) <= Unsigned(first)
  {
    var f := Compare(first, second);
    PackExactBits(f);
    var d := second - first;
    if d >= HALF {
      assert d % WORD == d;
    } else if d < -HALF {
      assert d % WORD == d + WORD;
    } else {
      assert d >= 0 ==> d % WORD == d;
      assert d < 0 ==> d % WORD == d + WORD;
    }
    if first >= 0 && second < 0 {
      assert Unsigned(second) == second + WORD;
    } else if first < 0 && second >= 0 {
      assert Unsigned(first) == first + WORD;
    }
  }

  // The conditional jumps exactly as the source writes them, for the finding recorded
  // in the README: `jl`, `jle` and `jge` combine the two isolated bits
  // `r & (1 << 7)` and `r & (1 << 11)` with an exclusive or.

  /** The C expression `v & weight` for a power of two `weight`: that one bit of `v` kept
      in place, every other bit clear. */
  function Mask(v: i32, weight: nat): nat
    requires weight > 0
  {
    if Bit(v, weight) then weight else 0
  }

  /** Bitwise exclusive or of two non-negative integers. */
  function Xor(a: nat, b: nat): nat
    decreases a + b
  {
    if a == 0 && b == 0 then 0
    else 2 * Xor(a / 2, b / 2) + (if a % 2 != b % 2 then 1 else 0)
  }

  lemma {:induction false} XorZero(a: nat, b: nat)
    ensures Xor(a, b) == 0 <==> a == b
    decreases a + b
  {
    if a != 0 || b != 0 {
      XorZero(a / 2, b / 2);
    }
  }

  function TakenAsWritten(op: Opcode, flagsWord: i32): bool
    requires IsJump(op)
  {
    var signOverflow := Xor(Mask(flagsWord, 0x80), Mask(flagsWord, 0x800));
    match op
    case Je => Mask(flagsWord, 0x40) != 0
    case Jl => signOverflow != 0
    case Jle => signOverflow != 0 || Mask(flagsWord, 0x40) != 0
    case Jge => !(signOverflow != 0)
    case Jbe => Mask(flagsWord, 0x1) != 0 || Mask(flagsWord, 0x40) != 0
    case Jmp => true
  }

  /** As written, `jl`, `jle` and `jge` test "SF or OF" instead of "SF differs from OF":
      the exclusive or of the two masks is zero only when both bits are clear. */
  lemma AsWrittenTestsSignOrOverflow(op: Opcode, flagsWord: i32)
    requires IsJump(op)
    ensures var f := Unpack(flagsWord);
      TakenAsWritten(op, flagsWord) ==
        match op
        case Jl => f.sf || f.of
        case Jle => f.sf || f.of || f.zf
        case Jge => !f.sf && !f.of
        case _ => Taken(op, flagsWord)
  {
    XorZero(Mask(flagsWord, 0x80), Mask(flagsWord, 0x800));
  }

  /** The inputs that show it: whenever `second - first` overflows upward (for instance
      first = -1, second = 2^31 - 1), SF and OF are both set; as written `jl` and `jle`
      are then taken although the second operand is the larger, and `jge` is not taken
      although it should be. */
  lemma SignedJumpsAsWrittenDisagree(first: i32, second: i32)
    requires second - first >= HALF
    ensures second > first
    ensures TakenAsWritten(Jl, Pack(Compare(first, second))) && !Taken(Jl, Pack(Compare(first, second)))
    ensures TakenAsWritten(Jle, Pack(Compare(first, second))) && !Taken(Jle, Pack(Compare(first, second)))
    ensures !TakenAsWritten(Jge, Pack(Compare(first, second))) && Taken(Jge, Pack(Compare(first, second)))
  {
    var f := Compare(first, second);
    assert (second - first) % WORD == second - first;
    assert f.sf && f.of && !f.zf;
    var p := Pack(f);
    PackExactBits(f);
    AsWrittenTestsSignOrOverflow(Jl, p);
    AsWrittenTestsSignOrOverflow(Jle, p);
    AsWrittenTestsSignOrOverflow(Jge, p);
  }

  /** Everywhere else the written test and the intended one agree: unless `second - first`
      reaches 2^31, SF and OF are never both set after `cmpl first, second`. */
  lemma JumpsAsWrittenAgree(op: Opcode, first: i32, second: i32)
    requires IsJump(op) && second - first < HALF
    ensures TakenAsWritten(op, Pack(Compare(first, second))) == Taken(op, Pack(Compare(first, second)))
  {
    var f := Compare(first, second);
    var d := second - first;
    if d < -HALF {
      assert d % WORD == d + WORD;
      assert !f.sf;
    } else {
      assert !f.of;
    }
    PackExactBits(f);
    AsWrittenTestsSignOrOverflow(op, Pack(f));
  }

  /** Whatever register 16 holds, not only after `cmpl`: the written test of a signed
      jump disagrees with the intended one exactly when SF and OF are both set and, for
      `jle`, ZF is clear. */
  lemma AsWrittenDisagreesExactly(op: Opcode, flagsWord: i32)
    requires IsJump(op)
    ensures TakenAsWritten(op, flagsWord) != Taken(op, flagsWord) <==>
      (op.Jl? || op.Jge? || (op.Jle? && !Unpack(flagsWord).zf))
        && Unpack(flagsWord).sf && Unpack(flagsWord).of
  {
    AsWrittenTestsSignOrOverflow(op, flagsWord);
  }
}
