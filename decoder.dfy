/** The instruction format and the decoder (`decode_instructions`): each 32-bit word is
    split into a 5-bit opcode, two 5-bit register fields and a 16-bit immediate. */
module Decoder {
  import opened Words

  type u5 = x: int | 0 <= x < 32

  /** A decoded instruction, as `instruction_t` holds it. The immediate is the 16-bit
      signed field of `instruction_t`. */
  datatype Instruction = Instruction(opcode: u5, reg1: u5, reg2: u5, imm: i16)

  /** The mnemonics the executor dispatches on, and `Unknown` for every other opcode. */
  datatype Opcode =
    | Subl | AddlRegReg | AddlImmReg | Imull | Shrl
    | MovlRegReg | MovlDerefReg | MovlRegDeref | MovlImmReg
    | Cmpl | Je | Jl | Jle | Jge | Jbe | Jmp
    | Call | Ret | Pushl | Popl | Printr | Readr
    | Unknown

  /** The numbering of the mnemonics (an enumeration outside this model): which 5-bit
      opcode value stands for which mnemonic. */
  type OpcodeTable = map<u5, Opcode>

  function Classify(table: OpcodeTable, code: u5): Opcode
  {
    if code in table then table[code] else Unknown
  }

  /** The two's-complement value of a 16-bit pattern. */
  function SignExtend16(b: int): (r: i16)
    requires 0 <= b < 0x1_0000
    ensures (r - b) % 0x1_0000 == 0
    ensures r < 0 <==> b >= 0x8000
  {
    if b < 0x8000 then b else b - 0x1_0000
  }

  const OPCODE_SHIFT: int := 0x800_0000  // 2^27: opcode in bits 31:27
  const REG1_SHIFT: int := 0x40_0000     // 2^22: first register in bits 26:22
  const REG2_SHIFT: int := 0x2_0000      // 2^17: second register in bits 21:17

  /** Decoding one word: always succeeds; bit 16 is not part of any field. */
  function Decode(w: u32): (ins: Instruction)
    ensures (ins.imm - w) % 0x1_0000 == 0
    ensures ins.imm < 0 <==> w % 0x1_0000 >= 0x8000
  {
    Instruction((w / OPCODE_SHIFT) % 32, (w / REG1_SHIFT) % 32, (w / REG2_SHIFT) % 32,
                SignExtend16(w % 0x1_0000))
  }

  /** The bit layout read backwards: the word whose fields are those of `ins`, with
      bit 16 clear. */
  function Encode(ins: Instruction): (w: u32)
  {
    ins.opcode * OPCODE_SHIFT + ins.reg1 * REG1_SHIFT + ins.reg2 * REG2_SHIFT
      + ins.imm % 0x1_0000
  }

  /** Every instruction survives encoding and decoding. */
  lemma DecodeEncode(ins: Instruction)
    ensures Decode(Encode(ins)) == ins
  {
    var lo := ins.imm % 0x1_0000;
    var w := Encode(ins);
    DivModUnique(w, OPCODE_SHIFT, ins.opcode, ins.reg1 * REG1_SHIFT + ins.reg2 * REG2_SHIFT + lo);
    DivModUnique(ins.opcode, 32, 0, ins.opcode);
    DivModUnique(w, REG1_SHIFT, ins.opcode * 32 + ins.reg1, ins.reg2 * REG2_SHIFT + lo);
    DivModUnique(ins.opcode * 32 + ins.reg1, 32, ins.opcode, ins.reg1);
    var hi := (ins.opcode * 32 + ins.reg1) * 32 + ins.reg2;
    DivModUnique(w, REG2_SHIFT, hi, lo);
    DivModUnique(hi, 32, ins.opcode * 32 + ins.reg1, ins.reg2);
    DivModUnique(w, 0x1_0000, hi * 2, lo);
  }

  /** Decoding loses exactly bit 16: re-encoding a decoded word gives the word back with
      that bit cleared. */
  lemma EncodeDecode(w: u32)
    ensures Encode(Decode(w)) == w - 0x1_0000 * ((w / 0x1_0000) % 2)
  {
    var ins := Decode(w);
    var lo := w % 0x1_0000;
    var q16 := w / 0x1_0000;
    var b16 := q16 % 2;
    DivModUnique(w, REG2_SHIFT, q16 / 2, b16 * 0x1_0000 + lo);
    var q17 := w / REG2_SHIFT;
    var q22 := q17 / 32;
    DivModUnique(w, REG1_SHIFT, q22, ins.reg2 * REG2_SHIFT + b16 * 0x1_0000 + lo);
    var q27 := q22 / 32;
    DivModUnique(w, OPCODE_SHIFT, q27,
                 ins.reg1 * REG1_SHIFT + ins.reg2 * REG2_SHIFT + b16 * 0x1_0000 + lo);
    assert ins.opcode == q27;
    assert ins.imm % 0x1_0000 == lo;
  }

  /** The immediate depends on bits 15:0 and nothing else. */
  lemma ImmediateFromLowBits(v: u32, w: u32)
    requires v % 0x1_0000 == w % 0x1_0000
    ensures Decode(v).imm == Decode(w).imm
  {
  }

  /** The low half-word 0xFFFF is the immediate -1: bit 15 is the sign. */
  lemma AllOnesImmediate(w: u32)
    requires w % 0x1_0000 == 0xFFFF
    ensures Decode(w).imm == -1
    ensures Decode(0xFFFF) == Instruction(0, 0, 0, -1)
  {
  }

  /** The program as a whole: word `i` of the file decodes to instruction `i`. */
  function DecodeAll(words: seq<u32>): (program: seq<Instruction>)
  {
    seq(|words|, i requires 0 <= i < |words| => Decode(words[i]))
  }

  /** `decode_instructions`: fills the instruction array one word at a time. */
  method DecodeInstructions(words: seq<u32>) returns (program: seq<Instruction>)
    ensures |program| == |words|
    ensures forall i :: 0 <= i < |words| ==> program[i] == Decode(words[i])
  {
    var retval := new Instruction[|words|];
    for i := 0 to |words|
      invariant forall j :: 0 <= j < i ==> retval[j] == Decode(words[j])
    {
      retval[i] := Decode(words[i]);
    }
    program := retval[..];
  }
}
