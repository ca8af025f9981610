/** The 64-bit instruction word: packing by the assembler, unpacking by the interpreter, conditional execution. */
module Instructions {
  import opened Values

  datatype Instruction = Instruction(opcode: int, cond: int, A: int, B: int, C: int)

  predicate FieldsFit(ins: Instruction) {
    && 0 <= ins.opcode < 0x100 && 0 <= ins.cond < 0x100
    && 0 <= ins.A < 0x1_0000 && 0 <= ins.B < 0x1_0000 && 0 <= ins.C < 0x1_0000
  }

  function Encode(ins: Instruction): U64
    requires FieldsFit(ins)
  {
    ins.opcode * 0x100_0000_0000_0000 + ins.cond * 0x1_0000_0000_0000
    + ins.A * 0x1_0000_0000 + ins.B * 0x1_0000 + ins.C
  }

  /** Shifts and masks of an unsigned word, as quotients and remainders. */
  function Decode(w: U64): (ins: Instruction)
    ensures FieldsFit(ins)
  {
    Instruction((w / 0x100_0000_0000_0000) % 0x100, (w / 0x1_0000_0000_0000) % 0x100,
                (w / 0x1_0000_0000) % 0x1_0000, (w / 0x1_0000) % 0x1_0000, w % 0x1_0000)
  }

  lemma DecodeEncode(ins: Instruction)
    requires FieldsFit(ins)
    ensures Decode(Encode(ins)) == ins
  {
    var w := Encode(ins);
    assert w / 0x1_0000 == ins.opcode * 0x100_0000_0000 + ins.cond * 0x1_0000_0000 + ins.A * 0x1_0000 + ins.B;
    assert w / 0x1_0000_0000 == ins.opcode * 0x100_0000 + ins.cond * 0x1_0000 + ins.A;
    assert w / 0x1_0000_0000_0000 == ins.opcode * 0x100 + ins.cond;
    assert w / 0x100_0000_0000_0000 == ins.opcode;
  }

  /** Every word is the packing of what it decodes to. */
  lemma EncodeDecode(w: U64)
    ensures Encode(Decode(w)) == w
  {
    hide Encode, Decode;
    var ins := Fields(w);
    DecodeEncode(ins);
  }

  /** Cutting a word into its fields, one after the other. */
  lemma Fields(w: U64) returns (ins: Instruction)
    ensures FieldsFit(ins) && Encode(ins) == w
  {
    var upper, C := w / 0x1_0000, w % 0x1_0000;
    var high, B := upper / 0x1_0000, upper % 0x1_0000;
    var top, A := high / 0x1_0000, high % 0x1_0000;
    var opcode, cond := top / 0x100, top % 0x100;
    assert w == upper * 0x1_0000 + C && upper == high * 0x1_0000 + B;
    assert high == top * 0x1_0000 + A && top == opcode * 0x100 + cond;
    ins := Instruction(opcode, cond, A, B, C);
  }

  lemma QuotientOf48(w: nat)
    ensures w / 0x1_0000_0000_0000 == (w / 0x1_0000_0000) / 0x1_0000
  {
    var q := (w / 0x1_0000_0000) / 0x1_0000;
    assert w == q * 0x1_0000_0000_0000 + ((w / 0x1_0000_0000) % 0x1_0000) * 0x1_0000_0000 + w % 0x1_0000_0000;
  }

  lemma QuotientOf56(w: nat)
    ensures w / 0x100_0000_0000_0000 == (w / 0x1_0000_0000_0000) / 0x100
  {
    var q := (w / 0x1_0000_0000_0000) / 0x100;
    assert w == q * 0x100_0000_0000_0000 + ((w / 0x1_0000_0000_0000) % 0x100) * 0x1_0000_0000_0000
                + w % 0x1_0000_0000_0000;
  }

  const FLAG_EQUAL: bv8 := 1
  const FLAG_LESS: bv8 := 2

  /** The guard in front of every instruction. The mask expression is written without
      parentheses, so the shift binds first and the mask is the low nibble of the condition byte. */
  predicate Skips(cond: bv8, flagRegister: bv8) {
    var mask := cond & (0xF0 >> 4);
    var wanted := cond & mask;
    var flags := flagRegister & mask;
    (!(flags ^ wanted)) & mask == 0 && mask != 0
  }

  /** An instruction runs when its low nibble is empty or shares a set bit with the flag register. */
  lemma GuardMeaning(cond: bv8, flags: bv8)
    ensures Skips(cond, flags) <==> cond & 0x0F != 0 && flags & (cond & 0x0F) == 0
  {
  }

  /** The guard of an instruction. */
  predicate Skipped(ins: Instruction, flagRegister: bv8)
    requires FieldsFit(ins)
  {
    Skips(ins.cond as bv8, flagRegister)
  }

  const COND_AL: bv8 := 0x00
  const COND_EQ: bv8 := 0x11
  const COND_LT: bv8 := 0x32
  const COND_NE: bv8 := 0x10
  const COND_GT: bv8 := 0x30
  const COND_GE: bv8 := 0x31
  const COND_LE: bv8 := 0x33

  /** The seven condition codes of the assembler, judged against the two comparison flags. The codes for
      equal, less and less-or-equal work; not-equal and greater always run; greater-or-equal runs on equal only. */
  lemma ConditionCodes(flags: bv8)
    ensures !Skips(COND_AL, flags) && !Skips(COND_NE, flags) && !Skips(COND_GT, flags)
    ensures !Skips(COND_EQ, flags) <==> flags & FLAG_EQUAL != 0
    ensures !Skips(COND_LT, flags) <==> flags & FLAG_LESS != 0
    ensures !Skips(COND_LE, flags) <==> flags & (FLAG_EQUAL | FLAG_LESS) != 0
    ensures !Skips(COND_GE, flags) <==> flags & FLAG_EQUAL != 0
  {
  }

  const NOP := 0x00
  const MOV := 0x01
  const TABLE_GET := 0x02
  const TABLE_SET := 0x03
  const CALL := 0x04
  const STACK_PUSH := 0x05
  const STACK_POP := 0x06
  const GET_CONSTANT := 0x07
  const RETURN := 0x08
  const EXTRA := 0x09
  const STACK_GETTOP := 0x0A
  const LOAD_PROTOTYPE := 0x0B
  const ADD := 0x0C
  const SUB := 0x0D
  const MUL := 0x0E
  const DIV := 0x0F
  const MOD := 0x10
  const POW := 0x11
  const JMP_FORWARD := 0x12
  const JMP_BACKWARD := 0x13
  const CMP := 0x14
  const LAST := 0x15

  const REGISTER_ALWAYS_NIL := 0xFFFF
  const REGISTER_ENV := 0xFFFE
  const REGISTER_CURRENT := 0xFFFD
  const RESERVED_START := 0xFF00
}
