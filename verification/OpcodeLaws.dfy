/** What single instructions do to registers, stack, flags, program counter and heap, in terms of the numbers and slots
    themselves. */
module OpcodeLaws {
  import opened Arithmetic
  import opened Values
  import opened Instructions
  import opened LuaStack
  import opened Machine
  import InstructionLaws

  // ---------------------------------------------------------------- encoding

  /** The opcodes of the bytecode format, in the order of their numbers. */
  lemma OpcodeNumbers()
    ensures [NOP, MOV, TABLE_GET, TABLE_SET, CALL, STACK_PUSH, STACK_POP, GET_CONSTANT, RETURN, EXTRA, STACK_GETTOP,
             LOAD_PROTOTYPE, ADD, SUB, MUL, DIV, MOD, POW, JMP_FORWARD, JMP_BACKWARD, CMP, LAST]
         == seq(22, i => i)
  {
  }

  /** Where the fields are in a word: one byte of opcode, one of condition, and three times two bytes of operands, from
      the most significant one on. */
  lemma FieldsInWord()
    ensures Decode(0x0133_0203_0405_0607) == Instruction(0x01, 0x33, 0x0203, 0x0405, 0x0607)
  {
    var ins := Instruction(0x01, 0x33, 0x0203, 0x0405, 0x0607);
    assert Encode(ins) == 0x0133_0203_0405_0607;
    DecodeEncode(ins);
  }

  // ---------------------------------------------------------------- registers

  /** What an index names: the environment, the running function, nil, or one of 256 registers, which reads as nil while
      it is empty. Any other index fails the assertion. */
  lemma RegisterIsRead(f: Frame, index: nat)
    requires |f.registers| == 256
    ensures GetRegister(f, 0xFFFE) == Some(f.closure.env)
    ensures GetRegister(f, 0xFFFD) == Some(Fun(f.closure))
    ensures GetRegister(f, 0xFFFF) == Some(Nil)
    ensures index < 256 && !f.registers[index].NotPresent? ==> GetRegister(f, index) == Some(f.registers[index])
    ensures index < 256 && f.registers[index].NotPresent? ==> GetRegister(f, index) == Some(Nil)
    ensures 256 <= index < 0xFFFD || index > 0xFFFF ==> GetRegister(f, index) == None
  {
  }

  /** A write is seen by the read behind it and by no other; the first reserved index swallows it, and every other index
      without a register fails the assertion, as does a value that is not present. */
  lemma RegisterIsWritten(f: Frame, index: nat, v: Value, other: nat)
    requires |f.registers| == 256 && other != index
    ensures !v.NotPresent? && index < 256 ==>
              && SetRegister(f, index, v).Some?
              && var g := SetRegister(f, index, v).value;
                 && GetRegister(g, index) == Some(v) && GetRegister(g, other) == GetRegister(f, other)
                 && g.(registers := f.registers) == f
    ensures !v.NotPresent? && index == 0xFF00 ==> SetRegister(f, index, v) == Some(f)
    ensures v.NotPresent? || (index >= 256 && index != 0xFF00) ==> SetRegister(f, index, v) == None
  {
  }

  // ---------------------------------------------------------------- arithmetic

  /** Quotient and remainder of C: section 6.5.5 of ISO/IEC 9899:2011. */
  predicate Divides(a: int, b: int, q: int, r: int) {
    && a == b * q + r
    && (if r < 0 then -r else r) < (if b < 0 then -b else b)
    && (a >= 0 ==> r >= 0) && (a <= 0 ==> r <= 0)
  }

  /** The instruction has put v into register A and has done nothing else. */
  predicate HasStored(st: Step, f: Frame, heap: Heap, index: nat, v: Value)
    requires index < |f.registers|
  {
    st == Next(f.(registers := f.registers[index := v], pc := f.pc + 1), heap)
  }

  /** DIV stores the quotient of two integers and MOD their remainder; a zero divisor and the one quotient that
      overflows stop the host. */
  lemma DivisionInstructions(host: Host, f: Frame, heap: Heap, ins: Instruction, a: I64, b: I64)
    requires f.closure.body.Bytecode? && FieldsFit(ins) && ins.A < |f.registers| == 256
    requires GetRegister(f, ins.B) == Some(Long(a)) && GetRegister(f, ins.C) == Some(Long(b))
    ensures b == 0 || (a == -TWO_63 && b == -1) ==>
              (ins.opcode == DIV || ins.opcode == MOD ==> SimpleStep(host, f, heap, ins) == Halt(Trapped))
    ensures b != 0 && (a != -TWO_63 || b != -1) ==>
              exists q: I64, r: I64 ::
                && Divides(a, b, q, r)
                && (ins.opcode == DIV ==> HasStored(SimpleStep(host, f, heap, ins), f, heap, ins.A, Long(q)))
                && (ins.opcode == MOD ==> HasStored(SimpleStep(host, f, heap, ins), f, heap, ins.A, Long(r)))
  {
    hide TruncDiv, TruncMod, Wrap;
    if b != 0 && (a != -TWO_63 || b != -1) {
      var q, r := TruncDiv(a, b), TruncMod(a, b);
      DivisionTruncates(a, b);
      QuotientFits(a, b, q, r);
      WrapIsIdentityInRange(q);
      WrapIsIdentityInRange(r);
      assert Divides(a, b, q, r);
    }
  }

  lemma QuotientFits(a: int, b: int, q: int, r: int)
    requires -TWO_63 <= a < TWO_63 && -TWO_63 <= b < TWO_63
    requires b != 0 && (a != -TWO_63 || b != -1) && Divides(a, b, q, r)
    ensures -TWO_63 <= q < TWO_63 && -TWO_63 <= r < TWO_63
  {
    var m, n := if q < 0 then -q else q, if b < 0 then -b else b;
    ProductOfSizes(b, q, n, m);
    if n >= 2 && m >= TWO_63 {
      AtLeastProduct(n, m);
    }
  }

  lemma ProductOfSizes(b: int, q: int, n: nat, m: nat)
    requires n == (if b < 0 then -b else b) && m == (if q < 0 then -q else q)
    ensures n * m == if b * q < 0 then -(b * q) else b * q
    ensures n == 1 ==> n * m == m
  {
    if b < 0 {
      assert -b * q == -(b * q);
    }
    if q < 0 {
      assert n * -q == -(n * q);
    }
  }

  lemma AtLeastProduct(n: nat, m: nat)
    requires n >= 2
    ensures n * m >= 2 * m
  {
  }

  /** Both traps leave everything as it was. */
  lemma DivisionTraps(host: Host, s: State, n: nat, a: I64, b: I64)
    requires Fetching(s, n) && !Skipped(Fetched(s), Top(s).flags)
    requires Fetched(s).opcode == DIV || Fetched(s).opcode == MOD
    requires FieldsFit(Fetched(s)) && Fetched(s).A < |Top(s).registers| == 256
    requires GetRegister(Top(s), Fetched(s).B) == Some(Long(a))
    requires GetRegister(Top(s), Fetched(s).C) == Some(Long(b))
    requires b == 0 || (a == -TWO_63 && b == -1)
    ensures Loop(host, s, n) == Result(Stopped(Trapped), s, n - 1)
  {
    hide Loop, SimpleStep, Skipped, Decode;
    DivisionInstructions(host, Top(s), s.heap, Fetched(s), a, b);
    FetchStop(host, s, n);
  }

  /** ADD, SUB and MUL of integers store the one 64-bit integer that is the exact result modulo 2^64. */
  lemma IntegerInstructions(host: Host, f: Frame, heap: Heap, ins: Instruction, a: I64, b: I64, v: I64)
    requires f.closure.body.Bytecode? && FieldsFit(ins) && ins.A < |f.registers| == 256
    requires GetRegister(f, ins.B) == Some(Long(a)) && GetRegister(f, ins.C) == Some(Long(b))
    ensures ins.opcode == ADD && (v - (a + b)) % TWO_64 == 0 ==>
              HasStored(SimpleStep(host, f, heap, ins), f, heap, ins.A, Long(v))
    ensures ins.opcode == SUB && (v - (a - b)) % TWO_64 == 0 ==>
              HasStored(SimpleStep(host, f, heap, ins), f, heap, ins.A, Long(v))
    ensures ins.opcode == MUL && (v - a * b) % TWO_64 == 0 ==>
              HasStored(SimpleStep(host, f, heap, ins), f, heap, ins.A, Long(v))
  {
    hide Wrap;
    if (v - (a + b)) % TWO_64 == 0 {
      WrapIsUnique(a + b, v);
    }
    if (v - (a - b)) % TWO_64 == 0 {
      WrapIsUnique(a - b, v);
    }
    if (v - a * b) % TWO_64 == 0 {
      WrapIsUnique(a * b, v);
    }
  }

  lemma WrapIsUnique(x: int, v: I64)
    requires (v - x) % TWO_64 == 0
    ensures Wrap(x) == v
  {
    var k := (v - x) / TWO_64;
    assert v == x + k * TWO_64;
    ModMultiple(x, k, TWO_64);
    WrapIsIdentityInRange(v);
  }

  /** An operand as a double. */
  predicate IsDouble(host: Host, v: Value, x: U64) {
    v == Double(x) || (v.Long? && x == host.floats.ofLong(v.num))
  }

  /** With a double on either side, and always for POW, the operation of the host is applied to both operands as
      doubles, the first on the left. */
  lemma DoubleInstructions(host: Host, f: Frame, heap: Heap, ins: Instruction, op: ArithOp, a: Value, b: Value,
                           x: U64, y: U64)
    requires f.closure.body.Bytecode? && FieldsFit(ins) && ins.A < |f.registers| == 256
    requires GetRegister(f, ins.B) == Some(a) && GetRegister(f, ins.C) == Some(b)
    requires IsDouble(host, a, x) && IsDouble(host, b, y) && (a.Double? || b.Double? || ins.opcode == POW)
    requires (ins.opcode, op) in {(ADD, Add), (SUB, Sub), (MUL, Mul), (DIV, Div), (MOD, Mod), (POW, Pow)}
    ensures HasStored(SimpleStep(host, f, heap, ins), f, heap, ins.A, Double(host.floats.apply(op, x, y)))
  {
  }

  /** Operands that are not numbers are an error, of every arithmetic instruction and of no other kind. */
  lemma NumbersOnly(host: Host, f: Frame, heap: Heap, ins: Instruction, a: Value, b: Value)
    requires f.closure.body.Bytecode? && FieldsFit(ins) && ins.A < |f.registers| == 256
    requires GetRegister(f, ins.B) == Some(a) && GetRegister(f, ins.C) == Some(b) && !a.NotPresent? && !b.NotPresent?
    requires ins.opcode in {ADD, SUB, MUL, DIV, MOD, POW}
    ensures SimpleStep(host, f, heap, ins) == Fail(BadOperands) <==>
            !((a.Long? || a.Double?) && (b.Long? || b.Double?))
  {
    hide TruncDiv, TruncMod, Wrap;
  }

  // ---------------------------------------------------------------- comparison

  /** What is conditional on EQ, LT or LE behind a comparison of register A with register B runs exactly when A is equal
      to, less than, or at most B; for integers these are the relations of integers. Only the flags change. */
  lemma Comparison(host: Host, f: Frame, heap: Heap, ins: Instruction, a: Value, b: Value)
    requires f.closure.body.Bytecode? && FieldsFit(ins) && ins.opcode == CMP
    requires GetRegister(f, ins.A) == Some(a) && GetRegister(f, ins.B) == Some(b) && !a.NotPresent? && !b.NotPresent?
    ensures var st := SimpleStep(host, f, heap, ins);
            && st.Next? && st == Next(f.(flags := st.f.flags, pc := f.pc + 1), heap)
            && (!Skips(COND_EQ, st.f.flags) <==> ValueEquals(a, b))
            && (!Skips(COND_LT, st.f.flags) <==> IsLess(host.floats, a, b))
            && (!Skips(COND_LE, st.f.flags) <==> ValueEquals(a, b) || IsLess(host.floats, a, b))
            && st.f.flags & 0xFC == f.flags & 0xFC
            && (a.Long? && b.Long? ==>
                  && (!Skips(COND_EQ, st.f.flags) <==> a.num == b.num)
                  && (!Skips(COND_LT, st.f.flags) <==> a.num < b.num)
                  && (!Skips(COND_LE, st.f.flags) <==> a.num <= b.num))
  {
    hide Skips, CompareFlags;
    InstructionLaws.CompareThenGuard(host.floats, f.flags, a, b);
  }

  // ---------------------------------------------------------------- jumps

  /** JMP_FORWARD goes on behind the instruction A further down, and JMP_BACKWARD behind the one A further up; a jump to
      an instruction that is not there is an error, and so is nothing else. */
  lemma Jumps(host: Host, s: State, n: nat)
    requires Fetching(s, n) && !Skipped(Fetched(s), Top(s).flags) && FieldsFit(Fetched(s))
    requires Fetched(s).opcode == JMP_FORWARD || Fetched(s).opcode == JMP_BACKWARD
    ensures var ins, f := Fetched(s), Top(s);
            var target: int := if ins.opcode == JMP_FORWARD then f.pc + ins.A else f.pc - ins.A;
            if 0 <= target < |CodeOf(f)| then
              var t := WithTop(s, f.(pc := target + 1)); WF(t) && Loop(host, s, n) == Loop(host, t, n - 1)
            else Loop(host, s, n) == Throw(s, BadJump, n - 1)
  {
    hide Loop, Skipped, Decode;
    var ins, f := Fetched(s), Top(s);
    var target: int := if ins.opcode == JMP_FORWARD then f.pc + ins.A else f.pc - ins.A;
    if 0 <= target < |CodeOf(f)| {
      FetchNext(host, s, n, f.(pc := target + 1), s.heap);
      assert WithTop(s, f.(pc := target + 1)).(heap := s.heap) == WithTop(s, f.(pc := target + 1));
    } else {
      FetchStop(host, s, n);
    }
  }

  // ---------------------------------------------------------------- loads

  /** MOV, GET_CONSTANT, STACK_GETTOP and LOAD_PROTOTYPE: what arrives in register A. */
  lemma Loads(host: Host, f: Frame, heap: Heap, ins: Instruction)
    requires f.closure.body.Bytecode? && FieldsFit(ins) && ins.A < |f.registers| == 256
    requires |f.stack| <= GENERAL_STACK_SIZE
    ensures ins.opcode == MOV && GetRegister(f, ins.B).Some? && !GetRegister(f, ins.B).value.NotPresent? ==>
              HasStored(SimpleStep(host, f, heap, ins), f, heap, ins.A, GetRegister(f, ins.B).value)
    ensures ins.opcode == GET_CONSTANT && ins.B < |f.closure.body.constants|
            && !f.closure.body.constants[ins.B].NotPresent? ==>
              HasStored(SimpleStep(host, f, heap, ins), f, heap, ins.A, f.closure.body.constants[ins.B])
    ensures ins.opcode == GET_CONSTANT && ins.B >= |f.closure.body.constants| ==>
              SimpleStep(host, f, heap, ins) == Fail(IllegalInstruction)
    ensures ins.opcode == STACK_GETTOP ==>
              HasStored(SimpleStep(host, f, heap, ins), f, heap, ins.A, Long(|f.stack| - 1))
    ensures ins.opcode == LOAD_PROTOTYPE && ins.B < |f.closure.body.prototype.prototypes|
            && !f.closure.env.NotPresent? ==>
              HasStored(SimpleStep(host, f, heap, ins), f, heap.(next := heap.next + 1), ins.A,
                        Fun(Closure(heap.next,
                                    Bytecode(f.closure.body.prototype.prototypes[ins.B], f.closure.body.constants),
                                    f.closure.env)))
    ensures ins.opcode == LOAD_PROTOTYPE && ins.B >= |f.closure.body.prototype.prototypes| ==>
              SimpleStep(host, f, heap, ins) == Halt(Undefined)
  {
    WrapIsIdentityInRange(|f.stack| - 1);
  }

  /** The empty stack and the full one are errors, of the pop and of the push. */
  lemma StackLimits(host: Host, f: Frame, heap: Heap, ins: Instruction)
    requires f.closure.body.Bytecode? && FieldsFit(ins) && ins.A < |f.registers| == 256 && |f.stack| <= 256
    ensures ins.opcode == STACK_POP && f.stack == [] ==> SimpleStep(host, f, heap, ins) == Fail(StackUnderflow)
    ensures ins.opcode == STACK_PUSH && |f.stack| == 256 ==> SimpleStep(host, f, heap, ins) == Fail(StackOverflow)
  {
  }

  /** The table instructions index tables only. A load from anything else is an error; a store into anything else does
      nothing. */
  lemma TablesOnly(host: Host, f: Frame, heap: Heap, ins: Instruction, x: Value, key: Value)
    requires f.closure.body.Bytecode? && FieldsFit(ins) && !x.Table? && !x.NotPresent? && !key.NotPresent?
    ensures ins.opcode == TABLE_GET && GetRegister(f, ins.B) == Some(x) && GetRegister(f, ins.C) == Some(key) ==>
              SimpleStep(host, f, heap, ins) == Fail(NotIndexable)
    ensures ins.opcode == TABLE_SET && GetRegister(f, ins.A) == Some(x) && GetRegister(f, ins.B) == Some(key)
            && GetRegister(f, ins.C).Some? && !GetRegister(f, ins.C).value.NotPresent? ==>
              SimpleStep(host, f, heap, ins) == Next(f.(pc := f.pc + 1), heap)
  {
  }

  /** Opcodes without a meaning are errors. */
  lemma IllegalOpcodes(host: Host, f: Frame, heap: Heap, ins: Instruction)
    requires f.closure.body.Bytecode? && FieldsFit(ins)
    ensures ins.opcode == EXTRA || ins.opcode >= LAST ==> SimpleStep(host, f, heap, ins) == Fail(IllegalInstruction)
    ensures ins.opcode == NOP ==> SimpleStep(host, f, heap, ins) == Next(f.(pc := f.pc + 1), heap)
  {
  }

  /** An index without a register fails an assertion, whichever instruction reads it or writes it. */
  lemma BadRegistersAbort(host: Host, f: Frame, heap: Heap, ins: Instruction)
    requires f.closure.body.Bytecode? && FieldsFit(ins) && |f.registers| == 256
    ensures ins.opcode in {MOV, ADD, SUB, MUL, DIV, MOD, POW, TABLE_GET, CMP, TABLE_SET} && 256 <= ins.B < 0xFFFD ==>
              SimpleStep(host, f, heap, ins) == Halt(Aborted)
    ensures ins.opcode in {CMP, TABLE_SET, STACK_PUSH} && 256 <= ins.A < 0xFFFD ==>
              SimpleStep(host, f, heap, ins) == Halt(Aborted)
    ensures ins.opcode in {ADD, SUB, MUL, DIV, MOD, POW, TABLE_GET, TABLE_SET} && 256 <= ins.C < 0xFFFD ==>
              SimpleStep(host, f, heap, ins) == Halt(Aborted)
    ensures ins.opcode == STACK_POP && f.stack != [] && ins.A >= 256 && ins.A != 0xFF00 ==>
              SimpleStep(host, f, heap, ins) == Halt(Aborted)
    ensures ins.opcode in {MOV, GET_CONSTANT, STACK_GETTOP} && ins.A >= 256 && ins.A != 0xFF00
            && (ins.opcode == GET_CONSTANT ==> ins.B < |f.closure.body.constants|) ==>
              SimpleStep(host, f, heap, ins) == Halt(Aborted)
  {
    hide Math, MapGet, MapSet, Wrap, CompareFlags;
  }

  // ---------------------------------------------------------------- what does not change

  /** Every instruction but the call and the return keeps to itself: one register at most, the top of the stack, the
      flags of a comparison, the program counter of a jump, the table of a store and the allocation of a closure. */
  lemma NothingElseChanges(host: Host, f: Frame, heap: Heap, ins: Instruction)
    requires f.closure.body.Bytecode? && FieldsFit(ins) && ins.opcode != CALL && SimpleStep(host, f, heap, ins).Next?
    ensures var st := SimpleStep(host, f, heap, ins);
            && st.f.id == f.id && st.f.closure == f.closure && |st.f.registers| == |f.registers|
            && (forall i :: 0 <= i < |f.registers| && i != ins.A ==> st.f.registers[i] == f.registers[i])
            && (st.f.flags != f.flags ==> ins.opcode == CMP)
            && (st.f.pc != f.pc + 1 ==> ins.opcode == JMP_FORWARD || ins.opcode == JMP_BACKWARD)
            && (st.f.stack != f.stack ==>
                  || (ins.opcode == STACK_PUSH && f.stack < st.f.stack && |st.f.stack| == |f.stack| + 1)
                  || (ins.opcode == STACK_POP && st.f.stack < f.stack && |f.stack| == |st.f.stack| + 1))
            && (st.heap.next != heap.next ==> ins.opcode == LOAD_PROTOTYPE && st.heap.next == heap.next + 1)
            && st.heap.tables.Keys == heap.tables.Keys
            && (forall o :: o in heap.tables && st.heap.tables[o] != heap.tables[o] ==>
                  ins.opcode == TABLE_SET && GetRegister(f, ins.A) == Some(Table(o)))
  {
    hide SimpleStep;
    FrameKeeps(host, f, heap, ins);
    HeapKeeps(host, f, heap, ins);
  }

  lemma FrameKeeps(host: Host, f: Frame, heap: Heap, ins: Instruction)
    requires f.closure.body.Bytecode? && FieldsFit(ins) && ins.opcode != CALL && SimpleStep(host, f, heap, ins).Next?
    ensures var st := SimpleStep(host, f, heap, ins);
            && st.f.id == f.id && st.f.closure == f.closure && |st.f.registers| == |f.registers|
            && (forall i :: 0 <= i < |f.registers| && i != ins.A ==> st.f.registers[i] == f.registers[i])
            && (st.f.flags != f.flags ==> ins.opcode == CMP)
            && (st.f.pc != f.pc + 1 ==> ins.opcode == JMP_FORWARD || ins.opcode == JMP_BACKWARD)
            && (st.f.stack != f.stack ==>
                  || (ins.opcode == STACK_PUSH && f.stack < st.f.stack && |st.f.stack| == |f.stack| + 1)
                  || (ins.opcode == STACK_POP && st.f.stack < f.stack && |f.stack| == |st.f.stack| + 1))
  {
    hide Math, MapSet, MapGet, Wrap, CompareFlags, GetRegister;
  }

  lemma HeapKeeps(host: Host, f: Frame, heap: Heap, ins: Instruction)
    requires f.closure.body.Bytecode? && FieldsFit(ins) && ins.opcode != CALL && SimpleStep(host, f, heap, ins).Next?
    ensures var st := SimpleStep(host, f, heap, ins);
            && (st.heap.next != heap.next ==> ins.opcode == LOAD_PROTOTYPE && st.heap.next == heap.next + 1)
            && st.heap.tables.Keys == heap.tables.Keys
            && (forall o :: o in heap.tables && st.heap.tables[o] != heap.tables[o] ==>
                  ins.opcode == TABLE_SET && GetRegister(f, ins.A) == Some(Table(o)))
  {
    hide Math, MapSet, MapGet, Wrap, CompareFlags, SetRegister, GetRegister;
  }
}
