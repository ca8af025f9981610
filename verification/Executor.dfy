/** One instruction executed in place on an activation record. */
module Executor {
  import opened Values
  import opened Instructions
  import opened LuaStack
  import opened Machine
  import opened CallStates

  /** The signal, the frame and the heap afterwards are what the specified step says. */
  ghost predicate Executed(step: Step, sig: Signal, now: Frame, heap': Heap, was: Frame, heap: Heap) {
    match step
    case Next(f, h) => sig == Continue && now == f && heap' == h
    case Finish(f, count) => sig == Finished(count) && now == f && heap' == heap
    case Fail(why) => sig == Failed(why) && now == was && heap' == heap
    case Halt(reason) => sig == Died(reason) && heap.next <= heap'.next
  }

  method Store(cs: CallState, index: nat, v: Value) returns (sig: Signal)
    requires cs.Valid() && cs.closure.body.Bytecode? && cs.pc < |CodeOf(cs.Abs())|
    modifies cs`pc, cs.registers, cs.registersObjectArray
    ensures cs.Valid()
    ensures forall h :: Executed(Machine.Store(old(cs.Abs()), h, index, v), sig, cs.Abs(), h, old(cs.Abs()), h)
  {
    var ok := cs.SetRegister(index, v);
    if !ok {
      return Died(Aborted);
    }
    cs.pc := cs.pc + 1;
    return Continue;
  }

  method ReadTwo(cs: CallState, i: nat, j: nat) returns (r: Option<(Value, Value)>)
    requires cs.Valid()
    ensures r == TwoRegisters(cs.Abs(), i, j)
  {
    var a := cs.GetRegister(i);
    var b := cs.GetRegister(j);
    if a.None? || b.None? || a.value.NotPresent? || b.value.NotPresent? {
      return None;
    }
    return Some((a.value, b.value));
  }

  method Arith(host: Host, op: ArithOp, cs: CallState, ghost heap: Heap, ins: Instruction) returns (sig: Signal)
    requires cs.Valid() && cs.closure.body.Bytecode? && cs.pc < |CodeOf(cs.Abs())| && FieldsFit(ins)
    modifies cs`pc, cs.registers, cs.registersObjectArray
    ensures cs.Valid()
    ensures Executed(ArithStep(host, op, old(cs.Abs()), heap, ins), sig, cs.Abs(), heap, old(cs.Abs()), heap)
  {
    var operands := ReadTwo(cs, ins.B, ins.C);
    if operands.None? {
      return Died(Aborted);
    }
    match Math(host.floats, op, operands.value.0, operands.value.1)
    case NonNumeric => sig := Failed(BadOperands);
    case HostTrap => sig := Died(Trapped);
    case Computed(v) => sig := Store(cs, ins.A, v);
  }

  method Compare(host: Host, cs: CallState, ghost heap: Heap, ins: Instruction) returns (sig: Signal)
    requires cs.Valid() && cs.closure.body.Bytecode? && cs.pc < |CodeOf(cs.Abs())| && FieldsFit(ins)
    modifies cs`pc, cs`flagRegister
    ensures cs.Valid()
    ensures Executed(CompareStep(host, old(cs.Abs()), heap, ins), sig, cs.Abs(), heap, old(cs.Abs()), heap)
  {
    var operands := ReadTwo(cs, ins.A, ins.B);
    if operands.None? {
      return Died(Aborted);
    }
    var flags := ComparedFlags(host.floats, cs.flagRegister, operands.value.0, operands.value.1);
    cs.flagRegister := flags;
    cs.pc := cs.pc + 1;
    return Continue;
  }

  method ComparedFlags(fl: FloatOps, flagRegister: bv8, a: Value, b: Value) returns (flags: bv8)
    ensures flags == CompareFlags(fl, flagRegister, a, b)
  {
    hide ValueEquals, IsLess, SetFlag;
    flags := SetFlag(flagRegister, FLAG_EQUAL, ValueEquals(a, b));
    flags := SetFlag(flags, FLAG_LESS, IsLess(fl, a, b));
  }

  method PushRegister(cs: CallState, ghost heap: Heap, ins: Instruction) returns (sig: Signal)
    requires cs.Valid() && cs.closure.body.Bytecode? && cs.pc < |CodeOf(cs.Abs())| && FieldsFit(ins)
    modifies cs`pc, cs`sp, cs.generalStack, cs.generalObjectStack
    ensures cs.Valid()
    ensures Executed(PushStep(old(cs.Abs()), heap, ins), sig, cs.Abs(), heap, old(cs.Abs()), heap)
  {
    var v := cs.GetRegister(ins.A);
    if v.None? {
      return Died(Aborted);
    }
    if cs.sp < GENERAL_STACK_SIZE && v.value.NotPresent? {
      return Died(Aborted);
    }
    var ok := cs.Push(v.value);
    if !ok {
      return Failed(StackOverflow);
    }
    cs.pc := cs.pc + 1;
    return Continue;
  }

  method PopRegister(cs: CallState, ghost heap: Heap, ins: Instruction) returns (sig: Signal)
    requires cs.Valid() && cs.closure.body.Bytecode? && cs.pc < |CodeOf(cs.Abs())| && FieldsFit(ins)
    modifies cs`pc, cs`sp, cs.generalStack, cs.generalObjectStack, cs.registers, cs.registersObjectArray
    ensures cs.Valid()
    ensures Executed(PopStep(old(cs.Abs()), heap, ins), sig, cs.Abs(), heap, old(cs.Abs()), heap)
  {
    var v := cs.Pop();
    if v.None? {
      return Failed(StackUnderflow);
    }
    sig := Store(cs, ins.A, v.value);
  }

  method TableGet(host: Host, cs: CallState, heap: Heap, ins: Instruction) returns (sig: Signal)
    requires cs.Valid() && cs.closure.body.Bytecode? && cs.pc < |CodeOf(cs.Abs())| && FieldsFit(ins)
    modifies cs`pc, cs.registers, cs.registersObjectArray
    ensures cs.Valid()
    ensures Executed(TableGetStep(host, old(cs.Abs()), heap, ins), sig, cs.Abs(), heap, old(cs.Abs()), heap)
  {
    var operands := ReadTwo(cs, ins.B, ins.C);
    if operands.None? {
      return Died(Aborted);
    }
    var (table, key) := operands.value;
    if !table.Table? {
      return Failed(NotIndexable);
    }
    if table.table !in heap.tables {
      return Died(Undefined);
    }
    var v := MapGet(heap.tables[table.table], host.hash, key);
    sig := Store(cs, ins.A, if v.NotPresent? then Nil else v);
  }

  method TableSet(host: Host, cs: CallState, heap: Heap, ins: Instruction) returns (sig: Signal, heap': Heap)
    requires cs.Valid() && cs.closure.body.Bytecode? && cs.pc < |CodeOf(cs.Abs())| && FieldsFit(ins)
    modifies cs`pc
    ensures cs.Valid()
    ensures Executed(TableSetStep(host, old(cs.Abs()), heap, ins), sig, cs.Abs(), heap', old(cs.Abs()), heap)
  {
    heap' := heap;
    var operands := ReadTwo(cs, ins.A, ins.B);
    var v := cs.GetRegister(ins.C);
    if operands.None? || v.None? || v.value.NotPresent? {
      return Died(Aborted), heap';
    }
    var (table, key) := operands.value;
    if table.Table? {
      if table.table !in heap.tables {
        return Died(Undefined), heap';
      }
      var m := MapSet(heap.tables[table.table], host.hash, key, v.value);
      heap' := heap.(tables := heap.tables[table.table := m]);
    }
    cs.pc := cs.pc + 1;
    return Continue, heap';
  }

  method LoadPrototype(cs: CallState, heap: Heap, ins: Instruction) returns (sig: Signal, heap': Heap)
    requires cs.Valid() && cs.closure.body.Bytecode? && cs.pc < |CodeOf(cs.Abs())| && FieldsFit(ins)
    modifies cs`pc, cs.registers, cs.registersObjectArray
    ensures cs.Valid()
    ensures Executed(LoadPrototypeStep(old(cs.Abs()), heap, ins), sig, cs.Abs(), heap', old(cs.Abs()), heap)
  {
    heap' := heap;
    var body := cs.closure.body;
    if ins.B >= |body.prototype.prototypes| {
      return Died(Undefined), heap';
    }
    if cs.closure.env.NotPresent? {
      return Died(Aborted), heap';
    }
    heap' := heap.(next := heap.next + 1);
    var c := Closure(heap.next, Bytecode(body.prototype.prototypes[ins.B], body.constants), cs.closure.env);
    sig := Store(cs, ins.A, Fun(c));
  }

  /** Pushes the registers of the return instruction; a full stack makes the pushes fail without notice. */
  method Return(cs: CallState, ghost heap: Heap, ins: Instruction) returns (sig: Signal)
    requires cs.Valid() && cs.closure.body.Bytecode? && FieldsFit(ins)
    modifies cs`sp, cs.generalStack, cs.generalObjectStack
    ensures cs.Valid()
    ensures Executed(ReturnStep(old(cs.Abs()), ins), sig, cs.Abs(), heap, old(cs.Abs()), heap)
  {
    ghost var f := cs.Abs();
    var i := ins.A;
    while i < ins.A + ins.B
      invariant cs.Valid() && ins.A <= i <= ins.A + ins.B
      invariant cs.Abs() == f.(stack := cs.Slots())
      invariant PushRegisters(f, f.stack, ins.A, ins.B) == PushRegisters(f, cs.Slots(), i, ins.A + ins.B - i)
    {
      var v := cs.GetRegister(i);
      if v.None? || (cs.sp < GENERAL_STACK_SIZE && v.value.NotPresent?) {
        return Died(Aborted);
      }
      var ok := cs.Push(v.value);
      i := i + 1;
    }
    return Finished(ins.B);
  }

  method Jump(cs: CallState, ghost heap: Heap, target: int) returns (sig: Signal)
    requires cs.Valid() && cs.closure.body.Bytecode?
    modifies cs`pc
    ensures cs.Valid()
    ensures Executed(JumpStep(old(cs.Abs()), heap, target, |CodeOf(old(cs.Abs()))|), sig, cs.Abs(), heap,
                     old(cs.Abs()), heap)
  {
    if target < 0 || target >= |cs.closure.body.prototype.instructions| {
      return Failed(BadJump);
    }
    cs.pc := target;
    cs.pc := cs.pc + 1;
    return Continue;
  }

  method Move(cs: CallState, ghost heap: Heap, ins: Instruction) returns (sig: Signal)
    requires cs.Valid() && cs.closure.body.Bytecode? && cs.pc < |CodeOf(cs.Abs())| && FieldsFit(ins)
    modifies cs`pc, cs.registers, cs.registersObjectArray
    ensures cs.Valid()
    ensures Executed(MoveStep(old(cs.Abs()), heap, ins), sig, cs.Abs(), heap, old(cs.Abs()), heap)
  {
    var v := cs.GetRegister(ins.B);
    if v.None? {
      return Died(Aborted);
    }
    sig := Store(cs, ins.A, v.value);
  }

  method Constant(cs: CallState, ghost heap: Heap, ins: Instruction) returns (sig: Signal)
    requires cs.Valid() && cs.closure.body.Bytecode? && cs.pc < |CodeOf(cs.Abs())| && FieldsFit(ins)
    modifies cs`pc, cs.registers, cs.registersObjectArray
    ensures cs.Valid()
    ensures Executed(ConstantStep(old(cs.Abs()), heap, ins), sig, cs.Abs(), heap, old(cs.Abs()), heap)
  {
    if ins.B >= |cs.closure.body.constants| {
      return Failed(IllegalInstruction);
    }
    sig := Store(cs, ins.A, cs.closure.body.constants[ins.B]);
  }

  /** The switch over every opcode but the call. */
  method Execute(host: Host, cs: CallState, heap: Heap, ins: Instruction) returns (sig: Signal, heap': Heap)
    requires cs.Valid() && cs.closure.body.Bytecode? && cs.pc < |CodeOf(cs.Abs())|
    requires FieldsFit(ins) && ins.opcode != CALL
    modifies cs`pc, cs`sp, cs`flagRegister
    modifies cs.generalStack, cs.generalObjectStack, cs.registers, cs.registersObjectArray
    ensures cs.Valid()
    ensures Executed(SimpleStep(host, old(cs.Abs()), heap, ins), sig, cs.Abs(), heap', old(cs.Abs()), heap)
  {
    hide ArithStep, MoveStep, JumpStep, CompareStep, LoadPrototypeStep, ConstantStep, PopStep, PushStep, TableGetStep,
         TableSetStep, ReturnStep;
    heap' := heap;
    var op := ArithOf(ins.opcode);
    if op.Some? {
      sig := Arith(host, op.value, cs, heap, ins);
    } else if ins.opcode == MOV {
      sig := Move(cs, heap, ins);
    } else if ins.opcode == JMP_FORWARD {
      sig := Jump(cs, heap, cs.pc + ins.A);
    } else if ins.opcode == JMP_BACKWARD {
      sig := Jump(cs, heap, cs.pc - ins.A);
    } else if ins.opcode == CMP {
      sig := Compare(host, cs, heap, ins);
    } else if ins.opcode == LOAD_PROTOTYPE {
      sig, heap' := LoadPrototype(cs, heap, ins);
    } else if ins.opcode == GET_CONSTANT {
      sig := Constant(cs, heap, ins);
    } else if ins.opcode == STACK_GETTOP {
      sig := Store(cs, ins.A, Long(Wrap(cs.sp - 1)));
    } else if ins.opcode == STACK_POP {
      sig := PopRegister(cs, heap, ins);
    } else if ins.opcode == STACK_PUSH {
      sig := PushRegister(cs, heap, ins);
    } else if ins.opcode == TABLE_GET {
      sig := TableGet(host, cs, heap, ins);
    } else if ins.opcode == TABLE_SET {
      sig, heap' := TableSet(host, cs, heap, ins);
    } else if ins.opcode == RETURN {
      sig := Return(cs, heap, ins);
    } else if ins.opcode == NOP {
      cs.pc := cs.pc + 1;
      sig := Continue;
    } else {
      sig := Failed(IllegalInstruction);
    }
  }
}
