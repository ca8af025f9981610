/** What instructions do to each other's effects: a store is seen by the load behind it, a comparison by the
    conditional instruction behind it, a push by the pop, and a return by the caller. */
module InstructionLaws {
  import opened Values
  import opened Instructions
  import opened LuaStack
  import opened Machine
  import ChainedTable
  import MachineLaws
  import TableLaws

  /** After a comparison, what is conditional on EQ runs exactly when the operands are equal, on LT when the first
      is less, on LE when either holds, and on GE, against its name, when they are equal. The other flags stay. */
  lemma CompareThenGuard(fl: FloatOps, flags: bv8, a: Value, b: Value)
    ensures var after := CompareFlags(fl, flags, a, b);
            && (!Skips(COND_EQ, after) <==> ValueEquals(a, b))
            && (!Skips(COND_LT, after) <==> IsLess(fl, a, b))
            && (!Skips(COND_LE, after) <==> ValueEquals(a, b) || IsLess(fl, a, b))
            && (!Skips(COND_GE, after) <==> ValueEquals(a, b))
            && after & 0xFC == flags & 0xFC
  {
    hide ValueEquals, IsLess, Skips;
    FlagsSet(flags, ValueEquals(a, b), IsLess(fl, a, b));
    ConditionCodes(CompareFlags(fl, flags, a, b));
  }

  lemma FlagsSet(flags: bv8, equal: bool, less: bool)
    ensures var after := SetFlag(SetFlag(flags, FLAG_EQUAL, equal), FLAG_LESS, less);
            && (after & FLAG_EQUAL != 0 <==> equal) && (after & FLAG_LESS != 0 <==> less)
            && (after & (FLAG_EQUAL | FLAG_LESS) != 0 <==> equal || less)
            && after & 0xFC == flags & 0xFC
  {
  }

  /** What a table load finds; nil when nothing is stored. */
  function Loaded(host: Host, heap: Heap, table: Obj, key: Value): Value
    requires table in heap.tables && !key.NotPresent?
  {
    var v := MapGet(heap.tables[table], host.hash, key);
    if v.NotPresent? then Nil else v
  }

  /** A load after a store yields the stored value when table and key are the same, and otherwise what it would
      have yielded before the store. */
  lemma StoreThenLoad(host: Host, f: Frame, heap: Heap, store: Instruction, load: Instruction,
                      o: Obj, key: Value, v: Value, p: Obj, other: Value)
    requires f.closure.body.Bytecode? && FieldsFit(store) && FieldsFit(load)
    requires store.opcode == TABLE_SET && load.opcode == TABLE_GET
    requires TwoRegisters(f, store.A, store.B) == Some((Table(o), key)) && o in heap.tables
    requires GetRegister(f, store.C) == Some(v) && !v.NotPresent?
    requires TwoRegisters(f, load.B, load.C) == Some((Table(p), other)) && p in heap.tables
    ensures !key.NotPresent? && !other.NotPresent?
    ensures var st := SimpleStep(host, f, heap, store);
            && st.Next? && st.f == f.(pc := f.pc + 1)
            && SimpleStep(host, st.f, st.heap, load) ==
               Store(st.f, st.heap, load.A,
                     if p == o && ChainedTable.Matches(host.hash, key, other) then v
                     else Loaded(host, heap, p, other))
  {
    hide Math, HashOf;
    hide MapGet, MapSet, ChainedTable.Matches;
    TableLaws.GetAfterSet(heap.tables[o], host.hash, ChainedTable.Entry(key, v), other);
    var st := SimpleStep(host, f, heap, store);
    assert st == Advance(f, heap.(tables := heap.tables[o := MapSet(heap.tables[o], host.hash, key, v)]));
    assert TwoRegisters(st.f, load.B, load.C) == TwoRegisters(f, load.B, load.C);
  }

  /** A push and the pop behind it move a register and leave the stack as it was. */
  lemma PushThenPop(host: Host, f: Frame, heap: Heap, push: Instruction, pop: Instruction, v: Value)
    requires f.closure.body.Bytecode? && FieldsFit(push) && FieldsFit(pop)
    requires push.opcode == STACK_PUSH && pop.opcode == STACK_POP
    requires GetRegister(f, push.A) == Some(v) && !v.NotPresent?
    requires |f.stack| < GENERAL_STACK_SIZE && pop.A < |f.registers| && pop.A < REGISTERS_NUM
    ensures var st := SimpleStep(host, f, heap, push);
            && st.Next?
            && SimpleStep(host, st.f, st.heap, pop)
               == Next(f.(registers := f.registers[pop.A := v], pc := f.pc + 2), heap)
  {
    var st := SimpleStep(host, f, heap, push);
    assert st.f.stack[..|st.f.stack| - 1] == f.stack;
  }

  /** The values of n registers from i on. */
  function RegisterValues(f: Frame, i: nat, n: nat): Option<seq<Value>>
    decreases n
  {
    if n == 0 then Some([])
    else match (GetRegister(f, i), RegisterValues(f, i + 1, n - 1))
      case (Some(v), Some(vs)) => if v.NotPresent? then None else Some([v] + vs)
      case _ => None
  }

  /** The registers are pushed in order until the stack is full; what does not fit is dropped. */
  lemma {:induction false} PushesRegisters(f: Frame, stack: seq<Value>, i: nat, n: nat)
    requires RegisterValues(f, i, n).Some? && |stack| <= GENERAL_STACK_SIZE
    ensures |RegisterValues(f, i, n).value| == n
    ensures PushRegisters(f, stack, i, n) == Some(Filled(stack, RegisterValues(f, i, n).value))
    decreases n
  {
    hide GetRegister;
    if n == 0 {
      assert stack + [] == stack;
    } else {
      var v, vs := GetRegister(f, i).value, RegisterValues(f, i + 1, n - 1).value;
      if |stack| < GENERAL_STACK_SIZE {
        PushesRegisters(f, stack + [v], i + 1, n - 1);
        assert (stack + [v]) + vs == stack + ([v] + vs);
        FilledByParts(stack, v, vs);
      } else {
        PushesRegisters(f, stack, i + 1, n - 1);
      }
    }
  }

  lemma FilledByParts(stack: seq<Value>, v: Value, vs: seq<Value>)
    requires |stack| < GENERAL_STACK_SIZE
    ensures Filled(stack + [v], vs) == Filled(stack, [v] + vs)
  {
    var room := GENERAL_STACK_SIZE - |stack|;
    if |stack| + 1 + |vs| <= GENERAL_STACK_SIZE {
      assert (stack + [v]) + vs == stack + ([v] + vs);
    } else {
      assert ([v] + vs)[..room] == [v] + vs[..room - 1];
      assert (stack + [v]) + vs[..room - 1] == stack + ([v] + vs[..room - 1]);
    }
  }

  /** A return pushes its registers in order and counts all of them. With room, the caller gets exactly them, cut or
      filled with nil to the number it wants. Without room, the pushes that do not fit are dropped in silence, and the
      caller gets as many slots from the top of the full stack instead. */
  lemma ReturnDeliversRegisters(host: Host, f: Frame, heap: Heap, ins: Instruction, wanted: nat)
    requires f.closure.body.Bytecode? && FieldsFit(ins) && ins.opcode == RETURN
    requires RegisterValues(f, ins.A, ins.B).Some? && |f.stack| <= GENERAL_STACK_SIZE
    ensures var st := SimpleStep(host, f, heap, ins);
            var values := RegisterValues(f, ins.A, ins.B).value;
            var whole := f.stack + values;
            && |values| == ins.B
            && st == Finish(f.(stack := Filled(f.stack, values)), ins.B)
            && Adjusted(st.f.stack, st.count, wanted) == MachineLaws.CutOrFilled(
                 if |whole| <= GENERAL_STACK_SIZE then values
                 else MachineLaws.Supplied(whole[..GENERAL_STACK_SIZE], ins.B), wanted)
  {
    hide PushRegisters, RegisterValues, MachineLaws.CutOrFilled;
    PushesRegisters(f, f.stack, ins.A, ins.B);
    var values := RegisterValues(f, ins.A, ins.B).value;
    MachineLaws.FilledMeaning(f.stack, values);
    MachineLaws.AdjustedMeaning(Filled(f.stack, values), ins.B, wanted);
    SuppliedOnTop(f.stack, values);
  }

  lemma SuppliedOnTop(stack: seq<Value>, values: seq<Value>)
    ensures MachineLaws.Supplied(stack + values, |values|) == values
  {
  }
}
