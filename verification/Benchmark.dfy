/** The benchmark's payload: a counted loop with a conditional backward jump, which computes a factorial and prints
    its counter each time round. */
module Benchmark {
  import opened Arithmetic
  import opened Values
  import opened Instructions
  import opened LuaStack
  import opened Machine
  import opened Factorial
  import InstructionLaws
  import MachineLaws

  /** Where the constants of the payload are in the pool, and those of the factorial function inside it. */
  datatype Pool = Pool(start: nat, max: nat, one: nat, arg: nat, name: nat, zero: nat)

  predicate PoolFits(k: Pool) {
    && k.start < 0x1_0000 && k.max < 0x1_0000 && k.one < 0x1_0000 && k.arg < 0x1_0000 && k.name < 0x1_0000
    && k.zero < 0x1_0000
  }

  /** assembler/start.lua, with the constant-pool indices as parameters. */
  function Payload(k: Pool): (code: seq<Instruction>)
    ensures |code| == PAYLOAD_LEN
    ensures PoolFits(k) ==> forall i :: 0 <= i < PAYLOAD_LEN ==> FieldsFit(code[i])
  {
    [ Instruction(LOAD_PROTOTYPE, 0x00, 1, 0, 0),
      Instruction(GET_CONSTANT, 0x00, 2, k.start, 0),
      Instruction(GET_CONSTANT, 0x00, 3, k.max, 0),
      Instruction(GET_CONSTANT, 0x00, 4, k.one, 0),
      Instruction(GET_CONSTANT, 0x00, 5, k.arg, 0),
      Instruction(STACK_PUSH, 0x00, 5, 0, 0),
      Instruction(CALL, 0x00, 1, 0, 1),
      Instruction(STACK_PUSH, 0x00, 2, 0, 0),
      Instruction(GET_CONSTANT, 0x00, 0, k.name, 0),
      Instruction(TABLE_GET, 0x00, 0, REGISTER_ENV, 0),
      Instruction(CALL, 0x00, 0, 0, 1),
      Instruction(ADD, 0x00, 2, 2, 4),
      Instruction(CMP, 0x00, 2, 3, 0),
      Instruction(JMP_BACKWARD, 0x33, 9, 0, 0),
      Instruction(RETURN, 0x00, 0, 0, 0) ]
  }

  const PAYLOAD_LEN := 15

  function PayloadWords(k: Pool): (w: seq<U64>)
    requires PoolFits(k)
    ensures |w| == PAYLOAD_LEN
  {
    seq(PAYLOAD_LEN, i requires 0 <= i < PAYLOAD_LEN => Encode(Payload(k)[i]))
  }

  lemma PayloadAt(k: Pool, i: nat)
    requires PoolFits(k) && i < PAYLOAD_LEN
    ensures Decode(PayloadWords(k)[i]) == Payload(k)[i]
  {
    DecodeEncode(Payload(k)[i]);
  }

  // ---------------------------------------------------------------- the setting

  /** What the payload finds: its constants, the environment table o with the native function at address addr under
      the print key, and the counter limit and the factorial argument. */
  datatype Setting = Setting(k: Pool, o: Obj, name: Value, addr: nat, max: Arg, arg: Arg)

  ghost predicate IsPayload(c: Closure, e: Setting) {
    && PoolFits(e.k) && !e.name.NotPresent?
    && c.body.Bytecode? && c.body.prototype.instructions == PayloadWords(e.k) && c.env == Table(e.o)
    && |c.body.prototype.prototypes| > 0
    && c.body.prototype.prototypes[0].instructions == Words(e.k.zero, e.k.one)
    && Constants(c.body.constants, e)
  }

  ghost predicate Constants(constants: seq<Value>, e: Setting) {
    && e.k.start < |constants| && constants[e.k.start] == Long(0)
    && e.k.max < |constants| && constants[e.k.max] == Long(e.max)
    && e.k.one < |constants| && constants[e.k.one] == Long(1)
    && e.k.arg < |constants| && constants[e.k.arg] == Long(e.arg)
    && e.k.name < |constants| && constants[e.k.name] == e.name
    && e.k.zero < |constants| && constants[e.k.zero] == Long(0)
  }

  /** The print key leads to a closure of the native function. */
  ghost predicate HasPrint(host: Host, heap: Heap, e: Setting) {
    && e.o in heap.tables && !e.name.NotPresent?
    && MapGet(heap.tables[e.o], host.hash, e.name).Fun?
    && MapGet(heap.tables[e.o], host.hash, e.name).closure.body == Native(e.addr)
  }

  /** What is asked of the native function: the heaps it works on, the steps and the call frames it needs, and what it
      does to the heap. */
  datatype Printer = Printer(cost: nat, room: nat, ok: Heap -> bool, effect: (Heap, I64) -> Heap)

  /** Called with one integer and with that room, the native function returns after that many steps and has that
      effect. What it answers does not matter. In the heaps it works on, the environment leads to it. */
  ghost predicate Prints(host: Host, e: Setting, p: Printer) {
    && (forall heap: Heap :: p.ok(heap) ==> HasPrint(host, heap, e))
    && (forall heap: Heap, m: nat :: p.ok(heap) ==> p.ok(Allocated(heap, m)))
    && (forall heap: Heap, v: I64 :: p.ok(heap) ==> p.ok(p.effect(heap, v)))
    && forall s: State, v: I64, n: nat ::
         AtPrint(s, e, v) && p.ok(s.heap) && |s.frames| + p.room <= s.limit && n >= p.cost ==>
           var r := RunNative(host, host.funcs(e.addr), s, n);
           r.out.Returned? && r.left == n - p.cost && r.s.heap == p.effect(s.heap, v)
  }

  /** The native function has been called with an integer, and has not started. */
  ghost predicate AtPrint(s: State, e: Setting, v: I64) {
    && WF(s) && s.frames != [] && !s.locked
    && Top(s).closure.body == Native(e.addr) && Top(s).stack == [Long(v)]
  }

  // ---------------------------------------------------------------- one instruction at a time

  /** The payload is running, and this is the instruction it is about to execute. */
  ghost predicate InPayload(s: State, e: Setting, pc: nat) {
    && WF(s) && s.frames != [] && IsPayload(Top(s).closure, e) && Top(s).pc == pc < PAYLOAD_LEN
    && |Top(s).registers| == REGISTERS_NUM
  }

  function With(s: State, g: Frame, heap: Heap): State
    requires s.frames != []
  {
    WithTop(s, g).(heap := heap)
  }

  /** An instruction that is executed and is not a call. */
  lemma Turn(host: Host, s: State, n: nat, e: Setting, pc: nat, g: Frame, heap: Heap)
    requires InPayload(s, e, pc) && n > 0 && Payload(e.k)[pc].opcode != CALL
    requires !Skipped(Payload(e.k)[pc], Top(s).flags)
    requires SimpleStep(host, Top(s), s.heap, Payload(e.k)[pc]) == Next(g, heap) && g.pc < PAYLOAD_LEN
    ensures InPayload(With(s, g, heap), e, g.pc) && Loop(host, s, n) == Loop(host, With(s, g, heap), n - 1)
  {
    hide Loop, SimpleStep, Payload, Skipped, PayloadWords, Decode;
    PayloadAt(e.k, pc);
    FetchNext(host, s, n, g, heap);
    assert FrameOk(g);
  }

  /** A call of a closure with the whole stack that asks for no result. */
  lemma CallTurn(host: Host, s: State, n: nat, e: Setting, pc: nat, c: Closure)
    requires InPayload(s, e, pc) && n > 0 && pc + 1 < PAYLOAD_LEN && !s.locked && |s.frames| < s.limit
    requires Payload(e.k)[pc].opcode == CALL && Payload(e.k)[pc].B == 0 && Payload(e.k)[pc].C == 1
    requires Payload(e.k)[pc].cond == 0 && GetRegister(Top(s), Payload(e.k)[pc].A) == Some(Fun(c))
    ensures var t := MachineLaws.CalleeStart(s, s.frames, c, Top(s).stack);
            && WF(t)
            && var r := Exec(host, t, n - 1);
               if !r.out.Returned? then Loop(host, s, n) == r
               else
                 var u := With(s, Top(s).(stack := [], pc := pc + 1), r.s.heap);
                 InPayload(u, e, pc + 1) && Loop(host, s, n) == Loop(host, u, r.left)
  {
    hide Loop, Exec, CallStep, Payload, PayloadWords, Decode, MachineLaws.CutOrFilled, Skipped;
    hide WF, Constants, Kept, MachineLaws.CallEffect, GetRegister, With;
    PayloadAt(e.k, pc);
    Unconditional(Payload(e.k)[pc], Top(s).flags);
    var ins := Payload(e.k)[pc];
    var stack := Top(s).stack;
    assert stack[|stack| - |stack|..] == stack && stack[..0] == [];
    MachineLaws.CallInstructionEffect(host, s, ins, c, n - 1);
    var t := MachineLaws.CalleeStart(s, s.frames, c, stack);
    var r, q := Exec(host, t, n - 1), CallStep(host, s, ins, n - 1);
    FetchCall(host, s, n);
    if r.out.Returned? {
      AfterCall(host, s, e, pc, r, q);
    } else {
      FailedCall(s.frames, r, q);
    }
  }

  lemma FailedCall(base: seq<Frame>, r: Result, q: Result)
    requires base != [] && MachineLaws.CallEffect(base, [], 0, false, r, q) && !r.out.Returned?
    ensures q == r
  {
  }

  /** A call at the limit of the call stack. */
  lemma CallAtLimit(host: Host, s: State, n: nat, e: Setting, pc: nat, c: Closure)
    requires InPayload(s, e, pc) && n > 0 && !s.locked && |s.frames| >= s.limit
    requires Payload(e.k)[pc].opcode == CALL && Payload(e.k)[pc].B == 0 && Payload(e.k)[pc].C == 1
    requires Payload(e.k)[pc].cond == 0 && GetRegister(Top(s), Payload(e.k)[pc].A) == Some(Fun(c))
    ensures Overflows(s, Loop(host, s, n))
  {
    hide Loop, Payload, PayloadWords, Decode, Skipped, GetRegister, RunCallee, Constants;
    PayloadAt(e.k, pc);
    Unconditional(Payload(e.k)[pc], Top(s).flags);
    FetchCall(host, s, n);
  }

  lemma AfterCall(host: Host, s: State, e: Setting, pc: nat, r: Result, q: Result)
    requires InPayload(s, e, pc) && pc + 1 < PAYLOAD_LEN && r.out.Returned?
    requires Kept(s, q) && MachineLaws.CallEffect(s.frames, [], 0, false, r, q)
    ensures q.out.Returned? && q.left == r.left
    ensures var u := With(s, Top(s).(stack := [], pc := pc + 1), r.s.heap);
            InPayload(u, e, pc + 1) && u == WithTop(q.s, Top(q.s).(pc := pc + 1))
  {
    hide PayloadWords, Constants, MachineLaws.Supplied;
    var d := |s.frames| - 1;
    assert [] + MachineLaws.CutOrFilled(MachineLaws.Supplied(Top(r.s).stack, r.out.count), 0) == [];
    assert q.s.frames == s.frames[d := s.frames[d].(stack := [])];
    var u := With(s, Top(s).(stack := [], pc := pc + 1), r.s.heap);
    assert u.frames == WithTop(q.s, Top(q.s).(pc := pc + 1)).frames;
    assert FrameOk(Top(s)) && FrameOk(Top(q.s));
  }

  lemma Unconditional(ins: Instruction, flags: bv8)
    requires FieldsFit(ins) && ins.cond == 0
    ensures !Skipped(ins, flags)
  {
    Guards(flags);
  }

  // ---------------------------------------------------------------- the parts of the payload

  /** The frame at the head of the loop, about to go round with the counter at i. */
  ghost predicate AtHead(s: State, e: Setting, i: I64) {
    && InPayload(s, e, 5) && Top(s).stack == [] && !s.locked
    && var r := Top(s).registers;
       && r[1].Fun? && IsFactorial(r[1].closure, e.k.zero, e.k.one)
       && r[2] == Long(i) && r[3] == Long(e.max) && r[4] == Long(1) && r[5] == Long(e.arg)
  }

  /** The same activation: everything but the running frame and the heap is as it was. */
  ghost predicate SameBelow(s: State, t: State)
    requires s.frames != [] && t.frames != []
  {
    && |t.frames| == |s.frames| && t.(frames := [], heap := s.heap) == s.(frames := [])
  }

  lemma DoConstant(host: Host, s: State, n: nat, e: Setting, pc: nat, reg: nat, index: nat, v: Value)
    requires InPayload(s, e, pc) && n > 0 && pc + 1 < PAYLOAD_LEN && reg < REGISTERS_NUM
    requires Payload(e.k)[pc] == Instruction(GET_CONSTANT, 0, reg, index, 0)
    requires index < |Top(s).closure.body.constants| && Top(s).closure.body.constants[index] == v && !v.NotPresent?
    ensures var t := With(s, Top(s).(registers := Top(s).registers[reg := v], pc := pc + 1), s.heap);
            InPayload(t, e, pc + 1) && Loop(host, s, n) == Loop(host, t, n - 1)
  {
    hide Loop, PayloadWords, Payload, Skipped;
    Unconditional(Payload(e.k)[pc], Top(s).flags);
    Turn(host, s, n, e, pc, Top(s).(registers := Top(s).registers[reg := v], pc := pc + 1), s.heap);
  }

  lemma DoPush(host: Host, s: State, n: nat, e: Setting, pc: nat, reg: nat)
    requires InPayload(s, e, pc) && n > 0 && pc + 1 < PAYLOAD_LEN && reg < REGISTERS_NUM
    requires Payload(e.k)[pc] == Instruction(STACK_PUSH, 0, reg, 0, 0)
    requires Top(s).stack == [] && !Top(s).registers[reg].NotPresent?
    ensures var t := With(s, Top(s).(stack := [Top(s).registers[reg]], pc := pc + 1), s.heap);
            InPayload(t, e, pc + 1) && Loop(host, s, n) == Loop(host, t, n - 1)
  {
    hide Loop, PayloadWords, Payload, Skipped;
    Unconditional(Payload(e.k)[pc], Top(s).flags);
    assert Top(s).stack + [Top(s).registers[reg]] == [Top(s).registers[reg]];
    Turn(host, s, n, e, pc, Top(s).(stack := [Top(s).registers[reg]], pc := pc + 1), s.heap);
  }

  /** Instructions 0 to 4 load the factorial closure and the constants. */
  lemma Setup(host: Host, s: State, n: nat, e: Setting)
    requires InPayload(s, e, 0) && Top(s).stack == [] && !s.locked && n >= 5
    ensures var f := Top(s);
            var c := Closure(s.heap.next, Bytecode(f.closure.body.prototype.prototypes[0], f.closure.body.constants),
                             f.closure.env);
            var r := f.registers[1 := Fun(c)][2 := Long(0)][3 := Long(e.max)][4 := Long(1)][5 := Long(e.arg)];
            var t := With(s, f.(registers := r, pc := 5), Allocated(s.heap, 1));
            AtHead(t, e, 0) && SameBelow(s, t) && Loop(host, s, n) == Loop(host, t, n - 5)
  {
    hide Loop, PayloadWords, Words, IsFactorial, Constants;
    var f := Top(s);
    var c := Closure(s.heap.next, Bytecode(f.closure.body.prototype.prototypes[0], f.closure.body.constants),
                     f.closure.env);
    var s1 := With(s, f.(registers := f.registers[1 := Fun(c)], pc := 1), Allocated(s.heap, 1));
    LoadsFactorial(host, s, n, e, c);
    LoadsConstants(host, s1, n - 1, e);
    var r := f.registers[1 := Fun(c)][2 := Long(0)][3 := Long(e.max)][4 := Long(1)][5 := Long(e.arg)];
    var t := With(s, f.(registers := r, pc := 5), Allocated(s.heap, 1));
    assert With(s1, Top(s1).(registers := r, pc := 5), s1.heap) == t;
  }

  lemma LoadsConstants(host: Host, s: State, n: nat, e: Setting)
    requires InPayload(s, e, 1) && n >= 4
    ensures var r := Top(s).registers[2 := Long(0)][3 := Long(e.max)][4 := Long(1)][5 := Long(e.arg)];
            var t := With(s, Top(s).(registers := r, pc := 5), s.heap);
            InPayload(t, e, 5) && Loop(host, s, n) == Loop(host, t, n - 4)
  {
    hide Loop, InPayload, Payload;
    ConstantsAre(s, e, 1);
    ConstantInstructions(e.k);
    var f := Top(s);
    DoConstant(host, s, n, e, 1, 2, e.k.start, Long(0));
    var f2 := f.(registers := f.registers[2 := Long(0)], pc := 2);
    var s2 := With(s, f2, s.heap);
    DoConstant(host, s2, n - 1, e, 2, 3, e.k.max, Long(e.max));
    var f3 := f2.(registers := f2.registers[3 := Long(e.max)], pc := 3);
    var s3 := With(s2, f3, s.heap);
    DoConstant(host, s3, n - 2, e, 3, 4, e.k.one, Long(1));
    var f4 := f3.(registers := f3.registers[4 := Long(1)], pc := 4);
    var s4 := With(s3, f4, s.heap);
    DoConstant(host, s4, n - 3, e, 4, 5, e.k.arg, Long(e.arg));
    var f5 := f4.(registers := f4.registers[5 := Long(e.arg)], pc := 5);
    assert With(s4, f5, s.heap) == With(s, f5, s.heap);
  }

  lemma ConstantInstructions(k: Pool)
    ensures Payload(k)[1] == Instruction(GET_CONSTANT, 0, 2, k.start, 0)
    ensures Payload(k)[2] == Instruction(GET_CONSTANT, 0, 3, k.max, 0)
    ensures Payload(k)[3] == Instruction(GET_CONSTANT, 0, 4, k.one, 0)
    ensures Payload(k)[4] == Instruction(GET_CONSTANT, 0, 5, k.arg, 0)
  {
  }

  lemma ConstantsAre(s: State, e: Setting, pc: nat)
    requires InPayload(s, e, pc)
    ensures s.frames != [] && |Top(s).registers| == REGISTERS_NUM && Top(s).closure.body.Bytecode?
    ensures Constants(Top(s).closure.body.constants, e)
    ensures Top(s).closure.env == Table(e.o) && !e.name.NotPresent?
  {
    hide Constants, PayloadWords, Words, WF;
  }

  lemma LoadsFactorial(host: Host, s: State, n: nat, e: Setting, c: Closure)
    requires InPayload(s, e, 0) && n > 0
    requires c == Closure(s.heap.next, Bytecode(Top(s).closure.body.prototype.prototypes[0],
                                                Top(s).closure.body.constants), Top(s).closure.env)
    ensures IsFactorial(c, e.k.zero, e.k.one)
    ensures var t := With(s, Top(s).(registers := Top(s).registers[1 := Fun(c)], pc := 1), Allocated(s.heap, 1));
            InPayload(t, e, 1) && Loop(host, s, n) == Loop(host, t, n - 1)
  {
    hide Loop, PayloadWords, Words;
    Unconditional(Payload(e.k)[0], Top(s).flags);
    Turn(host, s, n, e, 0, Top(s).(registers := Top(s).registers[1 := Fun(c)], pc := 1), Allocated(s.heap, 1));
  }

  // ---------------------------------------------------------------- one round of the loop

  /** What a round does to the heap: frames for the factorials and for the native function, and its effect. */
  function RoundHeap(p: Printer, e: Setting, heap: Heap, i: I64): Heap {
    p.effect(Allocated(heap, e.arg + 2), i)
  }

  /** Nine instructions, the factorial function and the native function. */
  function RoundSteps(e: Setting, p: Printer): nat {
    9 + Steps(e.arg) + p.cost
  }

  /** Instructions 5 and 6 compute the factorial and drop it. */
  lemma FactorialTurn(host: Host, s: State, n: nat, e: Setting, i: I64)
    requires AtHead(s, e, i) && |s.frames| + 1 + e.arg <= s.limit && n >= 2 + Steps(e.arg)
    ensures var t := With(s, Top(s).(pc := 7), Allocated(s.heap, e.arg + 1));
            InPayload(t, e, 7) && Loop(host, s, n) == Loop(host, t, n - 2 - Steps(e.arg))
  {
    hide Loop, Exec, PayloadWords, IsFactorial, IsPayload, MachineLaws.CalleeStart, WF, Kept, Steps;
    DoPush(host, s, n, e, 5, 5);
    var c := Top(s).registers[1].closure;
    var s1 := With(s, Top(s).(stack := [Long(e.arg)], pc := 6), s.heap);
    CallTurn(host, s1, n - 1, e, 6, c);
    var t := MachineLaws.CalleeStart(s1, s1.frames, c, [Long(e.arg)]);
    CalleeOf(s1, c, [Long(e.arg)]);
    FactorialReturns(host, t, n - 2, e.k.zero, e.k.one, e.arg);
    assert With(s1, Top(s1).(stack := [], pc := 7), Allocated(s.heap, e.arg + 1))
        == With(s, Top(s).(pc := 7), Allocated(s.heap, e.arg + 1));
  }

  /** Without room for the factorial, instruction 6 or one of the calls behind it overflows the call stack. */
  lemma FactorialFails(host: Host, s: State, n: nat, e: Setting, i: I64)
    requires AtHead(s, e, i) && |s.frames| + 1 + e.arg > s.limit && n >= 2 + Steps(e.arg)
    ensures Overflows(s, Loop(host, s, n))
  {
    hide Loop, Exec, PayloadWords, IsFactorial, IsPayload, MachineLaws.CalleeStart, WF, Kept, Steps;
    DoPush(host, s, n, e, 5, 5);
    var c := Top(s).registers[1].closure;
    var s1 := With(s, Top(s).(stack := [Long(e.arg)], pc := 6), s.heap);
    if |s.frames| < s.limit {
      CallTurn(host, s1, n - 1, e, 6, c);
      CalleeOf(s1, c, [Long(e.arg)]);
      FactorialOverflows(host, MachineLaws.CalleeStart(s1, s1.frames, c, [Long(e.arg)]), n - 2, e.k.zero, e.k.one,
                         e.arg);
    } else {
      CallAtLimit(host, s1, n - 1, e, 6, c);
    }
  }

  lemma CalleeOf(s: State, c: Closure, args: seq<Value>)
    requires s.frames != []
    ensures var t := MachineLaws.CalleeStart(s, s.frames, c, args);
            && t.frames != [] && |t.frames| == |s.frames| + 1 && t.limit == s.limit && t.locked == s.locked
            && t.handler == s.handler
            && Top(t).closure == c && Top(t).stack == args && t.heap == Allocated(s.heap, 1)
  {
  }

  /** Instructions 7 to 10 hand the counter to the native function. */
  lemma PrintTurn(host: Host, s: State, n: nat, e: Setting, i: I64, p: Printer)
    requires InPayload(s, e, 7) && Top(s).stack == [] && Top(s).registers[2] == Long(i)
    requires !s.locked && |s.frames| + 1 + p.room <= s.limit && n >= 4 + p.cost
    requires p.ok(s.heap) && HasPrint(host, s.heap, e) && Prints(host, e, p)
    ensures var c := MapGet(s.heap.tables[e.o], host.hash, e.name);
            var heap := p.effect(Allocated(s.heap, 1), i);
            var t := With(s, Top(s).(registers := Top(s).registers[0 := c], pc := 11), heap);
            && InPayload(t, e, 11) && p.ok(heap)
            && Loop(host, s, n) == Loop(host, t, n - 4 - p.cost)
  {
    hide Loop, InPayload, MapGet, Prints;
    ConstantsAre(s, e, 7);
    PrepareCall(host, s, n, e, i);
    var f, c := Top(s), MapGet(s.heap.tables[e.o], host.hash, e.name);
    var s3 := With(s, f.(registers := f.registers[0 := c], stack := [Long(i)], pc := 10), s.heap);
    CallsPrint(host, s3, n - 3, e, i, c.closure, p);
    var heap := p.effect(Allocated(s.heap, 1), i);
    assert With(s3, Top(s3).(stack := [], pc := 11), heap)
        == With(s, f.(registers := f.registers[0 := c], pc := 11), heap);
  }

  /** Instructions 7 to 9 push the counter and look the native function up. */
  lemma PrepareCall(host: Host, s: State, n: nat, e: Setting, i: I64)
    requires InPayload(s, e, 7) && Top(s).stack == [] && Top(s).registers[2] == Long(i) && n >= 3
    requires HasPrint(host, s.heap, e)
    ensures var p := MapGet(s.heap.tables[e.o], host.hash, e.name);
            var f := Top(s).(registers := Top(s).registers[0 := p], stack := [Long(i)], pc := 10);
            InPayload(With(s, f, s.heap), e, 10) && Loop(host, s, n) == Loop(host, With(s, f, s.heap), n - 3)
  {
    hide Loop, InPayload, MapGet;
    ConstantsAre(s, e, 7);
    DoPush(host, s, n, e, 7, 2);
    var f := Top(s);
    var s1 := With(s, f.(stack := [Long(i)], pc := 8), s.heap);
    DoConstant(host, s1, n - 1, e, 8, 0, e.k.name, e.name);
    var s2 := With(s1, Top(s1).(registers := f.registers[0 := e.name], pc := 9), s.heap);
    LooksUp(host, s2, n - 2, e);
    var p := MapGet(s.heap.tables[e.o], host.hash, e.name);
    assert f.registers[0 := e.name][0 := p] == f.registers[0 := p];
    var g := f.(registers := f.registers[0 := p], stack := [Long(i)], pc := 10);
    assert With(s2, g, s.heap) == With(s, g, s.heap);
  }

  /** Instruction 10 calls it. */
  lemma CallsPrint(host: Host, s: State, n: nat, e: Setting, i: I64, c: Closure, p: Printer)
    requires InPayload(s, e, 10) && Top(s).stack == [Long(i)] && Top(s).registers[0] == Fun(c)
    requires c.body == Native(e.addr) && !s.locked && |s.frames| + 1 + p.room <= s.limit && n >= 1 + p.cost
    requires p.ok(s.heap) && Prints(host, e, p)
    ensures var heap := p.effect(Allocated(s.heap, 1), i);
            var t := With(s, Top(s).(stack := [], pc := 11), heap);
            && InPayload(t, e, 11) && p.ok(heap)
            && Loop(host, s, n) == Loop(host, t, n - 1 - p.cost)
  {
    hide Loop, Exec, IsPayload, MachineLaws.CalleeStart, RunNative, HasPrint, WF;
    CallTurn(host, s, n, e, 10, c);
    var t := MachineLaws.CalleeStart(s, s.frames, c, [Long(i)]);
    CalleeOf(s, c, [Long(i)]);
    assert AtPrint(t, e, i);
    NativeExec(host, t, n - 1, e);
  }

  lemma NativeExec(host: Host, t: State, n: nat, e: Setting)
    requires WF(t) && t.frames != [] && Top(t).closure.body == Native(e.addr)
    ensures Exec(host, t, n) == RunNative(host, host.funcs(e.addr), t, n)
  {
    hide RunNative;
  }

  /** Instruction 9 finds the native function in the environment. */
  lemma LooksUp(host: Host, s: State, n: nat, e: Setting)
    requires InPayload(s, e, 9) && n > 0 && Top(s).registers[0] == e.name && HasPrint(host, s.heap, e)
    ensures var p := MapGet(s.heap.tables[e.o], host.hash, e.name);
            var t := With(s, Top(s).(registers := Top(s).registers[0 := p], pc := 10), s.heap);
            InPayload(t, e, 10) && Loop(host, s, n) == Loop(host, t, n - 1)
  {
    hide Loop, PayloadWords, MapGet, Skipped;
    Unconditional(Payload(e.k)[9], Top(s).flags);
    var p := MapGet(s.heap.tables[e.o], host.hash, e.name);
    Turn(host, s, n, e, 9, Top(s).(registers := Top(s).registers[0 := p], pc := 10), s.heap);
  }

  /** Instructions 11 to 13 count, compare and go round while the counter is at most the limit. */
  lemma CountTurn(host: Host, s: State, n: nat, e: Setting, i: I64)
    requires InPayload(s, e, 11) && n >= 3
    requires Top(s).registers[2] == Long(i) && Top(s).registers[3] == Long(e.max) && Top(s).registers[4] == Long(1)
    ensures var f, j := Top(s), Wrap(i + 1);
            var t := With(s, f.(registers := f.registers[2 := Long(j)],
                                flags := CompareFlags(host.floats, f.flags, Long(j), Long(e.max)),
                                pc := HeadOrEnd(e, j)), s.heap);
            InPayload(t, e, HeadOrEnd(e, j)) && Loop(host, s, n) == Loop(host, t, n - 3)
  {
    hide Loop, PayloadWords, CompareFlags, Wrap;
    var f, j := Top(s), Wrap(i + 1);
    Adds(host, s, n, e, i);
    var f1 := f.(registers := f.registers[2 := Long(j)], pc := 12);
    var s1 := With(s, f1, s.heap);
    Compares(host, s1, n - 1, e, j);
    var f2 := f1.(flags := CompareFlags(host.floats, f.flags, Long(j), Long(e.max)), pc := 13);
    var s2 := With(s1, f2, s.heap);
    assert s2 == With(s, f2, s.heap);
    Jumps(host, s2, n - 2, e, f.flags, j);
    var f3 := f2.(pc := HeadOrEnd(e, j));
    assert With(s2, f3, s.heap) == With(s, f3, s.heap);
  }

  /** Where the payload goes on with its counter at j. */
  function HeadOrEnd(e: Setting, j: I64): nat {
    if j <= e.max then 5 else 14
  }

  lemma Adds(host: Host, s: State, n: nat, e: Setting, i: I64)
    requires InPayload(s, e, 11) && n > 0
    requires Top(s).registers[2] == Long(i) && Top(s).registers[4] == Long(1)
    ensures var t := With(s, Top(s).(registers := Top(s).registers[2 := Long(Wrap(i + 1))], pc := 12), s.heap);
            InPayload(t, e, 12) && Loop(host, s, n) == Loop(host, t, n - 1)
  {
    hide Loop, PayloadWords, Skipped, Wrap;
    Unconditional(Payload(e.k)[11], Top(s).flags);
    Turn(host, s, n, e, 11, Top(s).(registers := Top(s).registers[2 := Long(Wrap(i + 1))], pc := 12), s.heap);
  }

  lemma Compares(host: Host, s: State, n: nat, e: Setting, j: I64)
    requires InPayload(s, e, 12) && n > 0
    requires Top(s).registers[2] == Long(j) && Top(s).registers[3] == Long(e.max)
    ensures var flags := CompareFlags(host.floats, Top(s).flags, Long(j), Long(e.max));
            var t := With(s, Top(s).(flags := flags, pc := 13), s.heap);
            InPayload(t, e, 13) && Loop(host, s, n) == Loop(host, t, n - 1)
  {
    hide Loop, PayloadWords, CompareFlags, Skipped;
    Unconditional(Payload(e.k)[12], Top(s).flags);
    var flags := CompareFlags(host.floats, Top(s).flags, Long(j), Long(e.max));
    Turn(host, s, n, e, 12, Top(s).(flags := flags, pc := 13), s.heap);
  }

  lemma Jumps(host: Host, s: State, n: nat, e: Setting, flags: bv8, j: I64)
    requires InPayload(s, e, 13) && n > 0 && Top(s).flags == CompareFlags(host.floats, flags, Long(j), Long(e.max))
    ensures var t := With(s, Top(s).(pc := HeadOrEnd(e, j)), s.heap);
            InPayload(t, e, HeadOrEnd(e, j)) && Loop(host, s, n) == Loop(host, t, n - 1)
  {
    hide Loop, PayloadWords, CompareFlags;
    JumpGuard(host.floats, flags, j, e.max, Payload(e.k)[13]);
    if j <= e.max {
      Turn(host, s, n, e, 13, Top(s).(pc := 5), s.heap);
    } else {
      SkipsJump(host, s, n, e);
    }
  }

  /** The guard of the jump: less or equal. */
  lemma JumpGuard(fl: FloatOps, flags: bv8, j: I64, max: I64, ins: Instruction)
    requires FieldsFit(ins) && ins.cond == 0x33
    ensures Skipped(ins, CompareFlags(fl, flags, Long(j), Long(max))) <==> j > max
  {
    hide CompareFlags;
    InstructionLaws.CompareThenGuard(fl, flags, Long(j), Long(max));
    assert 0x33 as bv8 == COND_LE;
  }

  lemma SkipsJump(host: Host, s: State, n: nat, e: Setting)
    requires InPayload(s, e, 13) && n > 0 && Skipped(Payload(e.k)[13], Top(s).flags)
    ensures var t := With(s, Top(s).(pc := 14), s.heap);
            InPayload(t, e, 14) && Loop(host, s, n) == Loop(host, t, n - 1)
  {
    hide Loop, Payload, PayloadWords, Skipped, Decode;
    PayloadAt(e.k, 13);
    FetchSkip(host, s, n);
    assert With(s, Top(s).(pc := 14), s.heap) == WithTop(s, Top(s).(pc := 14));
  }

  /** The state after a round: at the head again, or behind the jump. */
  function AfterRound(host: Host, s: State, e: Setting, i: I64, p: Printer): State
    requires s.frames != [] && |Top(s).registers| == REGISTERS_NUM && e.o in s.heap.tables && !e.name.NotPresent?
  {
    var f, c, j := Top(s), MapGet(s.heap.tables[e.o], host.hash, e.name), Wrap(i + 1);
    With(s, f.(registers := f.registers[0 := c][2 := Long(j)],
               flags := CompareFlags(host.floats, f.flags, Long(j), Long(e.max)),
               pc := HeadOrEnd(e, j)), RoundHeap(p, e, s.heap, i))
  }

  /** There is room for the factorial and for the native function. */
  predicate Roomy(s: State, e: Setting, p: Printer) {
    |s.frames| + 1 + e.arg <= s.limit && |s.frames| + 1 + p.room <= s.limit
  }

  lemma Round(host: Host, s: State, n: nat, e: Setting, i: I64, p: Printer)
    requires AtHead(s, e, i) && Roomy(s, e, p) && n >= RoundSteps(e, p)
    requires p.ok(s.heap) && HasPrint(host, s.heap, e) && Prints(host, e, p)
    ensures var t, j := AfterRound(host, s, e, i, p), Wrap(i + 1);
            && p.ok(t.heap) && SameBelow(s, t) && InPayload(t, e, HeadOrEnd(e, j))
            && (j <= e.max ==> AtHead(t, e, j)) && Top(t).stack == []
            && Loop(host, s, n) == Loop(host, t, n - RoundSteps(e, p))
  {
    hide Loop, PayloadWords, IsPayload, IsFactorial, MapGet, CompareFlags, RunNative, WF, FrameOk, Wrap;
    FactorialTurn(host, s, n, e, i);
    AfterRoundIs(host, s, n - 2 - Steps(e.arg), e, i, p);
  }

  /** The round behind its factorial. */
  lemma AfterRoundIs(host: Host, s: State, n: nat, e: Setting, i: I64, p: Printer)
    requires AtHead(s, e, i) && Roomy(s, e, p) && n >= 7 + p.cost
    requires p.ok(s.heap) && HasPrint(host, s.heap, e) && Prints(host, e, p)
    requires var s1 := With(s, Top(s).(pc := 7), Allocated(s.heap, e.arg + 1)); InPayload(s1, e, 7)
    ensures var s1 := With(s, Top(s).(pc := 7), Allocated(s.heap, e.arg + 1));
            var t := AfterRound(host, s, e, i, p);
            && p.ok(t.heap) && InPayload(t, e, HeadOrEnd(e, Wrap(i + 1)))
            && Loop(host, s1, n) == Loop(host, t, n - 7 - p.cost)
  {
    hide Loop, PayloadWords, IsPayload, IsFactorial, MapGet, CompareFlags, RunNative, WF, FrameOk, Wrap, HasPrint;
    HasEnvironment(host, s.heap, e);
    var f, c := Top(s), MapGet(s.heap.tables[e.o], host.hash, e.name);
    var s1 := With(s, f.(pc := 7), Allocated(s.heap, e.arg + 1));
    assert p.ok(s1.heap) && HasPrint(host, s1.heap, e);
    PrintTurn(host, s1, n, e, i, p);
    assert Allocated(s1.heap, 1) == Allocated(s.heap, e.arg + 2);
    var heap := RoundHeap(p, e, s.heap, i);
    var f2 := f.(registers := f.registers[0 := c], pc := 11);
    var s2 := With(s1, f2, heap);
    assert s2 == With(s, f2, heap);
    CountTurn(host, s2, n - 4 - p.cost, e, i);
    var t := AfterRound(host, s, e, i, p);
    assert t == With(s2, Top(t), heap);
  }

  // ---------------------------------------------------------------- the whole loop

  /** The heap after a number of rounds from the counter i on. */
  function Printed(p: Printer, e: Setting, heap: Heap, i: I64, rounds: nat): Heap
    decreases rounds
  {
    if rounds == 0 then heap else Printed(p, e, RoundHeap(p, e, heap, i), Wrap(i + 1), rounds - 1)
  }

  /** The loop goes round for ever only with the largest limit. */
  const LAST_LIMIT: Arg := 0x7FFF_FFFF_FFFF_FFFF

  lemma NextCounter(e: Setting, i: I64, rounds: nat)
    requires e.max == LAST_LIMIT || i + rounds <= e.max
    ensures rounds > 0 ==> Wrap(Wrap(i + 1) + (rounds - 1)) == Wrap(i + rounds)
    ensures rounds > 0 ==> Wrap(i + 1) <= e.max
    ensures rounds > 0 && e.max != LAST_LIMIT ==> Wrap(i + 1) == i + 1
    ensures Wrap(i) == i
  {
    if e.max != LAST_LIMIT && rounds > 0 {
      WrapIsIdentityInRange(i + 1);
    }
    WrapIsIdentityInRange(i);
    WrapSum(i + 1, rounds - 1);
    assert (i + 1) + (rounds - 1) == i + rounds;
  }

  lemma WrapSum(x: int, y: int)
    ensures Wrap(Wrap(x) + y) == Wrap(x + y)
  {
    assert Wrap(x) == x % TWO_64 || Wrap(x) == x % TWO_64 - TWO_64;
    ModShift(x, y, TWO_64);
    ModMultiple(x % TWO_64 + y, -1, TWO_64);
  }

  /** A number of rounds, all of which end at the head again. */
  lemma {:induction false} Heads(host: Host, s: State, n: nat, e: Setting, i: I64, rounds: nat, p: Printer)
    returns (t: State)
    requires AtHead(s, e, i) && Roomy(s, e, p) && n >= rounds * RoundSteps(e, p)
    requires e.max == LAST_LIMIT || i + rounds <= e.max
    requires p.ok(s.heap) && Prints(host, e, p)
    ensures AtHead(t, e, Wrap(i + rounds)) && SameBelow(s, t) && p.ok(t.heap)
    ensures t.heap == Printed(p, e, s.heap, i, rounds)
    ensures Loop(host, s, n) == Loop(host, t, n - rounds * RoundSteps(e, p))
    decreases rounds
  {
    hide Loop, AtHead, InPayload, HasPrint, RoundHeap, RoundSteps, Wrap, RunNative, AtPrint;
    NextCounter(e, i, rounds);
    if rounds == 0 {
      t := s;
    } else {
      OneRound(rounds, RoundSteps(e, p));
      InRange(s, e, i);
      HasEnvironment(host, s.heap, e);
      Round(host, s, n, e, i, p);
      t := AfterRound(host, s, e, i, p);
      t := Heads(host, t, n - RoundSteps(e, p), e, Wrap(i + 1), rounds - 1, p);
    }
  }

  /** The end of the program: a return without values. */
  lemma Ends(host: Host, s: State, n: nat, e: Setting)
    requires InPayload(s, e, 14) && n > 0 && Top(s).stack == []
    ensures Loop(host, s, n) == Result(Returned(0), s, n - 1)
  {
    hide Loop, PayloadWords, Payload, Skipped, Decode;
    PayloadAt(e.k, 14);
    LastInstruction(e.k);
    Unconditional(Payload(e.k)[14], Top(s).flags);
    ReturnsNothing(host, Top(s), s.heap, Payload(e.k)[14]);
    FetchFinish(host, s, n, Top(s), 0);
    assert WithTop(s, Top(s)) == s;
  }

  lemma LastInstruction(k: Pool)
    ensures Payload(k)[14] == Instruction(RETURN, 0x00, 0, 0, 0)
  {
  }

  lemma ReturnsNothing(host: Host, g: Frame, heap: Heap, ins: Instruction)
    requires g.closure.body.Bytecode? && FieldsFit(ins) && ins.opcode == RETURN && ins.B == 0
    ensures SimpleStep(host, g, heap, ins) == Finish(g, 0)
  {
  }

  /** From any counter up to the limit on, the loop goes round once for each number up to the limit and ends. */
  lemma Rounds(host: Host, s: State, n: nat, e: Setting, i: I64, p: Printer)
    requires AtHead(s, e, i) && i <= e.max < LAST_LIMIT && Roomy(s, e, p)
    requires p.ok(s.heap) && Prints(host, e, p)
    requires n >= (e.max + 1 - i) * RoundSteps(e, p) + 1
    ensures var r := Loop(host, s, n);
            && r.out == Returned(0) && r.left == n - (e.max + 1 - i) * RoundSteps(e, p) - 1
            && r.s.frames != [] && Top(r.s).stack == [] && SameBelow(s, r.s)
            && r.s.heap == Printed(p, e, s.heap, i, e.max + 1 - i)
  {
    hide Loop, AtHead, InPayload, HasPrint, RoundHeap, RoundSteps, Wrap, RunNative, AtPrint;
    OneRound(e.max + 1 - i, RoundSteps(e, p));
    var h := Heads(host, s, n, e, i, e.max - i, p);
    WrapIsIdentityInRange(e.max);
    WrapIsIdentityInRange(e.max + 1);
    InRange(h, e, e.max);
    HasEnvironment(host, h.heap, e);
    var m := n - (e.max - i) * RoundSteps(e, p);
    Round(host, h, m, e, e.max, p);
    Ends(host, AfterRound(host, h, e, e.max, p), m - RoundSteps(e, p), e);
    PrintedOneMore(p, e, s.heap, i, e.max - i);
  }

  lemma {:induction false} PrintedOneMore(p: Printer, e: Setting, heap: Heap, i: I64, rounds: nat)
    ensures Printed(p, e, heap, i, rounds + 1)
         == RoundHeap(p, e, Printed(p, e, heap, i, rounds), Wrap(i + rounds))
    decreases rounds
  {
    hide RoundHeap, Wrap;
    if rounds == 0 {
      WrapIsIdentityInRange(i);
      assert Printed(p, e, RoundHeap(p, e, heap, i), Wrap(i + 1), 0) == RoundHeap(p, e, heap, i);
    } else {
      PrintedOneMore(p, e, RoundHeap(p, e, heap, i), Wrap(i + 1), rounds - 1);
      WrapSum(i + 1, rounds - 1);
      assert (i + 1) + (rounds - 1) == i + rounds;
    }
  }

  lemma InRange(s: State, e: Setting, i: I64)
    requires AtHead(s, e, i)
    ensures s.frames != [] && |Top(s).registers| == REGISTERS_NUM
  {
  }

  lemma HasEnvironment(host: Host, heap: Heap, e: Setting)
    requires HasPrint(host, heap, e)
    ensures e.o in heap.tables && !e.name.NotPresent?
  {
  }

  lemma OneRound(rounds: nat, steps: nat)
    requires rounds > 0
    ensures rounds * steps == steps + (rounds - 1) * steps
    ensures rounds * steps >= steps
  {
  }

  /** Run with an empty stack and room for the factorials and the native function, the payload executes five
      instructions, one round for each counter from 0 to the limit, and a return without values. The heap is what the
      rounds make of it. */
  lemma PayloadReturns(host: Host, s: State, n: nat, e: Setting, p: Printer)
    requires WF(s) && s.frames != [] && IsPayload(Top(s).closure, e) && Top(s).stack == [] && !s.locked
    requires e.max < LAST_LIMIT && Roomy(s, e, p) && n >= 5 + (e.max + 1) * RoundSteps(e, p) + 1
    requires p.ok(s.heap) && Prints(host, e, p)
    ensures var r := Exec(host, s, n);
            && r.out == Returned(0) && r.left == n - 5 - (e.max + 1) * RoundSteps(e, p) - 1
            && r.s.frames != [] && Top(r.s).stack == [] && |r.s.frames| == |s.frames|
            && r.s.frames[..|s.frames| - 1] == s.frames[..|s.frames| - 1] && r.s.handler == s.handler
            && r.s.heap == Printed(p, e, Allocated(s.heap, 1), 0, e.max + 1)
  {
    hide Loop, HasPrint, RoundSteps, Printed, PayloadWords, AtHead, RunNative, AtPrint;
    var t := PayloadStarts(host, s, n, e);
    Rounds(host, t, n - 5, e, 0, p);
  }

  /** The calls of the native function, in order: after 11 instructions, the factorial and i whole rounds, it is about
      to start with the counter i alone on its stack. With the largest limit the counter wraps and this goes on for
      ever. */
  lemma PrintsInOrder(host: Host, s: State, e: Setting, i: nat, p: Printer)
    requires WF(s) && s.frames != [] && IsPayload(Top(s).closure, e) && Top(s).stack == [] && !s.locked
    requires (i <= e.max || e.max == LAST_LIMIT) && Roomy(s, e, p) && host.funcs(e.addr).Do?
    requires p.ok(s.heap) && Prints(host, e, p)
    ensures var q := Exec(host, s, 11 + i * RoundSteps(e, p) + Steps(e.arg));
            && q.out == OutOfSteps && AtPrint(q.s, e, Wrap(i)) && |q.s.frames| == |s.frames| + 1
            && q.s.heap == Allocated(Printed(p, e, Allocated(s.heap, 1), 0, i), e.arg + 2)
  {
    hide Loop, Exec, HasPrint, RoundSteps, Printed, PayloadWords, AtHead, RunNative, Steps, Wrap, IsPayload, WF;
    var n := 11 + i * RoundSteps(e, p) + Steps(e.arg);
    var t := PayloadStarts(host, s, n, e);
    var h := Heads(host, t, n - 5, e, 0, i, p);
    PrintStarts(host, h, 6 + Steps(e.arg), e, Wrap(i), p);
  }

  /** From the head of the loop to the start of the native function. */
  lemma PrintStarts(host: Host, s: State, n: nat, e: Setting, i: I64, p: Printer)
    requires AtHead(s, e, i) && Roomy(s, e, p) && host.funcs(e.addr).Do? && n == 6 + Steps(e.arg)
    requires p.ok(s.heap) && Prints(host, e, p)
    ensures var q := Loop(host, s, n);
            && q.out == OutOfSteps && AtPrint(q.s, e, i) && |q.s.frames| == |s.frames| + 1
            && q.s.heap == Allocated(s.heap, e.arg + 2)
  {
    hide Loop, Exec, IsPayload, MachineLaws.CalleeStart, RunNative, WF, Steps, MapGet, IsFactorial, PayloadWords;
    FactorialTurn(host, s, n, e, i);
    var s1 := With(s, Top(s).(pc := 7), Allocated(s.heap, e.arg + 1));
    assert HasPrint(host, s1.heap, e);
    PrepareCall(host, s1, 4, e, i);
    var c := MapGet(s.heap.tables[e.o], host.hash, e.name);
    var s2 := With(s1, Top(s1).(registers := Top(s1).registers[0 := c], stack := [Long(i)], pc := 10), s1.heap);
    CallTurn(host, s2, 1, e, 10, c.closure);
    CalleeOf(s2, c.closure, [Long(i)]);
    var t := MachineLaws.CalleeStart(s2, s2.frames, c.closure, [Long(i)]);
    NativeExec(host, t, 0, e);
    NothingYet(host, host.funcs(e.addr), t);
  }

  lemma NothingYet(host: Host, code: NativeCode, s: State)
    requires WF(s) && s.frames != [] && code.Do?
    ensures RunNative(host, code, s, 0) == Result(OutOfSteps, s, 0)
  {
  }

  /** With the largest limit the loop never ends. */
  lemma PayloadNeverEnds(host: Host, s: State, n: nat, e: Setting, p: Printer)
    requires WF(s) && s.frames != [] && IsPayload(Top(s).closure, e) && Top(s).stack == [] && !s.locked
    requires e.max == LAST_LIMIT && Roomy(s, e, p) && p.ok(s.heap) && Prints(host, e, p)
    ensures Exec(host, s, n).out == OutOfSteps
  {
    hide Loop, Exec, HasPrint, RoundSteps, Printed, PayloadWords, AtHead, RunNative, AtPrint, Wrap, IsPayload;
    if Exec(host, s, n).out != OutOfSteps {
      var steps := n * RoundSteps(e, p);
      AtLeastAsMany(n, RoundSteps(e, p));
      assert RoundSteps(e, p) >= 1 by { StepsOfARound(e, p); }
      MachineLaws.MoreExec(host, s, n, 5 + steps - n);
      var t := PayloadStarts(host, s, 5 + steps, e);
      var h := Heads(host, t, steps, e, 0, n, p);
      NotYetAtTheEnd(host, h, e, Wrap(n));
    }
  }

  lemma StepsOfARound(e: Setting, p: Printer)
    ensures RoundSteps(e, p) >= 1
  {
  }

  lemma AtLeastAsMany(n: nat, k: nat)
    ensures k >= 1 ==> n * k >= n
  {
  }

  lemma NotYetAtTheEnd(host: Host, s: State, e: Setting, i: I64)
    requires AtHead(s, e, i)
    ensures Loop(host, s, 0).out == OutOfSteps
  {
    hide SimpleStep, PayloadWords;
    assert |PayloadWords(e.k)| == PAYLOAD_LEN;
  }

  lemma PayloadStarts(host: Host, s: State, n: nat, e: Setting) returns (t: State)
    requires WF(s) && s.frames != [] && IsPayload(Top(s).closure, e) && Top(s).stack == [] && !s.locked && n >= 5
    ensures AtHead(t, e, 0) && |t.frames| == |s.frames| && t.limit == s.limit && t.handler == s.handler
    ensures t.heap == Allocated(s.heap, 1)
    ensures Exec(host, s, n) == Loop(host, t, n - 5)
  {
    hide Loop, PayloadWords, Constants, AtHead;
    assert FrameOk(Top(s));
    var s0 := WithTop(s, Top(s).(pc := 0));
    Setup(host, s0, n, e);
    var f := Top(s0);
    var c := Closure(s.heap.next, Bytecode(f.closure.body.prototype.prototypes[0], f.closure.body.constants),
                     f.closure.env);
    var r := f.registers[1 := Fun(c)][2 := Long(0)][3 := Long(e.max)][4 := Long(1)][5 := Long(e.arg)];
    t := With(s0, f.(registers := r, pc := 5), Allocated(s.heap, 1));
  }

  /** Without that room the call stack overflows in the first round. */
  lemma PayloadOverflows(host: Host, s: State, n: nat, e: Setting)
    requires WF(s) && s.frames != [] && IsPayload(Top(s).closure, e) && Top(s).stack == [] && !s.locked
    requires |s.frames| + 1 + e.arg > s.limit && n >= 7 + Steps(e.arg)
    ensures Overflows(s, Exec(host, s, n))
  {
    hide Loop, Exec, PayloadWords, AtHead, Steps;
    var t := PayloadStarts(host, s, n, e);
    FactorialFails(host, t, n - 5, e, 0);
  }

  /** Given the steps it needs, the payload returns exactly when the factorial has room and the limit is not the
      largest integer. The native function may need no more room than the factorial, or have it. */
  lemma PayloadCorrect(host: Host, s: State, n: nat, e: Setting, p: Printer)
    requires WF(s) && s.frames != [] && IsPayload(Top(s).closure, e) && Top(s).stack == [] && !s.locked
    requires p.room <= e.arg || |s.frames| + 1 + p.room <= s.limit
    requires p.ok(s.heap) && Prints(host, e, p)
    requires n >= 6 + (e.max + 1) * RoundSteps(e, p)
    ensures var r := Exec(host, s, n);
            && (r.out.Returned? <==> |s.frames| + 1 + e.arg <= s.limit && e.max < LAST_LIMIT)
            && (r.out.Returned? ==> r.out.count == 0 && r.s.heap == Printed(p, e, Allocated(s.heap, 1), 0, e.max + 1))
  {
    hide Loop, Exec, HasPrint, Printed, PayloadWords, Steps, IsPayload, RunNative, AtPrint;
    OneRound(e.max + 1, RoundSteps(e, p));
    if |s.frames| + 1 + e.arg > s.limit {
      PayloadOverflows(host, s, n, e);
    } else if e.max < LAST_LIMIT {
      PayloadReturns(host, s, n, e, p);
    } else {
      PayloadNeverEnds(host, s, n, e, p);
    }
  }

  // ---------------------------------------------------------------- the hypothesis can be met

  /** A native function that looks at its argument and returns meets the hypothesis with one step and no effect. */
  lemma ReaderPrints(host: Host, e: Setting)
    requires host.funcs(e.addr).Do? && host.funcs(e.addr).op == Api(ValueAt(-1))
    requires forall reply :: host.funcs(e.addr).next(reply) == Done(0)
    ensures Prints(host, e, Printer(1, 0, heap => HasPrint(host, heap, e), (heap: Heap, v: I64) => heap))
  {
    hide Kept, SimpleStep, FrameOk;
    forall s: State, v: I64, n: nat | AtPrint(s, e, v) && n >= 1
      ensures var r := RunNative(host, host.funcs(e.addr), s, n);
              r.out.Returned? && r.left == n - 1 && r.s.heap == s.heap
    {
      var x := Long(v);
      assert ApiStep([x], ValueAt(-1)) == Replied([x], Val(x));
      assert RunNative(host, Done(0), WithStack(s, [x]), n - 1) == Result(Returned(0), WithStack(s, [x]), n - 1);
    }
  }
}
