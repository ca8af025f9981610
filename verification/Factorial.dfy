/** The recursive factorial function of the benchmark program, run on the bytecode machine. */
module Factorial {
  import opened Arithmetic
  import opened Values
  import opened Instructions
  import opened LuaStack
  import opened Machine

  /** assembler/start.lua, with the constant-pool indices of 0 and 1 as parameters. */
  function Code(zero: nat, one: nat): seq<Instruction> {
    [ Instruction(STACK_POP, 0x00, 2, 0, 0),
      Instruction(GET_CONSTANT, 0x00, 1, zero, 0),
      Instruction(GET_CONSTANT, 0x00, 4, one, 0),
      Instruction(CMP, 0x00, 2, 1, 0),
      Instruction(MOV, 0x11, 0, 4, 0),
      Instruction(RETURN, 0x11, 0, 1, 0),
      Instruction(SUB, 0x00, 3, 2, 4),
      Instruction(STACK_PUSH, 0x00, 3, 0, 0),
      Instruction(CALL, 0x00, REGISTER_CURRENT, 1, 1),
      Instruction(STACK_POP, 0x00, 3, 0, 0),
      Instruction(MUL, 0x00, 0, 2, 3),
      Instruction(RETURN, 0x00, 0, 1, 0) ]
  }

  const CODE_LEN := 12

  function Words(zero: nat, one: nat): (w: seq<U64>)
    requires zero < 0x1_0000 && one < 0x1_0000
    ensures |w| == CODE_LEN
  {
    seq(CODE_LEN, i requires 0 <= i < CODE_LEN => Encode(Code(zero, one)[i]))
  }

  /** A closure of the factorial prototype whose constant pool holds 0 and 1 at the two indices. */
  ghost predicate IsFactorial(c: Closure, zero: nat, one: nat) {
    && zero < 0x1_0000 && one < 0x1_0000
    && c.body.Bytecode?
    && c.body.prototype.instructions == Words(zero, one)
    && zero < |c.body.constants| && c.body.constants[zero] == Long(0)
    && one < |c.body.constants| && c.body.constants[one] == Long(1)
  }

  function Fact(m: nat): nat {
    if m == 0 then 1 else m * Fact(m - 1)
  }

  /** One activation executes six instructions for 0 and twelve for anything else. */
  function Steps(m: nat): nat {
    12 * m + 6
  }

  /** Arguments are non-negative 64-bit signed integers. */
  type Arg = m: int | 0 <= m < TWO_63

  // ---------------------------------------------------------------- one instruction at a time

  lemma CodeAt(zero: nat, one: nat, i: nat)
    requires zero < 0x1_0000 && one < 0x1_0000 && i < CODE_LEN
    ensures Decode(Words(zero, one)[i]) == Code(zero, one)[i]
  {
    DecodeEncode(Code(zero, one)[i]);
  }

  /** The running frame of s is a factorial activation, and g is a later state of it. */
  ghost predicate Ready(s: State, g: Frame, zero: nat, one: nat, pc: nat) {
    && WF(s) && s.frames != [] && IsFactorial(Top(s).closure, zero, one)
    && FrameOk(g) && SameActivation(g, Top(s)) && g.pc == pc < CODE_LEN
  }

  /** The loop with the running frame of s in state g. */
  ghost function LoopAt(host: Host, s: State, g: Frame, n: nat): Result
    requires WF(s) && s.frames != [] && FrameOk(g) && SameActivation(g, Top(s)) && g.closure.body.Bytecode?
  {
    Loop(host, WithTop(s, g), n)
  }

  lemma LoopNext(host: Host, s: State, n: nat, zero: nat, one: nat, pc: nat, g: Frame, h: Frame)
    requires Ready(s, g, zero, one, pc) && n > 0 && h.pc < CODE_LEN
    requires !Skipped(Code(zero, one)[pc], g.flags) && Code(zero, one)[pc].opcode != CALL
    requires SimpleStep(host, g, s.heap, Code(zero, one)[pc]) == Next(h, s.heap)
    ensures Ready(s, h, zero, one, h.pc) && LoopAt(host, s, g, n) == LoopAt(host, s, h, n - 1)
  {
    hide Loop, SimpleStep, Code, Skipped;
    CodeAt(zero, one, pc);
    FetchNext(host, WithTop(s, g), n, h, s.heap);
    assert WithTop(WithTop(s, g), h).(heap := s.heap) == WithTop(s, h);
  }

  lemma DoSkip(host: Host, s: State, n: nat, zero: nat, one: nat, pc: nat, g: Frame)
    requires Ready(s, g, zero, one, pc) && n > 0 && pc + 1 < CODE_LEN
    requires Code(zero, one)[pc].cond == 0x11 && g.flags & FLAG_EQUAL == 0
    ensures Ready(s, g.(pc := pc + 1), zero, one, pc + 1)
    ensures LoopAt(host, s, g, n) == LoopAt(host, s, g.(pc := pc + 1), n - 1)
  {
    hide Loop, Code;
    CodeAt(zero, one, pc);
    Guards(g.flags);
    FetchSkip(host, WithTop(s, g), n);
    assert WithTop(WithTop(s, g), g.(pc := pc + 1)) == WithTop(s, g.(pc := pc + 1));
  }

  lemma DoPop(host: Host, s: State, n: nat, zero: nat, one: nat, pc: nat, g: Frame, reg: nat, v: Value)
    requires Ready(s, g, zero, one, pc) && n > 0 && pc + 1 < CODE_LEN && reg < REGISTERS_NUM
    requires Code(zero, one)[pc] == Instruction(STACK_POP, 0, reg, 0, 0) && g.stack == [v]
    ensures var h := g.(registers := g.registers[reg := v], stack := [], pc := pc + 1);
            Ready(s, h, zero, one, pc + 1) && LoopAt(host, s, g, n) == LoopAt(host, s, h, n - 1)
  {
    Guards(g.flags);
    assert g.stack[..0] == [];
    LoopNext(host, s, n, zero, one, pc, g, g.(registers := g.registers[reg := v], stack := [], pc := pc + 1));
  }

  lemma DoConstant(host: Host, s: State, n: nat, zero: nat, one: nat, pc: nat, g: Frame, reg: nat, index: nat)
    requires Ready(s, g, zero, one, pc) && n > 0 && pc + 1 < CODE_LEN && reg < REGISTERS_NUM
    requires Code(zero, one)[pc] == Instruction(GET_CONSTANT, 0, reg, index, 0)
    requires index < |g.closure.body.constants| && !g.closure.body.constants[index].NotPresent?
    ensures var h := g.(registers := g.registers[reg := g.closure.body.constants[index]], pc := pc + 1);
            Ready(s, h, zero, one, pc + 1) && LoopAt(host, s, g, n) == LoopAt(host, s, h, n - 1)
  {
    Guards(g.flags);
    LoopNext(host, s, n, zero, one, pc, g,
             g.(registers := g.registers[reg := g.closure.body.constants[index]], pc := pc + 1));
  }

  lemma DoCompare(host: Host, s: State, n: nat, zero: nat, one: nat, g: Frame, m: Arg)
    requires Ready(s, g, zero, one, 3) && n > 0
    requires g.registers[2] == Long(m) && g.registers[1] == Long(0)
    ensures var h := g.(flags := CompareFlags(host.floats, g.flags, Long(m), Long(0)), pc := 4);
            Ready(s, h, zero, one, 4) && LoopAt(host, s, g, n) == LoopAt(host, s, h, n - 1)
  {
    Guards(g.flags);
    LoopNext(host, s, n, zero, one, 3, g, g.(flags := CompareFlags(host.floats, g.flags, Long(m), Long(0)), pc := 4));
  }

  lemma DoMove(host: Host, s: State, n: nat, zero: nat, one: nat, g: Frame)
    requires Ready(s, g, zero, one, 4) && n > 0
    requires g.flags & FLAG_EQUAL != 0 && !g.registers[4].NotPresent?
    ensures var h := g.(registers := g.registers[0 := g.registers[4]], pc := 5);
            Ready(s, h, zero, one, 5) && LoopAt(host, s, g, n) == LoopAt(host, s, h, n - 1)
  {
    Guards(g.flags);
    LoopNext(host, s, n, zero, one, 4, g, g.(registers := g.registers[0 := g.registers[4]], pc := 5));
  }

  lemma DoArith(host: Host, s: State, n: nat, zero: nat, one: nat, pc: nat, g: Frame, op: ArithOp,
                to: nat, i: nat, j: nat, a: I64, b: I64, c: I64)
    requires Ready(s, g, zero, one, pc) && n > 0 && pc + 1 < CODE_LEN
    requires to < REGISTERS_NUM && i < REGISTERS_NUM && j < REGISTERS_NUM
    requires ArithOf(Code(zero, one)[pc].opcode) == Some(op) && Code(zero, one)[pc].cond == 0
    requires Code(zero, one)[pc].A == to && Code(zero, one)[pc].B == i && Code(zero, one)[pc].C == j
    requires g.registers[i] == Long(a) && g.registers[j] == Long(b)
    requires LongMath(host.floats, op, a, b) == Computed(Long(c))
    ensures var h := g.(registers := g.registers[to := Long(c)], pc := pc + 1);
            Ready(s, h, zero, one, pc + 1) && LoopAt(host, s, g, n) == LoopAt(host, s, h, n - 1)
  {
    Guards(g.flags);
    LoopNext(host, s, n, zero, one, pc, g, g.(registers := g.registers[to := Long(c)], pc := pc + 1));
  }

  lemma DoPush(host: Host, s: State, n: nat, zero: nat, one: nat, g: Frame)
    requires Ready(s, g, zero, one, 7) && n > 0 && g.stack == [] && !g.registers[3].NotPresent?
    ensures var h := g.(stack := [g.registers[3]], pc := 8);
            Ready(s, h, zero, one, 8) && LoopAt(host, s, g, n) == LoopAt(host, s, h, n - 1)
  {
    Guards(g.flags);
    assert g.stack + [g.registers[3]] == [g.registers[3]];
    LoopNext(host, s, n, zero, one, 7, g, g.(stack := [g.registers[3]], pc := 8));
  }

  lemma DoReturn(host: Host, s: State, n: nat, zero: nat, one: nat, pc: nat, g: Frame)
    requires Ready(s, g, zero, one, pc) && n > 0 && (pc == 5 || pc == 11)
    requires pc == 5 ==> g.flags & FLAG_EQUAL != 0
    requires g.stack == [] && !g.registers[0].NotPresent?
    ensures LoopAt(host, s, g, n) == Result(Returned(1), WithTop(s, g.(stack := [g.registers[0]])), n - 1)
  {
    hide Loop, Words, SimpleStep;
    CodeAt(zero, one, pc);
    Guards(g.flags);
    var h := g.(stack := [g.registers[0]]);
    ReturnsOne(host, g, s.heap, Code(zero, one)[pc]);
    FetchFinish(host, WithTop(s, g), n, h, 1);
    assert WithTop(WithTop(s, g), h) == WithTop(s, h);
  }

  lemma ReturnsOne(host: Host, g: Frame, heap: Heap, ins: Instruction)
    requires g.closure.body.Bytecode? && FieldsFit(ins)
    requires ins.opcode == RETURN && ins.A == 0 && ins.B == 1
    requires g.stack == [] && |g.registers| == REGISTERS_NUM && !g.registers[0].NotPresent?
    ensures SimpleStep(host, g, heap, ins) == Finish(g.(stack := [g.registers[0]]), 1)
  {
    assert g.stack + [g.registers[0]] == [g.registers[0]];
    assert PushRegisters(g, g.stack, 0, 1) == PushRegisters(g, [g.registers[0]], 1, 0);
  }

  lemma Guards(flags: bv8)
    ensures !Skips(0x00 as bv8, flags)
    ensures Skips(0x11 as bv8, flags) <==> flags & FLAG_EQUAL == 0
  {
    ConditionCodes(flags);
  }

  // ---------------------------------------------------------------- the parts of an activation

  /** The frame after the argument m has been compared with zero. */
  function Compared(fl: FloatOps, f: Frame, m: Arg): Frame
    requires |f.registers| == REGISTERS_NUM
  {
    f.(registers := f.registers[2 := Long(m)][1 := Long(0)][4 := Long(1)], stack := [],
       flags := CompareFlags(fl, f.flags, Long(m), Long(0)), pc := 4)
  }

  lemma Prologue(host: Host, s: State, n: nat, zero: nat, one: nat, f: Frame, m: Arg)
    requires Ready(s, f, zero, one, 0) && f.stack == [Long(m)] && n >= 4
    ensures var g := Compared(host.floats, f, m);
            Ready(s, g, zero, one, 4) && LoopAt(host, s, f, n) == LoopAt(host, s, g, n - 4)
  {
    hide LoopAt;
    DoPop(host, s, n, zero, one, 0, f, 2, Long(m));
    var f1 := f.(registers := f.registers[2 := Long(m)], stack := [], pc := 1);
    DoConstant(host, s, n - 1, zero, one, 1, f1, 1, zero);
    var f2 := f1.(registers := f1.registers[1 := Long(0)], pc := 2);
    DoConstant(host, s, n - 2, zero, one, 2, f2, 4, one);
    var f3 := f2.(registers := f2.registers[4 := Long(1)], pc := 3);
    DoCompare(host, s, n - 3, zero, one, f3, m);
  }

  lemma ComparedFlags(fl: FloatOps, flags: bv8, m: Arg)
    ensures CompareFlags(fl, flags, Long(m), Long(0)) & FLAG_EQUAL == 0 <==> m > 0
  {
    assert (flags | FLAG_EQUAL) & !FLAG_LESS & FLAG_EQUAL != 0;
    assert (flags & !FLAG_EQUAL) & !FLAG_LESS & FLAG_EQUAL == 0;
  }

  /** 0! is 1, in six instructions. */
  lemma BaseCase(host: Host, s: State, n: nat, zero: nat, one: nat, f: Frame)
    requires Ready(s, f, zero, one, 0) && f.stack == [Long(0)] && n >= 6
    ensures var r := LoopAt(host, s, f, n);
            && r.out == Returned(1) && r.left == n - 6 && r.s.frames != [] && Top(r.s).stack == [Long(1)]
            && r.s.heap == s.heap
  {
    hide LoopAt;
    Prologue(host, s, n, zero, one, f, 0);
    var g := Compared(host.floats, f, 0);
    ComparedFlags(host.floats, f.flags, 0);
    DoMove(host, s, n - 4, zero, one, g);
    DoReturn(host, s, n - 5, zero, one, 5, g.(registers := g.registers[0 := Long(1)], pc := 5));
  }

  /** The frame about to make the recursive call. */
  function Calling(fl: FloatOps, f: Frame, m: Arg): Frame
    requires 0 < m && |f.registers| == REGISTERS_NUM
  {
    var g := Compared(fl, f, m);
    g.(registers := g.registers[3 := Long(m - 1)], stack := [Long(m - 1)], pc := 8)
  }

  lemma ToTheCall(host: Host, s: State, n: nat, zero: nat, one: nat, f: Frame, m: Arg)
    requires Ready(s, f, zero, one, 0) && f.stack == [Long(m)] && 0 < m && n >= 8
    ensures var g := Calling(host.floats, f, m);
            Ready(s, g, zero, one, 8) && LoopAt(host, s, f, n) == LoopAt(host, s, g, n - 8)
  {
    hide LoopAt;
    Prologue(host, s, n, zero, one, f, m);
    var f4 := Compared(host.floats, f, m);
    ComparedFlags(host.floats, f.flags, m);
    DoSkip(host, s, n - 4, zero, one, 4, f4);
    DoSkip(host, s, n - 5, zero, one, 5, f4.(pc := 5));
    var f6 := f4.(pc := 6);
    WrapIsIdentityInRange(m - 1);
    DoArith(host, s, n - 6, zero, one, 6, f6, Sub, 3, 2, 4, m, 1, m - 1);
    DoPush(host, s, n - 7, zero, one, f6.(registers := f6.registers[3 := Long(m - 1)], pc := 7));
  }

  /** From the result of the recursive call on the stack to the product on the stack, in three instructions. */
  lemma Epilogue(host: Host, s: State, n: nat, zero: nat, one: nat, f: Frame, m: Arg, x: I64)
    requires Ready(s, f, zero, one, 9) && n >= 3
    requires f.stack == [Long(x)] && f.registers[2] == Long(m)
    ensures var r := LoopAt(host, s, f, n);
            && r.out == Returned(1) && r.left == n - 3 && r.s.frames != [] && Top(r.s).stack == [Long(Wrap(m * x))]
            && r.s.heap == s.heap
  {
    hide LoopAt;
    DoPop(host, s, n, zero, one, 9, f, 3, Long(x));
    var f1 := f.(registers := f.registers[3 := Long(x)], stack := [], pc := 10);
    DoArith(host, s, n - 1, zero, one, 10, f1, Mul, 0, 2, 3, m, x, Wrap(m * x));
    var f2 := f1.(registers := f1.registers[0 := Long(Wrap(m * x))], pc := 11);
    DoReturn(host, s, n - 2, zero, one, 11, f2);
  }

  /** The state the recursive call enters. */
  function Callee(s: State): State
    requires s.frames != []
  {
    s.(frames := s.frames + [NewFrame(s.heap.next, Top(s).closure, Top(s).stack)],
       heap := s.heap.(next := s.heap.next + 1))
  }

  /** Instruction 8 calls the running closure with the whole stack and asks for all results. */
  lemma CallInstruction(host: Host, s: State, n: nat, zero: nat, one: nat)
    requires s.frames != [] && Ready(s, Top(s), zero, one, 8) && n > 0
    ensures Loop(host, s, n) ==
            var q := CallClosure(host, s, Top(s).closure, 0, -1, n - 1);
            if !q.out.Returned? then q else LoopOn(host, s, q.s, Top(q.s).(pc := 9), q.s.heap, q.left)
  {
    hide SimpleStep, Words, CallClosure;
    CodeAt(zero, one, 8);
    Guards(Top(s).flags);
  }

  lemma CallEnters(host: Host, s: State, n: nat)
    requires WF(s) && s.frames != [] && !s.locked && |s.frames| < s.limit
    ensures OneDeeper(s, Callee(s)) && Top(Callee(s)).closure == Top(s).closure && Top(Callee(s)).stack == Top(s).stack
    ensures CallClosure(host, s, Top(s).closure, 0, -1, n) == RunCallee(host, s, Callee(s), [], -1, true, n)
  {
    assert FrameOk(Top(s));
    assert Top(s).stack[0..] == Top(s).stack && Top(s).stack[..0] == [];
    EnteredIsOneDeeper(s, Callee(s), Top(s).closure, Top(s).stack);
  }

  /** What the caller sees of a callee that returned one value on a one-slot stack. */
  lemma CallReturns(host: Host, s: State, n: nat, v: Value)
    requires WF(s) && s.frames != [] && OneDeeper(s, Callee(s)) && !v.NotPresent?
    requires Exec(host, Callee(s), n).out == Returned(1) && Top(Exec(host, Callee(s), n).s).stack == [v]
    ensures var q := RunCallee(host, s, Callee(s), [], -1, true, n);
            && q.out.Returned? && q.left == Exec(host, Callee(s), n).left
            && q.s.frames == s.frames[|s.frames| - 1 := Top(s).(stack := [v])]
            && q.s.heap == Exec(host, Callee(s), n).s.heap
  {
    var d := |s.frames|;
    var t := Callee(s);
    var r := Exec(host, t, n);
    assert Adjusted([v], 1, 1) == [v];
    assert [] + [v] == [v];
    assert r.s.frames[..d] == t.frames[..d] == s.frames;
    assert r.s.frames[d - 1] == r.s.frames[..d][d - 1];
  }

  // ---------------------------------------------------------------- 64-bit products

  lemma WrapShift(x: int, k: int)
    ensures Wrap(x + k * TWO_64) == Wrap(x)
  {
    ModUnique(x + k * TWO_64, TWO_64, x / TWO_64 + k, x % TWO_64);
  }

  lemma WrapProduct(m: int, x: int)
    ensures Wrap(m * Wrap(x)) == Wrap(m * x)
  {
    var k := if x % TWO_64 < TWO_63 then x / TWO_64 else x / TWO_64 + 1;
    assert x == Wrap(x) + k * TWO_64;
    assert m * x == m * Wrap(x) + (m * k) * TWO_64 by {
      assert m * (k * TWO_64) == (m * k) * TWO_64;
    }
    WrapShift(m * Wrap(x), m * k);
  }

  // ---------------------------------------------------------------- the theorems

  /** An activation starts with its program counter at 0. */
  lemma Starts(host: Host, s: State, n: nat, zero: nat, one: nat)
    requires WF(s) && s.frames != [] && IsFactorial(Top(s).closure, zero, one)
    ensures var f := Top(s).(pc := 0);
            Ready(s, f, zero, one, 0) && Exec(host, s, n) == LoopAt(host, s, f, n)
  {
    hide Loop;
    assert FrameOk(Top(s));
  }

  /** The recursive call is made in the frame Calling, and the callee finds its argument on its stack. */
  lemma Descend(host: Host, s: State, n: nat, zero: nat, one: nat, m: Arg)
    requires WF(s) && s.frames != [] && IsFactorial(Top(s).closure, zero, one)
    requires Top(s).stack == [Long(m)] && 0 < m && !s.locked && n >= 9
    ensures |Top(s).registers| == REGISTERS_NUM
    ensures var u := WithTop(s, Calling(host.floats, Top(s).(pc := 0), m));
            && WF(u) && Ready(u, Top(u), zero, one, 8) && Top(u).registers[2] == Long(m)
            && |u.frames| == |s.frames| && u.(frames := []) == s.(frames := [])
            && Exec(host, s, n) == Loop(host, u, n - 8)
            && (|s.frames| < s.limit ==>
                && WF(Callee(u))
                && IsFactorial(Top(Callee(u)).closure, zero, one)
                && Top(Callee(u)).stack == [Long(m - 1)])
  {
    hide Loop, Exec, Words, RunCallee, CallClosure;
    var f := Top(s).(pc := 0);
    assert FrameOk(Top(s));
    Starts(host, s, n, zero, one);
    ToTheCall(host, s, n, zero, one, f, m);
    var u := WithTop(s, Calling(host.floats, f, m));
    if |s.frames| < s.limit {
      CallEnters(host, u, n - 9);
    }
  }

  /** The heap after m frames have been allocated. */
  function Allocated(heap: Heap, m: nat): Heap {
    heap.(next := heap.next + m)
  }

  /** With the argument m alone on its stack and m free call frames above it, the function executes exactly
      12m + 6 instructions and returns one value, m! as a 64-bit signed integer. It allocates its frames and
      touches no table. */
  lemma {:induction false} FactorialReturns(host: Host, s: State, n: nat, zero: nat, one: nat, m: Arg)
    requires WF(s) && s.frames != [] && IsFactorial(Top(s).closure, zero, one)
    requires Top(s).stack == [Long(m)]
    requires !s.locked && |s.frames| + m <= s.limit && n >= Steps(m)
    ensures var r := Exec(host, s, n);
            && r.out == Returned(1) && r.left == n - Steps(m)
            && r.s.frames != [] && Top(r.s).stack == [Long(Wrap(Fact(m)))]
            && r.s.heap == Allocated(s.heap, m)
    decreases m
  {
    hide Loop, Exec, IsFactorial, OneDeeper, WF, Calling;
    if m == 0 {
      Starts(host, s, n, zero, one);
      BaseCase(host, s, n, zero, one, Top(s).(pc := 0));
    } else {
      Descend(host, s, n, zero, one, m);
      var u := WithTop(s, Calling(host.floats, Top(s).(pc := 0), m));
      FactorialReturns(host, Callee(u), n - 9, zero, one, m - 1);
      AfterTheCall(host, u, n - 8, zero, one, m);
    }
  }

  lemma AfterTheCall(host: Host, u: State, n: nat, zero: nat, one: nat, m: Arg)
    requires u.frames != [] && Ready(u, Top(u), zero, one, 8) && 0 < m && n >= Steps(m) - 8
    requires !u.locked && |u.frames| < u.limit && Top(u).registers[2] == Long(m)
    requires WF(Callee(u))
    requires var r := Exec(host, Callee(u), n - 1);
             && r.out == Returned(1) && r.left == n - 1 - Steps(m - 1)
             && Top(r.s).stack == [Long(Wrap(Fact(m - 1)))]
    ensures var r := Loop(host, u, n);
            && r.out == Returned(1) && r.left == n - 4 - Steps(m - 1)
            && r.s.frames != [] && Top(r.s).stack == [Long(Wrap(Fact(m)))]
            && r.s.heap == Exec(host, Callee(u), n - 1).s.heap
  {
    hide Loop, Exec, RunCallee, CallClosure, IsFactorial;
    var x := Wrap(Fact(m - 1));
    CallInstruction(host, u, n, zero, one);
    CallEnters(host, u, n - 1);
    CallReturns(host, u, n - 1, Long(x));
    var q := CallClosure(host, u, Top(u).closure, 0, -1, n - 1);
    var g := Top(u).(stack := [Long(x)], pc := 9);
    assert Top(q.s).(pc := 9) == g;
    Resume(host, u, q.s, q.left, zero, one, g, m, x);
    WrapProduct(m, Fact(m - 1));
  }

  /** The loop continues in the caller, with the result of the call on its stack. */
  lemma Resume(host: Host, u: State, t: State, n: nat, zero: nat, one: nat, g: Frame, m: Arg, x: I64)
    requires u.frames != [] && Ready(u, Top(u), zero, one, 8) && WF(t) && n >= 3
    requires Extends(u, t) && |t.frames| == |u.frames|
    requires t.limit == u.limit && t.handler == u.handler && t.locked == u.locked
    requires u.heap.next <= t.heap.next && Top(t).(pc := 9) == g
    requires g.stack == [Long(x)] && g.registers[2] == Long(m)
    ensures var r := LoopOn(host, u, t, g, t.heap, n);
            && r.out == Returned(1) && r.left == n - 3
            && r.s.frames != [] && Top(r.s).stack == [Long(Wrap(m * x))]
            && r.s.heap == t.heap
  {
    hide Loop;
    assert FrameOk(Top(t));
    assert WithTop(t, g).(heap := t.heap) == WithTop(t, g);
    Epilogue(host, t, n, zero, one, g, m, x);
  }

  /** The call stack has overflowed, and the error leaves with the call-stack lock held. */
  ghost predicate Overflows(s: State, r: Result) {
    r.s.locked && r.out == if s.handler.None? then Stopped(Aborted) else Thrown(s.handler.value, StackOverflow)
  }

  /** With fewer frames left the call stack overflows. */
  lemma {:induction false} FactorialOverflows(host: Host, s: State, n: nat, zero: nat, one: nat, m: Arg)
    requires WF(s) && s.frames != [] && IsFactorial(Top(s).closure, zero, one)
    requires Top(s).stack == [Long(m)]
    requires !s.locked && |s.frames| + m > s.limit && n >= Steps(m)
    ensures Overflows(s, Exec(host, s, n))
    decreases m
  {
    hide Loop, Exec, IsFactorial, Calling, Code, Words, WF, LoopOn, Ready, CallClosure;
    DepthWithinLimit(s);
    Descend(host, s, n, zero, one, m);
    var u := WithTop(s, Calling(host.floats, Top(s).(pc := 0), m));
    CallInstruction(host, u, n - 8, zero, one);
    if |u.frames| < u.limit {
      FactorialOverflows(host, Callee(u), n - 9, zero, one, m - 1);
      CallFails(host, u, n - 9);
    } else {
      CallOverflows(host, u, n - 9);
    }
  }

  lemma DepthWithinLimit(s: State)
    requires WF(s)
    ensures |s.frames| <= s.limit
  {
  }

  lemma CallFails(host: Host, s: State, n: nat)
    requires WF(s) && s.frames != [] && !s.locked && |s.frames| < s.limit
    requires WF(Callee(s)) && !Exec(host, Callee(s), n).out.Returned?
    ensures CallClosure(host, s, Top(s).closure, 0, -1, n) == Exec(host, Callee(s), n)
  {
    hide Exec;
    CallEnters(host, s, n);
  }

  lemma CallOverflows(host: Host, s: State, n: nat)
    requires WF(s) && s.frames != [] && !s.locked && |s.frames| >= s.limit
    ensures Overflows(s, CallClosure(host, s, Top(s).closure, 0, -1, n))
  {
    hide RunCallee;
  }

  /** Given the steps it needs, the program computes m! exactly when m more call frames fit. */
  lemma FactorialCorrect(host: Host, s: State, n: nat, zero: nat, one: nat, m: Arg)
    requires WF(s) && s.frames != [] && IsFactorial(Top(s).closure, zero, one)
    requires Top(s).stack == [Long(m)] && !s.locked && n >= Steps(m)
    ensures var r := Exec(host, s, n);
            && (r.out.Returned? <==> |s.frames| + m <= s.limit)
            && (r.out.Returned? ==> r.out.count == 1 && Top(r.s).stack == [Long(Wrap(Fact(m)))]
                                    && |r.s.frames| == |s.frames| && r.s.handler == s.handler && !r.s.locked
                                    && r.s.heap == Allocated(s.heap, m)
                                    && r.s.frames[..|s.frames| - 1] == s.frames[..|s.frames| - 1])
  {
    if |s.frames| + m <= s.limit {
      FactorialReturns(host, s, n, zero, one, m);
    } else {
      FactorialOverflows(host, s, n, zero, one, m);
    }
  }
}
