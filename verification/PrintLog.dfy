/** A native function that keeps a log, as the print function of the benchmark: it calls a bytecode closure that
    stores its argument in the environment table under the number of the call. */
module PrintLog {
  import opened Values
  import opened Instructions
  import opened LuaStack
  import opened Machine
  import opened Factorial
  import opened Benchmark
  import MachineLaws

  /** The closure, and the key that leads to the number of calls so far; both constants have a place in its pool. */
  datatype Log = Log(c: Closure, key: Value, keyIndex: nat, oneIndex: nat)

  function LogCode(l: Log): (code: seq<Instruction>)
    ensures |code| == LOG_LEN
    ensures l.keyIndex < 0x1_0000 && l.oneIndex < 0x1_0000 ==> forall i :: 0 <= i < LOG_LEN ==> FieldsFit(code[i])
  {
    [ Instruction(STACK_POP, 0x00, 1, 0, 0),
      Instruction(GET_CONSTANT, 0x00, 2, l.keyIndex, 0),
      Instruction(TABLE_GET, 0x00, 3, REGISTER_ENV, 2),
      Instruction(TABLE_SET, 0x00, REGISTER_ENV, 3, 1),
      Instruction(GET_CONSTANT, 0x00, 4, l.oneIndex, 0),
      Instruction(ADD, 0x00, 3, 3, 4),
      Instruction(TABLE_SET, 0x00, REGISTER_ENV, 2, 3),
      Instruction(RETURN, 0x00, 0, 0, 0) ]
  }

  const LOG_LEN := 8

  ghost predicate IsLogger(e: Setting, l: Log) {
    && l.keyIndex < 0x1_0000 && l.oneIndex < 0x1_0000 && e.name.Str? && l.key.Str? && e.name.text != l.key.text
    && l.c.env == Table(e.o) && l.c.body.Bytecode?
    && l.c.body.prototype.instructions == seq(LOG_LEN, i requires 0 <= i < LOG_LEN => Encode(LogCode(l)[i]))
    && l.keyIndex < |l.c.body.constants| && l.c.body.constants[l.keyIndex] == l.key
    && l.oneIndex < |l.c.body.constants| && l.c.body.constants[l.oneIndex] == Long(1)
  }

  /** The native function pushes the closure and its argument and calls it. */
  ghost predicate Calls(code: NativeCode, l: Log) {
    && code.Do? && code.op == Api(Push(Fun(l.c)))
    && forall r :: (var code1 := code.next(r);
         && code1.Do? && code1.op == Api(PushValue(1))
         && forall r1 :: (var code2 := code1.next(r1);
              && code2.Do? && code2.op == LuaCall(1, 0) && forall r2 :: code2.next(r2) == Done(0)))
  }

  /** The environment leads to the native function and to a number of calls. */
  ghost predicate Logging(host: Host, heap: Heap, e: Setting, l: Log) {
    && HasPrint(host, heap, e) && !l.key.NotPresent?
    && MapGet(heap.tables[e.o], host.hash, l.key).Long?
  }

  ghost function Count(host: Host, heap: Heap, e: Setting, l: Log): I64
    requires Logging(host, heap, e, l)
  {
    MapGet(heap.tables[e.o], host.hash, l.key).num
  }

  /** A value stored in the environment. */
  function Put(host: Host, heap: Heap, e: Setting, key: Value, value: Value): (after: Heap)
    requires e.o in heap.tables && !key.NotPresent?
    ensures e.o in after.tables
  {
    heap.(tables := heap.tables[e.o := MapSet(heap.tables[e.o], host.hash, key, value)])
  }

  /** The argument stored under the number of calls, and one call more. */
  ghost function Logged(host: Host, heap: Heap, e: Setting, l: Log, v: I64): Heap
    requires Logging(host, heap, e, l)
  {
    var c := Count(host, heap, e, l);
    Put(host, Put(host, heap, e, Long(c), Long(v)), e, l.key, Long(Wrap(c + 1)))
  }

  /** Storing a number under a number, or under the key of the log, leaves the rest of the table alone. */
  lemma LoggedMeaning(host: Host, heap: Heap, e: Setting, l: Log, v: I64)
    requires Logging(host, heap, e, l) && IsLogger(e, l)
    ensures var c, after := Count(host, heap, e, l), Logged(host, heap, e, l, v);
            && Logging(host, after, e, l) && Count(host, after, e, l) == Wrap(c + 1)
            && MapGet(after.tables[e.o], host.hash, Long(c)) == Long(v)
            && forall i: I64 :: i != c ==>
                 MapGet(after.tables[e.o], host.hash, Long(i)) == MapGet(heap.tables[e.o], host.hash, Long(i))
  {
    hide HashOf, Wrap, LogCode;
  }

  // ---------------------------------------------------------------- the closure

  ghost predicate InLog(s: State, e: Setting, l: Log, pc: nat) {
    WF(s) && s.frames != [] && IsLogger(e, l) && Top(s).closure == l.c && Top(s).pc == pc < LOG_LEN
  }

  lemma LogAt(e: Setting, l: Log, i: nat)
    requires IsLogger(e, l) && i < LOG_LEN
    ensures FieldsFit(LogCode(l)[i]) && Decode(l.c.body.prototype.instructions[i]) == LogCode(l)[i]
  {
    hide LogCode;
    DecodeEncode(LogCode(l)[i]);
  }

  lemma LogTurn(host: Host, s: State, n: nat, e: Setting, l: Log, pc: nat, g: Frame, heap: Heap)
    requires InLog(s, e, l, pc) && n > 0 && FieldsFit(LogCode(l)[pc]) && LogCode(l)[pc].opcode != CALL
    requires LogCode(l)[pc].cond == 0 && g.pc < LOG_LEN
    requires SimpleStep(host, Top(s), s.heap, LogCode(l)[pc]) == Next(g, heap)
    ensures InLog(With(s, g, heap), e, l, g.pc) && Loop(host, s, n) == Loop(host, With(s, g, heap), n - 1)
  {
    hide Loop, SimpleStep, LogCode, Skipped, Decode;
    LogAt(e, l, pc);
    Unconditional(LogCode(l)[pc], Top(s).flags);
    FetchNext(host, s, n, g, heap);
    assert FrameOk(g);
  }

  lemma LogInstructions(l: Log)
    ensures LogCode(l)[0] == Instruction(STACK_POP, 0x00, 1, 0, 0)
    ensures LogCode(l)[1] == Instruction(GET_CONSTANT, 0x00, 2, l.keyIndex, 0)
    ensures LogCode(l)[2] == Instruction(TABLE_GET, 0x00, 3, REGISTER_ENV, 2)
    ensures LogCode(l)[3] == Instruction(TABLE_SET, 0x00, REGISTER_ENV, 3, 1)
    ensures LogCode(l)[4] == Instruction(GET_CONSTANT, 0x00, 4, l.oneIndex, 0)
    ensures LogCode(l)[5] == Instruction(ADD, 0x00, 3, 3, 4)
    ensures LogCode(l)[6] == Instruction(TABLE_SET, 0x00, REGISTER_ENV, 2, 3)
    ensures LogCode(l)[7] == Instruction(RETURN, 0x00, 0, 0, 0)
  {
  }

  lemma PopTurn(host: Host, s: State, n: nat, e: Setting, l: Log, v: Value)
    requires InLog(s, e, l, 0) && n > 0 && Top(s).stack == [v] && !v.NotPresent? && |Top(s).registers| == REGISTERS_NUM
    ensures var t := With(s, Top(s).(registers := Top(s).registers[1 := v], stack := [], pc := 1), s.heap);
            InLog(t, e, l, 1) && Loop(host, s, n) == Loop(host, t, n - 1)
  {
    hide Loop, LogCode, IsLogger;
    LogInstructions(l);
    LoggerParts(s, e, l, 0);
    assert Top(s).stack[..0] == [];
    LogTurn(host, s, n, e, l, 0, Top(s).(registers := Top(s).registers[1 := v], stack := [], pc := 1), s.heap);
  }

  lemma ConstantTurn(host: Host, s: State, n: nat, e: Setting, l: Log, pc: nat, reg: nat, index: nat, v: Value)
    requires InLog(s, e, l, pc) && n > 0 && pc + 1 < LOG_LEN && reg < REGISTERS_NUM
    requires LogCode(l)[pc] == Instruction(GET_CONSTANT, 0x00, reg, index, 0) && |Top(s).registers| == REGISTERS_NUM
    requires l.c.body.Bytecode? && index < |l.c.body.constants| && l.c.body.constants[index] == v && !v.NotPresent?
    ensures var t := With(s, Top(s).(registers := Top(s).registers[reg := v], pc := pc + 1), s.heap);
            InLog(t, e, l, pc + 1) && Loop(host, s, n) == Loop(host, t, n - 1)
  {
    hide Loop, LogCode, IsLogger;
    LoggerParts(s, e, l, pc);
    LogTurn(host, s, n, e, l, pc, Top(s).(registers := Top(s).registers[reg := v], pc := pc + 1), s.heap);
  }

  /** A load from the environment table. */
  lemma GetTurn(host: Host, s: State, n: nat, e: Setting, l: Log)
    requires InLog(s, e, l, 2) && n > 0 && |Top(s).registers| == REGISTERS_NUM && e.o in s.heap.tables
    requires !Top(s).registers[2].NotPresent?
    requires !MapGet(s.heap.tables[e.o], host.hash, Top(s).registers[2]).NotPresent?
    ensures var v := MapGet(s.heap.tables[e.o], host.hash, Top(s).registers[2]);
            var t := With(s, Top(s).(registers := Top(s).registers[3 := v], pc := 3), s.heap);
            InLog(t, e, l, 3) && Loop(host, s, n) == Loop(host, t, n - 1)
  {
    hide Loop, LogCode, IsLogger, MapGet;
    LogInstructions(l);
    LoggerParts(s, e, l, 2);
    var v := MapGet(s.heap.tables[e.o], host.hash, Top(s).registers[2]);
    LogTurn(host, s, n, e, l, 2, Top(s).(registers := Top(s).registers[3 := v], pc := 3), s.heap);
  }

  lemma AddTurn(host: Host, s: State, n: nat, e: Setting, l: Log, c: I64)
    requires InLog(s, e, l, 5) && n > 0 && |Top(s).registers| == REGISTERS_NUM
    requires Top(s).registers[3] == Long(c) && Top(s).registers[4] == Long(1)
    ensures var t := With(s, Top(s).(registers := Top(s).registers[3 := Long(Wrap(c + 1))], pc := 6), s.heap);
            InLog(t, e, l, 6) && Loop(host, s, n) == Loop(host, t, n - 1)
  {
    hide Loop, LogCode, IsLogger, Wrap;
    LogInstructions(l);
    LoggerParts(s, e, l, 5);
    LogTurn(host, s, n, e, l, 5, Top(s).(registers := Top(s).registers[3 := Long(Wrap(c + 1))], pc := 6), s.heap);
  }

  /** The first three instructions fetch the argument, the key and the number of calls. */
  lemma LogLoads(host: Host, s: State, n: nat, e: Setting, l: Log, v: I64)
    requires InLog(s, e, l, 0) && Top(s).stack == [Long(v)] && Logging(host, s.heap, e, l) && n >= 3
    ensures |Top(s).registers| == REGISTERS_NUM
    ensures var r := Top(s).registers[1 := Long(v)][2 := l.key][3 := Long(Count(host, s.heap, e, l))];
            var t := With(s, Top(s).(registers := r, stack := [], pc := 3), s.heap);
            InLog(t, e, l, 3) && Loop(host, s, n) == Loop(host, t, n - 3)
  {
    hide Loop, MapGet, HasPrint, InLog, LogCode;
    LoggerParts(s, e, l, 0);
    LogInstructions(l);
    HasEnvironment(host, s.heap, e);
    var f := Top(s);
    PopTurn(host, s, n, e, l, Long(v));
    var g1 := f.(registers := f.registers[1 := Long(v)], stack := [], pc := 1);
    var s1 := With(s, g1, s.heap);
    ConstantTurn(host, s1, n - 1, e, l, 1, 2, l.keyIndex, l.key);
    var g2 := g1.(registers := g1.registers[2 := l.key], pc := 2);
    var s2 := With(s1, g2, s.heap);
    GetTurn(host, s2, n - 2, e, l);
    var g3 := g2.(registers := g2.registers[3 := Long(Count(host, s.heap, e, l))], pc := 3);
    assert With(s2, g3, s.heap) == With(s, g3, s.heap);
  }

  /** A store into the environment table. */
  lemma SetTurn(host: Host, s: State, n: nat, e: Setting, l: Log, pc: nat, i: nat, j: nat)
    requires InLog(s, e, l, pc) && pc + 1 < LOG_LEN && e.o in s.heap.tables && n > 0
    requires LogCode(l)[pc] == Instruction(TABLE_SET, 0x00, REGISTER_ENV, i, j)
    requires |Top(s).registers| == REGISTERS_NUM && i < REGISTERS_NUM && j < REGISTERS_NUM
    requires !Top(s).registers[i].NotPresent? && !Top(s).registers[j].NotPresent?
    ensures var heap := Put(host, s.heap, e, Top(s).registers[i], Top(s).registers[j]);
            var t := With(s, Top(s).(pc := pc + 1), heap);
            InLog(t, e, l, pc + 1) && Loop(host, s, n) == Loop(host, t, n - 1)
  {
    hide Loop, MapSet, LogCode;
    LoggerParts(s, e, l, pc);
    var heap := Put(host, s.heap, e, Top(s).registers[i], Top(s).registers[j]);
    LogTurn(host, s, n, e, l, pc, Top(s).(pc := pc + 1), heap);
  }

  /** Instructions 4 and 5. */
  lemma Counts(host: Host, s: State, n: nat, e: Setting, l: Log, c: I64)
    requires InLog(s, e, l, 4) && n >= 2 && |Top(s).registers| == REGISTERS_NUM && Top(s).registers[3] == Long(c)
    ensures var f := Top(s).(registers := Top(s).registers[4 := Long(1)][3 := Long(Wrap(c + 1))], pc := 6);
            InLog(With(s, f, s.heap), e, l, 6) && Loop(host, s, n) == Loop(host, With(s, f, s.heap), n - 2)
  {
    hide Loop, InLog, Wrap, LogCode;
    LoggerParts(s, e, l, 4);
    LogInstructions(l);
    ConstantTurn(host, s, n, e, l, 4, 4, l.oneIndex, Long(1));
    var g1 := Top(s).(registers := Top(s).registers[4 := Long(1)], pc := 5);
    var s1 := With(s, g1, s.heap);
    AddTurn(host, s1, n - 1, e, l, c);
    var g2 := g1.(registers := g1.registers[3 := Long(Wrap(c + 1))], pc := 6);
    assert With(s1, g2, s.heap) == With(s, g2, s.heap);
  }

  /** Instructions 3 to 5 store the argument under that number and count. */
  lemma StoresArgument(host: Host, s: State, n: nat, e: Setting, l: Log, v: I64, c: I64)
    requires InLog(s, e, l, 3) && e.o in s.heap.tables && n >= 3 && |Top(s).registers| == REGISTERS_NUM
    requires Top(s).registers[1] == Long(v) && Top(s).registers[3] == Long(c)
    ensures var heap := Put(host, s.heap, e, Long(c), Long(v));
            var f := Top(s).(registers := Top(s).registers[4 := Long(1)][3 := Long(Wrap(c + 1))], pc := 6);
            InLog(With(s, f, heap), e, l, 6) && Loop(host, s, n) == Loop(host, With(s, f, heap), n - 3)
  {
    hide Loop, Put, InLog, Wrap, LogCode, WF;
    LoggerParts(s, e, l, 3);
    LogInstructions(l);
    SetTurn(host, s, n, e, l, 3, 3, 1);
    var heap := Put(host, s.heap, e, Long(c), Long(v));
    var s1 := With(s, Top(s).(pc := 4), heap);
    Counts(host, s1, n - 1, e, l, c);
    var g := Top(s).(registers := Top(s).registers[4 := Long(1)][3 := Long(Wrap(c + 1))], pc := 6);
    assert With(s1, g, heap) == With(s, g, heap);
  }

  /** Instruction 6 stores the number of calls. */
  lemma StoresCount(host: Host, s: State, n: nat, e: Setting, l: Log, j: I64)
    requires InLog(s, e, l, 6) && e.o in s.heap.tables && n > 0 && |Top(s).registers| == REGISTERS_NUM
    requires Top(s).registers[2] == l.key && Top(s).registers[3] == Long(j) && !l.key.NotPresent?
    ensures var t := With(s, Top(s).(pc := 7), Put(host, s.heap, e, l.key, Long(j)));
            InLog(t, e, l, 7) && Loop(host, s, n) == Loop(host, t, n - 1)
  {
    hide Loop, Put, InLog, LogCode, WF;
    LogInstructions(l);
    SetTurn(host, s, n, e, l, 6, 2, 3);
  }

  lemma LogEnds(host: Host, s: State, n: nat, e: Setting, l: Log)
    requires InLog(s, e, l, 7) && n > 0 && Top(s).stack == []
    ensures Loop(host, s, n) == Result(Returned(0), s, n - 1)
  {
    hide Loop, LogCode, Skipped, Decode, IsLogger;
    LoggerParts(s, e, l, 7);
    LogLast(e, l);
    Unconditional(LogCode(l)[7], Top(s).flags);
    ReturnsNothing(host, Top(s), s.heap, LogCode(l)[7]);
    FetchFinish(host, s, n, Top(s), 0);
    assert WithTop(s, Top(s)) == s;
  }

  lemma LogLast(e: Setting, l: Log)
    requires IsLogger(e, l)
    ensures LogCode(l)[7] == Instruction(RETURN, 0x00, 0, 0, 0)
    ensures |l.c.body.prototype.instructions| == LOG_LEN
    ensures Decode(l.c.body.prototype.instructions[7]) == LogCode(l)[7]
  {
    LogAt(e, l, 7);
  }

  /** The closure stores its argument and counts the call, in eight instructions. */
  lemma LoggerRuns(host: Host, s: State, n: nat, e: Setting, l: Log, v: I64)
    requires WF(s) && s.frames != [] && IsLogger(e, l) && Top(s).closure == l.c && Top(s).stack == [Long(v)]
    requires Logging(host, s.heap, e, l) && n >= 8
    ensures var r := Exec(host, s, n);
            && r.out == Returned(0) && r.left == n - 8 && r.s.heap == Logged(host, s.heap, e, l, v)
            && r.s.frames != [] && Top(r.s).stack == []
  {
    hide Loop, MapGet, Put, IsLogger, Wrap;
    assert FrameOk(Top(s));
    LogIsCode(e, l);
    var s0 := WithTop(s, Top(s).(pc := 0));
    LogLoads(host, s0, n, e, l, v);
    var c: int := Count(host, s.heap, e, l);
    HasEnvironment(host, s.heap, e);
    var r := Top(s0).registers[1 := Long(v)][2 := l.key][3 := Long(c)];
    var s1 := With(s0, Top(s0).(registers := r, stack := [], pc := 3), s0.heap);
    StoresArgument(host, s1, n - 3, e, l, v, c);
    var f := Top(s1).(registers := r[4 := Long(1)][3 := Long(Wrap(c + 1))], pc := 6);
    var s2 := With(s1, f, Put(host, s.heap, e, Long(c), Long(v)));
    StoresCount(host, s2, n - 6, e, l, Wrap(c + 1));
    var t := With(s2, f.(pc := 7), Logged(host, s.heap, e, l, v));
    LogEnds(host, t, n - 7, e, l);
  }

  lemma LogIsCode(e: Setting, l: Log)
    requires IsLogger(e, l)
    ensures l.c.body.Bytecode? && |l.c.body.prototype.instructions| == LOG_LEN
  {
  }

  // ---------------------------------------------------------------- the native function

  /** What a call of the native function does to the heap: the closure gets a frame, and its argument is logged. */
  ghost function Effect(host: Host, e: Setting, l: Log): (Heap, I64) -> Heap {
    (heap: Heap, v: I64) => if Logging(host, heap, e, l) then Logged(host, Allocated(heap, 1), e, l, v) else heap
  }

  ghost function Logger(host: Host, e: Setting, l: Log): Printer {
    Printer(11, 1, heap => Logging(host, heap, e, l), Effect(host, e, l))
  }

  /** The native function meets the hypothesis of the benchmark, with an effect on the environment table. */
  lemma LoggerPrints(host: Host, e: Setting, l: Log)
    requires IsLogger(e, l) && Calls(host.funcs(e.addr), l)
    ensures Prints(host, e, Logger(host, e, l))
  {
    hide IsLogger, Calls, Logged, RunNative, MapGet;
    var p := Logger(host, e, l);
    forall heap: Heap, v: I64 | p.ok(heap)
      ensures p.ok(p.effect(heap, v))
    {
      LoggedMeaning(host, Allocated(heap, 1), e, l, v);
    }
    forall s: State, v: I64, n: nat |
        AtPrint(s, e, v) && p.ok(s.heap) && |s.frames| + p.room <= s.limit && n >= p.cost
      ensures var r := RunNative(host, host.funcs(e.addr), s, n);
              r.out.Returned? && r.left == n - p.cost && r.s.heap == p.effect(s.heap, v)
    {
      LogsArgument(host, s, n, e, l, v);
    }
  }

  lemma LogsArgument(host: Host, s: State, n: nat, e: Setting, l: Log, v: I64)
    requires IsLogger(e, l) && Calls(host.funcs(e.addr), l) && Logging(host, s.heap, e, l)
    requires AtPrint(s, e, v) && |s.frames| < s.limit && n >= 11
    ensures var r := RunNative(host, host.funcs(e.addr), s, n);
            r.out.Returned? && r.left == n - 11 && r.s.heap == Logged(host, Allocated(s.heap, 1), e, l, v)
  {
    hide IsLogger, Logged, MapGet, ApiStep, Kept, Exec, LuaCallStep, FramesOk;
    var x, code := Long(v), host.funcs(e.addr);
    var s2 := WithStack(s, [x] + [Fun(l.c)] + [x]);
    CallFollows(host, s, n, e, l, v);
    MachineLaws.LuaCallEffect(host, s2, [x], l.c, [x], 0, n - 3);
    var caller := s2.frames[|s.frames| - 1 := Top(s2).(stack := [x] + [Fun(l.c)])];
    var t := MachineLaws.CalleeStart(s2, caller, l.c, [x]);
    LoggerRuns(host, t, n - 3, e, l, v);
  }

  lemma LoggerParts(s: State, e: Setting, l: Log, pc: nat)
    requires InLog(s, e, l, pc)
    ensures s.frames != [] && |Top(s).registers| == REGISTERS_NUM
    ensures Top(s).closure == l.c && l.c.env == Table(e.o) && l.c.body.Bytecode? && l.key.Str?
    ensures l.keyIndex < |l.c.body.constants| && l.c.body.constants[l.keyIndex] == l.key
    ensures l.oneIndex < |l.c.body.constants| && l.c.body.constants[l.oneIndex] == Long(1)
    ensures forall i :: 0 <= i < LOG_LEN ==> FieldsFit(LogCode(l)[i])
  {
    assert FrameOk(Top(s));
  }

  lemma TopIsOk(s: State)
    requires WF(s) && s.frames != []
    ensures FrameOk(Top(s))
  {
  }

  /** Two pushes, and the call. */
  lemma CallFollows(host: Host, s: State, n: nat, e: Setting, l: Log, v: I64)
    requires Calls(host.funcs(e.addr), l) && AtPrint(s, e, v) && n >= 3
    ensures var x := Long(v);
            var s2 := WithStack(s, [x] + [Fun(l.c)] + [x]);
            && WF(s2)
            && var q := LuaCallStep(host, s2, 1, 0, n - 3);
               q.out == Returned(0) ==>
                 var r := RunNative(host, host.funcs(e.addr), s, n);
                 r.out == Returned(0) && r.left == q.left && r.s == q.s
  {
    hide LuaCallStep, FrameOk;
    var x, code := Long(v), host.funcs(e.addr);
    var y := Fun(l.c);
    TopIsOk(s);
    assert ApiStep([x], Push(y)) == Replied([x] + [y], Unit);
    assert ApiStep([x] + [y], PushValue(1)) == Replied([x] + [y] + [x], Unit);
    var s1, s2 := WithStack(s, [x] + [y]), WithStack(s, [x] + [y] + [x]);
    assert WithStack(s1, [x] + [y] + [x]) == s2;
    var code1 := code.next(Unit);
    var code2 := code1.next(Unit);
    assert RunNative(host, code, s, n) == RunNative(host, code1, s1, n - 1);
    assert RunNative(host, code1, s1, n - 1) == RunNative(host, code2, s2, n - 2);
    var q := LuaCallStep(host, s2, 1, 0, n - 3);
    assert RunNative(host, code2, s2, n - 2) == NativeOn(host, s2, q, code2.next, n - 3);
    if q.out == Returned(0) {
      assert RunNative(host, code2.next(Number(0)), q.s, q.left) == Result(Returned(0), q.s, q.left);
    }
  }

  // ---------------------------------------------------------------- the log of the payload

  /** After a number of rounds, the log has one entry for each, in the order of the counters. */
  lemma {:induction false} LogOfRounds(host: Host, heap: Heap, e: Setting, l: Log, i: I64, rounds: nat)
    requires IsLogger(e, l) && Logging(host, heap, e, l) && Count(host, heap, e, l) == i
    requires i + rounds < TWO_63
    ensures var after := Printed(Logger(host, e, l), e, heap, i, rounds);
            && Logging(host, after, e, l) && Count(host, after, e, l) == i + rounds
            && (forall j: I64 :: i <= j < i + rounds ==> MapGet(after.tables[e.o], host.hash, Long(j)) == Long(j))
            && (forall j: I64 :: !(i <= j < i + rounds) ==>
                  MapGet(after.tables[e.o], host.hash, Long(j)) == MapGet(heap.tables[e.o], host.hash, Long(j)))
    decreases rounds
  {
    hide IsLogger, Logged, MapGet;
    if rounds > 0 {
      var start := Allocated(heap, e.arg + 3);
      LoggedMeaning(host, start, e, l, i);
      assert Allocated(Allocated(heap, e.arg + 2), 1) == start;
      assert RoundHeap(Logger(host, e, l), e, heap, i) == Logged(host, start, e, l, i);
      WrapIsIdentityInRange(i + 1);
      LogOfRounds(host, Logged(host, start, e, l, i), e, l, i + 1, rounds - 1);
    }
  }

  /** Run with this native function, and no call counted before, the payload leaves the numbers from 0 to the limit
      in the log, each under its own number: these calls, in this order, and no other. */
  lemma PayloadIsLogged(host: Host, s: State, n: nat, e: Setting, l: Log)
    requires WF(s) && s.frames != [] && IsPayload(Top(s).closure, e) && Top(s).stack == [] && !s.locked
    requires IsLogger(e, l) && Calls(host.funcs(e.addr), l) && e.max < LAST_LIMIT
    requires |s.frames| + 1 + e.arg <= s.limit && |s.frames| + 2 <= s.limit
    requires Logging(host, s.heap, e, l) && Count(host, s.heap, e, l) == 0
    requires n >= 6 + (e.max + 1) * (20 + Steps(e.arg))
    ensures var r := Exec(host, s, n);
            && r.out == Returned(0) && Logging(host, r.s.heap, e, l) && Count(host, r.s.heap, e, l) == e.max + 1
            && (forall j: I64 :: 0 <= j <= e.max ==> MapGet(r.s.heap.tables[e.o], host.hash, Long(j)) == Long(j))
            && (forall j: I64 :: !(0 <= j <= e.max) ==>
                  MapGet(r.s.heap.tables[e.o], host.hash, Long(j)) == MapGet(s.heap.tables[e.o], host.hash, Long(j)))
  {
    hide IsLogger, Calls, IsPayload, Exec, MapGet, Printed;
    LoggerPrints(host, e, l);
    LogOfRounds(host, Allocated(s.heap, 1), e, l, 0, e.max + 1);
    PayloadReturns(host, s, n, e, Logger(host, e, l));
  }
}
