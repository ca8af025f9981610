/** The bytecode machine as functions on values. A run is given a number of steps and returns the steps
    left over, so running with k steps gives the state after k steps: the results for all k are all
    the reachable states. Every function says what it keeps, whatever code it runs. */
module Machine {
  import opened Values
  import opened Instructions
  import opened LuaStack

  const REGISTERS_NUM := 256

  /** One activation record. The stack is the sequence of slots below the stack pointer. */
  datatype Frame = Frame(id: Obj, closure: Closure, registers: seq<Value>, stack: seq<Value>,
                         flags: bv8, pc: nat)

  datatype Heap = Heap(next: Obj, tables: map<Obj, TableMap>)

  /** One coroutine: its call frames (the last is the running one), the capacity of its call stack, the lock
      on it, the jump buffer errors go to, and the collected heap. */
  datatype State = State(frames: seq<Frame>, limit: nat, locked: bool, handler: Option<nat>, heap: Heap)

  /** Native code decides its next call into the machine from the replies to the calls before. */
  datatype NativeCode = Done(count: int) | Do(op: NativeOp, next: Reply -> NativeCode)

  datatype NativeOp =
    | Api(op: ApiOp)
    | LuaCall(nargs: int, nresults: int)
    | LuaError
    | XpCall(body: NativeCode, onError: Option<NativeCode>)

  /** What the host supplies: native functions by address, binary64 arithmetic and the hash algorithm. */
  datatype Host = Host(funcs: nat -> NativeCode, floats: FloatOps, hash: Hash)

  datatype Outcome =
    | Returned(count: int)
    | Thrown(target: nat, why: ErrMsg)
    | Stopped(reason: StopReason)
    | OutOfSteps

  datatype Result = Result(out: Outcome, s: State, left: nat)

  // ---------------------------------------------------------------- well-formed states

  ghost predicate FrameOk(f: Frame) {
    && Live(f.stack)
    && |f.registers| == (if f.closure.body.Bytecode? then REGISTERS_NUM else 0)
    && (f.closure.body.Bytecode? ==> f.pc <= |f.closure.body.prototype.instructions|)
  }

  /** Frame identities grow along the call stack, so no frame is on it twice. */
  ghost predicate FramesOk(frames: seq<Frame>, limit: nat, next: Obj) {
    && |frames| <= limit
    && (forall i :: 0 <= i < |frames| ==> FrameOk(frames[i]) && frames[i].id < next)
    && (forall i, j :: 0 <= i < j < |frames| ==> frames[i].id < frames[j].id)
  }

  /** The run-wide frame invariant. */
  ghost predicate WF(s: State) {
    FramesOk(s.frames, s.limit, s.heap.next)
  }

  function Top(s: State): Frame
    requires s.frames != []
  {
    s.frames[|s.frames| - 1]
  }

  function WithTop(s: State, f: Frame): State
    requires s.frames != []
  {
    s.(frames := s.frames[|s.frames| - 1 := f])
  }

  function WithStack(s: State, stack: seq<Value>): State
    requires s.frames != []
  {
    WithTop(s, Top(s).(stack := stack))
  }

  predicate SameActivation(f: Frame, g: Frame) {
    f.id == g.id && f.closure == g.closure
  }

  /** s keeps the activations of base: the frames below its top are untouched and its top is still running. */
  ghost predicate Extends(base: State, s: State)
    requires base.frames != []
  {
    var d := |base.frames|;
    && d <= |s.frames|
    && s.frames[..d - 1] == base.frames[..d - 1]
    && SameActivation(s.frames[d - 1], base.frames[d - 1])
  }

  /** What running anything in the top frame of s keeps, in every state it passes through: no frame below is
      touched, unless a full call stack made the prolog pop a frame and leave the lock held. Errors go to the
      handler installed at the start, and a normal return restores the depth, the lock and the handler. */
  ghost predicate Kept(s: State, r: Result)
    requires s.frames != []
  {
    && WF(r.s)
    && r.s.limit == s.limit
    && s.heap.next <= r.s.heap.next
    && (s.locked ==> r.s.locked)
    && (!r.s.locked ==> Extends(s, r.s))
    && (r.out.Returned? ==> Extends(s, r.s) && |r.s.frames| == |s.frames|
                            && r.s.handler == s.handler && r.s.locked == s.locked)
    && (r.out.Thrown? ==> s.handler == Some(r.out.target) && r.s.handler == s.handler)
    && (s.handler.Some? ==> r.s.handler.Some?)
  }

  // ---------------------------------------------------------------- registers

  /** None where the register index fails the assertion. The env register may yield NotPresent. */
  function GetRegister(f: Frame, index: nat): Option<Value> {
    if index == REGISTER_ENV then Some(f.closure.env)
    else if index == REGISTER_CURRENT then Some(Fun(f.closure))
    else if index == REGISTER_ALWAYS_NIL then Some(Nil)
    else if index >= |f.registers| then None
    else Some(if f.registers[index].NotPresent? then Nil else f.registers[index])
  }

  /** Only index 0xFF00 of the reserved range is ignored; any other index outside the file fails the assertion. */
  function SetRegister(f: Frame, index: nat, v: Value): (r: Option<Frame>)
    ensures FrameOk(f) && r.Some? ==> FrameOk(r.value) && SameActivation(f, r.value)
  {
    if v.NotPresent? then None
    else if index == RESERVED_START then Some(f)
    else if index >= |f.registers| then None
    else Some(f.(registers := f.registers[index := v]))
  }

  /** Two operands that are fit to be inspected. */
  function TwoRegisters(f: Frame, i: nat, j: nat): Option<(Value, Value)> {
    match (GetRegister(f, i), GetRegister(f, j))
    case (Some(a), Some(b)) => if a.NotPresent? || b.NotPresent? then None else Some((a, b))
    case _ => None
  }

  // ---------------------------------------------------------------- single instructions

  datatype Step =
    | Next(f: Frame, heap: Heap)
    | Finish(f: Frame, count: nat)
    | Fail(why: ErrMsg)
    | Halt(reason: StopReason)

  function Advance(f: Frame, heap: Heap): Step {
    Next(f.(pc := f.pc + 1), heap)
  }

  function Store(f: Frame, heap: Heap, index: nat, v: Value): Step {
    match SetRegister(f, index, v)
    case Some(g) => Advance(g, heap)
    case None => Halt(Aborted)
  }

  function ArithStep(host: Host, op: ArithOp, f: Frame, heap: Heap, ins: Instruction): Step
    requires FieldsFit(ins)
  {
    match TwoRegisters(f, ins.B, ins.C)
    case None => Halt(Aborted)
    case Some((a, b)) =>
      match Math(host.floats, op, a, b)
      case NonNumeric => Fail(BadOperands)
      case HostTrap => Halt(Trapped)
      case Computed(v) => Store(f, heap, ins.A, v)
  }

  function SetFlag(flags: bv8, flag: bv8, on: bool): bv8 {
    if on then flags | flag else flags & !flag
  }

  function CompareFlags(fl: FloatOps, flags: bv8, a: Value, b: Value): bv8 {
    SetFlag(SetFlag(flags, FLAG_EQUAL, ValueEquals(a, b)), FLAG_LESS, IsLess(fl, a, b))
  }

  function CompareStep(host: Host, f: Frame, heap: Heap, ins: Instruction): Step
    requires FieldsFit(ins)
  {
    match TwoRegisters(f, ins.A, ins.B)
    case None => Halt(Aborted)
    case Some((a, b)) => Advance(f.(flags := CompareFlags(host.floats, f.flags, a, b)), heap)
  }

  function PushStep(f: Frame, heap: Heap, ins: Instruction): Step
    requires FieldsFit(ins)
  {
    match GetRegister(f, ins.A)
    case None => Halt(Aborted)
    case Some(v) =>
      if |f.stack| >= GENERAL_STACK_SIZE then Fail(StackOverflow)
      else if v.NotPresent? then Halt(Aborted)
      else Advance(f.(stack := f.stack + [v]), heap)
  }

  function PopStep(f: Frame, heap: Heap, ins: Instruction): Step
    requires FieldsFit(ins)
  {
    if f.stack == [] then Fail(StackUnderflow)
    else
      var n := |f.stack| - 1;
      Store(f.(stack := f.stack[..n]), heap, ins.A, f.stack[n])
  }

  function TableGetStep(host: Host, f: Frame, heap: Heap, ins: Instruction): Step
    requires FieldsFit(ins)
  {
    match TwoRegisters(f, ins.B, ins.C)
    case None => Halt(Aborted)
    case Some((table, key)) =>
      if !table.Table? then Fail(NotIndexable)
      else if table.table !in heap.tables then Halt(Undefined)
      else
        var v := MapGet(heap.tables[table.table], host.hash, key);
        Store(f, heap, ins.A, if v.NotPresent? then Nil else v)
  }

  /** Storing into something that is not a table sets an error message that nothing looks at. */
  function TableSetStep(host: Host, f: Frame, heap: Heap, ins: Instruction): Step
    requires FieldsFit(ins)
  {
    match (TwoRegisters(f, ins.A, ins.B), GetRegister(f, ins.C))
    case (Some((table, key)), Some(v)) =>
      if v.NotPresent? then Halt(Aborted)
      else if !table.Table? then Advance(f, heap)
      else if table.table !in heap.tables then Halt(Undefined)
      else
        var m := MapSet(heap.tables[table.table], host.hash, key, v);
        Advance(f, heap.(tables := heap.tables[table.table := m]))
    case _ => Halt(Aborted)
  }

  function LoadPrototypeStep(f: Frame, heap: Heap, ins: Instruction): Step
    requires f.closure.body.Bytecode? && FieldsFit(ins)
  {
    var body := f.closure.body;
    if ins.B >= |body.prototype.prototypes| then Halt(Undefined)
    else if f.closure.env.NotPresent? then Halt(Aborted)
    else
      var c := Closure(heap.next, Bytecode(body.prototype.prototypes[ins.B], body.constants), f.closure.env);
      Store(f, heap.(next := heap.next + 1), ins.A, Fun(c))
  }

  /** The return instruction pushes registers i..i+n; a push onto a full stack fails without notice. */
  function PushRegisters(f: Frame, stack: seq<Value>, i: nat, n: nat): (r: Option<seq<Value>>)
    ensures Live(stack) && r.Some? ==> Live(r.value)
    decreases n
  {
    if n == 0 then Some(stack)
    else match GetRegister(f, i)
      case None => None
      case Some(v) =>
        if |stack| >= GENERAL_STACK_SIZE then PushRegisters(f, stack, i + 1, n - 1)
        else if v.NotPresent? then None
        else PushRegisters(f, stack + [v], i + 1, n - 1)
  }

  function ReturnStep(f: Frame, ins: Instruction): Step
    requires FieldsFit(ins)
  {
    match PushRegisters(f, f.stack, ins.A, ins.B)
    case None => Halt(Aborted)
    case Some(stack) => Finish(f.(stack := stack), ins.B)
  }

  function ConstantStep(f: Frame, heap: Heap, ins: Instruction): Step
    requires f.closure.body.Bytecode? && FieldsFit(ins)
  {
    if ins.B >= |f.closure.body.constants| then Fail(IllegalInstruction)
    else Store(f, heap, ins.A, f.closure.body.constants[ins.B])
  }

  function MoveStep(f: Frame, heap: Heap, ins: Instruction): Step
    requires FieldsFit(ins)
  {
    match GetRegister(f, ins.B)
    case None => Halt(Aborted)
    case Some(v) => Store(f, heap, ins.A, v)
  }

  /** A jump moves the program counter, which then advances by one like after any other instruction. */
  function JumpStep(f: Frame, heap: Heap, target: int, len: nat): Step {
    if target < 0 || target >= len then Fail(BadJump) else Advance(f.(pc := target), heap)
  }

  function ArithOf(opcode: int): Option<ArithOp> {
    if opcode == ADD then Some(Add) else if opcode == SUB then Some(Sub) else if opcode == MUL then Some(Mul)
    else if opcode == DIV then Some(Div) else if opcode == MOD then Some(Mod) else if opcode == POW then Some(Pow)
    else None
  }

  function CodeOf(f: Frame): seq<U64>
    requires f.closure.body.Bytecode?
  {
    f.closure.body.prototype.instructions
  }

  /** Every opcode but the call. */
  function SimpleStep(host: Host, f: Frame, heap: Heap, ins: Instruction): Step
    requires f.closure.body.Bytecode? && FieldsFit(ins) && ins.opcode != CALL
  {
    if ArithOf(ins.opcode).Some? then ArithStep(host, ArithOf(ins.opcode).value, f, heap, ins)
    else if ins.opcode == MOV then MoveStep(f, heap, ins)
    else if ins.opcode == JMP_FORWARD then JumpStep(f, heap, f.pc + ins.A, |CodeOf(f)|)
    else if ins.opcode == JMP_BACKWARD then JumpStep(f, heap, f.pc - ins.A, |CodeOf(f)|)
    else if ins.opcode == CMP then CompareStep(host, f, heap, ins)
    else if ins.opcode == LOAD_PROTOTYPE then LoadPrototypeStep(f, heap, ins)
    else if ins.opcode == GET_CONSTANT then ConstantStep(f, heap, ins)
    else if ins.opcode == STACK_GETTOP then Store(f, heap, ins.A, Long(Wrap(|f.stack| - 1)))
    else if ins.opcode == STACK_POP then PopStep(f, heap, ins)
    else if ins.opcode == STACK_PUSH then PushStep(f, heap, ins)
    else if ins.opcode == TABLE_GET then TableGetStep(host, f, heap, ins)
    else if ins.opcode == TABLE_SET then TableSetStep(host, f, heap, ins)
    else if ins.opcode == RETURN then ReturnStep(f, ins)
    else if ins.opcode == NOP then Advance(f, heap)
    else Fail(IllegalInstruction)
  }

  /** No instruction spoils its frame: the stack stays live and within bounds, the program counter within the
      instructions, and the heap only grows. */
  lemma SimpleStepKeepsFrame(host: Host, f: Frame, heap: Heap, ins: Instruction)
    requires FrameOk(f) && f.closure.body.Bytecode? && FieldsFit(ins) && ins.opcode != CALL
    requires f.pc < |CodeOf(f)|
    ensures var st := SimpleStep(host, f, heap, ins);
            && (st.Next? ==> FrameOk(st.f) && SameActivation(f, st.f) && heap.next <= st.heap.next)
            && (st.Finish? ==> FrameOk(st.f) && SameActivation(f, st.f))
  {
    hide Math, IsLess, ValueEquals, MapGet, MapSet, Wrap;
  }

  // ---------------------------------------------------------------- calls

  function NewFrame(id: Obj, c: Closure, args: seq<Value>): Frame {
    Frame(id, c, if c.body.Bytecode? then seq(REGISTERS_NUM, _ => NotPresent) else [], args, 0, 0)
  }

  /** The prolog takes the lock and pushes a frame. On a full call stack it pops the running frame
      instead and returns with the lock held. */
  datatype PrologResult = Entered(s: State) | Overflowed(s: State) | Blocked

  function Prolog(s: State, c: Closure, args: seq<Value>): PrologResult {
    if s.locked then Blocked
    else if |s.frames| >= s.limit then
      Overflowed(s.(locked := true, frames := if s.frames == [] then [] else s.frames[..|s.frames| - 1]))
    else
      Entered(s.(frames := s.frames + [NewFrame(s.heap.next, c, args)],
                 heap := s.heap.(next := s.heap.next + 1)))
  }

  /** An error jumps to the installed handler; without one the process aborts. */
  function Throw(s: State, why: ErrMsg, left: nat): Result {
    match s.handler
    case None => Result(Stopped(Aborted), s, left)
    case Some(env) => Result(Thrown(env, why), s, left)
  }

  /** The last min(returned, sp) callee slots, cut or padded with nil to count values. */
  function Adjusted(stack: seq<Value>, returned: int, count: nat): (r: seq<Value>)
    ensures |r| == count
    ensures Live(stack) ==> forall i :: 0 <= i < count ==> !r[i].NotPresent?
  {
    var start := if |stack| - returned < 0 then 0 else |stack| - returned;
    seq(count, i requires 0 <= i < count => if start + i < |stack| then stack[start + i] else Nil)
  }

  /** Values pushed one by one until the stack is full. */
  function Filled(stack: seq<Value>, values: seq<Value>): (r: seq<Value>)
    ensures Live(stack) && (forall i :: 0 <= i < |values| ==> !values[i].NotPresent?) ==> Live(r)
  {
    if |stack| + |values| <= GENERAL_STACK_SIZE then stack + values
    else if |stack| >= GENERAL_STACK_SIZE then stack
    else stack + values[..GENERAL_STACK_SIZE - |stack|]
  }

  /** Back in the caller: its stack becomes kept plus results. The call instruction runs the epilog on
      either exit; the native call leaves the callee frame in place when the results do not fit. */
  function Deliver(s: State, kept: seq<Value>, results: seq<Value>, epilogOnError: bool, left: nat): Result
    requires |s.frames| >= 2
  {
    var d := |s.frames| - 1;
    var resumed := s.(frames := s.frames[d - 1 := s.frames[d - 1].(stack := Filled(kept, results))]);
    var popped := resumed.(frames := resumed.frames[..d]);
    if |kept| + |results| <= GENERAL_STACK_SIZE then Result(Returned(0), popped, left)
    else Throw(if epilogOnError then popped else resumed, StackOverflow, left)
  }

  /** t runs one more frame than s, on top of the frames of s. */
  ghost predicate OneDeeper(s: State, t: State)
    requires s.frames != []
  {
    && WF(t) && Extends(s, t) && |t.frames| == |s.frames| + 1
    && t.limit == s.limit && t.handler == s.handler && !s.locked && !t.locked && s.heap.next <= t.heap.next
  }

  lemma EnteredIsOneDeeper(s: State, t: State, c: Closure, args: seq<Value>)
    requires WF(s) && s.frames != [] && Live(args)
    requires Prolog(s, c, args) == Entered(t)
    ensures OneDeeper(s, t) && t.frames[..|s.frames|] == s.frames
  {
  }

  lemma ExtendsTransitive(a: State, b: State, c: State)
    requires a.frames != [] && b.frames != [] && Extends(a, b) && Extends(b, c)
    ensures Extends(a, c)
  {
    var d, e := |a.frames|, |b.frames|;
    if d < e {
      assert c.frames[..e - 1][..d - 1] == c.frames[..d - 1];
      assert b.frames[..e - 1][..d - 1] == b.frames[..d - 1];
      assert c.frames[d - 1] == c.frames[..e - 1][d - 1] == b.frames[d - 1];
    }
  }

  /** A run from t that did not return normally is as good as one from s, if t extends s. */
  lemma KeptBelow(s: State, t: State, r: Result)
    requires s.frames != [] && t.frames != []
    requires Extends(s, t) && t.limit == s.limit && s.heap.next <= t.heap.next
    requires t.handler == s.handler && t.locked == s.locked
    requires Kept(t, r) && (r.out.Returned? ==> |t.frames| == |s.frames|)
    ensures Kept(s, r)
  {
    if Extends(t, r.s) {
      ExtendsTransitive(s, t, r.s);
    }
  }

  lemma DeliverKeeps(s: State, t: State, r: Result, kept: seq<Value>, results: seq<Value>, epilogOnError: bool)
    requires WF(s) && s.frames != [] && OneDeeper(s, t)
    requires Kept(t, r) && r.out.Returned?
    requires Live(kept) && forall i :: 0 <= i < |results| ==> !results[i].NotPresent?
    ensures Kept(s, Deliver(r.s, kept, results, epilogOnError, r.left))
  {
    ExtendsTransitive(s, t, r.s);
    var q := Deliver(r.s, kept, results, epilogOnError, r.left);
    assert FrameOk(r.s.frames[|s.frames| - 1]);
    assert q.s.frames[..|s.frames| - 1] == r.s.frames[..|s.frames| - 1];
  }

  lemma OverflowKeeps(s: State, t: State, c: Closure, args: seq<Value>, why: ErrMsg, left: nat)
    requires WF(s) && s.frames != []
    requires Prolog(s, c, args) == Overflowed(t)
    ensures Kept(s, Throw(t, why, left))
  {
  }

  /** How many results a caller gets that asked for wanted of them; -1 asks for all that the callee's stack holds. */
  function ResultCount(wanted: int, callee: Frame): nat {
    if wanted == -1 then |callee.stack| else if wanted < 0 then 0 else wanted
  }

  /** Runs the callee on top of t and delivers its results to the caller, whose stack below them is kept. */
  ghost function RunCallee(host: Host, s: State, t: State, kept: seq<Value>, wanted: int, epilogOnError: bool,
                           n: nat): (r: Result)
    requires WF(s) && s.frames != [] && OneDeeper(s, t) && Live(kept)
    ensures Kept(s, r) && r.left <= n
    decreases n, 3
  {
    var r := Exec(host, t, n);
    if !r.out.Returned? then KeptBelow(s, t, r); r
    else
      var results := Adjusted(Top(r.s).stack, r.out.count, ResultCount(wanted, Top(r.s)));
      assert FrameOk(Top(r.s));
      DeliverKeeps(s, t, r, kept, results, epilogOnError);
      Deliver(r.s, kept, results, epilogOnError, r.left)
  }

  /** The call instruction: B = 1 asks for as many results as the callee's stack is deep, other B for B - 1;
      C = 0 passes nothing, C = 1 the whole stack, other C the top C - 1 slots. */
  ghost function CallStep(host: Host, s: State, ins: Instruction, n: nat): (r: Result)
    requires WF(s) && s.frames != [] && Top(s).closure.body.Bytecode? && FieldsFit(ins)
    ensures Kept(s, r) && r.left <= n
    decreases n, 5
  {
    var f := Top(s);
    var argsStart := if ins.C > 1 then |f.stack| - (ins.C - 1) else 0;
    if argsStart < 0 then Throw(s, StackUnderflow, n)
    else match GetRegister(f, ins.A)
      case None => Result(Stopped(Aborted), s, n)
      case Some(v) =>
        if v.Nil? then Throw(s, CallNil, n)
        else if v.NotPresent? then Result(Stopped(Aborted), s, n)
        else if !v.Fun? then Throw(s, CallNonCallable, n)
        else CallClosure(host, s, v.closure, if ins.C == 0 then |f.stack| else argsStart,
                         if ins.B == 1 then -1 else if ins.B == 0 then 0 else ins.B - 1, n)
  }

  /** Arguments stay on the caller's stack until the callee has returned. */
  ghost function CallClosure(host: Host, s: State, c: Closure, argsStart: nat, wanted: int, n: nat): (r: Result)
    requires WF(s) && s.frames != [] && argsStart <= |Top(s).stack|
    ensures Kept(s, r) && r.left <= n
    decreases n, 4
  {
    var stack := Top(s).stack;
    assert FrameOk(Top(s));
    match Prolog(s, c, stack[argsStart..])
    case Blocked => Result(Stopped(Deadlocked), s, n)
    case Overflowed(t) =>
      OverflowKeeps(s, t, c, stack[argsStart..], StackOverflow, n);
      Throw(t, StackOverflow, n)
    case Entered(t) =>
      EnteredIsOneDeeper(s, t, c, stack[argsStart..]);
      RunCallee(host, s, t, stack[..argsStart], wanted, true, n)
  }

  /** A call from native code; nargs arguments are taken off the caller's stack before the callee runs. */
  ghost function InterpreterCall(host: Host, s: State, func: Value, nargs: int, nret: int, n: nat): (r: Result)
    requires WF(s) && s.frames != []
    ensures Kept(s, r) && r.left <= n
    decreases n, 4
  {
    var stack := Top(s).stack;
    assert FrameOk(Top(s));
    if !func.Fun? then Result(Stopped(Undefined), s, n)
    else
      var argsStart := if nargs <= 0 then |stack| else if nargs > |stack| then 0 else |stack| - nargs;
      match Prolog(s, func.closure, stack[argsStart..])
      case Blocked => Result(Stopped(Deadlocked), s, n)
      case Overflowed(t) =>
        OverflowKeeps(s, t, func.closure, stack[argsStart..], StackOverflow, n);
        Throw(t, StackOverflow, n)
      case Entered(e) =>
        EnteredIsOneDeeper(s, e, func.closure, stack[argsStart..]);
        if nargs > |stack| then Result(Stopped(Aborted), e, n)
        else
          var t := CallerStack(s, e, stack[..argsStart]);
          RunCallee(host, s, t, stack[..argsStart], nret, false, n)
  }

  /** The state after the arguments have been popped from the caller below the running callee. */
  function CallerStack(s: State, e: State, kept: seq<Value>): (t: State)
    requires WF(s) && s.frames != [] && OneDeeper(s, e) && Live(kept)
    ensures OneDeeper(s, t)
  {
    var d := |s.frames|;
    var t := e.(frames := e.frames[d - 1 := e.frames[d - 1].(stack := kept)]);
    assert FrameOk(e.frames[d - 1]);
    assert t.frames[..d - 1] == e.frames[..d - 1];
    t
  }

  /** Runs the top frame from its beginning. */
  ghost function Exec(host: Host, s: State, n: nat): (r: Result)
    requires WF(s) && s.frames != []
    ensures Kept(s, r) && r.left <= n
    decreases n, 2
  {
    var f := Top(s);
    match f.closure.body
    case Native(address) => RunNative(host, host.funcs(address), s, n)
    case Bytecode(_, _) =>
      var t := WithTop(s, f.(pc := 0));
      var r := Loop(host, t, n);
      KeptBelow(s, t, r);
      r
  }

  /** The fetch loop, from the top frame's program counter on. */
  ghost function Loop(host: Host, s: State, n: nat): (r: Result)
    requires WF(s) && s.frames != [] && Top(s).closure.body.Bytecode?
    ensures Kept(s, r) && r.left <= n
    decreases n, 1
  {
    var f := Top(s);
    if f.pc >= |CodeOf(f)| then Result(Returned(0), s, n)
    else if n == 0 then Result(OutOfSteps, s, 0)
    else
      var ins := Decode(CodeOf(f)[f.pc]);
      if Skipped(ins, f.flags) then
        LoopOn(host, s, s, f.(pc := f.pc + 1), s.heap, n - 1)
      else if ins.opcode == CALL then
        var r := CallStep(host, s, ins, n - 1);
        if !r.out.Returned? then r
        else LoopOn(host, s, r.s, Top(r.s).(pc := f.pc + 1), r.s.heap, r.left)
      else
        hide SimpleStep;
        SimpleStepKeepsFrame(host, f, s.heap, ins);
        match SimpleStep(host, f, s.heap, ins)
        case Next(g, heap) => LoopOn(host, s, s, g, heap, n - 1)
        case Finish(g, count) => Result(Returned(count), WithTop(s, g), n - 1)
        case Fail(why) => Throw(s, why, n - 1)
        case Halt(reason) => Result(Stopped(reason), s, n - 1)
  }

  /** The rest of the loop after one instruction has left the top frame as g and the heap as heap. */
  ghost function LoopOn(host: Host, start: State, s: State, g: Frame, heap: Heap, n: nat): (r: Result)
    requires WF(start) && WF(s) && start.frames != [] && Extends(start, s) && |s.frames| == |start.frames|
    requires s.limit == start.limit && s.handler == start.handler && s.locked == start.locked
    requires FrameOk(g) && SameActivation(g, Top(s)) && g.closure.body.Bytecode?
    requires start.heap.next <= s.heap.next <= heap.next
    ensures Kept(start, r) && r.left <= n
    decreases n, 2
  {
    var t := WithTop(s, g).(heap := heap);
    var r := Loop(host, t, n);
    KeptBelow(start, t, r);
    r
  }

  // ---------------------------------------------------------------- one turn of the loop

  /** The loop of s is about to execute an instruction, and has a step left to do it with. */
  ghost predicate Fetching(s: State, n: nat) {
    && WF(s) && s.frames != [] && Top(s).closure.body.Bytecode?
    && Top(s).pc < |CodeOf(Top(s))| && n > 0
  }

  function Fetched(s: State): Instruction
    requires s.frames != [] && Top(s).closure.body.Bytecode? && Top(s).pc < |CodeOf(Top(s))|
  {
    Decode(CodeOf(Top(s))[Top(s).pc])
  }

  lemma FetchSkip(host: Host, s: State, n: nat)
    requires Fetching(s, n) && Skipped(Fetched(s), Top(s).flags)
    ensures var t := WithTop(s, Top(s).(pc := Top(s).pc + 1));
            WF(t) && Loop(host, s, n) == Loop(host, t, n - 1)
  {
    hide SimpleStep, Skipped, Decode, CallStep;
    var h := Top(s).(pc := Top(s).pc + 1);
    assert WithTop(s, h).(heap := s.heap) == WithTop(s, h);
    assert Loop(host, s, n) == LoopOn(host, s, s, h, s.heap, n - 1);
  }

  lemma FetchNext(host: Host, s: State, n: nat, h: Frame, heap: Heap)
    requires Fetching(s, n) && !Skipped(Fetched(s), Top(s).flags) && Fetched(s).opcode != CALL
    requires SimpleStep(host, Top(s), s.heap, Fetched(s)) == Next(h, heap)
    ensures FrameOk(h) && SameActivation(h, Top(s))
    ensures var t := WithTop(s, h).(heap := heap);
            WF(t) && Loop(host, s, n) == Loop(host, t, n - 1)
  {
    hide SimpleStep, Skipped, Decode, CallStep;
    SimpleStepKeepsFrame(host, Top(s), s.heap, Fetched(s));
    assert Loop(host, s, n) == LoopOn(host, s, s, h, heap, n - 1);
  }

  lemma FetchFinish(host: Host, s: State, n: nat, h: Frame, count: nat)
    requires Fetching(s, n) && !Skipped(Fetched(s), Top(s).flags) && Fetched(s).opcode != CALL
    requires SimpleStep(host, Top(s), s.heap, Fetched(s)) == Finish(h, count)
    ensures Loop(host, s, n) == Result(Returned(count), WithTop(s, h), n - 1)
  {
    hide SimpleStep, Skipped, Decode, CallStep, LoopOn;
  }

  lemma FetchStop(host: Host, s: State, n: nat)
    requires Fetching(s, n) && !Skipped(Fetched(s), Top(s).flags) && Fetched(s).opcode != CALL
    ensures match SimpleStep(host, Top(s), s.heap, Fetched(s))
            case Fail(why) => Loop(host, s, n) == Throw(s, why, n - 1)
            case Halt(reason) => Loop(host, s, n) == Result(Stopped(reason), s, n - 1)
            case _ => true
  {
    hide SimpleStep, Skipped, Decode, CallStep, LoopOn;
  }

  lemma FetchCall(host: Host, s: State, n: nat)
    requires Fetching(s, n) && !Skipped(Fetched(s), Top(s).flags) && Fetched(s).opcode == CALL
    ensures var r := CallStep(host, s, Fetched(s), n - 1);
            if !r.out.Returned? then Loop(host, s, n) == r
            else
              var t := WithTop(r.s, Top(r.s).(pc := Top(s).pc + 1));
              WF(t) && Top(t).closure == Top(s).closure && Loop(host, s, n) == Loop(host, t, r.left)
  {
    hide SimpleStep, Skipped, Decode, CallStep;
    var r := CallStep(host, s, Fetched(s), n - 1);
    if r.out.Returned? {
      var h := Top(r.s).(pc := Top(s).pc + 1);
      assert WithTop(r.s, h).(heap := r.s.heap) == WithTop(r.s, h);
      assert Loop(host, s, n) == LoopOn(host, s, r.s, h, r.s.heap, r.left);
    }
  }

  // ---------------------------------------------------------------- native code

  ghost function RunNative(host: Host, code: NativeCode, s: State, n: nat): (r: Result)
    requires WF(s) && s.frames != []
    ensures Kept(s, r) && r.left <= n
    decreases n, 1
  {
    match code
    case Done(count) => Result(Returned(count), s, n)
    case Do(op, next) =>
      if n == 0 then Result(OutOfSteps, s, 0)
      else match op
        case Api(api) =>
          var q := ApiResult(s, api, n - 1);
          if !q.out.Returned? then q
          else
            var r := RunNative(host, next(ApiStep(Top(s).stack, api).reply), q.s, n - 1);
            KeptBelow(s, q.s, r);
            r
        case LuaError =>
          var stack := Top(s).stack;
          Throw(s, if stack == [] then StackUnderflow else User(stack[|stack| - 1]), n - 1)
        case LuaCall(nargs, nresults) => NativeOn(host, s, LuaCallStep(host, s, nargs, nresults, n - 1), next, n - 1)
        case XpCall(body, onError) => NativeOn(host, s, XpCallStep(host, s, body, onError, n - 1), next, n - 1)
  }

  /** Native code goes on after a call that returned, with what the call returned. */
  ghost function NativeOn(host: Host, s: State, q: Result, next: Reply -> NativeCode, n: nat): (r: Result)
    requires WF(s) && s.frames != [] && Kept(s, q) && q.left <= n
    ensures Kept(s, r) && r.left <= n
    decreases n, 2
  {
    if !q.out.Returned? then q
    else
      var r := RunNative(host, next(Number(q.out.count)), q.s, q.left);
      KeptBelow(s, q.s, r);
      r
  }

  /** lua_call: the function lies below its arguments and is removed from under the results afterwards. */
  ghost function LuaCallStep(host: Host, s: State, nargs: int, nresults: int, n: nat): (r: Result)
    requires WF(s) && s.frames != []
    ensures Kept(s, r) && r.left <= n
    decreases n, 5
  {
    var stack := Top(s).stack;
    if (nresults < 0 && nresults != -1) || nargs < 0 then Throw(s, NegativeCount, n)
    else if |stack| - nargs - 1 < 0 then Throw(s, StackUnderflow, n)
    else
      var position := |stack| - nargs - 1;
      var q := InterpreterCall(host, s, stack[position], nargs, nresults, n);
      if !q.out.Returned? then q
      else
        var r := ApiResult(q.s, Remove(position + 1), q.left);
        KeptBelow(s, q.s, r);
        r
  }

  /** A stack operation on the running frame, as a whole step. */
  function ApiResult(s: State, op: ApiOp, left: nat): (r: Result)
    requires WF(s) && s.frames != []
    ensures Kept(s, r) && r.left == left
  {
    hide ApiStep;
    assert FrameOk(Top(s));
    ApiKeepsLive(Top(s).stack, op);
    match ApiStep(Top(s).stack, op)
    case Halted(reason) => Result(Stopped(reason), s, left)
    case Raised(stack, why) => Throw(WithStack(s, stack), why, left)
    case Replied(stack, _) => Result(Returned(0), WithStack(s, stack), left)
  }

  /** The protected call: returns 1 when the body returned and 0 when an error was caught. The error handler is
      its own jump buffer while the body runs, and still while the error function runs. */
  ghost function XpCallStep(host: Host, s: State, body: NativeCode, onError: Option<NativeCode>, n: nat): (r: Result)
    requires WF(s) && s.frames != []
    ensures Kept(s, r) && r.left <= n && !r.out.Thrown?
    decreases n, 4
  {
    var env := s.heap.next;
    var t := s.(handler := Some(env), heap := s.heap.(next := env + 1));
    var r := RunNative(host, body, t, n);
    match r.out
    case Returned(_) => Result(Returned(1), r.s.(handler := s.handler), r.left)
    case Thrown(target, why) =>
      assert target == env;
      Recover(host, s, r.s, onError, r.left)
    case _ => r
  }

  /** After a jump to the buffer of the protected call made in state s: run the error function, again each time it
      throws, then repair the call stack. */
  ghost function Recover(host: Host, s: State, t: State, onError: Option<NativeCode>, n: nat): (r: Result)
    requires WF(s) && s.frames != [] && WF(t) && t.limit == s.limit && s.heap.next <= t.heap.next
    requires (s.locked ==> t.locked) && (!t.locked ==> Extends(s, t)) && t.handler.Some?
    ensures Kept(s, r) && r.left <= n && !r.out.Thrown?
    ensures t.locked ==> r.s.locked
    decreases n, 3
  {
    match onError
    case None => Repair(s, t, n)
    case Some(code) =>
      if n == 0 then Result(OutOfSteps, t, 0)
      else if t.frames == [] then Result(Stopped(Undefined), t, n - 1)
      else
        var r := RunNative(host, code, t, n - 1);
        ExtendsThrough(s, t, r);
        match r.out
        case Returned(_) => Repair(s, r.s, r.left)
        case Thrown(target, _) =>
          assert target == t.handler.value;
          Recover(host, s, r.s, onError, r.left)
        case _ => r
  }

  lemma ExtendsThrough(s: State, t: State, r: Result)
    requires s.frames != [] && t.frames != [] && (!t.locked ==> Extends(s, t)) && Kept(t, r)
    ensures !r.s.locked ==> Extends(s, r.s)
  {
    if !r.s.locked {
      ExtendsTransitive(s, t, r.s);
    }
  }

  /** The call stack is popped back to the frame that made the protected call, and the handler is restored. */
  ghost function Repair(s: State, t: State, n: nat): (r: Result)
    requires WF(s) && s.frames != [] && WF(t) && t.limit == s.limit && s.heap.next <= t.heap.next
    requires (s.locked ==> t.locked) && (!t.locked ==> Extends(s, t)) && t.handler.Some?
    ensures Kept(s, r) && r.left <= n && !r.out.Thrown?
    ensures t.locked ==> r.s.locked
  {
    if t.locked then Result(Stopped(Deadlocked), t, n)
    else
      UnwindStopsAtCaller(t, |s.frames| - 1, t.frames);
      Result(Returned(0), t.(frames := Unwind(t.frames, Top(s).id).value, handler := s.handler), n)
  }

  /** The task of a coroutine's fiber: runs the first frame under a jump buffer of its own. It ends with 1 and the
      frame popped when the function returned, and with 0, keeping the call stack, when an error reached the buffer. */
  ghost function FiberBody(host: Host, s: State, n: nat): (r: Result)
    requires WF(s) && s.frames != []
    ensures WF(r.s) && r.left <= n && !r.out.Thrown?
    ensures r.out.Returned? ==> r.s.handler == None && (r.out.count == 0 || r.out.count == 1)
    ensures r.out == Returned(1) ==> r.s.frames == s.frames[..|s.frames| - 1] && !r.s.locked
  {
    var env := s.heap.next;
    var q := Exec(host, s.(handler := Some(env), heap := s.heap.(next := env + 1)), n);
    match q.out
    case Returned(_) =>
      if q.s.locked then Result(Stopped(Deadlocked), q.s, q.left)
      else Result(Returned(1), q.s.(frames := q.s.frames[..|q.s.frames| - 1], handler := None), q.left)
    case Thrown(target, _) =>
      assert target == env;
      Result(Returned(0), q.s.(handler := None), q.left)
    case _ => q
  }

  /** The unwinding loop: pops frames until the caller's is on top; None where it would pop an empty stack. */
  function Unwind(frames: seq<Frame>, caller: Obj): Option<seq<Frame>> {
    if frames == [] then None
    else if frames[|frames| - 1].id == caller then Some(frames)
    else Unwind(frames[..|frames| - 1], caller)
  }

  /** Unwinding to a frame still on the stack stops at that very frame. */
  lemma {:induction false} UnwindStopsAtCaller(t: State, k: nat, frames: seq<Frame>)
    requires WF(t) && k < |frames| <= |t.frames| && frames == t.frames[..|frames|]
    ensures Unwind(frames, t.frames[k].id) == Some(t.frames[..k + 1])
    decreases |frames|
  {
    var last := |frames| - 1;
    if k < last {
      assert t.frames[k].id < t.frames[last].id;
      UnwindStopsAtCaller(t, k, frames[..last]);
    }
  }
}
