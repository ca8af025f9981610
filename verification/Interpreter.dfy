/** The interpreter in place: a coroutine with its call stack of activation records, the recursive
    execution loop, calls from bytecode and from native code, and protected calls. */
module Interpreter {
  import opened Values
  import opened Instructions
  import opened LuaStack
  import opened Machine
  import opened Stacks
  import opened CallStates
  import Executor

  // ---------------------------------------------------------------- sequences of activation records

  ghost function Footprint(cs: seq<CallState>): set<object> {
    if cs == [] then {} else Footprint(cs[..|cs| - 1]) + cs[|cs| - 1].Repr()
  }

  /** Every record is valid and shares no storage with the ones below it. */
  ghost predicate AllValid(cs: seq<CallState>)
    reads Footprint(cs)
  {
    cs == [] ||
    (AllValid(cs[..|cs| - 1]) && cs[|cs| - 1].Valid() && cs[|cs| - 1].Repr() !! Footprint(cs[..|cs| - 1]))
  }

  ghost function FramesOf(cs: seq<CallState>): (fs: seq<Frame>)
    requires AllValid(cs)
    reads Footprint(cs)
    ensures |fs| == |cs|
  {
    if cs == [] then [] else FramesOf(cs[..|cs| - 1]) + [cs[|cs| - 1].Abs()]
  }

  lemma DropLast(cs: seq<CallState>)
    requires AllValid(cs) && cs != []
    ensures var rest, top := cs[..|cs| - 1], cs[|cs| - 1];
            && AllValid(rest) && top.Valid() && top.Repr() !! Footprint(rest)
            && FramesOf(cs) == FramesOf(rest) + [top.Abs()] && FramesOf(rest) == FramesOf(cs)[..|cs| - 1]
            && Footprint(cs) == Footprint(rest) + top.Repr()
  {
    hide CallState.Valid, CallState.Abs, CallState.Repr, FrameOk;
  }

  lemma AddLast(cs: seq<CallState>, c: CallState)
    requires AllValid(cs) && c.Valid() && c.Repr() !! Footprint(cs)
    ensures AllValid(cs + [c]) && FramesOf(cs + [c]) == FramesOf(cs) + [c.Abs()]
    ensures Footprint(cs + [c]) == Footprint(cs) + c.Repr()
  {
    var ds := cs + [c];
    assert ds[..|ds| - 1] == cs;
  }

  lemma RecordAt(cs: seq<CallState>, i: nat)
    requires AllValid(cs) && i < |cs|
    ensures cs[i].Valid() && FramesOf(cs)[i] == cs[i].Abs() && cs[i].Repr() <= Footprint(cs)
  {
    if i < |cs| - 1 {
      RecordAt(cs[..|cs| - 1], i);
    }
  }

  /** After a change to the top record only. */
  lemma RebuildTop(cs: seq<CallState>)
    requires cs != [] && AllValid(cs[..|cs| - 1])
    requires cs[|cs| - 1].Valid() && cs[|cs| - 1].Repr() !! Footprint(cs[..|cs| - 1])
    ensures AllValid(cs) && FramesOf(cs) == FramesOf(cs[..|cs| - 1]) + [cs[|cs| - 1].Abs()]
  {
  }

  /** The two records on top, and the ones below them. */
  lemma SplitTwo(cs: seq<CallState>)
    requires AllValid(cs) && |cs| >= 2
    ensures var rest, a, b := cs[..|cs| - 2], cs[|cs| - 2], cs[|cs| - 1];
            && AllValid(rest) && a.Valid() && b.Valid()
            && a.Repr() !! Footprint(rest) && b.Repr() !! Footprint(rest) && a.Repr() !! b.Repr()
            && FramesOf(cs) == FramesOf(rest) + [a.Abs(), b.Abs()]
            && Footprint(cs) == Footprint(rest) + a.Repr() + b.Repr()
  {
    var upper := cs[..|cs| - 1];
    assert upper[..|upper| - 1] == cs[..|cs| - 2];
  }

  lemma RebuildTwo(cs: seq<CallState>)
    requires |cs| >= 2
    requires var rest, a, b := cs[..|cs| - 2], cs[|cs| - 2], cs[|cs| - 1];
             && AllValid(rest) && a.Valid() && b.Valid()
             && a.Repr() !! Footprint(rest) && b.Repr() !! Footprint(rest) && a.Repr() !! b.Repr()
    ensures AllValid(cs)
    ensures FramesOf(cs) == FramesOf(cs[..|cs| - 2]) + [cs[|cs| - 2].Abs(), cs[|cs| - 1].Abs()]
  {
    var upper := cs[..|cs| - 1];
    assert upper[..|upper| - 1] == cs[..|cs| - 2];
    RebuildTop(upper);
    assert Footprint(upper) == Footprint(cs[..|cs| - 2]) + cs[|cs| - 2].Repr();
    RebuildTop(cs);
  }

  lemma OkWithoutTop(frames: seq<Frame>, limit: nat, next: Obj)
    requires FramesOk(frames, limit, next) && frames != []
    ensures FramesOk(frames[..|frames| - 1], limit, next)
  {
  }

  lemma OkWithNew(frames: seq<Frame>, limit: nat, next: Obj, c: Closure)
    requires FramesOk(frames, limit, next) && |frames| < limit
    ensures FramesOk(frames + [NewFrame(next, c, [])], limit, next + 1)
  {
  }

  datatype PrologSignal = FrameEntered | FrameOverflow | LockBlocked

  class Coroutine {
    const callStack: Stack<CallState>
    ghost var frames: seq<CallState>
    ghost var footprint: set<object>
    var currentCallState: CallState?
    var errorHandler: Option<nat>
    var callStackLock: bool
    var heap: Heap

    ghost function Repr(): set<object>
      reads this
    {
      {this, callStack, callStack.stack} + footprint
    }

    /** The records on the call stack are valid and disjoint, and the top one is current. */
    ghost predicate Shape()
      reads this, callStack, callStack.stack, footprint
    {
      && callStack.Valid() && callStack.stackSize > 0 && callStack.Contents() == frames
      && footprint == Footprint(frames) && {this, callStack, callStack.stack} !! footprint
      && AllValid(frames)
      && currentCallState == (if frames == [] then null else frames[|frames| - 1])
    }

    ghost function Abs(): State
      requires Shape()
      reads this, callStack, callStack.stack, footprint
    {
      State(FramesOf(frames), callStack.stackSize, callStackLock, errorHandler, heap)
    }

    ghost predicate Valid()
      reads this, callStack, callStack.stack, footprint
    {
      Shape() && WF(Abs())
    }

    /** A new coroutine has one frame, for its function. */
    constructor (func: Closure, heap: Heap, callStackSize: nat)
      requires callStackSize > 0
      ensures Valid() && fresh(Repr())
      ensures Abs() == State([NewFrame(heap.next, func, [])], callStackSize, false, None, heap.(next := heap.next + 1))
    {
      hide CallState.Valid, CallState.Abs, FrameOk;
      callStack := new Stack<CallState>(callStackSize);
      frames := [];
      footprint := {};
      currentCallState := null;
      errorHandler := None;
      callStackLock := false;
      this.heap := heap;
      new;
      var r := FunctionProlog(func);
    }

    // -------------------------------------------------------------- frames

    method FunctionProlog(c: Closure) returns (r: PrologSignal)
      requires Valid()
      modifies this`frames, this`footprint, this`currentCallState, this`callStackLock, this`heap
      modifies callStack`sp, callStack.stack
      ensures Valid()
      ensures fresh(Repr() - old(Repr()))
      ensures match Prolog(old(Abs()), c, [])
              case Entered(t) =>
                && r == FrameEntered && Abs() == t
                && |frames| == |old(frames)| + 1 && frames[..|old(frames)|] == old(frames)
                && fresh(frames[|old(frames)|].Repr())
              case Overflowed(t) => r == FrameOverflow && Abs() == t
              case Blocked => r == LockBlocked && Abs() == old(Abs()) && frames == old(frames)
    {
      hide CallState.Repr;
      hide FramesOk, Footprint, AllValid, FramesOf, FrameOk;
      hide CallState.Valid, CallState.Abs, Stack.Contents, Stack.Valid;
      if callStackLock {
        return LockBlocked;
      }
      var callState := new CallState(heap.next, c);
      callStackLock := true;
      var ok := PushFrame(callState, c);
      if !ok {
        InternalFunctionEpilog();
        return FrameOverflow;
      }
      callStackLock := false;
      r := FrameEntered;
    }

    method PushFrame(callState: CallState, ghost c: Closure) returns (ok: bool)
      requires Valid() && callState.Valid() && callState.Repr() !! Repr()
      requires callState.Abs() == NewFrame(heap.next, c, [])
      modifies this`frames, this`footprint, this`currentCallState, this`heap, callStack`sp, callStack.stack
      ensures Valid() && ok == (|old(frames)| < callStack.stackSize)
      ensures var s := old(Abs());
              Abs() == if ok
                       then s.(frames := s.frames + [NewFrame(s.heap.next, c, [])],
                               heap := s.heap.(next := s.heap.next + 1))
                       else s
      ensures frames == if ok then old(frames) + [callState] else old(frames)
      ensures footprint == if ok then old(footprint) + callState.Repr() else old(footprint)
    {
      hide CallState.Repr, NewFrame;
      hide FramesOk, Footprint, AllValid, FramesOf, FrameOk;
      hide CallState.Valid, CallState.Abs, Stack.Contents, Stack.Valid;
      ok := callStack.Push(callState);
      if ok {
        heap := heap.(next := heap.next + 1);
        currentCallState := callState;
        AddLast(frames, callState);
        frames, footprint := frames + [callState], footprint + callState.Repr();
        OkWithNew(old(Abs()).frames, callStack.stackSize, old(heap).next, c);
      }
    }

    method InternalFunctionEpilog()
      requires Shape() && WF(Abs()) && frames != []
      modifies this`frames, this`footprint, this`currentCallState, callStack`sp, callStack.stack
      ensures Valid()
      ensures frames == old(frames)[..|old(frames)| - 1] && footprint <= old(footprint)
      ensures Abs() == old(Abs()).(frames := old(Abs()).frames[..|old(frames)| - 1])
    {
      hide CallState.Repr, Coroutine.Repr;
      hide FramesOk, Footprint, AllValid, FramesOf, FrameOk;
      hide CallState.Valid, CallState.Abs, Stack.Contents, Stack.Valid;
      DropLast(frames);
      OkWithoutTop(FramesOf(frames), callStack.stackSize, heap.next);
      ghost var rest := frames[..|frames| - 1];
      ghost var below := FramesOf(rest);
      var tmp := callStack.Pop();
      assert AllValid(rest) && FramesOf(rest) == below;
      frames := rest;
      footprint := Footprint(rest);
      var top := callStack.Peek();
      currentCallState := if top.Some? then top.value else null;
    }

    method FunctionEpilog()
      requires Valid() && frames != [] && !callStackLock
      modifies this`frames, this`footprint, this`currentCallState, this`callStackLock, callStack`sp, callStack.stack
      ensures Valid()
      ensures frames == old(frames)[..|old(frames)| - 1] && footprint <= old(footprint)
      ensures Abs() == old(Abs()).(frames := old(Abs()).frames[..|old(frames)| - 1])
    {
      hide FramesOk, Footprint, AllValid, FramesOf, FrameOk;
      hide CallState.Valid, CallState.Abs, Stack.Contents, Stack.Valid;
      callStackLock := true;
      InternalFunctionEpilog();
      callStackLock := false;
    }

    /** The prolog, and the top slots of the caller's stack from argsStart on copied onto the new frame's stack. */
    method Enter(c: Closure, argsStart: nat) returns (r: PrologSignal)
      requires Valid() && frames != [] && argsStart <= currentCallState.sp
      modifies Repr()
      ensures Valid() && fresh(Repr() - old(Repr()))
      ensures match Prolog(old(Abs()), c, Top(old(Abs())).stack[argsStart..])
              case Entered(t) => r == FrameEntered && Abs() == t && |frames| == |old(frames)| + 1
                                 && frames[..|old(frames)|] == old(frames)
              case Overflowed(t) => r == FrameOverflow && Abs() == t
              case Blocked => r == LockBlocked && Abs() == old(Abs()) && frames == old(frames)
    {
      hide FramesOk, Footprint, AllValid, FramesOf, FrameOk;
      hide CallState.Valid, CallState.Abs, Stack.Contents, Stack.Valid;
      ghost var s := Abs();
      TopRecord();
      var caller := currentCallState;
      r := FunctionProlog(c);
      if r == FrameEntered {
        ghost var stack := Top(s).stack;
        ghost var t := Prolog(s, c, []).s;
        CopyArguments(caller, argsStart);
        EnteredIsOneDeeper(s, Prolog(s, c, stack[argsStart..]).s, c, stack[argsStart..]);
        assert Abs().frames == s.frames + [NewFrame(s.heap.next, c, stack[argsStart..])];
      }
    }

    /** The current record is the top frame. */
    lemma TopRecord()
      requires Shape() && frames != []
      ensures currentCallState == frames[|frames| - 1] && currentCallState.Valid()
      ensures currentCallState.Abs() == Top(Abs()) && currentCallState.Repr() <= footprint
      ensures Top(Abs()).stack == currentCallState.Slots() && |Top(Abs()).stack| == currentCallState.sp
      ensures Top(Abs()).id == currentCallState.id && Top(Abs()).closure == currentCallState.closure
      ensures Top(Abs()).pc == currentCallState.pc && Top(Abs()).flags == currentCallState.flagRegister
    {
      RecordAt(frames, |frames| - 1);
    }

    method CopyArguments(caller: CallState, argsStart: nat)
      requires Shape() && |frames| >= 2 && caller == frames[|frames| - 2] && Top(Abs()).stack == []
      requires argsStart <= |Abs().frames[|frames| - 2].stack|
      modifies footprint
      ensures Shape() && frames == old(frames) && footprint == old(footprint)
      ensures var s := old(Abs());
              var args := s.frames[|frames| - 2].stack[argsStart..];
              Abs() == WithTop(s, Top(s).(stack := args))
    {
      hide FramesOk, Footprint, AllValid, FramesOf, FrameOk, CallState.Valid, Stack.Contents, Stack.Valid;
      SplitTwo(frames);
      ghost var lower, rest := frames[..|frames| - 2], FramesOf(frames[..|frames| - 2]);
      ghost var values := caller.Slots()[argsStart..];
      var callee := currentCallState;
      caller.PushOnto(callee, argsStart, caller.sp - argsStart);
      assert FramesOf(lower) == rest;
      RebuildTwo(frames);
      MovedToEmpty(values);
    }

    // -------------------------------------------------------------- errors

    /** The jump to the installed handler, or the abort without one. */
    method Raise(why: ErrMsg) returns (out: Outcome)
      requires Shape()
      ensures forall left :: Throw(Abs(), why, left) == Result(out, Abs(), left)
    {
      if errorHandler.None? {
        return Stopped(Aborted);
      }
      return Thrown(errorHandler.value, why);
    }

    /** The outcome, the steps left and, unless the process stopped, the state are what the specification says. */
    ghost predicate Agrees(out: Outcome, left: nat, r: Result)
      requires Shape()
      reads this, callStack, callStack.stack, footprint
    {
      out == r.out && left == r.left && (!out.Stopped? ==> Abs() == r.s)
    }

    // -------------------------------------------------------------- the running frame

    /** A stack operation of the API on the running frame. */
    method ApiOnTop(op: ApiOp) returns (sig: ApiSignal)
      requires Valid() && frames != []
      modifies footprint
      ensures Valid() && frames == old(frames) && footprint == old(footprint)
      ensures match ApiStep(Top(old(Abs())).stack, op)
              case Replied(stack, reply) => sig == ApiReply(reply) && Abs() == WithStack(old(Abs()), stack)
              case Raised(stack, why) => sig == ApiError(why) && Abs() == WithStack(old(Abs()), stack)
              case Halted(reason) => sig == ApiHalt(reason)
    {
      hide Footprint, AllValid, FramesOf, FrameOk, FramesOk, CallState.Valid, Stack.Contents, Stack.Valid, ApiStep;
      ghost var s := Abs();
      TopRecord();
      DropLast(frames);
      ghost var rest := frames[..|frames| - 1];
      ghost var below := FramesOf(rest);
      sig := currentCallState.Api(op);
      assert AllValid(rest) && FramesOf(rest) == below;
      RebuildTop(frames);
      assert Abs() == WithTop(s, currentCallState.Abs()).(heap := s.heap);
      TopReplacedOk(s, currentCallState.Abs(), s.heap);
    }

    /** Any instruction but the call, on the running frame. */
    method ExecuteOnTop(host: Host, ins: Instruction) returns (sig: Signal)
      requires Valid() && frames != [] && Top(Abs()).closure.body.Bytecode?
      requires Top(Abs()).pc < |CodeOf(Top(Abs()))| && FieldsFit(ins) && ins.opcode != CALL
      modifies footprint, this`heap
      ensures Valid() && frames == old(frames) && footprint == old(footprint)
      ensures match SimpleStep(host, Top(old(Abs())), old(heap), ins)
              case Next(f, h) => sig == Continue && Abs() == WithTop(old(Abs()), f).(heap := h)
              case Finish(f, count) => sig == Finished(count) && Abs() == WithTop(old(Abs()), f)
              case Fail(why) => sig == Failed(why) && Abs() == old(Abs())
              case Halt(reason) => sig == Died(reason)
    {
      hide Footprint, AllValid, FramesOf, FrameOk, FramesOk, CallState.Valid, Stack.Contents, Stack.Valid, SimpleStep;
      ghost var s := Abs();
      TopRecord();
      DropLast(frames);
      ghost var rest := frames[..|frames| - 1];
      ghost var below := FramesOf(rest);
      var heap';
      sig, heap' := Executor.Execute(host, currentCallState, heap, ins);
      heap := heap';
      assert AllValid(rest) && FramesOf(rest) == below;
      RebuildTop(frames);
      SimpleStepKeepsHeap(host, Top(s), s.heap, ins);
      assert Abs() == WithTop(s, currentCallState.Abs()).(heap := heap);
      TopReplacedOk(s, currentCallState.Abs(), heap);
    }

    method SetPc(pc: nat)
      requires Shape() && frames != []
      requires Top(Abs()).closure.body.Bytecode? ==> pc <= |CodeOf(Top(Abs()))|
      modifies footprint
      ensures Shape() && frames == old(frames) && footprint == old(footprint)
      ensures Abs() == WithTop(old(Abs()), Top(old(Abs())).(pc := pc))
    {
      hide Footprint, AllValid, FramesOf, FrameOk, Stack.Contents, Stack.Valid;
      TopRecord();
      DropLast(frames);
      ghost var rest := frames[..|frames| - 1];
      ghost var below := FramesOf(rest);
      currentCallState.pc := pc;
      assert AllValid(rest) && FramesOf(rest) == below;
      RebuildTop(frames);
    }

    // -------------------------------------------------------------- calls

    /** The results of the callee on top go onto the stack of its caller, whose arguments come off it. */
    method DeliverResults(caller: CallState, taken: nat, retCount: int, count: nat) returns (ok: bool)
      requires Shape() && |frames| >= 2 && caller == frames[|frames| - 2]
      requires taken <= |Abs().frames[|frames| - 2].stack|
      modifies footprint
      ensures Shape() && frames == old(frames) && footprint == old(footprint)
      ensures var s := old(Abs());
              var d := |frames| - 2;
              var f := s.frames[d];
              var kept := f.stack[..|f.stack| - taken];
              && ok == (|kept| + count <= GENERAL_STACK_SIZE)
              && Abs()
                 == s.(frames := s.frames[d := f.(stack := Filled(kept, Adjusted(Top(s).stack, retCount, count)))])
    {
      hide Footprint, AllValid, FramesOf, FrameOk, CallState.Valid, Stack.Contents, Stack.Valid, Filled, Adjusted;
      hide WF, Live;
      SplitTwo(frames);
      ghost var lower, rest := frames[..|frames| - 2], FramesOf(frames[..|frames| - 2]);
      ok := currentCallState.FinishCall(caller, taken, retCount, count);
      assert FramesOf(lower) == rest;
      RebuildTwo(frames);
    }

    /** The callee on top has returned: its results go to its caller and its frame goes away. */
    method FinishRun(caller: CallState, taken: nat, retCount: int, wanted: int, epilogOnError: bool, n: nat)
      returns (out: Outcome)
      requires Shape() && WF(Abs()) && |frames| >= 2 && caller == frames[|frames| - 2] && !callStackLock
      requires taken <= |Abs().frames[|frames| - 2].stack|
      modifies Repr()
      ensures Valid() && footprint <= old(footprint)
      ensures var s := old(Abs());
              var stack := s.frames[|s.frames| - 2].stack;
              var results := Adjusted(Top(s).stack, retCount, ResultCount(wanted, Top(s)));
              var r := Deliver(s, stack[..|stack| - taken], results, epilogOnError, n);
              out == r.out && Abs() == r.s && r.left == n
      ensures old(frames)[..|old(frames)| - 1] <= frames
      ensures out.Returned? ==> frames == old(frames)[..|old(frames)| - 1]
    {
      hide FramesOk, Footprint, AllValid, FramesOf, FrameOk;
      hide CallState.Valid, CallState.Abs, Stack.Contents, Stack.Valid;
      hide Adjusted, Filled;
      ghost var s := Abs();
      var count := ResultsWanted(wanted);
      var ok := DeliverResults(caller, taken, retCount, count);
      DeliveredOk(s, taken, retCount, count);
      if ok {
        FunctionEpilog();
        out := Returned(0);
      } else {
        if epilogOnError {
          FunctionEpilog();
        }
        out := Raise(StackOverflow);
      }
    }

    /** Runs the callee on top and hands its results to its caller. */
    method RunCallee(host: Host, caller: CallState, ghost s: State, taken: nat, wanted: int, epilogOnError: bool,
                     n: nat)
      returns (out: Outcome, left: nat)
      requires Valid() && |frames| >= 2 && caller == frames[|frames| - 2]
      requires WF(s) && s.frames != [] && OneDeeper(s, Abs())
      requires taken <= |Abs().frames[|frames| - 2].stack|
      modifies Repr()
      ensures Valid() && fresh(Repr() - old(Repr()))
      ensures var stack := old(Abs().frames[|frames| - 2].stack);
              var kept := stack[..|stack| - taken];
              Live(kept) && Agrees(out, left, Machine.RunCallee(host, s, old(Abs()), kept, wanted, epilogOnError, n))
      ensures !out.Stopped? && !callStackLock ==> old(frames)[..|old(frames)| - 1] <= frames
      ensures out.Returned? ==> frames == old(frames)[..|old(frames)| - 1]
      decreases n, 3
    {
      hide FramesOk, Footprint, AllValid, FramesOf, FrameOk;
      hide CallState.Valid, CallState.Abs, Stack.Contents, Stack.Valid;
      hide Adjusted, Filled, Deliver, Machine.Exec;
      ghost var t := Abs();
      ghost var d := |frames| - 2;
      ghost var kept := t.frames[d].stack[..|t.frames[d].stack| - taken];
      KeptIsLive(t, d, taken);
      out, left := Exec(host, n);
      if out.Returned? {
        CallerUntouched(t, Machine.Exec(host, t, n));
        out := FinishRun(caller, taken, out.count, wanted, epilogOnError, left);
      }
    }

    method ResultsWanted(wanted: int) returns (count: nat)
      requires Shape() && frames != []
      ensures count == ResultCount(wanted, Top(Abs()))
    {
      TopRecord();
      count := if wanted == -1 then currentCallState.sp else if wanted < 0 then 0 else wanted;
    }

    /** Runs the top frame from its beginning. */
    method Exec(host: Host, n: nat) returns (out: Outcome, left: nat)
      requires Valid() && frames != []
      modifies Repr()
      ensures Valid() && fresh(Repr() - old(Repr()))
      ensures Agrees(out, left, Machine.Exec(host, old(Abs()), n))
      ensures !out.Stopped? && !callStackLock ==> old(frames) <= frames
      ensures out.Returned? ==> frames == old(frames)
      decreases n, 2
    {
      hide FramesOk, Footprint, AllValid, FramesOf, FrameOk;
      hide CallState.Valid, CallState.Abs, Stack.Contents, Stack.Valid;
      hide Machine.Loop, Machine.RunNative;
      TopRecord();
      TopFrameOk(Abs());
      match currentCallState.closure.body
      case Native(address) => out, left := RunNative(host, host.funcs(address), n);
      case Bytecode(_, _) =>
        PcOk(Abs(), 0);
        SetPc(0);
        out, left := Loop(host, n);
    }

    /** The fetch loop. */
    method Loop(host: Host, n: nat) returns (out: Outcome, left: nat)
      requires Valid() && frames != [] && Top(Abs()).closure.body.Bytecode?
      modifies Repr()
      ensures Valid() && fresh(Repr() - old(Repr()))
      ensures Agrees(out, left, Machine.Loop(host, old(Abs()), n))
      ensures !out.Stopped? && !callStackLock ==> old(frames) <= frames
      ensures out.Returned? ==> frames == old(frames)
      decreases n, 1
    {
      hide FramesOk, Footprint, AllValid, FramesOf, FrameOk;
      hide CallState.Valid, CallState.Abs, Stack.Contents, Stack.Valid;
      hide Machine.Loop, SimpleStep, Skipped, Decode, CallStep;
      ghost var goal := Machine.Loop(host, Abs(), n);
      left := n;
      while true
        invariant Valid() && frames == old(frames) && Top(Abs()).closure == Top(old(Abs())).closure
        invariant left <= n && Machine.Loop(host, Abs(), left) == goal
        decreases left
      {
        TopRecord();
        var callState := currentCallState;
        var instructions := callState.closure.body.prototype.instructions;
        if callState.pc >= |instructions| {
          LoopEnds(host, Abs(), left);
          return Returned(0), left;
        }
        if left == 0 {
          LoopEnds(host, Abs(), left);
          return OutOfSteps, 0;
        }
        var ins := Decode(instructions[callState.pc]);
        if Skipped(ins, callState.flagRegister) {
          FetchSkip(host, Abs(), left);
          SetPc(callState.pc + 1);
          left := left - 1;
        } else if ins.opcode == CALL {
          out, left := CallTurn(host, ins, left);
          if !out.Returned? {
            return;
          }
        } else {
          var done;
          done, out := Turn(host, ins, left);
          left := left - 1;
          if done {
            return;
          }
        }
      }
    }

    /** One turn of the loop with a call. */
    method CallTurn(host: Host, ins: Instruction, n: nat) returns (out: Outcome, left: nat)
      requires Valid() && Fetching(Abs(), n) && ins == Fetched(Abs())
      requires !Skipped(ins, Top(Abs()).flags) && ins.opcode == CALL
      modifies Repr()
      ensures Valid() && fresh(Repr() - old(Repr())) && left < n
      ensures if !out.Returned? then Agrees(out, left, Machine.Loop(host, old(Abs()), n))
              else frames == old(frames) && Top(Abs()).closure == Top(old(Abs())).closure
                   && Machine.Loop(host, old(Abs()), n) == Machine.Loop(host, Abs(), left)
      ensures !out.Stopped? && !callStackLock ==> old(frames) <= frames
      decreases n, 0
    {
      hide FramesOk, Footprint, AllValid, FramesOf, FrameOk;
      hide CallState.Valid, CallState.Abs, Stack.Contents, Stack.Valid;
      hide Machine.Loop, SimpleStep, Skipped, Decode, CallStep;
      FetchCall(host, Abs(), n);
      TopRecord();
      var pc := currentCallState.pc;
      out, left := Call(host, ins, n - 1);
      if out.Returned? {
        TopRecord();
        SetPc(pc + 1);
      }
    }

    /** One turn of the loop with an instruction that is not a call. */
    method Turn(host: Host, ins: Instruction, n: nat) returns (done: bool, out: Outcome)
      requires Valid() && Fetching(Abs(), n) && ins == Fetched(Abs())
      requires !Skipped(ins, Top(Abs()).flags) && ins.opcode != CALL
      modifies footprint, this`heap
      ensures Valid() && frames == old(frames) && footprint == old(footprint)
      ensures if done then Agrees(out, n - 1, Machine.Loop(host, old(Abs()), n))
              else Top(Abs()).closure == Top(old(Abs())).closure
                   && Machine.Loop(host, old(Abs()), n) == Machine.Loop(host, Abs(), n - 1)
      ensures done ==> (out.Returned? || out.Thrown? || out.Stopped?)
    {
      hide FramesOk, Footprint, AllValid, FramesOf, FrameOk;
      hide CallState.Valid, CallState.Abs, Stack.Contents, Stack.Valid;
      hide Machine.Loop, SimpleStep, Skipped, Decode;
      ghost var s := Abs();
      FetchStop(host, s, n);
      var sig := ExecuteOnTop(host, ins);
      done, out := true, OutOfSteps;
      match sig
      case Continue =>
        FetchNext(host, s, n, SimpleStep(host, Top(s), s.heap, ins).f, SimpleStep(host, Top(s), s.heap, ins).heap);
        done := false;
      case Finished(count) =>
        FetchFinish(host, s, n, SimpleStep(host, Top(s), s.heap, ins).f, count);
        out := Returned(count);
      case Failed(why) =>
        out := Raise(why);
      case Died(reason) =>
        out := Stopped(reason);
    }

    /** The call instruction. */
    method Call(host: Host, ins: Instruction, n: nat) returns (out: Outcome, left: nat)
      requires Valid() && frames != [] && Top(Abs()).closure.body.Bytecode? && FieldsFit(ins)
      modifies Repr()
      ensures Valid() && fresh(Repr() - old(Repr()))
      ensures Agrees(out, left, CallStep(host, old(Abs()), ins, n))
      ensures !out.Stopped? && !callStackLock ==> old(frames) <= frames
      ensures out.Returned? ==> frames == old(frames)
      decreases n, 5
    {
      hide FramesOk, Footprint, AllValid, FramesOf, FrameOk;
      hide CallState.Valid, CallState.Abs, Stack.Contents, Stack.Valid;
      hide CallClosure;
      TopRecord();
      var callState := currentCallState;
      var argsStart := 0;
      if ins.C > 1 {
        argsStart := callState.sp - (ins.C - 1);
      }
      left := n;
      if argsStart < 0 {
        out := Raise(StackUnderflow);
        return;
      }
      var v := callState.GetRegister(ins.A);
      if v.None? {
        return Stopped(Aborted), n;
      }
      if v.value.Nil? {
        out := Raise(CallNil);
        return;
      }
      if v.value.NotPresent? {
        return Stopped(Aborted), n;
      }
      if !v.value.Fun? {
        out := Raise(CallNonCallable);
        return;
      }
      var wanted := if ins.B == 1 then -1 else if ins.B == 0 then 0 else ins.B - 1;
      out, left := CallFunction(host, v.value.closure, if ins.C == 0 then callState.sp else argsStart, wanted, n);
    }

    method CallFunction(host: Host, c: Closure, argsStart: nat, wanted: int, n: nat) returns (out: Outcome, left: nat)
      requires Valid() && frames != [] && argsStart <= |Top(Abs()).stack|
      modifies Repr()
      ensures Valid() && fresh(Repr() - old(Repr()))
      ensures Agrees(out, left, CallClosure(host, old(Abs()), c, argsStart, wanted, n))
      ensures !out.Stopped? && !callStackLock ==> old(frames) <= frames
      ensures out.Returned? ==> frames == old(frames)
      decreases n, 4
    {
      hide FramesOk, Footprint, AllValid, FramesOf, FrameOk;
      hide CallState.Valid, CallState.Abs, Stack.Contents, Stack.Valid;
      hide Machine.RunCallee, Kept;
      ghost var s := Abs();
      ghost var stack := Top(s).stack;
      TopRecord();
      TopFrameOk(s);
      var callState := currentCallState;
      var sp := callState.sp;
      var entered := Enter(c, argsStart);
      match entered
      case LockBlocked => out, left := Stopped(Deadlocked), n;
      case FrameOverflow =>
        left := n;
        out := Raise(StackOverflow);
      case FrameEntered =>
        EnteredIsOneDeeper(s, Abs(), c, stack[argsStart..]);
        out, left := RunCallee(host, callState, s, sp - argsStart, wanted, true, n);
    }

    /** Takes the arguments off the stack of the caller below the frame on top. */
    method PopArguments(caller: CallState, taken: nat)
      requires Shape() && |frames| >= 2 && caller == frames[|frames| - 2]
      requires taken <= |Abs().frames[|frames| - 2].stack|
      modifies footprint
      ensures Shape() && frames == old(frames) && footprint == old(footprint)
      ensures var s := old(Abs());
              var d := |frames| - 2;
              var f := s.frames[d];
              Abs() == s.(frames := s.frames[d := f.(stack := f.stack[..|f.stack| - taken])])
    {
      hide Footprint, AllValid, FramesOf, FrameOk, CallState.Valid, Stack.Contents, Stack.Valid;
      SplitTwo(frames);
      ghost var lower, rest := frames[..|frames| - 2], FramesOf(frames[..|frames| - 2]);
      var popped := caller.LuaPop(taken);
      assert FramesOf(lower) == rest;
      RebuildTwo(frames);
    }

    /** A call from native code. */
    method InterpreterCall(host: Host, func: Value, nargs: int, nret: int, n: nat) returns (out: Outcome, left: nat)
      requires Valid() && frames != []
      modifies Repr()
      ensures Valid() && fresh(Repr() - old(Repr()))
      ensures Agrees(out, left, Machine.InterpreterCall(host, old(Abs()), func, nargs, nret, n))
      ensures !out.Stopped? && !callStackLock ==> old(frames) <= frames
      ensures out.Returned? ==> frames == old(frames)
      decreases n, 5
    {
      hide FramesOk, Footprint, AllValid, FramesOf, FrameOk;
      hide CallState.Valid, CallState.Abs, Stack.Contents, Stack.Valid;
      hide Machine.RunCallee, Kept, Live, OneDeeper;
      ghost var s := Abs();
      ghost var stack := Top(s).stack;
      TopRecord();
      TopFrameOk(s);
      var callerState := currentCallState;
      var sp := callerState.sp;
      left := n;
      if !func.Fun? {
        return Stopped(Undefined), n;
      }
      var argsStart := sp - nargs;
      if argsStart < 0 {
        argsStart := 0;
      }
      if nargs <= 0 {
        argsStart := sp;
      }
      var entered := Enter(func.closure, argsStart);
      match entered
      case LockBlocked => out := Stopped(Deadlocked);
      case FrameOverflow => out := Raise(StackOverflow);
      case FrameEntered =>
        ghost var e := Abs();
        EnteredIsOneDeeper(s, e, func.closure, stack[argsStart..]);
        if nargs > sp {
          return Stopped(Aborted), n;
        }
        KeptIsLive(s, |s.frames| - 1, sp - argsStart);
        out, left := CallWithoutArguments(host, callerState, s, sp - argsStart, nret, n);
    }

    /** The callee has its arguments; the caller gives them up before the callee runs. */
    method CallWithoutArguments(host: Host, callerState: CallState, ghost s: State, taken: nat, nret: int, n: nat)
      returns (out: Outcome, left: nat)
      requires Valid() && |frames| >= 2 && callerState == frames[|frames| - 2]
      requires WF(s) && s.frames != [] && OneDeeper(s, Abs()) && Abs().frames[..|s.frames|] == s.frames
      requires taken <= |Top(s).stack| && Live(Top(s).stack[..|Top(s).stack| - taken])
      modifies Repr()
      ensures Valid() && fresh(Repr() - old(Repr()))
      ensures var kept := Top(s).stack[..|Top(s).stack| - taken];
              Agrees(out, left, Machine.RunCallee(host, s, CallerStack(s, old(Abs()), kept), kept, nret, false, n))
      ensures !out.Stopped? && !callStackLock ==> old(frames)[..|old(frames)| - 1] <= frames
      ensures out.Returned? ==> frames == old(frames)[..|old(frames)| - 1]
      decreases n, 4
    {
      hide FramesOk, Footprint, AllValid, FramesOf, FrameOk;
      hide CallState.Valid, CallState.Abs, Stack.Contents, Stack.Valid;
      hide Machine.RunCallee, Kept;
      ghost var e, d := Abs(), |s.frames|;
      ghost var kept := Top(s).stack[..|Top(s).stack| - taken];
      assert e.frames[d - 1] == e.frames[..d][d - 1] == Top(s);
      PopArguments(callerState, taken);
      assert Abs() == CallerStack(s, e, kept);
      assert kept[..|kept| - 0] == kept;
      out, left := RunCallee(host, callerState, s, 0, nret, false, n);
    }

    // -------------------------------------------------------------- native code

    /** Native code, one call into the machine after the other. */
    method RunNative(host: Host, code: NativeCode, n: nat) returns (out: Outcome, left: nat)
      requires Valid() && frames != []
      modifies Repr()
      ensures Valid() && fresh(Repr() - old(Repr()))
      ensures Agrees(out, left, Machine.RunNative(host, code, old(Abs()), n))
      ensures !out.Stopped? && !callStackLock ==> old(frames) <= frames
      ensures out.Returned? ==> frames == old(frames)
      decreases n, 1
    {
      hide FramesOk, Footprint, AllValid, FramesOf, FrameOk;
      hide CallState.Valid, CallState.Abs, Stack.Contents, Stack.Valid;
      hide ApiStep, LuaCallStep, XpCallStep, Kept;
      match code
      case Done(count) => out, left := Returned(count), n;
      case Do(op, next) =>
        if n == 0 {
          return OutOfSteps, 0;
        }
        match op
        case Api(api) => out, left := ApiTurn(host, api, next, n);
        case LuaError =>
          var err := ErrorValue();
          left := n - 1;
          out := Raise(err);
        case LuaCall(nargs, nresults) =>
          ghost var s := Abs();
          out, left := CallFromNative(host, nargs, nresults, n - 1);
          if out.Returned? {
            out, left := GoOn(host, s, LuaCallStep(host, s, nargs, nresults, n - 1), next, n - 1, out.count, left);
          }
        case XpCall(body, onError) =>
          ghost var s := Abs();
          out, left := ProtectedCall(host, body, onError, n - 1);
          if out.Returned? {
            out, left := GoOn(host, s, XpCallStep(host, s, body, onError, n - 1), next, n - 1, out.count, left);
          }
    }

    /** What lua_error throws: the top value, which an empty stack does not have. */
    method ErrorValue() returns (why: ErrMsg)
      requires Shape() && frames != []
      ensures var stack := Top(Abs()).stack;
              why == if stack == [] then StackUnderflow else User(stack[|stack| - 1])
    {
      TopRecord();
      var err := currentCallState.Peek(currentCallState.sp - 1);
      why := if err.None? then StackUnderflow else User(err.value);
    }

    /** Native code goes on after a call that returned. */
    method GoOn(host: Host, ghost s: State, ghost q: Result, next: Reply -> NativeCode, ghost n: nat, count: int,
                steps: nat)
      returns (out: Outcome, left: nat)
      requires Valid() && frames != [] && WF(s) && s.frames != [] && Kept(s, q) && q.left <= n
      requires Agrees(Returned(count), steps, q)
      modifies Repr()
      ensures Valid() && fresh(Repr() - old(Repr()))
      ensures Agrees(out, left, NativeOn(host, s, q, next, n))
      ensures !out.Stopped? && !callStackLock ==> old(frames) <= frames
      ensures out.Returned? ==> frames == old(frames)
      decreases steps, 3
    {
      hide FramesOk, Footprint, AllValid, FramesOf, FrameOk;
      hide CallState.Valid, CallState.Abs, Stack.Contents, Stack.Valid;
      hide Machine.RunNative, Kept;
      out, left := RunNative(host, next(Number(count)), steps);
    }

    method ApiTurn(host: Host, api: ApiOp, next: Reply -> NativeCode, n: nat) returns (out: Outcome, left: nat)
      requires Valid() && frames != [] && n > 0
      modifies Repr()
      ensures Valid() && fresh(Repr() - old(Repr()))
      ensures Agrees(out, left, Machine.RunNative(host, Do(Api(api), next), old(Abs()), n))
      ensures !out.Stopped? && !callStackLock ==> old(frames) <= frames
      ensures out.Returned? ==> frames == old(frames)
      decreases n, 0
    {
      hide FramesOk, Footprint, AllValid, FramesOf, FrameOk;
      hide CallState.Valid, CallState.Abs, Stack.Contents, Stack.Valid;
      hide ApiStep, NativeOn, LuaCallStep, XpCallStep;
      ghost var s := Abs();
      ghost var q := ApiResult(s, api, n - 1);
      var sig := ApiOnTop(api);
      left := n - 1;
      match sig
      case ApiReply(reply) => out, left := RunNative(host, next(reply), n - 1);
      case ApiError(why) => out := Raise(why);
      case ApiHalt(reason) =>
        out := Stopped(reason);
    }

    /** lua_call. */
    method CallFromNative(host: Host, nargs: int, nresults: int, n: nat) returns (out: Outcome, left: nat)
      requires Valid() && frames != []
      modifies Repr()
      ensures Valid() && fresh(Repr() - old(Repr()))
      ensures Agrees(out, left, LuaCallStep(host, old(Abs()), nargs, nresults, n))
      ensures !out.Stopped? && !callStackLock ==> old(frames) <= frames
      ensures out.Returned? ==> frames == old(frames)
      decreases n, 6
    {
      hide Kept, Extends;
      hide FramesOk, Footprint, AllValid, FramesOf, FrameOk;
      hide CallState.Valid, CallState.Abs, Stack.Contents, Stack.Valid;
      hide Machine.InterpreterCall, ApiStep;
      left := n;
      if (nresults < 0 && nresults != -1) || nargs < 0 {
        out := Raise(NegativeCount);
        return;
      }
      TopRecord();
      var funcPosition := currentCallState.sp - nargs - 1;
      var func := currentCallState.Peek(funcPosition);
      if func.None? {
        out := Raise(StackUnderflow);
        return;
      }
      out, left := InterpreterCall(host, func.value, nargs, nresults, n);
      if out.Returned? {
        var sig := ApiOnTop(Remove(funcPosition + 1));
        match sig
        case ApiReply(_) => out := Returned(0);
        case ApiError(why) => out := Raise(why);
        case ApiHalt(reason) => out := Stopped(reason);
      }
    }

    // -------------------------------------------------------------- protected calls

    /** interpreter_xpcall: the jump buffer is a fresh address. */
    method ProtectedCall(host: Host, body: NativeCode, onError: Option<NativeCode>, n: nat)
      returns (out: Outcome, left: nat)
      requires Valid() && frames != []
      modifies Repr()
      ensures Valid() && fresh(Repr() - old(Repr()))
      ensures Agrees(out, left, XpCallStep(host, old(Abs()), body, onError, n))
      ensures !out.Stopped? && !callStackLock ==> old(frames) <= frames
      ensures out.Returned? ==> frames == old(frames)
      decreases n, 4
    {
      hide Extends;
      hide FramesOk, Footprint, AllValid, FramesOf, FrameOk;
      hide CallState.Valid, CallState.Abs, Stack.Contents, Stack.Valid;
      hide Machine.RunNative, Machine.Recover;
      ghost var s := Abs();
      var env := heap.next;
      var prevErrorHandler := errorHandler;
      var callerState := currentCallState;
      NextOk(s);
      heap := heap.(next := env + 1);
      errorHandler := Some(env);
      ghost var r := Machine.RunNative(host, body, Abs(), n);
      out, left := RunNative(host, body, n);
      if out.Returned? {
        errorHandler := prevErrorHandler;
        out := Returned(1);
      } else if out.Thrown? {
        SameFramesExtendWhenUnlocked(s, r);
        out, left := Recover(host, s, old(frames), callerState, prevErrorHandler, onError, left);
      }
    }

    /** After a jump to the buffer of a protected call: the error function, as often as it throws, and the repair. */
    method Recover(host: Host, ghost s: State, ghost base: seq<CallState>, callerState: CallState,
                   prevErrorHandler: Option<nat>, onError: Option<NativeCode>, n: nat)
      returns (out: Outcome, left: nat)
      requires Valid() && WF(s) && s.frames != [] && |base| == |s.frames| && callerState == base[|base| - 1]
      requires Abs().limit == s.limit && s.heap.next <= heap.next && prevErrorHandler == s.handler
      requires (s.locked ==> callStackLock) && (!callStackLock ==> Extends(s, Abs())) && errorHandler.Some?
      requires !callStackLock ==> base <= frames
      modifies Repr()
      ensures Valid() && fresh(Repr() - old(Repr()))
      ensures Agrees(out, left, Machine.Recover(host, s, old(Abs()), onError, n))
      ensures !out.Stopped? && !callStackLock ==> base <= frames
      ensures out.Returned? ==> frames == base
      decreases n, 3
    {
      hide FramesOk, Footprint, AllValid, FramesOf, FrameOk;
      hide CallState.Valid, CallState.Abs, Stack.Contents, Stack.Valid;
      hide Machine.RunNative, Machine.Repair, Extends;
      match onError
      case None => out := Repair(s, base, callerState, prevErrorHandler, n); left := n;
      case Some(code) =>
        if n == 0 {
          return OutOfSteps, 0;
        }
        if currentCallState == null {
          return Stopped(Undefined), n - 1;
        }
        ghost var t := Abs();
        ghost var r := Machine.RunNative(host, code, t, n - 1);
        out, left := RunNative(host, code, n - 1);
        ExtendsThrough(s, t, r);
        if out.Returned? {
          out := Repair(s, base, callerState, prevErrorHandler, left);
        } else if out.Thrown? {
          out, left := Recover(host, s, base, callerState, prevErrorHandler, onError, left);
        }
    }

    /** Takes the lock, pops frames until the caller's is current, and restores the handler. */
    method Repair(ghost s: State, ghost base: seq<CallState>, callerState: CallState,
                  prevErrorHandler: Option<nat>, ghost n: nat)
      returns (out: Outcome)
      requires Valid() && WF(s) && s.frames != [] && |base| == |s.frames| && callerState == base[|base| - 1]
      requires Abs().limit == s.limit && s.heap.next <= heap.next && prevErrorHandler == s.handler
      requires (s.locked ==> callStackLock) && (!callStackLock ==> Extends(s, Abs())) && errorHandler.Some?
      requires !callStackLock ==> base <= frames
      modifies Repr()
      ensures Valid() && footprint <= old(footprint)
      ensures Agrees(out, n, Machine.Repair(s, old(Abs()), n))
      ensures !out.Stopped? && !callStackLock ==> base <= frames
      ensures out.Returned? ==> frames == base
    {
      hide Kept, CallState.Repr;
      hide FramesOk, Footprint, AllValid, FramesOf, FrameOk;
      hide CallState.Valid, CallState.Abs, Stack.Contents, Stack.Valid;
      hide Unwind;
      if callStackLock {
        return Stopped(Deadlocked);
      }
      ghost var t := Abs();
      UnwindStopsAtCaller(t, |base| - 1, t.frames);
      callStackLock := true;
      while currentCallState != callerState
        invariant Valid() && base <= frames && |frames| <= |t.frames| && footprint <= old(footprint)
        invariant Abs() == t.(frames := t.frames[..|frames|], locked := true)
        decreases |frames|
      {
        InternalFunctionEpilog();
      }
      CallerIsOnce(|base| - 1);
      callStackLock := false;
      errorHandler := prevErrorHandler;
      return Returned(0);
    }

    lemma CallerIsOnce(k: nat)
      requires Valid() && k < |frames| && frames[k] == currentCallState
      ensures k == |frames| - 1
    {
      RecordAt(frames, k);
      RecordAt(frames, |frames| - 1);
    }

    /** The task of the coroutine's fiber; true is a normal end, false an error kept for the resumer. */
    method RunFiber(host: Host, n: nat) returns (out: Outcome, left: nat)
      requires Valid() && frames != []
      modifies Repr()
      ensures Valid() && fresh(Repr() - old(Repr()))
      ensures Agrees(out, left, FiberBody(host, old(Abs()), n))
    {
      hide Kept, Extends, CallState.Repr;
      hide FramesOk, Footprint, AllValid, FramesOf, FrameOk;
      hide CallState.Valid, CallState.Abs, Stack.Contents, Stack.Valid;
      hide Machine.Exec;
      var env := heap.next;
      NextOk(Abs());
      heap := heap.(next := env + 1);
      errorHandler := Some(env);
      ghost var s := old(Abs());
      assert Abs() == s.(handler := Some(env), heap := s.heap.(next := env + 1));
      ghost var q := Machine.Exec(host, Abs(), n);
      out, left := Exec(host, n);
      if out.Returned? {
        if callStackLock {
          return Stopped(Deadlocked), left;
        }
        FunctionEpilog();
        errorHandler := None;
        assert Abs() == q.s.(frames := q.s.frames[..|q.s.frames| - 1], handler := None);
        out := Returned(1);
      } else if out.Thrown? {
        errorHandler := None;
        assert Abs() == q.s.(handler := None);
        out := Returned(0);
      } else {
        assert Agrees(out, left, FiberBody(host, s, n));
      }
    }
  }

  lemma NextOk(s: State)
    requires WF(s)
    ensures FramesOk(s.frames, s.limit, s.heap.next + 1)
  {
  }

  lemma SameFramesExtendWhenUnlocked(s: State, r: Result)
    requires s.frames != [] && Kept(s.(handler := Some(s.heap.next), heap := s.heap.(next := s.heap.next + 1)), r)
    ensures !r.s.locked ==> Extends(s, r.s)
  {
  }

  lemma KeptIsLive(t: State, d: nat, taken: nat)
    requires WF(t) && d < |t.frames| && taken <= |t.frames[d].stack|
    ensures Live(t.frames[d].stack[..|t.frames[d].stack| - taken])
  {
    assert FrameOk(t.frames[d]);
  }

  lemma CallerUntouched(t: State, r: Result)
    requires |t.frames| >= 2 && Kept(t, r) && r.out.Returned?
    ensures |r.s.frames| == |t.frames| && r.s.frames[|t.frames| - 2] == t.frames[|t.frames| - 2]
    ensures r.s.locked == t.locked
  {
    var d := |t.frames| - 2;
    assert r.s.frames[d] == r.s.frames[..d + 1][d] == t.frames[..d + 1][d];
  }

  lemma DeliveredOk(s: State, taken: nat, retCount: int, count: nat)
    requires WF(s) && |s.frames| >= 2 && taken <= |s.frames[|s.frames| - 2].stack|
    ensures var d := |s.frames| - 2;
            var f := s.frames[d];
            var stack := Filled(f.stack[..|f.stack| - taken], Adjusted(Top(s).stack, retCount, count));
            WF(s.(frames := s.frames[d := f.(stack := stack)]))
  {
    assert FrameOk(s.frames[|s.frames| - 2]) && FrameOk(Top(s));
  }

  lemma TopFrameOk(s: State)
    requires WF(s) && s.frames != []
    ensures FrameOk(Top(s)) && Live(Top(s).stack)
  {
  }

  lemma TopReplacedOk(s: State, g: Frame, heap: Heap)
    requires WF(s) && s.frames != [] && FrameOk(g) && g.id == Top(s).id && s.heap.next <= heap.next
    ensures WF(WithTop(s, g).(heap := heap))
  {
  }

  lemma SimpleStepKeepsHeap(host: Host, f: Frame, heap: Heap, ins: Instruction)
    requires FrameOk(f) && f.closure.body.Bytecode? && FieldsFit(ins) && ins.opcode != CALL && f.pc < |CodeOf(f)|
    ensures SimpleStep(host, f, heap, ins).Next? ==> heap.next <= SimpleStep(host, f, heap, ins).heap.next
  {
    SimpleStepKeepsFrame(host, f, heap, ins);
  }

  lemma PcOk(s: State, pc: nat)
    requires WF(s) && s.frames != [] && (Top(s).closure.body.Bytecode? ==> pc <= |CodeOf(Top(s))|)
    ensures WF(WithTop(s, Top(s).(pc := pc)))
  {
  }

  lemma LoopEnds(host: Host, s: State, n: nat)
    requires WF(s) && s.frames != [] && Top(s).closure.body.Bytecode?
    ensures Top(s).pc >= |CodeOf(Top(s))| ==> Machine.Loop(host, s, n) == Result(Returned(0), s, n)
    ensures Top(s).pc < |CodeOf(Top(s))| && n == 0 ==> Machine.Loop(host, s, n) == Result(OutOfSteps, s, 0)
  {
  }

  lemma MovedToEmpty(values: seq<Value>)
    requires |values| <= GENERAL_STACK_SIZE
    ensures Moved([], values) == values
  {
  }
}
