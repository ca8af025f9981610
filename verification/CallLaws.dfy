/** The other exits of calls: what is refused, what an overflow leaves, what a native function sees of its own stack
    operations, and how code ends without a return. */
module CallLaws {
  import opened Values
  import opened Instructions
  import opened LuaStack
  import opened Machine
  import MachineLaws

  // ---------------------------------------------------------------- refusals

  /** The call instruction refuses too few arguments first, then nil, then what is not a function, with the caller as it
      was. */
  lemma CallIsRefused(host: Host, s: State, ins: Instruction, n: nat)
    requires WF(s) && s.frames != [] && Top(s).closure.body.Bytecode? && FieldsFit(ins)
    ensures ins.C > |Top(s).stack| + 1 ==> CallStep(host, s, ins, n) == Throw(s, StackUnderflow, n)
    ensures ins.C <= |Top(s).stack| + 1 && GetRegister(Top(s), ins.A) == Some(Nil) ==>
              CallStep(host, s, ins, n) == Throw(s, CallNil, n)
    ensures ins.C <= |Top(s).stack| + 1 && GetRegister(Top(s), ins.A).Some?
            && !GetRegister(Top(s), ins.A).value.Nil? && !GetRegister(Top(s), ins.A).value.NotPresent?
            && !GetRegister(Top(s), ins.A).value.Fun? ==>
              CallStep(host, s, ins, n) == Throw(s, CallNonCallable, n)
    ensures ins.C <= |Top(s).stack| + 1 && GetRegister(Top(s), ins.A).None? ==>
              CallStep(host, s, ins, n) == Result(Stopped(Aborted), s, n)
  {
    hide CallClosure, FrameOk, Kept;
  }

  /** lua_call refuses a negative count other than the request for all results, and a stack without the function. */
  lemma LuaCallIsRefused(host: Host, s: State, nargs: int, nresults: int, n: nat)
    requires WF(s) && s.frames != []
    ensures nresults < -1 || nargs < 0 ==> LuaCallStep(host, s, nargs, nresults, n) == Throw(s, NegativeCount, n)
    ensures nresults >= -1 && nargs >= |Top(s).stack| && nargs >= 0 ==>
              LuaCallStep(host, s, nargs, nresults, n) == Throw(s, StackUnderflow, n)
  {
    hide InterpreterCall, ApiStep, Kept;
  }

  // ---------------------------------------------------------------- overflow

  /** The state an overflowing prolog leaves: the running frame is gone, and the lock is held. */
  function AfterOverflow(s: State): State
    requires s.frames != []
  {
    s.(locked := true, frames := s.frames[..|s.frames| - 1])
  }

  /** On a full call stack every call pops the frame of its caller, keeps the lock and throws; with the lock held, it
      waits for itself. */
  lemma CallOverflows(host: Host, s: State, ins: Instruction, c: Closure, n: nat)
    requires WF(s) && s.frames != [] && Top(s).closure.body.Bytecode? && FieldsFit(ins)
    requires GetRegister(Top(s), ins.A) == Some(Fun(c)) && ins.C <= |Top(s).stack| + 1
    ensures !s.locked && |s.frames| == s.limit ==>
              CallStep(host, s, ins, n) == Throw(AfterOverflow(s), StackOverflow, n)
    ensures s.locked ==> CallStep(host, s, ins, n) == Result(Stopped(Deadlocked), s, n)
  {
    hide RunCallee, Kept;
  }

  lemma NativeCallOverflows(host: Host, s: State, c: Closure, nargs: int, nret: int, n: nat)
    requires WF(s) && s.frames != []
    ensures !s.locked && |s.frames| == s.limit ==>
              InterpreterCall(host, s, Fun(c), nargs, nret, n) == Throw(AfterOverflow(s), StackOverflow, n)
    ensures s.locked ==> InterpreterCall(host, s, Fun(c), nargs, nret, n) == Result(Stopped(Deadlocked), s, n)
  {
    hide RunCallee, Kept;
  }

  // ---------------------------------------------------------------- calls from native code

  /** interpreter_call for every number of arguments that the stack has: the callee starts with exactly the top nargs
      slots, which leave the caller's stack, and the results go on top of the rest. */
  lemma NativeCallEffect(host: Host, s: State, c: Closure, nargs: int, nret: int, n: nat)
    requires WF(s) && s.frames != [] && !s.locked && |s.frames| < s.limit && nargs <= |Top(s).stack|
    ensures var stack, d := Top(s).stack, |s.frames|;
            var taken := if nargs < 0 then 0 else nargs;
            var kept := stack[..|stack| - taken];
            var caller := s.frames[d - 1 := Top(s).(stack := kept)];
            var t := MachineLaws.CalleeStart(s, caller, c, stack[|stack| - taken..]);
            && WF(t)
            && MachineLaws.CallEffect(caller, kept, nret, true, Exec(host, t, n),
                                      InterpreterCall(host, s, Fun(c), nargs, nret, n))
  {
    hide Exec, Kept, MachineLaws.CallEffect, RunCallee, WF;
    var stack, d := Top(s).stack, |s.frames|;
    var taken := if nargs < 0 then 0 else nargs;
    var kept, args := stack[..|stack| - taken], stack[|stack| - taken..];
    TopIsLive(s);
    var e := Prolog(s, c, args).s;
    EnteredIsOneDeeper(s, e, c, args);
    var t := CallerStack(s, e, kept);
    var caller := s.frames[d - 1 := Top(s).(stack := kept)];
    assert t.frames == caller + [NewFrame(s.heap.next, c, args)];
    assert t == MachineLaws.CalleeStart(s, caller, c, args);
    assert t.frames[..d] == caller;
    MachineLaws.CalleeEffect(host, s, t, caller, kept, nret, false, n);
    assert InterpreterCall(host, s, Fun(c), nargs, nret, n) == RunCallee(host, s, t, kept, nret, false, n);
  }

  lemma TopIsLive(s: State)
    requires WF(s) && s.frames != []
    ensures Live(Top(s).stack)
  {
    assert FrameOk(Top(s));
  }

  /** A callee starts on a fresh frame: its arguments and nothing else on the stack, every register empty, no flag set,
      at the first instruction, under an identity that no frame had before. */
  lemma CalleeIsFresh(s: State, frames: seq<Frame>, c: Closure, args: seq<Value>, i: nat)
    requires WF(s)
    ensures var t := MachineLaws.CalleeStart(s, frames, c, args);
            && |t.frames| == |frames| + 1 && t.frames[..|frames|] == frames
            && Top(t).closure == c && Top(t).stack == args && Top(t).flags == 0 && Top(t).pc == 0
            && (c.body.Bytecode? ==>
                  |Top(t).registers| == 256 && (i < 256 ==> Top(t).registers[i].NotPresent?))
            && (c.body.Native? ==> Top(t).registers == [])
            && Top(t).id == s.heap.next && t.heap == s.heap.(next := s.heap.next + 1)
            && t.limit == s.limit && t.handler == s.handler && t.locked == s.locked
            && forall f :: f in s.frames ==> f.id != Top(t).id
  {
  }

  // ---------------------------------------------------------------- native code and its stack

  /** A stack operation of native code: its error goes to the innermost handler with the stack that it left, and its
      reply decides how the code goes on. */
  lemma StackOperation(host: Host, s: State, op: ApiOp, next: Reply -> NativeCode, n: nat)
    requires WF(s) && s.frames != [] && n > 0
    ensures var r := RunNative(host, Do(Api(op), next), s, n);
            match ApiStep(Top(s).stack, op)
            case Replied(stack, reply) =>
              WF(WithStack(s, stack)) && r == RunNative(host, next(reply), WithStack(s, stack), n - 1)
            case Raised(stack, why) => r == Throw(WithStack(s, stack), why, n - 1)
            case Halted(reason) => r == Result(Stopped(reason), s, n - 1)
  {
    hide ApiStep, Kept, LuaCallStep, XpCallStep;
    var q := ApiResult(s, op, n - 1);
    if ApiStep(Top(s).stack, op).Replied? {
      KeptIsFine(s, q);
    }
  }

  lemma KeptIsFine(s: State, q: Result)
    requires s.frames != [] && Kept(s, q)
    ensures WF(q.s)
  {
  }

  // ---------------------------------------------------------------- the end of the code

  /** Every activation starts at the first instruction, and code that runs past its last one returns no value. */
  lemma CodeStartsAndEnds(host: Host, s: State, n: nat)
    requires WF(s) && s.frames != [] && Top(s).closure.body.Bytecode?
    ensures WF(WithTop(s, Top(s).(pc := 0)))
    ensures Exec(host, s, n) == Loop(host, WithTop(s, Top(s).(pc := 0)), n)
    ensures Top(s).pc == |CodeOf(Top(s))| ==> Loop(host, s, n) == Result(Returned(0), s, n)
  {
    hide Loop, Kept;
    assert FrameOk(Top(s));
    if Top(s).pc == |CodeOf(Top(s))| {
      LoopEnds(host, s, n);
    }
  }

  lemma LoopEnds(host: Host, s: State, n: nat)
    requires WF(s) && s.frames != [] && Top(s).closure.body.Bytecode? && Top(s).pc == |CodeOf(Top(s))|
    ensures Loop(host, s, n) == Result(Returned(0), s, n)
  {
    hide LoopOn, CallStep, SimpleStep, Decode;
  }
}
