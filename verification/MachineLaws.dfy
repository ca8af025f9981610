/** Laws of the machine: a run does not depend on its step budget, what calls do to the caller's stack,
    and what protected calls restore. */
module MachineLaws {
  import opened Values
  import opened Instructions
  import opened LuaStack
  import opened Machine

  // ---------------------------------------------------------------- the step budget

  /** q is the result r with k more steps left over. */
  ghost predicate SameRun(r: Result, q: Result, k: nat) {
    q == r.(left := r.left + k)
  }

  /** A run that ends within its budget ends the same way, after the same number of steps, on any larger budget. */
  lemma {:induction false} MoreExec(host: Host, s: State, n: nat, k: nat)
    requires WF(s) && s.frames != [] && Exec(host, s, n).out != OutOfSteps
    ensures SameRun(Exec(host, s, n), Exec(host, s, n + k), k)
    decreases n, 2
  {
    hide Loop, RunNative, Kept;
    match Top(s).closure.body
    case Native(address) => MoreNative(host, host.funcs(address), s, n, k);
    case Bytecode(_, _) => MoreLoop(host, WithTop(s, Top(s).(pc := 0)), n, k);
  }

  lemma {:induction false} MoreLoop(host: Host, s: State, n: nat, k: nat)
    requires WF(s) && s.frames != [] && Top(s).closure.body.Bytecode? && Loop(host, s, n).out != OutOfSteps
    ensures SameRun(Loop(host, s, n), Loop(host, s, n + k), k)
    decreases n, 1
  {
    hide Kept;
    hide CallStep, LoopOn, SimpleStep, Skipped, Decode;
    var f := Top(s);
    if f.pc < |CodeOf(f)| {
      var ins := Decode(CodeOf(f)[f.pc]);
      if Skipped(ins, f.flags) {
        MoreLoopOn(host, s, s, f.(pc := f.pc + 1), s.heap, n - 1, k);
      } else if ins.opcode == CALL {
        MoreLoopCall(host, s, ins, n, k);
      } else {
        SimpleStepKeepsFrame(host, f, s.heap, ins);
        match SimpleStep(host, f, s.heap, ins)
        case Next(g, heap) => MoreLoopOn(host, s, s, g, heap, n - 1, k);
        case _ =>
      }
    }
  }

  lemma {:induction false} MoreLoopCall(host: Host, s: State, ins: Instruction, n: nat, k: nat)
    requires WF(s) && s.frames != [] && Top(s).closure.body.Bytecode? && n > 0 && Loop(host, s, n).out != OutOfSteps
    requires Top(s).pc < |CodeOf(Top(s))| && ins == Decode(CodeOf(Top(s))[Top(s).pc])
    requires !Skipped(ins, Top(s).flags) && ins.opcode == CALL
    ensures SameRun(Loop(host, s, n), Loop(host, s, n + k), k)
    decreases n, 0
  {
    hide CallStep, LoopOn, SimpleStep, Skipped, Decode;
    var r := CallStep(host, s, ins, n - 1);
    if r.out != OutOfSteps {
      MoreCall(host, s, ins, n - 1, k);
      if r.out.Returned? {
        MoreLoopOn(host, s, r.s, Top(r.s).(pc := Top(s).pc + 1), r.s.heap, r.left, k);
      }
    }
  }

  lemma {:induction false} MoreLoopOn(host: Host, start: State, s: State, g: Frame, heap: Heap, n: nat, k: nat)
    requires WF(start) && WF(s) && start.frames != [] && Extends(start, s) && |s.frames| == |start.frames|
    requires s.limit == start.limit && s.handler == start.handler && s.locked == start.locked
    requires FrameOk(g) && SameActivation(g, Top(s)) && g.closure.body.Bytecode?
    requires start.heap.next <= s.heap.next <= heap.next
    requires LoopOn(host, start, s, g, heap, n).out != OutOfSteps
    ensures SameRun(LoopOn(host, start, s, g, heap, n), LoopOn(host, start, s, g, heap, n + k), k)
    decreases n, 2
  {
    hide Loop;
    MoreLoop(host, WithTop(s, g).(heap := heap), n, k);
  }

  lemma {:induction false} MoreCall(host: Host, s: State, ins: Instruction, n: nat, k: nat)
    requires WF(s) && s.frames != [] && Top(s).closure.body.Bytecode? && FieldsFit(ins)
    requires CallStep(host, s, ins, n).out != OutOfSteps
    ensures SameRun(CallStep(host, s, ins, n), CallStep(host, s, ins, n + k), k)
    decreases n, 5
  {
    hide CallClosure, Kept, WF;
    var f := Top(s);
    var argsStart := if ins.C > 1 then |f.stack| - (ins.C - 1) else 0;
    var wanted := if ins.B == 1 then -1 else if ins.B == 0 then 0 else ins.B - 1;
    match GetRegister(f, ins.A)
    case None =>
    case Some(v) =>
      if argsStart >= 0 && v.Fun? {
        MoreCallClosure(host, s, v.closure, if ins.C == 0 then |f.stack| else argsStart, wanted, n, k);
      }
  }

  lemma {:induction false} MoreCallClosure(host: Host, s: State, c: Closure, argsStart: nat, wanted: int,
                                           n: nat, k: nat)
    requires WF(s) && s.frames != [] && argsStart <= |Top(s).stack|
    requires CallClosure(host, s, c, argsStart, wanted, n).out != OutOfSteps
    ensures SameRun(CallClosure(host, s, c, argsStart, wanted, n), CallClosure(host, s, c, argsStart, wanted, n + k), k)
    decreases n, 4
  {
    hide RunCallee, Kept;
    var stack := Top(s).stack;
    assert FrameOk(Top(s));
    match Prolog(s, c, stack[argsStart..])
    case Entered(t) =>
      EnteredIsOneDeeper(s, t, c, stack[argsStart..]);
      MoreCallee(host, s, t, stack[..argsStart], wanted, true, n, k);
    case _ =>
  }

  lemma {:induction false} MoreCallee(host: Host, s: State, t: State, kept: seq<Value>, wanted: int,
                                      epilogOnError: bool, n: nat, k: nat)
    requires WF(s) && s.frames != [] && OneDeeper(s, t) && Live(kept)
    requires RunCallee(host, s, t, kept, wanted, epilogOnError, n).out != OutOfSteps
    ensures SameRun(RunCallee(host, s, t, kept, wanted, epilogOnError, n),
                    RunCallee(host, s, t, kept, wanted, epilogOnError, n + k), k)
    decreases n, 3
  {
    hide Exec;
    MoreExec(host, t, n, k);
  }

  lemma {:induction false} MoreInterpreterCall(host: Host, s: State, func: Value, nargs: int, nret: int, n: nat, k: nat)
    requires WF(s) && s.frames != []
    requires InterpreterCall(host, s, func, nargs, nret, n).out != OutOfSteps
    ensures SameRun(InterpreterCall(host, s, func, nargs, nret, n),
                    InterpreterCall(host, s, func, nargs, nret, n + k), k)
    decreases n, 4
  {
    hide RunCallee, Kept;
    var stack := Top(s).stack;
    assert FrameOk(Top(s));
    if func.Fun? && nargs <= |stack| {
      var argsStart := if nargs <= 0 then |stack| else |stack| - nargs;
      match Prolog(s, func.closure, stack[argsStart..])
      case Entered(e) =>
        EnteredIsOneDeeper(s, e, func.closure, stack[argsStart..]);
        MoreCallee(host, s, CallerStack(s, e, stack[..argsStart]), stack[..argsStart], nret, false, n, k);
      case _ =>
    }
  }

  lemma {:induction false} MoreNative(host: Host, code: NativeCode, s: State, n: nat, k: nat)
    requires WF(s) && s.frames != [] && RunNative(host, code, s, n).out != OutOfSteps
    ensures SameRun(RunNative(host, code, s, n), RunNative(host, code, s, n + k), k)
    decreases n, 1
  {
    hide NativeOn, LuaCallStep, XpCallStep, ApiStep, ApiResult, Kept;
    match code
    case Done(_) =>
    case Do(op, next) =>
      match op
      case Api(api) =>
        MoreApi(host, api, next, s, n, k);
      case LuaError =>
      case LuaCall(nargs, nresults) =>
        if LuaCallStep(host, s, nargs, nresults, n - 1).out != OutOfSteps {
          MoreLuaCall(host, s, nargs, nresults, n - 1, k);
        }
        MoreNativeOn(host, s, LuaCallStep(host, s, nargs, nresults, n - 1),
                     LuaCallStep(host, s, nargs, nresults, n - 1 + k), next, n - 1, k);
      case XpCall(body, onError) =>
        if XpCallStep(host, s, body, onError, n - 1).out != OutOfSteps {
          MoreXpCall(host, s, body, onError, n - 1, k);
        }
        MoreNativeOn(host, s, XpCallStep(host, s, body, onError, n - 1),
                     XpCallStep(host, s, body, onError, n - 1 + k), next, n - 1, k);
  }

  lemma {:induction false} MoreApi(host: Host, api: ApiOp, next: Reply -> NativeCode, s: State, n: nat, k: nat)
    requires WF(s) && s.frames != [] && n > 0 && RunNative(host, Do(Api(api), next), s, n).out != OutOfSteps
    ensures SameRun(RunNative(host, Do(Api(api), next), s, n), RunNative(host, Do(Api(api), next), s, n + k), k)
    decreases n, 0
  {
    hide FramesOk, WF, FrameOk, Extends;
    hide ApiStep, NativeOn, LuaCallStep, XpCallStep;
    var q := ApiResult(s, api, n - 1);
    if q.out.Returned? {
      MoreNative(host, next(ApiStep(Top(s).stack, api).reply), q.s, n - 1, k);
    }
  }

  lemma {:induction false} MoreNativeOn(host: Host, s: State, q: Result, q': Result, next: Reply -> NativeCode,
                                        n: nat, k: nat)
    requires WF(s) && s.frames != [] && Kept(s, q) && q.left <= n && Kept(s, q') && q'.left <= n + k
    requires q.out != OutOfSteps ==> SameRun(q, q', k)
    requires NativeOn(host, s, q, next, n).out != OutOfSteps
    ensures SameRun(NativeOn(host, s, q, next, n), NativeOn(host, s, q', next, n + k), k)
    decreases n, 2
  {
    hide RunNative;
    if q.out.Returned? {
      MoreNative(host, next(Number(q.out.count)), q.s, q.left, k);
    }
  }

  lemma {:induction false} MoreLuaCall(host: Host, s: State, nargs: int, nresults: int, n: nat, k: nat)
    requires WF(s) && s.frames != [] && LuaCallStep(host, s, nargs, nresults, n).out != OutOfSteps
    ensures SameRun(LuaCallStep(host, s, nargs, nresults, n), LuaCallStep(host, s, nargs, nresults, n + k), k)
    decreases n, 5
  {
    hide InterpreterCall, ApiStep, Kept;
    var stack := Top(s).stack;
    if !(nresults < 0 && nresults != -1) && nargs >= 0 && |stack| - nargs - 1 >= 0 {
      var position := |stack| - nargs - 1;
      if InterpreterCall(host, s, stack[position], nargs, nresults, n).out != OutOfSteps {
        MoreInterpreterCall(host, s, stack[position], nargs, nresults, n, k);
      }
    }
  }

  lemma SameFramesExtend(s: State, t: State, r: Result)
    requires s.frames != [] && t.frames == s.frames && Kept(t, r)
    ensures !r.s.locked ==> Extends(s, r.s)
  {
  }

  lemma {:induction false} MoreXpCall(host: Host, s: State, body: NativeCode, onError: Option<NativeCode>,
                                      n: nat, k: nat)
    requires WF(s) && s.frames != [] && XpCallStep(host, s, body, onError, n).out != OutOfSteps
    ensures SameRun(XpCallStep(host, s, body, onError, n), XpCallStep(host, s, body, onError, n + k), k)
    decreases n, 4
  {
    hide RunNative, Recover, Extends;
    var env := s.heap.next;
    var t := s.(handler := Some(env), heap := s.heap.(next := env + 1));
    var r := RunNative(host, body, t, n);
    if r.out != OutOfSteps {
      MoreNative(host, body, t, n, k);
      if r.out.Thrown? {
        SameFramesExtend(s, t, r);
        MoreRecover(host, s, r.s, onError, r.left, k);
      }
    }
  }

  lemma {:induction false} MoreRecover(host: Host, s: State, t: State, onError: Option<NativeCode>, n: nat, k: nat)
    requires WF(s) && s.frames != [] && WF(t) && t.limit == s.limit && s.heap.next <= t.heap.next
    requires (s.locked ==> t.locked) && (!t.locked ==> Extends(s, t)) && t.handler.Some?
    requires Recover(host, s, t, onError, n).out != OutOfSteps
    ensures SameRun(Recover(host, s, t, onError, n), Recover(host, s, t, onError, n + k), k)
    decreases n, 3
  {
    hide RunNative, Unwind, Extends, FramesOk;
    match onError
    case None =>
    case Some(code) =>
      if t.frames != [] && n > 0 {
        var r := RunNative(host, code, t, n - 1);
        if r.out != OutOfSteps {
          MoreNative(host, code, t, n - 1, k);
          ExtendsThrough(s, t, r);
          if r.out.Thrown? {
            MoreRecover(host, s, r.s, onError, r.left, k);
          }
        }
      }
  }

  // ---------------------------------------------------------------- calls

  /** What a callee supplies: the top k slots of its stack, or all of them when it has fewer. */
  function Supplied(stack: seq<Value>, k: int): seq<Value> {
    if k <= 0 then [] else if k >= |stack| then stack else stack[|stack| - k..]
  }

  /** Section 4.4 of the Lua 5.4 Reference Manual: results are cut or filled with nil to the number asked for. */
  function CutOrFilled(values: seq<Value>, count: nat): (r: seq<Value>)
    ensures |r| == count
  {
    if count <= |values| then values[..count] else values + seq(count - |values|, _ => Nil)
  }

  lemma AdjustedMeaning(stack: seq<Value>, k: int, count: nat)
    ensures Adjusted(stack, k, count) == CutOrFilled(Supplied(stack, k), count)
  {
  }

  /** The state in which a callee starts: the caller's frames as given, and a new one holding exactly the arguments. */
  function CalleeStart(s: State, frames: seq<Frame>, c: Closure, args: seq<Value>): State {
    s.(frames := frames + [NewFrame(s.heap.next, c, args)], heap := s.heap.(next := s.heap.next + 1))
  }

  /** How a call q relates to the run r of its callee, for a caller with frames base whose stack below the results
      is kept. Unless the callee returns, its outcome is the call's. When it returns, the caller's frames are as they
      were, and the results, cut or filled to the number wanted, go on top of kept. Results that do not fit raise an
      error with the stack filled up; the callee's frame is gone by then, or is left for the handler to unwind. */
  ghost predicate CallEffect(base: seq<Frame>, kept: seq<Value>, wanted: int, frameLeft: bool, r: Result, q: Result)
    requires base != []
  {
    var d := |base|;
    if !r.out.Returned? then q == r
    else
      && |r.s.frames| == d + 1 && r.s.frames[..d] == base
      && var callee := Top(r.s);
      var count := if wanted == -1 then |callee.stack| else if wanted < 0 then 0 else wanted;
      var whole := kept + CutOrFilled(Supplied(callee.stack, r.out.count), count);
      if |whole| <= GENERAL_STACK_SIZE then
        && q.out == Returned(0) && q.left == r.left && q.s.heap == r.s.heap
        && q.s.frames == base[d - 1 := base[d - 1].(stack := whole)]
      else
        && q == Throw(q.s, StackOverflow, r.left) && q.s.heap == r.s.heap
        && |q.s.frames| == (if frameLeft then d + 1 else d)
        && q.s.frames[..d] == base[d - 1 := base[d - 1].(stack := whole[..GENERAL_STACK_SIZE])]
  }

  lemma CalleeEffect(host: Host, s: State, t: State, base: seq<Frame>, kept: seq<Value>, wanted: int,
                     epilogOnError: bool, n: nat)
    requires WF(s) && s.frames != [] && OneDeeper(s, t) && Live(kept)
    requires |base| == |s.frames| && t.frames[..|base|] == base
    ensures CallEffect(base, kept, wanted, !epilogOnError, Exec(host, t, n),
                       RunCallee(host, s, t, kept, wanted, epilogOnError, n))
  {
    hide Exec, WF, Supplied, CutOrFilled, Adjusted;
    var d := |base|;
    var r := Exec(host, t, n);
    if r.out.Returned? {
      assert r.s.frames[..d] == t.frames[..d] == base;
      assert r.s.frames[d - 1] == r.s.frames[..d][d - 1] == base[d - 1];
      AdjustedMeaning(Top(r.s).stack, r.out.count, ResultCount(wanted, Top(r.s)));
      var results := CutOrFilled(Supplied(Top(r.s).stack, r.out.count), ResultCount(wanted, Top(r.s)));
      FilledMeaning(kept, results);
      var q := Deliver(r.s, kept, results, epilogOnError, r.left);
      assert q.s.frames[..d] == base[d - 1 := base[d - 1].(stack := Filled(kept, results))];
      assert |q.s.frames| == d ==> q.s.frames[..d] == q.s.frames;
    }
  }

  lemma FilledMeaning(stack: seq<Value>, values: seq<Value>)
    requires |stack| <= GENERAL_STACK_SIZE
    ensures var whole := stack + values;
            Filled(stack, values) == if |whole| <= GENERAL_STACK_SIZE then whole else whole[..GENERAL_STACK_SIZE]
  {
  }

  /** The call instruction: the callee starts with exactly the C - 1 arguments (or the whole stack for C = 1), in
      order, and the caller's stack becomes its prefix without them followed by B - 1 results (or as many as the
      callee's stack is deep for B = 1). Nothing else in the caller's frames changes. */
  lemma CallInstructionEffect(host: Host, s: State, ins: Instruction, c: Closure, n: nat)
    requires WF(s) && s.frames != [] && Top(s).closure.body.Bytecode? && FieldsFit(ins)
    requires !s.locked && |s.frames| < s.limit && GetRegister(Top(s), ins.A) == Some(Fun(c))
    requires ins.C - 1 <= |Top(s).stack|
    ensures var stack := Top(s).stack;
            var taken := if ins.C == 0 then 0 else if ins.C == 1 then |stack| else ins.C - 1;
            var wanted := if ins.B == 1 then -1 else if ins.B == 0 then 0 else ins.B - 1;
            var t := CalleeStart(s, s.frames, c, stack[|stack| - taken..]);
            && WF(t)
            && CallEffect(s.frames, stack[..|stack| - taken], wanted, false, Exec(host, t, n),
                          CallStep(host, s, ins, n))
  {
    hide Exec, Kept, CallEffect, RunCallee;
    var stack := Top(s).stack;
    assert FrameOk(Top(s));
    var argsStart := if ins.C == 0 then |stack| else if ins.C == 1 then 0 else |stack| - (ins.C - 1);
    var wanted := if ins.B == 1 then -1 else if ins.B == 0 then 0 else ins.B - 1;
    var t := CalleeStart(s, s.frames, c, stack[argsStart..]);
    assert Prolog(s, c, stack[argsStart..]) == Entered(t);
    EnteredIsOneDeeper(s, t, c, stack[argsStart..]);
    CalleeEffect(host, s, t, s.frames, stack[..argsStart], wanted, true, n);
    assert CallStep(host, s, ins, n) == RunCallee(host, s, t, stack[..argsStart], wanted, true, n);
  }

  /** lua_call: the callee starts with exactly the arguments, and the function and its arguments on top of the stack
      give way to exactly the adjusted results, with everything below unchanged. The function's own slot is still
      occupied while the results arrive, so they must leave room for it. */
  lemma LuaCallEffect(host: Host, s: State, below: seq<Value>, c: Closure, args: seq<Value>, nresults: int, n: nat)
    requires WF(s) && s.frames != [] && !s.locked && |s.frames| < s.limit
    requires Top(s).stack == below + [Fun(c)] + args && nresults >= -1
    ensures var q := LuaCallStep(host, s, |args|, nresults, n);
            var d := |s.frames|;
            var caller := s.frames[d - 1 := Top(s).(stack := below + [Fun(c)])];
            var t := CalleeStart(s, caller, c, args);
            && WF(t)
            && var r := Exec(host, t, n);
            if !r.out.Returned? then q == r
            else
              && |r.s.frames| == d + 1 && r.s.frames[..d] == caller
              && var callee := Top(r.s);
              var count := if nresults == -1 then |callee.stack| else nresults;
              var results := CutOrFilled(Supplied(callee.stack, r.out.count), count);
              if |below| + 1 + |results| <= GENERAL_STACK_SIZE then
                && q.out == Returned(0) && q.left == r.left && q.s.heap == r.s.heap
                && q.s.frames == s.frames[d - 1 := Top(s).(stack := below + results)]
              else
                q == Throw(q.s, StackOverflow, r.left)
  {
    hide Exec, Kept, ApiStep, WF, OneDeeper, RunCallee;
    var d := |s.frames|;
    CalleeOfLuaCall(s, below, c, args);
    var caller := s.frames[d - 1 := Top(s).(stack := below + [Fun(c)])];
    var t := CalleeStart(s, caller, c, args);
    assert t.frames[..d] == caller;
    CalleeEffect(host, s, t, caller, below + [Fun(c)], nresults, false, n);
    var u := RunCallee(host, s, t, below + [Fun(c)], nresults, false, n);
    assert InterpreterCall(host, s, Fun(c), |args|, nresults, n) == u;
    var r := Exec(host, t, n);
    if r.out.Returned? {
      var results := CutOrFilled(Supplied(Top(r.s).stack, r.out.count), ResultCount(nresults, Top(r.s)));
      if |below| + 1 + |results| <= GENERAL_STACK_SIZE {
        RemoveFunction(u.s, below, c, results);
      }
    }
  }

  lemma CalleeOfLuaCall(s: State, below: seq<Value>, c: Closure, args: seq<Value>)
    requires WF(s) && s.frames != [] && !s.locked && |s.frames| < s.limit
    requires Top(s).stack == below + [Fun(c)] + args
    ensures var caller := s.frames[|s.frames| - 1 := Top(s).(stack := below + [Fun(c)])];
            var t := CalleeStart(s, caller, c, args);
            var argsStart := |below| + 1;
            && WF(t) && Top(s).stack[argsStart..] == args && Top(s).stack[..argsStart] == below + [Fun(c)]
            && Live(Top(s).stack[..argsStart])
            && Prolog(s, c, args).Entered?
            && OneDeeper(s, Prolog(s, c, args).s)
            && t == CallerStack(s, Prolog(s, c, args).s, below + [Fun(c)])
  {
    var f := Top(s);
    assert FrameOk(f);
    var argsStart := |below| + 1;
    assert f.stack[argsStart..] == args;
    assert f.stack[..argsStart] == below + [Fun(c)];
    EnteredIsOneDeeper(s, Prolog(s, c, args).s, c, args);
    var e := Prolog(s, c, args).s;
    var t := CallerStack(s, e, below + [Fun(c)]);
    var caller := s.frames[|s.frames| - 1 := f.(stack := below + [Fun(c)])];
    assert t.frames == caller + [NewFrame(s.heap.next, c, args)];
  }

  lemma RemoveFunction(s: State, below: seq<Value>, c: Closure, results: seq<Value>)
    requires s.frames != [] && Top(s).stack == below + [Fun(c)] + results
    ensures ApiStep(Top(s).stack, Remove(|below| + 1)) == Replied(below + results, Unit)
  {
    hide ApiStep, Rotated, RotateSlots, PopMany;
    var stack := Top(s).stack;
    RemoveDeletes(stack, |below| + 1);
    assert stack[..|below|] + stack[|below| + 1..] == below + results;
  }

  // ---------------------------------------------------------------- protected calls

  /** A protected call never lets an error out. It returns 1 exactly when its body returned; when it returns 0, the
      body threw, and the jump went to the buffer of this very call, whose function was still active. Either way the
      call stack is the one at entry, frame by frame below the caller's own, and the handler is the one at entry. */
  lemma ProtectedCallRestores(host: Host, s: State, body: NativeCode, onError: Option<NativeCode>, n: nat)
    requires WF(s) && s.frames != []
    ensures var d := |s.frames|;
            var entered := s.(handler := Some(s.heap.next), heap := s.heap.(next := s.heap.next + 1));
            var b := RunNative(host, body, entered, n);
            var r := XpCallStep(host, s, body, onError, n);
            && !r.out.Thrown?
            && (b.out.Returned? <==> r.out == Returned(1))
            && (b.out.Thrown? ==> b.out.target == s.heap.next)
            && (r.out.Returned? ==>
                  && (b.out.Thrown? <==> r.out.count == 0)
                  && |r.s.frames| == d && r.s.frames[..d - 1] == s.frames[..d - 1]
                  && SameActivation(Top(r.s), Top(s)) && r.s.handler == s.handler && r.s.locked == s.locked)
  {
    hide FrameOk;
    hide RunNative, Recover;
    var env := s.heap.next;
    var t := s.(handler := Some(env), heap := s.heap.(next := env + 1));
    var b := RunNative(host, body, t, n);
    if b.out.Thrown? {
      SameFramesExtend(s, t, b);
      RecoverReturnsZero(host, s, b.s, onError, b.left);
    }
  }

  lemma {:induction false} RecoverReturnsZero(host: Host, s: State, t: State, onError: Option<NativeCode>, n: nat)
    requires WF(s) && s.frames != [] && WF(t) && t.limit == s.limit && s.heap.next <= t.heap.next
    requires (s.locked ==> t.locked) && (!t.locked ==> Extends(s, t)) && t.handler.Some?
    ensures var r := Recover(host, s, t, onError, n); r.out.Returned? ==> r.out.count == 0
    decreases n
  {
    hide RunNative, Unwind, Extends;
    if onError.Some? && n > 0 && t.frames != [] {
      var r := RunNative(host, onError.value, t, n - 1);
      ExtendsThrough(s, t, r);
      if r.out.Thrown? {
        RecoverReturnsZero(host, s, r.s, onError, r.left);
      }
    }
  }

  /** A call-stack overflow below a protected call is never caught: the lock the prolog left behind is taken again
      by the repair, so the protected call cannot return. */
  lemma OverflowIsNotCaught(host: Host, s: State, body: NativeCode, onError: Option<NativeCode>, n: nat)
    requires WF(s) && s.frames != [] && !s.locked
    ensures var t := s.(handler := Some(s.heap.next), heap := s.heap.(next := s.heap.next + 1));
            var b := RunNative(host, body, t, n);
            var r := XpCallStep(host, s, body, onError, n);
            && (b.s.locked ==> !r.out.Returned?)
            && (b.out.Thrown? && onError == None ==>
                  && (r.out == Returned(0) <==> !b.s.locked)
                  && (r.out == Stopped(Deadlocked) <==> b.s.locked))
  {
    hide RunNative;
  }

  /** The jump buffer of a protected call still catches errors while its error function runs, so an error
      function that itself throws is started again and again: no budget suffices. */
  lemma {:induction false} ThrowingErrorFunctionLoops(host: Host, s: State, t: State, next: Reply -> NativeCode, n: nat)
    requires WF(s) && s.frames != [] && WF(t) && t.limit == s.limit && s.heap.next <= t.heap.next
    requires (s.locked ==> t.locked) && (!t.locked ==> Extends(s, t)) && t.handler.Some? && t.frames != []
    ensures Recover(host, s, t, Some(Do(LuaError, next)), n).out == OutOfSteps
    decreases n
  {
    if n > 1 {
      ThrowingErrorFunctionLoops(host, s, t, next, n - 2);
    }
  }

  /** While a coroutine's function runs, there is a handler in every state it passes through: no error it throws
      finds none. */
  lemma CoroutineErrorsAreCaught(host: Host, s: State, n: nat)
    requires WF(s) && s.frames != []
    ensures var t := s.(handler := Some(s.heap.next), heap := s.heap.(next := s.heap.next + 1));
            && Exec(host, t, n).s.handler.Some?
            && (Exec(host, t, n).out.Thrown? ==> FiberBody(host, s, n).out == Returned(0))
  {
    hide Exec;
  }
}
