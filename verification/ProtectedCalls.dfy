/** What errors, protected calls and the bodies of coroutines leave behind, frame by frame and slot by slot. */
module ProtectedCalls {
  import opened Values
  import opened LuaStack
  import opened Machine
  import MachineLaws

  /** The state in which the body of a protected call starts. */
  function Entered(s: State): State {
    s.(handler := Some(s.heap.next), heap := s.heap.(next := s.heap.next + 1))
  }

  /** The state after the call made in s, when nothing but the handler has to be restored. */
  function Restored(s: State, t: State): State {
    t.(handler := s.handler)
  }

  /** The same with the frames above the caller's gone. */
  function Repaired(s: State, t: State): State
    requires |s.frames| <= |t.frames|
  {
    t.(frames := t.frames[..|s.frames|], handler := s.handler)
  }

  /** The first run of the error function that does not throw, or the one that could not be started. */
  ghost function LastHandling(host: Host, code: NativeCode, t: State, n: nat): (r: Result)
    requires WF(t)
    ensures WF(r.s)
    decreases n
  {
    if n == 0 || t.frames == [] then Result(OutOfSteps, t, 0)
    else
      var r := RunNative(host, code, t, n - 1);
      if r.out.Thrown? then LastHandling(host, code, r.s, r.left) else r
  }

  /** What a protected call leaves, slot by slot. A body that returned has the last word on everything but the handler.
      Without an error function, a body that threw has it too, on the caller's frame and the heap; only the frames above
      the caller's go away. With one, the last run of the error function has it. */
  lemma ProtectedCallLeaves(host: Host, s: State, body: NativeCode, onError: Option<NativeCode>, n: nat)
    requires WF(s) && s.frames != []
    ensures WF(Entered(s))
    ensures var b, r := RunNative(host, body, Entered(s), n), XpCallStep(host, s, body, onError, n);
            && (b.out.Returned? ==> r == Result(Returned(1), Restored(s, b.s), b.left))
            && (b.out.Stopped? || b.out.OutOfSteps? ==> r == b)
            && (b.out.Thrown? && !b.s.locked && onError.None? ==>
                  |s.frames| <= |b.s.frames| && r == Result(Returned(0), Repaired(s, b.s), b.left))
            && (b.out.Thrown? && onError.Some? ==>
                  var e := LastHandling(host, onError.value, b.s, b.left);
                  && (e.out.Returned? && !e.s.locked ==>
                        |s.frames| <= |e.s.frames| && r == Result(Returned(0), Repaired(s, e.s), e.left))
                  && (r.out.Returned? ==> e.out.Returned? && !e.s.locked))
  {
    hide RunNative, Unwind, FrameOk, LastHandling;
    var b := RunNative(host, body, Entered(s), n);
    if b.out.Thrown? {
      MachineLaws.SameFramesExtend(s, Entered(s), b);
      if onError.Some? {
        RecoverLeaves(host, s, b.s, onError.value, b.left);
      } else if !b.s.locked {
        RepairLeaves(s, b.s, b.left);
      }
    }
  }

  lemma RepairLeaves(s: State, t: State, n: nat)
    requires WF(s) && s.frames != [] && WF(t) && t.limit == s.limit && s.heap.next <= t.heap.next
    requires !t.locked && !s.locked && Extends(s, t) && t.handler.Some?
    ensures |s.frames| <= |t.frames| && Repair(s, t, n) == Result(Returned(0), Repaired(s, t), n)
  {
    var k := |s.frames| - 1;
    UnwindStopsAtCaller(t, k, t.frames);
    assert t.frames[k].id == Top(s).id;
  }

  lemma {:induction false} RecoverLeaves(host: Host, s: State, t: State, code: NativeCode, n: nat)
    requires WF(s) && s.frames != [] && WF(t) && t.limit == s.limit && s.heap.next <= t.heap.next
    requires (s.locked ==> t.locked) && (!t.locked ==> Extends(s, t)) && t.handler.Some?
    ensures var e, r := LastHandling(host, code, t, n), Recover(host, s, t, Some(code), n);
            && (e.out.Returned? && !e.s.locked ==>
                  |s.frames| <= |e.s.frames| && r == Result(Returned(0), Repaired(s, e.s), e.left))
            && (r.out.Returned? ==> e.out.Returned? && !e.s.locked)
    decreases n
  {
    hide RunNative, Unwind, Extends, FramesOk;
    if t.frames != [] && n > 0 {
      var r := RunNative(host, code, t, n - 1);
      ExtendsThrough(s, t, r);
      if r.out.Thrown? {
        RecoverLeaves(host, s, r.s, code, r.left);
      } else if r.out.Returned? && !r.s.locked {
        RepairLeaves(s, r.s, r.left);
      }
    }
  }

  // ---------------------------------------------------------------- errors

  /** lua_error throws the value on top of the stack to the innermost handler and leaves every frame as it was. */
  lemma ErrorIsThrown(host: Host, s: State, next: Reply -> NativeCode, n: nat)
    requires WF(s) && s.frames != [] && n > 0
    ensures var r, stack := RunNative(host, Do(LuaError, next), s, n), Top(s).stack;
            var why := if stack == [] then StackUnderflow else User(stack[|stack| - 1]);
            r == Result(if s.handler.None? then Stopped(Aborted) else Thrown(s.handler.value, why), s, n - 1)
  {
  }

  /** An error that the body raises at once leaves the caller's whole call stack, slots, registers and all, as it was
      before the protected call. */
  lemma ErrorAtOnceKeepsFrames(host: Host, s: State, next: Reply -> NativeCode, n: nat)
    requires WF(s) && s.frames != [] && !s.locked && n > 0
    ensures XpCallStep(host, s, Do(LuaError, next), None, n)
         == Result(Returned(0), s.(heap := s.heap.(next := s.heap.next + 1)), n - 1)
  {
    hide RunNative, XpCallStep;
    ProtectedCallLeaves(host, s, Do(LuaError, next), None, n);
    ErrorIsThrown(host, Entered(s), next, n);
    assert s.frames[..|s.frames|] == s.frames;
    assert Entered(s).frames == s.frames;
  }

  /** Native code can tell from the answer of a protected call what has become of its body: 1 for a body that returned
      and 0 for one that threw. */
  lemma AnswerTells(host: Host, s: State, body: NativeCode, next: Reply -> NativeCode, n: nat)
    requires WF(s) && s.frames != [] && !s.locked && n > 0
    requires forall reply :: next(reply).Done?
    ensures WF(Entered(s))
    ensures var b := RunNative(host, body, Entered(s), n - 1);
            var r := RunNative(host, Do(XpCall(body, None), next), s, n);
            && (b.out.Returned? ==> r.out == Returned(next(Number(1)).count) && r.s == Restored(s, b.s))
            && (b.out.Thrown? && !b.s.locked ==>
                  |s.frames| <= |b.s.frames| && r.out == Returned(next(Number(0)).count) && r.s == Repaired(s, b.s))
  {
    hide XpCallStep, Kept, LuaCallStep, ApiResult;
    ProtectedCallLeaves(host, s, body, None, n - 1);
    var q := XpCallStep(host, s, body, None, n - 1);
    assert RunNative(host, Do(XpCall(body, None), next), s, n) == NativeOn(host, s, q, next, n - 1);
    if q.out.Returned? {
      ReturnedIsFine(s, q);
      assert RunNative(host, next(Number(q.out.count)), q.s, q.left)
          == Result(Returned(next(Number(q.out.count)).count), q.s, q.left);
    }
  }

  lemma ReturnedIsFine(s: State, q: Result)
    requires s.frames != [] && Kept(s, q) && q.out.Returned?
    ensures WF(q.s) && q.s.frames != []
  {
  }

  // ---------------------------------------------------------------- coroutine bodies

  /** How the body of a coroutine's fiber ends. A function that returned with the lock free loses its frame, and nothing
      else changes but the handler; a function that threw leaves every frame where it was. */
  lemma FiberBodyLeaves(host: Host, s: State, n: nat)
    requires WF(s) && s.frames != []
    ensures WF(Entered(s))
    ensures var q, r := Exec(host, Entered(s), n), FiberBody(host, s, n);
            && (q.out.Returned? && !q.s.locked ==>
                  && |q.s.frames| == |s.frames|
                  && r == Result(Returned(1), q.s.(frames := q.s.frames[..|s.frames| - 1], handler := None), q.left))
            && (q.out.Returned? && q.s.locked ==> r.out == Stopped(Deadlocked))
            && (q.out.Thrown? ==> r == Result(Returned(0), q.s.(handler := None), q.left))
            && (q.out.Stopped? || q.out.OutOfSteps? ==> r == q)
  {
    hide Exec, FrameOk;
  }
}
