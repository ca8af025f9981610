/** Activation records in place: registers and value stack as arrays, each with a parallel array of the
    heap objects the collector traces. */
module CallStates {
  import opened Values
  import opened Instructions
  import opened Arithmetic
  import opened LuaStack
  import opened Machine
  import Coroutines

  /** How an in-place stack operation ended. */
  datatype ApiSignal = ApiReply(reply: Reply) | ApiError(why: ErrMsg) | ApiHalt(reason: StopReason)

  /** How the execution of one instruction ended. */
  datatype Signal = Continue | Finished(count: nat) | Failed(why: ErrMsg) | Died(reason: StopReason)

  /** The traced object of a slot; an empty slot traces nothing. */
  ghost predicate Traces(objects: seq<Option<Obj>>, values: seq<Value>) {
    && |objects| == |values|
    && forall i :: 0 <= i < |values| ==> objects[i] == ObjectPtr(values[i])
  }

  class CallState {
    const id: Obj
    const closure: Closure
    const registers: array<Value>
    const registersObjectArray: array<Option<Obj>>
    const generalStack: array<Value>
    const generalObjectStack: array<Option<Obj>>
    var flagRegister: bv8
    var pc: int
    var sp: int

    ghost function Repr(): set<object> {
      {this, registers, registersObjectArray, generalStack, generalObjectStack}
    }

    /** The frame invariant: the stack pointer is within the stack, exactly the slots below it are present, the
        object arrays agree slot by slot with the values, and the program counter is within the instructions. */
    ghost predicate Valid()
      reads this, registers, registersObjectArray, generalStack, generalObjectStack
    {
      && registers != generalStack && registersObjectArray != generalObjectStack
      && registers.Length == (if closure.body.Bytecode? then REGISTERS_NUM else 0)
      && generalStack.Length == GENERAL_STACK_SIZE
      && 0 <= sp <= GENERAL_STACK_SIZE
      && (forall i :: 0 <= i < sp ==> !generalStack[i].NotPresent?)
      && (forall i :: sp <= i < GENERAL_STACK_SIZE ==> generalStack[i].NotPresent?)
      && Traces(registersObjectArray[..], registers[..])
      && Traces(generalObjectStack[..], generalStack[..])
      && 0 <= pc
      && (closure.body.Bytecode? ==> pc <= |closure.body.prototype.instructions|)
    }

    ghost function Slots(): (s: seq<Value>)
      requires Valid()
      reads this, registers, registersObjectArray, generalStack, generalObjectStack
    {
      generalStack[..sp]
    }

    ghost function Abs(): (f: Frame)
      requires Valid()
      reads this, registers, registersObjectArray, generalStack, generalObjectStack
      ensures FrameOk(f)
    {
      Frame(id, closure, registers[..], generalStack[..sp], flagRegister, pc)
    }

    constructor (id: Obj, closure: Closure)
      ensures Valid() && Abs() == NewFrame(id, closure, [])
      ensures fresh(Repr() - {this})
      ensures this.id == id
    {
      this.id := id;
      this.closure := closure;
      var size := if closure.body.Bytecode? then REGISTERS_NUM else 0;
      registers := new Value[size](_ => NotPresent);
      registersObjectArray := new Option<Obj>[size](_ => None);
      generalStack := new Value[GENERAL_STACK_SIZE](_ => NotPresent);
      generalObjectStack := new Option<Obj>[GENERAL_STACK_SIZE](_ => None);
      flagRegister, pc, sp := 0, 0, 0;
    }

    // -------------------------------------------------------------- registers

    method GetRegister(index: nat) returns (r: Option<Value>)
      requires Valid()
      ensures r == Machine.GetRegister(Abs(), index)
    {
      if index == REGISTER_ENV {
        return Some(closure.env);
      } else if index == REGISTER_CURRENT {
        return Some(Fun(closure));
      } else if index == REGISTER_ALWAYS_NIL {
        return Some(Nil);
      }
      if index >= registers.Length {
        return None;
      }
      if registers[index].NotPresent? {
        return Some(Nil);
      }
      return Some(registers[index]);
    }

    /** False where an assertion fails. */
    method SetRegister(index: nat, v: Value) returns (ok: bool)
      requires Valid()
      modifies registers, registersObjectArray
      ensures Valid()
      ensures match Machine.SetRegister(old(Abs()), index, v)
              case Some(f) => ok && Abs() == f
              case None => !ok && Abs() == old(Abs())
    {
      if v.NotPresent? {
        return false;
      }
      if index != REGISTER_ENV && index >= RESERVED_START && index <= RESERVED_START {
        return true;
      }
      if index >= registers.Length {
        return false;
      }
      registers[index] := v;
      registersObjectArray[index] := ObjectPtr(v);
      return true;
    }

    // -------------------------------------------------------------- the value stack

    method Push(v: Value) returns (ok: bool)
      requires Valid() && (sp < GENERAL_STACK_SIZE ==> !v.NotPresent?)
      modifies this`sp, generalStack, generalObjectStack
      ensures Valid()
      ensures ok == (old(sp) < GENERAL_STACK_SIZE)
      ensures Abs() == if ok then old(Abs()).(stack := old(Slots()) + [v]) else old(Abs())
    {
      if sp >= GENERAL_STACK_SIZE {
        return false;
      }
      generalStack[sp] := v;
      generalObjectStack[sp] := ObjectPtr(v);
      sp := sp + 1;
      return true;
    }

    method Pop() returns (r: Option<Value>)
      requires Valid()
      modifies this`sp, generalStack, generalObjectStack
      ensures Valid()
      ensures r == if old(sp) == 0 then None else Some(old(Slots())[old(sp) - 1])
      ensures Abs() == if old(sp) == 0 then old(Abs()) else old(Abs()).(stack := old(Slots())[..old(sp) - 1])
    {
      if sp - 1 < 0 {
        return None;
      }
      sp := sp - 1;
      r := Some(generalStack[sp]);
      generalStack[sp] := NotPresent;
      generalObjectStack[sp] := None;
    }

    method Peek(index: int) returns (r: Option<Value>)
      requires Valid()
      ensures r == if 0 <= index < sp then Some(Slots()[index]) else None
    {
      if index < 0 || index >= sp {
        return None;
      }
      return Some(generalStack[index]);
    }

    /** Overwrites a live slot. */
    method SetSlot(index: nat, v: Value)
      requires Valid() && index < sp && !v.NotPresent?
      modifies generalStack, generalObjectStack
      ensures Valid() && Abs() == old(Abs()).(stack := old(Slots())[index := v])
    {
      generalStack[index] := v;
      generalObjectStack[index] := ObjectPtr(v);
    }

    // -------------------------------------------------------------- the Lua C API

    /** sig and the slots afterwards are what the specified outcome says. */
    ghost predicate Shows(out: ApiOut, sig: ApiSignal, was: Frame)
      requires Valid()
      reads this, registers, registersObjectArray, generalStack, generalObjectStack
    {
      match out
      case Replied(stack, reply) => sig == ApiReply(reply) && Abs() == was.(stack := stack)
      case Raised(stack, why) => sig == ApiError(why) && Abs() == was.(stack := stack)
      case Halted(reason) => sig == ApiHalt(reason)
    }

    method AbsIndex(idx: int) returns (r: Option<nat>)
      requires Valid()
      ensures r == LuaStack.AbsIndex(sp, idx)
    {
      var result := idx;
      if idx == 0 {
        return None;
      }
      if idx < 0 {
        result := sp + idx + 1;
        if result <= 0 {
          return None;
        }
      }
      if result > sp {
        return None;
      }
      return Some(result);
    }

    method GetValueAtStackIndex(idx: int) returns (sig: ApiSignal)
      requires Valid()
      ensures Shows(GetAt(Slots(), idx), sig, Abs())
    {
      if idx > 0 && (idx / 0x800_0000) % 2 == 1 {
        return ApiHalt(Aborted);
      }
      var k := AbsIndex(idx);
      if k.None? {
        return ApiError(InvalidStackIndex);
      }
      var v := Peek(k.value - 1);
      return ApiReply(Val(v.value));
    }

    method LuaPush(v: Value) returns (sig: ApiSignal)
      requires Valid()
      modifies this`sp, generalStack, generalObjectStack
      ensures Valid() && Shows(PushOne(old(Slots()), v), sig, old(Abs()))
    {
      if sp + 1 > GENERAL_STACK_SIZE {
        return ApiError(StackOverflow);
      }
      if v.NotPresent? {
        return ApiHalt(Aborted);
      }
      var ok := Push(v);
      return ApiReply(Unit);
    }

    /** Pops one slot at a time; too large a count empties the stack before it raises the error. */
    method LuaPop(count: int) returns (sig: ApiSignal)
      requires Valid()
      modifies this`sp, generalStack, generalObjectStack
      ensures Valid() && Shows(PopMany(old(Slots()), count), sig, old(Abs()))
    {
      if count == 0 {
        return ApiReply(Unit);
      }
      if count < 0 {
        return ApiError(NegativeCount);
      }
      var i := 0;
      while i < count
        invariant Valid() && 0 <= i <= count && i <= old(sp)
        invariant Abs() == old(Abs()).(stack := old(Slots())[..old(sp) - i])
      {
        var r := Pop();
        if r.None? {
          return ApiError(StackUnderflow);
        }
        i := i + 1;
      }
      return ApiReply(Unit);
    }

    method LuaCopy(fromIdx: int, toIdx: int) returns (sig: ApiSignal)
      requires Valid()
      modifies generalStack, generalObjectStack
      ensures Valid() && Shows(CopySlot(old(Slots()), fromIdx, toIdx), sig, old(Abs()))
    {
      var dest := AbsIndex(toIdx);
      if dest.None? {
        return ApiError(InvalidStackIndex);
      }
      sig := GetValueAtStackIndex(fromIdx);
      if sig.ApiReply? {
        SetSlot(dest.value - 1, sig.reply.v);
        sig := ApiReply(Unit);
      }
    }

    /** Copies a live slot to the one above it. */
    method MoveUp(index: nat)
      requires Valid() && index + 1 < sp
      modifies generalStack, generalObjectStack
      ensures Valid() && Abs() == old(Abs()).(stack := old(Slots())[index + 1 := old(Slots())[index]])
    {
      SetSlot(index + 1, generalStack[index]);
    }

    /** One pass of the rotation: the last of len slots from start on moves to the front of them. */
    method RotateOnce(start: nat, len: nat)
      requires Valid() && len > 0 && start + len == sp
      modifies generalStack, generalObjectStack
      ensures Valid()
      ensures var s := old(Slots());
              Abs() == old(Abs()).(stack := s[..start] + [s[sp - 1]] + s[start..sp - 1])
    {
      ghost var s := Slots();
      hide Shifted, Traces, FrameOk;
      NothingShifted(s);
      var last := generalStack[start + (len - 1)];
      var j := len - 1;
      while j > 0
        invariant Valid() && 0 <= j < len && start + len == sp
        invariant Abs() == old(Abs()).(stack := Shifted(s, start + j))
      {
        ShiftOneMore(s, start + j);
        MoveUp(start + (j - 1));
        j := j - 1;
      }
      assert start + j == start;
      SetSlot(start, last);
      AllShifted(s, start);
    }

    method RotatePass(start: nat, len: nat, ghost low: seq<Value>, ghost high: seq<Value>, ghost i: nat)
      requires Valid() && start + len == sp && |low| == start && i + 1 < |high| == len
      requires Slots() == low + Rotated(high, i)
      modifies generalStack, generalObjectStack
      ensures Valid() && Abs() == old(Abs()).(stack := low + Rotated(high, i + 1))
    {
      hide Rotated, Traces, FrameOk;
      RotatedOnceMore(low, high, i);
      RotateOnce(start, len);
    }

    /** The nested swap loops: distance passes, where distance is the C remainder made non-negative. */
    method RotateSlotsInPlace(start: nat, n: int)
      requires Valid() && start < sp
      modifies generalStack, generalObjectStack
      ensures Valid()
      ensures Abs() == old(Abs()).(stack := old(Slots())[..start] + Rotated(old(Slots())[start..], n))
    {
      hide Rotated, Traces, FrameOk;
      var len := sp - start;
      ghost var low, high := Slots()[..start], Slots()[start..];
      var distance := RotationDistance(n, len, high);
      if distance == 0 {
        RotatedByNothing(high);
        return;
      }
      RotatedByNothing(high);
      assert Slots() == low + high;
      var i := 0;
      while i < distance
        invariant Valid() && 0 <= i <= distance < len && sp == old(sp)
        invariant Abs() == old(Abs()).(stack := low + Rotated(high, i))
      {
        RotatePass(start, len, low, high, i);
        i := i + 1;
      }
    }

    /** The C remainder, made non-negative. */
    static method RotationDistance(n: int, len: int, ghost s: seq<Value>) returns (distance: int)
      requires len == |s| > 0
      ensures 0 <= distance < len && Rotated(s, distance) == Rotated(s, n)
    {
      CRemainder(n, len);
      distance := TruncMod(n, len);
      if distance < 0 {
        distance := len + distance;
      }
      RotatedByRemainder(s, n, distance);
    }

    method LuaRotate(idx: int, n: int) returns (sig: ApiSignal)
      requires Valid()
      modifies generalStack, generalObjectStack
      ensures Valid() && Shows(RotateSlots(old(Slots()), idx, n), sig, old(Abs()))
    {
      var k := AbsIndex(idx);
      if k.None? {
        return ApiError(InvalidStackIndex);
      }
      RotateSlotsInPlace(k.value - 1, n);
      return ApiReply(Unit);
    }

    method LuaRemove(idx: int) returns (sig: ApiSignal)
      requires Valid()
      modifies this`sp, generalStack, generalObjectStack
      ensures Valid() && Shows(ApiStep(old(Slots()), Remove(idx)), sig, old(Abs()))
    {
      sig := LuaRotate(idx, -1);
      if sig.ApiReply? {
        sig := LuaPop(1);
      }
    }

    method LuaReplace(idx: int) returns (sig: ApiSignal)
      requires Valid()
      modifies this`sp, generalStack, generalObjectStack
      ensures Valid() && Shows(ApiStep(old(Slots()), Replace(idx)), sig, old(Abs()))
    {
      sig := LuaCopy(-1, idx);
      if sig.ApiReply? {
        sig := LuaPop(1);
      }
    }

    method LuaPushValue(idx: int) returns (sig: ApiSignal)
      requires Valid()
      modifies this`sp, generalStack, generalObjectStack
      ensures Valid() && Shows(ApiStep(old(Slots()), PushValue(idx)), sig, old(Abs()))
    {
      if sp + 1 > GENERAL_STACK_SIZE {
        return ApiError(StackOverflow);
      }
      sig := GetValueAtStackIndex(idx);
      if sig.ApiReply? {
        sig := LuaPush(sig.reply.v);
      }
    }

    /** Every stack operation of the API, in place. */
    method Api(op: ApiOp) returns (sig: ApiSignal)
      requires Valid()
      modifies this`sp, generalStack, generalObjectStack
      ensures Valid() && Shows(ApiStep(old(Slots()), op), sig, old(Abs()))
    {
      match op
      case GetTop => sig := ApiReply(Number(sp));
      case AbsIndexOf(idx) =>
        var k := AbsIndex(idx);
        sig := if k.None? then ApiError(InvalidStackIndex) else ApiReply(Number(k.value));
      case CheckStack(count) =>
        sig := if count < 0 then ApiError(NegativeCount) else ApiReply(Flag(sp + count <= generalStack.Length));
      case ValueAt(idx) => sig := GetValueAtStackIndex(idx);
      case Push(v) => sig := LuaPush(v);
      case PushValue(idx) => sig := LuaPushValue(idx);
      case Copy(fromIdx, toIdx) => sig := LuaCopy(fromIdx, toIdx);
      case Pop(count) => sig := LuaPop(count);
      case Rotate(idx, n) => sig := LuaRotate(idx, n);
      case Remove(idx) => sig := LuaRemove(idx);
      case Replace(idx) => sig := LuaReplace(idx);
    }

    /** Pushes n slots from start on onto another stack; a push that does not fit fails without notice. */
    method PushOnto(to: CallState, start: nat, n: nat)
      requires Valid() && to.Valid() && Repr() !! to.Repr() && start + n == sp
      modifies to`sp, to.generalStack, to.generalObjectStack
      ensures Valid() && to.Valid() && Abs() == old(Abs())
      ensures to.Abs() == old(to.Abs()).(stack := Moved(old(to.Slots()), old(Slots())[start..]))
    {
      hide Traces, FrameOk;
      ghost var values := Slots()[start..];
      assert Moved(to.Slots(), values[..0]) == to.Slots();
      var i := 0;
      while i < n
        invariant Valid() && to.Valid() && 0 <= i <= n && Abs() == old(Abs())
        invariant to.Abs() == old(to.Abs()).(stack := Moved(old(to.Slots()), values[..i]))
      {
        MovedOneMore(old(to.Slots()), values, i);
        hide Moved;
        var ok := to.Push(generalStack[start + i]);
        i := i + 1;
      }
      assert values[..n] == values;
    }

    /** Pushes count of this frame's results onto the caller's stack until it is full: the last retCount slots,
        or all of them when there are fewer, and nil once they run out. */
    method PushResultsOnto(caller: CallState, retCount: int, count: nat) returns (ok: bool)
      requires Valid() && caller.Valid() && Repr() !! caller.Repr()
      modifies caller`sp, caller.generalStack, caller.generalObjectStack
      ensures Valid() && caller.Valid() && Abs() == old(Abs())
      ensures ok == (|old(caller.Slots())| + count <= GENERAL_STACK_SIZE)
      ensures caller.Abs()
           == old(caller.Abs()).(stack := Filled(old(caller.Slots()), Adjusted(Slots(), retCount, count)))
    {
      hide Traces, FrameOk, Adjusted, Filled;
      ghost var results := Adjusted(Slots(), retCount, count);
      FilledByNothing(caller.Slots(), results);
      var startPos := sp - retCount;
      if startPos < 0 {
        startPos := 0;
      }
      var i := 0;
      while i < count
        invariant Valid() && caller.Valid() && 0 <= i <= count && Abs() == old(Abs())
        invariant |old(caller.Slots())| + i <= GENERAL_STACK_SIZE
        invariant caller.Abs() == old(caller.Abs()).(stack := Filled(old(caller.Slots()), results[..i]))
        invariant |caller.Slots()| == |old(caller.Slots())| + i
      {
        AdjustedAt(Slots(), retCount, count, i);
        FilledByOneMore(old(caller.Slots()), results, i);
        var val := Nil;
        if startPos + i <= sp - 1 {
          val := generalStack[startPos + i];
        }
        ok := caller.Push(val);
        if !ok {
          FilledUp(old(caller.Slots()), results, i);
          return false;
        }
        i := i + 1;
      }
      assert results[..count] == results;
      return true;
    }

    /** Takes the arguments off the caller's stack and puts the results on it. */
    method FinishCall(caller: CallState, taken: nat, retCount: int, count: nat) returns (ok: bool)
      requires Valid() && caller.Valid() && Repr() !! caller.Repr() && taken <= caller.sp
      modifies caller`sp, caller.generalStack, caller.generalObjectStack
      ensures Valid() && caller.Valid() && Abs() == old(Abs())
      ensures var kept := old(caller.Slots())[..old(caller.sp) - taken];
              && ok == (|kept| + count <= GENERAL_STACK_SIZE)
              && caller.Abs() == old(caller.Abs()).(stack := Filled(kept, Adjusted(Slots(), retCount, count)))
    {
      hide Traces, FrameOk, Adjusted, Filled;
      var popped := caller.LuaPop(taken);
      ok := PushResultsOnto(caller, retCount, count);
    }

    /** lua_xmove to a coroutine whose fiber is in a state. */
    method XMove(to: CallState, state: Coroutines.FiberState, n: int) returns (sig: ApiSignal)
      requires Valid() && to.Valid() && Repr() !! to.Repr()
      modifies this`sp, generalStack, generalObjectStack, to`sp, to.generalStack, to.generalObjectStack
      ensures Valid() && to.Valid()
      ensures sig == if n < 0 then ApiError(NegativeCount)
                     else if state.Unborn? then ApiHalt(Undefined)
                     else if state.Running? then ApiError(XMoveOnRunning)
                     else if state.Dead? then ApiError(XMoveOnDead)
                     else if n == 0 then ApiReply(Unit)
                     else if old(to.sp) == GENERAL_STACK_SIZE then ApiError(StackOverflow)
                     else if n > old(sp) then ApiError(StackUnderflow)
                     else ApiReply(Unit)
      ensures !sig.ApiReply? ==> Abs() == old(Abs()) && to.Abs() == old(to.Abs())
      ensures sig.ApiReply? ==>
                && Abs() == old(Abs()).(stack := old(Slots())[..old(sp) - n])
                && to.Abs() == old(to.Abs()).(stack := Moved(old(to.Slots()), old(Slots())[old(sp) - n..]))
    {
      hide Traces, FrameOk;
      if n < 0 {
        return ApiError(NegativeCount);
      }
      if state.Unborn? {
        return ApiHalt(Undefined);
      }
      if state.Running? {
        return ApiError(XMoveOnRunning);
      } else if state.Dead? {
        return ApiError(XMoveOnDead);
      }
      if n == 0 {
        assert Moved(to.Slots(), []) == to.Slots();
        return ApiReply(Unit);
      }
      if to.sp + 1 > to.generalStack.Length {
        return ApiError(StackOverflow);
      }
      var moveStart := sp - n;
      if moveStart < 0 {
        return ApiError(StackUnderflow);
      }
      PushOnto(to, moveStart, n);
      sig := LuaPop(n);
    }
  }

  // ---------------------------------------------------------------- rotation, one place at a time

  lemma CRemainder(n: int, len: int)
    requires len > 0
    ensures var r := TruncMod(n, len);
            -len < r < len && n % len == if r < 0 then len + r else r
  {
    var q, r := TruncDiv(n, len), TruncMod(n, len);
    assert n == len * q + r;
    if n < 0 {
      var m := -n;
      assert m == len * (m / len) + m % len;
      if m % len == 0 {
        ModUnique(n, len, -(m / len), 0);
      } else {
        assert (-(m / len) - 1) * len == -(len * (m / len)) - len;
        ModUnique(n, len, -(m / len) - 1, len - m % len);
      }
    }
  }

  lemma RotatedByNothing<T>(s: seq<T>)
    ensures Rotated(s, 0) == s
  {
  }

  lemma RotatedByRemainder<T>(s: seq<T>, n: int, d: int)
    requires s != [] && d == n % |s|
    ensures Rotated(s, n) == Rotated(s, d)
  {
    ModUnique(d, |s|, 0, d);
  }

  lemma RotatedIs<T>(s: seq<T>, d: nat)
    requires d < |s|
    ensures Rotated(s, d) == s[|s| - d..] + s[..|s| - d]
  {
    ModUnique(d, |s|, 0, d);
  }

  lemma RotatedOnceMore<T>(low: seq<T>, high: seq<T>, i: nat)
    requires i + 1 < |high|
    ensures var s := low + Rotated(high, i);
            s[..|low|] + [s[|s| - 1]] + s[|low|..|s| - 1] == low + Rotated(high, i + 1)
  {
    hide Rotated;
    RotatedIs(high, i);
    RotatedIs(high, i + 1);
    var k := |high| - i;
    assert high[..k] == high[..k - 1] + [high[k - 1]];
    assert high[k - 1..] == [high[k - 1]] + high[k..];
    LastToFront(low, high[k..], high[..k - 1], high[k - 1]);
  }

  lemma LastToFront<T>(low: seq<T>, a: seq<T>, b: seq<T>, x: T)
    ensures var s := low + (a + (b + [x]));
            s[..|low|] + [s[|s| - 1]] + s[|low|..|s| - 1] == low + (([x] + a) + b)
  {
  }

  /** The values from position p up have moved up by one; the value at the end is gone. */
  function Shifted<T>(s: seq<T>, p: nat): (r: seq<T>)
    ensures |r| == |s|
  {
    seq(|s|, k requires 0 <= k < |s| => if k > p then s[k - 1] else s[k])
  }

  lemma NothingShifted<T>(s: seq<T>)
    ensures s != [] ==> Shifted(s, |s| - 1) == s
  {
  }

  lemma ShiftOneMore<T>(s: seq<T>, p: nat)
    requires 0 < p < |s|
    ensures Shifted(s, p)[p - 1] == s[p - 1] && Shifted(s, p)[p := s[p - 1]] == Shifted(s, p - 1)
  {
  }

  lemma AllShifted<T>(s: seq<T>, start: nat)
    requires start < |s|
    ensures Shifted(s, start)[start := s[|s| - 1]] == s[..start] + [s[|s| - 1]] + s[start..|s| - 1]
  {
  }

  lemma MovedOneMore(to: seq<Value>, values: seq<Value>, i: nat)
    requires |to| <= GENERAL_STACK_SIZE && i < |values|
    ensures var m := Moved(to, values[..i]);
            Moved(to, values[..i + 1]) == if |m| < GENERAL_STACK_SIZE then m + [values[i]] else m
  {
    assert values[..i + 1] == values[..i] + [values[i]];
  }

  lemma AdjustedAt(stack: seq<Value>, retCount: int, count: nat, i: nat)
    requires i < count
    ensures var start := if |stack| - retCount < 0 then 0 else |stack| - retCount;
            Adjusted(stack, retCount, count)[i] == if start + i < |stack| then stack[start + i] else Nil
  {
  }

  lemma FilledByNothing(stack: seq<Value>, values: seq<Value>)
    requires |stack| <= GENERAL_STACK_SIZE
    ensures Filled(stack, values[..0]) == stack
  {
  }

  lemma FilledByOneMore(stack: seq<Value>, values: seq<Value>, i: nat)
    requires i < |values|
    ensures |stack| + i < GENERAL_STACK_SIZE ==>
              Filled(stack, values[..i + 1]) == Filled(stack, values[..i]) + [values[i]]
  {
  }

  lemma FilledUp(stack: seq<Value>, values: seq<Value>, i: nat)
    requires i < |values| && |stack| + i == GENERAL_STACK_SIZE
    ensures Filled(stack, values[..i]) == Filled(stack, values)
  {
    assert values[..i] == values[..GENERAL_STACK_SIZE - |stack|];
    if i == 0 {
      assert stack + values[..0] == stack;
    }
  }
}
