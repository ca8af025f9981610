/** The stack operations of the Lua 5.4 C API as functions on the sequence of live stack slots,
    and what section 4.6 of the Lua 5.4 Reference Manual promises about them. */
module LuaStack {
  import opened Arithmetic
  import opened Bits
  import opened Values

  const GENERAL_STACK_SIZE := 256

  datatype ErrMsg =
    | StackOverflow | StackUnderflow | BadOperands | BadJump | IllegalInstruction | NotIndexable
    | CallNil | CallNonCallable | InvalidStackIndex | NegativeCount | XMoveOnRunning | XMoveOnDead
    | User(v: Value)

  /** Why the host process ends: a failed assertion or abort, a hardware trap,
      a mutex locked twice by one thread, or an access the C language leaves undefined. */
  datatype StopReason = Aborted | Trapped | Deadlocked | Undefined

  datatype Reply = Unit | Number(n: int) | Flag(b: bool) | Val(v: Value)

  datatype ApiOp =
    | GetTop
    | AbsIndexOf(idx: int)
    | CheckStack(count: int)
    | ValueAt(idx: int)
    | Push(v: Value)
    | PushValue(idx: int)
    | Copy(fromIdx: int, toIdx: int)
    | Pop(count: int)
    | Rotate(idx: int, n: int)
    | Remove(idx: int)
    | Replace(idx: int)

  datatype ApiOut =
    | Replied(stack: seq<Value>, reply: Reply)
    | Raised(stack: seq<Value>, why: ErrMsg)
    | Halted(reason: StopReason)

  ghost predicate Live(stack: seq<Value>) {
    |stack| <= GENERAL_STACK_SIZE && forall i :: 0 <= i < |stack| ==> !stack[i].NotPresent?
  }

  // ---------------------------------------------------------------- the operations

  /** Right rotation by n places; n may be negative or exceed the length. */
  function Rotated<T>(s: seq<T>, n: int): (r: seq<T>)
    ensures |r| == |s|
  {
    if s == [] then [] else var d := n % |s|; s[|s| - d..] + s[..|s| - d]
  }

  /** One-based absolute position of an acceptable index; None where the API raises an error. */
  function AbsIndex(sp: nat, idx: int): (r: Option<nat>)
    ensures r.Some? ==> 1 <= r.value <= sp
  {
    if idx == 0 then None
    else
      var result := if idx < 0 then sp + idx + 1 else idx;
      if result <= 0 || result > sp then None else Some(result)
  }

  /** Positive indices with this bit set are pseudo-indices, none of which is known. */
  predicate IsPseudo(idx: int) {
    idx > 0 && (idx / 0x800_0000) % 2 == 1
  }

  function GetAt(stack: seq<Value>, idx: int): ApiOut
  {
    if IsPseudo(idx) then Halted(Aborted)
    else match AbsIndex(|stack|, idx)
      case None => Raised(stack, InvalidStackIndex)
      case Some(k) => Replied(stack, Val(stack[k - 1]))
  }

  function PushOne(stack: seq<Value>, v: Value): ApiOut
  {
    if |stack| + 1 > GENERAL_STACK_SIZE then Raised(stack, StackOverflow)
    else if v.NotPresent? then Halted(Aborted)
    else Replied(stack + [v], Unit)
  }

  function PopMany(stack: seq<Value>, count: int): ApiOut
  {
    if count < 0 then Raised(stack, NegativeCount)
    else if count > |stack| then Raised([], StackUnderflow)
    else Replied(stack[..|stack| - count], Unit)
  }

  function CopySlot(stack: seq<Value>, fromIdx: int, toIdx: int): ApiOut
  {
    match AbsIndex(|stack|, toIdx)
    case None => Raised(stack, InvalidStackIndex)
    case Some(dest) =>
      match GetAt(stack, fromIdx)
      case Replied(_, Val(v)) => Replied(stack[dest - 1 := v], Unit)
      case other => other
  }

  function RotateSlots(stack: seq<Value>, idx: int, n: int): ApiOut
  {
    match AbsIndex(|stack|, idx)
    case None => Raised(stack, InvalidStackIndex)
    case Some(k) => Replied(stack[..k - 1] + Rotated(stack[k - 1..], n), Unit)
  }

  function ThenPopOne(out: ApiOut): ApiOut
  {
    if out.Replied? then PopMany(out.stack, 1) else out
  }

  function ApiStep(stack: seq<Value>, op: ApiOp): ApiOut
  {
    match op
    case GetTop => Replied(stack, Number(|stack|))
    case AbsIndexOf(idx) =>
      (match AbsIndex(|stack|, idx)
       case None => Raised(stack, InvalidStackIndex)
       case Some(k) => Replied(stack, Number(k)))
    case CheckStack(count) =>
      if count < 0 then Raised(stack, NegativeCount)
      else Replied(stack, Flag(|stack| + count <= GENERAL_STACK_SIZE))
    case ValueAt(idx) => GetAt(stack, idx)
    case Push(v) => PushOne(stack, v)
    case PushValue(idx) =>
      if |stack| + 1 > GENERAL_STACK_SIZE then Raised(stack, StackOverflow)
      else (match GetAt(stack, idx)
            case Replied(_, Val(v)) => PushOne(stack, v)
            case other => other)
    case Copy(fromIdx, toIdx) => CopySlot(stack, fromIdx, toIdx)
    case Pop(count) => PopMany(stack, count)
    case Rotate(idx, n) => RotateSlots(stack, idx, n)
    case Remove(idx) => ThenPopOne(RotateSlots(stack, idx, -1))
    case Replace(idx) => ThenPopOne(CopySlot(stack, -1, idx))
  }

  /** lua_xmove: one free slot is all the destination is checked for, and pushes that do not fit are dropped. */
  function Moved(to: seq<Value>, values: seq<Value>): seq<Value>
    requires |to| <= GENERAL_STACK_SIZE
  {
    to + (if |to| + |values| <= GENERAL_STACK_SIZE then values else values[..GENERAL_STACK_SIZE - |to|])
  }

  // ---------------------------------------------------------------- laws of rotation

  /** Where rotation by n takes the place i of a sequence. */
  function Place(i: int, n: int, len: int): (j: nat)
    requires len > 0
    ensures j < len
  {
    (i + n) % len
  }

  lemma PlaceTwice(i: int, a: int, b: int, len: int)
    requires len > 0
    ensures Place(Place(i, a, len), b, len) == Place(i, a + b, len)
  {
    ModShift(i + a, b, len);
    assert (i + a) + b == i + (a + b);
  }

  /** Every place is where some place is taken. */
  lemma PlaceBack(j: nat, n: int, len: int)
    requires j < len
    ensures Place(Place(j, -n, len), n, len) == j
  {
    PlaceTwice(j, -n, n, len);
    ModUnique(j, len, 0, j);
  }

  lemma RotatedAt<T>(s: seq<T>, n: int, i: nat)
    requires i < |s|
    ensures Rotated(s, n)[Place(i, n, |s|)] == s[i]
  {
    var len := |s|;
    var d, q := n % len, n / len;
    assert n == q * len + d;
    PlaceByRemainder(i, n, len, q, d);
  }

  lemma PlaceByRemainder(i: nat, n: int, len: int, q: int, d: nat)
    requires i < len && d < len && n == q * len + d
    ensures Place(i, n, len) == if i + d < len then i + d else i + d - len
  {
    if i + d < len {
      ModUnique(i + n, len, q, i + d);
    } else {
      assert (q + 1) * len == q * len + len;
      ModUnique(i + n, len, q + 1, i + d - len);
    }
  }

  /** The place an element lands at determines the rotation. */
  lemma RotatedUnique<T>(s: seq<T>, n: int, t: seq<T>)
    requires |t| == |s|
    requires forall i :: 0 <= i < |s| ==> t[Place(i, n, |s|)] == s[i]
    ensures t == Rotated(s, n)
  {
    hide Rotated, Place;
    forall j | 0 <= j < |s|
      ensures t[j] == Rotated(s, n)[j]
    {
      var i := Place(j, -n, |s|);
      PlaceBack(j, n, |s|);
      RotatedAt(s, n, i);
      assert t[Place(i, n, |s|)] == s[i];
    }
  }

  lemma RotatedTwice<T>(s: seq<T>, a: int, b: int)
    ensures Rotated(Rotated(s, a), b) == Rotated(s, a + b)
  {
    hide Rotated, Place;
    if s == [] {
      assert Rotated(Rotated(s, a), b) == [] == Rotated(s, a + b);
    } else {
      forall i | 0 <= i < |s|
        ensures Rotated(Rotated(s, a), b)[Place(i, a + b, |s|)] == s[i]
      {
        RotatedAt(s, a, i);
        RotatedAt(Rotated(s, a), b, Place(i, a, |s|));
        PlaceTwice(i, a, b, |s|);
      }
      RotatedUnique(s, a + b, Rotated(Rotated(s, a), b));
    }
  }

  /** Rotating by n and then by -n restores the stack, and no rotation gains or loses a value. */
  lemma RotatedUndoes<T>(s: seq<T>, n: int)
    ensures Rotated(Rotated(s, n), -n) == s
    ensures multiset(Rotated(s, n)) == multiset(s)
  {
    RotatedTwice(s, n, -n);
    if s != [] {
      var d := n % |s|;
      assert s == s[..|s| - d] + s[|s| - d..];
    }
  }

  // ---------------------------------------------------------------- laws of the operations

  lemma RotateByMinusOne<T>(s: seq<T>)
    requires s != []
    ensures Rotated(s, -1) == s[1..] + [s[0]]
  {
    if |s| == 1 {
      assert -1 % 1 == 0;
    } else {
      ModUnique(-1, |s|, -1, |s| - 1);
    }
  }

  /** lua_remove deletes one slot and shifts the ones above it down; nothing else changes. */
  lemma RemoveDeletes(stack: seq<Value>, idx: int)
    ensures match AbsIndex(|stack|, idx)
            case Some(k) => ApiStep(stack, Remove(idx)) == Replied(stack[..k - 1] + stack[k..], Unit)
            case None => ApiStep(stack, Remove(idx)) == Raised(stack, InvalidStackIndex)
  {
    hide Rotated;
    match AbsIndex(|stack|, idx)
    case None =>
    case Some(k) =>
      var top := stack[k - 1..];
      RotateByMinusOne(top);
      assert top[1..] == stack[k..];
      var rotated := stack[..k - 1] + (top[1..] + [top[0]]);
      assert rotated[..|rotated| - 1] == stack[..k - 1] + stack[k..];
  }

  /** lua_replace moves the top value into a slot without shifting and pops it. */
  lemma ReplaceMovesTop(stack: seq<Value>, idx: int)
    ensures match AbsIndex(|stack|, idx)
            case Some(k) =>
              var n := |stack| - 1;
              ApiStep(stack, Replace(idx))
              == Replied(if k - 1 == n then stack[..n] else stack[..n][k - 1 := stack[n]], Unit)
            case None => ApiStep(stack, Replace(idx)) == Raised(stack, InvalidStackIndex)
  {
    match AbsIndex(|stack|, idx)
    case None =>
    case Some(k) =>
      var n := |stack| - 1;
      var copied := stack[k - 1 := stack[n]];
      assert copied[..n] == if k - 1 == n then stack[..n] else stack[..n][k - 1 := stack[n]];
  }

  /** lua_absindex answers with the positive index of the same slot. */
  lemma AbsIndexNamesTheSlot(stack: seq<Value>, idx: int)
    ensures 1 <= idx <= |stack| ==> ApiStep(stack, AbsIndexOf(idx)) == Replied(stack, Number(idx))
    ensures -|stack| <= idx <= -1 ==> ApiStep(stack, AbsIndexOf(idx)) == Replied(stack, Number(|stack| + 1 + idx))
    ensures idx == 0 || idx > |stack| || idx < -|stack| ==>
              ApiStep(stack, AbsIndexOf(idx)) == Raised(stack, InvalidStackIndex)
  {
  }

  /** lua_rotate, slot by slot, for every n: with k the position of the index, the slots below k stay where they are,
      and each of the m slots from k on moves n places up, round the end of the stack. */
  lemma RotateMoves(stack: seq<Value>, idx: int, n: int, i: nat)
    ensures match AbsIndex(|stack|, idx)
            case Some(k) =>
              var out, m := ApiStep(stack, Rotate(idx, n)), |stack| - k + 1;
              && out.Replied? && out.reply == Unit && |out.stack| == |stack|
              && out.stack[..k - 1] == stack[..k - 1]
              && (i < m ==> out.stack[k - 1 + (i + n) % m] == stack[k - 1 + i])
            case None => ApiStep(stack, Rotate(idx, n)) == Raised(stack, InvalidStackIndex)
  {
    hide Rotated;
    match AbsIndex(|stack|, idx)
    case None =>
    case Some(k) =>
      if i < |stack[k - 1..]| {
        RotatedAt(stack[k - 1..], n, i);
      }
  }

  /** lua_copy writes one slot into another; the destination is looked at first, and no other slot changes. */
  lemma CopyWritesOne(stack: seq<Value>, fromIdx: int, toIdx: int)
    ensures var out := ApiStep(stack, Copy(fromIdx, toIdx));
            match (AbsIndex(|stack|, toIdx), AbsIndex(|stack|, fromIdx))
            case (Some(d), Some(k)) =>
              !IsPseudo(fromIdx) ==>
                && out.Replied? && |out.stack| == |stack| && out.stack[d - 1] == stack[k - 1]
                && forall i :: 0 <= i < |stack| && i != d - 1 ==> out.stack[i] == stack[i]
            case (None, _) => out == Raised(stack, InvalidStackIndex)
            case (Some(_), None) => !IsPseudo(fromIdx) ==> out == Raised(stack, InvalidStackIndex)
  {
  }

  /** lua_pushvalue puts a copy of a slot on top, and the full stack is an error before a bad index is. */
  lemma PushValueCopies(stack: seq<Value>, idx: int)
    requires Live(stack) && !IsPseudo(idx)
    ensures var out := ApiStep(stack, PushValue(idx));
            if |stack| == GENERAL_STACK_SIZE then out == Raised(stack, StackOverflow)
            else match AbsIndex(|stack|, idx)
              case Some(k) => out.Replied? && |out.stack| == |stack| + 1 && out.stack[..|stack|] == stack
                              && out.stack[|stack|] == stack[k - 1]
              case None => out == Raised(stack, InvalidStackIndex)
  {
  }

  /** lua_pop takes off exactly what has been pushed; a count beyond the stack empties it before the error. */
  lemma PopUndoesPushes(stack: seq<Value>, values: seq<Value>, count: int)
    requires |stack + values| <= GENERAL_STACK_SIZE
    ensures ApiStep(stack + values, Pop(|values|)) == Replied(stack, Unit)
    ensures count > |stack| ==> ApiStep(stack, Pop(count)) == Raised([], StackUnderflow)
    ensures count < 0 ==> ApiStep(stack, Pop(count)) == Raised(stack, NegativeCount)
  {
    assert (stack + values)[..|stack|] == stack;
  }

  /** lua_checkstack says yes exactly when so many pushes succeed, and lua_gettop counts the slots. */
  lemma CheckStackIsRoom(stack: seq<Value>, values: seq<Value>, v: Value)
    requires Live(stack) && !v.NotPresent?
    ensures ApiStep(stack, CheckStack(|values|)) == Replied(stack, Flag(|stack + values| <= GENERAL_STACK_SIZE))
    ensures ApiStep(stack, CheckStack(1)) == Replied(stack, Flag(ApiStep(stack, Push(v)).Replied?))
    ensures ApiStep(stack, Push(v)).Replied? ==> ApiStep(stack, Push(v)) == Replied(stack + [v], Unit)
    ensures !ApiStep(stack, Push(v)).Replied? ==> ApiStep(stack, Push(v)) == Raised(stack, StackOverflow)
    ensures ApiStep(stack, GetTop) == Replied(stack, Number(|stack|))
  {
  }

  /** An index is pseudo exactly when it is positive and has the bit of the header's mask; stack indices do not. */
  lemma PseudoIsMask(idx: int)
    ensures IsPseudo(idx) <==> idx > 0 && And(idx, 0x800_0000) != 0
    ensures idx <= GENERAL_STACK_SIZE ==> !IsPseudo(idx)
    ensures IsPseudo(idx) ==> ApiStep([], ValueAt(idx)) == Halted(Aborted)
  {
    hide And, Bit, Pow2;
    if idx > 0 {
      AndOfPower(idx, 27);
      BitIsQuotient(idx, 27);
      MaskIsPower();
    }
    if 0 < idx <= GENERAL_STACK_SIZE {
      SmallQuotient(idx);
    }
  }

  lemma MaskIsPower()
    ensures Pow2(27) == 0x800_0000
  {
    assert Pow2(9) == 0x200 && Pow2(18) == 0x4_0000;
  }

  lemma SmallQuotient(idx: int)
    requires 0 < idx <= 256
    ensures idx / 0x800_0000 == 0
  {
  }

  /** A negative index names the same slot as the positive index counted from the other end. */
  lemma NegativeIndex(sp: nat, idx: int)
    requires 1 <= idx <= sp
    ensures AbsIndex(sp, idx) == AbsIndex(sp, idx - sp - 1) == Some(idx)
  {
  }

  /** Every operation keeps the slots live. */
  lemma ApiKeepsLive(stack: seq<Value>, op: ApiOp)
    requires Live(stack)
    ensures !ApiStep(stack, op).Halted? ==> Live(ApiStep(stack, op).stack)
  {
    hide Rotated;
    match op
    case Rotate(idx, n) => RotateKeepsLive(stack, idx, n);
    case Remove(idx) => RotateKeepsLive(stack, idx, -1);
    case _ =>
  }

  lemma RotateKeepsLive(stack: seq<Value>, idx: int, n: int)
    requires Live(stack)
    ensures RotateSlots(stack, idx, n).Replied? ==> Live(RotateSlots(stack, idx, n).stack)
  {
    hide Rotated;
    match AbsIndex(|stack|, idx)
    case None =>
    case Some(k) =>
      var top := stack[k - 1..];
      RotatedUndoes(top, n);
      forall v | v in Rotated(top, n)
        ensures !v.NotPresent?
      {
        assert v in multiset(Rotated(top, n));
        assert v in multiset(top);
        assert v in top;
      }
  }

  /** The destination of lua_xmove gets the moved values in their order, as many as there is room for. */
  lemma MovedInOrder(to: seq<Value>, values: seq<Value>)
    requires |to| <= GENERAL_STACK_SIZE
    ensures to <= Moved(to, values) <= to + values
    ensures |Moved(to, values)| == if |to| + |values| <= GENERAL_STACK_SIZE then |to| + |values| else GENERAL_STACK_SIZE
  {
  }

  /** lua_xmove keeps every value exactly when the destination has room for all of them. */
  lemma XMoveConserves(from: seq<Value>, to: seq<Value>, n: nat)
    requires n <= |from| && |to| <= GENERAL_STACK_SIZE
    ensures var rest, moved := from[..|from| - n], Moved(to, from[|from| - n..]);
            multiset(rest) + multiset(moved) == multiset(from) + multiset(to) <==> |to| + n <= GENERAL_STACK_SIZE
  {
    var rest, tail := from[..|from| - n], from[|from| - n..];
    var moved := Moved(to, tail);
    assert from == rest + tail;
    if |to| + n <= GENERAL_STACK_SIZE {
      assert multiset(rest) + multiset(moved) == multiset(from) + multiset(to);
    } else {
      assert |multiset(rest) + multiset(moved)| < |multiset(from) + multiset(to)|;
    }
  }
}
