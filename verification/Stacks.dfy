/** The bounded last-in first-out stack under call frames and coroutine nesting. */
module Stacks {
  import opened Values

  class Stack<T> {
    const stackSize: nat
    const stack: array<Option<T>>
    var sp: nat

    /** The slots below the stack pointer hold the contents; the others are cleared for the collector. */
    ghost predicate Valid()
      reads this, stack
    {
      && stack.Length == stackSize && sp <= stackSize
      && (forall i :: 0 <= i < sp ==> stack[i].Some?)
      && (forall i :: sp <= i < stackSize ==> stack[i].None?)
    }

    ghost function Contents(): (s: seq<T>)
      requires Valid()
      reads this, stack
      ensures |s| == sp
    {
      seq(sp, i requires Valid() && 0 <= i < sp reads this, stack => stack[i].value)
    }

    constructor (size: nat)
      ensures Valid() && fresh(stack) && stackSize == size && Contents() == []
    {
      stackSize := size;
      stack := new Option<T>[size](_ => None);
      sp := 0;
    }

    method Push(x: T) returns (ok: bool)
      requires Valid()
      modifies this`sp, stack
      ensures Valid()
      ensures ok == (|old(Contents())| < stackSize)
      ensures Contents() == if ok then old(Contents()) + [x] else old(Contents())
    {
      if sp >= stackSize {
        return false;
      }
      stack[sp] := Some(x);
      sp := sp + 1;
      return true;
    }

    method Pop() returns (ok: bool)
      requires Valid()
      modifies this`sp, stack
      ensures Valid()
      ensures ok == (old(Contents()) != [])
      ensures Contents() == if ok then old(Contents())[..|old(Contents())| - 1] else []
    {
      if sp == 0 {
        return false;
      }
      sp := sp - 1;
      stack[sp] := None;
      return true;
    }

    method Peek() returns (r: Option<T>)
      requires Valid()
      ensures r == if Contents() == [] then None else Some(Contents()[|Contents()| - 1])
    {
      if sp == 0 {
        return None;
      }
      return stack[sp - 1];
    }
  }
}
