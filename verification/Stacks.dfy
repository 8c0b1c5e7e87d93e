/** stack/stack.c: a stack of at most MAX_STACK_SIZE elements in a fixed array. */
module Stacks {

  const MAX_STACK_SIZE := 256

  datatype Option<T> = None | Some(value: T)

  class Stack<T(0)> {
    const slot: array<T>
    var top: int

    ghost predicate Valid()
      reads this
    {
      slot.Length == MAX_STACK_SIZE && -1 <= top < MAX_STACK_SIZE
    }

    /** The elements, the top one last. */
    ghost function Contents(): (s: seq<T>)
      requires Valid()
      reads this, slot
      ensures |s| == top + 1
    {
      slot[..top + 1]
    }

    /** get_new_stack. */
    constructor ()
      ensures Valid() && Contents() == [] && fresh(slot)
    {
      slot := new T[MAX_STACK_SIZE];
      top := -1;
    }

    /** The room must be there: with top at MAX_STACK_SIZE - 1 the original would store past its array. */
    method Push(x: T)
      requires Valid() && |Contents()| < MAX_STACK_SIZE
      modifies this`top, slot
      ensures Valid() && Contents() == old(Contents()) + [x]
    {
      top := top + 1;
      slot[top] := x;
    }

    /** The top element, or nothing from an empty stack. */
    method Pop() returns (x: Option<T>)
      requires Valid()
      modifies this`top, slot
      ensures Valid()
      ensures if old(Contents()) == [] then x == None && Contents() == []
              else x == Some(old(Contents())[old(top)]) && Contents() == old(Contents())[..old(top)]
    {
      if top == -1 {
        return None;
      }
      x := Some(slot[top]);
      top := top - 1;
    }

    predicate IsEmpty()
      requires Valid()
      reads this, slot
      ensures IsEmpty() <==> Contents() == []
    {
      top == -1
    }

    method Peek() returns (x: T)
      requires Valid() && Contents() != []
      ensures x == Contents()[top]
    {
      x := slot[top];
    }
  }
}
