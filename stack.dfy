/** The stack of `Stack.java`: a last-in first-out stack over a linked list
    that is only ever used at its end (`addLast`, `removeLast`,
    `peekLast`). The list is modelled by the sequence of its elements,
    bottom first, so the top of the stack is the last element. */
module Stacks {
  import opened Common

  class Stack<T> {
    /** The backing list, bottom of the stack first. */
    var list: seq<T>

    /** `Stack()`: an empty stack. */
    constructor()
      ensures list == []
    {
      list := [];
    }

    /** `Stack(firstElem)`: a stack holding just `firstElem`, which is on
        top. */
    constructor WithElement(firstElem: T)
      ensures list == [firstElem]
      ensures Peek() == Ok(firstElem) && Size() == 1
    {
      list := [firstElem];
    }

    /** The number of elements: pushes minus successful pops. */
    function Size(): (n: nat)
      reads this
      ensures n == |list|
    {
      |list|
    }

    function IsEmpty(): (b: bool)
      reads this
      ensures b <==> list == []
      ensures b <==> Size() == 0
    {
      Size() == 0
    }

    /** `push`: the element goes on top. */
    method Push(elem: T)
      modifies this
      ensures list == old(list) + [elem]
      ensures Size() == old(Size()) + 1
    {
      list := list + [elem];
    }

    /** `pop`: `EmptyStackException` on an empty stack; otherwise the top
        element is removed and returned. */
    method Pop() returns (r: Result<T>)
      modifies this
      ensures old(list) == [] ==> r == Err(EmptyStack) && list == old(list)
      ensures old(list) != [] ==> r == Ok(old(list)[|old(list)| - 1]) && list == old(list)[..|old(list)| - 1]
      ensures r == old(Peek())
    {
      if IsEmpty() {
        return Err(EmptyStack);
      }
      r := Ok(list[|list| - 1]);
      list := list[..|list| - 1];
    }

    /** `peek`: `EmptyStackException` on an empty stack; otherwise the top
        element, the one `pop` would return, with nothing changed. */
    function Peek(): (r: Result<T>)
      reads this
      ensures r.Err? <==> list == []
      ensures r.Err? ==> r.error == EmptyStack
      ensures r.Ok? ==> |list| > 0 && r.value == list[|list| - 1]
    {
      if IsEmpty() then Err(EmptyStack) else Ok(list[|list| - 1])
    }
  }

  /** Last in, first out: a pop right after a push returns the pushed
      element and leaves the stack as it was before the push. */
  method PushThenPop<T>(s: Stack<T>, x: T) returns (r: Result<T>)
    modifies s
    ensures r == Ok(x)
    ensures s.list == old(s.list)
  {
    s.Push(x);
    assert s.list[..|s.list| - 1] == old(s.list);
    r := s.Pop();
  }

  /** A peek followed by a pop sees the same element twice. */
  method PeekThenPop<T>(s: Stack<T>) returns (p: Result<T>, q: Result<T>)
    modifies s
    ensures p == q
    ensures p.Err? <==> old(s.list) == []
  {
    p := s.Peek();
    q := s.Pop();
  }
}
