/**
 * The library's stack (`ntl::Stack`): a linked list whose front is the top.
 * `Push` inserts at the front of the list and `Pop` unlinks the node after
 * the sentinel, so the stack's contents, top first, are the list's values.
 */
module NtlStack {
  import opened NtlList

  class Stack {
    var data: List

    /** The list is well linked and its size counter is right. */
    ghost predicate Valid()
      reads this, data, data.Nodes
    {
      data.Valid() && data.SizeTracked()
    }

    /** The elements, most recently pushed first. */
    ghost function Contents(): seq<int>
      reads this, data
    {
      data.Contents
    }

    /** `Stack()`: an empty stack. */
    constructor ()
      ensures Valid() && Contents() == [] && fresh(data) && fresh(data.head)
    {
      data := new List();
    }

    /** `Push(x)`: `x` goes on top. */
    method Push(x: int)
      requires Valid()
      modifies data, data.head
      ensures Valid() && Contents() == [x] + old(Contents())
      ensures data.head == old(data.head)
    {
      var node := data.InsertFront(x);
    }

    /** `Pop()`: removes and returns the top element; the stack must not be
        empty (the library reads through the missing first node otherwise). */
    method Pop() returns (x: int)
      requires Valid() && Contents() != []
      modifies data, data.head
      ensures Valid() && x == old(Contents()[0]) && Contents() == old(Contents()[1..])
      ensures data.head == old(data.head)
    {
      x := data.GetFront().value;
      data.RemoveAfter(data.GetHead());
      assert data.Contents == old(data.Contents[1..]);
    }

    /** `Peek()`: the top element, left in place. */
    function Peek(): (x: int)
      requires Valid() && Contents() != []
      reads this, data, data.Nodes
      ensures x == Contents()[0]
    {
      data.GetFront().value
    }

    /** `GetSize()`: the number of elements. */
    function GetSize(): (n: nat)
      requires Valid()
      reads this, data, data.Nodes
      ensures n == |Contents()|
    {
      data.GetSize()
    }

    /** `IsEmpty()`: no element is on the stack. */
    function IsEmpty(): (b: bool)
      requires Valid()
      reads this, data, data.Nodes
      ensures b <==> |Contents()| == 0
    {
      data.IsEmpty()
    }
  }

  /** Last in, first out: popping right after pushing `x` gives `x` back and
      leaves the stack as it was. */
  method PushThenPop(s: Stack, x: int) returns (y: int)
    requires s.Valid()
    modifies s.data, s.data.head
    ensures s.Valid() && y == x && s.Contents() == old(s.Contents())
  {
    s.Push(x);
    y := s.Pop();
  }

  /** The scenario of the library's tests: push 2, 4, 8 (size 3, top 8),
      then three pops see 8, 4, 2 and leave the stack empty. */
  method StackExample() returns (popped: seq<int>, size: nat, top: int, empty: bool)
    ensures popped == [8, 4, 2] && size == 3 && top == 8 && empty
  {
    var s := PushedExample();
    top, size := s.Peek(), s.GetSize();
    var a := s.Pop();
    var b := s.Pop();
    var c := s.Pop();
    popped, empty := [a, b, c], s.IsEmpty();
  }

  method PushedExample() returns (s: Stack)
    ensures fresh(s) && fresh(s.data) && fresh(s.data.head)
    ensures s.Valid() && s.Contents() == [8, 4, 2]
  {
    s := new Stack();
    s.Push(2);
    s.Push(4);
    s.Push(8);
  }
}
