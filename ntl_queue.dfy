/**
 * The library's queue (`ntl::Queue`): a linked list whose front is the
 * oldest element.  `Put` appends at the tail of the list and `Get` unlinks
 * the node after the sentinel, so the queue's contents, oldest first, are
 * the list's values.
 */
module NtlQueue {
  import opened NtlList

  class Queue {
    var data: List

    /** The list is well linked, its tail is in place and its size counter
        is right. */
    ghost predicate Valid()
      reads this, data, data.Nodes
    {
      data.Valid() && data.TailOk() && data.SizeTracked()
    }

    /** The elements, oldest first. */
    ghost function Contents(): seq<int>
      reads this, data
    {
      data.Contents
    }

    /** `Queue()`: an empty queue. */
    constructor ()
      ensures Valid() && Contents() == [] && fresh(data) && fresh(data.head)
    {
      data := new List();
    }

    /** `Put(x)`: `x` joins at the back. */
    method Put(x: int)
      requires Valid()
      modifies data, data.tail
      ensures Valid() && Contents() == old(Contents()) + [x]
      ensures data.head == old(data.head) && fresh(data.tail)
    {
      var node := data.InsertBack(x);
    }

    /** `Get()`: removes and returns the oldest element; the queue must not
        be empty (the library reads through the missing first node
        otherwise). */
    method Get() returns (x: int)
      requires Valid() && Contents() != []
      modifies data, data.head
      ensures Valid() && x == old(Contents()[0]) && Contents() == old(Contents()[1..])
      ensures data.head == old(data.head)
      ensures data.tail == old(data.tail) || data.tail == data.head
    {
      x := data.GetFront().value;
      data.RemoveAfter(data.GetHead());
      assert data.Contents == old(data.Contents[1..]);
    }

    /** `Peek()`: the oldest element, left in place. */
    function Peek(): (x: int)
      requires Valid() && Contents() != []
      reads this, data, data.Nodes
      ensures x == Contents()[0]
    {
      data.GetFront().value
    }

    /** `GetSize()`: the number of elements. */
    function GetSize(): (n: nat)
      requires Valid()
      reads this, data, data.Nodes
      ensures n == |Contents()|
    {
      data.GetSize()
    }

    /** `IsEmpty()`: no element is waiting. */
    function IsEmpty(): (b: bool)
      requires Valid()
      reads this, data, data.Nodes
      ensures b <==> |Contents()| == 0
    {
      data.IsEmpty()
    }
  }

  /** First in, first out: after putting `x` into a non-empty queue, `Get`
      returns the element that was oldest before, and `x` is now last. */
  method PutThenGet(q: Queue, x: int) returns (y: int)
    requires q.Valid() && q.Contents() != []
    modifies q.data, q.data.tail, q.data.head
    ensures q.Valid() && y == old(q.Contents()[0])
    ensures q.Contents() == old(q.Contents()[1..]) + [x]
  {
    q.Put(x);
    y := q.Get();
  }

  /** The scenario of the library's tests: put 2, 4, 8 (size 3, front 2),
      then three gets see 2, 4, 8 and leave the queue empty. */
  method QueueExample() returns (got: seq<int>, size: nat, front: int, empty: bool)
    ensures got == [2, 4, 8] && size == 3 && front == 2 && empty
  {
    var q := PutExample();
    front, size := q.Peek(), q.GetSize();
    var a := q.Get();
    var b := q.Get();
    var c := q.Get();
    got, empty := [a, b, c], q.IsEmpty();
  }

  method PutExample() returns (q: Queue)
    ensures fresh(q) && fresh(q.data) && fresh(q.data.head)
    ensures q.Valid() && q.Contents() == [2, 4, 8]
  {
    q := new Queue();
    q.Put(2);
    q.Put(4);
    q.Put(8);
  }
}
