/**
 * The library's singly linked list (`ntl::List`) of `int` values.
 *
 * A list owns a sentinel node `head` whose `next` is the first element node;
 * `tail` is meant to point at the last node (at the sentinel when the list is
 * empty) and `size` counts the elements.  The ghost sequence `Nodes` lists
 * the sentinel followed by the element nodes in order, and `Contents` the
 * values they hold.  `Valid()` says that the links follow `Nodes`; whether
 * `tail` and `size` are right is stated apart (`TailOk`, `SizeTracked`),
 * because `Clear` leaves `tail` where it was and `RemoveElement` lowers
 * `size` even when it removes nothing.
 */
module NtlList {
  import opened Base
  import NtlString
  import NtlArray

  /** `List<T>::Node`: a value and the link to the next node. */
  class Node {
    var value: int
    var next: Node?

    /** `new Node` with both fields then set. */
    constructor (v: int, n: Node?)
      ensures value == v && next == n
    {
      value, next := v, n;
    }

    /** `new Node` for the sentinel, whose value is never read. */
    constructor Sentinel()
      ensures next == null
    {
      next := null;
    }
  }

  // ---------------------------------------------------------------------
  // Specification functions on the value sequence
  // ---------------------------------------------------------------------

  /** `ns` is a chain of distinct nodes, each linked to the one after it and
      the last one ending the list; node `i + 1` holds `cs[i]` (node 0 is the
      sentinel and holds nothing). */
  ghost predicate Chain(ns: seq<Node>, cs: seq<int>)
    reads ns
  {
    && |ns| == |cs| + 1
    && (forall i, j :: 0 <= i < j < |ns| ==> ns[i] != ns[j])
    && (forall i :: 0 <= i < |cs| ==> ns[i].next == ns[i + 1] && ns[i + 1].value == cs[i])
    && ns[|cs|].next == null
  }

  /** The index of the first occurrence of `x` in `s`. */
  function FirstIndex(s: seq<int>, x: int): (k: nat)
    requires x in s
    ensures k < |s| && s[k] == x && x !in s[..k]
  {
    if s[0] == x then 0 else
      assert s[1..][..FirstIndex(s[1..], x)] == s[1..FirstIndex(s[1..], x) + 1];
      1 + FirstIndex(s[1..], x)
  }

  /** Only the last node of a chain has no successor. */
  lemma ChainEnd(ns: seq<Node>, cs: seq<int>, j: nat)
    requires Chain(ns, cs) && j <= |cs|
    ensures ns[j].next == null <==> j == |cs|
    ensures j < |cs| ==> ns[j].next == ns[j + 1] && ns[j + 1].value == cs[j]
  {
  }

  /** An index holding `x` with no `x` before it is the first index of `x`. */
  lemma FirstIndexAt(s: seq<int>, x: int, j: nat)
    requires j < |s| && s[j] == x && x !in s[..j]
    ensures FirstIndex(s, x) == j
  {
    var k := FirstIndex(s, x);
    forall i | 0 <= i < j ensures s[i] != x {
      assert s[..j][i] == s[i];
    }
    forall i | 0 <= i < k ensures s[i] != x {
      assert s[..k][i] == s[i];
    }
  }

  /** `s` without its element at index `k`. */
  function Without(s: seq<int>, k: nat): (r: seq<int>)
    requires k < |s|
    ensures |r| == |s| - 1
    ensures forall i :: 0 <= i < k ==> r[i] == s[i]
    ensures forall i :: k <= i < |r| ==> r[i] == s[i + 1]
  {
    s[..k] + s[k + 1..]
  }

  /** The node `FindElement(x)` stops at, as an index into `s`: the first
      occurrence of `x`, or the last element when `x` does not occur. */
  function StopIndex(s: seq<int>, x: int): (k: nat)
    requires |s| > 0
    ensures k < |s|
    ensures x in s ==> s[k] == x && x !in s[..k]
    ensures x !in s ==> k == |s| - 1
  {
    if x in s then FirstIndex(s, x) else |s| - 1
  }

  /** The two value sequences agree wherever both have an element: what the
      comparison loop of `IsEqual` checks. */
  ghost predicate AgreeOnCommon(a: seq<int>, b: seq<int>) {
    forall i :: 0 <= i < |a| && i < |b| ==> a[i] == b[i]
  }

  /** Of equal length, agreeing on every common index is equality. */
  lemma AgreeOnCommonIsEqual(a: seq<int>, b: seq<int>)
    requires |a| == |b|
    ensures AgreeOnCommon(a, b) <==> a == b
  {
  }

  /** The text `ToString` produces for a non-empty list: `List(`, the values
      separated by `, `, then `)` and a newline. */
  function ListText(s: seq<int>): string
    requires |s| > 0
  {
    "List(" + NtlArray.Join(s) + ")\n"
  }

  /** The text of `ToString` once its loop has rendered every element. */
  lemma ListTextOf(s: seq<int>)
    requires |s| > 0
    ensures "List(" + NtlArray.RenderPrefix(s, |s|) == ListText(s)
  {
    NtlArray.RenderPrefixIsJoin(s, |s|);
    assert s[..|s|] == s;
  }

  /** The rendering of the list the library's tests build. */
  lemma ListTextExample()
    ensures ListText([2, 4, 8, 16]) == "List(2, 4, 8, 16)\n"
  {
    JoinExample();
  }

  lemma JoinExample()
    ensures NtlArray.Join([2, 4, 8, 16]) == "2, 4, 8, 16"
  {
    DecimalsExample();
    JoinSnoc([2], 4);
    JoinSnoc([2, 4], 8);
    JoinSnoc([2, 4, 8], 16);
    assert [2] + [4] == [2, 4] && [2, 4] + [8] == [2, 4, 8] && [2, 4, 8] + [16] == [2, 4, 8, 16];
  }

  /** One more value extends the joined text by a separator and its decimal. */
  lemma JoinSnoc(s: seq<int>, d: int)
    requires |s| > 0
    ensures NtlArray.Join(s + [d]) == NtlArray.Join(s) + ", " + IntToDecimal(d)
  {
    assert (s + [d])[..|s|] == s;
  }

  lemma DecimalsExample()
    ensures IntToDecimal(2) == "2" && IntToDecimal(4) == "4" && IntToDecimal(8) == "8"
    ensures IntToDecimal(16) == "16"
  {
    assert NatToDecimal(16) == NatToDecimal(1) + [DigitChar(6)];
  }

  // ---------------------------------------------------------------------
  // The list
  // ---------------------------------------------------------------------

  class List {
    var head: Node
    var tail: Node
    var size: nat
    ghost var Nodes: seq<Node>
    ghost var Contents: seq<int>

    /** The links starting at the sentinel `head` follow `Nodes`. */
    ghost predicate Valid()
      reads this, Nodes
    {
      Chain(Nodes, Contents) && Nodes[0] == head
    }

    /** `tail` is the last node of the chain (the sentinel when empty). */
    ghost predicate TailOk()
      reads this
    {
      |Nodes| > 0 && tail == Nodes[|Nodes| - 1]
    }

    /** The size counter is the number of elements. */
    ghost predicate SizeTracked()
      reads this
    {
      size == |Contents|
    }

    /** The index of node `n` in `Nodes`. */
    ghost function Position(n: Node): (i: nat)
      reads this
      requires n in Nodes
      ensures i < |Nodes| && Nodes[i] == n
    {
      var i :| 0 <= i < |Nodes| && Nodes[i] == n; i
    }

    /** `List()`: the sentinel alone; the tail is the sentinel. */
    constructor ()
      ensures Valid() && TailOk() && SizeTracked()
      ensures Contents == [] && size == 0 && fresh(head)
    {
      var h := new Node.Sentinel();
      head, tail, size := h, h, 0;
      Nodes, Contents := [h], [];
    }

    /** Copy constructor: fresh nodes holding the other list's values, in
        order; the size counter is copied, not recounted. */
    constructor Copy(other: List)
      requires other.Valid()
      ensures Valid() && TailOk()
      ensures Contents == other.Contents && size == other.size
      ensures forall k :: 0 <= k < |Nodes| ==> fresh(Nodes[k])
    {
      var h := new Node.Sentinel();
      var curr1 := h;
      var curr2 := other.head;
      ghost var ns := [h];
      ghost var cs: seq<int> := [];
      while curr2.next != null
        invariant Chain(ns, cs) && ns[0] == h && curr1 == ns[|cs|]
        invariant forall k :: 0 <= k < |ns| ==> fresh(ns[k])
        invariant |cs| <= |other.Contents| && cs == other.Contents[..|cs|]
        invariant curr2 == other.Nodes[|cs|]
        decreases |other.Contents| - |cs|
      {
        ChainEnd(other.Nodes, other.Contents, |cs|);
        assert other.Contents[..|cs| + 1] == cs + [other.Contents[|cs|]];
        curr2 := curr2.next;
        var node := new Node(curr2.value, null);
        assert node !in ns;
        curr1.next := node;
        curr1 := node;
        ns := ns + [node];
        cs := cs + [node.value];
      }
      ChainEnd(other.Nodes, other.Contents, |cs|);
      assert cs == other.Contents;
      head, tail, size := h, curr1, other.size;
      Nodes, Contents := ns, cs;
    }

    /** The link rewiring shared by `InsertFront` and `InsertAfter`: a new node
        holding `x` goes right after `n`, the node at index `i`, and becomes
        the tail when `n` was the last node.  The size is left to the
        callers. */
    method Link(n: Node, x: int, ghost i: nat) returns (r: Node)
      requires Valid() && i < |Nodes| && Nodes[i] == n
      modifies this, n
      ensures Nodes == old(Nodes[..i + 1]) + [r] + old(Nodes[i + 1..])
      ensures Contents == old(Contents[..i]) + [x] + old(Contents[i..])
      ensures tail == (if i == |old(Contents)| then r else old(tail))
      ensures Valid() && fresh(r) && r.value == x
      ensures head == old(head) && size == old(size)
      ensures old(TailOk()) ==> TailOk()
    {
      ghost var ns, cs := Nodes, Contents;
      assert i < |cs| ==> n.next == ns[i + 1];
      r := new Node(x, n.next);
      assert r !in ns;
      if n.next == null {
        tail := r;
      }
      n.next := r;
      Nodes := ns[..i + 1] + [r] + ns[i + 1..];
      Contents := cs[..i] + [x] + cs[i..];
      forall k | 0 <= k < |Contents|
        ensures Nodes[k].next == Nodes[k + 1] && Nodes[k + 1].value == Contents[k]
      {
        if k < i {
          assert Nodes[k] == ns[k] != n && Nodes[k + 1] == ns[k + 1];
        } else if k == i + 1 {
          assert Nodes[k] == r && Nodes[k + 1] == ns[k];
        } else if k > i {
          assert Nodes[k] == ns[k - 1] != n && Nodes[k + 1] == ns[k];
        }
      }
      forall a, b | 0 <= a < b < |Nodes| ensures Nodes[a] != Nodes[b] {
        if b <= i {
        } else if b == i + 1 {
          assert Nodes[a] == ns[a];
        } else if a <= i {
          assert Nodes[a] == ns[a] && Nodes[b] == ns[b - 1];
        } else if a > i + 1 {
          assert Nodes[a] == ns[a - 1] && Nodes[b] == ns[b - 1];
        } else {
          assert Nodes[b] == ns[b - 1];
        }
      }
      assert Nodes[|Contents|] == (if i == |cs| then r else ns[|cs|]);
    }

    /** The link rewiring shared by `RemoveAfter` and `RemoveElement`: the
        node after `n`, the node at index `i`, is unlinked, and `n` becomes
        the tail when that node was the last one.  The size is left to the
        callers. */
    method Unlink(n: Node, ghost i: nat)
      requires Valid() && i < |Contents| && Nodes[i] == n
      modifies this, n
      ensures Nodes == old(Nodes[..i + 1] + Nodes[i + 2..])
      ensures Contents == Without(old(Contents), i)
      ensures tail == (if i + 1 == |old(Contents)| then n else old(tail))
      ensures Valid() && head == old(head) && size == old(size)
      ensures old(TailOk()) ==> TailOk()
    {
      ghost var ns, cs := Nodes, Contents;
      assert n.next == ns[i + 1];
      assert n.next.next == if i + 1 < |cs| then ns[i + 2] else null;
      var temp := n.next.next;
      n.next := temp;
      if n.next == null {
        tail := n;
      }
      Nodes := ns[..i + 1] + ns[i + 2..];
      Contents := Without(cs, i);
      forall k | 0 <= k < |Contents|
        ensures Nodes[k].next == Nodes[k + 1] && Nodes[k + 1].value == Contents[k]
      {
        if k < i {
          assert Nodes[k] == ns[k] != n && Nodes[k + 1] == ns[k + 1];
        } else if k == i {
          assert Nodes[k + 1] == ns[k + 2];
        } else {
          assert Nodes[k] == ns[k + 1] != n && Nodes[k + 1] == ns[k + 2];
        }
      }
      forall a, b | 0 <= a < b < |Nodes| ensures Nodes[a] != Nodes[b] {
        if b <= i {
        } else if a <= i {
          assert Nodes[a] == ns[a] && Nodes[b] == ns[b + 1];
        } else {
          assert Nodes[a] == ns[a + 1] && Nodes[b] == ns[b + 1];
        }
      }
      assert Nodes[|Contents|] == if i + 1 == |cs| then n else ns[|cs|];
      assert i + 1 < |cs| ==> n.next != null;
    }

    /** `InsertFront(x)`: `x` becomes the first element; on an empty list the
        new node also becomes the tail. */
    method InsertFront(x: int) returns (r: Node)
      requires Valid()
      modifies this, head
      ensures Valid() && head == old(head) && fresh(r) && r.value == x
      ensures Contents == [x] + old(Contents) && Nodes == [head, r] + old(Nodes[1..])
      ensures size == old(size) + 1
      ensures tail == (if old(Contents) == [] then r else old(tail))
      ensures old(TailOk()) || old(Contents) == [] ==> TailOk()
      ensures old(SizeTracked()) ==> SizeTracked()
    {
      r := Link(head, x, 0);
      size := size + 1;
    }

    /** `InsertBack(x)`: `x` becomes the last element and the new tail.  The
        library links the node after whatever `tail` points at, so the list
        must have its tail in place. */
    method InsertBack(x: int) returns (r: Node)
      requires Valid() && TailOk()
      modifies this, tail
      ensures Valid() && TailOk() && head == old(head) && fresh(r) && r.value == x
      ensures Contents == old(Contents) + [x] && Nodes == old(Nodes) + [r]
      ensures tail == r && size == old(size) + 1
      ensures old(SizeTracked()) ==> SizeTracked()
    {
      r := new Node(x, null);
      tail.next := r;
      tail := r;
      size := size + 1;
      Nodes := Nodes + [r];
      Contents := Contents + [x];
    }

    /** `InsertAfter(n, x)`: `x` is placed right after the node `n`, which
        must be a node of this list (the sentinel included); the tail moves
        when `n` was the tail. */
    method InsertAfter(n: Node, x: int) returns (r: Node)
      requires Valid() && n in Nodes
      modifies this, n
      ensures var i := old(Position(n));
        && Nodes == old(Nodes[..i + 1]) + [r] + old(Nodes[i + 1..])
        && Contents == old(Contents[..i]) + [x] + old(Contents[i..])
        && tail == (if i == |old(Contents)| then r else old(tail))
      ensures Valid() && head == old(head) && fresh(r) && r.value == x
      ensures size == old(size) + 1
      ensures old(TailOk()) ==> TailOk()
      ensures old(SizeTracked()) ==> SizeTracked()
    {
      r := Link(n, x, Position(n));
      size := size + 1;
    }

    /** `RemoveElement(x)`: unlinks the first node holding `x` and reports
        whether there was one.  As written, the size counter is decremented
        whether or not anything was removed (and wraps below zero). */
    method RemoveElement(x: int) returns (success: bool)
      requires Valid()
      modifies this, Nodes
      ensures Valid() && head == old(head)
      ensures success <==> x in old(Contents)
      ensures success ==> Contents == Without(old(Contents), FirstIndex(old(Contents), x))
      ensures !success ==> Contents == old(Contents) && Nodes == old(Nodes) && tail == old(tail)
      ensures size == DecrementSize(old(size))
      ensures old(TailOk()) ==> TailOk()
      ensures old(SizeTracked()) && !success ==> !SizeTracked()
    {
      success := FindAndUnlink(x);
      size := DecrementSize(size);
    }

    /** `RemoveElement` with the size lowered only when a node was removed,
        which keeps the counter equal to the number of elements. */
    method RemoveElementCorrected(x: int) returns (success: bool)
      requires Valid()
      modifies this, Nodes
      ensures Valid() && head == old(head)
      ensures success <==> x in old(Contents)
      ensures success ==> Contents == Without(old(Contents), FirstIndex(old(Contents), x))
      ensures !success ==> Contents == old(Contents) && Nodes == old(Nodes) && tail == old(tail)
      ensures old(TailOk()) ==> TailOk()
      ensures old(SizeTracked()) ==> SizeTracked()
    {
      success := FindAndUnlink(x);
      if success {
        size := DecrementSize(size);
      }
    }

    /** The search loop of `RemoveElement`: walk from the sentinel and unlink
        the first node holding `x`. */
    method FindAndUnlink(x: int) returns (success: bool)
      requires Valid()
      modifies this, Nodes
      ensures Valid() && head == old(head) && size == old(size)
      ensures success <==> x in old(Contents)
      ensures success ==> Contents == Without(old(Contents), FirstIndex(old(Contents), x))
      ensures !success ==> Contents == old(Contents) && Nodes == old(Nodes) && tail == old(tail)
      ensures old(TailOk()) ==> TailOk()
    {
      var curr := head;
      ghost var j := 0;
      success := false;
      while curr.next != null
        invariant Valid() && !success
        invariant Nodes == old(Nodes) && Contents == old(Contents)
        invariant head == old(head) && tail == old(tail) && size == old(size)
        invariant j <= |Contents| && curr == Nodes[j] && x !in Contents[..j]
        decreases |Contents| - j
      {
        ChainEnd(Nodes, Contents, j);
        if curr.next.value == x {
          FirstIndexAt(Contents, x, j);
          Unlink(curr, j);
          success := true;
          break;
        }
        assert Contents[..j + 1] == Contents[..j] + [Contents[j]];
        curr := curr.next;
        j := j + 1;
      }
      if !success {
        ChainEnd(Nodes, Contents, j);
        assert Contents[..j] == Contents;
      }
    }

    /** `RemoveAfter(n)`: the node after `n` is unlinked; `n` and `n.next`
        must both be non-null, and `n` a node of this list.  The size goes
        down by one and the tail moves to `n` when the removed node was the
        last one. */
    method RemoveAfter(n: Node)
      requires Valid() && n in Nodes && n.next != null
      modifies this, n
      ensures var i := old(Position(n));
        && i < |old(Contents)|
        && Nodes == old(Nodes[..i + 1] + Nodes[i + 2..])
        && Contents == Without(old(Contents), i)
        && tail == (if i + 1 == |old(Contents)| then n else old(tail))
      ensures Valid() && head == old(head)
      ensures size == DecrementSize(old(size))
      ensures old(TailOk()) ==> TailOk()
      ensures old(SizeTracked()) ==> SizeTracked()
    {
      Unlink(n, Position(n));
      size := DecrementSize(size);
    }

    /** `Clear()`: the sentinel is cut off from the element nodes and the
        size becomes 0.  As written the tail is not reset: after clearing a
        non-empty list it still points at the old last node, which is no
        longer part of the list. */
    method Clear()
      requires Valid()
      modifies this, head
      ensures Valid() && head == old(head) && tail == old(tail)
      ensures Contents == [] && Nodes == [head] && size == 0
      ensures SizeTracked()
      ensures old(TailOk()) && old(Contents) != [] ==> tail != head && !TailOk()
    {
      head.next := null;
      size := 0;
      Nodes, Contents := [head], [];
    }

    /** `Clear()` with the tail put back on the sentinel. */
    method ClearCorrected()
      requires Valid()
      modifies this, head
      ensures Valid() && head == old(head) && tail == head
      ensures Contents == [] && Nodes == [head] && size == 0
      ensures SizeTracked() && TailOk()
    {
      head.next := null;
      tail := head;
      size := 0;
      Nodes, Contents := [head], [];
    }

    /** `FindElement(x)`: null on an empty list; otherwise the node of the
        first occurrence of `x`, or the last node when `x` does not occur, so
        the result holds `x` exactly when `x` is in the list. */
    method FindElement(x: int) returns (r: Node?)
      requires Valid()
      ensures Contents == [] <==> r == null
      ensures Contents != [] ==> r == Nodes[StopIndex(Contents, x) + 1]
      ensures r != null && r.value == x <==> x in Contents
    {
      var curr := head;
      ghost var j := 0;
      while curr.next != null
        invariant j <= |Contents| && curr == Nodes[j] && x !in Contents[..j]
        invariant j > 0 ==> curr.value == Contents[j - 1]
        decreases |Contents| - j
      {
        ChainEnd(Nodes, Contents, j);
        curr := curr.next;
        j := j + 1;
        if curr.value == x {
          FirstIndexAt(Contents, x, j - 1);
          break;
        }
        assert Contents[..j] == Contents[..j - 1] + [Contents[j - 1]];
      }
      if j == 0 || curr.value != x {
        ChainEnd(Nodes, Contents, j);
        assert Contents[..j] == Contents;
      }
      assert curr == head <==> j == 0;
      r := if curr == head then null else curr;
    }

    /** `GetHead()`: the sentinel, the node before the first element. */
    function GetHead(): (r: Node)
      requires Valid()
      reads this, Nodes
      ensures r in Nodes && r == Nodes[0] && Position(r) == 0
    {
      head
    }

    /** `GetFront()`: the first element node, or null on an empty list. */
    function GetFront(): (r: Node?)
      requires Valid()
      reads this, Nodes
      ensures r == null <==> Contents == []
      ensures r != null ==> r == Nodes[1] && r.value == Contents[0]
    {
      assert Contents != [] ==> Nodes[0].next == Nodes[1];
      head.next
    }

    /** `GetBack()`: the tail; with the tail in place, the last element node
        (the sentinel when the list is empty). */
    function GetBack(): (r: Node)
      requires Valid()
      reads this, Nodes
      ensures TailOk() && Contents == [] ==> r == head
      ensures TailOk() && Contents != [] ==> r.value == Contents[|Contents| - 1] && r.next == null
    {
      assert Contents != [] ==> Nodes[|Contents| - 1 + 1].value == Contents[|Contents| - 1];
      tail
    }

    /** `IsEmpty()`: the sentinel has no successor. */
    function IsEmpty(): (b: bool)
      requires Valid()
      reads this, Nodes
      ensures b <==> Contents == []
    {
      assert Contents != [] ==> Nodes[0].next == Nodes[1];
      head.next == null
    }

    /** `GetSize()`: the size counter. */
    function GetSize(): (n: nat)
      reads this
      ensures SizeTracked() ==> n == |Contents|
    {
      size
    }

    /** `IsEqual(other)`: false when the size counters differ, otherwise
        whether the values agree as far as both chains reach.  With both
        counters right this is equality of the value sequences. */
    method IsEqual(other: List) returns (r: bool)
      requires Valid() && other.Valid()
      ensures r <==> size == other.size && AgreeOnCommon(Contents, other.Contents)
      ensures SizeTracked() && other.SizeTracked() ==> (r <==> Contents == other.Contents)
    {
      if size != other.size {
        return false;
      }
      r := true;
      var curr1 := head;
      var curr2 := other.head;
      ghost var j := 0;
      while curr1.next != null && curr2.next != null
        invariant j <= |Contents| && j <= |other.Contents|
        invariant curr1 == Nodes[j] && curr2 == other.Nodes[j]
        invariant forall i :: 0 <= i < j ==> Contents[i] == other.Contents[i]
        decreases |Contents| - j
      {
        ChainEnd(Nodes, Contents, j);
        ChainEnd(other.Nodes, other.Contents, j);
        if curr1.next.value != curr2.next.value {
          r := false;
          break;
        }
        curr1 := curr1.next;
        curr2 := curr2.next;
        j := j + 1;
      }
      if r {
        ChainEnd(Nodes, Contents, j);
        ChainEnd(other.Nodes, other.Contents, j);
      }
      if SizeTracked() && other.SizeTracked() {
        AgreeOnCommonIsEqual(Contents, other.Contents);
      }
    }

    /** `ToString()`: `List(`, the values separated by `, `, then `)` and a
        newline.  The library dereferences the missing first node of an empty
        list, so the list must not be empty. */
    method ToString() returns (text: NtlString.String)
      requires Valid() && Contents != []
      ensures fresh(text) && text.Valid()
      ensures text.Contents() == ListText(Contents)
    {
      ghost var s := Contents;
      NtlString.CStrOfPlain("List(");
      text := new NtlString.String.FromCString("List(");
      var curr := head;
      ghost var i := 0;
      while true
        invariant i < |s| && curr == Nodes[i]
        invariant fresh(text) && fresh(text.data) && text.Valid()
        invariant text.Contents() == "List(" + NtlArray.RenderPrefix(s, i)
        decreases |s| - i
      {
        ChainEnd(Nodes, Contents, i);
        curr := curr.next;
        ChainEnd(Nodes, Contents, i + 1);
        assert curr.value == s[i] && (curr.next == null <==> i == |s| - 1);
        NtlArray.AppendRendered(text, "List(", s, i, curr.value, curr.next == null);
        i := i + 1;
        if curr.next == null {
          break;
        }
      }
      ListTextOf(s);
    }
  }

  // ---------------------------------------------------------------------
  // Scenarios
  // ---------------------------------------------------------------------

  /** The insertion scenario of the library's tests: `InsertFront(2)`,
      `InsertBack(8)`, then `InsertAfter` the node of 2 gives `2, 4, 8`. */
  method InsertExample() returns (values: seq<int>, count: nat)
    ensures values == [2, 4, 8] && count == 3
  {
    var list := new List();
    var added := list.InsertFront(2);
    var back := list.InsertBack(8);
    var middle := list.InsertAfter(added, 4);
    var first := list.GetFront();
    assert first == list.Nodes[1] && first.next == list.Nodes[2] && first.next.next == list.Nodes[3];
    values, count := [first.value, first.next.value, first.next.next.value], list.GetSize();
  }

  /** After `Clear()` on a non-empty list the tail is a node outside the
      list, so a following `InsertBack` would link through it; after the
      corrected `Clear` it is the sentinel again. */
  method StaleTailExample() returns (stale: bool, repaired: bool)
    ensures stale && repaired
  {
    var list := new List();
    var one := list.InsertBack(1);
    list.Clear();
    stale := list.GetBack() != list.GetHead();
    var fixedList := new List();
    one := fixedList.InsertBack(1);
    fixedList.ClearCorrected();
    repaired := fixedList.GetBack() == fixedList.GetHead();
  }

  /** `RemoveElement` of an absent value on an empty list wraps the size
      counter to 2^64 - 1; the corrected version leaves it at 0. */
  method RemoveMissingExample() returns (asWritten: nat, corrected: nat)
    ensures asWritten == TWO_64 - 1 && corrected == 0
  {
    var list := new List();
    var removed := list.RemoveElement(5);
    asWritten := list.GetSize();
    var other := new List();
    removed := other.RemoveElementCorrected(5);
    corrected := other.GetSize();
  }
}
