/**
 * The library's fixed-size bitset (`ntl::Bitset<size>`).
 *
 * Each bit is one byte of the buffer `bits`, holding the character `'0'` or
 * `'1'`.  A bitset of template size `n` reports `size == n` and owns
 * `capacity == n + 1` bytes; only the first `size` bytes are ever
 * initialised, counted, compared or rendered.  A bitset that was moved from
 * has no buffer, which the model writes as an empty array with size and
 * capacity 0.
 */
module NtlBitset {
  import opened Base
  import NtlString

  /** The template argument's default. */
  const DEFAULT_BITSET_SIZE: nat := 1024

  /** The character `'0'` stored for a clear bit. */
  const ZERO: bv8 := 0x30
  /** The character `'1'` stored for a set bit. */
  const ONE: bv8 := 0x31

  // ---------------------------------------------------------------------
  // Specification functions on the bytes of a bitset
  // ---------------------------------------------------------------------

  /** Every byte is `'0'` or `'1'`. */
  ghost predicate Binary(s: seq<bv8>) {
    forall k :: 0 <= k < |s| ==> s[k] == ZERO || s[k] == ONE
  }

  /** The byte `Flip` stores: `'1'` for `'0'`, and `'0'` for anything else. */
  function FlipByte(b: bv8): (r: bv8)
    ensures r == ZERO || r == ONE
    ensures (b == ZERO || b == ONE) ==> r != b
  {
    if b == ZERO then ONE else ZERO
  }

  /** On a bit character, flipping twice gives the original back. */
  lemma FlipTwice(b: bv8)
    requires b == ZERO || b == ONE
    ensures FlipByte(FlipByte(b)) == b
  {
  }

  /** Byte-wise `&` of two bit strings is a bit string whose set bits are
      those set in both. */
  lemma AndBinary(a: seq<bv8>, b: seq<bv8>, c: seq<bv8>)
    requires |a| == |b| == |c| && Binary(a) && Binary(b)
    requires forall k :: 0 <= k < |c| ==> c[k] == AndByte(a[k], b[k])
    ensures Binary(c)
    ensures forall k :: 0 <= k < |c| ==> (c[k] == ONE <==> a[k] == ONE && b[k] == ONE)
  {
    forall k | 0 <= k < |c|
      ensures (c[k] == ZERO || c[k] == ONE) && (c[k] == ONE <==> a[k] == ONE && b[k] == ONE)
    {
      AndOfBits(a[k], b[k]);
    }
  }

  /** The byte-wise `&` that `operator&` stores. */
  function AndByte(a: bv8, b: bv8): bv8 {
    a & b
  }

  /** The byte-wise `&` of two bit characters is the bit character of their
      logical conjunction (`0x30 & 0x31 == 0x30`, `0x31 & 0x31 == 0x31`). */
  lemma AndOfBits(a: bv8, b: bv8)
    requires (a == ZERO || a == ONE) && (b == ZERO || b == ONE)
    ensures AndByte(a, b) == ZERO || AndByte(a, b) == ONE
    ensures AndByte(a, b) == ONE <==> a == ONE && b == ONE
  {
    if a == ZERO {
      assert a & b == ZERO;
    } else if b == ZERO {
      assert a & b == ZERO;
    } else {
      assert a & b == ONE;
    }
  }

  /** The number of set bits. */
  function Count(s: seq<bv8>): nat {
    if |s| == 0 then 0 else Count(s[..|s| - 1]) + (if s[|s| - 1] == ONE then 1 else 0)
  }

  /** The count is at most the number of bits, and it is zero exactly when no
      bit is set. */
  lemma {:induction false} CountBounds(s: seq<bv8>)
    ensures Count(s) <= |s|
    ensures Count(s) == 0 <==> ONE !in s
    decreases |s|
  {
    if |s| > 0 {
      CountBounds(s[..|s| - 1]);
      assert s == s[..|s| - 1] + [s[|s| - 1]];
    }
  }

  /** Setting the bit of a clear byte adds one to the count; clearing a set
      one removes one. */
  lemma {:induction false} CountUpdate(s: seq<bv8>, i: nat, b: bv8)
    requires i < |s|
    ensures Count(s[i := b]) + (if s[i] == ONE then 1 else 0)
            == Count(s) + (if b == ONE then 1 else 0)
    decreases |s|
  {
    var t := s[i := b];
    if i < |s| - 1 {
      assert t[..|s| - 1] == s[..|s| - 1][i := b];
      CountUpdate(s[..|s| - 1], i, b);
    } else {
      assert t[..|s| - 1] == s[..|s| - 1];
    }
  }

  /** The characters of the bits, `'0'` or `'1'`. */
  function Show(s: seq<bv8>): string {
    seq(|s|, k requires 0 <= k < |s| => if s[k] == ONE then '1' else '0')
  }

  /** The number `ToString` appends for a byte: the byte minus `'0'`. */
  function BitValue(b: bv8): int {
    b as int - 48
  }

  /** What the loop of `ToString` appends for each byte: the decimal text of
      the byte minus `'0'`. */
  function Digits(s: seq<bv8>): string {
    if |s| == 0 then "" else Digits(s[..|s| - 1]) + IntToDecimal(BitValue(s[|s| - 1]))
  }

  /** For bit characters that is one digit per bit. */
  lemma {:induction false} DigitsOfBinary(s: seq<bv8>)
    requires Binary(s)
    ensures Digits(s) == Show(s)
    decreases |s|
  {
    if |s| > 0 {
      var p := s[..|s| - 1];
      DigitsOfBinary(p);
      assert IntToDecimal(BitValue(s[|s| - 1])) == [Show(s)[|s| - 1]];
      assert Show(s) == Show(p) + [Show(s)[|s| - 1]];
    }
  }

  /** What the loop of `ToString` has appended after its first `k` rounds. */
  function RenderedBits(s: seq<bv8>, k: nat): string
    requires k <= |s|
  {
    Digits(s[..k]) + (if k > 0 && k == |s| then ")\n" else "")
  }

  /** After the last round the loop has appended the whole rendering, which
      for bit characters shows one digit per bit. */
  lemma RenderedAllBits(s: seq<bv8>)
    ensures "Bitset(" + RenderedBits(s, |s|) == BitsetText(s)
    ensures Binary(s) ==> BitsetText(s) == "Bitset(" + Show(s) + (if |s| == 0 then "" else ")\n")
  {
    assert s[..|s|] == s;
    if Binary(s) {
      DigitsOfBinary(s);
    }
  }

  /** One round of that loop appends one digit, and the terminator after the
      last bit. */
  lemma RenderBitStep(head: string, s: seq<bv8>, k: nat)
    requires k < |s|
    ensures head + RenderedBits(s, k) + IntToDecimal(BitValue(s[k])) + (if k == |s| - 1 then ")\n" else "")
            == head + RenderedBits(s, k + 1)
  {
    var d, t := IntToDecimal(BitValue(s[k])), if k == |s| - 1 then ")\n" else "";
    assert s[..k + 1] == s[..k] + [s[k]];
    DigitsSnoc(s[..k], s[k]);
    Associative(head, Digits(s[..k]), d, t);
  }

  /** One more byte appends its digit. */
  lemma DigitsSnoc(p: seq<bv8>, x: bv8)
    ensures Digits(p + [x]) == Digits(p) + IntToDecimal(BitValue(x))
  {
    assert (p + [x])[..|p|] == p;
  }

  lemma Associative(a: string, b: string, c: string, d: string)
    ensures a + b + c + d == a + ((b + c) + d)
  {
  }

  /** The text `ToString` produces: `Bitset(`, the digits, then `)` and a
      newline; a bitset of size 0 gives `Bitset(` alone. */
  function BitsetText(s: seq<bv8>): string {
    "Bitset(" + Digits(s) + (if |s| == 0 then "" else ")\n")
  }

  /** The library's test: a bitset of size 4 with bit 2 flipped renders as
      `Bitset(0010)` and a newline. */
  lemma BitsetTextExample()
    ensures BitsetText([ZERO, ZERO, ONE, ZERO]) == "Bitset(0010)\n"
  {
    var s := [ZERO, ZERO, ONE, ZERO];
    DigitsOfBinary(s);
    assert Show(s) == "0010";
  }

  // ---------------------------------------------------------------------
  // The bitset
  // ---------------------------------------------------------------------

  class Bitset {
    /** The template argument `size`. */
    const n: nat
    var bits: array<bv8>
    var capacity: nat
    var size: nat

    /** The buffer is `capacity` bytes long and holds the `size` bits. */
    ghost predicate Shape()
      reads this
    {
      bits.Length == capacity && size <= capacity
    }

    /** The bits, first bit first. */
    ghost function Bits(): seq<bv8>
      reads this, bits
      requires Shape()
    {
      bits[..size]
    }

    /** Every bit is stored as `'0'` or `'1'`. */
    ghost predicate Valid()
      reads this, bits
    {
      Shape() && Binary(bits[..size])
    }

    /** `Bitset<N>()`: size `N`, capacity `N + 1`, every bit clear.  The byte
        after the bits is allocated but never written. */
    constructor (N: nat)
      ensures n == N && size == N && capacity == N + 1 && fresh(bits)
      ensures Valid() && Bits() == seq(N, _ => ZERO) && Count(Bits()) == 0
    {
      n, capacity, size := N, N + 1, N;
      bits := new bv8[N + 1];
      new;
      Reset();
      CountBounds(bits[..size]);
    }

    /** Copy constructor: the same size and capacity and a fresh buffer with
        the same bytes. */
    constructor Copy(other: Bitset)
      requires other.Shape()
      ensures n == other.n && size == other.size && capacity == other.capacity
      ensures fresh(bits) && bits[..] == other.bits[..]
      ensures Shape() && Bits() == other.Bits()
    {
      n, capacity, size := other.n, other.capacity, other.size;
      bits := new bv8[other.capacity](k requires 0 <= k < other.capacity reads other, other.bits
        => if k < other.bits.Length then other.bits[k] else 0);
    }

    /** Copy assignment: takes the other bitset's size and capacity and a
        fresh copy of its bytes (the old buffer is not released). */
    method Assign(other: Bitset)
      requires this != other && other.Shape() && other.n == n
      modifies this
      ensures size == other.size && capacity == other.capacity
      ensures fresh(bits) && bits[..] == other.bits[..]
      ensures Shape() && Bits() == other.Bits()
    {
      size, capacity := other.size, other.capacity;
      bits := new bv8[other.capacity](k requires 0 <= k < other.capacity reads other, other.bits
        => if k < other.bits.Length then other.bits[k] else 0);
    }

    /** Move constructor: takes over the other bitset's buffer; the other one
        is left without a buffer, with size and capacity 0. */
    constructor Move(other: Bitset)
      requires other.Shape()
      modifies other
      ensures n == other.n && bits == old(other.bits)
      ensures size == old(other.size) && capacity == old(other.capacity) && Shape()
      ensures other.size == 0 && other.capacity == 0 && other.bits.Length == 0
      ensures other.Shape() && other.Bits() == []
    {
      n, size, capacity, bits := other.n, other.size, other.capacity, other.bits;
      new;
      var none := new bv8[0];
      other.size, other.capacity, other.bits := 0, 0, none;
    }

    /** Move assignment: as the move constructor, on an existing bitset. */
    method MoveAssign(other: Bitset)
      requires this != other && other.Shape() && other.n == n
      modifies this, other
      ensures bits == old(other.bits) && size == old(other.size) && capacity == old(other.capacity)
      ensures Shape()
      ensures other.size == 0 && other.capacity == 0 && other.bits.Length == 0
    {
      size, capacity, bits := other.size, other.capacity, other.bits;
      var none := new bv8[0];
      other.size, other.capacity, other.bits := 0, 0, none;
    }

    /** `IsSet(i)`: the byte of bit `i` is `'1'`.  On a valid bitset that is
        the digit `ToString` shows for the bit, and a bit that is not set is
        stored as `'0'`. */
    function IsSet(i: nat): (r: bool)
      reads this, bits
      requires i < bits.Length
      ensures Valid() && i < size ==> (r <==> Show(Bits())[i] == '1')
      ensures Valid() && i < size ==> (r <==> BitValue(bits[i]) == 1)
      ensures Valid() && i < size && !r ==> bits[i] == ZERO
    {
      bits[i] == ONE
    }

    /** `Get(i)` and `operator[]`: the byte of bit `i`, which on a valid
        bitset is `'1'` exactly when the bit is set and `'0'` otherwise. */
    function Get(i: nat): (b: bv8)
      reads this, bits
      requires i < bits.Length
      ensures Valid() && i < size ==> (b == ZERO || b == ONE)
      ensures b == ONE <==> IsSet(i)
    {
      bits[i]
    }

    /** `GetSize()`: the number of bits, which the buffer can hold. */
    function GetSize(): (r: nat)
      reads this, bits
      ensures Shape() ==> r == |Bits()| && r <= bits.Length
    {
      size
    }

    /** `GetCapacity()`: the length of the buffer, at least the size. */
    function GetCapacity(): (r: nat)
      reads this
      ensures Shape() ==> r == bits.Length && r >= size
    {
      capacity
    }

    /** `Set(i)`: bit `i` becomes set and no other byte changes.  The index
        is not checked against the size; it must lie within the buffer. */
    method Set(i: nat)
      requires i < bits.Length
      modifies bits
      ensures bits[..] == old(bits[..])[i := ONE]
      ensures IsSet(i) && (forall k :: 0 <= k < bits.Length && k != i ==> bits[k] == old(bits[k]))
      ensures Valid() && i < size ==> Count(Bits()) == Count(old(Bits())) + (if old(IsSet(i)) then 0 else 1)
    {
      bits[i] := ONE;
      if Shape() && i < size {
        assert bits[..size] == old(bits[..size])[i := ONE];
        CountUpdate(old(bits[..size]), i, ONE);
      }
    }

    /** `Reset(i)`: bit `i` becomes clear and no other byte changes. */
    method ResetBit(i: nat)
      requires i < bits.Length
      modifies bits
      ensures bits[..] == old(bits[..])[i := ZERO]
      ensures !IsSet(i) && (forall k :: 0 <= k < bits.Length && k != i ==> bits[k] == old(bits[k]))
      ensures Valid() && i < size ==> Count(Bits()) + (if old(IsSet(i)) then 1 else 0) == Count(old(Bits()))
    {
      bits[i] := ZERO;
      if Shape() && i < size {
        assert bits[..size] == old(bits[..size])[i := ZERO];
        CountUpdate(old(bits[..size]), i, ZERO);
      }
    }

    /** `Reset()`: the first `size` bytes become `'0'` (a `memset`); the rest
        of the buffer is left alone. */
    method Reset()
      requires Shape()
      modifies bits
      ensures Bits() == seq(size, _ => ZERO) && Valid()
      ensures bits[size..] == old(bits[size..])
    {
      for k := 0 to size
        invariant bits[..k] == seq(k, _ => ZERO)
        invariant bits[size..] == old(bits[size..])
      {
        bits[k] := ZERO;
      }
    }

    /** `Flip(i)`: a clear bit becomes set and anything else becomes `'0'`;
        no other byte changes, and on a bit character flipping twice gives
        the original back. */
    method Flip(i: nat)
      requires i < bits.Length
      modifies bits
      ensures bits[..] == old(bits[..])[i := FlipByte(old(bits[i]))]
      ensures IsSet(i) <==> old(bits[i]) == ZERO
      ensures forall k :: 0 <= k < bits.Length && k != i ==> bits[k] == old(bits[k])
      ensures old(Valid()) ==> Valid()
    {
      bits[i] := if bits[i] == ZERO then ONE else ZERO;
      if old(Valid()) && i < size {
        assert bits[..size] == old(bits[..size])[i := FlipByte(old(bits[i]))];
      }
      if old(Valid()) && i >= size {
        assert bits[..size] == old(bits[..size]);
      }
    }

    /** `GetCount()`: the number of set bits among the first `size`. */
    method GetCount() returns (c: nat)
      requires Shape()
      ensures c == Count(Bits()) && c <= size
      ensures c == 0 <==> ONE !in Bits()
    {
      c := 0;
      for k := 0 to size
        invariant c == Count(bits[..k])
      {
        assert bits[..k + 1][..k] == bits[..k];
        if bits[k] == ONE {
          c := c + 1;
        }
      }
      assert bits[..size] == Bits();
      CountBounds(Bits());
    }

    /** `IsNone()`: no bit is set, that is the count is 0. */
    method IsNone() returns (b: bool)
      requires Shape()
      ensures b <==> Count(Bits()) == 0
    {
      CountBounds(Bits());
      for k := 0 to size
        invariant ONE !in bits[..k]
      {
        if bits[k] == ONE {
          assert Bits()[k] == ONE;
          return false;
        }
        assert bits[..k + 1] == bits[..k] + [bits[k]];
      }
      assert bits[..size] == Bits();
      return true;
    }

    /** `IsAny()`: some bit is set, that is the count is positive. */
    method IsAny() returns (b: bool)
      requires Shape()
      ensures b <==> Count(Bits()) > 0
    {
      CountBounds(Bits());
      for k := 0 to size
        invariant ONE !in bits[..k]
      {
        if bits[k] == ONE {
          assert Bits()[k] == ONE;
          return true;
        }
        assert bits[..k + 1] == bits[..k] + [bits[k]];
      }
      assert bits[..size] == Bits();
      return false;
    }

    /** `IsEqual(other)`, `operator==`: the sizes are equal and so is every
        bit. */
    method IsEqual(other: Bitset) returns (r: bool)
      requires Shape() && other.Shape()
      ensures r <==> size == other.size && Bits() == other.Bits()
    {
      if size != other.size {
        return false;
      }
      r := true;
      var k := 0;
      while k < size
        invariant k <= size && bits[..k] == other.bits[..k]
      {
        if bits[k] != other.bits[k] {
          assert Bits()[k] != other.Bits()[k];
          r := false;
          break;
        }
        k := k + 1;
      }
      if r {
        assert Bits() == bits[..k] && other.Bits() == other.bits[..k];
      }
    }

    /** `operator&`: a fresh bitset of the template size whose byte `k` is
        the byte-wise `&` of both operands' byte `k`; on bit characters,
        bit `k` of the result is set iff it is set in both operands.  The
        sizes must match, and the loop reads the first `n` bytes of both. */
    method And(other: Bitset) returns (r: Bitset)
      requires Shape() && other.Shape() && size == other.size
      requires n <= bits.Length && n <= other.bits.Length
      ensures fresh(r) && fresh(r.bits) && r.n == n && r.size == n && r.capacity == n + 1
      ensures r.bits.Length == n + 1
      ensures forall k :: 0 <= k < n ==> r.bits[k] == AndByte(bits[k], other.bits[k])
      ensures Valid() && other.Valid() && size == n ==>
        r.Valid() && forall k :: 0 <= k < n ==> (r.IsSet(k) <==> IsSet(k) && other.IsSet(k))
    {
      r := new Bitset(n);
      AndInto(r.bits, bits, other.bits, r.size);
      if Valid() && other.Valid() && size == n {
        AndBinary(bits[..n], other.bits[..n], r.bits[..n]);
      }
    }

    /** `ToString()`: `Bitset(`, the digit of each bit, then `)` and a
        newline (omitted for a bitset of size 0).  On bit characters that is
        one `'0'` or `'1'` per bit. */
    method ToString() returns (text: NtlString.String)
      requires Shape()
      ensures fresh(text) && text.Valid()
      ensures text.Contents() == BitsetText(Bits())
      ensures Valid() ==> text.Contents() == "Bitset(" + Show(Bits()) + (if size == 0 then "" else ")\n")
    {
      ghost var s := Bits();
      NtlString.CStrOfPlain("Bitset(");
      text := new NtlString.String.FromCString("Bitset(");
      for k := 0 to size
        invariant fresh(text) && fresh(text.data) && text.Valid()
        invariant text.Contents() == "Bitset(" + RenderedBits(s, k)
      {
        ghost var before := text.Contents();
        assert bits[k] == s[k];
        AppendBit(text, bits[k], k == size - 1);
        assert text.Contents() == before + IntToDecimal(BitValue(s[k])) + (if k == |s| - 1 then ")\n" else "");
        RenderBitStep("Bitset(", s, k);
      }
      RenderedAllBits(s);
    }
  }

  /** The loop of `operator&`: byte `k` of `dst` becomes `a[k] & b[k]` for
      every `k` below `count`. */
  method AndInto(dst: array<bv8>, a: array<bv8>, b: array<bv8>, count: nat)
    requires count <= dst.Length && count <= a.Length && count <= b.Length
    requires dst != a && dst != b
    modifies dst
    ensures forall k :: 0 <= k < count ==> dst[k] == AndByte(a[k], b[k])
  {
    for k := 0 to count
      invariant forall j :: 0 <= j < k ==> dst[j] == AndByte(a[j], b[j])
    {
      dst[k] := AndByte(a[k], b[k]);
    }
  }

  /** One round of the loop of `Bitset::ToString`: the digit of byte `b`,
      then `)` and a newline after the last bit. */
  method AppendBit(text: NtlString.String, b: bv8, last: bool)
    requires text.Valid()
    modifies text, text.data
    ensures text.Valid() && (text.data == old(text.data) || fresh(text.data))
    ensures text.Contents() == old(text.Contents()) + IntToDecimal(BitValue(b)) + (if last then ")\n" else "")
  {
    text.AppendInt(BitValue(b));
    if last {
      NtlString.CStrOfPlain(")\n");
      text.AppendCString(")\n");
    }
  }

  /** The scenario of the library's tests on `Bitset<4>`: flipping bit 2
      makes it the only set bit (count 1, `IsAny`, not `IsNone`); flipping it
      again clears it. */
  method FlipExample() returns (count: nat, any: bool, none: bool, again: bool)
    ensures count == 1 && any && !none && !again
  {
    var b := new Bitset(4);
    b.Flip(2);
    count := b.GetCount();
    any := b.IsAny();
    none := b.IsNone();
    b.Flip(2);
    again := b.IsSet(2);
  }
}
