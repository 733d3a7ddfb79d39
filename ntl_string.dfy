/**
 * The library's growable, NUL-terminated character string (`ntl::String`).
 *
 * The state is a heap buffer `data`, the number of live characters `used`
 * and the reported `capacity`.  The character after the live part is always
 * the terminator `'\0'`.  Most constructors allocate `capacity + 1` slots, but
 * `Resize` allocates exactly `capacity` slots, so the model only promises
 * `capacity <= data.Length`.
 */
module NtlString {
  import opened Base
  import opened Buffers

  /** Capacity of a default-constructed string. */
  const DEFAULT_STRING_SIZE: nat := 1024

  // ---------------------------------------------------------------------
  // Specification functions on character sequences
  // ---------------------------------------------------------------------

  /** The characters of a C string: everything before the first `'\0'`. */
  function CStr(s: string): (r: string)
    ensures '\0' !in r
    ensures r <= s
    ensures |r| < |s| ==> s[|r|] == '\0'
  {
    if |s| == 0 || s[0] == '\0' then [] else [s[0]] + CStr(s[1..])
  }

  lemma {:induction false} CStrOfPlain(s: string)
    requires '\0' !in s
    ensures CStr(s) == s
  {
    if |s| > 0 {
      assert '\0' !in s[1..];
      CStrOfPlain(s[1..]);
    }
  }

  /** `std::tolower` in the "C" locale: only 'A'..'Z' change. */
  function LowerChar(c: char): char {
    if 'A' <= c <= 'Z' then (c as int + 32) as char else c
  }

  /** `std::toupper` in the "C" locale: only 'a'..'z' change. */
  function UpperChar(c: char): char {
    if 'a' <= c <= 'z' then (c as int - 32) as char else c
  }

  function Lower(s: string): string {
    seq(|s|, i requires 0 <= i < |s| => LowerChar(s[i]))
  }

  function Upper(s: string): string {
    seq(|s|, i requires 0 <= i < |s| => UpperChar(s[i]))
  }

  /** Lower-casing an upper-cased string gives the lower-cased original. */
  lemma LowerAfterUpper(s: string)
    ensures |Upper(s)| == |s| && Lower(Upper(s)) == Lower(s)
  {
    forall i | 0 <= i < |s| ensures Lower(Upper(s))[i] == Lower(s)[i] {
      var c := s[i];
      if 'a' <= c <= 'z' {
        assert UpperChar(c) as int == c as int - 32;
      }
    }
  }

  /** Upper-casing a lower-cased string gives the upper-cased original. */
  lemma UpperAfterLower(s: string)
    ensures |Lower(s)| == |s| && Upper(Lower(s)) == Upper(s)
  {
    forall i | 0 <= i < |s| ensures Upper(Lower(s))[i] == Upper(s)[i] {
      var c := s[i];
      if 'A' <= c <= 'Z' {
        assert LowerChar(c) as int == c as int + 32;
      }
    }
  }

  /** Index of the first `c` in `s`, or -1 when there is none. */
  function IndexOf(s: string, c: char): (r: int)
    ensures -1 <= r < |s|
    ensures r == -1 <==> c !in s
    ensures r >= 0 ==> s[r] == c && c !in s[..r]
  {
    if |s| == 0 then -1
    else if s[0] == c then 0
    else
      var k := IndexOf(s[1..], c);
      assert s == [s[0]] + s[1..];
      if k == -1 then -1 else k + 1
  }

  /** Every `a` replaced by `b`. */
  function ReplaceAll(s: string, a: char, b: char): string {
    seq(|s|, i requires 0 <= i < |s| => if s[i] == a then b else s[i])
  }

  /** After replacing every `a` by a different `b`, no `a` is left, and
      replacing back restores the original when `b` did not occur in it. */
  lemma ReplaceAllProperties(s: string, a: char, b: char)
    ensures |ReplaceAll(s, a, b)| == |s|
    ensures a != b ==> a !in ReplaceAll(s, a, b)
    ensures b !in s ==> ReplaceAll(ReplaceAll(s, a, b), b, a) == s
  {
    var r := ReplaceAll(s, a, b);
    if a != b {
      forall i | 0 <= i < |r| ensures r[i] != a {
      }
    }
    if b !in s {
      forall i | 0 <= i < |s| ensures ReplaceAll(r, b, a)[i] == s[i] {
        assert s[i] != b;
      }
    }
  }

  /** What `Replace(a, '\0')` leaves: the first `a` removed, or the last
      character dropped when `a` does not occur (the length is decremented
      unconditionally). */
  function RemoveFirstOrLast(s: string, a: char): (r: string)
    requires |s| > 0
    ensures |r| == |s| - 1
    ensures a in s ==> r == s[..IndexOf(s, a)] + s[IndexOf(s, a) + 1..]
    ensures a !in s ==> r == s[..|s| - 1]
  {
    var k := IndexOf(s, a);
    if k >= 0 then s[..k] + s[k + 1..] else s[..|s| - 1]
  }

  /** Removing an `a` that occurs leaves one `a` fewer. */
  lemma RemoveFirstCounts(s: string, a: char)
    requires a in s
    ensures multiset(RemoveFirstOrLast(s, a))[a] + 1 == multiset(s)[a]
  {
    var k := IndexOf(s, a);
    assert s == s[..k] + [s[k]] + s[k + 1..];
    assert multiset(s) == multiset(s[..k]) + multiset{a} + multiset(s[k + 1..]);
  }

  /** Removing a character that does not occur still shortens the string:
      `Remove('x')` on "abc" leaves "ab". */
  lemma RemoveMissingDropsLast()
    ensures RemoveFirstOrLast("abc", 'x') == "ab"
  {
    assert IndexOf("abc", 'x') == -1;
  }

  /** `p` occurs in `s` starting at index `i`. */
  predicate OccursAt(s: string, p: string, i: nat) {
    i + |p| <= |s| && s[i..i + |p|] == p
  }

  /** First index at or after `from` where `p` occurs in `s`, or -1. */
  function FirstOccurrenceFrom(s: string, p: string, from: nat): (r: int)
    requires from <= |s|
    ensures r == -1 || from <= r <= |s|
    ensures r >= 0 ==> OccursAt(s, p, r)
    ensures forall i :: from <= i < |s| && (r == -1 || i < r) ==> !OccursAt(s, p, i)
    decreases |s| - from
  {
    if from == |s| then -1
    else if OccursAt(s, p, from) then from
    else FirstOccurrenceFrom(s, p, from + 1)
  }

  function FirstOccurrence(s: string, p: string): (r: int)
    ensures r == -1 || 0 <= r <= |s|
    ensures r >= 0 ==> OccursAt(s, p, r)
  {
    FirstOccurrenceFrom(s, p, 0)
  }

  /** A pattern without `'\0'` occurs in the terminated text exactly where
      it occurs in the text itself. */
  lemma NulFreeOccursAt(s: string, p: string, i: nat)
    requires '\0' !in p && i <= |s|
    ensures OccursAt(s + ['\0'], p, i) <==> OccursAt(s, p, i)
  {
    var t := s + ['\0'];
    assert t[|s|] == '\0';
    if OccursAt(t, p, i) {
      if |p| > 0 {
        assert p[|p| - 1] == t[i + |p| - 1] != '\0';
      }
      assert t[i..i + |p|] == s[i..i + |p|];
    }
    if OccursAt(s, p, i) {
      assert t[i..i + |p|] == s[i..i + |p|];
    }
  }

  /** The string with the first occurrence of `p` replaced by `q`; unchanged
      when `p` does not occur. */
  function ReplaceFirst(s: string, p: string, q: string): (r: string)
  {
    var i := FirstOccurrence(s, p);
    if i < 0 then s else s[..i] + q + s[i + |p|..]
  }

  /** Only the first occurrence is rewritten: the length changes by |q| - |p|
      exactly when `p` occurs, the text before the occurrence is kept, the
      replacement sits where the occurrence was, and the rest follows. */
  lemma ReplaceFirstProperties(s: string, p: string, q: string)
    requires |p| > 0
    ensures var i := FirstOccurrence(s, p);
      var r := ReplaceFirst(s, p, q);
      if i < 0 then r == s && forall j :: 0 <= j < |s| ==> !OccursAt(s, p, j)
      else (|r| == |s| - |p| + |q| && r[..i] == s[..i] && OccursAt(r, q, i)
        && r[i + |q|..] == s[i + |p|..]
        && forall j :: 0 <= j < i ==> !OccursAt(s, p, j))
  {
    var i := FirstOccurrence(s, p);
    var r := ReplaceFirst(s, p, q);
    if i >= 0 {
      assert r == s[..i] + q + s[i + |p|..];
      assert r[..i] == s[..i];
      assert r[i..i + |q|] == q;
      assert r[i + |q|..] == s[i + |p|..];
    }
  }

  /** The shift of `Replace(c, '\0')`: with `d` holding `s` and `e` equal to
      `d` up to slot `k` and holding `d[k + 1..]` from there to the end of
      `s`, the first `|s| - 1` slots of `e` are `s` without the character at
      `k` (or `s` without its last character when `k` is past the end). */
  lemma ShiftedOut(d: seq<char>, e: seq<char>, s: string, k: nat)
    requires 0 < |s| < |d| == |e| && d[..|s|] == s && k <= |s|
    requires e[..k] == d[..k] && e[k..|s|] == d[k + 1..|s| + 1]
    ensures e[..|s| - 1] == (if k < |s| then s[..k] + s[k + 1..] else s[..|s| - 1])
  {
    forall t | 0 <= t < |s| - 1
      ensures e[t] == (if k < |s| then s[..k] + s[k + 1..] else s[..|s| - 1])[t]
    {
      if t < k {
        assert e[t] == e[..k][t] && d[t] == d[..k][t] && d[t] == d[..|s|][t];
      } else {
        assert e[t] == e[k..|s|][t - k] && d[t + 1] == d[k + 1..|s| + 1][t - k];
        assert d[t + 1] == d[..|s|][t + 1];
      }
    }
  }

  /** A character missing from `s[..k]` occurs at no slot before `k`. */
  lemma NotBefore(s: string, a: char, k: nat, t: nat)
    requires k <= |s| && t < |s| && a !in s[..k]
    ensures t < k ==> s[t] != a
  {
    if t < k {
      assert s[t] == s[..k][t];
    }
  }

  /** Where the search of `CutFirst` stops decides what it removes: the first
      `a` when there is one, otherwise the last character. */
  lemma CutChoice(s: string, a: char, k: nat)
    requires 0 < |s| && k <= |s| && a !in s[..k] && (k < |s| ==> s[k] == a)
    ensures RemoveFirstOrLast(s, a) == (if k < |s| then s[..k] + s[k + 1..] else s[..|s| - 1])
  {
    if k < |s| {
      var r := IndexOf(s, a);
      assert a in s;
      NotBefore(s, a, k, r);
      NotBefore(s, a, r, k);
    } else {
      assert s[..k] == s;
    }
  }

  /** The three copy loops of the different-length `Replace`: a new buffer of
      `size` slots holding `src[..idx]`, then `rep[..n]`, then the `used - idx`
      slots of `src` that start `m` slots after `idx`. */
  method Splice(src: array<char>, used: nat, idx: nat, m: nat, rep: array<char>, n: nat, size: nat)
    returns (temp: array<char>)
    requires idx + m <= used && m + used <= src.Length && n <= rep.Length && n + used <= size
    ensures fresh(temp) && temp.Length == size
    ensures temp[..used - m + n] == src[..idx] + rep[..n] + src[idx + m..used]
  {
    ghost var a, r := src[..], rep[..];
    temp := new char[size];
    CopyRange(src, 0, temp, 0, idx);
    ghost var t1 := temp[..];
    assert t1[0..idx] == a[0..idx];
    CopyRange(rep, 0, temp, idx, n);
    ghost var t2 := temp[..];
    assert t2[..idx] == t1[..idx] && t2[idx..idx + n] == r[0..n];
    CopyRange(src, idx + m, temp, idx + n, used - idx);
    assert temp[..idx + n] == t2[..idx + n] && temp[idx + n..used + n] == a[idx + m..used + m];
    SpliceSteps(t1, t2, temp[..], a, r, idx, m, n, used);
  }

  /** The three copies of `Splice` one after the other: `t1` after the first,
      `t2` after the second, `t` after the third. */
  lemma SpliceSteps(t1: seq<char>, t2: seq<char>, t: seq<char>, a: seq<char>, r: seq<char>,
                    idx: nat, m: nat, n: nat, used: nat)
    requires idx + m <= used && m + used <= |a| && n <= |r| && n + used <= |t| == |t1| == |t2|
    requires t1[0..idx] == a[0..idx]
    requires t2[..idx] == t1[..idx] && t2[idx..idx + n] == r[0..n]
    requires t[..idx + n] == t2[..idx + n] && t[idx + n..used + n] == a[idx + m..used + m]
    ensures t[..used - m + n] == a[..idx] + r[..n] + a[idx + m..used]
  {
    PrefixAgree(t, t2, idx + n, 0, idx);
    PrefixAgree(t2, t1, idx, 0, idx);
    assert t[..idx] == t[0..idx] && t1[..idx] == t1[0..idx];
    PrefixAgree(t, t2, idx + n, idx, idx + n);
    assert a[..idx] == a[0..idx] && r[..n] == r[0..n];
    assert t[idx + n..n + used] == a[m + idx..m + used];
    SpliceJoin(t, a, r, idx, m, n, used);
  }

  /** How the three copies of `Splice` line up in the new buffer `t`. */
  lemma SpliceJoin(t: seq<char>, a: seq<char>, r: seq<char>, idx: nat, m: nat, n: nat, used: nat)
    requires idx + m <= used && m + used <= |a| && n <= |r| && n + used <= |t|
    requires t[..idx] == a[..idx] && t[idx..idx + n] == r[..n]
    requires t[idx + n..n + used] == a[m + idx..m + used]
    ensures t[..used - m + n] == a[..idx] + r[..n] + a[idx + m..used]
  {
    Pieces(t, a[..idx], r[..n], a[m + idx..m + used], used - (m + idx));
    SlicePrefix(a, m + idx, m + used, used - (m + idx));
  }

  // ---------------------------------------------------------------------
  // The string object
  // ---------------------------------------------------------------------

  class String {
    var data: array<char>
    var used: nat
    var capacity: nat

    ghost predicate Valid()
      reads this, data
    {
      used <= capacity <= data.Length && used < data.Length && data[used] == '\0'
    }

    /** The live characters. */
    ghost function Contents(): string
      reads this, data
      requires Valid()
    {
      data[..used]
    }

    /** `String()`: empty, default capacity, terminator in place. */
    constructor ()
      ensures Valid() && fresh(data) && data.Length == capacity + 1
      ensures Contents() == [] && capacity == DEFAULT_STRING_SIZE
    {
      capacity := DEFAULT_STRING_SIZE;
      used := 0;
      new;
      data := new char[capacity + 1];
      data[used] := '\0';
    }

    /** `String(char)`: one character, default capacity. */
    constructor FromChar(c: char)
      ensures Valid() && fresh(data) && data.Length == capacity + 1
      ensures Contents() == [c] && capacity == DEFAULT_STRING_SIZE
    {
      capacity := DEFAULT_STRING_SIZE;
      used := 1;
      new;
      data := new char[capacity + 1];
      data[used - 1] := c;
      data[used] := '\0';
    }

    /** `String(const char*)`: the characters of the C string `s` (up to its
        first `'\0'`), capacity twice their number. */
    constructor FromCString(s: string)
      ensures Valid() && fresh(data) && data.Length == capacity + 1
      ensures Contents() == CStr(s) && capacity == 2 * |CStr(s)|
    {
      var text := CStr(s);
      var buffer := new char[2 * |text| + 1];
      for i := 0 to |text|
        invariant buffer[..i] == text[..i]
      {
        buffer[i] := text[i];
      }
      buffer[|text|] := '\0';
      used, capacity, data := |text|, 2 * |text|, buffer;
    }

    /** Copy constructor: the same characters, capacity twice their number. */
    constructor Copy(other: String)
      requires other.Valid()
      ensures Valid() && fresh(data) && data.Length == capacity + 1
      ensures Contents() == other.Contents() && capacity == 2 * other.used
    {
      var buffer := new char[2 * other.used + 1];
      for i := 0 to other.used
        invariant buffer[..i] == other.data[..i]
      {
        buffer[i] := other.data[i];
      }
      buffer[other.used] := '\0';
      capacity, used, data := 2 * other.used, other.used, buffer;
    }

    /** Move constructor: takes over the other string's buffer and leaves it
        a fresh empty default string. */
    constructor Move(other: String)
      requires other.Valid()
      modifies other
      ensures Valid() && other.Valid()
      ensures Contents() == old(other.Contents()) && capacity == old(other.capacity)
      ensures data == old(other.data)
      ensures other.Contents() == [] && other.capacity == DEFAULT_STRING_SIZE && fresh(other.data)
    {
      var empty := new char[DEFAULT_STRING_SIZE + 1];
      empty[0] := '\0';
      capacity, used, data := other.capacity, other.used, other.data;
      new;
      other.capacity, other.used, other.data := DEFAULT_STRING_SIZE, 0, empty;
    }

    /** `Resize(c)`: a buffer of exactly `c` slots with the same content. */
    method Resize(c: nat)
      requires Valid()
      requires c >= used + 1 && c > capacity
      modifies this
      ensures Valid() && fresh(data) && data.Length == c
      ensures capacity == c && used == old(used)
      ensures Contents() == old(Contents())
    {
      var temp := new char[c];
      CopyRange(data, 0, temp, 0, used);
      temp[used] := '\0';
      capacity, data := c, temp;
    }

    /** The capacity after making room for `total` characters. */
    static function GrownCapacity(capacity: nat, total: nat): nat {
      if total >= capacity then 2 * total else capacity
    }

    /** `Append(const String&)`: the other string's characters follow the old
        content; the capacity doubles the new length when it reaches the
        capacity.  Appending a string to itself is allowed. */
    method AppendString(other: String)
      requires Valid() && other.Valid()
      requires other == this || other.data != data
      requires used + other.used >= capacity ==> used + other.used > 0
      modifies this, data
      ensures Valid()
      ensures Contents() == old(Contents()) + old(other.Contents())
      ensures capacity == GrownCapacity(old(capacity), old(used) + old(other.used))
      ensures data == old(data) || fresh(data)
    {
      ghost var src := other.Contents();
      var total := used + other.used;
      if total >= capacity {
        Resize(total * 2);
      }
      assert other.data[..other.used] == src;
      AppendRun(other.data, other.used);
    }

    /** The copy loop and terminator shared by the `Append` overloads: the
        first `n` characters of `src` follow the content (which `src` may
        be, when `n` does not exceed it); the capacity already has room. */
    method AppendRun(src: array<char>, n: nat)
      requires Valid() && n <= src.Length && used + n < capacity
      requires src == data ==> n <= used
      modifies this, data
      ensures Valid() && data == old(data) && capacity == old(capacity)
      ensures Contents() == old(Contents()) + old(src[..n])
    {
      ghost var start := Contents();
      ghost var text := src[..n];
      var total := used + n;
      CopyRange(src, 0, data, used, n);
      ghost var d := data[..];
      data[total] := '\0';
      assert data[..] == d[total := '\0'];
      Terminated(d, start, text, '\0');
      used := total;
    }

    /** `Append(const char*)`: the characters of the C string `s` follow. */
    method AppendCString(s: string)
      requires Valid()
      requires used + |CStr(s)| >= capacity ==> used + |CStr(s)| > 0
      modifies this, data
      ensures Valid()
      ensures Contents() == old(Contents()) + CStr(s)
      ensures capacity == GrownCapacity(old(capacity), old(used) + |CStr(s)|)
      ensures data == old(data) || fresh(data)
    {
      AppendText(CStr(s));
    }

    /** The growth test and copy shared by `Append(const char*)` and
        `Append(const String&)`, fed the characters as a value: all of
        `text` follows, `'\0'` included. */
    method AppendText(text: string)
      requires Valid()
      requires used + |text| >= capacity ==> used + |text| > 0
      modifies this, data
      ensures Valid()
      ensures Contents() == old(Contents()) + text
      ensures capacity == GrownCapacity(old(capacity), old(used) + |text|)
      ensures data == old(data) || fresh(data)
    {
      ghost var start := Contents();
      var total := used + |text|;
      if total >= capacity {
        Resize(total * 2);
      }
      assert total < data.Length && data[..used] == start;
      WriteSeq(text, data, used);
      ghost var d := data[..];
      data[total] := '\0';
      assert data[..] == d[total := '\0'];
      Terminated(d, start, text, '\0');
      used := total;
    }

    /** `Append(char)`: one character follows. */
    method AppendChar(c: char)
      requires Valid()
      modifies this, data
      ensures Valid()
      ensures Contents() == old(Contents()) + [c]
      ensures capacity == GrownCapacity(old(capacity), old(used) + 1)
      ensures data == old(data) || fresh(data)
    {
      var total := used + 1;
      if total >= capacity {
        Resize(total * 2);
      }
      data[used] := c;
      used := total;
      data[used] := '\0';
    }

    /** `Append(int)`: the decimal text of the number follows. */
    method AppendInt(n: int)
      requires Valid()
      modifies this, data
      ensures Valid()
      ensures Contents() == old(Contents()) + IntToDecimal(n)
      ensures data == old(data) || fresh(data)
    {
      CStrOfPlain(IntToDecimal(n));
      AppendCString(IntToDecimal(n));
    }

    /** `Append(Size)`: the decimal text of the number follows. */
    method AppendSize(n: nat)
      requires Valid()
      modifies this, data
      ensures Valid()
      ensures Contents() == old(Contents()) + NatToDecimal(n)
      ensures data == old(data) || fresh(data)
    {
      CStrOfPlain(NatToDecimal(n));
      AppendCString(NatToDecimal(n));
    }

    /** `Append(bool)`: "true" or "false" follows. */
    method AppendBool(b: bool)
      requires Valid()
      modifies this, data
      ensures Valid()
      ensures Contents() == old(Contents()) + (if b then "true" else "false")
      ensures data == old(data) || fresh(data)
    {
      var text := if b then "true" else "false";
      CStrOfPlain(text);
      AppendCString(text);
    }

    /** `Clear()`: a fresh buffer of the same capacity, no characters. */
    method Clear()
      requires Valid()
      modifies this
      ensures Valid() && fresh(data) && data.Length == capacity + 1
      ensures Contents() == [] && capacity == old(capacity)
    {
      var buffer := new char[capacity + 1];
      buffer[0] := '\0';
      used, data := 0, buffer;
    }

    /** `Find(char)`: the index of the first occurrence, or -1. */
    method Find(c: char) returns (r: int)
      requires Valid()
      ensures r == IndexOf(Contents(), c)
    {
      var index := 0;
      while index < used && data[index] != c
        invariant 0 <= index <= used
        invariant c !in data[..index]
      {
        assert data[..index + 1] == data[..index] + [data[index]];
        index := index + 1;
      }
      r := if index >= used then -1 else index;
      assert r == -1 ==> data[..used] == data[..index];
    }

    /** `Replace(char, char)`.  With a non-NUL replacement every `a` becomes
        `b`.  With `'\0'` the first `a` is cut out and the length drops by
        one, whether or not `a` occurs (the library decrements
        unconditionally, so the last character is lost when `a` is absent). */
    method ReplaceChar(a: char, b: char)
      requires Valid()
      requires b == '\0' ==> used > 0
      modifies this, data
      ensures Valid() && data == old(data) && capacity == old(capacity)
      ensures b != '\0' ==> Contents() == ReplaceAll(old(Contents()), a, b)
      ensures b == '\0' ==> Contents() == RemoveFirstOrLast(old(Contents()), a)
    {
      if b == '\0' {
        CutFirst(a);
      } else {
        ReplaceEvery(a, b);
      }
    }

    /** The `'\0'` branch of `Replace(char, char)`: find the first `a`, shift
        everything after it one slot left, decrement the length. */
    method CutFirst(a: char)
      requires Valid() && used > 0
      modifies this, data
      ensures Valid() && data == old(data) && capacity == old(capacity)
      ensures Contents() == RemoveFirstOrLast(old(Contents()), a)
    {
      ghost var s := Contents();
      var i := 0;
      while i < used && data[i] != a
        invariant 0 <= i <= used
        invariant a !in s[..i]
      {
        assert data[i] == s[i] && s[..i + 1] == s[..i] + [s[i]];
        i := i + 1;
      }
      assert i < used ==> s[i] == a;
      CutChoice(s, a, i);
      CutAt(i);
    }

    /** The shift of `CutFirst` once the slot `k` is known: slot `k` is
        dropped (the last slot when `k` is the length), the rest moves down
        one slot and a new terminator is written. */
    method CutAt(k: nat)
      requires Valid() && 0 < used && k <= used
      modifies this, data
      ensures Valid() && data == old(data) && capacity == old(capacity)
      ensures Contents() == (if k < old(used) then old(Contents())[..k] + old(Contents())[k + 1..]
                             else old(Contents())[..old(used) - 1])
    {
      ghost var s := Contents();
      ghost var d := data[..];
      ShiftLeft(data, k, used);
      ShiftedOut(d, data[..], s, k);
      ghost var e := data[..];
      used := used - 1;
      data[used] := '\0';
      assert data[..] == e[used := '\0'];
      assert data[..used] == e[..used];
    }

    /** The other branch of `Replace(char, char)`: every `a` becomes `b`. */
    method ReplaceEvery(a: char, b: char)
      requires Valid()
      modifies data
      ensures Valid() && Contents() == ReplaceAll(old(Contents()), a, b)
    {
      ghost var s := Contents();
      for i := 0 to used
        invariant data[..i] == ReplaceAll(s[..i], a, b)
        invariant data[i..used] == s[i..]
        invariant data[used] == '\0'
      {
        if data[i] == a {
          data[i] := b;
        }
        assert data[..i + 1] == ReplaceAll(s[..i + 1], a, b);
      }
    }

    /** `Remove(char)`: the same as `Replace(c, '\0')`. */
    method Remove(c: char)
      requires Valid() && used > 0
      modifies this, data
      ensures Valid() && data == old(data) && capacity == old(capacity)
      ensures Contents() == RemoveFirstOrLast(old(Contents()), c)
    {
      ReplaceChar(c, '\0');
    }

    /** `Remove(char)` as evidently intended: the first `c` is cut out when
        there is one, and nothing changes otherwise. */
    method RemoveChecked(c: char)
      requires Valid()
      modifies this, data
      ensures Valid() && data == old(data) && capacity == old(capacity)
      ensures c in old(Contents()) ==> Contents() == RemoveFirstOrLast(old(Contents()), c)
      ensures c in old(Contents()) ==> multiset(Contents())[c] + 1 == multiset(old(Contents()))[c]
      ensures c !in old(Contents()) ==> Contents() == old(Contents()) && used == old(used)
    {
      var k := Find(c);
      if k >= 0 {
        RemoveFirstCounts(Contents(), c);
        CutAt(k);
      }
    }

    /** The live characters followed by the terminator: the slots the
        search loop of `Replace` may compare against. */
    ghost function SearchedText(): (t: string)
      reads this, data
      requires Valid()
      ensures |t| == used + 1 && t == Contents() + ['\0']
    {
      data[..used + 1]
    }

    /** The search loop of `Replace(const String&, const String&)`: the first
        index below `used` where the pattern occurs in the terminated text,
        or -1.  A trailing `'\0'` of the pattern matches the terminator; a
        `'\0'` anywhere earlier would let the comparison run past it. */
    method FindPattern(pattern: String) returns (r: int)
      requires Valid() && pattern.Valid()
      requires pattern.used > 0 && '\0' !in pattern.Contents()[..pattern.used - 1]
      ensures r == -1 || 0 <= r < used
      ensures r >= 0 ==> OccursAt(SearchedText(), pattern.Contents(), r)
      ensures forall k :: 0 <= k < used && (r == -1 || k < r) ==> !OccursAt(SearchedText(), pattern.Contents(), k)
      ensures '\0' !in pattern.Contents() ==> r == FirstOccurrence(Contents(), pattern.Contents())
    {
      ghost var s := Contents();
      ghost var t := SearchedText();
      ghost var p := pattern.Contents();
      var i := 0;
      while i < used
        invariant 0 <= i <= used
        invariant forall k :: 0 <= k < i ==> !OccursAt(t, p, k)
        invariant '\0' !in p ==> FirstOccurrenceFrom(s, p, 0) == FirstOccurrenceFrom(s, p, i)
      {
        if data[i] == pattern.data[0] {
          var found := MatchesAt(pattern, i);
          if '\0' !in p {
            NulFreeOccursAt(s, p, i);
          }
          if found {
            return i;
          }
        } else {
          assert t[i] != p[0];
        }
        i := i + 1;
      }
      return -1;
    }

    /** The inner loop of that search: with the first character already
        matching at `i`, compares the rest of the pattern.  Only the last
        pattern character may be `'\0'`, so a partial match stops at the
        terminator at the latest. */
    method MatchesAt(pattern: String, i: nat) returns (found: bool)
      requires Valid() && pattern.Valid()
      requires pattern.used > 0 && '\0' !in pattern.Contents()[..pattern.used - 1]
      requires i < used && data[i] == pattern.data[0]
      ensures found <==> OccursAt(SearchedText(), pattern.Contents(), i)
    {
      ghost var t := SearchedText();
      ghost var p := pattern.Contents();
      var m := pattern.used;
      var j := 1;
      while j < m
        invariant 1 <= j <= m
        invariant i + j <= used || (j == m && i + j == used + 1)
        invariant data[i..i + j] == p[..j]
      {
        if data[i + j] != pattern.data[j] {
          assert t[i + j] != p[j];
          return false;
        }
        if i + j == used {
          assert p[j] == '\0';
          assert j == m - 1;
        }
        assert data[i..i + j + 1] == p[..j + 1];
        j := j + 1;
      }
      assert t[i..i + m] == data[i..i + m];
      return true;
    }

    /** `Replace(const String&, const String&)`: the first occurrence of the
        pattern is replaced.  The library grows the buffer when the new length
        FITS the capacity and not when it exceeds it, so a lengthening
        replacement past the capacity would overrun the buffer; `requires`
        excludes that case.  The pattern and the replacement may be this
        string itself, as in `s.Replace(s, t)`. */
    method ReplaceString(pattern: String, replacement: String)
      requires Valid() && pattern.Valid() && replacement.Valid()
      requires pattern == this || pattern.data != data
      requires replacement == this || replacement.data != data
      requires pattern.used > 0 && '\0' !in pattern.Contents()
      requires FirstOccurrence(Contents(), pattern.Contents()) >= 0
        && pattern.used != replacement.used
        ==> used - pattern.used + replacement.used <= capacity
      modifies this, data
      ensures Valid()
      ensures Contents() == ReplaceFirst(old(Contents()), old(pattern.Contents()), old(replacement.Contents()))
      ensures capacity == if FirstOccurrence(old(Contents()), old(pattern.Contents())) >= 0
        && old(pattern.used) != old(replacement.used) then 2 * old(capacity) else old(capacity)
    {
      var seqIdx := FindPattern(pattern);
      if seqIdx == -1 {
        return;
      }
      if pattern.used == replacement.used {
        OverwriteAt(seqIdx, pattern.used, replacement);
      } else {
        SpliceAt(seqIdx, pattern.used, replacement);
      }
    }

    /** The equal-length branch of `Replace`: the replacement overwrites the
        `m` characters at `idx`. */
    method OverwriteAt(idx: nat, m: nat, replacement: String)
      requires Valid() && replacement.Valid()
      requires replacement == this || replacement.data != data
      requires replacement.used == m && idx + m <= used
      modifies data
      ensures Valid()
      ensures Contents() == old(Contents()[..idx]) + old(replacement.Contents()) + old(Contents()[idx + m..])
    {
      ghost var s, d0 := Contents(), data[..];
      CopyRange(replacement.data, 0, data, idx, m);
      Overwritten(d0, data[..], idx, m, replacement.Contents(), used);
      assert d0[..idx] == s[..idx] && d0[idx + m..used] == s[idx + m..];
      assert data[used] == data[idx + m..][used - idx - m];
    }

    /** The different-length branch of `Replace`: after the (inverted) growth
        test, a new buffer receives the prefix, the replacement and then the
        suffix, whose copy loop reads `m` slots past the live part. */
    method SpliceAt(idx: nat, m: nat, replacement: String)
      requires Valid() && replacement.Valid()
      requires replacement == this || replacement.data != data
      requires m > 0 && idx + m <= used && used - m + replacement.used <= capacity
      modifies this
      ensures Valid() && fresh(data)
      ensures capacity == 2 * old(capacity)
      ensures Contents() == old(Contents()[..idx]) + old(replacement.Contents()) + old(Contents()[idx + m..])
    {
      ghost var s := Contents();
      ghost var q := replacement.Contents();
      var n := replacement.used;
      var newLength := used - (m - n);
      if newLength <= capacity {
        Resize(capacity * 2);
      }
      assert data[..used] == s && replacement.data[..n] == q;
      var temp := Splice(data, used, idx, m, replacement.data, n, capacity + 1);
      ghost var r := temp[..newLength];
      assert r == s[..idx] + q + s[idx + m..];
      data := temp;
      used := newLength;
      data[used] := '\0';
      assert data[..used] == r && used < data.Length;
      assert Contents() == old(Contents()[..idx]) + old(replacement.Contents()) + old(Contents()[idx + m..]);
    }

    /** `ToLowerCase()`: every live character lower-cased in place. */
    method ToLowerCase()
      requires Valid()
      modifies data
      ensures Valid() && Contents() == Lower(old(Contents()))
    {
      ghost var s := Contents();
      for i := 0 to used
        invariant data[..i] == Lower(s[..i])
        invariant data[i..used] == s[i..]
        invariant data[used] == '\0'
      {
        data[i] := LowerChar(data[i]);
        assert data[..i + 1] == Lower(s[..i + 1]);
      }
    }

    /** `ToUpperCase()`: every live character upper-cased in place. */
    method ToUpperCase()
      requires Valid()
      modifies data
      ensures Valid() && Contents() == Upper(old(Contents()))
    {
      ghost var s := Contents();
      for i := 0 to used
        invariant data[..i] == Upper(s[..i])
        invariant data[i..used] == s[i..]
        invariant data[used] == '\0'
      {
        data[i] := UpperChar(data[i]);
        assert data[..i + 1] == Upper(s[..i + 1]);
      }
    }

    /** `Get(i)` (the checked overload). */
    method Get(i: nat) returns (c: char)
      requires Valid() && i < used
      ensures c == Contents()[i]
    {
      c := data[i];
    }

    /** `IsEqual(const String&)`: same length and the same characters. */
    method IsEqual(other: String) returns (b: bool)
      requires Valid() && other.Valid()
      ensures b <==> Contents() == other.Contents()
    {
      if used != other.used {
        return false;
      }
      for i := 0 to used
        invariant data[..i] == other.data[..i]
      {
        if data[i] != other.data[i] {
          return false;
        }
      }
      return true;
    }

    /** `IsEqual(const char*)`: `strcmp` of the two C strings is zero. */
    method IsEqualCString(s: string) returns (b: bool)
      requires Valid()
      ensures b <==> CStr(Contents()) == CStr(s)
    {
      b := CStr(data[..used]) == CStr(s);
    }

    /** `operator=(const String&)`: an independent copy of the other string's
        characters and capacity.  Self-assignment is excluded: the library
        would copy from the buffer it has just replaced. */
    method AssignString(other: String)
      requires Valid() && other.Valid() && other != this
      modifies this
      ensures Valid() && fresh(data) && data.Length == capacity + 1
      ensures Contents() == old(other.Contents()) && capacity == old(other.capacity)
    {
      var buffer := new char[other.capacity + 1];
      for i := 0 to other.used
        invariant buffer[..i] == other.data[..i]
      {
        buffer[i] := other.data[i];
      }
      buffer[other.used] := '\0';
      used, capacity, data := other.used, other.capacity, buffer;
    }

    /** `operator=(const char*)`: the characters of the C string, growing the
        buffer to twice their number when they do not fit. */
    method AssignCString(s: string)
      requires Valid()
      requires |CStr(s)| >= capacity ==> |CStr(s)| > 0
      modifies this, data
      ensures Valid()
      ensures Contents() == CStr(s)
      ensures capacity == GrownCapacity(old(capacity), |CStr(s)|)
    {
      var text := CStr(s);
      if |text| >= capacity {
        Resize(|text| * 2);
      }
      for i := 0 to |text|
        invariant data[..i] == text[..i]
        invariant |text| < data.Length
        modifies data
      {
        data[i] := text[i];
      }
      used := |text|;
      data[used] := '\0';
    }
  }

  /** `operator+(const String&, const String&)`: a new string holding the
      concatenation. */
  method Concat(left: String, right: String) returns (r: String)
    requires left.Valid() && right.Valid()
    ensures fresh(r) && r.Valid()
    ensures r.Contents() == left.Contents() + right.Contents()
  {
    r := new String();
    r.AppendString(left);
    r.AppendString(right);
  }

  /** `operator+(const String&, const char*)`. */
  method ConcatCString(left: String, right: string) returns (r: String)
    requires left.Valid()
    ensures fresh(r) && r.Valid()
    ensures r.Contents() == left.Contents() + CStr(right)
  {
    r := new String();
    r.AppendString(left);
    r.AppendCString(right);
  }

  /** `operator+(const String&, char)`. */
  method ConcatChar(left: String, right: char) returns (r: String)
    requires left.Valid()
    ensures fresh(r) && r.Valid()
    ensures r.Contents() == left.Contents() + [right]
  {
    r := new String();
    r.AppendString(left);
    r.AppendChar(right);
  }

  /** `operator+(const String&, int)`: left then the decimal text of the
      number. */
  method ConcatInt(left: String, right: int) returns (r: String)
    requires left.Valid()
    ensures fresh(r) && r.Valid()
    ensures r.Contents() == left.Contents() + IntToDecimal(right)
  {
    r := new String();
    r.AppendString(left);
    r.AppendInt(right);
  }

  /** `operator+(const String&, Size)`. */
  method ConcatSize(left: String, right: nat) returns (r: String)
    requires left.Valid()
    ensures fresh(r) && r.Valid()
    ensures r.Contents() == left.Contents() + NatToDecimal(right)
  {
    r := new String();
    r.AppendString(left);
    r.AppendSize(right);
  }

  /** `operator+(const String&, bool)`: left then "true" or "false". */
  method ConcatBool(left: String, right: bool) returns (r: String)
    requires left.Valid()
    ensures fresh(r) && r.Valid()
    ensures r.Contents() == left.Contents() + (if right then "true" else "false")
  {
    r := new String();
    r.AppendString(left);
    r.AppendBool(right);
  }

  /** A pattern ending in `'\0'` matches the terminator: in "xa" the pattern
      "a\0" is found at index 1, although "a\0" is not a substring of
      "xa". */
  method TrailingNulPatternFound() returns (r: int)
    ensures r == 1
  {
    var s := new String.FromChar('x');
    s.AppendChar('a');
    var p := new String.FromChar('a');
    p.AppendChar('\0');
    assert s.Contents() == "xa" && p.Contents() == "a\0";
    assert s.SearchedText() == "xa\0";
    assert !OccursAt(s.SearchedText(), p.Contents(), 0);
    assert OccursAt(s.SearchedText(), p.Contents(), 1);
    r := s.FindPattern(p);
    assert s.used == 2;
    assert OccursAt(s.SearchedText(), p.Contents(), 1);
    assert r != -1;
    assert r != 0;
  }

}
