/**
 * `ntl::Array<T>` specialised to `int` elements: a buffer `data` whose first
 * `used` slots are live, a reported `capacity`, the flag `sorted` and the two
 * fixed policies `keepSorted` (re-sort after every insertion) and `growable`
 * (double the capacity when an insertion finds the array full).
 *
 * The buffer's real length and the reported capacity are kept apart: the
 * copy constructor allocates the copied array's capacity but reports twice the
 * size, and merge sort of at most one element installs a one-slot buffer
 * without touching the capacity.  `VERIFY(...)` checks become `requires`, and
 * so do the conditions under which the code would index outside its buffer.
 */
module NtlArray {
  import opened Base
  import opened Buffers
  import opened SortSpec
  import NtlString

  /** Default capacity of `Array()`. */
  const DEFAULT_ARRAY_CAPACITY: nat := 1024

  /** What `Find` answers on the live elements `s`: -1 on an empty array,
      otherwise binary search over the whole range when the sorted flag is
      set and front/back search when it is not. */
  function FindIn(s: seq<int>, sorted: bool, x: int): (r: int)
    ensures r == -1 || 0 <= r < |s|
    ensures !sorted ==> (r == -1 <==> x !in s)
    ensures !sorted && r >= 0 ==> s[r] == x
  {
    if |s| == 0 then -1
    else if sorted then BinarySearchAsWritten(s, x, 0, |s| - 1)
    else
      var r := FrontBack(s, x, 0, |s| - 1);
      assert x in s ==> InRange(s, x, 0, |s| - 1) by {
        if x in s {
          var i :| 0 <= i < |s| && s[i] == x;
        }
      }
      r
  }

  /** On a sorted array `Find` finds every element that is present. */
  lemma FindSortedComplete(s: seq<int>, x: int)
    requires Sorted(s) && x in s
    ensures FindIn(s, true, x) >= 0 && s[FindIn(s, true, x)] == x
  {
    var i :| 0 <= i < |s| && s[i] == x;
    assert InRange(s, x, 0, |s| - 1);
    BinarySearchComplete(s, x, 0, |s| - 1);
  }

  /** The text `ToString` produces for the live elements `s`: `Array(`, the
      elements separated by `, `, then `)` and a newline; an empty array gives
      `Array(` alone, without the closing parenthesis. */
  function ArrayText(s: seq<int>): string {
    "Array(" + (if |s| == 0 then "" else Join(s) + ")\n")
  }

  /** The decimal texts of the elements of a non-empty `s`, separated by `, `. */
  function Join(s: seq<int>): string
    requires |s| > 0
  {
    if |s| == 1 then IntToDecimal(s[0])
    else Join(s[..|s| - 1]) + ", " + IntToDecimal(s[|s| - 1])
  }

  /** What the loop of `ToString` has appended after its first `i` rounds:
      each element followed by `, `, or by `)` and a newline after the last. */
  function RenderPrefix(s: seq<int>, i: nat): string
    requires i <= |s|
  {
    if i == 0 then ""
    else RenderPrefix(s, i - 1) + IntToDecimal(s[i - 1]) + (if i == |s| then ")\n" else ", ")
  }

  /** The loop's text is the joined elements with the right terminator. */
  lemma {:induction false} RenderPrefixIsJoin(s: seq<int>, i: nat)
    requires 0 < i <= |s|
    ensures RenderPrefix(s, i) == Join(s[..i]) + (if i == |s| then ")\n" else ", ")
  {
    if i > 1 {
      RenderPrefixIsJoin(s, i - 1);
      assert s[..i][..i - 1] == s[..i - 1];
    }
  }

  /** After all its rounds the loop of `ToString` has rendered the array. */
  lemma RenderWhole(s: seq<int>)
    ensures "Array(" + RenderPrefix(s, |s|) == ArrayText(s)
  {
    if |s| > 0 {
      RenderPrefixIsJoin(s, |s|);
      assert s[..|s|] == s;
    }
  }

  /** The rendering of a non-empty array ends with `)` and a newline; that of
      an empty one is the bare prefix `Array(`. */
  lemma ArrayTextShape(s: seq<int>)
    ensures |s| == 0 ==> ArrayText(s) == "Array("
    ensures |s| > 0 ==> |ArrayText(s)| >= 9 && ArrayText(s)[|ArrayText(s)| - 2..] == ")\n"
  {
    if |s| > 0 {
      assert |IntToDecimal(s[0])| >= 1;
      JoinLength(s);
    }
  }

  lemma {:induction false} JoinLength(s: seq<int>)
    requires |s| > 0
    ensures |Join(s)| >= |s|
  {
    if |s| > 1 {
      JoinLength(s[..|s| - 1]);
    }
  }

  /** The rendering of `[8, 16, 32]`. */
  lemma ArrayTextExample()
    ensures ArrayText([8, 16, 32]) == "Array(8, 16, 32)\n"
  {
    var s := [8, 16, 32];
    assert IntToDecimal(8) == "8";
    assert IntToDecimal(16) == "16" by {
      assert NatToDecimal(16) == NatToDecimal(1) + [DigitChar(6)];
    }
    assert IntToDecimal(32) == "32" by {
      assert NatToDecimal(32) == NatToDecimal(3) + [DigitChar(2)];
    }
    assert s[..2][..1] == [8];
    assert Join(s[..2]) == "8, 16";
    assert Join(s) == "8, 16, 32";
  }

  /** The loop of `Remove` as written: the indices it reads, `a_index + 1` up
      to and including `m_used`. */
  function RemoveLoopReadsAsWritten(index: nat, used: nat): (r: seq<nat>)
    requires index < used
    ensures |r| == used - index
    ensures forall k :: 0 <= k < |r| ==> r[k] == index + 1 + k
    decreases used - index
  {
    if index + 1 == used then [used] else [index + 1] + RemoveLoopReadsAsWritten(index + 1, used)
  }

  /** The last read of `Remove`'s loop is slot `m_used`, one past the live
      elements; when the array is full that slot lies outside the buffer.  The
      library's own test removes from a full array of capacity 3. */
  lemma RemoveReadsPastTheBuffer(index: nat, used: nat, length: nat)
    requires index < used == length
    ensures used in RemoveLoopReadsAsWritten(index, used)
    ensures exists k :: 0 <= k < |RemoveLoopReadsAsWritten(index, used)| &&
                        RemoveLoopReadsAsWritten(index, used)[k] >= length
  {
    var r := RemoveLoopReadsAsWritten(index, used);
    assert r[|r| - 1] == used;
  }

  /** The inner loop of `insertionSort` as written, run over a sorted prefix
      `s` with the value `v` taken out of slot `j + 1`: the indices of the
      elements its condition reads.  The condition reads `m_data[j]` before it
      tests `j >= 0`, so when `v` is below everything the last read is at -1. */
  function InsertionProbesAsWritten(s: seq<int>, j: int, v: int): (r: seq<int>)
    requires j < |s|
    ensures |r| > 0 && r[0] == j
    decreases j + 1
  {
    if j < 0 then [j]
    else if s[j] > v then [j] + InsertionProbesAsWritten(s, j - 1, v)
    else [j]
  }

  /** Sorting `[2, 1]` reads slot -1: the first insertion step moves 2 up and
      then evaluates `m_data[-1] > 1`. */
  lemma InsertionSortReadsBeforeTheBuffer()
    ensures InsertionProbesAsWritten([2, 1], 0, 1) == [0, -1]
  {
  }

  /** In general, inserting a value below the whole sorted prefix reads slot -1. */
  lemma {:induction false} InsertionProbesReachMinusOne(s: seq<int>, j: int, v: int)
    requires -1 <= j < |s|
    requires forall k :: 0 <= k <= j ==> s[k] > v
    ensures InsertionProbesAsWritten(s, j, v)[|InsertionProbesAsWritten(s, j, v)| - 1] == -1
    decreases j + 1
  {
    if j >= 0 {
      InsertionProbesReachMinusOne(s, j - 1, v);
    }
  }

  /** The slots `Insert(x, i)` writes, as written: the shift loop writes
      `m_data[k]` for `k` from `m_used` down to `i + 1`, then `x` goes to slot
      `i`.  The first write is always slot `m_used`. */
  function InsertAtWritesAsWritten(index: nat, used: nat): (r: seq<nat>)
    requires index <= used
    ensures |r| == used - index + 1
    ensures forall k :: 0 <= k < |r| ==> r[k] == used - k
    decreases used - index
  {
    if used == index then [index] else [used] + InsertAtWritesAsWritten(index, used - 1)
  }

  /** On a full array, `Insert(x, i)` with `i` below the capacity passes both
      checks and does not grow, yet its first write is slot `m_used`, one past
      the end of the buffer. */
  lemma InsertAtWritesPastTheBuffer(index: nat, used: nat, capacity: nat, length: nat, growable: bool)
    requires index <= used && used == length && capacity <= length && index < capacity
    ensures !(index >= capacity && growable)
    ensures InsertAtWritesAsWritten(index, used)[0] == length
  {
    assert InsertAtWritesAsWritten(index, used)[0] == used;
  }

  /** Slots `x` and `y` of `a` exchanged. */
  function Swapped(a: seq<int>, x: nat, y: nat): (b: seq<int>)
    requires x < |a| && y < |a|
    ensures |b| == |a| && b[x] == a[y] && b[y] == a[x]
    ensures forall k :: 0 <= k < |a| && k != x && k != y ==> b[k] == a[k]
  {
    a[x := a[y]][y := a[x]]
  }

  /** An exchange inside `[lo, hi)` permutes that range and touches nothing else. */
  lemma SwapPermutes(a: seq<int>, x: nat, y: nat, lo: nat, hi: nat)
    requires lo <= x < hi && lo <= y < hi && hi <= |a|
    ensures multiset(Swapped(a, x, y)[lo..hi]) == multiset(a[lo..hi])
    ensures Swapped(a, x, y)[..lo] == a[..lo] && Swapped(a, x, y)[hi..] == a[hi..]
  {
    var b := Swapped(a, x, y);
    assert b[lo..hi] == a[lo..hi][x - lo := a[y]][y - lo := a[x]];
  }

  /** The last write of an insertion step: `v` lands in the hole at slot `k`
      left after the larger elements of `s0[k..i]` moved up one slot. */
  lemma HoleFilled(pre: seq<int>, s0: seq<int>, k: nat, i: nat, v: int)
    requires k <= i < |pre| == |s0|
    requires pre[..k] == s0[..k] && pre[k + 1..i + 1] == s0[k..i] && pre[i + 1..] == s0[i + 1..]
    ensures pre[k := v][..i + 1] == s0[..k] + [v] + s0[k..i]
    ensures pre[k := v][i + 1..] == s0[i + 1..]
  {
    var r := pre[k := v];
    assert r[..i + 1] == pre[..k] + [v] + pre[k + 1..i + 1];
    assert r[i + 1..] == pre[i + 1..];
  }

  /** Taking `s0[i]` out and putting it back at slot `k` permutes `s0[..i + 1]`. */
  lemma InsertedPermutes(s0: seq<int>, k: nat, i: nat)
    requires k <= i < |s0|
    ensures multiset(s0[..k] + [s0[i]] + s0[k..i]) == multiset(s0[..i + 1])
  {
    assert s0[..i + 1] == s0[..k] + s0[k..i] + [s0[i]];
  }

  lemma InsertedSorted(s0: seq<int>, k: nat, i: nat, v: int)
    requires k <= i < |s0| && Sorted(s0[..i])
    requires k > 0 ==> s0[k - 1] <= v
    requires AllAbove(s0[k..i], v)
    ensures Sorted(s0[..k] + [v] + s0[k..i])
  {
    var p := s0[..i];
    assert p[..k] == s0[..k] && p[k..] == s0[k..i];
    SortedInsertion(p, k, v);
  }

  /** The state of the shifting loop of an insertion step that lifts `v`
      (the former `s0[i]`) out: the elements of `s0[j + 1..i]`, all above `v`,
      have each moved up one slot, and nothing else has changed. */
  ghost predicate ShiftState(a: seq<int>, s0: seq<int>, j: int, i: nat, v: int) {
    -1 <= j < i < |a| == |s0|
    && a[..j + 1] == s0[..j + 1] && a[j + 2..i + 1] == s0[j + 1..i] && a[i + 1..] == s0[i + 1..]
    && AllAbove(s0[j + 1..i], v)
  }

  /** One round of the shifting loop: `a[j]`, above `v`, moves up into slot
      `j + 1`. */
  lemma ShiftStep(a: seq<int>, s0: seq<int>, j: nat, i: nat, v: int)
    requires ShiftState(a, s0, j, i, v) && a[j] > v
    ensures ShiftState(a[j + 1 := a[j]], s0, j - 1, i, v)
  {
    var b := a[j + 1 := a[j]];
    assert a[j] == a[..j + 1][j] == s0[j];
    assert b[..j] == a[..j] == s0[..j];
    assert b[j + 1..i + 1] == [s0[j]] + s0[j + 1..i] == s0[j..i];
    assert b[i + 1..] == a[i + 1..];
  }

  /** The whole effect of one insertion step on the array's contents: with `v`
      (the former `s0[i]`) written into the hole at slot `k`, the prefix
      `[..i + 1]` is sorted and a permutation of the old one, and nothing
      after it moved. */
  lemma InsertionDone(pre: seq<int>, s0: seq<int>, j: int, i: nat, v: int)
    requires ShiftState(pre, s0, j, i, v) && v == s0[i] && Sorted(s0[..i])
    requires j >= 0 ==> pre[j] <= v
    ensures Sorted(pre[j + 1 := v][..i + 1])
    ensures multiset(pre[j + 1 := v][..i + 1]) == multiset(s0[..i + 1])
    ensures pre[j + 1 := v][i + 1..] == s0[i + 1..]
  {
    var k := j + 1;
    assert k > 0 ==> pre[k - 1] == pre[..k][k - 1] == s0[k - 1];
    HoleFilled(pre, s0, k, i, v);
    InsertedSorted(s0, k, i, v);
    InsertedPermutes(s0, k, i);
  }

  /** Permuting a prefix `[..n]` and keeping the rest permutes every longer
      prefix and keeps what lies beyond it. */
  lemma PrefixPermuted(before: seq<int>, after: seq<int>, n: nat, m: nat)
    requires n <= m <= |before| == |after|
    requires multiset(after[..n]) == multiset(before[..n]) && after[n..] == before[n..]
    ensures multiset(after[..m]) == multiset(before[..m]) && after[m..] == before[m..]
  {
    assert after[..m] == after[..n] + after[n..][..m - n];
    assert before[..m] == before[..n] + before[n..][..m - n];
    assert after[m..] == after[n..][m - n..];
    assert before[m..] == before[n..][m - n..];
  }

  /** Writing `x` just past a prefix `[..n]` extends it by `x`. */
  lemma WriteAfter(pre: seq<int>, n: nat, x: int)
    requires n < |pre|
    ensures pre[n := x][..n + 1] == pre[..n] + [x]
  {
  }

  /** Writing `x` into the gap at slot `i` left by shifting `s[i..]` up one
      slot inserts `x` into `s`. */
  lemma WriteInGap(pre: seq<int>, s: seq<int>, i: nat, x: int)
    requires i <= |s| < |pre|
    requires pre[..i] == s[..i] && pre[i + 1..|s| + 1] == s[i..]
    ensures pre[i := x][..|s| + 1] == s[..i] + [x] + s[i..]
  {
    assert pre[i := x][..|s| + 1] == pre[..i] + [x] + pre[i + 1..|s| + 1];
  }

  /** Inserting `x` anywhere adds one `x` to the multiset of elements. */
  lemma InsertionMultiset(s: seq<int>, i: nat, x: int)
    requires i <= |s|
    ensures multiset(s[..i] + [x] + s[i..]) == multiset(s) + multiset{x}
  {
    assert s == s[..i] + s[i..];
  }

  /** The combination step of `quickSort`: after partitioning `d1` around
      the pivot at slot `k`, sorting `[lo, k)` (giving `d2`) and then
      `(k, hi]` (giving `d3`) sorts and permutes `[lo, hi]` and leaves the
      rest alone. */
  lemma QuickSortCombine(d0: seq<int>, d1: seq<int>, d2: seq<int>, d3: seq<int>, lo: nat, k: nat, hi: nat)
    requires PermutedIn(d1, d0, lo, hi + 1)
    requires PartitionedAt(d1, lo, k, hi) && |d1| == |d2| == |d3|
    requires SortedSpan(d2, lo, k) && PermutedIn(d2, d1, lo, k)
    requires SortedSpan(d3, k + 1, hi + 1) && PermutedIn(d3, d2, k + 1, hi + 1)
    ensures SortedSpan(d3, lo, hi + 1) && PermutedIn(d3, d0, lo, hi + 1)
  {
    SortedSpanIsSorted(d2, lo, k);
    SortedSpanIsSorted(d3, k + 1, hi + 1);
    QuickSortJoin(d1, d2, d3, lo, k, hi);
    SortedSpanIsSorted(d3, lo, hi + 1);
    PermutedTrans(d3, d1, d0, lo, hi + 1);
  }

  /** Rearranging a range twice is rearranging it once. */
  lemma PermutedTrans(a: seq<int>, b: seq<int>, c: seq<int>, lo: nat, hi: nat)
    requires PermutedIn(a, b, lo, hi) && PermutedIn(b, c, lo, hi)
    ensures PermutedIn(a, c, lo, hi)
  {
  }

  /** `QuickSortCombine` with the sorted ranges stated as sorted slices. */
  lemma QuickSortJoin(d1: seq<int>, d2: seq<int>, d3: seq<int>, lo: nat, k: nat, hi: nat)
    requires PartitionedAt(d1, lo, k, hi) && |d1| == |d2| == |d3|
    requires Sorted(d2[lo..k]) && PermutedIn(d2, d1, lo, k)
    requires Sorted(d3[k + 1..hi + 1]) && PermutedIn(d3, d2, k + 1, hi + 1)
    ensures Sorted(d3[lo..hi + 1]) && PermutedIn(d3, d1, lo, hi + 1)
  {
    QuickSortFrames(d1, d2, d3, lo, k, hi);
    var p := d1[k];
    var left, right := d3[lo..k], d3[k + 1..hi + 1];
    assert AllAtMost(d1[lo..k], p);
    assert AllAbove(d1[k + 1..hi + 1], p);
    BoundsOfPermutation(d1[lo..k], left, p);
    BoundsOfPermutation(d1[k + 1..hi + 1], right, p);
    SortedAroundPivot(left, p, right);
  }

  /** How the three pieces of `[lo, hi]` and the untouched ends move through
      the two recursive calls of `quickSort`. */
  lemma QuickSortFrames(d1: seq<int>, d2: seq<int>, d3: seq<int>, lo: nat, k: nat, hi: nat)
    requires lo <= k <= hi < |d1| == |d2| == |d3|
    requires d2[..lo] == d1[..lo] && d2[k..] == d1[k..]
    requires d3[..k + 1] == d2[..k + 1] && d3[hi + 1..] == d2[hi + 1..]
    ensures d3[lo..k] == d2[lo..k] && d3[k] == d1[k]
    ensures d2[k + 1..hi + 1] == d1[k + 1..hi + 1]
    ensures d3[lo..hi + 1] == d3[lo..k] + [d3[k]] + d3[k + 1..hi + 1]
    ensures d1[lo..hi + 1] == d1[lo..k] + [d1[k]] + d1[k + 1..hi + 1]
    ensures d3[..lo] == d1[..lo] && d3[hi + 1..] == d1[hi + 1..]
  {
    PrefixAgree(d3, d2, k + 1, lo, k);
    PrefixAgree(d3, d2, k + 1, k, k + 1);
    assert d3[k] == d3[k..k + 1][0] && d2[k] == d2[k..k + 1][0];
    SuffixAgree(d2, d1, k, k, k + 1);
    assert d2[k] == d2[k..k + 1][0] && d1[k] == d1[k..k + 1][0];
    SuffixAgree(d2, d1, k, k + 1, hi + 1);
    PrefixAgree(d3, d2, k + 1, 0, lo);
    SuffixAgree(d2, d1, k, hi + 1, |d1|);
  }

  /** Front/back search over a range inside the first `n` slots does not
      look past them. */
  lemma {:induction false} FrontBackPrefix(s: seq<int>, n: nat, x: int, lo: int, hi: int)
    requires n <= |s| && (lo <= hi ==> 0 <= lo && hi < n)
    ensures FrontBack(s[..n], x, lo, hi) == FrontBack(s, x, lo, hi)
    decreases hi - lo + 1
  {
    if lo <= hi {
      FrontBackPrefix(s, n, x, lo + 1, hi - 1);
    }
  }

  /** One round of the loop of `Array::ToString`: the element, then `, ` or,
      after the last element, `)` and a newline. */
  method AppendItem(text: NtlString.String, v: int, last: bool)
    requires text.Valid()
    modifies text, text.data
    ensures text.Valid() && (text.data == old(text.data) || fresh(text.data))
    ensures text.Contents() == old(text.Contents()) + IntToDecimal(v) + (if last then ")\n" else ", ")
  {
    text.AppendInt(v);
    if last {
      NtlString.CStrOfPlain(")\n");
      text.AppendCString(")\n");
    } else {
      NtlString.CStrOfPlain(", ");
      text.AppendCString(", ");
    }
  }

  /** The body of `Array::ToString` over the first `n` slots of `src`, which
      hold `s`: `Array(`, then each element followed by `, `, or by `)` and a
      newline after the last. */
  method RenderSlots(src: array<int>, n: nat, ghost s: seq<int>) returns (text: NtlString.String)
    requires n <= src.Length && |s| == n && forall k :: 0 <= k < n ==> src[k] == s[k]
    ensures fresh(text) && text.Valid()
    ensures text.Contents() == ArrayText(s)
  {
    NtlString.CStrOfPlain("Array(");
    text := new NtlString.String.FromCString("Array(");
    var i := 0;
    while i < n
      invariant 0 <= i <= n
      invariant fresh(text) && fresh(text.data) && text.Valid()
      invariant text.Contents() == "Array(" + RenderPrefix(s, i)
    {
      AppendRendered(text, "Array(", s, i, src[i], i == n - 1);
      i := i + 1;
    }
    RenderWhole(s);
  }

  /** A whole round of a rendering loop: appending element `i` of `s` and its
      separator to the rendering of the first `i` elements gives the rendering
      of the first `i + 1`. */
  method AppendRendered(text: NtlString.String, ghost head: string, ghost s: seq<int>, ghost i: nat, v: int, last: bool)
    requires i < |s| && v == s[i] && last == (i == |s| - 1)
    requires text.Valid() && text.Contents() == head + RenderPrefix(s, i)
    modifies text, text.data
    ensures text.Valid() && (text.data == old(text.data) || fresh(text.data))
    ensures text.Contents() == head + RenderPrefix(s, i + 1)
  {
    ghost var before := text.Contents();
    AppendItem(text, v, last);
    assert text.Contents() == before + IntToDecimal(s[i]) + (if i == |s| - 1 then ")\n" else ", ");
    RenderStep(head, s, i);
  }

  /** One round of `ToString`'s loop extends the rendered prefix: text that
      ends with the rendering of `i` elements, followed by element `i` and its
      separator, ends with the rendering of `i + 1` elements. */
  lemma RenderStep(head: string, s: seq<int>, i: nat)
    requires i < |s|
    ensures head + RenderPrefix(s, i) + IntToDecimal(s[i]) + (if i == |s| - 1 then ")\n" else ", ")
            == head + RenderPrefix(s, i + 1)
  {
  }

  /** A round of the merge loop that takes the left run's head `a[j]`:
      the output so far, followed by the merge of what is left, is still the
      merge of both runs. */
  lemma MergeStepLeft(a: seq<int>, b: seq<int>, j: nat, k: nat, done: seq<int>)
    requires j < |a| && k <= |b| && (k == |b| || a[j] <= b[k])
    requires done + Merge(a[j..], b[k..]) == Merge(a, b)
    ensures (done + [a[j]]) + Merge(a[j + 1..], b[k..]) == Merge(a, b)
  {
    var x, y := a[j..], b[k..];
    assert x[0] == a[j] && x[1..] == a[j + 1..];
    assert |y| == 0 || y[0] == b[k];
    MergeLeftAfter(done, x, y);
  }

  /** `MergeTakeLeft` behind an output prefix `done`. */
  lemma MergeLeftAfter(done: seq<int>, x: seq<int>, y: seq<int>)
    requires |x| > 0 && (|y| == 0 || x[0] <= y[0])
    ensures (done + [x[0]]) + Merge(x[1..], y) == done + Merge(x, y)
  {
    MergeTakeLeft(x, y);
    assert done + ([x[0]] + Merge(x[1..], y)) == (done + [x[0]]) + Merge(x[1..], y);
  }

  /** A round of the merge loop that takes the right run's head `b[k]`. */
  lemma MergeStepRight(a: seq<int>, b: seq<int>, j: nat, k: nat, done: seq<int>)
    requires j <= |a| && k < |b| && (j == |a| || a[j] > b[k])
    requires done + Merge(a[j..], b[k..]) == Merge(a, b)
    ensures (done + [b[k]]) + Merge(a[j..], b[k + 1..]) == Merge(a, b)
  {
    var x, y := a[j..], b[k..];
    assert y[0] == b[k] && y[1..] == b[k + 1..];
    assert |x| == 0 || x[0] == a[j];
    MergeRightAfter(done, x, y);
  }

  /** `MergeTakeRight` behind an output prefix `done`. */
  lemma MergeRightAfter(done: seq<int>, x: seq<int>, y: seq<int>)
    requires |y| > 0 && (|x| == 0 || x[0] > y[0])
    ensures (done + [y[0]]) + Merge(x, y[1..]) == done + Merge(x, y)
  {
    MergeTakeRight(x, y);
    assert done + ([y[0]] + Merge(x, y[1..])) == (done + [y[0]]) + Merge(x, y[1..]);
  }

  /** The slots `[lo, hi)` of `s` are in ascending order, stated one
      neighbouring pair at a time. */
  ghost predicate SortedSpan(s: seq<int>, lo: nat, hi: nat)
    decreases hi - lo
  {
    lo <= hi <= |s| && (hi - lo <= 1 || (s[lo] <= s[lo + 1] && SortedSpan(s, lo + 1, hi)))
  }

  /** Neighbouring pairs in order is the same as the whole slice sorted. */
  lemma {:induction false} SortedSpanIsSorted(s: seq<int>, lo: nat, hi: nat)
    requires lo <= hi <= |s|
    ensures SortedSpan(s, lo, hi) <==> Sorted(s[lo..hi])
    decreases hi - lo
  {
    if hi - lo > 1 {
      SortedSpanIsSorted(s, lo + 1, hi);
      assert s[lo..hi] == [s[lo]] + s[lo + 1..hi];
      if SortedSpan(s, lo, hi) {
        forall i, j | 0 <= i < j < hi - lo
          ensures s[lo..hi][i] <= s[lo..hi][j]
        {
          if i == 0 {
            assert s[lo..hi][j] == s[lo + 1..hi][j - 1];
            if j > 1 {
              assert s[lo + 1..hi][0] <= s[lo + 1..hi][j - 1];
            }
          } else {
            assert s[lo..hi][i] == s[lo + 1..hi][i - 1] && s[lo..hi][j] == s[lo + 1..hi][j - 1];
          }
        }
      }
      if Sorted(s[lo..hi]) {
        assert s[lo..hi][0] <= s[lo..hi][1];
        var t := s[lo + 1..hi];
        forall i, j | 0 <= i < j < |t|
          ensures t[i] <= t[j]
        {
          assert t[i] == s[lo..hi][i + 1] && t[j] == s[lo..hi][j + 1];
        }
      }
    }
  }

  /** Slot `k` of `[lo, hi]` holds a pivot: everything before it in the range
      is at most the pivot, everything after it is above. */
  ghost predicate PartitionedAt(s: seq<int>, lo: nat, k: nat, hi: nat) {
    lo <= k <= hi < |s|
    && (forall t :: lo <= t < k ==> s[t] <= s[k])
    && (forall t :: k < t <= hi ==> s[t] > s[k])
  }

  /** `b` is a rearrangement of `a` inside `[lo, hi)` and equal to it outside. */
  ghost predicate PermutedIn(a: seq<int>, b: seq<int>, lo: nat, hi: nat) {
    |a| == |b| && lo <= hi <= |a|
    && multiset(a[lo..hi]) == multiset(b[lo..hi])
    && a[..lo] == b[..lo] && a[hi..] == b[hi..]
  }

  /** The state of the partition loop over `[lo, hi]` with pivot `p` at `hi`:
      slots `[lo, m)` hold values at most `p`, slots `[m, j)` values above it. */
  ghost predicate PartitionState(a: seq<int>, lo: nat, m: nat, j: nat, hi: nat, p: int) {
    lo <= m <= j <= hi < |a| && a[hi] == p
    && (forall t :: lo <= t < m ==> a[t] <= p)
    && (forall t :: m <= t < j ==> a[t] > p)
  }

  /** An exchange inside `[lo, hi)` keeps a rearrangement of that range a rearrangement. */
  lemma SwapKeepsPermuted(a: seq<int>, d0: seq<int>, x: nat, y: nat, lo: nat, hi: nat)
    requires PermutedIn(a, d0, lo, hi) && lo <= x < hi && lo <= y < hi
    ensures PermutedIn(Swapped(a, x, y), d0, lo, hi)
  {
    SwapPermutes(a, x, y, lo, hi);
  }

  /** A step of the partition loop that finds `a[j]` at most the pivot `p`:
      swapping it into slot `m`, the first slot not known to be at most `p`,
      grows the low part by one and keeps the high part above `p`. */
  lemma PartitionTake(a: seq<int>, lo: nat, m: nat, j: nat, hi: nat, p: int)
    requires PartitionState(a, lo, m, j, hi, p) && j < hi && a[j] <= p
    ensures PartitionState(Swapped(a, m, j), lo, m + 1, j + 1, hi, p)
  {
  }

  /** A step of the partition loop that finds `a[j]` above the pivot only
      grows the high part. */
  lemma PartitionSkip(a: seq<int>, lo: nat, m: nat, j: nat, hi: nat, p: int)
    requires PartitionState(a, lo, m, j, hi, p) && j < hi && a[j] > p
    ensures PartitionState(a, lo, m, j + 1, hi, p)
  {
  }

  /** The last swap of the partition moves the pivot from `hi` to slot `m`,
      between the low part and the high part. */
  lemma PartitionFinish(a: seq<int>, lo: nat, m: nat, hi: nat, p: int)
    requires PartitionState(a, lo, m, hi, hi, p)
    ensures Swapped(a, m, hi)[m] == p && PartitionedAt(Swapped(a, m, hi), lo, m, hi)
  {
  }

  class Array {
    var data: array<int>
    var used: nat
    var capacity: nat
    var sorted: bool
    const keepSorted: bool
    const growable: bool

    /** The live prefix fits in the buffer. */
    ghost predicate Shape()
      reads this
    {
      used <= data.Length
    }

    /** The live prefix fits, and the sorted flag never lies. */
    ghost predicate Valid()
      reads this, data
    {
      Shape() && (sorted ==> Sorted(data[..used]))
    }

    /** The size stays within the reported capacity, and the reported capacity
        within the buffer: what the library's checks against `m_capacity`
        assume. */
    ghost predicate Sized()
      reads this
    {
      used <= capacity <= data.Length
    }

    /** The live elements. */
    ghost function Contents(): seq<int>
      reads this, data
      requires Shape()
    {
      data[..used]
    }

    /** `Array(capacity, keep_sorted, growable)`: empty, sorted. */
    constructor (c: nat, keep: bool, grow: bool)
      requires c > 0
      ensures Valid() && fresh(data) && data.Length == c
      ensures used == 0 && capacity == c && sorted
      ensures keepSorted == keep && growable == grow
    {
      data := new int[c];
      used := 0;
      capacity := c;
      sorted := true;
      keepSorted := keep;
      growable := grow;
    }

    /** Copy constructor: the same elements in a buffer of the copied array's
        capacity, reporting twice the size as capacity. */
    constructor Copy(other: Array)
      requires other.Valid() && other.used <= other.capacity
      ensures Valid() && fresh(data) && data.Length == other.capacity
      ensures Contents() == other.Contents() && capacity == 2 * other.used
      ensures sorted == other.sorted
      ensures keepSorted == other.keepSorted && growable == other.growable
    {
      var buffer := new int[other.capacity];
      CopyRange(other.data, 0, buffer, 0, other.used);
      data := buffer;
      used := other.used;
      capacity := 2 * other.used;
      sorted := other.sorted;
      keepSorted := other.keepSorted;
      growable := other.growable;
    }

    /** The copy constructor corrected: the reported capacity is the copied array's
        capacity, which is the length of the new buffer. */
    constructor CopySized(other: Array)
      requires other.Valid() && other.used <= other.capacity
      ensures Valid() && Sized() && fresh(data) && data.Length == other.capacity
      ensures Contents() == other.Contents() && capacity == other.capacity
      ensures sorted == other.sorted
      ensures keepSorted == other.keepSorted && growable == other.growable
    {
      var buffer := new int[other.capacity];
      CopyRange(other.data, 0, buffer, 0, other.used);
      data := buffer;
      used := other.used;
      capacity := other.capacity;
      sorted := other.sorted;
      keepSorted := other.keepSorted;
      growable := other.growable;
    }

    /** Copy with an explicit capacity, which must exceed the size. */
    constructor CopyWithCapacity(other: Array, c: nat)
      requires other.Valid() && c > other.used
      ensures Valid() && fresh(data) && data.Length == c
      ensures Contents() == other.Contents() && capacity == c
      ensures sorted == other.sorted
      ensures keepSorted == other.keepSorted && growable == other.growable
    {
      var buffer := new int[c];
      CopyRange(other.data, 0, buffer, 0, other.used);
      data := buffer;
      used := other.used;
      capacity := c;
      sorted := other.sorted;
      keepSorted := other.keepSorted;
      growable := other.growable;
    }

    /** `Resize(c)`: a fresh buffer of exactly `c` slots holding the same elements. */
    method Resize(c: nat)
      requires Shape() && c >= used && c > capacity
      modifies this
      ensures fresh(data) && data.Length == c && capacity == c
      ensures used == old(used) && sorted == old(sorted)
      ensures Contents() == old(Contents())
    {
      capacity := c;
      var temp := new int[c];
      CopyRange(data, 0, temp, 0, used);
      data := temp;
    }

    /** The write of `Insert(x)` once there is room: `x` goes to slot `used`
        and the size grows by one. */
    method PlaceLast(x: int)
      requires Shape() && used < data.Length
      modifies this, data
      ensures Shape() && data == old(data) && used == old(used) + 1
      ensures capacity == old(capacity) && sorted == old(sorted)
      ensures Contents() == old(Contents()) + [x]
    {
      ghost var pre := data[..];
      data[used] := x;
      assert data[..] == pre[used := x];
      WriteAfter(pre, used, x);
      used := used + 1;
    }

    /** The shift and write of `Insert(x, i)` once there is room: the elements
        from slot `i` on move up one slot and `x` takes slot `i`. */
    method PlaceAt(x: int, i: nat)
      requires Shape() && i <= used < data.Length
      modifies this, data
      ensures Shape() && data == old(data) && used == old(used) + 1
      ensures capacity == old(capacity) && sorted == old(sorted)
      ensures Contents() == old(Contents()[..i]) + [x] + old(Contents()[i..])
    {
      ghost var s := data[..used];
      ghost var d0 := data[..];
      ShiftRight(data, i, used);
      ghost var pre := data[..];
      assert pre[..i] == s[..i] by {
        assert pre[..i] == pre[..i + 1][..i] && d0[..i] == d0[..i + 1][..i];
      }
      assert pre[i + 1..used + 1] == s[i..];
      data[i] := x;
      assert data[..] == pre[i := x];
      WriteInGap(pre, s, i, x);
      used := used + 1;
    }

    /** Whether `Insert(x)` doubles the capacity first. */
    ghost predicate GrowsOnAppend()
      reads this
    {
      growable && used >= capacity
    }

    /** `Insert(x)`: `x` goes to slot `used` (after doubling a full growable
        array); then either the array is re-sorted or the flag is cleared.  The
        result is the slot `x` was written to. */
    method Insert(x: int) returns (r: nat)
      requires Valid()
      requires GrowsOnAppend() ==> capacity > 0 && 2 * capacity >= used
      requires used < (if GrowsOnAppend() then 2 * capacity else capacity)
      requires !GrowsOnAppend() ==> used < data.Length
      modifies this, data
      ensures Valid()
      ensures data == old(data) || fresh(data)
      ensures r == old(used) && used == old(used) + 1
      ensures capacity == (if old(GrowsOnAppend()) then 2 * old(capacity) else old(capacity))
      ensures !old(GrowsOnAppend()) ==> data == old(data)
      ensures old(Sized()) ==> Sized()
      ensures keepSorted ==> sorted && Sorted(Contents())
      ensures keepSorted ==> multiset(Contents()) == multiset(old(Contents())) + multiset{x}
      ensures !keepSorted ==> !sorted && Contents() == old(Contents()) + [x]
    {
      ghost var s := Contents();
      ghost var c := if GrowsOnAppend() then 2 * capacity else capacity;
      if growable && used >= capacity {
        Resize(capacity * 2);
      }
      assert capacity == c && (data == old(data) || fresh(data));
      PlaceLast(x);
      if keepSorted {
        InsertionSort();
        assert Valid();
      } else {
        sorted := false;
      }
      r := used - 1;
    }

    /** Whether `Insert(x, i)` doubles the capacity first. */
    ghost predicate GrowsOnInsertAt(i: nat)
      reads this
    {
      i >= capacity && growable
    }

    /** `Insert(x, i)`: the elements from slot `i` on move up one slot and `x`
        takes slot `i`.  The array grows only when `i` reaches the capacity, so
        a full array is shifted into slot `capacity` when the buffer is longer. */
    method InsertAt(x: int, i: nat)
      requires Valid() && i <= used
      requires GrowsOnInsertAt(i) ==> capacity > 0 && 2 * capacity >= used
      requires i < (if GrowsOnInsertAt(i) then 2 * capacity else capacity)
      requires used < (if GrowsOnInsertAt(i) then 2 * capacity else data.Length)
      modifies this, data
      ensures Valid()
      ensures data == old(data) || fresh(data)
      ensures used == old(used) + 1
      ensures capacity == (if old(GrowsOnInsertAt(i)) then 2 * old(capacity) else old(capacity))
      ensures keepSorted ==> sorted && Sorted(Contents())
      ensures keepSorted ==> multiset(Contents()) == multiset(old(Contents())) + multiset{x}
      ensures !keepSorted ==> !sorted && Contents() == old(Contents()[..i]) + [x] + old(Contents()[i..])
    {
      ghost var s := Contents();
      if i >= capacity && growable {
        Resize(capacity * 2);
      }
      PlaceAt(x, i);
      if keepSorted {
        InsertionMultiset(s, i, x);
        InsertionSort();
      } else {
        sorted := false;
      }
    }

    /** `Insert(x, i)` corrected: a full growable array doubles before the
        shift, whatever the index, and a full fixed array is rejected, so the
        shift never writes past the buffer.  The contents are those of
        `InsertAt`. */
    method InsertAtChecked(x: int, i: nat)
      requires Valid() && Sized() && i <= used
      requires growable ==> capacity > 0
      requires !growable ==> used < capacity
      modifies this, data
      ensures Valid() && Sized()
      ensures data == old(data) || fresh(data)
      ensures used == old(used) + 1
      ensures capacity == (if growable && old(used) >= old(capacity) then 2 * old(capacity) else old(capacity))
      ensures keepSorted ==> sorted && Sorted(Contents())
      ensures keepSorted ==> multiset(Contents()) == multiset(old(Contents())) + multiset{x}
      ensures !keepSorted ==> !sorted && Contents() == old(Contents()[..i]) + [x] + old(Contents()[i..])
    {
      ghost var s := Contents();
      if growable && used >= capacity {
        Resize(capacity * 2);
      }
      PlaceAt(x, i);
      if keepSorted {
        InsertionMultiset(s, i, x);
        InsertionSort();
      } else {
        sorted := false;
      }
    }

    /** `insertionSort()` with the inner loop's test in the safe order
        (`j >= 0` first); the library's order is modelled by
        `InsertionProbesAsWritten`.  Leaves the live elements sorted, permuted,
        and sets the flag. */
    method InsertionSort()
      requires Shape()
      modifies this, data
      ensures Shape() && sorted && Sorted(Contents())
      ensures multiset(Contents()) == multiset(old(Contents()))
      ensures data == old(data) && used == old(used) && capacity == old(capacity)
      ensures data[used..] == old(data[used..])
    {
      ghost var s0 := data[..];
      var i := 1;
      while i < used
        modifies data
        invariant used == 0 || (1 <= i <= used && Sorted(data[..i]))
        invariant multiset(data[..used]) == multiset(s0[..used])
        invariant data[used..] == s0[used..]
      {
        ghost var before := data[..];
        InsertionStep(i);
        PrefixPermuted(before, data[..], i + 1, used);
        i := i + 1;
      }
      sorted := true;
    }

    /** One round of insertion sort: the element at slot `i` moves down past
        the larger elements of the sorted prefix `data[..i]`. */
    method InsertionStep(i: nat)
      requires Shape() && 0 < i < used && Sorted(data[..i])
      modifies data
      ensures Sorted(data[..i + 1])
      ensures multiset(data[..i + 1]) == multiset(old(data[..i + 1]))
      ensures data[i + 1..] == old(data[i + 1..])
    {
      ghost var s0 := data[..];
      var temp := data[i];
      var j: int := i - 1;
      assert data[i + 1..] == s0[i + 1..] && data[..i] == s0[..i] && s0[i..i] == [];
      while j >= 0 && data[j] > temp
        invariant ShiftState(data[..], s0, j, i, temp)
      {
        ghost var before := data[..];
        data[j + 1] := data[j];
        assert data[..] == before[j + 1 := before[j]];
        ShiftStep(before, s0, j, i, temp);
        j := j - 1;
      }
      ghost var pre := data[..];
      data[j + 1] := temp;
      assert data[..] == pre[j + 1 := temp];
      InsertionDone(pre, s0, j, i, temp);
    }

    /** `Remove(i)` with its copy loop stopped at the last live slot (the
        library's loop also reads slot `m_used`; see
        `RemoveLoopReadsAsWritten`).  The elements after slot `i` move down one
        slot; the result is the element now at slot `i`, which is the removed
        one only when it was the last. */
    method Remove(index: nat) returns (r: int)
      requires Valid() && index < used
      modifies this, data
      ensures Valid() && data == old(data)
      ensures used == old(used) - 1 && capacity == old(capacity) && sorted == old(sorted)
      ensures Contents() == old(Contents()[..index]) + old(Contents()[index + 1..])
      ensures r == (if index + 1 < old(used) then old(Contents()[index + 1]) else old(Contents()[index]))
    {
      ghost var s := Contents();
      ghost var d0 := data[..];
      ShiftLeft(data, index, used - 1);
      assert data[..index] == s[..index] by {
        assert d0[..index] == s[..index];
      }
      assert data[index..used - 1] == s[index + 1..];
      assert data[..used - 1] == s[..index] + s[index + 1..] by {
        assert data[..used - 1] == data[..index] + data[index..used - 1];
      }
      used := used - 1;
      if sorted {
        SortedRemove(s, index);
      }
      r := data[index];
      assert index + 1 == old(used) ==> data[index] == d0[index] by {
        assert data[used..] == d0[used..];
      }
    }

    /** `RemoveElement(x)`: removes the slot `Find(x)` answers, or nothing
        when it answers -1; the result is that answer. */
    method RemoveElement(x: int) returns (r: int)
      requires Valid()
      modifies this, data
      ensures Valid() && data == old(data)
      ensures r == FindIn(old(Contents()), old(sorted), x)
      ensures capacity == old(capacity) && sorted == old(sorted)
      ensures r == -1 ==> used == old(used) && Contents() == old(Contents())
      ensures r >= 0 ==> used == old(used) - 1 && Contents() == old(Contents()[..r]) + old(Contents()[r + 1..])
    {
      r := Find(x);
      if r < 0 {
        return -1;
      }
      var _ := Remove(r);
    }

    /** `Swap(a, b)`: exchanges two live slots and clears the sorted flag. */
    method Swap(a: nat, b: nat)
      requires Shape() && a < used && b < used
      modifies this, data
      ensures data == old(data) && used == old(used) && capacity == old(capacity) && !sorted
      ensures data[..] == Swapped(old(data[..]), a, b)
      ensures multiset(Contents()) == multiset(old(Contents()))
    {
      ghost var d0 := data[..];
      var temp := data[a];
      data[a] := data[b];
      data[b] := temp;
      sorted := false;
      assert data[..] == Swapped(d0, a, b);
      SwapPermutes(d0, a, b, 0, used);
    }

    /** `Clear()`: a fresh buffer of the same capacity, no elements, sorted. */
    method Clear()
      modifies this
      ensures fresh(data) && data.Length == capacity && capacity == old(capacity)
      ensures used == 0 && sorted && Valid()
    {
      data := new int[capacity];
      sorted := true;
      used := 0;
    }

    /** `Clear(c)`: a fresh buffer of `c` slots, which becomes the capacity. */
    method ClearWithCapacity(c: nat)
      modifies this
      ensures fresh(data) && data.Length == c && capacity == c
      ensures used == 0 && sorted && Valid()
    {
      capacity := c;
      data := new int[capacity];
      sorted := true;
      used := 0;
    }

    /** `Find(x)`: -1 on an empty array, otherwise binary search when the
        sorted flag is set and front/back search when it is not. */
    method Find(x: int) returns (r: int)
      requires Shape()
      ensures r == FindIn(Contents(), sorted, x)
    {
      if used == 0 {
        return -1;
      }
      if sorted {
        r := BinarySearchAsWritten(data[..used], x, 0, used - 1);
      } else {
        r := FrontBackSearch(x, 0, used - 1);
        FrontBackPrefix(data[..], used, x, 0, used - 1);
      }
    }

    /** `Find(x, from, to, algorithm)`: the requested search over the given
        range of the buffer; binary search demands the sorted flag.  On an
        empty array the answer is -1 whatever the range. */
    method FindInRange(x: int, lo: int, hi: int, algorithm: Search) returns (r: int)
      requires Shape()
      requires used > 0 && algorithm == BinarySearch ==> sorted && (lo < hi ==> 0 <= lo && hi < data.Length)
      requires used > 0 && algorithm == Search.FrontBackSearch ==> (lo <= hi ==> 0 <= lo && hi < data.Length)
      ensures used == 0 ==> r == -1
      ensures used > 0 && algorithm == BinarySearch ==> r == BinarySearchAsWritten(data[..], x, lo, hi)
      ensures used > 0 && algorithm == Search.FrontBackSearch ==> r == FrontBack(data[..], x, lo, hi)
    {
      if used == 0 {
        return -1;
      }
      match algorithm
      case BinarySearch =>
        r := BinarySearchAsWritten(data[..], x, lo, hi);
      case FrontBackSearch =>
        r := FrontBackSearch(x, lo, hi);
    }

    /** `frontBackSearch(x, from, to)`: tests the front slot, then the back
        slot, then moves both ends inwards. */
    method FrontBackSearch(x: int, lo: int, hi: int) returns (r: int)
      requires lo <= hi ==> 0 <= lo && hi < data.Length
      ensures r == FrontBack(data[..], x, lo, hi)
    {
      var front, back := lo, hi;
      while front <= back
        invariant lo <= front && back <= hi
        invariant front <= back ==> 0 <= front && back < data.Length
        invariant FrontBack(data[..], x, front, back) == FrontBack(data[..], x, lo, hi)
        decreases back - front + 1
      {
        if data[front] == x {
          return front;
        }
        if data[back] == x {
          return back;
        }
        front := front + 1;
        back := back - 1;
      }
      return -1;
    }

    /** `Get(i)`: a live element. */
    method Get(i: nat) returns (v: int)
      requires Shape() && i < used
      ensures v == Contents()[i]
    {
      v := data[i];
    }

    /** `GetFirst()`: slot 0 of the buffer, live or not. */
    method GetFirst() returns (v: int)
      requires Shape() && data.Length > 0
      ensures v == data[0]
      ensures used > 0 ==> v == Contents()[0]
    {
      v := data[0];
    }

    /** `GetLast()`: the last live element. */
    method GetLast() returns (v: int)
      requires Shape() && used > 0
      ensures v == Contents()[|Contents()| - 1]
    {
      v := data[used - 1];
    }

    /** `GetNeighbors(x, left, right)`, with the two out-parameters as slot numbers:
        nothing when `Find(x)` fails; otherwise the slot before the found one
        (if any) on the left and, on the right, the found slot itself. */
    method GetNeighbors(x: int) returns (left: Option<nat>, right: Option<nat>)
      requires Shape()
      ensures FindIn(Contents(), sorted, x) == -1 ==> left == None && right == None
      ensures FindIn(Contents(), sorted, x) == 0 ==> left == None
      ensures FindIn(Contents(), sorted, x) > 0 ==> left == Some(FindIn(Contents(), sorted, x) - 1)
      ensures FindIn(Contents(), sorted, x) >= 0 ==> right == Some(FindIn(Contents(), sorted, x))
    {
      var idx := Find(x);
      left, right := None, None;
      if idx == -1 {
        return;
      }
      if idx > 0 {
        left := Some(idx - 1);
      }
      if idx < used {
        right := Some(idx);
      }
    }

    /** `GetSubArray(from, to)`: a new array holding the slots `[from, to)`,
        with capacity `to - from`; the sorted flag is copied and also becomes
        the new array's keep-sorted policy. */
    method GetSubArray(lo: nat, hi: nat) returns (result: Array)
      requires Valid() && lo < hi && lo < used && hi < used
      ensures fresh(result) && fresh(result.data) && result.Valid()
      ensures result.Contents() == Contents()[lo..hi]
      ensures result.used == hi - lo && result.capacity == hi - lo
      ensures result.sorted == sorted && result.keepSorted == sorted && result.growable == growable
    {
      ghost var s := Contents();
      result := new Array(hi - lo, sorted, growable);
      result.sorted := sorted;
      CopyRange(data, lo, result.data, 0, hi - lo);
      result.used := hi - lo;
      assert result.Contents() == s[lo..hi];
      if sorted {
        SortedSlice(s, lo, hi);
      }
    }

    /** `IsEqual(other)`: the same number of elements, equal slot by slot. */
    method IsEqual(other: Array) returns (b: bool)
      requires Shape() && other.Shape()
      ensures b <==> Contents() == other.Contents()
    {
      if used != other.used {
        return false;
      }
      b := true;
      var i := 0;
      while i < used
        invariant 0 <= i <= used
        invariant data[..i] == other.data[..i]
      {
        if data[i] != other.data[i] {
          b := false;
          break;
        }
        i := i + 1;
      }
      if b {
        assert Contents() == data[..i];
      } else {
        assert Contents()[i] != other.Contents()[i];
      }
    }

    /** `ToString()`: `Array(`, then each element followed by `, `, or by `)`
        and a newline after the last one. */
    method ToString() returns (text: NtlString.String)
      requires Shape()
      ensures fresh(text) && text.Valid()
      ensures text.Contents() == ArrayText(Contents())
    {
      text := RenderSlots(data, used, Contents());
    }

    /** `partition(from, to)` (Lomuto): the last slot's value is the pivot;
        every element at most the pivot is swapped to the front, then the
        pivot is swapped in after them.  The result is the pivot's final slot. */
    method Partition(lo: nat, hi: nat) returns (k: nat)
      requires Shape() && lo < hi < used
      modifies this, data
      ensures data == old(data) && used == old(used) && capacity == old(capacity) && !sorted
      ensures lo <= k <= hi && data[k] == old(data[hi])
      ensures PartitionedAt(data[..], lo, k, hi)
      ensures PermutedIn(data[..], old(data[..]), lo, hi + 1)
    {
      ghost var d0 := data[..];
      var pivot := data[hi];
      // `m` is the library's `i + 1`: the first slot of the high part
      var m := lo;
      var j := lo;
      while j < hi
        invariant Shape() && data == old(data) && used == old(used) && capacity == old(capacity)
        invariant PartitionState(data[..], lo, m, j, hi, pivot)
        invariant PermutedIn(data[..], d0, lo, hi + 1)
      {
        ghost var before := data[..];
        if data[j] <= pivot {
          Swap(m, j);
          SwapKeepsPermuted(before, d0, m, j, lo, hi + 1);
          PartitionTake(before, lo, m, j, hi, pivot);
          m := m + 1;
        } else {
          PartitionSkip(before, lo, m, j, hi, pivot);
        }
        j := j + 1;
      }
      ghost var before := data[..];
      Swap(m, hi);
      SwapKeepsPermuted(before, d0, m, hi, lo, hi + 1);
      PartitionFinish(before, lo, m, hi, pivot);
      k := m;
    }

    /** `quickSort(from, to)`: nothing on an empty array; a range of at most
        one element only sets the flag; otherwise partition and sort both
        sides.  Sorts and permutes `[lo, hi]` and leaves every other slot. */
    method QuickSortRange(lo: nat, hi: int)
      requires Shape() && lo <= hi + 1 <= used
      modifies this, data
      ensures data == old(data) && used == old(used) && capacity == old(capacity)
      ensures sorted == (if used == 0 then old(sorted) else true)
      ensures SortedSpan(data[..], lo, hi + 1) && PermutedIn(data[..], old(data[..]), lo, hi + 1)
      decreases hi - lo + 1
    {
      if used == 0 {
        return;
      }
      if lo >= hi {
        sorted := true;
        return;
      }
      ghost var d0 := data[..];
      var k := Partition(lo, hi);
      ghost var d1 := data[..];
      QuickSortRange(lo, k as int - 1);
      ghost var d2 := data[..];
      QuickSortRange(k + 1, hi);
      QuickSortCombine(d0, d1, d2, data[..], lo, k, hi);
    }
  
    /** `mergeSort(array, capacity, used)`: a fresh buffer holding the first
        `n` values from slot `offset` of `src` in ascending order.  One value or
        none gives a one-slot buffer (copying slot `offset` either way);
        otherwise both halves are sorted recursively and merged, taking from
        the left run while its head is at most the right run's, into a buffer
        of `cap` slots. */
    static method MergeSortBuffer(src: array<int>, offset: nat, cap: nat, n: nat, ghost s: seq<int>)
      returns (result: array<int>)
      requires offset < src.Length && offset + n <= src.Length
      requires |s| == n && forall k :: 0 <= k < n ==> src[offset + k] == s[k]
      requires n > 1 ==> n <= cap
      ensures fresh(result)
      ensures result.Length == (if n <= 1 then 1 else cap)
      ensures result[..n] == MergeSortSeq(s)
      decreases n
    {
      if n <= 1 {
        result := new int[1];
        result[0] := src[offset];
        assert n == 1 ==> result[..n] == [s[0]] == s;
        return;
      }
      var size1 := n / 2;
      var size2 := n - size1;
      ghost var a, b := s[..size1], s[size1..];
      MergeSortHalves(s, a, b);
      var run1 := MergeSortBuffer(src, offset, size1, size1, a);
      var run2 := MergeSortBuffer(src, offset + size1, size2, size2, b);
      result := MergeRuns(run1, size1, run2, size2, cap);
    }

    /** The merge loop of `mergeSort`: walks both sorted runs, taking from
        the left one while its head is at most the right one's head, into a
        fresh buffer of `cap` slots. */
    static method MergeRuns(run1: array<int>, size1: nat, run2: array<int>, size2: nat, cap: nat)
      returns (result: array<int>)
      requires size1 <= run1.Length && size2 <= run2.Length && size1 + size2 <= cap
      ensures fresh(result) && result.Length == cap
      ensures result[..size1 + size2] == Merge(run1[..size1], run2[..size2])
    {
      ghost var left := run1[..size1];
      ghost var right := run2[..size2];
      result := new int[cap];
      var i, j, k := 0, 0, 0;
      while i < size1 + size2
        modifies result
        invariant j <= size1 && k <= size2 && i == j + k
        invariant result[..i] + Merge(left[j..], right[k..]) == Merge(left, right)
      {
        ghost var done := result[..i];
        if j < size1 && (k == size2 || run1[j] <= run2[k]) {
          MergeStepLeft(left, right, j, k, done);
          result[i] := run1[j];
          j := j + 1;
        } else {
          MergeStepRight(left, right, j, k, done);
          result[i] := run2[k];
          k := k + 1;
        }
        assert result[..i + 1] == done + [result[i]];
        i := i + 1;
      }
    }

    /** `mergeSort()`: replaces the buffer by a sorted copy of the contents and
        sets the flag.  The reported capacity is kept, but with at most one
        element the new buffer has a single slot. */
    method MergeSort()
      requires Shape() && data.Length >= 1
      requires used > 1 ==> used <= capacity
      modifies this
      ensures fresh(data) && data.Length == (if old(used) <= 1 then 1 else old(capacity))
      ensures used == old(used) && capacity == old(capacity) && sorted
      ensures Valid() && Contents() == MergeSortSeq(old(Contents()))
    {
      ghost var s := Contents();
      var temp := MergeSortBuffer(data, 0, capacity, used, s);
      data := temp;
      sorted := true;
      MergeSortCorrect(s);
    }

    /** `mergeSort()` corrected: at most one element is already sorted and keeps
        its buffer; otherwise the sorted buffer has `capacity` slots.  Either
        way the buffer stays as long as the reported capacity. */
    method MergeSortSized()
      requires Shape() && data.Length >= 1
      requires used > 1 ==> used <= capacity
      modifies this
      ensures used <= 1 ==> data == old(data)
      ensures used > 1 ==> fresh(data) && data.Length == capacity
      ensures used == old(used) && capacity == old(capacity) && sorted
      ensures Valid() && Contents() == MergeSortSeq(old(Contents()))
      ensures old(Sized()) ==> Sized()
    {
      if used <= 1 {
        sorted := true;
      } else {
        MergeSort();
      }
    }

    /** Whether `Sort(algorithm)` ends up in `mergeSort()`. */
    ghost predicate UsesMergeSort(algorithm: SortSpec.Sort)
      reads this
    {
      algorithm.MergeSort? || (algorithm.Dynamic? && used > DYNAMIC_MERGE_THRESHOLD)
    }

    /** `dynamicSort()`: merge sort above 64 elements, insertion sort otherwise. */
    method DynamicSort()
      requires Shape() && (used > DYNAMIC_MERGE_THRESHOLD ==> used <= capacity)
      modifies this, data
      ensures Valid() && sorted && used == old(used) && capacity == old(capacity)
      ensures used > DYNAMIC_MERGE_THRESHOLD ==> fresh(data)
      ensures used <= DYNAMIC_MERGE_THRESHOLD ==> data == old(data) && data[used..] == old(data[used..])
      ensures Contents() == MergeSortSeq(old(Contents()))
    {
      if used > DYNAMIC_MERGE_THRESHOLD {
        MergeSort();
      } else {
        InsertionSort();
        SortedIsMergeSort(old(Contents()), Contents());
      }
    }

    /** The quicksort branch of `Sort`, `quickSort(0, used - 1)`: the whole
        contents in ascending order. */
    method QuickSortAll()
      requires Shape()
      modifies this, data
      ensures Shape() && data == old(data) && used == old(used) && capacity == old(capacity)
      ensures sorted == (if used == 0 then old(sorted) else true)
      ensures Contents() == MergeSortSeq(old(Contents()))
    {
      ghost var s0, d0 := Contents(), data[..];
      QuickSortRange(0, used as int - 1);
      SortedSpanIsSorted(data[..], 0, used);
      assert Contents() == data[..][0..used] && s0 == d0[0..used];
      SortedIsMergeSort(s0, Contents());
    }

    /** `Sort(algorithm)`: every algorithm leaves the same contents, the
        ascending rearrangement of the old ones; the flag ends up set except
        when quicksort finds an empty array. */
    method Sort(algorithm: SortSpec.Sort)
      requires Shape()
      requires UsesMergeSort(algorithm) ==> data.Length >= 1 && (used > 1 ==> used <= capacity)
      modifies this, data
      ensures Valid() && used == old(used) && capacity == old(capacity)
      ensures sorted == (if algorithm.QuickSort? && used == 0 then old(sorted) else true)
      ensures Sorted(Contents()) && multiset(Contents()) == multiset(old(Contents()))
      ensures Contents() == MergeSortSeq(old(Contents()))
      ensures !UsesMergeSort(algorithm) ==> data == old(data)
    {
      ghost var s0 := Contents();
      match algorithm {
        case Dynamic =>
          DynamicSort();
        case InsertionSort =>
          InsertionSort();
          SortedIsMergeSort(s0, Contents());
        case QuickSort =>
          QuickSortAll();
        case MergeSort =>
          MergeSort();
      }
      MergeSortCorrect(s0);
    }
  }

  /** `Array<int> a(2)` with two elements: `Insert(x, 0)` passes both checks
      without growing, and its first write would be slot 2 of a 2-slot buffer. */
  method InsertAtOverflowExample() returns (a: Array)
    ensures a.Valid() && a.Sized() && a.growable
    ensures a.used == 2 && a.capacity == 2 && a.data.Length == 2
    ensures !a.GrowsOnInsertAt(0) && 0 < a.capacity
    ensures InsertAtWritesAsWritten(0, a.used)[0] == a.data.Length
  {
    a := new Array(2, false, true);
    var first := a.Insert(1);
    var second := a.Insert(2);
    InsertAtWritesPastTheBuffer(0, a.used, a.capacity, a.data.Length, a.growable);
  }

  /** The copy of a full one-element array reports capacity 2 over a 1-slot
      buffer: `Insert(x)` then passes `m_used < m_capacity` without growing and
      writes slot 1, past the buffer.  The corrected copy reports 1, so the
      same `Insert` grows first. */
  method CopyThenInsertOverflows() returns (b: Array, c: Array)
    ensures b.Valid() && b.used == 1 && b.capacity == 2 && b.data.Length == 1
    ensures !b.GrowsOnAppend() && b.used < b.capacity && b.used == b.data.Length
    ensures c.Valid() && c.Sized() && c.used == 1 && c.capacity == 1 && c.GrowsOnAppend()
  {
    var a := new Array(1, false, true);
    var r := a.Insert(7);
    b := new Array.Copy(a);
    c := new Array.CopySized(a);
  }

  /** Merge sort of a one-element array of capacity 4 leaves a 1-slot buffer:
      `Insert(x)` then passes `m_used < m_capacity` without growing and writes
      slot 1, past the buffer.  The corrected sort keeps the 4-slot buffer. */
  method SmallMergeSortThenInsertOverflows() returns (a: Array, b: Array)
    ensures a.Valid() && a.used == 1 && a.capacity == 4 && a.data.Length == 1
    ensures !a.GrowsOnAppend() && a.used < a.capacity && a.used == a.data.Length
    ensures b.Valid() && b.Sized() && b.used == 1 && b.capacity == 4 && b.data.Length == 4
  {
    a := new Array(4, false, true);
    var r := a.Insert(3);
    a.MergeSort();
    b := new Array(4, false, true);
    var s := b.Insert(3);
    b.MergeSortSized();
  }
}
