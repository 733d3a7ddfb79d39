/**
 * The element-moving loops that the containers share: block copies between
 * buffers (the library's `for` copy loops and `std::copy_n`) and the one-slot
 * shifts used when an element is removed or inserted in the middle.
 */
module Buffers {

  /** Copies `n` elements from `src[from..]` to `dst[at..]`; when both are the
      same buffer, the source range lies before the target range or is the
      target range itself. */
  method CopyRange<T>(src: array<T>, from: nat, dst: array<T>, at: nat, n: nat)
    requires from + n <= src.Length && at + n <= dst.Length
    requires src == dst ==> from + n <= at || from == at
    modifies dst
    ensures dst[..at] == old(dst[..at])
    ensures dst[at..at + n] == old(src[from..from + n])
    ensures dst[at + n..] == old(dst[at + n..])
  {
    ghost var s0, d0 := src[..], dst[..];
    for k := 0 to n
      invariant dst[..at] == d0[..at]
      invariant dst[at..at + k] == s0[from..from + k]
      invariant dst[at + k..] == d0[at + k..]
      invariant src != dst ==> src[..] == s0
    {
      dst[at + k] := src[from + k];
    }
  }

  /** Writes the elements of `s` to `dst[at..]`. */
  method WriteSeq<T>(s: seq<T>, dst: array<T>, at: nat)
    requires at + |s| <= dst.Length
    modifies dst
    ensures dst[..at] == old(dst[..at])
    ensures dst[at..at + |s|] == s
    ensures dst[at + |s|..] == old(dst[at + |s|..])
  {
    ghost var d0 := dst[..];
    for k := 0 to |s|
      invariant dst[..at] == d0[..at]
      invariant dst[at..at + k] == s[..k]
      invariant dst[at + k..] == d0[at + k..]
    {
      dst[at + k] := s[k];
    }
  }

  /** After `n` slots from `at` of `d0` are overwritten by `r` (giving `d1`),
      the first `len` slots read as the old prefix, `r`, and the old rest. */
  lemma Overwritten<T>(d0: seq<T>, d1: seq<T>, at: nat, n: nat, r: seq<T>, len: nat)
    requires at + n <= len <= |d0| == |d1| && |r| == n
    requires d1[..at] == d0[..at] && d1[at..at + n] == r && d1[at + n..] == d0[at + n..]
    ensures d1[..len] == d0[..at] + r + d0[at + n..len]
  {
    forall t | 0 <= t < len
      ensures d1[t] == (d0[..at] + r + d0[at + n..len])[t]
    {
      if t < at {
        assert d1[t] == d1[..at][t];
      } else if t < at + n {
        assert d1[t] == d1[at..at + n][t - at];
      } else {
        assert d1[t] == d1[at + n..][t - at - n];
      }
    }
  }

  /** The first `k` elements of a slice starting at `lo`. */
  lemma SlicePrefix<T>(s: seq<T>, lo: nat, hi: nat, k: nat)
    requires lo + k <= hi <= |s|
    ensures s[lo..hi][..k] == s[lo..lo + k]
  {
  }

  /** Cutting the slice `[lo, hi)` at `mid` gives the slices `[lo, mid)` and `[mid, hi)`. */
  lemma SliceSplit<T>(s: seq<T>, lo: nat, mid: nat, hi: nat)
    requires lo <= mid <= hi <= |s|
    ensures s[lo..hi][..mid - lo] == s[lo..mid] && s[lo..hi][mid - lo..] == s[mid..hi]
  {
  }

  /** A buffer holding `a`, then `r`, then `b` starts with `a + r + b[..k]`. */
  lemma Pieces<T>(t: seq<T>, a: seq<T>, r: seq<T>, b: seq<T>, k: nat)
    requires k <= |b| && |a| + |r| + |b| <= |t|
    requires t[..|a|] == a && t[|a|..|a| + |r|] == r && t[|a| + |r|..|a| + |r| + |b|] == b
    ensures t[..|a| + |r| + k] == a + r + b[..k]
  {
    var i, j := |a|, |a| + |r|;
    forall x | 0 <= x < j + k
      ensures t[x] == (a + r + b[..k])[x]
    {
      if x < i {
        assert t[x] == t[..i][x];
      } else if x < j {
        assert t[x] == t[i..j][x - i];
      } else {
        assert t[x] == t[j..j + |b|][x - j];
      }
    }
  }

  /** A buffer `d` that starts with `start` and then `r`, once the slot right
      after them is overwritten with `z`, still starts with `start + r`. */
  lemma Terminated<T>(d: seq<T>, start: seq<T>, r: seq<T>, z: T)
    requires |start| + |r| < |d| && d[..|start|] == start && d[|start|..|start| + |r|] == r
    ensures d[|start| + |r| := z][..|start| + |r|] == start + r
  {
    var n := |start| + |r|;
    forall t | 0 <= t < n
      ensures d[n := z][..n][t] == (start + r)[t]
    {
      if t < |start| {
        assert d[t] == d[..|start|][t];
      } else {
        assert d[t] == d[|start|..n][t - |start|];
      }
    }
  }

  /** Moves `a[from + 1..to + 1]` one slot left, to `a[from..to]`, walking
      upwards (`a[i] = a[i + 1]` for `i` from `from` to `to - 1`). */
  method ShiftLeft<T>(a: array<T>, from: nat, to: nat)
    requires from <= to < a.Length
    modifies a
    ensures a[..from] == old(a[..from])
    ensures a[from..to] == old(a[from + 1..to + 1])
    ensures a[to..] == old(a[to..])
  {
    ghost var d := a[..];
    var i := from;
    while i < to
      invariant from <= i <= to
      invariant a[..from] == d[..from]
      invariant a[from..i] == d[from + 1..i + 1]
      invariant a[i..] == d[i..]
    {
      assert a[i + 1..] == d[i + 1..] && a[i + 1] == d[i + 1];
      a[i] := a[i + 1];
      assert a[from..i + 1] == a[from..i] + [d[i + 1]];
      i := i + 1;
    }
  }

  /** Moves `a[from..to]` one slot right, to `a[from + 1..to + 1]`, walking
      downwards (`a[i] = a[i - 1]` for `i` from `to` down to `from + 1`). */
  method ShiftRight<T>(a: array<T>, from: nat, to: nat)
    requires from <= to < a.Length
    modifies a
    ensures a[..from + 1] == old(a[..from + 1])
    ensures a[from + 1..to + 1] == old(a[from..to])
    ensures a[to + 1..] == old(a[to + 1..])
  {
    ghost var d := a[..];
    var i := to;
    while i > from
      invariant from <= i <= to
      invariant a[..i + 1] == d[..i + 1]
      invariant a[i + 1..to + 1] == d[i..to]
      invariant a[to + 1..] == d[to + 1..]
    {
      assert a[i - 1] == d[i - 1];
      a[i] := a[i - 1];
      assert a[i..to + 1] == [d[i - 1]] + a[i + 1..to + 1];
      i := i - 1;
    }
  }

  /** Two sequences that agree from `k` on agree on every range past `k`. */
  lemma SuffixAgree<T>(a: seq<T>, b: seq<T>, k: nat, lo: nat, hi: nat)
    requires k <= lo <= hi <= |a| == |b| && a[k..] == b[k..]
    ensures a[lo..hi] == b[lo..hi]
  {
    forall t | 0 <= t < hi - lo ensures a[lo..hi][t] == b[lo..hi][t] {
      assert a[lo + t] == a[k..][lo + t - k];
      assert b[lo + t] == b[k..][lo + t - k];
    }
  }

  /** Two sequences that agree below `n` agree on every range below `n`. */
  lemma PrefixAgree<T>(a: seq<T>, b: seq<T>, n: nat, lo: nat, hi: nat)
    requires lo <= hi <= n <= |a| && n <= |b| && a[..n] == b[..n]
    ensures a[lo..hi] == b[lo..hi]
  {
    forall t | 0 <= t < hi - lo ensures a[lo..hi][t] == b[lo..hi][t] {
      assert a[lo + t] == a[..n][lo + t];
      assert b[lo + t] == b[..n][lo + t];
    }
  }
}
