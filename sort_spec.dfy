/**
 * The sort and search strategies of the library (`ntl::algorithms::Sort` and
 * `ntl::algorithms::Search`) and the mathematical facts their implementations
 * in `Array` rest on: sortedness, permutations, the merge of merge sort, the
 * binary search exactly as the library writes it, and front/back search.
 */
module SortSpec {

  /** `algorithms::Sort`. */
  datatype Sort = Dynamic | InsertionSort | QuickSort | MergeSort

  /** `algorithms::Search`. */
  datatype Search = BinarySearch | FrontBackSearch

  /** Array size above which the dynamic strategy picks merge sort. */
  const DYNAMIC_MERGE_THRESHOLD: nat := 64

  predicate Sorted(s: seq<int>) {
    forall i, j :: 0 <= i < j < |s| ==> s[i] <= s[j]
  }

  // ---------------------------------------------------------------------
  // Sortedness and permutations
  // ---------------------------------------------------------------------

  /** Two sorted arrangements of the same elements are identical, so every
      correct sorting strategy produces the same array. */
  lemma {:induction false} SortedPermutationUnique(a: seq<int>, b: seq<int>)
    requires Sorted(a) && Sorted(b) && multiset(a) == multiset(b)
    ensures a == b
    decreases |a|
  {
    assert |a| == |multiset(a)| == |multiset(b)| == |b|;
    if |a| > 0 {
      SameHead(a, b);
      DropHead(a);
      DropHead(b);
      SortedPermutationUnique(a[1..], b[1..]);
      assert a == [a[0]] + a[1..] && b == [b[0]] + b[1..];
    }
  }

  /** Two non-empty sorted arrangements of the same elements start alike. */
  lemma SameHead(a: seq<int>, b: seq<int>)
    requires Sorted(a) && Sorted(b) && multiset(a) == multiset(b) && |a| > 0
    ensures |b| > 0 && a[0] == b[0]
  {
    assert a[0] in multiset(a);
    SortedHeadIsLeast(b, a[0]);
    assert b[0] in multiset(b);
    SortedHeadIsLeast(a, b[0]);
  }

  /** Dropping the head removes one occurrence of it and keeps the order. */
  lemma DropHead(s: seq<int>)
    requires |s| > 0
    ensures multiset(s[1..]) == multiset(s) - multiset{s[0]}
    ensures Sorted(s) ==> Sorted(s[1..])
  {
    assert s == [s[0]] + s[1..];
  }

  /** The head of a sorted sequence is its least element. */
  lemma SortedHeadIsLeast(s: seq<int>, x: int)
    requires Sorted(s) && x in multiset(s)
    ensures |s| > 0 && s[0] <= x
  {
    assert x in s;
    var i :| 0 <= i < |s| && s[i] == x;
  }

  /** A slice of a sorted sequence is sorted. */
  lemma SortedSlice(s: seq<int>, from: nat, to: nat)
    requires Sorted(s) && from <= to <= |s|
    ensures Sorted(s[from..to])
  {
  }

  /** Deleting one element keeps a sequence sorted. */
  lemma SortedRemove(s: seq<int>, k: nat)
    requires Sorted(s) && k < |s|
    ensures Sorted(s[..k] + s[k + 1..])
  {
    var r := s[..k] + s[k + 1..];
    forall i, j | 0 <= i < j < |r| ensures r[i] <= r[j] {
      var i' := if i < k then i else i + 1;
      var j' := if j < k then j else j + 1;
      assert r[i] == s[i'] && r[j] == s[j'];
    }
  }

  /** Every element of `t` is at most `p`. */
  predicate AllAtMost(t: seq<int>, p: int) {
    forall i :: 0 <= i < |t| ==> t[i] <= p
  }

  /** Every element of `t` exceeds `p`. */
  predicate AllAbove(t: seq<int>, p: int) {
    forall i :: 0 <= i < |t| ==> t[i] > p
  }

  /** Bounds on the elements survive a permutation. */
  lemma BoundsOfPermutation(a: seq<int>, b: seq<int>, p: int)
    requires multiset(a) == multiset(b)
    ensures AllAtMost(a, p) ==> AllAtMost(b, p)
    ensures AllAbove(a, p) ==> AllAbove(b, p)
  {
    forall i | 0 <= i < |b| ensures b[i] in multiset(a) {
      assert b[i] in multiset(b);
    }
  }

  /** The quicksort combination step: a sorted part at most the pivot, the
      pivot, then a sorted part above it, is sorted. */
  lemma SortedAroundPivot(left: seq<int>, p: int, right: seq<int>)
    requires Sorted(left) && Sorted(right)
    requires AllAtMost(left, p) && AllAbove(right, p)
    ensures Sorted(left + [p] + right)
  {
    var s := left + [p] + right;
    forall i, j | 0 <= i < j < |s| ensures s[i] <= s[j] {
      if j < |left| {
      } else if j == |left| {
        assert s[i] == left[i];
      } else if i > |left| {
        assert s[i] == right[i - |left| - 1] && s[j] == right[j - |left| - 1];
      } else if i == |left| {
        assert s[j] == right[j - |left| - 1];
      } else {
        assert s[i] == left[i] && s[j] == right[j - |left| - 1];
      }
    }
  }

  /** The insertion step of insertion sort: `v` placed after the elements of
      a sorted sequence that are at most `v` and before those above it. */
  lemma SortedInsertion(s: seq<int>, pos: nat, v: int)
    requires Sorted(s) && pos <= |s|
    requires pos > 0 ==> s[pos - 1] <= v
    requires AllAbove(s[pos..], v)
    ensures Sorted(s[..pos] + [v] + s[pos..])
  {
    var r := s[..pos] + [v] + s[pos..];
    forall i, j | 0 <= i < j < |r| ensures r[i] <= r[j] {
      if j < pos {
        assert r[i] == s[i] && r[j] == s[j];
      } else if j == pos {
        assert r[i] == s[i] && s[i] <= s[pos - 1];
      } else if i == pos {
        assert r[j] == s[pos..][j - pos - 1];
      } else if i < pos {
        assert r[i] == s[i] && r[j] == s[j - 1] && s[i] <= s[pos - 1];
        assert s[j - 1] == s[pos..][j - 1 - pos];
      } else {
        assert r[i] == s[i - 1] && r[j] == s[j - 1];
      }
    }
  }

  // ---------------------------------------------------------------------
  // Merge sort
  // ---------------------------------------------------------------------

  /** The merge loop of `mergeSort`: the left run's element is taken while it
      is `<=` the right run's, so the left run wins ties. */
  function Merge(a: seq<int>, b: seq<int>): seq<int>
    decreases |a| + |b|
  {
    if |a| == 0 then b
    else if |b| == 0 then a
    else if a[0] <= b[0] then [a[0]] + Merge(a[1..], b)
    else [b[0]] + Merge(a, b[1..])
  }

  /** One step of the merge loop when it takes from the left run. */
  lemma MergeTakeLeft(a: seq<int>, b: seq<int>)
    requires |a| > 0 && (|b| == 0 || a[0] <= b[0])
    ensures Merge(a, b) == [a[0]] + Merge(a[1..], b)
  {
    if |b| == 0 {
      assert Merge(a, b) == a;
      assert Merge(a[1..], b) == a[1..];
      assert a == [a[0]] + a[1..];
    }
  }

  /** One step of the merge loop when it takes from the right run. */
  lemma MergeTakeRight(a: seq<int>, b: seq<int>)
    requires |b| > 0 && (|a| == 0 || a[0] > b[0])
    ensures Merge(a, b) == [b[0]] + Merge(a, b[1..])
  {
    if |a| == 0 {
      assert Merge(a, b) == b;
      assert Merge(a, b[1..]) == b[1..];
      assert b == [b[0]] + b[1..];
    }
  }

  lemma {:induction false} MergePermutation(a: seq<int>, b: seq<int>)
    ensures multiset(Merge(a, b)) == multiset(a) + multiset(b)
    decreases |a| + |b|
  {
    if |a| == 0 {
      assert a == [];
    } else if |b| == 0 {
      assert b == [];
    } else if a[0] <= b[0] {
      var r := Merge(a[1..], b);
      MergeTakeLeft(a, b);
      MergePermutation(a[1..], b);
      assert a == [a[0]] + a[1..];
      ConsMultiset(a[0], a[1..], r, b);
    } else {
      var r := Merge(a, b[1..]);
      MergeTakeRight(a, b);
      MergePermutation(a, b[1..]);
      assert b == [b[0]] + b[1..];
      ConsMultiset(b[0], b[1..], r, a);
    }
  }

  /** Putting `h` in front of a merge `r` of `t` and `u` merges `[h] + t` and `u`. */
  lemma ConsMultiset(h: int, t: seq<int>, r: seq<int>, u: seq<int>)
    requires multiset(r) == multiset(t) + multiset(u)
    ensures multiset([h] + r) == multiset([h] + t) + multiset(u)
  {
  }

  /** The head of a non-empty merge is the head of one of the runs. */
  lemma MergeHead(a: seq<int>, b: seq<int>)
    requires |a| + |b| > 0
    ensures |Merge(a, b)| > 0
    ensures Merge(a, b)[0] == (if |a| == 0 then b[0] else if |b| == 0 then a[0]
                               else if a[0] <= b[0] then a[0] else b[0])
  {
  }

  lemma {:induction false} MergeSorted(a: seq<int>, b: seq<int>)
    requires Sorted(a) && Sorted(b)
    ensures Sorted(Merge(a, b))
    decreases |a| + |b|
  {
    if |a| > 0 && |b| > 0 {
      var m := Merge(a, b);
      if a[0] <= b[0] {
        var rest := Merge(a[1..], b);
        MergeSorted(a[1..], b);
        MergePermutation(a[1..], b);
        if |rest| > 0 {
          MergeHead(a[1..], b);
          assert a[0] <= rest[0];
        }
        assert m == [a[0]] + rest;
      } else {
        var rest := Merge(a, b[1..]);
        MergeSorted(a, b[1..]);
        MergePermutation(a, b[1..]);
        if |rest| > 0 {
          MergeHead(a, b[1..]);
          assert b[0] <= rest[0];
        }
        assert m == [b[0]] + rest;
      }
    }
  }

  /** Merge sort as `mergeSort(buffer, capacity, used)` computes it: split at
      `used / 2`, sort both halves, merge. */
  function MergeSortSeq(s: seq<int>): seq<int>
    decreases |s|
  {
    if |s| <= 1 then s
    else Merge(MergeSortSeq(s[..|s| / 2]), MergeSortSeq(s[|s| / 2..]))
  }

  /** The sort of a sequence of at least two is the merge of its sorted halves. */
  lemma MergeSortHalves(s: seq<int>, a: seq<int>, b: seq<int>)
    requires |s| > 1 && a == s[..|s| / 2] && b == s[|s| / 2..]
    ensures MergeSortSeq(s) == Merge(MergeSortSeq(a), MergeSortSeq(b))
  {
  }

  lemma SplitMultiset(s: seq<int>, h: nat)
    requires h <= |s|
    ensures multiset(s) == multiset(s[..h]) + multiset(s[h..])
  {
    assert s == s[..h] + s[h..];
  }

  lemma {:induction false} MergeSortCorrect(s: seq<int>)
    ensures Sorted(MergeSortSeq(s))
    ensures multiset(MergeSortSeq(s)) == multiset(s)
    decreases |s|
  {
    if |s| > 1 {
      var a, b := s[..|s| / 2], s[|s| / 2..];
      MergeSortHalves(s, a, b);
      MergeSortCorrect(a);
      MergeSortCorrect(b);
      var sa, sb := MergeSortSeq(a), MergeSortSeq(b);
      MergeSorted(sa, sb);
      MergePermutation(sa, sb);
      SplitMultiset(s, |s| / 2);
    }
  }

  /** Whatever sorting strategy produced `t` from `s`, the result is the one
      merge sort gives. */
  lemma SortedIsMergeSort(s: seq<int>, t: seq<int>)
    requires Sorted(t) && multiset(t) == multiset(s)
    ensures t == MergeSortSeq(s)
  {
    MergeSortCorrect(s);
    SortedPermutationUnique(t, MergeSortSeq(s));
  }

  // ---------------------------------------------------------------------
  // Searching
  // ---------------------------------------------------------------------

  /** `x` occurs in `s` between `lo` and `hi`, both inclusive. */
  predicate InRange(s: seq<int>, x: int, lo: int, hi: int) {
    exists i :: lo <= i <= hi && 0 <= i < |s| && s[i] == x
  }

  /** `binarySearch(x, lo, hi)` as written: a range of one element answers
      its index WITHOUT comparing it with `x`. */
  function BinarySearchAsWritten(s: seq<int>, x: int, lo: int, hi: int): (r: int)
    requires lo < hi ==> 0 <= lo && hi < |s|
    ensures r == -1 || lo <= r <= hi
    decreases hi - lo + 1
  {
    if lo == hi then lo
    else if lo > hi then -1
    else
      var pivot := (lo + hi) / 2;
      assert lo <= pivot < hi;
      if x < s[pivot] then BinarySearchAsWritten(s, x, lo, pivot - 1)
      else if x > s[pivot] then BinarySearchAsWritten(s, x, pivot + 1, hi)
      else pivot
  }

  /** In a sorted sequence a smaller element comes first. */
  lemma SortedLess(s: seq<int>, i: nat, j: nat)
    requires Sorted(s) && i < |s| && j < |s| && s[i] < s[j]
    ensures i < j
  {
  }

  /** On a sorted range, binary search finds every element that is there:
      the index it answers holds `x`.  So a result of -1 means `x` is absent. */
  lemma BinarySearchComplete(s: seq<int>, x: int, lo: int, hi: int)
    requires lo < hi ==> 0 <= lo && hi < |s|
    requires Sorted(s) && InRange(s, x, lo, hi)
    ensures BinarySearchAsWritten(s, x, lo, hi) >= 0
    ensures s[BinarySearchAsWritten(s, x, lo, hi)] == x
  {
    var i :| lo <= i <= hi && 0 <= i < |s| && s[i] == x;
    BinarySearchFinds(s, x, lo, hi, i);
  }

  /** The induction behind it, following the element's index `i`. */
  lemma {:induction false} BinarySearchFinds(s: seq<int>, x: int, lo: int, hi: int, i: nat)
    requires lo <= i <= hi && i < |s| && s[i] == x && (lo < hi ==> 0 <= lo && hi < |s|)
    requires Sorted(s)
    ensures 0 <= BinarySearchAsWritten(s, x, lo, hi) < |s| && s[BinarySearchAsWritten(s, x, lo, hi)] == x
    decreases hi - lo
  {
    if lo < hi {
      var pivot := (lo + hi) / 2;
      assert lo <= pivot < hi;
      if x < s[pivot] {
        SortedLess(s, i, pivot);
        BinarySearchFinds(s, x, lo, pivot - 1, i);
      } else if x > s[pivot] {
        SortedLess(s, pivot, i);
        BinarySearchFinds(s, x, pivot + 1, hi, i);
      }
    }
  }

  /** The search answers an index whose element is not `x`: in the sorted
      array [1, 3], looking for 2 answers 1, and in [5], looking for 7
      answers 0. */
  lemma BinarySearchMayAnswerWrongIndex()
    ensures BinarySearchAsWritten([1, 3], 2, 0, 1) == 1
    ensures BinarySearchAsWritten([5], 7, 0, 0) == 0
  {
  }

  /** The binary search `binarySearch` evidently intends: a range of one
      element is compared with `x` like any other. */
  function BinarySearchChecked(s: seq<int>, x: int, lo: int, hi: int): (r: int)
    requires lo <= hi ==> 0 <= lo && hi < |s|
    ensures r == -1 || (lo <= r <= hi && s[r] == x)
    decreases hi - lo + 1
  {
    if lo > hi then -1
    else if lo == hi then (if s[lo] == x then lo else -1)
    else
      var pivot := (lo + hi) / 2;
      if x < s[pivot] then BinarySearchChecked(s, x, lo, pivot - 1)
      else if x > s[pivot] then BinarySearchChecked(s, x, pivot + 1, hi)
      else pivot
  }

  /** On a sorted range the checked search answers -1 exactly when `x` is
      absent from the range. */
  lemma BinarySearchCheckedExact(s: seq<int>, x: int, lo: int, hi: int)
    requires lo <= hi ==> 0 <= lo && hi < |s|
    requires Sorted(s)
    ensures BinarySearchChecked(s, x, lo, hi) == -1 <==> !InRange(s, x, lo, hi)
  {
    if InRange(s, x, lo, hi) {
      var i :| lo <= i <= hi && 0 <= i < |s| && s[i] == x;
      BinarySearchCheckedFinds(s, x, lo, hi, i);
    }
  }

  /** The induction behind it, following the element's index `i`. */
  lemma {:induction false} BinarySearchCheckedFinds(s: seq<int>, x: int, lo: int, hi: int, i: nat)
    requires 0 <= lo <= i <= hi < |s| && s[i] == x && Sorted(s)
    ensures BinarySearchChecked(s, x, lo, hi) >= 0
    decreases hi - lo
  {
    if lo < hi {
      var pivot := (lo + hi) / 2;
      if x < s[pivot] {
        SortedLess(s, i, pivot);
        BinarySearchCheckedFinds(s, x, lo, pivot - 1, i);
      } else if x > s[pivot] {
        SortedLess(s, pivot, i);
        BinarySearchCheckedFinds(s, x, pivot + 1, hi, i);
      }
    }
  }

  /** Where the as-written search answers an index holding `x`, the checked
      search gives the same answer; they differ only where the as-written
      one answers an unchecked index. */
  lemma {:induction false} BinarySearchAgrees(s: seq<int>, x: int, lo: int, hi: int)
    requires lo <= hi ==> 0 <= lo && hi < |s|
    ensures var r := BinarySearchAsWritten(s, x, lo, hi);
      0 <= r < |s| && s[r] == x ==> BinarySearchChecked(s, x, lo, hi) == r
    ensures BinarySearchAsWritten([5], 7, 0, 0) == 0 && BinarySearchChecked([5], 7, 0, 0) == -1
    decreases hi - lo + 1
  {
    if lo < hi {
      var pivot := (lo + hi) / 2;
      if x < s[pivot] {
        BinarySearchAgrees(s, x, lo, pivot - 1);
      } else if x > s[pivot] {
        BinarySearchAgrees(s, x, pivot + 1, hi);
      }
    }
  }

  /** `frontBackSearch(x, lo, hi)`: compares the front, then the back,
      then moves both ends inwards. */
  function FrontBack(s: seq<int>, x: int, lo: int, hi: int): (r: int)
    requires lo <= hi ==> 0 <= lo && hi < |s|
    ensures r == -1 || (lo <= r <= hi && s[r] == x)
    ensures r == -1 <==> !InRange(s, x, lo, hi)
    decreases hi - lo + 1
  {
    if lo > hi then -1
    else if s[lo] == x then lo
    else if s[hi] == x then hi
    else
      var r := FrontBack(s, x, lo + 1, hi - 1);
      assert r == -1 ==> forall i :: lo <= i <= hi && 0 <= i < |s| ==> s[i] != x by {
        if r == -1 {
          forall i | lo <= i <= hi && 0 <= i < |s| ensures s[i] != x {
            if lo < i < hi {
              assert !InRange(s, x, lo + 1, hi - 1);
            }
          }
        }
      }
      r
  }

  /** Index `i` of the range [lo, hi] lies closer to one of its ends than
      index `r` does. */
  predicate NearerToAnEnd(lo: int, hi: int, i: int, r: int) {
    var d := if r - lo < hi - r then r - lo else hi - r;
    i - lo < d || hi - i < d
  }

  /** The answer of front/back search is the hit nearest to an end: no
      element closer to either end of the range holds `x`. */
  lemma {:induction false} FrontBackNearestEnd(s: seq<int>, x: int, lo: int, hi: int)
    requires lo <= hi ==> 0 <= lo && hi < |s|
    ensures FrontBack(s, x, lo, hi) >= 0 ==>
      (forall i :: lo <= i <= hi && NearerToAnEnd(lo, hi, i, FrontBack(s, x, lo, hi)) ==> s[i] != x)
    decreases hi - lo + 1
  {
    if lo <= hi && s[lo] != x && s[hi] != x {
      FrontBackNearestEnd(s, x, lo + 1, hi - 1);
    }
  }
}
