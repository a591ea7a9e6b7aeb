/** Value-level model of the list algorithms: what merge, merge sort, the two
    reversals and the first-occurrence search compute on the sequence of values
    a list holds, and the properties those computations have. */
module SeqModel {

  /** Ascending order, as established by merge sort. */
  ghost predicate Sorted(s: seq<int>)
  {
    forall i, j :: 0 <= i < j < |s| ==> s[i] <= s[j]
  }

  /** Position of the first occurrence of x, the node that search_node stops at. */
  function IndexOf(s: seq<int>, x: int): (k: nat)
    requires x in s
    ensures k < |s| && s[k] == x
    ensures x !in s[..k]
  {
    if s[0] == x then 0
    else
      assert s == [s[0]] + s[1..];
      var k := IndexOf(s[1..], x);
      assert s[..k + 1] == [s[0]] + s[1..][..k];
      k + 1
  }

  /** The first occurrence is the one with no earlier occurrence. */
  lemma IndexOfUnique(s: seq<int>, x: int, k: int)
    requires 0 <= k < |s| && s[k] == x && x !in s[..k]
    ensures IndexOf(s, x) == k
  {
  }

  /** A slice that grows by one position gains the element at that position. */
  lemma SliceExtend<T>(s: seq<T>, i: int, j: int)
    requires 0 <= i <= j < |s|
    ensures s[i..j + 1] == s[i..j] + [s[j]]
  {
  }

  /** No element occurs twice. Stated recursively, so that the solver only
      looks inside it when a proof asks it to. */
  ghost predicate Distinct<T>(s: seq<T>)
  {
    s == [] || (s[0] !in s[1..] && Distinct(s[1..]))
  }

  /** Distinct means that different positions hold different elements. */
  lemma {:induction false} DistinctIff<T>(s: seq<T>)
    ensures Distinct(s) <==> forall i, j :: 0 <= i < j < |s| ==> s[i] != s[j]
  {
    if s != [] {
      DistinctIff(s[1..]);
      if Distinct(s) {
        forall i, j | 0 <= i < j < |s|
          ensures s[i] != s[j]
        {
          if i == 0 {
            assert s[j] == s[1..][j - 1];
          } else {
            assert s[i] == s[1..][i - 1] && s[j] == s[1..][j - 1];
          }
        }
      }
      if forall i, j :: 0 <= i < j < |s| ==> s[i] != s[j] {
        forall k | 0 <= k < |s[1..]|
          ensures s[1..][k] != s[0]
        {
          assert s[1..][k] == s[k + 1];
        }
        forall i, j | 0 <= i < j < |s[1..]|
          ensures s[1..][i] != s[1..][j]
        {
          assert s[1..][i] == s[i + 1] && s[1..][j] == s[j + 1];
        }
      }
    }
  }

  /** Splicing a new element into a duplicate-free sequence keeps it
      duplicate-free. */
  lemma InsertDistinct<T>(s: seq<T>, k: int, x: T)
    requires 0 <= k <= |s| && Distinct(s) && x !in s
    ensures Distinct(s[..k] + [x] + s[k..])
  {
    var t := s[..k] + [x] + s[k..];
    DistinctIff(s);
    forall i, j | 0 <= i < j < |t|
      ensures t[i] != t[j]
    {
      var i' := if i < k then i else i - 1;
      var j' := if j < k then j else j - 1;
      if i != k && j != k {
        assert t[i] == s[i'] && t[j] == s[j'] && i' < j';
      } else if i == k {
        assert t[j] == s[j'];
      } else {
        assert t[i] == s[i'];
      }
    }
    DistinctIff(t);
  }

  /** Joining two duplicate-free sequences with no element in common gives a
      duplicate-free sequence. */
  lemma AppendDistinct<T>(s: seq<T>, t: seq<T>)
    requires Distinct(s) && Distinct(t)
    requires forall x :: x in s ==> x !in t
    ensures Distinct(s + t)
  {
    var u := s + t;
    DistinctIff(s);
    DistinctIff(t);
    forall i, j | 0 <= i < j < |u|
      ensures u[i] != u[j]
    {
      if j < |s| {
        assert u[i] == s[i] && u[j] == s[j];
      } else if i >= |s| {
        assert u[i] == t[i - |s|] && u[j] == t[j - |s|];
      } else {
        assert u[i] == s[i] && u[j] == t[j - |s|];
        assert u[i] in s;
      }
    }
    DistinctIff(u);
  }

  /** The sequence in reverse order. */
  function Rev<T>(s: seq<T>): seq<T>
  {
    if s == [] then [] else Rev(s[1..]) + [s[0]]
  }

  lemma {:induction false} RevAt<T>(s: seq<T>, k: int)
    requires 0 <= k < |s|
    ensures |Rev(s)| == |s| && Rev(s)[k] == s[|s| - 1 - k]
  {
    RevLength(s[1..]);
    if k < |s| - 1 {
      RevAt(s[1..], k);
    }
  }

  lemma {:induction false} RevLength<T>(s: seq<T>)
    ensures |Rev(s)| == |s|
  {
    if s != [] {
      RevLength(s[1..]);
    }
  }

  /** Reversal is determined position by position. */
  lemma RevByIndex<T>(s: seq<T>, t: seq<T>)
    requires |t| == |s|
    requires forall k :: 0 <= k < |s| ==> t[k] == s[|s| - 1 - k]
    ensures t == Rev(s)
  {
    RevLength(s);
    forall k | 0 <= k < |s|
      ensures t[k] == Rev(s)[k]
    {
      RevAt(s, k);
    }
  }

  /** Reversing a sequence with one more element at its end puts that
      element first. */
  lemma RevSnoc<T>(s: seq<T>, x: T)
    ensures Rev(s + [x]) == [x] + Rev(s)
  {
    var t := s + [x];
    RevLength(s);
    RevLength(t);
    forall k | 0 <= k < |t|
      ensures ([x] + Rev(s))[k] == t[|t| - 1 - k]
    {
      if k > 0 {
        RevAt(s, k - 1);
      }
    }
    RevByIndex(t, [x] + Rev(s));
  }

  /** s after the first i swaps of an in-place reversal, the swap number
      k + 1 exchanging the elements at k and |s|-1-k. */
  ghost function SwappedEnds(s: seq<int>, i: nat): (r: seq<int>)
    requires i <= |s| / 2
    ensures |r| == |s|
  {
    if i == 0 then s
    else Swap(SwappedEnds(s, i - 1), i - 1, |s| - i)
  }

  /** The values at positions i and j exchanged, as get_reversed_list's
      three assignments through temp do. */
  function Swap(s: seq<int>, i: int, j: int): (r: seq<int>)
    requires 0 <= i < |s| && 0 <= j < |s|
    ensures |r| == |s|
  {
    s[i := s[j]][j := s[i]]
  }

  /** One more round of swaps exchanges the next pair from the two ends. */
  lemma SwappedEndsStep(s: seq<int>, i: int)
    requires 0 <= i < |s| / 2
    ensures i + 1 <= |s| / 2
    ensures SwappedEnds(s, i + 1) == Swap(SwappedEnds(s, i), i, |s| - 1 - i)
  {
  }

  /** After i swaps, the first i and the last i positions hold the element
      from the other end and the middle is untouched. */
  lemma {:induction false} SwappedEndsAt(s: seq<int>, i: nat)
    requires i <= |s| / 2
    ensures forall m {:trigger SwappedEnds(s, i)[m]} :: 0 <= m < |s| ==>
      SwappedEnds(s, i)[m] == if m < i || m >= |s| - i then s[|s| - 1 - m] else s[m]
  {
    if i > 0 {
      SwappedEndsAt(s, i - 1);
      HalfBound(|s|, i);
    }
  }

  lemma HalfBound(n: int, i: int)
    requires i <= n / 2
    ensures i + i <= n
  {
  }

  /** Only the middle index of an odd length lies between the two halves. */
  lemma MiddleIsFixed(n: int, k: int)
    requires n / 2 <= k < n - n / 2
    ensures k == n - 1 - k
  {
  }

  /** After |s|/2 swaps every position holds the element from the other end. */
  lemma SwappedEndsMirror(s: seq<int>)
    ensures forall k :: 0 <= k < |s| ==> SwappedEnds(s, |s| / 2)[k] == s[|s| - 1 - k]
  {
    var h := |s| / 2;
    var t := SwappedEnds(s, h);
    SwappedEndsAt(s, h);
    forall k | 0 <= k < |s|
      ensures t[k] == s[|s| - 1 - k]
    {
      if h <= k < |s| - h {
        MiddleIsFixed(|s|, k);
      }
    }
  }

  /** After |s|/2 swaps the whole sequence is reversed. */
  lemma SwappedEndsAll(s: seq<int>)
    ensures SwappedEnds(s, |s| / 2) == Rev(s)
  {
    SwappedEndsMirror(s);
    RevByIndex(s, SwappedEnds(s, |s| / 2));
  }

  /** One round of reverse_list on values: with the first k elements
      already reversed behind the rest, moving the head to just behind the
      old last element reverses one more. */
  lemma RotateStep<T>(s: seq<T>, k: int)
    requires 0 <= k < |s| - 1
    ensures var t := s[k..] + Rev(s[..k]);
      |t| == |s| &&
      t[1..|s| - k] + [t[0]] + t[|s| - k..] == s[k + 1..] + Rev(s[..k + 1])
  {
    var t := s[k..] + Rev(s[..k]);
    RevLength(s[..k]);
    assert t[1..|s| - k] == s[k + 1..];
    assert t[|s| - k..] == Rev(s[..k]);
    assert s[..k + 1] == s[..k] + [s[k]];
    RevSnoc(s[..k], s[k]);
  }

  /** When only the last element is left in front, the rotation is the
      reversal. */
  lemma RotateDone<T>(s: seq<T>)
    requires s != []
    ensures s[|s| - 1..] + Rev(s[..|s| - 1]) == Rev(s)
  {
    assert s == s[..|s| - 1] + [s[|s| - 1]];
    RevSnoc(s[..|s| - 1], s[|s| - 1]);
  }

  /** Reversing twice gives the original sequence back. */
  lemma RevRev<T>(s: seq<T>)
    ensures Rev(Rev(s)) == s
  {
    RevLength(s);
    RevLength(Rev(s));
    forall k | 0 <= k < |s|
      ensures Rev(Rev(s))[k] == s[k]
    {
      RevAt(Rev(s), k);
      RevAt(s, |s| - 1 - k);
    }
  }

  /** Reversal keeps the elements. */
  lemma {:induction false} RevMultiset(s: seq<int>)
    ensures multiset(Rev(s)) == multiset(s)
  {
    if s != [] {
      RevMultiset(s[1..]);
      assert s == [s[0]] + s[1..];
    }
  }

  /** The merge of list.c: it takes from the first input only when its head is
      strictly smaller, so on equal heads the second input's value goes first. */
  function Merge(a: seq<int>, b: seq<int>): (r: seq<int>)
    ensures |r| == |a| + |b|
    decreases |a| + |b|
  {
    if a == [] then b
    else if b == [] then a
    else if a[0] < b[0] then [a[0]] + Merge(a[1..], b)
    else [b[0]] + Merge(a, b[1..])
  }

  /** One step of merge on suffixes, as merge's first loop takes it: after
      the output c, the smaller head goes next, the head of b when the heads
      are equal. */
  lemma MergeFrom(c: seq<int>, a: seq<int>, b: seq<int>, i: int, j: int)
    requires 0 <= i < |a| && 0 <= j < |b|
    ensures a[i] < b[j] ==>
      c + Merge(a[i..], b[j..]) == (c + [a[i]]) + Merge(a[i + 1..], b[j..])
    ensures a[i] >= b[j] ==>
      c + Merge(a[i..], b[j..]) == (c + [b[j]]) + Merge(a[i..], b[j + 1..])
  {
    assert a[i..][1..] == a[i + 1..] && b[j..][1..] == b[j + 1..];
  }

  /** Merging keeps every element of both inputs, and nothing else. */
  lemma {:induction false} MergeMultiset(a: seq<int>, b: seq<int>)
    ensures multiset(Merge(a, b)) == multiset(a) + multiset(b)
    decreases |a| + |b|
  {
    if a == [] || b == [] {
    } else if a[0] < b[0] {
      MergeMultiset(a[1..], b);
      HeadMultiset(a[0], Merge(a[1..], b), a, b);
    } else {
      MergeMultiset(a, b[1..]);
      HeadMultiset(b[0], Merge(a, b[1..]), b, a);
    }
  }

  /** Putting the head of a in front of a merge of a's tail with b gives the
      values of a and b. */
  lemma HeadMultiset(x: int, m: seq<int>, a: seq<int>, b: seq<int>)
    requires a != [] && x == a[0] && multiset(m) == multiset(a[1..]) + multiset(b)
    ensures multiset([x] + m) == multiset(a) + multiset(b)
  {
    assert a == [a[0]] + a[1..];
  }

  /** The merge of two ascending sequences is ascending. */
  lemma {:induction false} MergeSorted(a: seq<int>, b: seq<int>)
    requires Sorted(a) && Sorted(b)
    ensures Sorted(Merge(a, b))
    decreases |a| + |b|
  {
    if a == [] || b == [] {
    } else if a[0] < b[0] {
      MergeSorted(a[1..], b);
      MergeHeadBound(a[1..], b, a[0]);
    } else {
      MergeSorted(a, b[1..]);
      MergeHeadBound(a, b[1..], b[0]);
    }
  }

  /** A value no larger than every element of both inputs is no larger than any
      element of their merge. */
  lemma MergeHeadBound(a: seq<int>, b: seq<int>, x: int)
    requires forall i :: 0 <= i < |a| ==> x <= a[i]
    requires forall i :: 0 <= i < |b| ==> x <= b[i]
    requires Sorted(Merge(a, b))
    ensures Sorted([x] + Merge(a, b))
  {
    MergeMultiset(a, b);
    var m := Merge(a, b);
    forall i | 0 <= i < |m|
      ensures x <= m[i]
    {
      assert m[i] in multiset(m);
      assert m[i] in multiset(a) || m[i] in multiset(b);
    }
  }

  /** The recursive merge sort of list.c on values: split after the first
      half (rounded down), sort both halves, merge. */
  function MergeSort(s: seq<int>): (r: seq<int>)
    ensures |r| == |s|
    decreases |s|
  {
    if |s| <= 1 then s
    else Merge(MergeSort(s[..|s| / 2]), MergeSort(s[|s| / 2..]))
  }

  /** The recursive case of merge sort, as merge_sort takes it. */
  lemma MergeSortSplit(s: seq<int>)
    requires |s| > 1
    ensures MergeSort(s) == Merge(MergeSort(s[..|s| / 2]), MergeSort(s[|s| / 2..]))
  {
  }

  /** Merge sort yields an ascending permutation of its input. */
  lemma MergeSortCorrect(s: seq<int>)
    ensures Sorted(MergeSort(s))
    ensures multiset(MergeSort(s)) == multiset(s)
  {
    MergeSortSorted(s);
    MergeSortPermutes(s);
  }

  lemma {:induction false} MergeSortSorted(s: seq<int>)
    ensures Sorted(MergeSort(s))
    decreases |s|
  {
    if |s| > 1 {
      var h := |s| / 2;
      MergeSortSorted(s[..h]);
      MergeSortSorted(s[h..]);
      MergeSorted(MergeSort(s[..h]), MergeSort(s[h..]));
    }
  }

  lemma {:induction false} MergeSortPermutes(s: seq<int>)
    ensures multiset(MergeSort(s)) == multiset(s)
    decreases |s|
  {
    if |s| > 1 {
      var h := |s| / 2;
      MergeSortPermutes(s[..h]);
      MergeSortPermutes(s[h..]);
      MergeMultiset(MergeSort(s[..h]), MergeSort(s[h..]));
      MultisetSplit(s, h);
    }
  }

  lemma MultisetSplit(s: seq<int>, h: int)
    requires 0 <= h <= |s|
    ensures multiset(s[..h]) + multiset(s[h..]) == multiset(s)
  {
    assert s == s[..h] + s[h..];
  }

  /** There is only one ascending arrangement of a multiset of values. */
  lemma {:induction false} SortedUnique(s: seq<int>, t: seq<int>)
    requires Sorted(s) && Sorted(t)
    requires multiset(s) == multiset(t)
    ensures s == t
    decreases |s|
  {
    assert |t| == |s| by {
      assert |multiset(s)| == |s| && |multiset(t)| == |t|;
    }
    if s != [] {
      SortedHeads(s, t);
      SortedUnique(s[1..], t[1..]);
      calc {
        s;
        [s[0]] + s[1..];
        [t[0]] + t[1..];
        t;
      }
    }
  }

  /** Two ascending arrangements of the same values start alike and continue
      with ascending arrangements of the same remaining values. */
  lemma SortedHeads(s: seq<int>, t: seq<int>)
    requires Sorted(s) && Sorted(t) && multiset(s) == multiset(t)
    requires s != [] && t != []
    ensures s[0] == t[0]
    ensures Sorted(s[1..]) && Sorted(t[1..]) && multiset(s[1..]) == multiset(t[1..])
  {
    assert t[0] in multiset(t) && s[0] in multiset(s);
    SortedHeadIsLeast(s, t[0]);
    SortedHeadIsLeast(t, s[0]);
    MultisetTail(s);
    MultisetTail(t);
  }

  lemma SortedHeadIsLeast(s: seq<int>, x: int)
    requires Sorted(s) && x in multiset(s)
    ensures s[0] <= x
  {
    var i :| 0 <= i < |s| && s[i] == x;
  }

  lemma MultisetTail(s: seq<int>)
    requires s != []
    ensures multiset(s[1..]) == multiset(s) - multiset{s[0]}
    ensures Sorted(s) ==> Sorted(s[1..])
  {
    assert s == [s[0]] + s[1..];
  }

  /** Merge sort agrees with any other way of sorting: it is the unique
      ascending permutation of its input. */
  lemma MergeSortIsTheSort(s: seq<int>, t: seq<int>)
    requires Sorted(t) && multiset(t) == multiset(s)
    ensures MergeSort(s) == t
  {
    MergeSortCorrect(s);
    SortedUnique(MergeSort(s), t);
  }

  /** The merge that takes from the first input on ties. */
  function MergeFirstOnTies(a: seq<int>, b: seq<int>): (r: seq<int>)
    decreases |a| + |b|
  {
    if a == [] then b
    else if b == [] then a
    else if a[0] <= b[0] then [a[0]] + MergeFirstOnTies(a[1..], b)
    else [b[0]] + MergeFirstOnTies(a, b[1..])
  }

  /** On unsorted inputs the tie rule is visible: list.c's merge is not the
      merge that favours its first input. */
  lemma TieRuleVisibleOnUnsorted()
    ensures Merge([1, 0], [1]) == [1, 1, 0]
    ensures MergeFirstOnTies([1, 0], [1]) == [1, 0, 1]
  {
    assert [1, 0][1..] == [0];
    assert [1][1..] == [];
    assert [0][1..] == [];
  }

  lemma {:induction false} MergeFirstOnTiesMultiset(a: seq<int>, b: seq<int>)
    ensures multiset(MergeFirstOnTies(a, b)) == multiset(a) + multiset(b)
    decreases |a| + |b|
  {
    if a == [] || b == [] {
    } else if a[0] <= b[0] {
      MergeFirstOnTiesMultiset(a[1..], b);
      HeadMultiset(a[0], MergeFirstOnTies(a[1..], b), a, b);
    } else {
      MergeFirstOnTiesMultiset(a, b[1..]);
      HeadMultiset(b[0], MergeFirstOnTies(a, b[1..]), b, a);
    }
  }

  lemma {:induction false} MergeFirstOnTiesSorted(a: seq<int>, b: seq<int>)
    requires Sorted(a) && Sorted(b)
    ensures Sorted(MergeFirstOnTies(a, b))
    decreases |a| + |b|
  {
    if a == [] || b == [] {
    } else if a[0] <= b[0] {
      MergeFirstOnTiesSorted(a[1..], b);
      TiesHeadBound(a[1..], b, a[0]);
    } else {
      MergeFirstOnTiesSorted(a, b[1..]);
      TiesHeadBound(a, b[1..], b[0]);
    }
  }

  lemma TiesHeadBound(a: seq<int>, b: seq<int>, x: int)
    requires forall i :: 0 <= i < |a| ==> x <= a[i]
    requires forall i :: 0 <= i < |b| ==> x <= b[i]
    requires Sorted(MergeFirstOnTies(a, b))
    ensures Sorted([x] + MergeFirstOnTies(a, b))
  {
    MergeFirstOnTiesMultiset(a, b);
    var m := MergeFirstOnTies(a, b);
    forall i | 0 <= i < |m|
      ensures x <= m[i]
    {
      assert m[i] in multiset(m);
      assert m[i] in multiset(a) || m[i] in multiset(b);
    }
  }

  /** On ascending inputs, which is how merge sort calls it, the tie rule
      cannot be observed in the values produced. */
  lemma MergeTieRuleUnobservable(a: seq<int>, b: seq<int>)
    requires Sorted(a) && Sorted(b)
    ensures Merge(a, b) == MergeFirstOnTies(a, b)
  {
    MergeSorted(a, b);
    MergeMultiset(a, b);
    MergeFirstOnTiesSorted(a, b);
    MergeFirstOnTiesMultiset(a, b);
    SortedUnique(Merge(a, b), MergeFirstOnTies(a, b));
  }
}
