/** The two routines of <algorithm> that the isomorphism search relies on, on an
    array of ints: std::reverse of a suffix and std::next_permutation over the
    whole array, with the semantics fixed by ISO C++ [alg.permutation.generators]. */
module StdAlgorithm {
  import opened LexOrder

  /** `s` read back to front. */
  ghost function Reversed(s: seq<int>): (r: seq<int>)
    ensures |r| == |s| && forall i :: 0 <= i < |s| ==> r[i] == s[|s| - 1 - i]
  {
    if s == [] then [] else Reversed(s[1..]) + [s[0]]
  }

  /** Reversing keeps the elements. */
  lemma {:induction false} ReversedMultiset(s: seq<int>)
    ensures multiset(Reversed(s)) == multiset(s)
  {
    if s != [] {
      ReversedMultiset(s[1..]);
      assert s == [s[0]] + s[1..];
    }
  }

  /** Reversing a non-increasing sequence sorts it ascending. */
  lemma ReversedDescending(s: seq<int>)
    requires Descending(s)
    ensures Ascending(Reversed(s))
  {
    var r := Reversed(s);
    forall i, j | 0 <= i <= j < |r|
      ensures r[i] <= r[j]
    {
      assert r[i] == s[|s| - 1 - i] && r[j] == s[|s| - 1 - j];
    }
  }

  /** A sequence that keeps `s` below `lo` and mirrors it from `lo` on is
      s[..lo] + Reversed(s[lo..]), and holds the elements of `s`. */
  lemma SuffixReversed(s: seq<int>, t: seq<int>, lo: int)
    requires 0 <= lo <= |s| == |t|
    requires forall m :: 0 <= m < lo ==> t[m] == s[m]
    requires forall m :: lo <= m < |s| ==> t[m] == s[lo + |s| - 1 - m]
    ensures t == s[..lo] + Reversed(s[lo..])
    ensures multiset(t) == multiset(s)
  {
    assert t == s[..lo] + Reversed(s[lo..]);
    ReversedMultiset(s[lo..]);
    assert s == s[..lo] + s[lo..];
  }

  /** std::reverse(a + lo, a + a.Length): the suffix from `lo` is put in reverse order. */
  method ReverseSuffix(a: array<int>, lo: int)
    requires 0 <= lo <= a.Length
    modifies a
    ensures a[..] == old(a[..lo]) + Reversed(old(a[lo..]))
    ensures multiset(a[..]) == multiset(old(a[..]))
  {
    ghost var s := a[..];
    var n := a.Length;
    var i, j := lo, n - 1;
    while i < j
      invariant lo <= i <= j + 1 <= n && i + j == lo + n - 1
      invariant forall m :: 0 <= m < lo ==> a[m] == s[m]
      invariant forall m :: i <= m <= j ==> a[m] == s[m]
      invariant forall m :: lo <= m < i ==> a[m] == s[lo + n - 1 - m]
      invariant forall m :: j < m < n ==> a[m] == s[lo + n - 1 - m]
    {
      a[i], a[j] := a[j], a[i];
      i, j := i + 1, j - 1;
    }
    SuffixReversed(s, a[..], lo);
  }

  /** Extending a non-increasing suffix one position to the left. */
  lemma DescendingExtend(s: seq<int>, k: int)
    requires 0 <= k < |s| - 1 && Descending(s[k + 1..]) && s[k] >= s[k + 1]
    ensures Descending(s[k..])
  {
    forall i, j | k <= i <= j < |s|
      ensures s[i] >= s[j]
    {
      if i == k && j > k {
        assert s[k + 1..][0] >= s[k + 1..][j - k - 1];
      } else if i > k {
        assert s[k + 1..][i - k - 1] >= s[k + 1..][j - k - 1];
      }
    }
  }

  /** Exchanging two positions keeps the elements. */
  lemma SwapMultiset(s: seq<int>, k: int, l: int)
    requires 0 <= k < |s| && 0 <= l < |s|
    ensures multiset(s[k := s[l]][l := s[k]]) == multiset(s)
  {
  }

  /** The arrangement std::next_permutation produces from `s`, given the pivot `k`
      and the index `l` it swaps with: swap them, then reverse everything after `k`. */
  ghost function Advanced(s: seq<int>, k: int, l: int): seq<int>
    requires 0 <= k < l < |s|
  {
    var u := s[k := s[l]][l := s[k]];
    u[..k + 1] + Reversed(u[k + 1..])
  }

  /** Swapping s[k] with the smallest larger element s[l] of the non-increasing
      suffix keeps that suffix non-increasing. */
  lemma SwapKeepsDescending(s: seq<int>, k: int, l: int)
    requires 0 <= k < l < |s|
    requires Descending(s[k + 1..])
    requires s[l] > s[k]
    requires forall i :: l < i < |s| ==> s[i] <= s[k]
    ensures Descending(s[k := s[l]][l := s[k]][k + 1..])
  {
    var u := s[k := s[l]][l := s[k]];
    forall i, j | k + 1 <= i <= j < |s|
      ensures u[i] >= u[j]
    {
      assert s[k + 1..][i - k - 1] >= s[k + 1..][j - k - 1];
      if j == l {
        assert s[k + 1..][i - k - 1] >= s[k + 1..][l - k - 1];
      }
    }
  }

  /** What Advanced(s, k, l) looks like: the prefix before `k` is kept, s[l] moves
      to `k`, the rest is ascending, and the elements are those of `s`. */
  lemma AdvancedShape(s: seq<int>, k: int, l: int)
    requires 0 <= k < l < |s|
    requires Descending(s[k + 1..])
    requires s[l] > s[k]
    requires forall i :: l < i < |s| ==> s[i] <= s[k]
    ensures |Advanced(s, k, l)| == |s|
    ensures Advanced(s, k, l)[..k] == s[..k] && Advanced(s, k, l)[k] == s[l]
    ensures Ascending(Advanced(s, k, l)[k + 1..])
    ensures multiset(Advanced(s, k, l)) == multiset(s)
  {
    var u := s[k := s[l]][l := s[k]];
    var t := Advanced(s, k, l);
    SwapMultiset(s, k, l);
    SwapKeepsDescending(s, k, l);
    ReversedDescending(u[k + 1..]);
    ReversedMultiset(u[k + 1..]);
    assert u == u[..k + 1] + u[k + 1..];
    assert t[k + 1..] == Reversed(u[k + 1..]);
  }

  /** With `k` the last ascent of `s` and `l` the last position after it holding
      a larger element, Advanced(s, k, l) is the immediate lexicographic successor
      of `s` among the arrangements of its elements. */
  lemma AdvancedIsSuccessor(s: seq<int>, k: int, l: int)
    requires 0 <= k < l < |s|
    requires Descending(s[k + 1..])
    requires s[l] > s[k]
    requires forall i :: l < i < |s| ==> s[i] <= s[k]
    ensures IsSuccessor(s, Advanced(s, k, l))
  {
    var t := Advanced(s, k, l);
    AdvancedShape(s, k, l);
    assert LessAt(s, t, k);
    forall q | multiset(q) == multiset(s) && LexLess(s, q)
      ensures !LexLess(q, t)
    {
      SuccessorIsLeast(s, t, k, l, q);
    }
  }

  /** With everything after `k` non-increasing, `s` as a whole is non-increasing
      exactly when there is no ascent at `k` (k = -1 standing for none). */
  lemma LastAscentDecides(s: seq<int>, k: int)
    requires -1 <= k <= |s| - 2 && Descending(s[k + 1..])
    requires k >= 0 ==> s[k] < s[k + 1]
    ensures k < 0 <==> Descending(s)
  {
    if k < 0 {
      assert s[k + 1..] == s;
    }
  }

  /** First scan of std::next_permutation: the largest k with a[k] < a[k + 1],
      or -1 when there is none; everything after k is non-increasing, so the
      whole array is non-increasing exactly when there is no such k. */
  method LastAscent(a: array<int>) returns (k: int)
    requires a.Length >= 2
    ensures -1 <= k <= a.Length - 2
    ensures Descending(a[k + 1..])
    ensures k >= 0 ==> a[k] < a[k + 1]
    ensures k < 0 <==> Descending(a[..])
  {
    ghost var s := a[..];
    k := a.Length - 2;
    while k >= 0 && a[k] >= a[k + 1]
      invariant -1 <= k <= a.Length - 2
      invariant Descending(s[k + 1..])
    {
      DescendingExtend(s, k);
      k := k - 1;
    }
    LastAscentDecides(s, k);
  }

  /** Second scan of std::next_permutation: the largest l > k with a[l] > a[k]. */
  method LastAbove(a: array<int>, k: int) returns (l: int)
    requires 0 <= k < a.Length - 1 && a[k] < a[k + 1]
    ensures k < l < a.Length && a[l] > a[k]
    ensures forall i :: l < i < a.Length ==> a[i] <= a[k]
  {
    l := a.Length - 1;
    while a[l] <= a[k]
      invariant k < l <= a.Length - 1
      invariant forall i :: l < i < a.Length ==> a[i] <= a[k]
      decreases l
    {
      l := l - 1;
    }
  }

  /** The last two steps of std::next_permutation once the pivot `k` and its
      partner `l` are known: std::iter_swap(k, l), then std::reverse of the tail after `k`. */
  method SwapAndReverse(a: array<int>, k: int, l: int)
    requires 0 <= k < l < a.Length
    modifies a
    ensures a[..] == Advanced(old(a[..]), k, l)
  {
    ghost var s := a[..];
    a[k], a[l] := a[l], a[k];
    assert a[..] == s[k := s[l]][l := s[k]];
    ReverseSuffix(a, k + 1);
  }

  /** The wrap-around case of std::next_permutation: reversing a non-increasing
      sequence gives its elements sorted ascending. */
  lemma WrapAround(s: seq<int>, t: seq<int>)
    requires Descending(s)
    requires t == s[..0] + Reversed(s[0..])
    ensures multiset(t) == multiset(s) && Ascending(t)
  {
    assert s[0..] == s;
    ReversedDescending(s);
    ReversedMultiset(s);
  }

  /** std::next_permutation(a, a + a.Length). When the contents are not yet the
      greatest arrangement of their elements (not non-increasing), they become the
      least arrangement that is lexicographically greater, and the result is true.
      Otherwise they become the least arrangement, sorted ascending, and the
      result is false. The elements themselves never change. */
  method NextPermutation(a: array<int>) returns (more: bool)
    modifies a
    ensures multiset(a[..]) == multiset(old(a[..]))
    ensures more <==> !Descending(old(a[..]))
    ensures more ==> IsSuccessor(old(a[..]), a[..])
    ensures !more ==> Ascending(a[..])
  {
    if a.Length < 2 {
      return false;
    }
    ghost var s := a[..];
    var k := LastAscent(a);
    if k < 0 {
      ReverseSuffix(a, 0);
      WrapAround(s, a[..]);
      return false;
    }
    var l := LastAbove(a, k);
    SwapAndReverse(a, k, l);
    AdvancedIsSuccessor(s, k, l);
    return true;
  }
}
