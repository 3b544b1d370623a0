/** Lexicographic order on integer sequences of equal length: the order in
    which std::next_permutation enumerates the rearrangements of a range. */
module LexOrder {

  /** `a` and `b` agree before index `d`, and at `d` the element of `a` is smaller. */
  ghost predicate LessAt(a: seq<int>, b: seq<int>, d: int) {
    0 <= d < |a| && d < |b| && a[..d] == b[..d] && a[d] < b[d]
  }

  /** Strict lexicographic order on sequences of the same length. */
  ghost predicate LexLess(a: seq<int>, b: seq<int>) {
    |a| == |b| && exists d :: LessAt(a, b, d)
  }

  /** `t` is the immediate successor of `s`: an arrangement of the same elements,
      lexicographically greater, with no arrangement strictly between the two. */
  ghost predicate IsSuccessor(s: seq<int>, t: seq<int>) {
    multiset(t) == multiset(s) && LexLess(s, t)
    && forall q :: multiset(q) == multiset(s) && LexLess(s, q) ==> !LexLess(q, t)
  }

  /** Sorted in non-decreasing order (what std::is_sorted accepts). */
  ghost predicate Ascending(s: seq<int>) {
    forall i, j :: 0 <= i <= j < |s| ==> s[i] <= s[j]
  }

  /** Sorted in non-increasing order: no adjacent pair with s[k] < s[k+1]. */
  ghost predicate Descending(s: seq<int>) {
    forall i, j :: 0 <= i <= j < |s| ==> s[i] >= s[j]
  }

  /** The strict order never holds in both directions (so it is irreflexive too). */
  lemma LexAsymmetric(a: seq<int>, b: seq<int>)
    requires LexLess(a, b)
    ensures !LexLess(b, a)
  {
    var d :| LessAt(a, b, d);
    forall e | 0 <= e < |a|
      ensures !LessAt(b, a, e)
    {
      if e < d {
        assert a[..d][e] == b[..d][e];
      } else if e > d {
        assert b[..e][d] == b[d] && a[..e][d] == a[d];
      }
    }
  }

  /** Any two sequences of the same length are equal or ordered one way or the other. */
  lemma LexTotal(a: seq<int>, b: seq<int>)
    requires |a| == |b|
    ensures a == b || LexLess(a, b) || LexLess(b, a)
  {
    var d := 0;
    while d < |a| && a[d] == b[d]
      invariant 0 <= d <= |a|
      invariant a[..d] == b[..d]
    {
      assert a[..d + 1] == a[..d] + [a[d]];
      assert b[..d + 1] == b[..d] + [b[d]];
      d := d + 1;
    }
    if d == |a| {
      assert a == a[..d] && b == b[..d];
    } else if a[d] < b[d] {
      assert LessAt(a, b, d);
    } else {
      assert LessAt(b, a, d);
    }
  }

  /** Transitivity: the first difference of `a` and `c` is at the earlier of the two. */
  lemma LexTransitive(a: seq<int>, b: seq<int>, c: seq<int>)
    requires LexLess(a, b) && LexLess(b, c)
    ensures LexLess(a, c)
  {
    var d :| LessAt(a, b, d);
    var e :| LessAt(b, c, e);
    if d < e {
      assert b[..e][d] == c[..e][d];
      assert a[..d] == b[..e][..d] == c[..e][..d] == c[..d];
      assert LessAt(a, c, d);
    } else if e < d {
      assert a[..d][e] == b[..d][e];
      assert a[..e] == a[..d][..e] == b[..d][..e] == c[..e];
      assert LessAt(a, c, e);
    } else {
      assert LessAt(a, c, d);
    }
  }

  /** When `q` and `t` share a prefix of length `j`, their first difference lies in the suffixes. */
  lemma LessAtSuffix(q: seq<int>, t: seq<int>, j: int, e: int)
    requires LessAt(q, t, e) && 0 <= j <= |q| && |q| == |t| && q[..j] == t[..j]
    ensures j <= e && LessAt(q[j..], t[j..], e - j)
  {
    assert q[j..][..e - j] == q[..e][j..];
    assert t[j..][..e - j] == t[..e][j..];
  }

  /** Two sequences with the same elements and the same prefix have the same elements after it. */
  lemma SuffixMultiset(q: seq<int>, t: seq<int>, d: int)
    requires 0 <= d <= |q| && d <= |t|
    requires q[..d] == t[..d] && multiset(q) == multiset(t)
    ensures multiset(q[d..]) == multiset(t[d..])
  {
    assert q == q[..d] + q[d..];
    assert t == t[..d] + t[d..];
    assert multiset(q[d..]) == multiset(q) - multiset(q[..d]);
    assert multiset(t[d..]) == multiset(t) - multiset(t[..d]);
  }

  /** If `q` agrees with `t` below `d` and both hold the same elements, then
      `q[d]` occurs in `t` at some position `m >= d`. */
  lemma ElementOfSuffix(q: seq<int>, t: seq<int>, d: int) returns (m: int)
    requires 0 <= d < |q| && |q| == |t|
    requires q[..d] == t[..d] && multiset(q) == multiset(t)
    ensures d <= m < |t| && t[m] == q[d]
  {
    SuffixMultiset(q, t, d);
    assert q[d..][0] == q[d];
    assert q[d] in multiset(t[d..]);
    var i :| 0 <= i < |t[d..]| && t[d..][i] == q[d];
    m := d + i;
  }

  /** A sorted sequence is the least of all rearrangements of its elements. */
  lemma AscendingIsLeast(t: seq<int>, q: seq<int>)
    requires Ascending(t) && multiset(q) == multiset(t)
    ensures !LexLess(q, t)
  {
    if LexLess(q, t) {
      var d :| LessAt(q, t, d);
      var m := ElementOfSuffix(q, t, d);
    }
  }

  /** A non-increasing sequence is the greatest of all rearrangements of its elements. */
  lemma DescendingIsGreatest(s: seq<int>, q: seq<int>)
    requires Descending(s) && multiset(q) == multiset(s)
    ensures !LexLess(s, q)
  {
    if LexLess(s, q) {
      var d :| LessAt(s, q, d);
      assert q[..d] == s[..d];
      var m := ElementOfSuffix(q, s, d);
    }
  }

  /** Every rearrangement of a non-increasing sequence is that sequence or below it. */
  lemma AtOrBelowGreatest(s: seq<int>, q: seq<int>)
    requires Descending(s) && multiset(q) == multiset(s)
    ensures q == s || LexLess(q, s)
  {
    DescendingIsGreatest(s, q);
    assert |q| == |multiset(q)| == |s|;
    LexTotal(q, s);
  }

  /** The step of std::next_permutation yields the least rearrangement above `s`.
      `k` is the last index with s[k] < s[k+1] (so s[k+1..] is non-increasing),
      `l` the last index above `k` with s[l] > s[k]; `t` keeps s[..k], puts s[l]
      at `k` and holds the remaining elements in ascending order after it. */
  lemma SuccessorIsLeast(s: seq<int>, t: seq<int>, k: int, l: int, q: seq<int>)
    requires |t| == |s| && 0 <= k < l < |s|
    requires Descending(s[k + 1..])
    requires s[l] > s[k]
    requires forall i :: l < i < |s| ==> s[i] <= s[k]
    requires t[..k] == s[..k] && t[k] == s[l]
    requires Ascending(t[k + 1..])
    requires multiset(t) == multiset(s) && multiset(q) == multiset(s)
    requires LexLess(s, q)
    ensures !LexLess(q, t)
  {
    var d :| LessAt(s, q, d);
    if LexLess(q, t) {
      if d < k {
        assert t[..k][..d] == s[..k][..d];
        assert t[d] == s[d];
        assert LessAt(t, q, d);
        LexAsymmetric(t, q);
      } else if d > k {
        assert q[..d] == s[..d];
        var m := ElementOfSuffix(q, s, d);
      } else {
        assert q[..k] == s[..k];
        var m := ElementOfSuffix(q, s, k);
        assert m != k;
        assert m <= l;
        assert s[k + 1..][m - k - 1] >= s[k + 1..][l - k - 1];
        assert q[k] >= t[k];
        assert q[..k] == t[..k];
        if q[k] > t[k] {
          assert LessAt(t, q, k);
          LexAsymmetric(t, q);
        } else {
          assert q[..k + 1] == q[..k] + [q[k]];
          assert t[..k + 1] == t[..k] + [t[k]];
          assert q[..k + 1] == t[..k + 1];
          SuffixMultiset(q, t, k + 1);
          AscendingIsLeast(t[k + 1..], q[k + 1..]);
          var e :| LessAt(q, t, e);
          LessAtSuffix(q, t, k + 1, e);
        }
      }
    }
  }

  /** b raised to the power e. */
  function Pow(b: nat, e: nat): nat {
    if e == 0 then 1 else b * Pow(b, e - 1)
  }

  /** Every element of `s` is a digit in base `base`. */
  ghost predicate Digits(s: seq<int>, base: nat) {
    forall i :: 0 <= i < |s| ==> 0 <= s[i] < base
  }

  /** The value of `s` read as a numeral in base `base`, most significant digit first. */
  ghost function Rank(s: seq<int>, base: nat): int {
    if s == [] then 0 else s[0] * Pow(base, |s| - 1) + Rank(s[1..], base)
  }

  lemma MulMonotone(x: int, y: int, p: nat)
    requires x <= y
    ensures x * p <= y * p
  {
  }

  /** The arithmetic behind ordering numerals by their leading digit. */
  lemma LeadingDigitOrder(x: int, y: int, ra: int, rb: int, p: nat)
    requires x < y && 0 <= ra < p && 0 <= rb
    ensures x * p + ra < y * p + rb
  {
    MulMonotone(x + 1, y, p);
    assert (x + 1) * p == x * p + p;
  }

  /** A numeral of |s| digits lies in [0, base^|s|). */
  lemma {:induction false} RankBound(s: seq<int>, base: nat)
    requires Digits(s, base)
    ensures 0 <= Rank(s, base) < Pow(base, |s|)
  {
    if s != [] {
      var p := Pow(base, |s| - 1);
      assert Digits(s[1..], base);
      RankBound(s[1..], base);
      MulMonotone(0, s[0], p);
      MulMonotone(s[0], base - 1, p);
      assert (base - 1) * p + p == base * p;
    }
  }

  /** Two numerals that first differ in their leading digit are ordered by that digit. */
  lemma RankLeadingDigit(a: seq<int>, b: seq<int>, base: nat)
    requires |a| == |b| > 0 && Digits(a, base) && Digits(b, base) && a[0] < b[0]
    ensures Rank(a, base) < Rank(b, base)
  {
    var p := Pow(base, |a| - 1);
    var x, y := a[0], b[0];
    var ra, rb := Rank(a[1..], base), Rank(b[1..], base);
    assert Digits(a[1..], base) && Digits(b[1..], base);
    RankBound(a[1..], base);
    RankBound(b[1..], base);
    assert Rank(a, base) == x * p + ra;
    assert Rank(b, base) == y * p + rb;
    LeadingDigitOrder(x, y, ra, rb, p);
  }

  /** Lexicographic order on digit sequences agrees with the order of their values. */
  lemma {:induction false} RankMonotone(a: seq<int>, b: seq<int>, base: nat, d: int)
    requires |a| == |b| && Digits(a, base) && Digits(b, base)
    requires LessAt(a, b, d)
    ensures Rank(a, base) < Rank(b, base)
    decreases d
  {
    if d == 0 {
      RankLeadingDigit(a, b, base);
    } else {
      assert a[..d][0] == b[..d][0];
      assert a[1..][..d - 1] == a[..d][1..];
      assert b[1..][..d - 1] == b[..d][1..];
      assert Digits(a[1..], base) && Digits(b[1..], base);
      RankMonotone(a[1..], b[1..], base, d - 1);
      var p := Pow(base, |a| - 1);
      assert Rank(a, base) == a[0] * p + Rank(a[1..], base);
      assert Rank(b, base) == b[0] * p + Rank(b[1..], base);
    }
  }

  /** Strictly increasing steps in lexicographic order strictly increase the rank. */
  lemma LexLessRank(a: seq<int>, b: seq<int>, base: nat)
    requires Digits(a, base) && Digits(b, base) && LexLess(a, b)
    ensures Rank(a, base) < Rank(b, base) && Rank(b, base) < Pow(base, |b|)
  {
    var d :| LessAt(a, b, d);
    RankMonotone(a, b, base, d);
    RankBound(b, base);
  }
}
