/** Permutations of the vertex labels {0, ..., n-1}, held as sequences: p[i] is the
    vertex that vertex i is relabelled to. */
module Permutations {

  /** The identity permutation [0, 1, ..., n-1]. */
  function Iota(n: nat): seq<int> {
    seq(n, i => i)
  }

  /** Every entry of `p` is a vertex label below `n`. */
  ghost predicate InRange(p: seq<int>, n: nat) {
    forall i :: 0 <= i < |p| ==> 0 <= p[i] < n
  }

  /** `p` is a rearrangement of [0, 1, ..., n-1]: what std::next_permutation keeps
      invariant when it starts from the identity. */
  ghost predicate IsPerm(p: seq<int>, n: nat) {
    |p| == n && InRange(p, n) && multiset(p) == multiset(Iota(n))
  }

  /** `p` is a bijection of {0, ..., n-1}: into the range, one-to-one and onto. */
  ghost predicate IsBijection(p: seq<int>, n: nat) {
    |p| == n && InRange(p, n)
    && (forall i, j :: 0 <= i < j < n ==> p[i] != p[j])
    && (forall y :: 0 <= y < n ==> y in p)
  }

  /** Each label below n occurs exactly once in the identity, and no other value occurs. */
  lemma {:induction false} IotaCount(n: nat, y: int)
    ensures multiset(Iota(n))[y] == if 0 <= y < n then 1 else 0
  {
    if n > 0 {
      assert Iota(n) == Iota(n - 1) + [n - 1];
      IotaCount(n - 1, y);
    }
  }

  /** A value that occurs at exactly one position of `s` has multiplicity 1. */
  lemma CountOfUnique(s: seq<int>, y: int, i: int)
    requires 0 <= i < |s| && s[i] == y
    requires forall j :: 0 <= j < |s| && j != i ==> s[j] != y
    ensures multiset(s)[y] == 1
  {
    assert s == s[..i] + [s[i]] + s[i + 1..];
    assert y !in s[..i];
    assert y !in s[i + 1..];
  }

  /** A value that occurs at two positions of `s` has multiplicity at least 2. */
  lemma CountOfRepeated(s: seq<int>, i: int, j: int)
    requires 0 <= i < j < |s| && s[i] == s[j]
    ensures multiset(s)[s[i]] >= 2
  {
    assert s == s[..i] + [s[i]] + s[i + 1..];
    assert s[i + 1..][j - i - 1] == s[j];
  }

  /** Holding the same elements as the identity already forces the range. */
  lemma PermFromMultiset(p: seq<int>, n: nat)
    requires multiset(p) == multiset(Iota(n))
    ensures IsPerm(p, n)
  {
    assert |p| == |multiset(p)| == |Iota(n)| == n;
    forall i | 0 <= i < |p|
      ensures 0 <= p[i] < n
    {
      assert p[i] in multiset(p);
      IotaCount(n, p[i]);
    }
  }

  /** The identity is a permutation. */
  lemma IotaIsPerm(n: nat)
    ensures IsPerm(Iota(n), n)
  {
    PermFromMultiset(Iota(n), n);
  }

  /** Rearrangements of the identity are exactly the bijections of {0, ..., n-1}. */
  lemma PermIffBijection(p: seq<int>, n: nat)
    ensures IsPerm(p, n) <==> IsBijection(p, n)
  {
    if IsPerm(p, n) {
      forall i, j | 0 <= i < j < n
        ensures p[i] != p[j]
      {
        if p[i] == p[j] {
          CountOfRepeated(p, i, j);
          IotaCount(n, p[i]);
        }
      }
      forall y | 0 <= y < n
        ensures y in p
      {
        IotaCount(n, y);
        assert y in multiset(p);
      }
    }
    if IsBijection(p, n) {
      forall y
        ensures multiset(p)[y] == multiset(Iota(n))[y]
      {
        IotaCount(n, y);
        if 0 <= y < n {
          assert y in p;
          var i :| 0 <= i < |p| && p[i] == y;
          CountOfUnique(p, y, i);
        } else {
          assert y !in p;
        }
      }
      assert multiset(p) == multiset(Iota(n));
    }
  }

  /** The position at which a bijection takes the value `y`. */
  ghost function IndexOf(p: seq<int>, y: int): (i: int)
    requires y in p
    ensures 0 <= i < |p| && p[i] == y
  {
    var i :| 0 <= i < |p| && p[i] == y; i
  }

  /** The inverse relabelling: Inverse(p)[p[i]] == i. */
  ghost function Inverse(p: seq<int>, n: nat): (r: seq<int>)
    requires IsPerm(p, n)
    ensures IsPerm(r, n)
    ensures forall i :: 0 <= i < n ==> r[p[i]] == i && p[r[i]] == i
  {
    PermIffBijection(p, n);
    var r := seq(n, y requires 0 <= y < n => IndexOf(p, y));
    assert forall i :: 0 <= i < n ==> r[p[i]] == i by {
      forall i | 0 <= i < n
        ensures r[p[i]] == i
      {
        var j := IndexOf(p, p[i]);
        assert p[j] == p[i];
      }
    }
    assert IsBijection(r, n) by {
      forall y | 0 <= y < n
        ensures y in r
      {
        assert r[p[y]] == y;
      }
    }
    PermIffBijection(r, n);
    r
  }

  /** Relabelling by `p` and then by `q`: Compose(p, q)[i] == q[p[i]]. */
  ghost function Compose(p: seq<int>, q: seq<int>, n: nat): (r: seq<int>)
    requires IsPerm(p, n) && IsPerm(q, n)
    ensures IsPerm(r, n)
    ensures forall i :: 0 <= i < n ==> r[i] == q[p[i]]
  {
    PermIffBijection(p, n);
    PermIffBijection(q, n);
    var r := seq(n, i requires 0 <= i < n => q[p[i]]);
    assert IsBijection(r, n) by {
      forall y | 0 <= y < n
        ensures y in r
      {
        var a := IndexOf(q, y);
        var b := IndexOf(p, a);
        assert r[b] == y;
      }
    }
    PermIffBijection(r, n);
    r
  }
}
