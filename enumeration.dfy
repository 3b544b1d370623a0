/** Bookkeeping for the do/while of areGraphsIsomorphic: the candidates tried so
    far, in the order std::next_permutation produces them from the identity. */
module Enumeration {
  import opened LexOrder
  import opened Permutations

  /** Each candidate in `tried` comes strictly after the ones before it, so none repeats. */
  ghost predicate StrictlyIncreasing(tried: seq<seq<int>>) {
    forall m, m' :: 0 <= m < m' < |tried| ==> LexLess(tried[m], tried[m'])
  }

  /** `tried` lists, in increasing order, exactly the permutations below `s`. */
  ghost predicate TriedBelow(tried: seq<seq<int>>, s: seq<int>, n: nat) {
    StrictlyIncreasing(tried)
    && (forall m :: 0 <= m < |tried| ==> IsPerm(tried[m], n) && LexLess(tried[m], s))
    && (forall q :: IsPerm(q, n) && LexLess(q, s) ==> q in tried)
  }

  /** `tried` lists, in increasing order, every permutation of {0, ..., n-1}. */
  ghost predicate TriedAll(tried: seq<seq<int>>, n: nat) {
    StrictlyIncreasing(tried)
    && (forall m :: 0 <= m < |tried| ==> IsPerm(tried[m], n))
    && (forall q :: IsPerm(q, n) ==> q in tried)
  }

  /** The search starts at the identity, and no permutation lies below it. */
  lemma StartAtIdentity(n: nat)
    ensures TriedBelow([], Iota(n), n)
  {
    forall q | IsPerm(q, n)
      ensures !LexLess(q, Iota(n))
    {
      AscendingIsLeast(Iota(n), q);
    }
  }

  /** Moving from `s` to its immediate successor `t` appends `s` to the list. */
  lemma AdvanceToSuccessor(tried: seq<seq<int>>, s: seq<int>, t: seq<int>, n: nat)
    requires IsPerm(s, n) && IsPerm(t, n) && TriedBelow(tried, s, n)
    requires IsSuccessor(s, t)
    ensures TriedBelow(tried + [s], t, n)
  {
    var next := tried + [s];
    forall m, m' | 0 <= m < m' < |next|
      ensures LexLess(next[m], next[m'])
    {
      if m' == |tried| {
        assert next[m] == tried[m];
      }
    }
    forall m | 0 <= m < |next|
      ensures IsPerm(next[m], n) && LexLess(next[m], t)
    {
      if m < |tried| {
        LexTransitive(tried[m], s, t);
      }
    }
    forall q | IsPerm(q, n) && LexLess(q, t)
      ensures q in next
    {
      LexTotal(q, s);
      if LexLess(q, s) {
        assert q in tried;
      }
    }
  }

  /** When std::next_permutation returns false, `s` was the greatest permutation,
      so appending it completes the list. */
  lemma FinishAtGreatest(tried: seq<seq<int>>, s: seq<int>, n: nat)
    requires IsPerm(s, n) && TriedBelow(tried, s, n) && Descending(s)
    ensures TriedAll(tried + [s], n)
  {
    var all := tried + [s];
    forall m, m' | 0 <= m < m' < |all|
      ensures LexLess(all[m], all[m'])
    {
      if m' == |tried| {
        assert all[m] == tried[m];
      }
    }
    forall q | IsPerm(q, n)
      ensures q in all
    {
      AtOrBelowGreatest(s, q);
      if LexLess(q, s) {
        assert q in tried;
      }
    }
  }

  /** A strictly increasing list has no candidate twice. */
  lemma NoRepeats(tried: seq<seq<int>>)
    requires StrictlyIncreasing(tried)
    ensures forall m, m' :: 0 <= m < m' < |tried| ==> tried[m] != tried[m']
  {
    forall m, m' | 0 <= m < m' < |tried|
      ensures tried[m] != tried[m']
    {
      if tried[m] == tried[m'] {
        LexAsymmetric(tried[m], tried[m']);
      }
    }
  }
}
