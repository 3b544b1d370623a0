/** The Graph record (graph_utils.h) and the brute-force isomorphism test
    areGraphsIsomorphic (graph_utils.cpp), with its meaning: the two adjacency
    matrices are equal under some relabelling of the vertices. */
module GraphUtils {
  import opened LexOrder
  import opened Permutations
  import opened StdAlgorithm
  import opened Enumeration

  /** A graph: its vertex count and its adjacency matrix of integer entries
      (0/1 for plain edges, any other value for a weighted edge). */
  datatype Graph = Graph(numVertices: int, adjacencyMatrix: seq<seq<int>>)

  /** Every entry [i][j] with i, j < numVertices exists, so the search can read it. */
  ghost predicate WellFormed(g: Graph) {
    g.numVertices >= 0
    && |g.adjacencyMatrix| >= g.numVertices
    && forall i :: 0 <= i < g.numVertices ==> |g.adjacencyMatrix[i]| >= g.numVertices
  }

  /** Both graphs can be compared entry by entry over the same vertex set. */
  ghost predicate Comparable(g1: Graph, g2: Graph) {
    WellFormed(g1) && WellFormed(g2) && g1.numVertices == g2.numVertices
  }

  /** The relabelling `p` carries g1 onto g2: g1[i][j] == g2[p[i]][p[j]] for every pair. */
  ghost predicate IsIsomorphism(g1: Graph, g2: Graph, p: seq<int>)
    requires Comparable(g1, g2) && |p| == g1.numVertices && InRange(p, g1.numVertices)
  {
    forall i, j :: 0 <= i < g1.numVertices && 0 <= j < g1.numVertices ==>
      g1.adjacencyMatrix[i][j] == g2.adjacencyMatrix[p[i]][p[j]]
  }

  /** The two graphs are isomorphic: some permutation of the vertices carries one onto the other. */
  ghost predicate Isomorphic(g1: Graph, g2: Graph) {
    Comparable(g1, g2)
    && exists p :: IsPerm(p, g1.numVertices) && IsIsomorphism(g1, g2, p)
  }

  /** The nested loops of areGraphsIsomorphic for one candidate `perm`: scan the
      pairs (i, j) in row-major order, clear `match` at the first mismatch and
      leave both loops. The early exits only shorten the scan: `match` ends true
      exactly when no pair mismatches. */
  method CandidateMatches(g1: Graph, g2: Graph, perm: array<int>) returns (matched: bool)
    requires Comparable(g1, g2)
    requires perm.Length == g1.numVertices && InRange(perm[..], g1.numVertices)
    ensures matched <==> IsIsomorphism(g1, g2, perm[..])
  {
    var n := g1.numVertices;
    matched := true;
    var i := 0;
    while i < n
      invariant 0 <= i <= n && matched
      invariant forall a, b :: 0 <= a < i && 0 <= b < n ==>
        g1.adjacencyMatrix[a][b] == g2.adjacencyMatrix[perm[a]][perm[b]]
    {
      var j := 0;
      while j < n
        invariant 0 <= j <= n && matched
        invariant forall b :: 0 <= b < j ==>
          g1.adjacencyMatrix[i][b] == g2.adjacencyMatrix[perm[i]][perm[b]]
      {
        if g1.adjacencyMatrix[i][j] != g2.adjacencyMatrix[perm[i]][perm[j]] {
          matched := false;
          break;
        }
        j := j + 1;
      }
      if !matched {
        assert perm[..][i] == perm[i] && perm[..][j] == perm[j];
        break;
      }
      i := i + 1;
    }
  }

  /** areGraphsIsomorphic: false at once when the vertex counts differ (no entry is
      read, so the matrices need not be well formed then); otherwise run through
      the permutations of the vertices in lexicographic order, starting from the
      identity, and answer true at the first one that carries g1 onto g2, false
      once std::next_permutation has wrapped around. Neither graph changes. */
  method AreGraphsIsomorphic(g1: Graph, g2: Graph) returns (r: bool)
    requires g1.numVertices != g2.numVertices || (WellFormed(g1) && WellFormed(g2))
    ensures g1.numVertices != g2.numVertices ==> !r
    ensures r <==> Isomorphic(g1, g2)
  {
    if g1.numVertices != g2.numVertices {
      return false;
    }
    var n := g1.numVertices;
    var perm := new int[n];
    for i := 0 to n
      invariant forall k :: 0 <= k < i ==> perm[k] == k
    {
      perm[i] := i;
    }
    assert perm[..] == Iota(n);
    IotaIsPerm(n);
    StartAtIdentity(n);
    // the candidates rejected so far, in the order they were tried
    ghost var tried: seq<seq<int>> := [];
    var more := true;
    while more
      invariant IsPerm(perm[..], n)
      invariant forall m :: 0 <= m < |tried| ==> IsPerm(tried[m], n) && !IsIsomorphism(g1, g2, tried[m])
      invariant more ==> TriedBelow(tried, perm[..], n)
      invariant !more ==> TriedAll(tried, n)
      decreases more, Pow(n, n) - Rank(perm[..], n)
    {
      var matched := CandidateMatches(g1, g2, perm);
      if matched {
        return true;
      }
      ghost var prev := perm[..];
      more := NextPermutation(perm);
      PermFromMultiset(perm[..], n);
      if more {
        LexLessRank(prev, perm[..], n);
        AdvanceToSuccessor(tried, prev, perm[..], n);
      } else {
        FinishAtGreatest(tried, prev, n);
      }
      tried := tried + [prev];
    }
    // every permutation of the vertices was tried, and none of them twice
    NoRepeats(tried);
    return false;
  }

  /** The graph `g` with its vertices relabelled by `p`: entry [i][j] is g[p[i]][p[j]]. */
  ghost function Relabelled(g: Graph, p: seq<int>): (h: Graph)
    requires WellFormed(g) && |p| == g.numVertices && InRange(p, g.numVertices)
    ensures WellFormed(h) && h.numVertices == g.numVertices
    ensures forall i, j :: 0 <= i < h.numVertices && 0 <= j < h.numVertices ==>
      h.adjacencyMatrix[i][j] == g.adjacencyMatrix[p[i]][p[j]]
  {
    var n := g.numVertices;
    Graph(n, seq(n, i requires 0 <= i < n => seq(n, j requires 0 <= j < n => g.adjacencyMatrix[p[i]][p[j]])))
  }

  /** Reflexivity: the identity, the first candidate the search tries, carries a
      graph onto itself, so every graph is isomorphic to itself. */
  lemma IsomorphicReflexive(g: Graph)
    requires WellFormed(g)
    ensures IsIsomorphism(g, g, Iota(g.numVertices))
    ensures Isomorphic(g, g)
  {
    IotaIsPerm(g.numVertices);
  }

  /** Two graphs without vertices are isomorphic through the empty permutation. */
  lemma IsomorphicEmpty(g1: Graph, g2: Graph)
    requires g1.numVertices == 0 && g2.numVertices == 0
    ensures Isomorphic(g1, g2)
  {
    IotaIsPerm(0);
    assert IsIsomorphism(g1, g2, Iota(0));
  }

  /** One direction of symmetry: the inverse of an isomorphism from g1 to g2 is one from g2 to g1. */
  lemma InverseIsIsomorphism(g1: Graph, g2: Graph, p: seq<int>)
    requires Comparable(g1, g2) && IsPerm(p, g1.numVertices) && IsIsomorphism(g1, g2, p)
    ensures IsIsomorphism(g2, g1, Inverse(p, g1.numVertices))
  {
    var n := g1.numVertices;
    var r := Inverse(p, n);
    forall a, b | 0 <= a < n && 0 <= b < n
      ensures g2.adjacencyMatrix[a][b] == g1.adjacencyMatrix[r[a]][r[b]]
    {
      assert p[r[a]] == a && p[r[b]] == b;
    }
  }

  /** Symmetry: swapping the two graphs does not change the verdict. */
  lemma IsomorphicSymmetric(g1: Graph, g2: Graph)
    ensures Isomorphic(g1, g2) <==> Isomorphic(g2, g1)
  {
    if Isomorphic(g1, g2) {
      var p :| IsPerm(p, g1.numVertices) && IsIsomorphism(g1, g2, p);
      InverseIsIsomorphism(g1, g2, p);
    }
    if Isomorphic(g2, g1) {
      var p :| IsPerm(p, g2.numVertices) && IsIsomorphism(g2, g1, p);
      InverseIsIsomorphism(g2, g1, p);
    }
  }

  /** Transitivity: relabelling by p and then by q carries g1 onto g3. */
  lemma IsomorphicTransitive(g1: Graph, g2: Graph, g3: Graph)
    requires Isomorphic(g1, g2) && Isomorphic(g2, g3)
    ensures Isomorphic(g1, g3)
  {
    var n := g1.numVertices;
    var p :| IsPerm(p, n) && IsIsomorphism(g1, g2, p);
    var q :| IsPerm(q, n) && IsIsomorphism(g2, g3, q);
    var r := Compose(p, q, n);
    forall i, j | 0 <= i < n && 0 <= j < n
      ensures g1.adjacencyMatrix[i][j] == g3.adjacencyMatrix[r[i]][r[j]]
    {
      assert g2.adjacencyMatrix[p[i]][p[j]] == g3.adjacencyMatrix[q[p[i]]][q[p[j]]];
    }
    assert IsIsomorphism(g1, g3, r);
  }

  /** Relabelling invariance: permuting the rows and columns of a graph yields an
      isomorphic graph, in both argument orders. */
  lemma RelabelledIsomorphic(g: Graph, p: seq<int>)
    requires WellFormed(g) && IsPerm(p, g.numVertices)
    ensures Isomorphic(Relabelled(g, p), g) && Isomorphic(g, Relabelled(g, p))
  {
    var h := Relabelled(g, p);
    assert IsIsomorphism(h, g, p);
    IsomorphicSymmetric(h, g);
  }

}
