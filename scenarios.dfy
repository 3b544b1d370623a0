/** Small concrete graphs on three vertices and what the isomorphism test says about them. */
module Scenarios {
  import opened Permutations
  import opened GraphUtils

  /** The path 0 - 1 - 2. */
  function Path(): Graph {
    Graph(3, [[0, 1, 0], [1, 0, 1], [0, 1, 0]])
  }

  /** The path 1 - 0 - 2: the same shape with vertex 0 in the middle. */
  function PathCentredAtZero(): Graph {
    Graph(3, [[0, 1, 1], [1, 0, 0], [1, 0, 0]])
  }

  /** The triangle: every pair of distinct vertices is joined. */
  function Triangle(): Graph {
    Graph(3, [[0, 1, 1], [1, 0, 1], [1, 1, 0]])
  }

  /** Exchanging vertices 0 and 1 turns one path into the other. */
  lemma PathsAreIsomorphic()
    ensures Isomorphic(Path(), PathCentredAtZero())
  {
    var p := [1, 0, 2];
    assert IsPerm(p, 3) by {
      assert IsBijection(p, 3) by {
        assert p[1] == 0 && p[0] == 1 && p[2] == 2;
      }
      PermIffBijection(p, 3);
    }
    var g1, g2 := Path().adjacencyMatrix, PathCentredAtZero().adjacencyMatrix;
    forall i, j | 0 <= i < 3 && 0 <= j < 3
      ensures g1[i][j] == g2[p[i]][p[j]]
    {
    }
    assert IsIsomorphism(Path(), PathCentredAtZero(), p);
  }

  /** A path is not a triangle: vertices 0 and 2 of the path are not joined, while
      any two distinct vertices of the triangle are, and a permutation keeps 0 and 2 apart. */
  lemma PathIsNotTriangle()
    ensures !Isomorphic(Path(), Triangle())
  {
    forall p | IsPerm(p, 3)
      ensures !IsIsomorphism(Path(), Triangle(), p)
    {
      PermIffBijection(p, 3);
      assert Triangle().adjacencyMatrix[p[0]][p[2]] == 1;
    }
  }
}
