# Graph isomorphism by exhaustive permutation search, in Dafny

This project models the decision procedure `areGraphsIsomorphic` of the
Graph-Isomorphism program and proves what it answers. The procedure takes two
`Graph` records, each a vertex count `numVertices` and an integer adjacency
matrix `adjacencyMatrix`. It says whether some relabelling of the vertices makes
the two matrices equal.

The procedure does three things, and the model follows each one:

- It answers `false` at once when the vertex counts differ. No matrix entry is read in that case.
- Otherwise it seeds `perm` with the identity `0, 1, ..., n-1`. It then tests
  `g1[i][j] == g2[perm[i]][perm[j]]` in row-major order, stopping at the first
  mismatch, and answers `true` on the first full match.
- After each failed candidate it moves to the lexicographic successor with
  `std::next_permutation`; it answers `false` when that call wraps around.

The model has six modules:

- `GraphUtils` (graph_utils.dfy) holds the `Graph` datatype, the comparison loops
  (`CandidateMatches`) and the search (`AreGraphsIsomorphic`), an imperative method
  over an `array<int>` permutation. Both are proved against the predicate
  `Isomorphic(g1, g2)`: "some permutation `p` of {0..n-1} has
  `g1[i][j] == g2[p[i]][p[j]]` for all i, j". The algebraic facts about that
  predicate live here too: reflexivity, symmetry, transitivity and relabelling invariance.
- `StdAlgorithm` (std_algorithm.dfy) models `std::next_permutation` as a method on an
  array, with the semantics fixed by ISO C++ [alg.permutation.generators]. Its
  contract: the elements are kept; the result is `true` exactly when the input
  is not non-increasing; the new contents are then the least arrangement
  lexicographically greater than the old; otherwise they are sorted ascending.
  The module also models the `std::reverse` of the suffix that
  `std::next_permutation` performs.
- `LexOrder` (lex_order.dfy) holds the lexicographic order and the facts the
  enumeration rests on. A sorted sequence is the least arrangement of its
  elements, and a non-increasing one the greatest. The swap-and-reverse step gives
  the immediate successor. A base-n rank grows with the order, which proves that
  the do/while terminates.
- `Permutations` (permutations.dfy) defines a permutation of {0..n-1} as a
  rearrangement of the identity, which is what `std::next_permutation` preserves. It proves
  that this is the same as a bijection of {0..n-1}, and builds the inverse and the composite.
- `Enumeration` (enumeration.dfy) is the ghost bookkeeping of the search. The
  candidates tried so far are kept in strictly increasing order, and they are
  exactly the permutations below the current one. When `std::next_permutation`
  returns false, every permutation has been tried, each once.
- `Scenarios` (scenarios.dfy) checks two concrete three-vertex cases: two
  differently drawn paths are isomorphic, and a path is not a triangle.

Where the design description and the code differ, the model follows the code.
The design describes a strict 0/1 symmetric policy and a vertex count greater
than zero. The code compares arbitrary `int` entries by equality, accepts any
non-negative weight on input (main.cpp), and starts a `Graph` at zero
vertices. So entries are unconstrained `int`s here, and zero-vertex graphs are
isomorphic. The design calls mismatched matrix dimensions undefined. The code
reads only entries `[i][j]` with `i, j < numVertices`, so the model requires
exactly that much of each matrix, and only when the counts are equal.

## Model

| member | source | states |
|---|---|---|
| `GraphUtils.AreGraphsIsomorphic` | graph_utils.cpp:5-28 | the result is false whenever the vertex counts differ (and then the matrices need not be well formed); otherwise it is true exactly when some permutation p of the vertices has g1[i][j] == g2[p[i]][p[j]] for all i, j (soundness and completeness); the loop invariant keeps perm a permutation and every lexicographically smaller permutation already tried and rejected |
| `GraphUtils.CandidateMatches` | graph_utils.cpp:13-22 | the row-major scan with its two early exits ends with the flag true exactly when no pair (i, j) mismatches under perm |
| `StdAlgorithm.NextPermutation` | graph_utils.cpp:25 | next_permutation keeps the multiset of elements; returns true exactly when the input is not non-increasing, and then the new contents are lexicographically greater than the old and no arrangement of the same elements lies strictly between; when it returns false the contents are sorted ascending |
| `StdAlgorithm.LastAscent` | graph_utils.cpp:25 | the first scan of next_permutation finds the last ascent a[k] < a[k+1], or -1; everything after it is non-increasing, and -1 comes back exactly when the whole array is non-increasing |
| `StdAlgorithm.LastAbove` | graph_utils.cpp:25 | the second scan finds the last position after the pivot holding a larger element; everything after it is at most the pivot |
| `StdAlgorithm.LastAscentDecides` | graph_utils.cpp:25 | with a non-increasing tail after k, the sequence is non-increasing exactly when there is no ascent at k |
| `StdAlgorithm.SwapAndReverse` | graph_utils.cpp:25 | the swap of pivot and partner followed by the reversal of the tail leaves the array holding the advanced arrangement |
| `StdAlgorithm.WrapAround` | graph_utils.cpp:25-27 | reversing a non-increasing sequence, as next_permutation does before returning false, gives the same elements sorted ascending |
| `StdAlgorithm.ReverseSuffix` | graph_utils.cpp:25 | the reverse step inside next_permutation leaves the prefix alone, reverses the suffix and keeps the elements |
| `StdAlgorithm.AdvancedIsSuccessor` | graph_utils.cpp:25 | swapping the last ascent with the last larger element after it and reversing the tail gives a strictly greater arrangement of the same elements with nothing in between |
| `StdAlgorithm.SwapKeepsDescending` | graph_utils.cpp:25 | the swap keeps the tail after the pivot non-increasing, so the reversal sorts it |
| `StdAlgorithm.Reversed` | graph_utils.cpp:25 | the reversed sequence has the same length and holds element len-1-i at position i |
| `StdAlgorithm.ReversedMultiset` | graph_utils.cpp:25 | reversing keeps the elements |
| `LexOrder.SuccessorIsLeast` | graph_utils.cpp:25 | with s[k+1..] non-increasing, s[l] the last element above s[k], and t equal to s before k, s[l] at k and ascending after, every arrangement above s is at or above t |
| `LexOrder.AscendingIsLeast` | graph_utils.cpp:9-10 | a sorted sequence, such as the identity the search is seeded with, has no arrangement of its elements below it |
| `LexOrder.DescendingIsGreatest` | graph_utils.cpp:25-27 | a non-increasing sequence, the one at which next_permutation returns false, has no arrangement of its elements above it |
| `LexOrder.AtOrBelowGreatest` | graph_utils.cpp:25-27 | every arrangement of a non-increasing sequence is that sequence or lexicographically below it |
| `LexOrder.LexTotal` | graph_utils.cpp:25 | two sequences of equal length are equal or ordered one way or the other |
| `LexOrder.LexTransitive` | graph_utils.cpp:25 | the lexicographic order is transitive |
| `LexOrder.LexAsymmetric` | graph_utils.cpp:25 | the lexicographic order never holds both ways |
| `LexOrder.LexLessRank` | graph_utils.cpp:12-25 | a lexicographically greater permutation has a strictly larger base-n rank, below n^n, so the do/while ends |
| `LexOrder.RankBound` | graph_utils.cpp:12-25 | a sequence of n digits in base b has rank in [0, b^n) |
| `Permutations.IotaIsPerm` | graph_utils.cpp:9-10 | the identity the search starts from is a permutation of {0..n-1} |
| `Permutations.PermIffBijection` | graph_utils.cpp:9-10 | a rearrangement of the identity is exactly a bijection of {0..n-1}: in range, one-to-one and onto |
| `Permutations.PermFromMultiset` | graph_utils.cpp:25 | anything with the elements of the identity, as next_permutation leaves perm, is a permutation with entries in range |
| `Permutations.IotaCount` | graph_utils.cpp:9-10 | each label below n occurs once in the identity and nothing else occurs |
| `Permutations.Inverse` | graph_utils.cpp:5-28 | every permutation has an inverse permutation r with r[p[i]] == i and p[r[i]] == i |
| `Permutations.Compose` | graph_utils.cpp:5-28 | relabelling by p then by q is the permutation i mapped to q[p[i]] |
| `Enumeration.StartAtIdentity` | graph_utils.cpp:9-10 | before the first candidate nothing has been tried and no permutation lies below the identity |
| `Enumeration.AdvanceToSuccessor` | graph_utils.cpp:25 | after a successful next_permutation the tried list, extended by the rejected candidate, is still strictly increasing and is exactly the permutations below the new one |
| `Enumeration.FinishAtGreatest` | graph_utils.cpp:25-27 | when next_permutation returns false, the tried list holds every permutation |
| `Enumeration.NoRepeats` | graph_utils.cpp:12-25 | no permutation is tried twice |
| `GraphUtils.IsomorphicReflexive` | graph_utils.cpp:9-23 | the identity, tried first, carries a graph onto itself, so a graph is isomorphic to itself |
| `GraphUtils.IsomorphicEmpty` | graph_utils.cpp:8-23 | two graphs with zero vertices are isomorphic (the comparison loops do not run) |
| `GraphUtils.InverseIsIsomorphism` | graph_utils.cpp:5-28 | the inverse of a permutation carrying g1 onto g2 carries g2 onto g1 |
| `GraphUtils.IsomorphicSymmetric` | graph_utils.cpp:5-28 | the verdict does not change when the two graphs are swapped |
| `GraphUtils.IsomorphicTransitive` | graph_utils.cpp:5-28 | isomorphism composes: g1 to g2 and g2 to g3 give g1 to g3 |
| `GraphUtils.RelabelledIsomorphic` | graph_utils.cpp:5-28 | permuting a graph's rows and columns by a permutation gives a graph isomorphic to it, in both orders |
| `Scenarios.PathsAreIsomorphic` | graph_utils.cpp:5-28 | the path 0-1-2 and the path 1-0-2 are isomorphic |
| `Scenarios.PathIsNotTriangle` | graph_utils.cpp:5-28 | the three-vertex path is not isomorphic to the triangle |

## Left out

- main.cpp as a whole: the FLTK window, buttons, the circular drawing with floating-point `cos`/`sin`, and the callbacks on the global graphs and text buffer. These are user-interface code, with no effect on the verdict.
- `InputDialog::createGraph` (main.cpp): it reads cells from input widgets through `std::stoi` and reports errors into a text buffer. It is UI-bound, not a self-contained parser. No loader from a text source exists in the modelled files, so none is modelled, and no 0/1 or symmetry validation either.
- The 10-vertex cap of the vertex spinner, the running time (n! times n squared comparisons) and any console output: they do not affect the verdict.
- `GraphUtils.AreGraphsIsomorphic`: when the counts are equal but negative, the C++ constructor `std::vector<int> perm(n)` throws. The model requires a non-negative count in that case and does not model the exception.
- `GraphUtils.AreGraphsIsomorphic`: the result is a `bool`, as in the source. Which witness is found, and the final contents of the local `perm`, are not exposed in the contract. The loop invariant does imply that the witness found is the lexicographically least one.
- `StdAlgorithm.NextPermutation` is modelled over a whole `array<int>`, the only way the source calls it. Iterator ranges inside a larger container and comparators other than `<` are not modelled.
