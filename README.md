# DAA-LAB in Dafny

A model of the algorithms of the DAA-LAB collection (design and analysis of
algorithms exercises), with the properties those programs promise proved
about the model.

- **Red-black trees** (`rbt_insert.py`, `rbt_delete.py`, the tree half of
  `rbt_vs_binomial.py`). The three files share one algorithm. It is modelled
  once, as a class that owns a list of node records addressed by index. Index 0
  is the shared black sentinel `TNULL`, and the parent index `-1` stands for
  Python's `None`. Rotations, insertion with its fix-up, transplant, minimum,
  deletion with its fix-up, search and the in-order walk are methods. Each
  keeps the red-black invariants (a BST over the keys, a red node has black
  children, every path has the same black height, a black root) on a ghost
  tree that mirrors the records. Each also states the key sequence it leaves
  behind: insertion adds the key in sorted position, deletion removes one
  occurrence.
- **Binomial heaps** (`binomial_heap_advanced.py`, `binomial_heap.py`, the
  heap half of `rbt_vs_binomial.py`). The three are the same algorithm,
  modelled once. Trees are values and the heap is a class holding its root
  list. Merging root lists, union, insert, get-min, extract-min and
  decrease-key are proved to keep the binomial-tree shape, the heap order and
  the strictly increasing degrees of the roots. Each also states the multiset
  of keys it leaves.
- **Amortized structures** (`dynamic_table.py`, `amortized_stack.py`). These
  are classes over a fixed-size array that doubles when full and halves when
  sparse. The model counts element movements and proves the contents are kept
  across resizes.
- **Sorting, selection and search** (`quicksort_comparison.py`,
  `randomized_select.py`, `recursive_complexity.py`,
  `time_complexity_basic.py`, `proof_techniques.py`,
  `montecarlo_vs_lasvegas.py`).
  - Sorts are proved to return the sorted permutation of the input.
  - Quickselect returns the element of the requested rank.
  - The searches find the key exactly when it is present.
  - The Fermat test answers "composite" only for composites; this rests on a
    proof of Fermat's little theorem.
  - Random choices (pivots, witnesses) are nondeterministic choices or
    parameters, so every property holds for every choice.
- **Reductions and geometry** (`sat_to_clique.py`, `subset_sum_partition.py`,
  `vertex_cover.py`, `line_segment_intersection.py`). The models cover:
  - parsing and rendering of 3-SAT formulas and the clique graph;
  - subset-sum backtracking against a declarative definition;
  - brute-force and 2-approximate vertex covers;
  - orientation-based segment intersection.
- **Graphs** (`ford_fulkerson.py`, `bipartite_matching_flow.py`,
  `push_relabel.py`, `poly_vs_nphard.py`, `tsp_bruteforce_dp.py`).
  - Ford–Fulkerson (DFS) and Edmonds–Karp (BFS) are classes over a residual
    capacity matrix. Both prove that:
    - every augmentation keeps capacities non-negative and the pairwise sums
      `c[u][v] + c[v][u]` unchanged;
    - the flow that leaves the source is the flow that reaches the sink;
    - no augmenting path remains at the end.
  - Bipartite matching builds its network and bounds the matching by both
    sides.
  - Push–relabel keeps a preflow and ends with the source's outflow equal to
    what the other vertices hold.
  - Dijkstra's distances are proved to be lower bounds on the weight of every
    walk, and each finite one is achieved by a walk.
  - TSP brute force and Held–Karp are both proved to return the optimal tour
    cost, and so to agree.

Python integers are unbounded, like Dafny's `int`. Python's
`float('inf')` is modelled explicitly: `Extended` is an integer or
infinity. Input, printing and timing are not modelled (see below).

## Model

| member | source | states |
|---|---|---|
| TimeComplexityBasic.LinearSearch | time_complexity_basic.py:7-11 | returns -1 exactly when `key` is absent, otherwise the first index holding `key` |
| TimeComplexityBasic.BinarySearch | time_complexity_basic.py:17-27 | any index returned holds `key`, whatever the order; on a sorted list -1 is returned exactly when `key` is absent |
| TimeComplexityBasic.SumRecursive | time_complexity_basic.py:43-46 | the recursive sum is Gauss's sum: `2 * r == n * (n + 1)` |
| TimeComplexityBasic.SumIterative | time_complexity_basic.py:33-37 | the loop agrees with the recursive sum (and Gauss's formula) for `n >= 0` and gives 0 for an empty range |
| ProofTechniques.Factorial | proof_techniques.py:4-7 | `n!` is at least 1 and at least `n` |
| ProofTechniques.FactorialDivisible | proof_techniques.py:4-7 | every `k` in `1..n` divides `n!` |
| ProofTechniques.Cofactor | proof_techniques.py:4-7 | `n!` is `k` times some cofactor for every `1 <= k <= n` |
| ProofTechniques.Fibonacci | proof_techniques.py:12-15 | `fibonacci(n)` is non-negative for `n >= 0` and positive for `n >= 1` |
| ProofTechniques.FibonacciSumIdentity | proof_techniques.py:12-15 | the first `n + 1` Fibonacci numbers sum to `F(n + 2) - 1` |
| ProofTechniques.FibonacciMonotone | proof_techniques.py:12-15 | the Fibonacci numbers never decrease from `F(1)` on |
| LineSegments.Orientation | line_segment_intersection.py:10-14 | the result is 0, 1 or 2, and 0 exactly for a zero cross product, 1 exactly for a positive one |
| LineSegments.OrientationSwap | line_segment_intersection.py:10-14 | swapping the last two points exchanges clockwise and counter-clockwise and keeps collinear |
| LineSegments.OrientationRotate | line_segment_intersection.py:10-14 | a cyclic rotation of the triple keeps its orientation |
| LineSegments.OnSegment | line_segment_intersection.py:17-19 | `q` passes the box test exactly when each of its coordinates lies between those of `p` and `r`, in either order |
| LineSegments.OnSegmentEnds | line_segment_intersection.py:17-19 | the bounding-box test is symmetric in the two ends, and each end passes it |
| LineSegments.IntersectSymmetric | line_segment_intersection.py:24-44 | the intersection test gives the same answer with the two segments exchanged |
| LineSegments.SegmentsIntersect | line_segment_intersection.py:24-44 | two segments that share an end point are reported as intersecting, through one of the collinear special cases |
| LineSegments.CheckAllIntersections | line_segment_intersection.py:61-71 | the result holds exactly the pairs `i < j` whose segments intersect, in strictly increasing lexicographic order |
| RandomizedSelect.CountPermutation | randomized_select.py:19-30 | rank counts depend only on the multiset, so rearranging a range keeps every element's rank |
| RandomizedSelect.RankUnique | randomized_select.py:19-30 | the element of a given rank (the k-th smallest) is unique |
| RandomizedSelect.RankAcrossPivot | randomized_select.py:25-30 | in a partitioned range the pivot has the rank of its position, and a rank left or right of it is a rank in that side (shifted) |
| RandomizedSelect.Swap | randomized_select.py:11 | exchanges two cells, keeps all others and the multiset |
| RandomizedSelect.Partition | randomized_select.py:6-14 | returns `p` in `[low, high]` holding the old `arr[high]`, nothing greater before it, only greater after it, and only `[low, high]` rearranged |
| RandomizedSelect.PartitionDone | randomized_select.py:13-14 | the final pivot swap leaves a partition of a rearranged range |
| RandomizedSelect.Descend | randomized_select.py:27-30 | the element of rank `k` found on one side of the pivot has rank `k - low` in the whole range |
| RandomizedSelect.AtPivot | randomized_select.py:25-26 | when the pivot lands on `k` it has rank `k - low` in the original range |
| RandomizedSelect.QuickSelect | randomized_select.py:19-30 | returns the element of rank `k - low` of the original `arr[low..high]`, leaves it at index `k`, and only rearranges that range |
| RandomizedSelect.RandomizedPartition | randomized_select.py:35-38 | whatever index is drawn, the pivot is an element of the range, the range is partitioned at `p` and only rearranged |
| RandomizedSelect.RandomizedSelect | randomized_select.py:43-54 | the same promise as `QuickSelect`, whatever pivots are drawn |
| RandomizedSelect.SelectBoth | randomized_select.py:59-70 | both selections on copies of one list return the same element, the one of rank `k` |
| RecursiveComplexity.Merged | recursive_complexity.py:19-33 | the merge is exactly as long as the two lists together |
| RecursiveComplexity.MergedPermutes | recursive_complexity.py:19-33 | a merge keeps every element of both lists and adds none |
| RecursiveComplexity.MergedSorted | recursive_complexity.py:19-33 | merging two sorted lists gives a sorted list |
| RecursiveComplexity.Merge | recursive_complexity.py:19-33 | the loop (smaller head first, `L`'s on a tie, then both leftovers) computes the merge |
| RecursiveComplexity.MergedStep | recursive_complexity.py:23-29 | each turn of the loop appends the next element of the merge |
| RecursiveComplexity.MergedLeftover | recursive_complexity.py:31-32 | once one list is used up, the rest of the other completes the merge |
| RecursiveComplexity.MergeSort | recursive_complexity.py:9-17 | the result is sorted and a permutation of the input; lists of at most one element come back unchanged |
| RecursiveComplexity.QuickSort | recursive_complexity.py:40-49 | the result is sorted and a permutation of the input |
| RecursiveComplexity.ThreeWayShorter | recursive_complexity.py:44-49 | the parts below and above a pivot taken from the list are shorter than the list, so the recursion ends |
| RecursiveComplexity.ThreeWayJoin | recursive_complexity.py:45-49 | sorted permutations of the lower and upper parts around the equal part form a sorted permutation of the list |
| RecursiveComplexity.SortsAgree | recursive_complexity.py:9-49 | merge sort and quick sort return the same list |
| RecursiveComplexity.Node.constructor | recursive_complexity.py:58-62 | a new node holds `key` and has no children |
| RecursiveComplexity.ValidSorted | recursive_complexity.py:64-71 | the in-order walk of a search tree built by `bst_insert` is sorted |
| RecursiveComplexity.BstInsert | recursive_complexity.py:64-71 | an empty tree becomes one fresh node; otherwise the same root is returned and its in-order walk gains `key` after every key not greater than it |
| RecursiveComplexity.InsertLeft | recursive_complexity.py:67-68 | a key below the root's goes into the left subtree and lands before the root in the walk |
| RecursiveComplexity.InsertRight | recursive_complexity.py:69-70 | a key not below the root's (equal keys included) goes into the right subtree |
| RecursiveComplexity.InsertBefore | recursive_complexity.py:67-68 | inserting a key below the node's key only changes the left part of the walk |
| RecursiveComplexity.InsertAfter | recursive_complexity.py:69-70 | inserting a key not below the node's key only changes the right part of the walk |
| SubsetSumPartition.SubsetSumFrom | subset_sum_partition.py:4-24 | a result is `current` extended by a subsequence of `nums[index..]` that adds up to `target`; on failure `current` is restored; for non-negative numbers failure means no such subsequence exists |
| SubsetSumPartition.SubsetSum | subset_sum_partition.py:4-24 | target 0 gives the empty list; a result is a subsequence of `nums` with sum `target`; for non-negative numbers `None` exactly when no subsequence has that sum |
| SubsetSumPartition.SubsequenceSumNonNegative | subset_sum_partition.py:13 | with non-negative numbers every subsequence has a non-negative sum, so the `target < 0` cut loses nothing |
| SubsetSumPartition.CanPartition | subset_sum_partition.py:31-40 | an odd total gives `(False, None)`; success returns a subsequence holding half the total; a zero total is reported as not partitionable; for non-negative numbers with a non-zero total, success exactly when some subsequence adds up to half the total |
| SubsetSumPartition.ZeroTotalSplits | subset_sum_partition.py:36-40 | a list with total 0 always splits: the empty subset has half the total |
| SubsetSumPartition.CanPartitionIntended | subset_sum_partition.py:31-40 | with `result is not None`: for non-negative numbers success exactly when some subsequence adds up to half the total |
| Combinations.Combinations | vertex_cover.py:20 | there are `n` choose `r` combinations of `n` keys, each with `r` elements |
| Combinations.CombinationsSound | vertex_cover.py:20 | every combination of size `r` is a subsequence of the keys with `r` elements |
| Combinations.CombinationsComplete | vertex_cover.py:20 | every subsequence of size `r` is among the combinations |
| Combinations.SubsetIsCombination | vertex_cover.py:20 | every subset of repetition-free keys is, as a set, one of the combinations of its size |
| VertexCover.Nodes | vertex_cover.py:16 | the keys in dict order |
| VertexCover.CheckVertexCover | vertex_cover.py:7-13 | the loops answer true exactly when every adjacency `u -> v` has `u` or `v` in the cover |
| VertexCover.CoverMonotone | vertex_cover.py:7-13 | a superset of a cover is a cover, and the set of all keys is one |
| VertexCover.FirstCover | vertex_cover.py:20-22 | the first candidate that covers, or none exactly when no candidate covers |
| VertexCover.CoverFrom | vertex_cover.py:19-23 | whatever the size loop returns is a cover drawn from the keys, found at a size no larger than the number of keys |
| VertexCover.BruteForceVertexCover | vertex_cover.py:15-23 | whatever `brute_force_vertex_cover` returns is a cover drawn from the keys, and a graph without vertices gives none |
| VertexCover.CoverFromMinimal | vertex_cover.py:19-23 | searching sizes from `r` up returns a smallest key cover, and none only when there are too few keys |
| VertexCover.BruteForceMinimal | vertex_cover.py:15-23 | the result is a smallest cover among the non-empty sets of keys, and `None` only for a graph without vertices |
| VertexCover.EdgelessGraphOverCovered | vertex_cover.py:19 | a single vertex without edges gets the cover `{0}` although the empty set covers |
| VertexCover.BruteForceIntendedMinimal | vertex_cover.py:19-23 | with sizes from 0 up, the search always returns a smallest cover drawn from the keys |
| VertexCover.EdgeListMembers | vertex_cover.py:34-36 | the collected edges are exactly the adjacencies `u -> v` of the dict |
| VertexCover.CoverByEdges | vertex_cover.py:34-36 | a set covers the graph exactly when it covers every collected edge |
| VertexCover.MatchingLowerBound | vertex_cover.py:40-45 | any cover has at least as many vertices as a matching has edges |
| VertexCover.CollectEdges | vertex_cover.py:31-36 | the first loops collect every adjacency `(u, v)` in the order of the keys and of their lists |
| VertexCover.MatchingCover | vertex_cover.py:38-47 | the ends of pairwise disjoint edges that touch every edge form a cover made of edge ends, at most twice as large as any cover |
| VertexCover.ApproxVertexCover | vertex_cover.py:29-47 | the result is a cover made of edge ends and at most twice as large as any cover |
| PythonStrings.DropFirst | sat_to_clique.py:10 | `s[1:]` puts back the first character to give `s`, and is empty for the empty string |
| PythonStrings.DropLast | sat_to_clique.py:11 | `s[:-1]` plus the last character gives `s`, and is empty for the empty string |
| PythonStrings.RemoveSpaces | sat_to_clique.py:8 | the result has no spaces and only characters of `s`, and a string without spaces is unchanged |
| PythonStrings.Split | sat_to_clique.py:9 | a split always has at least one piece |
| PythonStrings.JoinSplit | sat_to_clique.py:9 | joining the pieces of a split with the separator gives back the string |
| PythonStrings.SplitPiecesFree | sat_to_clique.py:9 | no piece of a split contains the separator |
| PythonStrings.SplitJoin | sat_to_clique.py:9 | splitting a join gives back the pieces when they do not hold the separator |
| SatToClique.ClauseTexts | sat_to_clique.py:8-11 | one clause text per piece of the split on `")AND("` |
| SatToClique.ParseThreeSat | sat_to_clique.py:7-17 | the loop builds each clause text split on `"OR"` |
| SatToClique.ParseRender | sat_to_clique.py:7-17 | a clause list written as `(l OR l OR l)AND(...)` parses back to itself |
| SatToClique.LiteralsRoundTrip | sat_to_clique.py:15 | a clause's text splits on `"OR"` into its literals |
| SatToClique.Contradicts | sat_to_clique.py:23-28 | true exactly when one literal is the other with `~` in front |
| SatToClique.ContradictsProperties | sat_to_clique.py:23-28 | the test is symmetric and no literal contradicts itself |
| SatToClique.NumberLiterals | sat_to_clique.py:40-46 | one vertex per literal occurrence, numbered from 0 in clause order, no edges yet, and the vertex numbers of each clause |
| SatToClique.BuildGraph | sat_to_clique.py:34-59 | the graph has one vertex per literal occurrence and edges exactly between vertices of different clauses whose literals do not contradict; `k` is the clause count |
| SatToClique.LinkClauses | sat_to_clique.py:50-57 | each literal of `c1` is paired with each literal of `c2` |
| SatToClique.LinkLiteral | sat_to_clique.py:51-57 | literal `a` of `c1` is paired with each literal of `c2` and joined both ways when they do not contradict |
| SatToClique.LinkStep | sat_to_clique.py:52-57 | one pair becomes visited and is joined in both directions exactly when compatible |
| SatToClique.AllVisited | sat_to_clique.py:49-59 | after the last pair of clauses the graph is exactly the compatibility graph |
| SatToClique.BuiltSymmetric | sat_to_clique.py:55-57 | the built graph's adjacency is symmetric and has no self-loops |
| SatToClique.IsClique | sat_to_clique.py:65-69 | true exactly when each listed vertex is adjacent to every later one |
| SatToClique.FirstClique | sat_to_clique.py:72-75 | the first candidate that is a clique, or none exactly when no candidate is |
| SatToClique.CandidateShape | sat_to_clique.py:72 | every candidate is `k` distinct vertex numbers |
| SatToClique.FindKClique | sat_to_clique.py:71-75 | a result is `k` distinct vertex numbers that pass `is_clique`; `None` only when no `k`-combination of the vertices is a clique |
| SatToClique.FindKCliqueCorrect | sat_to_clique.py:71-75 | on a built graph the search succeeds exactly when some `k` vertices are pairwise adjacent, and what it returns is such a set |
| SatToClique.CliqueAcrossClauses | sat_to_clique.py:55-57 | the vertices of a clique lie in pairwise different clauses and carry pairwise non-contradicting literals |
| QuicksortComparison.QuicksortDet | quicksort_comparison.py:7-13 | the result is sorted and a permutation of the input |
| QuicksortComparison.SplitShorter | quicksort_comparison.py:11-12 | both sides of the split are no longer than the rest of the list, so the recursion ends |
| QuicksortComparison.PivotJoin | quicksort_comparison.py:11-13 | sorted permutations of both sides around the pivot form a sorted permutation of the pivot and the rest |
| QuicksortComparison.QuicksortRand | quicksort_comparison.py:18-26 | whatever pivots are drawn, the result is sorted, a permutation of the input, and equal to the deterministic sort's result |
| QuicksortComparison.AgreesWithThreeWay | quicksort_comparison.py:7-13 | the first-element-pivot quick sort returns the same list as the three-way quick sort of recursive_complexity.py |
| MontecarloVsLasvegas.BinomialTheorem | montecarlo_vs_lasvegas.py:16 | `(a + 1)^n` is the sum of `C(n, j) * a^j` |
| MontecarloVsLasvegas.PrimeDividesBinom | montecarlo_vs_lasvegas.py:16 | a prime `p` divides `C(p, k)` for `0 < k < p` |
| MontecarloVsLasvegas.FermatPower | montecarlo_vs_lasvegas.py:16 | for a prime `p`, `a^p - a` is a multiple of `p` |
| MontecarloVsLasvegas.FermatLittle | montecarlo_vs_lasvegas.py:16 | for a prime `p` and `0 < a < p`, `a^(p-1) mod p == 1` |
| MontecarloVsLasvegas.FermatWitness | montecarlo_vs_lasvegas.py:16-17 | a prime `n` has `pow(a, n - 1, n) == 1` for every `0 < a < n`, so a failing witness proves `n` composite |
| MontecarloVsLasvegas.PowMod | montecarlo_vs_lasvegas.py:16 | `pow(a, e, n)` lies in `[0, n)` |
| MontecarloVsLasvegas.FermatTest | montecarlo_vs_lasvegas.py:7-19 | `n <= 1` gives False and `n == 2` True; `randint(2, n - 2)` raises exactly when `n == 3` and a round runs; False for `n > 2` comes with a witness and proves `n` composite; every prime other than 3 gets True |
| MontecarloVsLasvegas.LasVegasSort | montecarlo_vs_lasvegas.py:25-35 | whatever pivots are drawn, the result is sorted and a permutation of the input |
| AmortizedTable.DoublePowerOfTwo | dynamic_table.py:24-25 | doubling keeps the capacity a power of two |
| AmortizedTable.DynamicTable.constructor | dynamic_table.py:10-13 | an empty table of capacity 2 with no movements |
| AmortizedTable.DynamicTable.Resize | dynamic_table.py:15-21 | a fresh list of `new_cap` empty slots holds the same live elements, and `movements` grows by exactly `size` |
| AmortizedTable.DynamicTable.Insert | dynamic_table.py:23-29 | the live elements gain `value` at the end; a full table doubles its capacity first (with `size` movements), otherwise the list and the count stay |
| AmortizedTable.DynamicTable.Delete | dynamic_table.py:31-44 | an empty table returns `None` and changes nothing; otherwise the last live element is removed and returned, and the capacity halves exactly when the new size is positive and at most half of it |
| AmortizedStack.DynamicStack.constructor | amortized_stack.py:8-10 | an empty stack of capacity 2 |
| AmortizedStack.DynamicStack.Resize | amortized_stack.py:12-17 | a fresh list of `new_cap` empty slots holds the same live values |
| AmortizedStack.DynamicStack.Push | amortized_stack.py:19-25 | the value goes on top; a full stack doubles its capacity first, otherwise the list stays |
| AmortizedStack.DynamicStack.Pop | amortized_stack.py:27-40 | an empty stack returns `None` and changes nothing; otherwise the top value is removed and returned, and the capacity halves exactly when the new size is positive and a quarter of it |
| BinomialTrees.RootIsMin | binomial_heap_advanced.py:23-30 | the root of a heap-ordered tree holds its least key |
| BinomialTrees.MergeTree | binomial_heap_advanced.py:23-30 | the linked tree holds the keys of both; its root key is the smaller one (`t1` on a tie); two binomial trees of one degree give a binomial tree one degree higher |
| BinomialTrees.ChildrenHeap | binomial_heap_advanced.py:147-158 | a binomial tree's children, reversed, are a valid root list (increasing degrees) holding every key but the root's |
| BinomialTrees.ListKeysReverse | binomial_heap_advanced.py:150-155 | reversing a sibling chain keeps its keys |
| BinomialPaths.Find | binomial_heap_advanced.py:188-198 | a node found holds `key`; none is found exactly when `key` is nowhere in the chain |
| BinomialPaths.Search | rbt_vs_binomial.py:207-212 | true exactly when `key` is in some tree reachable by child and sibling links |
| BinomialPaths.SetKey | binomial_heap_advanced.py:177 | the node at the path gets the new key, and the root degrees stay |
| BinomialPaths.SetKeyKeys | binomial_heap_advanced.py:177 | one occurrence of the old key becomes the new key |
| BinomialPaths.SwapUp | binomial_heap_advanced.py:181 | swaps the node's key with its parent's, keeping the paths and root degrees |
| BinomialPaths.SwapUpKeys | binomial_heap_advanced.py:181 | the swap keeps the chain's keys |
| BinomialPaths.SetKeyHole | binomial_heap_advanced.py:177 | lowering a key leaves heap order broken at most between that node and its parent |
| BinomialPaths.SwapUpHole | binomial_heap_advanced.py:180-183 | a swap across the break moves it up to the parent |
| BinomialPaths.HoleClosed | binomial_heap_advanced.py:180 | when the loop stops (no parent, or the parent's key is not larger) the chain is heap-ordered |
| BinomialHeaps.InterleaveRoots | binomial_heap_advanced.py:35-67 | the merged list holds every root of both lists exactly as often as they do |
| BinomialHeaps.InterleaveKeys | binomial_heap_advanced.py:35-67 | the merged list holds the keys of both lists |
| BinomialHeaps.InterleaveSorted | binomial_heap_advanced.py:42-65 | merging degree-sorted lists gives a degree-sorted list |
| BinomialHeaps.InterleaveAtMostTwice | binomial_heap_advanced.py:35-67 | merging two valid heaps' root lists has each degree at most twice |
| BinomialHeaps.MergeRootLists | binomial_heap_advanced.py:35-67 | an empty list gives the other one back; otherwise the loops build the merge by degree, taking `h1`'s root on a tie, then the leftovers |
| BinomialHeaps.InterleaveStep | binomial_heap_advanced.py:42-55 | each turn of the first loop appends the next root of the merge |
| BinomialHeaps.LeftoverStep | binomial_heap_advanced.py:57-65 | the last two loops copy the leftover roots in order |
| BinomialHeaps.UnionStart | binomial_heap_advanced.py:73-80 | the merged list of two valid heaps satisfies the union loop's invariant |
| BinomialHeaps.UnionAdvance | binomial_heap_advanced.py:83-86 | moving on (different degrees, or three of one degree) keeps the invariant |
| BinomialHeaps.UnionLink | binomial_heap_advanced.py:87-97 | linking two neighbouring roots of one degree, the smaller key on top, keeps the invariant |
| BinomialHeaps.UnionEnd | binomial_heap_advanced.py:82-100 | when the walk ends the root list has strictly increasing degrees of binomial trees |
| BinomialHeaps.UnionStepKeys | binomial_heap_advanced.py:82-98 | each step of the walk keeps all keys |
| BinomialHeaps.LinkRoots | binomial_heap_advanced.py:78-100 | the walk keeps the keys, and from a merged list of two valid heaps it leaves a valid heap |
| BinomialHeaps.BinomialHeap.constructor | binomial_heap_advanced.py:17-18 | a new heap is empty |
| BinomialHeaps.BinomialHeap.Union | binomial_heap_advanced.py:72-100 | the heap holds the keys of both heaps; two valid heaps give a valid heap; two empty heaps leave it empty |
| BinomialHeaps.BinomialHeap.Insert | binomial_heap_advanced.py:105-108 | adds exactly one copy of `key` and keeps a valid heap valid |
| BinomialHeaps.BinomialHeap.GetMinNode | binomial_heap_advanced.py:113-129 | both `None` on an empty heap; otherwise the first root of least key (strict `<`) and the root before it, `None` for the head |
| BinomialHeaps.BinomialHeap.ExtractMin | binomial_heap_advanced.py:134-162 | `None` on an empty heap with nothing changed; otherwise one copy of the least key is removed and returned and a valid heap stays valid |
| BinomialHeaps.BinomialHeap.DecreaseKey | binomial_heap_advanced.py:167-183 | a larger new key or an absent old key changes nothing; otherwise one occurrence of the old key becomes the new key and a valid heap stays valid |
| BinomialHeaps.SiftUp | binomial_heap_advanced.py:180-183 | the swap loop keeps the keys and root degrees, and restores heap order when the node was the only place it failed |
| BinomialHeaps.ReverseChildren | binomial_heap_advanced.py:148-155 | the loop reverses the child chain |
| BinomialHeaps.ExtractParts | binomial_heap_advanced.py:139-160 | unlinking a root and reversing its children keeps every key but one copy of that root's, and both parts are valid heaps when the heap was |
| BinomialHeaps.RootsAbove | binomial_heap_advanced.py:113-129 | in a valid heap the least root key is the least key of the heap |
| BinomialHeaps.RemoveKeepsValid | binomial_heap_advanced.py:142-145 | unlinking a root keeps a heap valid |
| BinomialHeaps.SameDegrees | binomial_heap_advanced.py:177-183 | key changes that keep shape and heap order keep a heap valid |
| RbTrees.RotKeys | rbt_insert.py:24-59 | a rotation keeps the in-order key sequence and the set of nodes |
| RbTrees.PaintRootBlack | rbt_insert.py:103 | painting the root BLACK makes a balanced tree without red-red pairs a red-black tree, with the same keys and nodes |
| RbTrees.SortedAround | rbt_delete.py:225-234 | in a search tree, keys left of a node are no larger than its key and keys right of it no smaller, which is what the search descent relies on |
| RbInsertProps.ExceptNew | rbt_insert.py:124-131 | hanging a new RED leaf below a red-black tree leaves at most one red-red pair, at the new node |
| RbInsertProps.InsertCase1 | rbt_insert.py:68-73 | uncle RED: the recolouring keeps balance, keys and nodes, and moves the only red-red pair up to the grandparent |
| RbInsertProps.InsertCase23 | rbt_insert.py:74-82 | uncle BLACK: the optional rotation at the parent, the recolouring and the rotation at the grandparent keep balance, keys and nodes and remove every red-red pair |
| RbInsertProps.ExceptDone | rbt_insert.py:65 | once the parent of `z` is BLACK, or `z` is the root, no red-red pair is left |
| RbDeleteProps.DeleteCase1 | rbt_delete.py:180-184 | red sibling: the recolouring and rotation keep keys and nodes, leave x one BLACK short one level lower, and give it a BLACK sibling |
| RbDeleteProps.DeleteCase2 | rbt_delete.py:185-187 | sibling with two BLACK children: painting it RED moves the shortfall up to the parent |
| RbDeleteProps.DeleteCase3 | rbt_delete.py:189-193 | far nephew BLACK, near nephew RED: the recolouring and rotation at the sibling give it a RED far child and keep keys, nodes and the shortfall |
| RbDeleteProps.DeleteCase4 | rbt_delete.py:194-198 | far nephew RED: the recolouring and rotation at the parent make up the shortfall and the tree is red-black |
| RbDeleteProps.FixExit | rbt_delete.py:177-220 | leaving the loop (x RED, or the root) and painting x BLACK restores every red-black property |
| RbSplice.OneChildContents | rbt_delete.py:147-152 | removing a node with a missing child by hoisting its other child takes its key out of the in-order sequence and the node out of the tree |
| RbSplice.OneChildBalance | rbt_delete.py:147-152 | after that splice the tree is red-black when the node was RED and otherwise one BLACK short where the child now is |
| RbSplice.TwoChildrenContents | rbt_delete.py:153-168 | removing a node with two children by putting its successor in its place takes only that node's key out of the in-order sequence |
| RbSplice.TwoChildrenBalance | rbt_delete.py:153-170 | after that splice the tree is red-black when the successor was RED and otherwise one BLACK short where `x` now is |
| RbSplice.MinOfAt | rbt_delete.py:130-133 | the leftmost node holds the smallest key |
| Sequences.InsertAfterEqualsSorted | rbt_insert.py:117-131 | placing a key behind every key not greater than it keeps the keys sorted and adds exactly one copy |
| Sequences.RemoveFirstSorted | rbt_delete.py:138-171 | in a sorted key sequence, removing any occurrence of `k` gives the same sequence as removing the first one, and it stays sorted |
| RedBlack.InsertKeys | rbt_insert.py:117-131 | hanging the new node where the descent stops inserts its key after the equal keys, and the keys stay sorted |
| RedBlack.ParentIsRedAsWritten | rbt_insert.py:65 | the loop guard as written raises exactly when `z` has no parent |
| RedBlack.ParentIsRed | rbt_insert.py:65 | the guard as intended: true only when `z` has a parent, which is RED |
| RedBlack.GuardsAgree | rbt_insert.py:65 | wherever the written guard does not raise it agrees with the intended one, and where it raises the intended one stops the loop |
| RedBlack.FirstInsertRaises | rbt_insert.py:108-134 | the first insert into an empty tree makes the written guard raise and the intended one stop |
| RedBlack.ListingKeys | rbt_insert.py:139-143 | `inorder` lists the keys of the tree in order |
| RedBlack.RedBlackTree.constructor | rbt_insert.py:16-19 | a new tree is the BLACK sentinel alone, with no keys, and is a red-black tree |
| RedBlack.RedBlackTree.SetColor | rbt_insert.py:70-72 | one cell changes colour and the tree is the old tree with that node recoloured |
| RedBlack.RedBlackTree.Rotate | rbt_insert.py:24-59 | the arena spells the old tree rotated at `P` towards `d` |
| RedBlack.RedBlackTree.LeftRotate | rbt_insert.py:24-39 | the right child of `x` takes its place and `x` becomes its left child |
| RedBlack.RedBlackTree.RightRotate | rbt_insert.py:44-59 | the left child of `x` takes its place and `x` becomes its right child |
| RedBlack.RedBlackTree.InsertRecolor | rbt_insert.py:68-73 | parent and uncle turn BLACK and the grandparent RED, nothing else changes |
| RedBlack.RedBlackTree.InsertRotate | rbt_insert.py:74-82 | the arena spells the tree after cases 2 and 3, and the returned `z` is the node the source moves to |
| RedBlack.RedBlackTree.InsertStep | rbt_insert.py:66-99 | one pass keeps keys and nodes and moves the only red-red pair strictly up the tree or removes it |
| RedBlack.RedBlackTree.InsertFixup | rbt_insert.py:64-103 | from a balanced tree whose only red-red pair is at the new node, the loop ends with a red-black tree with the same keys and nodes |
| RedBlack.RedBlackTree.Descend | rbt_insert.py:113-122 | the descent ends at an empty position, whose parent is the last node passed; every key before it is at most `key` and every key after it is larger |
| RedBlack.RedBlackTree.Insert | rbt_insert.py:108-134 | the tree stays a red-black search tree, its keys gain `key` after any equal ones, and one cell is added |
| RedBlack.RedBlackTree.DeleteRedSibling | rbt_delete.py:180-183 | the sibling turns BLACK, the parent RED, and the parent is rotated towards x's side |
| RedBlack.RedBlackTree.DeleteNearNephew | rbt_delete.py:189-192 | the near nephew turns BLACK, the sibling RED, and the sibling is rotated away from x's side |
| RedBlack.RedBlackTree.DeleteFarNephew | rbt_delete.py:194-197 | the sibling takes the parent's colour, the parent and far nephew turn BLACK, and the parent is rotated towards x's side |
| RedBlack.RedBlackTree.DeleteStep | rbt_delete.py:178-219 | one pass keeps keys and nodes and either moves x strictly up or stops with x RED or the root |
| RedBlack.RedBlackTree.DeleteFixup | rbt_delete.py:176-220 | from a tree one BLACK short at x, the loop ends with a red-black tree with the same keys and nodes |
| RedBlack.RedBlackTree.Transplant | rbt_delete.py:121-128 | `v` takes `u`'s place under `u`'s parent, or becomes the root, and its parent field is set, also on the sentinel |
| RedBlack.RedBlackTree.Minimum | rbt_delete.py:130-133 | returns the leftmost node below `n`, which holds the smallest key of its subtree |
| RedBlack.RedBlackTree.Search | rbt_delete.py:225-234 | returns the sentinel exactly when `key` is absent, and otherwise a node holding `key` |
| RedBlack.RedBlackTree.Contains | rbt_vs_binomial.py:110-119 | true exactly when `key` is in the tree |
| RedBlack.RedBlackTree.SpliceOne | rbt_delete.py:147-152 | the other child takes the node's place and its parent field names the old parent |
| RedBlack.RedBlackTree.SpliceSuccessor | rbt_delete.py:154-168 | the successor takes the node's place, colour and left subtree; returns `x = y.right` with its parent set, and `y`'s original colour |
| RedBlack.RedBlackTree.RemoveNode | rbt_delete.py:144-168 | the node leaves the tree, its key leaves the in-order sequence, and the tree is red-black or ready for the fix-up at `x` according to the colour that left |
| RedBlack.RedBlackTree.Delete | rbt_delete.py:138-171 | an absent key changes nothing and reports not found; otherwise one copy of `key` leaves the sorted keys and the tree stays a red-black search tree |
| RedBlack.RedBlackTree.InOrder | rbt_insert.py:139-143 | the keys and colours of the subtree, in order |
| ResidualGraphs.ClosedUnreachable | ford_fulkerson.py:22-31 | a vertex set that holds `s` and is closed under positive entries reaches nothing outside it, which is why a search that runs dry proves `t` unreachable |
| ResidualGraphs.ParentTreeExtend | ford_fulkerson.py:25-28 | marking an unmarked vertex from a marked one along a positive entry keeps `parent` a discovery tree rooted at `s` |
| ResidualGraphs.PathTo | ford_fulkerson.py:43-46 | following `parent` back from a reached vertex gives a simple path of positive entries from `s` to it |
| ResidualGraphs.AugmentedSums | ford_fulkerson.py:52-56 | pushing along a path keeps `graph[u][v] + graph[v][u]` for every pair |
| ResidualGraphs.AugmentedNonNegative | ford_fulkerson.py:52-56 | pushing no more than the least entry of a simple path keeps every entry non-negative |
| ResidualGraphs.AugmentedOut | ford_fulkerson.py:48-56 | an augmentation takes exactly `path_flow` off what may still leave the source |
| ResidualGraphs.AugmentedIn | ford_fulkerson.py:48-56 | an augmentation takes exactly `path_flow` off what may still enter the sink |
| ResidualGraphs.PathFlow | ford_fulkerson.py:39-46 | `path_flow` starts at infinity and ends as the least entry on the path, which is positive |
| ResidualGraphs.PushAlong | ford_fulkerson.py:51-56 | the walk back from the sink pushes `path_flow` along every edge of the path |
| ResidualGraphs.Augment | ford_fulkerson.py:39-56 | one augmentation: `path_flow` is the least, positive entry on the path the parent links trace from the sink back to the source, and the new matrix is the old one with `path_flow` pushed along that path; pair sums and non-negativity are kept and exactly `path_flow` leaves the source's row and the sink's column |
| GraphSearch.SearchStart | ford_fulkerson.py:18-20 | the search starts with only `s` marked and pending |
| GraphSearch.SearchPop | ford_fulkerson.py:23 | popping the top of the stack leaves one marked vertex to scan and keeps the search state |
| GraphSearch.SearchPopFront | bipartite_matching_flow.py:20 | popping the front of the queue leaves one marked vertex to scan and keeps the search state |
| GraphSearch.SearchEnd | ford_fulkerson.py:22-31 | when nothing is pending an unmarked target is unreachable from `s` |
| GraphSearch.SearchStep | ford_fulkerson.py:25-28 | marking and pushing a newly reached vertex keeps the search state unless it is the target |
| GraphSearch.Scan | ford_fulkerson.py:24-30 | the inner `for v` loop: stops with `t` marked and the tree intact, or leaves the popped vertex closed, with either a vertex newly marked or nothing changed |
| FordFulkerson.Graph.constructor | ford_fulkerson.py:8-10 | a `V` by `V` matrix of zeros |
| FordFulkerson.Graph.AddEdge | ford_fulkerson.py:13-14 | sets one entry and no other |
| FordFulkerson.Graph.Dfs | ford_fulkerson.py:17-31 | succeeds exactly when `t` is another vertex reachable from `s` along positive entries, and then `parent` traces a path to it |
| FordFulkerson.Search | ford_fulkerson.py:17-31 | the same search on a given matrix, with the same promise |
| FordFulkerson.Graph.AugmentOnce | ford_fulkerson.py:39-56 | `path_flow` is the least, positive entry on the path found by the search, and the new matrix is the old one with `path_flow` pushed along it; it leaves the source's row and the sink's column; pair sums and non-negativity are kept |
| FordFulkerson.Graph.MaxFlow | ford_fulkerson.py:34-62 | the flow returned is what left the source's row (and the sink's column), never negative, and afterwards no path of positive entries joins source to sink; pair sums and non-negativity are kept |
| BipartiteMatching.MaxFlow.constructor | bipartite_matching_flow.py:7-9 | a `V` by `V` matrix of zeros |
| BipartiteMatching.MaxFlow.AddEdge | bipartite_matching_flow.py:11-12 | sets one entry and no other |
| BipartiteMatching.BreadthFirst | bipartite_matching_flow.py:14-28 | succeeds exactly when `t` is another vertex reachable from `s` along positive entries, and then `parent` traces a path to it |
| BipartiteMatching.MaxFlow.Bfs | bipartite_matching_flow.py:14-28 | the breadth-first search with that promise on the object's matrix |
| BipartiteMatching.MaxFlow.AugmentOnce | bipartite_matching_flow.py:35-52 | `path_flow` is the least, positive entry on the path found by the search, and the new matrix is the old one with `path_flow` pushed along it; it leaves the source's row and the sink's column; pair sums and non-negativity are kept |
| BipartiteMatching.MaxFlow.EdmondsKarp | bipartite_matching_flow.py:30-54 | the flow returned is what left the source's row (and the sink's column), never negative, and afterwards no augmenting path is left |
| BipartiteMatching.NetworkOut | bipartite_matching_flow.py:74-75 | the network's source can send at most `U` |
| BipartiteMatching.NetworkIn | bipartite_matching_flow.py:78-79 | the network's sink can take at most `V` |
| BipartiteMatching.BuildNetwork | bipartite_matching_flow.py:67-83 | a fresh matrix on `U + V + 2` vertices holding exactly the source, sink and pair edges with capacity 1 |
| BipartiteMatching.MaxBipartiteMatching | bipartite_matching_flow.py:60-86 | the matching size is the flow out of the source and into the sink, between 0 and both `U` and `V`, and no augmenting path is left |
| PreflowSums.SkewTotal | push_relabel.py:22-23 | a skew-symmetric flow matrix sums to zero |
| PreflowSums.SourceRowSum | push_relabel.py:69 | in a skew-symmetric flow where every other vertex holds its inflow as excess, the flow out of the source is the sum of the other excesses |
| PushRelabel.Send | push_relabel.py:21 | the amount sent is the smaller of the excess and the residual capacity |
| PushRelabel.PushKeepsPreflow | push_relabel.py:20-25 | a push from an overflowing non-source vertex along residual capacity sends a positive amount and keeps a preflow |
| PushRelabel.SaturateKeepsPreflow | push_relabel.py:52-55 | saturating one edge out of the source keeps a preflow |
| PushRelabel.LowestResidual | push_relabel.py:29-32 | the least height among the vertices `u` has residual capacity to, infinity when there is none |
| PushRelabel.Others | push_relabel.py:57 | exactly the vertices below `n` other than `s` and `t` |
| PushRelabel.ZeroPreflow | push_relabel.py:10-13 | the zero flow and excesses of a new object are a preflow when no capacity is negative |
| PushRelabel.PushRelabel.constructor | push_relabel.py:8-14 | zero capacities, flows, heights, excesses and relabel count |
| PushRelabel.PushRelabel.AddEdge | push_relabel.py:16-17 | only `capacity[u][v]` changes |
| PushRelabel.PushRelabel.Push | push_relabel.py:20-25 | the flow and excesses move by the amount `Send` gives, nothing else changes |
| PushRelabel.PushRelabel.Relabel | push_relabel.py:28-34 | `height[u]` becomes one more than the least height it has residual capacity to, and one relabel is counted |
| PushRelabel.PushRelabel.Discharge | push_relabel.py:36-46 | only `u`'s height changes; unless the fuel runs out `u` stops overflowing; a preflow from another source stays a preflow |
| PushRelabel.SaturateEdges | push_relabel.py:51-55 | from zero flows and excesses the loop saturates every edge out of `s` and leaves a preflow |
| PushRelabel.PushRelabel.Saturate | push_relabel.py:50-55 | `height[s]` becomes `n` and from the initial state every edge out of `s` is saturated, leaving a preflow |
| PushRelabel.PushRelabel.MaxFlow | push_relabel.py:49-69 | returns the flow out of `s` and the relabel count; from the initial state with non-negative capacities the flow stays a preflow and the value equals what the other vertices hold, so it is never negative |
| Extended.Add | poly_vs_nphard.py:21-22 | adding to infinity stays infinite; a finite sum is the plain sum |
| Extended.Min | tsp_bruteforce_dp.py:29 | `min` is at most both arguments and is one of them |
| ShortestPaths.Smallest | poly_vs_nphard.py:16 | `heapq.heappop` returns a least `(distance, vertex)` pair of the queue |
| ShortestPaths.WalkBound | poly_vs_nphard.py:20-23 | once every edge is relaxed and the start is at 0, no walk from the start to `v` weighs less than `dist[v]` |
| ShortestPaths.InfUnreached | poly_vs_nphard.py:11-25 | for such distances, `dist[v]` is infinite exactly when no walk from the start reaches `v` |
| ShortestPaths.WitnessLower | poly_vs_nphard.py:21-22 | lowering `dist[v]` to `dist[u] + w` is backed by a walk of that weight |
| ShortestPaths.PopKeepsPending | poly_vs_nphard.py:16-18 | popping an entry, stale or not, leaves every other vertex queued with its distance or fully relaxed |
| ShortestPaths.RelaxEdges | poly_vs_nphard.py:20-23 | the inner loop relaxes every edge out of `u`, only lowers distances, queues each vertex whose distance dropped, and keeps the witness walks |
| ShortestPaths.Dijkstra | poly_vs_nphard.py:9-25 | `dist[start]` is 0; every finite `dist[v]` is the weight of some walk to `v`; no walk to `v` weighs less; `dist[v]` is infinite exactly for the vertices no walk reaches |
| TourSearch.Perms | tsp_bruteforce_dp.py:24 | every order `itertools.permutations` yields is as long as its input |
| TourSearch.PermsCount | tsp_bruteforce_dp.py:24 | `itertools.permutations` yields `n!` orders of `n` elements |
| TourSearch.PermsSound | tsp_bruteforce_dp.py:24 | every order `itertools.permutations` yields holds the same elements |
| TourSearch.PermsComplete | tsp_bruteforce_dp.py:24 | every order of the elements is yielded |
| TourSearch.PermsOrderings | tsp_bruteforce_dp.py:21-24 | the orders yielded from `range(1, n)` are exactly the orderings of `1 .. n - 1` |
| TourSearch.WalkCost | tsp_bruteforce_dp.py:26-28 | the inner loop adds up the weights of the path's edges |
| TourSearch.Cheapest | tsp_bruteforce_dp.py:22-29 | infinity exactly when there is no order; otherwise the least tour cost over the orders, attained by one of them |
| TourSearch.TspBruteForce | tsp_bruteforce_dp.py:19-31 | the cost of a cheapest tour that starts and ends at 0 and visits every other vertex once |
| TourSearch.OptimalUnique | tsp_bruteforce_dp.py:19-31 | the cheapest cost is unique, so any two correct answers agree |
| TourSearch.SingleVertex | tsp_bruteforce_dp.py:24-28 | with one vertex the only tour is `[0, 0]`, of cost `graph[0][0]` |
| Bitmasks.PowerBits | tsp_bruteforce_dp.py:42 | `1 << j` has bit `j` and no other |
| Bitmasks.ClearBit | tsp_bruteforce_dp.py:48 | on a set bit, `mask ^ (1 << j)` clears bit `j`, keeps every other bit, and equals `mask - (1 << j)` |
| Bitmasks.AllButZero | tsp_bruteforce_dp.py:59-62 | `full_mask - 1` has exactly the bits `1 .. n - 1` |
| HeldKarp.Dp | tsp_bruteforce_dp.py:45-56 | an entry for a mask holding vertex 0 stays infinite, as `dp.get` defaults it, since no path from 0 returns to 0 |
| HeldKarp.Best | tsp_bruteforce_dp.py:51-55 | the `for k` loop gives infinity when `prev_mask` holds vertex 0 |
| HeldKarp.Closing | tsp_bruteforce_dp.py:59-62 | the final loop's value is finite exactly when it has seen at least one vertex `j >= 1` |
| HeldKarp.HeldKarpValue | tsp_bruteforce_dp.py:36-64 | `tsp_held_karp` returns a finite value exactly when there are two or more vertices |
| HeldKarp.BaseCases | tsp_bruteforce_dp.py:41-42 | the table holds exactly `(1 << i, i) -> graph[0][i]` for `1 <= i < n` |
| HeldKarp.BestExtension | tsp_bruteforce_dp.py:51-55 | the `for k` loop computes the best extension `Best` over the predecessors held by `prev_mask` |
| HeldKarp.BuildTable | tsp_bruteforce_dp.py:38-56 | the table holds exactly the pairs of a mask below `1 << n` and a vertex `j >= 1` of it, each with its `Dp` value; the base entries are kept |
| HeldKarp.SingleRoute | tsp_bruteforce_dp.py:42 | for a mask holding only `j`, the one route `[j]` costs `graph[0][j]`, the table's base entry |
| HeldKarp.RouteExtend | tsp_bruteforce_dp.py:48-55 | a route through `prev_mask` ending at `k`, extended by `j`, is a route through `mask` one edge `k -> j` dearer |
| HeldKarp.RouteShrink | tsp_bruteforce_dp.py:48-55 | conversely, every route through a mask of two or more vertices is such an extension |
| HeldKarp.DpOptimal | tsp_bruteforce_dp.py:45-56 | every entry for a mask without vertex 0 is finite and is the cost of a cheapest path from 0 through the vertices of `mask` ending at `j` |
| HeldKarp.TourIsRoute | tsp_bruteforce_dp.py:59-62 | a tour is a route through `full_mask - 1` closed by the edge back to 0 |
| HeldKarp.ClosingAchieved | tsp_bruteforce_dp.py:59-64 | the final loop's value is the cost of some tour |
| HeldKarp.ClosingBounded | tsp_bruteforce_dp.py:59-64 | no tour is cheaper than the final loop's value |
| HeldKarp.HeldKarpOptimal | tsp_bruteforce_dp.py:36-64 | for two or more vertices the Held–Karp value is the cheapest tour cost |
| HeldKarp.HeldKarpMatchesBruteForce | tsp_bruteforce_dp.py:19-64 | whenever `tsp_bruteforce` returns a cheapest cost on two or more vertices, `tsp_held_karp` returns the same value |
| HeldKarp.TspHeldKarp | tsp_bruteforce_dp.py:36-64 | infinity for fewer than two vertices; otherwise the cheapest tour cost |

## Left out

- Every `__main__` block, `input()` call and `print` is left out. That includes the "not found" message of `delete` (rbt_delete.py:141), `print_heap` of the binomial heaps, and the residual-matrix dump of ford_fulkerson.py:58-60. These are console I/O.
- The timing code of rbt_vs_binomial.py and poly_vs_nphard.py (`time.time`) and the random input generators are left out. Clocks and random data have no logical content here.
- convex_hull_closest_pair.py, indicator_variables.py and hiring_simulation.py are not part of this model. They work on floating point and on sampled probabilities.
- `verify_properties` (rbt_delete.py:239-240) only prints a message. The model proves the red-black invariant `Invariant()` instead: a well-formed arena (`Valid()`), the colour and black-height properties (`IsRedBlack`) and sorted keys. `Insert` and `Delete` ensure it.
- `proof_techniques.binary_search` (proof_techniques.py:20-30) is the same code as `time_complexity_basic.binary_search`. It is modelled once, as `TimeComplexityBasic.BinarySearch`, whose contract also covers the unsorted call in proof_techniques.py:51-54.
- The duplicate copies of the binomial heap (binomial_heap.py and rbt_vs_binomial.py:138-212) and of the red-black tree (rbt_vs_binomial.py:20-132) are modelled once. The insert fix-ups of rbt_delete.py:86-116 and rbt_vs_binomial.py:77-107 have no `if z == self.root: break`, so as written they also raise when a case-1 recolour moves `z` to the root. With the intended guard, under which a missing parent counts as black, all three copies behave the same, so one model serves. The `tsp_bruteforce` of poly_vs_nphard.py is the same code as the one in tsp_bruteforce_dp.py.
- Binomial heap nodes are values, not objects. The model does not capture the `parent` and `sibling` links, sharing between nodes, or the fact that `decrease_key` swaps keys inside shared nodes; it does capture the keys, shapes and root order.
- Random choices (`random.randint`, `random.choice`) are nondeterministic choices made inside the methods. The properties hold for every choice, but the probabilities and expected running times are not modelled.
- Running-time claims in comments (O(log n), amortized O(1), expected O(n)) are not modelled. Only the movement count of the dynamic table is.
- AmortizedTable.DynamicTable.Resize: requires a power-of-two capacity that holds the live elements. `resize` is only ever called with the doubled or halved capacity, and a smaller list would make the copy fail.
- AmortizedStack.DynamicStack.Resize: requires a power-of-two capacity of at least 2 that holds the live values, for the same reason.
- RandomizedSelect.QuickSelect: requires `low <= k <= high`. For a `k` outside the range the source's result is not a rank, and it may index an empty range.
- RandomizedSelect.RandomizedSelect: requires `low <= k <= high`, as `QuickSelect`.
- TimeComplexityBasic.SumRecursive: requires `n >= 0`. For negative `n` the source recurses without end.
- ProofTechniques.Factorial: requires `n >= 0`. For negative `n` the source recurses without end.
- ShortestPaths.Dijkstra: requires edges whose targets are vertices and whose weights are non-negative. The source accepts negative weights, but then its distances are not shortest. The priority queue is modelled as a sequence, and `heappop` returns a least pair of it.
- FordFulkerson.Graph.AddEdge: requires both ends to be vertices. Python's negative indices and out-of-range errors are not modelled; the same holds for `BipartiteMatching.MaxFlow.AddEdge` and `PushRelabel.PushRelabel.AddEdge`.
- BipartiteMatching.MaxBipartiteMatching: requires every pair to join a left vertex to a right vertex. The proved bound is "at most `U` and at most `V`"; the tighter "at most the number of distinct pairs" is not stated, because it needs a cut argument (the flow crossing from left to right vertices equals the flow leaving the source) that the model's flow lemmas, which reason about the source row and the sink column only, do not carry.
- PushRelabel.PushRelabel.Discharge: the loop is bounded by `fuel` rounds. The contract does not give the new flow and excesses, only that a preflow is kept, that only `u`'s height changes and that `u` stops overflowing unless the fuel runs out.
- PushRelabel.PushRelabel.MaxFlow: takes a `fuel` bound on the rounds of `discharge`. Termination of the source's loop is not proved. Neither is the optimality of the flow, only that a preflow is kept and that the source's outflow is what the other vertices hold.
- TourSearch.TspBruteForce: requires a square matrix of at least one vertex. On an empty matrix the source fails at `graph[0][0]`. On one vertex it returns `graph[0][0]`, while Held–Karp returns `inf`.
- HeldKarp.TspHeldKarp: bit masks are naturals, and `mask & (1 << j)` and `mask ^ (1 << j)` are written with `Bit` and subtraction. This agrees with the source only where the bit is set, which is the only place the source uses them.
- RedBlack.RedBlackTree.InsertFixup: the `break` at rbt_insert.py:100-101 is modelled as `if z == root { break; }`. With the corrected guard it is reached only at the root, where the loop would stop anyway. The copies at rbt_delete.py:86-116 and rbt_vs_binomial.py:77-107 lack this `break`; as written they also raise when a case-1 recolour moves `z` to the root, and with the intended guard they behave as this model.

## Findings

| source | as written | input that shows it | evidently intended | confidence | as-written member | corrected member |
|---|---|---|---|---|---|---|
| rbt_insert.py:64-65 | the fix-up loop tests `z.parent.color` while `z.parent` is `None` (also rbt_delete.py:87 and rbt_vs_binomial.py:78, which lack the root `break` and so also raise when a case-1 recolour lifts `z` to the root) | the first `insert` into an empty tree: `AttributeError` | an absent parent counts as black, so the loop stops at the root | not executed | RedBlack.FirstInsertRaises | RedBlack.GuardsAgree |
| subset_sum_partition.py:38 | `if result:` treats the empty subset `[]` as failure | `can_partition([0])` (or `[]`) returns `(False, None)`, though `[]` and `[0]` split it | `if result is not None:` | not executed | SubsetSumPartition.ZeroTotalSplits | SubsetSumPartition.CanPartitionIntended |
| vertex_cover.py:19 | the sizes tried start at `r = 1` | one vertex without edges: the answer is `{0}`, though the empty set covers | start at `r = 0` | not executed | VertexCover.EdgelessGraphOverCovered | VertexCover.BruteForceIntendedMinimal |
