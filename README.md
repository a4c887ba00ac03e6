# Explainable k-median clustering: threshold trees, in Dafny

This project models the core of a Python library that builds explainable
k-median clusterings and proves properties of that model.

A k-median instance is a list of points and a number `k` of centers.
`KMedPlusPlus` finds a reference clustering in two stages:

- a k-means++ style probabilistic seeding picks the first centers;
- Lloyd iterations then move every center to the medoid of its cluster.

The explainable solvers (`IMM`, `EsfandiariAlgorithm`,
`MakarychevAlgorithm`) turn the reference clustering into a threshold tree:

- Each node of the tree owns a box (a lower and an upper bound per
  dimension) and a map from centers to the points listed under them.
- A node with more than one center is split at one coordinate threshold.
  The split is the one that, among the midpoints of consecutive point
  coordinates within the centers' range, makes the fewest *mistakes*.
  A mistake is a point whose center lands on the other side of the
  threshold.
- Every leaf holds a single center.
- The explainable solution takes the medoid of each leaf's cluster and
  groups the instance's points by their closest medoid.

Modules follow the source files:

| module | source |
|---|---|
| `Geometry` | util.py: L1 distance, closest center, medoid, coordinate-wise median, closest to centroid |
| `Seqs` | sorting and de-duplication, the list and dict-key behaviour the source relies on |
| `SolverInterface` | solver_interface.py: `Instance`, `CenterOutput`, `mistake`, the `ClusterNode` class with `find_split`, `ExplainableOutput` |
| `KMedPlusPlus` | algorithms/kmedplusplus.py: `random_seed`, `prob_seed`, `lloyd_iteration`, `KMedPlusPlus.__call__` |
| `TreeBuild` | `build_tree` / `rec_build_tree`, for any split rule, and as imperative code over `ClusterNode` objects |
| `IMM`, `IMMGuarantees` | algorithms/iterative_mistake_minimization.py: the default pre-solver, `build_tree`, `IMM.__call__`, and what its output guarantees |
| `Esfandiari` | algorithms/Esfandiari_algorithm.py: `__call__`, and the center ranges, dimension probabilities, random split and children of `median_split` |
| `Makarychev` | algorithms/Makarychev_algorithm.py: `__call__` |

Representation choices:

- **Points.** A `Point` is a value with an `id` and its coordinates. The
  Python class has no `__eq__`, so the dicts keyed by points compare them
  by object identity; `id` stands for that identity.
- **Clusters.** A dict from centers to point lists is a `seq<Cluster>`
  in insertion order. A dict comprehension over a center list with
  repeated centers keeps each key once, at its first position: that is
  `Dedup`.
- **Results.** `CenterOutput` and `ExplainableOutput` are datatypes built
  by functions, because their fields are only written when they are
  constructed.
- **Tree nodes.** `ClusterNode` is a class:
  - `rec_build_tree` assigns its `split` and `children` in place;
  - its clusters and bounds are never changed after construction, since
    `bounds.copy()` gives each child its own array;
  - bounds are `NegInf`, `Fin(v)` or `PosInf`.
- **Randomness.** Random draws are parameters. `np.random.choice(p=...)`
  is inverse-CDF sampling of a uniform `u` in [0, 1).
  `np.random.uniform(a, b)` is `a + v * (b - a)`. `random.sample` is a list
  of distinct positions.
- **Errors.** Most ways the source raises are a `Failure` with an
  `Error` value, not a precondition. The errors are:
  - an empty instance;
  - a node or leaf without centers or points;
  - no thresholds;
  - weights that sum to zero;
  - a bad sample size;
  - the recursion limit, modelled as `fuel`.

  Preconditions exclude three kinds of input on which the source raises
  instead:
  - points of different dimensions, or centers of another dimension than
    the points (`ValidInstance`, `FitsInstance`): numpy's subtraction in
    `dist` raises on arrays of different lengths;
  - points of fewer than two coordinates in `MedianCoordinatewise`;
  - points of other than exactly two coordinates in `Centroid` and
    `ClosestToCentroid`.

  "## Left out" gives the reasons.

The three `build_tree` functions that are live are identical apart from
what they return. IMM's returns `(leaves, split_nodes)`. Esfandiari's and
Makarychev's return `(leaves, split_nodes, pre_clusters)`. `IMM.BuildTree`
models all three: it returns the three components, and `IMM.Solve` uses
only the first two. Both `Esfandiari.Solve` and `Makarychev.Solve` pair
the explainable solution with the pre-solution's clusters.

Where the code and its written description disagree, the model follows
the code:

- **Children's points.** The children of a split keep, under each center
  on their side, only the center's own points on that side. Points are
  *not* re-assigned to the closest remaining center. The points on the
  other side are the split's mistakes, and they are dropped.
  `SideAccounting` and `GrownAccountsPoints` count them, and
  `GrownListsWithin` shows that every leaf keeps exactly the root's
  points of its center that lie inside the leaf's box.
- **Seeding size.** `prob_seed` always picks a first center before its
  loop, so it returns `max(1, k)` centers, not `k`.
- **Empty right child.** The right child of a split may receive no center,
  when the threshold equals the largest center coordinate. `rec_build_tree`
  then fails on that child, because `ClusterNode.dimension()` indexes an
  empty key list. So a tree that is fully built has exactly one leaf per
  root center.

## Model

| member | source | states |
|---|---|---|
| Geometry.L1NonNegative | util.py:23-28 | the 1-norm distance of two points is never negative |
| Geometry.L1Symmetric | util.py:23-28 | `dist(p, q)` equals `dist(q, p)` |
| Geometry.L1ZeroIff | util.py:23-28 | the distance is zero exactly when the coordinates are equal |
| Geometry.L1Triangle | util.py:23-28 | the distance satisfies the triangle inequality |
| Geometry.ArgMin | util.py:20 | `np.argmin`: the index returned holds a minimum, and every earlier entry is strictly larger (the first minimum) |
| Geometry.ClosestIndex | util.py:19-20 | the index is of a center at least distance from the point, strictly closer than every earlier center |
| Geometry.ClosestCenter | util.py:13-20 | no result exactly when there are no centers (`argmin` raises); otherwise the first nearest center, paired with its distance, which is the least distance |
| Geometry.MedoidBruteforce | util.py:47-55 | no result exactly for an empty cluster; otherwise the first member whose total distance to all members is least |
| Geometry.MedianIndex | util.py:66-68 | the first value whose total absolute deviation from all values is least |
| Geometry.MedianCoordinatewise | util.py:57-68 | no result exactly for an empty cluster; otherwise a new two-coordinate point whose x and y are each the first least-deviation value in that coordinate |
| Geometry.CentroidWithin | util.py:39-41 | each coordinate of the centroid lies between the least and the largest member coordinate in that dimension; a single point is its own centroid |
| Geometry.ClosestToCentroid | util.py:32-44 | no result exactly for an empty cluster (`np.argmin` of the empty list of distances raises); otherwise the first member at least L1 distance from the centroid |
| Seqs.Sort | solver_interface.py:73 | `point_coords.sort()`: the result is sorted and a permutation of the input |
| Seqs.Dedup | solver_interface.py:37-39 | the keys of a dict built over a list: never longer than the list, and holding exactly its members |
| Seqs.DedupDistinct | solver_interface.py:37-39 | no key occurs twice |
| Seqs.DedupOfDistinct | solver_interface.py:37-39 | a list without repetitions keeps every element, in order |
| Seqs.DedupInOrder | solver_interface.py:37-39 | the keys are the list at exactly the positions where an element occurs for the first time, in list order |
| Seqs.MeanBetween | util.py:41 | `np.average` of a non-empty list lies between its least and its largest element |
| SolverInterface.AssignedTo | solver_interface.py:34 | the center a point is assigned to is a first nearest center |
| SolverInterface.AssignPoints | solver_interface.py:34 | one entry per point, in order, each the point's nearest center and its distance |
| SolverInterface.Assign | solver_interface.py:33-34 | `assignment`: one entry per instance point, each a listed center that is nearest to the point, with a distance no larger than the distance to any center |
| SolverInterface.AssignedCostIsMinimal | solver_interface.py:35 | `cost` is no larger than the cost of any other choice of one listed center per point |
| SolverInterface.AssignedCostNonNegative | solver_interface.py:35 | `cost` is never negative |
| SolverInterface.Members | solver_interface.py:38 | exactly the points whose assigned center is the given one |
| SolverInterface.MembersInOrder | solver_interface.py:38 | the list is the instance at exactly the positions whose point is assigned to the center, in instance order, so a repeated point is listed once per occurrence |
| SolverInterface.ClustersOf | solver_interface.py:37-39 | the keys are the centers without repetitions, in first-occurrence order; each key lists exactly the points assigned to it |
| SolverInterface.ClustersCoverPoints | solver_interface.py:37-39 | the clusters list as many points as the instance has, counted over all keys |
| SolverInterface.MakeCenterOutput | solver_interface.py:24-35 | constructing a `CenterOutput` fails, with `NoCentersToAssign`, exactly when there are points but no centers; otherwise it holds the instance, the centers and the assignment |
| SolverInterface.Clusters | solver_interface.py:37-39 | `clusters()`: keys are the deduplicated centers, each listing exactly its assigned instance points, all points listed once in total |
| SolverInterface.ClustersInOrder | solver_interface.py:37-39 | each cluster is the instance at exactly the positions whose point is assigned to its center, in instance order |
| SolverInterface.MistakeSeparates | solver_interface.py:41-42 | a mistake is exactly a point and center on different sides of the threshold; the test is symmetric in point and center |
| SolverInterface.Unbounded | algorithms/iterative_mistake_minimization.py:36 | the root bounds are `(-inf, inf)` in each of the `dim` dimensions |
| SolverInterface.RootInsideBox | algorithms/iterative_mistake_minimization.py:35-36 | every center and point lies inside the root's unbounded box |
| SolverInterface.FilterSide | solver_interface.py:88 | exactly the listed points on the given side of the threshold, no more than the list |
| SolverInterface.FilterSideInOrder | solver_interface.py:88 | the child's list is the parent's list at exactly the positions whose point is on the child's side, in the parent's order |
| SolverInterface.FilterSideInBox | solver_interface.py:86-95 | with the threshold inside the node's bound, the points of the node's box cut down to one side are the points of that child's box, in order |
| SolverInterface.SideListsWithin | solver_interface.py:86-96 | if every list of a node is a root list cut down to the node's box, every list of each child is that root list cut down to the child's box |
| SolverInterface.FilterPartition | solver_interface.py:87-96 | the left-side and right-side points together are a permutation of the list |
| SolverInterface.SideCenters | solver_interface.py:87-96 | a child's keys are the parent's keys on its side, in the parent's order |
| SolverInterface.SplitPartitionsCenters | solver_interface.py:87-96 | the left child's centers are exactly the parent centers `<= theta`, the right's exactly those `> theta`, and together they are the parent's centers |
| SolverInterface.FilterSplit | solver_interface.py:62-64 | the mistakes of one cluster are the points on the other side from its center; the two sides add up to the list |
| SolverInterface.SideAccounting | solver_interface.py:62-99 | the points kept in the two children plus the mistakes are the points of the node |
| SolverInterface.SplitDropsMistakes | solver_interface.py:62-99 | the same for the children as the split builds them |
| SolverInterface.ChildBoxContains | solver_interface.py:90-98 | a point of the parent box on one side of the threshold lies in that child's box |
| SolverInterface.SplitKeepsWellFormed | solver_interface.py:86-99 | both children have one coordinate per bound for every center and point |
| SolverInterface.SplitPreservesInsideBox | solver_interface.py:86-99 | when every center and point lies in the node's box, the same holds for each child and its box |
| SolverInterface.ChildBoxesPartitionParent | solver_interface.py:90-98 | for a threshold inside the bound, the left box is exactly the parent box at `<= theta` and the right box exactly the parent box at `> theta` |
| SolverInterface.MinOf | solver_interface.py:68 | `min(center_coords)` is one of them and no larger than any |
| SolverInterface.MaxOf | solver_interface.py:68 | `max(center_coords)` is one of them and no smaller than any |
| SolverInterface.Midpoints | solver_interface.py:75-76 | one threshold fewer than coordinates (none for an empty list) |
| SolverInterface.MidpointAt | solver_interface.py:75-76 | the `j`-th threshold is the midpoint of the `j`-th and next coordinate |
| SolverInterface.CandidatesWithinCenters | solver_interface.py:67-76 | every threshold lies between the least and the largest center coordinate; there is none exactly when at most one coordinate lies in that range |
| SolverInterface.BestInDim | solver_interface.py:66-80 | `find_best_split_dim`: none exactly when the dimension has no threshold; otherwise the first threshold of fewest mistakes, with its mistake count |
| SolverInterface.DimCosts | solver_interface.py:83 | one least mistake count per dimension |
| SolverInterface.FirstMinDimIsBest | solver_interface.py:83-84 | the first dimension of least cost beats every threshold of every dimension, strictly those of earlier dimensions |
| SolverInterface.FindBestSplit | solver_interface.py:61-84 | fails exactly on a node without centers (`NoCenters`), with no dimension, or with a dimension without thresholds (`NoCandidates`); otherwise the best split of the first cheapest dimension |
| SolverInterface.FindBestSplitFails | solver_interface.py:61-84 | the failure condition stated in terms of the thresholds |
| SolverInterface.FindBestSplitIsOptimal | solver_interface.py:61-84 | the split uses a threshold of its dimension, has fewest mistakes over all dimensions and thresholds, and is first on ties |
| SolverInterface.NodeSplit | solver_interface.py:61-100 | fails exactly when the best split does, with its error; otherwise that split and the two children it builds, both well formed |
| SolverInterface.FoundThresholdInBox | solver_interface.py:66-84 | the chosen threshold lies between the least and largest center coordinate, and above the node's lower bound and at most its upper bound in that dimension |
| SolverInterface.SplitBetweenCenters | solver_interface.py:87-99 | for a threshold in the centers' range: the left child has a center, the right child has none exactly at the largest coordinate, and the center counts add up |
| SolverInterface.FoundSplitProperties | solver_interface.py:61-100 | the chosen split: threshold inside the bound, non-empty left child, children well formed and inside their boxes, points kept plus mistakes equal the node's points |
| SolverInterface.ClusterNode.constructor | solver_interface.py:44-50 | a node holds its clusters and bounds, no split and no children |
| SolverInterface.ClusterNode.FindSplit | solver_interface.py:61-100 | `find_split`: fails exactly as the best split does; otherwise its dimension and threshold and two new unsplit, distinct nodes holding the children |
| SolverInterface.LeafMedoids | solver_interface.py:115-116 | one medoid per leaf, the medoid of its first cluster; a failure is `EmptyLeaf` |
| SolverInterface.LeafMedoidsFail | solver_interface.py:115-116 | the medoids fail exactly when some leaf has no cluster or an empty first cluster |
| SolverInterface.MakeExplainableOutput | solver_interface.py:102-119 | fails with `EmptyLeaf` on a leaf without medoid, or with `NoCentersToAssign` on points with no leaves; otherwise holds the leaves, split nodes and medoids, and lists every instance point exactly under its closest medoid |
| SolverInterface.ExplainedClustersInOrder | solver_interface.py:114-119 | each cluster of the explainable solution is the instance at exactly the positions whose point is assigned to its medoid, in instance order |
| KMedPlusPlus.RandomSeed | algorithms/kmedplusplus.py:14-21 | fails exactly for a sample size below zero or above the population (`BadSampleSize`), or for zero centers with points (`NoCentersToAssign`); otherwise `k` centers at the sampled positions |
| KMedPlusPlus.RandomSeedHasKClusters | algorithms/kmedplusplus.py:14-21 | with distinct instance points, the sampled centers are distinct and give `k` clusters |
| KMedPlusPlus.NearestDist | algorithms/kmedplusplus.py:35 | `closest_center(...)[1]` is the least distance to a center, and zero exactly when a center sits at the point |
| KMedPlusPlus.Weights | algorithms/kmedplusplus.py:35 | the squared distances, one per point, are non-negative and zero exactly at covered points |
| KMedPlusPlus.SumOfWeights | algorithms/kmedplusplus.py:36 | a sum of non-negative weights is non-negative and zero exactly when all are zero |
| KMedPlusPlus.Pick | algorithms/kmedplusplus.py:37-38 | the drawn index has a positive weight |
| KMedPlusPlus.PickIsInverseCdf | algorithms/kmedplusplus.py:37-38 | the draw falls in the drawn index's cumulative interval and past every earlier one: inverse-CDF sampling with probabilities `w / sum(w)` |
| KMedPlusPlus.Draw | algorithms/kmedplusplus.py:35-38 | fails exactly when every point already has a center (the normalised weights are undefined); otherwise a point without a center |
| KMedPlusPlus.Seeding | algorithms/kmedplusplus.py:34-39 | the rounds keep the centers instance points at distinct locations |
| KMedPlusPlus.SeedingStep | algorithms/kmedplusplus.py:34-39 | a round appends the point drawn by squared distance and continues |
| KMedPlusPlus.SeedingShape | algorithms/kmedplusplus.py:34-39 | a failure is `NoSeedPossible`; a success appends one center per remaining round after the given ones |
| KMedPlusPlus.SeedingSucceeds | algorithms/kmedplusplus.py:34-39 | seeding succeeds when `k` is at most the number of distinct point locations |
| KMedPlusPlus.FirstPick | algorithms/kmedplusplus.py:33 | the first center's position is a valid index |
| KMedPlusPlus.SeedCenters | algorithms/kmedplusplus.py:33-39 | fails on an empty instance (`EmptyInstance`) or zero weights (`NoSeedPossible`); otherwise `max(1, k)` instance points at distinct locations |
| KMedPlusPlus.SeedOutput | algorithms/kmedplusplus.py:24-40 | fails exactly when the seeding does; otherwise a valid `CenterOutput` of the instance with those centers |
| KMedPlusPlus.SeedLoop | algorithms/kmedplusplus.py:33-39 | the loop computes exactly the centers of the seeding rounds |
| KMedPlusPlus.ProbSeed | algorithms/kmedplusplus.py:24-40 | `prob_seed` returns the seeding's output; its centers are between 1 and `max(1, k)`, distinct and instance points |
| KMedPlusPlus.ProbSeedSucceeds | algorithms/kmedplusplus.py:24-40 | on a non-empty instance with `k` at most the number of distinct locations, seeding never fails |
| KMedPlusPlus.CentersAtPoints | algorithms/kmedplusplus.py:24-40 | centers at distinct instance locations are distinct and give one cluster each |
| KMedPlusPlus.ProbSeedGuarantees | algorithms/kmedplusplus.py:24-40 | a seeded solution has `max(1, k)` distinct centers, all instance points, one cluster each |
| KMedPlusPlus.NonEmpty | algorithms/kmedplusplus.py:76-77 | the `if clusterpoints` filter: exactly the positions of non-empty clusters, increasing |
| KMedPlusPlus.NonEmptyMedoids | algorithms/kmedplusplus.py:76-77 | one medoid per non-empty cluster, in order, each the brute-force medoid of its points |
| KMedPlusPlus.ClustersPartition | solver_interface.py:37-39 | the clusters of a solution partition the instance's points: only instance points, never under two centers, all of them |
| KMedPlusPlus.MedoidsArePoints | algorithms/kmedplusplus.py:76-77 | the new centers are instance points, and there is one when the instance has points |
| KMedPlusPlus.MedoidsDistinct | algorithms/kmedplusplus.py:76-77 | the new centers are pairwise different |
| KMedPlusPlus.LloydIteration | algorithms/kmedplusplus.py:69-78 | a Lloyd iteration gives a valid solution of the same instance |
| KMedPlusPlus.LloydCenters | algorithms/kmedplusplus.py:69-78 | its centers are the medoids of the non-empty clusters of the old solution, in order |
| KMedPlusPlus.LloydGuarantees | algorithms/kmedplusplus.py:69-78 | no more centers than distinct old centers, at least one when there are points, all instance points, pairwise different |
| KMedPlusPlus.LloydKeepsGuarantees | algorithms/kmedplusplus.py:69-78 | an iteration keeps a solution's centers non-empty, within a bound, distinct and at instance points |
| KMedPlusPlus.Iterate | algorithms/kmedplusplus.py:94-95 | repeated iterations give a valid solution of the same instance |
| KMedPlusPlus.Improve | algorithms/kmedplusplus.py:94-95 | the loop performs `numiter` iterations (none for a negative count) and keeps the guarantees |
| KMedPlusPlus.Solve | algorithms/kmedplusplus.py:87-98 | `KMedPlusPlus.__call__`: fails exactly when seeding does; otherwise the seeded solution after `numiter` iterations, with 1 to `max(1, k)` distinct centers at instance points |
| TreeBuild.ImmSplitIsFindSplit | solver_interface.py:61-100 | the split rule of the tree is `find_split` on every well-formed node |
| TreeBuild.ImmSplitSound | solver_interface.py:61-100 | each split keeps the node's centers between its children, accounts for every point as kept or a mistake, and keeps boxes |
| TreeBuild.Build | algorithms/iterative_mistake_minimization.py:38-47 | a built tree has the given node at its root |
| TreeBuild.BuildGrows | algorithms/iterative_mistake_minimization.py:38-47 | a built tree has single-center leaves, every inner node split by the rule, and height within the recursion limit |
| TreeBuild.GrownIsBuilt | algorithms/iterative_mistake_minimization.py:38-47 | conversely, every such tree within the limit is the one built |
| TreeBuild.BuildFuelMonotone | algorithms/iterative_mistake_minimization.py:38-47 | a larger recursion limit builds the same tree |
| TreeBuild.GrownLeavesHomogeneous | algorithms/iterative_mistake_minimization.py:39-40 | every leaf holds exactly one center |
| TreeBuild.GrownShape | algorithms/iterative_mistake_minimization.py:38-47 | there is one leaf per root center, and one split node fewer than leaves |
| TreeBuild.GrownKeepsCenters | algorithms/iterative_mistake_minimization.py:38-47 | the leaves' centers are the root's centers, each once |
| TreeBuild.GrownAccountsPoints | algorithms/iterative_mistake_minimization.py:38-47 | the number of points kept in the leaves plus the mistakes of all splits is the number of points listed at the root |
| TreeBuild.ImmChildrenListsWithin | algorithms/iterative_mistake_minimization.py:42-45 | the children `find_split` builds stay in their boxes and, for every center, list the root's points of that center inside their boxes when the node does |
| TreeBuild.GrownListsWithin | algorithms/iterative_mistake_minimization.py:38-47 | every leaf lists, for its center, exactly the root's points of that center inside the leaf's box, in the root's order |
| TreeBuild.RootListsWithin | algorithms/iterative_mistake_minimization.py:35 | the root holds the pre-solution's clusters, each its own list inside the unbounded box |
| TreeBuild.GrownLeavesInBoxes | algorithms/iterative_mistake_minimization.py:38-47 | every leaf is well formed, has the root's dimension, and keeps its centers and points inside its box |
| TreeBuild.GrownRecordsSplits | algorithms/iterative_mistake_minimization.py:41-45 | every split node has other than one center and carries the rule's split and children |
| TreeBuild.RecordedSplitIsBest | solver_interface.py:61-100 | a recorded split is the best split of its node, with fewest mistakes, and its children are the split's |
| TreeBuild.RecBuildTree | algorithms/iterative_mistake_minimization.py:38-47 | `rec_build_tree`: fails as the recursion does; otherwise the appended leaves and split nodes hold the built tree's leaves and splits in order, and are the node or new nodes |
| TreeBuild.BuildChildren | algorithms/iterative_mistake_minimization.py:46-47 | the two recursive calls, left first: their leaves and splits are those of both subtrees in order |
| TreeBuild.RootData | algorithms/iterative_mistake_minimization.py:35-36 | the root is well formed and inside its unbounded box, with the deduplicated centers as keys and every instance point listed |
| TreeBuild.BuildTree | algorithms/iterative_mistake_minimization.py:32-49 | fails on an empty instance, or as the recursion does; otherwise the leaves and split nodes of the tree grown from the root |
| TreeBuild.BuildTreeGuarantees | algorithms/iterative_mistake_minimization.py:31-51 | the grown tree has one leaf per distinct center, a split node fewer, single-center boxed leaves, all centers, as many points kept as instance points less the mistakes, best splits, and each leaf listing exactly the instance points of its center's cluster that lie inside the leaf's box, in order |
| IMM.PreSolution | algorithms/iterative_mistake_minimization.py:31-35 | the default pre-solver fails exactly when seeding does; otherwise a valid solution of a non-empty instance |
| IMM.PreSolve | algorithms/iterative_mistake_minimization.py:35 | the pre-solver's centers are pairwise different and between 1 and `max(1, k)` in number |
| IMM.BuildTree | algorithms/iterative_mistake_minimization.py:31-51 | `build_tree`: fails on an empty instance, on a pre-solver error or a tree error; otherwise the nodes holding the tree's leaves (one per pre-solution center, single-center) and its split nodes (one fewer), plus the pre-solution's clusters |
| IMM.Solve | algorithms/iterative_mistake_minimization.py:16-25 | `IMM.__call__`: the pre-solver's or the tree's error, `EmptyLeaf` exactly when a leaf has no points, or the `ExplainableOutput` of the tree's leaves and split nodes |
| IMM.LeafWithoutPoints | solver_interface.py:115-116 | the medoids fail exactly when a leaf of the tree has no cluster or an empty one |
| IMM.SolvedByTree | algorithms/iterative_mistake_minimization.py:16-51 | a successful solution comes from the pre-solution and the tree grown from it |
| IMMGuarantees.ExplainedLeaves | algorithms/iterative_mistake_minimization.py:38-47 | one leaf per pre-solution center, one split node fewer, each leaf single-center and boxed, the leaf centers being the pre-solution's |
| IMMGuarantees.ExplainedSplits | algorithms/iterative_mistake_minimization.py:41-45 | every split node has two children and carries the split of fewest mistakes `find_split` chose, with those children |
| IMMGuarantees.ExplainedMedoids | solver_interface.py:115-116 | one medoid per leaf, the medoid of the leaf's cluster |
| IMMGuarantees.ExplainedClusters | solver_interface.py:114-119 | every instance point, and nothing else, is listed under its closest medoid |
| Esfandiari.CenterRange | algorithms/Esfandiari_algorithm.py:39-42 | `a`, `b`: fails exactly on a node without centers; otherwise per dimension the least and the largest center coordinate |
| Esfandiari.RangeOfCenters | algorithms/Esfandiari_algorithm.py:41-42 | `a[i]` and `b[i]` bound every center's coordinate `i`, and both are attained |
| Esfandiari.RangesNonPositive | algorithms/Esfandiari_algorithm.py:43 | every `R[i] = a[i] - b[i]` is at most zero, and zero exactly when all centers agree in dimension `i` |
| Esfandiari.Probs | algorithms/Esfandiari_algorithm.py:44 | `probs`: fails exactly when `sum(R)` is zero; otherwise `probs[i] * sum(R) == R[i]` |
| Esfandiari.SignCancels | algorithms/Esfandiari_algorithm.py:43-44 | normalising `a - b` gives the same probabilities as normalising the widths `b - a` |
| Esfandiari.ProbsDistribution | algorithms/Esfandiari_algorithm.py:44 | non-negative weights with a positive sum give non-negative probabilities summing to 1, positive exactly at positive weights |
| Esfandiari.RangeProbs | algorithms/Esfandiari_algorithm.py:43-46 | for ordered ranges: no distribution exactly when every range is a point; otherwise probabilities summing to 1, positive exactly where `a[j] < b[j]` |
| Esfandiari.DimensionProbs | algorithms/Esfandiari_algorithm.py:39-46 | at a node with centers: no distribution exactly when the centers agree in every dimension; otherwise one positive exactly where they differ |
| Esfandiari.DrawSplit | algorithms/Esfandiari_algorithm.py:39-47 | the draws `r`, `z`: fail exactly with no centers (`NoCenters`) or centers agreeing everywhere (`DegenerateRanges`); otherwise `z` lies in `[a[r], b[r])` |
| Esfandiari.SplitAt | algorithms/Esfandiari_algorithm.py:48-62 | `node_L` and `node_R` are new distinct unsplit nodes holding the split's children, and become the node's children |
| SolverInterface.SideRestricts | solver_interface.py:86-96 | every cluster of a child is a parent cluster on that side, cut down to its points on that side |
| Esfandiari.DrawnSplitChildren | algorithms/Esfandiari_algorithm.py:47-60 | the left child holds exactly the centers `<= z`, including those at `a[r]`, the right exactly those `> z`, together all; the right is empty exactly at `z == b[r]`; the bounds change at `r` only |
| Esfandiari.DrawnSplitLists | algorithms/Esfandiari_algorithm.py:48-57 | each child's cluster lists one parent center's points on the child's side, and nothing else |
| Esfandiari.DrawnSplitProgress | algorithms/Esfandiari_algorithm.py:45-60 | after a drawn split both children hold at least one and fewer than all of the node's centers |
| Esfandiari.Solve | algorithms/Esfandiari_algorithm.py:16-25 | `__call__`: the explainable solution `IMM.__call__` would give, paired with the pre-solution's clusters |
| Makarychev.Solve | algorithms/Makarychev_algorithm.py:16-25 | `__call__`: the same explainable solution paired with the pre-solution's clusters |

## Left out

- Randomness, `np.random.seed` and the `seed` field: every random draw is a parameter. `np.random.choice` with weights is inverse-CDF sampling of a uniform draw, `np.random.uniform(a, b)` is `a + v * (b - a)`, and `random.sample` is a list of distinct positions. No statement is made about distributions over draws.
- `visualize` in `KMedPlusPlus.__call__`: it only draws a plot.
- Floating point: coordinates, distances and costs are exact reals. `np.float64` rounding, `inf` arithmetic and NaN are not modelled. The infinite root bounds are the `NegInf` and `PosInf` bound values.
- Python's recursion limit is the `fuel` parameter of the tree construction. Running out of it is the `RecursionLimit` error. A split whose left child keeps the node's own clusters leads `rec_build_tree` to split that child the same way again, until Python's limit; the model ends that case in this error too. A split that only leaves the right child without centers instead fails, once the left subtree is built, in `dimension()` on the right child (the empty-right-child note above).
- The dicts keyed by point identity are sequences of (center, points) pairs in insertion order. The `id` of a point stands for its identity.
- Only the `median_split` split step at one drawn `(r, z)` is modelled: the center ranges, the probabilities, the draws and the children. Its recursion, the `while multiple_center_leaf(u0)` loop and `multiple_center_leaf` belong to a `build_tree` that the second `build_tree` in the same file shadows, so they never run.
- Running that shadowed code would raise: it indexes a `dict_keys` view (`centers[0]`, line 40) and reads a `set` attribute that nodes lack (line 73). The model takes `centers` as a list.
- The first, unfinished `build_tree` of Makarychev_algorithm.py (lines 27-35) is shadowed and returns nothing. It is not part of this model.
- Geometry.MedianCoordinatewise: it requires points with at least two coordinates. The source reads only `coordinates[0]` and `coordinates[1]` and raises `IndexError` on points with fewer; the model excludes those inputs by precondition.
- Geometry.Centroid, Geometry.ClosestToCentroid: they require points with exactly two coordinates. The centroid is the 2-tuple of the first two means, and `dist(point, centroid)` subtracts it from each point's coordinate array. The source raises `IndexError` on one-coordinate points and numpy's broadcast `ValueError` on points with three or more. The model excludes both by precondition.
- SolverInterface.ValidInstance, SolverInterface.FitsInstance: the model requires every point, and every center, to have the instance's dimension. On mismatched lengths `dist` raises numpy's broadcast `ValueError`; the model excludes those inputs by precondition, not as an `Error`.
- The module-level copies of `closest_to_centroid` and `medoid_bruteforce` in algorithms/kmedplusplus.py (lines 43-66) are identical to those of util.py. `Geometry` models them once.
- `ClusterNode.centers` and `is_homogeneous` are the node's key list and `|clusters| == 1`. `ClusterNode.dimension` is the length of the node's bounds, which equals the coordinate count of its first center whenever the node has one.
- KMedPlusPlus.LloydIteration: its own contract states only that the result is a valid solution of the same instance. Its centers are stated by `LloydCenters` and `LloydGuarantees`.
- KMedPlusPlus.Seeding: its own contract states only the preserved location invariant. Its shape and success are stated by `SeedingShape`, `SeedingStep` and `SeedingSucceeds`.
- TreeBuild.Build: its own contract states only the root of the tree. Its shape is stated by `BuildGrows`, `GrownIsBuilt` and the `Grown...` lemmas.
- TreeBuild.RecBuildTree: it ties each split node's `children` to the contents of the two child nodes, not to the very objects that are later appended to the leaves and split-node lists; their identity is not stated.
- KMedPlusPlus.FirstPick: it states only that the uniformly drawn first position is a valid index.
- Duplicate and draft files (solverInterface.py, kmedpluplus.py, random_centers.py, randomized.py, sklearn_builtins.py), the data loaders, the experiments and the visualisation are not part of this model.
