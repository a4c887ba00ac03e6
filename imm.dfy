/** `IMM`, iterative mistake minimisation: the default pre-solver
    `KMedPlusPlus(numiter=5)` gives a reference clustering, `build_tree`
    grows a threshold tree from its clusters, and `IMM.__call__` wraps the
    tree in an `ExplainableOutput`. The random draws of the pre-solver are a
    parameter, and `fuel` stands for Python's recursion limit.

    Esfandiari_algorithm.py and Makarychev_algorithm.py define the same
    `build_tree` (their live definitions, which shadow earlier drafts);
    `BuildTree` below models all three. */
module IMM {
  import opened Wrappers
  import opened Seqs
  import opened Geometry
  import opened SolverInterface
  import opened TreeBuild
  import K = KMedPlusPlus

  /** `numiter` of the default pre-solver. */
  const PreIterations := 5

  /** The solution of the default pre-solver `KMedPlusPlus(numiter=5)`. */
  function PreSolution(inst: Instance, draws: seq<real>): (r: Result<CenterOutput, Error>)
    requires ValidInstance(inst) && K.Draws(inst, draws)
    ensures r.Failure? <==> K.SeedOutput(inst, draws).Failure?
    ensures r.Success? ==> |inst.points| > 0 && ValidOutput(r.value) && r.value.instance == inst
  {
    match K.SeedOutput(inst, draws)
    case Failure(e) => Failure(e)
    case Success(co) => Success(K.Iterate(co, K.Rounds(PreIterations)))
  }

  /** The largest number of centers the pre-solver returns, `max(1, k)`. */
  function CenterBound(inst: Instance): (b: int)
    ensures b >= 1 && b >= inst.k
  {
    if inst.k < 1 then 1 else inst.k
  }

  /** `pre_solver(instance)` with the default pre-solver: its centers are
      pairwise different, at least one and at most `max(1, k)` of them. */
  method PreSolve(inst: Instance, draws: seq<real>) returns (r: Result<CenterOutput, Error>)
    requires ValidInstance(inst) && K.Draws(inst, draws)
    ensures r == PreSolution(inst, draws)
    ensures r.Success? ==> Dedup(r.value.centers) == r.value.centers && 0 < |r.value.centers| <= CenterBound(inst)
  {
    r := K.Solve(inst, PreIterations, draws);
    if r.Success? {
      DedupOfDistinct(r.value.centers);
    }
  }

  /** `build_tree(instance)`: fails on an empty instance
      (`instance.dimension()`), runs the pre-solver, puts its clusters in
      an unbounded root and lets `rec_build_tree` grow the tree; `pre` and
      `t` are the pre-solution and the tree. The leaves and split nodes are
      those of `t`, in pre-order, one leaf per pre-solution center; the
      third component is the pre-solution's clusters, unchanged. */
  method BuildTree(inst: Instance, draws: seq<real>, fuel: nat)
    returns (r: Result<(seq<ClusterNode>, seq<ClusterNode>, seq<Cluster>), Error>, ghost pre: CenterOutput, ghost t: Tree)
    requires ValidInstance(inst) && K.Draws(inst, draws)
    ensures |inst.points| == 0 ==> r == Failure(EmptyInstance)
    ensures PreSolution(inst, draws).Failure? ==> r == Failure(PreSolution(inst, draws).error)
    ensures PreSolution(inst, draws).Success? ==>
      && pre == PreSolution(inst, draws).value
      && Dedup(pre.centers) == pre.centers && 0 < |pre.centers| <= CenterBound(inst)
      && (r.Failure? <==> Build(ImmSplit, RootData(inst, pre), fuel).Failure?)
      && (r.Failure? ==> r.error == Build(ImmSplit, RootData(inst, pre), fuel).error)
    ensures r.Success? ==>
      && PreSolution(inst, draws) == Success(pre)
      && Build(ImmSplit, RootData(inst, pre), fuel) == Success(t)
      && r.value.2 == Clusters(inst, pre.centers)
      && Holds(r.value.0, r.value.1, LeafNodes(t), InnerNodes(t))
      && |r.value.0| == |pre.centers| && |r.value.1| + 1 == |r.value.0|
      && LeavesFit(inst, r.value.0)
      && forall j :: 0 <= j < |r.value.0| ==> r.value.0[j].IsHomogeneous()
  {
    t := Leaf(NodeData([], []));
    pre := CenterOutput(inst, [], [], 0.0);
    if |inst.points| == 0 {
      return Failure(EmptyInstance), pre, t;
    }
    var solved := PreSolve(inst, draws);
    if solved.Failure? {
      return Failure(solved.error), pre, t;
    }
    var co := solved.value;
    pre := co;
    var built;
    built, t := TreeBuild.BuildTree(inst, co, fuel);
    if built.Failure? {
      return Failure(built.error), pre, t;
    }
    var (leaves, splits, clusters) := built.value;
    BuildTreeGuarantees(inst, pre, fuel);
    HeldLeaves(inst, leaves, LeafNodes(t));
    r := Success((leaves, splits, clusters));
  }

  /** Unsplit nodes holding the leaves of a grown tree, each a well-formed
      node with a single center and a box of the instance's dimension,
      are homogeneous leaves that fit the instance. */
  lemma HeldLeaves(inst: Instance, leaves: seq<ClusterNode>, ls: seq<NodeData>)
    requires DataOf(leaves) == ls && Unsplit(leaves)
    requires forall k :: 0 <= k < |ls| ==>
      |ls[k].clusters| == 1 && WellFormed(ls[k]) && |ls[k].bounds| == Dim(inst)
    ensures |leaves| == |ls| && LeavesFit(inst, leaves)
    ensures forall j :: 0 <= j < |leaves| ==>
      leaves[j].IsHomogeneous() && leaves[j].split == None && leaves[j].children == []
  {
    forall j | 0 <= j < |leaves|
      ensures WellFormed(leaves[j].Data()) && |leaves[j].bounds| == Dim(inst) && leaves[j].IsHomogeneous()
    {
      assert leaves[j].Data() == ls[j];
    }
  }

  /** `out` is what `ExplainableOutput(instance, leaves, split_nodes)`
      makes of the leaves and split nodes of the tree `t`. */
  ghost predicate Explains(inst: Instance, t: Tree, out: ExplainableOutput)
    requires ValidInstance(inst)
    reads out.leaves, out.splitNodes
  {
    && Holds(out.leaves, out.splitNodes, LeafNodes(t), InnerNodes(t))
    && LeavesFit(inst, out.leaves)
    && MakeExplainableOutput(inst, out.leaves, out.splitNodes) == Success(out)
  }

  /** A leaf of `t` that has no cluster, or whose first cluster has no
      points, so that it has no medoid. */
  predicate HasEmptyLeaf(t: Tree)
  {
    exists j :: 0 <= j < |LeafNodes(t)| && (|LeafNodes(t)[j].clusters| == 0 || |LeafNodes(t)[j].clusters[0].points| == 0)
  }

  /** What `IMM.__call__` leaves behind for one instance, draws and
      recursion limit, given the pre-solution `pre` and the tree `t`: the
      pre-solver's error, or the error of growing the tree, or, with a
      grown tree, the failure to find a medoid in a leaf with no points,
      or else an `ExplainableOutput` whose leaves and split nodes hold the
      leaves and splits of `t`. */
  ghost predicate Yields(inst: Instance, draws: seq<real>, fuel: nat, pre: CenterOutput, t: Tree, r: Result<ExplainableOutput, Error>)
    requires ValidInstance(inst) && K.Draws(inst, draws)
    reads if r.Success? then r.value.leaves else [], if r.Success? then r.value.splitNodes else []
  {
    match PreSolution(inst, draws)
    case Failure(e) => r == Failure(e)
    case Success(co) =>
      && pre == co
      && Dedup(pre.centers) == pre.centers && 0 < |pre.centers| <= CenterBound(inst)
      && match Build(ImmSplit, RootData(inst, pre), fuel)
         case Failure(e) => r == Failure(e)
         case Success(tree) =>
           && t == tree
           && (r.Failure? <==> HasEmptyLeaf(t))
           && (r.Failure? ==> r.error == EmptyLeaf)
           && (r.Success? ==> Explains(inst, t, r.value))
  }

  /** `IMM()(instance)`: the leaves and split nodes of `build_tree`, wrapped
      in an `ExplainableOutput`. */
  method Solve(inst: Instance, draws: seq<real>, fuel: nat)
    returns (r: Result<ExplainableOutput, Error>, ghost pre: CenterOutput, ghost t: Tree)
    requires ValidInstance(inst) && K.Draws(inst, draws)
    ensures |inst.points| == 0 ==> r == Failure(EmptyInstance)
    ensures Yields(inst, draws, fuel, pre, t, r)
  {
    var built;
    built, pre, t := BuildTree(inst, draws, fuel);
    if built.Failure? {
      return Failure(built.error), pre, t;
    }
    var (leaves, splits, _) := built.value;
    r := MakeExplainableOutput(inst, leaves, splits);
    LeafWithoutPoints(t, leaves);
  }

  /** A leaf has no medoid exactly when it has no cluster or its first
      cluster has no points. */
  lemma LeafWithoutPoints(t: Tree, leaves: seq<ClusterNode>)
    requires DataOf(leaves) == LeafNodes(t)
    requires forall j :: 0 <= j < |leaves| ==> WellFormed(leaves[j].Data())
    ensures LeafMedoids(leaves).Failure? <==> HasEmptyLeaf(t)
  {
    LeafMedoidsFail(leaves);
    var ls := LeafNodes(t);
    assert forall j :: 0 <= j < |leaves| ==> ls[j] == leaves[j].Data();
  }

  /** `t` is the tree `rec_build_tree` grows from the clusters of the
      pre-solution `pre` of a non-empty instance, within the recursion
      limit `fuel`. */
  ghost predicate GrownFrom(inst: Instance, fuel: nat, pre: CenterOutput, t: Tree)
  {
    && ValidOutput(pre) && pre.instance == inst && |inst.points| > 0
    && Build(ImmSplit, RootData(inst, pre), fuel) == Success(t)
  }

  /** An explainable solution of `IMM.__call__` comes from the default
      pre-solution, whose centers are pairwise different and at most
      `max(1, k)`, and from the tree grown from it. */
  lemma SolvedByTree(inst: Instance, draws: seq<real>, fuel: nat, pre: CenterOutput, t: Tree, out: ExplainableOutput)
    requires ValidInstance(inst) && K.Draws(inst, draws)
    requires Yields(inst, draws, fuel, pre, t, Success(out))
    ensures PreSolution(inst, draws) == Success(pre)
    ensures Dedup(pre.centers) == pre.centers && 0 < |pre.centers| <= CenterBound(inst)
    ensures GrownFrom(inst, fuel, pre, t) && Explains(inst, t, out)
  {
  }
}

/** What the explainable solution of `IMM.__call__` guarantees, stated
    for the tree grown from its pre-solution (`IMM.SolvedByTree`). */
module IMMGuarantees {
  import opened Seqs
  import opened Geometry
  import opened Wrappers
  import opened SolverInterface
  import opened TreeBuild
  import opened IMM

  /** The leaves: one per pre-solution center, and one split node fewer;
      every leaf is an unsplit node with a single center, and the leaves'
      centers are the pre-solution's centers in some order. */
  lemma ExplainedLeaves(inst: Instance, fuel: nat, pre: CenterOutput, t: Tree, out: ExplainableOutput)
    requires GrownFrom(inst, fuel, pre, t) && Dedup(pre.centers) == pre.centers
    requires Holds(out.leaves, out.splitNodes, LeafNodes(t), InnerNodes(t))
    ensures |out.leaves| == |pre.centers| && |out.splitNodes| + 1 == |out.leaves|
    ensures forall j :: 0 <= j < |out.leaves| ==>
      out.leaves[j].IsHomogeneous() && out.leaves[j].split == None && out.leaves[j].children == []
    ensures multiset(LeafCenters(t)) == multiset(pre.centers)
  {
    BuildTreeGuarantees(inst, pre, fuel);
    HeldLeaves(inst, out.leaves, LeafNodes(t));
  }

  /** The split nodes: each has two children and carries the split of
      fewest mistakes that `find_split` chooses for it, with those two
      children. */
  lemma ExplainedSplits(inst: Instance, fuel: nat, pre: CenterOutput, t: Tree, out: ExplainableOutput)
    requires GrownFrom(inst, fuel, pre, t)
    requires Holds(out.leaves, out.splitNodes, LeafNodes(t), InnerNodes(t))
    ensures |out.splitNodes| == |InnerNodes(t)|
    ensures forall j :: 0 <= j < |out.splitNodes| ==>
      && |out.splitNodes[j].children| == 2
      && out.splitNodes[j].split == Some((InnerNodes(t)[j].split.dim, InnerNodes(t)[j].split.theta))
      && ImmSplit(out.splitNodes[j].Data())
           == Success((InnerNodes(t)[j].split, out.splitNodes[j].children[0].Data(), out.splitNodes[j].children[1].Data()))
  {
    BuildTreeGuarantees(inst, pre, fuel);
    HeldSplits(out.splitNodes, InnerNodes(t));
  }

  /** Nodes carrying recorded splits that `find_split` chose carry those
      splits and children. */
  lemma HeldSplits(splits: seq<ClusterNode>, recs: seq<SplitRecord>)
    requires DataOf(splits) == RecordData(recs) && SplitAs(splits, recs)
    requires forall k :: 0 <= k < |recs| ==>
      ImmSplit(recs[k].data) == Success((recs[k].split, recs[k].left, recs[k].right))
    ensures |splits| == |recs|
    ensures forall j :: 0 <= j < |splits| ==>
      && |splits[j].children| == 2
      && splits[j].split == Some((recs[j].split.dim, recs[j].split.theta))
      && ImmSplit(splits[j].Data()) == Success((recs[j].split, splits[j].children[0].Data(), splits[j].children[1].Data()))
  {
    forall j | 0 <= j < |splits|
      ensures ImmSplit(splits[j].Data()) == Success((recs[j].split, splits[j].children[0].Data(), splits[j].children[1].Data()))
    {
      assert splits[j].Data() == recs[j].data && RecordedBy(splits[j], recs[j]);
    }
  }

  /** The medoids: one per leaf, a point of that leaf's cluster. */
  lemma ExplainedMedoids(inst: Instance, t: Tree, out: ExplainableOutput)
    requires ValidInstance(inst) && Explains(inst, t, out)
    ensures |out.medoids| == |out.leaves| && forall j :: 0 <= j < |out.leaves| ==>
      WellFormed(out.leaves[j].Data()) && IsLeafMedoid(out.leaves[j], out.medoids[j])
  {
  }

  /** The clusters: every instance point, and nothing else, is listed
      under its closest medoid. */
  lemma ExplainedClusters(inst: Instance, t: Tree, out: ExplainableOutput)
    requires ValidInstance(inst) && Explains(inst, t, out)
    ensures out.instance == inst && 0 < |out.medoids| && HasDim(out.medoids, Dim(inst))
    ensures CentersOf(out.clusters) == Dedup(out.medoids)
    ensures forall j, x :: 0 <= j < |out.clusters| ==>
      (x in out.clusters[j].points <==> x in inst.points && AssignedTo(x, out.medoids) == out.clusters[j].center)
  {
    MedoidsFit(inst, out.leaves, out.medoids);
  }
}
