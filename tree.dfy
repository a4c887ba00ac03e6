/** `build_tree` and its inner `rec_build_tree`: the recursive construction
    of an explainable threshold tree from the clusters of a center
    solution, splitting every node with more than one center at the split
    of fewest mistakes. The same function appears in
    iterative_mistake_minimization.py, Esfandiari_algorithm.py and
    Makarychev_algorithm.py; it is modelled once here.

    The recursion is stated for any split rule, so that what it guarantees
    can be read off from what the rule guarantees for one node; the rule
    `find_split` uses is `ImmSplit`. */
module TreeBuild {
  import opened Wrappers
  import opened Seqs
  import opened Geometry
  import opened SolverInterface

  /** The value of a built tree. */
  datatype Tree =
    | Leaf(data: NodeData)
    | Inner(data: NodeData, split: SplitChoice, left: Tree, right: Tree)

  /** `find_split` as a split rule. Nodes whose centers and points do not
      all have one coordinate per bound never arise; the rule fails on them. */
  function ImmSplit(n: NodeData): (r: Result<(SplitChoice, NodeData, NodeData), Error>)
    ensures r.Success? ==> WellFormed(n)
  {
    if WellFormed(n) then NodeSplit(n) else Failure(NoCenters)
  }

  /** `ImmSplit` is `find_split`. */
  lemma ImmSplitIsFindSplit()
    ensures IsFindSplit(ImmSplit)
  {
  }

  /** `rec_build_tree` on values: a homogeneous node is a leaf, any other
      is split by `rule` and both children are built, left first. `fuel`
      bounds the depth of the recursion (Python's recursion limit). */
  function Build(rule: SplitRule, n: NodeData, fuel: nat): (r: Result<Tree, Error>)
    ensures r.Success? ==> r.value.data == n
    decreases fuel, 0
  {
    if fuel == 0 then Failure(RecursionLimit)
    else if |n.clusters| == 1 then Success(Leaf(n))
    else Grow(rule, n, fuel - 1)
  }

  /** The `else` branch of `rec_build_tree`: split, then build both
      children. */
  function Grow(rule: SplitRule, n: NodeData, fuel: nat): (r: Result<Tree, Error>)
    ensures r.Success? ==> r.value.data == n
    decreases fuel, 2
  {
    match rule(n)
    case Failure(e) => Failure(e)
    case Success((s, l, rt)) =>
      match BuildPair(rule, l, rt, fuel)
      case Failure(e) => Failure(e)
      case Success((lt, rtt)) => Success(Inner(n, s, lt, rtt))
  }

  /** The two recursive calls of `rec_build_tree`: the left child is built
      first, and its error, if any, is the one raised. */
  function BuildPair(rule: SplitRule, l: NodeData, rt: NodeData, fuel: nat): (r: Result<(Tree, Tree), Error>)
    ensures r.Success? ==> r.value.0.data == l && r.value.1.data == rt
    decreases fuel, 1
  {
    match Build(rule, l, fuel)
    case Failure(e) => Failure(e)
    case Success(lt) =>
      match Build(rule, rt, fuel)
      case Failure(e) => Failure(e)
      case Success(rtt) => Success((lt, rtt))
  }

  /** A tree `rule` grows: homogeneous leaves, and every other node split
      as `rule` splits it, with the children's subtrees grown alike. */
  ghost predicate Grown(rule: SplitRule, t: Tree)
    decreases t
  {
    match t
    case Leaf(n) => |n.clusters| == 1
    case Inner(n, s, l, r) =>
      && |n.clusters| != 1
      && rule(n) == Success((s, l.data, r.data))
      && Grown(rule, l) && Grown(rule, r)
  }

  /** The depth of the recursion that builds `t`. */
  function Height(t: Tree): (h: nat)
    ensures h > 0
  {
    match t
    case Leaf(_) => 1
    case Inner(_, _, l, r) => 1 + (if Height(l) >= Height(r) then Height(l) else Height(r))
  }

  /** A successful build grows its tree within the recursion limit ... */
  lemma {:induction false} BuildGrows(rule: SplitRule, n: NodeData, fuel: nat)
    requires Build(rule, n, fuel).Success?
    ensures Grown(rule, Build(rule, n, fuel).value) && Height(Build(rule, n, fuel).value) <= fuel
    decreases fuel
  {
    if |n.clusters| != 1 {
      var (s, l, rt) := rule(n).value;
      assert BuildPair(rule, l, rt, fuel - 1).Success?;
      BuildGrows(rule, l, fuel - 1);
      BuildGrows(rule, rt, fuel - 1);
    }
  }

  /** ... and every tree the rule grows within the limit is what the build
      returns: the build is the only way to grow it. */
  lemma {:induction false} GrownIsBuilt(rule: SplitRule, t: Tree, fuel: nat)
    requires Grown(rule, t) && Height(t) <= fuel
    ensures Build(rule, t.data, fuel) == Success(t)
    decreases t
  {
    if t.Inner? {
      GrownIsBuilt(rule, t.left, fuel - 1);
      GrownIsBuilt(rule, t.right, fuel - 1);
      assert BuildPair(rule, t.left.data, t.right.data, fuel - 1) == Success((t.left, t.right));
    }
  }

  /** Once the recursion limit suffices, more room changes nothing. */
  lemma BuildFuelMonotone(rule: SplitRule, n: NodeData, fuel: nat, more: nat)
    requires Build(rule, n, fuel).Success? && fuel <= more
    ensures Build(rule, n, more) == Build(rule, n, fuel)
  {
    BuildGrows(rule, n, fuel);
    GrownIsBuilt(rule, Build(rule, n, fuel).value, more);
  }

  // ------------------------------------------------- what a split guarantees

  /** What one split guarantees: the node and both children are well
      formed; the children keep the node's centers between them, each
      once, and so many points that the rest are the split's mistakes; a
      node inside its box has children inside theirs. */
  predicate SplitSound(n: NodeData, r: Result<(SplitChoice, NodeData, NodeData), Error>)
  {
    r.Success? ==>
      var (s, l, rt) := r.value;
      && WellFormed(n) && WellFormed(l) && WellFormed(rt)
      && multiset(CentersOf(l.clusters)) + multiset(CentersOf(rt.clusters)) == multiset(CentersOf(n.clusters))
      && |l.clusters| + |rt.clusters| == |n.clusters|
      && TotalMembers(l.clusters) + TotalMembers(rt.clusters) + s.mistakes == TotalMembers(n.clusters)
      && (InsideBox(n) ==> InsideBox(l) && InsideBox(rt))
      && |l.bounds| == |n.bounds| && |rt.bounds| == |n.bounds|
  }

  ghost predicate Sound(rule: SplitRule)
  {
    forall n :: SplitSound(n, rule(n))
  }

  /** `find_split` is sound. */
  lemma ImmSplitSound()
    ensures Sound(ImmSplit)
  {
    forall n ensures SplitSound(n, ImmSplit(n)) {
      if WellFormed(n) && NodeSplit(n).Success? {
        var (s, l, rt) := NodeSplit(n).value;
        FindBestSplitIsOptimal(n);
        SplitPartitionsCenters(n, s.dim, s.theta);
        assert |multiset(CentersOf(l.clusters))| + |multiset(CentersOf(rt.clusters))| == |multiset(CentersOf(n.clusters))|;
        SplitDropsMistakes(n, s.dim, s.theta);
        if InsideBox(n) {
          SplitPreservesInsideBox(n, s.dim, s.theta);
        }
      }
    }
  }

  // ------------------------------------------------------ the built tree

  /** What `rec_build_tree` appends to `split_nodes` for one split node:
      the node, its split and its two children. */
  datatype SplitRecord = SplitRecord(data: NodeData, split: SplitChoice, left: NodeData, right: NodeData)

  /** The leaves, left to right (the order they are appended). */
  function LeafNodes(t: Tree): (r: seq<NodeData>)
    ensures |r| > 0
  {
    match t
    case Leaf(n) => [n]
    case Inner(_, _, l, r) => LeafNodes(l) + LeafNodes(r)
  }

  /** The split nodes, each before its subtrees (the order they are appended). */
  function InnerNodes(t: Tree): seq<SplitRecord>
  {
    match t
    case Leaf(_) => []
    case Inner(n, s, l, r) => [SplitRecord(n, s, l.data, r.data)] + (InnerNodes(l) + InnerNodes(r))
  }

  /** The centers of the leaves, left to right. */
  function LeafCenters(t: Tree): seq<Point>
  {
    match t
    case Leaf(n) => CentersOf(n.clusters)
    case Inner(_, _, l, r) => LeafCenters(l) + LeafCenters(r)
  }

  /** The points kept in the leaves. */
  function LeafMembers(t: Tree): nat
  {
    match t
    case Leaf(n) => TotalMembers(n.clusters)
    case Inner(_, _, l, r) => LeafMembers(l) + LeafMembers(r)
  }

  /** The mistakes made by all splits. */
  function TreeMistakes(t: Tree): nat
  {
    match t
    case Leaf(_) => 0
    case Inner(_, s, l, r) => s.mistakes + TreeMistakes(l) + TreeMistakes(r)
  }

  /** Every leaf of a grown tree is homogeneous. */
  lemma {:induction false} GrownLeavesHomogeneous(rule: SplitRule, t: Tree)
    requires Grown(rule, t)
    ensures forall k :: 0 <= k < |LeafNodes(t)| ==> |LeafNodes(t)[k].clusters| == 1
    decreases t
  {
    if t.Inner? {
      GrownLeavesHomogeneous(rule, t.left);
      GrownLeavesHomogeneous(rule, t.right);
      var ll, rl := LeafNodes(t.left), LeafNodes(t.right);
      assert forall k :: |ll| <= k < |ll| + |rl| ==> LeafNodes(t)[k] == rl[k - |ll|];
    }
  }

  /** A sound rule grows one leaf per center of the root and one split
      fewer than leaves. */
  lemma {:induction false} GrownShape(rule: SplitRule, t: Tree)
    requires Sound(rule) && Grown(rule, t)
    ensures |LeafNodes(t)| == |t.data.clusters|
    ensures |InnerNodes(t)| + 1 == |LeafNodes(t)|
    decreases t
  {
    if t.Inner? {
      assert SplitSound(t.data, rule(t.data));
      GrownShape(rule, t.left);
      GrownShape(rule, t.right);
    }
  }

  /** Every center of the root ends in exactly one leaf: the leaves'
      centers are a permutation of the root's. */
  lemma {:induction false} GrownKeepsCenters(rule: SplitRule, t: Tree)
    requires Sound(rule) && Grown(rule, t)
    ensures multiset(LeafCenters(t)) == multiset(CentersOf(t.data.clusters))
    decreases t
  {
    if t.Inner? {
      assert SplitSound(t.data, rule(t.data));
      GrownKeepsCenters(rule, t.left);
      GrownKeepsCenters(rule, t.right);
    }
  }

  /** The number of points kept in the leaves and the mistakes of all
      splits add up to the number of points listed at the root;
      `GrownListsWithin` says which points each leaf keeps. */
  lemma {:induction false} GrownAccountsPoints(rule: SplitRule, t: Tree)
    requires Sound(rule) && Grown(rule, t)
    ensures LeafMembers(t) + TreeMistakes(t) == TotalMembers(t.data.clusters)
    decreases t
  {
    if t.Inner? {
      assert SplitSound(t.data, rule(t.data));
      GrownAccountsPoints(rule, t.left);
      GrownAccountsPoints(rule, t.right);
    }
  }

  /** Starting from a well-formed node inside its box, every leaf is well
      formed, has the root's dimension and keeps its centers and points
      inside its own box. */
  lemma {:induction false} GrownLeavesInBoxes(rule: SplitRule, t: Tree)
    requires Sound(rule) && Grown(rule, t) && WellFormed(t.data) && InsideBox(t.data)
    ensures forall k :: 0 <= k < |LeafNodes(t)| ==>
      WellFormed(LeafNodes(t)[k]) && InsideBox(LeafNodes(t)[k]) && |LeafNodes(t)[k].bounds| == |t.data.bounds|
    decreases t
  {
    if t.Inner? {
      assert SplitSound(t.data, rule(t.data));
      GrownLeavesInBoxes(rule, t.left);
      GrownLeavesInBoxes(rule, t.right);
      var ll, rl := LeafNodes(t.left), LeafNodes(t.right);
      assert forall k :: |ll| <= k < |ll| + |rl| ==> LeafNodes(t)[k] == rl[k - |ll|];
    }
  }

  /** The children `find_split` builds for a node inside its box have
      the root's lists cut down to their boxes when the node has. */
  lemma ImmChildrenListsWithin(root: seq<Cluster>, n: NodeData, s: SplitChoice, l: NodeData, r: NodeData)
    requires ImmSplit(n) == Success((s, l, r)) && InsideBox(n) && ListsWithin(root, n)
    ensures WellFormed(l) && WellFormed(r) && InsideBox(l) && InsideBox(r)
    ensures ListsWithin(root, l) && ListsWithin(root, r)
  {
    FoundThresholdInBox(n);
    SplitPreservesInsideBox(n, s.dim, s.theta);
    SideListsWithin(root, n, s.dim, s.theta, true);
    SideListsWithin(root, n, s.dim, s.theta, false);
  }

  /** Below a node whose lists are those of `root` cut down to its box,
      the lists of every leaf `find_split` grows are those of `root` cut
      down to the leaf's box. */
  lemma {:induction false} GrownListsWithin(root: seq<Cluster>, t: Tree)
    requires Grown(ImmSplit, t) && WellFormed(t.data) && InsideBox(t.data) && ListsWithin(root, t.data)
    ensures forall leaf :: leaf in LeafNodes(t) ==> ListsWithin(root, leaf)
    decreases t
  {
    if t.Inner? {
      ImmChildrenListsWithin(root, t.data, t.split, t.left.data, t.right.data);
      GrownListsWithin(root, t.left);
      GrownListsWithin(root, t.right);
    }
  }

  /** Every recorded split is the one `rule` chooses for a non-homogeneous
      node, with the children it builds. */
  lemma {:induction false} GrownRecordsSplits(rule: SplitRule, t: Tree)
    requires Grown(rule, t)
    ensures forall k :: 0 <= k < |InnerNodes(t)| ==>
      var rec := InnerNodes(t)[k];
      |rec.data.clusters| != 1 && rule(rec.data) == Success((rec.split, rec.left, rec.right))
    decreases t
  {
    if t.Inner? {
      GrownRecordsSplits(rule, t.left);
      GrownRecordsSplits(rule, t.right);
      var li, ri := InnerNodes(t.left), InnerNodes(t.right);
      assert forall k :: 1 <= k < 1 + |li| ==> InnerNodes(t)[k] == li[k - 1];
      assert forall k :: 1 + |li| <= k < 1 + |li| + |ri| ==> InnerNodes(t)[k] == ri[k - 1 - |li|];
    }
  }

  /** A split `find_split` records is its split of fewest mistakes over all
      dimensions and candidates, and its children are the node's two sides
      of that threshold. */
  lemma RecordedSplitIsBest(rec: SplitRecord)
    requires ImmSplit(rec.data) == Success((rec.split, rec.left, rec.right))
    ensures WellFormed(rec.data) && FindBestSplit(rec.data) == Success(rec.split)
    ensures rec.split.dim < |rec.data.bounds| && rec.split.theta in Candidates(rec.data, rec.split.dim)
    ensures forall i, t :: 0 <= i < |rec.data.bounds| && t in Candidates(rec.data, i) ==>
      rec.split.mistakes <= NodeMistakes(rec.data, i, t)
    ensures (rec.left, rec.right) == SplitChildren(rec.data, rec.split.dim, rec.split.theta)
  {
    FindBestSplitIsOptimal(rec.data);
  }

  // ------------------------------------------------------------ the method

  /** The node contents of a list of nodes. */
  function DataOf(xs: seq<ClusterNode>): (r: seq<NodeData>)
    ensures |r| == |xs| && forall k :: 0 <= k < |xs| ==> r[k] == xs[k].Data()
  {
    if |xs| == 0 then [] else [xs[0].Data()] + DataOf(xs[1..])
  }

  /** The split nodes' contents. */
  function RecordData(recs: seq<SplitRecord>): (r: seq<NodeData>)
    ensures |r| == |recs| && forall k :: 0 <= k < |recs| ==> r[k] == recs[k].data
  {
    if |recs| == 0 then [] else [recs[0].data] + RecordData(recs[1..])
  }

  /** The nodes of `xs` are unsplit leaves. */
  ghost predicate Unsplit(xs: seq<ClusterNode>)
    reads xs
  {
    forall k :: 0 <= k < |xs| ==> xs[k].split == None && xs[k].children == []
  }

  /** `x` is the object `rec_build_tree` left behind for the split `rec`. */
  ghost predicate RecordedBy(x: ClusterNode, rec: SplitRecord)
    reads x
  {
    && x.split == Some((rec.split.dim, rec.split.theta))
    && |x.children| == 2 && x.children[0].Data() == rec.left && x.children[1].Data() == rec.right
  }

  /** The nodes of `xs` carry the splits `recs`, in order. */
  ghost predicate SplitAs(xs: seq<ClusterNode>, recs: seq<SplitRecord>)
    reads xs
  {
    |xs| == |recs| && forall k :: 0 <= k < |recs| ==> RecordedBy(xs[k], recs[k])
  }

  /** The nodes `leaves` and `splits` hold the leaves `ls` and the splits
      `recs` of a tree: the leaves are unsplit and every split node carries
      its recorded split and children. */
  ghost predicate Holds(leaves: seq<ClusterNode>, splits: seq<ClusterNode>, ls: seq<NodeData>, recs: seq<SplitRecord>)
    reads leaves, splits
  {
    && DataOf(leaves) == ls && Unsplit(leaves)
    && DataOf(splits) == RecordData(recs) && SplitAs(splits, recs)
  }

  /** `rec_build_tree(node)`, stated against a `rule` that is `find_split`
      (see `ImmSplitIsFindSplit`); `t` is the tree built. The `leaves` and
      `split_nodes` lists of the enclosing `build_tree` are returned as what
      this call appends to them, in order; only `node` and nodes created
      here are changed. */
  method RecBuildTree(node: ClusterNode, ghost rule: SplitRule, fuel: nat)
    returns (r: Result<(seq<ClusterNode>, seq<ClusterNode>), Error>, ghost t: Tree)
    requires WellFormed(node.Data()) && IsFindSplit(rule) && node.split == None && node.children == []
    modifies node
    ensures r.Failure? ==> Build(rule, node.Data(), fuel) == Failure(r.error)
    ensures r.Success? ==> Build(rule, node.Data(), fuel) == Success(t)
    ensures r.Success? ==> Holds(r.value.0, r.value.1, LeafNodes(t), InnerNodes(t))
    ensures r.Success? ==> forall x :: x in r.value.0 ==> x == node || fresh(x)
    ensures r.Success? ==> forall x :: x in r.value.1 ==> x == node || fresh(x)
    decreases fuel, 0
  {
    t := Leaf(node.Data());
    if fuel == 0 {
      return Failure(RecursionLimit), t;
    }
    if node.IsHomogeneous() {
      return Success(([node], [])), t;
    }
    ghost var n := node.Data();
    BuildSplits(rule, n, fuel);
    var found := node.FindSplit(rule);
    if found.Failure? {
      return Failure(found.error), t;
    }
    var (i, theta, left, right) := found.value;
    ghost var (s, l, rt) := rule(n).value;
    node.split := Some((i, theta));
    node.children := [left, right];
    var below, lt, rtt := BuildChildren(left, right, rule, fuel - 1);
    if below.Failure? {
      return Failure(below.error), t;
    }
    var (leaves, splits) := below.value;
    assert forall x :: x in leaves ==> fresh(x);
    assert forall x :: x in [node] + splits ==> x == node || fresh(x);
    assert left.Data() == l && right.Data() == rt;
    BuildSplitSucceeds(rule, n, fuel, s, l, rt, lt, rtt);
    t := Inner(n, s, lt, rtt);
    assert RecordedBy(node, SplitRecord(n, s, l, rt));
    InnerHolds(node, leaves, splits, t);
    r := Success((leaves, [node] + splits));
  }

  /** The two recursive calls `rec_build_tree(node.children[0])` and
      `rec_build_tree(node.children[1])`, and what they append; `lt` and
      `rtt` are the subtrees built. */
  method BuildChildren(left: ClusterNode, right: ClusterNode, ghost rule: SplitRule, fuel: nat)
    returns (r: Result<(seq<ClusterNode>, seq<ClusterNode>), Error>, ghost lt: Tree, ghost rtt: Tree)
    requires WellFormed(left.Data()) && WellFormed(right.Data()) && IsFindSplit(rule) && left != right
    requires left.split == None && left.children == [] && right.split == None && right.children == []
    modifies left, right
    ensures r.Failure? ==> BuildPair(rule, left.Data(), right.Data(), fuel) == Failure(r.error)
    ensures r.Success? ==> BuildPair(rule, left.Data(), right.Data(), fuel) == Success((lt, rtt))
    ensures r.Success? ==> Holds(r.value.0, r.value.1, LeafNodes(lt) + LeafNodes(rtt), InnerNodes(lt) + InnerNodes(rtt))
    ensures r.Success? ==> forall x :: x in r.value.0 ==> x == left || x == right || fresh(x)
    ensures r.Success? ==> forall x :: x in r.value.1 ==> x == left || x == right || fresh(x)
    decreases fuel, 1
  {
    var rl;
    rl, lt := RecBuildTree(left, rule, fuel);
    rtt := lt;
    if rl.Failure? {
      return Failure(rl.error), lt, rtt;
    }
    var (ll, sl) := rl.value;
    assert right !in ll && right !in sl;
    label BeforeRight:
    var rr;
    rr, rtt := RecBuildTree(right, rule, fuel);
    if rr.Failure? {
      return Failure(rr.error), lt, rtt;
    }
    assert unchanged@BeforeRight(ll) && unchanged@BeforeRight(sl);
    var (lr, sr) := rr.value;
    assert forall x :: x in ll + lr ==> x == left || x == right || fresh(x);
    assert forall x :: x in sl + sr ==> x == left || x == right || fresh(x);
    JoinLeaves(ll, lr);
    DataOfAppend(ll, lr);
    JoinSplitLists(sl, sr, InnerNodes(lt), InnerNodes(rtt));
    DataOfAppend(sl, sr);
    RecordDataAppend(InnerNodes(lt), InnerNodes(rtt));
    r := Success((ll + lr, sl + sr));
  }

  lemma DataOfAppend(xs: seq<ClusterNode>, ys: seq<ClusterNode>)
    ensures DataOf(xs + ys) == DataOf(xs) + DataOf(ys)
  {
    assert forall k :: |xs| <= k < |xs| + |ys| ==> (xs + ys)[k] == ys[k - |xs|];
  }

  lemma RecordDataAppend(ps: seq<SplitRecord>, qs: seq<SplitRecord>)
    ensures RecordData(ps + qs) == RecordData(ps) + RecordData(qs)
  {
    assert forall k :: |ps| <= k < |ps| + |qs| ==> (ps + qs)[k] == qs[k - |ps|];
  }

  /** The leaves of two subtrees, appended one after the other. */
  lemma JoinLeaves(xs: seq<ClusterNode>, ys: seq<ClusterNode>)
    requires Unsplit(xs) && Unsplit(ys)
    ensures Unsplit(xs + ys)
  {
    assert forall k :: |xs| <= k < |xs| + |ys| ==> (xs + ys)[k] == ys[k - |xs|];
  }

  /** The split nodes of two subtrees, one after the other. */
  lemma JoinSplitLists(xs: seq<ClusterNode>, ys: seq<ClusterNode>, ps: seq<SplitRecord>, qs: seq<SplitRecord>)
    requires SplitAs(xs, ps) && SplitAs(ys, qs)
    ensures SplitAs(xs + ys, ps + qs)
  {
    forall k | 0 <= k < |ps| + |qs| ensures RecordedBy((xs + ys)[k], (ps + qs)[k]) {
      if k < |ps| {
        assert (xs + ys)[k] == xs[k] && (ps + qs)[k] == ps[k];
      } else {
        assert (xs + ys)[k] == ys[k - |xs|] && (ps + qs)[k] == qs[k - |ps|];
      }
    }
  }

  /** A split node, then the split nodes below it. */
  lemma ConsSplit(x: ClusterNode, ys: seq<ClusterNode>, rec: SplitRecord, qs: seq<SplitRecord>)
    requires RecordedBy(x, rec) && SplitAs(ys, qs) && DataOf(ys) == RecordData(qs) && rec.data == x.Data()
    ensures SplitAs([x] + ys, [rec] + qs) && DataOf([x] + ys) == RecordData([rec] + qs)
  {
    assert ([x] + ys)[1..] == ys && ([rec] + qs)[1..] == qs;
    forall k | 0 <= k < 1 + |qs| ensures RecordedBy(([x] + ys)[k], ([rec] + qs)[k]) {
      if k > 0 {
        assert ([x] + ys)[k] == ys[k - 1] && ([rec] + qs)[k] == qs[k - 1];
      }
    }
  }

  /** A node of several clusters, with fuel left, is built as `rule`
      splits it and as its two children are built. */
  lemma BuildSplits(rule: SplitRule, n: NodeData, fuel: nat)
    requires fuel > 0 && |n.clusters| != 1
    ensures rule(n).Failure? ==> Build(rule, n, fuel) == Failure(rule(n).error)
    ensures rule(n).Success? ==>
      var (s, l, rt) := rule(n).value;
      var pair := BuildPair(rule, l, rt, fuel - 1);
      && (pair.Failure? ==> Build(rule, n, fuel) == Failure(pair.error))
      && (pair.Success? ==> Build(rule, n, fuel) == Success(Inner(n, s, pair.value.0, pair.value.1)))
  {
  }

  /** The same, once both children are built. */
  lemma BuildSplitSucceeds(rule: SplitRule, n: NodeData, fuel: nat, s: SplitChoice, l: NodeData, rt: NodeData, lt: Tree, rtt: Tree)
    requires fuel > 0 && |n.clusters| != 1 && rule(n) == Success((s, l, rt))
    requires BuildPair(rule, l, rt, fuel - 1) == Success((lt, rtt))
    ensures Build(rule, n, fuel) == Success(Inner(n, s, lt, rtt))
  {
  }

  /** The lists of a split node whose children's lists are `leaves` and
      `splits`: the leaves unchanged, the node itself put before the
      split nodes below it. */
  lemma InnerHolds(x: ClusterNode, leaves: seq<ClusterNode>, splits: seq<ClusterNode>, t: Tree)
    requires t.Inner? && x.Data() == t.data
    requires RecordedBy(x, SplitRecord(t.data, t.split, t.left.data, t.right.data))
    requires Holds(leaves, splits, LeafNodes(t.left) + LeafNodes(t.right), InnerNodes(t.left) + InnerNodes(t.right))
    ensures Holds(leaves, [x] + splits, LeafNodes(t), InnerNodes(t))
  {
    ConsSplit(x, splits, SplitRecord(t.data, t.split, t.left.data, t.right.data), InnerNodes(t.left) + InnerNodes(t.right));
  }

  /** The root of `build_tree`: the pre-solution's clusters, unbounded in
      every dimension of the instance. */
  function RootData(inst: Instance, pre: CenterOutput): (n: NodeData)
    requires ValidOutput(pre) && pre.instance == inst && |inst.points| > 0
    ensures WellFormed(n) && InsideBox(n) && |n.bounds| == Dim(inst)
    ensures CentersOf(n.clusters) == Dedup(pre.centers)
    ensures TotalMembers(n.clusters) == |inst.points|
  {
    ClustersOfDims(inst.points, pre.centers, Dim(inst));
    var m := Clusters(inst, pre.centers);
    RootInsideBox(m, Dim(inst));
    NodeData(m, Unbounded(Dim(inst)))
  }

  /** `build_tree(instance, pre_solver)` with the pre-solver's solution
      given: the leaves and split nodes, and the pre-solution's clusters
      (which the Esfandiari and Makarychev versions also return). The
      instance's `dimension()` raises on an empty instance. */
  method BuildTree(inst: Instance, pre: CenterOutput, fuel: nat)
    returns (r: Result<(seq<ClusterNode>, seq<ClusterNode>, seq<Cluster>), Error>, ghost t: Tree)
    requires ValidOutput(pre) && pre.instance == inst
    ensures |inst.points| == 0 ==> r == Failure(EmptyInstance)
    ensures |inst.points| > 0 && r.Failure? ==> Build(ImmSplit, RootData(inst, pre), fuel) == Failure(r.error)
    ensures r.Success? ==> |inst.points| > 0 && Build(ImmSplit, RootData(inst, pre), fuel) == Success(t)
    ensures r.Success? ==> r.value.2 == t.data.clusters && Holds(r.value.0, r.value.1, LeafNodes(t), InnerNodes(t))
  {
    t := Leaf(NodeData([], []));
    if |inst.points| == 0 {
      return Failure(EmptyInstance), t;
    }
    var n := RootData(inst, pre);
    var root := new ClusterNode(n.clusters, n.bounds);
    ImmSplitIsFindSplit();
    var rec;
    rec, t := RecBuildTree(root, ImmSplit, fuel);
    if rec.Failure? {
      return Failure(rec.error), t;
    }
    r := Success((rec.value.0, rec.value.1, n.clusters));
  }

  /** What a successful `build_tree` yields: one leaf per distinct center of
      the pre-solution, each of them homogeneous, well formed and inside its
      box, with every center in exactly one leaf; one split fewer than
      leaves, each the best split of its node; as many points kept in the
      leaves as instance points less the splits' mistakes; and every leaf
      listing, for its center, the points of that center's cluster inside
      the leaf's box. */
  lemma BuildTreeGuarantees(inst: Instance, pre: CenterOutput, fuel: nat)
    requires ValidOutput(pre) && pre.instance == inst && |inst.points| > 0
    requires Build(ImmSplit, RootData(inst, pre), fuel).Success?
    ensures var t := Build(ImmSplit, RootData(inst, pre), fuel).value;
      && |LeafNodes(t)| == |Dedup(pre.centers)|
      && |InnerNodes(t)| + 1 == |LeafNodes(t)|
      && (forall k :: 0 <= k < |LeafNodes(t)| ==>
            && |LeafNodes(t)[k].clusters| == 1 && WellFormed(LeafNodes(t)[k]) && InsideBox(LeafNodes(t)[k])
            && |LeafNodes(t)[k].bounds| == Dim(inst))
      && multiset(LeafCenters(t)) == multiset(Dedup(pre.centers))
      && LeafMembers(t) + TreeMistakes(t) == |inst.points|
      && (forall leaf :: leaf in LeafNodes(t) ==> ListsWithin(Clusters(inst, pre.centers), leaf))
      && (forall k :: 0 <= k < |InnerNodes(t)| ==>
            ImmSplit(InnerNodes(t)[k].data) == Success((InnerNodes(t)[k].split, InnerNodes(t)[k].left, InnerNodes(t)[k].right)))
  {
    var n := RootData(inst, pre);
    var t := Build(ImmSplit, n, fuel).value;
    ImmSplitSound();
    BuildGrows(ImmSplit, n, fuel);
    GrownLeavesHomogeneous(ImmSplit, t);
    GrownShape(ImmSplit, t);
    GrownKeepsCenters(ImmSplit, t);
    GrownAccountsPoints(ImmSplit, t);
    GrownLeavesInBoxes(ImmSplit, t);
    GrownRecordsSplits(ImmSplit, t);
    RootListsWithin(inst, pre);
    GrownListsWithin(n.clusters, t);
  }

  /** At the root every list is its own cluster's list, cut down to the
      unbounded box. */
  lemma RootListsWithin(inst: Instance, pre: CenterOutput)
    requires ValidOutput(pre) && pre.instance == inst && |inst.points| > 0
    ensures RootData(inst, pre).clusters == Clusters(inst, pre.centers)
    ensures ListsWithin(RootData(inst, pre).clusters, RootData(inst, pre))
  {
    var n := RootData(inst, pre);
    assert n == NodeData(n.clusters, Unbounded(Dim(inst)));
    ListsWithinUnbounded(n.clusters, Dim(inst));
  }
}
