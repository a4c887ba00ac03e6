/** solver_interface.py: instances, center solutions and their clusters,
    the mistake test, the tree node with its mistake-minimising split,
    and the explainable solution assembled from the leaves. */
module SolverInterface {
  import opened Wrappers
  import opened Seqs
  import opened Geometry

  /** The ways the Python code raises in the modelled operations. */
  datatype Error =
    | EmptyInstance       // `instance.dimension()` or `np.random.choice` on no points (IndexError, ValueError)
    | NoCenters           // `ClusterNode.dimension()` on a node without centers (IndexError)
    | NoCandidates        // `min` of an empty list of thresholds or of dimensions (ValueError)
    | NoCentersToAssign   // `closest_center` with an empty list of centers (ValueError)
    | EmptyLeaf           // a leaf without a cluster, or with an empty one, has no medoid
    | RecursionLimit      // the recursion of `rec_build_tree` ran out of stack (RecursionError)
    | NoSeedPossible      // the seeding weights sum to zero (ValueError of `np.random.choice`)
    | BadSampleSize       // `random.sample` of a negative size or more than the population (ValueError)
    | DegenerateRanges    // `median_split` on centers that agree in every dimension: `sum(R)` is zero

  // ---------------------------------------------------------------- Instance

  /** An instance of the k-median problem. */
  datatype Instance = Instance(points: seq<Point>, k: int)

  /** `Instance.dimension`, which indexes the first point. */
  function Dim(inst: Instance): nat
  {
    if |inst.points| == 0 then 0 else |inst.points[0].coords|
  }

  /** "All instances are valid d-dimensional euclidean instances". */
  predicate ValidInstance(inst: Instance)
  {
    HasDim(inst.points, Dim(inst))
  }

  // ----------------------------------------------------- nearest assignment

  /** Centers of the instance's dimension. */
  predicate FitsInstance(inst: Instance, centers: seq<Point>)
  {
    ValidInstance(inst) && (|inst.points| > 0 ==> HasDim(centers, Dim(inst)))
  }

  /** The center `closest_center` assigns `p` to. */
  function AssignedTo(p: Point, centers: seq<Point>): (c: Point)
    requires |centers| > 0 && HasDim(centers, |p.coords|)
    ensures exists k: nat :: IsClosestAt(p, centers, k) && c == centers[k]
  {
    centers[ClosestIndex(p, centers)]
  }

  /** The `assignment` field: for every instance point, in order, its
      closest center and the distance to it. */
  function Assign(inst: Instance, centers: seq<Point>): (a: seq<(Point, real)>)
    requires FitsInstance(inst, centers) && (|inst.points| > 0 ==> |centers| > 0)
    ensures |a| == |inst.points|
    ensures forall j :: 0 <= j < |a| ==>
              && a[j].0 in centers
              && a[j] == (AssignedTo(inst.points[j], centers), Dist(inst.points[j], a[j].0))
              && (forall k :: 0 <= k < |centers| ==> a[j].1 <= Dist(inst.points[j], centers[k]))
  {
    AssignPoints(inst.points, centers)
  }

  /** `e` is what `closest_center(p, centers)` returns: the closest center
      and the distance to it. */
  predicate IsNearestEntry(p: Point, centers: seq<Point>, e: (Point, real))
  {
    && |centers| > 0 && HasDim(centers, |p.coords|)
    && e.0 in centers
    && e == (AssignedTo(p, centers), Dist(p, e.0))
    && (forall k :: 0 <= k < |centers| ==> e.1 <= Dist(p, centers[k]))
  }

  lemma NearestEntry(p: Point, centers: seq<Point>)
    requires |centers| > 0 && HasDim(centers, |p.coords|)
    ensures IsNearestEntry(p, centers, (AssignedTo(p, centers), Dist(p, AssignedTo(p, centers))))
  {
  }

  /** The nearest-center assignment of `points`, point by point. */
  function AssignPoints(points: seq<Point>, centers: seq<Point>): (a: seq<(Point, real)>)
    requires |points| > 0 ==> |centers| > 0
    requires forall j :: 0 <= j < |points| ==> HasDim(centers, |points[j].coords|)
    ensures |a| == |points|
    ensures forall j :: 0 <= j < |a| ==> IsNearestEntry(points[j], centers, a[j])
  {
    if |points| == 0 then []
    else
      var init := points[..|points| - 1];
      var p := points[|points| - 1];
      assert forall j :: 0 <= j < |init| ==> init[j] == points[j];
      var c := AssignedTo(p, centers);
      NearestEntry(p, centers);
      var rest := AssignPoints(init, centers);
      AppendNearest(points, centers, rest, (c, Dist(p, c)));
      rest + [(c, Dist(p, c))]
  }

  /** One more entry for the last point extends the assignment of the
      points before it. */
  lemma AppendNearest(points: seq<Point>, centers: seq<Point>, rest: seq<(Point, real)>, e: (Point, real))
    requires |points| > 0 && |rest| == |points| - 1
    requires forall j :: 0 <= j < |rest| ==> IsNearestEntry(points[j], centers, rest[j])
    requires IsNearestEntry(points[|points| - 1], centers, e)
    ensures forall j :: 0 <= j < |points| ==> IsNearestEntry(points[j], centers, (rest + [e])[j])
  {
    forall j | 0 <= j < |points| ensures IsNearestEntry(points[j], centers, (rest + [e])[j]) {
      if j < |rest| {
        assert (rest + [e])[j] == rest[j];
        assert IsNearestEntry(points[j], centers, rest[j]);
      } else {
        assert (rest + [e])[j] == e;
      }
    }
  }

  /** The sum of the recorded distances. */
  function AssignedCost(a: seq<(Point, real)>): real
  {
    if |a| == 0 then 0.0 else a[0].1 + AssignedCost(a[1..])
  }

  /** The cost of putting `points[j]` under `centers[choice[j]]`. */
  function ChoiceCost(points: seq<Point>, centers: seq<Point>, choice: seq<nat>, d: nat): real
    requires |choice| == |points| && HasDim(points, d) && HasDim(centers, d)
    requires forall j :: 0 <= j < |choice| ==> choice[j] < |centers|
  {
    if |points| == 0 then 0.0
    else Dist(points[0], centers[choice[0]]) + ChoiceCost(points[1..], centers, choice[1..], d)
  }

  /** No other way of putting the instance points under the centers is
      cheaper than the nearest-center assignment. */
  lemma {:induction false} AssignedCostIsMinimal(inst: Instance, centers: seq<Point>, choice: seq<nat>)
    requires FitsInstance(inst, centers) && |inst.points| > 0 && |centers| > 0
    requires |choice| == |inst.points| && forall j :: 0 <= j < |choice| ==> choice[j] < |centers|
    ensures AssignedCost(Assign(inst, centers)) <= ChoiceCost(inst.points, centers, choice, Dim(inst))
  {
    var a := Assign(inst, centers);
    CostBelowChoice(inst.points, centers, a, choice, Dim(inst));
  }

  lemma {:induction false} CostBelowChoice(points: seq<Point>, centers: seq<Point>, a: seq<(Point, real)>, choice: seq<nat>, d: nat)
    requires |a| == |points| == |choice| && HasDim(points, d) && HasDim(centers, d)
    requires forall j :: 0 <= j < |choice| ==> choice[j] < |centers|
    requires forall j :: 0 <= j < |a| ==> a[j].1 <= Dist(points[j], centers[choice[j]])
    ensures AssignedCost(a) <= ChoiceCost(points, centers, choice, d)
  {
    if |points| > 0 {
      CostBelowChoice(points[1..], centers, a[1..], choice[1..], d);
    }
  }

  lemma {:induction false} AssignedCostNonNegative(inst: Instance, centers: seq<Point>)
    requires FitsInstance(inst, centers) && (|inst.points| > 0 ==> |centers| > 0)
    ensures AssignedCost(Assign(inst, centers)) >= 0.0
  {
    var a := Assign(inst, centers);
    forall j | 0 <= j < |a| ensures a[j].1 >= 0.0 {
      L1NonNegative(inst.points[j].coords, a[j].0.coords);
    }
    CostNonNegative(a);
  }

  lemma {:induction false} CostNonNegative(a: seq<(Point, real)>)
    requires forall j :: 0 <= j < |a| ==> a[j].1 >= 0.0
    ensures AssignedCost(a) >= 0.0
  {
    if |a| > 0 {
      CostNonNegative(a[1..]);
    }
  }

  // ----------------------------------------------------------------- clusters

  /** One entry of a `dict[Point, list[Point]]`: a center and its points. */
  datatype Cluster = Cluster(center: Point, points: seq<Point>)

  /** The keys of a cluster dict, in insertion order. */
  function CentersOf(m: seq<Cluster>): (cs: seq<Point>)
    ensures |cs| == |m| && forall k :: 0 <= k < |m| ==> cs[k] == m[k].center
  {
    seq(|m|, k requires 0 <= k < |m| => m[k].center)
  }

  /** The number of points listed under all centers. */
  function TotalMembers(m: seq<Cluster>): nat
  {
    if |m| == 0 then 0 else |m[0].points| + TotalMembers(m[1..])
  }

  /** The instance points assigned to `c`, in instance order. */
  function Members(points: seq<Point>, centers: seq<Point>, c: Point): (r: seq<Point>)
    requires |points| > 0 ==> |centers| > 0
    requires forall j :: 0 <= j < |points| ==> HasDim(centers, |points[j].coords|)
    ensures forall x :: x in r <==> x in points && AssignedTo(x, centers) == c
  {
    if |points| == 0 then []
    else
      var rest := Members(points[1..], centers, c);
      assert forall x :: x in points <==> x == points[0] || x in points[1..];
      if AssignedTo(points[0], centers) == c then [points[0]] + rest else rest
  }

  /** `pts` lists, in order and once per occurrence, exactly the points
      of `points` that `centers` assigns to `c`. */
  ghost predicate ListsAssigned(pts: seq<Point>, points: seq<Point>, centers: seq<Point>, c: Point)
    requires |points| > 0 ==> |centers| > 0
    requires forall j :: 0 <= j < |points| ==> HasDim(centers, |points[j].coords|)
  {
    exists idx: seq<nat> ::
      && Picks(pts, points, idx)
      && (forall j :: 0 <= j < |points| ==> (j in idx <==> AssignedTo(points[j], centers) == c))
  }

  /** For each instance point, whether `centers` assigns it to `c`. */
  function AssignedMarks(points: seq<Point>, centers: seq<Point>, c: Point): (m: seq<bool>)
    requires |points| > 0 ==> |centers| > 0
    requires forall j :: 0 <= j < |points| ==> HasDim(centers, |points[j].coords|)
    ensures |m| == |points|
    ensures forall j :: 0 <= j < |points| ==> (m[j] <==> AssignedTo(points[j], centers) == c)
  {
    seq(|points|, j requires 0 <= j < |points| => AssignedTo(points[j], centers) == c)
  }

  /** `Members` keeps the marked points. */
  lemma {:induction false} MembersIsKeep(points: seq<Point>, centers: seq<Point>, c: Point)
    requires |points| > 0 ==> |centers| > 0
    requires forall j :: 0 <= j < |points| ==> HasDim(centers, |points[j].coords|)
    ensures Members(points, centers, c) == Keep(points, AssignedMarks(points, centers, c))
  {
    if |points| > 0 {
      var tail := points[1..];
      MembersIsKeep(tail, centers, c);
      assert AssignedMarks(points, centers, c)[1..] == AssignedMarks(tail, centers, c);
    }
  }

  /** `Members` keeps, in instance order, exactly the positions of the
      points assigned to `c`: a point listed twice in the instance is
      listed twice. */
  lemma MembersInOrder(points: seq<Point>, centers: seq<Point>, c: Point)
    requires |points| > 0 ==> |centers| > 0
    requires forall j :: 0 <= j < |points| ==> HasDim(centers, |points[j].coords|)
    ensures exists idx: seq<nat> ::
      && Picks(Members(points, centers, c), points, idx)
      && (forall j :: 0 <= j < |points| ==> (j in idx <==> AssignedTo(points[j], centers) == c))
  {
    var marks := AssignedMarks(points, centers, c);
    MembersIsKeep(points, centers, c);
    KeepPicks(points, marks);
    PositionsMarked(marks);
    assert Picks(Members(points, centers, c), points, Positions(marks));
  }

  /** `CenterOutput.clusters`: the dict from each center (the first
      occurrence of a repeated center keeps its place) to its points. */
  function ClustersOf(points: seq<Point>, centers: seq<Point>): (m: seq<Cluster>)
    requires |points| > 0 ==> |centers| > 0
    requires forall j :: 0 <= j < |points| ==> HasDim(centers, |points[j].coords|)
    ensures CentersOf(m) == Dedup(centers)
    ensures forall k, x :: 0 <= k < |m| ==> (x in m[k].points <==> x in points && AssignedTo(x, centers) == m[k].center)
  {
    var keys := Dedup(centers);
    var m := MemberClusters(points, centers, keys);
    assert CentersOf(m) == keys;
    m
  }

  /** Every instance point is listed exactly once over all clusters. */
  lemma {:induction false} ClustersCoverPoints(points: seq<Point>, centers: seq<Point>)
    requires |points| > 0 ==> |centers| > 0
    requires forall j :: 0 <= j < |points| ==> HasDim(centers, |points[j].coords|)
    ensures TotalMembers(ClustersOf(points, centers)) == |points|
  {
    var keys := Dedup(centers);
    DedupDistinct(centers);
    MembersSum(points, centers, keys);
  }

  /** The clusters of the given keys. */
  function MemberClusters(points: seq<Point>, centers: seq<Point>, keys: seq<Point>): (m: seq<Cluster>)
    requires |points| > 0 ==> |centers| > 0
    requires forall j :: 0 <= j < |points| ==> HasDim(centers, |points[j].coords|)
    ensures |m| == |keys| && forall k :: 0 <= k < |keys| ==> m[k] == Cluster(keys[k], Members(points, centers, keys[k]))
  {
    if |keys| == 0 then []
    else
      var rest := MemberClusters(points, centers, keys[1..]);
      var m := [Cluster(keys[0], Members(points, centers, keys[0]))] + rest;
      assert forall k :: 1 <= k < |keys| ==> m[k] == rest[k - 1] && keys[k] == keys[1..][k - 1];
      m
  }

  /** How often `c` occurs in `keys`. */
  function Occurrences(c: Point, keys: seq<Point>): nat
  {
    if |keys| == 0 then 0 else (if keys[0] == c then 1 else 0) + Occurrences(c, keys[1..])
  }

  lemma {:induction false} OccursOnce(c: Point, keys: seq<Point>)
    requires c in keys
    requires forall i, j :: 0 <= i < j < |keys| ==> keys[i] != keys[j]
    ensures Occurrences(c, keys) == 1
  {
    if keys[0] == c {
      NotOccurring(c, keys[1..]);
    } else {
      OccursOnce(c, keys[1..]);
    }
  }

  lemma {:induction false} NotOccurring(c: Point, keys: seq<Point>)
    requires c !in keys
    ensures Occurrences(c, keys) == 0
  {
    if |keys| > 0 {
      NotOccurring(c, keys[1..]);
    }
  }

  lemma {:induction false} MembersSum(points: seq<Point>, centers: seq<Point>, keys: seq<Point>)
    requires |points| > 0 ==> |centers| > 0
    requires forall j :: 0 <= j < |points| ==> HasDim(centers, |points[j].coords|)
    requires forall x :: x in centers ==> x in keys
    requires forall i, j :: 0 <= i < j < |keys| ==> keys[i] != keys[j]
    ensures TotalMembers(MemberClusters(points, centers, keys)) == |points|
    decreases |points|
  {
    if |points| == 0 {
      MembersEmpty(points, centers, keys);
    } else {
      var p := points[0];
      var c := AssignedTo(p, centers);
      OccursOnce(c, keys);
      MembersSplit(points, centers, keys);
      MembersSum(points[1..], centers, keys);
    }
  }

  lemma {:induction false} MembersEmpty(points: seq<Point>, centers: seq<Point>, keys: seq<Point>)
    requires |points| == 0
    ensures TotalMembers(MemberClusters(points, centers, keys)) == 0
    decreases |keys|
  {
    if |keys| > 0 {
      MembersEmpty(points, centers, keys[1..]);
      assert MemberClusters(points, centers, keys)[1..] == MemberClusters(points, centers, keys[1..]);
    }
  }

  /** The member count over `keys` drops by the occurrences of the first
      point's center when the first point is removed. */
  lemma {:induction false} MembersSplit(points: seq<Point>, centers: seq<Point>, keys: seq<Point>)
    requires |points| > 0 && |centers| > 0
    requires forall j :: 0 <= j < |points| ==> HasDim(centers, |points[j].coords|)
    ensures TotalMembers(MemberClusters(points, centers, keys))
         == Occurrences(AssignedTo(points[0], centers), keys) + TotalMembers(MemberClusters(points[1..], centers, keys))
    decreases |keys|
  {
    if |keys| > 0 {
      MembersSplit(points, centers, keys[1..]);
      assert MemberClusters(points, centers, keys)[1..] == MemberClusters(points, centers, keys[1..]);
      assert MemberClusters(points[1..], centers, keys)[1..] == MemberClusters(points[1..], centers, keys[1..]);
    }
  }

  /** Clusters of points and centers of one dimension have that dimension. */
  lemma ClustersOfDims(points: seq<Point>, centers: seq<Point>, d: nat)
    requires HasDim(points, d) && HasDim(centers, d) && (|points| > 0 ==> |centers| > 0)
    ensures forall j :: 0 <= j < |points| ==> HasDim(centers, |points[j].coords|)
    ensures Dims(ClustersOf(points, centers), d)
  {
    assert forall j :: 0 <= j < |points| ==> |points[j].coords| == d;
    var m := ClustersOf(points, centers);
    forall k | 0 <= k < |m| ensures ClusterHasDim(m[k], d) {
      assert CentersOf(m)[k] in Dedup(centers);
      forall j | 0 <= j < |m[k].points| ensures |m[k].points[j].coords| == d {
        assert m[k].points[j] in points;
      }
    }
  }

  // ------------------------------------------------------------ CenterOutput

  /** A solution of the k-median problem: its centers, the nearest-center
      assignment of every instance point and the total cost. */
  datatype CenterOutput = CenterOutput(instance: Instance, centers: seq<Point>, assignment: seq<(Point, real)>, cost: real)

  /** The state `__post_init__` leaves behind. */
  predicate ValidOutput(co: CenterOutput)
  {
    && FitsInstance(co.instance, co.centers)
    && (|co.instance.points| > 0 ==> |co.centers| > 0)
    && co.assignment == Assign(co.instance, co.centers)
    && co.cost == AssignedCost(co.assignment)
  }

  /** `CenterOutput(instance, centers)`: nearest-center assignment and cost;
      assigning a point to no centers raises. */
  function MakeCenterOutput(inst: Instance, centers: seq<Point>): (r: Result<CenterOutput, Error>)
    requires FitsInstance(inst, centers)
    ensures r.Failure? <==> |centers| == 0 && |inst.points| > 0
    ensures r.Failure? ==> r.error == NoCentersToAssign
    ensures r.Success? ==> ValidOutput(r.value) && r.value.instance == inst && r.value.centers == centers
  {
    if |centers| == 0 && |inst.points| > 0 then Failure(NoCentersToAssign)
    else
      var a := Assign(inst, centers);
      Success(CenterOutput(inst, centers, a, AssignedCost(a)))
  }

  /** `CenterOutput.clusters()`, and the clusters `ExplainableOutput`
      builds around the leaves' medoids: the instance's points grouped by
      the center they are assigned to. */
  function Clusters(inst: Instance, centers: seq<Point>): (m: seq<Cluster>)
    requires FitsInstance(inst, centers) && (|inst.points| > 0 ==> |centers| > 0)
    ensures CentersOf(m) == Dedup(centers)
    ensures forall k, x :: 0 <= k < |m| ==>
              (x in m[k].points <==> x in inst.points && AssignedTo(x, centers) == m[k].center)
    ensures TotalMembers(m) == |inst.points|
  {
    ClustersCoverPoints(inst.points, centers);
    ClustersOf(inst.points, centers)
  }

  /** Each cluster lists, in instance order and once per occurrence,
      exactly the instance points assigned to its center. */
  lemma ClustersInOrder(inst: Instance, centers: seq<Point>)
    requires FitsInstance(inst, centers) && (|inst.points| > 0 ==> |centers| > 0)
    ensures forall k :: 0 <= k < |Clusters(inst, centers)| ==>
      ListsAssigned(Clusters(inst, centers)[k].points, inst.points, centers, Clusters(inst, centers)[k].center)
  {
    var m := Clusters(inst, centers);
    assert m == MemberClusters(inst.points, centers, Dedup(centers));
    forall k | 0 <= k < |m| ensures ListsAssigned(m[k].points, inst.points, centers, m[k].center) {
      MembersInOrder(inst.points, centers, m[k].center);
    }
  }

  // ----------------------------------------------------------------- mistake

  /** Whether `x` goes to the left (`<= theta`) or right (`> theta`) child. */
  predicate OnSide(x: Point, i: nat, theta: real, left: bool)
    requires i < |x.coords|
  {
    if left then x.coords[i] <= theta else x.coords[i] > theta
  }

  /** `mistake`: the point and its center fall on different sides of the
      threshold `theta` in dimension `i`. */
  predicate Mistake(p: Point, c: Point, i: nat, theta: real)
    requires i < |p.coords| && i < |c.coords|
  {
    (p.coords[i] <= theta) != (c.coords[i] <= theta)
  }

  /** A mistake is a pair separated by the split: exactly one of the two
      goes left, whichever of them is the center. */
  lemma MistakeSeparates(p: Point, c: Point, i: nat, theta: real)
    requires i < |p.coords| && i < |c.coords|
    ensures Mistake(p, c, i, theta) <==> (OnSide(c, i, theta, true) && OnSide(p, i, theta, false)) || (OnSide(c, i, theta, false) && OnSide(p, i, theta, true))
    ensures Mistake(p, c, i, theta) == Mistake(c, p, i, theta)
  {
  }

  // --------------------------------------------------------------- the nodes

  /** A per-dimension bound: finite, or minus/plus infinity. */
  datatype Ext = NegInf | Fin(v: real) | PosInf

  /** A bound `[lower, upper]` of one dimension; a node owns the points
      with `lower < x <= upper`, since ties at a threshold go left. */
  datatype Bound = Bound(lo: Ext, hi: Ext)

  predicate AboveLo(e: Ext, x: real)
  {
    match e
    case NegInf => true
    case Fin(v) => v < x
    case PosInf => false
  }

  predicate AtMostHi(x: real, e: Ext)
  {
    match e
    case NegInf => false
    case Fin(v) => x <= v
    case PosInf => true
  }

  /** `x` lies in the box the bounds describe. */
  predicate InBounds(x: seq<real>, b: seq<Bound>)
    requires |x| == |b|
  {
    forall j :: 0 <= j < |b| ==> AboveLo(b[j].lo, x[j]) && AtMostHi(x[j], b[j].hi)
  }

  /** The value of a `ClusterNode` apart from its `split` and `children`. */
  datatype NodeData = NodeData(clusters: seq<Cluster>, bounds: seq<Bound>)

  /** The center and every listed point of `c` have `d` coordinates. */
  predicate ClusterHasDim(c: Cluster, d: nat)
  {
    |c.center.coords| == d && HasDim(c.points, d)
  }

  predicate Dims(m: seq<Cluster>, d: nat)
  {
    forall k :: 0 <= k < |m| ==> ClusterHasDim(m[k], d)
  }

  /** Every center and listed point has one coordinate per bound. */
  predicate WellFormed(n: NodeData)
  {
    Dims(n.clusters, |n.bounds|)
  }

  /** The center and every listed point of `c` lie in the box `b`. */
  predicate ClusterInBox(c: Cluster, b: seq<Bound>)
    requires ClusterHasDim(c, |b|)
  {
    InBounds(c.center.coords, b) && forall j :: 0 <= j < |c.points| ==> InBounds(c.points[j].coords, b)
  }

  predicate InsideBox(n: NodeData)
    requires WellFormed(n)
  {
    forall k :: 0 <= k < |n.clusters| ==> ClusterInBox(n.clusters[k], n.bounds)
  }

  /** The root bounds `(-inf, inf)` in every dimension. */
  function Unbounded(d: nat): (b: seq<Bound>)
    ensures |b| == d && forall j :: 0 <= j < d ==> b[j] == Bound(NegInf, PosInf)
  {
    seq(d, _ => Bound(NegInf, PosInf))
  }

  /** Everything lies inside the unbounded root box. */
  lemma RootInsideBox(m: seq<Cluster>, d: nat)
    requires Dims(m, d)
    ensures InsideBox(NodeData(m, Unbounded(d)))
  {
  }

  // --------------------------------------------------------- counting mistakes

  /** All points of `pts` have dimension `i` or more. */
  predicate Reaches(pts: seq<Point>, i: nat)
  {
    forall j :: 0 <= j < |pts| ==> i < |pts[j].coords|
  }

  /** Every center and point of `m` has dimension `i` or more. */
  predicate ReachesAll(m: seq<Cluster>, i: nat)
  {
    forall k :: 0 <= k < |m| ==> i < |m[k].center.coords| && Reaches(m[k].points, i)
  }

  lemma DimsReach(m: seq<Cluster>, d: nat, i: nat)
    requires Dims(m, d) && i < d
    ensures ReachesAll(m, i)
  {
    forall k | 0 <= k < |m| ensures i < |m[k].center.coords| && Reaches(m[k].points, i) {
      assert ClusterHasDim(m[k], d);
    }
  }

  function ClusterMistakes(c: Point, pts: seq<Point>, i: nat, theta: real): nat
    requires i < |c.coords| && Reaches(pts, i)
  {
    if |pts| == 0 then 0
    else (if Mistake(pts[0], c, i, theta) then 1 else 0) + ClusterMistakes(c, pts[1..], i, theta)
  }

  /** `count_mistakes(i, theta)`: the number of (center, point) pairs of the
      node that the threshold separates. */
  function CountMistakes(m: seq<Cluster>, i: nat, theta: real): nat
    requires ReachesAll(m, i)
  {
    if |m| == 0 then 0
    else ClusterMistakes(m[0].center, m[0].points, i, theta) + CountMistakes(m[1..], i, theta)
  }

  // -------------------------------------------------------- child construction

  /** The points of `pts` on one side of the threshold, in order. */
  function FilterSide(pts: seq<Point>, i: nat, theta: real, left: bool): (r: seq<Point>)
    requires Reaches(pts, i)
    ensures |r| <= |pts| && Reaches(r, i)
    ensures forall x :: x in r <==> x in pts && OnSide(x, i, theta, left)
  {
    if |pts| == 0 then []
    else
      var rest := FilterSide(pts[1..], i, theta, left);
      assert forall x :: x in pts <==> x == pts[0] || x in pts[1..];
      if OnSide(pts[0], i, theta, left) then [pts[0]] + rest else rest
  }

  /** For each point, whether it falls on the given side. */
  function SideMarks(pts: seq<Point>, i: nat, theta: real, left: bool): (m: seq<bool>)
    requires Reaches(pts, i)
    ensures |m| == |pts|
    ensures forall j :: 0 <= j < |pts| ==> (m[j] <==> OnSide(pts[j], i, theta, left))
  {
    seq(|pts|, j requires 0 <= j < |pts| => OnSide(pts[j], i, theta, left))
  }

  /** `FilterSide` keeps the marked points. */
  lemma {:induction false} FilterSideIsKeep(pts: seq<Point>, i: nat, theta: real, left: bool)
    requires Reaches(pts, i)
    ensures FilterSide(pts, i, theta, left) == Keep(pts, SideMarks(pts, i, theta, left))
  {
    if |pts| > 0 {
      var tail := pts[1..];
      FilterSideIsKeep(tail, i, theta, left);
      assert SideMarks(pts, i, theta, left)[1..] == SideMarks(tail, i, theta, left);
    }
  }

  /** `FilterSide` keeps, in order, exactly the positions of the points on
      its side. */
  lemma FilterSideInOrder(pts: seq<Point>, i: nat, theta: real, left: bool)
    requires Reaches(pts, i)
    ensures exists idx: seq<nat> ::
      && Picks(FilterSide(pts, i, theta, left), pts, idx)
      && (forall j :: 0 <= j < |pts| ==> (j in idx <==> OnSide(pts[j], i, theta, left)))
  {
    var marks := SideMarks(pts, i, theta, left);
    FilterSideIsKeep(pts, i, theta, left);
    KeepPicks(pts, marks);
    PositionsMarked(marks);
    assert Picks(FilterSide(pts, i, theta, left), pts, Positions(marks));
  }

  /** A cluster with its list cut down to one side of the threshold. */
  function Restrict(c: Cluster, i: nat, theta: real, left: bool): Cluster
    requires i < |c.center.coords| && Reaches(c.points, i)
  {
    Cluster(c.center, FilterSide(c.points, i, theta, left))
  }

  /** The clusters of one child: the centers on that side, each with its
      own list cut down to the same side. */
  function Side(m: seq<Cluster>, i: nat, theta: real, left: bool): (r: seq<Cluster>)
    requires ReachesAll(m, i)
    ensures |r| <= |m|
  {
    if |m| == 0 then []
    else
      var rest := Side(m[1..], i, theta, left);
      if OnSide(m[0].center, i, theta, left) then [Restrict(m[0], i, theta, left)] + rest else rest
  }

  /** `c` is the cluster `d` cut down to one side of the threshold, and the
      center of `d` lies on that side. */
  predicate RestrictionOf(c: Cluster, d: Cluster, i: nat, theta: real, left: bool)
    requires i < |d.center.coords| && Reaches(d.points, i)
  {
    OnSide(d.center, i, theta, left) && c == Restrict(d, i, theta, left)
  }

  /** Every cluster of a child belongs to a center of the parent on that
      side and lists exactly that center's points on that side. */
  lemma {:induction false} SideRestricts(m: seq<Cluster>, i: nat, theta: real, left: bool)
    requires ReachesAll(m, i)
    ensures forall k :: 0 <= k < |Side(m, i, theta, left)| ==>
      exists j :: 0 <= j < |m| && RestrictionOf(Side(m, i, theta, left)[k], m[j], i, theta, left)
  {
    if |m| > 0 {
      SideRestricts(m[1..], i, theta, left);
      var s := Side(m, i, theta, left);
      var rest := Side(m[1..], i, theta, left);
      var here := OnSide(m[0].center, i, theta, left);
      assert s == if here then [Restrict(m[0], i, theta, left)] + rest else rest;
      forall k | 0 <= k < |s|
        ensures exists j :: 0 <= j < |m| && RestrictionOf(s[k], m[j], i, theta, left)
      {
        if here && k == 0 {
          assert RestrictionOf(s[k], m[0], i, theta, left);
        } else {
          var k' := if here then k - 1 else k;
          assert s[k] == rest[k'];
          var j :| 0 <= j < |m[1..]| && RestrictionOf(rest[k'], m[1..][j], i, theta, left);
          assert m[1..][j] == m[j + 1];
          assert RestrictionOf(s[k], m[j + 1], i, theta, left);
        }
      }
    } else {
      assert |Side(m, i, theta, left)| == 0;
    }
  }

  /** The two children of splitting at `(i, theta)`: the left takes the
      centers `<= theta` and has upper bound `theta` in dimension `i`, the
      right the centers `> theta` with lower bound `theta`; the parent's
      bounds are copied, so they stay as they were. */
  function SplitChildren(n: NodeData, i: nat, theta: real): (r: (NodeData, NodeData))
    requires WellFormed(n) && i < |n.bounds|
  {
    DimsReach(n.clusters, |n.bounds|, i);
    (NodeData(Side(n.clusters, i, theta, true), ChildBounds(n.bounds, i, theta, true)),
     NodeData(Side(n.clusters, i, theta, false), ChildBounds(n.bounds, i, theta, false)))
  }

  function ChildBounds(b: seq<Bound>, i: nat, theta: real, left: bool): (r: seq<Bound>)
    requires i < |b|
    ensures |r| == |b|
  {
    b[i := if left then Bound(b[i].lo, Fin(theta)) else Bound(Fin(theta), b[i].hi)]
  }

  lemma {:induction false} FilterPartition(pts: seq<Point>, i: nat, theta: real)
    requires Reaches(pts, i)
    ensures multiset(FilterSide(pts, i, theta, true)) + multiset(FilterSide(pts, i, theta, false)) == multiset(pts)
  {
    if |pts| > 0 {
      FilterPartition(pts[1..], i, theta);
      assert pts == [pts[0]] + pts[1..];
    }
  }

  /** The centers of a child are the parent's centers on that side, in
      the parent's order. */
  lemma {:induction false} SideCenters(m: seq<Cluster>, i: nat, theta: real, left: bool)
    requires ReachesAll(m, i)
    ensures Reaches(CentersOf(m), i)
    ensures CentersOf(Side(m, i, theta, left)) == FilterSide(CentersOf(m), i, theta, left)
  {
    var cs := CentersOf(m);
    assert Reaches(cs, i) by {
      forall j | 0 <= j < |cs| ensures i < |cs[j].coords| {
        assert cs[j] == m[j].center;
      }
    }
    if |m| > 0 {
      SideCenters(m[1..], i, theta, left);
      assert m == [m[0]] + m[1..];
      CentersOfCons(m[0], m[1..]);
      var rest := Side(m[1..], i, theta, left);
      if OnSide(m[0].center, i, theta, left) {
        CentersOfCons(Restrict(m[0], i, theta, left), rest);
      }
    }
  }

  lemma CentersOfCons(c: Cluster, rest: seq<Cluster>)
    ensures CentersOf([c] + rest) == [c.center] + CentersOf(rest)
  {
    assert forall k :: 1 <= k < 1 + |rest| ==> ([c] + rest)[k] == rest[k - 1];
  }

  /** A split partitions the node's centers: the left child has exactly
      those `<= theta`, the right exactly those `> theta`, each in the
      parent's order. */
  lemma SplitPartitionsCenters(n: NodeData, i: nat, theta: real)
    requires WellFormed(n) && i < |n.bounds|
    ensures Reaches(CentersOf(n.clusters), i)
    ensures var (l, r) := SplitChildren(n, i, theta);
      && CentersOf(l.clusters) == FilterSide(CentersOf(n.clusters), i, theta, true)
      && CentersOf(r.clusters) == FilterSide(CentersOf(n.clusters), i, theta, false)
      && multiset(CentersOf(l.clusters)) + multiset(CentersOf(r.clusters)) == multiset(CentersOf(n.clusters))
      && (forall c :: c in CentersOf(l.clusters) <==> c in CentersOf(n.clusters) && c.coords[i] <= theta)
      && (forall c :: c in CentersOf(r.clusters) <==> c in CentersOf(n.clusters) && c.coords[i] > theta)
  {
    DimsReach(n.clusters, |n.bounds|, i);
    SideCenters(n.clusters, i, theta, true);
    SideCenters(n.clusters, i, theta, false);
    FilterPartition(CentersOf(n.clusters), i, theta);
  }

  lemma {:induction false} FilterSplit(c: Point, pts: seq<Point>, i: nat, theta: real)
    requires i < |c.coords| && Reaches(pts, i)
    ensures |FilterSide(pts, i, theta, true)| + |FilterSide(pts, i, theta, false)| == |pts|
    ensures ClusterMistakes(c, pts, i, theta)
         == if OnSide(c, i, theta, true) then |FilterSide(pts, i, theta, false)| else |FilterSide(pts, i, theta, true)|
  {
    if |pts| > 0 {
      FilterSplit(c, pts[1..], i, theta);
    }
  }

  lemma {:induction false} SideAccounting(m: seq<Cluster>, i: nat, theta: real)
    requires ReachesAll(m, i)
    ensures TotalMembers(Side(m, i, theta, true)) + TotalMembers(Side(m, i, theta, false)) + CountMistakes(m, i, theta)
         == TotalMembers(m)
  {
    if |m| > 0 {
      SideAccounting(m[1..], i, theta);
      FilterSplit(m[0].center, m[0].points, i, theta);
      var l, r := Side(m[1..], i, theta, true), Side(m[1..], i, theta, false);
      if OnSide(m[0].center, i, theta, true) {
        assert ([Restrict(m[0], i, theta, true)] + l)[1..] == l;
      } else {
        assert ([Restrict(m[0], i, theta, false)] + r)[1..] == r;
      }
    }
  }

  /** The points a split drops (those on the other side from their center)
      are exactly its mistakes. */
  lemma SplitDropsMistakes(n: NodeData, i: nat, theta: real)
    requires WellFormed(n) && i < |n.bounds|
    ensures ReachesAll(n.clusters, i)
    ensures var (l, r) := SplitChildren(n, i, theta);
      TotalMembers(l.clusters) + TotalMembers(r.clusters) + CountMistakes(n.clusters, i, theta) == TotalMembers(n.clusters)
  {
    DimsReach(n.clusters, |n.bounds|, i);
    SideAccounting(n.clusters, i, theta);
  }

  /** Anything inside the parent's box and on a child's side of the
      threshold is inside that child's box. */
  lemma ChildBoxContains(x: seq<real>, b: seq<Bound>, i: nat, theta: real, left: bool)
    requires |x| == |b| && i < |b| && InBounds(x, b)
    requires if left then x[i] <= theta else x[i] > theta
    ensures InBounds(x, ChildBounds(b, i, theta, left))
  {
    var b' := ChildBounds(b, i, theta, left);
    forall j | 0 <= j < |b| ensures AboveLo(b'[j].lo, x[j]) && AtMostHi(x[j], b'[j].hi) {
      assert AboveLo(b[j].lo, x[j]) && AtMostHi(x[j], b[j].hi);
    }
  }

  lemma RestrictInBox(c: Cluster, b: seq<Bound>, i: nat, theta: real, left: bool)
    requires i < |b| && ClusterHasDim(c, |b|) && ClusterInBox(c, b) && OnSide(c.center, i, theta, left)
    ensures ClusterHasDim(Restrict(c, i, theta, left), |b|)
    ensures ClusterInBox(Restrict(c, i, theta, left), ChildBounds(b, i, theta, left))
  {
    var r := Restrict(c, i, theta, left);
    ChildBoxContains(c.center.coords, b, i, theta, left);
    forall j | 0 <= j < |r.points| ensures |r.points[j].coords| == |b| && InBounds(r.points[j].coords, ChildBounds(b, i, theta, left)) {
      var x := r.points[j];
      assert x in c.points && OnSide(x, i, theta, left);
      var j' :| 0 <= j' < |c.points| && c.points[j'] == x;
      assert InBounds(c.points[j'].coords, b);
      ChildBoxContains(x.coords, b, i, theta, left);
    }
  }

  lemma {:induction false} SideInBox(m: seq<Cluster>, b: seq<Bound>, i: nat, theta: real, left: bool)
    requires i < |b| && Dims(m, |b|) && forall k :: 0 <= k < |m| ==> ClusterInBox(m[k], b)
    ensures ReachesAll(m, i)
    ensures var s := Side(m, i, theta, left);
      Dims(s, |b|) && forall k :: 0 <= k < |s| ==> ClusterInBox(s[k], ChildBounds(b, i, theta, left))
  {
    DimsReach(m, |b|, i);
    if |m| > 0 {
      SideInBox(m[1..], b, i, theta, left);
      if OnSide(m[0].center, i, theta, left) {
        RestrictInBox(m[0], b, i, theta, left);
        var s := Side(m, i, theta, left);
        assert forall k :: 0 < k < |s| ==> s[k] == Side(m[1..], i, theta, left)[k - 1];
      }
    }
  }

  /** Splitting keeps every center and point inside its node's box. */
  lemma SplitPreservesInsideBox(n: NodeData, i: nat, theta: real)
    requires WellFormed(n) && InsideBox(n) && i < |n.bounds|
    ensures var (l, r) := SplitChildren(n, i, theta);
      WellFormed(l) && WellFormed(r) && InsideBox(l) && InsideBox(r)
  {
    SideInBox(n.clusters, n.bounds, i, theta, true);
    SideInBox(n.clusters, n.bounds, i, theta, false);
  }

  lemma {:induction false} SideDims(m: seq<Cluster>, d: nat, i: nat, theta: real, left: bool)
    requires Dims(m, d) && i < d
    ensures ReachesAll(m, i) && Dims(Side(m, i, theta, left), d)
  {
    DimsReach(m, d, i);
    if |m| > 0 {
      assert Dims(m[1..], d) by {
        forall k | 0 <= k < |m| - 1 ensures ClusterHasDim(m[1..][k], d) {
          assert m[1..][k] == m[k + 1];
        }
      }
      SideDims(m[1..], d, i, theta, left);
      if OnSide(m[0].center, i, theta, left) {
        var c := Restrict(m[0], i, theta, left);
        assert ClusterHasDim(m[0], d);
        forall j | 0 <= j < |c.points| ensures |c.points[j].coords| == d {
          assert c.points[j] in m[0].points;
        }
        var s := Side(m, i, theta, left);
        assert forall k :: 0 < k < |s| ==> s[k] == Side(m[1..], i, theta, left)[k - 1];
      }
    }
  }

  /** The children of a well-formed node are well formed. */
  lemma SplitKeepsWellFormed(n: NodeData, i: nat, theta: real)
    requires WellFormed(n) && i < |n.bounds|
    ensures WellFormed(SplitChildren(n, i, theta).0) && WellFormed(SplitChildren(n, i, theta).1)
  {
    SideDims(n.clusters, |n.bounds|, i, theta, true);
    SideDims(n.clusters, |n.bounds|, i, theta, false);
  }

  /** `ExtLe(e, x)`: the bound `e` is at most `x`. */
  predicate ExtLe(e: Ext, x: real)
  {
    match e
    case NegInf => true
    case Fin(v) => v <= x
    case PosInf => false
  }

  /** With `theta` inside the parent's bound in dimension `i`, the two
      children's boxes are disjoint and together make up the parent's. */
  lemma ChildBoxesPartitionParent(b: seq<Bound>, i: nat, theta: real, x: seq<real>)
    requires i < |b| && |x| == |b|
    requires ExtLe(b[i].lo, theta) && AtMostHi(theta, b[i].hi)
    ensures InBounds(x, ChildBounds(b, i, theta, true)) <==> InBounds(x, b) && x[i] <= theta
    ensures InBounds(x, ChildBounds(b, i, theta, false)) <==> InBounds(x, b) && x[i] > theta
  {
    var l, r := ChildBounds(b, i, theta, true), ChildBounds(b, i, theta, false);
    if InBounds(x, l) {
      assert AboveLo(l[i].lo, x[i]) && AtMostHi(x[i], l[i].hi);
      forall j | 0 <= j < |b| ensures AboveLo(b[j].lo, x[j]) && AtMostHi(x[j], b[j].hi) {
        assert AboveLo(l[j].lo, x[j]) && AtMostHi(x[j], l[j].hi);
      }
    }
    if InBounds(x, r) {
      assert AboveLo(r[i].lo, x[i]) && AtMostHi(x[i], r[i].hi);
      forall j | 0 <= j < |b| ensures AboveLo(b[j].lo, x[j]) && AtMostHi(x[j], b[j].hi) {
        assert AboveLo(r[j].lo, x[j]) && AtMostHi(x[j], r[j].hi);
      }
    }
    if InBounds(x, b) && x[i] <= theta {
      ChildBoxContains(x, b, i, theta, true);
    }
    if InBounds(x, b) && x[i] > theta {
      ChildBoxContains(x, b, i, theta, false);
    }
  }

  /** The points of `pts` inside the box `b`, in order. */
  function InBox(pts: seq<Point>, b: seq<Bound>): (r: seq<Point>)
    ensures HasDim(r, |b|)
    ensures forall x :: x in r <==> x in pts && |x.coords| == |b| && InBounds(x.coords, b)
  {
    if |pts| == 0 then []
    else
      var rest := InBox(pts[1..], b);
      assert forall x :: x in pts <==> x == pts[0] || x in pts[1..];
      if |pts[0].coords| == |b| && InBounds(pts[0].coords, b) then [pts[0]] + rest else rest
  }

  /** The unbounded box holds every point of its dimension. */
  lemma {:induction false} InBoxUnbounded(pts: seq<Point>, d: nat)
    requires HasDim(pts, d)
    ensures InBox(pts, Unbounded(d)) == pts
  {
    if |pts| > 0 {
      var tail := pts[1..];
      InBoxUnbounded(tail, d);
      assert InBounds(pts[0].coords, Unbounded(d));
      assert InBox(pts, Unbounded(d)) == [pts[0]] + InBox(tail, Unbounded(d));
      assert pts == [pts[0]] + tail;
    }
  }

  /** With `theta` inside the bound of dimension `i`, cutting the points
      of a box down to one side of the threshold leaves exactly the points
      of that child's box, in the same order. */
  lemma {:induction false} FilterSideInBox(pts: seq<Point>, b: seq<Bound>, i: nat, theta: real, left: bool)
    requires i < |b| && ExtLe(b[i].lo, theta) && AtMostHi(theta, b[i].hi)
    ensures Reaches(InBox(pts, b), i)
    ensures FilterSide(InBox(pts, b), i, theta, left) == InBox(pts, ChildBounds(b, i, theta, left))
  {
    if |pts| > 0 {
      FilterSideInBox(pts[1..], b, i, theta, left);
      if |pts[0].coords| == |b| {
        ChildBoxesPartitionParent(b, i, theta, pts[0].coords);
      }
    }
  }

  /** Every cluster of `n` lists the points that the cluster of `root`
      with the same center lists inside the box of `n`, in their order. */
  ghost predicate ListsWithin(root: seq<Cluster>, n: NodeData)
  {
    forall k :: 0 <= k < |n.clusters| ==> ListedWithin(root, n.clusters[k], n.bounds)
  }

  /** `c` lists the points that the cluster of `root` with the same center
      lists inside the box `b`. */
  ghost predicate ListedWithin(root: seq<Cluster>, c: Cluster, b: seq<Bound>)
  {
    exists j :: 0 <= j < |root| && root[j].center == c.center && c.points == InBox(root[j].points, b)
  }

  /** In the unbounded box every cluster lists its own points. */
  lemma ListsWithinUnbounded(m: seq<Cluster>, d: nat)
    requires Dims(m, d)
    ensures ListsWithin(m, NodeData(m, Unbounded(d)))
  {
    forall k | 0 <= k < |m| ensures ListedWithin(m, m[k], Unbounded(d)) {
      assert ClusterHasDim(m[k], d);
      InBoxUnbounded(m[k].points, d);
    }
  }

  /** The children of a split keep that property: their lists are the
      root's lists cut down to the children's boxes. */
  lemma SideListsWithin(root: seq<Cluster>, n: NodeData, i: nat, theta: real, left: bool)
    requires WellFormed(n) && i < |n.bounds| && ListsWithin(root, n)
    requires ExtLe(n.bounds[i].lo, theta) && AtMostHi(theta, n.bounds[i].hi)
    ensures ReachesAll(n.clusters, i)
    ensures ListsWithin(root, NodeData(Side(n.clusters, i, theta, left), ChildBounds(n.bounds, i, theta, left)))
  {
    DimsReach(n.clusters, |n.bounds|, i);
    SideRestricts(n.clusters, i, theta, left);
    var s := Side(n.clusters, i, theta, left);
    var cb := ChildBounds(n.bounds, i, theta, left);
    forall k | 0 <= k < |s| ensures ListedWithin(root, s[k], cb) {
      var p :| 0 <= p < |n.clusters| && RestrictionOf(s[k], n.clusters[p], i, theta, left);
      assert ListedWithin(root, n.clusters[p], n.bounds);
      var j :| 0 <= j < |root| && root[j].center == n.clusters[p].center && n.clusters[p].points == InBox(root[j].points, n.bounds);
      FilterSideInBox(root[j].points, n.bounds, i, theta, left);
    }
  }

  // ---------------------------------------------------------------- thresholds

  /** Coordinate `i` of every center, in key order. */
  function CenterCoords(m: seq<Cluster>, i: nat): (r: seq<real>)
    requires ReachesAll(m, i)
    ensures |r| == |m| && forall k :: 0 <= k < |m| ==> r[k] == m[k].center.coords[i]
  {
    seq(|m|, k requires 0 <= k < |m| => m[k].center.coords[i])
  }

  function MinOf(s: seq<real>): (r: real)
    requires |s| > 0
    ensures r in s && forall j :: 0 <= j < |s| ==> r <= s[j]
  {
    s[ArgMin(s)]
  }

  function MaxOf(s: seq<real>): (r: real)
    requires |s| > 0
    ensures r in s && forall j :: 0 <= j < |s| ==> s[j] <= r
  {
    if |s| == 1 then s[0]
    else
      var m := MaxOf(s[1..]);
      assert forall j :: 1 <= j < |s| ==> s[j] == s[1..][j - 1];
      if s[0] >= m then s[0] else m
  }

  /** Coordinate `i` of the points of `pts` that lie in `[lo, hi]`. */
  function CoordsIn(pts: seq<Point>, i: nat, lo: real, hi: real): (r: seq<real>)
    requires Reaches(pts, i)
    ensures forall x :: x in r ==> lo <= x <= hi
  {
    if |pts| == 0 then []
    else
      var rest := CoordsIn(pts[1..], i, lo, hi);
      var x := pts[0].coords[i];
      if lo <= x <= hi then [x] + rest else rest
  }

  /** The point coordinates `find_best_split_dim` collects, cluster by
      cluster: those within `[lo, hi]`. */
  function NodeCoordsIn(m: seq<Cluster>, i: nat, lo: real, hi: real): (r: seq<real>)
    requires ReachesAll(m, i)
    ensures forall x :: x in r ==> lo <= x <= hi
  {
    if |m| == 0 then []
    else
      var rest := NodeCoordsIn(m[1..], i, lo, hi);
      CoordsIn(m[0].points, i, lo, hi) + rest
  }

  /** The midpoints of consecutive elements: `zip(s, s[1:])` averaged. */
  function Midpoints(s: seq<real>): (r: seq<real>)
    ensures |r| == if |s| == 0 then 0 else |s| - 1
  {
    if |s| <= 1 then [] else [(s[0] + s[1]) / 2.0] + Midpoints(s[1..])
  }

  lemma {:induction false} MidpointAt(s: seq<real>, j: nat)
    requires j + 1 < |s|
    ensures Midpoints(s)[j] == (s[j] + s[j + 1]) / 2.0
    decreases j
  {
    if j > 0 {
      MidpointAt(s[1..], j - 1);
    }
  }

  /** The sorted point coordinates between the smallest and largest center
      coordinate in dimension `i`. */
  function CandidateCoords(n: NodeData, i: nat): seq<real>
    requires WellFormed(n) && i < |n.bounds| && |n.clusters| > 0
  {
    DimsReach(n.clusters, |n.bounds|, i);
    var cc := CenterCoords(n.clusters, i);
    Sort(NodeCoordsIn(n.clusters, i, MinOf(cc), MaxOf(cc)))
  }

  /** The `theta_candidates` of `find_best_split_dim(i)`. */
  function Candidates(n: NodeData, i: nat): seq<real>
    requires WellFormed(n) && i < |n.bounds| && |n.clusters| > 0
  {
    Midpoints(CandidateCoords(n, i))
  }

  /** The smallest and largest center coordinate in dimension `i`. */
  function CenterMin(n: NodeData, i: nat): real
    requires WellFormed(n) && i < |n.bounds| && |n.clusters| > 0
  {
    DimsReach(n.clusters, |n.bounds|, i);
    MinOf(CenterCoords(n.clusters, i))
  }

  function CenterMax(n: NodeData, i: nat): real
    requires WellFormed(n) && i < |n.bounds| && |n.clusters| > 0
  {
    DimsReach(n.clusters, |n.bounds|, i);
    MaxOf(CenterCoords(n.clusters, i))
  }

  /** Every threshold candidate lies between the smallest and the largest
      center coordinate, and there is none exactly when fewer than two point
      coordinates fall in that range. */
  lemma CandidatesWithinCenters(n: NodeData, i: nat)
    requires WellFormed(n) && i < |n.bounds| && |n.clusters| > 0
    ensures forall t :: t in Candidates(n, i) ==> CenterMin(n, i) <= t <= CenterMax(n, i)
    ensures |Candidates(n, i)| == 0 <==> |CandidateCoords(n, i)| <= 1
  {
    DimsReach(n.clusters, |n.bounds|, i);
    var cc := CenterCoords(n.clusters, i);
    var raw := NodeCoordsIn(n.clusters, i, MinOf(cc), MaxOf(cc));
    var s := CandidateCoords(n, i);
    assert s == Sort(raw);
    forall j | 0 <= j < |s| ensures MinOf(cc) <= s[j] <= MaxOf(cc) {
      assert s[j] in multiset(s);
      assert s[j] in raw;
    }
    forall t | t in Candidates(n, i) ensures CenterMin(n, i) <= t <= CenterMax(n, i) {
      var j :| 0 <= j < |Candidates(n, i)| && Candidates(n, i)[j] == t;
      MidpointAt(s, j);
    }
  }

  /** `count_mistakes` on a node. */
  function NodeMistakes(n: NodeData, i: nat, theta: real): nat
    requires WellFormed(n) && i < |n.bounds|
  {
    DimsReach(n.clusters, |n.bounds|, i);
    CountMistakes(n.clusters, i, theta)
  }

  /** A split: its mistake count, dimension and threshold. */
  datatype SplitChoice = SplitChoice(mistakes: nat, dim: nat, theta: real)

  /** The mistake count of every candidate of dimension `i`, in order. */
  function CandidateMistakes(n: NodeData, i: nat): (r: seq<real>)
    requires WellFormed(n) && i < |n.bounds| && |n.clusters| > 0
    ensures |r| == |Candidates(n, i)|
    ensures forall j :: 0 <= j < |r| ==> r[j] == NodeMistakes(n, i, Candidates(n, i)[j]) as real
  {
    var cs := Candidates(n, i);
    seq(|cs|, j requires 0 <= j < |cs| => NodeMistakes(n, i, cs[j]) as real)
  }

  /** `find_best_split_dim(i)`: the first candidate with the fewest
      mistakes; `min` of no candidates raises. */
  function BestInDim(n: NodeData, i: nat): (r: Option<SplitChoice>)
    requires WellFormed(n) && i < |n.bounds| && |n.clusters| > 0
    ensures r.None? <==> |Candidates(n, i)| == 0
    ensures r.Some? ==>
      && r.value.dim == i
      && r.value.mistakes == NodeMistakes(n, i, r.value.theta)
      && (forall t :: t in Candidates(n, i) ==> r.value.mistakes <= NodeMistakes(n, i, t))
      && exists j: nat :: j < |Candidates(n, i)| && Candidates(n, i)[j] == r.value.theta
           && forall j' :: 0 <= j' < j ==> NodeMistakes(n, i, Candidates(n, i)[j']) > r.value.mistakes
  {
    var cs := Candidates(n, i);
    if |cs| == 0 then None
    else
      var ms := CandidateMistakes(n, i);
      var j := ArgMin(ms);
      assert forall t :: t in cs ==> NodeMistakes(n, i, cs[j]) <= NodeMistakes(n, i, t) by {
        forall t | t in cs ensures NodeMistakes(n, i, cs[j]) <= NodeMistakes(n, i, t) {
          var j' :| 0 <= j' < |cs| && cs[j'] == t;
          assert ms[j] <= ms[j'];
        }
      }
      assert forall j' :: 0 <= j' < j ==> ms[j'] > ms[j];
      Some(SplitChoice(NodeMistakes(n, i, cs[j]), i, cs[j]))
  }

  /** The fewest mistakes of every dimension, when each has candidates. */
  function DimCosts(n: NodeData): (r: seq<real>)
    requires WellFormed(n) && |n.clusters| > 0
    requires forall i :: 0 <= i < |n.bounds| ==> BestInDim(n, i).Some?
    ensures |r| == |n.bounds| && forall i :: 0 <= i < |r| ==> r[i] == BestInDim(n, i).value.mistakes as real
  {
    seq(|n.bounds|, i requires 0 <= i < |n.bounds| => BestInDim(n, i).value.mistakes as real)
  }

  /** The first dimension of fewest mistakes holds a split that no
      candidate of any dimension beats, and every lower dimension's
      candidates are strictly worse. */
  lemma FirstMinDimIsBest(n: NodeData, k: nat)
    requires WellFormed(n) && |n.clusters| > 0
    requires forall i :: 0 <= i < |n.bounds| ==> BestInDim(n, i).Some?
    requires IsFirstMin(DimCosts(n), k)
    ensures var s := BestInDim(n, k).value;
      && (forall i, t :: 0 <= i < |n.bounds| && t in Candidates(n, i) ==> s.mistakes <= NodeMistakes(n, i, t))
      && (forall i, t :: 0 <= i < k && t in Candidates(n, i) ==> s.mistakes < NodeMistakes(n, i, t))
  {
    var costs := DimCosts(n);
    var s := BestInDim(n, k).value;
    forall i, t | 0 <= i < |n.bounds| && t in Candidates(n, i)
      ensures s.mistakes <= NodeMistakes(n, i, t)
      ensures i < k ==> s.mistakes < NodeMistakes(n, i, t)
    {
      assert costs[k] <= costs[i];
      assert BestInDim(n, i).value.mistakes <= NodeMistakes(n, i, t);
    }
  }

  /** The split `find_split` chooses: the first dimension whose best
      candidate has the fewest mistakes. It raises without centers, without
      dimensions, and when some dimension has no candidate. */
  function FindBestSplit(n: NodeData): (r: Result<SplitChoice, Error>)
    requires WellFormed(n)
    ensures r.Failure? <==>
      |n.clusters| == 0 || |n.bounds| == 0 || exists i :: 0 <= i < |n.bounds| && BestInDim(n, i).None?
    ensures r.Failure? ==> r.error == if |n.clusters| == 0 then NoCenters else NoCandidates
    ensures r.Success? ==>
      && (forall i :: 0 <= i < |n.bounds| ==> BestInDim(n, i).Some?)
      && IsFirstMin(DimCosts(n), r.value.dim)
      && BestInDim(n, r.value.dim) == Some(r.value)
  {
    if |n.clusters| == 0 then Failure(NoCenters)
    else if |n.bounds| == 0 then Failure(NoCandidates)
    else if exists i :: 0 <= i < |n.bounds| && BestInDim(n, i).None? then Failure(NoCandidates)
    else
      var k := ArgMin(DimCosts(n));
      Success(BestInDim(n, k).value)
  }

  /** `find_split` fails exactly without centers, without dimensions, or
      when some dimension has no threshold candidate. */
  lemma FindBestSplitFails(n: NodeData)
    requires WellFormed(n)
    ensures FindBestSplit(n).Failure? <==>
      |n.clusters| == 0 || |n.bounds| == 0 || exists i :: 0 <= i < |n.bounds| && |Candidates(n, i)| == 0
  {
    if |n.clusters| > 0 && |n.bounds| > 0 {
      if FindBestSplit(n).Failure? {
        var i :| 0 <= i < |n.bounds| && BestInDim(n, i).None?;
        assert |Candidates(n, i)| == 0;
      }
      if exists i :: 0 <= i < |n.bounds| && |Candidates(n, i)| == 0 {
        var i :| 0 <= i < |n.bounds| && |Candidates(n, i)| == 0;
        assert BestInDim(n, i).None?;
      }
    }
  }

  /** The split `find_split` chooses has the fewest mistakes over all
      dimensions and candidates, every lower dimension's candidates are
      strictly worse, and within its dimension it is the first candidate
      of that count. */
  lemma FindBestSplitIsOptimal(n: NodeData)
    requires WellFormed(n) && FindBestSplit(n).Success?
    ensures var s := FindBestSplit(n).value;
      && s.dim < |n.bounds|
      && s.theta in Candidates(n, s.dim)
      && s.mistakes == NodeMistakes(n, s.dim, s.theta)
      && (forall i, t :: 0 <= i < |n.bounds| && t in Candidates(n, i) ==> s.mistakes <= NodeMistakes(n, i, t))
      && (forall i, t :: 0 <= i < s.dim && t in Candidates(n, i) ==> s.mistakes < NodeMistakes(n, i, t))
      && exists j: nat :: j < |Candidates(n, s.dim)| && Candidates(n, s.dim)[j] == s.theta
           && forall j' :: 0 <= j' < j ==> NodeMistakes(n, s.dim, Candidates(n, s.dim)[j']) > s.mistakes
  {
    FirstMinDimIsBest(n, FindBestSplit(n).value.dim);
  }

  /** `find_split`: the chosen dimension and threshold and the two children. */
  function NodeSplit(n: NodeData): (r: Result<(SplitChoice, NodeData, NodeData), Error>)
    requires WellFormed(n)
    ensures r.Failure? <==> FindBestSplit(n).Failure?
    ensures r.Failure? ==> r.error == FindBestSplit(n).error
    ensures r.Success? ==> var (s, l, rt) := r.value;
      && s == FindBestSplit(n).value && s.dim < |n.bounds| && (l, rt) == SplitChildren(n, s.dim, s.theta)
      && WellFormed(l) && WellFormed(rt)
  {
    match FindBestSplit(n)
    case Failure(e) => Failure(e)
    case Success(s) =>
      SplitKeepsWellFormed(n, s.dim, s.theta);
      var (l, rt) := SplitChildren(n, s.dim, s.theta);
      Success((s, l, rt))
  }

  /** The threshold `find_split` chooses lies between the smallest and the
      largest center coordinate of its dimension, so strictly inside the
      node's box. */
  lemma FoundThresholdInBox(n: NodeData)
    requires WellFormed(n) && InsideBox(n) && FindBestSplit(n).Success?
    ensures var s := FindBestSplit(n).value;
      && s.dim < |n.bounds|
      && CenterMin(n, s.dim) <= s.theta <= CenterMax(n, s.dim)
      && AboveLo(n.bounds[s.dim].lo, s.theta) && AtMostHi(s.theta, n.bounds[s.dim].hi)
  {
    var s := FindBestSplit(n).value;
    var i, t := s.dim, s.theta;
    FindBestSplitIsOptimal(n);
    CandidatesWithinCenters(n, i);
    DimsReach(n.clusters, |n.bounds|, i);
    var cc := CenterCoords(n.clusters, i);
    var kmin := ArgMin(cc);
    var kmax :| 0 <= kmax < |cc| && cc[kmax] == MaxOf(cc);
    assert ClusterInBox(n.clusters[kmin], n.bounds) && ClusterInBox(n.clusters[kmax], n.bounds);
    assert AboveLo(n.bounds[i].lo, cc[kmin]) && AtMostHi(cc[kmax], n.bounds[i].hi);
  }

  /** Splitting at a threshold between the smallest and the largest center
      coordinate leaves a center on the left, and leaves none on the right
      exactly when the threshold is the largest coordinate. */
  lemma SplitBetweenCenters(n: NodeData, i: nat, t: real)
    requires WellFormed(n) && i < |n.bounds| && |n.clusters| > 0
    requires CenterMin(n, i) <= t <= CenterMax(n, i)
    ensures var (l, r) := SplitChildren(n, i, t);
      && |l.clusters| > 0
      && (|r.clusters| == 0 <==> t == CenterMax(n, i))
      && |l.clusters| + |r.clusters| == |n.clusters|
  {
    var (l, r) := SplitChildren(n, i, t);
    DimsReach(n.clusters, |n.bounds|, i);
    var cc := CenterCoords(n.clusters, i);
    var cs := CentersOf(n.clusters);
    var kmin := ArgMin(cc);
    SplitPartitionsCenters(n, i, t);
    assert cs[kmin] in cs && cs[kmin].coords[i] <= t;
    assert cs[kmin] in CentersOf(l.clusters);
    FilterPartition(cs, i, t);
    assert |multiset(CentersOf(l.clusters))| + |multiset(CentersOf(r.clusters))| == |multiset(cs)|;
    if |r.clusters| == 0 {
      forall k | 0 <= k < |cc| ensures cc[k] <= t {
        assert cs[k] in cs;
      }
    }
  }

  /** The split `find_split` chooses cuts strictly inside the node's box,
      the left child always holds a center, the right child is empty
      exactly when the threshold equals the largest center coordinate, the
      children stay in their boxes, and every point is kept by a child or
      counted as a mistake of the split. */
  lemma FoundSplitProperties(n: NodeData)
    requires WellFormed(n) && InsideBox(n) && FindBestSplit(n).Success?
    ensures var s := FindBestSplit(n).value; var (l, r) := SplitChildren(n, s.dim, s.theta);
      && AboveLo(n.bounds[s.dim].lo, s.theta) && AtMostHi(s.theta, n.bounds[s.dim].hi)
      && |l.clusters| > 0
      && (|r.clusters| == 0 <==> s.theta == CenterMax(n, s.dim))
      && |l.clusters| + |r.clusters| == |n.clusters|
      && WellFormed(l) && WellFormed(r) && InsideBox(l) && InsideBox(r)
      && TotalMembers(l.clusters) + TotalMembers(r.clusters) + s.mistakes == TotalMembers(n.clusters)
  {
    var s := FindBestSplit(n).value;
    FoundThresholdInBox(n);
    FindBestSplitIsOptimal(n);
    SplitBetweenCenters(n, s.dim, s.theta);
    SplitPreservesInsideBox(n, s.dim, s.theta);
    SplitDropsMistakes(n, s.dim, s.theta);
  }

  /** A split rule: for a node, the chosen split and the two children, or
      the error the split raises. */
  type SplitRule = NodeData -> Result<(SplitChoice, NodeData, NodeData), Error>

  /** `rule` is `find_split` on every well-formed node. */
  ghost predicate IsFindSplit(rule: SplitRule)
  {
    forall m {:trigger NodeSplit(m)} :: WellFormed(m) ==> rule(m) == NodeSplit(m)
  }

  // -------------------------------------------------------------- ClusterNode

  /** A node of an explainable tree: its clusters and per-dimension bounds,
      and, once split, the chosen split and its two children. */
  class ClusterNode {
    const clusters: seq<Cluster>
    const bounds: seq<Bound>
    var split: Option<(nat, real)>
    var children: seq<ClusterNode>

    constructor (clusters: seq<Cluster>, bounds: seq<Bound>)
      ensures this.clusters == clusters && this.bounds == bounds
      ensures split == None && children == []
    {
      this.clusters := clusters;
      this.bounds := bounds;
      split := None;
      children := [];
    }

    function Data(): NodeData
    {
      NodeData(clusters, bounds)
    }

    /** `is_homogeneous`: the node holds a single center. */
    predicate IsHomogeneous()
    {
      |clusters| == 1
    }

    /** `find_split`. The result is stated against `rule`, any function that
        agrees with `NodeSplit` on well-formed nodes. The node itself is
        left as it is; the children are new, unsplit nodes. */
    method FindSplit(ghost rule: SplitRule) returns (r: Result<(nat, real, ClusterNode, ClusterNode), Error>)
      requires WellFormed(Data()) && IsFindSplit(rule)
      ensures r.Failure? <==> rule(Data()).Failure?
      ensures r.Failure? ==> r.error == rule(Data()).error
      ensures r.Success? ==> var (i, theta, left, right) := r.value;
        && rule(Data()).Success?
        && i == rule(Data()).value.0.dim && theta == rule(Data()).value.0.theta
        && left.Data() == rule(Data()).value.1 && right.Data() == rule(Data()).value.2
        && WellFormed(left.Data()) && WellFormed(right.Data())
        && fresh(left) && fresh(right) && left != right
        && left.split == None && left.children == [] && right.split == None && right.children == []
    {
      match NodeSplit(Data())
      case Failure(e) =>
        r := Failure(e);
      case Success((s, l, rt)) =>
        var left := new ClusterNode(l.clusters, l.bounds);
        var right := new ClusterNode(rt.clusters, rt.bounds);
        r := Success((s.dim, s.theta, left, right));
    }
  }

  // ------------------------------------------------------- ExplainableOutput

  /** An explainable solution: the tree's leaves and split nodes, the medoid
      of the (only) cluster of every leaf, and the instance's points grouped
      by their closest medoid. */
  datatype ExplainableOutput = ExplainableOutput(
    instance: Instance, leaves: seq<ClusterNode>, splitNodes: seq<ClusterNode>,
    medoids: seq<Point>, clusters: seq<Cluster>)

  /** The leaves' nodes fit the instance's dimension. */
  predicate LeavesFit(inst: Instance, leaves: seq<ClusterNode>)
  {
    forall k :: 0 <= k < |leaves| ==> WellFormed(leaves[k].Data()) && |leaves[k].bounds| == Dim(inst)
  }

  /** `m` is the medoid of the first cluster of `leaf`. */
  ghost predicate IsLeafMedoid(leaf: ClusterNode, m: Point)
    requires WellFormed(leaf.Data())
  {
    && |leaf.clusters| > 0
    && var ps := leaf.clusters[0].points;
    && |ps| > 0
    && (assert ClusterHasDim(leaf.clusters[0], |leaf.bounds|);
        exists j: nat :: IsMedoidAt(ps, j) && m == ps[j])
  }

  /** The medoid of each leaf's first cluster, failing on a leaf without a
      cluster or with an empty one. */
  function LeafMedoids(leaves: seq<ClusterNode>): (r: Result<seq<Point>, Error>)
    requires forall k :: 0 <= k < |leaves| ==> WellFormed(leaves[k].Data())
    ensures r.Failure? ==> r.error == EmptyLeaf
    ensures r.Success? ==> |r.value| == |leaves| && forall k :: 0 <= k < |leaves| ==> IsLeafMedoid(leaves[k], r.value[k])
  {
    if |leaves| == 0 then Success([])
    else
      var leaf := leaves[0];
      assert WellFormed(leaf.Data());
      assert forall k :: 1 <= k < |leaves| ==> leaves[k] == leaves[1..][k - 1];
      if |leaf.clusters| == 0 then Failure(EmptyLeaf)
      else
        assert ClusterHasDim(leaf.clusters[0], |leaf.bounds|);
        match MedoidBruteforce(leaf.clusters[0].points)
        case None => Failure(EmptyLeaf)
        case Some(med) =>
          match LeafMedoids(leaves[1..])
          case Failure(e) => Failure(e)
          case Success(rest) => Success([med] + rest)
  }
  /** The medoids fail exactly at a leaf without a cluster or whose first
      cluster has no points. */
  lemma {:induction false} LeafMedoidsFail(leaves: seq<ClusterNode>)
    requires forall k :: 0 <= k < |leaves| ==> WellFormed(leaves[k].Data())
    ensures LeafMedoids(leaves).Failure? <==>
      exists k :: 0 <= k < |leaves| && (|leaves[k].clusters| == 0 || |leaves[k].clusters[0].points| == 0)
  {
    if |leaves| > 0 {
      assert forall k :: 1 <= k < |leaves| ==> leaves[k] == leaves[1..][k - 1];
      LeafMedoidsFail(leaves[1..]);
    }
  }


  /** A leaf's medoid is one of its points, so it has the leaf's dimension. */
  lemma MedoidsFit(inst: Instance, leaves: seq<ClusterNode>, meds: seq<Point>)
    requires LeavesFit(inst, leaves)
    requires |meds| == |leaves| && forall k :: 0 <= k < |leaves| ==> IsLeafMedoid(leaves[k], meds[k])
    ensures HasDim(meds, Dim(inst))
  {
    forall k | 0 <= k < |meds| ensures |meds[k].coords| == Dim(inst) {
      assert WellFormed(leaves[k].Data()) && IsLeafMedoid(leaves[k], meds[k]);
      var ps := leaves[k].clusters[0].points;
      assert ClusterHasDim(leaves[k].clusters[0], |leaves[k].bounds|);
      var j: nat :| IsMedoidAt(ps, j) && meds[k] == ps[j];
    }
  }

  /** `ExplainableOutput(instance, leaves, split_nodes)`: computes the
      leaves' medoids and the clusters around them. */
  function MakeExplainableOutput(inst: Instance, leaves: seq<ClusterNode>, splitNodes: seq<ClusterNode>): (r: Result<ExplainableOutput, Error>)
    requires ValidInstance(inst) && LeavesFit(inst, leaves)
    ensures LeafMedoids(leaves).Failure? ==> r == Failure(EmptyLeaf)
    ensures LeafMedoids(leaves).Success? ==>
      && (r.Failure? <==> |leaves| == 0 && |inst.points| > 0)
      && (r.Failure? ==> r.error == NoCentersToAssign)
    ensures r.Success? ==>
      && r.value.instance == inst && r.value.leaves == leaves && r.value.splitNodes == splitNodes
      && r.value.medoids == LeafMedoids(leaves).value
      && CentersOf(r.value.clusters) == Dedup(r.value.medoids)
      && (forall k, x :: 0 <= k < |r.value.clusters| ==>
            (x in r.value.clusters[k].points <==> x in inst.points && AssignedTo(x, r.value.medoids) == r.value.clusters[k].center))
      && TotalMembers(r.value.clusters) == |inst.points|
  {
    match LeafMedoids(leaves)
    case Failure(e) => Failure(e)
    case Success(meds) =>
      if |meds| == 0 && |inst.points| > 0 then Failure(NoCentersToAssign)
      else
        MedoidsFit(inst, leaves, meds);
        Success(ExplainableOutput(inst, leaves, splitNodes, meds, Clusters(inst, meds)))
  }

  /** Each cluster of the explainable solution lists, in instance order and
      once per occurrence, exactly the instance points assigned to its
      medoid. */
  lemma ExplainedClustersInOrder(inst: Instance, leaves: seq<ClusterNode>, splitNodes: seq<ClusterNode>)
    requires ValidInstance(inst) && LeavesFit(inst, leaves)
    requires MakeExplainableOutput(inst, leaves, splitNodes).Success?
    ensures var out := MakeExplainableOutput(inst, leaves, splitNodes).value;
      && FitsInstance(inst, out.medoids) && (|inst.points| > 0 ==> |out.medoids| > 0)
      && forall k :: 0 <= k < |out.clusters| ==>
           ListsAssigned(out.clusters[k].points, inst.points, out.medoids, out.clusters[k].center)
  {
    var meds := LeafMedoids(leaves).value;
    LeafMedoidsFail(leaves);
    MedoidsFit(inst, leaves, meds);
    ClustersInOrder(inst, meds);
  }
}
