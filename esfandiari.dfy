/** `EsfandiariAlgorithm`: its `__call__` pairs the explainable solution of
    the live `build_tree` with the pre-solution's clusters. Of the earlier,
    shadowed `median_split` only the split for one drawn dimension `r` and
    threshold `z` is modelled: the center ranges `a`, `b`, `R`, the
    probabilities of the dimensions, the two draws and the construction of
    the two children. */
module Esfandiari {
  import opened Wrappers
  import opened Seqs
  import opened Geometry
  import opened SolverInterface
  import opened TreeBuild
  import K = KMedPlusPlus
  import IMM

  // ------------------------------------------------------ the center ranges

  /** `a` and `b`: per dimension, the smallest and the largest center
      coordinate, the same range `find_split` takes its candidates from
      (`RangeOfCenters` states what they bound). A node without centers
      has no `centers[0]` to take the dimension from. */
  function CenterRange(n: NodeData): (r: Result<(seq<real>, seq<real>), Error>)
    requires WellFormed(n)
    ensures r.Failure? <==> |n.clusters| == 0
    ensures r.Failure? ==> r.error == NoCenters
    ensures r.Success? ==>
      && |r.value.0| == |n.bounds| && |r.value.1| == |n.bounds|
      && forall i :: 0 <= i < |n.bounds| ==> r.value.0[i] == CenterMin(n, i) && r.value.1[i] == CenterMax(n, i)
  {
    if |n.clusters| == 0 then Failure(NoCenters)
    else
      Success((seq(|n.bounds|, i requires 0 <= i < |n.bounds| => CenterMin(n, i)),
               seq(|n.bounds|, i requires 0 <= i < |n.bounds| => CenterMax(n, i))))
  }

  /** In every dimension, `a` and `b` bound the coordinates of all centers
      and are each attained by some center. */
  lemma RangeOfCenters(n: NodeData)
    requires WellFormed(n) && |n.clusters| > 0
    ensures var (a, b) := CenterRange(n).value;
      && (forall i, k :: 0 <= i < |n.bounds| && 0 <= k < |n.clusters| ==>
            a[i] <= n.clusters[k].center.coords[i] <= b[i])
      && (forall i :: 0 <= i < |n.bounds| ==>
            && (exists k :: 0 <= k < |n.clusters| && n.clusters[k].center.coords[i] == a[i])
            && (exists k :: 0 <= k < |n.clusters| && n.clusters[k].center.coords[i] == b[i]))
  {
    var (a, b) := CenterRange(n).value;
    forall i | 0 <= i < |n.bounds|
      ensures forall k :: 0 <= k < |n.clusters| ==> a[i] <= n.clusters[k].center.coords[i] <= b[i]
      ensures exists k :: 0 <= k < |n.clusters| && n.clusters[k].center.coords[i] == a[i]
      ensures exists k :: 0 <= k < |n.clusters| && n.clusters[k].center.coords[i] == b[i]
    {
      CenterRangeAt(n, i);
      var kmin :| 0 <= kmin < |n.clusters| && n.clusters[kmin].center.coords[i] == CenterMin(n, i);
      var kmax :| 0 <= kmax < |n.clusters| && n.clusters[kmax].center.coords[i] == CenterMax(n, i);
      assert n.clusters[kmin].center.coords[i] == a[i] && n.clusters[kmax].center.coords[i] == b[i];
    }
  }

  /** The smallest and largest center coordinate in dimension `i` bound
      every center's coordinate and are attained by some center. */
  ghost predicate RangeAttained(n: NodeData, i: nat)
    requires WellFormed(n) && i < |n.bounds| && |n.clusters| > 0
  {
    && (forall k :: 0 <= k < |n.clusters| ==> CenterMin(n, i) <= n.clusters[k].center.coords[i] <= CenterMax(n, i))
    && (exists k :: 0 <= k < |n.clusters| && n.clusters[k].center.coords[i] == CenterMin(n, i))
    && (exists k :: 0 <= k < |n.clusters| && n.clusters[k].center.coords[i] == CenterMax(n, i))
  }

  lemma CenterRangeAt(n: NodeData, i: nat)
    requires WellFormed(n) && i < |n.bounds| && |n.clusters| > 0
    ensures RangeAttained(n, i)
  {
    DimsReach(n.clusters, |n.bounds|, i);
    var cc := CenterCoords(n.clusters, i);
    var kmin :| 0 <= kmin < |cc| && cc[kmin] == MinOf(cc);
    var kmax :| 0 <= kmax < |cc| && cc[kmax] == MaxOf(cc);
    assert n.clusters[kmin].center.coords[i] == CenterMin(n, i);
    assert n.clusters[kmax].center.coords[i] == CenterMax(n, i);
  }

  /** `R` as written: `a[i] - b[i]`, the width of the range negated. */
  function Ranges(a: seq<real>, b: seq<real>): (rs: seq<real>)
    requires |a| == |b|
    ensures |rs| == |a|
  {
    seq(|a|, i requires 0 <= i < |a| => a[i] - b[i])
  }

  /** The width `b[i] - a[i]` of each range, which `R` evidently means. */
  function Widths(a: seq<real>, b: seq<real>): (ws: seq<real>)
    requires |a| == |b|
    ensures |ws| == |a|
  {
    seq(|a|, i requires 0 <= i < |a| => b[i] - a[i])
  }

  /** As written, no range is positive; a range is zero, and the width is
      zero, exactly when all centers agree in that dimension. */
  lemma RangesNonPositive(n: NodeData)
    requires WellFormed(n) && CenterRange(n).Success?
    ensures var (a, b) := CenterRange(n).value;
      forall i :: 0 <= i < |n.bounds| ==>
        && Ranges(a, b)[i] <= 0.0 && Widths(a, b)[i] >= 0.0
        && (Ranges(a, b)[i] == 0.0 <==> forall k :: 0 <= k < |n.clusters| ==> n.clusters[k].center.coords[i] == a[i])
  {
    var (a, b) := CenterRange(n).value;
    RangeOfCenters(n);
    forall i | 0 <= i < |n.bounds|
      ensures Ranges(a, b)[i] == 0.0 <==> forall k :: 0 <= k < |n.clusters| ==> n.clusters[k].center.coords[i] == a[i]
    {
      var kmax :| 0 <= kmax < |n.clusters| && n.clusters[kmax].center.coords[i] == b[i];
    }
  }

  // ---------------------------------------------------------- probabilities

  /** `probs = [R[i]/sum(R) for i in range(dim)]`; ranges that sum to zero
      make the normalisation `0/0` (NaN) and `np.random.choice` refuse. */
  function Probs(rs: seq<real>): (p: Result<seq<real>, Error>)
    ensures p.Failure? <==> Sum(rs) == 0.0
    ensures p.Failure? ==> p.error == DegenerateRanges
    ensures p.Success? ==> |p.value| == |rs| && forall i :: 0 <= i < |rs| ==> p.value[i] * Sum(rs) == rs[i]
  {
    if Sum(rs) == 0.0 then Failure(DegenerateRanges)
    else Success(seq(|rs|, i requires 0 <= i < |rs| => rs[i] / Sum(rs)))
  }

  lemma {:induction false} SumNegated(xs: seq<real>, ys: seq<real>)
    requires |xs| == |ys| && forall i :: 0 <= i < |xs| ==> xs[i] == -ys[i]
    ensures Sum(xs) == -Sum(ys)
  {
    if |xs| > 0 {
      assert forall i :: 0 <= i < |xs| - 1 ==> xs[1..][i] == xs[i + 1] && ys[1..][i] == ys[i + 1];
      SumNegated(xs[1..], ys[1..]);
    }
  }

  /** The sign of `R` cancels in the normalisation: the probabilities are
      those of the widths. */
  lemma SignCancels(a: seq<real>, b: seq<real>)
    requires |a| == |b|
    ensures Probs(Ranges(a, b)) == Probs(Widths(a, b))
  {
    var rs, ws := Ranges(a, b), Widths(a, b);
    SumNegated(rs, ws);
    if Sum(ws) != 0.0 {
      var p, q := Probs(rs).value, Probs(ws).value;
      forall i | 0 <= i < |rs| ensures p[i] == q[i] {
        DivNegated(ws[i], Sum(ws));
      }
      assert p == q;
    }
  }

  lemma DivNegated(x: real, s: real)
    requires s != 0.0
    ensures (-x) / (-s) == x / s
  {
  }

  lemma ScaleUnique(x: real, y: real, s: real, w: real)
    requires s != 0.0 && x * s == w && y * s == w
    ensures x == y
  {
    assert (x - y) * s == 0.0;
  }

  lemma Distributes(x: real, y: real, s: real)
    ensures (x + y) * s == x * s + y * s
  {
  }

  lemma {:induction false} SumScaled(p: seq<real>, w: seq<real>, s: real)
    requires |p| == |w| && forall i :: 0 <= i < |p| ==> p[i] * s == w[i]
    ensures Sum(p) * s == Sum(w)
  {
    if |p| > 0 {
      assert forall i :: 0 <= i < |p| - 1 ==> p[1..][i] == p[i + 1] && w[1..][i] == w[i + 1];
      SumScaled(p[1..], w[1..], s);
      Distributes(p[0], Sum(p[1..]), s);
    }
  }

  /** A positive `s` keeps the sign of `x` in `x * s`. */
  lemma ScaleSign(x: real, s: real, w: real)
    requires s > 0.0 && x * s == w
    ensures (x >= 0.0 <==> w >= 0.0) && (x > 0.0 <==> w > 0.0)
  {
    if x < 0.0 {
      assert (-x) * s > 0.0;
    }
    if x > 0.0 {
      assert x * s > 0.0;
    }
  }

  /** Non-negative weights scaled down by their positive sum `s`. */
  lemma Normalizes(p: seq<real>, ws: seq<real>, s: real)
    requires |p| == |ws| && forall i :: 0 <= i < |p| ==> p[i] * s == ws[i]
    requires forall i :: 0 <= i < |ws| ==> ws[i] >= 0.0
    requires s > 0.0 && s == Sum(ws)
    ensures forall i :: 0 <= i < |p| ==> p[i] >= 0.0 && (p[i] > 0.0 <==> ws[i] > 0.0)
    ensures Sum(p) == 1.0
  {
    SumScaled(p, ws, s);
    ScaleUnique(Sum(p), 1.0, s, s);
    forall i | 0 <= i < |p| ensures p[i] >= 0.0 && (p[i] > 0.0 <==> ws[i] > 0.0) {
      ScaleSign(p[i], s, ws[i]);
    }
  }

  /** Non-negative weights with a positive sum give a probability
      distribution, positive exactly where the weight is. */
  lemma ProbsDistribution(ws: seq<real>)
    requires forall i :: 0 <= i < |ws| ==> ws[i] >= 0.0
    requires Sum(ws) > 0.0
    ensures Probs(ws).Success?
    ensures forall i :: 0 <= i < |ws| ==> Probs(ws).value[i] >= 0.0 && (Probs(ws).value[i] > 0.0 <==> ws[i] > 0.0)
    ensures Sum(Probs(ws).value) == 1.0
  {
    Normalizes(Probs(ws).value, ws, Sum(ws));
  }

  /** The probabilities of ordered ranges `a[i] <= b[i]`: none when every
      range is a single value, and otherwise a distribution, positive
      exactly at the ranges of positive width. */
  lemma RangeProbs(a: seq<real>, b: seq<real>)
    requires |a| == |b| && forall i :: 0 <= i < |a| ==> a[i] <= b[i]
    ensures var p := Probs(Ranges(a, b));
      && (p.Failure? <==> forall i :: 0 <= i < |a| ==> a[i] == b[i])
      && (p.Success? ==>
            && |p.value| == |a| && Sum(p.value) == 1.0
            && forall j :: 0 <= j < |a| ==> p.value[j] >= 0.0 && (p.value[j] > 0.0 <==> a[j] < b[j]))
  {
    var ws := Widths(a, b);
    SignCancels(a, b);
    K.SumOfWeights(ws);
    if Sum(ws) != 0.0 {
      ProbsDistribution(ws);
      var j :| 0 <= j < |ws| && ws[j] != 0.0;
      assert a[j] != b[j];
    } else {
      forall i | 0 <= i < |a| ensures a[i] == b[i] {
        assert ws[i] == 0.0;
      }
    }
  }

  /** The probabilities of the dimensions at a node with centers: none when
      the centers agree in every dimension, and otherwise a distribution,
      positive exactly at the dimensions where the centers differ. */
  lemma DimensionProbs(n: NodeData)
    requires WellFormed(n) && |n.clusters| > 0
    ensures var (a, b) := CenterRange(n).value; var p := Probs(Ranges(a, b));
      && (p.Failure? <==> forall i :: 0 <= i < |n.bounds| ==> a[i] == b[i])
      && (p.Success? ==>
            && |p.value| == |n.bounds| && Sum(p.value) == 1.0
            && forall j :: 0 <= j < |n.bounds| ==> p.value[j] >= 0.0 && (p.value[j] > 0.0 <==> a[j] < b[j]))
  {
    var (a, b) := CenterRange(n).value;
    RangeOfCenters(n);
    assert forall i :: 0 <= i < |a| ==> a[i] <= b[i] by {
      forall i | 0 <= i < |a| ensures a[i] <= b[i] {
        assert a[i] <= n.clusters[0].center.coords[i] <= b[i];
      }
    }
    RangeProbs(a, b);
  }

  // ------------------------------------------------------------- the draws

  /** The draws of `median_split` from two uniform `u`, `v` in [0, 1): the
      dimension `r` of `np.random.choice(range(dim), p=probs)` by
      inverse-CDF sampling, and the threshold `z` of
      `np.random.uniform(a[r], b[r])`, the fraction `v` of the way from
      `a[r]` to `b[r]`. It fails on a node without centers and on centers
      that agree in every dimension; otherwise `z` lies in `[a[r], b[r])`,
      so `r` is a dimension where the centers differ. */
  function DrawSplit(n: NodeData, u: real, v: real): (r: Result<(nat, real), Error>)
    requires WellFormed(n) && 0.0 <= u < 1.0 && 0.0 <= v < 1.0
    ensures r.Failure? <==> |n.clusters| == 0 || forall i :: 0 <= i < |n.bounds| ==> CenterMin(n, i) == CenterMax(n, i)
    ensures r.Failure? ==> r.error == if |n.clusters| == 0 then NoCenters else DegenerateRanges
    ensures r.Success? ==> r.value.0 < |n.bounds| && CenterMin(n, r.value.0) <= r.value.1 < CenterMax(n, r.value.0)
  {
    match CenterRange(n)
    case Failure(e) => Failure(e)
    case Success((a, b)) =>
      DimensionProbs(n);
      match Probs(Ranges(a, b))
      case Failure(e) => Failure(e)
      case Success(p) =>
        var dim := K.Pick(p, u);
        Success((dim, a[dim] + K.Scale(v, b[dim] - a[dim])))
  }

  // -------------------------------------------------- the children at (r, z)

  /** The children `node_L`, `node_R` of `median_split` at `(r, z)`: the
      centers `<= z` and `> z`, each center's list cut down to the same
      side, and copies of the node's bounds with the upper, respectively
      lower, bound of dimension `r` set to `z`; they become the node's
      children. */
  method SplitAt(node: ClusterNode, r: nat, z: real) returns (left: ClusterNode, right: ClusterNode)
    requires WellFormed(node.Data()) && r < |node.bounds|
    modifies node
    ensures (left.Data(), right.Data()) == SplitChildren(node.Data(), r, z)
    ensures fresh(left) && fresh(right) && left != right
    ensures left.split == None && left.children == [] && right.split == None && right.children == []
    ensures node.children == [left, right] && node.split == old(node.split)
  {
    DimsReach(node.clusters, |node.bounds|, r);
    var lb := new Bound[|node.bounds|](k requires 0 <= k < |node.bounds| => node.bounds[k]);
    assert lb[..] == node.bounds;
    lb[r] := Bound(lb[r].lo, Fin(z));
    left := new ClusterNode(Side(node.clusters, r, z, true), lb[..]);
    var rb := new Bound[|node.bounds|](k requires 0 <= k < |node.bounds| => node.bounds[k]);
    assert rb[..] == node.bounds;
    rb[r] := Bound(Fin(z), rb[r].hi);
    right := new ClusterNode(Side(node.clusters, r, z, false), rb[..]);
    assert left.Data() == SplitChildren(node.Data(), r, z).0;
    node.children := [left, right];
  }

  lemma DrawnSplitChildren(n: NodeData, r: nat, z: real)
    requires WellFormed(n) && r < |n.bounds| && |n.clusters| > 0
    requires CenterMin(n, r) <= z <= CenterMax(n, r)
    ensures var (l, rt) := SplitChildren(n, r, z);
      && (forall c :: c in CentersOf(l.clusters) <==> c in CentersOf(n.clusters) && c.coords[r] <= z)
      && (forall c :: c in CentersOf(rt.clusters) <==> c in CentersOf(n.clusters) && c.coords[r] > z)
      && multiset(CentersOf(l.clusters)) + multiset(CentersOf(rt.clusters)) == multiset(CentersOf(n.clusters))
      && (forall k :: 0 <= k < |n.clusters| && n.clusters[k].center.coords[r] == CenterMin(n, r) ==>
            n.clusters[k].center in CentersOf(l.clusters))
      && |l.clusters| > 0 && (|rt.clusters| == 0 <==> z == CenterMax(n, r))
      && l.bounds == n.bounds[r := Bound(n.bounds[r].lo, Fin(z))]
      && rt.bounds == n.bounds[r := Bound(Fin(z), n.bounds[r].hi)]
  {
    SplitPartitionsCenters(n, r, z);
    SplitBetweenCenters(n, r, z);
    var cs := CentersOf(n.clusters);
    forall k | 0 <= k < |n.clusters| && n.clusters[k].center.coords[r] == CenterMin(n, r)
      ensures n.clusters[k].center in CentersOf(SplitChildren(n, r, z).0.clusters)
    {
      assert cs[k] in cs;
    }
  }

  /** The clusters of the children at a drawn `(r, z)` each list one
      parent center's points on the child's side, and nothing else. */
  lemma DrawnSplitLists(n: NodeData, r: nat, z: real)
    requires WellFormed(n) && r < |n.bounds|
    ensures ReachesAll(n.clusters, r)
    ensures var (l, rt) := SplitChildren(n, r, z);
      && (forall k :: 0 <= k < |l.clusters| ==>
            exists j :: 0 <= j < |n.clusters| && RestrictionOf(l.clusters[k], n.clusters[j], r, z, true))
      && (forall k :: 0 <= k < |rt.clusters| ==>
            exists j :: 0 <= j < |n.clusters| && RestrictionOf(rt.clusters[k], n.clusters[j], r, z, false))
  {
    DimsReach(n.clusters, |n.bounds|, r);
    SideRestricts(n.clusters, r, z, true);
    SideRestricts(n.clusters, r, z, false);
  }

  /** A drawn split makes progress: both children hold at least one
      center, so each holds fewer centers than the node. */
  lemma DrawnSplitProgress(n: NodeData, u: real, v: real)
    requires WellFormed(n) && 0.0 <= u < 1.0 && 0.0 <= v < 1.0 && DrawSplit(n, u, v).Success?
    ensures var (r, z) := DrawSplit(n, u, v).value; var (l, rt) := SplitChildren(n, r, z);
      && 0 < |l.clusters| < |n.clusters| && 0 < |rt.clusters| < |n.clusters|
  {
    var (r, z) := DrawSplit(n, u, v).value;
    SplitBetweenCenters(n, r, z);
  }

  // ----------------------------------------------------------- the solver

  /** The explainable solution of a pair `(ExplainableOutput, preclusters)`. */
  function Explained(r: Result<(ExplainableOutput, seq<Cluster>), Error>): (e: Result<ExplainableOutput, Error>)
    ensures e.Success? <==> r.Success?
    ensures r.Success? ==> e.value == r.value.0
    ensures r.Failure? ==> e.error == r.error
  {
    match r
    case Success((out, _)) => Success(out)
    case Failure(err) => Failure(err)
  }

  /** `EsfandiariAlgorithm()(instance)`: the explainable solution of the
      live `build_tree` (the one `IMM.BuildTree` models), paired with the
      pre-solution's clusters as `build_tree` returns them. */
  method Solve(inst: Instance, draws: seq<real>, fuel: nat)
    returns (r: Result<(ExplainableOutput, seq<Cluster>), Error>, ghost pre: CenterOutput, ghost t: Tree)
    requires ValidInstance(inst) && K.Draws(inst, draws)
    ensures |inst.points| == 0 ==> r == Failure(EmptyInstance)
    ensures IMM.Yields(inst, draws, fuel, pre, t, Explained(r))
    ensures r.Success? ==> r.value.1 == Clusters(inst, pre.centers)
  {
    var built;
    built, pre, t := IMM.BuildTree(inst, draws, fuel);
    if built.Failure? {
      return Failure(built.error), pre, t;
    }
    var (leaves, splits, preclusters) := built.value;
    var out := MakeExplainableOutput(inst, leaves, splits);
    IMM.LeafWithoutPoints(t, leaves);
    if out.Failure? {
      return Failure(out.error), pre, t;
    }
    r := Success((out.value, preclusters));
  }
}
