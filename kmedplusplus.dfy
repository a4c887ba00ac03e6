/** kmedplusplus.py: the k-median++ reference clustering, i.e. seeding
    followed by Lloyd iterations that move every center to the medoid of
    its cluster. The random draws are parameters: the positions
    `random.sample` returns, and the uniform numbers in [0, 1) from which
    `np.random.choice` picks an index. */
module KMedPlusPlus {
  import opened Wrappers
  import opened Seqs
  import opened Geometry
  import opened SolverInterface

  // ------------------------------------------------------------ random_seed

  /** `picks` are `k` distinct positions in a population of `n`. */
  predicate IsSample(picks: seq<nat>, k: int, n: nat)
  {
    && |picks| == k
    && (forall j :: 0 <= j < |picks| ==> picks[j] < n)
    && (forall i, j :: 0 <= i < j < |picks| ==> picks[i] != picks[j])
  }

  /** The points at the given positions. */
  function PointsAt(points: seq<Point>, picks: seq<nat>): (cs: seq<Point>)
    requires forall j :: 0 <= j < |picks| ==> picks[j] < |points|
    ensures |cs| == |picks| && forall j :: 0 <= j < |picks| ==> cs[j] == points[picks[j]]
  {
    seq(|picks|, j requires 0 <= j < |picks| => points[picks[j]])
  }

  /** `random_seed`: the solution whose centers are the points at `k`
      distinct random positions `picks`. `random.sample` refuses a size
      outside `0..n`, and a solution with no center cannot assign the
      points. */
  function RandomSeed(inst: Instance, picks: seq<nat>): (r: Result<CenterOutput, Error>)
    requires ValidInstance(inst)
    requires 0 <= inst.k <= |inst.points| ==> IsSample(picks, inst.k, |inst.points|)
    ensures r.Failure? <==> inst.k < 0 || inst.k > |inst.points| || (inst.k == 0 && |inst.points| > 0)
    ensures r.Failure? ==> r.error == (if inst.k < 0 || inst.k > |inst.points| then BadSampleSize else NoCentersToAssign)
    ensures r.Success? ==>
              && ValidOutput(r.value) && r.value.instance == inst && |r.value.centers| == inst.k
              && forall j :: 0 <= j < inst.k ==> r.value.centers[j] == inst.points[picks[j]]
  {
    if inst.k < 0 || inst.k > |inst.points| then Failure(BadSampleSize)
    else
      var cs := PointsAt(inst.points, picks);
      assert HasDim(cs, Dim(inst)) by {
        forall j | 0 <= j < |cs| ensures |cs[j].coords| == Dim(inst) {
          assert cs[j] == inst.points[picks[j]];
        }
      }
      MakeCenterOutput(inst, cs)
  }

  /** The instance's points are pairwise different objects. */
  predicate DistinctPoints(ps: seq<Point>)
  {
    forall i, j :: 0 <= i < j < |ps| ==> ps[i] != ps[j]
  }

  /** Drawn from distinct positions of distinct points, the `k` centers are
      `k` different keys of the cluster dict. */
  lemma RandomSeedHasKClusters(inst: Instance, picks: seq<nat>)
    requires ValidInstance(inst) && DistinctPoints(inst.points)
    requires 0 <= inst.k <= |inst.points| ==> IsSample(picks, inst.k, |inst.points|)
    requires RandomSeed(inst, picks).Success?
    ensures var co := RandomSeed(inst, picks).value;
            DistinctPoints(co.centers) && |Clusters(inst, co.centers)| == inst.k
  {
    var co := RandomSeed(inst, picks).value;
    forall i, j | 0 <= i < j < |co.centers| ensures co.centers[i] != co.centers[j] {
      assert co.centers[i] == inst.points[picks[i]] && co.centers[j] == inst.points[picks[j]];
      assert picks[i] != picks[j];
    }
    DedupOfDistinct(co.centers);
    assert |CentersOf(Clusters(inst, co.centers))| == |co.centers|;
  }

  // -------------------------------------------------------------- prob_seed

  /** Every draw lies in [0, 1). */
  predicate Uniform(draws: seq<real>)
  {
    forall j :: 0 <= j < |draws| ==> 0.0 <= draws[j] < 1.0
  }

  /** Some center sits at the coordinates of `p`. */
  predicate Covered(p: Point, centers: seq<Point>)
  {
    exists k :: 0 <= k < |centers| && centers[k].coords == p.coords
  }

  /** `min(dists)` in `point.closest_center(centers)`: the distance from
      `p` to its closest center, zero exactly when a center sits at `p`. */
  function NearestDist(p: Point, centers: seq<Point>): (r: real)
    requires |centers| > 0 && HasDim(centers, |p.coords|)
    ensures forall k :: 0 <= k < |centers| ==> r <= Dist(p, centers[k])
    ensures exists k :: 0 <= k < |centers| && r == Dist(p, centers[k])
    ensures r >= 0.0 && (r == 0.0 <==> Covered(p, centers))
  {
    var last := Dist(p, centers[|centers| - 1]);
    L1NonNegative(p.coords, centers[|centers| - 1].coords);
    L1ZeroIff(p.coords, centers[|centers| - 1].coords);
    if |centers| == 1 then last
    else
      var init := centers[..|centers| - 1];
      var m := NearestDist(p, init);
      CoveredSplit(p, centers);
      if last < m then last else m
  }

  lemma CoveredSplit(p: Point, centers: seq<Point>)
    requires |centers| > 1
    ensures Covered(p, centers) <==> Covered(p, centers[..|centers| - 1]) || centers[|centers| - 1].coords == p.coords
  {
    var init := centers[..|centers| - 1];
    if Covered(p, centers) {
      var k :| 0 <= k < |centers| && centers[k].coords == p.coords;
      if k < |init| { assert init[k] == centers[k]; }
    }
    if Covered(p, init) {
      var k :| 0 <= k < |init| && init[k].coords == p.coords;
      assert centers[k] == init[k];
    }
  }

  /** The product of two non-negative numbers, zero only when a factor is. */
  function Times(a: real, b: real): (y: real)
    requires a >= 0.0 && b >= 0.0
    ensures y >= 0.0 && (y == 0.0 <==> a == 0.0 || b == 0.0)
  {
    a * b
  }

  /** `x ** 2` of a non-negative `x`, zero exactly when `x` is. */
  function Square(x: real): (y: real)
    requires x >= 0.0
    ensures y >= 0.0 && (y == 0.0 <==> x == 0.0)
  {
    Times(x, x)
  }

  /** `distances_sq`: the squared distance of every point to its closest
      chosen center, the weights of the next draw; a weight vanishes
      exactly at the points a center already sits on. */
  function Weights(points: seq<Point>, d: nat, centers: seq<Point>): (w: seq<real>)
    requires HasDim(points, d) && HasDim(centers, d) && |centers| > 0
    ensures |w| == |points|
    ensures forall j :: 0 <= j < |points| ==> w[j] >= 0.0 && (w[j] == 0.0 <==> Covered(points[j], centers))
  {
    if |points| == 0 then []
    else
      var init := points[..|points| - 1];
      var last := points[|points| - 1];
      assert HasDim(init, d);
      Weights(init, d, centers) + [Square(NearestDist(last, centers))]
  }

  /** A fraction `u` in [0, 1) of a positive `t`: it stays in [0, t). */
  function Scale(u: real, t: real): (y: real)
    requires 0.0 <= u < 1.0 && t > 0.0
    ensures 0.0 <= y < t
  {
    u * t
  }

  /** The total of the first `r` weights. */
  function Prefix(w: seq<real>, r: nat): real
    requires r <= |w|
  {
    if r == 0 then 0.0 else w[0] + Prefix(w[1..], r - 1)
  }

  /** Weights that are all non-negative sum to zero only when all are zero. */
  lemma {:induction false} SumOfWeights(w: seq<real>)
    requires forall j :: 0 <= j < |w| ==> w[j] >= 0.0
    ensures Sum(w) >= 0.0
    ensures Sum(w) == 0.0 <==> forall j :: 0 <= j < |w| ==> w[j] == 0.0
  {
    if |w| > 0 {
      SumOfWeights(w[1..]);
      assert forall j :: 1 <= j < |w| ==> w[j] == w[1..][j - 1];
    }
  }

  /** Inverse-CDF sampling, as `np.random.choice(..., p=w/sum(w))` turns a
      uniform `u` into an index: the first position whose cumulative weight
      exceeds `t = u * sum(w)` (see `PickIsInverseCdf`); it always has a
      positive weight. */
  function Pick(w: seq<real>, t: real): (r: nat)
    requires forall j :: 0 <= j < |w| ==> w[j] >= 0.0
    requires 0.0 <= t < Sum(w)
    ensures r < |w| && w[r] > 0.0
  {
    if t < w[0] then 0
    else
      assert forall j :: 0 <= j < |w| - 1 ==> w[1..][j] == w[j + 1];
      1 + Pick(w[1..], t - w[0])
  }

  /** The picked position is the one whose cumulative-weight interval
      `[Prefix(w, r), Prefix(w, r) + w[r])` holds `t`, and every earlier
      position's interval ends at or below `t`. */
  lemma {:induction false} PickIsInverseCdf(w: seq<real>, t: real)
    requires forall j :: 0 <= j < |w| ==> w[j] >= 0.0
    requires 0.0 <= t < Sum(w)
    ensures var r := Pick(w, t);
            && Prefix(w, r) <= t < Prefix(w, r) + w[r]
            && forall q :: 0 <= q < r ==> Prefix(w, q) + w[q] <= t
  {
    if t >= w[0] {
      assert forall j :: 0 <= j < |w| - 1 ==> w[1..][j] == w[j + 1];
      PickIsInverseCdf(w[1..], t - w[0]);
      var r := Pick(w, t);
      forall q | 0 <= q < r ensures Prefix(w, q) + w[q] <= t {
        if q > 0 {
          assert w[1..][q - 1] == w[q];
        }
      }
    }
  }

  /** One round of `prob_seed`: the index of the next center, drawn with
      the weights of the current centers; all-zero weights make the
      normalisation `0/0` and `np.random.choice` refuse. */
  function Draw(points: seq<Point>, d: nat, centers: seq<Point>, u: real): (r: Result<nat, Error>)
    requires HasDim(points, d) && HasDim(centers, d) && |centers| > 0 && 0.0 <= u < 1.0
    ensures r.Failure? <==> forall j :: 0 <= j < |points| ==> Covered(points[j], centers)
    ensures r.Failure? ==> r.error == NoSeedPossible
    ensures r.Success? ==> r.value < |points| && !Covered(points[r.value], centers)
  {
    var w := Weights(points, d, centers);
    var total := Sum(w);
    SumOfWeights(w);
    if total == 0.0 then Failure(NoSeedPossible)
    else
      Success(Pick(w, Scale(u, total)))
  }

  /** The centers after the rounds `i .. k - 1` of `prob_seed`, round `i`
      drawing with `draws[i]`; the rounds only add instance points, each at
      a location no earlier center sits on. */
  function Seeding(points: seq<Point>, d: nat, centers: seq<Point>, draws: seq<real>, i: nat, k: int): (r: Result<seq<Point>, Error>)
    requires HasDim(points, d) && HasDim(centers, d) && |centers| > 0
    requires Uniform(draws) && k <= |draws|
    ensures r.Success? && AtPoints(points, centers) ==> AtPoints(points, r.value)
    decreases k - i
  {
    if i >= k then Success(centers)
    else
      match Draw(points, d, centers, draws[i])
      case Failure(e) => Failure(e)
      case Success(j) =>
        assert HasDim(centers + [points[j]], d);
        AppendNewPoint(points, centers, j);
        Seeding(points, d, centers + [points[j]], draws, i + 1, k)
  }

  /** A round whose weights do not all vanish appends the point `Pick`
      chooses and leaves the remaining rounds. */
  lemma SeedingStep(points: seq<Point>, d: nat, centers: seq<Point>, draws: seq<real>, i: nat, k: int)
    requires HasDim(points, d) && HasDim(centers, d) && |centers| > 0
    requires Uniform(draws) && k <= |draws| && i < k
    requires Sum(Weights(points, d, centers)) > 0.0
    ensures var w := Weights(points, d, centers);
            var j := Pick(w, Scale(draws[i], Sum(w)));
            && HasDim(centers + [points[j]], d)
            && Seeding(points, d, centers, draws, i, k) == Seeding(points, d, centers + [points[j]], draws, i + 1, k)
  {
    var w := Weights(points, d, centers);
    SumOfWeights(w);
    var j := Pick(w, Scale(draws[i], Sum(w)));
    assert Draw(points, d, centers, draws[i]) == Success(j);
    assert HasDim(centers + [points[j]], d);
  }

  /** No two points of `ps` sit at the same coordinates. */
  predicate DistinctLocations(ps: seq<Point>)
  {
    forall i, j :: 0 <= i < j < |ps| ==> ps[i].coords != ps[j].coords
  }

  /** A point no center sits on keeps the centers' locations distinct. */
  lemma AppendNewLocation(centers: seq<Point>, p: Point)
    requires DistinctLocations(centers) && !Covered(p, centers)
    ensures DistinctLocations(centers + [p])
  {
    var next := centers + [p];
    forall a, b | 0 <= a < b < |next| ensures next[a].coords != next[b].coords {
      if b == |centers| {
        assert next[a] == centers[a] && next[b] == p;
      } else {
        assert next[a] == centers[a] && next[b] == centers[b];
      }
    }
  }

  /** The centers are instance points at pairwise different locations. */
  predicate AtPoints(points: seq<Point>, centers: seq<Point>)
  {
    DistinctLocations(centers) && forall j :: 0 <= j < |centers| ==> centers[j] in points
  }

  /** Appending an instance point no center sits on keeps the centers
      instance points at distinct locations. */
  lemma AppendNewPoint(points: seq<Point>, centers: seq<Point>, q: nat)
    requires q < |points| && !Covered(points[q], centers)
    ensures AtPoints(points, centers) ==> AtPoints(points, centers + [points[q]])
  {
    if AtPoints(points, centers) {
      AppendNewLocation(centers, points[q]);
      var next := centers + [points[q]];
      forall j | 0 <= j < |next| ensures next[j] in points {
        if j < |centers| { assert next[j] == centers[j]; }
      }
    }
  }

  /** The rounds fail only for want of a new location, and otherwise add
      one center per round behind the ones already chosen. */
  lemma {:induction false} SeedingShape(points: seq<Point>, d: nat, centers: seq<Point>, draws: seq<real>, i: nat, k: int)
    requires HasDim(points, d) && HasDim(centers, d) && |centers| > 0
    requires Uniform(draws) && k <= |draws|
    ensures var r := Seeding(points, d, centers, draws, i, k);
            && (r.Failure? ==> r.error == NoSeedPossible)
            && (r.Success? ==>
                  && |r.value| == |centers| + (if k > i then k - i else 0)
                  && r.value[..|centers|] == centers)
    decreases k - i
  {
    if i < k {
      var pick := Draw(points, d, centers, draws[i]);
      if pick.Success? {
        var next := centers + [points[pick.value]];
        assert HasDim(next, d);
        SeedingShape(points, d, next, draws, i + 1, k);
        var r := Seeding(points, d, next, draws, i + 1, k);
        if r.Success? {
          assert r.value[..|centers|] == r.value[..|next|][..|centers|];
        }
      }
    }
  }

  /** The coordinates the points sit at. */
  function Locations(ps: seq<Point>): set<seq<real>>
  {
    set j | 0 <= j < |ps| :: ps[j].coords
  }

  lemma {:induction false} LocationsBound(ps: seq<Point>)
    ensures |Locations(ps)| <= |ps|
  {
    if |ps| > 0 {
      var init := ps[..|ps| - 1];
      LocationsBound(init);
      assert Locations(ps) == Locations(init) + {ps[|ps| - 1].coords} by {
        forall x | x in Locations(ps) ensures x in Locations(init) + {ps[|ps| - 1].coords} {
          var j :| 0 <= j < |ps| && ps[j].coords == x;
          if j < |ps| - 1 {
            assert init[j] == ps[j];
          }
        }
        forall x | x in Locations(init) ensures x in Locations(ps) {
          var j :| 0 <= j < |init| && init[j].coords == x;
          assert ps[j] == init[j];
        }
      }
    }
  }

  /** Fewer centers than the points have locations leave some point
      uncovered. */
  lemma SomeUncovered(points: seq<Point>, centers: seq<Point>)
    requires |centers| < |Locations(points)|
    ensures exists j :: 0 <= j < |points| && !Covered(points[j], centers)
  {
    if forall j :: 0 <= j < |points| ==> Covered(points[j], centers) {
      var lp, lc := Locations(points), Locations(centers);
      assert lp <= lc by {
        forall x | x in lp ensures x in lc {
          var j :| 0 <= j < |points| && points[j].coords == x;
          assert Covered(points[j], centers);
          var q :| 0 <= q < |centers| && centers[q].coords == points[j].coords;
        }
      }
      assert lc == lp + (lc - lp);
      assert |lc| >= |lp|;
      LocationsBound(centers);
      assert false;
    }
  }

  /** With at least `k` distinct locations among the points, no round fails. */
  lemma {:induction false} SeedingSucceeds(points: seq<Point>, d: nat, centers: seq<Point>, draws: seq<real>, i: nat, k: int)
    requires HasDim(points, d) && HasDim(centers, d) && |centers| > 0
    requires Uniform(draws) && k <= |draws|
    requires |centers| == i && k <= |Locations(points)|
    ensures Seeding(points, d, centers, draws, i, k).Success?
    decreases k - i
  {
    if i < k {
      SomeUncovered(points, centers);
      var pick := Draw(points, d, centers, draws[i]);
      SeedingSucceeds(points, d, centers + [points[pick.value]], draws, i + 1, k);
    }
  }

  /** The index `np.random.choice(instance.points)` picks from a uniform
      `u`. */
  function FirstPick(u: real, n: nat): (j: nat)
    requires 0.0 <= u < 1.0 && n > 0
    ensures j < n
  {
    Scale(u, n as real).Floor
  }

  /** The draws `prob_seed` needs: one for the first center and one per
      later round. */
  predicate Draws(inst: Instance, draws: seq<real>)
  {
    Uniform(draws) && 1 <= |draws| && inst.k <= |draws|
  }

  /** The centers `prob_seed` picks: a first one uniformly, then rounds
      `1 .. k - 1` by squared distance. */
  function SeedCenters(inst: Instance, draws: seq<real>): (r: Result<seq<Point>, Error>)
    requires ValidInstance(inst) && Draws(inst, draws)
    ensures r.Failure? ==> r.error == (if |inst.points| == 0 then EmptyInstance else NoSeedPossible)
    ensures r.Success? ==> |inst.points| > 0 && |r.value| == (if inst.k < 1 then 1 else inst.k)
    ensures r.Success? ==> AtPoints(inst.points, r.value)
  {
    if |inst.points| == 0 then Failure(EmptyInstance)
    else
      var first := [inst.points[FirstPick(draws[0], |inst.points|)]];
      SeedingShape(inst.points, Dim(inst), first, draws, 1, inst.k);
      var r := Seeding(inst.points, Dim(inst), first, draws, 1, inst.k);
      assert AtPoints(inst.points, first);
      r
  }

  /** Seeded centers are instance points, so they fit the instance. */
  lemma PointsFit(inst: Instance, cs: seq<Point>)
    requires ValidInstance(inst) && forall j :: 0 <= j < |cs| ==> cs[j] in inst.points
    ensures FitsInstance(inst, cs)
  {
    forall j | 0 <= j < |cs| ensures |cs[j].coords| == Dim(inst) {
      var q :| 0 <= q < |inst.points| && inst.points[q] == cs[j];
    }
  }

  /** The solution `prob_seed` returns. */
  function SeedOutput(inst: Instance, draws: seq<real>): (r: Result<CenterOutput, Error>)
    requires ValidInstance(inst) && Draws(inst, draws)
    ensures r.Failure? <==> SeedCenters(inst, draws).Failure?
    ensures r.Failure? ==> r.error == SeedCenters(inst, draws).error
    ensures r.Success? ==> ValidOutput(r.value) && r.value.instance == inst && r.value.centers == SeedCenters(inst, draws).value
  {
    match SeedCenters(inst, draws)
    case Failure(e) => Failure(e)
    case Success(cs) =>
      PointsFit(inst, cs);
      MakeCenterOutput(inst, cs)
  }

  /** The loop of `prob_seed`: the first center drawn uniformly, then one
      center per round, drawn by squared distance to the centers so far. */
  method SeedLoop(inst: Instance, draws: seq<real>) returns (r: Result<seq<Point>, Error>)
    requires ValidInstance(inst) && Draws(inst, draws)
    ensures r == SeedCenters(inst, draws)
  {
    var n := |inst.points|;
    if n == 0 {
      return Failure(EmptyInstance);
    }
    var d := Dim(inst);
    var centers := [inst.points[FirstPick(draws[0], n)]];
    var i := 1;
    assert SeedCenters(inst, draws) == Seeding(inst.points, d, centers, draws, 1, inst.k);
    while i < inst.k
      invariant 1 <= i && |centers| > 0 && HasDim(centers, d)
      invariant Seeding(inst.points, d, centers, draws, i, inst.k) == SeedCenters(inst, draws)
      decreases inst.k - i
    {
      var w := Weights(inst.points, d, centers);
      var total := Sum(w);
      SumOfWeights(w);
      if total == 0.0 {
        return Failure(NoSeedPossible);
      }
      var j := Pick(w, Scale(draws[i], total));
      SeedingStep(inst.points, d, centers, draws, i, inst.k);
      centers := centers + [inst.points[j]];
      i := i + 1;
    }
    assert Seeding(inst.points, d, centers, draws, i, inst.k) == Success(centers);
    r := Success(centers);
  }

  /** `prob_seed(instance, seed)`, with the random numbers as `draws`. */
  method ProbSeed(inst: Instance, draws: seq<real>) returns (r: Result<CenterOutput, Error>)
    requires ValidInstance(inst) && Draws(inst, draws)
    ensures r == SeedOutput(inst, draws)
    ensures r.Success? ==> Guaranteed(r.value, if inst.k < 1 then 1 else inst.k)
  {
    var centers := SeedLoop(inst, draws);
    if centers.Failure? {
      return Failure(centers.error);
    }
    PointsFit(inst, centers.value);
    r := MakeCenterOutput(inst, centers.value);
    ProbSeedGuarantees(inst, draws, r.value);
  }

  /** With at least `k` distinct locations among its points, `prob_seed`
      never fails. */
  lemma ProbSeedSucceeds(inst: Instance, draws: seq<real>)
    requires ValidInstance(inst) && Draws(inst, draws)
    requires |inst.points| > 0 && inst.k <= |Locations(inst.points)|
    ensures SeedCenters(inst, draws).Success?
  {
    var first := [inst.points[FirstPick(draws[0], |inst.points|)]];
    SeedingSucceeds(inst.points, Dim(inst), first, draws, 1, inst.k);
  }

  /** Instance points at pairwise different locations are pairwise
      different centers, each the key of its own cluster. */
  lemma CentersAtPoints(inst: Instance, cs: seq<Point>)
    requires ValidInstance(inst) && AtPoints(inst.points, cs) && |cs| > 0
    ensures FitsInstance(inst, cs) && DistinctPoints(cs) && |Clusters(inst, cs)| == |cs|
  {
    DistinctLocationsArePoints(cs);
    DedupOfDistinct(cs);
    PointsFit(inst, cs);
    assert |CentersOf(Clusters(inst, cs))| == |cs|;
  }

  /** The solution `prob_seed` yields has `max(1, k)` pairwise different
      centers, all instance points, and as many clusters as centers. */
  lemma ProbSeedGuarantees(inst: Instance, draws: seq<real>, co: CenterOutput)
    requires ValidInstance(inst) && Draws(inst, draws)
    requires SeedOutput(inst, draws) == Success(co)
    ensures |co.centers| == (if inst.k < 1 then 1 else inst.k)
    ensures Guaranteed(co, if inst.k < 1 then 1 else inst.k)
    ensures |Clusters(inst, co.centers)| == |co.centers|
  {
    var cs := SeedCenters(inst, draws).value;
    assert co.centers == cs && co.instance == inst;
    CentersAtPoints(inst, cs);
  }

  // --------------------------------------------------------- lloyd_iteration

  /** The positions below `n` of the clusters with at least one point, in
      increasing order. */
  function NonEmptyBelow(m: seq<Cluster>, n: nat): (ix: seq<nat>)
    requires n <= |m|
    ensures |ix| <= n
    ensures forall i, j :: 0 <= i < j < |ix| ==> ix[i] < ix[j]
    ensures forall j :: 0 <= j < |ix| ==> ix[j] < n && |m[ix[j]].points| > 0
    ensures forall k :: k in ix <==> 0 <= k < n && |m[k].points| > 0
  {
    if n == 0 then []
    else
      var ix := NonEmptyBelow(m, n - 1);
      if |m[n - 1].points| > 0 then ix + [n - 1] else ix
  }

  /** The positions of the non-empty clusters. */
  function NonEmpty(m: seq<Cluster>): (ix: seq<nat>)
    ensures |ix| <= |m|
    ensures forall i, j :: 0 <= i < j < |ix| ==> ix[i] < ix[j]
    ensures forall j :: 0 <= j < |ix| ==> ix[j] < |m| && |m[ix[j]].points| > 0
    ensures forall k :: k in ix <==> 0 <= k < |m| && |m[k].points| > 0
  {
    NonEmptyBelow(m, |m|)
  }

  /** Clusters listing at least one point include a non-empty one. */
  lemma {:induction false} SomeNonEmpty(m: seq<Cluster>)
    requires TotalMembers(m) > 0
    ensures exists k :: 0 <= k < |m| && |m[k].points| > 0
  {
    if |m[0].points| == 0 {
      SomeNonEmpty(m[1..]);
      var k :| 0 <= k < |m[1..]| && |m[1..][k].points| > 0;
      assert m[k + 1] == m[1..][k];
    }
  }

  /** Every cluster's points have `d` coordinates. */
  predicate PointDims(m: seq<Cluster>, d: nat)
  {
    forall k :: 0 <= k < |m| ==> HasDim(m[k].points, d)
  }

  /** `c` is the medoid of the non-empty `ps` that `medoid_bruteforce` returns. */
  predicate IsMedoidOf(c: Point, ps: seq<Point>)
  {
    && |ps| > 0 && HasDim(ps, |ps[0].coords|)
    && exists q: nat :: q < |ps| && IsMedoidAt(ps, q) && c == ps[q]
  }

  /** `[medoid_bruteforce(points) for center, points in m if points]`. */
  function NonEmptyMedoids(m: seq<Cluster>, d: nat): (cs: seq<Point>)
    requires PointDims(m, d)
    ensures |cs| == |NonEmpty(m)|
    ensures forall j :: 0 <= j < |cs| ==> IsMedoidOf(cs[j], m[NonEmpty(m)[j]].points)
  {
    var ix := NonEmpty(m);
    var cs := seq(|ix|, j requires 0 <= j < |ix| => MedoidBruteforce(m[ix[j]].points).value);
    MedoidsOfClusters(m, d, ix, cs);
    cs
  }

  lemma MedoidsOfClusters(m: seq<Cluster>, d: nat, ix: seq<nat>, cs: seq<Point>)
    requires PointDims(m, d) && |cs| == |ix|
    requires forall j :: 0 <= j < |ix| ==> ix[j] < |m| && |m[ix[j]].points| > 0
    requires forall j :: 0 <= j < |ix| ==> cs[j] == MedoidBruteforce(m[ix[j]].points).value
    ensures forall j :: 0 <= j < |cs| ==> IsMedoidOf(cs[j], m[ix[j]].points)
  {
    forall j | 0 <= j < |cs| ensures IsMedoidOf(cs[j], m[ix[j]].points) {
      var ps := m[ix[j]].points;
      assert HasDim(ps, d);
      assert MedoidBruteforce(ps).Some?;
    }
  }

  /** Clusters that split the points `pts` of dimension `d`: every listed
      point is one of `pts`, no point is listed under two centers, and
      `|pts|` points are listed in all. */
  predicate Partition(m: seq<Cluster>, pts: seq<Point>, d: nat)
  {
    && PointDims(m, d)
    && (forall k, x :: 0 <= k < |m| && x in m[k].points ==> x in pts)
    && (forall a, b, x :: 0 <= a < b < |m| && x in m[a].points ==> x !in m[b].points)
    && TotalMembers(m) == |pts|
  }

  /** The clusters of a solution split the instance's points. */
  lemma ClustersPartition(co: CenterOutput)
    requires ValidOutput(co)
    ensures Partition(Clusters(co.instance, co.centers), co.instance.points, Dim(co.instance))
  {
    ClustersListPoints(co);
    ClustersDisjoint(co);
  }

  lemma ClustersListPoints(co: CenterOutput)
    requires ValidOutput(co)
    ensures var m := Clusters(co.instance, co.centers);
            && PointDims(m, Dim(co.instance))
            && forall k, x :: 0 <= k < |m| && x in m[k].points ==> x in co.instance.points
  {
    var inst := co.instance;
    var m := Clusters(inst, co.centers);
    forall k | 0 <= k < |m| ensures HasDim(m[k].points, Dim(inst)) {
      SubsetDims(m[k].points, inst.points, Dim(inst));
    }
  }

  /** Points taken from points of dimension `d` have dimension `d`. */
  lemma SubsetDims(ps: seq<Point>, pts: seq<Point>, d: nat)
    requires HasDim(pts, d) && forall x :: x in ps ==> x in pts
    ensures HasDim(ps, d)
  {
    forall j | 0 <= j < |ps| ensures |ps[j].coords| == d {
      assert ps[j] in ps;
    }
  }

  lemma ClustersDisjoint(co: CenterOutput)
    requires ValidOutput(co)
    ensures var m := Clusters(co.instance, co.centers);
            forall a, b, x :: 0 <= a < b < |m| && x in m[a].points ==> x !in m[b].points
  {
    var m := Clusters(co.instance, co.centers);
    DedupDistinct(co.centers);
    forall a, b, x | 0 <= a < b < |m| && x in m[a].points ensures x !in m[b].points {
      assert CentersOf(m)[a] != CentersOf(m)[b];
    }
  }

  /** The medoids of split points are among those points, and there is
      one when there are points. */
  lemma MedoidsArePoints(m: seq<Cluster>, pts: seq<Point>, d: nat)
    requires Partition(m, pts, d)
    ensures var cs := NonEmptyMedoids(m, d);
            && (forall j :: 0 <= j < |cs| ==> cs[j] in pts)
            && (|pts| > 0 ==> |cs| > 0)
  {
    var cs := NonEmptyMedoids(m, d);
    forall j | 0 <= j < |cs| ensures cs[j] in pts {
      var ps := m[NonEmpty(m)[j]].points;
      var q: nat :| IsMedoidAt(ps, q) && cs[j] == ps[q];
      assert ps[q] in ps;
    }
    if |pts| > 0 {
      SomeNonEmpty(m);
      var k :| 0 <= k < |m| && |m[k].points| > 0;
      assert k in NonEmpty(m);
    }
  }

  /** The medoids of different clusters of a partition are different
      points: no point is listed twice. */
  lemma MedoidsDistinct(m: seq<Cluster>, pts: seq<Point>, d: nat)
    requires Partition(m, pts, d)
    ensures DistinctPoints(NonEmptyMedoids(m, d))
  {
    var cs := NonEmptyMedoids(m, d);
    var ix := NonEmpty(m);
    forall a, b | 0 <= a < b < |cs| ensures cs[a] != cs[b] {
      var pa, pb := m[ix[a]].points, m[ix[b]].points;
      var qa: nat :| IsMedoidAt(pa, qa) && cs[a] == pa[qa];
      var qb: nat :| IsMedoidAt(pb, qb) && cs[b] == pb[qb];
      assert pa[qa] in pa && pb[qb] in pb;
      assert ix[a] < ix[b];
    }
  }

  /** `lloyd_iteration`: the solution whose centers are the medoids of the
      current solution's non-empty clusters, in cluster order. */
  function LloydIteration(co: CenterOutput): (r: CenterOutput)
    requires ValidOutput(co)
    ensures ValidOutput(r) && r.instance == co.instance
  {
    var inst := co.instance;
    var m := Clusters(inst, co.centers);
    ClustersPartition(co);
    MedoidsArePoints(m, inst.points, Dim(inst));
    var cs := NonEmptyMedoids(m, Dim(inst));
    PointsFit(inst, cs);
    MakeCenterOutput(inst, cs).value
  }

  /** The new centers are, in cluster order, the medoids of exactly the
      non-empty clusters of the old solution, which split its points. */
  lemma LloydCenters(co: CenterOutput)
    requires ValidOutput(co)
    ensures var m := Clusters(co.instance, co.centers);
            && Partition(m, co.instance.points, Dim(co.instance))
            && LloydIteration(co).centers == NonEmptyMedoids(m, Dim(co.instance))
  {
    ClustersPartition(co);
  }

  /** An iteration keeps at most as many centers as there were different
      ones, all of them instance points, pairwise different, and at least
      one when the instance has points. */
  lemma LloydGuarantees(co: CenterOutput)
    requires ValidOutput(co)
    ensures var cs := LloydIteration(co).centers;
            && |cs| <= |Dedup(co.centers)|
            && (|co.instance.points| > 0 ==> |cs| > 0)
            && (forall j :: 0 <= j < |cs| ==> cs[j] in co.instance.points)
            && DistinctPoints(cs)
  {
    var inst := co.instance;
    var m := Clusters(inst, co.centers);
    LloydCenters(co);
    MedoidsArePoints(m, inst.points, Dim(inst));
    MedoidsDistinct(m, inst.points, Dim(inst));
    assert |CentersOf(m)| == |m|;
  }

  // --------------------------------------------------- KMedPlusPlus.__call__

  /** `numiter` Lloyd iterations. */
  function Iterate(co: CenterOutput, n: nat): (r: CenterOutput)
    requires ValidOutput(co)
    ensures ValidOutput(r) && r.instance == co.instance
  {
    if n == 0 then co else LloydIteration(Iterate(co, n - 1))
  }

  /** The number of loop rounds of `for _ in range(numiter)`. */
  function Rounds(numiter: int): nat
  {
    if numiter < 0 then 0 else numiter
  }

  /** Pairwise different centers, all instance points, at least one and at
      most `bound` of them. */
  predicate Guaranteed(co: CenterOutput, bound: int)
  {
    && 0 < |co.centers| <= bound
    && DistinctPoints(co.centers)
    && forall j :: 0 <= j < |co.centers| ==> co.centers[j] in co.instance.points
  }

  /** A Lloyd iteration keeps these guarantees. */
  lemma LloydKeepsGuarantees(co: CenterOutput, bound: int)
    requires ValidOutput(co) && Guaranteed(co, bound)
    ensures Guaranteed(LloydIteration(co), bound)
  {
    LloydGuarantees(co);
    DedupOfDistinct(co.centers);
  }

  /** The `numiter` Lloyd iterations of `KMedPlusPlus.__call__`: they keep
      the centers pairwise different instance points, at least one and at
      most `bound` of them. */
  method Improve(co: CenterOutput, numiter: int, bound: int) returns (r: CenterOutput)
    requires ValidOutput(co) && Guaranteed(co, bound)
    ensures r == Iterate(co, Rounds(numiter))
    ensures ValidOutput(r) && r.instance == co.instance && Guaranteed(r, bound)
  {
    r := co;
    for i := 0 to Rounds(numiter)
      invariant ValidOutput(r) && r == Iterate(co, i) && r.instance == co.instance
      invariant Guaranteed(r, bound)
    {
      LloydKeepsGuarantees(r, bound);
      r := LloydIteration(r);
    }
  }

  /** `KMedPlusPlus(numiter, seed)(instance)`: seed with `prob_seed`, then
      run `numiter` Lloyd iterations. The solution has pairwise different
      centers, all instance points, and at least one and at most
      `max(1, k)` of them. */
  method Solve(inst: Instance, numiter: int, draws: seq<real>) returns (r: Result<CenterOutput, Error>)
    requires ValidInstance(inst) && Draws(inst, draws)
    ensures r.Failure? <==> SeedOutput(inst, draws).Failure?
    ensures r.Failure? ==> r.error == SeedOutput(inst, draws).error
    ensures r.Success? ==>
              && r.value == Iterate(SeedOutput(inst, draws).value, Rounds(numiter))
              && ValidOutput(r.value) && r.value.instance == inst
              && Guaranteed(r.value, if inst.k < 1 then 1 else inst.k)
  {
    var seeded := ProbSeed(inst, draws);
    if seeded.Failure? {
      return Failure(seeded.error);
    }
    var solution := Improve(seeded.value, numiter, if inst.k < 1 then 1 else inst.k);
    r := Success(solution);
  }

  /** Points at different locations are different points. */
  lemma DistinctLocationsArePoints(ps: seq<Point>)
    requires DistinctLocations(ps)
    ensures DistinctPoints(ps)
  {
    forall a, b | 0 <= a < b < |ps| ensures ps[a] != ps[b] {
      assert ps[a].coords != ps[b].coords;
    }
  }
}
