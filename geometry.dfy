/** Geometric primitives of util.py: points, the L1 distance, nearest
    center, brute-force medoid, coordinate-wise median and the member
    closest to the centroid. */
module Geometry {
  import opened Wrappers
  import opened Seqs

  /** A data point. `Point` has no `__eq__`, so Python compares points by
      object identity; `id` stands for that identity. */
  datatype Point = Point(id: nat, coords: seq<real>)

  /** Every point of `ps` has `d` coordinates. */
  predicate HasDim(ps: seq<Point>, d: nat)
  {
    forall j :: 0 <= j < |ps| ==> |ps[j].coords| == d
  }

  function Abs(x: real): real
  {
    if x < 0.0 then -x else x
  }

  /** The 1-norm of `a - b`. */
  function L1(a: seq<real>, b: seq<real>): real
    requires |a| == |b|
  {
    if |a| == 0 then 0.0 else Abs(a[0] - b[0]) + L1(a[1..], b[1..])
  }

  /** `dist`: the L1 distance of two points of one dimension. */
  function Dist(p: Point, q: Point): real
    requires |p.coords| == |q.coords|
  {
    L1(p.coords, q.coords)
  }

  lemma {:induction false} L1NonNegative(a: seq<real>, b: seq<real>)
    requires |a| == |b|
    ensures L1(a, b) >= 0.0
  {
    if |a| > 0 {
      L1NonNegative(a[1..], b[1..]);
    }
  }

  lemma {:induction false} L1Symmetric(a: seq<real>, b: seq<real>)
    requires |a| == |b|
    ensures L1(a, b) == L1(b, a)
  {
    if |a| > 0 {
      L1Symmetric(a[1..], b[1..]);
    }
  }

  /** The distance is zero exactly for identical coordinates. */
  lemma {:induction false} L1ZeroIff(a: seq<real>, b: seq<real>)
    requires |a| == |b|
    ensures L1(a, b) == 0.0 <==> a == b
  {
    if |a| > 0 {
      L1ZeroIff(a[1..], b[1..]);
      L1NonNegative(a[1..], b[1..]);
      assert a == [a[0]] + a[1..];
      assert b == [b[0]] + b[1..];
    }
  }

  lemma {:induction false} L1Triangle(a: seq<real>, b: seq<real>, c: seq<real>)
    requires |a| == |b| == |c|
    ensures L1(a, c) <= L1(a, b) + L1(b, c)
  {
    if |a| > 0 {
      L1Triangle(a[1..], b[1..], c[1..]);
    }
  }

  /** `k` is the first position of a minimum of `s` (numpy.argmin). */
  predicate IsFirstMin(s: seq<real>, k: nat)
  {
    && k < |s|
    && (forall j :: 0 <= j < |s| ==> s[k] <= s[j])
    && (forall j :: 0 <= j < k ==> s[k] < s[j])
  }

  /** numpy.argmin: the first index of a minimum. */
  function ArgMin(s: seq<real>): (k: nat)
    requires |s| > 0
    ensures IsFirstMin(s, k)
  {
    if |s| == 1 then 0
    else
      var k := ArgMin(s[..|s| - 1]);
      if s[|s| - 1] < s[k] then |s| - 1 else k
  }

  /** `center[k]` is the first center at the least distance from `p`. */
  predicate IsClosestAt(p: Point, centers: seq<Point>, k: nat)
    requires HasDim(centers, |p.coords|)
  {
    && k < |centers|
    && (forall j :: 0 <= j < |centers| ==> Dist(p, centers[k]) <= Dist(p, centers[j]))
    && (forall j :: 0 <= j < k ==> Dist(p, centers[k]) < Dist(p, centers[j]))
  }

  /** The position `np.argmin(dists)` in `Point.closest_center`. */
  function ClosestIndex(p: Point, centers: seq<Point>): (k: nat)
    requires |centers| > 0 && HasDim(centers, |p.coords|)
    ensures IsClosestAt(p, centers, k)
  {
    var dists := seq(|centers|, j requires 0 <= j < |centers| => Dist(p, centers[j]));
    var k := ArgMin(dists);
    assert forall j :: 0 <= j < |centers| ==> dists[j] == Dist(p, centers[j]);
    k
  }

  /** `Point.closest_center`: the first nearest center and its distance;
      an empty list of centers makes `np.argmin` raise. */
  function ClosestCenter(p: Point, centers: seq<Point>): (r: Option<(Point, real)>)
    requires HasDim(centers, |p.coords|)
    ensures r.None? <==> |centers| == 0
    ensures r.Some? ==> exists k: nat :: IsClosestAt(p, centers, k) && r.value == (centers[k], Dist(p, centers[k]))
  {
    if |centers| == 0 then None
    else
      var k := ClosestIndex(p, centers);
      Some((centers[k], Dist(p, centers[k])))
  }

  /** The sum of the distances from `q` to every member of `ps`. */
  function TotalDist(q: Point, ps: seq<Point>): real
    requires HasDim(ps, |q.coords|)
  {
    if |ps| == 0 then 0.0 else Dist(q, ps[0]) + TotalDist(q, ps[1..])
  }

  /** `ps[k]` is the first member of `ps` of least total distance to all members. */
  predicate IsMedoidAt(ps: seq<Point>, k: nat)
    requires 0 < |ps| && HasDim(ps, |ps[0].coords|)
  {
    && k < |ps|
    && (forall j :: 0 <= j < |ps| ==> TotalDist(ps[k], ps) <= TotalDist(ps[j], ps))
    && (forall j :: 0 <= j < k ==> TotalDist(ps[k], ps) < TotalDist(ps[j], ps))
  }

  /** `medoid_bruteforce`: the member of least total distance, first on
      ties; `np.argmin` of an empty cost list raises. */
  function MedoidBruteforce(ps: seq<Point>): (r: Option<Point>)
    requires |ps| > 0 ==> HasDim(ps, |ps[0].coords|)
    ensures r.None? <==> |ps| == 0
    ensures r.Some? ==> exists k: nat :: IsMedoidAt(ps, k) && r.value == ps[k]
  {
    if |ps| == 0 then None
    else
      var cost := seq(|ps|, j requires 0 <= j < |ps| => TotalDist(ps[j], ps));
      var k := ArgMin(cost);
      assert forall j :: 0 <= j < |ps| ==> cost[j] == TotalDist(ps[j], ps);
      assert IsMedoidAt(ps, k);
      Some(ps[k])
  }

  /** The sum of absolute deviations of `x` from the values `xs`. */
  function AbsDev(x: real, xs: seq<real>): real
  {
    if |xs| == 0 then 0.0 else Abs(x - xs[0]) + AbsDev(x, xs[1..])
  }

  /** `xs[k]` is the first of the values `xs` of least absolute deviation. */
  predicate IsMedianAt(xs: seq<real>, k: nat)
  {
    && k < |xs|
    && (forall j :: 0 <= j < |xs| ==> AbsDev(xs[k], xs) <= AbsDev(xs[j], xs))
    && (forall j :: 0 <= j < k ==> AbsDev(xs[k], xs) < AbsDev(xs[j], xs))
  }

  /** The values of coordinate `i` of every point, in order. */
  function Coordinate(ps: seq<Point>, i: nat): (xs: seq<real>)
    requires forall j :: 0 <= j < |ps| ==> i < |ps[j].coords|
    ensures |xs| == |ps| && forall j :: 0 <= j < |ps| ==> xs[j] == ps[j].coords[i]
  {
    seq(|ps|, j requires 0 <= j < |ps| => ps[j].coords[i])
  }

  /** The position of a coordinate-wise median among the values `xs`. */
  function MedianIndex(xs: seq<real>): (k: nat)
    requires |xs| > 0
    ensures IsMedianAt(xs, k)
  {
    var cost := seq(|xs|, j requires 0 <= j < |xs| => AbsDev(xs[j], xs));
    var k := ArgMin(cost);
    assert forall j :: 0 <= j < |xs| ==> cost[j] == AbsDev(xs[j], xs);
    k
  }

  /** `median_coordinatewise` on points with (at least) two coordinates:
      a new point, identity `newId`, whose x and y are each the first input
      value of least absolute deviation in that coordinate; an empty input
      makes `np.argmin` raise. */
  function MedianCoordinatewise(ps: seq<Point>, newId: nat): (r: Option<Point>)
    requires forall j :: 0 <= j < |ps| ==> 2 <= |ps[j].coords|
    ensures r.None? <==> |ps| == 0
    ensures r.Some? ==>
              && r.value.id == newId && |r.value.coords| == 2
              && (exists kx: nat :: IsMedianAt(Coordinate(ps, 0), kx) && r.value.coords[0] == ps[kx].coords[0])
              && (exists ky: nat :: IsMedianAt(Coordinate(ps, 1), ky) && r.value.coords[1] == ps[ky].coords[1])
  {
    if |ps| == 0 then None
    else
      var xs, ys := Coordinate(ps, 0), Coordinate(ps, 1);
      var kx, ky := MedianIndex(xs), MedianIndex(ys);
      Some(Point(newId, [xs[kx], ys[ky]]))
  }

  /** The centroid `(mean x, mean y)` of a non-empty list of 2-D points. */
  function Centroid(ps: seq<Point>): (c: seq<real>)
    requires |ps| > 0 && HasDim(ps, 2)
    ensures |c| == 2 && c[0] == Mean(Coordinate(ps, 0)) && c[1] == Mean(Coordinate(ps, 1))
  {
    [Mean(Coordinate(ps, 0)), Mean(Coordinate(ps, 1))]
  }

  /** Each coordinate of the centroid lies between the least and the
      largest of the points' coordinates in that dimension (so every bound
      common to the points bounds it too), and a single point is its own
      centroid. */
  lemma CentroidWithin(ps: seq<Point>)
    requires |ps| > 0 && HasDim(ps, 2)
    ensures forall i :: 0 <= i < 2 ==>
      && (exists j :: 0 <= j < |ps| && ps[j].coords[i] <= Centroid(ps)[i])
      && (exists j :: 0 <= j < |ps| && Centroid(ps)[i] <= ps[j].coords[i])
    ensures |ps| == 1 ==> Centroid(ps) == ps[0].coords
  {
    var c := Centroid(ps);
    forall i | 0 <= i < 2
      ensures exists j :: 0 <= j < |ps| && ps[j].coords[i] <= c[i]
      ensures exists j :: 0 <= j < |ps| && c[i] <= ps[j].coords[i]
    {
      MeanBetween(Coordinate(ps, i));
    }
    if |ps| == 1 {
      MeanOfOne(ps[0].coords[0]);
      MeanOfOne(ps[0].coords[1]);
      assert Coordinate(ps, 0) == [ps[0].coords[0]] && Coordinate(ps, 1) == [ps[0].coords[1]];
    }
  }

  /** `ps[k]` is the first member of `ps` at the least L1 distance from `x`. */
  predicate IsNearestToAt(ps: seq<Point>, x: seq<real>, k: nat)
    requires HasDim(ps, |x|)
  {
    && k < |ps|
    && (forall j :: 0 <= j < |ps| ==> L1(ps[k].coords, x) <= L1(ps[j].coords, x))
    && (forall j :: 0 <= j < k ==> L1(ps[k].coords, x) < L1(ps[j].coords, x))
  }

  /** `closest_to_centroid` on 2-D points: the first member at the least
      L1 distance from the centroid; on an empty list the `argmin` of the
      empty list of distances raises. */
  function ClosestToCentroid(ps: seq<Point>): (r: Option<Point>)
    requires HasDim(ps, 2)
    ensures r.None? <==> |ps| == 0
    ensures r.Some? ==> exists k: nat :: IsNearestToAt(ps, Centroid(ps), k) && r.value == ps[k]
  {
    if |ps| == 0 then None
    else
      var c := Centroid(ps);
      var dists := seq(|ps|, j requires 0 <= j < |ps| => L1(ps[j].coords, c));
      var k := ArgMin(dists);
      assert forall j :: 0 <= j < |ps| ==> dists[j] == L1(ps[j].coords, c);
      assert IsNearestToAt(ps, c, k);
      Some(ps[k])
  }
}
