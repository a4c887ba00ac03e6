/** Sequence helpers: sorting, sums, first-occurrence de-duplication. */
module Seqs {

  predicate Sorted(s: seq<real>)
  {
    forall i, j :: 0 <= i < j < |s| ==> s[i] <= s[j]
  }

  function Insert(x: real, s: seq<real>): (r: seq<real>)
    requires Sorted(s)
    ensures Sorted(r)
    ensures multiset(r) == multiset(s) + multiset{x}
    ensures |r| == |s| + 1 && (r[0] == x || (|s| > 0 && r[0] == s[0]))
  {
    if |s| == 0 then [x]
    else if x <= s[0] then [x] + s
    else
      var t := Insert(x, s[1..]);
      assert s == [s[0]] + s[1..];
      assert s[0] <= t[0];
      [s[0]] + t
  }

  /** Ascending sort (Python's list.sort on floats). */
  function Sort(s: seq<real>): (r: seq<real>)
    ensures Sorted(r)
    ensures multiset(r) == multiset(s)
  {
    if |s| == 0 then []
    else
      assert s == [s[0]] + s[1..];
      Insert(s[0], Sort(s[1..]))
  }

  function Sum(s: seq<real>): real
  {
    if |s| == 0 then 0.0 else s[0] + Sum(s[1..])
  }

  /** The mean (numpy.average); undefined on an empty list. */
  function Mean(s: seq<real>): real
    requires |s| > 0
  {
    Sum(s) / (|s| as real)
  }

  /** `n * lo <= a` with `n` positive puts `lo` at most `a / n`. */
  lemma DivAtLeast(a: real, n: real, lo: real)
    requires n > 0.0 && n * lo <= a
    ensures lo <= a / n
  {
    assert a / n * n == a;
  }

  /** `a <= n * hi` with `n` positive puts `a / n` at most `hi`. */
  lemma DivAtMost(a: real, n: real, hi: real)
    requires n > 0.0 && a <= n * hi
    ensures a / n <= hi
  {
    assert a / n * n == a;
  }

  /** A lower bound of every element, counted once per element, is a
      lower bound of the sum. */
  lemma {:induction false} SumAtLeast(s: seq<real>, lo: real)
    requires forall j :: 0 <= j < |s| ==> lo <= s[j]
    ensures (|s| as real) * lo <= Sum(s)
  {
    if |s| > 0 {
      SumAtLeast(s[1..], lo);
      assert (|s| as real) * lo == ((|s| - 1) as real) * lo + lo;
    }
  }

  /** An upper bound of every element, counted once per element, is an
      upper bound of the sum. */
  lemma {:induction false} SumAtMost(s: seq<real>, hi: real)
    requires forall j :: 0 <= j < |s| ==> s[j] <= hi
    ensures Sum(s) <= (|s| as real) * hi
  {
    if |s| > 0 {
      SumAtMost(s[1..], hi);
      assert (|s| as real) * hi == ((|s| - 1) as real) * hi + hi;
    }
  }

  /** The mean is at least any lower bound of the elements ... */
  lemma MeanAtLeast(s: seq<real>, lo: real)
    requires |s| > 0 && forall j :: 0 <= j < |s| ==> lo <= s[j]
    ensures lo <= Mean(s)
  {
    SumAtLeast(s, lo);
    DivAtLeast(Sum(s), |s| as real, lo);
  }

  /** ... and at most any upper bound. */
  lemma MeanAtMost(s: seq<real>, hi: real)
    requires |s| > 0 && forall j :: 0 <= j < |s| ==> s[j] <= hi
    ensures Mean(s) <= hi
  {
    SumAtMost(s, hi);
    DivAtMost(Sum(s), |s| as real, hi);
  }

  /** `s[j]` is a least element of `s` ... */
  predicate LeastAt(s: seq<real>, j: nat)
  {
    j < |s| && forall k :: 0 <= k < |s| ==> s[j] <= s[k]
  }

  /** ... and `s[j]` a largest one. */
  predicate LargestAt(s: seq<real>, j: nat)
  {
    j < |s| && forall k :: 0 <= k < |s| ==> s[k] <= s[j]
  }

  /** A non-empty list has a least element ... */
  lemma {:induction false} HasLeast(s: seq<real>)
    requires |s| > 0
    ensures exists j: nat :: LeastAt(s, j)
  {
    if |s| == 1 {
      assert LeastAt(s, 0);
    } else {
      var n := |s| - 1;
      var init := s[..n];
      HasLeast(init);
      var j: nat :| LeastAt(init, j);
      assert forall k :: 0 <= k < n ==> init[k] == s[k];
      assert LeastAt(s, if s[n] < s[j] then n else j);
    }
  }

  /** ... and a largest one. */
  lemma {:induction false} HasLargest(s: seq<real>)
    requires |s| > 0
    ensures exists j: nat :: LargestAt(s, j)
  {
    if |s| == 1 {
      assert LargestAt(s, 0);
    } else {
      var n := |s| - 1;
      var init := s[..n];
      HasLargest(init);
      var j: nat :| LargestAt(init, j);
      assert forall k :: 0 <= k < n ==> init[k] == s[k];
      assert LargestAt(s, if s[j] < s[n] then n else j);
    }
  }

  /** The mean lies between the least and the largest element. */
  lemma MeanBetween(s: seq<real>)
    requires |s| > 0
    ensures exists j :: 0 <= j < |s| && s[j] <= Mean(s)
    ensures exists j :: 0 <= j < |s| && Mean(s) <= s[j]
  {
    HasLeast(s);
    HasLargest(s);
    var lo: nat :| LeastAt(s, lo);
    var hi: nat :| LargestAt(s, hi);
    MeanAtLeast(s, s[lo]);
    MeanAtMost(s, s[hi]);
  }

  /** The mean of one element is that element. */
  lemma MeanOfOne(x: real)
    ensures Mean([x]) == x
  {
    assert Sum([x]) == x + Sum([]);
  }

  /** Keeps the first occurrence of every element, in order: the key order
      of a dict built by a comprehension over `s`. */
  function Dedup<T(==,!new)>(s: seq<T>): (r: seq<T>)
    ensures |r| <= |s|
    ensures forall x :: x in r <==> x in s
  {
    if |s| == 0 then []
    else
      var d := Dedup(s[..|s| - 1]);
      assert s == s[..|s| - 1] + [s[|s| - 1]];
      if s[|s| - 1] in d then d else d + [s[|s| - 1]]
  }

  /** The de-duplication of a list has no repetitions. */
  lemma {:induction false} DedupDistinct<T(!new)>(s: seq<T>)
    ensures forall i, j :: 0 <= i < j < |Dedup(s)| ==> Dedup(s)[i] != Dedup(s)[j]
  {
    if |s| > 0 {
      DedupDistinct(s[..|s| - 1]);
    }
  }

  /** A list without repetitions is its own de-duplication. */
  lemma {:induction false} DedupOfDistinct<T(!new)>(s: seq<T>)
    requires forall i, j :: 0 <= i < j < |s| ==> s[i] != s[j]
    ensures Dedup(s) == s
  {
    if |s| > 0 {
      var init := s[..|s| - 1];
      DedupOfDistinct(init);
      assert s == init + [s[|s| - 1]];
      assert s[|s| - 1] !in init by {
        forall j | 0 <= j < |init| ensures init[j] != s[|s| - 1] {
          assert init[j] == s[j];
        }
      }
    }
  }

  // ------------------------------------------------------------ selections

  /** `r` lists the elements of `s` at the positions `idx`, which increase
      strictly: `r` is `s` with some elements left out and the others in
      their order, each once. */
  ghost predicate Picks<T>(r: seq<T>, s: seq<T>, idx: seq<nat>)
  {
    && |idx| == |r|
    && (forall k :: 0 <= k < |idx| ==> idx[k] < |s| && r[k] == s[idx[k]])
    && (forall a, b :: 0 <= a < b < |idx| ==> idx[a] < idx[b])
  }

  /** The positions `idx`, one further on each. */
  function Later(idx: seq<nat>): (r: seq<nat>)
    ensures |r| == |idx| && forall k :: 0 <= k < |idx| ==> r[k] == idx[k] + 1
  {
    seq(|idx|, k requires 0 <= k < |idx| => idx[k] + 1)
  }

  /** The positions `j` with `marks[j]`, in increasing order. */
  function Positions(marks: seq<bool>): seq<nat>
  {
    if |marks| == 0 then []
    else (if marks[0] then [0] else []) + Later(Positions(marks[1..]))
  }

  /** A position is among the later positions exactly when the one
      before it is among the original ones. */
  lemma InLater(idx: seq<nat>, j: int)
    ensures j in Later(idx) <==> j > 0 && j - 1 in idx
  {
    if j > 0 && j - 1 in idx {
      var k :| 0 <= k < |idx| && idx[k] == j - 1;
      assert Later(idx)[k] == j;
    }
  }

  /** `Positions` holds exactly the marked positions. */
  lemma {:induction false} PositionsMarked(marks: seq<bool>)
    ensures forall j :: 0 <= j < |marks| ==> (j in Positions(marks) <==> marks[j])
  {
    if |marks| > 0 {
      var tail := marks[1..];
      PositionsMarked(tail);
      forall j | 0 <= j < |marks| ensures j in Positions(marks) <==> marks[j] {
        InLater(Positions(tail), j);
        if j > 0 {
          assert marks[j] == tail[j - 1];
        }
      }
    }
  }

  /** The elements of `s` at its marked positions, in order. */
  function Keep<T>(s: seq<T>, marks: seq<bool>): seq<T>
    requires |marks| == |s|
  {
    if |s| == 0 then []
    else (if marks[0] then [s[0]] else []) + Keep(s[1..], marks[1..])
  }

  /** `Keep` picks the elements of `s` at `Positions(marks)`, in order. */
  lemma {:induction false} KeepPicks<T>(s: seq<T>, marks: seq<bool>)
    requires |marks| == |s|
    ensures Picks(Keep(s, marks), s, Positions(marks))
  {
    if |s| > 0 {
      KeepPicks(s[1..], marks[1..]);
      var r, idx := Keep(s[1..], marks[1..]), Positions(marks[1..]);
      var l := Later(idx);
      assert forall k :: 0 <= k < |idx| ==> l[k] < |s| && r[k] == s[l[k]];
      if marks[0] {
        var p, q := [0] + l, [s[0]] + r;
        assert forall k :: 1 <= k < |p| ==> p[k] == l[k - 1] && q[k] == r[k - 1];
      }
    }
  }

  /** Keeping from a list with one more element. */
  lemma {:induction false} KeepSnoc<T>(s: seq<T>, marks: seq<bool>, x: T, b: bool)
    requires |marks| == |s|
    ensures Keep(s + [x], marks + [b]) == Keep(s, marks) + (if b then [x] else [])
  {
    if |s| > 0 {
      KeepSnoc(s[1..], marks[1..], x, b);
      assert (s + [x])[1..] == s[1..] + [x] && (marks + [b])[1..] == marks[1..] + [b];
    } else {
      assert (s + [x])[1..] == [] && (marks + [b])[1..] == [];
    }
  }

  /** Marks the positions of `s` where an element occurs for the first
      time. */
  function FirstMarks<T(==)>(s: seq<T>): (m: seq<bool>)
    ensures |m| == |s|
  {
    if |s| == 0 then [] else FirstMarks(s[..|s| - 1]) + [s[|s| - 1] !in s[..|s| - 1]]
  }

  lemma {:induction false} FirstMarksMeaning<T(!new)>(s: seq<T>)
    ensures forall j :: 0 <= j < |s| ==> (FirstMarks(s)[j] <==> s[j] !in s[..j])
  {
    if |s| > 0 {
      var n := |s| - 1;
      var init := s[..n];
      FirstMarksMeaning(init);
      var m := FirstMarks(init);
      forall j | 0 <= j < |s| ensures FirstMarks(s)[j] <==> s[j] !in s[..j] {
        if j < n {
          assert FirstMarks(s)[j] == m[j];
          assert init[..j] == s[..j] && init[j] == s[j];
        } else {
          assert s[..j] == init;
        }
      }
    }
  }

  /** `Dedup` keeps the first occurrences. */
  lemma {:induction false} DedupIsKeep<T(!new)>(s: seq<T>)
    ensures Dedup(s) == Keep(s, FirstMarks(s))
  {
    if |s| > 0 {
      var n := |s| - 1;
      var init := s[..n];
      DedupIsKeep(init);
      assert s == init + [s[n]];
      KeepSnoc(init, FirstMarks(init), s[n], s[n] !in init);
    }
  }

  /** `Dedup` keeps, in order, exactly the positions where an element
      occurs for the first time. */
  lemma DedupInOrder<T(!new)>(s: seq<T>)
    ensures exists idx: seq<nat> :: Picks(Dedup(s), s, idx) && forall j :: 0 <= j < |s| ==> (j in idx <==> s[j] !in s[..j])
  {
    DedupIsKeep(s);
    KeepPicks(s, FirstMarks(s));
    PositionsMarked(FirstMarks(s));
    FirstMarksMeaning(s);
    assert Picks(Dedup(s), s, Positions(FirstMarks(s)));
  }
}
