/** The one-dimensional two-means dot estimator over the on durations, in exact arithmetic. */
module TwoMeans {
  import opened Arithmetic
  import Sorting

  const ITERATIONS: nat := 16

  function Key(x: real): real { x }

  function Sorted(ds: seq<real>): seq<real> { Sorting.SortBy(ds, Key) }

  // ---------------------------------------------------------------------
  // One iteration
  // ---------------------------------------------------------------------

  /** The two centroids. */
  datatype Pair = Pair(lo: real, hi: real)

  /** A duration as far from both centroids goes to the lower. */
  predicate GoesLow(d: real, c: Pair) { Abs(d - c.lo) <= Abs(d - c.hi) }

  /** Sums and counts of the two groups. */
  datatype Groups = Groups(sumLo: real, nLo: nat, sumHi: real, nHi: nat)

  function Collect(ds: seq<real>, c: Pair): Groups {
    if ds == [] then Groups(0.0, 0, 0.0, 0)
    else
      var g, d := Collect(ds[..|ds| - 1], c), ds[|ds| - 1];
      if GoesLow(d, c) then g.(sumLo := g.sumLo + d, nLo := g.nLo + 1)
      else g.(sumHi := g.sumHi + d, nHi := g.nHi + 1)
  }

  /** An empty group keeps its centroid. */
  function MeanOr(n: nat, sum: real, kept: real): real {
    if n > 0 then sum / n as real else kept
  }

  function Means(g: Groups, c: Pair): Pair {
    Pair(MeanOr(g.nLo, g.sumLo, c.lo), MeanOr(g.nHi, g.sumHi, c.hi))
  }

  function Next(ds: seq<real>, c: Pair): Pair { Means(Collect(ds, c), c) }

  /** Both centroids moved by less than a hundredth of a millisecond. */
  predicate Settled(c: Pair, next: Pair) {
    Abs(next.lo - c.lo) < 0.00001 && Abs(next.hi - c.hi) < 0.00001
  }

  function Iterate(ds: seq<real>, c: Pair, n: nat): Pair
    decreases n
  {
    if n == 0 then c
    else
      var next := Next(ds, c);
      if Settled(c, next) then next else Iterate(ds, next, n - 1)
  }

  // ---------------------------------------------------------------------
  // The estimator
  // ---------------------------------------------------------------------

  function MedianLowerHalf(ds: seq<real>): real {
    if ds == [] then 0.0
    else
      var cutoff := if |ds| / 2 < 1 then 1 else |ds| / 2;
      if cutoff / 2 < |Sorted(ds)| then Sorted(ds)[cutoff / 2] else 0.0
  }

  /** The quartiles the centroids start from. */
  function Seeds(ds: seq<real>): Pair {
    var s := Sorted(ds);
    if 3 * |ds| / 4 < |s| then Pair(s[|ds| / 4], s[3 * |ds| / 4]) else Pair(0.0, 0.0)
  }

  predicate Separated(seeds: Pair) { Abs(seeds.hi - seeds.lo) >= 0.0001 }

  function EstimateDot(ds: seq<real>): real {
    if ds == [] then 0.0
    else if |ds| < 4 || !Separated(Seeds(ds)) then MedianLowerHalf(ds)
    else
      var c := Iterate(ds, Seeds(ds), ITERATIONS);
      if c.hi < c.lo * 1.5 then MedianLowerHalf(ds) else c.lo
  }

  method EstimateDotKmeans(ds: seq<real>) returns (dot: real)
    ensures dot == EstimateDot(ds)
    ensures ds == [] ==> dot == 0.0
    ensures ds != [] ==> Between(ds, dot)
  {
    if ds == [] {
      return 0.0;
    }
    EstimateIsBetween(ds);
    if |ds| < 4 {
      return MedianLowerHalf(ds);
    }
    SortedLength(ds);
    var sorted := Sorted(ds);
    var loSeed, hiSeed := sorted[|sorted| / 4], sorted[3 * |sorted| / 4];
    if Abs(hiSeed - loSeed) < 0.0001 {
      return MedianLowerHalf(ds);
    }
    var cLo, cHi := loSeed, hiSeed;
    var settled := false;
    for i := 0 to ITERATIONS
      invariant !settled ==> Iterate(ds, Seeds(ds), ITERATIONS) == Iterate(ds, Pair(cLo, cHi), ITERATIONS - i)
      invariant settled ==> Iterate(ds, Seeds(ds), ITERATIONS) == Pair(cLo, cHi)
    {
      if !settled {
        var newLo, newHi := OneIteration(ds, cLo, cHi);
        settled := Abs(newLo - cLo) < 0.00001 && Abs(newHi - cHi) < 0.00001;
        cLo, cHi := newLo, newHi;
      }
    }
    if cHi < cLo * 1.5 {
      return MedianLowerHalf(ds);
    }
    return cLo;
  }

  method OneIteration(ds: seq<real>, cLo: real, cHi: real) returns (newLo: real, newHi: real)
    ensures Pair(newLo, newHi) == Next(ds, Pair(cLo, cHi))
  {
    var sumLo, nLo, sumHi, nHi := 0.0, 0, 0.0, 0;
    for i := 0 to |ds|
      invariant nLo >= 0 && nHi >= 0 && Groups(sumLo, nLo, sumHi, nHi) == Collect(ds[..i], Pair(cLo, cHi))
    {
      assert ds[..i + 1][..i] == ds[..i];
      var dLo, dHi := Abs(ds[i] - cLo), Abs(ds[i] - cHi);
      if dLo <= dHi {
        sumLo, nLo := sumLo + ds[i], nLo + 1;
      } else {
        sumHi, nHi := sumHi + ds[i], nHi + 1;
      }
    }
    assert ds[..|ds|] == ds;
    newLo := if nLo > 0 then sumLo / nLo as real else cLo;
    newHi := if nHi > 0 then sumHi / nHi as real else cHi;
  }

  // ---------------------------------------------------------------------
  // The centroids stay ordered and among the durations
  // ---------------------------------------------------------------------

  /** x lies between the least and the greatest of the durations. */
  ghost predicate Between(ds: seq<real>, x: real) {
    && (exists i :: 0 <= i < |ds| && ds[i] <= x)
    && (exists i :: 0 <= i < |ds| && x <= ds[i])
  }

  lemma SortedLength(ds: seq<real>)
    ensures |Sorted(ds)| == |ds|
  {
    Sorting.SortBySorts(ds, Key);
  }

  lemma GoesLowBelowMiddle(d: real, c: Pair)
    requires c.lo < c.hi
    ensures GoesLow(d, c) <==> d <= (c.lo + c.hi) / 2.0
  {
  }

  /** A group of n durations with this sum, all within the bounds; if strict, above the lower one. */
  ghost predicate SumWithin(n: real, sum: real, lo: real, hi: real, strict: bool) {
    n * lo <= sum <= n * hi && (strict && n > 0.0 ==> n * lo < sum)
  }

  lemma SumStep(n: real, sum: real, d: real, lo: real, hi: real, strict: bool)
    requires n >= 0.0 && SumWithin(n, sum, lo, hi, strict) && lo <= d <= hi && (strict ==> lo < d)
    ensures SumWithin(n + 1.0, sum + d, lo, hi, strict)
  {
    assert (n + 1.0) * lo == n * lo + lo && (n + 1.0) * hi == n * hi + hi;
  }

  lemma MeanWithin(n: nat, sum: real, kept: real, lo: real, hi: real, strict: bool)
    requires SumWithin(n as real, sum, lo, hi, strict) && lo <= kept <= hi && (strict ==> lo < kept)
    ensures lo <= MeanOr(n, sum, kept) <= hi && (strict ==> lo < MeanOr(n, sum, kept))
  {
    if n > 0 {
      Quotient(n as real, sum);
      ProductWithin(n as real, MeanOr(n, sum, kept), sum, lo, hi, strict);
    }
  }

  lemma Quotient(n: real, sum: real)
    requires n > 0.0
    ensures n * (sum / n) == sum
  {
  }

  lemma ProductWithin(n: real, mean: real, sum: real, lo: real, hi: real, strict: bool)
    requires n > 0.0 && n * mean == sum && SumWithin(n, sum, lo, hi, strict)
    ensures lo <= mean <= hi && (strict ==> lo < mean)
  {
    Scaled(n, mean, lo);
    Scaled(n, lo, mean);
    Scaled(n, hi, mean);
  }

  /** Everything up to the middle goes low, everything above it high; and the groups stay within any bounds. */
  lemma {:induction false} CollectBounds(ds: seq<real>, c: Pair, min: real, max: real)
    requires c.lo < c.hi && forall i :: 0 <= i < |ds| ==> min <= ds[i] <= max
    ensures var g, mid := Collect(ds, c), (c.lo + c.hi) / 2.0;
            && SumWithin(g.nLo as real, g.sumLo, min, mid, false)
            && SumWithin(g.nHi as real, g.sumHi, mid, max, true)
  {
    if ds != [] {
      var init, d, mid := ds[..|ds| - 1], ds[|ds| - 1], (c.lo + c.hi) / 2.0;
      CollectBounds(init, c, min, max);
      GoesLowBelowMiddle(d, c);
      var g := Collect(init, c);
      if GoesLow(d, c) {
        SumStep(g.nLo as real, g.sumLo, d, min, mid, false);
      } else {
        SumStep(g.nHi as real, g.sumHi, d, mid, max, true);
      }
    }
  }

  lemma NextKeepsOrder(ds: seq<real>, c: Pair, min: real, max: real)
    requires min <= c.lo < c.hi <= max && forall i :: 0 <= i < |ds| ==> min <= ds[i] <= max
    ensures min <= Next(ds, c).lo < Next(ds, c).hi <= max
  {
    var g, mid := Collect(ds, c), (c.lo + c.hi) / 2.0;
    CollectBounds(ds, c, min, max);
    MeanWithin(g.nLo, g.sumLo, c.lo, min, mid, false);
    MeanWithin(g.nHi, g.sumHi, c.hi, mid, max, true);
  }

  /** Every iteration keeps the centroids apart, in order, and within the range of the durations. */
  lemma {:induction false} IterateKeepsOrder(ds: seq<real>, c: Pair, n: nat, min: real, max: real)
    requires min <= c.lo < c.hi <= max && forall i :: 0 <= i < |ds| ==> min <= ds[i] <= max
    ensures var r := Iterate(ds, c, n); min <= r.lo < r.hi <= max
    decreases n
  {
    if n > 0 {
      NextKeepsOrder(ds, c, min, max);
      IterateKeepsOrder(ds, Next(ds, c), n - 1, min, max);
    }
  }

  lemma SortedIsBetween(ds: seq<real>, i: nat)
    requires i < |Sorted(ds)|
    ensures Between(ds, Sorted(ds)[i])
  {
    Sorting.SortByMembers(ds, Key);
    assert Sorted(ds)[i] in ds;
  }

  lemma MedianIsBetween(ds: seq<real>)
    requires ds != []
    ensures Between(ds, MedianLowerHalf(ds))
  {
    SortedLength(ds);
    SortedIsBetween(ds, (if |ds| / 2 < 1 then 1 else |ds| / 2) / 2);
  }

  /** The estimate lies between the shortest and the longest duration, whichever branch gives it. */
  lemma EstimateIsBetween(ds: seq<real>)
    requires ds != []
    ensures Between(ds, EstimateDot(ds))
  {
    MedianIsBetween(ds);
    SortedLength(ds);
    if |ds| >= 4 && Separated(Seeds(ds)) {
      var s := Sorted(ds);
      var min, max := s[0], s[|s| - 1];
      SeedsInOrder(ds);
      IterateKeepsOrder(ds, Seeds(ds), ITERATIONS, min, max);
      SortedIsBetween(ds, 0);
      SortedIsBetween(ds, |s| - 1);
    }
  }

  lemma SeedsInOrder(ds: seq<real>)
    requires |ds| >= 4 && Separated(Seeds(ds)) && |Sorted(ds)| == |ds|
    ensures var s := Sorted(ds);
            && s[0] <= Seeds(ds).lo < Seeds(ds).hi <= s[|s| - 1]
            && forall i :: 0 <= i < |ds| ==> s[0] <= ds[i] <= s[|s| - 1]
  {
    var s := Sorted(ds);
    Sorting.SortBySorts(ds, Key);
    Sorting.SortByMembers(ds, Key);
    forall i, j | 0 <= i <= j < |s| ensures s[i] <= s[j] {
      if i < j {
        assert Key(s[i]) <= Key(s[j]);
      }
    }
    forall i | 0 <= i < |ds| ensures s[0] <= ds[i] <= s[|s| - 1] {
      assert ds[i] in s;
      var k :| 0 <= k < |s| && s[k] == ds[i];
    }
  }

  // ---------------------------------------------------------------------
  // No iteration increases the spread
  // ---------------------------------------------------------------------

  function Square(x: real): real { x * x }

  function Nearest(d: real, c: Pair): real {
    if Square(d - c.lo) <= Square(d - c.hi) then Square(d - c.lo) else Square(d - c.hi)
  }

  /** Total squared distance of the durations to the nearer centroid. */
  function Spread(ds: seq<real>, c: Pair): real {
    if ds == [] then 0.0 else Spread(ds[..|ds| - 1], c) + Nearest(ds[|ds| - 1], c)
  }

  /** The same with the grouping of c kept while the centroids move to n. */
  function Grouped(ds: seq<real>, c: Pair, n: Pair): real {
    if ds == [] then 0.0
    else
      var d := ds[|ds| - 1];
      Grouped(ds[..|ds| - 1], c, n) + if GoesLow(d, c) then Square(d - n.lo) else Square(d - n.hi)
  }

  lemma SquareNotNegative(x: real)
    ensures Square(x) >= 0.0
  {
    if x < 0.0 {
      PositiveProduct(-x, -x);
      assert Square(x) == (-x) * (-x);
    } else if x > 0.0 {
      PositiveProduct(x, x);
    }
  }

  lemma SquareOrder(x: real, y: real)
    ensures Abs(x) <= Abs(y) <==> Square(x) <= Square(y)
  {
    assert Square(x) == Square(Abs(x)) && Square(y) == Square(Abs(y));
    if Abs(x) < Abs(y) {
      SquareGrows(Abs(x), Abs(y));
    } else if Abs(x) > Abs(y) {
      SquareGrows(Abs(y), Abs(x));
    }
  }

  lemma SquareGrows(p: real, q: real)
    requires 0.0 <= p < q
    ensures Square(p) < Square(q)
  {
    var d := q - p;
    PositiveProduct(d, d + 2.0 * p);
    assert Square(q) == Square(p) + d * (d + 2.0 * p);
  }

  lemma {:induction false} GroupedIsSpread(ds: seq<real>, c: Pair)
    ensures Grouped(ds, c, c) == Spread(ds, c)
  {
    if ds != [] {
      var d := ds[|ds| - 1];
      GroupedIsSpread(ds[..|ds| - 1], c);
      SquareOrder(d - c.lo, d - c.hi);
    }
  }

  lemma {:induction false} SpreadAtMostGrouped(ds: seq<real>, c: Pair, n: Pair)
    ensures Spread(ds, n) <= Grouped(ds, c, n)
  {
    if ds != [] {
      SpreadAtMostGrouped(ds[..|ds| - 1], c, n);
    }
  }

  function Parabola(n: nat, sum: real, x: real): real { n as real * Square(x) - 2.0 * sum * x }

  lemma {:induction false} GroupedExpands(ds: seq<real>, c: Pair, n: Pair, m: Pair)
    ensures var g := Collect(ds, c);
            Grouped(ds, c, n) - Grouped(ds, c, m)
              == Parabola(g.nLo, g.sumLo, n.lo) - Parabola(g.nLo, g.sumLo, m.lo)
               + Parabola(g.nHi, g.sumHi, n.hi) - Parabola(g.nHi, g.sumHi, m.hi)
  {
    if ds != [] {
      var init, d := ds[..|ds| - 1], ds[|ds| - 1];
      GroupedExpands(init, c, n, m);
      var g := Collect(init, c);
      if GoesLow(d, c) {
        ParabolaStep(g.nLo, g.sumLo, d, n.lo);
        ParabolaStep(g.nLo, g.sumLo, d, m.lo);
      } else {
        ParabolaStep(g.nHi, g.sumHi, d, n.hi);
        ParabolaStep(g.nHi, g.sumHi, d, m.hi);
      }
    }
  }

  lemma ParabolaStep(n: nat, sum: real, d: real, x: real)
    ensures Parabola(n + 1, sum + d, x) - Parabola(n, sum, x) == Square(d - x) - Square(d)
  {
    assert Square(d - x) == Square(d) - 2.0 * d * x + Square(x);
  }

  /** A mean is the least point of its group's parabola. */
  lemma MeanIsLeast(n: nat, sum: real, x: real)
    requires n > 0
    ensures Parabola(n, sum, sum / n as real) <= Parabola(n, sum, x)
  {
    var k, m := n as real, sum / n as real;
    assert sum == k * m;
    assert Parabola(n, sum, x) - Parabola(n, sum, m) == k * Square(x - m) by {
      assert Square(x - m) == x * x - 2.0 * m * x + m * m;
    }
    SquareNotNegative(x - m);
  }

  /** One iteration never increases the total squared distance to the nearer centroid. */
  lemma NextNeverSpreads(ds: seq<real>, c: Pair)
    ensures Spread(ds, Next(ds, c)) <= Spread(ds, c)
  {
    var g, n := Collect(ds, c), Next(ds, c);
    GroupedIsSpread(ds, c);
    SpreadAtMostGrouped(ds, c, n);
    GroupedExpands(ds, c, n, c);
    if g.nLo > 0 {
      MeanIsLeast(g.nLo, g.sumLo, c.lo);
    }
    if g.nHi > 0 {
      MeanIsLeast(g.nHi, g.sumHi, c.hi);
    }
  }

  lemma {:induction false} IterateNeverSpreads(ds: seq<real>, c: Pair, n: nat)
    ensures Spread(ds, Iterate(ds, c, n)) <= Spread(ds, c)
    decreases n
  {
    if n > 0 {
      NextNeverSpreads(ds, c);
      IterateNeverSpreads(ds, Next(ds, c), n - 1);
    }
  }

  // ---------------------------------------------------------------------
  // The estimate in terms of the durations alone
  // ---------------------------------------------------------------------

  /** The durations no longer than x, those shorter, and those longer. */
  function UpTo(ds: seq<real>, x: real): (r: seq<real>)
    ensures |r| <= |ds|
  {
    if ds == [] then [] else UpTo(ds[..|ds| - 1], x) + if ds[|ds| - 1] <= x then [ds[|ds| - 1]] else []
  }

  function Below(ds: seq<real>, x: real): (r: seq<real>)
    ensures |r| <= |ds|
  {
    if ds == [] then [] else Below(ds[..|ds| - 1], x) + if ds[|ds| - 1] < x then [ds[|ds| - 1]] else []
  }

  function Above(ds: seq<real>, x: real): seq<real> {
    if ds == [] then [] else Above(ds[..|ds| - 1], x) + if ds[|ds| - 1] > x then [ds[|ds| - 1]] else []
  }

  function Sum(ds: seq<real>): real {
    if ds == [] then 0.0 else Sum(ds[..|ds| - 1]) + ds[|ds| - 1]
  }

  function Mean(ds: seq<real>): real
    requires ds != []
  {
    Sum(ds) / |ds| as real
  }

  /** x is the duration of rank k, counted from 0 at the shortest. */
  ghost predicate HasRank(ds: seq<real>, x: real, k: nat) {
    x in ds && |Below(ds, x)| <= k < |UpTo(ds, x)|
  }

  /**
    Every duration is within [a, b] or within [c, d]; each group is narrower than the gap
    between them, and the gap is at least a tenth of a millisecond.
  */
  ghost predicate InTwoGroups(ds: seq<real>, a: real, b: real, c: real, d: real) {
    && a <= b && b + 0.0001 <= c <= d && b - a <= c - b && d - c < c - b
    && forall i :: 0 <= i < |ds| ==> a <= ds[i] <= b || c <= ds[i] <= d
  }

  /**
    The estimator finds the dots: of durations in two groups, more than a quarter of them
    short and more than a quarter long, it returns exactly the mean of the short ones,
    provided the long ones are half as long again on average; else the median of the
    shorter half of all.
  */
  lemma FindsTheDots(ds: seq<real>, a: real, b: real, c: real, d: real)
    requires InTwoGroups(ds, a, b, c, d) && |ds| >= 4
    requires |ds| / 4 < |UpTo(ds, b)| <= 3 * |ds| / 4
    ensures UpTo(ds, b) != [] && Above(ds, b) != []
    ensures if Mean(Above(ds, b)) >= Mean(UpTo(ds, b)) * 1.5 then EstimateDot(ds) == Mean(UpTo(ds, b))
            else HasRank(ds, EstimateDot(ds), |ds| / 2 / 2)
  {
    SeedsAreInGroups(ds, a, b, c, d);
    CountsAddUp(ds, b);
    IterateFindsMeans(ds, Seeds(ds), ITERATIONS, a, b, c, d);
    MedianHasRank(ds);
  }

  /**
    Of fewer than four durations, or of durations all alike, it returns the median of the
    shorter half: at least half of all are no shorter.
  */
  lemma FallsBack(ds: seq<real>)
    requires ds != []
    requires |ds| < 4 || forall i, j :: 0 <= i < |ds| && 0 <= j < |ds| ==> ds[i] - ds[j] < 0.0001
    ensures HasRank(ds, EstimateDot(ds), if |ds| < 4 then 0 else |ds| / 2 / 2)
    ensures 2 * (|ds| - |Below(ds, EstimateDot(ds))|) >= |ds|
  {
    MedianHasRank(ds);
    if |ds| >= 4 {
      SortedLength(ds);
      Sorting.SortByMembers(ds, Key);
      var s := Sorted(ds);
      assert s[|ds| / 4] in ds && s[3 * |ds| / 4] in ds;
    }
  }

  lemma {:induction false} FirstCounts(y: real, s: seq<real>, x: real)
    ensures |UpTo([y] + s, x)| == |UpTo(s, x)| + if y <= x then 1 else 0
    ensures |Below([y] + s, x)| == |Below(s, x)| + if y < x then 1 else 0
  {
    if s == [] {
      assert [y] + s == [y] && [y][..0] == [];
    } else {
      FirstCounts(y, s[..|s| - 1], x);
      assert ([y] + s)[..|s|] == [y] + s[..|s| - 1];
    }
  }

  lemma {:induction false} InsertCounts(y: real, s: seq<real>, x: real)
    ensures |UpTo(Sorting.Insert(y, s, Key), x)| == |UpTo(s, x)| + if y <= x then 1 else 0
    ensures |Below(Sorting.Insert(y, s, Key), x)| == |Below(s, x)| + if y < x then 1 else 0
  {
    if s == [] || Key(y) <= Key(s[0]) {
      FirstCounts(y, s, x);
    } else {
      InsertCounts(y, s[1..], x);
      FirstCounts(s[0], Sorting.Insert(y, s[1..], Key), x);
      FirstCounts(s[0], s[1..], x);
      assert s == [s[0]] + s[1..];
    }
  }

  lemma {:induction false} SortKeepsCounts(ds: seq<real>, x: real)
    ensures |UpTo(Sorted(ds), x)| == |UpTo(ds, x)|
    ensures |Below(Sorted(ds), x)| == |Below(ds, x)|
  {
    if ds != [] {
      SortKeepsCounts(ds[1..], x);
      InsertCounts(ds[0], Sorted(ds[1..]), x);
      FirstCounts(ds[0], ds[1..], x);
      assert ds == [ds[0]] + ds[1..];
    }
  }

  /** In a sorted list the durations up to x come first. */
  lemma {:induction false} SortedCounts(s: seq<real>, k: nat, x: real)
    requires Sorting.SortedBy(s, Key) && k < |s|
    ensures s[k] <= x <==> k < |UpTo(s, x)|
    ensures s[k] < x <==> k < |Below(s, x)|
    decreases |s|
  {
    var init := s[..|s| - 1];
    if k < |init| {
      assert Key(s[k]) <= Key(s[|init|]);
      SortedCounts(init, k, x);
    } else if init != [] {
      assert Key(s[k - 1]) <= Key(s[k]);
      SortedCounts(init, k - 1, x);
    }
  }

  lemma SortedHasRank(ds: seq<real>, k: nat)
    requires k < |Sorted(ds)|
    ensures HasRank(ds, Sorted(ds)[k], k)
  {
    var x := Sorted(ds)[k];
    Sorting.SortBySorts(ds, Key);
    Sorting.SortByMembers(ds, Key);
    SortedCounts(Sorted(ds), k, x);
    SortKeepsCounts(ds, x);
  }

  lemma MedianHasRank(ds: seq<real>)
    requires ds != []
    ensures HasRank(ds, MedianLowerHalf(ds), if |ds| < 4 then 0 else |ds| / 2 / 2)
  {
    SortedLength(ds);
    SortedHasRank(ds, if |ds| < 4 then 0 else |ds| / 2 / 2);
  }

  lemma {:induction false} CountsAddUp(ds: seq<real>, x: real)
    ensures |UpTo(ds, x)| + |Above(ds, x)| == |ds|
  {
    if ds != [] {
      CountsAddUp(ds[..|ds| - 1], x);
    }
  }

  lemma SeedsAreInGroups(ds: seq<real>, a: real, b: real, c: real, d: real)
    requires InTwoGroups(ds, a, b, c, d) && |ds| >= 4
    requires |ds| / 4 < |UpTo(ds, b)| <= 3 * |ds| / 4
    ensures a <= Seeds(ds).lo <= b && c <= Seeds(ds).hi <= d && Separated(Seeds(ds))
  {
    var s := Sorted(ds);
    Sorting.SortBySorts(ds, Key);
    Sorting.SortByMembers(ds, Key);
    SortKeepsCounts(ds, b);
    SortedCounts(s, |ds| / 4, b);
    SortedCounts(s, 3 * |ds| / 4, b);
    assert s[|ds| / 4] in ds && s[3 * |ds| / 4] in ds;
  }

  /** Centroids within the groups tell the groups apart exactly. */
  lemma {:induction false} CollectsGroups(ds: seq<real>, p: Pair, a: real, b: real, c: real, d: real)
    requires InTwoGroups(ds, a, b, c, d) && a <= p.lo <= b && c <= p.hi <= d
    ensures Collect(ds, p) == Groups(Sum(UpTo(ds, b)), |UpTo(ds, b)|, Sum(Above(ds, b)), |Above(ds, b)|)
  {
    if ds != [] {
      var init, last := ds[..|ds| - 1], ds[|ds| - 1];
      CollectsGroups(init, p, a, b, c, d);
      GoesLowBelowMiddle(last, p);
      SumOneMore(UpTo(init, b), last);
      SumOneMore(Above(init, b), last);
      assert UpTo(init, b) + [] == UpTo(init, b) && Above(init, b) + [] == Above(init, b);
    }
  }

  lemma SumOneMore(ds: seq<real>, x: real)
    ensures Sum(ds + [x]) == Sum(ds) + x
  {
    assert (ds + [x])[..|ds|] == ds;
  }

  lemma {:induction false} SumsWithin(ds: seq<real>, a: real, b: real, c: real, d: real)
    requires InTwoGroups(ds, a, b, c, d)
    ensures SumWithin(|UpTo(ds, b)| as real, Sum(UpTo(ds, b)), a, b, false)
    ensures SumWithin(|Above(ds, b)| as real, Sum(Above(ds, b)), c, d, false)
  {
    if ds != [] {
      var init, last := ds[..|ds| - 1], ds[|ds| - 1];
      SumsWithin(init, a, b, c, d);
      if last <= b {
        SumOneMore(UpTo(init, b), last);
        SumStep(|UpTo(init, b)| as real, Sum(UpTo(init, b)), last, a, b, false);
        assert Above(init, b) + [] == Above(init, b);
      } else {
        SumOneMore(Above(init, b), last);
        SumStep(|Above(init, b)| as real, Sum(Above(init, b)), last, c, d, false);
        assert UpTo(init, b) + [] == UpTo(init, b);
      }
    }
  }

  /** So one iteration gives the means of the groups, and they stay. */
  lemma NextFindsMeans(ds: seq<real>, p: Pair, a: real, b: real, c: real, d: real)
    requires InTwoGroups(ds, a, b, c, d) && a <= p.lo <= b && c <= p.hi <= d
    requires UpTo(ds, b) != [] && Above(ds, b) != []
    ensures Next(ds, p) == Pair(Mean(UpTo(ds, b)), Mean(Above(ds, b)))
    ensures a <= Next(ds, p).lo <= b && c <= Next(ds, p).hi <= d
  {
    CollectsGroups(ds, p, a, b, c, d);
    SumsWithin(ds, a, b, c, d);
    MeanWithin(|UpTo(ds, b)|, Sum(UpTo(ds, b)), p.lo, a, b, false);
    MeanWithin(|Above(ds, b)|, Sum(Above(ds, b)), p.hi, c, d, false);
  }

  lemma {:induction false} IterateFindsMeans(ds: seq<real>, p: Pair, n: nat, a: real, b: real, c: real, d: real)
    requires InTwoGroups(ds, a, b, c, d) && a <= p.lo <= b && c <= p.hi <= d && n > 0
    requires UpTo(ds, b) != [] && Above(ds, b) != []
    ensures Iterate(ds, p, n) == Pair(Mean(UpTo(ds, b)), Mean(Above(ds, b)))
    decreases n
  {
    NextFindsMeans(ds, p, a, b, c, d);
    if n > 1 {
      IterateFindsMeans(ds, Next(ds, p), n - 1, a, b, c, d);
    }
  }

  // ---------------------------------------------------------------------
  // The iterations as a run
  // ---------------------------------------------------------------------

  /** q is p with both centroids moved to the means of their groups; much tells whether either moved much. */
  ghost predicate IsMove(ds: seq<real>, p: Pair, q: Pair, much: bool) {
    q == Next(ds, p) && (much <==> Abs(q.lo - p.lo) >= 0.00001 || Abs(q.hi - p.hi) >= 0.00001)
  }

  /** A run of at most n moves, the last of them small unless there are n. */
  ghost predicate IsRun(ds: seq<real>, ps: seq<Pair>, n: nat) {
    && 1 <= |ps| <= n + 1
    && (forall i, j :: 0 <= i && j == i + 1 && j < |ps| - 1 ==> IsMove(ds, ps[i], ps[j], true))
    && (1 < |ps| <= n ==> IsMove(ds, ps[|ps| - 2], ps[|ps| - 1], false))
    && (|ps| == n + 1 > 1 ==> ps[|ps| - 1] == Next(ds, ps[|ps| - 2]))
    && (|ps| == 1 ==> n == 0)
  }

  lemma {:induction false} IterateRuns(ds: seq<real>, p: Pair, n: nat) returns (ps: seq<Pair>)
    ensures IsRun(ds, ps, n) && ps[0] == p && ps[|ps| - 1] == Iterate(ds, p, n)
    decreases n
  {
    var next := Next(ds, p);
    if n == 0 {
      ps := [p];
    } else if Settled(p, next) {
      ps := [p, next];
    } else {
      var rest := IterateRuns(ds, next, n - 1);
      ps := [p] + rest;
      forall i, j | 0 <= i && j == i + 1 && j < |ps| - 1
        ensures IsMove(ds, ps[i], ps[j], true)
      {
        if i > 0 {
          assert IsMove(ds, rest[i - 1], rest[j - 1], true);
        }
      }
    }
  }

  /**
    The estimate of at least four durations whose quartiles differ: the lower centroid at
    the end of a run from the quartiles, of at most 16 moves and ended by the first small
    one, unless the centroids are less than half as far apart again.
  */
  lemma EstimateIsRun(ds: seq<real>, lo: real, hi: real) returns (ps: seq<Pair>)
    requires |ds| >= 4 && hi - lo >= 0.0001
    requires HasRank(ds, lo, |ds| / 4) && HasRank(ds, hi, 3 * |ds| / 4)
    ensures IsRun(ds, ps, 16) && ps[0] == Pair(lo, hi)
    ensures var c := ps[|ps| - 1];
            if c.hi >= c.lo * 1.5 then EstimateDot(ds) == c.lo else HasRank(ds, EstimateDot(ds), |ds| / 2 / 2)
  {
    SortedLength(ds);
    SortedHasRank(ds, |ds| / 4);
    SortedHasRank(ds, 3 * |ds| / 4);
    RankIsUnique(ds, lo, Sorted(ds)[|ds| / 4], |ds| / 4);
    RankIsUnique(ds, hi, Sorted(ds)[3 * |ds| / 4], 3 * |ds| / 4);
    ps := IterateRuns(ds, Pair(lo, hi), ITERATIONS);
    MedianHasRank(ds);
  }

  /** Only one duration has a given rank. */
  lemma RankIsUnique(ds: seq<real>, x: real, y: real, k: nat)
    requires HasRank(ds, x, k) && HasRank(ds, y, k)
    ensures x == y
  {
    if x < y {
      ShorterAreBelow(ds, x, y);
    } else if y < x {
      ShorterAreBelow(ds, y, x);
    }
  }

  lemma {:induction false} ShorterAreBelow(ds: seq<real>, x: real, y: real)
    requires x < y
    ensures |UpTo(ds, x)| <= |Below(ds, y)|
  {
    if ds != [] {
      ShorterAreBelow(ds[..|ds| - 1], x, y);
    }
  }
}
