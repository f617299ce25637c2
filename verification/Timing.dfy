/** Mean and variance of inter-arrival times, and how large the variance can get. */
module Timing {
  import opened Types
  import opened History
  import opened RealArithmetic

  function Seconds(nanos: int): real {
    nanos as real / 1_000_000_000.0
  }

  /** Times between neighbouring records, in seconds. */
  function Deltas(rs: seq<Record>): (ds: seq<real>)
    ensures |ds| == if rs == [] then 0 else |rs| - 1
  {
    if |rs| < 2 then []
    else Deltas(rs[..|rs| - 1]) + [Seconds(rs[|rs| - 1].timestamp - rs[|rs| - 2].timestamp)]
  }

  function Sum(ds: seq<real>): real {
    if ds == [] then 0.0 else Sum(ds[..|ds| - 1]) + ds[|ds| - 1]
  }

  function SquaresAbout(ds: seq<real>, c: real): real {
    if ds == [] then 0.0 else SquaresAbout(ds[..|ds| - 1], c) + Square(ds[|ds| - 1] - c)
  }

  function Mean(ds: seq<real>): real {
    if ds == [] then 0.0 else Sum(ds) / |ds| as real
  }

  function Variance(ds: seq<real>): real {
    if ds == [] then 0.0 else SquaresAbout(ds, Mean(ds)) / |ds| as real
  }

  // ----- deltas of sorted records -----

  lemma {:induction false} DeltasSnoc(rs: seq<Record>, r: Record)
    requires rs != []
    ensures Deltas(rs + [r]) == Deltas(rs) + [Seconds(r.timestamp - rs[|rs| - 1].timestamp)]
  {
    var all := rs + [r];
    assert all[..|all| - 1] == rs && all[|all| - 2] == rs[|rs| - 1] && all[|all| - 1] == r;
  }

  /** The deltas telescope: their sum is the time from the first record to the last. */
  lemma {:induction false} DeltasTelescope(rs: seq<Record>)
    requires rs != []
    ensures Sum(Deltas(rs)) == Seconds(rs[|rs| - 1].timestamp - rs[0].timestamp)
  {
    if |rs| > 1 {
      DeltasTelescope(rs[..|rs| - 1]);
    }
  }

  ghost predicate AllWithin(ds: seq<real>, lo: real, hi: real) {
    forall d | d in ds :: lo <= d <= hi
  }

  lemma {:induction false} DeltasWithin(rs: seq<Record>, gap: int)
    requires Sorted(rs) && Steady(rs, gap)
    ensures AllWithin(Deltas(rs), 0.0, Seconds(gap))
  {
    if |rs| > 1 {
      var init := rs[..|rs| - 1];
      assert forall i | 0 < i < |init| :: rs[i].timestamp - rs[i - 1].timestamp <= gap;
      DeltasWithin(init, gap);
    }
  }

  // ----- variance -----

  /** The sum of c * d over all d. */
  function Cross(ds: seq<real>, c: real): real {
    if ds == [] then 0.0 else Cross(ds[..|ds| - 1], c) + c * ds[|ds| - 1]
  }

  lemma {:induction false} CrossIsProduct(ds: seq<real>, c: real)
    ensures Cross(ds, c) == c * Sum(ds)
  {
    if ds != [] {
      var init, x := ds[..|ds| - 1], ds[|ds| - 1];
      CrossIsProduct(init, c);
      assert c * (Sum(init) + x) == c * Sum(init) + c * x;
    }
  }

  /** Moving the centre of the squares. */
  lemma {:induction false} ShiftCentre(ds: seq<real>, c: real)
    ensures SquaresAbout(ds, c) == SquaresAbout(ds, 0.0) - 2.0 * Cross(ds, c) + Copies(Square(c), |ds|)
  {
    if ds != [] {
      ShiftCentre(ds[..|ds| - 1], c);
      SquareOfDifference(ds[|ds| - 1], c);
      assert ds[|ds| - 1] - 0.0 == ds[|ds| - 1];
    }
  }

  lemma CrossAtMean(ds: seq<real>, m: real, c: real)
    requires Copies(m, |ds|) == Sum(ds)
    ensures Cross(ds, c) == Copies(c * m, |ds|)
  {
    CrossIsProduct(ds, c);
    CopiesScale(c, m, |ds|);
  }

  lemma MeanCopies(ds: seq<real>)
    ensures Copies(Mean(ds), |ds|) == Sum(ds)
  {
    if ds != [] {
      QuotientOfCopies(Sum(ds), |ds|);
    }
  }

  lemma AboutMean(ds: seq<real>, m: real)
    requires Copies(m, |ds|) == Sum(ds)
    ensures SquaresAbout(ds, m) == SquaresAbout(ds, 0.0) - Copies(Square(m), |ds|)
  {
    ShiftCentre(ds, m);
    CrossAtMean(ds, m, m);
  }

  /** The mean is the centre with the smallest squares. */
  lemma MeanIsBest(ds: seq<real>, c: real)
    ensures SquaresAbout(ds, Mean(ds)) <= SquaresAbout(ds, c)
  {
    MeanCopies(ds);
    AboutMean(ds, Mean(ds));
    ShiftCentre(ds, c);
    CrossBelow(ds, Mean(ds), c);
  }

  lemma CrossBelow(ds: seq<real>, m: real, c: real)
    requires Copies(m, |ds|) == Sum(ds)
    ensures 2.0 * Cross(ds, c) <= Copies(Square(m), |ds|) + Copies(Square(c), |ds|)
  {
    CrossAtMean(ds, m, c);
    SquareOfDifference(m, c);
    CopiesPlus(c * m, c * m, |ds|);
    CopiesPlus(Square(m), Square(c), |ds|);
    CopiesOrder(c * m + c * m, Square(m) + Square(c), |ds|);
  }

  lemma {:induction false} SquaresNonNegative(ds: seq<real>, c: real)
    ensures 0.0 <= SquaresAbout(ds, c)
  {
    if ds != [] {
      SquaresNonNegative(ds[..|ds| - 1], c);
      SquareNonNegative(ds[|ds| - 1] - c);
    }
  }

  lemma VarianceNonNegative(ds: seq<real>)
    ensures 0.0 <= Variance(ds)
  {
    if ds != [] {
      SquaresNonNegative(ds, Mean(ds));
      QuotientOrder(SquaresAbout(ds, Mean(ds)), 0.0, |ds| as real);
    }
  }

  lemma {:induction false} SquaresBelowSum(ds: seq<real>, hi: real)
    requires AllWithin(ds, 0.0, hi)
    ensures 0.0 <= Sum(ds) && SquaresAbout(ds, 0.0) <= Square(Sum(ds))
  {
    if ds != [] {
      var init, x := ds[..|ds| - 1], ds[|ds| - 1];
      assert forall d | d in init :: d in ds;
      assert x in ds && x - 0.0 == x;
      SquaresBelowSum(init, hi);
      SquareOfSum(Sum(init), x);
    }
  }

  /** m non-negative times with a fixed sum vary most when one of them takes it all. */
  lemma VarianceOfSum(ds: seq<real>, hi: real)
    requires ds != [] && AllWithin(ds, 0.0, hi)
    ensures Variance(ds) <= Copies(Square(Mean(ds)), |ds| - 1)
  {
    SquaresBelowSum(ds, hi);
    MeanCopies(ds);
    AboutMean(ds, Mean(ds));
    SquareOfCopies(Mean(ds), |ds|);
    DivideCopies(SquaresAbout(ds, Mean(ds)), Copies(Square(Mean(ds)), |ds| - 1), |ds|);
  }

  lemma {:induction false} SquaresOfBand(ds: seq<real>, width: real)
    requires AllWithin(ds, 0.0, width)
    ensures SquaresAbout(ds, width / 2.0) <= Copies(Square(width) / 4.0, |ds|)
  {
    if ds != [] {
      var init, x := ds[..|ds| - 1], ds[|ds| - 1];
      assert forall d | d in init :: d in ds;
      assert x in ds;
      SquaresOfBand(init, width);
      BandSquare(x, width);
    }
  }

  /** Times confined to a band vary by at most a quarter of its squared width. */
  lemma VarianceOfBand(ds: seq<real>, width: real)
    requires AllWithin(ds, 0.0, width)
    ensures Variance(ds) <= Square(width) / 4.0
  {
    SquareNonNegative(width);
    if ds != [] {
      SquaresOfBand(ds, width);
      MeanIsBest(ds, width / 2.0);
      DivideCopies(SquaresAbout(ds, Mean(ds)), Square(width) / 4.0, |ds|);
    }
  }

  // ----- what fixes the variance -----

  /** Each delta is the time between two neighbours, in seconds. */
  lemma {:induction false} DeltaAt(rs: seq<Record>, i: nat)
    requires i + 1 < |rs|
    ensures Deltas(rs)[i] == (rs[i + 1].timestamp - rs[i].timestamp) as real / 1_000_000_000.0
  {
    if i + 2 < |rs| {
      DeltaAt(rs[..|rs| - 1], i);
    }
  }

  /** The squared distances of all times from `x`. */
  function SquaresFrom(ds: seq<real>, x: real): (qs: seq<real>)
    ensures |qs| == |ds| && forall i | 0 <= i < |ds| :: qs[i] == (ds[i] - x) * (ds[i] - x)
  {
    seq(|ds|, i requires 0 <= i < |ds| => Square(ds[i] - x))
  }

  /** For each of `cs`, the squared distances of all times from it, added up. */
  function Spreads(ds: seq<real>, cs: seq<real>): (ss: seq<real>)
    ensures |ss| == |cs| && forall j | 0 <= j < |cs| :: ss[j] == Sum(SquaresFrom(ds, cs[j]))
  {
    seq(|cs|, j requires 0 <= j < |cs| => Sum(SquaresFrom(ds, cs[j])))
  }

  lemma {:induction false} SumOfSquares(ds: seq<real>, x: real)
    ensures Sum(SquaresFrom(ds, x)) == SquaresAbout(ds, x)
  {
    if ds != [] {
      var init := ds[..|ds| - 1];
      SumOfSquares(init, x);
      assert SquaresFrom(ds, x)[..|ds| - 1] == SquaresFrom(init, x);
    }
  }

  lemma CrossSnoc(ds: seq<real>, c: real, init: seq<real>, sum: real)
    requires sum == Sum(ds)
    ensures Cross(init + [c], sum) == Cross(init, sum) + Cross(ds, c)
  {
    assert (init + [c])[..|init|] == init;
    CrossIsProduct(ds, c);
  }

  lemma SquaresSnoc(init: seq<real>, c: real, n: nat)
    ensures Copies(SquaresAbout(init + [c], 0.0), n) == Copies(SquaresAbout(init, 0.0), n) + Copies(Square(c), n)
  {
    assert (init + [c])[..|init|] == init;
    assert c - 0.0 == c;
    CopiesPlus(SquaresAbout(init, 0.0), Square(c), n);
  }

  /** The spread about one more centre. */
  lemma OneSpread(ds: seq<real>, c: real)
    ensures Sum(SquaresFrom(ds, c)) == SquaresAbout(ds, 0.0) - 2.0 * Cross(ds, c) + Copies(Square(c), |ds|)
  {
    SumOfSquares(ds, c);
    ShiftCentre(ds, c);
  }

  lemma {:induction false} SumOfSpreads(ds: seq<real>, cs: seq<real>)
    ensures Sum(Spreads(ds, cs))
            == Copies(SquaresAbout(ds, 0.0), |cs|) - 2.0 * Cross(cs, Sum(ds))
               + Copies(SquaresAbout(cs, 0.0), |ds|)
  {
    if cs == [] {
      CopiesIsProduct(0.0, |ds|);
    } else {
      var init, c := cs[..|cs| - 1], cs[|cs| - 1];
      assert cs == init + [c];
      SumOfSpreads(ds, init);
      OneSpread(ds, c);
      CrossSnoc(ds, c, init, Sum(ds));
      SquaresSnoc(init, c, |ds|);
      assert Spreads(ds, cs)[..|init|] == Spreads(ds, init);
    }
  }

  lemma CrossWithSum(ds: seq<real>, m: real, sum: real)
    requires Copies(m, |ds|) == sum == Sum(ds)
    ensures Cross(ds, sum) == Copies(Copies(Square(m), |ds|), |ds|)
  {
    CrossAtMean(ds, m, sum);
    CopiesScale(m, m, |ds|);
    assert m * m == Square(m);
    assert sum * m == Copies(Square(m), |ds|);
  }

  lemma SpreadsAboutMean(ds: seq<real>, m: real)
    requires Copies(m, |ds|) == Sum(ds)
    ensures Sum(Spreads(ds, ds)) == 2.0 * Copies(SquaresAbout(ds, m), |ds|)
  {
    SumOfSpreads(ds, ds);
    CrossWithSum(ds, m, Sum(ds));
    AboutMean(ds, m);
    CopiesPlus(SquaresAbout(ds, m), Copies(Square(m), |ds|), |ds|);
  }

  /** The variance without its mean: the squared differences of all pairs of times add up to
      twice the variance for each pair. */
  lemma PairwiseVariance(ds: seq<real>)
    ensures Sum(Spreads(ds, ds)) == 2.0 * Copies(Copies(Variance(ds), |ds|), |ds|)
  {
    if ds != [] {
      MeanCopies(ds);
      SpreadsAboutMean(ds, Mean(ds));
      QuotientOfCopies(SquaresAbout(ds, Mean(ds)), |ds|);
    }
  }

  /** All the time passes in at most one of the gaps. */
  ghost predicate OneGap(ds: seq<real>) {
    forall i, j | 0 <= i < j < |ds| :: ds[i] == 0.0 || ds[j] == 0.0
  }

  lemma {:induction false} SumZero(ds: seq<real>, hi: real)
    requires AllWithin(ds, 0.0, hi)
    ensures 0.0 <= Sum(ds)
    ensures Sum(ds) == 0.0 <==> forall i | 0 <= i < |ds| :: ds[i] == 0.0
  {
    if ds != [] {
      var init, x := ds[..|ds| - 1], ds[|ds| - 1];
      assert forall d | d in init :: d in ds;
      assert x in ds;
      SumZero(init, hi);
      assert forall i | 0 <= i < |init| :: init[i] == ds[i];
    }
  }

  lemma {:induction false} SquaresReachSum(ds: seq<real>, hi: real)
    requires AllWithin(ds, 0.0, hi)
    ensures SquaresAbout(ds, 0.0) == Square(Sum(ds)) <==> OneGap(ds)
  {
    if ds != [] {
      var init, x := ds[..|ds| - 1], ds[|ds| - 1];
      assert forall d | d in init :: d in ds;
      assert x in ds && x - 0.0 == x;
      SquaresReachSum(init, hi);
      SquaresBelowSum(init, hi);
      SumZero(init, hi);
      SquareOfSumReached(SquaresAbout(init, 0.0), Sum(init), x);
      OneGapSnoc(init, x);
      assert ds == init + [x];
    }
  }

  lemma OneGapSnoc(init: seq<real>, x: real)
    ensures OneGap(init + [x]) <==> OneGap(init) && (x == 0.0 || forall i | 0 <= i < |init| :: init[i] == 0.0)
  {
    var ds := init + [x];
    assert forall i | 0 <= i < |init| :: ds[i] == init[i];
    assert ds[|init|] == x;
  }

  lemma SquareOfSumReached(q: real, s: real, x: real)
    requires 0.0 <= s && 0.0 <= x && q <= Square(s)
    ensures q + Square(x) == Square(s + x) <==> q == Square(s) && (s == 0.0 || x == 0.0)
  {
    assert (s + x) * (s + x) == s * s + 2.0 * (s * x) + x * x;
    assert 0.0 <= s * x;
    assert s * x == 0.0 <==> s == 0.0 || x == 0.0;
  }

  /** The bound of `VarianceOfSum` is attained exactly when one gap takes everything. */
  lemma VarianceOfSumTight(ds: seq<real>, hi: real)
    requires ds != [] && AllWithin(ds, 0.0, hi)
    ensures Variance(ds) == Copies(Square(Mean(ds)), |ds| - 1) <==> OneGap(ds)
  {
    var m, n := Mean(ds), |ds|;
    SquaresReachSum(ds, hi);
    MeanCopies(ds);
    AboutMean(ds, m);
    SquareOfCopies(m, n);
    QuotientOfCopies(SquaresAbout(ds, m), n);
    CopiesEqual(Variance(ds), Copies(Square(m), n - 1), n);
  }

  lemma CopiesEqual(x: real, y: real, n: nat)
    requires 0 < n
    ensures Copies(x, n) == Copies(y, n) <==> x == y
  {
    if x < y {
      CopiesStrict(x, y, n);
    } else if y < x {
      CopiesStrict(y, x, n);
    }
  }
}
