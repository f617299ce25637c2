/** The two detector scores, their ranges, and what a window's contents decide. */
module Scores {
  import opened Types
  import opened History
  import opened Maths
  import opened RealArithmetic
  import opened Counting
  import opened Entropy
  import opened Timing
  import opened Features
  import opened Risk

  const BASE_SIGMA := 0.05
  const EPSILON := 0.001

  function HstOf(writeRatio: real, concentration: real, entropy: real): real {
    var writeRisk := writeRatio * 50.0;
    var functionRisk := concentration * 2.5;
    var sprayRisk := entropy * writeRatio * 20.0;
    writeRisk + functionRisk + sprayRisk
  }

  function HstScore(fv: FeatureVector): real {
    if |fv.values| < 8 then 0.0
    else HstOf(fv.values[WRITE_RATIO], fv.values[FUNCTION_CONCENTRATION], fv.values[ADDRESS_ENTROPY])
  }

  function BurstOf(currentSigma: real): real {
    Abs(currentSigma * currentSigma - BASE_SIGMA * BASE_SIGMA) / (EPSILON + BASE_SIGMA)
  }

  function BurstScore(fv: FeatureVector): real {
    if |fv.values| < 8 then 0.0
    else BurstOf(fv.values[INTERARRIVAL_DEVIATION])
  }

  /** The detection for a window, from what its features mean. */
  ghost function DetectionOf(lib: Library, rs: seq<Record>): Detection {
    var fv := FeatureVector(FeaturesOf(lib, rs));
    Detection(HstScore(fv), BurstScore(fv))
  }

  ghost function ProbabilityOf(lib: Library, rs: seq<Record>): real
    requires Lawful(lib)
  {
    Probability(lib.exp, DetectionOf(lib, rs))
  }

  /** A function of a window's records, and nothing else, that gives its risk probability. */
  type Judgement = seq<Record> -> real

  ghost predicate Judges(judge: Judgement, lib: Library)
    requires Lawful(lib)
  {
    forall rs {:trigger DetectionOf(lib, rs)} :: judge(rs) == Probability(lib.exp, DetectionOf(lib, rs))
  }

  // ----- ranges -----

  lemma {:induction false} BoundedSet(s: set<int>, n: nat)
    requires forall x | x in s :: 0 <= x < n
    ensures |s| <= n
  {
    if n == 0 {
      assert forall x :: x !in s;
    } else {
      BoundedSet(s - {n - 1}, n - 1);
    }
  }

  lemma AddressesBounded(rs: seq<Record>)
    ensures |Distinct(Addresses(rs))| <= 65536
  {
    var s: set<int> := Distinct(Addresses(rs));
    BoundedSet(s, 65536);
  }

  lemma EntropyRange(lib: Library, rs: seq<Record>)
    requires Lawful(lib) && rs != []
    ensures 0.0 <= EntropyOf(lib.log2, Addresses(rs)) <= 16.0
  {
    var keys := Addresses(rs);
    AddressesBounded(rs);
    EntropyZero(lib.log2, keys);
    EntropyAtMost(lib.log2, keys);
    WordRange();
    Log2OfPow2(lib.log2, 16);
    Log2Order(lib.log2, |Distinct(keys)| as real, 65536.0);
  }

  lemma CountBelowLength<K>(keys: seq<K>, k: K)
    ensures multiset(keys)[k] <= |keys|
  {
    assert |multiset(keys)| == |keys|;
    assert multiset(keys)[k] <= |multiset(keys)| by {
      var rest := multiset(keys)[k := 0];
      assert multiset(keys) == rest + multiset{}[k := multiset(keys)[k]];
    }
  }

  lemma WriteShare(rs: seq<Record>)
    requires rs != []
    ensures Writes(rs) <= |rs| && 0.0 <= Share(Writes(rs), |rs|) <= 1.0
    ensures Writes(rs) == 0 ==> Share(Writes(rs), |rs|) == 0.0
  {
    CountBelowLength(WriteFlags(rs), true);
    QuotientOrder(Writes(rs) as real, 0.0, |rs| as real);
    QuotientOrder(0.0, Writes(rs) as real, |rs| as real);
    QuotientOrder(|rs| as real, Writes(rs) as real, |rs| as real);
  }

  lemma FunctionShare(rs: seq<Record>)
    requires rs != []
    ensures 0.0 < Share(Peak(Functions(rs)), |rs|) <= 1.0
  {
    PeakIsAll(Functions(rs));
    ShareRange(Peak(Functions(rs)), |rs|, |rs|);
  }

  /** The score as a function of the share of writes, the share of the most frequent function
      code and the entropy of the addresses. */
  lemma HstOfWindow(lib: Library, rs: seq<Record>, w: real, f: real, h: real)
    requires rs != []
    requires w == Share(Writes(rs), |rs|) && f == Share(Peak(Functions(rs)), |rs|)
    requires h == EntropyOf(lib.log2, Addresses(rs))
    ensures DetectionOf(lib, rs).hstScore == HstOf(w, f, h) == 50.0 * w + 2.5 * f + 20.0 * Times(w, h)
  {
    var values := FeaturesOf(lib, rs);
    assert values[WRITE_RATIO] == w && values[FUNCTION_CONCENTRATION] == f && values[ADDRESS_ENTROPY] == h;
    HstWritten(w, f, h);
  }

  lemma HstWritten(w: real, f: real, h: real)
    ensures HstOf(w, f, h) == 50.0 * w + 2.5 * f + 20.0 * Times(w, h)
  {
  }

  /** The write ratio alone accounts for at least 50 times itself; nothing exceeds 372.5. */
  lemma HstRange(lib: Library, rs: seq<Record>)
    requires Lawful(lib) && rs != []
    ensures 50.0 * Share(Writes(rs), |rs|) < DetectionOf(lib, rs).hstScore <= 372.5
    ensures Writes(rs) == 0 ==> DetectionOf(lib, rs).hstScore <= 2.5
  {
    var w, f, h := Share(Writes(rs), |rs|), Share(Peak(Functions(rs)), |rs|), EntropyOf(lib.log2, Addresses(rs));
    WriteShare(rs);
    FunctionShare(rs);
    EntropyRange(lib, rs);
    HstOfRange(w, f, h);
    HstOfWindow(lib, rs, w, f, h);
  }

  /** Writes alone, with one function code and addresses spread evenly over 2^k values. */
  ghost predicate EvenWrites(rs: seq<Record>, k: nat) {
    && rs != [] && Writes(rs) == |rs| && |Distinct(Functions(rs))| == 1
    && |Distinct(Addresses(rs))| == Pow2(k) && |rs| == Peak(Addresses(rs)) * Pow2(k)
  }

  /** What the score of a window of writes alone can be: with one function code and addresses
      spread evenly over 2^k values it is exactly 52.5 + 20k. */
  lemma HstOfEvenWrites(lib: Library, rs: seq<Record>, k: nat)
    requires Lawful(lib) && EvenWrites(rs, k)
    ensures DetectionOf(lib, rs).hstScore == 52.5 + 20.0 * k as real
  {
    PeakIsAll(Functions(rs));
    QuotientOrder(0.0, 0.0, |rs| as real);
    EvenEntropy(lib.log2, Addresses(rs));
    Log2OfPow2(lib.log2, k);
    HstOfWindow(lib, rs, 1.0, 1.0, k as real);
  }

  /** One write to each of the first `n` addresses. */
  function Sweep(n: nat): seq<Record>
    requires n <= 0x1_0000
  {
    seq(n, i requires 0 <= i < n => Record(0, "Modbus", true, true, 6, i))
  }

  lemma {:induction false} AllWrites(rs: seq<Record>)
    requires forall r | r in rs :: r.isWrite
    ensures Writes(rs) == |rs|
  {
    if rs != [] {
      var n := |rs| - 1;
      AllWrites(rs[..n]);
      ProjectionsSnoc(rs, n);
      assert rs[..n + 1] == rs;
    }
  }

  lemma SweepShape(n: nat)
    requires 0 < n <= 0x1_0000
    ensures Writes(Sweep(n)) == n && |Distinct(Functions(Sweep(n)))| == 1
    ensures |Distinct(Addresses(Sweep(n)))| == n && Peak(Addresses(Sweep(n))) == 1
  {
    var rs := Sweep(n);
    AllWrites(rs);
    assert Functions(rs)[0] == 6;
    assert Distinct(Functions(rs)) == {6};
    NoRepeats(Addresses(rs));
  }

  /** The upper end of the range is reached: by one write to every address there is. */
  lemma HstRangeTight(lib: Library)
    requires Lawful(lib)
    ensures DetectionOf(lib, Sweep(0x1_0000)).hstScore == 372.5
  {
    SweepShape(0x1_0000);
    WordRange();
    HstOfEvenWrites(lib, Sweep(0x1_0000), 16);
  }

  lemma HstOfRange(w: real, f: real, h: real)
    requires 0.0 <= w <= 1.0 && 0.0 < f <= 1.0 && 0.0 <= h <= 16.0
    ensures 50.0 * w < HstOf(w, f, h) <= 372.5
    ensures w == 0.0 ==> HstOf(w, f, h) <= 2.5
  {
    HstWritten(w, f, h);
    TimesRange(w, h, 16.0);
  }

  lemma TimesRange(w: real, h: real, most: real)
    requires 0.0 <= w <= 1.0 && 0.0 <= h <= most
    ensures 0.0 <= Times(w, h) <= most
    ensures w == 0.0 ==> Times(w, h) == 0.0
  {
    ScaleOrder(h, w, 1.0);
  }

  /** The burst score that an inter-arrival variance gives. */
  function BurstFrom(variance: real): real {
    Abs(variance - 0.0025) / 0.051
  }

  /** The burst score depends on nothing but the variance of the inter-arrival times. */
  lemma BurstOfVariance(lib: Library, rs: seq<Record>)
    requires Lawful(lib) && rs != []
    ensures DetectionOf(lib, rs).burstScore == BurstFrom(Variance(Deltas(rs)))
  {
    var sigma := FeaturesOf(lib, rs)[INTERARRIVAL_DEVIATION];
    DeviationSquared(lib, rs, sigma);
    BurstOfSquare(sigma, Variance(Deltas(rs)));
  }

  lemma BurstOfSquare(sigma: real, v: real)
    requires Square(sigma) == v
    ensures BurstOf(sigma) == BurstFrom(v)
  {
  }

  lemma BurstWithin(x: real, b: real)
    requires 0.0 <= x <= b && 0.005 <= b
    ensures 0.0 <= BurstFrom(x) <= (b - 0.0025) / 0.051
  {
  }

  lemma SquareOrder(x: real, y: real)
    requires 0.0 <= x <= y
    ensures Square(x) <= Square(y)
  {
    ScaleOrder(x, x, y);
    ScaleOrder(y, x, y);
  }

  /** m - 1 copies of the squared m-th part of `width` are at most a quarter of its square,
      and at most 0.5125 if the width is 5 and m at least 48. */
  lemma MeanSquareBound(x: real, m: nat, width: real)
    requires 0 < m && Copies(x, m) == width
    ensures Copies(Square(x), m - 1) <= Square(width) / 4.0
    ensures 48 <= m && width == 5.0 ==> Copies(Square(x), m - 1) <= 0.5125
  {
    CopiesIsProduct(x, m);
    CopiesIsProduct(Square(x), m - 1);
    Quarter(m as real, x, Square(width));
    if 48 <= m && width == 5.0 {
      Fortieth(m as real, x);
    }
  }

  lemma Quarter(n: real, x: real, ww: real)
    requires 1.0 <= n && Square(n * x) <= ww
    ensures (n - 1.0) * Square(x) <= ww / 4.0
  {
    var q := x * x;
    assert (n * x) * (n * x) == n * n * q;
    assert 0.0 <= (n - 2.0) * (n - 2.0) * q;
    assert (n - 2.0) * (n - 2.0) * q == n * n * q - 4.0 * ((n - 1.0) * q);
  }

  lemma Fortieth(n: real, x: real)
    requires 48.0 <= n && Square(n * x) <= 25.0
    ensures (n - 1.0) * Square(x) <= 0.5125
  {
    var q := x * x;
    assert (n * x) * (n * x) == n * n * q;
    var k := 0.0205 * (n * n) - (n - 1.0);
    assert 0.0 <= k by {
      assert (n - 48.0) * n >= 0.0;
    }
    assert 0.0 <= k * q;
    assert k * q == 0.0205 * (n * n * q) - (n - 1.0) * q;
  }

  /** Sorted records that span at most `nanos`. */
  ghost predicate Spans(rs: seq<Record>, nanos: int) {
    Sorted(rs) && (rs != [] ==> rs[|rs| - 1].timestamp - rs[0].timestamp <= nanos)
  }

  lemma {:induction false} SortedIsNonDecreasing(rs: seq<Record>)
    requires Sorted(rs)
    ensures forall d | d in Deltas(rs) :: 0.0 <= d
  {
    if |rs| > 1 {
      SortedIsNonDecreasing(rs[..|rs| - 1]);
    }
  }

  lemma {:induction false} PartsBelowSum(ds: seq<real>)
    requires forall d | d in ds :: 0.0 <= d
    ensures 0.0 <= Sum(ds) && AllWithin(ds, 0.0, Sum(ds))
  {
    if ds != [] {
      var init := ds[..|ds| - 1];
      assert forall d | d in init :: d in ds;
      PartsBelowSum(init);
      assert ds[|ds| - 1] in ds;
      assert forall d | d in ds :: d in init || d == ds[|ds| - 1];
    }
  }

  /** What one of m equal gaps in a span of `nanos` would be. */
  function EvenGap(nanos: int, m: nat): real
    requires 0 < m
  {
    Seconds(nanos) / m as real
  }

  lemma MeanBelowEvenGap(rs: seq<Record>, nanos: int)
    requires Spans(rs, nanos) && 1 < |rs|
    ensures 0.0 <= Mean(Deltas(rs)) <= EvenGap(nanos, |rs| - 1)
  {
    var ds := Deltas(rs);
    DeltasTelescope(rs);
    SortedIsNonDecreasing(rs);
    PartsBelowSum(ds);
    QuotientOrder(Seconds(nanos), Sum(ds), |ds| as real);
    QuotientOrder(Sum(ds), 0.0, |ds| as real);
  }

  /** The m = n - 1 gaps of n records that span at most W vary by at most W^2 (m - 1) / m^2:
      m - 1 times the square of the even gap. */
  lemma VarianceOfSpan(rs: seq<Record>, nanos: int)
    requires Spans(rs, nanos) && 1 < |rs|
    ensures Variance(Deltas(rs)) <= Copies(Square(EvenGap(nanos, |rs| - 1)), |rs| - 2)
  {
    var ds := Deltas(rs);
    SortedIsNonDecreasing(rs);
    PartsBelowSum(ds);
    VarianceOfSum(ds, Sum(ds));
    MeanBelowEvenGap(rs, nanos);
    SquareOrder(Mean(ds), EvenGap(nanos, |ds|));
    CopiesOrder(Square(Mean(ds)), Square(EvenGap(nanos, |ds|)), |ds| - 1);
  }

  /** Hence never by more than a quarter of the squared span, and with 49 records in five
      seconds by no more than a read-only window may to be quiet. */
  lemma VarianceLimits(rs: seq<Record>, nanos: int)
    requires Spans(rs, nanos) && 0 <= nanos
    ensures Variance(Deltas(rs)) <= Square(Seconds(nanos)) / 4.0
    ensures nanos == 5_000_000_000 && 49 <= |rs| ==> Variance(Deltas(rs)) <= 0.5125
  {
    SquareNonNegative(Seconds(nanos));
    if 1 < |rs| {
      VarianceOfSpan(rs, nanos);
      QuotientOfCopies(Seconds(nanos), |rs| - 1);
      MeanSquareBound(EvenGap(nanos, |rs| - 1), |rs| - 1, Seconds(nanos));
    } else {
      assert Deltas(rs) == [];
    }
  }

  lemma FiveSecondVariance(rs: seq<Record>)
    requires Spans(rs, 5_000_000_000)
    ensures Variance(Deltas(rs)) <= 6.25
  {
    VarianceLimits(rs, 5_000_000_000);
  }

  /** Within a five-second window the burst score stays below 122.5. */
  lemma BurstRange(lib: Library, rs: seq<Record>)
    requires Lawful(lib) && rs != [] && Spans(rs, 5_000_000_000)
    ensures 0.0 <= DetectionOf(lib, rs).burstScore <= 6.2475 / 0.051
  {
    BurstOfVariance(lib, rs);
    VarianceNonNegative(Deltas(rs));
    FiveSecondVariance(rs);
    BurstWithin(Variance(Deltas(rs)), 6.25);
  }

  /** ... and gets there: with two records together and one five seconds later. */
  lemma BurstRangeTight(lib: Library, r: Record, s: Record, t: Record)
    requires Lawful(lib) && r.timestamp == s.timestamp == t.timestamp - 5_000_000_000
    ensures Spans([r, s, t], 5_000_000_000)
    ensures DetectionOf(lib, [r, s, t]).burstScore == 6.2475 / 0.051
  {
    SpanOfThree(r, s, t);
    TwoGaps([r, s, t], Deltas([r, s, t]));
    BurstOfVariance(lib, [r, s, t]);
  }

  lemma SpanOfThree(r: Record, s: Record, t: Record)
    requires r.timestamp == s.timestamp == t.timestamp - 5_000_000_000
    ensures Spans([r, s, t], 5_000_000_000)
  {
    SortedSnoc([r], s);
    SortedSnoc([r, s], t);
    assert [r] + [s] == [r, s] && [r, s] + [t] == [r, s, t];
  }

  lemma TwoGaps(rs: seq<Record>, ds: seq<real>)
    requires |rs| == 3 && ds == Deltas(rs)
    requires rs[0].timestamp == rs[1].timestamp == rs[2].timestamp - 5_000_000_000
    ensures Variance(ds) == 6.25
  {
    DeltaAt(rs, 0);
    DeltaAt(rs, 1);
    DeltasTelescope(rs);
    assert ds[0] == 0.0 && ds[1] == 5.0;
    VarianceOfSumTight(ds, 5.0);
    assert Mean(ds) == 2.5;
    assert Copies(Square(2.5), 1) == 6.25;
  }

  lemma BurstMeasuresVariance(v: real)
    requires 0.0 <= v
    ensures 0.0 <= BurstFrom(v)
    ensures 0.051 * BurstFrom(v) == v - 0.0025 || 0.051 * BurstFrom(v) == 0.0025 - v
  {
  }

  /** The burst score measures how far the gap variance is from 0.0025, above or below. */
  lemma BurstMeasures(lib: Library, rs: seq<Record>)
    requires Lawful(lib) && rs != []
    ensures var (score, distance) := (DetectionOf(lib, rs).burstScore, Variance(Deltas(rs)) - 0.0025);
            0.0 <= score && (0.051 * score == distance || 0.051 * score == -distance)
  {
    BurstOfVariance(lib, rs);
    VarianceNonNegative(Deltas(rs));
    BurstMeasuresVariance(Variance(Deltas(rs)));
  }

  // ----- what a window decides -----

  /** What keeps an alarm on, exactly. With w the share of writes, f that of the most frequent
      function code and h the entropy of the addresses: 50 w + 2.5 f + 20 w h above 10, or a gap
      variance above 0.5125. */
  lemma KeepsAlarmIff(lib: Library, rs: seq<Record>, w: real, f: real, h: real)
    requires Lawful(lib) && rs != []
    requires w == Share(Writes(rs), |rs|) && f == Share(Peak(Functions(rs)), |rs|)
    requires h == EntropyOf(lib.log2, Addresses(rs))
    ensures NextOn(true, ProbabilityOf(lib, rs))
            <==> 10.0 < 50.0 * w + 2.5 * f + 20.0 * Times(w, h) || 0.5125 < Variance(Deltas(rs))
  {
    HstOfWindow(lib, rs, w, f, h);
    BurstOfVariance(lib, rs);
    VarianceNonNegative(Deltas(rs));
    BaselineBurst(Variance(Deltas(rs)));
    ClearsIff(lib.exp, DetectionOf(lib, rs));
  }

  /** Writes spread over many addresses count for more: from 5 w + 2 w h of one on they keep an
      alarm on, and from five thirds on they raise it. */
  lemma SprayAlarms(lib: Library, on: bool, rs: seq<Record>, w: real, h: real)
    requires Lawful(lib) && rs != []
    requires w == Share(Writes(rs), |rs|) && h == EntropyOf(lib.log2, Addresses(rs))
    requires (if on then 1.0 else 5.0 / 3.0) <= 5.0 * w + 2.0 * Times(w, h)
    ensures NextOn(on, ProbabilityOf(lib, rs))
  {
    var f := Share(Peak(Functions(rs)), |rs|);
    FunctionShare(rs);
    if on {
      KeepsAlarmIff(lib, rs, w, f, h);
    } else {
      HstOfWindow(lib, rs, w, f, h);
      Alarms(lib.exp, on, DetectionOf(lib, rs));
    }
  }

  /** A window in which every third record is a write raises the alarm, whatever the state. */
  lemma WriteHeavyAlarms(lib: Library, on: bool, rs: seq<Record>)
    requires Lawful(lib) && rs != [] && |rs| <= 3 * Writes(rs)
    ensures NextOn(on, ProbabilityOf(lib, rs))
    ensures var d := Decide(NextOn(on, ProbabilityOf(lib, rs)), ProbabilityOf(lib, rs));
            d.level == High && d.escalate && d.restrictWrites
  {
    HstRange(lib, rs);
    QuotientOrder(Writes(rs) as real, |rs| as real / 3.0, |rs| as real);
    ThirdShare(|rs| as real);
    Alarms(lib.exp, on, DetectionOf(lib, rs));
  }

  lemma ThirdShare(n: real)
    requires 0.0 < n
    ensures n / 3.0 / n == 1.0 / 3.0 && n / 5.0 / n == 0.2
  {
    Cancel(n / 3.0, n);
    Cancel(n / 5.0, n);
  }

  /** A window in which every fifth record is a write cannot clear the alarm. */
  lemma WritesKeepAlarm(lib: Library, rs: seq<Record>)
    requires Lawful(lib) && rs != [] && |rs| <= 5 * Writes(rs)
    ensures NextOn(true, ProbabilityOf(lib, rs))
  {
    HstRange(lib, rs);
    QuotientOrder(Writes(rs) as real, |rs| as real / 5.0, |rs| as real);
    ThirdShare(|rs| as real);
    ClearsIff(lib.exp, DetectionOf(lib, rs));
  }

  /** What a read-only window does to the alarm is decided by its inter-arrival variance:
      it clears the alarm exactly up to 0.5125, and raises it exactly when the exponential
      of the burst score's excess reaches 7/3, which takes more than that. */
  lemma ReadOnlyClears(lib: Library, rs: seq<Record>)
    requires Lawful(lib) && rs != [] && Writes(rs) == 0
    ensures NextOn(true, ProbabilityOf(lib, rs)) <==> 0.5125 < Variance(Deltas(rs))
    ensures NextOn(false, ProbabilityOf(lib, rs)) <==> 7.0 / 3.0 <= lib.exp(Excess(BurstFrom(Variance(Deltas(rs)))))
    ensures Variance(Deltas(rs)) <= 0.5125 ==> !NextOn(false, ProbabilityOf(lib, rs))
  {
    ReadOnlyRaises(lib, rs);
    HstRange(lib, rs);
    BurstOfVariance(lib, rs);
    VarianceNonNegative(Deltas(rs));
    ClearsIff(lib.exp, DetectionOf(lib, rs));
    BaselineBurst(Variance(Deltas(rs)));
  }

  lemma ReadOnlyRaises(lib: Library, rs: seq<Record>)
    requires Lawful(lib) && rs != [] && Writes(rs) == 0
    ensures NextOn(false, ProbabilityOf(lib, rs)) <==> 7.0 / 3.0 <= lib.exp(Excess(BurstFrom(Variance(Deltas(rs)))))
  {
    var d := DetectionOf(lib, rs);
    HstRange(lib, rs);
    BurstOfVariance(lib, rs);
    RaisesIff(lib.exp, d);
    HstTooLow(lib.exp, d.hstScore);
  }

  lemma HstTooLow(exp: real -> real, score: real)
    requires ExpLaws(exp) && score <= 10.0
    ensures exp(Excess(score)) < 7.0 / 3.0
  {
    assert Excess(score) <= 0.0;
  }

  lemma BaselineBurst(v: real)
    requires 0.0 <= v
    ensures BurstFrom(v) <= 10.0 <==> v <= 0.5125
  {
  }
}
