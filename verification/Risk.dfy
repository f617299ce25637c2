/** Fusion of the two scores and the two-threshold alarm, with whole-run theorems. */
module Risk {
  import opened Types
  import opened Maths
  import opened RealArithmetic

  const TAU_ON := 0.7
  const TAU_OFF := 0.5
  const TAU_MEDIUM := 0.4
  const STEEPNESS := 2.0
  const BASELINE := 10.0

  function Sigmoid(exp: real -> real, z: real): real
    requires ExpLaws(exp)
  {
    ExpPositive(exp, -STEEPNESS * (z - 1.0));
    1.0 / (1.0 + exp(-STEEPNESS * (z - 1.0)))
  }

  function Max(x: real, y: real): real {
    if x < y then y else x
  }

  function Probability(exp: real -> real, d: Detection): real
    requires ExpLaws(exp)
  {
    Max(Sigmoid(exp, d.hstScore / BASELINE), Sigmoid(exp, d.burstScore / BASELINE))
  }

  predicate NextOn(on: bool, p: real) {
    if on then TAU_OFF < p else TAU_ON <= p
  }

  function Decide(on: bool, p: real): Decision {
    if on then Decision(High, true, true, p)
    else if TAU_MEDIUM < p then Decision(Medium, false, false, p)
    else Decision(Low, false, false, p)
  }

  class RiskModel {
    var isOn: bool
    const exp: real -> real

    ghost predicate Valid() {
      ExpLaws(exp)
    }

    constructor (exp: real -> real)
      requires ExpLaws(exp)
      ensures Valid() && this.exp == exp && !isOn
    {
      this.exp := exp;
      isOn := false;
    }

    method Fuse(hstScore: real, burstScore: real) returns (result: Detection)
      ensures result == Detection(hstScore, burstScore)
    {
      result := Detection(hstScore, burstScore);
    }

    method Evaluate(detection: Detection) returns (decision: Decision)
      requires Valid()
      modifies this
      ensures isOn == NextOn(old(isOn), Probability(exp, detection))
      ensures decision == Decide(isOn, Probability(exp, detection))
    {
      var zHst := detection.hstScore / BASELINE;
      var zBurst := detection.burstScore / BASELINE;
      var pHst := Sigmoid(exp, zHst);
      var pBurst := Sigmoid(exp, zBurst);
      var pMax := Max(pHst, pBurst);

      if !isOn && pMax >= TAU_ON {
        isOn := true;
      } else if isOn && pMax <= TAU_OFF {
        isOn := false;
      }

      if isOn {
        decision := Decision(High, true, true, pMax);
      } else if !isOn && pMax > TAU_MEDIUM {
        decision := Decision(Medium, false, false, pMax);
      } else {
        decision := Decision(Low, false, false, pMax);
      }
    }
  }

  // ----- from scores to probabilities -----

  lemma SigmoidMonotone(exp: real -> real, z: real, z': real)
    requires ExpLaws(exp) && z <= z'
    ensures 0.0 < Sigmoid(exp, z) <= Sigmoid(exp, z') < 1.0
  {
    var e, e' := exp(-STEEPNESS * (z - 1.0)), exp(-STEEPNESS * (z' - 1.0));
    ExpPositive(exp, -STEEPNESS * (z - 1.0));
    ExpPositive(exp, -STEEPNESS * (z' - 1.0));
    assert e' <= e;
    Reciprocal(1.0 + e', 1.0 + e);
  }

  lemma Reciprocal(x: real, y: real)
    requires 1.0 < x <= y
    ensures 0.0 < 1.0 / y <= 1.0 / x < 1.0
  {
  }

  /** A score reaches the clearing threshold exactly at the baseline. */
  lemma SigmoidAtBaseline(exp: real -> real, z: real)
    requires ExpLaws(exp)
    ensures Sigmoid(exp, z) <= TAU_OFF <==> z <= 1.0
  {
    var x := -STEEPNESS * (z - 1.0);
    ExpPositive(exp, x);
    assert exp(x) >= 1.0 <==> x >= 0.0;
    Halves(1.0 + exp(x));
  }

  lemma Halves(y: real)
    requires 0.0 < y
    ensures 1.0 / y <= 0.5 <==> 2.0 <= y
  {
  }

  /** A score reaches the alarm threshold exactly when the exponential of its excess over
      the baseline reaches 7/3. */
  lemma SigmoidAlarms(exp: real -> real, z: real)
    requires ExpLaws(exp)
    ensures TAU_ON <= Sigmoid(exp, z) <==> 7.0 / 3.0 <= exp(STEEPNESS * (z - 1.0))
  {
    var x := -STEEPNESS * (z - 1.0);
    assert -x == STEEPNESS * (z - 1.0);
    ExpPositive(exp, x);
    ExpPositive(exp, -x);
    SevenTenths(exp(x), exp(-x));
  }

  lemma SevenTenths(a: real, b: real)
    requires 0.0 < a && 0.0 < b && a * b == 1.0
    ensures 0.7 <= 1.0 / (1.0 + a) <==> 7.0 / 3.0 <= b
  {
    var q := 1.0 / (1.0 + a);
    assert q * (1.0 + a) == 1.0;
    assert 0.7 <= q <==> 0.7 * (1.0 + a) <= 1.0 by {
      if 0.7 <= q {
        assert (q - 0.7) * (1.0 + a) >= 0.0;
      } else {
        assert (0.7 - q) * (1.0 + a) > 0.0;
      }
    }
    if 7.0 / 3.0 <= b {
      assert (b - 7.0 / 3.0) * a >= 0.0;
    } else {
      assert (7.0 / 3.0 - b) * a > 0.0;
    }
  }

  /** Two thirds above the baseline is enough, two sevenths are not. */
  lemma AlarmBracket(exp: real -> real, z: real)
    requires ExpLaws(exp)
    ensures 5.0 / 3.0 <= z ==> TAU_ON <= Sigmoid(exp, z)
    ensures z < 9.0 / 7.0 ==> Sigmoid(exp, z) < TAU_ON
  {
    var y := STEEPNESS * (z - 1.0);
    SigmoidAlarms(exp, z);
    assert 1.0 + y <= exp(y);
    if z < 9.0 / 7.0 {
      ExpPositive(exp, y);
      assert 1.0 - y <= exp(-y);
      BelowSevenThirds(exp(y), exp(-y));
    }
  }

  lemma BelowSevenThirds(a: real, b: real)
    requires 0.0 < a && a * b == 1.0 && 3.0 / 7.0 < b
    ensures a < 7.0 / 3.0
  {
    assert a * (b - 3.0 / 7.0) > 0.0;
  }

  /** The alarm can only be cleared by a detection with both scores at or below the baseline. */
  lemma ClearsIff(exp: real -> real, d: Detection)
    requires ExpLaws(exp)
    ensures !NextOn(true, Probability(exp, d)) <==> d.hstScore <= BASELINE && d.burstScore <= BASELINE
  {
    SigmoidAtBaseline(exp, d.hstScore / BASELINE);
    SigmoidAtBaseline(exp, d.burstScore / BASELINE);
  }

  /** How far a score is above the baseline, as the sigmoid weighs it. */
  function Excess(score: real): real {
    STEEPNESS * (score / BASELINE - 1.0)
  }

  /** ... and raised exactly by one with a score whose excess reaches the threshold. */
  lemma RaisesIff(exp: real -> real, d: Detection)
    requires ExpLaws(exp)
    ensures NextOn(false, Probability(exp, d))
            <==> 7.0 / 3.0 <= exp(Excess(d.hstScore)) || 7.0 / 3.0 <= exp(Excess(d.burstScore))
  {
    SigmoidAlarms(exp, d.hstScore / BASELINE);
    SigmoidAlarms(exp, d.burstScore / BASELINE);
  }

  lemma SigmoidOdds(exp: real -> real, score: real, e: real)
    requires ExpLaws(exp) && e == exp(score / 5.0 - 2.0)
    ensures 0.0 < e && Times(Sigmoid(exp, score / BASELINE), 1.0 + e) == e
  {
    var x := -STEEPNESS * (score / BASELINE - 1.0);
    assert x == -(score / 5.0 - 2.0);
    ExpPositive(exp, x);
    ExpPositive(exp, -x);
    OddsOf(exp(x), e);
  }

  lemma OddsOf(a: real, b: real)
    requires 0.0 < a && 0.0 < b && a * b == 1.0
    ensures Times(1.0 / (1.0 + a), 1.0 + b) == b
  {
    var q := 1.0 / (1.0 + a);
    assert q * (1.0 + a) == 1.0;
    assert b * (q * (1.0 + a)) == q * (b + a * b);
  }

  /** Larger odds, larger probability. */
  lemma OddsOrder(p: real, q: real, a: real, b: real)
    requires 0.0 < a && 0.0 < b && Times(p, 1.0 + a) == a && Times(q, 1.0 + b) == b
    ensures p < q <==> a < b
  {
    assert p * (1.0 + a) * (1.0 + b) == a + a * b;
    assert q * (1.0 + b) * (1.0 + a) == b + a * b;
    var n := (1.0 + a) * (1.0 + b);
    assert 0.0 < n && p * n == a + a * b && q * n == b + a * b;
    if p < q {
      ScaleStrict(n, p, q);
    } else {
      ScaleOrder(n, q, p);
    }
  }

  /** What a probability means: its odds are the exponential of a fifth of the larger score,
      less two. */
  lemma Odds(exp: real -> real, d: Detection, e: real)
    requires ExpLaws(exp) && e == Max(exp(d.hstScore / 5.0 - 2.0), exp(d.burstScore / 5.0 - 2.0))
    ensures 0.0 < e && Times(Probability(exp, d), 1.0 + e) == e
  {
    var h, b := exp(d.hstScore / 5.0 - 2.0), exp(d.burstScore / 5.0 - 2.0);
    SigmoidOdds(exp, d.hstScore, h);
    SigmoidOdds(exp, d.burstScore, b);
    OddsOrder(Sigmoid(exp, d.hstScore / BASELINE), Sigmoid(exp, d.burstScore / BASELINE), h, b);
  }

  lemma OddsAbove(p: real, e: real)
    requires 0.0 < e && Times(p, 1.0 + e) == e
    ensures 0.4 < p <==> 2.0 / 3.0 < e
  {
    OddsOrder(0.4, p, 2.0 / 3.0, e);
  }

  lemma Alarms(exp: real -> real, on: bool, d: Detection)
    requires ExpLaws(exp) && (50.0 / 3.0 <= d.hstScore || 50.0 / 3.0 <= d.burstScore)
    ensures NextOn(on, Probability(exp, d))
  {
    AlarmBracket(exp, d.hstScore / BASELINE);
    AlarmBracket(exp, d.burstScore / BASELINE);
  }

  ghost predicate Dominates(hi: Detection, lo: Detection) {
    lo.hstScore <= hi.hstScore && lo.burstScore <= hi.burstScore
  }

  lemma ProbabilityMonotone(exp: real -> real, lo: Detection, hi: Detection)
    requires ExpLaws(exp) && Dominates(hi, lo)
    ensures 0.0 < Probability(exp, lo) <= Probability(exp, hi) < 1.0
  {
    SigmoidMonotone(exp, lo.hstScore / BASELINE, hi.hstScore / BASELINE);
    SigmoidMonotone(exp, lo.burstScore / BASELINE, hi.burstScore / BASELINE);
  }

  // ----- whole runs -----

  /** The alarm after a run of probabilities, from a fresh model. */
  function On(ps: seq<real>): bool {
    ps != [] && NextOn(On(ps[..|ps| - 1]), ps[|ps| - 1])
  }

  /** The i-th probability reached 0.7 and none since has come down to 0.5. */
  ghost predicate UnclearedPeak(ps: seq<real>, i: nat) {
    && i < |ps| && 0.7 <= ps[i]
    && forall j | i < j < |ps| :: 0.5 < ps[j]
  }

  /** What the alarm remembers of a run. */
  lemma {:induction false} OnMeansUnclearedPeak(ps: seq<real>)
    ensures On(ps) <==> exists i :: UnclearedPeak(ps, i)
  {
    if ps != [] {
      var n := |ps| - 1;
      var qs := ps[..n];
      OnMeansUnclearedPeak(qs);
      forall i: nat | i < n
        ensures UnclearedPeak(ps, i) <==> UnclearedPeak(qs, i) && TAU_OFF < ps[n]
      {
        assert forall j | 0 <= j < n :: qs[j] == ps[j];
      }
      if On(ps) && TAU_ON <= ps[n] {
        assert UnclearedPeak(ps, n);
      } else if On(ps) {
        var i :| UnclearedPeak(qs, i);
        assert UnclearedPeak(ps, i);
      }
    }
  }

  /** What the decision on the last of a run of detections says, from a fresh model: High, and
      then always with escalation and restriction, exactly while a peak is uncleared;
      otherwise Medium exactly above 0.4. */
  lemma DecisionAfterRun(exp: real -> real, ds: seq<Detection>, p: real)
    requires ExpLaws(exp) && ds != [] && p == Probability(exp, ds[|ds| - 1])
    ensures var d := Decide(On(Probabilities(exp, ds)), p);
            && (d.level == High <==> exists i :: UnclearedPeak(Probabilities(exp, ds), i))
            && d.escalate == d.restrictWrites == (d.level == High)
            && (d.level != High ==> (d.level == Medium <==> 0.4 < p))
            && d.probability == p
  {
    OnMeansUnclearedPeak(Probabilities(exp, ds));
  }

  /** How often the alarm changes state during a run. */
  function Flips(ps: seq<real>): nat {
    if ps == [] then 0
    else Flips(ps[..|ps| - 1]) + if On(ps) != On(ps[..|ps| - 1]) then 1 else 0
  }

  function Abs(x: real): real {
    if x < 0.0 then -x else x
  }

  /** How far the probability travels, up and down, during a run. */
  function Variation(ps: seq<real>): real {
    if |ps| < 2 then 0.0
    else Variation(ps[..|ps| - 1]) + Abs(ps[|ps| - 1] - ps[|ps| - 2])
  }

  /** Every flip after the first costs the full width of the hysteresis band. */
  lemma AntiFlapping(ps: seq<real>)
    requires 0 < Flips(ps)
    ensures (Flips(ps) - 1) as real * (TAU_ON - TAU_OFF) <= Variation(ps)
  {
    BandTravel(ps);
  }

  /** The same with what is left over: the last probability's way back to the threshold
      that would flip the alarm next has been travelled as well. */
  lemma {:induction false} BandTravel(ps: seq<real>)
    requires ps != []
    ensures Flips(ps) == 0 ==> !On(ps)
    ensures 0 < Flips(ps) ==>
              var p := ps[|ps| - 1];
              var spare := if On(ps) then TAU_ON - p else p - TAU_OFF;
              (Flips(ps) - 1) as real * (TAU_ON - TAU_OFF) + Max(0.0, spare) <= Variation(ps)
    ensures 0.0 <= Variation(ps)
  {
    var qs := ps[..|ps| - 1];
    if qs == [] {
      assert !On(qs) && Flips(qs) == 0;
    } else {
      BandTravel(qs);
      assert ps[|ps| - 2] == qs[|qs| - 1];
    }
  }

  /** The bound is attained: a run that always goes just far enough to flip the alarm. */
  function Swing(t: nat): seq<real> {
    if t == 0 then [] else Swing(t - 1) + [if On(Swing(t - 1)) then TAU_OFF else TAU_ON]
  }

  lemma {:induction false} AntiFlappingTight(t: nat)
    ensures |Swing(t)| == t && Flips(Swing(t)) == t
    ensures 0 < t ==> Swing(t)[t - 1] == if On(Swing(t)) then TAU_ON else TAU_OFF
    ensures 0 < t ==> Variation(Swing(t)) == (t - 1) as real * (TAU_ON - TAU_OFF)
  {
    if t > 0 {
      AntiFlappingTight(t - 1);
      assert Swing(t)[..t - 1] == Swing(t - 1);
      if t > 1 {
        assert Swing(t)[t - 2] == Swing(t - 1)[t - 2];
      }
    }
  }

  function Rank(level: RiskLevel): int {
    match level case Low => 0 case Medium => 1 case High => 2
  }

  function Probabilities(exp: real -> real, ds: seq<Detection>): (ps: seq<real>)
    requires ExpLaws(exp)
    ensures |ps| == |ds| && forall i | 0 <= i < |ds| :: ps[i] == Probability(exp, ds[i])
  {
    if ds == [] then []
    else Probabilities(exp, ds[..|ds| - 1]) + [Probability(exp, ds[|ds| - 1])]
  }

  lemma {:induction false} OnMonotone(lo: seq<real>, hi: seq<real>)
    requires |lo| == |hi| && forall i | 0 <= i < |lo| :: lo[i] <= hi[i]
    ensures On(lo) ==> On(hi)
  {
    if lo != [] {
      OnMonotone(lo[..|lo| - 1], hi[..|hi| - 1]);
    }
  }

  /** A run of detections that dominates another pointwise is never at a lower risk level. */
  lemma RunMonotone(exp: real -> real, lo: seq<Detection>, hi: seq<Detection>)
    requires ExpLaws(exp) && |lo| == |hi| && lo != []
    requires forall i | 0 <= i < |lo| :: Dominates(hi[i], lo[i])
    ensures On(Probabilities(exp, lo)) ==> On(Probabilities(exp, hi))
    ensures Rank(Decide(On(Probabilities(exp, lo)), Probability(exp, lo[|lo| - 1])).level)
            <= Rank(Decide(On(Probabilities(exp, hi)), Probability(exp, hi[|hi| - 1])).level)
  {
    var ps, qs := Probabilities(exp, lo), Probabilities(exp, hi);
    forall i | 0 <= i < |lo|
      ensures ps[i] <= qs[i]
    {
      ProbabilityMonotone(exp, lo[i], hi[i]);
    }
    OnMonotone(ps, qs);
  }
}
