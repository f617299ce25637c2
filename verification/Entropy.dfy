/** Shannon entropy of a sequence of keys, in bits, and its bounds. */
module Entropy {
  import opened Maths
  import opened Counting
  import opened RealArithmetic

  function PLogP(log2: real -> real, p: real): real {
    p * log2(p)
  }

  /** What a key that takes the share `p` of all keys adds to the entropy. */
  function Information(log2: real -> real, p: real): real {
    -PLogP(log2, p)
  }

  function Share(count: nat, total: nat): real
    requires 0 < total
  {
    count as real / total as real
  }

  ghost function TermOf<K>(log2: real -> real, keys: seq<K>): K -> real
    requires keys != []
  {
    k => Information(log2, Share(multiset(keys)[k], |keys|))
  }

  ghost function EntropyOf<K(!new)>(log2: real -> real, keys: seq<K>): real
    requires keys != []
  {
    SumOver(Distinct(keys), TermOf(log2, keys))
  }

  // ----- bounds on one term -----

  lemma ShareRange(m: nat, x: nat, n: nat)
    requires 0 < m <= x <= n
    ensures 0.0 < Share(m, n) <= Share(x, n) <= 1.0
    ensures m < n ==> Share(m, n) < 1.0
  {
    var c := n as real;
    QuotientOrder(0.0, m as real, c);
    QuotientOrder(x as real, m as real, c);
    QuotientOrder(c, x as real, c);
    QuotientOrder(m as real, c, c);
  }

  lemma Log2Order(log2: real -> real, p: real, q: real)
    requires Log2Laws(log2) && 0.0 < p <= q
    ensures log2(p) <= log2(q)
  {
  }

  /** The rarer the key, the more each of its occurrences adds. */
  lemma TermAtLeast(log2: real -> real, m: nat, x: nat, n: nat)
    requires Log2Laws(log2) && 0 < m <= x <= n
    ensures Copies(-log2(Share(x, n)) / n as real, m) <= Information(log2, Share(m, n))
  {
    ShareRange(m, x, n);
    Log2Order(log2, Share(m, n), Share(x, n));
    SpreadBelow(log2, m, n, -log2(Share(x, n)));
  }

  lemma SpreadBelow(log2: real -> real, m: nat, n: nat, t: real)
    requires 0 < n && t <= -log2(Share(m, n))
    ensures Copies(t / n as real, m) <= Information(log2, Share(m, n))
  {
    var p := Share(m, n);
    var l := log2(p);
    Spread(m, n, t);
    QuotientOrder(m as real, 0.0, n as real);
    ScaleOrder(p, t, -l);
    assert p * -l == -(p * l);
  }

  /** Spreading `t` over n occurrences gives m of them their share of it. */
  lemma Spread(m: nat, n: nat, t: real)
    requires 0 < n
    ensures Copies(t / n as real, m) == Share(m, n) * t
  {
    CopiesIsProduct(t / n as real, m);
    Regroup(m as real, n as real, t);
  }

  /** No term rises above the line that a uniform distribution would touch. */
  lemma TermAtMost(log2: real -> real, c: real, m: nat, n: nat, d: nat)
    requires Log2Laws(log2) && 0.0 < c && Tangent(log2, c) && 0 < m <= n && 0 < d
    ensures Information(log2, Share(m, n)) <= Copies((log2(d as real) - c) / n as real, m) + c / d as real
  {
    var t := log2(d as real) - c;
    ShareRange(m, m, n);
    TangentTerm(log2, c, Share(m, n), d as real, t);
    Spread(m, n, t);
  }

  lemma TangentTerm(log2: real -> real, c: real, p: real, e: real, t: real)
    requires Log2Laws(log2) && 0.0 < c && Tangent(log2, c) && 0.0 < p && 0.0 < e
    requires t == log2(e) - c
    ensures Information(log2, p) <= p * t + c / e
  {
    var x := 1.0 / (p * e);
    ReciprocalProduct(p, e);
    Log2OfReciprocal(log2, p, e, x);
    var y := log2(x);
    assert y <= c * (x - 1.0);
    TangentArithmetic(c, p, e, x, y, log2(p), t);
  }

  lemma Log2OfReciprocal(log2: real -> real, p: real, e: real, x: real)
    requires Log2Laws(log2) && 0.0 < p && 0.0 < e && 0.0 < p * e && 0.0 < x && p * e * x == 1.0
    ensures log2(x) == -log2(p) - log2(e)
  {
    Log2One(log2);
    assert Product(p, e, p * e);
    assert Product(p * e, x, 1.0);
  }

  lemma ReciprocalProduct(p: real, e: real)
    requires 0.0 < p && 0.0 < e
    ensures 0.0 < p * e && 0.0 < 1.0 / (p * e) && p * e * (1.0 / (p * e)) == 1.0
  {
    var t := p * e;
    assert 0.0 < t;
    assert 1.0 / t * t == 1.0;
  }

  lemma TangentArithmetic(c: real, p: real, e: real, x: real, y: real, lp: real, t: real)
    requires 0.0 < c && 0.0 < p && 0.0 < e && p * e * x == 1.0
    requires y == -lp - (t + c) && y <= c * (x - 1.0)
    ensures -(p * lp) <= p * t + c / e
  {
    ScaleOrder(p, y, c * (x - 1.0));
    assert p * y == -(p * lp) - p * t - p * c;
    assert p * (c * (x - 1.0)) == c * (p * x) - p * c by {
      assert c * (x - 1.0) == c * x - c;
    }
    ShareOf(p * x, e, c);
  }

  lemma ShareOf(q: real, e: real, c: real)
    requires 0.0 < e && q * e == 1.0
    ensures c * q == c / e
  {
    assert c / e * e == c;
    assert (c * q) * e == c * (q * e) == c;
    assert (c * q - c / e) * e == 0.0;
  }

  // ----- bounds on the entropy -----

  /** A weight spread evenly over all occurrences adds up again. */
  lemma WeightSum<K(!new)>(keys: seq<K>, t: real)
    requires keys != []
    ensures SumOver(Distinct(keys), WeightOf(keys, t / |keys| as real)) == t
  {
    Conservation(keys, Distinct(keys), t / |keys| as real);
    CopiesIsProduct(t / |keys| as real, |keys|);
    Cancel(t, |keys| as real);
  }

  lemma LineSum<K(!new)>(keys: seq<K>, s: real, t: real)
    requires keys != [] && 0 < |Distinct(keys)|
    ensures SumOver(Distinct(keys), Plus(WeightOf(keys, s / |keys| as real), Constant(t / |Distinct(keys)| as real)))
            == s + t
  {
    var d := |Distinct(keys)|;
    SumPlus(Distinct(keys), WeightOf(keys, s / |keys| as real), Constant(t / d as real));
    WeightSum(keys, s);
    SumConstant(Distinct(keys), t / d as real);
    CopiesIsProduct(t / d as real, d);
    Cancel(t, d as real);
  }

  lemma TermsAtLeast<K(!new)>(log2: real -> real, keys: seq<K>, w: real)
    requires Log2Laws(log2) && keys != [] && 0 < Peak(keys) <= |keys|
    requires w == -log2(Share(Peak(keys), |keys|)) / |keys| as real
    ensures SumOver(Distinct(keys), WeightOf(keys, w)) <= EntropyOf(log2, keys)
  {
    PeakIsMaximum(keys);
    forall k | k in Distinct(keys)
      ensures WeightOf(keys, w)(k) <= TermOf(log2, keys)(k)
    {
      TermAtLeast(log2, multiset(keys)[k], Peak(keys), |keys|);
    }
    SumMonotone(Distinct(keys), WeightOf(keys, w), TermOf(log2, keys));
  }

  /** The entropy is at least the information of the most frequent key. */
  lemma EntropyAtLeast<K(!new)>(log2: real -> real, keys: seq<K>)
    requires Log2Laws(log2) && keys != []
    ensures -log2(Share(Peak(keys), |keys|)) <= EntropyOf(log2, keys)
  {
    PeakIsAll(keys);
    var t := -log2(Share(Peak(keys), |keys|));
    TermsAtLeast(log2, keys, t / |keys| as real);
    WeightSum(keys, t);
  }

  lemma TermsAtMost<K(!new)>(log2: real -> real, keys: seq<K>, c: real, d: nat)
    requires Log2Laws(log2) && 0.0 < c && Tangent(log2, c)
    requires keys != [] && 0 < d && Peak(keys) <= |keys|
    ensures EntropyOf(log2, keys)
            <= SumOver(Distinct(keys),
                       Plus(WeightOf(keys, (log2(d as real) - c) / |keys| as real), Constant(c / d as real)))
  {
    var line := Plus(WeightOf(keys, (log2(d as real) - c) / |keys| as real), Constant(c / d as real));
    PeakIsMaximum(keys);
    forall k | k in Distinct(keys)
      ensures TermOf(log2, keys)(k) <= line(k)
    {
      TermAtMost(log2, c, multiset(keys)[k], |keys|, d);
    }
    SumMonotone(Distinct(keys), TermOf(log2, keys), line);
  }

  /** The entropy is at most that of a uniform distribution over the distinct keys. */
  lemma EntropyAtMost<K(!new)>(log2: real -> real, keys: seq<K>)
    requires Log2Laws(log2) && keys != []
    ensures 0 < |Distinct(keys)| && EntropyOf(log2, keys) <= log2(|Distinct(keys)| as real)
  {
    PeakIsAll(keys);
    var d := |Distinct(keys)|;
    var c: real :| 0.0 < c && Tangent(log2, c);
    TermsAtMost(log2, keys, c, d);
    LineSum(keys, log2(d as real) - c, c);
  }

  /** The entropy is never negative, and zero exactly when all keys are the same. */
  lemma EntropyZero<K(!new)>(log2: real -> real, keys: seq<K>)
    requires Log2Laws(log2) && keys != []
    ensures 0.0 <= EntropyOf(log2, keys)
    ensures EntropyOf(log2, keys) == 0.0 <==> |Distinct(keys)| == 1
  {
    var peak := Share(Peak(keys), |keys|);
    PeakIsAll(keys);
    ShareRange(Peak(keys), Peak(keys), |keys|);
    Log2One(log2);
    EntropyAtLeast(log2, keys);
    EntropyAtMost(log2, keys);
    assert log2(peak) <= 0.0;
    if |Distinct(keys)| != 1 {
      assert log2(peak) < 0.0;
    }
  }

  /** The order of the keys does not matter. */
  lemma EntropyReordered<K(!new)>(log2: real -> real, a: seq<K>, b: seq<K>)
    requires multiset(a) == multiset(b) && a != []
    ensures b != [] && EntropyOf(log2, a) == EntropyOf(log2, b)
  {
    assert |a| == |multiset(a)| == |b|;
    forall k
      ensures k in Distinct(a) <==> k in Distinct(b)
    {
      assert k in a <==> k in multiset(b);
    }
    assert Distinct(a) == Distinct(b);
    SumCongruent(Distinct(a), TermOf(log2, a), TermOf(log2, b));
  }

  // ----- what fixes the entropy -----

  lemma ShareOfShare(m: nat, n: nat, total: nat)
    requires 0 < n && 0 < total
    ensures Share(m, total) == Times(Share(m, n), Share(n, total))
  {
    var x, y := Share(m, n), Share(n, total);
    assert x * n as real == m as real && y * total as real == n as real;
    assert (x * y) * total as real == x * n as real;
    Cancel(x * y, total as real);
  }

  lemma Log2OfProduct(log2: real -> real, s: real, p: real, q: real)
    requires Log2Laws(log2) && 0.0 < s && 0.0 < p && q == Times(s, p)
    ensures log2(q) == log2(s) + log2(p)
  {
    assert Product(s, p, q);
  }

  lemma InformationOfProduct(log2: real -> real, s: real, p: real, q: real)
    requires q == Times(s, p) && log2(q) == log2(s) + log2(p)
    ensures Information(log2, q) == Times(p, Information(log2, s)) + Times(s, Information(log2, p))
  {
    TermProduct(s, p, q, log2(s), log2(p));
  }

  lemma TermProduct(s: real, p: real, q: real, ls: real, lp: real)
    requires q == s * p
    ensures -(q * (ls + lp)) == p * -(s * ls) + s * -(p * lp)
  {
    assert q * (ls + lp) == q * ls + q * lp;
    assert p * (s * ls) == q * ls;
    assert s * (p * lp) == q * lp;
  }

  /** A key's term in the whole is its term in its part, scaled, plus its share of choosing
      that part. */
  lemma TermInPart(log2: real -> real, m: nat, n: nat, total: nat, p: real)
    requires Log2Laws(log2) && 0 < m <= n <= total && p == Share(n, total)
    ensures Information(log2, Share(m, total))
            == Times(p, Information(log2, Share(m, n))) + Copies(Information(log2, p) / n as real, m)
  {
    ShareOfShare(m, n, total);
    SharePositive(m, n);
    SharePositive(n, total);
    Log2OfProduct(log2, Share(m, n), p, Share(m, total));
    InformationOfProduct(log2, Share(m, n), p, Share(m, total));
    SpreadTimes(m, n, Information(log2, p));
  }

  lemma SharePositive(m: nat, n: nat)
    requires 0 < m <= n
    ensures 0.0 < Share(m, n)
  {
    ShareRange(m, m, n);
  }

  lemma SpreadTimes(m: nat, n: nat, t: real)
    requires 0 < n
    ensures Copies(t / n as real, m) == Times(Share(m, n), t)
  {
    Spread(m, n, t);
  }

  lemma TermsSplit<K(!new)>(log2: real -> real, part: seq<K>, whole: seq<K>, p: real)
    requires Log2Laws(log2) && part != [] && |part| <= |whole| && p == Share(|part|, |whole|)
    requires forall k | k in part :: multiset(whole)[k] == multiset(part)[k]
    ensures Splits(Distinct(part), TermOf(log2, whole), p, TermOf(log2, part),
                   WeightOf(part, Information(log2, p) / |part| as real))
  {
    PeakIsMaximum(part);
    PeakIsAll(part);
    var chosen := WeightOf(part, Information(log2, p) / |part| as real);
    forall k | k in Distinct(part)
      ensures TermOf(log2, whole)(k) == Scaled(p, TermOf(log2, part))(k) + chosen(k)
    {
      TermInPart(log2, multiset(part)[k], |part|, |whole|, p);
    }
  }

  /** What the keys of one part contribute to the entropy of the whole. */
  lemma PartOfEntropy<K(!new)>(log2: real -> real, part: seq<K>, whole: seq<K>, p: real)
    requires Log2Laws(log2) && part != [] && |part| <= |whole| && p == Share(|part|, |whole|)
    requires forall k | k in part :: multiset(whole)[k] == multiset(part)[k]
    ensures SumOver(Distinct(part), TermOf(log2, whole)) == Times(p, EntropyOf(log2, part)) + Information(log2, p)
  {
    var t := Information(log2, p);
    TermsSplit(log2, part, whole, p);
    WeightSum(part, t);
    SumSplit(Distinct(part), TermOf(log2, whole), p, TermOf(log2, part), WeightOf(part, t / |part| as real));
  }

  lemma DisjointParts<K(!new)>(a: seq<K>, b: seq<K>)
    requires Distinct(a) !! Distinct(b)
    ensures forall k | k in a :: multiset(a + b)[k] == multiset(a)[k]
    ensures forall k | k in b :: multiset(a + b)[k] == multiset(b)[k]
    ensures Distinct(a + b) == Distinct(a) + Distinct(b)
  {
    assert multiset(a + b) == multiset(a) + multiset(b);
    forall k | k in a
      ensures multiset(b)[k] == 0
    {
      assert k in Distinct(a);
    }
    forall k | k in b
      ensures multiset(a)[k] == 0
    {
      assert k in Distinct(b);
    }
  }

  /** The grouping law, p H(a) + q H(b) - p log2(p) - q log2(q): drawing from two disjoint
      stocks of keys is choosing the stock and then drawing from it. Together with
      `EntropyZero` and `EntropyReordered` it fixes the value for every sequence of keys. */
  lemma Grouping<K(!new)>(log2: real -> real, a: seq<K>, b: seq<K>, p: real, q: real)
    requires Log2Laws(log2) && a != [] && b != [] && Distinct(a) !! Distinct(b)
    requires p == Share(|a|, |a + b|) && q == Share(|b|, |a + b|)
    ensures EntropyOf(log2, a + b)
            == Times(p, EntropyOf(log2, a)) + Times(q, EntropyOf(log2, b))
               + Information(log2, p) + Information(log2, q)
  {
    DisjointParts(a, b);
    PartOfEntropy(log2, a, a + b, p);
    PartOfEntropy(log2, b, a + b, q);
    SumUnion(Distinct(a), Distinct(b), TermOf(log2, a + b));
  }

  /** Keys that all occur equally often have the entropy of a free choice among them. */
  lemma EvenEntropy<K(!new)>(log2: real -> real, keys: seq<K>)
    requires Log2Laws(log2) && keys != [] && |keys| == Peak(keys) * |Distinct(keys)|
    ensures 0 < |Distinct(keys)| && EntropyOf(log2, keys) == log2(|Distinct(keys)| as real)
  {
    PeakIsAll(keys);
    EvenLog(log2, Peak(keys), |Distinct(keys)|, |keys|);
    EntropyAtLeast(log2, keys);
    EntropyAtMost(log2, keys);
  }

  lemma EvenLog(log2: real -> real, m: nat, d: nat, n: nat)
    requires Log2Laws(log2) && 0 < m <= n && 0 < d && n == m * d
    ensures -log2(Share(m, n)) == log2(d as real)
  {
    ShareRange(m, m, n);
    Cancel(m as real, n as real);
    EvenShare(Share(m, n), m as real, d as real, n as real);
    assert Product(Share(m, n), d as real, 1.0);
    Log2One(log2);
  }

  lemma EvenShare(s: real, m: real, d: real, n: real)
    requires 0.0 < m && n == m * d && n * s == m
    ensures 1.0 == s * d
  {
    assert m * (d * s - 1.0) == 0.0;
  }
}
