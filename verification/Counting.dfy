/** Counting how often each key occurs: sums over hash maps iterated in any order. */
module Counting {
  import opened RealArithmetic

  /** The sum of `f` over `keys`, taken in an order nobody knows. */
  ghost function SumOver<K(!new)>(keys: set<K>, f: K -> real): real {
    if keys == {} then 0.0
    else
      var k :| k in keys;
      f(k) + SumOver(keys - {k}, f)
  }

  /** Any element can be taken first. */
  lemma {:induction false} SumPick<K(!new)>(keys: set<K>, f: K -> real, x: K)
    requires x in keys
    ensures SumOver(keys, f) == f(x) + SumOver(keys - {x}, f)
  {
    var k :| k in keys && SumOver(keys, f) == f(k) + SumOver(keys - {k}, f);
    if k != x {
      SumPick(keys - {k}, f, x);
      SumPick(keys - {x}, f, k);
      assert keys - {k} - {x} == keys - {x} - {k};
    }
  }

  lemma {:induction false} SumCongruent<K(!new)>(keys: set<K>, f: K -> real, g: K -> real)
    requires forall k | k in keys :: f(k) == g(k)
    ensures SumOver(keys, f) == SumOver(keys, g)
  {
    if keys != {} {
      var k :| k in keys;
      SumPick(keys, f, k);
      SumPick(keys, g, k);
      SumCongruent(keys - {k}, f, g);
    }
  }

  lemma {:induction false} SumMonotone<K(!new)>(keys: set<K>, f: K -> real, g: K -> real)
    requires forall k | k in keys :: f(k) <= g(k)
    ensures SumOver(keys, f) <= SumOver(keys, g)
  {
    if keys != {} {
      var k :| k in keys;
      SumPick(keys, f, k);
      SumPick(keys, g, k);
      SumMonotone(keys - {k}, f, g);
    }
  }

  function Plus<K>(f: K -> real, g: K -> real): K -> real {
    k => f(k) + g(k)
  }

  lemma {:induction false} SumPlus<K(!new)>(keys: set<K>, f: K -> real, g: K -> real)
    ensures SumOver(keys, Plus(f, g)) == SumOver(keys, f) + SumOver(keys, g)
  {
    if keys != {} {
      var k :| k in keys;
      SumPick(keys, Plus(f, g), k);
      SumPick(keys, f, k);
      SumPick(keys, g, k);
      SumPlus(keys - {k}, f, g);
    }
  }

  function Constant<K>(c: real): K -> real {
    k => c
  }

  lemma {:induction false} SumConstant<K(!new)>(keys: set<K>, c: real)
    ensures SumOver(keys, Constant(c)) == Copies(c, |keys|)
  {
    if keys != {} {
      var k :| k in keys;
      SumPick(keys, Constant(c), k);
      SumConstant(keys - {k}, c);
      assert |keys| == |keys - {k}| + 1;
    }
  }

  function Scaled<K>(c: real, f: K -> real): K -> real {
    k => Times(c, f(k))
  }

  lemma {:induction false} SumScaled<K(!new)>(keys: set<K>, c: real, f: K -> real)
    ensures SumOver(keys, Scaled(c, f)) == Times(c, SumOver(keys, f))
  {
    if keys != {} {
      var k :| k in keys;
      SumPick(keys, Scaled(c, f), k);
      SumPick(keys, f, k);
      SumScaled(keys - {k}, c, f);
      assert c * (f(k) + SumOver(keys - {k}, f)) == c * f(k) + c * SumOver(keys - {k}, f);
    }
  }

  ghost predicate Splits<K(!new)>(keys: set<K>, f: K -> real, c: real, g: K -> real, h: K -> real) {
    forall k | k in keys :: f(k) == Scaled(c, g)(k) + h(k)
  }

  lemma SumSplit<K(!new)>(keys: set<K>, f: K -> real, c: real, g: K -> real, h: K -> real)
    requires Splits(keys, f, c, g, h)
    ensures SumOver(keys, f) == Times(c, SumOver(keys, g)) + SumOver(keys, h)
  {
    SumCongruent(keys, f, Plus(Scaled(c, g), h));
    SumPlus(keys, Scaled(c, g), h);
    SumScaled(keys, c, g);
  }

  lemma {:induction false} SumUnion<K(!new)>(a: set<K>, b: set<K>, f: K -> real)
    requires a !! b
    ensures SumOver(a + b, f) == SumOver(a, f) + SumOver(b, f)
  {
    if b == {} {
      assert a + b == a;
    } else {
      var k :| k in b;
      SumPick(a + b, f, k);
      SumPick(b, f, k);
      assert a + b - {k} == a + (b - {k});
      SumUnion(a, b - {k}, f);
    }
  }

  // ----- how often each key occurs in a sequence -----

  /** The counters after one pass over `keys`. */
  function Histogram<K(==)>(keys: seq<K>): map<K, nat> {
    map k | k in keys :: multiset(keys)[k]
  }

  ghost function Distinct<K>(keys: seq<K>): set<K> {
    set k | k in keys
  }

  /** What a key weighs if each of its occurrences weighs `c`. */
  ghost function WeightOf<K>(keys: seq<K>, c: real): K -> real {
    k => Copies(c, multiset(keys)[k])
  }

  /** How often the most frequent key occurs. */
  function Peak<K(==)>(keys: seq<K>): nat {
    if keys == [] then 0
    else
      var rest := Peak(keys[..|keys| - 1]);
      var last := multiset(keys)[keys[|keys| - 1]];
      if rest < last then last else rest
  }

  lemma MultisetSnoc<K>(keys: seq<K>)
    requires keys != []
    ensures multiset(keys) == multiset(keys[..|keys| - 1]) + multiset{keys[|keys| - 1]}
  {
    assert keys == keys[..|keys| - 1] + [keys[|keys| - 1]];
  }

  lemma {:induction false} PeakIsMaximum<K>(keys: seq<K>)
    ensures forall k | k in keys :: 0 < multiset(keys)[k] <= Peak(keys)
    ensures keys != [] ==> exists k :: k in keys && multiset(keys)[k] == Peak(keys)
  {
    if keys != [] {
      var init, x := keys[..|keys| - 1], keys[|keys| - 1];
      PeakIsMaximum(init);
      MultisetSnoc(keys);
      if multiset(keys)[x] <= Peak(init) {
        var k :| k in init && multiset(init)[k] == Peak(init);
        assert k in multiset(keys);
      }
    }
  }

  ghost predicate NeverRepeats<K>(keys: seq<K>) {
    forall i, j | 0 <= i < j < |keys| :: keys[i] != keys[j]
  }

  lemma {:induction false} AllDistinct<K>(keys: seq<K>)
    requires NeverRepeats(keys)
    ensures |Distinct(keys)| == |keys|
  {
    if keys != [] {
      var init, x := keys[..|keys| - 1], keys[|keys| - 1];
      AllDistinct(init);
      assert x !in init;
      assert Distinct(keys) == Distinct(init) + {x};
    }
  }

  lemma {:induction false} OccursOnce<K>(keys: seq<K>, k: K)
    requires NeverRepeats(keys) && k in keys
    ensures multiset(keys)[k] == 1
  {
    var init, x := keys[..|keys| - 1], keys[|keys| - 1];
    MultisetSnoc(keys);
    assert x !in init;
    if k != x {
      OccursOnce(init, k);
    }
  }

  /** Keys that never repeat are all distinct, each the most frequent. */
  lemma NoRepeats<K(!new)>(keys: seq<K>)
    requires NeverRepeats(keys) && keys != []
    ensures |Distinct(keys)| == |keys| && Peak(keys) == 1
  {
    AllDistinct(keys);
    PeakIsMaximum(keys);
    var k :| k in keys && multiset(keys)[k] == Peak(keys);
    OccursOnce(keys, k);
  }

  /** No occurrence is lost or counted twice: the counters weigh as much as the keys. */
  lemma {:induction false} Conservation<K(!new)>(keys: seq<K>, all: set<K>, c: real)
    requires Distinct(keys) <= all
    ensures SumOver(all, WeightOf(keys, c)) == Copies(c, |keys|)
  {
    if keys == [] {
      SumCongruent(all, WeightOf(keys, c), Constant(0.0));
      SumConstant(all, 0.0);
      CopiesIsProduct(0.0, |all|);
    } else {
      var init, x := keys[..|keys| - 1], keys[|keys| - 1];
      MultisetSnoc(keys);
      assert x in Distinct(keys);
      SumPick(all, WeightOf(keys, c), x);
      SumPick(all, WeightOf(init, c), x);
      SumCongruent(all - {x}, WeightOf(keys, c), WeightOf(init, c));
      assert forall k | k in Distinct(init) :: k in Distinct(keys);
      Conservation(init, all, c);
    }
  }

  /** What a hash map's counters hold. */
  ghost function CounterOf<K>(counts: map<K, nat>): K -> real {
    k => if k in counts then counts[k] as real else 0.0
  }

  /** The sum of all counters of a hash map. */
  ghost function Total<K(!new)>(counts: map<K, nat>): real {
    SumOver(counts.Keys, CounterOf(counts))
  }

  /** The counters add up to the number of keys. */
  lemma CountsAddUp<K(!new)>(keys: seq<K>)
    ensures Total(Histogram(keys)) == |keys| as real
  {
    var counts := Histogram(keys);
    assert counts.Keys == Distinct(keys);
    forall k | k in counts.Keys
      ensures CounterOf(counts)(k) == WeightOf(keys, 1.0)(k)
    {
      CopiesIsProduct(1.0, multiset(keys)[k]);
    }
    SumCongruent(counts.Keys, CounterOf(counts), WeightOf(keys, 1.0));
    Conservation(keys, Distinct(keys), 1.0);
    CopiesIsProduct(1.0, |keys|);
  }

  /** The most frequent key takes everything exactly when it is the only one. */
  lemma PeakIsAll<K(!new)>(keys: seq<K>)
    requires keys != []
    ensures 0 < Peak(keys) <= |keys| && 0 < |Distinct(keys)|
    ensures Peak(keys) == |keys| <==> |Distinct(keys)| == 1
  {
    PeakIsMaximum(keys);
    Conservation(keys, Distinct(keys), 1.0);
    CopiesIsProduct(1.0, |keys|);
    var k :| k in keys && multiset(keys)[k] == Peak(keys);
    CopiesIsProduct(1.0, Peak(keys));
    var others := Distinct(keys) - {k};
    SumPick(Distinct(keys), WeightOf(keys, 1.0), k);
    assert |Distinct(keys)| == |others| + 1;
    OthersWeigh(keys, others);
  }

  lemma OthersWeigh<K(!new)>(keys: seq<K>, others: set<K>)
    requires others <= Distinct(keys)
    ensures |others| as real <= SumOver(others, WeightOf(keys, 1.0))
  {
    forall k | k in others
      ensures 1.0 <= WeightOf(keys, 1.0)(k)
    {
      CopiesIsProduct(1.0, multiset(keys)[k]);
    }
    SumConstant(others, 1.0);
    CopiesIsProduct(1.0, |others|);
    SumMonotone(others, Constant(1.0), WeightOf(keys, 1.0));
  }

  /** All keys together are at most `Peak` for each distinct one. */
  lemma PeakCovers<K(!new)>(keys: seq<K>)
    ensures |keys| as real <= Copies(Peak(keys) as real, |Distinct(keys)|)
  {
    PeakIsMaximum(keys);
    Conservation(keys, Distinct(keys), 1.0);
    CopiesIsProduct(1.0, |keys|);
    forall k | k in Distinct(keys)
      ensures WeightOf(keys, 1.0)(k) <= Peak(keys) as real
    {
      CopiesIsProduct(1.0, multiset(keys)[k]);
    }
    SumMonotone(Distinct(keys), WeightOf(keys, 1.0), Constant(Peak(keys) as real));
    SumConstant(Distinct(keys), Peak(keys) as real);
  }

  /** No key takes more than the share `x` of all keys, and some key takes exactly that. */
  ghost predicate LargestShare<K>(keys: seq<K>, x: real) {
    && (forall k | k in keys :: multiset(keys)[k] as real <= Copies(x, |keys|))
    && (exists k :: k in keys && multiset(keys)[k] as real == Copies(x, |keys|))
  }

  /** The most frequent key takes the largest share: at least an even one and at most everything. */
  lemma Dominance<K(!new)>(keys: seq<K>)
    requires keys != []
    ensures LargestShare(keys, Peak(keys) as real / |keys| as real)
    ensures 0 < |Distinct(keys)|
    ensures 1.0 / |Distinct(keys)| as real <= Peak(keys) as real / |keys| as real <= 1.0
  {
    PeakIsAll(keys);
    PeakIsMaximum(keys);
    PeakCovers(keys);
    QuotientOfCopies(Peak(keys) as real, |keys|);
    ShareOfCover(Peak(keys) as real, |keys| as real, |Distinct(keys)|);
    QuotientOrder(|keys| as real, Peak(keys) as real, |keys| as real);
  }

  // ----- projections and order -----

  function Project<R, K>(rs: seq<R>, f: R -> K): seq<K> {
    seq(|rs|, i requires 0 <= i < |rs| => f(rs[i]))
  }

  lemma ProjectConcat<R, K>(a: seq<R>, b: seq<R>, f: R -> K)
    ensures Project(a + b, f) == Project(a, f) + Project(b, f)
  {
  }

  /** Taking one element out takes one projected element out. */
  lemma ProjectWithout<R, K>(rs: seq<R>, i: nat, f: R -> K)
    requires i < |rs|
    ensures multiset(rs) == multiset(rs[..i] + rs[i + 1..]) + multiset{rs[i]}
    ensures multiset(Project(rs, f)) == multiset(Project(rs[..i] + rs[i + 1..], f)) + multiset{f(rs[i])}
  {
    var a, b := rs[..i], rs[i + 1..];
    assert rs == a + ([rs[i]] + b);
    assert Project([rs[i]], f) == [f(rs[i])];
    ProjectConcat(a, [rs[i]] + b, f);
    ProjectConcat([rs[i]], b, f);
    ProjectConcat(a, b, f);
  }

  /** Projecting commutes with forgetting the order. */
  lemma {:induction false} ProjectReordered<R, K>(a: seq<R>, b: seq<R>, f: R -> K)
    requires multiset(a) == multiset(b)
    ensures multiset(Project(a, f)) == multiset(Project(b, f))
  {
    if a == [] {
      assert |b| == |multiset(b)| == 0;
    } else {
      assert a[0] in multiset(b);
      var i :| 0 <= i < |b| && b[i] == a[0];
      ProjectWithout(a, 0, f);
      ProjectWithout(b, i, f);
      assert a[..0] + a[1..] == a[1..];
      assert multiset(a[1..]) == multiset(a) - multiset{a[0]} == multiset(b[..i] + b[i + 1..]);
      ProjectReordered(a[1..], b[..i] + b[i + 1..], f);
    }
  }

  /** The most frequent count does not depend on the order. */
  lemma PeakReordered<K>(a: seq<K>, b: seq<K>)
    requires multiset(a) == multiset(b)
    ensures Peak(a) == Peak(b)
  {
    PeakIsMaximum(a);
    PeakIsMaximum(b);
    assert forall k :: k in a <==> k in multiset(b);
    assert |a| == |multiset(a)| == |b|;
  }
}
