/** The three library functions the scores use, known only through their laws. */
module Maths {
  datatype Library = Library(exp: real -> real, log2: real -> real, sqrt: real -> real)

  ghost predicate ExpLaws(exp: real -> real) {
    && exp(0.0) == 1.0
    && (forall x, y {:trigger exp(x), exp(y)} :: x < y ==> exp(x) < exp(y))
    && (forall x, y {:trigger exp(x), exp(y)} :: x + y == 0.0 ==> exp(x) * exp(y) == 1.0)
    && (forall x {:trigger exp(x)} :: 1.0 + x <= exp(x))
  }

  ghost predicate Log2Laws(log2: real -> real) {
    && log2(2.0) == 1.0
    && (forall x, y {:trigger log2(x), log2(y)} :: 0.0 < x < y ==> log2(x) < log2(y))
    && (forall x, y, z {:trigger Product(x, y, z)} ::
          0.0 < x && 0.0 < y && Product(x, y, z) ==> log2(z) == log2(x) + log2(y))
    && (exists c {:trigger Tangent(log2, c)} :: 0.0 < c && Tangent(log2, c))
  }

  ghost predicate Product(x: real, y: real, z: real) {
    z == x * y
  }

  /** The logarithm lies below a line through (1, 0). */
  ghost predicate Tangent(log2: real -> real, c: real) {
    forall x {:trigger log2(x)} :: 0.0 < x ==> log2(x) <= c * (x - 1.0)
  }

  ghost predicate SqrtLaw(sqrt: real -> real) {
    forall x {:trigger sqrt(x)} :: 0.0 <= x ==> 0.0 <= sqrt(x) && sqrt(x) * sqrt(x) == x
  }

  ghost predicate Lawful(lib: Library) {
    ExpLaws(lib.exp) && Log2Laws(lib.log2) && SqrtLaw(lib.sqrt)
  }

  lemma ExpPositive(exp: real -> real, x: real)
    requires ExpLaws(exp)
    ensures 0.0 < exp(x)
  {
    if x < 0.0 {
      assert exp(x) * exp(-x) == 1.0;
      assert 0.0 < exp(-x);
    }
  }

  lemma Log2One(log2: real -> real)
    requires Log2Laws(log2)
    ensures log2(1.0) == 0.0
  {
    assert Product(1.0, 1.0, 1.0);
  }

  function Pow2(k: nat): nat {
    if k == 0 then 1 else 2 * Pow2(k - 1)
  }

  lemma {:induction false} Log2OfPow2(log2: real -> real, k: nat)
    requires Log2Laws(log2)
    ensures 0 < Pow2(k) && log2(Pow2(k) as real) == k as real
  {
    if k == 0 {
      Log2One(log2);
    } else {
      Log2OfPow2(log2, k - 1);
      assert Product(2.0, Pow2(k - 1) as real, Pow2(k) as real);
    }
  }

  lemma WordRange()
    ensures Pow2(16) == 65536
  {
    assert Pow2(4) == 16;
    assert Pow2(8) == 256;
    assert Pow2(12) == 4096;
  }

  lemma {:induction false} Pow2Monotone(j: nat, k: nat)
    requires j <= k
    ensures Pow2(j) <= Pow2(k)
  {
    if j < k {
      Pow2Monotone(j, k - 1);
    }
  }
}
