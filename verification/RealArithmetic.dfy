/** Arithmetic over the reals, in steps small enough for the solver. */
module RealArithmetic {
  lemma ScaleOrder(p: real, a: real, b: real)
    requires 0.0 <= p && a <= b
    ensures p * a <= p * b
  {
  }

  lemma ScaleStrict(c: real, x: real, y: real)
    requires 0.0 < c && x < y
    ensures c * x < c * y
  {
    assert 0.0 < c * (y - x);
  }

  /** Quotients by the same positive number compare as their numerators do. */
  lemma QuotientOrder(a: real, b: real, c: real)
    requires 0.0 < c
    ensures a < b <==> a / c < b / c
    ensures c / c == 1.0 && 0.0 / c == 0.0
  {
    var x, y := a / c, b / c;
    assert c * x == a && c * y == b;
    if x < y {
      ScaleStrict(c, x, y);
    } else if y < x {
      ScaleStrict(c, y, x);
    }
  }

  lemma Regroup(m: real, n: real, t: real)
    requires n != 0.0
    ensures m * (t / n) == m / n * t
  {
    var x, y := t / n, m / n;
    assert x * n == t && y * n == m;
    assert m * x == (y * n) * x == y * (x * n);
  }

  lemma Cancel(x: real, n: real)
    requires n != 0.0
    ensures n * (x / n) == x
  {
  }

  /** `n` copies of `c`, added up. */
  function Copies(c: real, n: nat): real {
    if n == 0 then 0.0 else Copies(c, n - 1) + c
  }

  lemma {:induction false} CopiesIsProduct(c: real, n: nat)
    ensures Copies(c, n) == n as real * c
  {
    if n > 0 {
      CopiesIsProduct(c, n - 1);
      assert n as real * c == (n - 1) as real * c + c;
    }
  }

  lemma {:induction false} CopiesOrder(x: real, y: real, n: nat)
    requires x <= y
    ensures Copies(x, n) <= Copies(y, n)
  {
    if n > 0 {
      CopiesOrder(x, y, n - 1);
    }
  }

  lemma {:induction false} CopiesPlus(x: real, y: real, n: nat)
    ensures Copies(x + y, n) == Copies(x, n) + Copies(y, n)
  {
    if n > 0 {
      CopiesPlus(x, y, n - 1);
    }
  }

  lemma {:induction false} CopiesStrict(x: real, y: real, n: nat)
    requires 0 < n && x < y
    ensures Copies(x, n) < Copies(y, n)
  {
    if n > 1 {
      CopiesStrict(x, y, n - 1);
    }
  }

  lemma {:induction false} CopiesScale(c: real, x: real, n: nat)
    ensures c * Copies(x, n) == Copies(c * x, n)
  {
    if n > 0 {
      CopiesScale(c, x, n - 1);
      assert c * (Copies(x, n - 1) + x) == c * Copies(x, n - 1) + c * x;
    }
  }

  /** A quotient is bounded by y if the numerator is bounded by n copies of y. */
  lemma DivideCopies(x: real, y: real, n: nat)
    requires 0 < n && x <= Copies(y, n)
    ensures x / n as real <= y
  {
    var q := x / n as real;
    CopiesIsProduct(y, n);
    assert n as real * q == x;
    if y < q {
      ScaleStrict(n as real, y, q);
    }
  }

  lemma QuotientOfCopies(x: real, n: nat)
    requires 0 < n
    ensures Copies(x / n as real, n) == x
  {
    CopiesIsProduct(x / n as real, n);
    Cancel(x, n as real);
  }

  /** If m for each of d covers n, then m takes at least a d-th share of n. */
  lemma ShareOfCover(m: real, n: real, d: nat)
    requires 0 < d && 0.0 < n && n <= Copies(m, d)
    ensures 1.0 / d as real <= m / n
  {
    DivideCopies(n, m, d);
    ShareTurn(m, n, d as real);
  }

  lemma ShareTurn(m: real, n: real, d: real)
    requires 0.0 < d && 0.0 < n && n / d <= m
    ensures 1.0 / d <= m / n
  {
    var p, q := m / n, 1.0 / d;
    Regroup(n, d, 1.0);
    assert n * p == m;
    if p < q {
      ScaleStrict(n, p, q);
    }
  }

  /** A product that equal factors make equal without any arithmetic. */
  function Times(x: real, y: real): real {
    x * y
  }

  function Square(x: real): real {
    x * x
  }

  lemma SquareNonNegative(x: real)
    ensures 0.0 <= Square(x)
  {
  }

  lemma SquareOfSum(s: real, x: real)
    requires 0.0 <= s && 0.0 <= x
    ensures Square(s) + Square(x) <= Square(s + x) && 0.0 <= Square(x)
  {
    assert (s + x) * (s + x) == s * s + 2.0 * (s * x) + x * x;
    assert 0.0 <= s * x;
  }

  lemma SquareOfDifference(x: real, c: real)
    ensures Square(x - c) == Square(x) - 2.0 * (c * x) + Square(c)
    ensures 2.0 * (c * x) <= Square(x) + Square(c)
  {
    assert (x - c) * (x - c) == x * x - 2.0 * (c * x) + c * c;
    SquareNonNegative(x - c);
  }

  /** The square of n copies of x is n copies of n copies of its square. */
  lemma SquareOfCopies(x: real, n: nat)
    requires 0 < n
    ensures Square(Copies(x, n)) == Copies(Copies(Square(x), n - 1), n) + Copies(Square(x), n)
  {
    CopiesIsProduct(x, n);
    CopiesIsProduct(Square(x), n - 1);
    CopiesIsProduct(Square(x), n);
    CopiesIsProduct(Copies(Square(x), n - 1), n);
    ProductOfSquares(n as real, x);
  }

  lemma ProductOfSquares(n: real, x: real)
    ensures (n * x) * (n * x) == n * ((n - 1.0) * (x * x)) + n * (x * x)
  {
    var q := x * x;
    assert (n * x) * (n * x) == n * (n * q);
    assert n * ((n - 1.0) * q) == n * (n * q - q) == n * (n * q) - n * q;
  }

  lemma BandSquare(x: real, width: real)
    requires 0.0 <= x <= width
    ensures Square(x - width / 2.0) <= Square(width) / 4.0
  {
    assert 0.0 <= x * (width - x);
    assert (x - width / 2.0) * (x - width / 2.0) == width * width / 4.0 - x * (width - x);
  }
}
