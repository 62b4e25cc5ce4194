/** Facts of integer arithmetic (and of ratios of integers read as reals)
    that the geometry proofs use, one small identity or inequality at a
    time. */
module Arithmetic {

  lemma SumOfSquares(a: int, b: int)
    ensures a * a + b * b >= 0
    ensures a * a + b * b == 0 <==> a == 0 && b == 0
  {
    if a != 0 { assert a * a > 0; }
    if b != 0 { assert b * b > 0; }
  }

  /** The two nonlinear facts below are stated on their own, so that
      QuadraticLeast uses them without re-deriving them in its large
      context of products. */
  lemma SquareNonNeg(a: int)
    ensures a * a >= 0
  {
  }

  lemma Commute(x: int, y: int)
    ensures x * y == y * x
  {
  }

  lemma PositiveSquare(a: int)
    requires a > 0
    ensures a * a > 0
  {
  }

  /** Facts about n / m for integers n and m > 0, read as reals. */
  lemma RatioFacts(n: int, m: int)
    requires m > 0
    ensures n >= 0 ==> n as real / m as real >= 0.0
    ensures n as real / m as real == 0.0 <==> n == 0
  {
  }

  lemma RatioMonotone(n1: int, n2: int, m: int)
    requires m > 0
    ensures n1 as real / m as real <= n2 as real / m as real <==> n1 <= n2
  {
  }

  /** n1 / m1 <= n2 / m2 follows from the cross-multiplied inequality. */
  lemma RatioCompare(n1: int, m1: int, n2: int, m2: int)
    requires m1 > 0 && m2 > 0
    requires n1 * m2 <= n2 * m1
    ensures n1 as real / m1 as real <= n2 as real / m2 as real
  {
    var r1, r2 := n1 as real / m1 as real, n2 as real / m2 as real;
    assert r1 * m1 as real == n1 as real;
    assert r2 * m2 as real == n2 as real;
    assert (n1 * m2) as real == n1 as real * m2 as real;
    assert (n2 * m1) as real == n2 as real * m1 as real;
  }

  lemma ExpandComponent(a: int, c: int, k: int, den: int)
    ensures (den * a - k * c) * (den * a - k * c)
         == den * den * (a * a) - 2 * k * den * (a * c) + k * k * (c * c)
  {
  }

  /** The two components of den (p - q), expanded together. */
  lemma ExpandPlane(a: int, b: int, c: int, d: int, k: int, den: int)
    ensures (den * a - k * c) * (den * a - k * c) + (den * b - k * d) * (den * b - k * d)
         == den * den * (a * a + b * b) - 2 * k * den * (a * c + b * d) + k * k * (c * c + d * d)
  {
    ExpandComponent(a, c, k, den);
    ExpandComponent(b, d, k, den);
    var x, y, z := den * den, 2 * k * den, k * k;
    assert x * (a * a + b * b) == x * (a * a) + x * (b * b);
    assert y * (a * c + b * d) == y * (a * c) + y * (b * d);
    assert z * (c * c + d * d) == z * (c * c) + z * (d * d);
  }

  lemma NonNegProduct(a: int, b: int)
    requires a >= 0 && b >= 0
    ensures a * b >= 0
  {
  }

  lemma Distribute3(a: int, x: int, y: int, z: int)
    ensures a * (x - y + z) == a * x - a * y + a * z
  {
  }

  lemma Distribute4(a: int, x: int, y: int, z: int, u: int)
    ensures a * (x - y - z + u) == a * x - a * y - a * z + a * u
  {
  }

  lemma SquareDifference(x: int, y: int)
    ensures (x - y) * (x - y) == x * x - 2 * (x * y) + y * y
  {
  }

  lemma Rearrange1(L: int, j: int)
    ensures L * ((L * j) * (L * j)) == (L * L) * (j * j * L)
  {
  }

  lemma Rearrange2(L: int, j: int, m: int, D: int)
    ensures L * (2 * ((L * j) * (m * D))) == (L * L) * (2 * j * m * D)
  {
  }

  lemma Rearrange3(L: int, m: int, D: int)
    ensures L * ((m * D) * (m * D)) == (m * m) * (D * D * L)
  {
  }

  lemma Rearrange4(L: int, m: int, D: int)
    ensures (m * m) * (2 * D * L * D) == 2 * ((m * m) * (D * D * L))
  {
  }

  lemma Rearrange5(L: int, m: int, P: int)
    ensures (L * L) * ((m * m) * P) == (m * m) * ((L * L) * P)
  {
  }

  lemma Rearrange6(L: int, m: int, D: int)
    ensures (m * m) * (2 * L * L * D) == (L * L) * (2 * m * m * D)
    ensures (m * m) * (L * L * L) == (L * L) * (m * m * L)
  {
  }

  lemma Rearrange7(L: int, m: int, j: int, D: int)
    ensures (m - j) * (2 * m * D - L * (m + j))
         == 2 * m * m * D - 2 * j * m * D - m * m * L + j * j * L
  {
  }

  /** The quadratic comparison behind SegmentDistance2IsLeast, for the
      case where the clamped parameter is D / L itself. */
  lemma LeastInside(P: int, D: int, L: int, j: int, m: int)
    ensures L * L * (m * m * P - 2 * j * m * D + j * j * L)
         - m * m * (L * L * P - 2 * D * L * D + D * D * L)
         == L * ((L * j - m * D) * (L * j - m * D))
  {
    Distribute3(L * L, m * m * P, 2 * j * m * D, j * j * L);
    Distribute3(m * m, L * L * P, 2 * D * L * D, D * D * L);
    SquareDifference(L * j, m * D);
    Distribute3(L, (L * j) * (L * j), 2 * ((L * j) * (m * D)), (m * D) * (m * D));
    Rearrange1(L, j);
    Rearrange2(L, j, m, D);
    Rearrange3(L, m, D);
    Rearrange4(L, m, D);
    Rearrange5(L, m, P);
  }

  lemma LeastBelow(P: int, D: int, L: int, j: int, m: int)
    requires L > 0 && m > 0 && 0 <= j && D < 0
    ensures L * L * (m * m * P - 2 * j * m * D + j * j * L) >= m * m * (L * L * P)
  {
    NonNegProduct(j, m);
    NonNegProduct(j * m, -D);
    NonNegProduct(j, j);
    NonNegProduct(j * j, L);
    NonNegProduct(L * L, -2 * j * m * D + j * j * L);
    Distribute3(L * L, m * m * P, 2 * j * m * D, j * j * L);
    Rearrange5(L, m, P);
  }

  lemma LeastAboveIdentity(P: int, D: int, L: int, j: int, m: int)
    ensures L * L * (m * m * P - 2 * j * m * D + j * j * L)
         - m * m * (L * L * P - 2 * L * L * D + L * L * L)
         == L * L * ((m - j) * (2 * m * D - L * (m + j)))
  {
    Distribute3(L * L, m * m * P, 2 * j * m * D, j * j * L);
    Distribute3(m * m, L * L * P, 2 * L * L * D, L * L * L);
    Rearrange5(L, m, P);
    Rearrange6(L, m, D);
    Rearrange7(L, m, j, D);
    Distribute4(L * L, 2 * m * m * D, 2 * j * m * D, m * m * L, j * j * L);
  }

  lemma LeastAbove(P: int, D: int, L: int, j: int, m: int)
    requires L > 0 && 0 <= j <= m && D > L
    ensures L * L * (m * m * P - 2 * j * m * D + j * j * L)
         >= m * m * (L * L * P - 2 * L * L * D + L * L * L)
  {
    var F := 2 * m * D - L * (m + j);
    assert F >= 0 by {
      assert m * (D - L) == m * D - m * L;
      assert L * (m - j) == L * m - L * j;
      assert L * (m + j) == L * m + L * j;
      assert F == 2 * (m * (D - L)) + L * (m - j);
      NonNegProduct(m, D - L);
      NonNegProduct(L, m - j);
    }
    var E := (m - j) * F;
    assert L * L * E >= 0 by {
      NonNegProduct(m - j, F);
      NonNegProduct(L * L, E);
    }
    LeastAboveIdentity(P, D, L, j, m);
  }

  /** With k the clamped parameter numerator over den L, the quadratic at
      k / L is at most the quadratic at any j / m in [0, 1]. */
  lemma QuadraticLeast(P: int, D: int, L: int, k: int, j: int, m: int)
    requires L > 0 && m > 0 && 0 <= j <= m
    requires k == (if D < 0 then 0 else if D > L then L else D)
    ensures (L * L * P - 2 * k * L * D + k * k * L) * (m * m)
         <= (m * m * P - 2 * j * m * D + j * j * L) * (L * L)
  {
    var Qk := L * L * P - 2 * k * L * D + k * k * L;
    var Qj := m * m * P - 2 * j * m * D + j * j * L;
    Commute(Qk, m * m);
    Commute(Qj, L * L);
    if D < 0 {
      assert 2 * k * L * D == 0 && k * k * L == 0 by { assert k == 0; }
      assert Qk == L * L * P;
      LeastBelow(P, D, L, j, m);
    } else if D > L {
      LeastAbove(P, D, L, j, m);
    } else {
      LeastInside(P, D, L, j, m);
      SquareNonNeg(L * j - m * D);
      NonNegProduct(L, (L * j - m * D) * (L * j - m * D));
    }
  }

  lemma BehindStartQuadratic(P: int, D: int, L: int, k: int)
    requires L > 0 && D < 0 && 0 < k <= L
    ensures L * L * P - 2 * k * L * D + k * k * L > L * L * P - 2 * 0 * L * D + 0 * 0 * L
  {
    assert k * L > 0;
    assert (k * L) * (-D) > 0;
    assert k * k > 0;
    assert (k * k) * L > 0;
  }

  lemma ShiftedProduct(x: int, y: int, L: int)
    ensures x * L - y * L == L * (x - y)
  {
  }
}
