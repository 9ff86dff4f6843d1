/** The closed-form cut arithmetic of the proximal outer approximation:
    tangent lines of y = x^2 (continuous variables), secant lines between
    consecutive integers (discrete variables), and the rounding that maps a
    solver value onto an integer breakpoint. */
module CutMath {

  /** A linear cut y >= slope * x + intercept under the quadratic y = x^2. */
  datatype Cut = Cut(slope: real, intercept: real)

  /** Height of the cut's line at t. */
  function LineAt(c: Cut, t: real): real
  {
    c.slope * t + c.intercept
  }

  /** The cut lies on or below the parabola at t. */
  predicate Supports(c: Cut, t: real)
  {
    LineAt(c, t) <= t * t
  }

  /** The cut is valid at one integer point. */
  predicate SupportsAtInteger(c: Cut, t: int)
  {
    Supports(c, t as real)
  }

  /** The cut never cuts off a point of y = x^2 (valid for a continuous variable). */
  ghost predicate GlobalUnderestimator(c: Cut)
  {
    forall t: real :: Supports(c, t)
  }

  /** The cut never cuts off a point of y = x^2 with integer x (valid for a discrete variable). */
  ghost predicate IntegerUnderestimator(c: Cut)
  {
    forall t: int :: SupportsAtInteger(c, t)
  }

  // ---------------------------------------------------------------------
  // Continuous variables: tangent cuts (ProxApproxManagerContinuous.add_cut)
  // ---------------------------------------------------------------------

  /** The first-order Taylor cut of x^2 at a: it passes through (a, a^2)
      with the derivative 2a as its slope. */
  function TangentAt(a: real): (c: Cut)
    ensures LineAt(c, a) == a * a
    ensures c.slope == 2.0 * a
  {
    Cut(2.0 * a, -(a * a))
  }

  /** A tangent cut is below the parabola everywhere: the gap is (t - a)^2. */
  lemma TangentSupports(a: real, t: real)
    ensures Supports(TangentAt(a), t)
  {
    assert t * t - LineAt(TangentAt(a), t) == (t - a) * (t - a);
    SquareNonNegative(t, a);
  }

  lemma SquareNonNegative(t: real, a: real)
    ensures (t - a) * (t - a) >= 0.0
  {
  }

  lemma TangentIsGlobalUnderestimator(a: real)
    ensures GlobalUnderestimator(TangentAt(a))
  {
    forall t: real
      ensures Supports(TangentAt(a), t)
    {
      TangentSupports(a, t);
    }
  }

  // ---------------------------------------------------------------------
  // Discrete variables: secant cuts (_compute_mb)
  // ---------------------------------------------------------------------

  /** Slope and intercept of the line through (n, n^2) and (n+1, (n+1)^2). */
  function ComputeMB(n: int): (mb: (int, int))
    ensures mb.0 * n + mb.1 == n * n
    ensures mb.0 * (n + 1) + mb.1 == (n + 1) * (n + 1)
  {
    (2 * n + 1, -n * (n + 1))
  }

  /** Over the integers the secant never exceeds t^2, and meets it exactly
      at the two endpoints n and n+1. */
  lemma SecantSupportsIntegers(n: int, t: int)
    ensures ComputeMB(n).0 * t + ComputeMB(n).1 <= t * t
    ensures ComputeMB(n).0 * t + ComputeMB(n).1 == t * t <==> t == n || t == n + 1
  {
    var (m, b) := ComputeMB(n);
    assert t * t - (m * t + b) == (t - n) * (t - n - 1);
    if t < n {
      assert (n - t) * (n + 1 - t) > 0 by { MulPositive(n - t, n + 1 - t); }
    } else if t > n + 1 {
      assert (t - n) * (t - n - 1) > 0 by { MulPositive(t - n, t - n - 1); }
    }
  }

  lemma MulPositive(x: int, y: int)
    requires x > 0 && y > 0
    ensures x * y > 0
  {
  }

  /** The secant of interval (n, n+1) as a stored cut. */
  function SecantCut(n: int): (c: Cut)
    ensures LineAt(c, n as real) == (n * n) as real
    ensures LineAt(c, (n + 1) as real) == ((n + 1) * (n + 1)) as real
  {
    var (m, b) := ComputeMB(n);
    Cut(m as real, b as real)
  }

  lemma SecantIsIntegerUnderestimator(n: int)
    ensures IntegerUnderestimator(SecantCut(n))
  {
    forall t: int
      ensures SupportsAtInteger(SecantCut(n), t)
    {
      SecantSupportsIntegers(n, t);
      var (m, b) := ComputeMB(n);
      assert LineAt(SecantCut(n), t as real) == (m * t + b) as real;
    }
  }

  // ---------------------------------------------------------------------
  // Rounding of solver values onto integers (int(round(val)))
  // ---------------------------------------------------------------------

  /** Round to the nearest integer, ties to the even neighbour, as the
      built-in round does on a number that is exactly half-way. */
  function RoundHalfEven(x: real): (n: int)
    ensures x - 0.5 <= n as real <= x + 0.5
    ensures (n as real - x == 0.5 || x - n as real == 0.5) ==> n % 2 == 0
  {
    var f := x.Floor;
    var frac := x - f as real;
    if frac < 0.5 then f
    else if frac > 0.5 then f + 1
    else if f % 2 == 0 then f
    else f + 1
  }

  /** Rounding never reverses the order of two values. */
  lemma RoundMonotone(x: real, y: real)
    requires x <= y
    ensures RoundHalfEven(x) <= RoundHalfEven(y)
  {
    if x < y {
      var n, m := RoundHalfEven(x), RoundHalfEven(y);
      assert (n - 1) as real <= x - 0.5 < y - 0.5 <= m as real;
    }
  }

  /** An integer strictly closer than one half to x is the rounded value. */
  lemma RoundNearest(x: real, k: int)
    requires x - 0.5 < k as real < x + 0.5
    ensures RoundHalfEven(x) == k
  {
  }
}
