/** The open refiners `newton_raphson`, `secant` and `modified_secant` of
    utils.py. Each pass extrapolates a new estimate from one or two points,
    returns it if it passes the threshold test, and otherwise stops once the
    iteration cap is exceeded. No bracket is kept. */
module OpenMethods {
  import opened Roots
  import Bracketing

  // ----------------------------------------------------------- Newton-Raphson

  /** The Newton step `x - f(x)/f_der(x)`: where the tangent at x meets zero. */
  function NewtonStep(f: real -> real, fDer: real -> real, x: real): (y: real)
    requires fDer(x) != 0.0
    ensures f(x) + fDer(x) * (y - x) == 0.0
  {
    x - f(x) / fDer(x)
  }

  /** The outcome of `newton_raphson` from estimate x with `passes` loop
      passes still allowed. A root it returns passes the threshold test. */
  function NewtonFrom(f: real -> real, fDer: real -> real, x: real, threshold: real, passes: nat): (r: Outcome)
    ensures r.Found? ==> WithinThreshold(f, r.root, threshold)
    decreases passes
  {
    if passes == 0 then NotFound
    else if fDer(x) == 0.0 then ZeroDivision
    else
      var y := NewtonStep(f, fDer, x);
      if WithinThreshold(f, y, threshold) then Found(y)
      else NewtonFrom(f, fDer, y, threshold, passes - 1)
  }

  /** `newton_raphson`. The ghost `passes` counts executions of the loop body. */
  method NewtonRaphson(f: real -> real, fDer: real -> real, x0: real, threshold: real, maxIterations: int)
      returns (r: Outcome, ghost passes: nat)
    ensures r == NewtonFrom(f, fDer, x0, threshold, PassLimit(maxIterations))
    ensures r.Found? ==> WithinThreshold(f, r.root, threshold)
    ensures 1 <= passes <= PassLimit(maxIterations)
    ensures r == NotFound ==> passes == PassLimit(maxIterations)
    ensures fDer(x0) == 0.0 ==> r == ZeroDivision && passes == 1
  {
    ghost var limit := PassLimit(maxIterations);
    var iteration := 0;
    var x := x0;
    while true
      invariant 0 <= iteration < limit
      invariant iteration == 0 ==> x == x0
      invariant iteration > 0 ==> fDer(x0) != 0.0
      invariant NewtonFrom(f, fDer, x, threshold, limit - iteration) == NewtonFrom(f, fDer, x0, threshold, limit)
      decreases limit - iteration
    {
      iteration := iteration + 1;
      if fDer(x) == 0.0 {
        return ZeroDivision, iteration;
      }
      x := x - f(x) / fDer(x);
      if -threshold < f(x) < threshold {
        return Found(x), iteration;
      }
      if iteration > maxIterations {
        break;
      }
    }
    return NotFound, iteration;
  }

  /** A derivative that vanishes nowhere keeps every Newton step defined. */
  lemma {:induction false} NewtonNeverDividesByZero(f: real -> real, fDer: real -> real, x: real, threshold: real, passes: nat)
    requires forall y :: fDer(y) != 0.0
    ensures NewtonFrom(f, fDer, x, threshold, passes) != ZeroDivision
    decreases passes
  {
    if passes > 0 {
      NewtonNeverDividesByZero(f, fDer, NewtonStep(f, fDer, x), threshold, passes - 1);
    }
  }

  /** Started on an exact root with a non-zero slope and a positive
      threshold, Newton-Raphson stays put and returns that root. */
  lemma NewtonAtRoot(f: real -> real, fDer: real -> real, x: real, threshold: real, passes: nat)
    requires f(x) == 0.0 && fDer(x) != 0.0 && threshold > 0.0 && passes > 0
    ensures NewtonFrom(f, fDer, x, threshold, passes) == Found(x)
  {
  }

  // ------------------------------------------------------------------- secant

  /** The secant estimate `x1 - f(x1)*(x1 - x0)/(f(x1) - f(x0))`: where the
      chord through (x0, f(x0)) and (x1, f(x1)) meets zero. */
  function SecantStep(f: real -> real, x0: real, x1: real): (x: real)
    requires f(x1) != f(x0)
    ensures f(x0) * (x1 - x) + f(x1) * (x - x0) == 0.0
  {
    var d := f(x1) - f(x0);
    var x := x1 - f(x1) * (x1 - x0) / d;
    assert x1 - x == f(x1) * (x1 - x0) / d;
    assert x - x0 == -(f(x0) * (x1 - x0) / d) by {
      assert (x1 - x0) * d / d == x1 - x0;
    }
    x
  }

  /** The outcome of `secant` from the points x0, x1 with `passes` loop
      passes still allowed. A root it returns passes the threshold test. */
  function SecantFrom(f: real -> real, x0: real, x1: real, threshold: real, passes: nat): (r: Outcome)
    ensures r.Found? ==> WithinThreshold(f, r.root, threshold)
    decreases passes
  {
    if passes == 0 then NotFound
    else if f(x1) == f(x0) then ZeroDivision
    else
      var x := SecantStep(f, x0, x1);
      if WithinThreshold(f, x, threshold) then Found(x)
      else SecantFrom(f, x1, x, threshold, passes - 1)
  }

  /** `secant`: between passes the two points shift, `(x0, x1) := (x1, x)`.
      The ghost `passes` counts executions of the loop body. */
  method Secant(f: real -> real, x0: real, x1: real, threshold: real, maxIterations: int)
      returns (r: Outcome, ghost passes: nat)
    ensures r == SecantFrom(f, x0, x1, threshold, PassLimit(maxIterations))
    ensures r.Found? ==> WithinThreshold(f, r.root, threshold)
    ensures 1 <= passes <= PassLimit(maxIterations)
    ensures r == NotFound ==> passes == PassLimit(maxIterations)
    ensures f(x1) == f(x0) ==> r == ZeroDivision && passes == 1
  {
    ghost var limit := PassLimit(maxIterations);
    var iteration := 0;
    var p0, p1 := x0, x1;
    while true
      invariant 0 <= iteration < limit
      invariant iteration == 0 ==> p0 == x0 && p1 == x1
      invariant iteration > 0 ==> f(x1) != f(x0)
      invariant SecantFrom(f, p0, p1, threshold, limit - iteration) == SecantFrom(f, x0, x1, threshold, limit)
      decreases limit - iteration
    {
      iteration := iteration + 1;
      if f(p1) - f(p0) == 0.0 {
        return ZeroDivision, iteration;
      }
      var x := p1 - f(p1) * (p1 - p0) / (f(p1) - f(p0));
      if -threshold < f(x) < threshold {
        return Found(x), iteration;
      }
      if iteration > maxIterations {
        break;
      }
      p0, p1 := p1, x;
    }
    return NotFound, iteration;
  }

  /** For an injective f, distinct starting points and a positive threshold,
      the secant denominator never vanishes: a new point equal to the last
      one would be an exact root, which passes the test. */
  lemma {:induction false} SecantNeverDividesByZero(f: real -> real, x0: real, x1: real, threshold: real, passes: nat)
    requires forall a, b :: a != b ==> f(a) != f(b)
    requires x0 != x1 && threshold > 0.0
    ensures SecantFrom(f, x0, x1, threshold, passes) != ZeroDivision
    decreases passes
  {
    if passes > 0 {
      assert f(x1) != f(x0);
      var x := SecantStep(f, x0, x1);
      if !WithinThreshold(f, x, threshold) {
        MissIsNonzero(f, x, threshold);
        SecantStepFixedOnlyAtRoot(f, x0, x1);
        SecantNeverDividesByZero(f, x1, x, threshold, passes - 1);
      }
    }
  }

  /** From distinct points the secant estimate repeats the last point exactly when that point is a root. */
  lemma SecantStepFixedOnlyAtRoot(f: real -> real, x0: real, x1: real)
    requires f(x1) != f(x0) && x0 != x1
    ensures SecantStep(f, x0, x1) == x1 <==> f(x1) == 0.0
  {
  }

  /** The first secant estimate does not depend on the order of the two points. */
  lemma SecantStepSymmetric(f: real -> real, x0: real, x1: real)
    requires f(x1) != f(x0)
    ensures SecantStep(f, x0, x1) == SecantStep(f, x1, x0)
  {
  }

  /** False position's interpolated point is the secant estimate taken on the bracket's ends. */
  lemma InterpolateIsSecantStep(f: real -> real, lb: real, ub: real)
    requires f(lb) != f(ub)
    ensures Bracketing.Interpolate(f, lb, ub) == SecantStep(f, lb, ub)
  {
  }

  // ---------------------------------------------------------- modified secant

  /** The modified secant estimate `x0 - f(x0)*dx/(f(x0+dx) - f(x0))`: where
      the chord through (x0, f(x0)) and (x0+dx, f(x0+dx)) meets zero. */
  function ModifiedSecantStep(f: real -> real, x0: real, dx: real): (x: real)
    requires f(x0 + dx) != f(x0)
    ensures f(x0) * (x0 + dx - x) + f(x0 + dx) * (x - x0) == 0.0
  {
    var d := f(x0 + dx) - f(x0);
    var x := x0 - f(x0) * dx / d;
    assert x - x0 == -(f(x0) * dx / d);
    assert x0 + dx - x == f(x0 + dx) * dx / d by {
      assert dx * d / d == dx;
    }
    x
  }

  /** The modified secant estimate is the secant estimate from x0 and x0 + dx. */
  lemma ModifiedSecantStepIsSecantStep(f: real -> real, x0: real, dx: real)
    requires f(x0 + dx) != f(x0)
    ensures ModifiedSecantStep(f, x0, dx) == SecantStep(f, x0, x0 + dx)
  {
  }

  /** The outcome of one modified secant pass from x0: a division error
      exactly when f(x0 + dx) == f(x0); otherwise the secant estimate from
      x0 and x0 + dx, if it passes the threshold test. */
  function ModifiedSecantOutcome(f: real -> real, x0: real, dx: real, threshold: real): (r: Outcome)
    ensures r == ZeroDivision <==> f(x0 + dx) == f(x0)
    ensures r.Found? ==> r.root == SecantStep(f, x0, x0 + dx) && WithinThreshold(f, r.root, threshold)
    ensures r == NotFound ==> !WithinThreshold(f, SecantStep(f, x0, x0 + dx), threshold)
  {
    if f(x0 + dx) == f(x0) then ZeroDivision
    else
      ModifiedSecantStepIsSecantStep(f, x0, dx);
      var x := ModifiedSecantStep(f, x0, dx);
      if WithinThreshold(f, x, threshold) then Found(x) else NotFound
  }

  /** `modified_secant` as written: x0 and dx are never reassigned, so every
      pass recomputes the first estimate. The outcome is that of one pass
      whatever maxIterations is; only the number of passes depends on it. */
  method ModifiedSecant(f: real -> real, x0: real, dx: real, threshold: real, maxIterations: int)
      returns (r: Outcome, ghost passes: nat)
    ensures r == ModifiedSecantOutcome(f, x0, dx, threshold)
    ensures r.Found? ==> WithinThreshold(f, r.root, threshold)
    ensures passes == if r == NotFound then PassLimit(maxIterations) else 1
  {
    ghost var limit := PassLimit(maxIterations);
    var iteration := 0;
    while true
      invariant 0 <= iteration < limit
      invariant iteration > 0 ==> ModifiedSecantOutcome(f, x0, dx, threshold) == NotFound
      decreases limit - iteration
    {
      iteration := iteration + 1;
      if f(x0 + dx) - f(x0) == 0.0 {
        return ZeroDivision, iteration;
      }
      var x := x0 - f(x0) * dx / (f(x0 + dx) - f(x0));
      if -threshold < f(x) < threshold {
        return Found(x), iteration;
      }
      if iteration > maxIterations {
        break;
      }
    }
    return NotFound, iteration;
  }

  /** The modified secant method with the update the algorithm calls for:
      each pass restarts from the new estimate. A root it returns passes the
      threshold test. */
  function UpdatingModifiedSecantFrom(f: real -> real, x0: real, dx: real, threshold: real, passes: nat): (r: Outcome)
    ensures r.Found? ==> WithinThreshold(f, r.root, threshold)
    decreases passes
  {
    if passes == 0 then NotFound
    else if f(x0 + dx) == f(x0) then ZeroDivision
    else
      var x := ModifiedSecantStep(f, x0, dx);
      if WithinThreshold(f, x, threshold) then Found(x)
      else UpdatingModifiedSecantFrom(f, x, dx, threshold, passes - 1)
  }

  /** The corrected `modified_secant`, which sets x0 to the new estimate between passes. */
  method UpdatingModifiedSecant(f: real -> real, x0: real, dx: real, threshold: real, maxIterations: int)
      returns (r: Outcome, ghost passes: nat)
    ensures r == UpdatingModifiedSecantFrom(f, x0, dx, threshold, PassLimit(maxIterations))
    ensures r.Found? ==> WithinThreshold(f, r.root, threshold)
    ensures 1 <= passes <= PassLimit(maxIterations)
    ensures r == NotFound ==> passes == PassLimit(maxIterations)
  {
    ghost var limit := PassLimit(maxIterations);
    var iteration := 0;
    var x0 := x0;
    ghost var start := x0;
    while true
      invariant 0 <= iteration < limit
      invariant UpdatingModifiedSecantFrom(f, x0, dx, threshold, limit - iteration)
        == UpdatingModifiedSecantFrom(f, start, dx, threshold, limit)
      decreases limit - iteration
    {
      iteration := iteration + 1;
      if f(x0 + dx) - f(x0) == 0.0 {
        return ZeroDivision, iteration;
      }
      var x := x0 - f(x0) * dx / (f(x0 + dx) - f(x0));
      if -threshold < f(x) < threshold {
        return Found(x), iteration;
      }
      if iteration > maxIterations {
        break;
      }
      x0 := x;
    }
    return NotFound, iteration;
  }

  /** The corrected method agrees with the code as written whenever the first
      pass decides the run, and otherwise goes on from the new estimate. */
  lemma UpdatingAgreesOnFirstPass(f: real -> real, x0: real, dx: real, threshold: real, passes: nat)
    requires passes > 0
    ensures ModifiedSecantOutcome(f, x0, dx, threshold) != NotFound ==>
      UpdatingModifiedSecantFrom(f, x0, dx, threshold, passes) == ModifiedSecantOutcome(f, x0, dx, threshold)
    ensures ModifiedSecantOutcome(f, x0, dx, threshold) == NotFound ==>
      UpdatingModifiedSecantFrom(f, x0, dx, threshold, passes)
        == UpdatingModifiedSecantFrom(f, ModifiedSecantStep(f, x0, dx), dx, threshold, passes - 1)
  {
  }

  /** For f(x) = x*x, x0 = 1, dx = 1 and threshold 0.3 the code as written
      reports no root however many iterations it is allowed, while the
      corrected method finds 10/21 on its second pass. */
  lemma ModifiedSecantIgnoresIterations(maxIterations: int)
    requires maxIterations >= 1
    ensures var f := (x: real) => x * x;
      ModifiedSecantOutcome(f, 1.0, 1.0, 0.3) == NotFound
      && UpdatingModifiedSecantFrom(f, 1.0, 1.0, 0.3, PassLimit(maxIterations)) == Found(10.0 / 21.0)
  {
  }
}
