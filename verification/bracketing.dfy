/** The bracketing refiners `bisection` and `false_position` of utils.py.
    Each pass computes a candidate (the midpoint, or the zero of the chord
    through the endpoints), returns it if it passes the threshold test, and
    otherwise moves one endpoint onto it. The midpoint always lies inside
    [lb, ub]; the chord's zero does only when f changes sign over [lb, ub]. */
module Bracketing {
  import opened Roots

  /** The current search interval `[lb, ub]`. */
  datatype Bracket = Bracket(lb: real, ub: real)

  /** The `elif` chain both refiners share after candidate c has failed:
      keep the half over which f changes sign, lower half first, or leave
      the bracket as it is when neither half shows a sign change. */
  function Narrow(f: real -> real, lb: real, ub: real, c: real): (b: Bracket)
    ensures b == Bracket(lb, c) || b == Bracket(c, ub) || b == Bracket(lb, ub)
    ensures b != Bracket(lb, ub) ==> SignChange(f, b.lb, b.ub)
  {
    if f(lb) * f(c) < 0.0 then Bracket(lb, c)
    else if f(ub) * f(c) < 0.0 then Bracket(c, ub)
    else Bracket(lb, ub)
  }

  /** Narrowing at an interior non-zero candidate keeps a sign change and
      yields one of the two halves, inside the old bracket. */
  lemma NarrowKeepsSignChange(f: real -> real, lb: real, ub: real, c: real)
    requires lb <= c <= ub && SignChange(f, lb, ub) && f(c) != 0.0
    ensures var b := Narrow(f, lb, ub, c);
      SignChange(f, b.lb, b.ub) && (b == Bracket(lb, c) || b == Bracket(c, ub))
  {
  }

  // ---------------------------------------------------------------- bisection

  /** The outcome of `bisection` from bracket [lb, ub] with `passes` loop
      passes still allowed. Bisection never divides by zero, and a root it
      returns passes the threshold test and lies in the starting bracket. */
  function BisectFrom(f: real -> real, lb: real, ub: real, threshold: real, passes: nat): (r: Outcome)
    ensures r != ZeroDivision
    ensures r.Found? ==> WithinThreshold(f, r.root, threshold) && lb <= r.root <= ub
    decreases passes
  {
    if passes == 0 || lb > ub then NotFound
    else
      var mid := (lb + ub) / 2.0;
      if WithinThreshold(f, mid, threshold) then Found(mid)
      else
        var b := Narrow(f, lb, ub, mid);
        BisectFrom(f, b.lb, b.ub, threshold, passes - 1)
  }

  /** `bisection`. The ghost `passes` counts executions of the loop body. */
  method Bisection(f: real -> real, lb: real, ub: real, threshold: real, maxIterations: int)
      returns (r: Outcome, ghost passes: nat)
    ensures r == BisectFrom(f, lb, ub, threshold, PassLimit(maxIterations))
    ensures r.Found? ==> WithinThreshold(f, r.root, threshold) && lb <= r.root <= ub
    ensures r != ZeroDivision
    ensures passes <= PassLimit(maxIterations)
    ensures lb > ub ==> r == NotFound && passes == 0
    ensures lb <= ub && r == NotFound ==> passes == PassLimit(maxIterations)
  {
    ghost var limit := PassLimit(maxIterations);
    var lo, hi := lb, ub;
    var iteration := 0;
    while lo <= hi
      invariant 0 <= iteration < limit
      invariant lb <= lo && hi <= ub
      invariant lb <= ub ==> lo <= hi
      invariant iteration > 0 ==> lb <= ub
      invariant BisectFrom(f, lo, hi, threshold, limit - iteration) == BisectFrom(f, lb, ub, threshold, limit)
      decreases limit - iteration
    {
      iteration := iteration + 1;
      var mid := (lo + hi) / 2.0;
      if -threshold < f(mid) < threshold {
        return Found(mid), iteration;
      } else if f(lo) * f(mid) < 0.0 {
        hi := mid;
      } else if f(hi) * f(mid) < 0.0 {
        lo := mid;
      }
      if iteration > maxIterations {
        break;
      }
    }
    return NotFound, iteration;
  }

  /** One pass of bisection that does not return, started from a true
      bracket with a positive threshold, keeps a sign change and exactly
      halves the bracket. */
  lemma BisectStepHalves(f: real -> real, lb: real, ub: real, threshold: real)
    requires lb <= ub && SignChange(f, lb, ub) && threshold > 0.0
    requires !WithinThreshold(f, (lb + ub) / 2.0, threshold)
    ensures var b := Narrow(f, lb, ub, (lb + ub) / 2.0);
      SignChange(f, b.lb, b.ub) && lb <= b.lb <= b.ub <= ub && b.ub - b.lb == (ub - lb) / 2.0
  {
  }

  /** When the midpoint fails and neither half shows a sign change, the
      bracket never moves: every later pass recomputes the same midpoint,
      and bisection reports no root. */
  lemma {:induction false} BisectStuck(f: real -> real, lb: real, ub: real, threshold: real, passes: nat)
    requires !WithinThreshold(f, (lb + ub) / 2.0, threshold)
    requires Narrow(f, lb, ub, (lb + ub) / 2.0) == Bracket(lb, ub)
    ensures BisectFrom(f, lb, ub, threshold, passes) == NotFound
    decreases passes
  {
    if passes > 0 && lb <= ub {
      BisectStuck(f, lb, ub, threshold, passes - 1);
    }
  }

  /** A bracket whose lower end is an exact root of f(x) = x*x - 7x + 10 is
      not enough: from [2, 3] bisection never returns 2 and reports no root. */
  lemma BisectionMissesEndpointRoot()
    ensures var f := (x: real) => x * x - 7.0 * x + 10.0;
      f(2.0) == 0.0 && BisectFrom(f, 2.0, 3.0, 0.001, PassLimit(100)) == NotFound
  {
    var f := (x: real) => x * x - 7.0 * x + 10.0;
    assert f(2.5) == -1.25;
    BisectStuck(f, 2.0, 3.0, 0.001, PassLimit(100));
  }

  // ----------------------------------------------------------- false position

  /** The point `x_r` of `false_position`: where the chord through
      (lb, f(lb)) and (ub, f(ub)) meets zero. */
  function Interpolate(f: real -> real, lb: real, ub: real): (x: real)
    requires f(lb) != f(ub)
    ensures f(lb) * (ub - x) + f(ub) * (x - lb) == 0.0
  {
    var d := f(lb) - f(ub);
    var x := ub - f(ub) * (lb - ub) / d;
    assert ub - x == f(ub) * (lb - ub) / d;
    assert x - lb == f(lb) * (ub - lb) / d by {
      assert (ub - lb) * d / d == ub - lb;
    }
    x
  }

  /** Over a true bracket the chord meets zero inside the bracket. */
  lemma InterpolateInside(f: real -> real, lb: real, ub: real)
    requires lb <= ub && SignChange(f, lb, ub)
    ensures f(lb) != f(ub) && lb <= Interpolate(f, lb, ub) <= ub
  {
    var fl, fu := f(lb), f(ub);
    var d := fl - fu;
    var x := Interpolate(f, lb, ub);
    assert ub - x == fu * (lb - ub) / d;
    if fl > 0.0 {
      assert fu < 0.0 && d > 0.0;
      assert fu * (lb - ub) >= 0.0;
      assert -fu <= d;
      assert fu * (lb - ub) <= d * (ub - lb);
    } else {
      assert fu > 0.0 && d < 0.0;
      assert fu * (lb - ub) <= 0.0;
      assert fu <= -d;
      assert fu * (ub - lb) <= -d * (ub - lb);
    }
  }

  /** The outcome of `false_position` from bracket [lb, ub] with `passes`
      loop passes still allowed. A root it returns passes the threshold test. */
  function FalsePositionFrom(f: real -> real, lb: real, ub: real, threshold: real, passes: nat): (r: Outcome)
    ensures r.Found? ==> WithinThreshold(f, r.root, threshold)
    ensures r == ZeroDivision ==> passes > 0
    decreases passes
  {
    if passes == 0 || lb > ub then NotFound
    else if f(lb) == f(ub) then ZeroDivision
    else
      var xr := Interpolate(f, lb, ub);
      if WithinThreshold(f, xr, threshold) then Found(xr)
      else
        var b := Narrow(f, lb, ub, xr);
        FalsePositionFrom(f, b.lb, b.ub, threshold, passes - 1)
  }

  /** `false_position`. A zero denominator `f(lb) - f(ub)` ends the run
      with `ZeroDivision`; the ghost `passes` counts executions of the loop body. */
  method FalsePosition(f: real -> real, lb: real, ub: real, threshold: real, maxIterations: int)
      returns (r: Outcome, ghost passes: nat)
    ensures r == FalsePositionFrom(f, lb, ub, threshold, PassLimit(maxIterations))
    ensures r.Found? ==> WithinThreshold(f, r.root, threshold)
    ensures passes <= PassLimit(maxIterations)
    ensures lb > ub ==> r == NotFound && passes == 0
    ensures lb <= ub && f(lb) == f(ub) ==> r == ZeroDivision && passes == 1
  {
    ghost var limit := PassLimit(maxIterations);
    var lo, hi := lb, ub;
    var iteration := 0;
    while lo <= hi
      invariant 0 <= iteration < limit
      invariant iteration == 0 ==> lo == lb && hi == ub
      invariant iteration > 0 ==> lb <= ub && f(lb) != f(ub)
      invariant FalsePositionFrom(f, lo, hi, threshold, limit - iteration) == FalsePositionFrom(f, lb, ub, threshold, limit)
      decreases limit - iteration
    {
      iteration := iteration + 1;
      if f(lo) - f(hi) == 0.0 {
        return ZeroDivision, iteration;
      }
      var xr := hi - f(hi) * (lo - hi) / (f(lo) - f(hi));
      if -threshold < f(xr) < threshold {
        return Found(xr), iteration;
      } else if f(lo) * f(xr) < 0.0 {
        hi := xr;
      } else if f(hi) * f(xr) < 0.0 {
        lo := xr;
      }
      if iteration > maxIterations {
        break;
      }
    }
    return NotFound, iteration;
  }

  /** Started from a true bracket with a positive threshold, false position
      keeps a sign change on every pass, so its denominator never vanishes
      and a returned root lies in the starting bracket. */
  lemma {:induction false} FalsePositionBracketed(f: real -> real, lb: real, ub: real, threshold: real, passes: nat)
    requires lb <= ub && SignChange(f, lb, ub) && threshold > 0.0
    ensures var r := FalsePositionFrom(f, lb, ub, threshold, passes);
      r != ZeroDivision && (r.Found? ==> lb <= r.root <= ub)
    decreases passes
  {
    if passes > 0 {
      InterpolateInside(f, lb, ub);
      var xr := Interpolate(f, lb, ub);
      if !WithinThreshold(f, xr, threshold) {
        MissIsNonzero(f, xr, threshold);
        NarrowKeepsSignChange(f, lb, ub, xr);
        var b := Narrow(f, lb, ub, xr);
        FalsePositionBracketed(f, b.lb, b.ub, threshold, passes - 1);
      }
    }
  }

  /** When the interpolated point fails and neither half shows a sign
      change, the bracket never moves and false position reports no root. */
  lemma {:induction false} FalsePositionStuck(f: real -> real, lb: real, ub: real, threshold: real, passes: nat)
    requires lb <= ub && f(lb) != f(ub)
    requires !WithinThreshold(f, Interpolate(f, lb, ub), threshold)
    requires Narrow(f, lb, ub, Interpolate(f, lb, ub)) == Bracket(lb, ub)
    ensures FalsePositionFrom(f, lb, ub, threshold, passes) == NotFound
    decreases passes
  {
    if passes > 0 {
      FalsePositionStuck(f, lb, ub, threshold, passes - 1);
    }
  }
}
