/** Vocabulary shared by the root-finding routines of utils.py: what a refiner
    returns, the convergence test they all apply, and the iteration cap. */
module Roots {

  /** The result of a refiner: a root estimate, Python's `None` once the
      iteration cap is exhausted (or a bracket is empty), or the
      `ZeroDivisionError` Python raises when a step divides by zero. */
  datatype Outcome = Found(root: real) | NotFound | ZeroDivision

  /** The test every refiner applies to a candidate, `-threshold < f(x) < threshold`:
      |f(x)| is below the threshold, which a non-positive threshold never allows. */
  predicate WithinThreshold(f: real -> real, x: real, threshold: real)
    ensures WithinThreshold(f, x, threshold) <==> (if f(x) < 0.0 then -f(x) else f(x)) < threshold
    ensures WithinThreshold(f, x, threshold) ==> threshold > 0.0
  {
    -threshold < f(x) < threshold
  }

  /** f takes values of strictly opposite sign at a and b. */
  predicate SignChange(f: real -> real, a: real, b: real)
  {
    f(a) * f(b) < 0.0
  }

  /** The number of loop passes after which `iteration > max_iterations`
      stops a refiner: the first pass number that exceeds the cap. */
  function PassLimit(maxIterations: int): (n: nat)
    ensures n >= 1 && n > maxIterations
    ensures n == 1 || n - 1 <= maxIterations
  {
    if maxIterations < 0 then 1 else maxIterations + 1
  }

  /** A candidate that fails a positive threshold is not a zero of f. */
  lemma MissIsNonzero(f: real -> real, x: real, threshold: real)
    requires threshold > 0.0 && !WithinThreshold(f, x, threshold)
    ensures f(x) != 0.0
  {
  }

}
