# Root-finding algorithms, modelled and verified in Dafny

This project models `utils.py` of a small Python library of classical
single-variable root finders, and proves properties of the model:

- `incremental_search` walks `lb, lb+inc, lb+2inc, …` while the point does
  not exceed `ub`. At each point `x` it records `[x-inc, x+inc]` when
  `f(x) == 0`, and `[x, x+inc]` when `f(x) * f(x+inc) < 0`. It returns the
  count and the list of intervals.
- `bisection` and `false_position` are bracketing refiners. Each pass takes
  the midpoint or the chord's zero as the candidate, returns it when
  `-threshold < f(candidate) < threshold`, and otherwise moves `ub` (first
  choice) or `lb` onto it. The loop runs while `lb <= ub`.
- `newton_raphson`, `secant` and `modified_secant` are open refiners. They
  extrapolate from one or two points.
- Every refiner stops with `None` once `iteration > max_iterations`. That
  means `max_iterations + 1` passes, or one pass when the cap is negative.

The arithmetic is over Dafny's `real`, not IEEE doubles. `f` and `f_der` are
total function values `real -> real`. Each routine is a method with a `while`
loop, as in the source. The method is tied to a recursive function over the
remaining passes (`BisectFrom`, `SecantFrom`, …) or over the visited points
(`Scanned`). The lemmas are stated about those functions. Each refiner has a
ghost out-parameter `passes` that counts executions of the loop body.

A refiner's result is an `Outcome`:

- `Found(x)`: Python returns `x`.
- `NotFound`: Python returns `None`.
- `ZeroDivision`: Python raises `ZeroDivisionError` because a denominator
  (`f(lb) - f(ub)`, `f_der(x)`, `f(x1) - f(x0)`, `f(x0+dx) - f(x0)`) is zero.
  The model returns this variant instead of requiring callers to avoid it.
  Lemmas give conditions under which it cannot happen.

Three facts about the code are easy to get wrong. The model follows the code:

- A returned interval `[a, b]` need not have `f(a) * f(b) <= 0`. An interval
  recorded for an exact zero may not straddle it:
  `ZeroBracketMayNotStraddle` gives a counterexample.
- For bisection, a zero at an endpoint of the bracket is not enough: from
  `[2, 3]`, `bisection` for `x*x - 7x + 10` reports no root, although
  `f(2) == 0` (`BisectionMissesEndpointRoot`).
- A refiner does not stop after `max_iterations` passes. It makes
  `max_iterations + 1` passes (`PassLimit`).

## Model

| member | source | states |
|---|---|---|
| `Roots.WithinThreshold` | utils.py:61 | the convergence test `-threshold < f(x) < threshold` holds exactly when `abs(f(x)) < threshold`, and never holds for a non-positive threshold; the same test appears at lines 96, 132, 162 and 194 |
| `Roots.PassLimit` | utils.py:69-70 | the number of passes is the first pass number greater than `max_iterations`: `max_iterations + 1`, or 1 when the cap is negative |
| `IncrementalSearch.SamplePoint` | utils.py:24-34 | the scan starts at `lb` and, with a positive step, never visits a point below `lb` |
| `IncrementalSearch.SamplePointStep` | utils.py:34 | each visited point is the previous one plus `increment_length` |
| `IncrementalSearch.Emitted` | utils.py:26-32 | one point records at most one interval, every interval it records has one of the two shapes, and an exact zero or a sign change at that point always records one |
| `IncrementalSearch.SampleCount` | utils.py:24-34 | the scan visits sample `k` exactly when `lb + k*inc <= ub`; with `inc > 0` that number is finite, so the loop terminates |
| `IncrementalSearch.Search` | utils.py:21-36 | `incremental_search`: the returned count equals the length of the returned list, and the list is the scan's intervals over the visited points in order |
| `IncrementalSearch.EmittedAtMostOne` | utils.py:26-32 | one point records at most one interval: an exact zero gives `[x-inc, x+inc]` and excludes the sign-change interval |
| `IncrementalSearch.ScannedShape` | utils.py:24-34 | every interval recorded in the first n points comes from one of those points, with one of the two shapes |
| `IncrementalSearch.ScannedComplete` | utils.py:26-32 | every visited exact zero and every visited sign change is recorded |
| `IncrementalSearch.ScannedInOrder` | utils.py:24-36 | intervals come in scan order: their centres strictly increase and stay between `lb` and the next point |
| `IncrementalSearch.SearchIntervalsShape` | utils.py:24-34 | every returned interval is `[x-inc, x+inc]` with `f(x) == 0` or `[x, x+inc]` with `f(x)*f(x+inc) < 0`, for a visited `x` with `lb <= x <= ub` |
| `IncrementalSearch.SearchIntervalsComplete` | utils.py:26-32 | every visited point of `[lb, ub]` with an exact zero or a sign change contributes its interval to the result |
| `IncrementalSearch.ZeroBracketMayNotStraddle` | utils.py:26-28 | for `f(x) = x*x` on `[0, 0]` with step 1 the result is `[[-1, 1]]`, and `f(-1)*f(1) > 0` |
| `IncrementalSearch.QuadraticScan` | main.py:5-10 | scanning `x*x - 7x + 10` over `[-4, 8]` with step 0.8 yields exactly `[1.6, 2.4]` and `[4.8, 5.6]` |
| `Bracketing.Narrow` | utils.py:63-66 | after a failed candidate `c` the bracket becomes `[lb, c]`, `[c, ub]` or stays `[lb, ub]`, and it moves only onto a half over which `f` changes sign; false position uses the same chain at lines 98-101 |
| `Bracketing.NarrowKeepsSignChange` | utils.py:63-66 | after a non-zero interior candidate fails, the kept half is one of the two halves and still has a sign change |
| `Bracketing.Bisection` | utils.py:57-72 | `bisection`: a returned root passes the threshold and lies in the starting bracket; it never divides by zero; it makes at most `PassLimit` passes; it returns `None` with no pass when `lb > ub`; otherwise `None` only after all passes |
| `Bracketing.BisectFrom` | utils.py:58-66 | the outcome of the bisection loop from any bracket and any number of remaining passes: never a division error, and a returned root passes the threshold and lies in that bracket |
| `Bracketing.BisectStepHalves` | utils.py:60-66 | from a true bracket with a positive threshold, a pass that does not return keeps `f(lb)*f(ub) < 0`, stays inside the old bracket and exactly halves `ub - lb` |
| `Bracketing.BisectStuck` | utils.py:60-66 | if the midpoint fails and neither half has a sign change, the bracket never moves and bisection returns `None` |
| `Bracketing.BisectionMissesEndpointRoot` | utils.py:58-66 | with `f(2) == 0` for `x*x - 7x + 10`, bisection on `[2, 3]` with the default threshold and cap returns `None` |
| `Bracketing.Interpolate` | utils.py:95 | the point `x_r` is where the chord through `(lb, f(lb))` and `(ub, f(ub))` is zero |
| `Bracketing.InterpolateInside` | utils.py:95 | over a true bracket the denominator is non-zero and `lb <= x_r <= ub` |
| `Bracketing.FalsePosition` | utils.py:92-107 | `false_position`: a returned root passes the threshold; at most `PassLimit` passes; `None` with no pass when `lb > ub`; a division error on the first pass when `f(lb) == f(ub)` |
| `Bracketing.FalsePositionFrom` | utils.py:93-101 | the outcome of the false-position loop from any bracket and any number of remaining passes: a returned root passes the threshold, and a division error needs at least one pass |
| `Bracketing.FalsePositionBracketed` | utils.py:93-101 | from a true bracket with a positive threshold, the denominator never vanishes on any pass, and a returned root lies in the original bracket |
| `Bracketing.FalsePositionStuck` | utils.py:95-101 | if the interpolated point fails and neither half has a sign change, the bracket never moves and false position returns `None` |
| `OpenMethods.NewtonStep` | utils.py:131 | the Newton estimate is where the tangent at `x` is zero |
| `OpenMethods.NewtonRaphson` | utils.py:127-138 | `newton_raphson`: a returned root passes the threshold; between 1 and `PassLimit` passes, and `None` only after all of them; a division error on the first pass when `f_der(x0) == 0` |
| `OpenMethods.NewtonFrom` | utils.py:129-133 | the outcome of the Newton-Raphson loop from any estimate and any number of remaining passes: a returned root passes the threshold |
| `OpenMethods.NewtonNeverDividesByZero` | utils.py:131 | a derivative that is never zero rules out the division error |
| `OpenMethods.NewtonAtRoot` | utils.py:128-133 | started on an exact root with non-zero slope and a positive threshold, Newton-Raphson returns that root |
| `OpenMethods.SecantStep` | utils.py:161 | the secant estimate is where the chord through `(x0, f(x0))` and `(x1, f(x1))` is zero |
| `OpenMethods.Secant` | utils.py:158-170 | `secant` with the shift `(x0, x1) := (x1, x)`: a returned root passes the threshold; between 1 and `PassLimit` passes, and `None` only after all of them; a division error on the first pass when `f(x1) == f(x0)` |
| `OpenMethods.SecantFrom` | utils.py:159-168 | the outcome of the secant loop from any two points and any number of remaining passes: a returned root passes the threshold |
| `OpenMethods.SecantStepFixedOnlyAtRoot` | utils.py:161 | from distinct points, the estimate equals `x1` exactly when `f(x1) == 0` |
| `OpenMethods.SecantNeverDividesByZero` | utils.py:159-168 | for an injective `f`, distinct start points and a positive threshold, `f(x1) - f(x0)` is never zero on any pass |
| `OpenMethods.SecantStepSymmetric` | utils.py:161 | the estimate does not depend on the order of `x0` and `x1` |
| `OpenMethods.InterpolateIsSecantStep` | utils.py:95 | false position's `x_r` is the secant estimate taken on `lb, ub` |
| `OpenMethods.ModifiedSecantStep` | utils.py:193 | the modified secant estimate is where the chord through `(x0, f(x0))` and `(x0+dx, f(x0+dx))` is zero |
| `OpenMethods.ModifiedSecantStepIsSecantStep` | utils.py:193 | the modified secant estimate is the secant estimate from `x0` and `x0 + dx` |
| `OpenMethods.ModifiedSecantOutcome` | utils.py:193-195 | one pass of `modified_secant`: a division error exactly when `f(x0+dx) == f(x0)`; otherwise the secant estimate from `x0` and `x0+dx`, returned exactly when it passes the threshold |
| `OpenMethods.ModifiedSecant` | utils.py:190-201 | `modified_secant` as written: the outcome is that of the single estimate `x0 - f(x0)*dx/(f(x0+dx)-f(x0))` whatever `max_iterations` is; `None` after all passes, otherwise one pass |
| `OpenMethods.ModifiedSecantIgnoresIterations` | utils.py:190-201 | for `f(x) = x*x`, `x0 = 1`, `dx = 1`, threshold 0.3 the code as written finds nothing for any cap, while the updating method finds `10/21` |
| `OpenMethods.UpdatingModifiedSecant` | utils.py:190-201 | the corrected method, which sets `x0 := x` between passes: a returned root passes the threshold; between 1 and `PassLimit` passes, and `None` only after all of them |
| `OpenMethods.UpdatingModifiedSecantFrom` | utils.py:191-198 | the outcome of the corrected loop, which restarts from each new estimate, from any point and any number of remaining passes: a returned root passes the threshold |
| `OpenMethods.UpdatingAgreesOnFirstPass` | utils.py:190-201 | the corrected method agrees with the code as written when the first pass decides, and otherwise continues from the new estimate |

## Left out

- main.py is not part of this model. It is a demonstration driver that prints results. Its last loop calls `secant` where `modified_secant` is meant.
- IEEE-754 behaviour is not modelled: rounding, NaN and infinity, and the fragility of exact `==`. Over the reals, the scanner's repeated `lb += increment_length` is exactly `lb + k*inc`. With floats the visited points can drift.
- A Python exception is modelled as the `ZeroDivision` outcome. The model does not capture that the exception unwinds the caller.
- `IncrementalSearch.Search` requires `increment_length > 0`. For a non-positive step with `lb <= ub` the source loops forever, and a Dafny method must terminate. For `lb > ub` the source returns `(0, [])` whatever the step, but the requires excludes a non-positive step there too.
- The default arguments `threshold=1e-3` and `max_iterations=100` are not modelled. Callers pass both values explicitly.
- The model makes no claim that any refiner converges to a true root. That depends on analytic properties of `f` and on float evaluation, and the code does not promise it.

## Findings

| source | as written | input that shows it | evidently intended | confidence | as-written member | corrected member |
|---|---|---|---|---|---|---|
| utils.py:190-201 | `modified_secant` never reassigns `x0`, so every pass recomputes the first estimate and `max_iterations` has no effect on the result | `f(x) = x*x`, `x0 = 1`, `dx = 1`, `threshold = 0.3`: the estimate 2/3 has `f = 4/9`, so the result is `None` for every cap | set `x0 = x` between passes, as the modified secant method does; the second pass then gives 10/21 with `f = 100/441 < 0.3` | likely; not executed | `OpenMethods.ModifiedSecant` (discrepancy shown by `OpenMethods.ModifiedSecantIgnoresIterations`) | `OpenMethods.UpdatingModifiedSecant` |
