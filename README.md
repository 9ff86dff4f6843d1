# Proximal outer-approximation managers

mpi-sppy can replace the quadratic proximal term `x^2` of a bounded
nonanticipative variable `x` by a proxy variable `y` and a growing family of
linear cuts `y >= m x + b` that lie below the parabola. One manager per
variable owns those cuts. The cuts live in a dictionary that the caller
shares with the manager. It is keyed by `(variable index, integer)`.

- `ProxApproxManager(...)` hands back the discrete manager for an integer
  variable and the continuous manager otherwise.
- Both managers raise when a bound is missing. Then they seed cuts from
  the bounds and from evenly spaced interior points.
- The **continuous** manager stores the tangent at `a` (slope `2a`,
  intercept `-a^2`) under a counter that starts at 0. It then advances the
  counter.
- The **discrete** manager rounds the point to the nearest integer `n`,
  with ties going to the even integer. It stores the secant through
  `(n, n^2)` and `(n+1, n^2+2n+1)` under key `n+1`, and the secant over
  `[n-1, n]` under key `n`. The right cut is stored only when its key is
  absent and `n < ub`, the left cut only when its key is absent and
  `n > lb`; nothing else is checked, so a point far below `lb` still gets
  its right cut. The manager never overwrites a key.
- `check_tol_add_cut` compares `x^2` with `y` at the current solution. When
  the gap exceeds the tolerance, it adds a cut at `x` and reports a
  violation.

The model has five modules:

- `Outcomes`: Option and Result.
- `CutMath`: cut geometry, `_compute_mb` and rounding.
- `InitialPoints`: `_get_additional_points` and the seed sequences.
- `CutStorage`: the shared dictionary as a `CutStore` object whose `cuts`
  map the managers reassign, plus the specification functions
  `TangentsFrom`, `SecantStep` and `SecantSteps` with the lemmas about them.
- `ProxApprox`: the two manager classes and the dispatch.

Construction failures are `Result` values. A missing bound gives
`MissingBounds`. A fixed integer variable gives `MissingCreateCut`.

Behaviour of the code that the model keeps:

- For a fixed integer variable (`lb == ub`), discrete seeding calls
  `self.create_cut`. No class defines that method
  (mpisppy/utils/prox_approx.py:141), so construction raises. The model
  makes this an error outcome with nothing stored. It does not add a cut
  at `lb`.
- Discrete seeding passes `q // 2 + 1` (floor division), not `q`, to
  `_get_additional_points`. Those points are rounded by `add_cut`, so
  interior duplicates are skipped, not stored twice.
- Nothing checks `lb <= ub`. The model accepts any pair of present bounds.
  Only some lemmas assume ordered bounds: the interior and within-bounds
  lemmas of the seed points, and the lemmas on what one add_cut covers
  (SecantStepCovers, SecantStepTouches, AddCutClearsViolation) and on how
  many cuts seeding stores.
- For bounds `(-2, 2)`, calling `add_cut(-2)` and then `add_cut(2)` leaves
  keys `-1` and `2` exactly. The first call inserts key `-1` only. The
  second inserts key `2` only, because `2 < ub` fails.

## Model

| member | source | states |
|---|---|---|
| CutMath.TangentAt | mpisppy/utils/prox_approx.py:104-107 | the tangent at a has slope 2a and meets the parabola at a (its line at a equals a*a) |
| CutMath.TangentSupports | mpisppy/utils/prox_approx.py:109-110 | the tangent at a lies on or below t*t at every real t, so adding it never cuts off a feasible (x, x^2) |
| CutMath.TangentIsGlobalUnderestimator | mpisppy/utils/prox_approx.py:109-110 | the tangent cut is valid for every real t at once |
| CutMath.ComputeMB | mpisppy/utils/prox_approx.py:122-132 | _compute_mb(n) gives the line through (n, n^2) and (n+1, (n+1)^2) |
| CutMath.SecantSupportsIntegers | mpisppy/utils/prox_approx.py:122-132 | at every integer t, m t + b <= t^2, with equality exactly when t is n or n+1 |
| CutMath.SecantCut | mpisppy/utils/prox_approx.py:170-173 | the stored secant cut meets the parabola at both ends of its unit interval |
| CutMath.SecantIsIntegerUnderestimator | mpisppy/utils/prox_approx.py:162-164 | a secant cut removes no integer point of the parabola |
| CutMath.RoundHalfEven | mpisppy/utils/prox_approx.py:160 | int(round(val)) lies within 1/2 of val and is even on a tie |
| CutMath.RoundMonotone | mpisppy/utils/prox_approx.py:160 | rounding preserves the order of two values |
| CutMath.RoundNearest | mpisppy/utils/prox_approx.py:160 | an integer strictly within 1/2 of val is the rounding of val |
| InitialPoints.AdditionalPoints | mpisppy/utils/prox_approx.py:38-52 | no points when the quantity is at most 2, otherwise exactly quantity-2 points |
| InitialPoints.AdditionalPointsEvenlySpaced | mpisppy/utils/prox_approx.py:46-52 | the points are lb + i*delta for i = 1 .. q-2 with delta = (ub-lb)/(q-1): first at lb+delta, consecutive gaps delta, last one delta short of ub |
| InitialPoints.AdditionalPointsInterior | mpisppy/utils/prox_approx.py:46-52 | when lb < ub every additional point lies strictly between the bounds |
| InitialPoints.ContinuousSeedPointsWithinBounds | mpisppy/utils/prox_approx.py:80-97 | every continuous seed point lies in [lb, ub] |
| InitialPoints.ContinuousSeedCount | mpisppy/utils/prox_approx.py:84-97 | the number of seed cuts: one for a nonzero lb, none more when fixed, else one for a nonzero ub plus max(q-2, 0) |
| InitialPoints.ContinuousSeedExamples | mpisppy/utils/prox_approx.py:84-93 | bounds (0,5) give 1 seed cut and (-3,5) give 2 when q = 2; a fixed variable at 2 gives only the tangent at 2 |
| InitialPoints.DiscreteSeedValues | mpisppy/utils/prox_approx.py:145-154 | discrete seeding calls add_cut on lb, ub, then q//2-1 interior points (none when q < 4), the rounded bounds first |
| InitialPoints.AdditionalPointsWithinBounds | mpisppy/utils/prox_approx.py:46-52 | with lb <= ub every additional point lies in [lb, ub], also for a fixed variable |
| InitialPoints.DiscreteSeedValuesBetweenBounds | mpisppy/utils/prox_approx.py:145-154 | with lb <= ub every rounded interior seed value lies between the rounded bounds, and those are in order |
| CutStorage.CutStore.constructor | mpisppy/utils/prox_approx.py:26 | the shared cut dictionary, initially empty |
| CutStorage.TangentsFromEffect | mpisppy/utils/prox_approx.py:96-97 | tangents added from counter s over points p add exactly keys s .. s+|p|-1, key s+k holds the tangent at p[k], every other key unchanged |
| CutStorage.TangentsFromSnoc | mpisppy/utils/prox_approx.py:115-118 | one more point adds one key, at the next counter value |
| CutStorage.TangentsFromSound | mpisppy/utils/prox_approx.py:109-115 | when every stored cut of the variable lies below x^2 everywhere, storing more tangents keeps that so |
| CutStorage.TangentsFromInsertOnly | mpisppy/utils/prox_approx.py:115-118 | with the counter ahead of every stored key, continuous seeding never overwrites a cut and leaves the counter ahead |
| CutStorage.SecantStepInserts | mpisppy/utils/prox_approx.py:169-191 | discrete add_cut keeps every existing key and value; it inserts key n+1 iff absent and n < ub, and key n iff absent and n > lb |
| CutStorage.SecantStepCount | mpisppy/utils/prox_approx.py:165-193 | the reported count is the number of new keys (0, 1 or 2) |
| CutStorage.SecantStepIdempotent | mpisppy/utils/prox_approx.py:169-191 | a second add_cut at the same value inserts nothing and reports 0 |
| CutStorage.SecantStepKeyed | mpisppy/utils/prox_approx.py:162-168 | if each key k of the variable holds the secant over (k-1, k), add_cut keeps that so |
| CutStorage.KeyedIsSound | mpisppy/utils/prox_approx.py:162-164 | a map keyed by right endpoints holds only cuts valid at every integer |
| CutStorage.SecantStepCovers | mpisppy/utils/prox_approx.py:169-191 | for lb < ub, after add_cut at n the key n or the key n+1 is present |
| CutStorage.SecantStepTouches | mpisppy/utils/prox_approx.py:162-191 | on a keyed store with lb < ub, after add_cut at n the cut under key n or n+1 passes through (n, n^2) |
| CutStorage.AddCutClearsViolation | mpisppy/utils/prox_approx.py:66-76 | after add_cut at n on a keyed store, a solution at x = n satisfying the stored cuts is not reported as violated again, for any tolerance >= 0 |
| CutStorage.CoveredPointNotViolated | mpisppy/utils/prox_approx.py:66-76 | once a stored secant touches (n, n^2) and y satisfies it at x = n, check_tol_add_cut finds no violation at x = n |
| CutStorage.SecantStepsInsertOnlyAndKeyed | mpisppy/utils/prox_approx.py:152-154 | a run of add_cut calls keeps every key and keeps the right-endpoint keying |
| CutStorage.SecantStepsCount | mpisppy/utils/prox_approx.py:165-193 | over a run of add_cut calls the dictionary grows by exactly the sum of the counts they report |
| CutStorage.FarKeysFree | mpisppy/utils/prox_approx.py:169-191 | add_cut calls on ns only take keys next to values of ns: keys v and v+1 stay free for v at least 2 from all of them |
| CutStorage.FreeStepAdded | mpisppy/utils/prox_approx.py:169-191 | with both neighbouring keys free add_cut reports one cut for n < ub plus one for n > lb |
| CutStorage.SeparatedSeedsAdded | mpisppy/utils/prox_approx.py:145-154 | seeding lb, ub and interior values pairwise at least 2 apart reports 1 cut per bound and 2 per interior value |
| CutStorage.SecantStepsExample | mpisppy/utils/prox_approx.py:169-191 | bounds (-2,2), add_cut(-2) then add_cut(2): keys exactly -1 and 2, holding the secants over (-2,-1) and (1,2) |
| ProxApprox.DiscreteSeedingExample | mpisppy/utils/prox_approx.py:149-154 | bounds (0, 10) and 7 requested cuts: add_cut on 0, 10, 3, 7 stores exactly 6 cuts, keys 1, 10, 3, 4, 7, 8 |
| ProxApprox.DiscreteSeedingCount | mpisppy/utils/prox_approx.py:149-154 | q >= 2 requested cuts store 2 * (q // 2) (7 becomes 6) when the bounds are integers and the seed values pairwise at least 2 apart |
| ProxApprox.VerifyBounds | mpisppy/utils/prox_approx.py:33-36 | construction fails with a missing-bounds error iff a bound is absent |
| ProxApprox.ContinuousManager.constructor | mpisppy/utils/prox_approx.py:22-29 | the manager records index, bounds and store, and its counter starts at 0 |
| ProxApprox.ContinuousManager.AddCut | mpisppy/utils/prox_approx.py:99-120 | writes the tangent at val under (index, old counter), changes no other key, increments the counter, returns 1 |
| ProxApprox.ContinuousManager.CreateInitialCuts | mpisppy/utils/prox_approx.py:80-97 | the store grows by the tangents at the seed points from the old counter on, and the counter advances by their number |
| ProxApprox.ContinuousManager.AddCutsAt | mpisppy/utils/prox_approx.py:95-97 | the loop over the additional points adds their tangents in order |
| ProxApprox.ContinuousManager.CheckTolAddCut | mpisppy/utils/prox_approx.py:66-76 | reports a violation iff x^2 - y > tolerance; then exactly add_cut(x)'s effect, otherwise nothing changes |
| ProxApprox.ContinuousManager.Create | mpisppy/utils/prox_approx.py:22-36 | fails iff a bound is missing, with the store untouched; otherwise a fresh manager has seeded exactly the continuous seed tangents |
| ProxApprox.DiscreteManager.constructor | mpisppy/utils/prox_approx.py:22-29 | the manager records index, bounds and store |
| ProxApprox.DiscreteManager.AddCut | mpisppy/utils/prox_approx.py:156-193 | the new store and the returned count are exactly one secant step at the rounded value |
| ProxApprox.DiscreteManager.CreateInitialCuts | mpisppy/utils/prox_approx.py:136-154 | a fixed variable fails (create_cut is missing) with nothing stored; otherwise the store is add_cut applied to lb, ub and the interior points in order |
| ProxApprox.DiscreteManager.CheckTolAddCut | mpisppy/utils/prox_approx.py:66-76 | reports a violation iff x^2 - y > tolerance, then the store is the secant step at round(x), otherwise unchanged |
| ProxApprox.DiscreteManager.Create | mpisppy/utils/prox_approx.py:22-36 | fails iff a bound is missing or the variable is fixed, with the error kind stated and the store untouched; otherwise seeds as above |
| ProxApprox.NewManager | mpisppy/utils/prox_approx.py:10-14 | the discrete manager iff the variable is integer; fails iff a bound is missing (MissingBounds) or an integer variable is fixed (MissingCreateCut), store untouched; on success a fresh manager with the given index, bounds and store, the continuous counter at the number of seed cuts, and the store seeded as by that variant |

## Left out

- The persistent solver. `add_cut` may also hand each new cut to a persistent solver (mpisppy/utils/prox_approx.py:116-117, 176-177, 189-190). That is a call into solver code, so the optional argument is dropped.
- The Pyomo constraint objects. A cut `(0, y - m x - b, None)` is kept as its pair (slope, intercept).
- Floating point. Arithmetic is exact over reals, and `int(round(val))` is exact round-half-even on reals.
- Solver values. The values of `x` and `y` that `check_tol_add_cut` reads from the solved model are parameters.
- The discrete manager's `cut_index`. It is set to 0 and never used, so the discrete class has no counter.
- CutMath.TangentSupports: states that the tangent lies on or below the parabola. It does not state that equality holds only at the point of tangency; only equality at that point is stated, in TangentAt.
- Convergence of the outer cutting loop. It depends on the solver. The per-step facts it rests on are SecantStepCovers and CoveredPointNotViolated.
- The `__main__` demonstration (mpisppy/utils/prox_approx.py:195-224), which only prints.
- mpisppy/extensions/test_extension.py, which is not part of this model.
