/** The caller-owned cut dictionary, keyed by (variable index, cut key), and
    the specification of how each manager variant fills it. */
module CutStorage {
  import opened CutMath

  /** Identifies a nonanticipative variable: an opaque key chosen by the
      caller, of which the managers only ever compare whole values; this
      datatype merely stands in for it. */
  datatype VarIndex = VarIndex(node: string, position: int)

  type Key = (VarIndex, int)

  /** The dictionary shared by all managers; a manager only ever inserts. */
  class CutStore {
    var cuts: map<Key, Cut>

    constructor ()
      ensures cuts == map[]
    {
      cuts := map[];
    }
  }

  /** No cut is removed and no cut already present changes. */
  ghost predicate Extends(before: map<Key, Cut>, after: map<Key, Cut>)
  {
    forall key :: key in before ==> key in after && after[key] == before[key]
  }

  // ---------------------------------------------------------------------
  // Continuous variant: one tangent per call, keyed by a running counter
  // ---------------------------------------------------------------------

  /** The dictionary after tangent cuts at pts[0], pts[1], ... are stored in
      turn under keys (vi, start), (vi, start + 1), ... */
  function TangentsFrom(cuts: map<Key, Cut>, vi: VarIndex, start: int, pts: seq<real>): map<Key, Cut>
    decreases |pts|
  {
    if pts == [] then cuts
    else TangentsFrom(cuts, vi, start, pts[..|pts| - 1])[(vi, start + |pts| - 1) := TangentAt(pts[|pts| - 1])]
  }

  /** Storing tangents at pts adds the keys start .. start + |pts| - 1 of vi,
      each holding the tangent at its point, and leaves every other key as
      it was. */
  lemma {:induction false} TangentsFromEffect(cuts: map<Key, Cut>, vi: VarIndex, start: int, pts: seq<real>)
    ensures TangentsFrom(cuts, vi, start, pts).Keys == cuts.Keys + set k | start <= k < start + |pts| :: (vi, k)
    ensures forall k :: 0 <= k < |pts| ==> TangentsFrom(cuts, vi, start, pts)[(vi, start + k)] == TangentAt(pts[k])
    ensures forall key :: key in cuts && !(key.0 == vi && start <= key.1 < start + |pts|) ==>
      TangentsFrom(cuts, vi, start, pts)[key] == cuts[key]
    decreases |pts|
  {
    if pts != [] {
      var prefix := pts[..|pts| - 1];
      TangentsFromEffect(cuts, vi, start, prefix);
      var keys := set k | start <= k < start + |pts| :: (vi, k);
      var prefixKeys := set k | start <= k < start + |prefix| :: (vi, k);
      assert keys == prefixKeys + {(vi, start + |pts| - 1)};
      forall k | 0 <= k < |pts|
        ensures TangentsFrom(cuts, vi, start, pts)[(vi, start + k)] == TangentAt(pts[k])
      {
        if k < |prefix| {
          assert prefix[k] == pts[k];
        }
      }
    }
  }

  /** Storing one more tangent extends the previous dictionary by one key. */
  lemma TangentsFromSnoc(cuts: map<Key, Cut>, vi: VarIndex, start: int, pts: seq<real>, p: real)
    ensures TangentsFrom(cuts, vi, start, pts + [p])
         == TangentsFrom(cuts, vi, start, pts)[(vi, start + |pts|) := TangentAt(p)]
  {
    assert (pts + [p])[..|pts|] == pts;
  }

  /** Every cut stored for vi is a global underestimator of x^2. */
  ghost predicate TangentSound(cuts: map<Key, Cut>, vi: VarIndex)
  {
    forall key :: key in cuts && key.0 == vi ==> GlobalUnderestimator(cuts[key])
  }

  /** Storing tangents keeps the relaxation of vi sound. */
  lemma {:induction false} TangentsFromSound(cuts: map<Key, Cut>, vi: VarIndex, start: int, pts: seq<real>)
    requires TangentSound(cuts, vi)
    ensures TangentSound(TangentsFrom(cuts, vi, start, pts), vi)
    decreases |pts|
  {
    if pts != [] {
      TangentsFromSound(cuts, vi, start, pts[..|pts| - 1]);
      TangentIsGlobalUnderestimator(pts[|pts| - 1]);
    }
  }

  /** The counter of a manager is ahead of every key it could collide with. */
  ghost predicate CounterAhead(cuts: map<Key, Cut>, vi: VarIndex, next: int)
  {
    forall key :: key in cuts && key.0 == vi ==> key.1 < next
  }

  /** While the counter is ahead, storing tangents overwrites nothing and the
      counter stays ahead. */
  lemma TangentsFromInsertOnly(cuts: map<Key, Cut>, vi: VarIndex, start: int, pts: seq<real>)
    requires CounterAhead(cuts, vi, start)
    ensures Extends(cuts, TangentsFrom(cuts, vi, start, pts))
    ensures CounterAhead(TangentsFrom(cuts, vi, start, pts), vi, start + |pts|)
  {
    var r := TangentsFrom(cuts, vi, start, pts);
    TangentsFromEffect(cuts, vi, start, pts);
    forall key | key in r && key.0 == vi
      ensures key.1 < start + |pts|
    {
      if key !in cuts {
        assert key in set k | start <= k < start + |pts| :: (vi, k);
      }
    }
  }

  // ---------------------------------------------------------------------
  // Discrete variant: secants keyed by the right end of their interval
  // ---------------------------------------------------------------------

  /** What one discrete add_cut does to the dictionary, and how many cuts it
      reports. */
  datatype StepResult = StepResult(cuts: map<Key, Cut>, added: nat)

  /** add_cut on the rounded value n: the secant of (n, n+1) under key n+1
      if that key is free and n < ub, then the secant of (n-1, n) under key n
      if that key is free and n > lb. */
  function SecantStep(cuts: map<Key, Cut>, vi: VarIndex, lb: real, ub: real, n: int): StepResult
  {
    var right := (vi, n + 1) !in cuts && (n as real) < ub;
    var afterRight := if right then cuts[(vi, n + 1) := SecantCut(n)] else cuts;
    var left := (vi, n) !in afterRight && (n as real) > lb;
    var afterLeft := if left then afterRight[(vi, n) := SecantCut(n - 1)] else afterRight;
    StepResult(afterLeft, (if right then 1 else 0) + (if left then 1 else 0))
  }

  /** The keys a discrete add_cut on n inserts: n+1 exactly when it is free
      and n < ub, n exactly when it is free and n > lb. */
  function NewSecantKeys(cuts: map<Key, Cut>, vi: VarIndex, lb: real, ub: real, n: int): set<Key>
  {
    (if (vi, n + 1) !in cuts && (n as real) < ub then {(vi, n + 1)} else {})
      + (if (vi, n) !in cuts && (n as real) > lb then {(vi, n)} else {})
  }

  /** A discrete add_cut never overwrites and inserts exactly the keys whose
      guard holds. */
  lemma SecantStepInserts(cuts: map<Key, Cut>, vi: VarIndex, lb: real, ub: real, n: int)
    ensures Extends(cuts, SecantStep(cuts, vi, lb, ub, n).cuts)
    ensures SecantStep(cuts, vi, lb, ub, n).cuts.Keys == cuts.Keys + NewSecantKeys(cuts, vi, lb, ub, n)
  {
  }

  /** The count a discrete add_cut reports is the number of keys it inserted. */
  lemma SecantStepCount(cuts: map<Key, Cut>, vi: VarIndex, lb: real, ub: real, n: int)
    ensures cuts.Keys !! NewSecantKeys(cuts, vi, lb, ub, n)
    ensures SecantStep(cuts, vi, lb, ub, n).added == |NewSecantKeys(cuts, vi, lb, ub, n)|
  {
    var right := (vi, n + 1) !in cuts && (n as real) < ub;
    var left := (vi, n) !in cuts && (n as real) > lb;
    if right && left {
      assert NewSecantKeys(cuts, vi, lb, ub, n) == {(vi, n + 1), (vi, n)};
      assert |{(vi, n + 1), (vi, n)}| == 2;
    }
  }

  /** Repeating add_cut on the same integer inserts nothing. */
  lemma SecantStepIdempotent(cuts: map<Key, Cut>, vi: VarIndex, lb: real, ub: real, n: int)
    ensures SecantStep(SecantStep(cuts, vi, lb, ub, n).cuts, vi, lb, ub, n)
         == StepResult(SecantStep(cuts, vi, lb, ub, n).cuts, 0)
  {
  }

  /** Every cut stored for vi sits under the right endpoint of its interval:
      the cut under key k is the secant of (k-1, k). */
  ghost predicate KeyedByRightEndpoint(cuts: map<Key, Cut>, vi: VarIndex)
  {
    forall key :: key in cuts && key.0 == vi ==> cuts[key] == SecantCut(key.1 - 1)
  }

  lemma SecantStepKeyed(cuts: map<Key, Cut>, vi: VarIndex, lb: real, ub: real, n: int)
    requires KeyedByRightEndpoint(cuts, vi)
    ensures KeyedByRightEndpoint(SecantStep(cuts, vi, lb, ub, n).cuts, vi)
  {
  }

  /** A keyed store is a sound relaxation of x^2 over the integers. */
  lemma KeyedIsSound(cuts: map<Key, Cut>, vi: VarIndex, key: Key)
    requires KeyedByRightEndpoint(cuts, vi)
    requires key in cuts && key.0 == vi
    ensures IntegerUnderestimator(cuts[key])
  {
    SecantIsIntegerUnderestimator(key.1 - 1);
  }

  /** With lb < ub, after add_cut on n the key n or the key n+1 is present:
      at least one guard of add_cut holds, or its key was already taken. */
  lemma SecantStepCovers(cuts: map<Key, Cut>, vi: VarIndex, lb: real, ub: real, n: int)
    requires lb < ub
    ensures (vi, n) in SecantStep(cuts, vi, lb, ub, n).cuts || (vi, n + 1) in SecantStep(cuts, vi, lb, ub, n).cuts
  {
  }

  /** On a keyed store with lb < ub, after add_cut on n the cut under key n
      or under key n+1 passes through (n, n^2). */
  lemma SecantStepTouches(cuts: map<Key, Cut>, vi: VarIndex, lb: real, ub: real, n: int)
    requires KeyedByRightEndpoint(cuts, vi)
    requires lb < ub
    ensures var after := SecantStep(cuts, vi, lb, ub, n).cuts;
      || ((vi, n) in after && LineAt(after[(vi, n)], n as real) == (n * n) as real)
      || ((vi, n + 1) in after && LineAt(after[(vi, n + 1)], n as real) == (n * n) as real)
  {
    SecantStepCovers(cuts, vi, lb, ub, n);
    SecantStepKeyed(cuts, vi, lb, ub, n);
    SecantTouchesAt(n);
  }

  /** After add_cut on n over a keyed store, a solution with x = n whose y
      satisfies every stored cut of vi at n is not reported as a violation
      again by check_tol_add_cut, for any nonnegative tolerance. */
  lemma AddCutClearsViolation(cuts: map<Key, Cut>, vi: VarIndex, lb: real, ub: real, n: int, y: real, tolerance: real)
    requires KeyedByRightEndpoint(cuts, vi)
    requires lb < ub
    requires tolerance >= 0.0
    requires forall key :: key in SecantStep(cuts, vi, lb, ub, n).cuts && key.0 == vi ==>
      y >= LineAt(SecantStep(cuts, vi, lb, ub, n).cuts[key], n as real)
    ensures !((n as real) * (n as real) - y > tolerance)
  {
    var after := SecantStep(cuts, vi, lb, ub, n).cuts;
    SecantStepKeyed(cuts, vi, lb, ub, n);
    SecantStepCovers(cuts, vi, lb, ub, n);
    CoveredPointNotViolated(after, vi, n, y, tolerance);
  }

  /** Once a keyed store holds a cut touching n, a point (n, y) that satisfies
      that cut shows no violation, whatever the nonnegative tolerance: the
      tolerance check cannot fire again at n. */
  lemma CoveredPointNotViolated(cuts: map<Key, Cut>, vi: VarIndex, n: int, y: real, tolerance: real)
    requires KeyedByRightEndpoint(cuts, vi)
    requires tolerance >= 0.0
    requires || ((vi, n) in cuts && y >= LineAt(cuts[(vi, n)], n as real))
             || ((vi, n + 1) in cuts && y >= LineAt(cuts[(vi, n + 1)], n as real))
    ensures !((n as real) * (n as real) - y > tolerance)
  {
    var touching := if (vi, n) in cuts && y >= LineAt(cuts[(vi, n)], n as real) then n - 1 else n;
    assert y >= LineAt(SecantCut(touching), n as real);
    SecantTouchesAt(n);
    SquareCast(n);
  }

  /** Both secants beside n pass through (n, n^2). */
  lemma SecantTouchesAt(n: int)
    ensures LineAt(SecantCut(n - 1), n as real) == (n * n) as real
    ensures LineAt(SecantCut(n), n as real) == (n * n) as real
  {
    var m := n - 1;
    assert LineAt(SecantCut(m), (m + 1) as real) == ((m + 1) * (m + 1)) as real;
    assert m + 1 == n;
  }

  lemma SquareCast(n: int)
    ensures (n as real) * (n as real) == (n * n) as real
  {
  }

  /** The dictionary after add_cut on each of ns in turn. */
  function SecantSteps(cuts: map<Key, Cut>, vi: VarIndex, lb: real, ub: real, ns: seq<int>): map<Key, Cut>
    decreases |ns|
  {
    if ns == [] then cuts
    else SecantStep(SecantSteps(cuts, vi, lb, ub, ns[..|ns| - 1]), vi, lb, ub, ns[|ns| - 1]).cuts
  }

  /** Any sequence of discrete add_cuts only inserts, and keeps the store keyed. */
  lemma {:induction false} SecantStepsInsertOnlyAndKeyed(cuts: map<Key, Cut>, vi: VarIndex, lb: real, ub: real, ns: seq<int>)
    requires KeyedByRightEndpoint(cuts, vi)
    ensures Extends(cuts, SecantSteps(cuts, vi, lb, ub, ns))
    ensures KeyedByRightEndpoint(SecantSteps(cuts, vi, lb, ub, ns), vi)
    decreases |ns|
  {
    if ns != [] {
      var prefix := ns[..|ns| - 1];
      SecantStepsInsertOnlyAndKeyed(cuts, vi, lb, ub, prefix);
      var mid := SecantSteps(cuts, vi, lb, ub, prefix);
      SecantStepInserts(mid, vi, lb, ub, ns[|ns| - 1]);
      SecantStepKeyed(mid, vi, lb, ub, ns[|ns| - 1]);
    }
  }

  /** The counts reported by add_cut on each of ns in turn, summed. */
  function SecantStepsAdded(cuts: map<Key, Cut>, vi: VarIndex, lb: real, ub: real, ns: seq<int>): nat
    decreases |ns|
  {
    if ns == [] then 0
    else
      var prefix := ns[..|ns| - 1];
      SecantStepsAdded(cuts, vi, lb, ub, prefix)
        + SecantStep(SecantSteps(cuts, vi, lb, ub, prefix), vi, lb, ub, ns[|ns| - 1]).added
  }

  /** The dictionary grows by exactly the counts add_cut reports. */
  lemma {:induction false} SecantStepsCount(cuts: map<Key, Cut>, vi: VarIndex, lb: real, ub: real, ns: seq<int>)
    ensures |SecantSteps(cuts, vi, lb, ub, ns).Keys| == |cuts.Keys| + SecantStepsAdded(cuts, vi, lb, ub, ns)
    decreases |ns|
  {
    if ns != [] {
      var prefix := ns[..|ns| - 1];
      SecantStepsCount(cuts, vi, lb, ub, prefix);
      var mid := SecantSteps(cuts, vi, lb, ub, prefix);
      SecantStepInserts(mid, vi, lb, ub, ns[|ns| - 1]);
      SecantStepCount(mid, vi, lb, ub, ns[|ns| - 1]);
    }
  }

  /** Any two of the integers are at least 2 apart, so their secants never
      share an interval. */
  predicate Separated(ns: seq<int>)
  {
    forall i, j :: 0 <= i < j < |ns| ==> ns[i] + 2 <= ns[j] || ns[j] + 2 <= ns[i]
  }

  /** A store holding no cut of vi. */
  ghost predicate NoCutsOf(cuts: map<Key, Cut>, vi: VarIndex)
  {
    forall key :: key in cuts ==> key.0 != vi
  }

  /** Starting without cuts of vi, add_cut on each of ns only takes keys next
      to the values of ns, so both keys beside a value v at least 2 away from
      all of them stay free. */
  lemma {:induction false} FarKeysFree(cuts: map<Key, Cut>, vi: VarIndex, lb: real, ub: real, ns: seq<int>, v: int)
    requires NoCutsOf(cuts, vi)
    requires forall j :: 0 <= j < |ns| ==> ns[j] + 2 <= v || v + 2 <= ns[j]
    ensures (vi, v) !in SecantSteps(cuts, vi, lb, ub, ns)
    ensures (vi, v + 1) !in SecantSteps(cuts, vi, lb, ub, ns)
    decreases |ns|
  {
    if ns != [] {
      var prefix := ns[..|ns| - 1];
      FarKeysFree(cuts, vi, lb, ub, prefix, v);
      SecantStepInserts(SecantSteps(cuts, vi, lb, ub, prefix), vi, lb, ub, ns[|ns| - 1]);
    }
  }

  /** Seeding order of the discrete manager: the lower bound, the upper bound,
      then strictly interior values. When these are pairwise at least 2 apart
      and the store holds no cut of vi, each bound reports one cut and every
      interior value two. */
  lemma {:induction false} SeparatedSeedsAdded(cuts: map<Key, Cut>, vi: VarIndex, lb: real, ub: real, ns: seq<int>)
    requires NoCutsOf(cuts, vi)
    requires lb < ub
    requires |ns| >= 1 ==> ns[0] as real == lb
    requires |ns| >= 2 ==> ns[1] as real == ub
    requires forall i :: 2 <= i < |ns| ==> lb < ns[i] as real < ub
    requires Separated(ns)
    ensures SecantStepsAdded(cuts, vi, lb, ub, ns) == if |ns| <= 2 then |ns| else 2 * |ns| - 2
    decreases |ns|
  {
    if ns != [] {
      var prefix := ns[..|ns| - 1];
      var v := ns[|ns| - 1];
      assert Separated(prefix) by {
        forall i, j | 0 <= i < j < |prefix|
          ensures prefix[i] + 2 <= prefix[j] || prefix[j] + 2 <= prefix[i]
        {
          assert prefix[i] == ns[i] && prefix[j] == ns[j];
        }
      }
      assert |prefix| >= 1 ==> prefix[0] == ns[0];
      assert |prefix| >= 2 ==> prefix[1] == ns[1];
      assert forall i :: 2 <= i < |prefix| ==> prefix[i] == ns[i];
      SeparatedSeedsAdded(cuts, vi, lb, ub, prefix);
      forall j | 0 <= j < |prefix|
        ensures prefix[j] + 2 <= v || v + 2 <= prefix[j]
      {
        assert prefix[j] == ns[j];
      }
      FarKeysFree(cuts, vi, lb, ub, prefix, v);
      FreeStepAdded(SecantSteps(cuts, vi, lb, ub, prefix), vi, lb, ub, v);
    }
  }

  /** add_cut on v with both neighbouring keys free reports one cut per
      bound guard that holds. */
  lemma FreeStepAdded(cuts: map<Key, Cut>, vi: VarIndex, lb: real, ub: real, v: int)
    requires (vi, v) !in cuts && (vi, v + 1) !in cuts
    ensures SecantStep(cuts, vi, lb, ub, v).added == (if (v as real) < ub then 1 else 0) + (if (v as real) > lb then 1 else 0)
  {
  }

  /** For bounds (-2, 2): add_cut(-2) then add_cut(2) leave exactly the
      keys -1 and 2, holding the secants of (-2, -1) and (1, 2). */
  lemma SecantStepsExample(vi: VarIndex)
    ensures SecantSteps(map[], vi, -2.0, 2.0, [-2, 2]).Keys == {(vi, -1), (vi, 2)}
    ensures SecantSteps(map[], vi, -2.0, 2.0, [-2, 2])[(vi, -1)] == Cut(-3.0, -2.0)
    ensures SecantSteps(map[], vi, -2.0, 2.0, [-2, 2])[(vi, 2)] == Cut(3.0, -2.0)
  {
    var s1 := SecantStep(map[], vi, -2.0, 2.0, -2);
    assert s1.cuts == map[(vi, -1) := SecantCut(-2)];
    assert [-2, 2][..1] == [-2];
  }
}
