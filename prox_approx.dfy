/** The proximal outer-approximation managers: one per bounded
    nonanticipative variable x, each adding cuts y >= m x + b under the
    proxy y for x^2 into a dictionary shared with the caller. */
module ProxApprox {
  import opened Outcomes
  import opened CutMath
  import opened InitialPoints
  import opened CutStorage

  /** Why construction raises. */
  datatype ConstructionError =
    | MissingBounds      // the variable lacks a lower or an upper bound
    | MissingCreateCut   // a fixed integer variable: seeding calls a method that does not exist

  /** _verify_lb_ub: both bounds must be present. */
  function VerifyBounds(lb: Option<real>, ub: Option<real>): (r: Result<(real, real), ConstructionError>)
    ensures r.Success? <==> lb.Some? && ub.Some?
    ensures r.Success? ==> r.value == (lb.value, ub.value)
    ensures r.Failure? ==> r.error == MissingBounds
  {
    if lb.None? || ub.None? then Failure(MissingBounds) else Success((lb.value, ub.value))
  }

  lemma AppendNext<T>(prefix: seq<T>, s: seq<T>, i: int)
    requires 0 <= i < |s|
    ensures prefix + s[..i + 1] == (prefix + s[..i]) + [s[i]]
  {
    assert s[..i + 1] == s[..i] + [s[i]];
  }

  lemma AppendAll<T>(a: seq<T>, b: seq<T>, c: seq<T>)
    ensures (a + b) + c[..|c|] == a + (b + c)
  {
    assert c[..|c|] == c;
  }

  /** Asking for 7 initial cuts on an integer variable bounded by (0, 10)
      stores 6: add_cut runs on 0, 10 and the rounded breakpoints 3 and 7,
      and the two interior ones each add a cut on both sides. */
  lemma DiscreteSeedingExample(vi: VarIndex)
    ensures DiscreteSeedValues(0.0, 10.0, 7) == [0, 10, 3, 7]
    ensures SecantSteps(map[], vi, 0.0, 10.0, [0, 10, 3, 7]).Keys
         == {(vi, 1), (vi, 10), (vi, 3), (vi, 4), (vi, 7), (vi, 8)}
    ensures |SecantSteps(map[], vi, 0.0, 10.0, [0, 10, 3, 7]).Keys| == 6
  {
    var pts := AdditionalPoints(0.0, 10.0, 4);
    assert pts == [10.0 / 3.0, 20.0 / 3.0];
    RoundNearest(10.0 / 3.0, 3);
    RoundNearest(20.0 / 3.0, 7);
    var ns := [0, 10, 3, 7];
    assert ns[..3] == [0, 10, 3] && ns[..3][..2] == [0, 10] && ns[..3][..2][..1] == [0];
    var s1 := SecantSteps(map[], vi, 0.0, 10.0, [0]);
    assert s1.Keys == {(vi, 1)};
    var s2 := SecantSteps(map[], vi, 0.0, 10.0, [0, 10]);
    assert s2 == SecantStep(s1, vi, 0.0, 10.0, 10).cuts;
    assert s2.Keys == {(vi, 1), (vi, 10)};
    var s3 := SecantSteps(map[], vi, 0.0, 10.0, [0, 10, 3]);
    assert s3 == SecantStep(s2, vi, 0.0, 10.0, 3).cuts;
    assert s3.Keys == {(vi, 1), (vi, 10), (vi, 4), (vi, 3)};
    assert SecantSteps(map[], vi, 0.0, 10.0, ns) == SecantStep(s3, vi, 0.0, 10.0, 7).cuts;
    var keys := {(vi, 1), (vi, 10), (vi, 3), (vi, 4), (vi, 7), (vi, 8)};
    assert |keys| == 6;
  }

  /** Each interior breakpoint of discrete seeding yields a left and a right
      cut, so asking for q cuts stores 2 * (q / 2): both bounds integral, the
      seed values pairwise at least 2 apart, and no earlier cut of vi. */
  lemma DiscreteSeedingCount(cuts: map<Key, Cut>, vi: VarIndex, lb: real, ub: real, q: int)
    requires q >= 2
    requires NoCutsOf(cuts, vi)
    requires lb <= ub
    requires lb == RoundHalfEven(lb) as real && ub == RoundHalfEven(ub) as real
    requires Separated(DiscreteSeedValues(lb, ub, q))
    ensures |SecantSteps(cuts, vi, lb, ub, DiscreteSeedValues(lb, ub, q)).Keys| == |cuts.Keys| + 2 * (q / 2)
  {
    var ns := DiscreteSeedValues(lb, ub, q);
    DiscreteSeedValuesBetweenBounds(lb, ub, q);
    assert ns[0] + 2 <= ns[1];
    forall i | 2 <= i < |ns|
      ensures lb < ns[i] as real < ub
    {
      assert ns[0] < ns[i] < ns[1];
    }
    SeparatedSeedsAdded(cuts, vi, lb, ub, ns);
    SecantStepsCount(cuts, vi, lb, ub, ns);
  }

  /** Manager of a continuous variable: tangent cuts keyed by a counter. */
  class ContinuousManager {
    const varIndex: VarIndex
    const lb: real
    const ub: real
    const store: CutStore
    var cutIndex: int

    constructor (varIndex: VarIndex, lb: real, ub: real, store: CutStore)
      ensures this.varIndex == varIndex && this.lb == lb && this.ub == ub && this.store == store
      ensures cutIndex == 0
    {
      this.varIndex := varIndex;
      this.lb := lb;
      this.ub := ub;
      this.store := store;
      cutIndex := 0;
    }

    /** add_cut: store the tangent at val under the current counter, advance
        the counter, and report one cut; no other key changes. */
    method AddCut(val: real) returns (added: int)
      modifies this, store
      ensures added == 1
      ensures store.cuts == old(store.cuts)[(varIndex, old(cutIndex)) := TangentAt(val)]
      ensures cutIndex == old(cutIndex) + 1
    {
      store.cuts := store.cuts[(varIndex, cutIndex) := TangentAt(val)];
      cutIndex := cutIndex + 1;
      added := 1;
    }

    /** _create_initial_cuts: a tangent at every point of ContinuousSeedPoints,
        in order, under consecutive counter values. */
    method CreateInitialCuts(q: int)
      modifies this, store
      ensures cutIndex == old(cutIndex) + |ContinuousSeedPoints(lb, ub, q)|
      ensures store.cuts == TangentsFrom(old(store.cuts), varIndex, old(cutIndex), ContinuousSeedPoints(lb, ub, q))
    {
      ghost var start := cutIndex;
      ghost var lower: seq<real> := [];
      if lb != 0.0 {
        var _ := AddCut(lb);
        TangentsFromSnoc(old(store.cuts), varIndex, start, [], lb);
        lower := [lb];
      }
      if lb == ub {
        return;
      }
      ghost var upper: seq<real> := [];
      if ub != 0.0 {
        var _ := AddCut(ub);
        TangentsFromSnoc(old(store.cuts), varIndex, start, lower, ub);
        upper := [ub];
      }
      var points := AdditionalPoints(lb, ub, q);
      AddCutsAt(points, old(store.cuts), start, lower + upper);
      AppendAll(lower, upper, points);
    }

    /** The loop over the additional points: add_cut at each in turn, after
        the cuts already stored at done. */
    method AddCutsAt(points: seq<real>, ghost before: map<Key, Cut>, ghost start: int, ghost done: seq<real>)
      requires cutIndex == start + |done|
      requires store.cuts == TangentsFrom(before, varIndex, start, done)
      modifies this, store
      ensures cutIndex == start + |done| + |points|
      ensures store.cuts == TangentsFrom(before, varIndex, start, done + points[..|points|])
    {
      assert done + points[..0] == done;
      for i := 0 to |points|
        invariant cutIndex == start + |done| + i
        invariant store.cuts == TangentsFrom(before, varIndex, start, done + points[..i])
      {
        var _ := AddCut(points[i]);
        TangentsFromSnoc(before, varIndex, start, done + points[..i], points[i]);
        AppendNext(done, points, i);
      }
    }

    /** check_tol_add_cut: with the solver's values x for the variable and y
        for its square proxy, add the cut at x exactly when x^2 - y exceeds
        the tolerance. */
    method CheckTolAddCut(x: real, y: real, tolerance: real) returns (added: bool)
      modifies this, store
      ensures added <==> x * x - y > tolerance
      ensures added ==> store.cuts == old(store.cuts)[(varIndex, old(cutIndex)) := TangentAt(x)]
                        && cutIndex == old(cutIndex) + 1
      ensures !added ==> store.cuts == old(store.cuts) && cutIndex == old(cutIndex)
    {
      if x * x - y > tolerance {
        var _ := AddCut(x);
        return true;
      }
      return false;
    }

    /** Construction: verify the bounds before anything else, then seed. */
    static method Create(varIndex: VarIndex, lb: Option<real>, ub: Option<real>, store: CutStore, q: int)
      returns (r: Result<ContinuousManager, ConstructionError>)
      modifies store
      ensures r.Failure? <==> lb.None? || ub.None?
      ensures r.Failure? ==> r.error == MissingBounds && store.cuts == old(store.cuts)
      ensures r.Success? ==>
        && fresh(r.value)
        && r.value.varIndex == varIndex && r.value.store == store
        && r.value.lb == lb.value && r.value.ub == ub.value
        && r.value.cutIndex == |ContinuousSeedPoints(lb.value, ub.value, q)|
        && store.cuts == TangentsFrom(old(store.cuts), varIndex, 0, ContinuousSeedPoints(lb.value, ub.value, q))
    {
      var bounds := VerifyBounds(lb, ub);
      if bounds.Failure? {
        return Failure(bounds.error);
      }
      var m := new ContinuousManager(varIndex, bounds.value.0, bounds.value.1, store);
      m.CreateInitialCuts(q);
      return Success(m);
    }
  }

  /** Manager of an integer variable: secant cuts keyed by the right end of
      their interval, at most one per interval. */
  class DiscreteManager {
    const varIndex: VarIndex
    const lb: real
    const ub: real
    const store: CutStore

    constructor (varIndex: VarIndex, lb: real, ub: real, store: CutStore)
      ensures this.varIndex == varIndex && this.lb == lb && this.ub == ub && this.store == store
    {
      this.varIndex := varIndex;
      this.lb := lb;
      this.ub := ub;
      this.store := store;
    }

    /** add_cut: round val and insert the secants beside it that are missing
        and inside the bounds; report how many were inserted. */
    method AddCut(val: real) returns (added: nat)
      modifies store
      ensures StepResult(store.cuts, added) == SecantStep(old(store.cuts), varIndex, lb, ub, RoundHalfEven(val))
    {
      var n := RoundHalfEven(val);
      added := 0;
      if (varIndex, n + 1) !in store.cuts && (n as real) < ub {
        store.cuts := store.cuts[(varIndex, n + 1) := SecantCut(n)];
        added := added + 1;
      }
      if (varIndex, n) !in store.cuts && (n as real) > lb {
        store.cuts := store.cuts[(varIndex, n) := SecantCut(n - 1)];
        added := added + 1;
      }
    }

    /** _create_initial_cuts: a fixed variable fails (the method it calls is
        missing) with nothing stored; otherwise add_cut on both bounds and on
        the interior points, in order. */
    method CreateInitialCuts(q: int) returns (err: Option<ConstructionError>)
      modifies store
      ensures err.Some? <==> lb == ub
      ensures err.Some? ==> err.value == MissingCreateCut && store.cuts == old(store.cuts)
      ensures err.None? ==> store.cuts == SecantSteps(old(store.cuts), varIndex, lb, ub, DiscreteSeedValues(lb, ub, q))
    {
      if lb == ub {
        return Some(MissingCreateCut);
      }
      var values := [lb, ub] + AdditionalPoints(lb, ub, q / 2 + 1);
      ghost var seeds := DiscreteSeedValues(lb, ub, q);
      assert |seeds| == |values|;
      for i := 0 to |values|
        invariant store.cuts == SecantSteps(old(store.cuts), varIndex, lb, ub, seeds[..i])
      {
        var _ := AddCut(values[i]);
        assert seeds[i] == RoundHalfEven(values[i]);
        assert seeds[..i + 1][..i] == seeds[..i];
      }
      assert seeds[..|values|] == seeds;
      return None;
    }

    /** check_tol_add_cut: report a violation exactly when x^2 - y exceeds the
        tolerance, and then run add_cut at x (which may insert nothing). */
    method CheckTolAddCut(x: real, y: real, tolerance: real) returns (added: bool)
      modifies store
      ensures added <==> x * x - y > tolerance
      ensures added ==> store.cuts == SecantStep(old(store.cuts), varIndex, lb, ub, RoundHalfEven(x)).cuts
      ensures !added ==> store.cuts == old(store.cuts)
    {
      if x * x - y > tolerance {
        var _ := AddCut(x);
        return true;
      }
      return false;
    }

    /** Construction: verify the bounds before anything else, then seed. */
    static method Create(varIndex: VarIndex, lb: Option<real>, ub: Option<real>, store: CutStore, q: int)
      returns (r: Result<DiscreteManager, ConstructionError>)
      modifies store
      ensures r.Failure? <==> lb.None? || ub.None? || lb == ub
      ensures r.Failure? ==> store.cuts == old(store.cuts)
      ensures r.Failure? ==> (r.error == MissingBounds <==> lb.None? || ub.None?)
      ensures r.Success? ==>
        && fresh(r.value)
        && r.value.varIndex == varIndex && r.value.store == store
        && r.value.lb == lb.value && r.value.ub == ub.value
        && store.cuts == SecantSteps(old(store.cuts), varIndex, lb.value, ub.value, DiscreteSeedValues(lb.value, ub.value, q))
    {
      var bounds := VerifyBounds(lb, ub);
      if bounds.Failure? {
        return Failure(bounds.error);
      }
      var m := new DiscreteManager(varIndex, bounds.value.0, bounds.value.1, store);
      var err := m.CreateInitialCuts(q);
      if err.Some? {
        return Failure(err.value);
      }
      return Success(m);
    }
  }

  /** The manager ProxApproxManager(...) hands back: the variant follows the
      variable's integrality. */
  datatype Manager = Continuous(continuous: ContinuousManager) | Discrete(discrete: DiscreteManager)

  method NewManager(isInteger: bool, varIndex: VarIndex, lb: Option<real>, ub: Option<real>, store: CutStore, q: int)
    returns (r: Result<Manager, ConstructionError>)
    modifies store
    ensures r.Success? ==> (r.value.Discrete? <==> isInteger)
    ensures r.Failure? <==> lb.None? || ub.None? || (isInteger && lb == ub)
    ensures r.Failure? ==> store.cuts == old(store.cuts)
    ensures r.Failure? ==> (r.error == MissingBounds <==> lb.None? || ub.None?)
    ensures r.Success? && r.value.Continuous? ==>
      && fresh(r.value.continuous)
      && r.value.continuous.varIndex == varIndex && r.value.continuous.store == store
      && r.value.continuous.lb == lb.value && r.value.continuous.ub == ub.value
      && r.value.continuous.cutIndex == |ContinuousSeedPoints(lb.value, ub.value, q)|
    ensures r.Success? && r.value.Discrete? ==>
      && fresh(r.value.discrete)
      && r.value.discrete.varIndex == varIndex && r.value.discrete.store == store
      && r.value.discrete.lb == lb.value && r.value.discrete.ub == ub.value
    ensures r.Success? && !isInteger ==>
      store.cuts == TangentsFrom(old(store.cuts), varIndex, 0, ContinuousSeedPoints(lb.value, ub.value, q))
    ensures r.Success? && isInteger ==>
      store.cuts == SecantSteps(old(store.cuts), varIndex, lb.value, ub.value, DiscreteSeedValues(lb.value, ub.value, q))
  {
    if isInteger {
      var d := DiscreteManager.Create(varIndex, lb, ub, store, q);
      if d.Failure? {
        return Failure(d.error);
      }
      return Success(Discrete(d.value));
    } else {
      var c := ContinuousManager.Create(varIndex, lb, ub, store, q);
      if c.Failure? {
        return Failure(c.error);
      }
      return Success(Continuous(c.value));
    }
  }
}
