/** Where the managers place their initial cuts: the evenly spaced interior
    points of _get_additional_points and the full seeding sequences of both
    variants' _create_initial_cuts. */
module InitialPoints {
  import opened CutMath

  /** The q - 2 points lb + i * (ub - lb) / (q - 1) for i = 1 .. q - 2, which
      split [lb, ub] into q - 1 equal steps; nothing when q <= 2 (the two
      bounds already account for two cuts). */
  function AdditionalPoints(lb: real, ub: real, q: int): (pts: seq<real>)
    ensures q <= 2 ==> pts == []
    ensures q > 2 ==> |pts| == q - 2
  {
    if q <= 2 then []
    else
      var delta := (ub - lb) / (q - 1) as real;
      seq(q - 2, i requires 0 <= i < q - 2 => lb + (i + 1) as real * delta)
  }

  /** Consecutive points, and the bounds around them, are one step
      (ub - lb) / (q - 1) apart. */
  lemma AdditionalPointsEvenlySpaced(lb: real, ub: real, q: int)
    requires q > 2
    ensures AdditionalPoints(lb, ub, q)[0] == lb + (ub - lb) / (q - 1) as real
    ensures AdditionalPoints(lb, ub, q)[q - 3] + (ub - lb) / (q - 1) as real == ub
    ensures forall i :: 0 <= i < q - 3 ==>
      AdditionalPoints(lb, ub, q)[i + 1] - AdditionalPoints(lb, ub, q)[i] == (ub - lb) / (q - 1) as real
  {
    var d := (ub - lb) / (q - 1) as real;
    var pts := AdditionalPoints(lb, ub, q);
    assert d * (q - 1) as real == ub - lb;
    assert pts[q - 3] == lb + (q - 2) as real * d;
    forall i | 0 <= i < q - 3
      ensures pts[i + 1] - pts[i] == d
    {
      assert pts[i + 1] == lb + (i + 2) as real * d;
      assert pts[i] == lb + (i + 1) as real * d;
    }
  }

  /** When lb < ub every additional point lies strictly inside the bounds. */
  lemma AdditionalPointsInterior(lb: real, ub: real, q: int)
    requires lb < ub
    ensures forall p :: p in AdditionalPoints(lb, ub, q) ==> lb < p < ub
  {
    var pts := AdditionalPoints(lb, ub, q);
    forall i | 0 <= i < |pts|
      ensures lb < pts[i] < ub
    {
      assert pts[i] == lb + (i + 1) as real * ((ub - lb) / (q - 1) as real);
      ScaledBetween((i + 1) as real, (q - 1) as real, ub - lb);
    }
  }

  lemma ScaledBetween(k: real, n: real, w: real)
    requires 1.0 <= k < n
    requires w > 0.0
    ensures 0.0 < k * (w / n) < w
  {
    var d := w / n;
    assert d * n == w;
    assert k * d < n * d;
  }

  /** The points at which the continuous manager seeds tangent cuts, in
      order: lb unless it is zero; then, unless the variable is fixed, ub
      unless it is zero, followed by the additional points. */
  function ContinuousSeedPoints(lb: real, ub: real, q: int): seq<real>
  {
    (if lb != 0.0 then [lb] else [])
      + (if lb == ub then []
         else (if ub != 0.0 then [ub] else []) + AdditionalPoints(lb, ub, q))
  }

  /** With ordered bounds every seed point lies within them. */
  lemma ContinuousSeedPointsWithinBounds(lb: real, ub: real, q: int)
    requires lb <= ub
    ensures forall p :: p in ContinuousSeedPoints(lb, ub, q) ==> lb <= p <= ub
  {
    if lb < ub {
      AdditionalPointsInterior(lb, ub, q);
    }
  }

  /** How many tangent cuts seeding creates. */
  lemma ContinuousSeedCount(lb: real, ub: real, q: int)
    ensures |ContinuousSeedPoints(lb, ub, q)| ==
      (if lb != 0.0 then 1 else 0)
      + (if lb == ub then 0 else (if ub != 0.0 then 1 else 0) + (if q > 2 then q - 2 else 0))
  {
  }

  /** Bounds (0, 5) seed one cut (the tangent at 0 is skipped); (-3, 5) seed two. */
  lemma ContinuousSeedExamples()
    ensures |ContinuousSeedPoints(0.0, 5.0, 2)| == 1
    ensures |ContinuousSeedPoints(-3.0, 5.0, 2)| == 2
    ensures ContinuousSeedPoints(2.0, 2.0, 5) == [2.0]
  {
  }

  /** The integers the discrete manager hands to its add_cut while seeding a
      variable that is not fixed: both bounds, then q // 2 + 1 - 2 interior
      breakpoints (each breakpoint may yield two cuts, so half as many). */
  function DiscreteSeedValues(lb: real, ub: real, q: int): (ns: seq<int>)
    ensures |ns| == 2 + (if q >= 4 then q / 2 - 1 else 0)
    ensures ns[0] == RoundHalfEven(lb) && ns[1] == RoundHalfEven(ub)
  {
    var pts := AdditionalPoints(lb, ub, q / 2 + 1);
    [RoundHalfEven(lb), RoundHalfEven(ub)] + seq(|pts|, i requires 0 <= i < |pts| => RoundHalfEven(pts[i]))
  }

  /** With ordered bounds every additional point lies within them (on the
      bound itself when the variable is fixed). */
  lemma AdditionalPointsWithinBounds(lb: real, ub: real, q: int)
    requires lb <= ub
    ensures forall p :: p in AdditionalPoints(lb, ub, q) ==> lb <= p <= ub
  {
    if lb < ub {
      AdditionalPointsInterior(lb, ub, q);
    } else {
      var pts := AdditionalPoints(lb, ub, q);
      forall i | 0 <= i < |pts|
        ensures pts[i] == lb
      {
        assert (ub - lb) / (q - 1) as real == 0.0;
      }
    }
  }

  /** With ordered bounds the rounded bounds come first, in order, and every
      interior seed value lies between them: rounding never pushes an
      interior breakpoint past a rounded bound. */
  lemma DiscreteSeedValuesBetweenBounds(lb: real, ub: real, q: int)
    requires lb <= ub
    ensures DiscreteSeedValues(lb, ub, q)[0] <= DiscreteSeedValues(lb, ub, q)[1]
    ensures forall i :: 2 <= i < |DiscreteSeedValues(lb, ub, q)| ==>
      DiscreteSeedValues(lb, ub, q)[0] <= DiscreteSeedValues(lb, ub, q)[i] <= DiscreteSeedValues(lb, ub, q)[1]
  {
    var ns := DiscreteSeedValues(lb, ub, q);
    var pts := AdditionalPoints(lb, ub, q / 2 + 1);
    RoundMonotone(lb, ub);
    AdditionalPointsWithinBounds(lb, ub, q / 2 + 1);
    forall i | 2 <= i < |ns|
      ensures ns[0] <= ns[i] <= ns[1]
    {
      assert pts[i - 2] in pts;
      assert ns[i] == RoundHalfEven(pts[i - 2]);
      RoundMonotone(lb, pts[i - 2]);
      RoundMonotone(pts[i - 2], ub);
    }
  }
}
