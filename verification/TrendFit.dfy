/** The least-squares trend of a benchmark series, over exact reals: the slope fitted by hand
    really is the best one, and its sign says what the classification claims. */
module TrendFit {
  import opened Prelude
  import opened Vectors

  datatype Direction = Improving | Degrading | Flat | InsufficientData

  function Xs(n: nat): seq<real> {
    seq(n, i requires 0 <= i < n => i as real)
  }

  function Mean(s: seq<real>): real
    requires s != []
  {
    Sum(s) / |s| as real
  }

  function Numerator(ys: seq<real>): real
    requires ys != []
  {
    Dot(Shift(Xs(|ys|), Mean(Xs(|ys|))), Shift(ys, Mean(ys)))
  }

  function Denominator(n: nat): real
    requires n > 0
  {
    Dot(Shift(Xs(n), Mean(Xs(n))), Shift(Xs(n), Mean(Xs(n))))
  }

  function Slope(ys: seq<real>): real
    requires |ys| >= 2
  {
    if Denominator(|ys|) == 0.0 then 0.0 else Numerator(ys) / Denominator(|ys|)
  }

  function Abs(x: real): real {
    if x < 0.0 then -x else x
  }

  function Classify(values: seq<real>, epsilon: real): (Direction, Option<real>) {
    if |values| < 2 then (InsufficientData, None)
    else
      var slope := Slope(values);
      if Abs(slope) < epsilon then (Flat, Some(slope))
      else if slope > 0.0 then (Improving, Some(slope))
      else (Degrading, Some(slope))
  }

  // ----- The centre of 0..n-1 -----

  lemma {:induction false} SumOfIndices(n: nat, k: nat)
    requires k <= n
    ensures 2.0 * SumTo(Xs(n), k) == k as real * (k as real - 1.0)
  {
    if k == 0 {
    } else {
      SumOfIndices(n, k - 1);
      assert k as real * (k as real - 1.0) == (k as real - 1.0) * (k as real - 2.0) + 2.0 * (k as real - 1.0);
    }
  }

  lemma Cancel(d: real, p: real, q: real)
    requires d > 0.0 && d * p == d * q
    ensures p == q
  {
    assert d * (p - q) == 0.0;
  }

  lemma Quotient(a: real, d: real)
    requires d != 0.0
    ensures d * (a / d) == a
    ensures a > 0.0 && d > 0.0 ==> a / d > 0.0
    ensures a == 0.0 ==> a / d == 0.0
    ensures (-a) / d == -(a / d)
  {
  }

  lemma Halved(sum: real, n: real)
    requires 2.0 * sum == n * (n - 1.0)
    ensures sum == n * ((n - 1.0) / 2.0)
  {
  }

  lemma MeanOfIndices(n: nat)
    requires n > 0
    ensures Mean(Xs(n)) == (n as real - 1.0) / 2.0
  {
    SumOfIndices(n, n);
    var half := (n as real - 1.0) / 2.0;
    Halved(Sum(Xs(n)), n as real);
    MeanBalances(Xs(n));
    Cancel(n as real, Mean(Xs(n)), half);
  }

  lemma MeanBalances(s: seq<real>)
    requires s != []
    ensures |s| as real * Mean(s) == Sum(s)
  {
    Quotient(Sum(s), |s| as real);
  }

  /** The deviations of the indices from their mean. */
  function Dx(n: nat): seq<real>
    requires n > 0
  {
    Shift(Xs(n), Mean(Xs(n)))
  }

  lemma DxCancels(n: nat)
    requires n > 0
    ensures Dot(Dx(n), Ones(n)) == 0.0
  {
    MeanBalances(Xs(n));
    DeviationsCancel(Xs(n), Mean(Xs(n)));
  }

  /** The centre of the values may be moved freely. */
  lemma Recentred(ys: seq<real>, c: real)
    requires ys != []
    ensures Numerator(ys) == Dot(Dx(|ys|), Shift(ys, c))
  {
    DxCancels(|ys|);
    ShiftInvisible(Dx(|ys|), ys, Mean(ys), c);
  }

  lemma FirstDeviation(n: nat)
    requires n >= 2
    ensures Dx(n)[0] < 0.0 < Dx(n)[n - 1] && Dx(n)[0] != Dx(n)[1]
    ensures forall i :: 0 <= i < n ==> Dx(n)[i] == i as real - (n as real - 1.0) / 2.0
  {
    MeanOfIndices(n);
  }

  /** With two or more points the denominator is positive: the guard for zero is never taken. */
  lemma DenominatorPositive(n: nat)
    requires n >= 2
    ensures Denominator(n) > 0.0
  {
    FirstDeviation(n);
    DotSelf(Dx(n), 0);
  }

  // ----- The sign of the slope -----

  predicate NeverFalls(ys: seq<real>) {
    forall i, j :: 0 <= i < j < |ys| ==> ys[i] <= ys[j]
  }

  /** Measured from the middle value, every index and its value deviate in the same sense. */
  lemma PivotSign(ys: seq<real>, i: nat)
    requires |ys| >= 2 && i < |ys| && NeverFalls(ys)
    ensures Dx(|ys|)[i] * Shift(ys, ys[|ys| / 2])[i] >= 0.0
  {
    FirstDeviation(|ys|);
    if i < |ys| / 2 {
      assert (i + 1) as real <= (|ys| / 2) as real;
    } else {
      assert i == |ys| / 2 || ys[|ys| / 2] <= ys[i];
    }
    SameSign(Dx(|ys|)[i], Shift(ys, ys[|ys| / 2])[i]);
  }

  lemma SomeRise(ys: seq<real>) returns (i: nat)
    requires |ys| >= 2 && NeverFalls(ys) && ys[0] < ys[|ys| - 1]
    ensures i < |ys| && Dx(|ys|)[i] * Shift(ys, ys[|ys| / 2])[i] > 0.0
  {
    i := if ys[0] < ys[|ys| / 2] then 0 else |ys| - 1;
    FirstDeviation(|ys|);
    SameSign(Dx(|ys|)[i], Shift(ys, ys[|ys| / 2])[i]);
  }

  lemma RisingNumerator(ys: seq<real>)
    requires |ys| >= 2 && NeverFalls(ys) && ys[0] < ys[|ys| - 1]
    ensures Numerator(ys) > 0.0
  {
    var pivot := ys[|ys| / 2];
    forall i | 0 <= i < |ys| ensures Dx(|ys|)[i] * Shift(ys, pivot)[i] >= 0.0 { PivotSign(ys, i); }
    var i := SomeRise(ys);
    DotPositive(Dx(|ys|), Shift(ys, pivot), i);
    Recentred(ys, pivot);
  }

  /** A series that never falls, and does rise, has a positive slope. */
  lemma RisingSlopePositive(ys: seq<real>)
    requires |ys| >= 2 && NeverFalls(ys) && ys[0] < ys[|ys| - 1]
    ensures Slope(ys) > 0.0
  {
    RisingNumerator(ys);
    DenominatorPositive(|ys|);
    Quotient(Numerator(ys), Denominator(|ys|));
  }

  lemma ConstantSlope(ys: seq<real>)
    requires |ys| >= 2 && NeverFalls(ys) && ys[0] == ys[|ys| - 1]
    ensures Slope(ys) == 0.0
  {
    var n := |ys|;
    Recentred(ys, ys[0]);
    var zero := Shift(ys, ys[0]);
    forall i | 0 <= i < n ensures zero[i] == 0.0 {
      assert i == 0 || ys[0] <= ys[i];
      assert i == n - 1 || ys[i] <= ys[n - 1];
    }
    assert zero == Combine(0.0, Ones(n), 0.0, Ones(n));
    DotCombine(Dx(n), 0.0, Ones(n), 0.0, Ones(n));
    DenominatorPositive(n);
    Quotient(Numerator(ys), Denominator(n));
  }

  lemma DxReversed(n: nat)
    requires n >= 2
    ensures Dx(n) == Combine(-1.0, Reverse(Dx(n)), 0.0, Ones(n))
  {
    FirstDeviation(n);
  }

  /** Reading a series backwards turns its slope around. */
  lemma ReversedSlope(ys: seq<real>)
    requires |ys| >= 2
    ensures Slope(Reverse(ys)) == -Slope(ys)
  {
    var n, rs := |ys|, Reverse(ys);
    var dy, dr := Shift(ys, 0.0), Shift(rs, 0.0);
    Recentred(ys, 0.0);
    Recentred(rs, 0.0);
    assert dr == Reverse(dy);
    DxReversed(n);
    DotToSymmetric(Dx(n), dr, n);
    DotCombine(dr, -1.0, Reverse(Dx(n)), 0.0, Ones(n));
    DotReverse(dy, Dx(n));
    DotToSymmetric(dy, Dx(n), n);
    DenominatorPositive(n);
    Quotient(Numerator(ys), Denominator(n));
  }

  /** A series that never falls is called degrading only when it is constant and the tolerance
      is not positive: then even a slope of zero is not flat. */
  lemma NeverFallsNeverDegrades(ys: seq<real>, epsilon: real)
    requires NeverFalls(ys)
    ensures Classify(ys, epsilon).0 == Degrading <==> |ys| >= 2 && ys[0] == ys[|ys| - 1] && epsilon <= 0.0
  {
    if |ys| >= 2 {
      if ys[0] < ys[|ys| - 1] { RisingSlopePositive(ys); } else { ConstantSlope(ys); }
    }
  }

  /** A concrete input: two equal values under no tolerance. */
  lemma ConstantPairDegrades(c: real)
    ensures NeverFalls([c, c]) && Classify([c, c], 0.0).0 == Degrading
  {
    NeverFallsNeverDegrades([c, c], 0.0);
  }

  /** The direction of a series read backwards. */
  function Opposite(d: Direction): Direction {
    match d
    case Improving => Degrading
    case Degrading => Improving
    case _ => d
  }

  /** The values, weighed by their indices, balance around the middle. */
  predicate Balanced(ys: seq<real>) {
    2.0 * Dot(Xs(|ys|), ys) == (|ys| as real - 1.0) * Sum(ys)
  }

  lemma NumeratorInSums(ys: seq<real>)
    requires |ys| >= 2
    ensures 2.0 * Numerator(ys) == 2.0 * Dot(Xs(|ys|), ys) - (|ys| as real - 1.0) * Sum(ys)
  {
    var n := |ys|;
    var half := (n as real - 1.0) / 2.0;
    Recentred(ys, 0.0);
    assert Shift(ys, 0.0) == ys;
    MeanOfIndices(n);
    assert Dx(n) == Combine(1.0, Xs(n), -half, Ones(n));
    DotToSymmetric(Dx(n), ys, n);
    DotCombine(ys, 1.0, Xs(n), -half, Ones(n));
    DotToSymmetric(ys, Xs(n), n);
    DotToOnes(ys, n);
    Doubled(Dot(Xs(n), ys), half, Sum(ys), n as real);
  }

  lemma Doubled(dot: real, half: real, sum: real, n: real)
    requires half == (n - 1.0) / 2.0
    ensures 2.0 * (1.0 * dot + (-half) * sum) == 2.0 * dot - (n - 1.0) * sum
  {
    assert 2.0 * half == n - 1.0;
    assert 2.0 * ((-half) * sum) == -((2.0 * half) * sum);
  }

  /** When the fitted slope is zero, told from the values. */
  lemma FlatExactly(ys: seq<real>)
    requires |ys| >= 2
    ensures Slope(ys) == 0.0 <==> Balanced(ys)
  {
    DenominatorPositive(|ys|);
    Quotient(Numerator(ys), Denominator(|ys|));
    NumeratorInSums(ys);
  }

  /** Reading a series backwards turns its direction around, except that a balanced series under
      a tolerance that is not positive is degrading both ways. */
  lemma DirectionsAgree(ys: seq<real>, epsilon: real)
    ensures Classify(Reverse(ys), epsilon).0 == Opposite(Classify(ys, epsilon).0) <==>
            !(|ys| >= 2 && Balanced(ys) && epsilon <= 0.0)
  {
    if |ys| >= 2 {
      ReversedSlope(ys);
      FlatExactly(ys);
    }
  }

  /** A concrete input: a series that rises and falls again degrades both ways. */
  lemma PeakDegradesBothWays()
    ensures var ys := [0.0, 1.0, 0.0];
            Classify(ys, 0.0).0 == Degrading && Classify(Reverse(ys), 0.0).0 == Degrading
  {
    var ys := [0.0, 1.0, 0.0];
    assert Reverse(ys) == ys;
    assert Sum(ys) == SumTo(ys, 2) + ys[2] && SumTo(ys, 2) == SumTo(ys, 1) + ys[1];
    assert SumTo(ys, 1) == SumTo(ys, 0) + ys[0];
    var xs := Xs(3);
    assert Dot(xs, ys) == DotTo(xs, ys, 2) + xs[2] * ys[2];
    assert DotTo(xs, ys, 2) == DotTo(xs, ys, 1) + xs[1] * ys[1] && DotTo(xs, ys, 1) == DotTo(xs, ys, 0) + xs[0] * ys[0];
    assert Balanced(ys);
    FlatExactly(ys);
  }

  // ----- The fitted line is the best line -----

  function Residuals(ys: seq<real>, a: real, b: real): seq<real> {
    seq(|ys|, i requires 0 <= i < |ys| => ys[i] - a - b * i as real)
  }

  /** The squared error of the line a + b * x. */
  function SquaredError(ys: seq<real>, a: real, b: real): real {
    Dot(Residuals(ys, a, b), Residuals(ys, a, b))
  }

  function Intercept(ys: seq<real>): real
    requires |ys| >= 2
  {
    Mean(ys) - Slope(ys) * Mean(Xs(|ys|))
  }

  lemma ResidualsAsDeviations(ys: seq<real>, mx: real, my: real, a: real, b: real)
    requires a == my - b * mx
    ensures Residuals(ys, a, b) == Combine(1.0, Shift(ys, my), -b, Shift(Xs(|ys|), mx))
  {
    var s := Combine(1.0, Shift(ys, my), -b, Shift(Xs(|ys|), mx));
    forall i | 0 <= i < |ys| ensures Residuals(ys, a, b)[i] == s[i] {
      Regroup(ys[i], my, b, i as real, mx);
      assert s[i] == 1.0 * (ys[i] - my) + (-b) * (i as real - mx);
    }
  }

  lemma Regroup(y: real, my: real, b: real, x: real, mx: real)
    ensures y - (my - b * mx) - b * x == 1.0 * (y - my) + (-b) * (x - mx)
  {
  }

  /** The residuals of the fitted line balance, and do not lean with the indices. */
  lemma FittedResiduals(ys: seq<real>)
    requires |ys| >= 2
    ensures Dot(Residuals(ys, Intercept(ys), Slope(ys)), Ones(|ys|)) == 0.0
    ensures Dot(Residuals(ys, Intercept(ys), Slope(ys)), Dx(|ys|)) == 0.0
  {
    var n, b := |ys|, Slope(ys);
    var dx, dy := Dx(n), Shift(ys, Mean(ys));
    var r := Combine(1.0, dy, -b, dx);
    ResidualsAsDeviations(ys, Mean(Xs(n)), Mean(ys), Intercept(ys), b);
    DxCancels(n);
    MeanBalances(ys);
    DeviationsCancel(ys, Mean(ys));
    DotToSymmetric(r, Ones(n), n);
    DotToSymmetric(dx, Ones(n), n);
    DotToSymmetric(dy, Ones(n), n);
    DotCombine(Ones(n), 1.0, dy, -b, dx);
    DotToSymmetric(r, dx, n);
    DotCombine(dx, 1.0, dy, -b, dx);
    DenominatorPositive(n);
    Quotient(Numerator(ys), Denominator(n));
  }

  /** By how much two lines differ at each index. */
  lemma LinesDiffer(ys: seq<real>, a0: real, b0: real, a: real, b: real, mx: real)
    ensures Residuals(ys, a, b) ==
              Combine(1.0, Residuals(ys, a0, b0), 1.0,
                      Combine(a0 - a + (b0 - b) * mx, Ones(|ys|), b0 - b, Shift(Xs(|ys|), mx)))
  {
    var d := Combine(a0 - a + (b0 - b) * mx, Ones(|ys|), b0 - b, Shift(Xs(|ys|), mx));
    var s := Combine(1.0, Residuals(ys, a0, b0), 1.0, d);
    forall i | 0 <= i < |ys| ensures Residuals(ys, a, b)[i] == s[i] {
      Difference(ys[i], a0, b0, a, b, i as real, mx);
      assert d[i] == (a0 - a + (b0 - b) * mx) * 1.0 + (b0 - b) * (i as real - mx);
      assert s[i] == 1.0 * (ys[i] - a0 - b0 * i as real) + 1.0 * d[i];
    }
  }

  lemma Difference(y: real, a0: real, b0: real, a: real, b: real, x: real, mx: real)
    ensures y - a - b * x ==
              1.0 * (y - a0 - b0 * x) + 1.0 * ((a0 - a + (b0 - b) * mx) * 1.0 + (b0 - b) * (x - mx))
  {
  }

  /** Squaring a sum of two vectors that are perpendicular. */
  lemma Perpendicular(r: seq<real>, d: seq<real>)
    requires |r| == |d| && Dot(r, d) == 0.0
    ensures Dot(Combine(1.0, r, 1.0, d), Combine(1.0, r, 1.0, d)) == Dot(r, r) + Dot(d, d)
  {
    var t := Combine(1.0, r, 1.0, d);
    DotCombine(t, 1.0, r, 1.0, d);
    DotToSymmetric(t, r, |r|);
    DotToSymmetric(t, d, |r|);
    DotCombine(r, 1.0, r, 1.0, d);
    DotCombine(d, 1.0, r, 1.0, d);
    DotToSymmetric(d, r, |r|);
  }

  /** No line fits better than the fitted one, and none but itself as well. */
  lemma FitIsOptimal(ys: seq<real>, a: real, b: real)
    requires |ys| >= 2
    ensures SquaredError(ys, Intercept(ys), Slope(ys)) <= SquaredError(ys, a, b)
    ensures SquaredError(ys, Intercept(ys), Slope(ys)) == SquaredError(ys, a, b) ==>
        a == Intercept(ys) && b == Slope(ys)
  {
    var n, a0, b0 := |ys|, Intercept(ys), Slope(ys);
    var mx := Mean(Xs(n));
    var r := Residuals(ys, a0, b0);
    var lift, tilt := a0 - a + (b0 - b) * mx, b0 - b;
    var d := Combine(lift, Ones(n), tilt, Dx(n));
    FittedResiduals(ys);
    LinesDiffer(ys, a0, b0, a, b, mx);
    DotCombine(r, lift, Ones(n), tilt, Dx(n));
    assert Dot(r, d) == 0.0;
    Perpendicular(r, d);
    DotSelf(d, 0);
    DotSelf(d, 1);
    if Dot(d, d) == 0.0 {
      FirstDeviation(n);
      SameLine(lift, tilt, Dx(n)[0], Dx(n)[1]);
    }
  }

  /** Whatever line fits best decides the direction, and its slope is the one reported. */
  lemma BestLineClassifies(ys: seq<real>, epsilon: real, a: real, b: real)
    requires |ys| >= 2 && SquaredError(ys, a, b) <= SquaredError(ys, Intercept(ys), Slope(ys))
    ensures Classify(ys, epsilon).1 == Some(b)
    ensures Classify(ys, epsilon).0 == Flat <==> -epsilon < b < epsilon
    ensures Classify(ys, epsilon).0 == Improving <==> b > 0.0 && b >= epsilon
    ensures Classify(ys, epsilon).0 == Degrading <==> b <= 0.0 && b <= -epsilon
  {
    FitIsOptimal(ys, a, b);
  }

  lemma SameLine(lift: real, tilt: real, x: real, y: real)
    requires lift * 1.0 + tilt * x == 0.0 && lift * 1.0 + tilt * y == 0.0 && x != y
    ensures tilt == 0.0 && lift == 0.0
  {
    assert tilt * (x - y) == 0.0;
  }

  function Line(n: nat, a: real, b: real): seq<real> {
    seq(n, i requires 0 <= i < n => a + b * i as real)
  }

  /** A series that lies on a line is given that line. */
  lemma LineRecovered(n: nat, a: real, b: real)
    requires n >= 2
    ensures Slope(Line(n, a, b)) == b && Intercept(Line(n, a, b)) == a
  {
    var ys := Line(n, a, b);
    assert Residuals(ys, a, b) == Combine(0.0, Ones(n), 0.0, Ones(n));
    DotCombine(Residuals(ys, a, b), 0.0, Ones(n), 0.0, Ones(n));
    DotSelf(Residuals(ys, Intercept(ys), Slope(ys)), 0);
    FitIsOptimal(ys, a, b);
  }
}
