/** Finite sums and products of real sequences, and the few laws that least squares needs. */
module Vectors {

  function SumTo(s: seq<real>, k: nat): real
    requires k <= |s|
  {
    if k == 0 then 0.0 else SumTo(s, k - 1) + s[k - 1]
  }

  function Sum(s: seq<real>): real {
    SumTo(s, |s|)
  }

  function DotTo(s: seq<real>, t: seq<real>, k: nat): real
    requires k <= |s| == |t|
  {
    if k == 0 then 0.0 else DotTo(s, t, k - 1) + s[k - 1] * t[k - 1]
  }

  /** The sum of the products of corresponding elements. */
  function Dot(s: seq<real>, t: seq<real>): real
    requires |s| == |t|
  {
    DotTo(s, t, |s|)
  }

  function Ones(n: nat): seq<real> {
    seq(n, i requires 0 <= i < n => 1.0)
  }

  function Shift(s: seq<real>, m: real): seq<real> {
    seq(|s|, i requires 0 <= i < |s| => s[i] - m)
  }

  function Combine(a: real, u: seq<real>, b: real, v: seq<real>): seq<real>
    requires |u| == |v|
  {
    seq(|u|, i requires 0 <= i < |u| => a * u[i] + b * v[i])
  }

  lemma OneMoreTerm(a: real, p: real, b: real, q: real, s: real, u: real, v: real)
    ensures (a * p + b * q) + s * (a * u + b * v) == a * (p + s * u) + b * (q + s * v)
  {
    assert s * (a * u) == a * (s * u);
    assert s * (b * v) == b * (s * v);
  }

  lemma {:induction false} DotToCombine(s: seq<real>, a: real, u: seq<real>, b: real, v: seq<real>, k: nat)
    requires k <= |s| == |u| == |v|
    ensures DotTo(s, Combine(a, u, b, v), k) == a * DotTo(s, u, k) + b * DotTo(s, v, k)
  {
    if k == 0 {
    } else {
      DotToCombine(s, a, u, b, v, k - 1);
      OneMoreTerm(a, DotTo(s, u, k - 1), b, DotTo(s, v, k - 1), s[k - 1], u[k - 1], v[k - 1]);
    }
  }

  lemma DotCombine(s: seq<real>, a: real, u: seq<real>, b: real, v: seq<real>)
    requires |s| == |u| == |v|
    ensures Dot(s, Combine(a, u, b, v)) == a * Dot(s, u) + b * Dot(s, v)
  {
    DotToCombine(s, a, u, b, v, |s|);
  }

  lemma {:induction false} DotToSymmetric(s: seq<real>, t: seq<real>, k: nat)
    requires k <= |s| == |t|
    ensures DotTo(s, t, k) == DotTo(t, s, k)
  {
    if k == 0 {
    } else {
      DotToSymmetric(s, t, k - 1);
    }
  }

  lemma {:induction false} DotToOnes(s: seq<real>, k: nat)
    requires k <= |s|
    ensures DotTo(s, Ones(|s|), k) == SumTo(s, k)
  {
    if k == 0 {
    } else {
      DotToOnes(s, k - 1);
    }
  }

  lemma SameSign(a: real, b: real)
    ensures a >= 0.0 && b >= 0.0 ==> a * b >= 0.0
    ensures a <= 0.0 && b <= 0.0 ==> a * b >= 0.0
    ensures (a > 0.0 && b > 0.0) || (a < 0.0 && b < 0.0) ==> a * b > 0.0
  {
  }

  /** A sum of products that are not negative is not negative, and at least as large as each. */
  lemma {:induction false} DotToNonNegative(s: seq<real>, t: seq<real>, k: nat, i: nat)
    requires k <= |s| == |t| && forall i :: 0 <= i < |s| ==> s[i] * t[i] >= 0.0
    ensures DotTo(s, t, k) >= 0.0
    ensures i < k ==> s[i] * t[i] <= DotTo(s, t, k)
  {
    if k == 0 {
    } else {
      DotToNonNegative(s, t, k - 1, i);
    }
  }

  lemma DotPositive(s: seq<real>, t: seq<real>, i: nat)
    requires i < |s| == |t| && forall j :: 0 <= j < |s| ==> s[j] * t[j] >= 0.0
    requires s[i] * t[i] > 0.0
    ensures Dot(s, t) > 0.0
  {
    DotToNonNegative(s, t, |s|, i);
  }

  lemma DotOfEquals(s: seq<real>, t: seq<real>, i: nat)
    requires i < |s| == |t| && forall j :: 0 <= j < |s| ==> s[j] == t[j]
    ensures Dot(s, t) >= 0.0
    ensures s[i] != 0.0 ==> Dot(s, t) > 0.0
  {
    forall j | 0 <= j < |s| ensures s[j] * t[j] >= 0.0 { SameSign(s[j], t[j]); }
    DotToNonNegative(s, t, |s|, i);
    SameSign(s[i], t[i]);
  }

  /** The square of a vector is not negative, and zero only for the zero vector. */
  lemma DotSelf(s: seq<real>, i: nat)
    requires i < |s|
    ensures Dot(s, s) >= 0.0
    ensures s[i] != 0.0 ==> Dot(s, s) > 0.0
  {
    DotOfEquals(s, s, i);
  }

  lemma {:induction false} SumToShift(s: seq<real>, m: real, k: nat)
    requires k <= |s|
    ensures SumTo(Shift(s, m), k) == SumTo(s, k) - k as real * m
  {
    if k == 0 {
    } else {
      SumToShift(s, m, k - 1);
      assert k as real * m == (k - 1) as real * m + m;
    }
  }

  /** The deviations from the mean add up to nothing. */
  lemma DeviationsCancel(s: seq<real>, m: real)
    requires |s| as real * m == Sum(s)
    ensures Sum(Shift(s, m)) == 0.0 && Dot(Shift(s, m), Ones(|s|)) == 0.0
  {
    SumToShift(s, m, |s|);
    DotToOnes(Shift(s, m), |s|);
  }

  lemma ShiftAsCombination(t: seq<real>, m: real, c: real)
    ensures Shift(t, m) == Combine(1.0, Shift(t, c), c - m, Ones(|t|))
  {
  }

  /** Products with a vector that adds up to nothing do not notice a shift. */
  lemma ShiftInvisible(d: seq<real>, t: seq<real>, m: real, c: real)
    requires |d| == |t| && Dot(d, Ones(|t|)) == 0.0
    ensures Dot(d, Shift(t, m)) == Dot(d, Shift(t, c))
  {
    ShiftAsCombination(t, m, c);
    DotCombine(d, 1.0, Shift(t, c), c - m, Ones(|t|));
  }

  function Reverse(s: seq<real>): seq<real> {
    seq(|s|, i requires 0 <= i < |s| => s[|s| - 1 - i])
  }

  /** Summing from the front instead of from the end. */
  lemma {:induction false} DotFromFront(s: seq<real>, t: seq<real>, k: nat)
    requires k <= |s| == |t|
    ensures DotTo(Reverse(s), Reverse(t), k) + DotTo(s, t, |s| - k) == Dot(s, t)
  {
    if k == 0 {
    } else {
      DotFromFront(s, t, k - 1);
      assert Reverse(s)[k - 1] == s[|s| - k] && Reverse(t)[k - 1] == t[|s| - k];
    }
  }

  lemma DotReverse(s: seq<real>, t: seq<real>)
    requires |s| == |t|
    ensures Dot(Reverse(s), Reverse(t)) == Dot(s, t)
  {
    DotFromFront(s, t, |s|);
  }
}
