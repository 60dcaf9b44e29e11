/** Rows as affine functions on points.  A point carries a leading 1, so a row
    evaluates to its inner product with the point.  The main result is that a
    feasible system in reduced echelon form spans every affine equality that
    holds on its solutions. */
module Points {
  import opened LinearAlgebra

  ghost function Dot(v: Vec, x: Vec, n: nat): real
    requires n <= |v| && n <= |x|
  {
    if n == 0 then 0.0 else Dot(v, x, n - 1) + v[n - 1] * x[n - 1]
  }

  ghost predicate Point(x: Vec, w: nat) {
    |x| == w > 0 && x[0] == 1.0
  }

  ghost predicate Vanishes(v: Vec, x: Vec, w: nat) {
    |v| == w && |x| == w && Dot(v, x, w) == 0.0
  }

  /** x satisfies every equality of M. */
  ghost predicate Solves(x: Vec, M: seq<Row>, w: nat) {
    Matrix(M, w) && |x| == w && forall i | 0 <= i < |M| :: Vanishes(Lift(M[i]), x, w)
  }

  // ---------------------------------------------------------------- implied equalities hold

  lemma {:induction false} DotLinear(v: Vec, u: Vec, c: real, r: Vec, x: Vec, n: nat)
    requires n <= |v| && n <= |u| && n <= |r| && n <= |x|
    requires forall k | 0 <= k < n :: v[k] == u[k] + c * r[k]
    ensures Dot(v, x, n) == Dot(u, x, n) + c * Dot(r, x, n)
  {
    if n > 0 {
      DotLinear(v, u, c, r, x, n - 1);
      assert (u[n - 1] + c * r[n - 1]) * x[n - 1] == u[n - 1] * x[n - 1] + c * (r[n - 1] * x[n - 1]);
    }
  }

  lemma {:induction false} DotZero(v: Vec, x: Vec, n: nat)
    requires n <= |v| && n <= |x|
    requires forall k | 0 <= k < n :: v[k] == 0.0 || x[k] == 0.0
    ensures Dot(v, x, n) == 0.0
  {
    if n > 0 { DotZero(v, x, n - 1); }
  }

  /** Taking a combination off v does not change its value at a solution. */
  lemma {:induction false} DotMinusComb(v: Vec, u: Vec, l: Vec, M: seq<Row>, x: Vec, w: nat, n: nat)
    requires |v| == |u| == w && n <= |M| && |l| == |M| && Solves(x, M, w)
    requires forall k | 0 <= k < w :: v[k] == u[k] + Comb(l, M, k, n)
    ensures Dot(v, x, w) == Dot(u, x, w)
    decreases n
  {
    if n == 0 {
      DotLinear(v, u, 0.0, v, x, w);
    } else {
      var z := seq(w, k requires 0 <= k < w => u[k] + l[n - 1] * (M[n - 1][k] as real));
      DotMinusComb(v, z, l, M, x, w, n - 1);
      DotLinear(z, u, l[n - 1], Lift(M[n - 1]), x, w);
      assert Vanishes(Lift(M[n - 1]), x, w);
    }
  }

  /** Soundness of combinations: what the rows imply holds at every solution. */
  lemma SpanVanishes(v: Vec, M: seq<Row>, w: nat, x: Vec)
    requires InSpan(v, M, w) && Solves(x, M, w)
    ensures Vanishes(v, x, w)
  {
    var l :| IsComb(v, l, M, w);
    var u := seq(w, k requires 0 <= k < w => 0.0);
    DotMinusComb(v, u, l, M, x, w, |M|);
    DotZero(u, x, w);
  }

  // ---------------------------------------------------------------- equalities that hold are implied

  /** Every pivot is in a variable column, so the system has solutions. */
  predicate Feasible(M: seq<Row>, w: nat) {
    Echelon(M, w) && forall i | 0 <= i < |M| :: Lead(M[i]) >= 1
  }

  lemma {:induction false} DotSupport(v: Vec, x: Vec, n: nat, f: nat, p: nat)
    requires n <= |v| && n <= |x| && f < |v| && f < |x| && p < |v| && p < |x| && f != p && 0 != p
    requires forall k | 1 <= k < n && k != f && k != p :: v[k] == 0.0 || x[k] == 0.0
    ensures |v| > 0 && |x| > 0
    ensures Dot(v, x, n) == (if 0 < n then v[0] * x[0] else 0.0)
                          + (if 0 < f < n then v[f] * x[f] else 0.0)
                          + (if p < n then v[p] * x[p] else 0.0)
  {
    if n > 0 {
      DotSupport(v, x, n - 1, f, p);
      var k := n - 1;
      var t := v[k] * x[k];
      assert Dot(v, x, n) == Dot(v, x, k) + t;
      assert k != 0 && k != f && k != p ==> t == 0.0;
    }
  }

  ghost predicate IsPivot(M: seq<Row>, k: nat) {
    exists i :: 0 <= i < |M| && Lead(M[i]) == k
  }

  ghost function PivotRow(M: seq<Row>, k: nat): (i: nat)
    requires IsPivot(M, k)
    ensures i < |M| && Lead(M[i]) == k
  {
    var i :| 0 <= i < |M| && Lead(M[i]) == k; i
  }

  /** The solution with free variable f set to one and the other free variables
      zero; f == 0 stands for no free variable. */
  ghost function Solution(M: seq<Row>, w: nat, f: nat): (x: Vec)
    requires Feasible(M, w) && f < w
    ensures |x| == w
  {
    seq(w, k requires 0 <= k < w =>
      if k == 0 || k == f then 1.0
      else if IsPivot(M, k) then
        var r := M[PivotRow(M, k)];
        -((r[0] as real) + (if f == 0 then 0.0 else r[f] as real)) / (r[k] as real)
      else 0.0)
  }

  /** What matters about Solution: free variables other than f are zero, and
      every row balances at its pivot. */
  ghost predicate IsSolution(x: Vec, M: seq<Row>, w: nat, f: nat) {
    && Echelon(M, w) && |x| == w && f < w && x[0] == 1.0 && x[f] == 1.0
    && (forall k | 1 <= k < w && k != f && !IsPivot(M, k) :: x[k] == 0.0)
    && (forall i | 0 <= i < |M| :: Balanced(M[i], x, f))
  }

  ghost predicate Balanced(r: Row, x: Vec, f: nat)
    requires f < |r| == |x| && Lead(r) >= 0
  {
    (r[0] as real) + (if f == 0 then 0.0 else r[f] as real) + (r[Lead(r)] as real) * x[Lead(r)] == 0.0
  }

  lemma SolutionIs(M: seq<Row>, w: nat, f: nat)
    requires Feasible(M, w) && f < w && (f == 0 || !IsPivot(M, f))
    ensures IsSolution(Solution(M, w, f), M, w, f)
  {
    forall i | 0 <= i < |M| ensures Balanced(M[i], Solution(M, w, f), f) {
      var r, p := M[i], Lead(M[i]);
      assert IsPivot(M, p);
      assert PivotRow(M, p) == i;
      CancelPivot(r[0] as real, if f == 0 then 0.0 else r[f] as real, r[p] as real);
    }
  }

  lemma SparseVanishes(r: Vec, x: Vec, w: nat, f: nat, p: nat)
    requires |r| == |x| == w && f < w && 0 < p < w && f != p && x[0] == 1.0 && x[f] == 1.0
    requires forall k | 1 <= k < w && k != f && k != p :: r[k] == 0.0 || x[k] == 0.0
    requires r[0] + (if f == 0 then 0.0 else r[f]) + r[p] * x[p] == 0.0
    ensures Vanishes(r, x, w)
  {
    DotSupport(r, x, w, f, p);
  }

  lemma SolutionSolvesRow(x: Vec, M: seq<Row>, w: nat, f: nat, i: nat)
    requires Feasible(M, w) && IsSolution(x, M, w, f) && (f == 0 || !IsPivot(M, f)) && i < |M|
    ensures Vanishes(Lift(M[i]), x, w)
  {
    var p := Lead(M[i]);
    assert IsPivot(M, p);
    forall k | 1 <= k < w && k != f && k != p ensures Lift(M[i])[k] == 0.0 || x[k] == 0.0 {
      if IsPivot(M, k) { assert M[i][Lead(M[PivotRow(M, k)])] == 0; }
    }
    assert Balanced(M[i], x, f);
    SparseVanishes(Lift(M[i]), x, w, f, p);
  }

  lemma SolutionSolves(M: seq<Row>, w: nat, f: nat)
    requires Feasible(M, w) && f < w && (f == 0 || !IsPivot(M, f))
    ensures Point(Solution(M, w, f), w) && Solves(Solution(M, w, f), M, w)
  {
    SolutionIs(M, w, f);
    forall i | 0 <= i < |M| ensures Vanishes(Lift(M[i]), Solution(M, w, f), w) {
      SolutionSolvesRow(Solution(M, w, f), M, w, f, i);
    }
  }

  lemma CancelPivot(c: real, d: real, p: real)
    requires p != 0.0
    ensures c + d + p * (-(c + d) / p) == 0.0
  {
  }

  /** Residual of v after removing, at every pivot, the multiple of that row. */
  ghost function PivotCoefficients(v: Vec, M: seq<Row>, w: nat): (l: Vec)
    requires Echelon(M, w) && |v| == w
    ensures |l| == |M|
  {
    seq(|M|, i requires 0 <= i < |M| => v[Lead(M[i])] / (M[i][Lead(M[i])] as real))
  }

  ghost function Residual(v: Vec, M: seq<Row>, w: nat): (u: Vec)
    requires Echelon(M, w) && |v| == w
    ensures |u| == w
  {
    seq(w, k requires 0 <= k < w => v[k] - Comb(PivotCoefficients(v, M, w), M, k, |M|))
  }

  lemma ResidualAtPivot(v: Vec, M: seq<Row>, w: nat, i: nat)
    requires Echelon(M, w) && |v| == w && i < |M|
    ensures Residual(v, M, w)[Lead(M[i])] == 0.0
  {
    var l, p := PivotCoefficients(v, M, w), Lead(M[i]);
    CombSingle(l, M, p, |M|, i);
    var d := M[i][p] as real;
    assert d != 0.0 && l[i] * d == v[p];
  }

  /** v vanishes on every rational solution of M. */
  ghost predicate HoldsOn(v: Vec, M: seq<Row>, w: nat) {
    forall x: Vec :: Point(x, w) && Solves(x, M, w) ==> Vanishes(v, x, w)
  }

  lemma ResidualEntry(v: Vec, M: seq<Row>, w: nat, f: nat)
    requires Feasible(M, w) && |v| == w && HoldsOn(v, M, w) && f < w && (f == 0 || !IsPivot(M, f))
    ensures var u := Residual(v, M, w); u[0] + (if f == 0 then 0.0 else u[f]) == 0.0
  {
    var u, x := Residual(v, M, w), Solution(M, w, f);
    SolutionSolves(M, w, f);
    assert Vanishes(v, x, w);
    DotMinusComb(v, u, PivotCoefficients(v, M, w), M, x, w, |M|);
    forall k | 1 <= k < w && k != f ensures u[k] == 0.0 || x[k] == 0.0 {
      if IsPivot(M, k) { ResidualAtPivot(v, M, w, PivotRow(M, k)); }
    }
    DotFew(u, x, w, f);
  }

  lemma {:induction false} DotFew(v: Vec, x: Vec, n: nat, f: nat)
    requires n <= |v| && n <= |x| && f < |v| && f < |x|
    requires forall k | 1 <= k < n && k != f :: v[k] == 0.0 || x[k] == 0.0
    ensures Dot(v, x, n) == (if 0 < n then v[0] * x[0] else 0.0) + (if 0 < f < n then v[f] * x[f] else 0.0)
  {
    if n > 0 { DotFew(v, x, n - 1, f); }
  }

  /** Completeness: an equality that holds on all solutions of a feasible system
      in reduced echelon form is a combination of its rows. */
  lemma HoldsInSpan(v: Vec, M: seq<Row>, w: nat)
    requires Feasible(M, w) && |v| == w > 0 && HoldsOn(v, M, w)
    ensures InSpan(v, M, w)
  {
    var l, u := PivotCoefficients(v, M, w), Residual(v, M, w);
    forall k | 0 <= k < w ensures v[k] == Comb(l, M, k, |M|) {
      ResidualEntry(v, M, w, 0);
      if IsPivot(M, k) {
        ResidualAtPivot(v, M, w, PivotRow(M, k));
      } else {
        ResidualEntry(v, M, w, k);
      }
      assert u[k] == 0.0;
    }
    assert IsComb(v, l, M, w);
  }

  /** The equalities of a feasible system are exactly those that hold on its solutions. */
  lemma SpanIsHolds(v: Vec, M: seq<Row>, w: nat)
    requires Feasible(M, w) && |v| == w > 0
    ensures InSpan(v, M, w) <==> HoldsOn(v, M, w)
  {
    if InSpan(v, M, w) {
      forall x: Vec | Point(x, w) && Solves(x, M, w) ensures Vanishes(v, x, w) { SpanVanishes(v, M, w, x); }
    }
    if HoldsOn(v, M, w) { HoldsInSpan(v, M, w); }
  }

  lemma ConstantRow(r: Row, x: Vec, w: nat)
    requires |r| == w && Point(x, w)
    ensures Lead(r) == 0 ==> Dot(Lift(r), x, w) != 0.0
  {
    if Lead(r) == 0 { DotFew(Lift(r), x, w, 0); }
  }

  lemma SolvableFeasible(M: seq<Row>, w: nat, x: Vec)
    requires Echelon(M, w) && w > 0 && Point(x, w) && Solves(x, M, w)
    ensures Feasible(M, w)
  {
    forall i | 0 <= i < |M| ensures Lead(M[i]) >= 1 {
      assert Vanishes(Lift(M[i]), x, w);
      ConstantRow(M[i], x, w);
    }
  }

  /** A feasible system has at most one equality per variable. */
  lemma {:induction false} LeadBound(M: seq<Row>, w: nat, i: nat)
    requires Feasible(M, w) && i < |M|
    ensures Lead(M[i]) <= w - 1 - i
  {
    if i > 0 {
      LeadBound(M, w, i - 1);
      assert Lead(M[i - 1]) > Lead(M[i]);
    }
  }

  lemma FeasibleSize(M: seq<Row>, w: nat)
    requires Feasible(M, w) && w > 0
    ensures |M| <= w - 1
  {
    if |M| > 0 {
      LeadBound(M, w, |M| - 1);
      assert Lead(M[|M| - 1]) >= 1;
    }
  }

  // ---------------------------------------------------------------- integer points

  function IDot(r: Row, x: Row, n: nat): int
    requires n <= |r| && n <= |x|
  {
    if n == 0 then 0 else IDot(r, x, n - 1) + r[n - 1] * x[n - 1]
  }

  lemma {:induction false} IDotSame(r: Row, a: Row, r': Row, a': Row, n: nat)
    requires n <= |r| && n <= |a| && n <= |r'| && n <= |a'|
    requires forall k | 0 <= k < n :: r[k] == r'[k] && a[k] == a'[k]
    ensures IDot(r, a, n) == IDot(r', a', n)
  {
    if n > 0 { IDotSame(r, a, r', a', n - 1); }
  }

  /** An integer point with its leading 1. */
  function Homog(p: seq<int>): (x: Row)
    ensures |x| == |p| + 1 && x[0] == 1
  {
    [1] + p
  }

  /** Value of an equality at an integer point. */
  function ValueAt(r: Row, p: seq<int>): int
    requires |r| == |p| + 1
  {
    IDot(r, Homog(p), |r|)
  }

  lemma {:induction false} DotInt(r: Row, x: Row, n: nat)
    requires n <= |r| && n <= |x|
    ensures Dot(Lift(r), Lift(x), n) == IDot(r, x, n) as real
  {
    if n > 0 {
      DotInt(r, x, n - 1);
      MulReal(r[n - 1], x[n - 1]);
    }
  }

  /** The integer point p satisfies the equality v. */
  ghost predicate HoldsAt(v: Vec, p: seq<int>) {
    |v| == |p| + 1 && Vanishes(v, Lift(Homog(p)), |v|)
  }

  lemma HoldsAtInt(r: Row, p: seq<int>)
    requires |r| == |p| + 1
    ensures HoldsAt(Lift(r), p) <==> ValueAt(r, p) == 0
  {
    DotInt(r, Homog(p), |r|);
  }

  /** The integer point p satisfies every equality of M. */
  ghost predicate Contains(M: seq<Row>, w: nat, p: seq<int>) {
    w == |p| + 1 && Solves(Lift(Homog(p)), M, w)
  }

  // ---------------------------------------------------------------- a single point as a system

  /** `isl_basic_set_from_vec` for an integer point: one row per variable, last variable first. */
  function PointRows(p: seq<int>): (M: seq<Row>)
    ensures |M| == |p| && Matrix(M, |p| + 1)
  {
    seq(|p|, k requires 0 <= k < |p| => PointRow(p, |p| - 1 - k))
  }

  function PointRow(p: seq<int>, i: nat): (r: Row)
    requires i < |p|
    ensures |r| == |p| + 1 && r[0] == -p[i] && r[1 + i] == 1
    ensures forall c | 1 <= c < |r| && c != 1 + i :: r[c] == 0
  {
    seq(|p| + 1, c requires 0 <= c < |p| + 1 => if c == 0 then -p[i] else if c == 1 + i then 1 else 0)
  }

  lemma PointRowsFeasible(p: seq<int>)
    ensures Feasible(PointRows(p), |p| + 1)
    ensures forall k | 0 <= k < |p| :: Lead(PointRows(p)[k]) == |p| - k
  {
    var M := PointRows(p);
    forall k | 0 <= k < |p| ensures Lead(M[k]) == |p| - k {
      assert M[k] == PointRow(p, |p| - 1 - k);
      LeadUnique(M[k], |p| - k);
    }
    forall i, j | 0 <= i < |M| && 0 <= j < |M| && i != j ensures M[j][Lead(M[i])] == 0 {
      assert M[j] == PointRow(p, |p| - 1 - j);
    }
  }

  lemma PointRowValue(p: seq<int>, i: nat, x: Vec)
    requires i < |p| && Point(x, |p| + 1)
    ensures Vanishes(Lift(PointRow(p, i)), x, |p| + 1) <==> x[1 + i] == p[i] as real
  {
    DotFew(Lift(PointRow(p, i)), x, |p| + 1, 1 + i);
  }

  /** The equalities implied by a single point are those it satisfies. */
  lemma PointSpan(p: seq<int>, v: Vec)
    requires |v| == |p| + 1
    ensures InSpan(v, PointRows(p), |p| + 1) <==> HoldsAt(v, p)
    ensures Contains(PointRows(p), |p| + 1, p)
  {
    var M, w, x0 := PointRows(p), |p| + 1, Lift(Homog(p));
    PointRowsFeasible(p);
    forall k | 0 <= k < |p| ensures Vanishes(Lift(M[k]), x0, w) { PointRowValue(p, |p| - 1 - k, x0); }
    if InSpan(v, M, w) { SpanVanishes(v, M, w, x0); }
    if HoldsAt(v, p) {
      forall x: Vec | Point(x, w) && Solves(x, M, w) ensures Vanishes(v, x, w) {
        forall k | 0 <= k < w ensures x[k] == x0[k] {
          if k > 0 {
            assert Vanishes(Lift(M[|p| - k]), x, w);
            PointRowValue(p, k - 1, x);
          }
        }
        assert x == x0;
      }
      HoldsInSpan(v, M, w);
    }
  }
}
