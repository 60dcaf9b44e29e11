/** Systems of linear equalities with integer coefficients.  A row holds the
    constant term first and one coefficient per variable after it.  Rational
    combinations of rows are taken with real coefficients, in ghost code only. */
module LinearAlgebra {

  type Row = seq<int>
  type Vec = seq<real>

  predicate Matrix(M: seq<Row>, w: nat) {
    forall i | 0 <= i < |M| :: |M[i]| == w
  }

  /** Position of the last non-zero entry among the first n, or -1. */
  function LastNonZero(r: Row, n: nat): (p: int)
    requires n <= |r|
    ensures -1 <= p < n
    ensures forall k | p < k < n :: r[k] == 0
    ensures p >= 0 ==> r[p] != 0
  {
    if n == 0 then -1 else if r[n - 1] != 0 then n - 1 else LastNonZero(r, n - 1)
  }

  /** The pivot column of a row. */
  function Lead(r: Row): (p: int)
    ensures -1 <= p < |r|
    ensures forall k | p < k < |r| :: r[k] == 0
    ensures p >= 0 ==> r[p] != 0
  {
    LastNonZero(r, |r|)
  }

  lemma LeadUnique(r: Row, p: nat)
    requires p < |r| && r[p] != 0
    requires forall k | p < k < |r| :: r[k] == 0
    ensures Lead(r) == p
  {
    assert Lead(r) >= p;
  }

  /** Reduced echelon form taken from the last column: pivots move strictly to
      the left, and a pivot column is zero in every other row. */
  predicate Echelon(M: seq<Row>, w: nat) {
    && Matrix(M, w)
    && (forall i | 0 <= i < |M| :: Lead(M[i]) >= 0)
    && (forall i, j | 0 <= i < j < |M| :: Lead(M[i]) > Lead(M[j]))
    && (forall i, j | 0 <= i < |M| && 0 <= j < |M| && i != j :: M[j][Lead(M[i])] == 0)
  }

  // ---------------------------------------------------------------- combinations

  /** Entry k of the combination of the first n rows of M with coefficients l. */
  ghost function Comb(l: Vec, M: seq<Row>, k: nat, n: nat): real
    requires n <= |l| && n <= |M|
    requires forall i | 0 <= i < n :: k < |M[i]|
  {
    if n == 0 then 0.0 else Comb(l, M, k, n - 1) + l[n - 1] * (M[n - 1][k] as real)
  }

  ghost predicate IsComb(v: Vec, l: Vec, M: seq<Row>, w: nat)
    requires Matrix(M, w) && |v| == w
  {
    && |l| == |M|
    && forall k | 0 <= k < w :: v[k] == Comb(l, M, k, |M|)
  }

  /** v is a rational combination of the rows of M. */
  ghost predicate InSpan(v: Vec, M: seq<Row>, w: nat) {
    Matrix(M, w) && |v| == w && exists l: Vec :: IsComb(v, l, M, w)
  }

  lemma {:induction false} CombCong(l: Vec, M: seq<Row>, l': Vec, M': seq<Row>, k: nat, n: nat)
    requires n <= |l| && n <= |M| && n <= |l'| && n <= |M'|
    requires forall i | 0 <= i < n :: k < |M[i]| && k < |M'[i]|
    requires forall i | 0 <= i < n :: l[i] * (M[i][k] as real) == l'[i] * (M'[i][k] as real)
    ensures Comb(l, M, k, n) == Comb(l', M', k, n)
  {
    if n > 0 { CombCong(l, M, l', M', k, n - 1); }
  }

  /** When at most row p contributes in column k, that term is the whole sum. */
  lemma {:induction false} CombSingle(l: Vec, M: seq<Row>, k: nat, n: nat, p: nat)
    requires n <= |l| && n <= |M| && p < |l| && p < |M|
    requires k < |M[p]| && forall i | 0 <= i < n :: k < |M[i]|
    requires forall i | 0 <= i < n && i != p :: M[i][k] == 0 || l[i] == 0.0
    ensures Comb(l, M, k, n) == if p < n then l[p] * (M[p][k] as real) else 0.0
  {
    if n > 0 { CombSingle(l, M, k, n - 1, p); }
  }

  lemma {:induction false} CombUpdate(l: Vec, M: seq<Row>, k: nat, n: nat, t: nat, x: real)
    requires n <= |l| && n <= |M| && t < |l| && t < |M| && k < |M[t]|
    requires forall i | 0 <= i < n :: k < |M[i]|
    ensures Comb(l[t := x], M, k, n)
         == Comb(l, M, k, n) + if t < n then (x - l[t]) * (M[t][k] as real) else 0.0
  {
    if n > 0 { CombUpdate(l, M, k, n - 1, t, x); }
  }

  function Without<T>(s: seq<T>, t: nat): (r: seq<T>)
    requires t < |s|
    ensures |r| == |s| - 1
    ensures forall i | 0 <= i < |r| :: r[i] == if i < t then s[i] else s[i + 1]
  {
    s[..t] + s[t + 1..]
  }

  /** Leaving out a row leaves out its term. */
  lemma {:induction false} CombWithout(l: Vec, M: seq<Row>, k: nat, n: nat, t: nat)
    requires n <= |l| == |M| && t < n
    requires forall i | 0 <= i < |M| :: k < |M[i]|
    ensures Comb(Without(l, t), Without(M, t), k, n - 1)
         == Comb(l, M, k, n) - l[t] * (M[t][k] as real)
  {
    if n - 1 == t {
      CombCong(Without(l, t), Without(M, t), l, M, k, n - 1);
    } else {
      CombWithout(l, M, k, n - 1, t);
    }
  }

  // ---------------------------------------------------------------- row operations

  /** M1[i] = a[i] * M[i] + b[i] * M[t] with non-zero a[i]; row t itself is only scaled. */
  ghost predicate RowOps(M: seq<Row>, M1: seq<Row>, w: nat, t: nat, a: Vec, b: Vec) {
    && Matrix(M, w) && Matrix(M1, w) && |M1| == |M| == |a| == |b| && t < |M|
    && b[t] == 0.0
    && (forall i | 0 <= i < |M| :: a[i] != 0.0)
    && (forall i, k | 0 <= i < |M| && 0 <= k < w ::
          (M1[i][k] as real) == a[i] * (M[i][k] as real) + b[i] * (M[t][k] as real))
  }

  ghost function WSum(l: Vec, b: Vec, n: nat): real
    requires n <= |l| && n <= |b|
  {
    if n == 0 then 0.0 else WSum(l, b, n - 1) + l[n - 1] * b[n - 1]
  }

  lemma {:induction false} WSumUpdate(l: Vec, b: Vec, n: nat, t: nat, x: real)
    requires n <= |l| && n <= |b| && t < |l| && t < |b| && b[t] == 0.0
    ensures WSum(l[t := x], b, n) == WSum(l, b, n)
  {
    if n > 0 { WSumUpdate(l, b, n - 1, t, x); }
  }

  lemma {:induction false} RowOpsComb(M: seq<Row>, M1: seq<Row>, w: nat, t: nat, a: Vec, b: Vec,
                                      l: Vec, la: Vec, k: nat, n: nat)
    requires RowOps(M, M1, w, t, a, b) && k < w
    requires |l| == |la| == |M| && n <= |M|
    requires forall i | 0 <= i < |M| :: la[i] == l[i] * a[i]
    ensures Comb(l, M1, k, n) == Comb(la, M, k, n) + WSum(l, b, n) * (M[t][k] as real)
  {
    if n > 0 {
      RowOpsComb(M, M1, w, t, a, b, l, la, k, n - 1);
      var i := n - 1;
      var x, y := M[i][k] as real, M[t][k] as real;
      assert (M1[i][k] as real) == a[i] * x + b[i] * y;
      assert l[i] * (a[i] * x + b[i] * y) == (l[i] * a[i]) * x + (l[i] * b[i]) * y;
    }
  }

  /** Coefficients over M of a combination over M1. */
  ghost function PullBack(l: Vec, t: nat, a: Vec, b: Vec): (r: Vec)
    requires |l| == |a| == |b| && t < |l|
    ensures |r| == |l|
  {
    var la := seq(|l|, i requires 0 <= i < |l| => l[i] * a[i]);
    la[t := l[t] * a[t] + WSum(l, b, |l|)]
  }

  /** Coefficients over M1 of a combination over M. */
  ghost function PushForward(l: Vec, t: nat, a: Vec, b: Vec): (r: Vec)
    requires |l| == |a| == |b| && t < |l|
    requires forall i | 0 <= i < |a| :: a[i] != 0.0
    ensures |r| == |l|
  {
    var m := seq(|l|, i requires 0 <= i < |l| => l[i] / a[i]);
    m[t := (l[t] - WSum(m, b, |l|)) / a[t]]
  }

  lemma PullBackComb(M: seq<Row>, M1: seq<Row>, w: nat, t: nat, a: Vec, b: Vec, l: Vec, k: nat)
    requires RowOps(M, M1, w, t, a, b) && |l| == |M| && k < w
    ensures Comb(l, M1, k, |M|) == Comb(PullBack(l, t, a, b), M, k, |M|)
  {
    var la := seq(|l|, i requires 0 <= i < |l| => l[i] * a[i]);
    RowOpsComb(M, M1, w, t, a, b, l, la, k, |M|);
    CombUpdate(la, M, k, |M|, t, l[t] * a[t] + WSum(l, b, |l|));
  }

  lemma PullPush(l: Vec, t: nat, a: Vec, b: Vec)
    requires |l| == |a| == |b| && t < |l| && b[t] == 0.0
    requires forall i | 0 <= i < |a| :: a[i] != 0.0
    ensures PullBack(PushForward(l, t, a, b), t, a, b) == l
  {
    var m := seq(|l|, i requires 0 <= i < |l| => l[i] / a[i]);
    WSumUpdate(m, b, |l|, t, (l[t] - WSum(m, b, |l|)) / a[t]);
    var p := PushForward(l, t, a, b);
    var r := PullBack(p, t, a, b);
    forall i | 0 <= i < |l| ensures r[i] == l[i] {
      if i != t { assert r[i] == (l[i] / a[i]) * a[i]; }
    }
  }

  /** Row operations keep the row space. */
  lemma RowOpsSpan(M: seq<Row>, M1: seq<Row>, w: nat, t: nat, a: Vec, b: Vec, v: Vec)
    requires RowOps(M, M1, w, t, a, b)
    ensures InSpan(v, M, w) <==> InSpan(v, M1, w)
  {
    if InSpan(v, M, w) {
      var l :| IsComb(v, l, M, w);
      var l1 := PushForward(l, t, a, b);
      PullPush(l, t, a, b);
      forall k | 0 <= k < w ensures v[k] == Comb(l1, M1, k, |M1|) {
        PullBackComb(M, M1, w, t, a, b, l1, k);
      }
      assert IsComb(v, l1, M1, w);
    }
    if InSpan(v, M1, w) {
      var l :| IsComb(v, l, M1, w);
      var l0 := PullBack(l, t, a, b);
      forall k | 0 <= k < w ensures v[k] == Comb(l0, M, k, |M|) {
        PullBackComb(M, M1, w, t, a, b, l, k);
      }
      assert IsComb(v, l0, M, w);
    }
  }

  /** A combination without row t is a combination of the remaining rows, and conversely. */
  lemma SpanWithout(v: Vec, l: Vec, M: seq<Row>, w: nat, t: nat)
    requires Matrix(M, w) && |v| == w && t < |M| && IsComb(v, l, M, w) && l[t] == 0.0
    ensures InSpan(v, Without(M, t), w)
  {
    var l', M' := Without(l, t), Without(M, t);
    forall k | 0 <= k < w ensures v[k] == Comb(l', M', k, |M'|) {
      CombWithout(l, M, k, |M|, t);
    }
    assert IsComb(v, l', M', w);
  }

  lemma WithoutSpan(v: Vec, M: seq<Row>, w: nat, t: nat)
    requires Matrix(M, w) && t < |M| && InSpan(v, Without(M, t), w)
    ensures InSpan(v, M, w)
  {
    var M' := Without(M, t);
    var l' :| IsComb(v, l', M', w);
    var l := l'[..t] + [0.0] + l'[t..];
    assert Without(l, t) == l';
    forall k | 0 <= k < w ensures v[k] == Comb(l, M, k, |M|) {
      CombWithout(l, M, k, |M|, t);
    }
    assert IsComb(v, l, M, w);
  }

  /** A row of M lies in its row space. */
  lemma RowInSpan(M: seq<Row>, w: nat, i: nat)
    requires Matrix(M, w) && i < |M|
    ensures InSpan(Lift(M[i]), M, w)
  {
    var l := seq(|M|, j requires 0 <= j < |M| => if j == i then 1.0 else 0.0);
    forall k | 0 <= k < w ensures Lift(M[i])[k] == Comb(l, M, k, |M|) {
      CombSingle(l, M, k, |M|, i);
    }
    assert IsComb(Lift(M[i]), l, M, w);
  }

  /** An integer row as a vector of reals. */
  ghost function Lift(r: Row): (v: Vec)
    ensures |v| == |r| && forall k | 0 <= k < |r| :: v[k] == r[k] as real
  {
    seq(|r|, k requires 0 <= k < |r| => r[k] as real)
  }

  lemma MulReal(a: int, b: int)
    ensures (a * b) as real == (a as real) * (b as real)
  {
  }
}
