/** One column of the affine-hull join: what the row updates of isl do to the
    two systems, as functions on their rows, and why they keep exactly the
    equalities that both systems imply. */
module JoinStep {
  import opened IntArith
  import opened LinearAlgebra

  // ---------------------------------------------------------------- row updates

  /** `isl_seq_combine` over a whole row. */
  function Combine(m1: int, r1: Row, m2: int, r2: Row): (r: Row)
    requires |r1| == |r2|
    ensures |r| == |r1|
    ensures forall k | 0 <= k < |r| :: r[k] == m1 * r1[k] + m2 * r2[k]
  {
    seq(|r1|, k requires 0 <= k < |r1| => m1 * r1[k] + m2 * r2[k])
  }

  /** `isl_seq_scale` over the first len entries. */
  function Scaled(r: Row, m: int, len: nat): (s: Row)
    ensures |s| == |r|
    ensures forall k | 0 <= k < |r| :: s[k] == if k < len then m * r[k] else r[k]
  {
    seq(|r|, k requires 0 <= k < |r| => if k < len then m * r[k] else r[k])
  }

  /** Factor that brings x to the least common multiple of x and y. */
  function CommonFactor(x: int, y: int): int
    requires x != 0 && y != 0
  {
    if x == y then 1 else DivExact(Lcm(x, y), x)
  }

  /** The factors a and b used by `construct_column` for entry x against pivot entry q. */
  function ConstructA(x: int, q: int): int
    requires q != 0
  {
    if x == 0 then 1 else DivExact(q, Gcd(x, q))
  }

  function ConstructB(x: int, q: int): int
    requires q != 0
  {
    if x == 0 then 0 else DivExact(x, Gcd(x, q))
  }

  lemma ConstructFactors(x: int, q: int)
    requires q != 0
    ensures ConstructA(x, q) != 0
    ensures ConstructA(x, q) * x == ConstructB(x, q) * q
  {
    if x != 0 {
      var u, v := GcdDivides(x, q);
      CrossMultiple(x, q, u, v, Gcd(x, q));
    }
  }

  /** The factors used by `transform_column` for a row with difference x against difference d. */
  function TransformA(x: int, d: int): int
    requires d != 0
  {
    DivExact(d, Gcd(-x, d))
  }

  function TransformB(x: int, d: int): int
    requires d != 0
  {
    DivExact(-x, Gcd(-x, d))
  }

  lemma TransformFactors(x: int, d: int)
    requires d != 0
    ensures TransformA(x, d) != 0
    ensures TransformA(x, d) * x + TransformB(x, d) * d == 0
  {
    var u, v := GcdDivides(-x, d);
    CrossMultiple(-x, d, u, v, Gcd(-x, d));
  }

  // ---------------------------------------------------------------- the loop invariant

  /** Columns beyond c have been processed and row rows are complete: they agree
      on the processed columns, and every other row is zero there. */
  predicate Aligned(A: seq<Row>, B: seq<Row>, row: nat, c: int, w: nat) {
    && Echelon(A, w) && Echelon(B, w) && row <= |A| && row <= |B| && -1 <= c < w
    && (forall i | 0 <= i < row :: Lead(A[i]) > c && Lead(B[i]) > c)
    && (forall i, k | 0 <= i < row && c < k < w :: A[i][k] == B[i][k])
    && (forall i | row <= i < |A| :: Lead(A[i]) <= c)
    && (forall i | row <= i < |B| :: Lead(B[i]) <= c)
  }

  /** v is implied by both systems. */
  ghost predicate Common(v: Vec, A: seq<Row>, B: seq<Row>, w: nat) {
    InSpan(v, A, w) && InSpan(v, B, w)
  }

  lemma AlignedLead(A: seq<Row>, B: seq<Row>, row: nat, c: int, w: nat, i: nat)
    requires Aligned(A, B, row, c, w) && i < row
    ensures Lead(A[i]) == Lead(B[i])
  {
    var p, q := Lead(A[i]), Lead(B[i]);
    assert A[i][p] == B[i][p];
    assert A[i][q] == B[i][q];
  }

  // ---------------------------------------------------------------- dropping a row

  lemma PivotSurvives(a: real, x: real, b: real, y: real)
    requires a != 0.0 && x != 0.0 && (b == 0.0 || y == 0.0)
    ensures a * x + b * y == a * x != 0.0
  {
  }

  lemma ZeroSurvives(a: real, x: real, b: real, y: real)
    requires x == 0.0 && (b == 0.0 || y == 0.0)
    ensures a * x + b * y == 0.0
  {
  }

  lemma CancelFactor(x: real, y: real, f: int, g: int)
    requires f == g != 0 && x * (f as real) == y * (g as real)
    ensures x == y
  {
  }

  /** Row operations with a row t below the changed rows keep every pivot. */
  lemma RowOpsLead(M: seq<Row>, M1: seq<Row>, w: nat, t: nat, a: Vec, b: Vec, i: nat)
    requires Echelon(M, w) && RowOps(M, M1, w, t, a, b)
    requires forall j | 0 <= j < |M| && b[j] != 0.0 :: j < t
    requires i < |M|
    ensures Lead(M1[i]) == Lead(M[i])
    ensures (M1[i][Lead(M[i])] as real) == a[i] * (M[i][Lead(M[i])] as real)
    ensures i != t || (forall j | 0 <= j < |M| :: b[j] == 0.0) ==>
              forall j | 0 <= j < |M| && j != i :: M1[j][Lead(M[i])] == 0
  {
    var p := Lead(M[i]);
    forall k | p < k < w ensures M1[i][k] == 0 {
      assert M[i][k] == 0;
      assert b[i] != 0.0 ==> M[t][k] == 0;
      ZeroSurvives(a[i], M[i][k] as real, b[i], M[t][k] as real);
    }
    assert b[i] != 0.0 ==> M[t][p] == 0;
    PivotSurvives(a[i], M[i][p] as real, b[i], M[t][p] as real);
    LeadUnique(M1[i], p);
    if i != t || (forall j | 0 <= j < |M| :: b[j] == 0.0) {
      forall j | 0 <= j < |M| && j != i ensures M1[j][p] == 0 {
        assert M[j][p] == 0 && (M[t][p] == 0 || b[j] == 0.0);
        ZeroSurvives(a[j], M[j][p] as real, b[j], M[t][p] as real);
      }
    }
  }

  /** After the row operations, leaving out row t gives reduced echelon form again. */
  lemma RowOpsEchelon(M: seq<Row>, M1: seq<Row>, w: nat, t: nat, a: Vec, b: Vec)
    requires Echelon(M, w) && RowOps(M, M1, w, t, a, b)
    requires forall j | 0 <= j < |M| && b[j] != 0.0 :: j < t
    ensures Echelon(Without(M1, t), w)
    ensures forall i | 0 <= i < |M| - 1 ::
              Lead(Without(M1, t)[i]) == Lead(M[if i < t then i else i + 1])
  {
    forall i | 0 <= i < |M|
      ensures Lead(M1[i]) == Lead(M[i])
      ensures i != t ==> forall j | 0 <= j < |M| && j != i :: M1[j][Lead(M[i])] == 0
    {
      RowOpsLead(M, M1, w, t, a, b, i);
    }
    EchelonWithout(M, M1, w, t);
  }

  lemma EchelonWithout(M: seq<Row>, M1: seq<Row>, w: nat, t: nat)
    requires Echelon(M, w) && Matrix(M1, w) && |M1| == |M| && t < |M|
    requires forall i | 0 <= i < |M| :: Lead(M1[i]) == Lead(M[i])
    requires forall i, j | 0 <= i < |M| && 0 <= j < |M| && i != t && j != i :: M1[j][Lead(M[i])] == 0
    ensures Echelon(Without(M1, t), w)
    ensures forall i | 0 <= i < |M| - 1 ::
              Lead(Without(M1, t)[i]) == Lead(M[if i < t then i else i + 1])
  {
    var M2 := Without(M1, t);
    forall i | 0 <= i < |M2| ensures M2[i] == M1[if i < t then i else i + 1] && Lead(M2[i]) >= 0 {}
    forall i, j | 0 <= i < j < |M2| ensures Lead(M2[i]) > Lead(M2[j]) {
      assert Lead(M[if i < t then i else i + 1]) > Lead(M[if j < t then j else j + 1]);
    }
    forall i, j | 0 <= i < |M2| && 0 <= j < |M2| && i != j ensures M2[j][Lead(M2[i])] == 0 {
      var i', j' := if i < t then i else i + 1, if j < t then j else j + 1;
      assert M1[j'][Lead(M[i'])] == 0;
    }
  }

  lemma {:induction false} CombTrim(l: Vec, M: seq<Row>, k: nat, n: nat, n0: nat)
    requires n0 <= n <= |l| && n <= |M|
    requires forall i | 0 <= i < n :: k < |M[i]|
    requires forall i | n0 <= i < n :: M[i][k] == 0
    ensures Comb(l, M, k, n) == Comb(l, M, k, n0)
  {
    if n > n0 { CombTrim(l, M, k, n - 1, n0); }
  }

  lemma {:induction false} CombDiff(l: Vec, M: seq<Row>, m: Vec, N: seq<Row>, k: nat, n: nat, t: nat)
    requires n <= |l| && n <= |M| && n <= |m| && n <= |N|
    requires t < |l| && t < |M| && t < |m| && t < |N| && k < |M[t]| && k < |N[t]|
    requires forall i | 0 <= i < n :: k < |M[i]| && k < |N[i]|
    requires forall i | 0 <= i < n && i != t :: l[i] == m[i] && M[i][k] == N[i][k]
    ensures Comb(l, M, k, n) - Comb(m, N, k, n)
         == if t < n then l[t] * (M[t][k] as real) - m[t] * (N[t][k] as real) else 0.0
  {
    if n > 0 {
      CombDiff(l, M, m, N, k, n - 1, t);
      if n - 1 != t {
        assert l[n - 1] * (M[n - 1][k] as real) == m[n - 1] * (N[n - 1][k] as real);
      }
    }
  }

  /** Two systems that agree on a pivot give a common combination the same coefficient there. */
  lemma SharedCoefficient(v: Vec, l: Vec, M: seq<Row>, m: Vec, N: seq<Row>, w: nat, i: nat, p: nat)
    requires Matrix(M, w) && Matrix(N, w) && |v| == w && p < w && i < |M| && i < |N|
    requires IsComb(v, l, M, w) && IsComb(v, m, N, w)
    requires M[i][p] == N[i][p] != 0
    requires forall j | 0 <= j < |M| && j != i :: M[j][p] == 0
    requires forall j | 0 <= j < |N| && j != i :: N[j][p] == 0
    ensures l[i] == m[i]
  {
    CombSingle(l, M, p, |M|, i);
    CombSingle(m, N, p, |N|, i);
    assert v[p] == Comb(l, M, p, |M|) == Comb(m, N, p, |N|);
    CancelFactor(l[i], m[i], M[i][p], N[i][p]);
  }

  /** The systems between combining rows and deleting a row: on the complete
      rows other than t everything up to and including column col agrees. */
  ghost predicate Prepared(M: seq<Row>, N: seq<Row>, w: nat, row: nat, col: nat, t: nat, ps: seq<nat>) {
    && Matrix(M, w) && Matrix(N, w) && row <= |M| && row <= |N| && col < w && |ps| == row
    && (forall i | 0 <= i < row && i != t ::
          && ps[i] < w && M[i][ps[i]] == N[i][ps[i]] != 0
          && (forall j | 0 <= j < |M| && j != i :: M[j][ps[i]] == 0)
          && (forall j | 0 <= j < |N| && j != i :: N[j][ps[i]] == 0))
    && (forall i | 0 <= i < row && i != t :: M[i][col] == N[i][col])
  }

  lemma PreparedShared(v: Vec, l: Vec, M: seq<Row>, m: Vec, N: seq<Row>,
                       w: nat, row: nat, col: nat, t: nat, ps: seq<nat>)
    requires Prepared(M, N, w, row, col, t, ps)
    requires |v| == w && IsComb(v, l, M, w) && IsComb(v, m, N, w)
    ensures forall i | 0 <= i < row && i != t :: l[i] == m[i]
  {
    forall i | 0 <= i < row && i != t ensures l[i] == m[i] {
      SharedCoefficient(v, l, M, m, N, w, i, ps[i]);
    }
  }

  /** Row `row` of M is the only one that contributes beyond the agreement in
      column col, so a common combination does not use it. */
  lemma DropUnmatched(v: Vec, M: seq<Row>, N: seq<Row>, w: nat, row: nat, col: nat, ps: seq<nat>)
    requires Prepared(M, N, w, row, col, row, ps) && row < |M|
    requires M[row][col] != 0
    requires forall i | row < i < |M| :: M[i][col] == 0
    requires forall i | row <= i < |N| :: N[i][col] == 0
    requires Common(v, M, N, w)
    ensures InSpan(v, Without(M, row), w)
  {
    var l :| IsComb(v, l, M, w);
    var m :| IsComb(v, m, N, w);
    PreparedShared(v, l, M, m, N, w, row, col, row, ps);
    CombTrim(l, M, col, |M|, row + 1);
    CombTrim(m, N, col, |N|, row);
    CombAgree(l, M, m, N, col, row);
    assert l[row] * (M[row][col] as real) == 0.0;
    SpanWithout(v, l, M, w, row);
  }

  lemma {:induction false} CombAgree(l: Vec, M: seq<Row>, m: Vec, N: seq<Row>, k: nat, n: nat)
    requires n <= |l| && n <= |M| && n <= |m| && n <= |N|
    requires forall i | 0 <= i < n :: k < |M[i]| && k < |N[i]|
    requires forall i | 0 <= i < n :: l[i] == m[i] && M[i][k] == N[i][k]
    ensures Comb(l, M, k, n) == Comb(m, N, k, n)
  {
    if n > 0 { CombAgree(l, M, m, N, k, n - 1); }
  }

  /** In a column where the complete rows other than t agree and the rest is
      zero, row t contributes the same to a common combination in both systems. */
  lemma SameContribution(v: Vec, l: Vec, M: seq<Row>, m: Vec, N: seq<Row>, w: nat, row: nat, k: nat, t: nat)
    requires Matrix(M, w) && Matrix(N, w) && |v| == w && k < w && t < row <= |M| && row <= |N|
    requires IsComb(v, l, M, w) && IsComb(v, m, N, w)
    requires forall i | 0 <= i < row && i != t :: l[i] == m[i] && M[i][k] == N[i][k]
    requires forall i | row <= i < |M| :: M[i][k] == 0
    requires forall i | row <= i < |N| :: N[i][k] == 0
    ensures l[t] * (M[t][k] as real) == m[t] * (N[t][k] as real)
  {
    CombTrim(l, M, k, |M|, row);
    CombTrim(m, N, k, |N|, row);
    CombDiff(l, M, m, N, k, row, t);
  }

  lemma BothZero(x: real, y: real, p: real, c: real, d: real)
    requires p != 0.0 && x * p == y * p
    requires c != d && x * c == y * d
    ensures x == y == 0.0
  {
    assert x == y;
    assert x * (c - d) == 0.0;
  }

  /** Row t is the only complete row on which column col differs, so a common
      combination uses it in neither system. */
  lemma DropDiffering(v: Vec, M: seq<Row>, N: seq<Row>, w: nat, row: nat, col: nat, t: nat, ps: seq<nat>)
    requires Prepared(M, N, w, row, col, t, ps) && t < row
    requires M[t][col] != N[t][col]
    requires forall i | row <= i < |M| :: M[i][col] == 0
    requires forall i | row <= i < |N| :: N[i][col] == 0
    requires ps[t] < w && M[t][ps[t]] != 0
    requires forall i | 0 <= i < row :: M[i][ps[t]] == N[i][ps[t]]
    requires forall i | row <= i < |M| :: M[i][ps[t]] == 0
    requires forall i | row <= i < |N| :: N[i][ps[t]] == 0
    requires Common(v, M, N, w)
    ensures Common(v, Without(M, t), Without(N, t), w)
  {
    var l :| IsComb(v, l, M, w);
    var m :| IsComb(v, m, N, w);
    PreparedShared(v, l, M, m, N, w, row, col, t, ps);
    SameContribution(v, l, M, m, N, w, row, ps[t], t);
    SameContribution(v, l, M, m, N, w, row, col, t);
    BothZero(l[t], m[t], M[t][ps[t]] as real, M[t][col] as real, N[t][col] as real);
    SpanWithout(v, l, M, w, t);
    SpanWithout(v, m, N, w, t);
  }
}
