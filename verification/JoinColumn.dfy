/** The four cases of one column of the affine-hull join keep the loop invariant,
    keep exactly the common equalities, and never raise the number of rows. */
module JoinColumn {
  import opened IntArith
  import opened LinearAlgebra
  import opened JoinStep

  // ---------------------------------------------------------------- row operations over integers

  lemma IntRowOps(M: seq<Row>, M1: seq<Row>, w: nat, t: nat, a: seq<int>, b: seq<int>)
    requires Matrix(M, w) && Matrix(M1, w) && |M1| == |M| == |a| == |b| && t < |M| && b[t] == 0
    requires forall i | 0 <= i < |a| :: a[i] != 0
    requires forall i, k | 0 <= i < |M| && 0 <= k < w :: M1[i][k] == a[i] * M[i][k] + b[i] * M[t][k]
    ensures RowOps(M, M1, w, t, Lift(a), Lift(b))
  {
    forall i, k | 0 <= i < |M| && 0 <= k < w
      ensures (M1[i][k] as real) == Lift(a)[i] * (M[i][k] as real) + Lift(b)[i] * (M[t][k] as real)
    {
      MulReal(a[i], M[i][k]);
      MulReal(b[i], M[t][k]);
    }
  }

  /** Scaling rows by non-zero factors keeps the form, the pivots and the row space. */
  lemma ScaledRows(M: seq<Row>, M1: seq<Row>, w: nat, c: seq<int>)
    requires Echelon(M, w) && Matrix(M1, w) && |M1| == |M| == |c|
    requires forall i | 0 <= i < |c| :: c[i] != 0
    requires forall i, k | 0 <= i < |M| && 0 <= k < w :: M1[i][k] == c[i] * M[i][k]
    ensures Echelon(M1, w)
    ensures forall i | 0 <= i < |M| :: Lead(M1[i]) == Lead(M[i])
    ensures forall v :: InSpan(v, M, w) <==> InSpan(v, M1, w)
  {
    if |M| == 0 {
      assert M1 == M;
    } else {
      var z := seq(|M|, i requires 0 <= i < |M| => 0);
      IntRowOps(M, M1, w, 0, c, z);
      forall i | 0 <= i < |M|
        ensures Lead(M1[i]) == Lead(M[i])
        ensures forall j | 0 <= j < |M| && j != i :: M1[j][Lead(M[i])] == 0
      {
        RowOpsLead(M, M1, w, 0, Lift(c), Lift(z), i);
      }
      forall v ensures InSpan(v, M, w) <==> InSpan(v, M1, w) {
        RowOpsSpan(M, M1, w, 0, Lift(c), Lift(z), v);
      }
    }
  }

  // ---------------------------------------------------------------- what a step achieves

  /** Either a row was lost, or the row space is unchanged. */
  ghost predicate Weakened(M: seq<Row>, M1: seq<Row>, w: nat) {
    || |M1| < |M|
    || (|M1| == |M| && forall v :: InSpan(v, M1, w) <==> InSpan(v, M, w))
  }

  lemma WeakenedTransitive(M: seq<Row>, M1: seq<Row>, M2: seq<Row>, w: nat)
    requires Weakened(M, M1, w) && Weakened(M1, M2, w)
    ensures Weakened(M, M2, w)
  {
  }

  /** The same equalities are implied by both systems before and after. */
  ghost predicate SameCommon(A: seq<Row>, B: seq<Row>, A1: seq<Row>, B1: seq<Row>, w: nat) {
    forall v :: Common(v, A, B, w) <==> Common(v, A1, B1, w)
  }

  ghost predicate Stepped(A: seq<Row>, B: seq<Row>, A1: seq<Row>, B1: seq<Row>, w: nat) {
    SameCommon(A, B, A1, B1, w) && Weakened(A, A1, w) && Weakened(B, B1, w)
  }

  lemma SteppedTransitive(A: seq<Row>, B: seq<Row>, A1: seq<Row>, B1: seq<Row>, A2: seq<Row>, B2: seq<Row>, w: nat)
    requires Stepped(A, B, A1, B1, w) && Stepped(A1, B1, A2, B2, w)
    ensures Stepped(A, B, A2, B2, w)
  {
    forall v ensures Common(v, A, B, w) <==> Common(v, A2, B2, w) {
      assert Common(v, A, B, w) <==> Common(v, A1, B1, w);
    }
  }

  lemma SteppedSwap(A: seq<Row>, B: seq<Row>, A1: seq<Row>, B1: seq<Row>, w: nat)
    requires Stepped(A, B, A1, B1, w)
    ensures Stepped(B, A, B1, A1, w)
  {
    forall v ensures Common(v, B, A, w) <==> Common(v, B1, A1, w) {
      assert Common(v, A, B, w) <==> Common(v, A1, B1, w);
    }
  }

  lemma CommonOfEqual(A: seq<Row>, B: seq<Row>, A1: seq<Row>, B1: seq<Row>, w: nat)
    requires Stepped(A, B, A1, B1, w) && A1 == B1
    ensures forall v :: InSpan(v, A1, w) <==> InSpan(v, A, w) && InSpan(v, B, w)
  {
    forall v ensures InSpan(v, A1, w) <==> InSpan(v, A, w) && InSpan(v, B, w) {
      assert Common(v, A, B, w) <==> Common(v, A1, B1, w);
    }
  }

  lemma AlignedSwap(A: seq<Row>, B: seq<Row>, row: nat, c: int, w: nat)
    requires Aligned(A, B, row, c, w)
    ensures Aligned(B, A, row, c, w)
  {
  }

  /** Column col is zero in every remaining row, unless that row has its pivot there. */
  lemma TailZero(A: seq<Row>, w: nat, row: nat, col: nat)
    requires Echelon(A, w) && row <= |A| && col < w
    requires forall i | row <= i < |A| :: Lead(A[i]) <= col
    requires row < |A| ==> A[row][col] == 0
    ensures forall i | row <= i < |A| :: Lead(A[i]) < col && A[i][col] == 0
  {
    forall i | row <= i < |A| ensures Lead(A[i]) < col && A[i][col] == 0 {
      assert Lead(A[row]) < col;
      assert i > row ==> Lead(A[row]) > Lead(A[i]);
    }
  }

  // ---------------------------------------------------------------- both systems have a pivot

  /** Row `row` of A after `set_common_multiple`. */
  function CommonRow(A: seq<Row>, B: seq<Row>, row: nat, col: nat): Row
    requires row < |A| && row < |B| && col < |A[row]| && col < |B[row]|
    requires A[row][col] != 0 && B[row][col] != 0
  {
    Scaled(A[row], CommonFactor(A[row][col], B[row][col]), col + 1)
  }

  lemma CommonFactors(x: int, y: int)
    requires x != 0 && y != 0
    ensures CommonFactor(x, y) != 0 && CommonFactor(y, x) != 0
    ensures CommonFactor(x, y) * x == CommonFactor(y, x) * y
  {
    var u, v := LcmMultiple(x, y);
    var u', v' := LcmMultiple(y, x);
    if x != y {
      LcmSymmetric(x, y);
    }
  }

  lemma GcdSymmetric(a: int, b: int)
    requires a != 0 || b != 0
    ensures Gcd(a, b) == Gcd(b, a)
  {
    var x, y := GcdDivides(a, b);
    var u, v := GcdDivides(b, a);
    var z := GcdGreatest(b, a, Gcd(a, b), y, x);
    var z' := GcdGreatest(a, b, Gcd(b, a), v, u);
    var g, h := Gcd(a, b), Gcd(b, a);
    assert h == z * g && g == z' * h;
    MultipleAtLeast(z, g);
    MultipleAtLeast(z', h);
  }

  lemma LcmSymmetric(a: int, b: int)
    requires a != 0 && b != 0
    ensures Lcm(a, b) == Lcm(b, a)
  {
    GcdSymmetric(a, b);
    var u, v := GcdDivides(a, b);
    CrossMultiple(a, b, u, v, Gcd(a, b));
  }

  lemma CommonKeeps(A: seq<Row>, B: seq<Row>, row: nat, col: nat, w: nat)
    requires Echelon(A, w) && Echelon(B, w) && row < |A| && row < |B| && col < w
    requires A[row][col] != 0 && B[row][col] != 0 && Lead(A[row]) == col
    ensures var A1 := A[row := CommonRow(A, B, row, col)];
      && Echelon(A1, w)
      && (forall i | 0 <= i < |A| :: Lead(A1[i]) == Lead(A[i]))
      && (forall v :: InSpan(v, A, w) <==> InSpan(v, A1, w))
  {
    var A1 := A[row := CommonRow(A, B, row, col)];
    var f := CommonFactor(A[row][col], B[row][col]);
    CommonFactors(A[row][col], B[row][col]);
    var c := seq(|A|, i requires 0 <= i < |A| => if i == row then f else 1);
    forall i, k | 0 <= i < |A| && 0 <= k < w ensures A1[i][k] == c[i] * A[i][k] {
      if i == row && k > col { assert A[row][k] == 0; }
    }
    ScaledRows(A, A1, w, c);
  }

  lemma CommonColumn(A: seq<Row>, B: seq<Row>, row: nat, col: nat, w: nat)
    requires Aligned(A, B, row, col, w) && row < |A| && row < |B|
    requires A[row][col] != 0 && B[row][col] != 0
    ensures var A1, B1 := A[row := CommonRow(A, B, row, col)], B[row := CommonRow(B, A, row, col)];
      Aligned(A1, B1, row + 1, col - 1, w) && Stepped(A, B, A1, B1, w)
  {
    var A1, B1 := A[row := CommonRow(A, B, row, col)], B[row := CommonRow(B, A, row, col)];
    assert Lead(A[row]) == col == Lead(B[row]);
    CommonKeeps(A, B, row, col, w);
    CommonKeeps(B, A, row, col, w);
    CommonFactors(A[row][col], B[row][col]);
    forall i, k | 0 <= i < row + 1 && col - 1 < k < w ensures A1[i][k] == B1[i][k] {
      if i == row {
        if k > col { assert A[row][k] == 0 == B[row][k]; }
      } else if k == col {
        assert A[i][Lead(A[row])] == 0 && B[i][Lead(B[row])] == 0;
      }
    }
    forall i | row + 1 <= i < |A1| ensures Lead(A1[i]) <= col - 1 { assert Lead(A[i]) < Lead(A[row]); }
    forall i | row + 1 <= i < |B1| ensures Lead(B1[i]) <= col - 1 { assert Lead(B[i]) < Lead(B[row]); }
  }

  // ---------------------------------------------------------------- one system has a pivot

  /** The rows of the first system in `construct_column`, before row `row` is deleted. */
  function ConstructLeft(A: seq<Row>, B: seq<Row>, row: nat, col: nat, w: nat): (M: seq<Row>)
    requires Matrix(A, w) && Matrix(B, w) && row < |A| && row <= |B| && col < w && A[row][col] != 0
    ensures |M| == |A| && Matrix(M, w)
  {
    seq(|A|, r requires 0 <= r < |A| =>
      if r < row && B[r][col] != 0
      then Combine(ConstructA(B[r][col], A[row][col]), A[r], ConstructB(B[r][col], A[row][col]), A[row])
      else A[r])
  }

  /** The rows of the second system after `construct_column`. */
  function ConstructRight(A: seq<Row>, B: seq<Row>, row: nat, col: nat, w: nat): (N: seq<Row>)
    requires Matrix(A, w) && Matrix(B, w) && row < |A| && row <= |B| && col < w && A[row][col] != 0
    ensures |N| == |B| && Matrix(N, w)
  {
    seq(|B|, r requires 0 <= r < |B| =>
      if r < row && B[r][col] != 0
      then Scaled(B[r], ConstructA(B[r][col], A[row][col]), w)
      else B[r])
  }

  /** The factors a[r] and b[r], with 1 and 0 for the rows that are skipped. */
  function ConstructAs(A: seq<Row>, B: seq<Row>, row: nat, col: nat, w: nat, n: nat): (a: seq<int>)
    requires Matrix(A, w) && Matrix(B, w) && row < |A| && row <= |B| && col < w && A[row][col] != 0
    ensures |a| == n
  {
    seq(n, r requires 0 <= r < n => if r < row then ConstructA(B[r][col], A[row][col]) else 1)
  }

  function ConstructBs(A: seq<Row>, B: seq<Row>, row: nat, col: nat, w: nat, n: nat): (b: seq<int>)
    requires Matrix(A, w) && Matrix(B, w) && row < |A| && row <= |B| && col < w && A[row][col] != 0
    ensures |b| == n
  {
    seq(n, r requires 0 <= r < n => if r < row then ConstructB(B[r][col], A[row][col]) else 0)
  }

  lemma ConstructRowOps(A: seq<Row>, B: seq<Row>, row: nat, col: nat, w: nat)
    requires Aligned(A, B, row, col, w) && row < |A| && A[row][col] != 0
    ensures RowOps(A, ConstructLeft(A, B, row, col, w), w, row,
                   Lift(ConstructAs(A, B, row, col, w, |A|)), Lift(ConstructBs(A, B, row, col, w, |A|)))
    ensures forall i | 0 <= i < row :: ConstructAs(A, B, row, col, w, |A|)[i] != 0
    ensures var N := ConstructRight(A, B, row, col, w);
      && Echelon(N, w) && (forall i | 0 <= i < |B| :: Lead(N[i]) == Lead(B[i]))
      && (forall v :: InSpan(v, B, w) <==> InSpan(v, N, w))
  {
    var a, b := ConstructAs(A, B, row, col, w, |A|), ConstructBs(A, B, row, col, w, |A|);
    forall i | 0 <= i < |A| ensures a[i] != 0 {
      if i < row { ConstructFactors(B[i][col], A[row][col]); }
    }
    IntRowOps(A, ConstructLeft(A, B, row, col, w), w, row, a, b);
    var c := ConstructAs(A, B, row, col, w, |B|);
    forall i | 0 <= i < |B| ensures c[i] != 0 {
      if i < row { ConstructFactors(B[i][col], A[row][col]); }
    }
    ScaledRows(B, ConstructRight(A, B, row, col, w), w, c);
  }

  /** On the complete rows, the constructed systems agree from column col on. */
  lemma ConstructAgree(A: seq<Row>, B: seq<Row>, row: nat, col: nat, w: nat, i: nat, k: nat)
    requires Aligned(A, B, row, col, w) && row < |A| && A[row][col] != 0
    requires i < row && col <= k < w
    ensures ConstructLeft(A, B, row, col, w)[i][k] == ConstructRight(A, B, row, col, w)[i][k]
  {
    assert Lead(A[row]) == col;
    assert A[i][Lead(A[row])] == 0;
    ConstructFactors(B[i][col], A[row][col]);
    if k > col { assert A[row][k] == 0 && A[i][k] == B[i][k]; }
  }

  lemma ConstructPrepared(A: seq<Row>, B: seq<Row>, row: nat, col: nat, w: nat, ps: seq<nat>)
    requires Aligned(A, B, row, col, w) && row < |A| && A[row][col] != 0
    requires |ps| == row && forall i | 0 <= i < row :: ps[i] == Lead(A[i])
    ensures Prepared(ConstructLeft(A, B, row, col, w), ConstructRight(A, B, row, col, w), w, row, col, row, ps)
  {
    var M, N := ConstructLeft(A, B, row, col, w), ConstructRight(A, B, row, col, w);
    ConstructRowOps(A, B, row, col, w);
    var a, b := Lift(ConstructAs(A, B, row, col, w, |A|)), Lift(ConstructBs(A, B, row, col, w, |A|));
    forall i | 0 <= i < row
      ensures M[i][col] == N[i][col] && M[i][ps[i]] == N[i][ps[i]] != 0
      ensures forall j | 0 <= j < |M| && j != i :: M[j][ps[i]] == 0
      ensures forall j | 0 <= j < |N| && j != i :: N[j][ps[i]] == 0
    {
      AlignedLead(A, B, row, col, w, i);
      RowOpsLead(A, M, w, row, a, b, i);
      ConstructAgree(A, B, row, col, w, i, col);
      ConstructAgree(A, B, row, col, w, i, ps[i]);
      assert Lead(N[i]) == ps[i];
    }
  }

  lemma ConstructSpan(A: seq<Row>, B: seq<Row>, row: nat, col: nat, w: nat, v: Vec)
    requires Aligned(A, B, row, col, w) && row < |A| && A[row][col] != 0
    requires row < |B| ==> B[row][col] == 0
    ensures var M, N := ConstructLeft(A, B, row, col, w), ConstructRight(A, B, row, col, w);
      Common(v, A, B, w) <==> Common(v, Without(M, row), N, w)
  {
    var M, N := ConstructLeft(A, B, row, col, w), ConstructRight(A, B, row, col, w);
    var a, b := Lift(ConstructAs(A, B, row, col, w, |A|)), Lift(ConstructBs(A, B, row, col, w, |A|));
    ConstructRowOps(A, B, row, col, w);
    RowOpsSpan(A, M, w, row, a, b, v);
    if Common(v, A, B, w) {
      var ps := seq(row, i requires 0 <= i < row => Lead(A[i]) as nat);
      ConstructPrepared(A, B, row, col, w, ps);
      TailZero(B, w, row, col);
      assert forall i | row < i < |A| :: A[i][col] == 0 by {
        assert forall i | row < i < |A| :: Lead(A[i]) < Lead(A[row]);
      }
      DropUnmatched(v, M, N, w, row, col, ps);
    }
    if Common(v, Without(M, row), N, w) { WithoutSpan(v, M, w, row); }
  }

  lemma ConstructAligned(A: seq<Row>, B: seq<Row>, row: nat, col: nat, w: nat)
    requires Aligned(A, B, row, col, w) && row < |A| && A[row][col] != 0
    requires row < |B| ==> B[row][col] == 0
    ensures var M, N := ConstructLeft(A, B, row, col, w), ConstructRight(A, B, row, col, w);
      Aligned(Without(M, row), N, row, col - 1, w)
  {
    var M, N := ConstructLeft(A, B, row, col, w), ConstructRight(A, B, row, col, w);
    ConstructRowOps(A, B, row, col, w);
    RowOpsEchelon(A, M, w, row, Lift(ConstructAs(A, B, row, col, w, |A|)), Lift(ConstructBs(A, B, row, col, w, |A|)));
    var M1 := Without(M, row);
    forall i, k | 0 <= i < row && col - 1 < k < w ensures M1[i][k] == N[i][k] {
      ConstructAgree(A, B, row, col, w, i, k);
    }
    TailZero(B, w, row, col);
    forall i | row <= i < |M1| ensures Lead(M1[i]) <= col - 1 {
      assert Lead(A[row]) > Lead(A[i + 1]);
    }
  }

  lemma ConstructColumn(A: seq<Row>, B: seq<Row>, row: nat, col: nat, w: nat)
    requires Aligned(A, B, row, col, w) && row < |A| && A[row][col] != 0
    requires row < |B| ==> B[row][col] == 0
    ensures var M, N := ConstructLeft(A, B, row, col, w), ConstructRight(A, B, row, col, w);
      Aligned(Without(M, row), N, row, col - 1, w) && Stepped(A, B, Without(M, row), N, w)
  {
    ConstructAligned(A, B, row, col, w);
    ConstructRowOps(A, B, row, col, w);
    forall v { ConstructSpan(A, B, row, col, w, v); }
  }

  // ---------------------------------------------------------------- no system has a pivot

  predicate LastDifference(A: seq<Row>, B: seq<Row>, row: nat, col: nat, w: nat, t: nat) {
    && Matrix(A, w) && Matrix(B, w) && t < row <= |A| && row <= |B| && col < w
    && A[t][col] != B[t][col]
    && forall i | t < i < row :: A[i][col] == B[i][col]
  }

  /** The rows of M (A or B) in `transform_column`, before row t is deleted. */
  function Transformed(M: seq<Row>, A: seq<Row>, B: seq<Row>, row: nat, col: nat, w: nat, t: nat): (M1: seq<Row>)
    requires LastDifference(A, B, row, col, w, t) && Matrix(M, w) && t < |M|
    ensures |M1| == |M| && Matrix(M1, w)
  {
    var d := A[t][col] - B[t][col];
    seq(|M|, i requires 0 <= i < |M| =>
      if i < t
      then Combine(TransformA(A[i][col] - B[i][col], d), M[i], TransformB(A[i][col] - B[i][col], d), M[t])
      else M[i])
  }

  function TransformAs(A: seq<Row>, B: seq<Row>, row: nat, col: nat, w: nat, t: nat, n: nat): (a: seq<int>)
    requires LastDifference(A, B, row, col, w, t)
    ensures |a| == n
  {
    seq(n, i requires 0 <= i < n =>
      if i < t then TransformA(A[i][col] - B[i][col], A[t][col] - B[t][col]) else 1)
  }

  function TransformBs(A: seq<Row>, B: seq<Row>, row: nat, col: nat, w: nat, t: nat, n: nat): (b: seq<int>)
    requires LastDifference(A, B, row, col, w, t)
    ensures |b| == n
  {
    seq(n, i requires 0 <= i < n =>
      if i < t then TransformB(A[i][col] - B[i][col], A[t][col] - B[t][col]) else 0)
  }

  lemma TransformRowOps(M: seq<Row>, A: seq<Row>, B: seq<Row>, row: nat, col: nat, w: nat, t: nat)
    requires LastDifference(A, B, row, col, w, t) && Matrix(M, w) && t < |M|
    ensures RowOps(M, Transformed(M, A, B, row, col, w, t), w, t,
                   Lift(TransformAs(A, B, row, col, w, t, |M|)), Lift(TransformBs(A, B, row, col, w, t, |M|)))
  {
    var a, b := TransformAs(A, B, row, col, w, t, |M|), TransformBs(A, B, row, col, w, t, |M|);
    forall i | 0 <= i < |M| ensures a[i] != 0 {
      if i < t { TransformFactors(A[i][col] - B[i][col], A[t][col] - B[t][col]); }
    }
    IntRowOps(M, Transformed(M, A, B, row, col, w, t), w, t, a, b);
  }

  /** On the complete rows other than t, the transformed systems agree from column col on. */
  lemma TransformAgree(A: seq<Row>, B: seq<Row>, row: nat, col: nat, w: nat, t: nat, i: nat, k: nat)
    requires Aligned(A, B, row, col, w) && LastDifference(A, B, row, col, w, t)
    requires i < row && col <= k < w && (i != t || k > col)
    ensures Transformed(A, A, B, row, col, w, t)[i][k] == Transformed(B, A, B, row, col, w, t)[i][k]
  {
    if i < t {
      var x, d := A[i][col] - B[i][col], A[t][col] - B[t][col];
      var f, g := TransformA(x, d), TransformB(x, d);
      TransformFactors(x, d);
      if k == col {
        CombineDifference(f, g, A[i][k], A[t][k], B[i][k], B[t][k]);
      } else {
        assert A[i][k] == B[i][k] && A[t][k] == B[t][k];
      }
    }
  }

  lemma CombineDifference(f: int, g: int, x: int, y: int, x': int, y': int)
    requires f * (x - x') + g * (y - y') == 0
    ensures f * x + g * y == f * x' + g * y'
  {
  }

  lemma TransformPrepared(A: seq<Row>, B: seq<Row>, row: nat, col: nat, w: nat, t: nat, ps: seq<nat>)
    requires Aligned(A, B, row, col, w) && LastDifference(A, B, row, col, w, t)
    requires |ps| == row && forall i | 0 <= i < row :: ps[i] == Lead(A[i])
    ensures Prepared(Transformed(A, A, B, row, col, w, t), Transformed(B, A, B, row, col, w, t), w, row, col, t, ps)
  {
    var M, N := Transformed(A, A, B, row, col, w, t), Transformed(B, A, B, row, col, w, t);
    TransformRowOps(A, A, B, row, col, w, t);
    TransformRowOps(B, A, B, row, col, w, t);
    forall i | 0 <= i < row && i != t
      ensures M[i][col] == N[i][col] && M[i][ps[i]] == N[i][ps[i]] != 0
      ensures forall j | 0 <= j < |M| && j != i :: M[j][ps[i]] == 0
      ensures forall j | 0 <= j < |N| && j != i :: N[j][ps[i]] == 0
    {
      AlignedLead(A, B, row, col, w, i);
      RowOpsLead(A, M, w, t, Lift(TransformAs(A, B, row, col, w, t, |A|)), Lift(TransformBs(A, B, row, col, w, t, |A|)), i);
      RowOpsLead(B, N, w, t, Lift(TransformAs(A, B, row, col, w, t, |B|)), Lift(TransformBs(A, B, row, col, w, t, |B|)), i);
      TransformAgree(A, B, row, col, w, t, i, col);
      TransformAgree(A, B, row, col, w, t, i, ps[i]);
      assert Lead(M[i]) == ps[i];
    }
  }

  lemma TransformSpan(A: seq<Row>, B: seq<Row>, row: nat, col: nat, w: nat, t: nat, v: Vec)
    requires Aligned(A, B, row, col, w) && LastDifference(A, B, row, col, w, t)
    requires (row < |A| ==> A[row][col] == 0) && (row < |B| ==> B[row][col] == 0)
    ensures var M, N := Transformed(A, A, B, row, col, w, t), Transformed(B, A, B, row, col, w, t);
      Common(v, A, B, w) <==> Common(v, Without(M, t), Without(N, t), w)
  {
    var M, N := Transformed(A, A, B, row, col, w, t), Transformed(B, A, B, row, col, w, t);
    TransformRowOps(A, A, B, row, col, w, t);
    TransformRowOps(B, A, B, row, col, w, t);
    RowOpsSpan(A, M, w, t, Lift(TransformAs(A, B, row, col, w, t, |A|)), Lift(TransformBs(A, B, row, col, w, t, |A|)), v);
    RowOpsSpan(B, N, w, t, Lift(TransformAs(A, B, row, col, w, t, |B|)), Lift(TransformBs(A, B, row, col, w, t, |B|)), v);
    if Common(v, M, N, w) { TransformDropped(A, B, row, col, w, t, v); }
    if Common(v, Without(M, t), Without(N, t), w) {
      WithoutSpan(v, M, w, t);
      WithoutSpan(v, N, w, t);
    }
  }

  lemma TransformDropped(A: seq<Row>, B: seq<Row>, row: nat, col: nat, w: nat, t: nat, v: Vec)
    requires Aligned(A, B, row, col, w) && LastDifference(A, B, row, col, w, t)
    requires (row < |A| ==> A[row][col] == 0) && (row < |B| ==> B[row][col] == 0)
    requires Common(v, Transformed(A, A, B, row, col, w, t), Transformed(B, A, B, row, col, w, t), w)
    ensures var M, N := Transformed(A, A, B, row, col, w, t), Transformed(B, A, B, row, col, w, t);
      Common(v, Without(M, t), Without(N, t), w)
  {
    var M, N := Transformed(A, A, B, row, col, w, t), Transformed(B, A, B, row, col, w, t);
    var ps := seq(row, i requires 0 <= i < row => Lead(A[i]) as nat);
    TransformPrepared(A, B, row, col, w, t, ps);
    TailZero(A, w, row, col);
    TailZero(B, w, row, col);
    var p := ps[t];
    forall i | 0 <= i < row ensures M[i][p] == N[i][p] { TransformAgree(A, B, row, col, w, t, i, p); }
    DropDiffering(v, M, N, w, row, col, t, ps);
  }

  lemma TransformAligned(A: seq<Row>, B: seq<Row>, row: nat, col: nat, w: nat, t: nat)
    requires Aligned(A, B, row, col, w) && LastDifference(A, B, row, col, w, t)
    requires (row < |A| ==> A[row][col] == 0) && (row < |B| ==> B[row][col] == 0)
    ensures var M, N := Transformed(A, A, B, row, col, w, t), Transformed(B, A, B, row, col, w, t);
      Aligned(Without(M, t), Without(N, t), row - 1, col - 1, w)
  {
    var M, N := Transformed(A, A, B, row, col, w, t), Transformed(B, A, B, row, col, w, t);
    TransformRowOps(A, A, B, row, col, w, t);
    TransformRowOps(B, A, B, row, col, w, t);
    RowOpsEchelon(A, M, w, t, Lift(TransformAs(A, B, row, col, w, t, |A|)), Lift(TransformBs(A, B, row, col, w, t, |A|)));
    RowOpsEchelon(B, N, w, t, Lift(TransformAs(A, B, row, col, w, t, |B|)), Lift(TransformBs(A, B, row, col, w, t, |B|)));
    var M1, N1 := Without(M, t), Without(N, t);
    forall i, k | 0 <= i < row - 1 && col - 1 < k < w ensures M1[i][k] == N1[i][k] {
      TransformAgree(A, B, row, col, w, t, if i < t then i else i + 1, k);
    }
    TailZero(A, w, row, col);
    TailZero(B, w, row, col);
  }

  lemma TransformColumn(A: seq<Row>, B: seq<Row>, row: nat, col: nat, w: nat, t: nat)
    requires Aligned(A, B, row, col, w) && LastDifference(A, B, row, col, w, t)
    requires (row < |A| ==> A[row][col] == 0) && (row < |B| ==> B[row][col] == 0)
    ensures var M, N := Transformed(A, A, B, row, col, w, t), Transformed(B, A, B, row, col, w, t);
      && Aligned(Without(M, t), Without(N, t), row - 1, col - 1, w)
      && Stepped(A, B, Without(M, t), Without(N, t), w)
  {
    TransformAligned(A, B, row, col, w, t);
    forall v { TransformSpan(A, B, row, col, w, t, v); }
  }

  /** Nothing to do: the complete rows already agree in this column. */
  lemma AgreeingColumn(A: seq<Row>, B: seq<Row>, row: nat, col: nat, w: nat)
    requires Aligned(A, B, row, col, w) && col >= 0
    requires (row < |A| ==> A[row][col] == 0) && (row < |B| ==> B[row][col] == 0)
    requires forall i | 0 <= i < row :: A[i][col] == B[i][col]
    ensures Aligned(A, B, row, col - 1, w)
  {
    TailZero(A, w, row, col);
    TailZero(B, w, row, col);
  }

  lemma NoneLeft(A: seq<Row>, row: nat, w: nat)
    requires Echelon(A, w) && row <= |A|
    requires forall i | row <= i < |A| :: Lead(A[i]) <= -1
    ensures row == |A|
  {
    var j := if row < |A| then row else 0;
    assert |A| > 0 ==> Lead(A[j]) >= 0;
  }

  /** Once every column is processed no row is left over and the systems are identical. */
  lemma JoinDone(A: seq<Row>, B: seq<Row>, row: nat, w: nat)
    requires Aligned(A, B, row, -1, w)
    ensures row == |A| == |B| && A == B
  {
    NoneLeft(A, row, w);
    NoneLeft(B, row, w);
    forall i | 0 <= i < |A| ensures A[i] == B[i] {
      assert forall k | 0 <= k < w :: A[i][k] == B[i][k];
    }
  }
}
