/** `isl_basic_map_normalize_constraints` on equalities: divide each row by the
    common factor of its variable coefficients, drop zero rows, and detect rows
    without integer solutions. */
module Normalize {
  import opened IntArith
  import opened LinearAlgebra
  import opened JoinColumn
  import opened Points

  /** `isl_seq_gcd` over the variable coefficients among the first n entries. */
  function CoefficientGcd(r: Row, n: nat): (g: nat)
    requires n <= |r|
    ensures g == 0 <==> forall k | 1 <= k < n :: r[k] == 0
  {
    if n <= 1 then 0 else Gcd(CoefficientGcd(r, n - 1), r[n - 1])
  }

  lemma {:induction false} CoefficientMultiple(r: Row, n: nat, k: nat) returns (q: int)
    requires 1 <= k < n <= |r| && CoefficientGcd(r, n) > 0
    ensures r[k] == q * CoefficientGcd(r, n)
  {
    var h := CoefficientGcd(r, n - 1);
    var g := CoefficientGcd(r, n);
    var x, y := GcdDivides(h, r[n - 1]);
    if k == n - 1 {
      q := y;
    } else if h == 0 {
      q := 0;
    } else {
      var q' := CoefficientMultiple(r, n - 1, k);
      MultipleOfMultiple(r[k], q', h, x, g);
      q := q' * x;
    }
  }

  lemma AddMultiple(a: int, q: int, g: int, r: int, c: int, x: int)
    requires r == c * g
    ensures a + q * g + r * x == a + (q + c * x) * g
  {
    assert (c * g) * x == (c * x) * g;
    assert (q + c * x) * g == q * g + (c * x) * g;
  }

  /** The value of a row at an integer point differs from its constant by a multiple of the gcd. */
  lemma {:induction false} ValueModGcd(r: Row, x: Row, n: nat, g: int) returns (q: int)
    requires 1 <= n <= |r| == |x| && x[0] == 1 && CoefficientGcd(r, |r|) == g > 0
    ensures IDot(r, x, n) == r[0] + q * g
  {
    if n == 1 {
      q := 0;
      assert IDot(r, x, 0) == 0;
    } else {
      var q' := ValueModGcd(r, x, n - 1, g);
      var c := CoefficientMultiple(r, |r|, n - 1);
      q := q' + c * x[n - 1];
      AddMultiple(r[0], q', g, r[n - 1], c, x[n - 1]);
    }
  }

  /** The row has no solution: rational sets only reject a non-zero constant,
      other sets also reject a constant that the coefficients' gcd does not divide. */
  predicate NoSolution(r: Row, rational: bool)
    requires |r| > 0
  {
    var g := CoefficientGcd(r, |r|);
    if g == 0 then r[0] != 0 else !rational && r[0] % g != 0
  }

  lemma {:induction false} ConstantValue(r: Row, x: Row, n: nat)
    requires 1 <= n <= |r| == |x| && x[0] == 1
    requires forall k | 1 <= k < n :: r[k] == 0
    ensures IDot(r, x, n) == r[0]
  {
    if n > 1 { ConstantValue(r, x, n - 1); } else { assert IDot(r, x, 0) == 0; }
  }

  lemma NoSolutionRefuted(r: Row, rational: bool, p: seq<int>)
    requires |r| == |p| + 1 && NoSolution(r, rational)
    ensures ValueAt(r, p) != 0
  {
    var g := CoefficientGcd(r, |r|);
    if g == 0 {
      ConstantValue(r, Homog(p), |r|);
    } else {
      var q := ValueModGcd(r, Homog(p), |r|, g);
      ExactQuotient(-q, g);
      assert r[0] == -q * g || ValueAt(r, p) != 0;
    }
  }

  /** Every multiple of the gcd is the value of the variable part somewhere. */
  lemma {:induction false} ValueReached(r: Row, n: nat, t: int) returns (x: Row)
    requires 1 <= n <= |r|
    ensures |x| == n && x[0] == 1 && IDot(r, x, n) == r[0] + t * CoefficientGcd(r, n)
  {
    if n == 1 {
      x := [1];
      assert IDot(r, x, 0) == 0;
    } else {
      var h, e := CoefficientGcd(r, n - 1), r[n - 1];
      var u, v := Bezout(h, e);
      var y := ValueReached(r, n - 1, t * u);
      x := y + [t * v];
      IDotSame(r, x, r, y, n - 1);
      Spread(u, h, v, e, t);
    }
  }

  lemma Spread(u: int, h: int, v: int, e: int, t: int)
    ensures (t * u) * h + e * (t * v) == t * (u * h + v * e)
  {
    assert (t * u) * h == t * (u * h) && e * (t * v) == t * (v * e);
  }

  /** The equality holds at no integer point, or for a rational set at no point. */
  ghost predicate Unsolvable(r: Row, rational: bool) {
    if rational then forall x | Point(x, |r|) :: Dot(Lift(r), x, |r|) != 0.0
    else forall p: seq<int> | |p| + 1 == |r| :: ValueAt(r, p) != 0
  }

  lemma WholeSolution(r: Row) returns (p: seq<int>)
    requires |r| > 0 && !NoSolution(r, false)
    ensures |p| + 1 == |r| && ValueAt(r, p) == 0
  {
    var g := CoefficientGcd(r, |r|);
    var t := if g == 0 then 0 else -(r[0] / g);
    var x := ValueReached(r, |r|, t);
    p := x[1..];
    assert Homog(p) == x;
    if g != 0 { assert r[0] == g * (r[0] / g); }
  }

  lemma RationalSolution(r: Row) returns (x: Vec)
    requires |r| > 0 && !NoSolution(r, true)
    ensures Point(x, |r|) && Dot(Lift(r), x, |r|) == 0.0
  {
    if k: nat :| 1 <= k < |r| && r[k] != 0 {
      x := SolvedFor(r, k);
    } else {
      x := seq(|r|, k => if k == 0 then 1.0 else 0.0);
      DotZero(Lift(r), x, |r|);
    }
  }

  lemma SolvedFor(r: Row, k: nat) returns (x: Vec)
    requires 1 <= k < |r| && r[k] != 0
    ensures Point(x, |r|) && Dot(Lift(r), x, |r|) == 0.0
  {
    hide Dot;
    var y := QuotientOf(-(r[0] as real), r[k] as real);
    x := seq(|r|, j => if j == 0 then 1.0 else if j == k then y else 0.0);
    DotTwo(Lift(r), x, k, |r|);
  }

  lemma QuotientOf(a: real, b: real) returns (y: real)
    requires b != 0.0
    ensures b * y == a
  {
    y := a / b;
  }

  /** A product with a point that is zero but for entries 0 and k. */
  lemma {:induction false} DotTwo(v: Vec, x: Vec, k: nat, n: nat)
    requires 1 <= k < |v| == |x| && n <= |v| && x[0] == 1.0
    requires forall j | 1 <= j < |x| && j != k :: x[j] == 0.0
    ensures Dot(v, x, n) == (if n == 0 then 0.0 else v[0]) + if n <= k then 0.0 else v[k] * x[k]
  {
    if n > 0 { DotTwo(v, x, k, n - 1); }
  }

  lemma {:induction false} DotConstant(r: Row, x: Vec, n: nat)
    requires |r| == |x| && 1 <= n <= |r| && x[0] == 1.0 && forall k | 1 <= k < |r| :: r[k] == 0
    ensures Dot(Lift(r), x, n) == r[0] as real
  {
    if n > 1 { DotConstant(r, x, n - 1); } else { assert Dot(Lift(r), x, 0) == 0.0; }
  }

  /** The test by the gcd is exact. */
  lemma NoSolutionExactly(r: Row, rational: bool)
    requires |r| > 0
    ensures NoSolution(r, rational) <==> Unsolvable(r, rational)
  {
    if NoSolution(r, rational) {
      if rational {
        forall x | Point(x, |r|) ensures Dot(Lift(r), x, |r|) != 0.0 { DotConstant(r, x, |r|); }
      } else {
        forall p: seq<int> | |p| + 1 == |r| ensures ValueAt(r, p) != 0 { NoSolutionRefuted(r, rational, p); }
      }
    } else if rational {
      var x := RationalSolution(r);
    } else {
      var p := WholeSolution(r);
    }
  }

  /** The divisor applied to a row that has one. */
  function Divisor(r: Row, rational: bool): nat
    requires |r| > 0
  {
    if rational then Gcd(CoefficientGcd(r, |r|), r[0]) else CoefficientGcd(r, |r|)
  }

  lemma RationalDivides(r: Row, rational: bool)
    requires |r| > 0 && CoefficientGcd(r, |r|) != 0
    ensures rational ==> r[0] % Divisor(r, rational) == 0
  {
    if rational {
      var x, y := GcdDivides(CoefficientGcd(r, |r|), r[0]);
      ExactQuotient(y, Divisor(r, rational));
    }
  }

  function ScaledDown(r: Row, g: int): (s: Row)
    requires g != 0
    ensures |s| == |r| && forall k | 0 <= k < |r| :: s[k] == DivExact(r[k], g)
  {
    seq(|r|, k requires 0 <= k < |r| => DivExact(r[k], g))
  }

  lemma DivisorExact(r: Row, rational: bool, k: nat)
    requires k < |r| && CoefficientGcd(r, |r|) != 0 && !NoSolution(r, rational)
    ensures Divisor(r, rational) > 0
    ensures r[k] == Divisor(r, rational) * ScaledDown(r, Divisor(r, rational))[k]
  {
    var g := Divisor(r, rational);
    var q := DivisorMultiple(r, rational, k);
    ExactDivision(r[k], q, g);
  }

  lemma DivisorMultiple(r: Row, rational: bool, k: nat) returns (q: int)
    requires k < |r| && CoefficientGcd(r, |r|) != 0 && !NoSolution(r, rational)
    ensures Divisor(r, rational) > 0 && r[k] == q * Divisor(r, rational)
  {
    var h := CoefficientGcd(r, |r|);
    if rational {
      var x, y := GcdDivides(h, r[0]);
      if k == 0 {
        q := y;
      } else {
        var c := CoefficientMultiple(r, |r|, k);
        MultipleOfMultiple(r[k], c, h, x, Gcd(h, r[0]));
        q := c * x;
      }
    } else if k == 0 {
      q := r[0] / h;
    } else {
      q := CoefficientMultiple(r, |r|, k);
    }
  }

  /** The rows that remain when no row is without solution. */
  function Normalized(M: seq<Row>, rational: bool): (N: seq<Row>)
    requires forall i | 0 <= i < |M| :: |M[i]| > 0 && !NoSolution(M[i], rational)
  {
    if M == [] then []
    else if CoefficientGcd(M[0], |M[0]|) == 0 then Normalized(M[1..], rational)
    else
      DivisorExact(M[0], rational, 0);
      [ScaledDown(M[0], Divisor(M[0], rational))] + Normalized(M[1..], rational)
  }

  /** The rows after treating row i alone. */
  function NormalizedAt(M: seq<Row>, i: nat, rational: bool): seq<Row>
    requires i < |M| && |M[i]| > 0 && !NoSolution(M[i], rational)
  {
    if CoefficientGcd(M[i], |M[i]|) == 0 then Without(M, i)
    else
      DivisorExact(M[i], rational, 0);
      M[i := ScaledDown(M[i], Divisor(M[i], rational))]
  }

  /** No row from i on is without solution. */
  predicate SoundFrom(M: seq<Row>, i: nat, rational: bool) {
    i <= |M| && forall j | i <= j < |M| :: |M[j]| > 0 && !NoSolution(M[j], rational)
  }

  /** The rows from i on are treated. */
  function TreatedFrom(M: seq<Row>, i: nat, rational: bool): (N: seq<Row>)
    requires SoundFrom(M, i, rational)
    ensures |N| >= i && forall j | 0 <= j < i :: N[j] == M[j]
  {
    M[..i] + Normalized(M[i..], rational)
  }

  lemma TreatedEnds(M: seq<Row>, rational: bool)
    ensures SoundFrom(M, |M|, rational) && TreatedFrom(M, |M|, rational) == M
    ensures SoundFrom(M, 0, rational) ==>
      (forall i | 0 <= i < |M| :: |M[i]| > 0 && !NoSolution(M[i], rational))
      && TreatedFrom(M, 0, rational) == Normalized(M, rational)
  {
    assert M[0..] == M && M[..0] == [];
  }

  lemma NormalizedStep(M: seq<Row>, i: nat, rational: bool)
    requires i < |M| && SoundFrom(M, i + 1, rational) && |M[i]| > 0 && !NoSolution(M[i], rational)
    ensures SoundFrom(M, i, rational)
    ensures NormalizedAt(TreatedFrom(M, i + 1, rational), i, rational) == TreatedFrom(M, i, rational)
  {
    assert M[i..][0] == M[i] && M[i..][1..] == M[i + 1..];
    assert M[..i + 1][..i] == M[..i];
  }

  /** s is row r divided by its divisor. */
  predicate DividedRow(r: Row, s: Row, rational: bool) {
    && |r| > 0 && |s| == |r| && Divisor(r, rational) > 0
    && forall k | 0 <= k < |r| :: r[k] == Divisor(r, rational) * s[k]
  }

  lemma ScaledDownDivides(r: Row, rational: bool)
    requires |r| > 0 && CoefficientGcd(r, |r|) != 0 && !NoSolution(r, rational)
    ensures Divisor(r, rational) > 0 && DividedRow(r, ScaledDown(r, Divisor(r, rational)), rational)
  {
    DivisorExact(r, rational, 0);
    forall k | 0 <= k < |r| ensures r[k] == Divisor(r, rational) * ScaledDown(r, Divisor(r, rational))[k] {
      DivisorExact(r, rational, k);
    }
  }

  lemma SolvableNonZero(r: Row, rational: bool)
    requires |r| > 0 && Lead(r) >= 0 && !NoSolution(r, rational)
    ensures CoefficientGcd(r, |r|) != 0
  {
    assert r[Lead(r)] != 0;
  }

  lemma {:induction false} NormalizedRows(M: seq<Row>, rational: bool)
    requires forall i | 0 <= i < |M| :: |M[i]| > 0 && !NoSolution(M[i], rational)
    requires forall i | 0 <= i < |M| :: Lead(M[i]) >= 0
    ensures |Normalized(M, rational)| == |M|
    ensures forall i | 0 <= i < |M| :: DividedRow(M[i], Normalized(M, rational)[i], rational)
  {
    if M != [] {
      var T, N := M[1..], Normalized(M, rational);
      NormalizedRows(T, rational);
      SolvableNonZero(M[0], rational);
      ScaledDownDivides(M[0], rational);
      forall i | 0 <= i < |M| ensures DividedRow(M[i], N[i], rational) {
        if i > 0 { assert M[i] == T[i - 1] && N[i] == Normalized(T, rational)[i - 1]; }
      }
    }
  }

  lemma MulZero(c: int, x: int)
    requires c != 0
    ensures c * x == 0 <==> x == 0
  {
  }

  /** Dividing rows by non-zero factors keeps the form, the pivots and the row space. */
  lemma DividedRows(M: seq<Row>, N: seq<Row>, w: nat, c: seq<int>)
    requires Echelon(M, w) && Matrix(N, w) && |N| == |M| == |c|
    requires forall i | 0 <= i < |c| :: c[i] != 0
    requires forall i, k | 0 <= i < |M| && 0 <= k < w :: M[i][k] == c[i] * N[i][k]
    ensures Echelon(N, w)
    ensures forall v :: InSpan(v, M, w) <==> InSpan(v, N, w)
  {
    forall i, k | 0 <= i < |M| && 0 <= k < w ensures N[i][k] == 0 <==> M[i][k] == 0 { MulZero(c[i], N[i][k]); }
    forall i | 0 <= i < |M| ensures Lead(N[i]) == Lead(M[i]) { LeadUnique(N[i], Lead(M[i])); }
    if |M| == 0 {
      assert N == M;
    } else {
      var z := seq(|M|, i requires 0 <= i < |M| => 0);
      IntRowOps(N, M, w, 0, c, z);
      forall v ensures InSpan(v, M, w) <==> InSpan(v, N, w) { RowOpsSpan(N, M, w, 0, Lift(c), Lift(z), v); }
    }
  }

  lemma NormalizedKeeps(M: seq<Row>, w: nat, rational: bool)
    requires Echelon(M, w)
    requires forall i | 0 <= i < |M| :: |M[i]| > 0 && !NoSolution(M[i], rational)
    ensures Echelon(Normalized(M, rational), w) && |Normalized(M, rational)| == |M|
    ensures forall v :: InSpan(v, M, w) <==> InSpan(v, Normalized(M, rational), w)
  {
    NormalizedRows(M, rational);
    var c: seq<int> := seq(|M|, i requires 0 <= i < |M| => Divisor(M[i], rational));
    DividedRows(M, Normalized(M, rational), w, c);
  }

  /** The single row of a set marked empty: the equality 1 = 0. */
  function EmptyRow(w: nat): (r: Row)
    requires w > 0
    ensures |r| == w && r[0] == 1 && forall k | 1 <= k < w :: r[k] == 0
  {
    seq(w, k requires 0 <= k < w => if k == 0 then 1 else 0)
  }

  // ---------------------------------------------------------------- what remains

  predicate DividesFrom(d: int, r: Row, first: nat)
    requires d != 0
  {
    forall k | first <= k < |r| :: r[k] % d == 0
  }

  /** The first entry that counts for the common divisor of a row. */
  function FirstEntry(rational: bool): nat {
    if rational then 0 else 1
  }

  /** The entries from the first on have no common divisor but 1 and -1. */
  ghost predicate Primitive(r: Row, first: nat) {
    forall d: int | d != 0 && DividesFrom(d, r, first) :: d == 1 || d == -1
  }

  lemma {:induction false} DividesGcd(r: Row, n: nat, m: int) returns (z: int)
    requires n <= |r| && m != 0 && forall k | 1 <= k < n :: r[k] % m == 0
    ensures CoefficientGcd(r, n) == z * m
  {
    if n <= 1 {
      z := 0;
    } else {
      var y := DividesGcd(r, n - 1, m);
      var q := r[n - 1] / m;
      assert r[n - 1] == q * m;
      z := GcdGreatest(CoefficientGcd(r, n - 1), r[n - 1], m, y, q);
    }
  }

  lemma UnitFactor(z: int, d: int, g: int)
    requires g > 0 && g == z * (g * d)
    ensures d == 1 || d == -1
  {
    assert g * (z * d - 1) == 0 by { assert z * (g * d) == g * (z * d); }
    MulZero(g, z * d - 1);
    UnitProduct(z, d);
  }

  lemma UnitProduct(z: int, d: int)
    requires z * d == 1
    ensures d == 1 || d == -1
  {
    if d != 0 && z != 0 { MulAtLeast(z, d); }
  }

  lemma MultipleDivided(r: int, s: int, g: int, d: int)
    requires g != 0 && d != 0 && r == g * s && s % d == 0
    ensures g * d != 0 && r % (g * d) == 0
  {
    MulZero(g, d);
    var q := s / d;
    assert s == q * d;
    assert g * (q * d) == q * (g * d);
    ExactQuotient(q, g * d);
  }

  lemma DividedPrimitive(r: Row, rational: bool)
    requires |r| > 0 && CoefficientGcd(r, |r|) != 0 && !NoSolution(r, rational)
    ensures Divisor(r, rational) > 0 && Primitive(ScaledDown(r, Divisor(r, rational)), FirstEntry(rational))
  {
    ScaledDownDivides(r, rational);
    hide DividesFrom, ScaledDown, NoSolution, CoefficientGcd, Divisor;
    var s := ScaledDown(r, Divisor(r, rational));
    forall d: int | d != 0 && DividesFrom(d, s, FirstEntry(rational)) ensures d == 1 || d == -1 {
      DividedCommon(r, s, rational, d);
    }
  }

  lemma DividedCommon(r: Row, s: Row, rational: bool, d: int)
    requires DividedRow(r, s, rational) && CoefficientGcd(r, |r|) != 0
    requires d != 0 && DividesFrom(d, s, FirstEntry(rational))
    ensures d == 1 || d == -1
  {
    hide CoefficientGcd;
    var g := Divisor(r, rational);
    MulZero(g, d);
    var m := g * d;
    forall k | FirstEntry(rational) <= k < |r| ensures r[k] % m == 0 { MultipleDivided(r[k], s[k], g, d); }
    var z := DividesGcd(r, |r|, m);
    if rational { z := WithConstant(CoefficientGcd(r, |r|), r[0], m, z); }
    UnitFactor(z, d, g);
  }

  lemma WithConstant(h: int, c: int, m: int, y: int) returns (z: int)
    requires m != 0 && h == y * m && c % m == 0
    ensures Gcd(h, c) == z * m
  {
    var q := c / m;
    assert c == q * m;
    z := GcdGreatest(h, c, m, y, q);
  }

  /** A divided row still has a solution. */
  lemma DividedSolvable(r: Row, s: Row, rational: bool)
    requires DividedRow(r, s, rational) && CoefficientGcd(r, |r|) != 0 && Primitive(s, FirstEntry(rational))
    ensures !Unsolvable(s, rational)
  {
    NoSolutionExactly(s, rational);
    var k: nat :| 1 <= k < |r| && r[k] != 0;
    assert s[k] != 0;
    var g := CoefficientGcd(s, |s|);
    if !rational {
      forall j | 1 <= j < |s| ensures s[j] % g == 0 {
        var q := CoefficientMultiple(s, |s|, j);
        ExactQuotient(q, g);
      }
      assert DividesFrom(g, s, 1);
    }
  }

  lemma NormalizedSolvable(M: seq<Row>, w: nat, rational: bool)
    requires Echelon(M, w)
    requires forall i | 0 <= i < |M| :: |M[i]| > 0 && !NoSolution(M[i], rational)
    ensures |Normalized(M, rational)| == |M|
    ensures forall i | 0 <= i < |M| ::
      !Unsolvable(Normalized(M, rational)[i], rational) && Primitive(Normalized(M, rational)[i], FirstEntry(rational))
  {
    hide Primitive, Unsolvable, NoSolution;
    NormalizedRows(M, rational);
    forall i | 0 <= i < |M|
      ensures !Unsolvable(Normalized(M, rational)[i], rational)
      ensures Primitive(Normalized(M, rational)[i], FirstEntry(rational))
    {
      SolvableNonZero(M[i], rational);
      NormalizedAtPrimitive(M, rational, i);
      DividedSolvable(M[i], Normalized(M, rational)[i], rational);
    }
  }

  lemma NormalizedAtPrimitive(M: seq<Row>, rational: bool, i: nat)
    requires i < |M| && |M[i]| > 0 && !NoSolution(M[i], rational) && CoefficientGcd(M[i], |M[i]|) != 0
    requires forall i | 0 <= i < |M| :: |M[i]| > 0 && !NoSolution(M[i], rational)
    requires |Normalized(M, rational)| == |M| && DividedRow(M[i], Normalized(M, rational)[i], rational)
    ensures Primitive(Normalized(M, rational)[i], FirstEntry(rational))
  {
    var r, s := M[i], Normalized(M, rational)[i];
    DividedPrimitive(r, rational);
    ScaledDownDivides(r, rational);
    hide Primitive, CoefficientGcd, NoSolution, Normalized;
    var g, t := Divisor(r, rational), ScaledDown(r, Divisor(r, rational));
    SameMultiple(r, s, t, g);
  }

  predicate PositiveMultiple(r: Row, s: Row, c: int) {
    c > 0 && |r| == |s| && forall k | 0 <= k < |r| :: r[k] == c * s[k]
  }

  /** The rows N are those of M without the zero rows, each divided until its
      coefficients have no common divisor. */
  ghost predicate Reduction(M: seq<Row>, N: seq<Row>, rational: bool) {
    if M == [] then N == []
    else if forall k | 0 <= k < |M[0]| :: M[0][k] == 0 then Reduction(M[1..], N, rational)
    else
      && N != [] && (exists c :: PositiveMultiple(M[0], N[0], c)) && Primitive(N[0], FirstEntry(rational))
      && Reduction(M[1..], N[1..], rational)
  }

  lemma {:induction false} NormalizedReduces(M: seq<Row>, rational: bool)
    requires forall i | 0 <= i < |M| :: |M[i]| > 0 && !NoSolution(M[i], rational)
    ensures Reduction(M, Normalized(M, rational), rational)
  {
    if M != [] {
      var r, T := M[0], M[1..];
      NormalizedReduces(T, rational);
      if CoefficientGcd(r, |r|) != 0 {
        ScaledDownDivides(r, rational);
        DividedPrimitive(r, rational);
        assert PositiveMultiple(r, ScaledDown(r, Divisor(r, rational)), Divisor(r, rational));
        assert Normalized(M, rational)[1..] == Normalized(T, rational);
      }
    }
  }

  lemma PrimitiveFactor(r: Row, s: Row, c: int)
    requires PositiveMultiple(r, s, c) && |r| > 0 && Primitive(s, 1)
    ensures CoefficientGcd(r, |r|) == c
  {
    var g := CoefficientGcd(r, |r|);
    forall k | 1 <= k < |r| ensures r[k] % c == 0 { ExactQuotient(s[k], c); }
    var z := DividesGcd(r, |r|, c);
    if g == 0 {
      forall k | 1 <= k < |r| ensures s[k] % 2 == 0 { MulZero(c, s[k]); }
      assert DividesFrom(2, s, 1);
    } else {
      forall k | 1 <= k < |r| ensures s[k] % z == 0 {
        var q := CoefficientMultiple(r, |r|, k);
        MultipleOfMultiple(r[k], q, g, z, c);
        SameFactor(c, s[k], q * z);
        ExactQuotient(q, z);
      }
      assert DividesFrom(z, s, 1);
      assert z == 1 || z == -1;
    }
  }

  lemma SameFactor(c: int, x: int, y: int)
    requires c > 0 && c * x == y * c
    ensures x == y
  {
    MulZero(c, x - y);
  }

  lemma SameMultiple(r: Row, s: Row, t: Row, c: int)
    requires PositiveMultiple(r, s, c) && PositiveMultiple(r, t, c)
    ensures s == t
  {
    forall k | 0 <= k < |r| ensures s[k] == t[k] { SameFactor(c, s[k], t[k]); }
  }

  /** Which rows are left is determined. */
  lemma {:induction false} ReductionUnique(M: seq<Row>, N: seq<Row>, N': seq<Row>)
    requires Reduction(M, N, false) && Reduction(M, N', false)
    ensures N == N'
  {
    if M != [] {
      if exists k :: 0 <= k < |M[0]| && M[0][k] != 0 {
        ReductionUnique(M[1..], N[1..], N'[1..]);
        var c :| PositiveMultiple(M[0], N[0], c);
        var d :| PositiveMultiple(M[0], N'[0], d);
        PrimitiveFactor(M[0], N[0], c);
        PrimitiveFactor(M[0], N'[0], d);
        SameMultiple(M[0], N[0], N'[0], c);
        assert N == [N[0]] + N[1..] && N' == [N'[0]] + N'[1..];
      } else {
        ReductionUnique(M[1..], N, N');
      }
    }
  }
}
