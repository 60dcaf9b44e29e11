/** What `affine_hull` computes, as a statement about equalities and points, and
    the fold that combines the hulls of all parts of a map. */
module HullJoin {
  import opened LinearAlgebra
  import opened Points
  import opened JoinColumn
  import opened Normalize
  import opened BasicSets

  /** R is the outcome of joining A and B, marked empty or not. */
  ghost predicate Joined(A: seq<Row>, B: seq<Row>, R: seq<Row>, w: nat, empty: bool) {
    && w > 0 && Echelon(R, w)
    && (empty ==> R == [EmptyRow(w)])
    && (empty ==> forall p :: !Contains(A, w, p) && !Contains(B, w, p))
    && (!empty ==> forall v :: InSpan(v, R, w) <==> InSpan(v, A, w) && InSpan(v, B, w))
    && (!empty ==> Weakened(A, R, w) && Weakened(B, R, w))
  }

  /** A combination of the rows of M holds at every integer point of M. */
  lemma SpanHoldsAt(v: Vec, M: seq<Row>, w: nat, p: seq<int>)
    requires InSpan(v, M, w) && Contains(M, w, p)
    ensures HoldsAt(v, p)
  {
    SpanVanishes(v, M, w, Lift(Homog(p)));
  }

  lemma ContainsNoEmptyRow(M: seq<Row>, w: nat, p: seq<int>, i: nat, rational: bool)
    requires Contains(M, w, p) && i < |M|
    ensures |M[i]| == |p| + 1 && !NoSolution(M[i], rational)
  {
    assert Vanishes(Lift(M[i]), Lift(Homog(p)), w);
    HoldsAtInt(M[i], p);
    if NoSolution(M[i], rational) { NoSolutionRefuted(M[i], rational, p); }
  }

  /** An integer point of M satisfies every system whose rows M implies. */
  lemma ImpliedContains(M: seq<Row>, R: seq<Row>, w: nat, p: seq<int>)
    requires Contains(M, w, p) && Matrix(R, w)
    requires forall v :: InSpan(v, R, w) ==> InSpan(v, M, w)
    ensures Contains(R, w, p)
  {
    forall i | 0 <= i < |R| ensures Vanishes(Lift(R[i]), Lift(Homog(p)), w) {
      RowInSpan(R, w, i);
      SpanHoldsAt(Lift(R[i]), M, w, p);
    }
  }

  lemma EmptyEchelon(w: nat)
    requires w > 0
    ensures Echelon([EmptyRow(w)], w)
  {
    LeadUnique(EmptyRow(w), 0);
  }

  /** The set is marked empty because of an equality that both inputs imply; otherwise
      each equality of the result can be met and is divided out. */
  ghost predicate Normal(A: seq<Row>, B: seq<Row>, R: seq<Row>, w: nat, rational: bool, empty: bool) {
    && (empty ==> exists r: Row :: Implied(r, A, B, w) && Unsolvable(r, rational))
    && (!empty ==>
         forall i | 0 <= i < |R| :: !Unsolvable(R[i], rational) && Primitive(R[i], FirstEntry(rational)))
  }

  ghost predicate Implied(r: Row, A: seq<Row>, B: seq<Row>, w: nat) {
    |r| == w && InSpan(Lift(r), A, w) && InSpan(Lift(r), B, w)
  }

  /** `affine_hull`: join the equalities of b2 into b1 and normalize the result. */
  method AffineHull(b1: BasicSet, b2: BasicSet) returns (empty: bool)
    requires Apart(b1, b2) && b1.width > 0
    requires Echelon(b1.Rows(), b1.width) && Echelon(b2.Rows(), b1.width)
    modifies b1`nEq, b1.eq, b2`nEq, b2.eq
    ensures Apart(b1, b2)
    ensures Joined(old(b1.Rows()), old(b2.Rows()), b1.Rows(), b1.width, empty)
    ensures Normal(old(b1.Rows()), old(b2.Rows()), b1.Rows(), b1.width, b1.rational, empty)
  {
    hide NoSolution, Unsolvable, Primitive, Reduction, Normalized;
    ghost var A, B, w := b1.Rows(), b2.Rows(), b1.width;
    Join(b1, b2);
    ghost var R := b1.Rows();
    empty := b1.NormalizeConstraints();
    if empty {
      UnsolvableJoin(A, B, R, w, b1.rational);
      EmptyEchelon(w);
    } else {
      NormalizedKeeps(R, w, b1.rational);
      NormalizedSolvable(R, w, b1.rational);
      JoinedNormalized(A, B, R, b1.Rows(), w);
    }
  }

  /** An equality of the join that no point meets leaves no integer point in either input. */
  lemma UnsolvableJoin(A: seq<Row>, B: seq<Row>, R: seq<Row>, w: nat, rational: bool)
    requires Matrix(R, w) && w > 0 && exists i | 0 <= i < |R| :: Unsolvable(R[i], rational)
    requires forall v :: InSpan(v, R, w) <==> InSpan(v, A, w) && InSpan(v, B, w)
    ensures forall p :: !Contains(A, w, p) && !Contains(B, w, p)
    ensures exists r: Row :: Implied(r, A, B, w) && Unsolvable(r, rational)
  {
    hide NoSolution, Unsolvable;
    var i :| 0 <= i < |R| && Unsolvable(R[i], rational);
    NoSolutionExactly(R[i], rational);
    RowInSpan(R, w, i);
    assert Implied(R[i], A, B, w);
    forall p ensures !Contains(A, w, p) && !Contains(B, w, p) {
      if Contains(A, w, p) || Contains(B, w, p) {
        ImpliedContains(if Contains(A, w, p) then A else B, R, w, p);
        ContainsNoEmptyRow(R, w, p, i, rational);
      }
    }
  }

  lemma JoinedNormalized(A: seq<Row>, B: seq<Row>, R: seq<Row>, N: seq<Row>, w: nat)
    requires w > 0 && Echelon(N, w) && |N| == |R|
    requires forall v :: InSpan(v, R, w) <==> InSpan(v, N, w)
    requires forall v :: InSpan(v, R, w) <==> InSpan(v, A, w) && InSpan(v, B, w)
    requires Weakened(A, R, w) && Weakened(B, R, w)
    ensures Joined(A, B, N, w, false)
  {
    assert Weakened(R, N, w);
    WeakenedTransitive(A, R, N, w);
    WeakenedTransitive(B, R, N, w);
    forall v ensures InSpan(v, N, w) <==> InSpan(v, A, w) && InSpan(v, B, w) {
      assert InSpan(v, R, w) <==> InSpan(v, N, w);
    }
  }

  /** No integer point of either input is lost. */
  lemma JoinedContains(A: seq<Row>, B: seq<Row>, R: seq<Row>, w: nat, empty: bool, p: seq<int>)
    requires Joined(A, B, R, w, empty) && (Contains(A, w, p) || Contains(B, w, p))
    ensures Contains(R, w, p)
  {
    ImpliedContains(if Contains(A, w, p) then A else B, R, w, p);
  }

  /** The join is the affine hull of the union: for inputs with solutions, its
      equalities are exactly the affine equalities that hold on every rational
      solution of either input. */
  lemma JoinIsAffineHull(A: seq<Row>, B: seq<Row>, R: seq<Row>, w: nat, v: Vec)
    requires Feasible(A, w) && Feasible(B, w) && Joined(A, B, R, w, false) && |v| == w
    ensures InSpan(v, R, w) <==> HoldsOn(v, A, w) && HoldsOn(v, B, w)
  {
    SpanIsHolds(v, A, w);
    SpanIsHolds(v, B, w);
  }

  // ---------------------------------------------------------------- the fold of isl_map_affine_hull

  ghost predicate AllApart(p: seq<BasicSet>, w: nat)
    reads p, set b | b in p :: b.eq
  {
    && (forall b | b in p :: b.Valid() && b.width == w)
    && (forall i, j | 0 <= i < |p| && 0 <= j < |p| && i != j :: p[i] != p[j] && p[i].eq != p[j].eq)
  }

  ghost function PartRows(p: seq<BasicSet>): (parts: seq<seq<Row>>)
    requires forall b | b in p :: b.Valid()
    reads p, set b | b in p :: b.eq
    ensures |parts| == |p| && forall i | 0 <= i < |p| :: parts[i] == p[i].Rows()
  {
    if p == [] then [] else [p[0].Rows()] + PartRows(p[1..])
  }

  /** One step of the fold: part k is joined into part 0; the parts between are untouched. */
  method JoinPart(p: seq<BasicSet>, k: nat, w: nat, ghost parts: seq<seq<Row>>)
    requires 1 <= k < |p| == |parts| && w > 0 && AllApart(p, w)
    requires Folded(parts, p[0].Rows(), k + 1, w) && p[k].Rows() == parts[k] && Echelon(parts[k], w)
    modifies p[0], p[0].eq, p[k], p[k].eq
    ensures AllApart(p, w) && Folded(parts, p[0].Rows(), k, w)
    ensures forall i | 1 <= i < |p| && i != k :: p[i].Rows() == old(p[i].Rows())
  {
    ghost var A := p[0].Rows();
    assert Apart(p[0], p[k]);
    var empty := AffineHull(p[0], p[k]);
    FoldStep(parts, A, p[0].Rows(), k, w, empty);
  }

  /** R accounts for part 0 and the parts from position k on. */
  ghost predicate Folded(parts: seq<seq<Row>>, R: seq<Row>, k: nat, w: nat) {
    && 1 <= k <= |parts| && Echelon(R, w)
    && (forall x, i | (i == 0 || k <= i < |parts|) && Contains(parts[i], w, x) :: Contains(R, w, x))
    && ((exists x :: Contains(parts[0], w, x)) ==>
        forall v :: InSpan(v, R, w) <==> ImpliedByRest(v, parts, k, w))
  }

  /** v is implied by part 0 and by each part from position k on. */
  ghost predicate ImpliedByRest(v: Vec, parts: seq<seq<Row>>, k: nat, w: nat) {
    |parts| > 0 && InSpan(v, parts[0], w) && forall i | k <= i < |parts| :: InSpan(v, parts[i], w)
  }

  lemma FoldStep(parts: seq<seq<Row>>, A: seq<Row>, R: seq<Row>, k: nat, w: nat, empty: bool)
    requires 1 <= k < |parts| && Folded(parts, A, k + 1, w) && Joined(A, parts[k], R, w, empty)
    ensures Folded(parts, R, k, w)
  {
    forall x, i | (i == 0 || k <= i < |parts|) && Contains(parts[i], w, x) ensures Contains(R, w, x) {
      JoinedContains(A, parts[k], R, w, empty, x);
    }
    if x :| Contains(parts[0], w, x) {
      assert Contains(A, w, x);
      assert !empty;
      forall v ensures InSpan(v, R, w) <==> ImpliedByRest(v, parts, k, w) {
        assert InSpan(v, A, w) <==> ImpliedByRest(v, parts, k + 1, w);
      }
    }
  }

  /** For parts that all have solutions, the first one an integer one, the fold
      leaves exactly the affine equalities that hold on every part. */
  lemma FoldedIsAffineHull(parts: seq<seq<Row>>, R: seq<Row>, w: nat, x: seq<int>, v: Vec)
    requires w > 0 && Folded(parts, R, 1, w) && Contains(parts[0], w, x) && |v| == w
    requires forall i | 0 <= i < |parts| :: Feasible(parts[i], w)
    ensures InSpan(v, R, w) <==> forall i | 0 <= i < |parts| :: HoldsOn(v, parts[i], w)
  {
    forall i | 0 <= i < |parts| ensures InSpan(v, parts[i], w) <==> HoldsOn(v, parts[i], w) {
      SpanIsHolds(v, parts[i], w);
    }
    assert InSpan(v, R, w) <==> ImpliedByRest(v, parts, 1, w);
  }

  /** `while (set->n > 1) set->p[0] = affine_hull(set->p[0], set->p[--set->n])`: the
      result contains every integer point of every part, and when the first
      part has an integer point it implies exactly what all parts imply. */
  method HullOfParts(p: seq<BasicSet>, w: nat)
    requires |p| > 0 && w > 0 && AllApart(p, w)
    requires forall b | b in p :: Echelon(b.Rows(), w)
    modifies p, set b | b in p :: b.eq
    ensures AllApart(p, w) && Folded(old(PartRows(p)), p[0].Rows(), 1, w)
  {
    ghost var parts := PartRows(p);
    var n := |p|;
    while n > 1
      invariant 1 <= n <= |p| && AllApart(p, w)
      invariant forall i | 1 <= i < n :: p[i].Rows() == parts[i] && Echelon(parts[i], w)
      invariant Folded(parts, p[0].Rows(), n, w)
    {
      n := n - 1;
      JoinPart(p, n, w, parts);
    }
  }
}
