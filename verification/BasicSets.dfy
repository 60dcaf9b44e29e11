/** The affine-hull join of two systems of equalities, in place on their row
    arrays, after section 5.2 of Karr's "Affine Relationships Among Variables
    of a Program" with the echelon form taken from the last column. */
module BasicSets {
  import opened IntArith
  import opened LinearAlgebra
  import opened JoinStep
  import opened JoinColumn
  import opened Normalize

  /** The equalities of an isl basic set: the first nEq entries of the row
      table, each of width 1 + dim; the remaining entries are spare rows. */
  class BasicSet {
    const width: nat
    const rational: bool
    const eq: array<Row>
    var nEq: nat

    ghost predicate Valid()
      reads this, eq
    {
      nEq <= eq.Length && forall i | 0 <= i < eq.Length :: |eq[i]| == width
    }

    ghost function Rows(): (M: seq<Row>)
      requires Valid()
      reads this, eq
      ensures |M| == nEq && Matrix(M, width)
    {
      eq[..nEq]
    }

    constructor (rows: seq<Row>, width: nat, rational: bool)
      requires Matrix(rows, width)
      ensures Valid() && Rows() == rows && this.width == width && this.rational == rational && fresh(eq)
    {
      this.width := width;
      this.rational := rational;
      var table := new Row[|rows|](i requires 0 <= i < |rows| => rows[i]);
      eq := table;
      nEq := |rows|;
      new;
      assert eq[..nEq] == rows;
    }

    /** `delete_row`: the later equalities move one up and the deleted row becomes spare. */
    method DeleteRow(row: nat)
      requires Valid() && row < nEq
      modifies this`nEq, eq
      ensures Valid() && nEq == old(nEq) - 1
      ensures Rows() == Without(old(Rows()), row)
      ensures eq[nEq] == old(eq[row])
      ensures forall i | nEq < i < eq.Length :: eq[i] == old(eq[i])
    {
      ghost var E := eq[..];
      var t := eq[row];
      nEq := nEq - 1;
      var r := row;
      while r < nEq
        invariant row <= r <= nEq == old(nEq) - 1
        invariant forall i | 0 <= i < row || r <= i < eq.Length :: eq[i] == E[i]
        invariant forall i | row <= i < r :: eq[i] == E[i + 1]
      {
        eq[r] := eq[r + 1];
        r := r + 1;
      }
      eq[nEq] := t;
      assert old(Rows()) == E[..nEq + 1];
      assert eq[..nEq] == Without(E[..nEq + 1], row);
    }

    /** `isl_basic_map_set_to_empty` on a set that still has an equality: only 1 = 0 is left. */
    method MarkEmpty()
      requires Valid() && width > 0 && nEq > 0
      modifies this`nEq, eq
      ensures Valid() && Rows() == [EmptyRow(width)]
    {
      nEq := 1;
      eq[0] := EmptyRow(width);
    }

    /** The treatment of one equality in `isl_basic_map_normalize_constraints`. */
    method NormalizeRow(i: nat) returns (empty: bool)
      requires Valid() && width > 0 && i < nEq
      modifies this`nEq, eq
      ensures Valid()
      ensures empty <==> NoSolution(old(eq[i]), rational)
      ensures empty ==> Rows() == [EmptyRow(width)]
      ensures !empty ==> Rows() == NormalizedAt(old(Rows()), i, rational)
    {
      ghost var M := Rows();
      var g := CoefficientGcd(eq[i], width);
      if g == 0 {
        if eq[i][0] != 0 {
          MarkEmpty();
          return true;
        }
        DeleteRow(i);
        return false;
      }
      RationalDivides(eq[i], rational);
      if rational { g := Gcd(g, eq[i][0]); }
      if g == 1 {
        assert ScaledDown(eq[i], 1) == eq[i];
        return false;
      }
      if eq[i][0] % g != 0 {
        MarkEmpty();
        return true;
      }
      eq[i] := ScaledDown(eq[i], g);
      assert Rows() == NormalizedAt(M, i, rational);
      return false;
    }

    /** `isl_basic_map_normalize_constraints` on the equalities; returns whether the set was marked empty. */
    method NormalizeConstraints() returns (empty: bool)
      requires Valid() && width > 0
      modifies this`nEq, eq
      ensures Valid()
      ensures empty <==> exists i | 0 <= i < |old(Rows())| :: Unsolvable(old(Rows())[i], rational)
      ensures empty ==> Rows() == [EmptyRow(width)]
      ensures !empty ==> Reduction(old(Rows()), Rows(), rational)
      ensures !empty ==>
        (forall i | 0 <= i < |old(Rows())| :: !NoSolution(old(Rows())[i], rational))
        && Rows() == Normalized(old(Rows()), rational)
    {
      hide NoSolution, Normalized, NormalizedAt, EmptyRow, SoundFrom, TreatedFrom, Unsolvable, Reduction;
      ghost var M := Rows();
      TreatedEnds(M, rational);
      forall i | 0 <= i < |M| ensures NoSolution(M[i], rational) <==> Unsolvable(M[i], rational) {
        NoSolutionExactly(M[i], rational);
      }
      var i: int := nEq - 1;
      while i >= 0
        invariant -1 <= i < |M| && Valid() && SoundFrom(M, i + 1, rational)
        invariant Rows() == TreatedFrom(M, i + 1, rational)
      {
        assert eq[i] == Rows()[i] == M[i];
        empty := NormalizeRow(i);
        if empty {
          return;
        }
        NormalizedStep(M, i, rational);
        i := i - 1;
      }
      NormalizedReduces(M, rational);
      return false;
    }
  }

  /** Two different sets over the same space whose row tables do not overlap. */
  ghost predicate Apart(b1: BasicSet, b2: BasicSet)
    reads b1, b1.eq, b2, b2.eq
  {
    b1 != b2 && b1.eq != b2.eq && b1.Valid() && b2.Valid() && b1.width == b2.width
  }

  /** `set_common_multiple` */
  method SetCommonMultiple(b1: BasicSet, b2: BasicSet, row: nat, col: nat)
    requires Apart(b1, b2) && row < b1.nEq && row < b2.nEq && col < b1.width
    requires b1.eq[row][col] != 0 && b2.eq[row][col] != 0
    modifies b1.eq, b2.eq
    ensures Apart(b1, b2)
    ensures b1.Rows() == old(b1.Rows()[row := CommonRow(b1.Rows(), b2.Rows(), row, col)])
    ensures b2.Rows() == old(b2.Rows()[row := CommonRow(b2.Rows(), b1.Rows(), row, col)])
  {
    var x, y := b1.eq[row][col], b2.eq[row][col];
    if x == y {
      assert Scaled(b1.eq[row], 1, col + 1) == b1.eq[row];
      assert Scaled(b2.eq[row], 1, col + 1) == b2.eq[row];
      return;
    }
    LcmSymmetric(x, y);
    var m := Lcm(x, y);
    var c := DivExact(m, x);
    b1.eq[row] := Scaled(b1.eq[row], c, col + 1);
    c := DivExact(m, y);
    b2.eq[row] := Scaled(b2.eq[row], c, col + 1);
  }

  /** `construct_column` */
  method ConstructColumnRows(b1: BasicSet, b2: BasicSet, row: nat, col: nat)
    requires Apart(b1, b2) && row < b1.nEq && row <= b2.nEq && col < b1.width
    requires b1.eq[row][col] != 0
    modifies b1`nEq, b1.eq, b2.eq
    ensures Apart(b1, b2)
    ensures b1.Rows() == old(Without(ConstructLeft(b1.Rows(), b2.Rows(), row, col, b1.width), row))
    ensures b2.Rows() == old(ConstructRight(b1.Rows(), b2.Rows(), row, col, b1.width))
  {
    ghost var L := ConstructLeft(b1.Rows(), b2.Rows(), row, col, b1.width);
    ghost var R := ConstructRight(b1.Rows(), b2.Rows(), row, col, b1.width);
    var r := 0;
    while r < row
      invariant 0 <= r <= row && b1.nEq == old(b1.nEq) && Apart(b1, b2)
      invariant forall i | 0 <= i < b1.nEq :: b1.eq[i] == if i < r then L[i] else old(b1.eq[i])
      invariant forall i | 0 <= i < b2.nEq :: b2.eq[i] == if i < r then R[i] else old(b2.eq[i])
    {
      if b2.eq[r][col] != 0 {
        var g := Gcd(b2.eq[r][col], b1.eq[row][col]);
        var a := DivExact(b1.eq[row][col], g);
        var b := DivExact(b2.eq[r][col], g);
        b1.eq[r] := Combine(a, b1.eq[r], b, b1.eq[row]);
        b2.eq[r] := Scaled(b2.eq[r], a, b2.width);
      }
      r := r + 1;
    }
    assert b1.Rows() == L;
    b1.DeleteRow(row);
    assert b2.Rows() == R;
  }

  /** The search of `transform_column` for the last complete row with different
      entries in column col; -1 when there is none. */
  method FindLastDifference(b1: BasicSet, b2: BasicSet, row: nat, col: nat) returns (t: int)
    requires Apart(b1, b2) && row <= b1.nEq && row <= b2.nEq && col < b1.width
    ensures -1 <= t < row
    ensures t < 0 ==> forall i | 0 <= i < row :: b1.Rows()[i][col] == b2.Rows()[i][col]
    ensures t >= 0 ==> LastDifference(b1.Rows(), b2.Rows(), row, col, b1.width, t)
  {
    t := row - 1;
    while t >= 0 && b1.eq[t][col] == b2.eq[t][col]
      invariant -1 <= t < row
      invariant forall i | t < i < row :: b1.eq[i][col] == b2.eq[i][col]
    {
      t := t - 1;
    }
  }

  /** The row updates of `transform_column`: every row above t is combined with row t. */
  method CombineAbove(b1: BasicSet, b2: BasicSet, row: nat, col: nat, t: nat)
    requires Apart(b1, b2) && row <= b1.nEq && row <= b2.nEq && col < b1.width
    requires LastDifference(b1.Rows(), b2.Rows(), row, col, b1.width, t)
    modifies b1.eq, b2.eq
    ensures Apart(b1, b2)
    ensures b1.Rows() == old(Transformed(b1.Rows(), b1.Rows(), b2.Rows(), row, col, b1.width, t))
    ensures b2.Rows() == old(Transformed(b2.Rows(), b1.Rows(), b2.Rows(), row, col, b1.width, t))
  {
    ghost var A, B := b1.Rows(), b2.Rows();
    ghost var M := Transformed(A, A, B, row, col, b1.width, t);
    ghost var N := Transformed(B, A, B, row, col, b1.width, t);
    var b := b1.eq[t][col] - b2.eq[t][col];
    var i := 0;
    while i < t
      invariant 0 <= i <= t && Apart(b1, b2)
      invariant forall j | 0 <= j < b1.nEq :: b1.eq[j] == if j < i then M[j] else A[j]
      invariant forall j | 0 <= j < b2.nEq :: b2.eq[j] == if j < i then N[j] else B[j]
    {
      var a := b2.eq[i][col] - b1.eq[i][col];
      var g := Gcd(a, b);
      a := DivExact(a, g);
      g := DivExact(b, g);
      b1.eq[i] := Combine(g, b1.eq[i], a, b1.eq[t]);
      b2.eq[i] := Combine(g, b2.eq[i], a, b2.eq[t]);
      assert b1.eq[i] == M[i] && b2.eq[i] == N[i];
      i := i + 1;
    }
    assert b1.Rows() == M && b2.Rows() == N;
  }

  /** `transform_column`: returns the position of the row deleted from both sets, or -1. */
  method TransformColumnRows(b1: BasicSet, b2: BasicSet, row: nat, col: nat) returns (t: int)
    requires Apart(b1, b2) && row <= b1.nEq && row <= b2.nEq && col < b1.width
    modifies b1`nEq, b1.eq, b2`nEq, b2.eq
    ensures Apart(b1, b2) && -1 <= t < row
    ensures t < 0 ==>
      && b1.Rows() == old(b1.Rows()) && b2.Rows() == old(b2.Rows())
      && forall i | 0 <= i < row :: b1.Rows()[i][col] == b2.Rows()[i][col]
    ensures t >= 0 ==>
      && LastDifference(old(b1.Rows()), old(b2.Rows()), row, col, b1.width, t)
      && b1.Rows() == Without(Transformed(old(b1.Rows()), old(b1.Rows()), old(b2.Rows()), row, col, b1.width, t), t)
      && b2.Rows() == Without(Transformed(old(b2.Rows()), old(b1.Rows()), old(b2.Rows()), row, col, b1.width, t), t)
  {
    t := FindLastDifference(b1, b2, row, col);
    if t >= 0 {
      CombineAbove(b1, b2, row, col, t);
      b1.DeleteRow(t);
      b2.DeleteRow(t);
    }
  }

  /** Row `row` of b1 has its pivot in column col and row `row` of b2 has not. */
  method ConstructOne(b1: BasicSet, b2: BasicSet, row: nat, col: nat)
    requires Apart(b1, b2) && Aligned(b1.Rows(), b2.Rows(), row, col, b1.width)
    requires row < b1.nEq && b1.eq[row][col] != 0 && (row < b2.nEq ==> b2.eq[row][col] == 0)
    modifies b1`nEq, b1.eq, b2`nEq, b2.eq
    ensures Apart(b1, b2) && Aligned(b1.Rows(), b2.Rows(), row, col - 1, b1.width)
    ensures Stepped(old(b1.Rows()), old(b2.Rows()), b1.Rows(), b2.Rows(), b1.width)
  {
    ConstructColumn(b1.Rows(), b2.Rows(), row, col, b1.width);
    ConstructColumnRows(b1, b2, row, col);
  }

  /** Neither row `row` has its pivot in column col. */
  method TransformOne(b1: BasicSet, b2: BasicSet, row: nat, col: nat) returns (row': nat)
    requires Apart(b1, b2) && Aligned(b1.Rows(), b2.Rows(), row, col, b1.width) && col >= 0
    requires (row < b1.nEq ==> b1.eq[row][col] == 0) && (row < b2.nEq ==> b2.eq[row][col] == 0)
    modifies b1`nEq, b1.eq, b2`nEq, b2.eq
    ensures Apart(b1, b2) && Aligned(b1.Rows(), b2.Rows(), row', col - 1, b1.width)
    ensures Stepped(old(b1.Rows()), old(b2.Rows()), b1.Rows(), b2.Rows(), b1.width)
  {
    ghost var A, B := b1.Rows(), b2.Rows();
    var t := TransformColumnRows(b1, b2, row, col);
    row' := row;
    if t >= 0 {
      TransformColumn(A, B, row, col, b1.width, t);
      row' := row' - 1;
    } else {
      AgreeingColumn(A, B, row, col, b1.width);
    }
  }

  /** One pass of the column loop of `affine_hull`. */
  method JoinOneColumn(b1: BasicSet, b2: BasicSet, row: nat, col: nat) returns (row': nat)
    requires Apart(b1, b2) && Aligned(b1.Rows(), b2.Rows(), row, col, b1.width)
    modifies b1`nEq, b1.eq, b2`nEq, b2.eq
    ensures Apart(b1, b2) && Aligned(b1.Rows(), b2.Rows(), row', col - 1, b1.width)
    ensures Stepped(old(b1.Rows()), old(b2.Rows()), b1.Rows(), b2.Rows(), b1.width)
  {
    ghost var A, B, w := b1.Rows(), b2.Rows(), b1.width;
    var isZero1 := row >= b1.nEq || b1.eq[row][col] == 0;
    var isZero2 := row >= b2.nEq || b2.eq[row][col] == 0;
    row' := row;
    if !isZero1 && !isZero2 {
      CommonColumn(A, B, row, col, w);
      SetCommonMultiple(b1, b2, row, col);
      row' := row' + 1;
    } else if !isZero1 && isZero2 {
      ConstructOne(b1, b2, row, col);
    } else if isZero1 && !isZero2 {
      AlignedSwap(A, B, row, col, w);
      ConstructOne(b2, b1, row, col);
      AlignedSwap(b2.Rows(), b1.Rows(), row, col - 1, w);
      SteppedSwap(B, A, b2.Rows(), b1.Rows(), w);
    } else {
      row' := TransformOne(b1, b2, row, col);
    }
  }

  /** The column loop of `affine_hull`.  Both sets end up with the same rows, in
      reduced echelon form, and these imply exactly the equalities that are
      rational combinations of the rows of both inputs. */
  method Join(b1: BasicSet, b2: BasicSet)
    requires Apart(b1, b2) && Echelon(b1.Rows(), b1.width) && Echelon(b2.Rows(), b1.width)
    modifies b1`nEq, b1.eq, b2`nEq, b2.eq
    ensures Apart(b1, b2) && Echelon(b1.Rows(), b1.width)
    ensures b2.Rows() == b1.Rows()
    ensures forall v ::
      InSpan(v, b1.Rows(), b1.width) <==>
      InSpan(v, old(b1.Rows()), b1.width) && InSpan(v, old(b2.Rows()), b1.width)
    ensures Weakened(old(b1.Rows()), b1.Rows(), b1.width)
    ensures Weakened(old(b2.Rows()), b2.Rows(), b1.width)
  {
    ghost var A0, B0, w := b1.Rows(), b2.Rows(), b1.width;
    var row: nat := 0;
    var col: int := b1.width - 1;
    while col >= 0
      invariant -1 <= col < w && Apart(b1, b2)
      invariant Aligned(b1.Rows(), b2.Rows(), row, col, w)
      invariant Stepped(A0, B0, b1.Rows(), b2.Rows(), w)
    {
      ghost var A, B := b1.Rows(), b2.Rows();
      row := JoinOneColumn(b1, b2, row, col);
      SteppedTransitive(A0, B0, A, B, b1.Rows(), b2.Rows(), w);
      col := col - 1;
    }
    JoinDone(b1.Rows(), b2.Rows(), row, w);
    assert row == b1.nEq;
    CommonOfEqual(A0, B0, b1.Rows(), b2.Rows(), w);
  }
}
