/** The symmetric-matrix client of the guaranteed-result analysis: its local
    rules on integer matrices, and why a positive answer means symmetry. */
module SymmetricAnalysis {
  import opened Wrappers
  import opened GuaranteedAnalysis

  /** The shape of a tensor value, as far as the rules look at it. */
  datatype Shape = Scalar | Matrix(rows: nat, cols: nat) | OtherRank

  /** The operations the rules distinguish.  Block arguments and everything
      else the rules know nothing about take their values from the environment. */
  datatype Op =
    | Argument
    | Splat(entry: int)
    | Dense(values: seq<int>)
    | BroadcastScalar(operand: Value)
    | Transpose(operand: Value, permutation: seq<nat>)
    | Elementwise(f: seq<int> -> int, operands: seq<Value>, commutative: bool)
    | DotGeneral(lhs: Value, rhs: Value, lhsContracting: nat, rhsContracting: nat)
    | Syrk(a: Value, c: Value, alpha: Value, beta: Value, uplo: Half, output: Half, transposed: bool)
    | Scatter(input: Value, indices: seq<seq<int>>, updates: Value)
    | Other

  /** Which part of a symmetric matrix is stored. */
  datatype Half = Full | Lower | Upper
  {
    predicate Holds(i: nat, j: nat) {
      match this
      case Full => true
      case Lower => j <= i
      case Upper => i <= j
    }
  }

  /** Values not determined by the program. */
  type Env = (Value, nat, nat) -> int

  datatype Graph = Graph(op: Value -> Op, shape: Value -> Shape) {

    /** Operands come first, and shapes are those the operations require. */
    ghost predicate WellFormed() {
      forall v :: WellFormedAt(v)
    }

    ghost predicate WellFormedAt(v: Value) {
      match op(v)
      case Dense(values) => shape(v).Matrix? ==> |values| == shape(v).rows * shape(v).cols
      case BroadcastScalar(x) => x < v && shape(x).Scalar?
      case Transpose(x, perm) =>
        x < v && (shape(v).Matrix? <==> |perm| == 2) && (shape(v).Matrix? ==>
          (perm == [0, 1] && shape(x) == shape(v)) ||
          (perm == [1, 0] && shape(x) == Matrix(shape(v).cols, shape(v).rows)))
      case Elementwise(f, xs, c) =>
        && |xs| > 0
        && (forall x | x in xs :: x < v && (shape(x) == shape(v) || shape(x).Scalar?))
        && (c ==> |xs| == 2 && forall a, b :: f([a, b]) == f([b, a]))
      case DotGeneral(l, r, lc, rc) =>
        l < v && r < v && (shape(v).Matrix? ==>
          && lc < 2 && rc < 2 && shape(l).Matrix? && shape(r).Matrix?
          && Dim(l, lc) == Dim(r, rc)
          && shape(v) == Matrix(Dim(l, 1 - lc), Dim(r, 1 - rc)))
      case Syrk(a, c, alpha, beta, _, _, transposed) =>
        && a < v && c < v && alpha < v && beta < v && shape(alpha).Scalar? && shape(beta).Scalar?
        && shape(a).Matrix? && shape(c) == shape(v)
        && shape(v) == Matrix(Dim(a, if transposed then 1 else 0), Dim(a, if transposed then 1 else 0))
      case Scatter(input, _, updates) => input < v && updates < v && shape(input) == shape(v)
      case _ => true
    }

    function Dim(x: Value, d: nat): nat
      requires shape(x).Matrix? && d < 2
    {
      if d == 0 then shape(x).rows else shape(x).cols
    }

    // -------------------------------------------------------------- meaning

    /** Entry (i, j) of v; a scalar has the same entry everywhere. */
    ghost function Eval(env: Env, v: Value, i: nat, j: nat): int
      requires WellFormed()
      decreases v, 1, 0
    {
      assert WellFormedAt(v);
      match op(v)
      case Splat(c) => c
      case Dense(values) =>
        if shape(v).Matrix? && i < shape(v).rows && j < shape(v).cols then
          RowMajorBound(i, j, shape(v).rows, shape(v).cols);
          values[i * shape(v).cols + j]
        else if |values| > 0 then values[0] else 0
      case BroadcastScalar(x) => Eval(env, x, 0, 0)
      case Transpose(x, perm) => if perm == [1, 0] then Eval(env, x, j, i) else Eval(env, x, i, j)
      case Elementwise(f, xs, _) => f(Entries(env, v, xs, i, j))
      case DotGeneral(l, r, lc, rc) =>
        if shape(l).Matrix? && lc < 2 then Contract(env, v, i, j, Dim(l, lc)) else 0
      case Syrk(a, c, alpha, beta, uplo, output, transposed) =>
        if output.Holds(i, j) then
          Eval(env, alpha, 0, 0) * Gram(env, v, i, j, Dim(a, if transposed then 0 else 1))
          + Eval(env, beta, 0, 0) * (if uplo.Holds(i, j) then Eval(env, c, i, j) else Eval(env, c, j, i))
        else env(v, i, j)
      case Scatter(input, indices, updates) =>
        var k := LastHit(indices, [i, j]);
        if k < |indices| then Eval(env, updates, k, 0) else Eval(env, input, i, j)
      case _ => env(v, i, j)
    }

    /** The operand entries that an elementwise operation v combines. */
    ghost function Entries(env: Env, v: Value, xs: seq<Value>, i: nat, j: nat): (s: seq<int>)
      requires WellFormed() && forall x | x in xs :: x < v
      ensures |s| == |xs|
      decreases v, 0, |xs|
    {
      if xs == [] then []
      else
        assert xs[0] in xs && forall x | x in xs[1..] :: x in xs;
        [if shape(xs[0]).Scalar? then Eval(env, xs[0], 0, 0) else Eval(env, xs[0], i, j)]
        + Entries(env, v, xs[1..], i, j)
    }

    /** Entry k along the contracted dimension of the left and right operand. */
    ghost function Factor(env: Env, v: Value, i: nat, j: nat, k: nat): int
      requires WellFormed() && op(v).DotGeneral?
      decreases v, 0, 0
    {
      assert WellFormedAt(v);
      var l, r := op(v).lhs, op(v).rhs;
      (if op(v).lhsContracting == 1 then Eval(env, l, i, k) else Eval(env, l, k, i))
      * (if op(v).rhsContracting == 0 then Eval(env, r, k, j) else Eval(env, r, j, k))
    }

    ghost function Contract(env: Env, v: Value, i: nat, j: nat, n: nat): int
      requires WellFormed() && op(v).DotGeneral?
      decreases v, 0, n + 1
    {
      if n == 0 then 0 else Contract(env, v, i, j, n - 1) + Factor(env, v, i, j, n - 1)
    }

    /** Entry (i, j) of A A^T or A^T A, over n terms. */
    ghost function Gram(env: Env, v: Value, i: nat, j: nat, n: nat): int
      requires WellFormed() && op(v).Syrk?
      decreases v, 0, n
    {
      if n == 0 then 0
      else
        assert WellFormedAt(v);
        var a := op(v).a;
        Gram(env, v, i, j, n - 1)
        + if op(v).transposed then Eval(env, a, n - 1, i) * Eval(env, a, n - 1, j)
          else Eval(env, a, i, n - 1) * Eval(env, a, j, n - 1)
    }

    ghost predicate Square(v: Value) {
      shape(v).Matrix? && shape(v).rows == shape(v).cols
    }

    /** v equals its transpose under every assignment. */
    ghost predicate Symmetric(v: Value)
      requires WellFormed() && shape(v).Matrix?
    {
      forall env: Env, i: nat, j: nat | i < shape(v).rows && j < shape(v).rows :: Eval(env, v, i, j) == Eval(env, v, j, i)
    }

    // -------------------------------------------------------------- the rules

    /** `isTrueTranspose` of a transpose of x */
    predicate TransposeOf(y: Value, x: Value) {
      op(y).Transpose? && op(y).permutation == [1, 0] && op(y).operand == x
    }

    /** `SymmetricResultAnalysis::localGuaranteed` */
    function LocalRule(v: Value): Rule {
      if !shape(v).Matrix? || shape(v).rows != shape(v).cols then Never
      else match op(v)
      case Splat(_) => Always
      case Argument => Never
      case BroadcastScalar(_) => Always
      case Elementwise(_, xs, commutative) =>
        if commutative && |xs| >= 2 && (TransposeOf(xs[1], xs[0]) || TransposeOf(xs[0], xs[1])) then Always
        else IfAll(xs)
      case DotGeneral(l, r, lc, rc) =>
        if l == r && lc == rc then Always
        else if l == r && lc + rc == 1 then IfAll([l])
        else if TransposeOf(l, r) && lc + rc == 1 then Always
        else if TransposeOf(r, l) && lc + rc == 1 then Always
        else Never
      case Syrk(_, _, _, _, _, _, _) => Always
      case Scatter(input, indices, _) => if op(input).Splat? && Diagonal(indices, shape(v).rows) then Always else Never
      case _ => Never
    }

    /** `guaranteedConstant`: a splat of any shape passes, a dense constant is compared. */
    function ConstantRule(v: Value): Option<bool> {
      match op(v)
      case Splat(_) => Some(true)
      case Dense(values) =>
        if shape(v).Scalar? then Some(true)
        else if shape(v).Matrix? && |values| == shape(v).rows * shape(v).cols
        then Some(ConstantSymmetric(values, shape(v).rows, shape(v).cols))
        else Some(false)
      case _ => None
    }

    ghost predicate Analyses(g: Program) {
      && (forall v :: g.local(v) == LocalRule(v))
      && (forall v :: g.constantCheck(v) == ConstantRule(v))
      && (forall v :: !g.skipped(v))
    }
  }

  /** The last place where the index is listed; the length if nowhere. */
  function LastHit(indices: seq<seq<int>>, at: seq<int>): (k: nat)
    ensures k < |indices| ==> indices[k] == at
    ensures k >= |indices| ==> at !in indices
  {
    if indices == [] then 0
    else
      var n := |indices| - 1;
      if indices[n] == at then n
      else
        var k := LastHit(indices[..n], at);
        assert indices == indices[..n] + [indices[n]];
        if k < n then k else n + 1
  }

  /** `detectDiagonalTensor`: row k of the indices is (k, k). */
  predicate Diagonal(indices: seq<seq<int>>, n: nat) {
    |indices| == n && forall k | 0 <= k < n :: indices[k] == [k, k]
  }

  lemma RowMajorBound(i: nat, j: nat, rows: nat, cols: nat)
    requires i < rows && j < cols
    ensures 0 <= i * cols + j < rows * cols
  {
    assert (i + 1) * cols <= rows * cols;
  }

  /** A constant matrix equals its transpose. */
  predicate ConstantSymmetric(values: seq<int>, rows: nat, cols: nat)
    requires |values| == rows * cols
  {
    rows == cols && forall i, j | 0 <= i < rows && 0 <= j < cols ::
      (RowMajorBound(i, j, rows, cols); RowMajorBound(j, i, rows, cols); values[i * cols + j] == values[j * cols + i])
  }

  /** `checkConstantSymmetric` on a matrix: compares the entries above the diagonal with those below. */
  method CheckConstantSymmetric(values: seq<int>, rows: nat, cols: nat) returns (b: bool)
    requires |values| == rows * cols
    ensures b <==> ConstantSymmetric(values, rows, cols)
  {
    if rows != cols {
      return false;
    }
    var i := 0;
    while i < rows
      invariant 0 <= i <= rows
      invariant forall p, q | 0 <= p < i && p < q < cols ::
        (RowMajorBound(p, q, rows, cols); RowMajorBound(q, p, rows, cols); values[p * cols + q] == values[q * cols + p])
    {
      var j := i + 1;
      while j < cols
        invariant i + 1 <= j <= cols
        invariant forall q | i < q < j ::
          (RowMajorBound(i, q, rows, cols); RowMajorBound(q, i, rows, cols); values[i * cols + q] == values[q * cols + i])
      {
        RowMajorBound(i, j, rows, cols);
        RowMajorBound(j, i, rows, cols);
        if values[i * cols + j] != values[j * cols + i] {
          return false;
        }
        j := j + 1;
      }
      i := i + 1;
    }
    return true;
  }

  // ---------------------------------------------------------------- soundness of the rules

  lemma {:induction false} ContractSame(g: Graph, env: Env, v: Value, i: nat, j: nat, i': nat, j': nat, n: nat)
    requires g.WellFormed() && g.op(v).DotGeneral?
    requires forall k: nat | k < n :: g.Factor(env, v, i, j, k) == g.Factor(env, v, i', j', k)
    ensures g.Contract(env, v, i, j, n) == g.Contract(env, v, i', j', n)
  {
    if n > 0 { ContractSame(g, env, v, i, j, i', j', n - 1); }
  }

  lemma {:induction false} EntriesSame(g: Graph, env: Env, v: Value, xs: seq<Value>, i: nat, j: nat)
    requires g.WellFormed() && forall x | x in xs :: x < v
    requires forall x | x in xs && !g.shape(x).Scalar? :: g.Eval(env, x, i, j) == g.Eval(env, x, j, i)
    ensures g.Entries(env, v, xs, i, j) == g.Entries(env, v, xs, j, i)
  {
    if xs != [] {
      assert xs[0] in xs && forall x | x in xs[1..] :: x in xs;
      EntriesSame(g, env, v, xs[1..], i, j);
    }
  }

  lemma TransposeEntry(g: Graph, env: Env, y: Value, x: Value, i: nat, j: nat)
    requires g.WellFormed() && g.TransposeOf(y, x)
    ensures g.Eval(env, y, i, j) == g.Eval(env, x, j, i)
  {
    assert g.WellFormedAt(y);
  }

  /** op(A, A^T) and op(A^T, A) with a commutative op. */
  lemma CommutativePair(g: Graph, env: Env, v: Value, i: nat, j: nat)
    requires g.WellFormed() && g.shape(v).Matrix? && g.op(v).Elementwise? && g.op(v).commutative
    requires var xs := g.op(v).operands;
      |xs| >= 2 && (g.TransposeOf(xs[1], xs[0]) || g.TransposeOf(xs[0], xs[1]))
      && g.shape(xs[0]).Matrix? && g.shape(xs[1]).Matrix?
    ensures g.Eval(env, v, i, j) == g.Eval(env, v, j, i)
  {
    assert g.WellFormedAt(v);
    var xs, f := g.op(v).operands, g.op(v).f;
    var x, y := xs[0], xs[1];
    assert xs == [x, y] && xs[1..] == [y] && [y][1..] == [];
    forall p: nat, q: nat
      ensures g.Entries(env, v, xs, p, q) == [g.Eval(env, x, p, q), g.Eval(env, y, p, q)]
    {
      assert g.Entries(env, v, [y], p, q) == [g.Eval(env, y, p, q)];
    }
    var a, b := g.Eval(env, x, i, j), g.Eval(env, y, i, j);
    if g.TransposeOf(y, x) {
      TransposeEntry(g, env, y, x, i, j);
      TransposeEntry(g, env, y, x, j, i);
    } else {
      TransposeEntry(g, env, x, y, i, j);
      TransposeEntry(g, env, x, y, j, i);
    }
    assert g.Eval(env, x, j, i) == b && g.Eval(env, y, j, i) == a;
  }

  lemma PairShapes(g: Graph, v: Value)
    requires g.WellFormed() && g.Square(v) && g.op(v).Elementwise? && |g.op(v).operands| >= 2
    requires var xs := g.op(v).operands; g.TransposeOf(xs[1], xs[0]) || g.TransposeOf(xs[0], xs[1])
    ensures var xs := g.op(v).operands; g.shape(xs[0]).Matrix? && g.shape(xs[1]).Matrix?
  {
    var xs := g.op(v).operands;
    assert g.WellFormedAt(v) && g.WellFormedAt(xs[0]) && g.WellFormedAt(xs[1]);
    assert xs[0] in xs && xs[1] in xs;
  }

  /** A times its own transpose, in every layout the rules accept. */
  lemma GramFactor(g: Graph, env: Env, v: Value, i: nat, j: nat, k: nat)
    requires g.WellFormed() && g.Square(v) && g.op(v).DotGeneral? && g.LocalRule(v) == Always
    ensures g.Factor(env, v, i, j, k) == g.Factor(env, v, j, i, k)
  {
    assert g.WellFormedAt(v);
    var l, r := g.op(v).lhs, g.op(v).rhs;
    if l == r && g.op(v).lhsContracting == g.op(v).rhsContracting {
    } else if g.TransposeOf(l, r) {
      TransposeEntry(g, env, l, r, i, k);
      TransposeEntry(g, env, l, r, k, i);
      TransposeEntry(g, env, l, r, j, k);
      TransposeEntry(g, env, l, r, k, j);
    } else {
      TransposeEntry(g, env, r, l, i, k);
      TransposeEntry(g, env, r, l, k, i);
      TransposeEntry(g, env, r, l, j, k);
      TransposeEntry(g, env, r, l, k, j);
    }
  }

  /** A A^T and A^T A are symmetric. */
  lemma {:induction false} GramSymmetric(g: Graph, env: Env, v: Value, i: nat, j: nat, n: nat)
    requires g.WellFormed() && g.op(v).Syrk?
    ensures g.Gram(env, v, i, j, n) == g.Gram(env, v, j, i, n)
  {
    if n > 0 { GramSymmetric(g, env, v, i, j, n - 1); }
  }

  /** The operation demands a symmetric C, of which it may read one half. */
  ghost predicate SyrkContract(g: Graph, v: Value)
    requires g.WellFormed()
  {
    g.op(v).Syrk? && g.op(v).uplo.Full? && g.shape(g.op(v).c).Matrix? ==> g.Symmetric(g.op(v).c)
  }

  lemma SyrkEntries(g: Graph, env: Env, v: Value, i: nat, j: nat)
    requires g.WellFormed() && g.Square(v) && g.op(v).Syrk? && g.op(v).output.Full? && SyrkContract(g, v)
    requires i < g.shape(v).rows && j < g.shape(v).rows
    ensures g.Eval(env, v, i, j) == g.Eval(env, v, j, i)
  {
    assert g.WellFormedAt(v);
    var c := g.op(v).c;
    GramSymmetric(g, env, v, i, j, g.Dim(g.op(v).a, if g.op(v).transposed then 0 else 1));
    if g.op(v).uplo.Full? {
      assert g.Symmetric(c);
      assert g.Eval(env, c, i, j) == g.Eval(env, c, j, i);
    }
  }

  // ---------------------------------------------------------------- results that are half filled

  ghost predicate SameBelow(e: Env, e': Env, v: Value) {
    forall u: Value, i: nat, j: nat | u < v :: e(u, i, j) == e'(u, i, j)
  }

  /** A value depends on itself and what is before it only. */
  lemma {:induction false} EvalBelow(g: Graph, e: Env, e': Env, w: Value, v: Value, i: nat, j: nat)
    requires g.WellFormed() && SameBelow(e, e', w) && v < w
    ensures g.Eval(e, v, i, j) == g.Eval(e', v, i, j)
    decreases v, 1, 0
  {
    assert g.WellFormedAt(v);
    match g.op(v)
    case BroadcastScalar(x) => EvalBelow(g, e, e', w, x, 0, 0);
    case Transpose(x, perm) =>
      EvalBelow(g, e, e', w, x, i, j);
      EvalBelow(g, e, e', w, x, j, i);
    case Elementwise(f, xs, _) => EntriesBelow(g, e, e', w, v, xs, i, j);
    case DotGeneral(l, r, lc, rc) =>
      if g.shape(l).Matrix? && lc < 2 { ContractBelow(g, e, e', w, v, i, j, g.Dim(l, lc)); }
    case Syrk(a, c, alpha, beta, _, _, transposed) =>
      GramBelow(g, e, e', w, v, i, j, g.Dim(a, if transposed then 0 else 1));
      EvalBelow(g, e, e', w, alpha, 0, 0);
      EvalBelow(g, e, e', w, beta, 0, 0);
      EvalBelow(g, e, e', w, c, i, j);
      EvalBelow(g, e, e', w, c, j, i);
    case Scatter(input, indices, updates) =>
      EvalBelow(g, e, e', w, input, i, j);
      EvalBelow(g, e, e', w, updates, LastHit(indices, [i, j]), 0);
    case _ =>
  }

  lemma {:induction false} EntriesBelow(g: Graph, e: Env, e': Env, w: Value, v: Value, xs: seq<Value>, i: nat, j: nat)
    requires g.WellFormed() && SameBelow(e, e', w) && v < w && forall x | x in xs :: x < v
    ensures g.Entries(e, v, xs, i, j) == g.Entries(e', v, xs, i, j)
    decreases v, 0, |xs|
  {
    if xs != [] {
      assert xs[0] in xs && forall x | x in xs[1..] :: x in xs;
      EvalBelow(g, e, e', w, xs[0], 0, 0);
      EvalBelow(g, e, e', w, xs[0], i, j);
      EntriesBelow(g, e, e', w, v, xs[1..], i, j);
    }
  }

  lemma {:induction false} ContractBelow(g: Graph, e: Env, e': Env, w: Value, v: Value, i: nat, j: nat, n: nat)
    requires g.WellFormed() && SameBelow(e, e', w) && v < w && g.op(v).DotGeneral?
    ensures g.Contract(e, v, i, j, n) == g.Contract(e', v, i, j, n)
    decreases v, 0, n
  {
    if n > 0 {
      assert g.WellFormedAt(v);
      ContractBelow(g, e, e', w, v, i, j, n - 1);
      EvalBelow(g, e, e', w, g.op(v).lhs, i, n - 1);
      EvalBelow(g, e, e', w, g.op(v).lhs, n - 1, i);
      EvalBelow(g, e, e', w, g.op(v).rhs, n - 1, j);
      EvalBelow(g, e, e', w, g.op(v).rhs, j, n - 1);
    }
  }

  lemma {:induction false} GramBelow(g: Graph, e: Env, e': Env, w: Value, v: Value, i: nat, j: nat, n: nat)
    requires g.WellFormed() && SameBelow(e, e', w) && v <= w && g.op(v).Syrk?
    ensures g.Gram(e, v, i, j, n) == g.Gram(e', v, i, j, n)
    decreases v, 0, n
  {
    if n > 0 {
      assert g.WellFormedAt(v);
      var a := g.op(v).a;
      GramBelow(g, e, e', w, v, i, j, n - 1);
      EvalBelow(g, e, e', w, a, i, n - 1);
      EvalBelow(g, e, e', w, a, n - 1, i);
      EvalBelow(g, e, e', w, a, j, n - 1);
      EvalBelow(g, e, e', w, a, n - 1, j);
    }
  }

  /** A result of which one half is filled can hold anything in the other. */
  lemma HalfFilled(g: Graph, v: Value)
    requires g.WellFormed() && g.Square(v) && g.op(v).Syrk? && !g.op(v).output.Full? && g.shape(v).rows >= 2
    ensures !g.Symmetric(v)
  {
    assert g.WellFormedAt(v);
    var i, j := if g.op(v).output.Lower? then 1 else 0, if g.op(v).output.Lower? then 0 else 1;
    var e: Env := (u: Value, p: nat, q: nat) => 0;
    var x := g.Eval(e, v, i, j);
    var e': Env := (u: Value, p: nat, q: nat) => if u == v then x + 1 else 0;
    var a, c := g.op(v).a, g.op(v).c;
    GramBelow(g, e, e', v, v, i, j, g.Dim(a, if g.op(v).transposed then 0 else 1));
    EvalBelow(g, e, e', v, g.op(v).alpha, 0, 0);
    EvalBelow(g, e, e', v, g.op(v).beta, 0, 0);
    EvalBelow(g, e, e', v, c, i, j);
    EvalBelow(g, e, e', v, c, j, i);
    assert g.Eval(e', v, i, j) == x && g.Eval(e', v, j, i) == x + 1;
  }

  lemma HalfSmall(g: Graph, v: Value)
    requires g.WellFormed() && g.Square(v) && g.shape(v).rows < 2
    ensures g.Symmetric(v)
  {
  }

  /** The rule for this operation does not ask which half is filled: its answer is
      right exactly if the whole result is, or the matrix has at most one entry. */
  lemma SyrkExact(g: Graph, v: Value)
    requires g.WellFormed() && g.Square(v) && g.op(v).Syrk? && SyrkContract(g, v)
    ensures g.LocalRule(v) == Always
    ensures g.Symmetric(v) <==> g.op(v).output.Full? || g.shape(v).rows < 2
  {
    if g.op(v).output.Full? {
      forall env: Env, i: nat, j: nat | i < g.shape(v).rows && j < g.shape(v).rows
        ensures g.Eval(env, v, i, j) == g.Eval(env, v, j, i)
      {
        SyrkEntries(g, env, v, i, j);
      }
    } else if g.shape(v).rows < 2 {
      HalfSmall(g, v);
    } else {
      HalfFilled(g, v);
    }
  }

  /** Each use of the operation keeps to its contract and fills the whole result. */
  ghost predicate SyrkFull(g: Graph)
    requires g.WellFormed()
  {
    forall v | g.op(v).Syrk? && g.Square(v) :: SyrkFullAt(g, v)
  }

  ghost predicate SyrkFullAt(g: Graph, v: Value)
    requires g.WellFormed() && g.op(v).Syrk?
  {
    SyrkContract(g, v) && (g.op(v).output.Full? || g.shape(v) == Matrix(0, 0) || g.shape(v) == Matrix(1, 1))
  }

  /** A diagonal list of indices names nothing off the diagonal. */
  lemma DiagonalHit(indices: seq<seq<int>>, n: nat, i: nat, j: nat)
    requires Diagonal(indices, n) && LastHit(indices, [i, j]) < n
    ensures i == j
  {
    var k := LastHit(indices, [i, j]);
    assert [i, j] == indices[k] == [k, k];
    assert [i, j][0] == k && [i, j][1] == k;
  }

  lemma ScatterEntries(g: Graph, env: Env, v: Value, i: nat, j: nat)
    requires g.WellFormed() && g.shape(v).Matrix?
    requires g.op(v).Scatter? && g.op(g.op(v).input).Splat? && Diagonal(g.op(v).indices, g.shape(v).rows)
    ensures g.Eval(env, v, i, j) == g.Eval(env, v, j, i)
  {
    assert g.WellFormedAt(v);
    var indices, n := g.op(v).indices, g.shape(v).rows;
    if LastHit(indices, [i, j]) < n { DiagonalHit(indices, n, i, j); }
    if LastHit(indices, [j, i]) < n { DiagonalHit(indices, n, j, i); }
  }

  /** A rule that fires unconditionally is right. */
  lemma AlwaysSound(g: Graph, v: Value)
    requires g.WellFormed() && g.Square(v) && g.LocalRule(v) == Always
    requires g.op(v).Syrk? ==> SyrkFullAt(g, v)
    ensures g.Symmetric(v)
  {
    assert g.WellFormedAt(v);
    forall env: Env, i: nat, j: nat | i < g.shape(v).rows && j < g.shape(v).rows
      ensures g.Eval(env, v, i, j) == g.Eval(env, v, j, i)
    {
      match g.op(v)
      case Elementwise(f, xs, c) =>
        PairShapes(g, v);
        CommutativePair(g, env, v, i, j);
      case DotGeneral(l, r, lc, rc) =>
        var n := g.Dim(l, lc);
        forall k: nat | k < n ensures g.Factor(env, v, i, j, k) == g.Factor(env, v, j, i, k) {
          GramFactor(g, env, v, i, j, k);
        }
        ContractSame(g, env, v, i, j, j, i, n);
      case Syrk(_, _, _, _, _, output, _) =>
        SyrkExact(g, v);
      case Scatter(_, _, _) =>
        ScatterEntries(g, env, v, i, j);
      case _ =>
    }
  }

  /** An elementwise operation on symmetric operands is symmetric. */
  lemma ElementwiseSound(g: Graph, v: Value)
    requires g.WellFormed() && g.Square(v) && g.op(v).Elementwise?
    requires forall x | x in g.op(v).operands && g.shape(x).Matrix? :: g.Symmetric(x)
    ensures g.Symmetric(v)
  {
    assert g.WellFormedAt(v);
    forall env: Env, i: nat, j: nat | i < g.shape(v).rows && j < g.shape(v).rows
      ensures g.Eval(env, v, i, j) == g.Eval(env, v, j, i)
    {
      EntriesSame(g, env, v, g.op(v).operands, i, j);
    }
  }

  lemma SquareFactor(g: Graph, env: Env, v: Value, i: nat, j: nat, k: nat)
    requires g.WellFormed() && g.Square(v) && g.op(v).DotGeneral? && g.op(v).lhs == g.op(v).rhs
    requires g.op(v).lhsContracting + g.op(v).rhsContracting == 1
    requires g.shape(g.op(v).lhs) == g.shape(v) && g.Symmetric(g.op(v).lhs)
    requires i < g.shape(v).rows && j < g.shape(v).rows && k < g.shape(v).rows
    ensures g.Factor(env, v, i, j, k) == g.Factor(env, v, j, i, k)
  {
    var l := g.op(v).lhs;
    assert g.Eval(env, l, i, k) == g.Eval(env, l, k, i);
    assert g.Eval(env, l, j, k) == g.Eval(env, l, k, j);
  }

  /** The square of a symmetric matrix is symmetric. */
  lemma SquareSound(g: Graph, v: Value)
    requires g.WellFormed() && g.Square(v) && g.op(v).DotGeneral? && g.op(v).lhs == g.op(v).rhs
    requires g.op(v).lhsContracting + g.op(v).rhsContracting == 1
    requires g.shape(g.op(v).lhs).Matrix? ==> g.Square(g.op(v).lhs) ==> g.Symmetric(g.op(v).lhs)
    ensures g.Symmetric(v)
  {
    assert g.WellFormedAt(v);
    var l, n := g.op(v).lhs, g.shape(v).rows;
    assert g.shape(l) == Matrix(n, n);
    forall env: Env, i: nat, j: nat | i < n && j < n ensures g.Eval(env, v, i, j) == g.Eval(env, v, j, i) {
      forall k: nat | k < n ensures g.Factor(env, v, i, j, k) == g.Factor(env, v, j, i, k) {
        SquareFactor(g, env, v, i, j, k);
      }
      ContractSame(g, env, v, i, j, j, i, n);
    }
  }

  /** A constant that passes the comparison is symmetric. */
  lemma ConstantSound(g: Graph, v: Value)
    requires g.WellFormed() && g.Square(v) && g.ConstantRule(v) == Some(true)
    ensures g.Symmetric(v)
  {
    assert g.WellFormedAt(v);
    var n := g.shape(v).rows;
    forall env: Env, i: nat, j: nat | i < n && j < n ensures g.Eval(env, v, i, j) == g.Eval(env, v, j, i) {
      RowMajorBound(i, j, n, n);
      RowMajorBound(j, i, n, n);
    }
  }

  /** Attributes found in the program are taken at their word. */
  ghost predicate GivenSound(g: Graph, p: Program)
    requires g.WellFormed()
  {
    forall v | v in p.given && p.given[v] && g.Square(v) :: g.Symmetric(v)
  }

  /** On an acyclic program every square matrix in the greatest fixpoint of the
      rules equals its transpose, under every assignment. */
  lemma {:induction false} HoldsSymmetric(g: Graph, p: Program, v: Value)
    requires g.WellFormed() && g.Analyses(p) && GivenSound(g, p) && SyrkFull(g) && p.Holds(v) && g.Square(v)
    ensures g.Symmetric(v)
    decreases v
  {
    HoldsUnfold(p, v);
    assert g.WellFormedAt(v);
    if v in p.given {
    } else if p.constantCheck(v).Some? {
      ConstantSound(g, v);
    } else {
      match g.LocalRule(v)
      case Always => AlwaysSound(g, v);
      case Never =>
      case IfAll(ops) =>
        forall x | x in ops && g.Square(x) ensures g.Symmetric(x) {
          assert x in Fixpoint(p);
          HoldsSymmetric(g, p, x);
        }
        if g.op(v).Elementwise? {
          ElementwiseSound(g, v);
        } else {
          assert g.op(v).lhs in ops;
          SquareSound(g, v);
        }
    }
  }

  // ---------------------------------------------------------------- what is accepted

  /** The analysis runs on g, and v is a square matrix without an attribute. */
  ghost predicate Open(g: Graph, p: Program, v: Value) {
    g.WellFormed() && g.Analyses(p) && g.Square(v) && v !in p.given
  }

  lemma OpenHolds(g: Graph, p: Program, v: Value)
    requires Open(g, p, v) && !g.op(v).Splat? && !g.op(v).Dense?
    ensures p.Holds(v) <==>
      match g.LocalRule(v)
      case Always => true
      case Never => false
      case IfAll(xs) => forall x | x in xs :: p.Holds(x)
  {
    HoldsUnfold(p, v);
  }

  /** A A^T and A^T A are accepted: one operand contracted twice along the same dimension,
      or an operand and its transpose along dimensions that are the same in the operand. */
  lemma GramAccepted(g: Graph, p: Program, v: Value, l: Value, r: Value, lc: nat, rc: nat)
    requires Open(g, p, v) && g.op(v) == DotGeneral(l, r, lc, rc)
    requires (l == r && lc == rc)
      || (lc + rc == 1 && (g.op(l) == Transpose(r, [1, 0]) || g.op(r) == Transpose(l, [1, 0])))
    ensures p.Holds(v)
  {
    assert g.WellFormedAt(l) && g.WellFormedAt(r);
    OpenHolds(g, p, v);
  }

  /** A A is accepted exactly if A is. */
  lemma SquareAccepted(g: Graph, p: Program, v: Value, x: Value, lc: nat, rc: nat)
    requires Open(g, p, v) && g.op(v) == DotGeneral(x, x, lc, rc) && lc + rc == 1
    ensures p.Holds(v) <==> p.Holds(x)
  {
    OpenHolds(g, p, v);
    assert x in [x];
  }

  /** No other product is. */
  lemma OtherProduct(g: Graph, p: Program, v: Value, l: Value, r: Value, lc: nat, rc: nat)
    requires Open(g, p, v) && g.op(v) == DotGeneral(l, r, lc, rc)
    requires l == r ==> lc != rc && lc + rc != 1
    requires lc + rc == 1 ==> g.op(l) != Transpose(r, [1, 0]) && g.op(r) != Transpose(l, [1, 0])
    ensures !p.Holds(v)
  {
    OpenHolds(g, p, v);
  }

  /** A commutative operation on A and its transpose, either way round. */
  lemma PairAccepted(g: Graph, p: Program, v: Value, f: seq<int> -> int, x: Value, y: Value)
    requires Open(g, p, v) && g.op(v) == Elementwise(f, [x, y], true)
    requires g.op(y) == Transpose(x, [1, 0]) || g.op(x) == Transpose(y, [1, 0])
    ensures p.Holds(v)
  {
    OpenHolds(g, p, v);
  }

  /** Any other elementwise operation is accepted exactly if all its operands are. */
  lemma ElementwiseAccepted(g: Graph, p: Program, v: Value, f: seq<int> -> int, xs: seq<Value>, c: bool)
    requires Open(g, p, v) && g.op(v) == Elementwise(f, xs, c)
    requires c && |xs| == 2 ==> g.op(xs[1]) != Transpose(xs[0], [1, 0]) && g.op(xs[0]) != Transpose(xs[1], [1, 0])
    ensures p.Holds(v) <==> forall x | x in xs :: p.Holds(x)
  {
    assert g.WellFormedAt(v);
    OpenHolds(g, p, v);
  }

  /** A scalar broadcast and a rank-k update. */
  lemma AlwaysAccepted(g: Graph, p: Program, v: Value)
    requires Open(g, p, v) && (g.op(v).BroadcastScalar? || g.op(v).Syrk?)
    ensures p.Holds(v)
  {
    OpenHolds(g, p, v);
  }

  /** A scatter is accepted exactly if its input is a splat and its indices are
      (0, 0), (1, 1), ..., one for each row. */
  lemma ScatterAccepted(g: Graph, p: Program, v: Value, input: Value, indices: seq<seq<int>>, updates: Value)
    requires Open(g, p, v) && g.op(v) == Scatter(input, indices, updates)
    ensures p.Holds(v) <==> g.op(input).Splat? && indices == seq(g.shape(v).rows, k => [k, k])
  {
    OpenHolds(g, p, v);
    var diagonal: seq<seq<int>> := seq(g.shape(v).rows, k => [k, k]);
    assert Diagonal(indices, g.shape(v).rows) <==> indices == diagonal;
  }

  /** A constant matrix is accepted exactly if it equals its transpose. */
  lemma ConstantAccepted(g: Graph, p: Program, v: Value, values: seq<int>)
    requires Open(g, p, v) && g.op(v) == Dense(values)
    ensures p.Holds(v) <==> g.Symmetric(v)
  {
    assert g.WellFormedAt(v);
    HoldsUnfold(p, v);
    if g.ConstantRule(v) == Some(true) { ConstantSound(g, v); }
    if g.Symmetric(v) { ConstantCompared(g, v, values); }
  }

  lemma ConstantCompared(g: Graph, v: Value, values: seq<int>)
    requires g.WellFormed() && g.Square(v) && g.op(v) == Dense(values) && g.Symmetric(v)
    ensures |values| == g.shape(v).rows * g.shape(v).cols
    ensures ConstantSymmetric(values, g.shape(v).rows, g.shape(v).cols)
  {
    assert g.WellFormedAt(v);
    var n := g.shape(v).rows;
    var env: Env := (u: Value, i: nat, j: nat) => 0;
    forall i, j | 0 <= i < n && 0 <= j < n
      ensures (RowMajorBound(i, j, n, n); RowMajorBound(j, i, n, n); values[i * n + j] == values[j * n + i])
    {
      RowMajorBound(i, j, n, n);
      RowMajorBound(j, i, n, n);
      assert g.Eval(env, v, i, j) == values[i * n + j] && g.Eval(env, v, j, i) == values[j * n + i];
    }
  }

  /** Arguments, transposes and unknown operations are not accepted, and of the matrices
      that are not square only constants are looked at. */
  lemma NotAccepted(g: Graph, p: Program, v: Value)
    requires g.Analyses(p) && v !in p.given && !g.op(v).Splat? && !g.op(v).Dense?
    requires g.op(v).Argument? || g.op(v).Transpose? || g.op(v).Other? || !g.Square(v)
    ensures !p.Holds(v)
  {
    HoldsUnfold(p, v);
  }

  /** What the analysis answers about a square matrix can be relied on. */
  method IsSymmetric(g: Graph, analysis: Analysis, v: Value, ghost U: set<Value>) returns (b: bool)
    requires g.WellFormed() && g.Analyses(analysis.program) && GivenSound(g, analysis.program) && SyrkFull(g)
    requires analysis.Valid() && v in U && analysis.program.Closed(U)
    modifies analysis
    ensures analysis.Valid()
    ensures b <==> analysis.program.Holds(v)
    ensures b && g.Square(v) ==> g.Symmetric(v)
  {
    b := analysis.IsGuaranteed(v, U);
    if b && g.shape(v).Matrix? && g.shape(v).rows == g.shape(v).cols {
      HoldsSymmetric(g, analysis.program, v);
    }
  }

  /** A splat passes whatever its shape: for a matrix that is not square the answer
      says nothing about a transpose. */
  lemma SplatOfAnyShape(g: Graph, p: Program, v: Value)
    requires g.Analyses(p) && v !in p.given && g.op(v).Splat?
    ensures p.Holds(v)
  {
    HoldsUnfold(p, v);
  }
}
