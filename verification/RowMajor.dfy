/** Row-major layout: strides, and the two conversions between linear and
    multi-dimensional indices. */
module RowMajor {

  type Index = seq<int>

  function Product(s: seq<int>): int {
    if s == [] then 1 else s[0] * Product(s[1..])
  }

  predicate Positive(shape: seq<int>) {
    forall d | 0 <= d < |shape| :: shape[d] > 0
  }

  predicate InBounds(idx: Index, shape: seq<int>) {
    |idx| == |shape| && forall d | 0 <= d < |shape| :: 0 <= idx[d] < shape[d]
  }

  lemma {:induction false} ProductPositive(s: seq<int>)
    requires Positive(s)
    ensures Product(s) > 0
  {
    if s != [] {
      ProductPositive(s[1..]);
      MulPositive(s[0], Product(s[1..]));
    }
  }

  lemma MulPositive(a: int, b: int)
    requires a > 0 && b > 0
    ensures a * b > 0
  {
  }

  /** Position of a multi-dimensional index in row-major order. */
  function Linear(idx: Index, shape: seq<int>): int
    requires |idx| == |shape|
  {
    if shape == [] then 0 else idx[0] * Product(shape[1..]) + Linear(idx[1..], shape[1..])
  }

  /** Multi-dimensional index of a row-major position. */
  function Multi(linear: int, shape: seq<int>): (idx: Index)
    requires Positive(shape)
    ensures |idx| == |shape|
    decreases |shape|
  {
    if shape == [] then []
    else
      ProductPositive(shape[1..]);
      [linear / Product(shape[1..])] + Multi(linear % Product(shape[1..]), shape[1..])
  }

  lemma MulMonotone(a: int, b: int, p: int)
    requires a <= b && p >= 0
    ensures a * p <= b * p
  {
    assert (b - a) * p >= 0;
  }

  lemma LessFactor(a: int, b: int, p: int)
    requires p > 0 && a * p < b * p
    ensures a < b
  {
    if b <= a { MulMonotone(b, a, p); }
  }

  lemma QuotientBound(x: int, a: int, p: int)
    requires p > 0 && 0 <= x < a * p
    ensures 0 <= x / p < a && 0 <= x % p < p && x == (x / p) * p + x % p
  {
    LessFactor(x / p, a, p);
    LessFactor(-1, x / p, p);
  }

  lemma QuotientUnique(i: int, r: int, p: int)
    requires p > 0 && 0 <= r < p
    ensures (i * p + r) / p == i && (i * p + r) % p == r
  {
    var x := i * p + r;
    var e, s := x / p, x % p;
    assert x == e * p + s;
    assert (i - e) * p == s - r;
    LessFactor(i - e, 1, p);
    LessFactor(-1, i - e, p);
  }

  /** Every position below the element count has an index in bounds that leads back to it. */
  lemma {:induction false} MultiThenLinear(linear: int, shape: seq<int>)
    requires Positive(shape) && 0 <= linear < Product(shape)
    ensures InBounds(Multi(linear, shape), shape) && Linear(Multi(linear, shape), shape) == linear
  {
    if shape != [] {
      var p, t := Product(shape[1..]), shape[1..];
      ProductPositive(t);
      QuotientBound(linear, shape[0], p);
      MultiThenLinear(linear % p, t);
      var m := Multi(linear, shape);
      assert m[1..] == Multi(linear % p, t);
      forall d | 0 <= d < |shape| ensures 0 <= m[d] < shape[d] {
        if d > 0 { assert m[d] == m[1..][d - 1] && shape[d] == t[d - 1]; }
      }
    }
  }

  /** Every index in bounds has a position below the element count that leads back to it. */
  lemma {:induction false} LinearThenMulti(idx: Index, shape: seq<int>)
    requires Positive(shape) && InBounds(idx, shape)
    ensures 0 <= Linear(idx, shape) < Product(shape) && Multi(Linear(idx, shape), shape) == idx
  {
    if shape != [] {
      var p, t := Product(shape[1..]), shape[1..];
      ProductPositive(t);
      LinearThenMulti(idx[1..], t);
      var r := Linear(idx[1..], t);
      QuotientUnique(idx[0], r, p);
      LinearBound(idx[0], shape[0], r, p);
      assert Multi(Linear(idx, shape), shape) == [idx[0]] + idx[1..];
    }
  }

  lemma LinearBound(i: int, a: int, r: int, p: int)
    requires 0 <= i < a && 0 <= r < p
    ensures 0 <= i * p + r < a * p
  {
    MulMonotone(0, i, p);
    MulMonotone(i + 1, a, p);
    assert (i + 1) * p == i * p + p;
  }

  lemma LinearInjective(idx: Index, idx': Index, shape: seq<int>)
    requires Positive(shape) && InBounds(idx, shape) && InBounds(idx', shape)
    requires Linear(idx, shape) == Linear(idx', shape)
    ensures idx == idx'
  {
    LinearThenMulti(idx, shape);
    LinearThenMulti(idx', shape);
  }

  // ---------------------------------------------------------------- the loops

  /** stride of every dimension: the product of the later extents */
  ghost predicate StridesOf(strides: seq<int>, shape: seq<int>) {
    |strides| == |shape| && forall d | 0 <= d < |shape| :: strides[d] == Product(shape[d + 1..])
  }

  /** `computeStrides` */
  method ComputeStrides(shape: seq<int>) returns (strides: seq<int>)
    ensures StridesOf(strides, shape)
  {
    var rank := |shape|;
    strides := seq(rank, _ => 1);
    assert rank > 0 ==> shape[rank..] == [];
    var i := rank - 2;
    while i >= 0
      invariant -1 <= i || rank == 0
      invariant i <= rank - 2 && |strides| == rank
      invariant forall d | 0 <= d < rank && d > i :: strides[d] == Product(shape[d + 1..])
    {
      assert shape[i + 1..][0] == shape[i + 1] && shape[i + 1..][1..] == shape[i + 2..];
      strides := strides[i := strides[i + 1] * shape[i + 1]];
      i := i - 1;
    }
  }

  /** `linearToMultiIndex` */
  method LinearToMultiIndex(linearIdx: int, strides: seq<int>, ghost shape: seq<int>) returns (indices: Index)
    requires Positive(shape) && StridesOf(strides, shape)
    ensures indices == Multi(linearIdx, shape)
  {
    indices := [];
    var rest := linearIdx;
    var d := 0;
    while d < |strides|
      invariant 0 <= d <= |strides| && |indices| == d
      invariant indices + Multi(rest, shape[d..]) == Multi(linearIdx, shape)
    {
      assert shape[d..][1..] == shape[d + 1..];
      ProductPositive(shape[d + 1..]);
      ghost var before := indices;
      indices := indices + [rest / strides[d]];
      rest := rest % strides[d];
      assert before + ([indices[d]] + Multi(rest, shape[d + 1..])) == indices + Multi(rest, shape[d + 1..]);
      d := d + 1;
    }
    assert indices + [] == indices;
  }

  /** `multiToLinearIndex` */
  method MultiToLinearIndex(indices: Index, strides: seq<int>, ghost shape: seq<int>) returns (linearIdx: int)
    requires |indices| == |shape| && StridesOf(strides, shape)
    ensures linearIdx == Linear(indices, shape)
  {
    linearIdx := 0;
    var d := 0;
    while d < |strides|
      invariant 0 <= d <= |strides|
      invariant linearIdx + Linear(indices[d..], shape[d..]) == Linear(indices, shape)
    {
      assert shape[d..][1..] == shape[d + 1..] && indices[d..][1..] == indices[d + 1..];
      linearIdx := linearIdx + indices[d] * strides[d];
      d := d + 1;
    }
  }

  // ---------------------------------------------------------------- the number of elements

  method ProductOf(s: seq<int>) returns (n: int)
    ensures n == Product(s)
  {
    n := 1;
    assert s[0..] == s;
    for d := 0 to |s|
      invariant n * Product(s[d..]) == Product(s)
    {
      assert s[d..][1..] == s[d + 1..];
      ProductStep(n, s[d], Product(s[d + 1..]));
      n := n * s[d];
    }
  }

  lemma ProductStep(n: int, a: int, p: int)
    ensures n * (a * p) == (n * a) * p
  {
  }
}
