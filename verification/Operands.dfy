/** Tensor expressions and their concatenation. Each element of an expression is
    named by the element of a leaf that it is, so equal names are equal values
    whatever the leaves hold. */
module Operands {
  import opened RowMajor
  import opened ReshapeLike

  datatype Operand =
    | Leaf(id: int, dims: seq<int>)
    | Slice(src: Operand, starts: seq<int>, limits: seq<int>, strides: seq<int>)
    | Wrap(src: Operand, lhs: int, rhs: int, along: nat)
    | Transpose(src: Operand, perm: seq<nat>)
    | Reshape(src: Operand, dims: seq<int>)
    | Broadcast(src: Operand, places: seq<nat>, dims: seq<int>)

  datatype Cell = Cell(id: int, at: Index)

  // ---------------------------------------------------------------- meaning

  /** The number of elements start, start + stride, ... below the limit. */
  function Extent(start: int, limit: int, stride: int): int
    requires stride > 0
  {
    (limit - start + stride - 1) / stride
  }

  ghost predicate NonNegative(dims: seq<int>) {
    forall k | 0 <= k < |dims| :: dims[k] >= 0
  }

  ghost predicate Valid(e: Operand) {
    match e
    case Leaf(_, dims) => NonNegative(dims)
    case Slice(src, starts, limits, strides) =>
      && Valid(src) && |starts| == |limits| == |strides| == |Shape(src)|
      && forall k | 0 <= k < |starts| :: 0 <= starts[k] <= limits[k] <= Shape(src)[k] && strides[k] > 0
    case Wrap(src, lhs, rhs, along) =>
      && Valid(src) && along < |Shape(src)|
      && 0 <= lhs <= Shape(src)[along] && 0 <= rhs <= Shape(src)[along]
    case Transpose(src, perm) => Valid(src) && IsPermutation(perm, |Shape(src)|)
    case Reshape(src, dims) => Valid(src) && NonNegative(dims) && Product(dims) == Product(Shape(src))
    case Broadcast(src, places, dims) =>
      && Valid(src) && NonNegative(dims) && |places| == |Shape(src)| && Distinct(places)
      && forall k | 0 <= k < |places| ::
           places[k] < |dims| && (Shape(src)[k] == 1 || Shape(src)[k] == dims[places[k]])
  }

  function Shape(e: Operand): seq<int> {
    match e
    case Leaf(_, dims) => dims
    case Slice(src, starts, limits, strides) =>
      seq(|starts|, k requires 0 <= k < |starts| =>
        if k < |limits| && k < |strides| && strides[k] > 0 then Extent(starts[k], limits[k], strides[k]) else 0)
    case Wrap(src, lhs, rhs, along) =>
      var s := Shape(src);
      if along < |s| then s[along := s[along] + lhs + rhs] else s
    case Transpose(src, perm) =>
      var s := Shape(src);
      seq(|perm|, k requires 0 <= k < |perm| => if perm[k] < |s| then s[perm[k]] else 0)
    case Reshape(_, dims) => dims
    case Broadcast(_, _, dims) => dims
  }

  /** Where an index of a slice lies in its source. */
  function Source(starts: seq<int>, strides: seq<int>, idx: Index): (r: Index)
    requires |starts| == |strides| == |idx|
    ensures |r| == |idx|
  {
    seq(|idx|, k requires 0 <= k < |idx| => starts[k] + strides[k] * idx[k])
  }

  /** Wrapped dimension: the last lhs elements, all elements, the first rhs elements. */
  function Unwrapped(j: int, n: int, lhs: int): int {
    if j < lhs then n - lhs + j else if j < lhs + n then j - lhs else j - lhs - n
  }

  /** The position of d in the permutation. */
  function Place(perm: seq<nat>, d: nat): (k: nat)
    ensures d in perm ==> k < |perm| && perm[k] == d
  {
    if perm == [] then 0 else if perm[0] == d then 0 else 1 + Place(perm[1..], d)
  }

  /** The index of the source that a transpose reads. */
  function Unpermuted(idx: Index, perm: seq<nat>): (r: Index)
    ensures |r| == |idx|
  {
    seq(|idx|, d => if 0 <= d && Place(perm, d) < |idx| then idx[Place(perm, d)] else 0)
  }

  /** The index over another shape at the same row-major position. */
  function Reindexed(idx: Index, dims: seq<int>, shape: seq<int>): (r: Index)
    requires |idx| == |dims|
    ensures |r| == |shape|
  {
    if Positive(shape) then Multi(Linear(idx, dims), shape) else seq(|shape|, _ => 0)
  }

  ghost function Element(e: Operand, idx: Index): Cell
    requires Valid(e) && |idx| == |Shape(e)|
  {
    match e
    case Leaf(id, _) => Cell(id, idx)
    case Slice(src, starts, limits, strides) => Element(src, Source(starts, strides, idx))
    case Wrap(src, lhs, rhs, along) =>
      Element(src, idx[along := Unwrapped(idx[along], Shape(src)[along], lhs)])
    case Transpose(src, perm) => Element(src, Unpermuted(idx, perm))
    case Reshape(src, dims) => Element(src, Reindexed(idx, dims, Shape(src)))
    case Broadcast(src, places, dims) => Element(src, Read(places, Shape(src), idx))
  }

  // ---------------------------------------------------------------- concatenation

  /** The operands of a concatenation along d: they differ in dimension d only. */
  ghost predicate Joinable(ops: seq<Operand>, d: nat, rest: seq<int>) {
    d < |rest| &&
    forall k | 0 <= k < |ops| :: Valid(ops[k]) && |Shape(ops[k])| == |rest| && Shape(ops[k])[d := 0] == rest[d := 0]
  }

  ghost function Total(ops: seq<Operand>, d: nat, rest: seq<int>): int
    requires Joinable(ops, d, rest)
  {
    if ops == [] then 0 else Shape(ops[0])[d] + Total(ops[1..], d, rest)
  }

  ghost function Concatenated(ops: seq<Operand>, d: nat, rest: seq<int>, idx: Index): Cell
    requires Joinable(ops, d, rest) && |idx| == |rest| && idx[d] < Total(ops, d, rest)
  {
    if ops == [] then Cell(0, idx)
    else
      var n := Shape(ops[0])[d];
      if idx[d] < n then Element(ops[0], idx) else Concatenated(ops[1..], d, rest, idx[d := idx[d] - n])
  }

  /** Both lists concatenate to the same tensor. */
  ghost predicate SameTensor(a: seq<Operand>, b: seq<Operand>, d: nat, rest: seq<int>) {
    && Joinable(a, d, rest) && Joinable(b, d, rest) && Total(a, d, rest) == Total(b, d, rest)
    && forall idx: Index | |idx| == |rest| && InBounds(idx, rest[d := Total(a, d, rest)]) ::
         Concatenated(a, d, rest, idx) == Concatenated(b, d, rest, idx)
  }

  lemma ShapeNonNegative(e: Operand)
    requires Valid(e)
    ensures NonNegative(Shape(e))
  {
    match e
    case Slice(_, _, _, _) =>
      forall k | 0 <= k < |Shape(e)| ensures Shape(e)[k] >= 0 {
        ExtentNonNegative(e.starts[k], e.limits[k], e.strides[k]);
      }
    case Wrap(src, _, _, _) => ShapeNonNegative(src);
    case Transpose(src, _) => ShapeNonNegative(src);
    case _ =>
  }

  lemma ExtentNonNegative(start: int, limit: int, stride: int)
    requires start <= limit && stride > 0
    ensures Extent(start, limit, stride) >= 0
  {
  }

  lemma JoinableConcat(a: seq<Operand>, b: seq<Operand>, d: nat, rest: seq<int>)
    requires Joinable(a, d, rest) && Joinable(b, d, rest)
    ensures Joinable(a + b, d, rest)
  {
    hide Valid, Shape;
  }

  lemma {:induction false} ConcatSplit(a: seq<Operand>, b: seq<Operand>, d: nat, rest: seq<int>, idx: Index)
    requires Joinable(a, d, rest) && Joinable(b, d, rest) && |idx| == |rest| && 0 <= idx[d]
    ensures Joinable(a + b, d, rest) && Total(a + b, d, rest) == Total(a, d, rest) + Total(b, d, rest)
    ensures 0 <= Total(a, d, rest)
    ensures idx[d] < Total(a + b, d, rest) ==>
      Concatenated(a + b, d, rest, idx)
      == if idx[d] < Total(a, d, rest) then Concatenated(a, d, rest, idx)
         else Concatenated(b, d, rest, idx[d := idx[d] - Total(a, d, rest)])
    decreases |a|
  {
    hide Valid, Shape, Element;
    JoinableConcat(a, b, d, rest);
    if a == [] {
      assert a + b == b && idx[d := idx[d] - 0] == idx;
    } else {
      var n := Shape(a[0])[d];
      ShapeNonNegative(a[0]);
      assert (a + b)[0] == a[0] && (a + b)[1..] == a[1..] + b;
      ConcatSplit(a[1..], b, d, rest, idx[d := if idx[d] < n then 0 else idx[d] - n]);
      if idx[d] >= n {
        var i1 := idx[d := idx[d] - n];
        assert i1[d := i1[d] - Total(a[1..], d, rest)] == idx[d := idx[d] - Total(a, d, rest)];
      }
    }
  }

  lemma InShift(idx: Index, d: nat, rest: seq<int>, n: int, m: int)
    requires d < |rest| == |idx| && InBounds(idx, rest[d := n + m])
    ensures idx[d] < n ==> InBounds(idx, rest[d := n])
    ensures n <= idx[d] ==> InBounds(idx[d := idx[d] - n], rest[d := m])
  {
  }

  /** Equal parts concatenate to equal tensors. */
  lemma SameConcat(a: seq<Operand>, a': seq<Operand>, b: seq<Operand>, b': seq<Operand>, d: nat, rest: seq<int>)
    requires SameTensor(a, a', d, rest) && SameTensor(b, b', d, rest)
    ensures SameTensor(a + b, a' + b', d, rest)
  {
    hide Valid, Shape, Element, Total, Concatenated, Joinable;
    Zeroes(a, b, d, rest);
    ConcatSplit(a, b, d, rest, seq(|rest|, _ => 0));
    ConcatSplit(a', b', d, rest, seq(|rest|, _ => 0));
    forall idx: Index | |idx| == |rest| && InBounds(idx, rest[d := Total(a + b, d, rest)])
      ensures Concatenated(a + b, d, rest, idx) == Concatenated(a' + b', d, rest, idx)
    {
      InShift(idx, d, rest, Total(a, d, rest), Total(b, d, rest));
      ConcatSplit(a, b, d, rest, idx);
      ConcatSplit(a', b', d, rest, idx);
    }
  }

  lemma Zeroes(a: seq<Operand>, b: seq<Operand>, d: nat, rest: seq<int>)
    requires Joinable(a, d, rest)
    ensures d < |rest|
  {
  }

  lemma SameRefl(a: seq<Operand>, d: nat, rest: seq<int>)
    requires Joinable(a, d, rest)
    ensures SameTensor(a, a, d, rest)
  {
  }

  lemma SameTrans(a: seq<Operand>, b: seq<Operand>, c: seq<Operand>, d: nat, rest: seq<int>)
    requires SameTensor(a, b, d, rest) && SameTensor(b, c, d, rest)
    ensures SameTensor(a, c, d, rest)
  {
    hide Joinable, Total, Concatenated;
  }

  lemma OneOperand(e: Operand, d: nat, rest: seq<int>, idx: Index)
    requires Joinable([e], d, rest) && |idx| == |rest|
    ensures d < |rest| == |Shape(e)| && Valid(e) && Total([e], d, rest) == Shape(e)[d]
    ensures idx[d] < Shape(e)[d] ==> Concatenated([e], d, rest, idx) == Element(e, idx)
  {
    assert Valid([e][0]) && [e][1..] == [];
  }

  lemma Bounds(ops: seq<Operand>, d: nat, rest: seq<int>)
    requires Joinable(ops, d, rest)
    ensures d < |rest| && forall k | 0 <= k < |ops| :: Valid(ops[k]) && |Shape(ops[k])| == |rest|
  {
  }

  lemma SliceElement(s: Operand, idx: Index)
    requires s.Slice? && Valid(s) && |idx| == |s.starts|
    ensures |Shape(s)| == |idx| == |s.strides| == |Shape(s.src)| && Valid(s.src)
    ensures Element(s, idx) == Element(s.src, Source(s.starts, s.strides, idx))
  {
  }

  lemma PrefixJoinable(ops: seq<Operand>, i: nat, d: nat, rest: seq<int>)
    requires Joinable(ops, d, rest) && i < |ops|
    ensures Joinable(ops[..i], d, rest) && Joinable([ops[i]], d, rest) && ops[..i + 1] == ops[..i] + [ops[i]]
  {
    hide Valid, Shape;
  }

  lemma SameSides(a: seq<Operand>, b: seq<Operand>, d: nat, rest: seq<int>)
    requires SameTensor(a, b, d, rest)
    ensures Joinable(a, d, rest) && Joinable(b, d, rest) && SameTensor(b, a, d, rest)
  {
    hide Total, Concatenated, Joinable;
  }

  lemma Divides(x: int, e: int, r: int, s: int)
    requires s > 0 && 0 <= r < s && x == s * e + r
    ensures x / s == e
  {
    var f, t := x / s, x % s;
    assert s * (f - e) == r - t;
    if f > e { Above(s, f - e); }
    if f < e { Above(s, e - f); }
  }

  lemma Above(s: int, z: int)
    requires s > 0 && z >= 1
    ensures s * z >= s
  {
  }
}
