/** Folding batch dimensions into an axis and taking them out again,
    `reshapeAxisInto` and `reshapeAxisOutOf`, on row-major tensors. */
module AxisFold {
  import opened RowMajor
  import opened ReshapeLike

  datatype Tensor<T> = Tensor(shape: seq<int>, data: seq<T>)
  {
    ghost predicate Valid() {
      Positive(shape) && |data| == Product(shape)
    }
  }

  function At<T>(t: Tensor<T>, idx: Index): T
    requires t.Valid() && InBounds(idx, t.shape)
  {
    LinearThenMulti(idx, t.shape);
    t.data[Linear(idx, t.shape)]
  }

  /** The same elements at the same indices. */
  lemma SameElements<T>(t: Tensor<T>, u: Tensor<T>)
    requires t.Valid() && u.Valid() && t.shape == u.shape
    requires forall idx | InBounds(idx, t.shape) :: At(t, idx) == At(u, idx)
    ensures t == u
  {
    forall l | 0 <= l < |t.data| ensures t.data[l] == u.data[l] {
      MultiThenLinear(l, t.shape);
      assert At(t, Multi(l, t.shape)) == At(u, Multi(l, t.shape));
    }
  }

  // ---------------------------------------------------------------- transpose and reshape

  /** inv undoes perm. */
  ghost predicate Inverse(perm: seq<nat>, inv: seq<nat>, n: nat) {
    && IsPermutation(perm, n) && IsPermutation(inv, n)
    && forall k | 0 <= k < n :: inv[perm[k]] == k
  }

  /** `getInversePermutation` */
  method GetInversePermutation(perm: seq<nat>) returns (inv: seq<nat>)
    requires IsPermutation(perm, |perm|)
    ensures Inverse(perm, inv, |perm|)
  {
    inv := seq(|perm|, _ => 0);
    for i := 0 to |perm|
      invariant |inv| == |perm| && forall k | 0 <= k < i :: inv[perm[k]] == k
    {
      inv := inv[perm[i] := i];
    }
    InverseIsPermutation(perm, inv);
  }

  lemma InverseIsPermutation(perm: seq<nat>, inv: seq<nat>)
    requires IsPermutation(perm, |perm|) && |inv| == |perm|
    requires forall k | 0 <= k < |perm| :: inv[perm[k]] == k
    ensures IsPermutation(inv, |perm|)
  {
    var n := |perm|;
    forall d: nat | d < n ensures inv[d] < n && perm[inv[d]] == d {
      assert d in perm;
      var k :| 0 <= k < n && perm[k] == d;
    }
    forall k: nat | k < n ensures k in inv { assert inv[perm[k]] == k; }
  }

  lemma PermutedBack(s: seq<int>, perm: seq<nat>, inv: seq<nat>)
    requires Inverse(perm, inv, |s|)
    ensures Permuted(Permuted(s, inv), perm) == s && Permuted(Permuted(s, perm), inv) == s
  {
    forall d: nat | d < |s| ensures perm[inv[d]] == d {
      assert d in perm;
      var k :| 0 <= k < |s| && perm[k] == d;
    }
  }

  lemma PermutedBounds(idx: Index, shape: seq<int>, perm: seq<nat>)
    requires InBounds(idx, shape) && IsPermutation(perm, |shape|)
    ensures InBounds(Permuted(idx, perm), Permuted(shape, perm))
  {
  }

  /** u is the transpose of t: dimension k of u is dimension perm[k] of t. */
  ghost predicate IsTranspose<T>(u: Tensor<T>, t: Tensor<T>, perm: seq<nat>) {
    && t.Valid() && u.Valid() && IsPermutation(perm, |t.shape|) && u.shape == Permuted(t.shape, perm)
    && forall idx | InBounds(idx, t.shape) ::
         InBounds(Permuted(idx, perm), u.shape) && At(u, Permuted(idx, perm)) == At(t, idx)
  }

  lemma {:induction false} ProductConcat(s: seq<int>, t: seq<int>)
    ensures Product(s + t) == Product(s) * Product(t)
  {
    if s == [] {
      assert s + t == t;
    } else {
      ProductConcat(s[1..], t);
      assert (s + t)[1..] == s[1..] + t;
      assert s[0] * (Product(s[1..]) * Product(t)) == (s[0] * Product(s[1..])) * Product(t);
    }
  }

  lemma {:induction false} LinearConcat(a: Index, s: seq<int>, b: Index, t: seq<int>)
    requires |a| == |s| && |b| == |t|
    ensures Linear(a + b, s + t) == Linear(a, s) * Product(t) + Linear(b, t)
  {
    if s == [] {
      assert a + b == b && s + t == t;
    } else {
      LinearConcat(a[1..], s[1..], b, t);
      ProductConcat(s[1..], t);
      assert (s + t)[1..] == s[1..] + t && (a + b)[1..] == a[1..] + b;
      Scaled(a[0], Product(s[1..]), Linear(a[1..], s[1..]), Product(t));
    }
  }

  lemma Scaled(i: int, p: int, l: int, q: int)
    ensures (i * p + l) * q == i * (p * q) + l * q
  {
    assert (i * p) * q == i * (p * q);
  }

  // ---------------------------------------------------------------- folding

  /** The first b entries dropped and the entry of the axis replaced. */
  function Replaced(s: seq<int>, b: nat, dim: nat, g: int): (r: seq<int>)
    requires b + dim < |s|
    ensures |r| == |s| - b && r[dim] == g
    ensures forall k | b <= k < |s| && k != b + dim :: r[k - b] == s[k]
  {
    s[b..b + dim] + [g] + s[b + dim + 1..]
  }

  /** The index of the folded axis: the row-major batch index times the old size,
      plus the old coordinate. */
  function Folded(idx: Index, batch: seq<int>, size: int, dim: nat): (r: Index)
    requires |batch| + dim < |idx|
    ensures |r| == |idx| - |batch|
  {
    Replaced(idx, |batch|, dim, Linear(idx[..|batch|], batch) * size + idx[|batch| + dim])
  }

  function FoldedShape(shape: seq<int>, batch: seq<int>, dim: nat): (r: seq<int>)
    requires |batch| + dim < |shape|
    ensures |r| == |shape| - |batch|
  {
    Replaced(shape, |batch|, dim, shape[|batch| + dim] * Product(batch))
  }

  /** The batch dimensions moved in front of the axis. */
  function Moved3(s: seq<int>, b: nat, dim: nat): (r: seq<int>)
    requires b + dim <= |s|
    ensures |r| == |s|
  {
    s[b..b + dim] + s[..b] + s[b + dim..]
  }

  ghost predicate IsIntoPermutation(perm: seq<nat>, n: nat, b: nat, dim: nat) {
    && b + dim < n && |perm| == n
    && (forall i | 0 <= i < dim :: perm[i] == i + b)
    && (forall i | dim <= i < dim + b :: perm[i] == i - dim)
    && (forall i | b + dim <= i < n :: perm[i] == i)
  }

  ghost predicate IsOutPermutation(perm: seq<nat>, n: nat, b: nat, dim: nat) {
    && b + dim < n && |perm| == n
    && (forall i | 0 <= i < b :: perm[i] == dim + i)
    && (forall i | b <= i < b + dim :: perm[i] == i - b)
    && (forall i | b + dim <= i < n :: perm[i] == i)
  }

  lemma IntoIsPermutation(perm: seq<nat>, n: nat, b: nat, dim: nat)
    requires IsIntoPermutation(perm, n, b, dim)
    ensures IsPermutation(perm, n)
  {
    forall d: nat | d < n ensures d in perm {
      if d < b { assert perm[dim + d] == d; }
      else if d < b + dim { assert perm[d - b] == d; }
      else { assert perm[d] == d; }
    }
  }

  lemma OutIsPermutation(perm: seq<nat>, n: nat, b: nat, dim: nat)
    requires IsOutPermutation(perm, n, b, dim)
    ensures IsPermutation(perm, n)
  {
    forall d: nat | d < n ensures d in perm {
      if d < dim { assert perm[b + d] == d; }
      else if d < b + dim { assert perm[d - dim] == d; }
      else { assert perm[d] == d; }
    }
  }

  /** The two permutations undo each other. */
  lemma FoldPermutations(into: seq<nat>, out: seq<nat>, n: nat, b: nat, dim: nat)
    requires IsIntoPermutation(into, n, b, dim) && IsOutPermutation(out, n, b, dim)
    ensures Inverse(into, out, n) && Inverse(out, into, n)
  {
    IntoIsPermutation(into, n, b, dim);
    OutIsPermutation(out, n, b, dim);
  }

  lemma IntoMoves(s: seq<int>, perm: seq<nat>, b: nat, dim: nat)
    requires IsIntoPermutation(perm, |s|, b, dim)
    ensures IsPermutation(perm, |s|) && Permuted(s, perm) == Moved3(s, b, dim)
  {
    IntoIsPermutation(perm, |s|, b, dim);
  }

  /** The reshape that multiplies the batch sizes into the axis keeps every position. */
  lemma FoldedLinear(idx: Index, shape: seq<int>, batch: seq<int>, dim: nat)
    requires |idx| == |shape| && |batch| + dim < |shape| && shape[..|batch|] == batch
    ensures Linear(Moved3(idx, |batch|, dim), Moved3(shape, |batch|, dim))
         == Linear(Folded(idx, batch, shape[|batch| + dim], dim), FoldedShape(shape, batch, dim))
    ensures Product(Moved3(shape, |batch|, dim)) == Product(FoldedShape(shape, batch, dim))
  {
    hide Product, Linear;
    var b := |batch|;
    var e, x := shape[b + dim], idx[b + dim];
    var i0, i1, i2 := idx[..b], idx[b..b + dim], idx[b + dim + 1..];
    var s1, s2 := shape[b..b + dim], shape[b + dim + 1..];
    assert idx[b + dim..] == [x] + i2 && shape[b + dim..] == [e] + s2;
    assert Moved3(idx, b, dim) == i1 + (i0 + ([x] + i2)) && Moved3(shape, b, dim) == s1 + (batch + ([e] + s2));
    LinearConcat(i1, s1, i0 + ([x] + i2), batch + ([e] + s2));
    LinearConcat(i0, batch, [x] + i2, [e] + s2);
    LinearCons(x, i2, e, s2);
    ProductCons(e, s2);
    ProductConcat(batch, [e] + s2);
    ProductConcat(s1, batch + ([e] + s2));
    var f, g := Linear(i0, batch) * e + x, e * Product(batch);
    assert Folded(idx, batch, e, dim) == i1 + ([f] + i2) && FoldedShape(shape, batch, dim) == s1 + ([g] + s2);
    LinearConcat(i1, s1, [f] + i2, [g] + s2);
    LinearCons(f, i2, g, s2);
    ProductCons(g, s2);
    ProductConcat(s1, [g] + s2);
    Regroup(Linear(i0, batch), e, x, Product(s2), Product(batch));
  }

  lemma Regroup(l: int, e: int, x: int, p: int, q: int)
    ensures l * (e * p) + x * p == (l * e + x) * p && q * (e * p) == (e * q) * p
  {
    assert l * (e * p) == (l * e) * p && q * (e * p) == (q * e) * p;
  }

  // ---------------------------------------------------------------- the operations

  /** The elements of the transpose, in row-major order. */
  method Transpose<T>(t: Tensor<T>, perm: seq<nat>) returns (u: Tensor<T>)
    requires t.Valid() && IsPermutation(perm, |t.shape|)
    ensures IsTranspose(u, t, perm)
  {
    var inv := GetInversePermutation(perm);
    var shape := Permuted(t.shape, perm);
    PermutedBack(t.shape, perm, inv);
    ProductPositive(shape);
    forall l | 0 <= l < Product(shape) ensures InBounds(Permuted(Multi(l, shape), inv), t.shape) {
      MultiThenLinear(l, shape);
      PermutedBounds(Multi(l, shape), shape, inv);
    }
    u := Tensor(shape, seq(Product(shape), l requires 0 <= l < Product(shape) =>
      At(t, Permuted(Multi(l, shape), inv))));
    forall idx | InBounds(idx, t.shape)
      ensures InBounds(Permuted(idx, perm), shape) && At(u, Permuted(idx, perm)) == At(t, idx)
    {
      PermutedBounds(idx, t.shape, perm);
      LinearThenMulti(Permuted(idx, perm), shape);
      PermutedBack(idx, perm, inv);
    }
  }

  /** t folded: every element is found at its folded index. */
  ghost predicate IsFolded<T>(r: Tensor<T>, t: Tensor<T>, batch: seq<int>, dim: nat) {
    && t.Valid() && r.Valid() && |batch| + dim < |t.shape| && t.shape[..|batch|] == batch
    && r.shape == FoldedShape(t.shape, batch, dim)
    && forall idx | InBounds(idx, t.shape) ::
         InBounds(Folded(idx, batch, t.shape[|batch| + dim], dim), r.shape)
         && At(r, Folded(idx, batch, t.shape[|batch| + dim], dim)) == At(t, idx)
  }

  lemma FoldedBounds(idx: Index, shape: seq<int>, batch: seq<int>, dim: nat)
    requires InBounds(idx, shape) && Positive(shape) && |batch| + dim < |shape| && shape[..|batch|] == batch
    ensures InBounds(Folded(idx, batch, shape[|batch| + dim], dim), FoldedShape(shape, batch, dim))
    ensures Positive(FoldedShape(shape, batch, dim))
  {
    var b := |batch|;
    forall k | 0 <= k < b ensures batch[k] > 0 && 0 <= idx[..b][k] < batch[k] {
      assert shape[..b][k] == shape[k];
    }
    LinearThenMulti(idx[..b], batch);
    LinearBound(Linear(idx[..b], batch), Product(batch), idx[b + dim], shape[b + dim]);
    MulPositive(shape[b + dim], Product(batch));
  }

  /** One permutation, before or after the reshape. */
  lemma FoldOfTranspose<T>(t: Tensor<T>, u: Tensor<T>, r: Tensor<T>, perm: seq<nat>, batch: seq<int>, dim: nat)
    requires t.Valid() && |batch| + dim < |t.shape| && t.shape[..|batch|] == batch
    requires IsIntoPermutation(perm, |t.shape|, |batch|, dim) && IsTranspose(u, t, perm)
    requires r == Tensor(FoldedShape(t.shape, batch, dim), u.data)
    ensures IsFolded(r, t, batch, dim)
  {
    var b := |batch|;
    IntoMoves(t.shape, perm, b, dim);
    ShapeFolds(t.shape, batch, dim);
    forall idx | InBounds(idx, t.shape)
      ensures InBounds(Folded(idx, batch, t.shape[b + dim], dim), r.shape)
      ensures At(r, Folded(idx, batch, t.shape[b + dim], dim)) == At(t, idx)
    {
      FoldedBounds(idx, t.shape, batch, dim);
      FoldedLinear(idx, t.shape, batch, dim);
      IntoMoves(idx, perm, b, dim);
      assert At(u, Permuted(idx, perm)) == At(t, idx);
    }
  }

  lemma ShapeFolds(shape: seq<int>, batch: seq<int>, dim: nat)
    requires Positive(shape) && |batch| + dim < |shape| && shape[..|batch|] == batch
    ensures Positive(FoldedShape(shape, batch, dim))
    ensures Product(Moved3(shape, |batch|, dim)) == Product(FoldedShape(shape, batch, dim))
  {
    var zeros: seq<int> := seq(|shape|, _ => 0);
    FoldedBounds(zeros, shape, batch, dim);
    FoldedLinear(zeros, shape, batch, dim);
  }

  method IntoPermutation(n: nat, b: nat, dim: nat) returns (permutation: seq<nat>)
    requires b + dim < n
    ensures IsIntoPermutation(permutation, n, b, dim)
  {
    permutation := seq(n, _ => 0);
    for i := 0 to dim
      invariant |permutation| == n && forall k | 0 <= k < i :: permutation[k] == k + b
    {
      permutation := permutation[i := i + b];
    }
    for i := 0 to b
      invariant |permutation| == n && forall k | 0 <= k < dim :: permutation[k] == k + b
      invariant forall k | dim <= k < dim + i :: permutation[k] == k - dim
    {
      permutation := permutation[dim + i := i];
    }
    for i := b + dim to n
      invariant |permutation| == n && forall k | 0 <= k < dim :: permutation[k] == k + b
      invariant forall k | dim <= k < dim + b :: permutation[k] == k - dim
      invariant forall k | b + dim <= k < i :: permutation[k] == k
    {
      permutation := permutation[i := i];
    }
  }

  method OutPermutation(n: nat, b: nat, dim: nat) returns (permutation: seq<nat>)
    requires b + dim < n
    ensures IsOutPermutation(permutation, n, b, dim)
  {
    permutation := seq(n, _ => 0);
    for i := 0 to b
      invariant |permutation| == n && forall k | 0 <= k < i :: permutation[k] == dim + k
    {
      permutation := permutation[i := dim + i];
    }
    for i := 0 to dim
      invariant |permutation| == n && forall k | 0 <= k < b :: permutation[k] == dim + k
      invariant forall k | b <= k < b + i :: permutation[k] == k - b
    {
      permutation := permutation[b + i := i];
    }
    for i := b + dim to n
      invariant |permutation| == n && forall k | 0 <= k < b :: permutation[k] == dim + k
      invariant forall k | b <= k < b + dim :: permutation[k] == k - b
      invariant forall k | b + dim <= k < i :: permutation[k] == k
    {
      permutation := permutation[i := i];
    }
  }

  /** `reshapeAxisInto` */
  method ReshapeAxisInto<T>(input: Tensor<T>, batch: seq<int>, dim: nat) returns (r: Tensor<T>)
    requires input.Valid() && |batch| + dim < |input.shape| && input.shape[..|batch|] == batch
    ensures IsFolded(r, input, batch, dim)
  {
    var n, b := |input.shape|, |batch|;
    var permutation := IntoPermutation(n, b, dim);
    IntoIsPermutation(permutation, n, b, dim);
    var transposed := Transpose(input, permutation);
    var newShape := input.shape[b..];
    newShape := newShape[dim := newShape[dim] * Product(batch)];
    r := Tensor(newShape, transposed.data);
    assert newShape == FoldedShape(input.shape, batch, dim);
    FoldOfTranspose(input, transposed, r, permutation, batch, dim);
  }

  /** The shape with the batch dimensions taken out of the axis, of which size e is
      left, and put first. */
  function UnfoldedShape(shape: seq<int>, batch: seq<int>, dim: nat, e: int): (r: seq<int>)
    requires dim < |shape|
    ensures |r| == |shape| + |batch|
  {
    batch + shape[..dim] + [e] + shape[dim + 1..]
  }

  lemma UnfoldedFolds(shape: seq<int>, batch: seq<int>, dim: nat, e: int)
    requires Positive(shape) && Positive(batch) && dim < |shape| && e > 0 && shape[dim] == e * Product(batch)
    ensures var u := UnfoldedShape(shape, batch, dim, e);
      Positive(u) && u[..|batch|] == batch && FoldedShape(u, batch, dim) == shape
  {
    hide Product, Replaced;
    ReplacedBack(shape, batch, dim, e);
    UnfoldedPositive(shape, batch, dim, e);
  }

  lemma ReplacedBack(shape: seq<int>, batch: seq<int>, dim: nat, e: int)
    requires dim < |shape|
    ensures var u := UnfoldedShape(shape, batch, dim, e);
      u[..|batch|] == batch && u[|batch| + dim] == e && Replaced(u, |batch|, dim, shape[dim]) == shape
  {
    var b, u := |batch|, UnfoldedShape(shape, batch, dim, e);
    assert u[..b] == batch && u[b..b + dim] == shape[..dim] && u[b + dim] == e && u[b + dim + 1..] == shape[dim + 1..];
  }

  lemma UnfoldedPositive(shape: seq<int>, batch: seq<int>, dim: nat, e: int)
    requires Positive(shape) && Positive(batch) && dim < |shape| && e > 0
    ensures Positive(UnfoldedShape(shape, batch, dim, e))
  {
  }

  lemma ExactShare(s: int, p: int)
    requires s > 0 && p > 0 && s % p == 0
    ensures s / p > 0 && s == (s / p) * p
  {
    var e := s / p;
    assert s == e * p;
    if e <= 0 { MulMonotone(e, 0, p); }
  }

  /** The size of the axis divided, and the batch sizes inserted before it. */
  method SplitShape(shape: seq<int>, batch: seq<int>, dim: nat, e: int) returns (r: seq<int>)
    requires dim < |shape|
    ensures r == Moved3(UnfoldedShape(shape, batch, dim, e), |batch|, dim)
  {
    r := shape[dim := e];
    for i := 0 to |batch|
      invariant r == shape[..dim] + batch[..i] + [e] + shape[dim + 1..]
    {
      r := r[..dim + i] + [batch[i]] + r[dim + i..];
    }
    SplitIsMoved(shape, batch, dim, e);
    assert batch[..|batch|] == batch;
  }

  lemma SplitIsMoved(shape: seq<int>, batch: seq<int>, dim: nat, e: int)
    requires dim < |shape|
    ensures shape[..dim] + batch + [e] + shape[dim + 1..] == Moved3(UnfoldedShape(shape, batch, dim, e), |batch|, dim)
  {
    var b, u := |batch|, UnfoldedShape(shape, batch, dim, e);
    assert u[b..b + dim] == shape[..dim] && u[..b] == batch && u[b + dim..] == [e] + shape[dim + 1..];
  }

  lemma OutMoves(s: seq<int>, perm: seq<nat>, into: seq<nat>, b: nat, dim: nat)
    requires IsOutPermutation(perm, |s|, b, dim) && IsIntoPermutation(into, |s|, b, dim)
    ensures IsPermutation(perm, |s|) && IsPermutation(into, |s|)
    ensures Permuted(Moved3(s, b, dim), perm) == s && Permuted(Permuted(s, perm), into) == s
  {
    FoldPermutations(into, perm, |s|, b, dim);
    IntoMoves(s, into, b, dim);
    PermutedBack(s, into, perm);
  }

  /** A transpose read backwards. */
  lemma TransposeBack<T>(u: Tensor<T>, t: Tensor<T>, perm: seq<nat>, inv: seq<nat>)
    requires IsTranspose(u, t, perm) && Inverse(perm, inv, |t.shape|)
    ensures IsTranspose(t, u, inv)
  {
    PermutedBack(t.shape, perm, inv);
    forall idx | InBounds(idx, u.shape)
      ensures InBounds(Permuted(idx, inv), t.shape) && At(t, Permuted(idx, inv)) == At(u, idx)
    {
      PermutedBounds(idx, u.shape, inv);
      PermutedBack(idx, perm, inv);
    }
  }

  /** `reshapeAxisOutOf`, where the batch sizes divide the axis. */
  method ReshapeAxisOutOf<T>(input: Tensor<T>, batch: seq<int>, dim: nat) returns (r: Tensor<T>)
    requires input.Valid() && dim < |input.shape| && Positive(batch)
    requires Product(batch) != 0 && input.shape[dim] % Product(batch) == 0
    ensures r.shape == UnfoldedShape(input.shape, batch, dim, input.shape[dim] / Product(batch))
    ensures IsFolded(input, r, batch, dim)
  {
    hide IsTranspose, IsFolded, UnfoldedShape, Moved3, FoldedShape, Inverse, IsOutPermutation, IsIntoPermutation, Permuted, Product;
    var b := |batch|;
    ProductPositive(batch);
    ExactShare(input.shape[dim], Product(batch));
    var e := input.shape[dim] / Product(batch);
    var inputShape := SplitShape(input.shape, batch, dim, e);
    ghost var shape := UnfoldedShape(input.shape, batch, dim, e);
    UnfoldedFolds(input.shape, batch, dim, e);
    ShapeFolds(shape, batch, dim);
    MovedPositive(shape, b, dim);
    var reshaped := Tensor(inputShape, input.data);
    var n := |inputShape|;
    var permutation := OutPermutation(n, b, dim);
    OutIsPermutation(permutation, n, b, dim);
    r := Transpose(reshaped, permutation);
    ghost var into := IntoList(n, b, dim);
    OutMoves(shape, permutation, into, b, dim);
    FoldPermutations(into, permutation, n, b, dim);
    TransposeFacts(r, reshaped, permutation);
    TransposeBack(r, reshaped, permutation, into);
    FoldOfTranspose(r, reshaped, input, into, batch, dim);
  }

  lemma TransposeFacts<T>(u: Tensor<T>, t: Tensor<T>, perm: seq<nat>)
    requires IsTranspose(u, t, perm)
    ensures t.Valid() && u.Valid() && IsPermutation(perm, |t.shape|) && u.shape == Permuted(t.shape, perm)
  {
  }

  lemma MovedPositive(s: seq<int>, b: nat, dim: nat)
    requires Positive(s) && b + dim <= |s|
    ensures Positive(Moved3(s, b, dim))
  {
  }

  ghost function IntoList(n: nat, b: nat, dim: nat): (perm: seq<nat>)
    requires b + dim < n
    ensures IsIntoPermutation(perm, n, b, dim)
  {
    seq(n, i requires 0 <= i < n => if i < dim then i + b else if i < dim + b then i - dim else i)
  }

  // ---------------------------------------------------------------- they undo each other

  /** Taking out what was folded in gives the tensor back. */
  lemma OutOfInto<T>(t: Tensor<T>, r: Tensor<T>, t': Tensor<T>, batch: seq<int>, dim: nat)
    requires IsFolded(r, t, batch, dim)
    requires IsFolded(r, t', batch, dim) && Product(batch) > 0 && dim < |r.shape|
    requires t'.shape == UnfoldedShape(r.shape, batch, dim, r.shape[dim] / Product(batch))
    ensures t' == t
  {
    var b, e := |batch|, t.shape[|batch| + dim];
    Divided(e, Product(batch));
    ShapeBack(t.shape, batch, dim);
    forall idx | InBounds(idx, t.shape) ensures At(t, idx) == At(t', idx) {
      assert At(r, Folded(idx, batch, e, dim)) == At(t, idx);
    }
    SameElements(t, t');
  }

  lemma ShapeBack(shape: seq<int>, batch: seq<int>, dim: nat)
    requires |batch| + dim < |shape| && shape[..|batch|] == batch
    ensures FoldedShape(shape, batch, dim)[dim] == shape[|batch| + dim] * Product(batch)
    ensures UnfoldedShape(FoldedShape(shape, batch, dim), batch, dim, shape[|batch| + dim]) == shape
  {
    hide Product, Replaced;
    SliceBack(shape, |batch|, dim, shape[|batch| + dim] * Product(batch));
  }

  lemma SliceBack(s: seq<int>, b: nat, dim: nat, g: int)
    requires b + dim < |s|
    ensures var f := Replaced(s, b, dim, g);
      s[..b] + f[..dim] + [s[b + dim]] + f[dim + 1..] == s
  {
    var f := Replaced(s, b, dim, g);
    assert f[..dim] == s[b..b + dim] && f[dim + 1..] == s[b + dim + 1..];
    assert s == s[..b] + s[b..b + dim] + [s[b + dim]] + s[b + dim + 1..];
  }

  lemma Divided(e: int, p: int)
    requires p > 0
    ensures (e * p) / p == e
  {
    QuotientUnique(e, 0, p);
  }

  /** Where an index of the folded tensor comes from. */
  ghost function Unfolded(j: Index, batch: seq<int>, size: int, dim: nat): (idx: Index)
    requires dim < |j| && size != 0 && Positive(batch)
    ensures |idx| == |j| + |batch|
  {
    Multi(j[dim] / size, batch) + j[..dim] + [j[dim] % size] + j[dim + 1..]
  }

  lemma UnfoldedIndex(j: Index, shape: seq<int>, batch: seq<int>, dim: nat)
    requires Positive(shape) && |batch| + dim < |shape| && shape[..|batch|] == batch
    requires InBounds(j, FoldedShape(shape, batch, dim))
    ensures Positive(batch)
    ensures var idx := Unfolded(j, batch, shape[|batch| + dim], dim);
      InBounds(idx, shape) && Folded(idx, batch, shape[|batch| + dim], dim) == j
  {
    hide Product, Linear, Multi, Replaced;
    var b, e := |batch|, shape[|batch| + dim];
    forall k | 0 <= k < b ensures batch[k] > 0 { assert shape[..b][k] == shape[k]; }
    assert 0 <= j[dim] < FoldedShape(shape, batch, dim)[dim] == e * Product(batch);
    Commute(e, Product(batch));
    QuotientBound(j[dim], Product(batch), e);
    MultiThenLinear(j[dim] / e, batch);
    var idx, m := Unfolded(j, batch, e, dim), Multi(j[dim] / e, batch);
    JoinBack(m, j, dim, j[dim] % e);
    UnfoldedBounds(m, j, shape, batch, dim, j[dim] % e);
  }

  lemma Commute(a: int, b: int)
    ensures a * b == b * a
  {
  }

  lemma UnfoldedBounds(m: Index, j: Index, shape: seq<int>, batch: seq<int>, dim: nat, x: int)
    requires |batch| + dim < |shape| && shape[..|batch|] == batch && InBounds(m, batch)
    requires InBounds(j, FoldedShape(shape, batch, dim)) && 0 <= x < shape[|batch| + dim]
    ensures InBounds(m + j[..dim] + [x] + j[dim + 1..], shape)
  {
    hide Product, Replaced;
    var idx, b := m + j[..dim] + [x] + j[dim + 1..], |batch|;
    forall k | 0 <= k < |shape| ensures 0 <= idx[k] < shape[k] {
      if k < b { assert batch[k] == shape[k]; }
      else if k != b + dim { assert idx[k] == j[k - b] < FoldedShape(shape, batch, dim)[k - b] == shape[k]; }
    }
  }

  lemma JoinBack(m: Index, j: Index, dim: nat, x: int)
    requires dim < |j|
    ensures var idx, b := m + j[..dim] + [x] + j[dim + 1..], |m|;
      && |idx| == |j| + b && idx[..b] == m && idx[b..b + dim] == j[..dim] && idx[b + dim] == x
      && Replaced(idx, b, dim, j[dim]) == j
  {
  }

  /** Folding in what was taken out gives the tensor back. */
  lemma IntoOutOf<T>(u: Tensor<T>, t: Tensor<T>, u': Tensor<T>, batch: seq<int>, dim: nat)
    requires IsFolded(u, t, batch, dim) && IsFolded(u', t, batch, dim)
    ensures u' == u
  {
    var e := t.shape[|batch| + dim];
    forall j | InBounds(j, u.shape) ensures At(u, j) == At(u', j) {
      UnfoldedIndex(j, t.shape, batch, dim);
      var idx := Unfolded(j, batch, e, dim);
      assert At(u, Folded(idx, batch, e, dim)) == At(t, idx);
    }
    SameElements(u, u');
  }
}
