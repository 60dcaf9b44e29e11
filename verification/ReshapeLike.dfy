/** When a change of dimensions leaves the row-major data as it is: transposes and
    broadcasts that only move dimensions of size one, and reshapes that could be
    such transposes. */
module ReshapeLike {
  import opened RowMajor

  // ---------------------------------------------------------------- dimensions of size one

  /** The positions of the dimensions that are not of size one, in order. */
  function Positions(shape: seq<int>): (p: seq<nat>)
    ensures forall k | 0 <= k < |p| :: p[k] < |shape| && shape[p[k]] != 1
    ensures Sorted(p)
  {
    if shape == [] then []
    else
      var n := |shape| - 1;
      Positions(shape[..n]) + if shape[n] != 1 then [n] else []
  }

  ghost predicate Distinct(p: seq<nat>) {
    forall k, l | 0 <= k < l < |p| :: p[k] != p[l]
  }

  lemma DistinctAppend(p: seq<nat>, e: nat)
    requires Distinct(p) && e !in p
    ensures Distinct(p + [e])
  {
  }

  ghost predicate Sorted(p: seq<int>) {
    forall k, l | 0 <= k < l < |p| :: p[k] < p[l]
  }

  function Picked(s: seq<int>, p: seq<nat>): (r: seq<int>)
    requires forall k | 0 <= k < |p| :: p[k] < |s|
    ensures |r| == |p|
  {
    seq(|p|, k requires 0 <= k < |p| => s[p[k]])
  }

  /** The sizes other than one. */
  function NonUnit(shape: seq<int>): (r: seq<int>) {
    if shape == [] then []
    else (if shape[0] != 1 then [shape[0]] else []) + NonUnit(shape[1..])
  }

  /** The coordinates along them. */
  function Kept(shape: seq<int>, idx: Index): (r: Index)
    requires |idx| == |shape|
    ensures |r| == |NonUnit(shape)|
  {
    if shape == [] then []
    else (if shape[0] != 1 then [idx[0]] else []) + Kept(shape[1..], idx[1..])
  }

  lemma ProductCons(e: int, s: seq<int>)
    ensures Product([e] + s) == e * Product(s)
  {
    assert ([e] + s)[1..] == s;
  }

  lemma LinearCons(j: int, idx: Index, e: int, s: seq<int>)
    requires |idx| == |s|
    ensures Linear([j] + idx, [e] + s) == j * Product(s) + Linear(idx, s)
  {
    assert ([e] + s)[1..] == s && ([j] + idx)[1..] == idx;
  }

  lemma {:induction false} ProductNonUnit(shape: seq<int>)
    ensures Product(NonUnit(shape)) == Product(shape)
  {
    if shape != [] {
      ProductNonUnit(shape[1..]);
      ProductCons(shape[0], NonUnit(shape[1..]));
      assert [] + NonUnit(shape[1..]) == NonUnit(shape[1..]);
    }
  }

  /** Dimensions of size one do not count for the row-major position. */
  lemma {:induction false} LinearKept(shape: seq<int>, idx: Index)
    requires InBounds(idx, shape)
    ensures Linear(idx, shape) == Linear(Kept(shape, idx), NonUnit(shape))
  {
    if shape != [] {
      hide Product, Linear;
      var s, i := shape[1..], idx[1..];
      LinearKept(s, i);
      ProductNonUnit(s);
      LinearCons(idx[0], Kept(s, i), shape[0], NonUnit(s));
      LinearCons(idx[0], i, shape[0], s);
      FirstAndRest(shape);
      FirstAndRest(idx);
      if shape[0] == 1 {
        NothingAppend(NonUnit(s));
        NothingAppend(Kept(s, i));
        TimesZero(idx[0], Product(s));
      }
    }
  }

  lemma FirstAndRest(s: seq<int>)
    requires s != []
    ensures s == [s[0]] + s[1..]
  {
  }

  lemma NothingAppend(s: seq<int>)
    ensures [] + s == s
  {
  }

  lemma TimesZero(i: int, p: int)
    ensures i == 0 ==> i * p == 0
  {
  }

  lemma {:induction false} NonUnitAppend(s: seq<int>, e: int, idx: Index, j: int)
    requires |idx| == |s|
    ensures NonUnit(s + [e]) == NonUnit(s) + (if e != 1 then [e] else [])
    ensures Kept(s + [e], idx + [j]) == Kept(s, idx) + (if e != 1 then [j] else [])
  {
    if s != [] {
      NonUnitAppend(s[1..], e, idx[1..], j);
      assert (s + [e])[1..] == s[1..] + [e] && (idx + [j])[1..] == idx[1..] + [j];
    }
  }

  /** Both are read off at the positions. */
  lemma {:induction false} PickedPositions(shape: seq<int>, idx: Index)
    requires |idx| == |shape|
    ensures NonUnit(shape) == Picked(shape, Positions(shape)) && Kept(shape, idx) == Picked(idx, Positions(shape))
    decreases |shape|
  {
    if shape != [] {
      var n := |shape| - 1;
      hide Sorted;
      var s, i := shape[..n], idx[..n];
      var p := Positions(s);
      PickedPositions(s, i);
      assert shape == s + [shape[n]] && idx == i + [idx[n]];
      NonUnitAppend(s, shape[n], i, idx[n]);
      PickedPrefix(shape, p, n);
      PickedPrefix(idx, p, n);
      PickedNext(shape, p, n);
      PickedNext(idx, p, n);
      AppendNothing(NonUnit(s));
      AppendNothing(Kept(s, i));
      assert shape[n] == 1 ==> Positions(shape) == p;
    }
  }

  lemma AppendNothing(s: seq<int>)
    ensures s + [] == s
  {
  }

  lemma PickedNext(s: seq<int>, p: seq<nat>, e: nat)
    requires (forall k | 0 <= k < |p| :: p[k] < |s|) && e < |s|
    ensures Picked(s, p + [e]) == Picked(s, p) + [s[e]]
  {
  }

  lemma PickedPrefix(s: seq<int>, p: seq<nat>, n: nat)
    requires n <= |s| && forall k | 0 <= k < |p| :: p[k] < n
    ensures Picked(s, p) == Picked(s[..n], p)
  {
  }

  lemma {:induction false} AllPositions(shape: seq<int>, d: nat)
    requires d < |shape| && shape[d] != 1
    ensures d in Positions(shape)
    decreases |shape|
  {
    var n := |shape| - 1;
    if d < n { AllPositions(shape[..n], d); }
  }

  /** A sorted list is determined by its members. */
  lemma {:induction false} SortedUnique(p: seq<nat>, q: seq<nat>)
    requires Sorted(p) && Sorted(q) && forall x :: x in p <==> x in q
    ensures p == q
    decreases |p|
  {
    if p == [] {
      HasMember(q);
    } else {
      assert p[|p| - 1] in q;
      var m, n := |p| - 1, |q| - 1;
      LastIsLargest(p, q[n]);
      LastIsLargest(q, p[m]);
      forall x ensures x in p[..m] <==> x in q[..n] {
        WithoutLast(p, x);
        WithoutLast(q, x);
      }
      SortedUnique(p[..m], q[..n]);
      assert p == p[..m] + [p[m]] && q == q[..n] + [q[n]];
    }
  }

  lemma HasMember(q: seq<nat>)
    ensures q == [] || exists x :: x in q
  {
    assert q == [] || q[0] in q;
  }

  lemma LastIsLargest(p: seq<nat>, x: nat)
    requires Sorted(p) && x in p
    ensures x <= p[|p| - 1]
  {
    var k :| 0 <= k < |p| && p[k] == x;
    if k < |p| - 1 { assert p[k] < p[|p| - 1]; }
  }

  lemma WithoutLast(p: seq<nat>, x: nat)
    requires Sorted(p) && p != []
    ensures x in p[..|p| - 1] <==> x in p && x != p[|p| - 1]
  {
    assert p == p[..|p| - 1] + [p[|p| - 1]];
  }

  // ---------------------------------------------------------------- transposes

  ghost predicate IsPermutation(perm: seq<nat>, n: nat) {
    && |perm| == n && (forall k | 0 <= k < n :: perm[k] < n) && Distinct(perm)
    && (forall d: nat | d < n :: d in perm)
  }

  function Permuted(s: seq<int>, perm: seq<nat>): (r: seq<int>)
    requires forall k | 0 <= k < |perm| :: perm[k] < |s|
    ensures |r| == |perm|
  {
    Picked(s, perm)
  }

  /** The dimensions that are not of size one, in the order of the permutation. */
  function Moved(perm: seq<nat>, shape: seq<int>): (r: seq<nat>)
    requires forall k | 0 <= k < |perm| :: perm[k] < |shape|
    ensures forall k | 0 <= k < |r| :: r[k] < |shape|
    ensures forall d :: d in r <==> d in perm && shape[d] != 1
  {
    if perm == [] then []
    else
      var n := |perm| - 1;
      var m := Moved(perm[..n], shape);
      assert perm == perm[..n] + [perm[n]];
      if shape[perm[n]] != 1 then m + [perm[n]] else m
  }

  /** `OpIsReshapeLike` for a transpose. */
  method TransposeIsReshapeLike(perm: seq<nat>, inShape: seq<int>) returns (r: bool)
    requires IsPermutation(perm, |inShape|)
    ensures r <==> Sorted(Moved(perm, inShape))
  {
    var nonZeroPerms: seq<nat> := [];
    for i := 0 to |perm|
      invariant nonZeroPerms == Moved(perm[..i], inShape)
    {
      assert perm[..i + 1][..i] == perm[..i];
      if inShape[perm[i]] != 1 {
        nonZeroPerms := nonZeroPerms + [perm[i]];
      }
    }
    assert perm[..|perm|] == perm;
    r := true;
    MovedDistinct(perm, inShape);
    var i := 1;
    while i < |nonZeroPerms|
      invariant 1 <= i && (i <= |nonZeroPerms| || nonZeroPerms == [])
      invariant r <==> Sorted(nonZeroPerms[..if nonZeroPerms == [] then 0 else i])
    {
      SortedNext(nonZeroPerms, i);
      if nonZeroPerms[i] < nonZeroPerms[i - 1] {
        r := false;
      }
      i := i + 1;
    }
    assert nonZeroPerms[..|nonZeroPerms|] == nonZeroPerms;
  }

  lemma SortedNext(p: seq<nat>, i: nat)
    requires 0 < i < |p| && p[i] != p[i - 1]
    ensures Sorted(p[..i + 1]) <==> Sorted(p[..i]) && p[i - 1] < p[i]
  {
    if Sorted(p[..i]) && p[i - 1] < p[i] {
      var u := p[..i + 1];
      forall k, l | 0 <= k < l < |u| ensures u[k] < u[l] {
        if l < i { assert p[..i][k] < p[..i][l]; }
        else if k < i - 1 { assert p[..i][k] < p[..i][i - 1]; }
      }
    }
    if Sorted(p[..i + 1]) {
      assert p[..i + 1][i - 1] < p[..i + 1][i];
      forall k, l | 0 <= k < l < i ensures p[..i][k] < p[..i][l] { assert p[..i + 1][k] < p[..i + 1][l]; }
    }
  }

  lemma {:induction false} MovedDistinct(perm: seq<nat>, shape: seq<int>)
    requires forall k | 0 <= k < |perm| :: perm[k] < |shape|
    requires Distinct(perm)
    ensures Distinct(Moved(perm, shape))
    decreases |perm|
  {
    if perm != [] {
      var n := |perm| - 1;
      MovedDistinct(perm[..n], shape);
      assert perm[n] !in perm[..n];
      if shape[perm[n]] != 1 { DistinctAppend(Moved(perm[..n], shape), perm[n]); }
    }
  }

  /** Along the moved dimensions the transposed shape and index are read off. */
  lemma {:induction false} KeptMoved(perm: seq<nat>, shape: seq<int>, idx: Index)
    requires (forall k | 0 <= k < |perm| :: perm[k] < |shape|) && |idx| == |shape|
    ensures NonUnit(Permuted(shape, perm)) == Picked(shape, Moved(perm, shape))
    ensures Kept(Permuted(shape, perm), Permuted(idx, perm)) == Picked(idx, Moved(perm, shape))
    decreases |perm|
  {
    if perm != [] {
      var n := |perm| - 1;
      var p, m := perm[..n], Moved(perm[..n], shape);
      KeptMoved(p, shape, idx);
      PickedNext(shape, p, perm[n]);
      PickedNext(idx, p, perm[n]);
      assert perm == p + [perm[n]];
      NonUnitAppend(Permuted(shape, p), shape[perm[n]], Permuted(idx, p), idx[perm[n]]);
      PickedNext(shape, m, perm[n]);
      PickedNext(idx, m, perm[n]);
      AppendNothing(NonUnit(Permuted(shape, p)));
      AppendNothing(Kept(Permuted(shape, p), Permuted(idx, p)));
    }
  }

  lemma MovedSorted(perm: seq<nat>, shape: seq<int>)
    requires IsPermutation(perm, |shape|) && Sorted(Moved(perm, shape))
    ensures Moved(perm, shape) == Positions(shape)
  {
    forall d: nat ensures d in Moved(perm, shape) <==> d in Positions(shape) {
      if d in Moved(perm, shape) { AllPositions(shape, d); }
    }
    SortedUnique(Moved(perm, shape), Positions(shape));
  }

  lemma PermutedInBounds(perm: seq<nat>, shape: seq<int>, idx: Index)
    requires IsPermutation(perm, |shape|) && InBounds(idx, shape)
    ensures InBounds(Permuted(idx, perm), Permuted(shape, perm))
  {
  }

  /** A transpose that keeps the order of the other dimensions keeps the data. */
  lemma SortedKeepsData(perm: seq<nat>, shape: seq<int>, idx: Index)
    requires IsPermutation(perm, |shape|) && Sorted(Moved(perm, shape)) && InBounds(idx, shape)
    ensures Linear(Permuted(idx, perm), Permuted(shape, perm)) == Linear(idx, shape)
  {
    PermutedInBounds(perm, shape, idx);
    hide Linear, NonUnit, Kept, Moved, Positions, Sorted;
    MovedSorted(perm, shape);
    KeptMoved(perm, shape, idx);
    PickedPositions(shape, idx);
    LinearKept(shape, idx);
    LinearKept(Permuted(shape, perm), Permuted(idx, perm));
  }

  // ---------------------------------------------------------------- and no other transpose does

  /** One in dimension d, zero elsewhere. */
  function Unit(n: nat, d: nat): (u: Index)
    requires d < n
    ensures |u| == n && forall k | 0 <= k < n :: u[k] == if k == d then 1 else 0
  {
    seq(n, k => if k == d then 1 else 0)
  }

  lemma {:induction false} LinearZero(idx: Index, shape: seq<int>)
    requires |idx| == |shape| && forall k | 0 <= k < |idx| :: idx[k] == 0
    ensures Linear(idx, shape) == 0
  {
    if shape != [] { LinearZero(idx[1..], shape[1..]); }
  }

  lemma {:induction false} LinearUnit(idx: Index, shape: seq<int>, d: nat)
    requires d < |shape| == |idx| && forall k | 0 <= k < |idx| :: idx[k] == if k == d then 1 else 0
    ensures Linear(idx, shape) == Product(shape[d + 1..])
  {
    if d == 0 {
      LinearZero(idx[1..], shape[1..]);
    } else {
      LinearUnit(idx[1..], shape[1..], d - 1);
      assert shape[1..][d..] == shape[d + 1..];
    }
  }

  /** Strides fall strictly over dimensions of size more than one. */
  lemma {:induction false} StrideFalls(shape: seq<int>, a: nat, b: nat)
    requires Positive(shape) && a < b < |shape| && shape[b] != 1
    ensures Product(shape[a + 1..]) > Product(shape[b + 1..]) > 0
    decreases b - a
  {
    ProductPositive(shape[b + 1..]);
    if a + 1 == b {
      assert shape[b..][1..] == shape[b + 1..];
      MulMonotone(2, shape[b], Product(shape[b + 1..]));
    } else {
      StrideFalls(shape, a + 1, b);
      assert shape[a + 1..][1..] == shape[a + 2..];
      MulMonotone(1, shape[a + 1], Product(shape[a + 2..]));
    }
  }

  ghost predicate KeepsData(perm: seq<nat>, shape: seq<int>)
    requires IsPermutation(perm, |shape|)
  {
    forall idx: Index | InBounds(idx, shape) ::
      Linear(Permuted(idx, perm), Permuted(shape, perm)) == Linear(idx, shape)
  }

  /** The stride of a dimension before and after a transpose that keeps the data. */
  lemma SameStride(perm: seq<nat>, shape: seq<int>, k: nat)
    requires IsPermutation(perm, |shape|) && KeepsData(perm, shape) && Positive(shape)
    requires k < |perm| && shape[perm[k]] != 1
    ensures Product(Permuted(shape, perm)[k + 1..]) == Product(shape[perm[k] + 1..])
  {
    var u := Unit(|shape|, perm[k]);
    assert InBounds(u, shape);
    LinearUnit(u, shape, perm[k]);
    LinearUnit(Permuted(u, perm), Permuted(shape, perm), k);
  }

  /** Where each moved dimension stands in the permutation, in order. */
  lemma {:induction false} MovedPlaces(perm: seq<nat>, shape: seq<int>, k: nat, l: nat) returns (a: nat, b: nat)
    requires (forall k | 0 <= k < |perm| :: perm[k] < |shape|) && k < l < |Moved(perm, shape)|
    ensures a < b < |perm| && perm[a] == Moved(perm, shape)[k] && perm[b] == Moved(perm, shape)[l]
    decreases |perm|
  {
    var n := |perm| - 1;
    var m := Moved(perm[..n], shape);
    if l < |m| {
      a, b := MovedPlaces(perm[..n], shape, k, l);
    } else {
      assert m[k] in m;
      a :| 0 <= a < n && perm[..n][a] == m[k];
      b := n;
    }
  }

  lemma InOrder(perm: seq<nat>, shape: seq<int>, a: nat, b: nat)
    requires IsPermutation(perm, |shape|) && Positive(shape) && KeepsData(perm, shape)
    requires a < b < |perm| && shape[perm[a]] != 1 && shape[perm[b]] != 1
    ensures perm[a] < perm[b]
  {
    hide KeepsData, Product;
    SameStride(perm, shape, a);
    SameStride(perm, shape, b);
    PermutedPositive(perm, shape);
    StrideFalls(Permuted(shape, perm), a, b);
    if perm[b] < perm[a] { StrideFalls(shape, perm[b], perm[a]); }
  }

  lemma UnsortedMovesData(perm: seq<nat>, shape: seq<int>)
    requires IsPermutation(perm, |shape|) && Positive(shape) && KeepsData(perm, shape)
    ensures Sorted(Moved(perm, shape))
  {
    hide KeepsData, Moved;
    var m := Moved(perm, shape);
    forall k, l | 0 <= k < l < |m| ensures m[k] < m[l] {
      assert m[k] in m && m[l] in m;
      var a, b := MovedPlaces(perm, shape, k, l);
      InOrder(perm, shape, a, b);
    }
  }

  lemma PermutedPositive(perm: seq<nat>, shape: seq<int>)
    requires Positive(shape) && forall k | 0 <= k < |perm| :: perm[k] < |shape|
    ensures Positive(Permuted(shape, perm))
  {
  }

  /** The transposes accepted are exactly those that leave the data as it is. */
  lemma ReshapeLikeExactly(perm: seq<nat>, shape: seq<int>)
    requires IsPermutation(perm, |shape|) && Positive(shape)
    ensures Sorted(Moved(perm, shape)) <==> KeepsData(perm, shape)
  {
    if Sorted(Moved(perm, shape)) {
      forall idx: Index | InBounds(idx, shape)
        ensures Linear(Permuted(idx, perm), Permuted(shape, perm)) == Linear(idx, shape)
      {
        SortedKeepsData(perm, shape, idx);
      }
    }
    if KeepsData(perm, shape) { UnsortedMovesData(perm, shape); }
  }

  // ---------------------------------------------------------------- broadcasts

  /** Which output dimension each input dimension goes to, without those of size one. */
  function Spread(dims: seq<nat>, inShape: seq<int>): (r: seq<nat>)
    requires |dims| == |inShape|
    ensures forall d :: d in r ==> d in dims
  {
    if dims == [] then []
    else
      var n := |dims| - 1;
      var r := Spread(dims[..n], inShape[..n]);
      assert dims == dims[..n] + [dims[n]];
      if inShape[n] != 1 then r + [dims[n]] else r
  }

  predicate Ordered(p: seq<nat>) {
    forall k | 0 <= k < |p| - 1 :: p[k] <= p[k + 1]
  }

  /** A broadcast sends each dimension to one of its size, or from size one to any,
      and no two to the same. */
  ghost predicate IsBroadcast(dims: seq<nat>, inShape: seq<int>, outShape: seq<int>) {
    && |dims| == |inShape| && Positive(inShape) && Positive(outShape)
    && (forall k | 0 <= k < |dims| :: dims[k] < |outShape| && (inShape[k] == 1 || inShape[k] == outShape[dims[k]]))
    && Distinct(dims)
  }

  /** The input index that an output index reads. */
  function Read(dims: seq<nat>, inShape: seq<int>, idx: Index): (r: Index)
    requires |dims| == |inShape| && forall k | 0 <= k < |dims| :: dims[k] < |idx|
    ensures |r| == |dims|
  {
    seq(|dims|, k requires 0 <= k < |dims| => if inShape[k] == 1 then 0 else idx[dims[k]])
  }

  /** `OpIsReshapeLike` for a broadcast. */
  method BroadcastIsReshapeLike(dims: seq<nat>, inShape: seq<int>, outShape: seq<int>) returns (r: bool)
    requires IsBroadcast(dims, inShape, outShape)
    ensures r <==> Product(inShape) == Product(outShape) && Ordered(Spread(dims, inShape))
  {
    if Product(inShape) != Product(outShape) {
      return false;
    }
    var nonSingletonDims: seq<nat> := [];
    for k := 0 to |dims|
      invariant nonSingletonDims == Spread(dims[..k], inShape[..k])
    {
      assert dims[..k + 1][..k] == dims[..k] && inShape[..k + 1][..k] == inShape[..k];
      if inShape[k] != 1 {
        nonSingletonDims := nonSingletonDims + [dims[k]];
      }
    }
    assert dims[..|dims|] == dims && inShape[..|inShape|] == inShape;
    return Ordered(nonSingletonDims);
  }

  lemma {:induction false} SpreadDistinct(dims: seq<nat>, inShape: seq<int>)
    requires |dims| == |inShape| && Distinct(dims)
    ensures Distinct(Spread(dims, inShape))
    decreases |dims|
  {
    if dims != [] {
      var n := |dims| - 1;
      SpreadDistinct(dims[..n], inShape[..n]);
      assert dims[n] !in dims[..n];
      if inShape[n] != 1 { DistinctAppend(Spread(dims[..n], inShape[..n]), dims[n]); }
    }
  }

  lemma {:induction false} OrderedSorted(p: seq<nat>)
    requires Ordered(p) && Distinct(p)
    ensures Sorted(p)
    decreases |p|
  {
    if |p| > 1 {
      var n := |p| - 1;
      OrderedSorted(p[..n]);
      assert p[n - 1] <= p[n - 1 + 1];
      forall k, l | 0 <= k < l < |p| ensures p[k] < p[l] {
        if l < n { assert p[..n][k] < p[..n][l]; }
        else if k < n - 1 { assert p[..n][k] < p[..n][n - 1]; }
      }
    }
  }

  lemma {:induction false} ReadKept(dims: seq<nat>, inShape: seq<int>, outShape: seq<int>, idx: Index)
    requires |dims| == |inShape| && |idx| == |outShape|
    requires forall k | 0 <= k < |dims| :: dims[k] < |outShape| && (inShape[k] == 1 || inShape[k] == outShape[dims[k]])
    ensures var p := Spread(dims, inShape);
      && (forall k | 0 <= k < |p| :: p[k] < |outShape| && outShape[p[k]] != 1)
      && NonUnit(inShape) == Picked(outShape, p) && Kept(inShape, Read(dims, inShape, idx)) == Picked(idx, p)
    decreases |dims|
  {
    if dims != [] {
      var n := |dims| - 1;
      var ds, sh, d := dims[..n], inShape[..n], dims[n];
      ReadKept(ds, sh, outShape, idx);
      var p, r := Spread(ds, sh), Read(ds, sh, idx);
      var j := if inShape[n] == 1 then 0 else idx[d];
      assert inShape == sh + [inShape[n]];
      assert Read(dims, inShape, idx) == r + [j];
      NonUnitAppend(sh, inShape[n], r, j);
      PickedNext(outShape, p, d);
      PickedNext(idx, p, d);
      AppendNothing(NonUnit(sh));
      AppendNothing(Kept(sh, r));
    }
  }

  /** If the sizes at the sorted places p already make up the whole product, all
      other sizes are one. */
  lemma {:induction false} OnlyPlaces(shape: seq<int>, p: seq<nat>)
    requires Positive(shape) && Sorted(p) && forall k | 0 <= k < |p| :: p[k] < |shape| && shape[p[k]] != 1
    ensures Product(Picked(shape, p)) <= Product(shape)
    ensures Product(Picked(shape, p)) == Product(shape) ==> p == Positions(shape)
    decreases |shape|
  {
    if shape == [] {
      assert p == [];
    } else {
      hide Product, Sorted, Picked;
      var n := |shape| - 1;
      var s, e := shape[..n], shape[n];
      assert shape == s + [e];
      ProductAppend(s, e);
      ProductPositive(s);
      if p != [] && p[|p| - 1] == n {
        var q := p[..|p| - 1];
        assert p == q + [n];
        BelowLast(p);
        OnlyPlaces(s, q);
        PickedNext(shape, q, n);
        PickedPrefix(shape, q, n);
        ProductAppend(Picked(s, q), e);
        ScaledOrder(Product(Picked(s, q)), Product(s), e);
      } else {
        BelowAll(p, n);
        OnlyPlaces(s, p);
        PickedPrefix(shape, p, n);
        GrownProduct(Product(s), e);
      }
    }
  }

  lemma ScaledOrder(a: int, b: int, e: int)
    requires a <= b && e > 0
    ensures a * e <= b * e && (a * e == b * e ==> a == b)
  {
    MulMonotone(a, b, e);
    if a < b { Less(a, b, e); }
  }

  lemma GrownProduct(a: int, e: int)
    requires a > 0 && e > 0
    ensures a <= a * e && (a == a * e ==> e == 1)
  {
    if e > 1 { MulMonotone(2, e, a); }
  }

  lemma Less(a: int, b: int, e: int)
    requires a < b && e > 0
    ensures a * e < b * e
  {
  }

  lemma BelowLast(p: seq<nat>)
    requires Sorted(p) && p != []
    ensures var q := p[..|p| - 1]; Sorted(q) && forall k | 0 <= k < |q| :: q[k] < p[|p| - 1]
  {
  }

  lemma BelowAll(p: seq<nat>, n: nat)
    requires Sorted(p) && (forall k | 0 <= k < |p| :: p[k] < n + 1) && (p != [] ==> p[|p| - 1] != n)
    ensures forall k | 0 <= k < |p| :: p[k] < n
  {
    forall k | 0 <= k < |p| ensures p[k] < n {
      if k < |p| - 1 { assert p[k] < p[|p| - 1]; }
    }
  }

  lemma {:induction false} ProductAppend(s: seq<int>, e: int)
    ensures Product(s + [e]) == Product(s) * e
  {
    if s == [] {
      assert ([e])[1..] == [];
      assert s + [e] == [e];
    } else {
      ProductAppend(s[1..], e);
      assert (s + [e])[1..] == s[1..] + [e];
      assert s[0] * (Product(s[1..]) * e) == (s[0] * Product(s[1..])) * e;
    }
  }

  /** A broadcast that is accepted reads the data in its old order. */
  lemma BroadcastKeepsData(dims: seq<nat>, inShape: seq<int>, outShape: seq<int>, idx: Index)
    requires IsBroadcast(dims, inShape, outShape) && InBounds(idx, outShape)
    requires Product(inShape) == Product(outShape) && Ordered(Spread(dims, inShape))
    ensures InBounds(Read(dims, inShape, idx), inShape)
    ensures Linear(Read(dims, inShape, idx), inShape) == Linear(idx, outShape)
  {
    var p, r := Spread(dims, inShape), Read(dims, inShape, idx);
    SpreadDistinct(dims, inShape);
    OrderedSorted(p);
    ReadKept(dims, inShape, outShape, idx);
    ProductNonUnit(inShape);
    OnlyPlaces(outShape, p);
    PickedPositions(outShape, idx);
    LinearKept(inShape, r);
    LinearKept(outShape, idx);
  }

  ghost predicate ReadsInOrder(dims: seq<nat>, inShape: seq<int>, outShape: seq<int>)
    requires IsBroadcast(dims, inShape, outShape)
  {
    forall idx: Index | InBounds(idx, outShape) ::
      Linear(Read(dims, inShape, idx), inShape) == Linear(idx, outShape)
  }

  /** The stride of an input dimension is that of the output dimension it goes to. */
  lemma ReadStride(dims: seq<nat>, inShape: seq<int>, outShape: seq<int>, k: nat)
    requires IsBroadcast(dims, inShape, outShape) && ReadsInOrder(dims, inShape, outShape)
    requires k < |dims| && inShape[k] != 1
    ensures Product(inShape[k + 1..]) == Product(outShape[dims[k] + 1..])
  {
    var u := Unit(|outShape|, dims[k]);
    assert InBounds(u, outShape);
    LinearUnit(u, outShape, dims[k]);
    LinearUnit(Read(dims, inShape, u), inShape, k);
  }

  ghost predicate ReadFrom(dims: seq<nat>, inShape: seq<int>, d: nat)
    requires |dims| == |inShape|
  {
    exists k :: 0 <= k < |dims| && dims[k] == d && inShape[k] != 1
  }

  /** Every output dimension of size other than one is read. */
  lemma AllRead(dims: seq<nat>, inShape: seq<int>, outShape: seq<int>, d: nat)
    requires IsBroadcast(dims, inShape, outShape) && ReadsInOrder(dims, inShape, outShape)
    requires d < |outShape| && outShape[d] != 1
    ensures ReadFrom(dims, inShape, d)
  {
    var u := Unit(|outShape|, d);
    assert InBounds(u, outShape);
    LinearUnit(u, outShape, d);
    ProductPositive(outShape[d + 1..]);
    if !ReadFrom(dims, inShape, d) { LinearZero(Read(dims, inShape, u), inShape); }
  }

  lemma {:induction false} SpreadMembers(dims: seq<nat>, inShape: seq<int>, k: nat)
    requires |dims| == |inShape| && k < |dims| && inShape[k] != 1
    ensures dims[k] in Spread(dims, inShape)
    decreases |dims|
  {
    var n := |dims| - 1;
    if k < n { SpreadMembers(dims[..n], inShape[..n], k); }
  }

  /** Two places of the spread dimensions come from two input dimensions in order. */
  lemma {:induction false} SpreadPlaces(dims: seq<nat>, inShape: seq<int>, k: nat, l: nat) returns (a: nat, b: nat)
    requires |dims| == |inShape| && k < l < |Spread(dims, inShape)|
    ensures a < b < |dims| && inShape[a] != 1 && inShape[b] != 1
    ensures dims[a] == Spread(dims, inShape)[k] && dims[b] == Spread(dims, inShape)[l]
    decreases |dims|
  {
    var n := |dims| - 1;
    var p := Spread(dims[..n], inShape[..n]);
    if l < |p| {
      a, b := SpreadPlaces(dims[..n], inShape[..n], k, l);
    } else {
      a := SpreadPlace(dims[..n], inShape[..n], k);
      b := n;
    }
  }

  lemma {:induction false} SpreadPlace(dims: seq<nat>, inShape: seq<int>, k: nat) returns (a: nat)
    requires |dims| == |inShape| && k < |Spread(dims, inShape)|
    ensures a < |dims| && inShape[a] != 1 && dims[a] == Spread(dims, inShape)[k]
    decreases |dims|
  {
    var n := |dims| - 1;
    if k < |Spread(dims[..n], inShape[..n])| { a := SpreadPlace(dims[..n], inShape[..n], k); } else { a := n; }
  }

  lemma ReadsSorted(dims: seq<nat>, inShape: seq<int>, outShape: seq<int>)
    requires IsBroadcast(dims, inShape, outShape) && ReadsInOrder(dims, inShape, outShape)
    ensures Sorted(Spread(dims, inShape))
  {
    hide ReadsInOrder, Product, Spread;
    var p := Spread(dims, inShape);
    forall k, l | 0 <= k < l < |p| ensures p[k] < p[l] {
      var a, b := SpreadPlaces(dims, inShape, k, l);
      ReadStride(dims, inShape, outShape, a);
      ReadStride(dims, inShape, outShape, b);
      StrideFalls(inShape, a, b);
      if dims[b] < dims[a] { StrideFalls(outShape, dims[b], dims[a]); }
    }
  }

  /** The broadcasts accepted are exactly those that read the data in its old order. */
  lemma BroadcastExactly(dims: seq<nat>, inShape: seq<int>, outShape: seq<int>)
    requires IsBroadcast(dims, inShape, outShape)
    ensures Product(inShape) == Product(outShape) && Ordered(Spread(dims, inShape))
       <==> ReadsInOrder(dims, inShape, outShape)
  {
    if Product(inShape) == Product(outShape) && Ordered(Spread(dims, inShape)) {
      forall idx: Index | InBounds(idx, outShape)
        ensures Linear(Read(dims, inShape, idx), inShape) == Linear(idx, outShape)
      {
        BroadcastKeepsData(dims, inShape, outShape, idx);
      }
    }
    if ReadsInOrder(dims, inShape, outShape) { InOrderAccepted(dims, inShape, outShape); }
  }

  lemma InOrderAccepted(dims: seq<nat>, inShape: seq<int>, outShape: seq<int>)
    requires IsBroadcast(dims, inShape, outShape) && ReadsInOrder(dims, inShape, outShape)
    ensures Product(inShape) == Product(outShape) && Ordered(Spread(dims, inShape))
  {
    hide ReadsInOrder, Product, Spread, Kept;
    var p, z := Spread(dims, inShape), Zeroed(outShape);
    ReadsSorted(dims, inShape, outShape);
    ReadKept(dims, inShape, outShape, z);
    forall d: nat ensures d in p <==> d in Positions(outShape) {
      if d in p { AllPositions(outShape, d); }
      if d in Positions(outShape) {
        AllRead(dims, inShape, outShape, d);
        var k :| 0 <= k < |dims| && dims[k] == d && inShape[k] != 1;
        SpreadMembers(dims, inShape, k);
      }
    }
    SortedUnique(p, Positions(outShape));
    PickedPositions(outShape, z);
    ProductNonUnit(inShape);
    ProductNonUnit(outShape);
  }

  function Zeroed(s: seq<int>): (z: Index)
    ensures |z| == |s|
  {
    seq(|s|, _ => 0)
  }

  // ---------------------------------------------------------------- reshapes that could be transposes

  lemma {:induction false} NonUnitEmpty(s: seq<int>)
    ensures NonUnit(s) == [] <==> forall k | 0 <= k < |s| :: s[k] == 1
  {
    if s != [] {
      NonUnitEmpty(s[1..]);
      if s[0] == 1 { assert forall k | 1 <= k < |s| :: s[k] == s[1..][k - 1]; }
    }
  }

  lemma NonUnitFrom(s: seq<int>, i: nat)
    requires i < |s|
    ensures NonUnit(s[i..]) == (if s[i] != 1 then [s[i]] else []) + NonUnit(s[i + 1..])
  {
    assert s[i..][1..] == s[i + 1..];
  }

  lemma SameHead(a: int, s: seq<int>, t: seq<int>)
    ensures [a] + s == [a] + t <==> s == t
  {
    if [a] + s == [a] + t { assert s == ([a] + s)[1..] && t == ([a] + t)[1..]; }
  }

  lemma OtherHead(a: int, s: seq<int>, b: int, t: seq<int>)
    ensures a != b ==> [a] + s != [b] + t
  {
    assert ([a] + s)[0] == a && ([b] + t)[0] == b;
  }

  /** The first size other than one from j on, with its place. */
  method NextSize(shape: seq<int>, j: nat) returns (found: bool, size: int, next: nat)
    requires j <= |shape|
    ensures j <= next <= |shape|
    ensures found ==> size != 1 && NonUnit(shape[j..]) == [size] + NonUnit(shape[next..])
    ensures !found ==> NonUnit(shape[j..]) == []
  {
    next := j;
    while next < |shape|
      invariant j <= next <= |shape| && NonUnit(shape[j..]) == NonUnit(shape[next..])
    {
      NonUnitFrom(shape, next);
      next := next + 1;
      if shape[next - 1] != 1 {
        return true, shape[next - 1], next;
      }
      assert [] + NonUnit(shape[next..]) == NonUnit(shape[next..]);
    }
    return false, 0, next;
  }

  /** `reshapeIsTranspose`: the same rank and the same sizes other than one in the same order. */
  method ReshapeIsTranspose(inputShape: seq<int>, outputShape: seq<int>) returns (r: bool)
    ensures r <==> |inputShape| == |outputShape| && NonUnit(inputShape) == NonUnit(outputShape)
  {
    if |inputShape| != |outputShape| {
      return false;
    }
    var i, j := 0, 0;
    assert inputShape[0..] == inputShape && outputShape[0..] == outputShape;
    while i < |inputShape|
      invariant i <= |inputShape| && j <= |outputShape|
      invariant NonUnit(inputShape) == NonUnit(outputShape) <==> NonUnit(inputShape[i..]) == NonUnit(outputShape[j..])
    {
      NonUnitFrom(inputShape, i);
      assert [] + NonUnit(inputShape[i + 1..]) == NonUnit(inputShape[i + 1..]);
      if inputShape[i] != 1 {
        var found, size, next := NextSize(outputShape, j);
        if !found {
          return false;
        }
        SameHead(size, NonUnit(inputShape[i + 1..]), NonUnit(outputShape[next..]));
        OtherHead(inputShape[i], NonUnit(inputShape[i + 1..]), size, NonUnit(outputShape[next..]));
        if size != inputShape[i] {
          return false;
        }
        j := next;
      }
      i := i + 1;
    }
    NonUnitEmpty(outputShape[j..]);
    r := true;
    ghost var j0 := j;
    while j < |outputShape|
      invariant j0 <= j <= |outputShape| && r
      invariant forall k | j0 <= k < j :: outputShape[k] == 1
    {
      if outputShape[j] != 1 {
        assert outputShape[j0..][j - j0] != 1;
        return false;
      }
      j := j + 1;
    }
  }

  /** Indices of both shapes that agree along the sizes other than one name the same element. */
  lemma ReshapeMovesUnits(inShape: seq<int>, outShape: seq<int>, idx: Index, idx': Index)
    requires NonUnit(inShape) == NonUnit(outShape) && Positive(inShape) && Positive(outShape)
    requires InBounds(idx, inShape) && InBounds(idx', outShape)
    ensures Linear(idx, inShape) == Linear(idx', outShape) <==> Kept(inShape, idx) == Kept(outShape, idx')
  {
    LinearKept(inShape, idx);
    LinearKept(outShape, idx');
    KeptBounds(inShape, idx);
    KeptBounds(outShape, idx');
    if Linear(idx, inShape) == Linear(idx', outShape) {
      LinearInjective(Kept(inShape, idx), Kept(outShape, idx'), NonUnit(inShape));
    }
  }

  lemma {:induction false} KeptBounds(shape: seq<int>, idx: Index)
    requires InBounds(idx, shape) && Positive(shape)
    ensures InBounds(Kept(shape, idx), NonUnit(shape)) && Positive(NonUnit(shape))
  {
    if shape != [] {
      hide InBounds, Positive;
      var s, i := shape[1..], idx[1..];
      BoundsTail(shape, idx);
      KeptBounds(s, i);
      if shape[0] == 1 {
        assert NonUnit(shape) == NonUnit(s) && Kept(shape, idx) == Kept(s, i);
      } else {
        assert NonUnit(shape) == [shape[0]] + NonUnit(s) && Kept(shape, idx) == [idx[0]] + Kept(s, i);
        BoundsCons(idx[0], Kept(s, i), shape[0], NonUnit(s));
      }
    }
  }

  lemma BoundsTail(shape: seq<int>, idx: Index)
    requires InBounds(idx, shape) && Positive(shape) && shape != []
    ensures 0 <= idx[0] < shape[0] && InBounds(idx[1..], shape[1..]) && Positive(shape[1..])
  {
  }

  lemma BoundsCons(j: int, idx: Index, e: int, s: seq<int>)
    requires 0 <= j < e && InBounds(idx, s) && Positive(s)
    ensures InBounds([j] + idx, [e] + s) && Positive([e] + s)
  {
  }
}
