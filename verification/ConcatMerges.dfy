/** Two slices of one source next to each other, each below reshapes and
    broadcasts, made into one: `mergeConcatSlicedElems`, and exactly when the
    concatenation stays the same. */
module ConcatMerges {
  import opened Wrappers
  import opened RowMajor
  import opened ReshapeLike
  import opened Operands
  import opened ConcatElems

  ghost predicate Canonical(e: SlicedElem) {
    StandsFor(e.orig, e.src, e.perm, Some(e.window))
  }

  function WindowLength(e: SlicedElem): int {
    e.window.limit - e.window.start
  }

  /** The second window begins where the first ends, element by element, and not
      both are single elements. */
  predicate Fuses(a: SlicedElem, b: SlicedElem) {
    && a.src == b.src && a.window.limit == b.window.start
    && a.window.stride == 1 && b.window.stride == 1
    && (WindowLength(a) != 1 || WindowLength(b) != 1)
  }

  /** The element with the larger window gives the dimension, the permutation and
      the shape. */
  function Chosen(a: SlicedElem, b: SlicedElem): SlicedElem {
    if WindowLength(a) < WindowLength(b) then b else a
  }

  /** Both windows of dimension k of the source. */
  function FusedSlice(a: SlicedElem, b: SlicedElem, k: nat): Operand
    requires k < |Shape(a.src)|
  {
    var n := |Shape(a.src)|;
    Slice(a.src, seq(n, _ => 0)[k := a.window.start], Shape(a.src)[k := b.window.limit], seq(n, _ => 1))
  }

  predicate SizeAt(dims: seq<int>, perm: seq<nat>, sizes: seq<int>, p: nat)
    requires p < |perm| && p < |sizes|
  {
    perm[p] < |dims| && dims[perm[p]] == sizes[p]
  }

  /** The first n sizes are written over the shape at their places. */
  ghost predicate SizesAt(dims: seq<int>, shape: seq<int>, perm: seq<nat>, sizes: seq<int>, n: nat)
  {
    && n <= |perm| && n <= |sizes| && |dims| == |shape|
    && (forall p: nat | p < n :: SizeAt(dims, perm, sizes, p))
    && forall q: nat | q < |dims| && q !in perm[..n] :: dims[q] == shape[q]
  }

  lemma SizesNext(dims: seq<int>, shape: seq<int>, perm: seq<nat>, sizes: seq<int>, n: nat)
    requires SizesAt(dims, shape, perm, sizes, n) && n < |perm| && n < |sizes| && perm[n] < |dims| && Distinct(perm)
    ensures SizesAt(dims[perm[n] := sizes[n]], shape, perm, sizes, n + 1)
  {
    var dims' := dims[perm[n] := sizes[n]];
    assert perm[..n + 1] == perm[..n] + [perm[n]];
    forall p: nat | p < n + 1 ensures SizeAt(dims', perm, sizes, p) {
      assert p < n ==> SizeAt(dims, perm, sizes, p) && perm[p] != perm[n];
    }
  }

  function FusedSizes(a: SlicedElem, b: SlicedElem, k: nat): (r: seq<int>)
    requires k < |Shape(a.src)|
    ensures |r| == |Shape(a.src)|
  {
    Shape(a.src)[k := b.window.limit - a.window.start]
  }

  /** The broadcast of the slice; a vector is left as it is. */
  ghost predicate IsFused(m: Operand, a: SlicedElem, b: SlicedElem) {
    var c := Chosen(a, b);
    && c.window.dim < |Shape(a.src)| && |c.perm| == |Shape(a.src)|
    && var s := FusedSlice(a, b, c.window.dim);
       if |Shape(c.orig)| == 1 then m == s
       else
         && m.Broadcast? && m.src == s && m.places == c.perm && |m.dims| == |Shape(c.orig)|
         && SizesAt(m.dims, Shape(c.orig), c.perm, FusedSizes(a, b, c.window.dim), |c.perm|)
  }

  lemma CanonicalFacts(e: SlicedElem)
    requires Canonical(e)
    ensures Valid(e.orig) && Valid(e.src) && |e.perm| == |Shape(e.src)| && Distinct(e.perm)
    ensures WindowIn(Some(e.window), |e.perm|) && FitsAll(e.perm, Sized(Shape(e.src), Some(e.window)), Shape(e.orig))
    ensures forall p | 0 <= p < |e.perm| :: e.perm[p] < |Shape(e.orig)|
  {
    var z := Sized(Shape(e.src), Some(e.window));
    forall p | 0 <= p < |e.perm| ensures e.perm[p] < |Shape(e.orig)| { assert FitsIn(z[p], e.perm[p], Shape(e.orig)); }
  }

  /** Windows that are not empty and have more than two elements together are merged. */
  lemma AdjoiningFuse(a: SlicedElem, b: SlicedElem)
    requires a.src == b.src && a.window.limit == b.window.start && a.window.stride == b.window.stride == 1
    requires a.window.start < a.window.limit < b.window.limit
    ensures Fuses(a, b) <==> b.window.limit - a.window.start > 2
  {
  }

  /** `mergeConcatSlicedElems` */
  method MergeConcatSlicedElems(a: SlicedElem, b: SlicedElem) returns (r: Option<Operand>)
    requires Canonical(a) && Canonical(b)
    ensures r.Some? <==>
      a.src == b.src && a.window.limit == b.window.start && a.window.stride == b.window.stride == 1
      && !(WindowLength(a) == 1 && WindowLength(b) == 1)
    ensures r.Some? ==> Fuses(a, b) && IsFused(r.value, a, b)
  {
    hide StandsFor, Valid, Shape, Sized;
    CanonicalFacts(a);
    CanonicalFacts(b);
    if a.src != b.src {
      return None;
    }
    if a.window.limit != b.window.start || a.window.stride != b.window.stride || a.window.stride != 1 {
      return None;
    }
    var sliceSizeA, sliceSizeB := a.window.limit - a.window.start, b.window.limit - b.window.start;
    if sliceSizeA == 1 && sliceSizeB == 1 {
      return None;
    }
    var c := if sliceSizeA < sliceSizeB then b else a;
    var newSlice := FusedSlice(a, b, c.window.dim);
    var sizes := FusedSizes(a, b, c.window.dim);
    var outputShape := Shape(c.orig);
    for p := 0 to |c.perm|
      invariant SizesAt(outputShape, Shape(c.orig), c.perm, sizes, p)
    {
      SizesNext(outputShape, Shape(c.orig), c.perm, sizes, p);
      outputShape := outputShape[c.perm[p] := sizes[p]];
    }
    if |outputShape| != 1 {
      return Some(Broadcast(newSlice, c.perm, outputShape));
    }
    return Some(newSlice);
  }

  // ---------------------------------------------------------------- the fused operand

  /** No dimension is repeated by the broadcast. */
  ghost predicate Unrepeated(e: SlicedElem) {
    && |e.perm| == |Shape(e.src)| && WindowIn(Some(e.window), |e.perm|)
    && forall p | 0 <= p < |e.perm| :: UnrepeatedAt(e, p)
  }

  ghost predicate UnrepeatedAt(e: SlicedElem, p: nat)
    requires |e.perm| == |Shape(e.src)| && WindowIn(Some(e.window), |e.perm|) && p < |e.perm|
  {
    e.perm[p] < |Shape(e.orig)| && Sized(Shape(e.src), Some(e.window))[p] == Shape(e.orig)[e.perm[p]]
  }

  ghost predicate Filled(shape: seq<int>) {
    forall k | 0 <= k < |shape| :: shape[k] > 0
  }

  lemma UnitExtent(start: int, limit: int)
    ensures Extent(start, limit, 1) == limit - start
  {
  }

  /** Both ends of the window lie in the source. */
  lemma WindowBounds(e: SlicedElem)
    requires Canonical(e) && e.window.stride == 1 && Filled(Shape(e.orig))
    ensures e.window.dim < |Shape(e.src)|
    ensures 0 <= e.window.start < e.window.limit <= Shape(e.src)[e.window.dim]
  {
    CanonicalFacts(e);
    UnitExtent(e.window.start, e.window.limit);
    var k, w := e.window.dim, Some(e.window);
    var z := Sized(Shape(e.src), w);
    assert FitsIn(z[k], e.perm[k], Shape(e.orig));
    var first: Index := seq(|Shape(e.orig)|, j => 0);
    var last: Index := first[e.perm[k] := Shape(e.orig)[e.perm[k]] - 1];
    hide Element, Extent, Valid, Shape;
    assert ReadsWindow(e.orig, e.src, first, e.perm, w);
    assert InBounds(last, Shape(e.orig));
    assert ReadsWindow(e.orig, e.src, last, e.perm, w);
  }

  lemma FusedSliceFacts(a: SlicedElem, b: SlicedElem, k: nat)
    requires Valid(a.src) && k < |Shape(a.src)| && 0 <= a.window.start <= b.window.limit <= Shape(a.src)[k]
    ensures OnlyDim(FusedSlice(a, b, k), k) && Shape(FusedSlice(a, b, k)) == FusedSizes(a, b, k)
    ensures Narrowed(FusedSlice(a, b, k), k, None) == Window(k, a.window.start, b.window.limit, 1)
  {
    var s := FusedSlice(a, b, k);
    ShapeNonNegative(a.src);
    SliceFacts(s, k);
    UnitExtent(a.window.start, b.window.limit);
  }

  lemma OnePlace(p: seq<nat>)
    requires Distinct(p) && |p| > 0 && forall k | 0 <= k < |p| :: p[k] < 1
    ensures p == [0]
  {
    assert p[0] == p[|p| - 1] == 0;
  }

  /** The fused operand, where it is one, reads the window from the first start to the
      second limit. */
  lemma FusedStands(m: Operand, a: SlicedElem, b: SlicedElem, c: SlicedElem)
    requires c == Chosen(a, b) && IsFused(m, a, b) && Canonical(c) && Valid(m) && c.src == a.src
    requires Valid(a.src) && 0 <= a.window.start <= b.window.limit
    requires c.window.dim < |Shape(a.src)| && b.window.limit <= Shape(a.src)[c.window.dim]
    ensures StandsFor(m, a.src, c.perm, Some(Window(c.window.dim, a.window.start, b.window.limit, 1)))
  {
    CanonicalFacts(c);
    var k := c.window.dim;
    var s := FusedSlice(a, b, k);
    FusedSliceFacts(a, b, k);
    StandsForSelf(m);
    hide Element, Valid, Extent, Read, Stepped, InBounds, OnlyDim, Narrowed;
    var id := seq(|Shape(m)|, i => i);
    if |Shape(c.orig)| == 1 {
      OnePlace(c.perm);
      assert id == c.perm;
    } else {
      BroadcastShape(m);
      BroadcastReads(m);
      IdentityPlaces(c.perm, |Shape(m)|);
      StepThrough(m, m, s, id, None, c.perm, None);
    }
    StepSlice(m, s, c.perm, None, k);
  }

  /** Without repeats a window is read at the places themselves. */
  lemma UnrepeatedRead(e: SlicedElem, idx: Index)
    requires Canonical(e) && Unrepeated(e) && InBounds(idx, Shape(e.orig))
    ensures |idx| == |Shape(e.orig)| && |e.perm| == |Shape(e.src)| && e.window.dim < |e.perm|
    ensures forall p | 0 <= p < |e.perm| :: e.perm[p] < |idx|
    ensures var at := Stepped(Picked(idx, e.perm), Some(e.window));
      |at| == |Shape(e.src)| && Valid(e.orig) && Valid(e.src) && Element(e.orig, idx) == Element(e.src, at)
  {
    CanonicalFacts(e);
    hide Element, Valid, Shape, Extent, Stepped;
    var z := Sized(Shape(e.src), Some(e.window));
    assert ReadsWindow(e.orig, e.src, idx, e.perm, Some(e.window));
    forall p | 0 <= p < |e.perm| ensures Read(e.perm, z, idx)[p] == Picked(idx, e.perm)[p] {
      assert UnrepeatedAt(e, p);
    }
    assert Read(e.perm, z, idx) == Picked(idx, e.perm);
  }

  ghost predicate Pair(a: SlicedElem, b: SlicedElem, m: Operand, d: nat, rest: seq<int>) {
    && Canonical(a) && Canonical(b) && Fuses(a, b) && IsFused(m, a, b)
    && a.perm == b.perm && a.window.dim == b.window.dim
    && Joinable([a.orig, b.orig], d, rest) && Filled(Shape(a.orig)) && Filled(Shape(b.orig))
  }

  lemma PairFacts(a: SlicedElem, b: SlicedElem, m: Operand, d: nat, rest: seq<int>)
    requires Pair(a, b, m, d, rest)
    ensures d < |rest| == |Shape(a.orig)| == |Shape(b.orig)| && Valid(a.orig) && Valid(b.orig) && Valid(a.src)
    ensures Shape(a.orig)[d := 0] == rest[d := 0] == Shape(b.orig)[d := 0]
    ensures Joinable([a.orig], d, rest) && Joinable([b.orig], d, rest) && [a.orig] + [b.orig] == [a.orig, b.orig]
    ensures |a.perm| == |Shape(a.src)| && Distinct(a.perm) && a.window.dim < |a.perm|
    ensures 0 <= a.window.start < a.window.limit < b.window.limit <= Shape(a.src)[a.window.dim]
    ensures forall p | 0 <= p < |a.perm| :: a.perm[p] < |rest|
  {
    CanonicalFacts(a);
    CanonicalFacts(b);
    WindowBounds(a);
    WindowBounds(b);
    hide Valid, Shape, StandsFor;
    var ops := [a.orig, b.orig];
    assert ops[0] == a.orig && ops[1] == b.orig;
  }

  /** The shape of the fused operand. */
  lemma FusedShape(a: SlicedElem, b: SlicedElem, m: Operand, d: nat, rest: seq<int>)
    requires Pair(a, b, m, d, rest)
    ensures |a.perm| == |Shape(a.src)| && a.window.dim < |a.perm| && |Shape(m)| == |rest|
    ensures forall p | 0 <= p < |a.perm| :: SizeAt(Shape(m), a.perm, FusedSizes(a, b, a.window.dim), p)
    ensures |Shape(Chosen(a, b).orig)| == |rest|
    ensures forall q: nat | q < |rest| && q !in a.perm :: Shape(m)[q] == Shape(Chosen(a, b).orig)[q]
    ensures Valid(m)
  {
    PairFacts(a, b, m, d, rest);
    var c, k := Chosen(a, b), a.window.dim;
    var s := FusedSlice(a, b, k);
    FusedSliceFacts(a, b, k);
    if |rest| == 1 {
      OnePlace(c.perm);
    } else {
      BroadcastShape(m);
      FusedBroadcastValid(m, c, FusedSizes(a, b, k));
      assert c.perm[..|c.perm|] == c.perm;
    }
  }

  lemma FusedBroadcastValid(m: Operand, c: SlicedElem, sizes: seq<int>)
    requires m.Broadcast? && Valid(m.src) && Shape(m.src) == sizes && |sizes| == |c.perm| && m.places == c.perm
    requires Distinct(c.perm) && Valid(c.orig) && SizesAt(m.dims, Shape(c.orig), c.perm, sizes, |c.perm|)
    ensures Valid(m)
  {
    ShapeNonNegative(m.src);
    ShapeNonNegative(c.orig);
    assert c.perm[..|c.perm|] == c.perm;
    forall q: nat | q < |m.dims| ensures m.dims[q] >= 0 {
      if q in c.perm {
        var p: nat :| p < |c.perm| && c.perm[p] == q;
        assert SizeAt(m.dims, c.perm, sizes, p);
      }
    }
    forall p | 0 <= p < |c.perm| ensures m.places[p] < |m.dims| && Shape(m.src)[p] == m.dims[m.places[p]] {
      assert SizeAt(m.dims, c.perm, sizes, p);
    }
  }

  // ---------------------------------------------------------------- when the tensor stays the same

  /** The windows lie along the dimension of the concatenation and nothing is repeated. */
  ghost predicate AlongConcat(a: SlicedElem, b: SlicedElem, d: nat) {
    a.window.dim < |a.perm| && a.perm[a.window.dim] == d && Unrepeated(a) && Unrepeated(b)
  }

  lemma WindowSize(e: SlicedElem)
    requires Canonical(e) && e.window.stride == 1
    ensures e.window.dim < |e.perm| == |Shape(e.src)| && e.perm[e.window.dim] < |Shape(e.orig)|
    ensures Sized(Shape(e.src), Some(e.window)) == Shape(e.src)[e.window.dim := e.window.limit - e.window.start]
    ensures var n := e.window.limit - e.window.start;
      n == 1 || n == Shape(e.orig)[e.perm[e.window.dim]]
  {
    CanonicalFacts(e);
    UnitExtent(e.window.start, e.window.limit);
    var z := Sized(Shape(e.src), Some(e.window));
    assert FitsIn(z[e.window.dim], e.perm[e.window.dim], Shape(e.orig));
  }

  /** The fused operand has the shape that is due only if the condition holds. */
  lemma FusedFits(a: SlicedElem, b: SlicedElem, m: Operand, d: nat, rest: seq<int>)
    requires Pair(a, b, m, d, rest) && |Shape(m)| == |rest| && d < |rest| == |Shape(a.orig)| == |Shape(b.orig)|
    requires Shape(m)[d := 0] == rest[d := 0] && Shape(m)[d] == Shape(a.orig)[d] + Shape(b.orig)[d]
    ensures AlongConcat(a, b, d)
  {
    PairFacts(a, b, m, d, rest);
    FusedShape(a, b, m, d, rest);
    WindowSize(a);
    WindowSize(b);
    var k, z := a.window.dim, FusedSizes(a, b, a.window.dim);
    hide Valid, Shape, StandsFor, IsFused, Joinable, Sized;
    assert SizeAt(Shape(m), a.perm, z, k);
    OtherDims(Shape(m), rest, d, a.perm[k]);
    OtherDims(Shape(a.orig), rest, d, a.perm[k]);
    OtherDims(Shape(b.orig), rest, d, a.perm[k]);
    FusedUnrepeated(a, b, m, d, rest);
  }

  lemma OtherDims(dims: seq<int>, rest: seq<int>, d: nat, q: nat)
    requires d < |dims| == |rest| && dims[d := 0] == rest[d := 0] && q < |dims|
    ensures q != d ==> dims[q] == rest[q]
  {
    assert q != d ==> dims[d := 0][q] == dims[q] && rest[d := 0][q] == rest[q];
  }

  lemma FusedUnrepeated(a: SlicedElem, b: SlicedElem, m: Operand, d: nat, rest: seq<int>)
    requires Pair(a, b, m, d, rest) && |Shape(m)| == |rest| && d < |rest| == |Shape(a.orig)| == |Shape(b.orig)|
    requires Shape(m)[d := 0] == rest[d := 0] && Shape(m)[d] == Shape(a.orig)[d] + Shape(b.orig)[d]
    requires a.window.dim < |a.perm| && a.perm[a.window.dim] == d
    ensures Unrepeated(a) && Unrepeated(b)
  {
    PairFacts(a, b, m, d, rest);
    FusedShape(a, b, m, d, rest);
    WindowSize(a);
    WindowSize(b);
    CanonicalFacts(a);
    CanonicalFacts(b);
    var k, z := a.window.dim, FusedSizes(a, b, a.window.dim);
    hide Valid, Shape, StandsFor, IsFused, Joinable, Sized;
    assert SizeAt(Shape(m), a.perm, z, k);
    forall p | 0 <= p < |a.perm| ensures UnrepeatedAt(a, p) && UnrepeatedAt(b, p) {
      assert SizeAt(Shape(m), a.perm, z, p);
      OtherDims(Shape(m), rest, d, a.perm[p]);
      OtherDims(Shape(a.orig), rest, d, a.perm[p]);
      OtherDims(Shape(b.orig), rest, d, a.perm[p]);
      assert p != k ==> a.perm[p] != a.perm[k];
    }
  }

  lemma FusedOther(a: SlicedElem, b: SlicedElem, m: Operand, d: nat, rest: seq<int>, q: nat)
    requires Pair(a, b, m, d, rest) && AlongConcat(a, b, d) && q < |rest| && q != d
    ensures |Shape(m)| == |rest| && Shape(m)[q] == rest[q]
  {
    PairFacts(a, b, m, d, rest);
    FusedShape(a, b, m, d, rest);
    WindowSize(a);
    var z := FusedSizes(a, b, a.window.dim);
    hide Pair, Valid, Shape, StandsFor, IsFused, Joinable, Sized;
    OtherDims(Shape(a.orig), rest, d, q);
    OtherDims(Shape(b.orig), rest, d, q);
    if q in a.perm {
      var p: nat :| p < |a.perm| && a.perm[p] == q;
      assert SizeAt(Shape(m), a.perm, z, p) && UnrepeatedAt(a, p);
    }
  }

  /** Then it also has that shape. */
  lemma FusedRest(a: SlicedElem, b: SlicedElem, m: Operand, d: nat, rest: seq<int>)
    requires Pair(a, b, m, d, rest) && AlongConcat(a, b, d)
    ensures |Shape(m)| == |rest| && d < |rest| == |Shape(a.orig)| == |Shape(b.orig)|
    ensures Shape(m)[d := 0] == rest[d := 0] && Shape(m)[d] == Shape(a.orig)[d] + Shape(b.orig)[d]
    ensures Shape(a.orig)[d] == a.window.limit - a.window.start && Valid(m)
  {
    PairFacts(a, b, m, d, rest);
    FusedShape(a, b, m, d, rest);
    WindowSize(a);
    WindowSize(b);
    var k, z := a.window.dim, FusedSizes(a, b, a.window.dim);
    hide Pair, Valid, Shape, StandsFor, IsFused, Joinable, Sized;
    assert SizeAt(Shape(m), a.perm, z, k);
    assert UnrepeatedAt(a, k) && UnrepeatedAt(b, k);
    forall q: nat | q < |rest| && q != d ensures Shape(m)[q] == rest[q] { FusedOther(a, b, m, d, rest, q); }
    assert Shape(m)[d := 0] == rest[d := 0];
  }

  lemma FusedCanonical(a: SlicedElem, b: SlicedElem, m: Operand, d: nat, rest: seq<int>)
    requires Pair(a, b, m, d, rest) && AlongConcat(a, b, d)
    ensures var e := SlicedElem(a.src, a.perm, m, Window(a.window.dim, a.window.start, b.window.limit, 1));
      Canonical(e) && Unrepeated(e)
  {
    PairFacts(a, b, m, d, rest);
    FusedShape(a, b, m, d, rest);
    FusedStands(m, a, b, Chosen(a, b));
    var e := SlicedElem(a.src, a.perm, m, Window(a.window.dim, a.window.start, b.window.limit, 1));
    WindowSize(e);
    CanonicalFacts(e);
    var z := FusedSizes(a, b, a.window.dim);
    hide Valid, Shape, StandsFor, IsFused, Joinable, Sized;
    forall p | 0 <= p < |e.perm| ensures UnrepeatedAt(e, p) { assert SizeAt(Shape(m), a.perm, z, p); }
  }

  /** The fused operand reads what the two operands read one after the other. */
  lemma FusedElement(a: SlicedElem, b: SlicedElem, m: Operand, d: nat, rest: seq<int>, idx: Index)
    requires Pair(a, b, m, d, rest) && AlongConcat(a, b, d)
    requires |idx| == |rest| && Valid(m) && |Shape(m)| == |rest| && d < |rest| && InBounds(idx, Shape(m))
    ensures |Shape(a.orig)| == |Shape(b.orig)| == |rest| && Valid(a.orig) && Valid(b.orig)
    ensures var n := Shape(a.orig)[d];
      Element(m, idx) == if idx[d] < n then Element(a.orig, idx) else Element(b.orig, idx[d := idx[d] - n])
  {
    PairFacts(a, b, m, d, rest);
    FusedRest(a, b, m, d, rest);
    FusedCanonical(a, b, m, d, rest);
    var k, n := a.window.dim, Shape(a.orig)[d];
    var e := SlicedElem(a.src, a.perm, m, Window(k, a.window.start, b.window.limit, 1));
    InPart(Shape(m), Shape(a.orig), Shape(b.orig), rest, d, idx);
    hide Valid, Shape, Element, StandsFor, IsFused, Joinable, Sized, Unrepeated;
    UnrepeatedRead(e, idx);
    if idx[d] < n {
      UnrepeatedRead(a, idx);
      SameStep(Picked(idx, a.perm), a.window, e.window);
    } else {
      var idx' := idx[d := idx[d] - n];
      UnrepeatedRead(b, idx');
      ShiftedStep(idx, idx', a.perm, d, n, e.window, b.window);
    }
  }

  lemma InPart(dims: seq<int>, first: seq<int>, second: seq<int>, rest: seq<int>, d: nat, idx: Index)
    requires d < |rest| == |dims| == |first| == |second| && InBounds(idx, dims)
    requires dims[d := 0] == rest[d := 0] == first[d := 0] == second[d := 0] && dims[d] == first[d] + second[d]
    ensures idx[d] < first[d] ==> InBounds(idx, first)
    ensures idx[d] >= first[d] ==> InBounds(idx[d := idx[d] - first[d]], second)
  {
    forall q | 0 <= q < |rest| ensures q != d ==> dims[q] == first[q] == second[q] {
      OtherDims(dims, rest, d, q);
      OtherDims(first, rest, d, q);
      OtherDims(second, rest, d, q);
    }
  }

  lemma SameStep(at: Index, v: Window, w: Window)
    requires v.dim == w.dim < |at| && v.start == w.start && v.stride == w.stride == 1
    ensures Stepped(at, Some(v)) == Stepped(at, Some(w))
  {
  }

  lemma ShiftedStep(idx: Index, idx': Index, perm: seq<nat>, d: nat, n: int, v: Window, w: Window)
    requires (forall p | 0 <= p < |perm| :: perm[p] < |idx|) && Distinct(perm) && d < |idx| && idx' == idx[d := idx[d] - n]
    requires v.dim == w.dim < |perm| && perm[v.dim] == d && v.stride == w.stride == 1 && w.start == v.start + n
    ensures Stepped(Picked(idx', perm), Some(w)) == Stepped(Picked(idx, perm), Some(v))
  {
    var x, y := Stepped(Picked(idx', perm), Some(w)), Stepped(Picked(idx, perm), Some(v));
    forall p | 0 <= p < |perm| ensures x[p] == y[p] {
      assert p != v.dim ==> perm[p] != d;
    }
  }

  /** Two windows of one dimension, seen along one permutation: the merged operand is
      right exactly if that dimension is the one of the concatenation and no
      broadcast repeats a dimension. The function looks at neither. */
  lemma FusedExact(a: SlicedElem, b: SlicedElem, m: Operand, d: nat, rest: seq<int>)
    requires Pair(a, b, m, d, rest)
    ensures SameTensor([a.orig, b.orig], [m], d, rest) <==> AlongConcat(a, b, d)
  {
    PairFacts(a, b, m, d, rest);
    FusedShape(a, b, m, d, rest);
    var z: Index := seq(|rest|, _ => 0);
    OneOperand(a.orig, d, rest, z);
    OneOperand(b.orig, d, rest, z);
    ConcatSplit([a.orig], [b.orig], d, rest, z);
    if SameTensor([a.orig, b.orig], [m], d, rest) {
      OneOperand(m, d, rest, z);
      OneShape(m, d, rest);
      FusedFits(a, b, m, d, rest);
    }
    if AlongConcat(a, b, d) {
      FusedRest(a, b, m, d, rest);
      FusedSame(a, b, m, d, rest);
    }
  }

  lemma OneShape(m: Operand, d: nat, rest: seq<int>)
    requires Joinable([m], d, rest)
    ensures d < |rest| == |Shape(m)| && Shape(m)[d := 0] == rest[d := 0]
  {
    assert [m][0] == m;
  }

  lemma FusedSame(a: SlicedElem, b: SlicedElem, m: Operand, d: nat, rest: seq<int>)
    requires Pair(a, b, m, d, rest) && AlongConcat(a, b, d)
    requires Valid(m) && d < |rest| == |Shape(m)| && Shape(m)[d := 0] == rest[d := 0]
    ensures SameTensor([a.orig, b.orig], [m], d, rest)
  {
    PairFacts(a, b, m, d, rest);
    FusedRest(a, b, m, d, rest);
    hide Pair, AlongConcat, Valid, Shape, Element, InBounds;
    var z: Index := seq(|rest|, _ => 0);
    OneOperand(a.orig, d, rest, z);
    OneOperand(b.orig, d, rest, z);
    OneOperand(m, d, rest, z);
    ConcatSplit([a.orig], [b.orig], d, rest, z);
    var t := Shape(m)[d];
    hide Total, Concatenated;
    WholeShape(Shape(m), rest, d);
    forall idx: Index | |idx| == |rest| && InBounds(idx, rest[d := t])
      ensures Concatenated([a.orig, b.orig], d, rest, idx) == Concatenated([m], d, rest, idx)
    {
      BoundAt(idx, rest[d := t], d);
      FusedSameAt(a, b, m, d, rest, idx);
    }
  }

  lemma WholeShape(dims: seq<int>, rest: seq<int>, d: nat)
    requires d < |dims| == |rest| && dims[d := 0] == rest[d := 0]
    ensures rest[d := dims[d]] == dims
  {
    assert dims[d := 0][d := dims[d]] == dims && rest[d := 0][d := dims[d]] == rest[d := dims[d]];
  }

  lemma FusedSameAt(a: SlicedElem, b: SlicedElem, m: Operand, d: nat, rest: seq<int>, idx: Index)
    requires Pair(a, b, m, d, rest) && AlongConcat(a, b, d) && Valid(m) && d < |rest| == |Shape(m)| == |idx|
    requires Joinable([a.orig, b.orig], d, rest) && Joinable([m], d, rest) && InBounds(idx, Shape(m))
    requires 0 <= idx[d] < Shape(m)[d] == Total([a.orig, b.orig], d, rest) == Total([m], d, rest)
    ensures Concatenated([a.orig, b.orig], d, rest, idx) == Concatenated([m], d, rest, idx)
  {
    hide Pair, AlongConcat, Valid, Shape, Element, InBounds, Total, Concatenated, Joinable;
    PairJoinable(a, b, m, d, rest);
    FusedElement(a, b, m, d, rest, idx);
    OneOperand(m, d, rest, idx);
    TwoOperands(a.orig, b.orig, d, rest, idx);
  }

  lemma PairJoinable(a: SlicedElem, b: SlicedElem, m: Operand, d: nat, rest: seq<int>)
    requires Pair(a, b, m, d, rest)
    ensures Joinable([a.orig], d, rest) && Joinable([b.orig], d, rest)
  {
    PairFacts(a, b, m, d, rest);
  }

  lemma TwoOperands(e: Operand, f: Operand, d: nat, rest: seq<int>, idx: Index)
    requires Joinable([e], d, rest) && Joinable([f], d, rest) && Joinable([e, f], d, rest)
    requires d < |rest| == |idx| && 0 <= idx[d] < Total([e, f], d, rest)
    ensures |Shape(e)| == |Shape(f)| == |rest| && Valid(e) && Valid(f)
    ensures var n := Shape(e)[d];
      Concatenated([e, f], d, rest, idx) == if idx[d] < n then Element(e, idx) else Element(f, idx[d := idx[d] - n])
  {
    hide Valid, Shape, Element, Total, Concatenated, Joinable;
    OneOperand(e, d, rest, idx);
    OneOperand(f, d, rest, idx[d := idx[d] - Shape(e)[d]]);
    assert [e] + [f] == [e, f];
    ConcatSplit([e], [f], d, rest, idx);
  }

  lemma BoundAt(idx: Index, shape: seq<int>, d: nat)
    requires InBounds(idx, shape) && d < |shape|
    ensures |idx| == |shape| && 0 <= idx[d] < shape[d]
  {
  }

  // ---------------------------------------------------------------- slices side by side

  /** Some rows of a 4 x 4 leaf. */
  function Rows(start: int, limit: int): SlicedElem {
    var leaf := Leaf(0, [4, 4]);
    SlicedElem(leaf, [0, 1], Slice(leaf, [start, 0], [limit, 4], [1, 1]), Window(0, start, limit, 1))
  }

  lemma RowsCanonical(start: int, limit: int)
    requires 0 <= start < limit <= 4
    ensures Canonical(Rows(start, limit))
    ensures Valid(Rows(start, limit).orig) && Shape(Rows(start, limit).orig) == [limit - start, 4]
  {
    var o := Rows(start, limit).orig;
    assert Valid(o.src);
    assert OnlyDim(o, 0);
    SliceFacts(o, 0);
    UnitExtent(start, limit);
    StandsForSelf(o);
    assert seq(2, i => i) == [0, 1];
    StepSlice(o, o, [0, 1], None, 0);
  }

  lemma RowsFused()
    ensures IsFused(Broadcast(Rows(0, 4).orig, [0, 1], [4, 4]), Rows(0, 2), Rows(2, 4))
  {
    RowsCanonical(0, 2);
    assert FusedSlice(Rows(0, 2), Rows(2, 4), 0) == Rows(0, 4).orig;
    assert FusedSizes(Rows(0, 2), Rows(2, 4), 0) == [4, 4];
    assert SizeAt([4, 4], [0, 1], [4, 4], 0) && SizeAt([4, 4], [0, 1], [4, 4], 1);
    assert SizesAt([4, 4], [2, 4], [0, 1], [4, 4], 2);
  }

  lemma RowsJoinable(rest: seq<int>)
    requires rest == [2, 0]
    ensures Joinable([Rows(0, 2).orig, Rows(2, 4).orig], 1, rest)
    ensures Filled(Shape(Rows(0, 2).orig)) && Filled(Shape(Rows(2, 4).orig))
  {
    RowsCanonical(0, 2);
    RowsCanonical(2, 4);
    hide Valid, Shape, Canonical;
    assert [2, 4][1 := 0] == rest[1 := 0];
  }

  lemma RowsPair(rest: seq<int>)
    requires rest == [2, 0]
    ensures Pair(Rows(0, 2), Rows(2, 4), Broadcast(Rows(0, 4).orig, [0, 1], [4, 4]), 1, rest)
  {
    RowsFused();
    RowsJoinable(rest);
    RowsCanonical(0, 2);
    RowsCanonical(2, 4);
    hide Valid, Shape, Canonical, IsFused, Joinable, Filled;
  }

  /** Rows 0..2 and rows 2..4 side by side become rows 0..4. */
  lemma RowsSideBySide(rest: seq<int>)
    requires rest == [2, 0]
    ensures var m := Broadcast(Rows(0, 4).orig, [0, 1], [4, 4]);
      Pair(Rows(0, 2), Rows(2, 4), m, 1, rest) && !SameTensor([Rows(0, 2).orig, Rows(2, 4).orig], [m], 1, rest)
  {
    var m := Broadcast(Rows(0, 4).orig, [0, 1], [4, 4]);
    RowsPair(rest);
    hide Pair, SameTensor, Unrepeated;
    FusedExact(Rows(0, 2), Rows(2, 4), m, 1, rest);
  }
}
