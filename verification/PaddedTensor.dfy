/** `detectPaddedTensorImpl`: recognise a constant tensor as a smaller tensor
    padded with one value. */
module PaddedTensor {
  import opened Wrappers
  import opened RowMajor

  datatype Padded<T> = Padded(inner: seq<T>, innerShape: seq<int>, value: T, low: seq<int>, high: seq<int>)

  datatype Amounts = Amounts(low: seq<int>, high: seq<int>, total: int)

  // ---------------------------------------------------------------- boxes

  /** Non-negative amounts that leave a (possibly empty) box in every dimension. */
  predicate IsBox(low: seq<int>, high: seq<int>, shape: seq<int>) {
    && |low| == |high| == |shape|
    && forall d | 0 <= d < |shape| :: 0 <= low[d] && 0 <= high[d] && low[d] + high[d] <= shape[d]
  }

  predicate InBox(idx: Index, low: seq<int>, high: seq<int>, shape: seq<int>)
    requires |idx| == |low| == |high| == |shape|
  {
    forall d | 0 <= d < |shape| :: low[d] <= idx[d] < shape[d] - high[d]
  }

  function InnerShape(low: seq<int>, high: seq<int>, shape: seq<int>): (s: seq<int>)
    requires |low| == |high| == |shape|
    ensures |s| == |shape|
  {
    seq(|shape|, d requires 0 <= d < |shape| => shape[d] - low[d] - high[d])
  }

  /** Position lin of the tensor holds something other than the padding value. */
  predicate Kept<T(==)>(values: seq<T>, pad: T, lin: int) {
    0 <= lin < |values| && values[lin] != pad
  }

  ghost predicate Touches<T>(values: seq<T>, shape: seq<int>, pad: T, d: nat, x: int)
    requires Positive(shape) && d < |shape|
  {
    exists lin :: Kept(values, pad, lin) && Multi(lin, shape)[d] == x
  }

  ghost predicate AnyKept<T>(values: seq<T>, pad: T, n: int) {
    exists lin :: Kept(values, pad, lin) && lin < n
  }

  /** Along dimension d, the kept elements lie between low and high, and both faces are touched. */
  ghost predicate FaceToFace<T>(values: seq<T>, shape: seq<int>, pad: T, d: nat, low: int, high: int)
    requires Positive(shape) && d < |shape|
  {
    && 0 <= low && 0 <= high && low + high <= shape[d]
    && (forall lin | Kept(values, pad, lin) :: low <= Multi(lin, shape)[d] < shape[d] - high)
    && Touches(values, shape, pad, d, low) && Touches(values, shape, pad, d, shape[d] - 1 - high)
  }

  /** The bounding box of the kept elements: all lie inside, and each face is touched. */
  ghost predicate BoundingBox<T>(values: seq<T>, shape: seq<int>, pad: T, low: seq<int>, high: seq<int>) {
    && Positive(shape) && |low| == |high| == |shape|
    && forall d: nat | d < |shape| :: FaceToFace(values, shape, pad, d, low[d], high[d])
  }

  lemma FaceToFaceUnique<T>(values: seq<T>, shape: seq<int>, pad: T, d: nat, l: int, h: int, l': int, h': int)
    requires Positive(shape) && d < |shape|
    requires FaceToFace(values, shape, pad, d, l, h) && FaceToFace(values, shape, pad, d, l', h')
    ensures l == l' && h == h' && l + h < shape[d]
  {
    var a :| Kept(values, pad, a) && Multi(a, shape)[d] == l;
    var a' :| Kept(values, pad, a') && Multi(a', shape)[d] == l';
    var b :| Kept(values, pad, b) && Multi(b, shape)[d] == shape[d] - 1 - h;
    var b' :| Kept(values, pad, b') && Multi(b', shape)[d] == shape[d] - 1 - h';
  }

  lemma BoundingBoxUnique<T>(values: seq<T>, shape: seq<int>, pad: T,
                             low: seq<int>, high: seq<int>, low': seq<int>, high': seq<int>)
    requires BoundingBox(values, shape, pad, low, high) && BoundingBox(values, shape, pad, low', high')
    ensures low == low' && high == high'
  {
    forall d: nat | d < |shape| ensures low[d] == low'[d] && high[d] == high'[d] {
      FaceToFaceUnique(values, shape, pad, d, low[d], high[d], low'[d], high'[d]);
    }
  }

  lemma BoundingBoxNonEmpty<T>(values: seq<T>, shape: seq<int>, pad: T, low: seq<int>, high: seq<int>)
    requires BoundingBox(values, shape, pad, low, high)
    ensures IsBox(low, high, shape) && Positive(InnerShape(low, high, shape))
  {
    forall d: nat | d < |shape| ensures 0 <= low[d] && 0 <= high[d] && low[d] + high[d] < shape[d] {
      FaceToFaceUnique(values, shape, pad, d, low[d], high[d], low[d], high[d]);
    }
  }

  // ---------------------------------------------------------------- one padding value

  /** The smallest and largest index seen along dimension d among the first n positions. */
  ghost predicate ExtremesAt<T>(values: seq<T>, shape: seq<int>, pad: T, n: int, d: nat, lo: int, hi: int)
    requires Positive(shape) && d < |shape|
  {
    && (forall lin | Kept(values, pad, lin) && lin < n :: lo <= Multi(lin, shape)[d] <= hi)
    && (if AnyKept(values, pad, n)
        then ReachedBy(values, shape, pad, n, d, lo) && ReachedBy(values, shape, pad, n, d, hi)
        else lo == shape[d] && hi == -1)
  }

  ghost predicate Extremes<T>(values: seq<T>, shape: seq<int>, pad: T, n: int, mins: seq<int>, maxs: seq<int>) {
    && Positive(shape) && |mins| == |maxs| == |shape|
    && forall d: nat | d < |shape| :: ExtremesAt(values, shape, pad, n, d, mins[d], maxs[d])
  }

  ghost predicate ReachedBy<T>(values: seq<T>, shape: seq<int>, pad: T, n: int, d: nat, x: int)
    requires Positive(shape) && d < |shape|
  {
    exists lin :: Kept(values, pad, lin) && lin < n && Multi(lin, shape)[d] == x
  }

  function Min(a: int, b: int): int { if a < b then a else b }

  function Max(a: int, b: int): int { if a > b then a else b }

  method UpdateExtremes(mins: seq<int>, maxs: seq<int>, indices: Index) returns (mins': seq<int>, maxs': seq<int>)
    requires |mins| == |maxs| == |indices|
    ensures |mins'| == |maxs'| == |indices|
    ensures forall d | 0 <= d < |indices| :: mins'[d] == Min(mins[d], indices[d]) && maxs'[d] == Max(maxs[d], indices[d])
  {
    mins', maxs' := mins, maxs;
    for d := 0 to |indices|
      invariant |mins'| == |maxs'| == |indices|
      invariant forall e | 0 <= e < |indices| ::
        && mins'[e] == (if e < d then Min(mins[e], indices[e]) else mins[e])
        && maxs'[e] == (if e < d then Max(maxs[e], indices[e]) else maxs[e])
    {
      mins' := mins'[d := Min(mins'[d], indices[d])];
      maxs' := maxs'[d := Max(maxs'[d], indices[d])];
    }
  }

  lemma ExtremesStart<T>(values: seq<T>, shape: seq<int>, pad: T, mins: seq<int>, maxs: seq<int>)
    requires Positive(shape) && mins == shape && |maxs| == |shape| && forall d | 0 <= d < |shape| :: maxs[d] == -1
    ensures Extremes(values, shape, pad, 0, mins, maxs)
  {
  }

  lemma ReachedLater<T>(values: seq<T>, shape: seq<int>, pad: T, n: int, d: nat, x: int)
    requires Positive(shape) && d < |shape| && ReachedBy(values, shape, pad, n, d, x)
    ensures ReachedBy(values, shape, pad, n + 1, d, x)
  {
    var lin :| Kept(values, pad, lin) && lin < n && Multi(lin, shape)[d] == x;
    assert Kept(values, pad, lin) && lin < n + 1;
  }

  lemma AnyKeptStep<T>(values: seq<T>, pad: T, n: int)
    requires 0 <= n < |values|
    ensures AnyKept(values, pad, n + 1) <==> AnyKept(values, pad, n) || values[n] != pad
  {
    if AnyKept(values, pad, n) {
      var lin :| Kept(values, pad, lin) && lin < n;
      assert Kept(values, pad, lin) && lin < n + 1;
    }
    if values[n] != pad { assert Kept(values, pad, n) && n < n + 1; }
  }

  lemma ExtremesSkip<T>(values: seq<T>, shape: seq<int>, pad: T, n: int, d: nat, lo: int, hi: int)
    requires Positive(shape) && d < |shape| && ExtremesAt(values, shape, pad, n, d, lo, hi)
    requires 0 <= n < |values| && values[n] == pad
    ensures ExtremesAt(values, shape, pad, n + 1, d, lo, hi)
  {
    AnyKeptStep(values, pad, n);
    if AnyKept(values, pad, n) {
      ReachedLater(values, shape, pad, n, d, lo);
      ReachedLater(values, shape, pad, n, d, hi);
    }
    forall lin | Kept(values, pad, lin) && lin < n + 1 ensures lo <= Multi(lin, shape)[d] <= hi {
      assert lin < n;
    }
  }

  lemma ExtremesKeep<T>(values: seq<T>, shape: seq<int>, pad: T, n: int, d: nat, lo: int, hi: int)
    requires Positive(shape) && d < |shape| && ExtremesAt(values, shape, pad, n, d, lo, hi)
    requires 0 <= n < |values| == Product(shape) && values[n] != pad
    ensures var x := Multi(n, shape)[d];
      ExtremesAt(values, shape, pad, n + 1, d, Min(lo, x), Max(hi, x))
  {
    hide Multi, Product, Linear, ReachedBy, AnyKept;
    var x := Multi(n, shape)[d];
    MultiThenLinear(n, shape);
    AnyKeptStep(values, pad, n);
    ReachedHere(values, shape, pad, n, d);
    if AnyKept(values, pad, n) {
      ReachedLater(values, shape, pad, n, d, lo);
      ReachedLater(values, shape, pad, n, d, hi);
    }
    forall lin | Kept(values, pad, lin) && lin < n + 1
      ensures Min(lo, x) <= Multi(lin, shape)[d] <= Max(hi, x)
    {
      if lin < n { assert Kept(values, pad, lin) && lin < n; }
    }
  }

  lemma ReachedHere<T>(values: seq<T>, shape: seq<int>, pad: T, n: int, d: nat)
    requires Positive(shape) && d < |shape| && Kept(values, pad, n)
    ensures ReachedBy(values, shape, pad, n + 1, d, Multi(n, shape)[d])
  {
    assert Kept(values, pad, n) && n < n + 1;
  }

  /** Amounts of padding for one value: the complement of the bounding box of the
      other elements; a tensor of padding only counts as padded below everywhere. */
  ghost predicate AmountsFor<T>(values: seq<T>, shape: seq<int>, pad: T, a: Amounts) {
    && IsBox(a.low, a.high, shape)
    && a.total == |values| - Product(InnerShape(a.low, a.high, shape))
    && (if AnyKept(values, pad, |values|) then BoundingBox(values, shape, pad, a.low, a.high)
        else a.low == shape && forall d | 0 <= d < |shape| :: a.high[d] == 0)
  }

  /** The conversion of extreme indices to padding amounts. */
  method ToAmounts(shape: seq<int>, mins: seq<int>, maxs: seq<int>) returns (low: seq<int>, high: seq<int>)
    requires |mins| == |maxs| == |shape|
    ensures |low| == |high| == |shape|
    ensures forall d | 0 <= d < |shape| ::
      if maxs[d] < 0 then low[d] == shape[d] && high[d] == 0
      else low[d] == mins[d] && high[d] == shape[d] - 1 - maxs[d]
  {
    low, high := [], [];
    for d := 0 to |shape|
      invariant |low| == |high| == d
      invariant forall e | 0 <= e < d ::
        if maxs[e] < 0 then low[e] == shape[e] && high[e] == 0
        else low[e] == mins[e] && high[e] == shape[e] - 1 - maxs[e]
    {
      if maxs[d] < 0 {
        low, high := low + [shape[d]], high + [0];
      } else {
        low, high := low + [mins[d]], high + [shape[d] - 1 - maxs[d]];
      }
    }
  }

  /** The product of a sequence of extents, left to right. */
  lemma ReachedTouches<T>(values: seq<T>, shape: seq<int>, pad: T, n: int, d: nat, x: int)
    requires Positive(shape) && d < |shape| && |values| == Product(shape) && ReachedBy(values, shape, pad, n, d, x)
    ensures Touches(values, shape, pad, d, x) && 0 <= x < shape[d]
  {
    var lin :| Kept(values, pad, lin) && lin < n && Multi(lin, shape)[d] == x;
    MultiThenLinear(lin, shape);
  }

  lemma ExtremesFace<T>(values: seq<T>, shape: seq<int>, pad: T, d: nat, lo: int, hi: int)
    requires Positive(shape) && d < |shape| && |values| == Product(shape)
    requires ExtremesAt(values, shape, pad, |values|, d, lo, hi) && AnyKept(values, pad, |values|)
    ensures 0 <= hi && FaceToFace(values, shape, pad, d, lo, shape[d] - 1 - hi)
  {
    ReachedTouches(values, shape, pad, |values|, d, lo);
    ReachedTouches(values, shape, pad, |values|, d, hi);
    var lin :| Kept(values, pad, lin) && lin < |values|;
    assert lo <= Multi(lin, shape)[d] <= hi;
    forall k | Kept(values, pad, k) ensures lo <= Multi(k, shape)[d] <= hi { assert k < |values|; }
  }

  lemma AmountsCorrect<T>(values: seq<T>, shape: seq<int>, pad: T, mins: seq<int>, maxs: seq<int>,
                          low: seq<int>, high: seq<int>)
    requires Extremes(values, shape, pad, |values|, mins, maxs) && |values| == Product(shape)
    requires |low| == |high| == |shape|
    requires forall d | 0 <= d < |shape| ::
      if maxs[d] < 0 then low[d] == shape[d] && high[d] == 0
      else low[d] == mins[d] && high[d] == shape[d] - 1 - maxs[d]
    ensures AmountsFor(values, shape, pad, Amounts(low, high, |values| - Product(InnerShape(low, high, shape))))
  {
    forall d: nat | d < |shape|
      ensures AnyKept(values, pad, |values|) ==> FaceToFace(values, shape, pad, d, low[d], high[d])
      ensures !AnyKept(values, pad, |values|) ==> low[d] == shape[d] && high[d] == 0
      ensures 0 <= low[d] && 0 <= high[d] && low[d] + high[d] <= shape[d]
    {
      assert ExtremesAt(values, shape, pad, |values|, d, mins[d], maxs[d]);
      if AnyKept(values, pad, |values|) { ExtremesFace(values, shape, pad, d, mins[d], maxs[d]); }
    }
  }

  /** `detectPaddingWithValue` */
  method DetectPaddingWithValue<T(==)>(values: seq<T>, shape: seq<int>, strides: seq<int>, pad: T) returns (a: Amounts)
    requires Positive(shape) && |values| == Product(shape) && StridesOf(strides, shape)
    ensures AmountsFor(values, shape, pad, a)
  {
    hide ExtremesAt, AmountsFor;
    var rank := |shape|;
    var mins, maxs := shape, seq(rank, _ => -1);
    var linearIdx := 0;
    ExtremesStart(values, shape, pad, mins, maxs);
    while linearIdx < |values|
      invariant 0 <= linearIdx <= |values| && Extremes(values, shape, pad, linearIdx, mins, maxs)
    {
      if values[linearIdx] != pad {
        var indices := LinearToMultiIndex(linearIdx, strides, shape);
        ghost var mins0, maxs0 := mins, maxs;
        mins, maxs := UpdateExtremes(mins, maxs, indices);
        forall d: nat | d < rank { ExtremesKeep(values, shape, pad, linearIdx, d, mins0[d], maxs0[d]); }
      } else {
        forall d: nat | d < rank { ExtremesSkip(values, shape, pad, linearIdx, d, mins[d], maxs[d]); }
      }
      linearIdx := linearIdx + 1;
    }
    var low, high := ToAmounts(shape, mins, maxs);
    AmountsCorrect(values, shape, pad, mins, maxs, low, high);
    var innerElements := ProductOf(InnerShape(low, high, shape));
    a := Amounts(low, high, |values| - innerElements);
  }

  // ---------------------------------------------------------------- the result

  /** StableHLO `pad` without interior padding: the inner tensor inside its box, the value outside. */
  function PadAt<T>(p: Padded<T>, shape: seq<int>, idx: Index): T
    requires Positive(shape) && IsBox(p.low, p.high, shape) && p.innerShape == InnerShape(p.low, p.high, shape)
    requires Positive(p.innerShape) && |p.inner| == Product(p.innerShape) && InBounds(idx, shape)
  {
    if InBox(idx, p.low, p.high, shape) then
      var inner := Moved(idx, p.low, -1);
      LinearThenMulti(inner, p.innerShape);
      p.inner[Linear(inner, p.innerShape)]
    else p.value
  }

  /** idx + sign * low */
  function Moved(idx: Index, low: seq<int>, sign: int): (r: Index)
    requires |idx| == |low|
    ensures |r| == |idx| && forall d | 0 <= d < |idx| :: r[d] == idx[d] + sign * low[d]
  {
    seq(|idx|, d requires 0 <= d < |idx| => idx[d] + sign * low[d])
  }

  /** p describes the tensor: padding its inner tensor rebuilds it at every index. */
  ghost predicate Rebuilds<T>(p: Padded<T>, values: seq<T>, shape: seq<int>) {
    && Positive(shape) && |values| == Product(shape)
    && IsBox(p.low, p.high, shape) && p.innerShape == InnerShape(p.low, p.high, shape)
    && Positive(p.innerShape) && |p.inner| == Product(p.innerShape)
    && forall idx | InBounds(idx, shape) ::
         (LinearThenMulti(idx, shape); values[Linear(idx, shape)] == PadAt(p, shape, idx))
  }

  /** The elements of the box, in row-major order of the inner shape. */
  ghost predicate InnerValues<T>(inner: seq<T>, n: int, values: seq<T>, shape: seq<int>, low: seq<int>, innerShape: seq<int>) {
    && Positive(shape) && Positive(innerShape) && |values| == Product(shape) && |low| == |shape| == |innerShape|
    && 0 <= n <= |inner| && n <= Product(innerShape)
    && forall k | 0 <= k < n ::
         var idx := Moved(Multi(k, innerShape), low, 1);
         InBounds(idx, shape) && 0 <= Linear(idx, shape) < |values| && inner[k] == values[Linear(idx, shape)]
  }

  lemma MovedInBounds(k: int, low: seq<int>, high: seq<int>, shape: seq<int>)
    requires Positive(shape) && IsBox(low, high, shape) && Positive(InnerShape(low, high, shape))
    requires 0 <= k < Product(InnerShape(low, high, shape))
    ensures var idx := Moved(Multi(k, InnerShape(low, high, shape)), low, 1);
      InBounds(idx, shape) && 0 <= Linear(idx, shape) < Product(shape)
  {
    var innerShape := InnerShape(low, high, shape);
    MultiThenLinear(k, innerShape);
    LinearThenMulti(Moved(Multi(k, innerShape), low, 1), shape);
  }

  /** The loop that collects the inner values. */
  method CollectInner<T>(values: seq<T>, shape: seq<int>, strides: seq<int>, low: seq<int>, ghost high: seq<int>,
                         innerShape: seq<int>, n: int) returns (inner: seq<T>)
    requires Positive(shape) && StridesOf(strides, shape) && |values| == Product(shape)
    requires IsBox(low, high, shape) && innerShape == InnerShape(low, high, shape) && Positive(innerShape)
    requires n == Product(innerShape)
    ensures |inner| == n && InnerValues(inner, n, values, shape, low, innerShape)
  {
    var innerStrides := ComputeStrides(innerShape);
    inner := [];
    ProductPositive(innerShape);
    var innerLinear := 0;
    while innerLinear < n
      invariant 0 <= innerLinear <= n && |inner| == innerLinear
      invariant InnerValues(inner, innerLinear, values, shape, low, innerShape)
    {
      var innerIndices := LinearToMultiIndex(innerLinear, innerStrides, innerShape);
      var origIndices := Moved(innerIndices, low, 1);
      MovedInBounds(innerLinear, low, high, shape);
      var origLinear := MultiToLinearIndex(origIndices, strides, shape);
      inner := inner + [values[origLinear]];
      innerLinear := innerLinear + 1;
    }
  }

  /** An element inside the box is found in the inner tensor, and an element outside is the padding value. */
  lemma InnerRebuilds<T>(p: Padded<T>, values: seq<T>, shape: seq<int>)
    requires Positive(shape) && |values| == Product(shape) && IsBox(p.low, p.high, shape)
    requires p.innerShape == InnerShape(p.low, p.high, shape) && Positive(p.innerShape)
    requires |p.inner| == Product(p.innerShape)
    requires InnerValues(p.inner, |p.inner|, values, shape, p.low, p.innerShape)
    requires forall lin | Kept(values, p.value, lin) :: InBox(Multi(lin, shape), p.low, p.high, shape)
    ensures Rebuilds(p, values, shape)
  {
    hide Linear, Multi, Product, Moved, PadAt, InnerValues, InBox;
    forall idx | InBounds(idx, shape)
      ensures 0 <= Linear(idx, shape) < |values| && values[Linear(idx, shape)] == PadAt(p, shape, idx)
    {
      LinearThenMulti(idx, shape);
      if InBox(idx, p.low, p.high, shape) {
        InsideBox(p, values, shape, idx);
      } else {
        assert !Kept(values, p.value, Linear(idx, shape));
        OutsideBox(p, shape, idx);
      }
    }
  }

  lemma OutsideBox<T>(p: Padded<T>, shape: seq<int>, idx: Index)
    requires Positive(shape) && IsBox(p.low, p.high, shape) && p.innerShape == InnerShape(p.low, p.high, shape)
    requires Positive(p.innerShape) && |p.inner| == Product(p.innerShape) && InBounds(idx, shape)
    requires !InBox(idx, p.low, p.high, shape)
    ensures PadAt(p, shape, idx) == p.value
  {
  }

  lemma InsideBox<T>(p: Padded<T>, values: seq<T>, shape: seq<int>, idx: Index)
    requires Positive(shape) && |values| == Product(shape) && IsBox(p.low, p.high, shape)
    requires p.innerShape == InnerShape(p.low, p.high, shape) && Positive(p.innerShape)
    requires |p.inner| == Product(p.innerShape) && InBounds(idx, shape) && InBox(idx, p.low, p.high, shape)
    requires InnerValues(p.inner, |p.inner|, values, shape, p.low, p.innerShape)
    ensures 0 <= Linear(idx, shape) < |values| && values[Linear(idx, shape)] == PadAt(p, shape, idx)
  {
    hide Linear, Multi, Product;
    var inner := Moved(idx, p.low, -1);
    LinearThenMulti(inner, p.innerShape);
    assert Moved(inner, p.low, 1) == idx;
    InnerValueAt(p.inner, values, shape, p.low, p.innerShape, Linear(inner, p.innerShape));
  }

  lemma InnerValueAt<T>(inner: seq<T>, values: seq<T>, shape: seq<int>, low: seq<int>, innerShape: seq<int>, k: int)
    requires InnerValues(inner, |inner|, values, shape, low, innerShape) && 0 <= k < |inner|
    ensures var idx := Moved(Multi(k, innerShape), low, 1);
      InBounds(idx, shape) && 0 <= Linear(idx, shape) < |values| && inner[k] == values[Linear(idx, shape)]
  {
  }

  /** No bounding box for this value has less than half the elements. */
  ghost predicate NotWorthIt<T>(values: seq<T>, shape: seq<int>, pad: T) {
    forall low, high | BoundingBox(values, shape, pad, low, high) ::
      2 * Product(InnerShape(low, high, shape)) >= |values|
  }

  /** What the amounts found for one value say when something else occurs. */
  lemma BoxOfAmounts<T>(values: seq<T>, shape: seq<int>, pad: T, a: Amounts, k: int)
    requires Positive(shape) && |values| == Product(shape) && AmountsFor(values, shape, pad, a) && Kept(values, pad, k)
    ensures BoundingBox(values, shape, pad, a.low, a.high)
    ensures IsBox(a.low, a.high, shape) && Positive(InnerShape(a.low, a.high, shape))
    ensures a.total == |values| - Product(InnerShape(a.low, a.high, shape))
    ensures NotWorthIt(values, shape, pad) <==> 2 * Product(InnerShape(a.low, a.high, shape)) >= |values|
  {
    assert Kept(values, pad, k) && k < |values|;
    BoundingBoxNonEmpty(values, shape, pad, a.low, a.high);
    forall low, high | BoundingBox(values, shape, pad, low, high) ensures low == a.low && high == a.high {
      BoundingBoxUnique(values, shape, pad, low, high, a.low, a.high);
    }
  }

  lemma BoxContains<T>(values: seq<T>, shape: seq<int>, pad: T, low: seq<int>, high: seq<int>)
    requires BoundingBox(values, shape, pad, low, high)
    ensures forall lin | Kept(values, pad, lin) :: InBox(Multi(lin, shape), low, high, shape)
  {
    forall lin, d: nat | Kept(values, pad, lin) && d < |shape| ensures low[d] <= Multi(lin, shape)[d] < shape[d] - high[d] {
      assert FaceToFace(values, shape, pad, d, low[d], high[d]);
    }
  }

  /** Extracting the box of one padding value, unless it is not worth it. */
  method Extract<T(==)>(values: seq<T>, shape: seq<int>, strides: seq<int>, pad: T, low: seq<int>, high: seq<int>)
    returns (r: Option<Padded<T>>)
    requires Positive(shape) && |values| == Product(shape) && StridesOf(strides, shape)
    requires BoundingBox(values, shape, pad, low, high)
    requires IsBox(low, high, shape) && Positive(InnerShape(low, high, shape))
    ensures r.Some? ==> Rebuilds(r.value, values, shape) && 0 < 2 * |r.value.inner| < |values|
    ensures r.Some? ==> r.value.value == pad && r.value.low == low && r.value.high == high
    ensures r.None? <==> 2 * Product(InnerShape(low, high, shape)) >= |values|
  {
    hide BoundingBox, Rebuilds, InnerValues;
    var hasPadding := exists d | 0 <= d < |shape| :: low[d] > 0 || high[d] > 0;
    if !hasPadding {
      assert InnerShape(low, high, shape) == shape;
      ProductPositive(shape);
      return None;
    }
    var innerShape := InnerShape(low, high, shape);
    if exists d | 0 <= d < |shape| :: innerShape[d] <= 0 {
      return None;
    }
    var innerNumElements := ProductOf(innerShape);
    ProductPositive(innerShape);
    if innerNumElements * 2 >= |values| {
      return None;
    }
    var inner := CollectInner(values, shape, strides, low, high, innerShape, innerNumElements);
    var p := Padded(inner, innerShape, pad, low, high);
    BoxContains(values, shape, pad, low, high);
    InnerRebuilds(p, values, shape);
    r := Some(p);
  }

  /** `detectPaddedTensorImpl` on a tensor that is not a splat: a result rebuilds
      the tensor and has less than half of its elements; no result means that
      neither the first nor the last element allows such a box. */
  method DetectPaddedTensor<T(==)>(values: seq<T>, shape: seq<int>) returns (r: Option<Padded<T>>)
    requires Positive(shape) && |values| == Product(shape)
    requires exists k :: 0 <= k < |values| && values[k] != values[0]
    ensures r.Some? ==> Rebuilds(r.value, values, shape) && 0 < 2 * |r.value.inner| < |values|
    ensures r.Some? ==> r.value.value == values[0] || r.value.value == values[|values| - 1]
    ensures r.Some? ==> BoundingBox(values, shape, r.value.value, r.value.low, r.value.high)
    ensures r.None? <==> NotWorthIt(values, shape, values[0]) && NotWorthIt(values, shape, values[|values| - 1])
  {
    hide BoundingBox, Rebuilds, AmountsFor, NotWorthIt, Multi;
    var strides := ComputeStrides(shape);
    var n := |values|;
    var first := DetectPaddingWithValue(values, shape, strides, values[0]);
    var last := DetectPaddingWithValue(values, shape, strides, values[n - 1]);
    ghost var k :| 0 <= k < n && values[k] != values[0];
    BoxOfAmounts(values, shape, values[0], first, k);
    BoxOfAmounts(values, shape, values[n - 1], last, if values[0] != values[n - 1] then 0 else k);
    if last.total > first.total {
      r := Extract(values, shape, strides, values[n - 1], last.low, last.high);
    } else {
      r := Extract(values, shape, strides, values[0], first.low, first.high);
    }
  }
}
